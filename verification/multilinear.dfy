/** The multilinear blend of the table values at the corners of one grid
    cell. Per dimension the cell has a lower and an upper knot, each with a
    weight. The blend is reduced one dimension at a time (Blend), and that
    equals the sum over the 2^d cell corners, in the order of a binary
    counter whose digit 0 flips fastest, of the product of the corner's knot
    weights times its table value (Prefix, PrefixStep, PrefixAll). The
    interpolated value uses the weights 1 - alpha and alpha of the fraction
    alpha within the cell; its derivative with respect to one axis's alpha
    uses -1 and +1 on that axis. */
module Multilinear {
  import opened Layout
  import opened Corners

  /** What a blend computes: the interpolated value, or its derivative with
      respect to the fractional position along one axis. */
  datatype Output = Value | Partial(axis: nat)

  /** A grid cell to blend over: per dimension the flat-table offset of its
      lower knot, and the weights of its lower and upper knot. */
  datatype Cell = Cell(low: seq<int>, lo: seq<real>, hi: seq<real>)

  /** `st` holds the strides of the table's dimensions: the upper knot of
      axis j lies st[j] entries after the lower one. */
  predicate Fits(st: seq<int>, cell: Cell)
  {
    |cell.low| == |st| && |cell.lo| == |st| && |cell.hi| == |st|
  }

  /** Weight of the lower knot of axis `j` for output `out` at fraction
      `alpha[j]`: its complement, or -1 on the axis being differentiated. */
  function LoWeight(alpha: seq<real>, out: Output, j: nat): real
    requires j < |alpha|
  {
    if out == Partial(j) then -1.0 else 1.0 - alpha[j]
  }

  /** Weight of the upper knot: the fraction, or 1 on the axis being
      differentiated. */
  function HiWeight(alpha: seq<real>, out: Output, j: nat): real
    requires j < |alpha|
  {
    if out == Partial(j) then 1.0 else alpha[j]
  }

  /** The cell's knot weights are those of the fractions `alpha` for `out`. */
  predicate Weighs(cell: Cell, alpha: seq<real>, out: Output)
  {
    |cell.lo| == |alpha| && |cell.hi| == |alpha| &&
    forall j :: 0 <= j < |alpha| ==> cell.lo[j] == LoWeight(alpha, out, j) && cell.hi[j] == HiWeight(alpha, out, j)
  }

  /** The cell with lower-knot offsets `low` and the weights of the
      fractions `alpha` for output `out`. */
  function CellFor(low: seq<int>, alpha: seq<real>, out: Output): (cell: Cell)
    ensures cell.low == low && Weighs(cell, alpha, out)
  {
    Cell(low,
         seq(|alpha|, j requires 0 <= j < |alpha| => LoWeight(alpha, out, j)),
         seq(|alpha|, j requires 0 <= j < |alpha| => HiWeight(alpha, out, j)))
  }

  /** Table entry `i`; the blends below only ask for entries in range. */
  function At(values: seq<real>, i: int): real
  {
    if 0 <= i < |values| then values[i] else 0.0
  }

  /** Flat offset of the lower (bit 0) or upper (bit 1) slice along axis
      `j` of the cell, within the block starting at `off`. */
  function Child(st: seq<int>, cell: Cell, j: nat, bit: int, off: int): int
    requires Fits(st, cell) && j < |st|
  {
    off + cell.low[j] + (if bit == 1 then st[j] else 0)
  }

  /** Successive reduction: blend dimensions 0..k-1 of the cell whose
      higher dimensions are fixed at flat offset `off`, collapsing dimension
      k-1 by a 1-D blend of two (k-1)-dimensional blends. */
  function Blend(st: seq<int>, values: seq<real>, cell: Cell, k: nat, off: int): real
    requires Fits(st, cell) && k <= |st|
  {
    if k == 0 then At(values, off)
    else
      Mul(cell.lo[k - 1], Blend(st, values, cell, k - 1, Child(st, cell, k - 1, 0, off)))
      + Mul(cell.hi[k - 1], Blend(st, values, cell, k - 1, Child(st, cell, k - 1, 1, off)))
  }

  /** Weight of the lower (bit 0) or upper (bit 1) knot of axis `j`. */
  function KnotWeight(cell: Cell, j: nat, bit: int): real
    requires j < |cell.lo| && j < |cell.hi|
  {
    if bit == 1 then cell.hi[j] else cell.lo[j]
  }

  /** Product of the knot weights of corner `c`. */
  function Weight(cell: Cell, c: seq<int>): real
    requires |c| <= |cell.lo| && |c| <= |cell.hi|
  {
    if |c| == 0 then 1.0
    else Mul(Weight(cell, c[..|c| - 1]), KnotWeight(cell, |c| - 1, c[|c| - 1]))
  }

  /** Flat offset of corner `c` of the cell, relative to the block of its
      higher dimensions. */
  function CornerOffset(st: seq<int>, cell: Cell, c: seq<int>): int
    requires Fits(st, cell) && |c| <= |st|
  {
    if |c| == 0 then 0
    else CornerOffset(st, cell, c[..|c| - 1]) + Child(st, cell, |c| - 1, c[|c| - 1], 0)
  }

  /** Contribution of corner `c` of dimensions 0..|c|-1 of the block at
      `off`, the higher dimensions having contributed the weight `w`: the
      corner's digits are consumed from the highest axis down. */
  function Term(st: seq<int>, values: seq<real>, cell: Cell, off: int, c: seq<int>, w: real): real
    requires Fits(st, cell) && |c| <= |st|
    decreases |c|
  {
    if |c| == 0 then Mul(w, At(values, off))
    else
      var k := |c| - 1;
      Term(st, values, cell, Child(st, cell, k, c[k], off), c[..k], Mul(w, KnotWeight(cell, k, c[k])))
  }

  /** A corner's contribution is its weight times its table value. */
  lemma {:induction false} TermIsWeighted(st: seq<int>, values: seq<real>, cell: Cell, off: int, c: seq<int>, w: real)
    requires Fits(st, cell) && |c| <= |st|
    ensures Term(st, values, cell, off, c, w) == Mul(w, Mul(Weight(cell, c), At(values, off + CornerOffset(st, cell, c))))
    decreases |c|
  {
    if |c| > 0 {
      var k := |c| - 1;
      var a := KnotWeight(cell, k, c[k]);
      var child := Child(st, cell, k, c[k], off);
      TermIsWeighted(st, values, cell, child, c[..k], Mul(w, a));
      assert child + CornerOffset(st, cell, c[..k]) == off + CornerOffset(st, cell, c);
      Regroup(w, a, Weight(cell, c[..k]), At(values, off + CornerOffset(st, cell, c)));
    } else {
      assert Mul(Weight(cell, c), At(values, off)) == At(values, off);
    }
  }

  lemma Regroup(w: real, a: real, u: real, v: real)
    ensures Mul(Mul(w, a), Mul(u, v)) == Mul(w, Mul(Mul(u, a), v))
  {
    assert (w * a) * (u * v) == w * ((u * a) * v);
  }

  /** Product of a weight and a factor. Naming it keeps products of reals
      out of the solver's nonlinear arithmetic except where a lemma
      multiplies them out. */
  function Mul(x: real, y: real): real
  {
    x * y
  }

  /** Sum of the contributions of the first `count` corners of dimensions
      0..k-1 of the block at `off`, in counting order: the first 2^(k-1)
      corners take the lower knot of axis k-1, the others its upper knot. */
  function Prefix(st: seq<int>, values: seq<real>, cell: Cell, k: nat, off: int, count: nat, w: real): real
    requires Fits(st, cell) && k <= |st|
  {
    if k == 0 then (if count == 0 then 0.0 else Mul(w, At(values, off)))
    else if count <= Pow2(k - 1) then
      Prefix(st, values, cell, k - 1, Child(st, cell, k - 1, 0, off), count, Mul(w, cell.lo[k - 1]))
    else
      Prefix(st, values, cell, k - 1, Child(st, cell, k - 1, 0, off), Pow2(k - 1), Mul(w, cell.lo[k - 1]))
      + Prefix(st, values, cell, k - 1, Child(st, cell, k - 1, 1, off), count - Pow2(k - 1), Mul(w, cell.hi[k - 1]))
  }

  lemma {:induction false} PrefixNone(st: seq<int>, values: seq<real>, cell: Cell, k: nat, off: int, w: real)
    requires Fits(st, cell) && k <= |st|
    ensures Prefix(st, values, cell, k, off, 0, w) == 0.0
  {
    if k > 0 {
      PrefixNone(st, values, cell, k - 1, Child(st, cell, k - 1, 0, off), Mul(w, cell.lo[k - 1]));
    }
  }

  /** Prefix sums split on the digit of axis k: a count within the first
      half (h = 2^k corners) stays on the lower knot, a larger one adds the
      whole lower half. */
  lemma PrefixSplit(st: seq<int>, values: seq<real>, cell: Cell, dims: nat, k: nat, off: int, w: real, bit: int,
                    h: nat, count: nat, total: nat, base: real)
    requires Fits(st, cell) && dims == k + 1 && dims <= |st| && (bit == 0 || bit == 1)
    requires h == Pow2(k) && count <= h && total == (if bit == 1 then h + count else count)
    requires base == (if bit == 1 then Prefix(st, values, cell, k, Child(st, cell, k, 0, off), h, Mul(w, cell.lo[k])) else 0.0)
    ensures Prefix(st, values, cell, dims, off, total, w) ==
      base + Prefix(st, values, cell, k, Child(st, cell, k, bit, off), count, Mul(w, KnotWeight(cell, k, bit)))
  {
    assert dims - 1 == k;
    if bit == 1 && count == 0 {
      PrefixNone(st, values, cell, k, Child(st, cell, k, 1, off), Mul(w, cell.hi[k]));
    }
  }

  /** Summing the contributions of all 2^k corners gives the successive
      reduction. */
  lemma {:induction false} PrefixAll(st: seq<int>, values: seq<real>, cell: Cell, k: nat, off: int, w: real, n: nat)
    requires Fits(st, cell) && k <= |st| && n == Pow2(k)
    ensures Prefix(st, values, cell, k, off, n, w) == Mul(w, Blend(st, values, cell, k, off))
  {
    if k > 0 {
      var h := Pow2(k - 1);
      var off0, off1 := Child(st, cell, k - 1, 0, off), Child(st, cell, k - 1, 1, off);
      var lo, hi := cell.lo[k - 1], cell.hi[k - 1];
      var b0, b1 := Blend(st, values, cell, k - 1, off0), Blend(st, values, cell, k - 1, off1);
      PrefixAll(st, values, cell, k - 1, off0, Mul(w, lo), h);
      PrefixAll(st, values, cell, k - 1, off1, Mul(w, hi), h);
      var p0 := Prefix(st, values, cell, k - 1, off0, h, Mul(w, lo));
      PrefixSplit(st, values, cell, k, k - 1, off, w, 1, h, h, n, p0);
      Distrib(w, lo, b0, hi, b1, Blend(st, values, cell, k, off),
        Prefix(st, values, cell, k, off, n, w), p0, Prefix(st, values, cell, k - 1, off1, h, Mul(w, hi)));
    }
  }

  lemma Distrib(w: real, a: real, x: real, b: real, y: real, z: real, p: real, p0: real, p1: real)
    requires z == Mul(a, x) + Mul(b, y)
    requires p == p0 + p1 && p0 == Mul(Mul(w, a), x) && p1 == Mul(Mul(w, b), y)
    ensures p == Mul(w, z)
  {
  }

  /** Adding corner `c` to the sum of the corners numbered before it: the
      corners are summed in counting order. */
  lemma {:induction false} PrefixStep(st: seq<int>, values: seq<real>, cell: Cell, c: seq<int>, off: int, w: real)
    requires Fits(st, cell) && |c| <= |st| && IsCorner(c)
    ensures Num(c) < Pow2(|c|)
    ensures Prefix(st, values, cell, |c|, off, Num(c) + 1, w) ==
      Prefix(st, values, cell, |c|, off, Num(c), w) + Term(st, values, cell, off, c, w)
  {
    NumBound(c);
    if |c| > 0 {
      var k := |c| - 1;
      var c' := c[..k];
      var bit := c[k];
      NumBound(c');
      var h := Pow2(k);
      var child := Child(st, cell, k, bit, off);
      var w' := Mul(w, KnotWeight(cell, k, bit));
      var base := if bit == 1 then Prefix(st, values, cell, k, Child(st, cell, k, 0, off), h, Mul(w, cell.lo[k])) else 0.0;
      PrefixStep(st, values, cell, c', child, w');
      PrefixSplit(st, values, cell, |c|, k, off, w, bit, h, Num(c'), Num(c), base);
      PrefixSplit(st, values, cell, |c|, k, off, w, bit, h, Num(c') + 1, Num(c) + 1, base);
    }
  }

  /** Cells whose lower knots and weights agree on axes 0..k-1 have the
      same reduction over those axes. */
  lemma {:induction false} BlendFrame(st: seq<int>, values: seq<real>, a: Cell, b: Cell, k: nat, off: int)
    requires Fits(st, a) && Fits(st, b) && k <= |st|
    requires forall j :: 0 <= j < k ==> a.low[j] == b.low[j] && a.lo[j] == b.lo[j] && a.hi[j] == b.hi[j]
    ensures Blend(st, values, a, k, off) == Blend(st, values, b, k, off)
  {
    if k > 0 {
      BlendFrame(st, values, a, b, k - 1, Child(st, a, k - 1, 0, off));
      BlendFrame(st, values, a, b, k - 1, Child(st, a, k - 1, 1, off));
    }
  }

  /** When every axis puts its whole weight on one knot, the blend is the
      table value at the corner made of those knots. */
  lemma {:induction false} BlendAtCorner(st: seq<int>, values: seq<real>, cell: Cell, c: seq<int>, off: int)
    requires Fits(st, cell) && |c| <= |st| && IsCorner(c)
    requires forall j :: 0 <= j < |c| ==> cell.lo[j] == (1 - c[j]) as real && cell.hi[j] == c[j] as real
    ensures Blend(st, values, cell, |c|, off) == At(values, off + CornerOffset(st, cell, c))
  {
    if |c| > 0 {
      var k := |c| - 1;
      var c' := c[..k];
      var bit := c[k];
      var off0, off1 := Child(st, cell, k, 0, off), Child(st, cell, k, 1, off);
      BlendAtCorner(st, values, cell, c', Child(st, cell, k, bit, off));
      var b0, b1 := Blend(st, values, cell, k, off0), Blend(st, values, cell, k, off1);
      if bit == 0 {
        Select(b0, b1, 1.0, 0.0);
      } else {
        Select(b0, b1, 0.0, 1.0);
      }
    }
  }

  lemma Select(b0: real, b1: real, l: real, h: real)
    requires (l == 1.0 && h == 0.0) || (l == 0.0 && h == 1.0)
    ensures Mul(l, b0) + Mul(h, b1) == if l == 1.0 then b0 else b1
  {
  }

  /** The blend is affine in the weights of one axis `j`: moving the
      weights of `j` by `t` times those of a third cell that agrees
      elsewhere moves the blend by `t` times that cell's blend. */
  lemma {:induction false} BlendAffine(st: seq<int>, values: seq<real>, a: Cell, b: Cell, p: Cell, j: nat, t: real,
                                       k: nat, off: int)
    requires Fits(st, a) && Fits(st, b) && Fits(st, p) && j < k <= |st|
    requires a.low == b.low == p.low
    requires forall i :: 0 <= i < |st| && i != j ==>
      a.lo[i] == b.lo[i] == p.lo[i] && a.hi[i] == b.hi[i] == p.hi[i]
    requires a.lo[j] == b.lo[j] + Mul(t, p.lo[j]) && a.hi[j] == b.hi[j] + Mul(t, p.hi[j])
    ensures Blend(st, values, a, k, off) == Blend(st, values, b, k, off) + Mul(t, Blend(st, values, p, k, off))
  {
    if k - 1 == j {
      AffineAxis(st, values, a, b, p, j, t, off);
    } else {
      BlendAffine(st, values, a, b, p, j, t, k - 1, Child(st, a, k - 1, 0, off));
      BlendAffine(st, values, a, b, p, j, t, k - 1, Child(st, a, k - 1, 1, off));
      AffineAbove(st, values, a, b, p, t, k, off);
    }
  }

  /** BlendAffine above the axis: all three cells blend their slices with
      the same weights. */
  lemma AffineAbove(st: seq<int>, values: seq<real>, a: Cell, b: Cell, p: Cell, t: real, k: nat, off: int)
    requires Fits(st, a) && Fits(st, b) && Fits(st, p) && 0 < k <= |st|
    requires a.low == b.low == p.low
    requires a.lo[k - 1] == b.lo[k - 1] == p.lo[k - 1] && a.hi[k - 1] == b.hi[k - 1] == p.hi[k - 1]
    requires var c := Child(st, a, k - 1, 0, off);
      Blend(st, values, a, k - 1, c) == Blend(st, values, b, k - 1, c) + Mul(t, Blend(st, values, p, k - 1, c))
    requires var c := Child(st, a, k - 1, 1, off);
      Blend(st, values, a, k - 1, c) == Blend(st, values, b, k - 1, c) + Mul(t, Blend(st, values, p, k - 1, c))
    ensures Blend(st, values, a, k, off) == Blend(st, values, b, k, off) + Mul(t, Blend(st, values, p, k, off))
  {
    var off0, off1 := Child(st, a, k - 1, 0, off), Child(st, a, k - 1, 1, off);
    assert Child(st, b, k - 1, 0, off) == Child(st, p, k - 1, 0, off) == off0;
    assert Child(st, b, k - 1, 1, off) == Child(st, p, k - 1, 1, off) == off1;
    LinearStep(a.lo[k - 1], a.hi[k - 1], t,
      Blend(st, values, b, k - 1, off0), Blend(st, values, b, k - 1, off1),
      Blend(st, values, p, k - 1, off0), Blend(st, values, p, k - 1, off1));
  }

  /** BlendAffine on the axis itself: the lower axes blend the same two
      slices in all three cells. */
  lemma AffineAxis(st: seq<int>, values: seq<real>, a: Cell, b: Cell, p: Cell, j: nat, t: real, off: int)
    requires Fits(st, a) && Fits(st, b) && Fits(st, p) && j < |st|
    requires a.low == b.low == p.low
    requires forall i :: 0 <= i < |st| && i != j ==>
      a.lo[i] == b.lo[i] == p.lo[i] && a.hi[i] == b.hi[i] == p.hi[i]
    requires a.lo[j] == b.lo[j] + Mul(t, p.lo[j]) && a.hi[j] == b.hi[j] + Mul(t, p.hi[j])
    ensures Blend(st, values, a, j + 1, off) == Blend(st, values, b, j + 1, off) + Mul(t, Blend(st, values, p, j + 1, off))
  {
    var off0, off1 := Child(st, a, j, 0, off), Child(st, a, j, 1, off);
    assert Child(st, b, j, 0, off) == Child(st, p, j, 0, off) == off0;
    assert Child(st, b, j, 1, off) == Child(st, p, j, 1, off) == off1;
    BlendFrame(st, values, a, b, j, off0);
    BlendFrame(st, values, a, b, j, off1);
    BlendFrame(st, values, a, p, j, off0);
    BlendFrame(st, values, a, p, j, off1);
    AffineStep(a.lo[j], a.hi[j], b.lo[j], b.hi[j], p.lo[j], p.hi[j], t,
      Blend(st, values, a, j, off0), Blend(st, values, a, j, off1));
  }

  lemma AffineStep(la: real, ha: real, lb: real, hb: real, lp: real, hp: real, t: real, x0: real, x1: real)
    requires la == lb + Mul(t, lp) && ha == hb + Mul(t, hp)
    ensures Mul(la, x0) + Mul(ha, x1) == Mul(lb, x0) + Mul(hb, x1) + Mul(t, Mul(lp, x0) + Mul(hp, x1))
  {
  }

  lemma LinearStep(l: real, h: real, t: real, b0: real, b1: real, p0: real, p1: real)
    ensures Mul(l, b0 + Mul(t, p0)) + Mul(h, b1 + Mul(t, p1)) == Mul(l, b0) + Mul(h, b1) + Mul(t, Mul(l, p0) + Mul(h, p1))
  {
  }

  /** Neighbouring cells along axis `j` agree on their shared face: the
      upper face of the lower cell (all weight on its upper knot) and the
      lower face of the upper cell (all weight on its lower knot) blend the
      same table slice. */
  lemma {:induction false} FaceContinuity(st: seq<int>, values: seq<real>, a: Cell, b: Cell, j: nat, k: nat, off: int)
    requires Fits(st, a) && Fits(st, b) && j < k <= |st|
    requires forall i :: 0 <= i < |st| && i != j ==> a.low[i] == b.low[i] && a.lo[i] == b.lo[i] && a.hi[i] == b.hi[i]
    requires b.low[j] == a.low[j] + st[j]
    requires a.lo[j] == 0.0 && a.hi[j] == 1.0 && b.lo[j] == 1.0 && b.hi[j] == 0.0
    ensures Blend(st, values, a, k, off) == Blend(st, values, b, k, off)
  {
    if k - 1 == j {
      var face := Child(st, a, j, 1, off);
      assert Child(st, b, j, 0, off) == face;
      BlendFrame(st, values, a, b, j, face);
      Select(Blend(st, values, a, j, Child(st, a, j, 0, off)), Blend(st, values, a, j, face), 0.0, 1.0);
      Select(Blend(st, values, b, j, face), Blend(st, values, b, j, Child(st, b, j, 1, off)), 1.0, 0.0);
    } else {
      FaceContinuity(st, values, a, b, j, k - 1, Child(st, a, k - 1, 0, off));
      FaceContinuity(st, values, a, b, j, k - 1, Child(st, a, k - 1, 1, off));
    }
  }
}
