/** CasADi's linear interpolant: a grid built from a concatenated knot
    buffer, an offset array and a flat value table, evaluated at a query
    point by looking up each coordinate's cell and blending the values at
    the 2^d corners of that cell (LinearInterpolant), and the derivative of
    that value with respect to the query coordinates
    (LinearInterpolantJac). */
module Interpolant {
  import opened Layout
  import opened Lookup
  import opened Corners
  import opened Multilinear

  datatype Option<T> = None | Some(value: T)

  datatype Result<T, E> = Ok(value: T) | Failed(error: E)

  /** Why a grid is refused at construction. */
  datatype GridError =
    | BadOffsets              // offsets do not start at 0, end at the buffer length and stay inside it
    | TooFewKnots(dim: nat)   // a dimension with fewer than two knots
    | NotIncreasing(dim: nat) // a dimension whose knots are not strictly increasing
    | WrongValueCount         // the table does not hold one value per grid node
    | WrongModeCount          // not one lookup mode per dimension
    | NotUniform(dim: nat)    // exact lookup asked for on knots that are not equally spaced

  /** Offsets that start at 0, end at the buffer length and stay inside
      the buffer; what is left to check is two knots per dimension. */
  predicate Framed(offset: seq<int>, len: int)
  {
    |offset| >= 2 && offset[0] == 0 && offset[|offset| - 1] == len &&
    forall k :: 0 <= k < |offset| ==> offset[k] <= len
  }

  /** What each refusal of the grid, its knots or its table says about
      them; the two mode errors are not grid errors. */
  predicate GridFault(grid: seq<real>, offset: seq<int>, values: seq<real>, e: GridError)
  {
    match e
    case BadOffsets => !Framed(offset, |grid|)
    case TooFewKnots(k) => k < |offset| - 1 && offset[k + 1] - offset[k] < 2
    case NotIncreasing(k) =>
      ValidOffsets(offset, |grid|) && k < |offset| - 1 && !StrictlyIncreasing(Knots(grid, offset, k))
    case WrongValueCount => ValidKnots(grid, offset) && |values| != Product(Sizes(offset))
    case WrongModeCount => false
    case NotUniform(_) => false
  }

  /** What each refusal of the lookup modes says about them. */
  predicate ModeFault(grid: seq<real>, offset: seq<int>, modes: seq<LookupMode>, e: GridError)
    requires ValidOffsets(offset, |grid|)
  {
    match e
    case WrongModeCount => |modes| != |offset| - 1
    case NotUniform(k) =>
      |modes| == |offset| - 1 && k < |modes| && modes[k] == Exact && !Uniform(Knots(grid, offset, k))
    case _ => false
  }

  /** Validation of the constructor's arguments: the offsets, then the
      knots of each dimension, then the size of the table. */
  method CheckGrid(grid: seq<real>, offset: seq<int>, values: seq<real>) returns (err: Option<GridError>)
    ensures err.None? <==> WellFormed(grid, offset, values)
    ensures err.Some? ==> GridFault(grid, offset, values, err.value)
  {
    err := CheckOffsets(offset, |grid|);
    if err.Some? {
      return err;
    }
    err := CheckKnots(grid, offset);
    if err.Some? {
      return err;
    }
    var nodes := NodeCount(offset);
    if |values| != nodes {
      return Some(WrongValueCount);
    }
    return None;
  }

  /** Offsets start at 0, end at the buffer length and leave at least two
      knots to each dimension. */
  method CheckOffsets(offset: seq<int>, len: nat) returns (err: Option<GridError>)
    ensures err.None? <==> ValidOffsets(offset, len)
    ensures err.Some? ==> err.value.BadOffsets? || err.value.TooFewKnots?
    ensures err.Some? && err.value.BadOffsets? ==> !Framed(offset, len)
    ensures err.Some? && err.value.TooFewKnots? ==> err.value.dim < |offset| - 1 && offset[err.value.dim + 1] - offset[err.value.dim] < 2
  {
    if |offset| < 2 || offset[0] != 0 || offset[|offset| - 1] != len {
      return Some(BadOffsets);
    }
    var k := 0;
    while k < |offset| - 1
      invariant 0 <= k <= |offset| - 1
      invariant forall i :: 0 <= i <= k ==> 0 <= offset[i] <= len
      invariant forall i :: 0 <= i < k ==> offset[i] + 2 <= offset[i + 1]
    {
      if offset[k + 1] > len {
        assert !(0 <= offset[k + 1] <= len);
        return Some(BadOffsets);
      }
      if offset[k + 1] - offset[k] < 2 {
        assert !(offset[k] + 2 <= offset[k + 1]);
        return Some(TooFewKnots(k));
      }
      k := k + 1;
    }
    return None;
  }

  /** The knots of every dimension, checked one block at a time. */
  method CheckKnots(grid: seq<real>, offset: seq<int>) returns (err: Option<GridError>)
    requires ValidOffsets(offset, |grid|)
    ensures err.None? <==> ValidKnots(grid, offset)
    ensures err.Some? ==> err.value.NotIncreasing? && err.value.dim < |offset| - 1
    ensures err.Some? ==> !StrictlyIncreasing(Knots(grid, offset, err.value.dim))
  {
    var k := 0;
    while k < |offset| - 1
      invariant 0 <= k <= |offset| - 1
      invariant forall i :: 0 <= i < k ==> StrictlyIncreasing(Knots(grid, offset, i))
    {
      var ok := Increasing(Knots(grid, offset, k));
      if !ok {
        return Some(NotIncreasing(k));
      }
      k := k + 1;
    }
    return None;
  }

  /** Number of grid nodes: the knot counts multiplied up. */
  method NodeCount(offset: seq<int>) returns (nodes: int)
    requires |offset| >= 1
    ensures nodes == Product(Sizes(offset))
  {
    nodes := 1;
    var k := 0;
    while k < |offset| - 1
      invariant 0 <= k <= |offset| - 1
      invariant nodes == Product(Sizes(offset)[..k])
    {
      NodeCountStep(offset, k);
      nodes := nodes * (offset[k + 1] - offset[k]);
      k := k + 1;
    }
    assert Sizes(offset)[..k] == Sizes(offset);
  }

  /** Neighbouring knots compared one pair at a time. */
  method Increasing(g: seq<real>) returns (ok: bool)
    requires |g| >= 1
    ensures ok <==> StrictlyIncreasing(g)
  {
    var j := 1;
    while j < |g|
      invariant 1 <= j <= |g|
      invariant StrictlyIncreasing(g[..j])
    {
      if g[j] <= g[j - 1] {
        return false;
      }
      IncreasingExtend(g, j);
      j := j + 1;
    }
    assert g[..j] == g;
    return true;
  }

  /** A strictly increasing run stays so when the next knot lies above its
      last one. */
  lemma IncreasingExtend(g: seq<real>, j: nat)
    requires 0 < j < |g| && StrictlyIncreasing(g[..j]) && g[j - 1] < g[j]
    ensures StrictlyIncreasing(g[..j + 1])
  {
    var s := g[..j + 1];
    forall a, b | 0 <= a < b < |s| ensures s[a] < s[b] {
      if b < j {
        assert s[a] == g[..j][a] && s[b] == g[..j][b];
      } else if a < j - 1 {
        assert s[a] == g[..j][a] && g[j - 1] == g[..j][j - 1];
      }
    }
  }

  /** Exact lookup is only allowed on equally spaced knots. */
  predicate ModesFit(grid: seq<real>, offset: seq<int>, modes: seq<LookupMode>)
    requires ValidOffsets(offset, |grid|)
  {
    |modes| == |offset| - 1 &&
    forall k :: 0 <= k < |modes| && modes[k] == Exact ==> Uniform(Knots(grid, offset, k))
  }

  /** Validation of the lookup modes: one per dimension, and exact lookup
      only on equally spaced knots. */
  method CheckModes(grid: seq<real>, offset: seq<int>, modes: seq<LookupMode>) returns (err: Option<GridError>)
    requires ValidKnots(grid, offset)
    ensures err.None? <==> ModesFit(grid, offset, modes)
    ensures err.Some? ==> ModeFault(grid, offset, modes, err.value)
  {
    if |modes| != |offset| - 1 {
      return Some(WrongModeCount);
    }
    var k := 0;
    while k < |modes|
      invariant 0 <= k <= |modes|
      invariant forall i :: 0 <= i < k && modes[i] == Exact ==> Uniform(Knots(grid, offset, i))
    {
      if modes[k] == Exact {
        var ok := EquallySpaced(Knots(grid, offset, k));
        if !ok {
          return Some(NotUniform(k));
        }
      }
      k := k + 1;
    }
    return None;
  }

  /** Every knot compared with its place `j` steps after the first. */
  method EquallySpaced(g: seq<real>) returns (ok: bool)
    requires |g| >= 2 && StrictlyIncreasing(g)
    ensures ok <==> Uniform(g)
  {
    var h := Step(g);
    var j := 0;
    while j < |g|
      invariant 0 <= j <= |g|
      invariant forall i :: 0 <= i < j ==> g[i] == g[0] + (i as real) * h
    {
      if g[j] != g[0] + (j as real) * h {
        return false;
      }
      j := j + 1;
    }
    return true;
  }

  // ---------------------------------------------------------------------
  // The interpolant as functions of the grid and the query point

  /** Strides of the flat table: dimension 0 varies fastest. */
  function Strides(n: seq<int>): (st: seq<int>)
    ensures |st| == |n| && forall j :: 0 <= j < |n| ==> st[j] == Stride(n, j)
  {
    seq(|n|, j requires 0 <= j < |n| => Stride(n, j))
  }

  /** The cells of a query point: per dimension the cell found by lookup. */
  function Index(grid: seq<real>, offset: seq<int>, x: seq<real>): (index: seq<int>)
    requires ValidOffsets(offset, |grid|) && |x| == |offset| - 1
    ensures |index| == |x|
    ensures forall k :: 0 <= k < |x| ==> index[k] == CellIndex(Knots(grid, offset, k), x[k])
  {
    seq(|x|, k requires 0 <= k < |x| => CellIndex(Knots(grid, offset, k), x[k]))
  }

  /** A cell index per dimension, each naming a cell of its knots. */
  predicate ValidIndex(offset: seq<int>, index: seq<int>)
    requires |offset| >= 1
  {
    |index| == |offset| - 1 &&
    forall k :: 0 <= k < |index| ==> 0 <= index[k] <= offset[k + 1] - offset[k] - 2
  }

  /** Width of cell `i` of dimension `k`, whose knots are
      grid[offset[k]..offset[k + 1]). */
  function Width(grid: seq<real>, offset: seq<int>, k: nat, i: int): real
    requires ValidOffsets(offset, |grid|) && k < |offset| - 1 && 0 <= i <= offset[k + 1] - offset[k] - 2
  {
    grid[offset[k] + i + 1] - grid[offset[k] + i]
  }

  /** The width of a cell, read from the knot buffer, is positive. */
  lemma CellWidth(grid: seq<real>, offset: seq<int>, k: nat, j: int)
    requires ValidKnots(grid, offset) && k < |offset| - 1 && 0 <= j <= offset[k + 1] - offset[k] - 2
    ensures Width(grid, offset, k, j) > 0.0
  {
    var g := Knots(grid, offset, k);
    assert g[j] == grid[offset[k] + j] && g[j + 1] == grid[offset[k] + j + 1];
  }

  /** Fraction of cell `i` of dimension `k` at coordinate `xk`; below 0 or
      above 1 outside the cell. */
  function Frac(grid: seq<real>, offset: seq<int>, k: nat, i: int, xk: real): real
    requires ValidKnots(grid, offset) && k < |offset| - 1 && 0 <= i <= offset[k + 1] - offset[k] - 2
  {
    CellWidth(grid, offset, k, i);
    (xk - grid[offset[k] + i]) / Width(grid, offset, k, i)
  }

  /** Fractions of the query point within the given cells. */
  function Alpha(grid: seq<real>, offset: seq<int>, x: seq<real>, index: seq<int>): (alpha: seq<real>)
    requires ValidKnots(grid, offset) && |x| == |offset| - 1 && ValidIndex(offset, index)
    ensures |alpha| == |x|
    ensures forall k :: 0 <= k < |x| ==> alpha[k] == Frac(grid, offset, k, index[k], x[k])
  {
    seq(|x|, k requires 0 <= k < |x| => Frac(grid, offset, k, index[k], x[k]))
  }

  /** Flat offsets of the lower knots of the cells. */
  function LowOffsets(n: seq<int>, index: seq<int>): (low: seq<int>)
    requires |index| <= |n|
    ensures |low| == |index| && forall j :: 0 <= j < |index| ==> low[j] == index[j] * Stride(n, j)
  {
    seq(|index|, j requires 0 <= j < |index| => index[j] * Stride(n, j))
  }

  /** The multilinear polynomial of the given cells, or its derivative with
      respect to one axis's fraction, at the query point. Outside the cells
      it extends them linearly. */
  function Piece(grid: seq<real>, offset: seq<int>, values: seq<real>, x: seq<real>, index: seq<int>, out: Output): real
    requires ValidKnots(grid, offset) && |x| == |offset| - 1 && ValidIndex(offset, index)
  {
    Blend(Strides(Sizes(offset)), values, CellAt(offset, index, Alpha(grid, offset, x, index), out), |x|, 0)
  }

  /** The interpolated value at `x`. */
  function ValueAt(grid: seq<real>, offset: seq<int>, values: seq<real>, x: seq<real>): real
    requires ValidKnots(grid, offset) && |x| == |offset| - 1
  {
    IndexIsValid(grid, offset, x);
    Piece(grid, offset, values, x, Index(grid, offset, x), Output.Value)
  }

  /** The derivative of the value with respect to each coordinate, within
      the cell of the query point: the slope of every axis of that cell. */
  function Gradient(grid: seq<real>, offset: seq<int>, values: seq<real>, x: seq<real>): (grad: seq<real>)
    requires ValidKnots(grid, offset) && |x| == |offset| - 1
    ensures |grad| == |x|
  {
    IndexIsValid(grid, offset, x);
    var index := Index(grid, offset, x);
    Slopes(grid, offset, values, index, Alpha(grid, offset, x, index))
  }

  lemma IndexIsValid(grid: seq<real>, offset: seq<int>, x: seq<real>)
    requires ValidOffsets(offset, |grid|) && |x| == |offset| - 1
    ensures ValidIndex(offset, Index(grid, offset, x))
  {
  }

  /** The multi-index of corner `c` of the cells `index`. */
  function Shifted(index: seq<int>, c: seq<int>): (m: seq<int>)
    requires |c| <= |index|
    ensures |m| == |c| && forall j :: 0 <= j < |c| ==> m[j] == index[j] + c[j]
  {
    seq(|c|, j requires 0 <= j < |c| => index[j] + c[j])
  }

  /** The flat offset a corner is reached at, summed stride by stride, is
      the flat index of the corner's node. */
  lemma {:induction false} CornerOffsetIsFlat(n: seq<int>, index: seq<int>, c: seq<int>, cell: Cell)
    requires |index| == |n| && |c| <= |n| && IsCorner(c)
    requires Fits(Strides(n), cell) && cell.low == LowOffsets(n, index)
    ensures CornerOffset(Strides(n), cell, c) == Flat(n, Shifted(index, c))
  {
    if |c| > 0 {
      var k := |c| - 1;
      CornerOffsetIsFlat(n, index, c[..k], cell);
      var m := Shifted(index, c);
      assert m[..k] == Shifted(index, c[..k]);
      var s := Stride(n, k);
      assert Child(Strides(n), cell, k, c[k], 0) == index[k] * s + c[k] * s;
      assert m[k] * s == index[k] * s + c[k] * s;
    }
  }

  /** Every corner of valid cells is a node of the grid, so its flat index
      lies inside the table. */
  lemma CornerInTable(offset: seq<int>, index: seq<int>, c: seq<int>)
    requires |offset| >= 1 && ValidIndex(offset, index) && |c| == |index| && IsCorner(c)
    ensures 0 <= Flat(Sizes(offset), Shifted(index, c)) < Product(Sizes(offset))
  {
    var n := Sizes(offset);
    FlatInRange(n, Shifted(index, c));
    assert n[..|c|] == n;
  }

  // ---------------------------------------------------------------------
  // Evaluation with scratch arrays: iw[0..d) holds the cell index and
  // iw[d..2d) the corner of each dimension, w[0..d) the fractions.

  /** Look up the cell of each coordinate and its fraction within it. */
  method Weights(grid: seq<real>, offset: seq<int>, modes: seq<LookupMode>, x: array<real>, iw: array<int>, w: array<real>)
    requires ValidKnots(grid, offset) && ModesFit(grid, offset, modes)
    requires x.Length == |offset| - 1 && iw.Length >= x.Length && w.Length >= x.Length && x != w
    modifies iw, w
    ensures iw[..x.Length] == Index(grid, offset, x[..])
    ensures ValidIndex(offset, iw[..x.Length])
    ensures w[..x.Length] == Alpha(grid, offset, x[..], iw[..x.Length])
    ensures forall j :: x.Length <= j < iw.Length ==> iw[j] == old(iw[j])
    ensures forall j :: x.Length <= j < w.Length ==> w[j] == old(w[j])
  {
    var d := x.Length;
    ghost var xs := x[..];
    ghost var index := Index(grid, offset, xs);
    IndexIsValid(grid, offset, xs);
    ghost var alpha := Alpha(grid, offset, xs, index);
    var i := 0;
    while i < d
      invariant 0 <= i <= d
      invariant x[..] == xs
      invariant forall k :: 0 <= k < i ==> iw[k] == index[k] && w[k] == alpha[k]
      invariant forall j :: d <= j < iw.Length ==> iw[j] == old(iw[j])
      invariant forall j :: d <= j < w.Length ==> w[j] == old(w[j])
    {
      var xi := x[i];
      assert xi == xs[i];
      var j, a := Locate(grid, offset, modes, i, xi);
      assert j == index[i] && a == alpha[i];
      w[i] := a;
      iw[i] := j;
      i := i + 1;
    }
    assert iw[..d] == index;
    assert w[..d] == alpha;
  }

  /** The cell of one coordinate and its fraction within that cell. */
  method Locate(grid: seq<real>, offset: seq<int>, modes: seq<LookupMode>, k: nat, xk: real) returns (j: int, a: real)
    requires ValidKnots(grid, offset) && ModesFit(grid, offset, modes) && k < |offset| - 1
    ensures j == CellIndex(Knots(grid, offset, k), xk)
    ensures 0 <= j <= offset[k + 1] - offset[k] - 2 && a == Frac(grid, offset, k, j, xk)
  {
    var g := Knots(grid, offset, k);
    j := Low(xk, g, modes[k]);
    a := (xk - g[j]) / (g[j + 1] - g[j]);
  }

  /** `cell` is the cells `index` of a grid with offsets `offset`, with the
      knot weights of fractions `alpha` for output `out`. */
  predicate CellOf(offset: seq<int>, index: seq<int>, alpha: seq<real>, out: Output, cell: Cell)
  {
    |offset| == |index| + 1 && |alpha| == |index| &&
    Fits(Strides(Sizes(offset)), cell) && cell.low == LowOffsets(Sizes(offset), index) && Weighs(cell, alpha, out)
  }

  /** The cells `index` of a grid with offsets `offset`, the query point
      at fractions `alpha` within them, as blended for `out`. */
  function CellAt(offset: seq<int>, index: seq<int>, alpha: seq<real>, out: Output): (cell: Cell)
    requires |offset| == |index| + 1 && |alpha| == |index|
    ensures CellOf(offset, index, alpha, out, cell)
  {
    CellFor(LowOffsets(Sizes(offset), index), alpha, out)
  }

  /** One corner's contribution: the product of its knot weights (or, on
      the axis being differentiated, of -1 and 1) times its table value.
      The corner is read from iw[d..2d); the cells and fractions are the
      read-only `index` and `alpha`. */
  method CornerValue(offset: seq<int>, values: seq<real>, index: seq<int>, alpha: seq<real>, iw: array<int>, d: nat,
                     out: Output, ghost cell: Cell) returns (v: real)
    requires |offset| == d + 1 && |values| == Product(Sizes(offset))
    requires ValidIndex(offset, index) && CellOf(offset, index, alpha, out, cell)
    requires iw.Length >= 2 * d && IsCorner(iw[d..2 * d])
    ensures v == Term(Strides(Sizes(offset)), values, cell, 0, iw[d..2 * d], 1.0)
  {
    var r, pos := CornerProduct(offset, index, alpha, iw, d, out, cell);
    CornerTerm(offset, values, index, iw[d..2 * d], cell, r, pos);
    var value := values[pos];
    MulIs(r, value);
    v := r * value;
  }

  /** The corner's weight and its position in the table, accumulated axis
      by axis with the stride of each axis. */
  method CornerProduct(offset: seq<int>, index: seq<int>, alpha: seq<real>, iw: array<int>, d: nat,
                       out: Output, ghost cell: Cell) returns (r: real, pos: int)
    requires |offset| == d + 1 && CellOf(offset, index, alpha, out, cell)
    requires iw.Length >= 2 * d && IsCorner(iw[d..2 * d])
    ensures r == Weight(cell, iw[d..2 * d])
    ensures pos == CornerOffset(Strides(Sizes(offset)), cell, iw[d..2 * d])
  {
    ghost var c := iw[d..2 * d];
    r := 1.0;
    pos := 0;
    var ld := 1;
    var i := 0;
    while i < d
      invariant 0 <= i <= d
      invariant r == Weight(cell, c[..i])
      invariant pos == CornerOffset(Strides(Sizes(offset)), cell, c[..i])
      invariant ld == Stride(Sizes(offset), i)
    {
      var bit := iw[d + i];
      r, pos, ld, i := AxisStep(offset, index, alpha, out, i, bit, r, pos, ld, c, cell);
    }
    assert c[..d] == c;
  }

  /** Axis `i` of corner `c`, whose entry there is `bit`: its knot weight
      joins the product, its knot the position, and its knot count the
      stride. */
  method AxisStep(offset: seq<int>, index: seq<int>, alpha: seq<real>, out: Output, i: nat, bit: int,
                  r: real, pos: int, ld: int, ghost c: seq<int>, ghost cell: Cell)
      returns (r': real, pos': int, ld': int, i': nat)
    requires CellOf(offset, index, alpha, out, cell) && i < |index| == |c| && IsCorner(c) && bit == c[i]
    requires r == Weight(cell, c[..i])
    requires pos == CornerOffset(Strides(Sizes(offset)), cell, c[..i])
    requires ld == Stride(Sizes(offset), i)
    ensures i' == i + 1
    ensures r' == Weight(cell, c[..i'])
    ensures pos' == CornerOffset(Strides(Sizes(offset)), cell, c[..i'])
    ensures ld' == Stride(Sizes(offset), i')
  {
    var j, a := index[i], alpha[i];
    var weight: real;
    if out == Partial(i) {
      weight := if bit == 1 then 1.0 else -1.0;
    } else {
      weight := if bit == 1 then a else 1.0 - a;
    }
    assert weight == KnotWeight(cell, i, bit);
    CornerStep(Sizes(offset), index, c, cell, i, j, bit, r, pos, ld, weight);
    r' := r * weight;
    pos' := pos + (j + bit) * ld;
    var size := offset[i + 1] - offset[i];
    NextStride(offset, i, ld, size);
    ld' := ld * size;
    i' := i + 1;
  }

  /** One axis of a corner: its knot weight joins the product and its
      offset the position. */
  lemma CornerStep(n: seq<int>, index: seq<int>, c: seq<int>, cell: Cell, i: nat, j: int, bit: int,
                   r: real, pos: int, ld: int, weight: real)
    requires |index| == |n| && i < |c| <= |n| && IsCorner(c) && j == index[i] && bit == c[i]
    requires Fits(Strides(n), cell) && cell.low == LowOffsets(n, index)
    requires r == Weight(cell, c[..i]) && pos == CornerOffset(Strides(n), cell, c[..i]) && ld == Stride(n, i)
    requires weight == KnotWeight(cell, i, c[i])
    ensures r * weight == Weight(cell, c[..i + 1])
    ensures pos + (j + bit) * ld == CornerOffset(Strides(n), cell, c[..i + 1])
  {
    assert c[..i + 1][..i] == c[..i];
    assert (index[i] + c[i]) * ld == index[i] * ld + c[i] * ld;
  }

  lemma NextStride(offset: seq<int>, i: nat, ld: int, size: int)
    requires i < |offset| - 1 && ld == Stride(Sizes(offset), i) && size == offset[i + 1] - offset[i]
    ensures ld * size == Stride(Sizes(offset), i + 1)
  {
    StrideStep(Sizes(offset), i);
  }

  /** The whole corner: its position is inside the table and its weight
      times its value is its contribution. */
  lemma CornerTerm(offset: seq<int>, values: seq<real>, index: seq<int>, c: seq<int>, cell: Cell, r: real, pos: int)
    requires |offset| >= 1 && |values| == Product(Sizes(offset))
    requires ValidIndex(offset, index) && |c| == |index| && IsCorner(c)
    requires Fits(Strides(Sizes(offset)), cell) && cell.low == LowOffsets(Sizes(offset), index)
    requires r == Weight(cell, c) && pos == CornerOffset(Strides(Sizes(offset)), cell, c)
    ensures 0 <= pos < |values|
    ensures Mul(r, values[pos]) == Term(Strides(Sizes(offset)), values, cell, 0, c, 1.0)
  {
    var n := Sizes(offset);
    CornerOffsetIsFlat(n, index, c, cell);
    CornerInTable(offset, index, c);
    TermIsWeighted(Strides(n), values, cell, 0, c, 1.0);
    var v := values[pos];
    assert At(values, 0 + CornerOffset(Strides(n), cell, c)) == v;
    assert Weight(cell, c) == r;
  }

  lemma MulIs(x: real, y: real)
    ensures Mul(x, y) == x * y
  {
  }

  /** Sum of the contributions of all 2^d corners, enumerated by flipping
      the corner counter in iw[d..2d): the multilinear blend of the cells
      `index` at fractions `alpha`. */
  method Interpolate(offset: seq<int>, values: seq<real>, index: seq<int>, alpha: seq<real>, iw: array<int>, d: nat,
                     out: Output) returns (acc: real)
    requires |offset| == d + 1 && |values| == Product(Sizes(offset))
    requires ValidIndex(offset, index) && |alpha| == d && iw.Length >= 2 * d
    modifies iw
    ensures forall j :: 0 <= j < iw.Length && !(d <= j < 2 * d) ==> iw[j] == old(iw[j])
    ensures acc == Blend(Strides(Sizes(offset)), values, CellAt(offset, index, alpha, out), d, 0)
  {
    ghost var cell := CellAt(offset, index, alpha, out);
    FirstCorner(iw, d);
    acc := SumCorners(offset, values, index, alpha, iw, d, out, cell);
  }

  /** Set the corner counter iw[d..2d) to the first corner, all lower knots. */
  method FirstCorner(iw: array<int>, d: nat)
    requires iw.Length >= 2 * d
    modifies iw
    ensures IsCorner(iw[d..2 * d]) && Num(iw[d..2 * d]) == 0
    ensures forall j :: 0 <= j < iw.Length && !(d <= j < 2 * d) ==> iw[j] == old(iw[j])
  {
    var i := 0;
    while i < d
      invariant 0 <= i <= d
      invariant forall j :: d <= j < d + i ==> iw[j] == 0
      invariant forall j :: 0 <= j < iw.Length && !(d <= j < d + i) ==> iw[j] == old(iw[j])
    {
      iw[d + i] := 0;
      i := i + 1;
    }
    NumZero(iw[d..2 * d]);
  }

  /** The corner loop: starting from the first corner, add each corner's
      contribution and flip to the next until the counter wraps. */
  method SumCorners(offset: seq<int>, values: seq<real>, index: seq<int>, alpha: seq<real>, iw: array<int>, d: nat,
                    out: Output, ghost cell: Cell) returns (acc: real)
    requires |offset| == d + 1 && |values| == Product(Sizes(offset))
    requires ValidIndex(offset, index) && CellOf(offset, index, alpha, out, cell)
    requires iw.Length >= 2 * d && IsCorner(iw[d..2 * d]) && Num(iw[d..2 * d]) == 0
    modifies iw
    ensures forall j :: 0 <= j < iw.Length && !(d <= j < 2 * d) ==> iw[j] == old(iw[j])
    ensures acc == Blend(Strides(Sizes(offset)), values, cell, d, 0)
  {
    PrefixNone(Strides(Sizes(offset)), values, cell, d, 0, 1.0);
    acc := 0.0;
    var more := true;
    ghost var count: nat := 0;
    while more
      invariant forall j :: 0 <= j < iw.Length && !(d <= j < 2 * d) ==> iw[j] == old(iw[j])
      invariant IsCorner(iw[d..2 * d])
      invariant more ==> count < Pow2(d) && Num(iw[d..2 * d]) == count
      invariant !more ==> count == Pow2(d)
      invariant acc == Prefix(Strides(Sizes(offset)), values, cell, d, 0, count, 1.0)
      decreases Pow2(d) - count, more
    {
      acc, more, count := AddCorner(offset, values, index, alpha, iw, d, out, cell, acc, count);
    }
    PrefixAll(Strides(Sizes(offset)), values, cell, d, 0, 1.0, Pow2(d));
  }

  /** The running sum extended by the contribution of the corner in the
      counter. */
  method AddTerm(offset: seq<int>, values: seq<real>, index: seq<int>, alpha: seq<real>, iw: array<int>, d: nat,
                 out: Output, ghost cell: Cell, acc: real, ghost count: nat) returns (acc': real)
    requires |offset| == d + 1 && |values| == Product(Sizes(offset))
    requires ValidIndex(offset, index) && CellOf(offset, index, alpha, out, cell)
    requires iw.Length >= 2 * d && IsCorner(iw[d..2 * d]) && Num(iw[d..2 * d]) == count
    requires acc == Prefix(Strides(Sizes(offset)), values, cell, d, 0, count, 1.0)
    ensures count < Pow2(d)
    ensures acc' == Prefix(Strides(Sizes(offset)), values, cell, d, 0, count + 1, 1.0)
  {
    var t := CornerValue(offset, values, index, alpha, iw, d, out, cell);
    PrefixStep(Strides(Sizes(offset)), values, cell, iw[d..2 * d], 0, 1.0);
    acc' := acc + t;
  }

  /** One round of the corner loop: add the contribution of corner number
      `count` and flip the counter to the next corner, reporting whether
      there is one. */
  method AddCorner(offset: seq<int>, values: seq<real>, index: seq<int>, alpha: seq<real>, iw: array<int>, d: nat,
                   out: Output, ghost cell: Cell, acc: real, ghost count: nat)
      returns (acc': real, more: bool, ghost count': nat)
    requires |offset| == d + 1 && |values| == Product(Sizes(offset))
    requires ValidIndex(offset, index) && CellOf(offset, index, alpha, out, cell)
    requires iw.Length >= 2 * d && IsCorner(iw[d..2 * d]) && Num(iw[d..2 * d]) == count
    requires acc == Prefix(Strides(Sizes(offset)), values, cell, d, 0, count, 1.0)
    modifies iw
    ensures forall j :: 0 <= j < iw.Length && !(d <= j < 2 * d) ==> iw[j] == old(iw[j])
    ensures IsCorner(iw[d..2 * d])
    ensures count' == count + 1
    ensures more ==> count' < Pow2(d) && Num(iw[d..2 * d]) == count'
    ensures !more ==> count' == Pow2(d)
    ensures acc' == Prefix(Strides(Sizes(offset)), values, cell, d, 0, count', 1.0)
  {
    acc' := AddTerm(offset, values, index, alpha, iw, d, out, cell, acc, count);
    more, count' := Advance(iw, d, count);
  }

  /** The corner counter moved on by one: `count` is the number of corners
      visited so far, and the counter holds the next one unless all 2^d
      have been visited. */
  method Advance(iw: array<int>, d: nat, ghost count: nat) returns (more: bool, ghost count': nat)
    requires iw.Length >= 2 * d && IsCorner(iw[d..2 * d]) && Num(iw[d..2 * d]) == count
    modifies iw
    ensures forall j :: 0 <= j < iw.Length && !(d <= j < 2 * d) ==> iw[j] == old(iw[j])
    ensures IsCorner(iw[d..2 * d])
    ensures count' == count + 1
    ensures more ==> count' < Pow2(d) && Num(iw[d..2 * d]) == count'
    ensures !more ==> count' == Pow2(d)
  {
    more := Flip(iw, d, d);
    NumBound(iw[d..2 * d]);
    count' := count + 1;
  }

  /** Entry `k` of the Jacobian: the derivative of the blend with respect
      to the fraction along axis `k`, over the width of the cell there. */
  method AxisDerivative(grid: seq<real>, offset: seq<int>, values: seq<real>, index: seq<int>, alpha: seq<real>,
                        iw: array<int>, d: nat, k: nat) returns (g: real)
    requires ValidKnots(grid, offset) && |offset| == d + 1 && |values| == Product(Sizes(offset))
    requires ValidIndex(offset, index) && |alpha| == d && iw.Length >= 2 * d && k < d
    modifies iw
    ensures forall j :: 0 <= j < iw.Length && !(d <= j < 2 * d) ==> iw[j] == old(iw[j])
    ensures g == Slope(grid, offset, values, index, alpha, k)
  {
    var p := Interpolate(offset, values, index, alpha, iw, d, Partial(k));
    var width := Width(grid, offset, k, index[k]);
    CellWidth(grid, offset, k, index[k]);
    SlopeIs(grid, offset, values, index, alpha, k, p, width);
    g := p / width;
  }

  /** The derivative with respect to the fraction, over the cell width, is
      the slope. */
  lemma SlopeIs(grid: seq<real>, offset: seq<int>, values: seq<real>, index: seq<int>, alpha: seq<real>, k: nat,
                p: real, width: real)
    requires ValidKnots(grid, offset) && ValidIndex(offset, index) && |alpha| == |index| && k < |index|
    requires p == Blend(Strides(Sizes(offset)), values, CellAt(offset, index, alpha, Partial(k)), |index|, 0)
    requires width > 0.0 && width == Width(grid, offset, k, index[k])
    ensures p / width == Slope(grid, offset, values, index, alpha, k)
  {
  }

  /** The slope of every axis of the cells `index` at fractions `alpha`
      into res[0..d). */
  method JacobianRow(grid: seq<real>, offset: seq<int>, values: seq<real>,
                     index: seq<int>, alpha: seq<real>, iw: array<int>, res: array<real>, d: nat)
    requires ValidKnots(grid, offset) && |offset| == d + 1 && |values| == Product(Sizes(offset))
    requires ValidIndex(offset, index) && |alpha| == d
    requires iw.Length >= 2 * d && res.Length >= d
    modifies iw, res
    ensures res[..d] == Slopes(grid, offset, values, index, alpha)
    ensures forall j :: d <= j < res.Length ==> res[j] == old(res[j])
  {
    ghost var row := Slopes(grid, offset, values, index, alpha);
    var k := 0;
    while k < d
      invariant 0 <= k <= d
      invariant forall i :: 0 <= i < k ==> res[i] == row[i]
      invariant forall j :: d <= j < res.Length ==> res[j] == old(res[j])
    {
      StoreSlope(grid, offset, values, index, alpha, iw, res, d, k);
      k := k + 1;
    }
    assert res[..d] == row;
  }

  /** Entry `k` of the row: the slope of axis `k`, stored in res[k]. */
  method StoreSlope(grid: seq<real>, offset: seq<int>, values: seq<real>,
                    index: seq<int>, alpha: seq<real>, iw: array<int>, res: array<real>, d: nat, k: nat)
    requires ValidKnots(grid, offset) && |offset| == d + 1 && |values| == Product(Sizes(offset))
    requires ValidIndex(offset, index) && |alpha| == d
    requires iw.Length >= 2 * d && res.Length >= d && k < d
    modifies iw, res
    ensures res[k] == Slope(grid, offset, values, index, alpha, k)
    ensures forall j :: 0 <= j < res.Length && j != k ==> res[j] == old(res[j])
  {
    var g := AxisDerivative(grid, offset, values, index, alpha, iw, d, k);
    res[k] := g;
  }

  /** The slopes of all axes, in axis order. */
  function Slopes(grid: seq<real>, offset: seq<int>, values: seq<real>, index: seq<int>, alpha: seq<real>): (row: seq<real>)
    requires ValidKnots(grid, offset) && ValidIndex(offset, index) && |alpha| == |index|
    ensures |row| == |index| && forall i :: 0 <= i < |index| ==> row[i] == Slope(grid, offset, values, index, alpha, i)
  {
    seq(|index|, i requires 0 <= i < |index| => Slope(grid, offset, values, index, alpha, i))
  }

  /** Entry `k` of the Jacobian over the cells `index` at fractions `alpha`:
      the derivative of their blend along axis `k` over the cell's width. */
  function Slope(grid: seq<real>, offset: seq<int>, values: seq<real>, index: seq<int>, alpha: seq<real>, k: nat): real
    requires ValidKnots(grid, offset) && ValidIndex(offset, index) && |alpha| == |index| && k < |index|
  {
    CellWidth(grid, offset, k, index[k]);
    Blend(Strides(Sizes(offset)), values, CellAt(offset, index, alpha, Partial(k)), |index|, 0)
      / Width(grid, offset, k, index[k])
  }

  /** A grid with its table and the lookup mode of each dimension; the
      function it defines maps a point to the interpolated value. */
  class LinearInterpolant {
    const grid: seq<real>
    const offset: seq<int>
    const values: seq<real>
    const lookupMode: seq<LookupMode>

    predicate Valid()
    {
      WellFormed(grid, offset, values) && ModesFit(grid, offset, lookupMode)
    }

    constructor(grid: seq<real>, offset: seq<int>, values: seq<real>, lookupMode: seq<LookupMode>)
      requires WellFormed(grid, offset, values) && ModesFit(grid, offset, lookupMode)
      ensures this.grid == grid && this.offset == offset && this.values == values && this.lookupMode == lookupMode
      ensures Valid()
    {
      this.grid := grid;
      this.offset := offset;
      this.values := values;
      this.lookupMode := lookupMode;
    }

    /** Construction with validation: an interpolant for a well-formed grid,
        the reason otherwise. */
    static method Create(grid: seq<real>, offset: seq<int>, values: seq<real>, lookupMode: seq<LookupMode>)
      returns (r: Result<LinearInterpolant, GridError>)
      ensures r.Ok? <==> WellFormed(grid, offset, values) && ModesFit(grid, offset, lookupMode)
      ensures r.Ok? ==> fresh(r.value)
      ensures r.Ok? ==> r.value.grid == grid && r.value.offset == offset && r.value.values == values
      ensures r.Ok? ==> r.value.lookupMode == lookupMode
      ensures r.Failed? ==>
        GridFault(grid, offset, values, r.error) ||
        (WellFormed(grid, offset, values) && ModeFault(grid, offset, lookupMode, r.error))
    {
      var err := CheckGrid(grid, offset, values);
      if err.Some? {
        return Failed(err.value);
      }
      err := CheckModes(grid, offset, lookupMode);
      if err.Some? {
        return Failed(err.value);
      }
      var interp := new LinearInterpolant(grid, offset, values, lookupMode);
      return Ok(interp);
    }

    /** The value at the point `x` into res[0], using iw[0..2d) and w[0..d)
        as scratch. */
    method Eval(x: array<real>, res: array<real>, iw: array<int>, w: array<real>)
      requires Valid()
      requires x.Length == |offset| - 1 && res.Length >= 1 && iw.Length >= 2 * x.Length && w.Length >= x.Length
      requires res != x && w != x && res != w
      modifies res, iw, w
      ensures res[0] == ValueAt(grid, offset, values, x[..])
      ensures forall j :: 1 <= j < res.Length ==> res[j] == old(res[j])
    {
      var d := x.Length;
      Weights(grid, offset, lookupMode, x, iw, w);
      var v := Interpolate(offset, values, iw[..d], w[..d], iw, d, Output.Value);
      res[0] := v;
    }

    /** The function's Jacobian: a function of the same point. */
    method GetJacobian() returns (jac: LinearInterpolantJac)
      ensures fresh(jac) && jac.interp == this
    {
      jac := new LinearInterpolantJac(this);
    }
  }

  /** Jacobian of a linear interpolant: the row of derivatives of the value
      with respect to each coordinate, taken within the cell of the point. */
  class LinearInterpolantJac {
    const interp: LinearInterpolant

    constructor(interp: LinearInterpolant)
      ensures this.interp == interp
    {
      this.interp := interp;
    }

    /** The derivatives at `x` into res[0..d), using iw[0..2d) and w[0..d)
        as scratch. */
    method Eval(x: array<real>, res: array<real>, iw: array<int>, w: array<real>)
      requires interp.Valid()
      requires x.Length == |interp.offset| - 1 && res.Length >= x.Length && iw.Length >= 2 * x.Length && w.Length >= x.Length
      requires res != x && w != x && res != w
      modifies res, iw, w
      ensures res[..x.Length] == Gradient(interp.grid, interp.offset, interp.values, x[..])
      ensures forall j :: x.Length <= j < res.Length ==> res[j] == old(res[j])
    {
      var grid, offset, values := interp.grid, interp.offset, interp.values;
      var d := x.Length;
      Weights(grid, offset, interp.lookupMode, x, iw, w);
      var index, alpha := iw[..d], w[..d];
      JacobianRow(grid, offset, values, index, alpha, iw, res, d);
    }
  }
}
