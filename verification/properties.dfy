/** What the interpolant promises at the level of query points: it
    reproduces the table at the grid nodes, it is the textbook linear
    interpolation in one dimension, it is linear in each coordinate
    separately within a cell with the slope the Jacobian reports, and
    neighbouring cells agree on their shared face. */
module Properties {
  import opened Layout
  import opened Lookup
  import opened Corners
  import opened Multilinear
  import opened Interpolant

  /** At knot `i` the lookup finds cell `i` and the knot is that cell's
      lower end; at the last knot it finds the last cell and the knot is
      its upper end. */
  lemma KnotCell(g: seq<real>, i: int)
    requires |g| >= 2 && StrictlyIncreasing(g) && 0 <= i < |g|
    ensures var j := CellIndex(g, g[i]);
      j == (if i == |g| - 1 then i - 1 else i) &&
      (g[i] - g[j]) / (g[j + 1] - g[j]) == (i - j) as real
  {
    var j := if i == |g| - 1 then i - 1 else i;
    assert IsBracket(g, g[i], j);
    BracketIsCellIndex(g, g[i], j);
  }

  /** `m` names a node of the grid: one knot of each dimension. This is
      `Layout.IsNode(Sizes(offset), m)` at full length, written on the
      offsets so that the lemmas below need not unfold `Sizes`. */
  predicate NodeOf(offset: seq<int>, m: seq<int>)
  {
    |m| == |offset| - 1 && forall k :: 0 <= k < |m| ==> 0 <= m[k] < offset[k + 1] - offset[k]
  }

  /** Knot `i` of dimension `k`. */
  function Knot(grid: seq<real>, offset: seq<int>, k: nat, i: int): (g: real)
    requires ValidOffsets(offset, |grid|) && k < |offset| - 1 && 0 <= i < offset[k + 1] - offset[k]
    ensures g == grid[offset[k] + i]
  {
    assert offset[k + 1] <= |grid|;
    grid[offset[k] + i]
  }

  /** The point whose coordinates are the knots named by the node's
      multi-index. */
  function NodePoint(grid: seq<real>, offset: seq<int>, m: seq<int>): (x: seq<real>)
    requires ValidOffsets(offset, |grid|) && NodeOf(offset, m)
    ensures |x| == |m| && forall k :: 0 <= k < |m| ==> x[k] == Knot(grid, offset, k, m[k])
  {
    seq(|m|, k requires 0 <= k < |m| => Knot(grid, offset, k, m[k]))
  }

  /** At knot `i` of dimension `k` the lookup finds cell `i` (at the last
      knot the last cell) and the fraction is 0 (at the last knot 1). */
  lemma KnotFrac(grid: seq<real>, offset: seq<int>, k: nat, i: int) returns (j: int)
    requires ValidKnots(grid, offset) && k < |offset| - 1 && 0 <= i < offset[k + 1] - offset[k]
    ensures j == CellIndex(Knots(grid, offset, k), grid[offset[k] + i])
    ensures 0 <= i - j <= 1 && j <= offset[k + 1] - offset[k] - 2
    ensures Frac(grid, offset, k, j, grid[offset[k] + i]) == (i - j) as real
  {
    var g := Knots(grid, offset, k);
    KnotCell(g, i);
    j := CellIndex(g, g[i]);
    assert g[i] == grid[offset[k] + i];
    assert g[j] == grid[offset[k] + j] && g[j + 1] == grid[offset[k] + j + 1];
  }

  /** A point whose coordinate `k` is knot `i` of that dimension: its
      cell there is `i` or the one below, at fraction 0 or 1. */
  lemma KnotAxis(grid: seq<real>, offset: seq<int>, x: seq<real>, index: seq<int>, alpha: seq<real>, k: nat, i: int)
    requires ValidKnots(grid, offset) && |x| == |offset| - 1 && k < |x|
    requires 0 <= i < offset[k + 1] - offset[k] && x[k] == Knot(grid, offset, k, i)
    requires index == Index(grid, offset, x) && ValidIndex(offset, index) && alpha == Alpha(grid, offset, x, index)
    ensures 0 <= i - index[k] <= 1 && alpha[k] == (i - index[k]) as real
  {
    var j := KnotFrac(grid, offset, k, i);
  }

  /** Blending with all weight on the knots of corner `c` of the cells
      `index` gives the table entry of the node at that corner. */
  lemma BlendAtNode(offset: seq<int>, values: seq<real>, index: seq<int>, alpha: seq<real>, c: seq<int>)
    requires |offset| >= 1 && |values| == Product(Sizes(offset)) && ValidIndex(offset, index)
    requires |c| == |index| && |alpha| == |index| && IsCorner(c)
    requires forall k :: 0 <= k < |c| ==> alpha[k] == c[k] as real
    ensures 0 <= Flat(Sizes(offset), Shifted(index, c)) < |values|
    ensures Blend(Strides(Sizes(offset)), values, CellAt(offset, index, alpha, Value), |c|, 0) ==
      values[Flat(Sizes(offset), Shifted(index, c))]
  {
    var cell := CellAt(offset, index, alpha, Value);
    var pos := CornerPosition(offset, index, c, cell);
    AllOnCorner(cell, alpha, c);
    BlendAtEntry(Strides(Sizes(offset)), values, cell, c, pos);
  }

  /** Where corner `c` of the cells `index` sits in the table: at the flat
      index of its node, inside the table. */
  lemma CornerPosition(offset: seq<int>, index: seq<int>, c: seq<int>, cell: Cell) returns (pos: int)
    requires |offset| >= 1 && ValidIndex(offset, index) && |c| == |index| && IsCorner(c)
    requires Fits(Strides(Sizes(offset)), cell) && cell.low == LowOffsets(Sizes(offset), index)
    ensures pos == CornerOffset(Strides(Sizes(offset)), cell, c) && pos == Flat(Sizes(offset), Shifted(index, c))
    ensures 0 <= pos < Product(Sizes(offset))
  {
    CornerOffsetIsFlat(Sizes(offset), index, c, cell);
    CornerInTable(offset, index, c);
    pos := CornerOffset(Strides(Sizes(offset)), cell, c);
  }

  /** All weight on the knots of corner `c`: the blend is the entry there. */
  lemma BlendAtEntry(st: seq<int>, values: seq<real>, cell: Cell, c: seq<int>, pos: int)
    requires Fits(st, cell) && |c| <= |st| && IsCorner(c)
    requires forall j :: 0 <= j < |c| ==> cell.lo[j] == (1 - c[j]) as real && cell.hi[j] == c[j] as real
    requires pos == CornerOffset(st, cell, c) && 0 <= pos < |values|
    ensures Blend(st, values, cell, |c|, 0) == values[pos]
  {
    BlendAtCorner(st, values, cell, c, 0);
  }

  lemma AllOnCorner(cell: Cell, alpha: seq<real>, c: seq<int>)
    requires Weighs(cell, alpha, Value) && |c| == |alpha| && IsCorner(c)
    requires forall k :: 0 <= k < |c| ==> alpha[k] == c[k] as real
    ensures forall j :: 0 <= j < |c| ==> cell.lo[j] == (1 - c[j]) as real && cell.hi[j] == c[j] as real
  {
  }

  lemma ShiftedBy(index: seq<int>, c: seq<int>, m: seq<int>)
    requires |c| == |m| <= |index| && forall k :: 0 <= k < |m| ==> c[k] == m[k] - index[k]
    ensures Shifted(index, c) == m
  {
  }

  /** The corner of its cells that a grid node is: each coordinate's
      cell is the node's own index or the one below it (at the last knot),
      at fraction 0 or 1 accordingly. */
  lemma NodeCorner(grid: seq<real>, offset: seq<int>, m: seq<int>, x: seq<real>, index: seq<int>, alpha: seq<real>)
      returns (c: seq<int>)
    requires ValidKnots(grid, offset) && NodeOf(offset, m) && x == NodePoint(grid, offset, m)
    requires index == Index(grid, offset, x) && ValidIndex(offset, index) && alpha == Alpha(grid, offset, x, index)
    ensures |c| == |m| && IsCorner(c) && Shifted(index, c) == m
    ensures forall k :: 0 <= k < |m| ==> alpha[k] == c[k] as real
  {
    forall k | 0 <= k < |m|
      ensures 0 <= m[k] - index[k] <= 1 && alpha[k] == (m[k] - index[k]) as real
    {
      KnotAxis(grid, offset, x, index, alpha, k, m[k]);
    }
    c := seq(|m|, k requires 0 <= k < |m| => m[k] - index[k]);
    ShiftedBy(index, c, m);
  }

  /** The interpolant interpolates: at a grid node it returns the table
      entry of that node. */
  lemma NodeRecovery(grid: seq<real>, offset: seq<int>, values: seq<real>, m: seq<int>)
    requires WellFormed(grid, offset, values) && NodeOf(offset, m)
    ensures 0 <= Flat(Sizes(offset), m) < |values|
    ensures ValueAt(grid, offset, values, NodePoint(grid, offset, m)) == values[Flat(Sizes(offset), m)]
  {
    var x := NodePoint(grid, offset, m);
    IndexIsValid(grid, offset, x);
    var index := Index(grid, offset, x);
    var alpha := Alpha(grid, offset, x, index);
    var c := NodeCorner(grid, offset, m, x, index, alpha);
    BlendAtNode(offset, values, index, alpha, c);
  }

  /** A one-dimensional blend weighs the two knots of its cell. */
  lemma BlendOneAxis(values: seq<real>, cell: Cell, i: int)
    requires cell.low == [i] && |cell.lo| == 1 && |cell.hi| == 1 && 0 <= i && i + 1 < |values|
    ensures Blend([1], values, cell, 1, 0) == Mul(cell.lo[0], values[i]) + Mul(cell.hi[0], values[i + 1])
  {
    assert Child([1], cell, 0, 0, 0) == i && Child([1], cell, 0, 1, 0) == i + 1;
  }

  /** A one-dimensional grid: its knots are the whole buffer, its table is
      laid out with stride 1, and the point `x` lies in cell `i` at the
      fraction `t` of the cell's width `w`. */
  lemma OneAxisGrid(grid: seq<real>, x: real, i: int, w: real, t: real)
    requires |grid| >= 2 && StrictlyIncreasing(grid)
    requires i == CellIndex(grid, x) && w == grid[i + 1] - grid[i] && t == (x - grid[i]) / w
    ensures ValidKnots(grid, [0, |grid|]) && Product(Sizes([0, |grid|])) == |grid|
    ensures Strides(Sizes([0, |grid|])) == [1]
    ensures Index(grid, [0, |grid|], [x]) == [i] && LowOffsets(Sizes([0, |grid|]), [i]) == [i]
    ensures Alpha(grid, [0, |grid|], [x], [i]) == [t]
    ensures w > 0.0 && Width(grid, [0, |grid|], 0, i) == w
  {
    var offset := [0, |grid|];
    assert Knots(grid, offset, 0) == grid;
    var n := Sizes(offset);
    assert n == [|grid|];
    assert Product(n) == Product([]) * |grid|;
    assert Stride(n, 0) == 1;
  }

  /** In one dimension the value is (1 - t) v[i] + t v[i+1] with t the
      fraction of the point in its cell i, and the derivative is the
      slope of the cell. */
  lemma OneDimensional(grid: seq<real>, values: seq<real>, x: real)
    requires |grid| >= 2 && StrictlyIncreasing(grid) && |values| == |grid|
    ensures WellFormed(grid, [0, |grid|], values)
    ensures var i := CellIndex(grid, x);
      var t := (x - grid[i]) / (grid[i + 1] - grid[i]);
      ValueAt(grid, [0, |grid|], values, [x]) == (1.0 - t) * values[i] + t * values[i + 1] &&
      Gradient(grid, [0, |grid|], values, [x]) == [(values[i + 1] - values[i]) / (grid[i + 1] - grid[i])]
  {
    var offset := [0, |grid|];
    var i := CellIndex(grid, x);
    var w := grid[i + 1] - grid[i];
    var t := (x - grid[i]) / w;
    OneAxisGrid(grid, x, i, w, t);
    var value := CellAt(offset, [i], [t], Value);
    BlendOneAxis(values, value, i);
    var slope := CellAt(offset, [i], [t], Partial(0));
    BlendOneAxis(values, slope, i);
  }

  /** Moving the fraction of axis `k` alone moves the blend by the
      distance times the blend for the derivative along `k`, and that
      derivative blend does not depend on the fraction of `k`. */
  lemma AxisShift(offset: seq<int>, values: seq<real>, index: seq<int>, ax: seq<real>, ay: seq<real>, k: nat, t: real)
    requires |offset| == |index| + 1 && |ax| == |index| && |ay| == |index| && k < |index|
    requires forall j :: 0 <= j < |index| && j != k ==> ax[j] == ay[j]
    requires t == ay[k] - ax[k]
    ensures CellAt(offset, index, ay, Partial(k)) == CellAt(offset, index, ax, Partial(k))
    ensures var st := Strides(Sizes(offset));
      Blend(st, values, CellAt(offset, index, ay, Value), |index|, 0) ==
      Blend(st, values, CellAt(offset, index, ax, Value), |index|, 0) +
      Mul(t, Blend(st, values, CellAt(offset, index, ax, Partial(k)), |index|, 0))
  {
    var a := CellAt(offset, index, ay, Value);
    var b := CellAt(offset, index, ax, Value);
    var p := CellAt(offset, index, ax, Partial(k));
    ShiftedCells(offset, index, ax, ay, k, t, a, b, p);
    BlendAffine(Strides(Sizes(offset)), values, a, b, p, k, t, |index|, 0);
  }

  /** The cells of two points that differ only along axis `k`: their
      weights differ there by the fraction difference times the weights of
      the derivative, and the derivative's cells coincide. */
  lemma ShiftedCells(offset: seq<int>, index: seq<int>, ax: seq<real>, ay: seq<real>, k: nat, t: real,
                     a: Cell, b: Cell, p: Cell)
    requires |offset| == |index| + 1 && |ax| == |index| && |ay| == |index| && k < |index|
    requires forall j :: 0 <= j < |index| && j != k ==> ax[j] == ay[j]
    requires t == ay[k] - ax[k]
    requires a == CellAt(offset, index, ay, Value) && b == CellAt(offset, index, ax, Value)
    requires p == CellAt(offset, index, ax, Partial(k))
    ensures CellAt(offset, index, ay, Partial(k)) == p
    ensures var st := Strides(Sizes(offset));
      Fits(st, a) && Fits(st, b) && Fits(st, p) && a.low == b.low == p.low
    ensures forall i :: 0 <= i < |index| && i != k ==>
      a.lo[i] == b.lo[i] == p.lo[i] && a.hi[i] == b.hi[i] == p.hi[i]
    ensures a.lo[k] == b.lo[k] + Mul(t, p.lo[k]) && a.hi[k] == b.hi[k] + Mul(t, p.hi[k])
  {
    var q := CellAt(offset, index, ay, Partial(k));
    assert q.lo == p.lo && q.hi == p.hi;
  }

  /** Two points that differ only along axis `k`, within one cell there,
      have the same cells, and their fractions along `k` differ by their
      distance over the cell's width. */
  lemma SameCells(grid: seq<real>, offset: seq<int>, x: seq<real>, y: seq<real>, k: nat, index: seq<int>)
      returns (w: real)
    requires ValidKnots(grid, offset) && |x| == |offset| - 1 && |y| == |x| && k < |x|
    requires forall j :: 0 <= j < |x| && j != k ==> x[j] == y[j]
    requires CellIndex(Knots(grid, offset, k), x[k]) == CellIndex(Knots(grid, offset, k), y[k])
    requires index == Index(grid, offset, x)
    ensures Index(grid, offset, y) == index && ValidIndex(offset, index)
    ensures w == Width(grid, offset, k, index[k]) && w > 0.0
    ensures Alpha(grid, offset, y, index)[k] - Alpha(grid, offset, x, index)[k] == (y[k] - x[k]) / w
    ensures forall j :: 0 <= j < |x| && j != k ==> Alpha(grid, offset, x, index)[j] == Alpha(grid, offset, y, index)[j]
  {
    IndexIsValid(grid, offset, x);
    CellWidth(grid, offset, k, index[k]);
    w := Width(grid, offset, k, index[k]);
    FracShift(x[k], y[k], grid[offset[k] + index[k]], w);
  }

  /** Fractions of a cell of width `w` differ by the distance over `w`. */
  lemma FracShift(u: real, v: real, lo: real, w: real)
    requires w > 0.0
    ensures (v - lo) / w - (u - lo) / w == (v - u) / w
  {
  }

  /** Within one cell the value is linear in each coordinate separately:
      moving the point along axis `k` changes the value by the distance
      times the Jacobian's entry `k`, and leaves that entry unchanged. */
  lemma LinearAlongAxis(grid: seq<real>, offset: seq<int>, values: seq<real>, x: seq<real>, y: seq<real>, k: nat)
    requires ValidKnots(grid, offset) && |x| == |offset| - 1 && |y| == |x| && k < |x|
    requires forall j :: 0 <= j < |x| && j != k ==> x[j] == y[j]
    requires CellIndex(Knots(grid, offset, k), x[k]) == CellIndex(Knots(grid, offset, k), y[k])
    ensures Gradient(grid, offset, values, y)[k] == Gradient(grid, offset, values, x)[k]
    ensures ValueAt(grid, offset, values, y) ==
      ValueAt(grid, offset, values, x) + Mul(y[k] - x[k], Gradient(grid, offset, values, x)[k])
  {
    var vx, vy, g, p, w := AlongAxis(grid, offset, values, x, y, k);
    ScaledSlope(vx, vy, x, y, k, w, p, g);
  }

  /** The pieces of LinearAlongAxis: the value moves by the fraction
      difference times the partial blend, and the Jacobian entry is that
      partial blend over the cell width. */
  lemma AlongAxis(grid: seq<real>, offset: seq<int>, values: seq<real>, x: seq<real>, y: seq<real>, k: nat)
    returns (vx: real, vy: real, g: real, p: real, w: real)
    requires ValidKnots(grid, offset) && |x| == |offset| - 1 && |y| == |x| && k < |x|
    requires forall j :: 0 <= j < |x| && j != k ==> x[j] == y[j]
    requires CellIndex(Knots(grid, offset, k), x[k]) == CellIndex(Knots(grid, offset, k), y[k])
    ensures vx == ValueAt(grid, offset, values, x) && vy == ValueAt(grid, offset, values, y)
    ensures g == Gradient(grid, offset, values, x)[k] && g == Gradient(grid, offset, values, y)[k]
    ensures w > 0.0 && g == p / w && vy == vx + Mul((y[k] - x[k]) / w, p)
  {
    var index := Index(grid, offset, x);
    w := SameCells(grid, offset, x, y, k, index);
    var ax := Alpha(grid, offset, x, index);
    var ay := Alpha(grid, offset, y, index);
    AxisShift(offset, values, index, ax, ay, k, (y[k] - x[k]) / w);
    vx := ValueIsBlend(grid, offset, values, x, index, ax);
    vy := ValueIsBlend(grid, offset, values, y, index, ay);
    g, p := GradientEntry(grid, offset, values, x, index, ax, k, w);
    SameGradient(grid, offset, values, x, y, k, index);
  }

  /** Entry `k` of the Jacobian is the derivative blend over the width. */
  lemma GradientEntry(grid: seq<real>, offset: seq<int>, values: seq<real>, x: seq<real>, index: seq<int>,
                      alpha: seq<real>, k: nat, w: real) returns (g: real, p: real)
    requires ValidKnots(grid, offset) && |x| == |offset| - 1 && k < |x|
    requires index == Index(grid, offset, x) && ValidIndex(offset, index) && alpha == Alpha(grid, offset, x, index)
    requires w == Width(grid, offset, k, index[k]) && w > 0.0
    ensures g == Gradient(grid, offset, values, x)[k]
    ensures p == Blend(Strides(Sizes(offset)), values, CellAt(offset, index, alpha, Partial(k)), |x|, 0)
    ensures g == p / w
  {
    g := Gradient(grid, offset, values, x)[k];
    p := Blend(Strides(Sizes(offset)), values, CellAt(offset, index, alpha, Partial(k)), |x|, 0);
  }

  /** Two points in the same cells whose derivative cells along `k`
      coincide have the same Jacobian entry `k`. */
  lemma SameGradient(grid: seq<real>, offset: seq<int>, values: seq<real>, x: seq<real>, y: seq<real>, k: nat,
                     index: seq<int>)
    requires ValidKnots(grid, offset) && |x| == |offset| - 1 && |y| == |x| && k < |x|
    requires index == Index(grid, offset, x) && index == Index(grid, offset, y) && ValidIndex(offset, index)
    requires CellAt(offset, index, Alpha(grid, offset, y, index), Partial(k)) ==
      CellAt(offset, index, Alpha(grid, offset, x, index), Partial(k))
    ensures Gradient(grid, offset, values, y)[k] == Gradient(grid, offset, values, x)[k]
  {
  }

  lemma ValueIsBlend(grid: seq<real>, offset: seq<int>, values: seq<real>, x: seq<real>, index: seq<int>, alpha: seq<real>)
      returns (v: real)
    requires ValidKnots(grid, offset) && |x| == |offset| - 1
    requires index == Index(grid, offset, x) && ValidIndex(offset, index) && alpha == Alpha(grid, offset, x, index)
    ensures v == ValueAt(grid, offset, values, x)
    ensures v == Blend(Strides(Sizes(offset)), values, CellAt(offset, index, alpha, Value), |x|, 0)
  {
    v := ValueAt(grid, offset, values, x);
  }

  lemma ScaledSlope(vx: real, vy: real, x: seq<real>, y: seq<real>, k: nat, w: real, p: real, g: real)
    requires k < |x| && k < |y| && w > 0.0 && g == p / w && vy == vx + Mul((y[k] - x[k]) / w, p)
    ensures vy == vx + Mul(y[k] - x[k], g)
  {
  }

  /** Neighbouring cells along axis `k` agree on the knot they share: at a
      point on that knot the polynomial of the cell below gives the same
      value as the polynomial of the cell above, so the interpolant is
      continuous. */
  lemma FaceContinuous(grid: seq<real>, offset: seq<int>, values: seq<real>, x: seq<real>, index: seq<int>, k: nat)
    requires ValidKnots(grid, offset) && |x| == |offset| - 1 && ValidIndex(offset, index) && k < |x|
    requires 1 <= index[k] && x[k] == Knot(grid, offset, k, index[k])
    ensures ValidIndex(offset, index[k := index[k] - 1])
    ensures Piece(grid, offset, values, x, index, Value) ==
      Piece(grid, offset, values, x, index[k := index[k] - 1], Value)
  {
    var below := index[k := index[k] - 1];
    var ai := Alpha(grid, offset, x, index);
    var ab := FaceFracs(grid, offset, x, index, below, k);
    var vi := PieceIsBlend(grid, offset, values, x, index, ai);
    var vb := PieceIsBlend(grid, offset, values, x, below, ab);
    FaceBlend(offset, values, index, below, ai, ab, k);
  }

  /** On the knot shared by cell `i` and cell `i - 1` of axis `k`, the
      point sits at fraction 0 of the upper cell and 1 of the lower one;
      the other fractions do not depend on the cell of axis `k`. */
  lemma FaceFracs(grid: seq<real>, offset: seq<int>, x: seq<real>, index: seq<int>, below: seq<int>, k: nat)
      returns (ab: seq<real>)
    requires ValidKnots(grid, offset) && |x| == |offset| - 1 && ValidIndex(offset, index) && k < |x|
    requires 1 <= index[k] && x[k] == Knot(grid, offset, k, index[k]) && below == index[k := index[k] - 1]
    ensures ValidIndex(offset, below) && ab == Alpha(grid, offset, x, below)
    ensures Alpha(grid, offset, x, index)[k] == 0.0 && ab[k] == 1.0
    ensures forall j :: 0 <= j < |x| && j != k ==> Alpha(grid, offset, x, index)[j] == ab[j]
  {
    ab := Alpha(grid, offset, x, below);
    var i := index[k];
    CellWidth(grid, offset, k, i);
    CellWidth(grid, offset, k, i - 1);
    var w := Width(grid, offset, k, i - 1);
    assert x[k] - grid[offset[k] + (i - 1)] == w;
    assert w > 0.0 && below[k] == i - 1;
    assert Frac(grid, offset, k, i - 1, x[k]) == w / w == 1.0;
    assert Frac(grid, offset, k, i, x[k]) == 0.0 / Width(grid, offset, k, i);
  }

  /** Moving to the cell below along axis `k` lowers that axis's flat
      offset by its stride and leaves the others. */
  lemma FaceOffsets(offset: seq<int>, index: seq<int>, below: seq<int>, k: nat)
    requires |offset| == |index| + 1 && k < |index| && below == index[k := index[k] - 1]
    ensures var n := Sizes(offset);
      LowOffsets(n, index)[k] == LowOffsets(n, below)[k] + Strides(n)[k] &&
      forall j :: 0 <= j < |index| && j != k ==> LowOffsets(n, index)[j] == LowOffsets(n, below)[j]
  {
    var n := Sizes(offset);
    assert index[k] * Stride(n, k) == below[k] * Stride(n, k) + Stride(n, k);
  }

  /** The blends of the two cells meeting at the face agree. */
  lemma FaceBlend(offset: seq<int>, values: seq<real>, index: seq<int>, below: seq<int>,
                  ai: seq<real>, ab: seq<real>, k: nat)
    requires |offset| == |index| + 1 && k < |index| && below == index[k := index[k] - 1]
    requires |ai| == |index| && |ab| == |index| && ai[k] == 0.0 && ab[k] == 1.0
    requires forall j :: 0 <= j < |index| && j != k ==> ai[j] == ab[j]
    ensures var st := Strides(Sizes(offset));
      Blend(st, values, CellAt(offset, index, ai, Value), |index|, 0) ==
      Blend(st, values, CellAt(offset, below, ab, Value), |index|, 0)
  {
    FaceOffsets(offset, index, below, k);
    var st := Strides(Sizes(offset));
    FaceContinuity(st, values, CellAt(offset, below, ab, Value), CellAt(offset, index, ai, Value), k, |index|, 0);
  }

  /** The polynomial of the given cells at `x` is the blend of those cells. */
  lemma PieceIsBlend(grid: seq<real>, offset: seq<int>, values: seq<real>, x: seq<real>, index: seq<int>, alpha: seq<real>)
      returns (v: real)
    requires ValidKnots(grid, offset) && |x| == |offset| - 1 && ValidIndex(offset, index)
    requires alpha == Alpha(grid, offset, x, index)
    ensures v == Piece(grid, offset, values, x, index, Value)
    ensures v == Blend(Strides(Sizes(offset)), values, CellAt(offset, index, alpha, Value), |x|, 0)
  {
    v := Piece(grid, offset, values, x, index, Value);
  }
}
