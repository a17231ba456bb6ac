/** The grid layout of CasADi's linear interpolant: a concatenated knot
    buffer split into per-dimension knot sequences by an offset array, and a
    flat value table with one entry per grid node, dimension 0 varying
    fastest. */
module Layout {

  /** Product of the entries of `n`, from the first to the last. */
  function Product(n: seq<int>): int
  {
    if |n| == 0 then 1 else Product(n[..|n| - 1]) * n[|n| - 1]
  }

  /** Distance in the flat table between neighbouring nodes along dimension
      `j`: the number of nodes of the dimensions before `j`. */
  function Stride(n: seq<int>, j: nat): int
    requires j <= |n|
  {
    Product(n[..j])
  }

  predicate Positive(n: seq<int>)
  {
    forall j :: 0 <= j < |n| ==> n[j] >= 1
  }

  lemma {:induction false} ProductPositive(n: seq<int>)
    requires Positive(n)
    ensures Product(n) >= 1
  {
    if |n| > 0 {
      ProductPositive(n[..|n| - 1]);
      var p := Product(n[..|n| - 1]);
      assert p * n[|n| - 1] >= p * 1;
    }
  }

  /** Position in the flat table of the node whose first |m| coordinates are
      the multi-index `m`. */
  function Flat(n: seq<int>, m: seq<int>): int
    requires |m| <= |n|
  {
    if |m| == 0 then 0
    else Flat(n, m[..|m| - 1]) + m[|m| - 1] * Stride(n, |m| - 1)
  }

  /** A multi-index names a node of the grid when each coordinate is within
      its dimension's knot count. */
  predicate IsNode(n: seq<int>, m: seq<int>)
  {
    |m| <= |n| && forall j :: 0 <= j < |m| ==> 0 <= m[j] < n[j]
  }

  lemma StrideStep(n: seq<int>, j: nat)
    requires j < |n|
    ensures Stride(n, j + 1) == Stride(n, j) * n[j]
  {
    assert n[..j + 1][..j] == n[..j];
  }

  /** The flat index of a node lies in [0, number of nodes of the first |m|
      dimensions). */
  lemma {:induction false} FlatInRange(n: seq<int>, m: seq<int>)
    requires IsNode(n, m)
    ensures 0 <= Flat(n, m) < Stride(n, |m|)
  {
    if |m| > 0 {
      var k := |m| - 1;
      assert IsNode(n, m[..k]);
      FlatInRange(n, m[..k]);
      StrideStep(n, k);
      DigitInRange(Flat(n, m[..k]), m[k], Stride(n, k), n[k]);
    }
  }

  /** Appending a digit below `base` to a number below `p` gives a number
      below `p * base`. */
  lemma DigitInRange(f: int, c: int, p: int, base: int)
    requires 0 <= f < p && 0 <= c < base
    ensures 0 <= f + c * p < p * base
  {
    MulMono(0, c, p);
    MulMono(c + 1, base, p);
  }

  lemma DivModUnique(q: int, r: int, p: int)
    requires p >= 1 && 0 <= r < p
    ensures (q * p + r) / p == q && (q * p + r) % p == r
  {
    var a := q * p + r;
    var q', r' := a / p, a % p;
    assert a == q' * p + r' && 0 <= r' < p;
    if q' > q {
      MulMono(q + 1, q', p);
      assert false;
    } else if q' < q {
      MulMono(q' + 1, q, p);
      assert false;
    }
  }

  lemma MulMono(a: int, b: int, p: int)
    requires a <= b && p >= 0
    ensures a * p <= b * p
  {
    assert b * p - a * p == (b - a) * p;
  }

  /** Distinct nodes have distinct flat indices: the table holds exactly one
      entry per node. */
  lemma {:induction false} FlatInjective(n: seq<int>, m: seq<int>, m': seq<int>)
    requires IsNode(n, m) && IsNode(n, m') && |m| == |m'|
    requires Flat(n, m) == Flat(n, m')
    ensures m == m'
  {
    if |m| > 0 {
      var k := |m| - 1;
      assert IsNode(n, m[..k]) && IsNode(n, m'[..k]);
      FlatInRange(n, m[..k]);
      FlatInRange(n, m'[..k]);
      var p := Stride(n, k);
      DivModUnique(m[k], Flat(n, m[..k]), p);
      DivModUnique(m'[k], Flat(n, m'[..k]), p);
      assert m[k] * p == p * m[k] && m'[k] * p == p * m'[k];
      FlatInjective(n, m[..k], m'[..k]);
      assert m == m[..k] + [m[k]] && m' == m'[..k] + [m'[k]];
    }
  }

  /** Offsets split a knot buffer of length `gridLen` into at least one
      dimension of at least two knots each. */
  predicate ValidOffsets(offset: seq<int>, gridLen: int)
  {
    |offset| >= 2 && offset[0] == 0 && offset[|offset| - 1] == gridLen &&
    (forall k :: 0 <= k < |offset| ==> 0 <= offset[k] <= gridLen) &&
    (forall k :: 0 <= k < |offset| - 1 ==> offset[k] + 2 <= offset[k + 1])
  }

  /** Number of knots of each dimension. */
  function Sizes(offset: seq<int>): (n: seq<int>)
    requires |offset| >= 1
    ensures |n| == |offset| - 1
    ensures forall k :: 0 <= k < |n| ==> n[k] == offset[k + 1] - offset[k]
  {
    seq(|offset| - 1, k requires 0 <= k < |offset| - 1 => offset[k + 1] - offset[k])
  }

  /** The knots of dimension `k`: the block of the buffer it owns. */
  function Knots(grid: seq<real>, offset: seq<int>, k: nat): (g: seq<real>)
    requires ValidOffsets(offset, |grid|) && k < |offset| - 1
    ensures |g| == offset[k + 1] - offset[k] >= 2
  {
    grid[offset[k]..offset[k + 1]]
  }

  predicate StrictlyIncreasing(g: seq<real>)
  {
    forall i, j :: 0 <= i < j < |g| ==> g[i] < g[j]
  }

  /** The knot part of a grid: valid offsets and increasing knots in every
      dimension. */
  predicate ValidKnots(grid: seq<real>, offset: seq<int>)
  {
    ValidOffsets(offset, |grid|) &&
    forall k :: 0 <= k < |offset| - 1 ==> StrictlyIncreasing(Knots(grid, offset, k))
  }

  /** A grid with one table entry per node. */
  predicate WellFormed(grid: seq<real>, offset: seq<int>, values: seq<real>)
  {
    ValidKnots(grid, offset) && |values| == Product(Sizes(offset))
  }

  /** A well-formed grid has a non-empty table, so every cell has a
      corner to read. */
  lemma TableNonEmpty(grid: seq<real>, offset: seq<int>, values: seq<real>)
    requires WellFormed(grid, offset, values)
    ensures |values| >= 1
  {
    ProductPositive(Sizes(offset));
  }

  function Concat(blocks: seq<seq<real>>): seq<real>
  {
    if |blocks| == 0 then [] else Concat(blocks[..|blocks| - 1]) + blocks[|blocks| - 1]
  }

  /** The per-dimension knot sequences, in dimension order. */
  function AllKnots(grid: seq<real>, offset: seq<int>): (b: seq<seq<real>>)
    requires ValidOffsets(offset, |grid|)
    ensures |b| == |offset| - 1
  {
    seq(|offset| - 1, k requires 0 <= k < |offset| - 1 => Knots(grid, offset, k))
  }

  /** The offsets partition the knot buffer: the dimensions' blocks, one
      after the other, make up the whole buffer. */
  lemma KnotsPartitionGrid(grid: seq<real>, offset: seq<int>)
    requires ValidOffsets(offset, |grid|)
    ensures Concat(AllKnots(grid, offset)) == grid
  {
    var b := AllKnots(grid, offset);
    var k := 0;
    while k < |b|
      invariant 0 <= k <= |b|
      invariant Concat(b[..k]) == grid[..offset[k]]
    {
      assert b[..k + 1][..k] == b[..k];
      assert grid[..offset[k + 1]] == grid[..offset[k]] + grid[offset[k]..offset[k + 1]];
      k := k + 1;
    }
    assert b[..k] == b;
  }

  /** Number of table entries of a grid whose last dimension is added. */
  lemma NodeCountStep(offset: seq<int>, k: nat)
    requires 1 <= |offset| && k < |offset| - 1
    ensures Product(Sizes(offset)[..k + 1]) == Product(Sizes(offset)[..k]) * (offset[k + 1] - offset[k])
  {
    assert Sizes(offset)[..k + 1][..k] == Sizes(offset)[..k];
  }
}
