/** Per-dimension cell lookup: given the knots of one dimension and a
    coordinate, find the index of the cell [g[i], g[i+1]] that holds it. The
    index is clamped to the first and last cell, so a coordinate outside the
    knot range falls in a boundary cell (extrapolation). */
module Lookup {
  import opened Layout

  /** How a dimension's cell is found; one per dimension, stored with the
      interpolant. */
  datatype LookupMode = Linear | Exact | Binary

  /** Number of knots among g[1..hi) that do not exceed x. */
  function CountAtMost(g: seq<real>, x: real, hi: nat): (c: nat)
    requires 1 <= hi <= |g|
    ensures c <= hi - 1
  {
    if hi == 1 then 0
    else CountAtMost(g, x, hi - 1) + (if g[hi - 1] <= x then 1 else 0)
  }

  /** The cell of `x`: how many interior knots lie at or below `x`. */
  function CellIndex(g: seq<real>, x: real): (i: int)
    requires |g| >= 2
    ensures 0 <= i <= |g| - 2
  {
    CountAtMost(g, x, |g| - 1)
  }

  /** `i` is a cell index and `x` lies in cell `i`, the first cell extended
      to the left and the last cell extended to the right. */
  predicate IsBracket(g: seq<real>, x: real, i: int)
  {
    0 <= i <= |g| - 2 &&
    (i == 0 || g[i] <= x) &&
    (i == |g| - 2 || x < g[i + 1])
  }

  lemma {:induction false} CountAtMostBrackets(g: seq<real>, x: real, hi: nat)
    requires 2 <= hi <= |g| && StrictlyIncreasing(g)
    ensures var c := CountAtMost(g, x, hi - 1);
      (c == 0 || g[c] <= x) && (c == hi - 2 || x < g[c + 1])
  {
    if hi > 2 {
      CountAtMostBrackets(g, x, hi - 1);
      var c := CountAtMost(g, x, hi - 2);
      if g[hi - 2] <= x {
        assert c == hi - 3;
      }
    }
  }

  /** The cell index brackets its coordinate. */
  lemma CellIndexIsBracket(g: seq<real>, x: real)
    requires |g| >= 2 && StrictlyIncreasing(g)
    ensures IsBracket(g, x, CellIndex(g, x))
  {
    CountAtMostBrackets(g, x, |g|);
  }

  /** On strictly increasing knots a coordinate has exactly one bracket. */
  lemma BracketUnique(g: seq<real>, x: real, i: int, j: int)
    requires StrictlyIncreasing(g) && IsBracket(g, x, i) && IsBracket(g, x, j)
    ensures i == j
  {
  }

  /** A bracket is the cell index: every lookup that finds a bracket finds
      the cell. */
  lemma BracketIsCellIndex(g: seq<real>, x: real, i: int)
    requires |g| >= 2 && StrictlyIncreasing(g) && IsBracket(g, x, i)
    ensures i == CellIndex(g, x)
  {
    CellIndexIsBracket(g, x);
    BracketUnique(g, x, i, CellIndex(g, x));
  }

  /** Inside the knot range the cell found encloses the coordinate. */
  lemma CellEnclosesPoint(g: seq<real>, x: real)
    requires |g| >= 2 && StrictlyIncreasing(g) && g[0] <= x <= g[|g| - 1]
    ensures var i := CellIndex(g, x); g[i] <= x <= g[i + 1]
  {
    CellIndexIsBracket(g, x);
  }

  /** Linear scan: the first cell whose right knot lies above `x`, or the
      last cell. */
  method LinearScan(g: seq<real>, x: real) returns (i: int)
    requires |g| >= 2 && StrictlyIncreasing(g)
    ensures i == CellIndex(g, x)
  {
    i := 0;
    while i < |g| - 2
      invariant 0 <= i <= |g| - 2
      invariant i == 0 || g[i] <= x
    {
      if x < g[i + 1] {
        break;
      }
      i := i + 1;
    }
    BracketIsCellIndex(g, x, i);
  }

  /** Bisection: `start` stays at or below `x` and `stop` above it (or at the
      last knot) until they are neighbours. */
  method BinarySearch(g: seq<real>, x: real) returns (i: int)
    requires |g| >= 2 && StrictlyIncreasing(g)
    ensures i == CellIndex(g, x)
  {
    var ng := |g|;
    if x < g[1] {
      i := 0;
    } else if x > g[ng - 1] {
      i := ng - 2;
    } else {
      var start, stop := 0, ng - 1;
      while stop - start > 1
        invariant 0 <= start < stop <= ng - 1
        invariant g[start] <= x
        invariant x < g[stop] || stop == ng - 1
      {
        var pivot := (start + stop) / 2;
        if x < g[pivot] {
          stop := pivot;
        } else {
          start := pivot;
        }
      }
      i := start;
    }
    BracketIsCellIndex(g, x, i);
  }

  /** C's conversion of a double to an int: truncation toward zero. */
  function Trunc(r: real): (t: int)
    ensures r >= 0.0 ==> t as real <= r < t as real + 1.0
    ensures r < 0.0 ==> t <= 0 && t as real - 1.0 < r <= t as real
  {
    if r >= 0.0 then r.Floor else -((-r).Floor)
  }

  /** Distance between neighbouring knots when the knots are equally spaced. */
  function Step(g: seq<real>): real
    requires |g| >= 2
  {
    (g[|g| - 1] - g[0]) / ((|g| - 1) as real)
  }

  /** Equally spaced knots: knot `j` lies `j` steps after the first. */
  predicate Uniform(g: seq<real>)
  {
    |g| >= 2 && g[0] < g[|g| - 1] &&
    forall j :: 0 <= j < |g| ==> g[j] == g[0] + (j as real) * Step(g)
  }

  /** Exact lookup: the truncated position of `x` in units of the knot step,
      clamped to the cells. */
  function ExactIndex(g: seq<real>, x: real): (i: int)
    requires |g| >= 2 && g[0] < g[|g| - 1]
    ensures 0 <= i <= |g| - 2
  {
    Clamp(Trunc(Position(g, x)), |g| - 2)
  }

  /** Where `x` lies relative to the first and last knot, in units of the
      knot step of equally spaced knots. */
  function Position(g: seq<real>, x: real): real
    requires |g| >= 2 && g[0] < g[|g| - 1]
  {
    (x - g[0]) * ((|g| - 1) as real) / (g[|g| - 1] - g[0])
  }

  function Clamp(r: int, top: int): int
  {
    if r < 0 then 0 else if r > top then top else r
  }

  lemma ScaledPosition(a: real, n: real, l: real)
    requires n > 0.0 && l > 0.0
    ensures (a * n / l) * (l / n) == a
  {
  }

  lemma MulMonoReal(a: real, b: real, h: real)
    requires a <= b && h > 0.0
    ensures a * h <= b * h
  {
    assert b * h - a * h == (b - a) * h;
  }

  lemma MulStrictReal(a: real, b: real, h: real)
    requires a < b && h > 0.0
    ensures a * h < b * h
  {
    assert b * h - a * h == (b - a) * h;
  }

  lemma UniformIncreasing(g: seq<real>)
    requires Uniform(g)
    ensures Step(g) > 0.0 && StrictlyIncreasing(g)
  {
    var h := Step(g);
    forall a, b | 0 <= a < b < |g| ensures g[a] < g[b] {
      MulStrictReal(a as real, b as real, h);
    }
  }

  /** The clamped truncation `i` of a position `u` (in steps of `h` from
      `g0`) lies in the cell [g0 + i*h, g0 + (i+1)*h), extended at both ends. */
  lemma ClampedPositionBrackets(g0: real, h: real, x: real, u: real, top: int)
    requires h > 0.0 && u * h == x - g0 && top >= 0
    ensures var i := Clamp(Trunc(u), top);
      (i == 0 || g0 + (i as real) * h <= x) &&
      (i == top || x < g0 + ((i + 1) as real) * h)
  {
    var r := Trunc(u);
    var i := Clamp(r, top);
    if i > 0 {
      assert u >= 0.0 && i <= r;
      KnotAtOrBelow(g0, h, x, u, i as real);
    }
    if i < top {
      var k := (i + 1) as real;
      assert u < k by {
        if u >= 0.0 {
          assert i == r;
        }
      }
      KnotAbove(g0, h, x, u, k);
    }
  }

  lemma KnotAtOrBelow(g0: real, h: real, x: real, u: real, k: real)
    requires h > 0.0 && u * h == x - g0 && k <= u
    ensures g0 + k * h <= x
  {
    MulMonoReal(k, u, h);
  }

  lemma KnotAbove(g0: real, h: real, x: real, u: real, k: real)
    requires h > 0.0 && u * h == x - g0 && u < k
    ensures x < g0 + k * h
  {
    MulStrictReal(u, k, h);
  }

  lemma ExactIndexIsBracket(g: seq<real>, x: real)
    requires Uniform(g)
    ensures IsBracket(g, x, ExactIndex(g, x))
  {
    var n := |g|;
    UniformIncreasing(g);
    var h := Step(g);
    var u := Position(g, x);
    ScaledPosition(x - g[0], (n - 1) as real, g[n - 1] - g[0]);
    ClampedPositionBrackets(g[0], h, x, u, n - 2);
    var i := ExactIndex(g, x);
    assert g[i] == g[0] + (i as real) * h;
    assert g[i + 1] == g[0] + ((i + 1) as real) * h;
  }

  /** On equally spaced knots the exact lookup finds the same cell as the
      searches. */
  lemma ExactIndexIsCellIndex(g: seq<real>, x: real)
    requires Uniform(g)
    ensures ExactIndex(g, x) == CellIndex(g, x)
  {
    UniformIncreasing(g);
    ExactIndexIsBracket(g, x);
    BracketIsCellIndex(g, x, ExactIndex(g, x));
  }

  /** The lookup of one dimension, dispatched on its mode. */
  method Low(x: real, g: seq<real>, mode: LookupMode) returns (i: int)
    requires |g| >= 2 && StrictlyIncreasing(g)
    requires mode == Exact ==> Uniform(g)
    ensures i == CellIndex(g, x)
  {
    match mode
    case Exact =>
      i := ExactIndex(g, x);
      ExactIndexIsCellIndex(g, x);
    case Binary =>
      i := BinarySearch(g, x);
    case Linear =>
      i := LinearScan(g, x);
  }
}
