/** The corners of a d-dimensional cell, as 0/1 vectors, and their
    enumeration by a binary counter whose digit 0 flips fastest. */
module Corners {
  import opened Layout

  function Pow2(k: nat): (p: nat)
    ensures p >= 1
  {
    if k == 0 then 1 else 2 * Pow2(k - 1)
  }

  /** Each entry says whether the corner takes the lower (0) or upper (1)
      knot of its dimension's cell. */
  predicate IsCorner(c: seq<int>)
  {
    forall j :: 0 <= j < |c| ==> c[j] == 0 || c[j] == 1
  }

  /** The corner whose entries are the binary digits of `m`, least
      significant first; numbering it gives `m` back. */
  function CornerOf(m: nat, k: nat): (c: seq<int>)
    requires m < Pow2(k)
    ensures |c| == k && IsCorner(c) && Num(c) == m
  {
    if k == 0 then []
    else if m < Pow2(k - 1) then
      var low := CornerOf(m, k - 1);
      NumAppend(low, 0);
      low + [0]
    else
      var low := CornerOf(m - Pow2(k - 1), k - 1);
      NumAppend(low, 1);
      low + [1]
  }

  /** Value of digit `j` of a corner. */
  function Digit(c: seq<int>, j: nat): nat
    requires j < |c|
  {
    if c[j] == 1 then Pow2(j) else 0
  }

  /** The number whose binary digits are the corner's entries, entry 0 the
      least significant. */
  function Num(c: seq<int>): nat
  {
    if |c| == 0 then 0 else Num(c[..|c| - 1]) + Digit(c, |c| - 1)
  }

  /** Every corner of a k-dimensional cell has a number below 2^k. */
  lemma {:induction false} NumBound(c: seq<int>)
    requires IsCorner(c)
    ensures Num(c) < Pow2(|c|)
  {
    if |c| > 0 {
      NumBound(c[..|c| - 1]);
    }
  }

  /** Numbering the corners and reading a number back as a corner are
      inverse. */
  lemma {:induction false} CornerOfNum(c: seq<int>)
    requires IsCorner(c)
    ensures Num(c) < Pow2(|c|) && CornerOf(Num(c), |c|) == c
  {
    NumBound(c);
    if |c| > 0 {
      var k := |c| - 1;
      var low := c[..k];
      CornerOfNum(low);
      var bit := c[k];
      assert c == low + [bit];
      NumAppend(low, bit);
      if bit == 0 {
        assert CornerOf(Num(c), k + 1) == CornerOf(Num(low), k) + [0];
      } else {
        assert CornerOf(Num(c), k + 1) == CornerOf(Num(low), k) + [1];
      }
    }
  }

  /** A new most significant digit adds its value to the number. */
  lemma NumAppend(c: seq<int>, bit: int)
    ensures Num(c + [bit]) == Num(c) + (if bit == 1 then Pow2(|c|) else 0)
  {
    assert (c + [bit])[..|c|] == c;
  }

  /** Setting one digit changes the number by that digit's value. */
  lemma {:induction false} NumUpdate(c: seq<int>, j: nat, v: int)
    requires j < |c|
    ensures Num(c[j := v]) == Num(c) - Digit(c, j) + Digit(c[j := v], j)
  {
    var k := |c| - 1;
    if j == k {
      assert c[j := v][..k] == c[..k];
    } else {
      assert c[j := v][..k] == c[..k][j := v];
      NumUpdate(c[..k], j, v);
    }
  }

  lemma {:induction false} NumZero(c: seq<int>)
    requires ZeroBelow(c, |c|)
    ensures Num(c) == 0
  {
    if |c| > 0 {
      NumZero(c[..|c| - 1]);
    }
  }

  /** Digits below `i` are all 0. */
  predicate ZeroBelow(c: seq<int>, i: int)
  {
    forall j :: 0 <= j < i && j < |c| ==> c[j] == 0
  }

  /** One step of the counter over a corner held as a sequence: digits
      below `i` are already cleared, digit `i` is 1 and is cleared too. */
  lemma ClearStep(cur: seq<int>, start: seq<int>, i: nat)
    requires i < |cur| == |start| && IsCorner(cur) && cur[i] == 1
    requires ZeroBelow(cur, i)
    requires cur[i..] == start[i..] && Num(cur) == Num(start) - (Pow2(i) - 1)
    ensures IsCorner(cur[i := 0]) && ZeroBelow(cur[i := 0], i + 1)
    ensures cur[i := 0][i + 1..] == start[i + 1..]
    ensures Num(cur[i := 0]) == Num(start) - (Pow2(i + 1) - 1)
  {
    NumUpdate(cur, i, 0);
    assert cur[i := 0][i + 1..] == cur[i + 1..];
  }

  /** The counter stops at digit `i`, which is 0 and becomes 1: the number
      grows by one. */
  lemma SetStep(cur: seq<int>, start: seq<int>, i: nat)
    requires i < |cur| == |start| && IsCorner(cur) && cur[i] == 0
    requires ZeroBelow(cur, i)
    requires cur[i..] == start[i..] && Num(cur) == Num(start) - (Pow2(i) - 1)
    ensures IsCorner(cur[i := 1]) && Num(cur[i := 1]) == Num(start) + 1
  {
    NumUpdate(cur, i, 1);
  }

  /** Advance the corner stored in corner[base..base+ndim] to the next one in
      counting order; report false, and wrap to the first corner, after the
      last. */
  method Flip(corner: array<int>, base: nat, ndim: nat) returns (more: bool)
    requires base + ndim <= corner.Length
    requires IsCorner(corner[base..base + ndim])
    modifies corner
    ensures IsCorner(corner[base..base + ndim])
    ensures forall j :: 0 <= j < corner.Length && !(base <= j < base + ndim) ==> corner[j] == old(corner[j])
    ensures more ==> Num(corner[base..base + ndim]) == old(Num(corner[base..base + ndim])) + 1
    ensures !more ==> old(Num(corner[base..base + ndim])) == Pow2(ndim) - 1
    ensures !more ==> Num(corner[base..base + ndim]) == 0
  {
    ghost var start := corner[base..base + ndim];
    ghost var cur := start;
    var i := 0;
    while i < ndim
      invariant 0 <= i <= ndim && cur == corner[base..base + ndim] && |cur| == |start|
      invariant IsCorner(cur) && cur[i..] == start[i..]
      invariant ZeroBelow(cur, i)
      invariant Num(cur) == Num(start) - (Pow2(i) - 1)
      invariant forall j :: 0 <= j < corner.Length && !(base <= j < base + ndim) ==> corner[j] == old(corner[j])
    {
      assert corner[base + i] == cur[i];
      if corner[base + i] == 1 {
        ClearStep(cur, start, i);
        corner[base + i] := 0;
        cur := cur[i := 0];
        assert corner[base..base + ndim] == cur;
        i := i + 1;
      } else {
        SetStep(cur, start, i);
        corner[base + i] := 1;
        cur := cur[i := 1];
        assert corner[base..base + ndim] == cur;
        return true;
      }
    }
    NumZero(cur);
    return false;
  }
}
