/**
 How the symbols of a distribution are placed over the 2^tableLog cells of a table. The encoder
 and the decoder each contain this code; it is modelled once.
 */
module Spread {
  import opened Numeric
  import opened Bytes
  import opened Distribution
  import opened Permutation

  /** FSE_TABLESTEP */
  function Step(size: nat): (step: nat)
  {
    size / 2 + size / 8 + 3
  }

  /** The position after j steps: `position = (position + step) & tableMask`, from 0. */
  function Walk(tableLog: nat, j: nat): (position: nat)
  {
    if j == 0 then 0 else Low(Walk(tableLog, j - 1) + Step(Pow2(tableLog)), tableLog)
  }

  /** The positions below `top` met in the first j steps. */
  function Visited(tableLog: nat, top: nat, j: nat): (v: seq<nat>)
  {
    if j == 0 then []
    else
      var position := Walk(tableLog, j - 1);
      Visited(tableLog, top, j - 1) + (if position < top then [position] else [])
  }

  lemma {:induction false} WalkBelow(tableLog: nat, j: nat)
    ensures Walk(tableLog, j) < Pow2(tableLog)
  {
    if j > 0 {
      LowBound(Walk(tableLog, j - 1) + Step(Pow2(tableLog)), tableLog);
    }
  }

  /** The walk is a multiple of the step, modulo the table size. */
  lemma {:induction false} WalkIsMultiple(tableLog: nat, j: nat)
    ensures j * Step(Pow2(tableLog)) >= 0
    ensures Walk(tableLog, j) == Low(j * Step(Pow2(tableLog)), tableLog)
  {
    var step := Step(Pow2(tableLog));
    if j == 0 {
      LowSmall(0, tableLog);
    } else {
      WalkIsMultiple(tableLog, j - 1);
      LowOfSum((j - 1) * step, step, tableLog);
      assert j * step == (j - 1) * step + step;
    }
  }

  lemma {:induction false} LowOfSum(x: nat, y: nat, n: nat)
    ensures Low(Low(x, n) + y, n) == Low(x + y, n)
  {
    if n > 0 {
      var carry := (x % 2 + y % 2) / 2;
      LowOfSum(x / 2, y / 2 + carry, n - 1);
      LowStep(x, n);
      assert (Low(x, n) + y) / 2 == Low(x / 2, n - 1) + (y / 2 + carry);
      assert (x + y) / 2 == x / 2 + (y / 2 + carry);
    }
  }

  /** Two numbers that agree modulo 2^n differ by a multiple of 2^n. */
  lemma {:induction false} LowOfDifference(x: nat, y: nat, n: nat)
    requires y <= x && Low(x, n) == Low(y, n)
    ensures Low(x - y, n) == 0
  {
    if n > 0 {
      LowOfDifference(x / 2, y / 2, n - 1);
      assert (x - y) / 2 == x / 2 - y / 2;
    }
  }

  /** An odd step reaches a multiple of 2^n only after a multiple of 2^n steps. */
  lemma {:induction false} OddStep(d: nat, step: nat, n: nat)
    requires step % 2 == 1 && d * step >= 0
    requires Low(d * step, n) == 0
    ensures Low(d, n) == 0
  {
    if n > 0 {
      var e, h := d / 2, step / 2;
      assert d * step == 2 * (d * h) + d;
      assert d % 2 == 0;
      assert d * step == 2 * (e * step);
      OddStep(e, step, n - 1);
    }
  }

  lemma {:induction false} StepIsOdd(tableLog: nat)
    requires tableLog >= 4
    ensures Step(Pow2(tableLog)) % 2 == 1
  {
    Sixteenths(tableLog - 4);
    StepOfSixteenths(Pow2(tableLog - 4));
  }

  lemma {:induction false} StepOfSixteenths(q: nat)
    ensures Step(16 * q) % 2 == 1
  {
    assert 16 * q / 2 == 8 * q && 16 * q / 8 == 2 * q;
  }

  lemma {:induction false} Sixteenths(n: nat)
    ensures Pow2(n + 4) == 16 * Pow2(n)
  {
    assert Pow2(n + 2) == 4 * Pow2(n);
  }

  /** The walk meets no position twice within one round ... */
  lemma {:induction false} WalkDistinct(tableLog: nat, i: nat, j: nat)
    requires tableLog >= 4 && i < j < Pow2(tableLog)
    ensures Walk(tableLog, i) != Walk(tableLog, j)
  {
    var step := Step(Pow2(tableLog));
    if Walk(tableLog, i) == Walk(tableLog, j) {
      WalkIsMultiple(tableLog, i);
      WalkIsMultiple(tableLog, j);
      MulMono(i, j, step);
      LowOfDifference(j * step, i * step, tableLog);
      assert j * step - i * step == (j - i) * step;
      StepIsOdd(tableLog);
      OddStep(j - i, step, tableLog);
      LowSmall(j - i, tableLog);
    }
  }

  /** ... and is back at 0 after it. */
  lemma {:induction false} WalkReturns(tableLog: nat)
    ensures Walk(tableLog, Pow2(tableLog)) == 0
  {
    var step, size := Step(Pow2(tableLog)), Pow2(tableLog);
    WalkIsMultiple(tableLog, size);
    assert size * step == Shl(step, tableLog) by { ShlIsMul(step, tableLog); }
    Split(0, step, tableLog);
  }

  // ----- the visited cells -----

  lemma {:induction false} VisitedPrefix(tableLog: nat, top: nat, i: nat, j: nat)
    requires i <= j
    ensures Visited(tableLog, top, i) <= Visited(tableLog, top, j)
    decreases j
  {
    if i < j {
      VisitedPrefix(tableLog, top, i, j - 1);
    }
  }

  lemma {:induction false} VisitedAt(tableLog: nat, top: nat, j: nat, p: nat) returns (i: nat)
    requires p in Visited(tableLog, top, j)
    ensures i < j && Walk(tableLog, i) == p && p < top
  {
    i := j - 1;
    if Walk(tableLog, i) != p || p >= top {
      i := VisitedAt(tableLog, top, j - 1, p);
    }
  }

  lemma {:induction false} WalkVisited(tableLog: nat, top: nat, j: nat, i: nat)
    requires i < j && Walk(tableLog, i) < top
    ensures Walk(tableLog, i) in Visited(tableLog, top, j)
  {
    if i < j - 1 {
      WalkVisited(tableLog, top, j - 1, i);
    }
  }

  lemma {:induction false} VisitedDistinct(tableLog: nat, top: nat, j: nat)
    requires tableLog >= 4 && j <= Pow2(tableLog)
    ensures Distinct(Visited(tableLog, top, j))
    ensures Below(Visited(tableLog, top, j), top)
  {
    if j > 0 {
      var before := Visited(tableLog, top, j - 1);
      VisitedDistinct(tableLog, top, j - 1);
      if Walk(tableLog, j - 1) in before {
        var i := VisitedAt(tableLog, top, j - 1, Walk(tableLog, j - 1));
        WalkDistinct(tableLog, i, j - 1);
      }
    }
  }

  /** Without a low-probability area every position is visited in turn. */
  lemma {:induction false} VisitedAll(tableLog: nat, j: nat)
    ensures |Visited(tableLog, Pow2(tableLog), j)| == j
    ensures forall i :: 0 <= i < j ==> Visited(tableLog, Pow2(tableLog), j)[i] == Walk(tableLog, i)
  {
    if j > 0 {
      VisitedAll(tableLog, j - 1);
      WalkBelow(tableLog, j - 1);
    }
  }

  /**
   One round of the walk visits every cell below top exactly once: the positions are distinct,
   they are below top, and there are top of them.
   */
  lemma {:induction false} RoundVisitsEveryCell(tableLog: nat, top: nat)
    requires tableLog >= 4 && top <= Pow2(tableLog)
    ensures var round := Visited(tableLog, top, Pow2(tableLog));
            Distinct(round) && Below(round, top) && |round| == top
            && forall c :: 0 <= c < top ==> c in round
  {
    var size := Pow2(tableLog);
    var round := Visited(tableLog, top, size);
    VisitedDistinct(tableLog, top, size);
    VisitedDistinct(tableLog, size, size);
    VisitedAll(tableLog, size);
    forall c | 0 <= c < top
      ensures c in round
    {
      Pigeonhole(Visited(tableLog, size, size), size, c);
      var i := VisitedAt(tableLog, size, size, c);
      WalkVisited(tableLog, top, size, i);
    }
    AllMembers(round, top);
  }

  lemma {:induction false} AllMembers(p: seq<nat>, n: nat)
    requires Distinct(p) && Below(p, n) && forall c :: 0 <= c < n ==> c in p
    ensures |p| == n
  {
    DistinctBound(p, n, {});
    if n > 0 && |p| < n {
      assert n - 1 in p;
      var k :| 0 <= k < |p| && p[k] == n - 1;
      var q := p[..k] + p[k + 1..];
      forall c | 0 <= c < n - 1
        ensures c in q
      {
        assert c in p;
        var i :| 0 <= i < |p| && p[i] == c;
        assert q[if i < k then i else i - 1] == c;
      }
      AllMembers(q, n - 1);
    }
  }

  // ----- the layout of a table -----

  /** The number of cells left to symbols of positive frequency: highThreshold + 1. */
  ghost function Top(norm: seq<int>): (n: nat)
    requires |norm| <= 256
  {
    |Expand(norm, |norm|)|
  }

  /** The cells in the order in which they are filled. */
  ghost function FillOrder(norm: seq<int>, tableLog: nat): (p: seq<nat>)
    requires Normalized(norm, tableLog)
  {
    var size := Pow2(tableLog);
    ExpandLength(norm, |norm|);
    Visited(tableLog, Top(norm), size) + seq(size - Top(norm), i requires 0 <= i < size - Top(norm) => size - 1 - i)
  }

  /**
   The symbols of positive frequency follow the walk, in order and each as often as it is
   frequent; the low-probability symbols take the last cells, from the end.
   */
  ghost predicate IsSpread(table: seq<byte>, norm: seq<int>, tableLog: nat)
    requires Normalized(norm, tableLog)
  {
    var order, symbols := FillOrder(norm, tableLog), CellSymbols(norm);
    && |table| == |order| == |symbols| == Pow2(tableLog)
    && Below(order, |table|)
    && forall i :: 0 <= i < |order| ==> table[order[i]] == symbols[i]
  }

  lemma {:induction false} FillOrderIsPermutation(norm: seq<int>, tableLog: nat)
    requires Normalized(norm, tableLog) && tableLog >= 4
    ensures Distinct(FillOrder(norm, tableLog)) && Below(FillOrder(norm, tableLog), Pow2(tableLog))
    ensures |FillOrder(norm, tableLog)| == |CellSymbols(norm)| == Pow2(tableLog)
  {
    ExpandLength(norm, |norm|);
    RoundVisitsEveryCell(tableLog, Top(norm));
  }

  /** The layout is unique, so the encoder and the decoder place every symbol identically. */
  lemma {:induction false} SpreadUnique(t: seq<byte>, u: seq<byte>, norm: seq<int>, tableLog: nat)
    requires Normalized(norm, tableLog) && tableLog >= 4
    requires IsSpread(t, norm, tableLog) && IsSpread(u, norm, tableLog)
    ensures t == u
  {
    FillOrderIsPermutation(norm, tableLog);
    var order := FillOrder(norm, tableLog);
    forall c | 0 <= c < |t|
      ensures t[c] == u[c]
    {
      Pigeonhole(order, |t|, c);
      var i :| 0 <= i < |order| && order[i] == c;
    }
  }

  /** Every symbol gets as many cells as its weight. */
  lemma {:induction false} SpreadCounts(t: seq<byte>, norm: seq<int>, tableLog: nat, s: byte)
    requires Normalized(norm, tableLog) && tableLog >= 4
    requires IsSpread(t, norm, tableLog)
    ensures Count(t, s) == if s < |norm| then Abs(norm[s]) else 0
  {
    FillOrderIsPermutation(norm, tableLog);
    CountPermuted(t, CellSymbols(norm), FillOrder(norm, tableLog), s);
    CountCellSymbols(norm, s);
  }
}
