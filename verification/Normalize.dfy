/**
 FSE_normalizeCount and its fallback FSE_normalizeM2: from symbol counts to frequencies that share
 out exactly 2^tableLog cells.
 */
module Normalize {
  import opened Numeric
  import opened Results
  import opened Distribution
  import opened Shares

  const DEFAULT_TABLELOG := 11
  const NOT_YET_ASSIGNED := -2

  // ----- sums -----

  /** The sum of the first k counts. */
  function Total(count: seq<nat>, k: nat): (t: nat)
    requires k <= |count|
  {
    if k == 0 then 0 else Total(count, k - 1) + count[k - 1]
  }

  /** The cells given to the symbols assigned so far, among the first k. */
  function Assigned(norm: seq<int>, k: nat): (w: nat)
    requires k <= |norm|
  {
    if k == 0 then 0
    else Assigned(norm, k - 1) + (if norm[k - 1] == NOT_YET_ASSIGNED then 0 else Abs(norm[k - 1]))
  }

  /** The counts of the symbols still to be assigned, among the first k. */
  function Pending(count: seq<nat>, norm: seq<int>, k: nat): (t: nat)
    requires k <= |norm| && k <= |count|
  {
    if k == 0 then 0
    else Pending(count, norm, k - 1) + (if norm[k - 1] == NOT_YET_ASSIGNED then count[k - 1] else 0)
  }

  lemma {:induction false} TotalMono(count: seq<nat>, s: nat, k: nat)
    requires s < k <= |count|
    ensures Total(count, s) + count[s] <= Total(count, k)
    decreases k
  {
    if s < k - 1 {
      TotalMono(count, s, k - 1);
    }
  }

  lemma {:induction false} TotalBound(count: seq<nat>, k: nat, bound: nat)
    requires k <= |count| && forall s :: 0 <= s < k ==> count[s] <= bound
    ensures Total(count, k) <= k * bound
  {
    if k > 0 {
      TotalBound(count, k - 1, bound);
      assert k * bound == (k - 1) * bound + bound;
    }
  }

  /** Giving a pending symbol its cells. */
  lemma {:induction false} Assign(count: seq<nat>, norm: seq<int>, k: nat, s: nat, x: int)
    requires s < k <= |norm| && k <= |count| && norm[s] == NOT_YET_ASSIGNED && x != NOT_YET_ASSIGNED
    ensures Assigned(norm[s := x], k) == Assigned(norm, k) + Abs(x)
    ensures Pending(count, norm[s := x], k) == Pending(count, norm, k) - count[s]
  {
    if s < k - 1 {
      Assign(count, norm, k - 1, s, x);
    } else {
      SamePrefix(count, norm, norm[s := x], s);
    }
  }

  lemma {:induction false} SamePrefix(count: seq<nat>, a: seq<int>, b: seq<int>, k: nat)
    requires k <= |a| && k <= |b| && k <= |count| && forall i :: 0 <= i < k ==> a[i] == b[i]
    ensures Assigned(a, k) == Assigned(b, k) && Pending(count, a, k) == Pending(count, b, k)
    ensures Weight(a, k) == Weight(b, k)
  {
    if k > 0 {
      SamePrefix(count, a, b, k - 1);
    }
  }

  /** Giving more cells to a symbol that has some. */
  lemma {:induction false} GiveMore(norm: seq<int>, k: nat, s: nat, x: int)
    requires s < k <= |norm| && norm[s] >= 0 && x >= 0
    ensures Weight(norm[s := x], k) == Weight(norm, k) - norm[s] + x
  {
    if s < k - 1 {
      GiveMore(norm, k - 1, s, x);
    } else {
      SamePrefix(seq(|norm|, _ => 0), norm, norm[s := x], s);
    }
  }

  /** When every symbol is assigned, the cells assigned are the cells used. */
  lemma {:induction false} AllAssigned(count: seq<nat>, norm: seq<int>, k: nat)
    requires k <= |norm| && k <= |count| && forall s :: 0 <= s < k ==> norm[s] != NOT_YET_ASSIGNED
    ensures Assigned(norm, k) == Weight(norm, k) && Pending(count, norm, k) == 0
  {
    if k > 0 {
      AllAssigned(count, norm, k - 1);
    }
  }

  /** If nothing is pending, symbols that do occur are assigned. */
  lemma {:induction false} NonePending(count: seq<nat>, norm: seq<int>, k: nat, s: nat)
    requires s < k <= |norm| && k <= |count| && Pending(count, norm, k) == 0 && norm[s] == NOT_YET_ASSIGNED
    ensures count[s] == 0
  {
    if s < k - 1 {
      NonePending(count, norm, k - 1, s);
    }
  }

  // ----- the smallest table log -----

  function MinTableLog(total: nat, maxSymbolValue: nat): (m: nat)
    requires 0 < total < Pow2(32) && maxSymbolValue > 0
  {
    var minBitsSrc, minBitsSymbols := HighBit(total) + 1, HighBit(maxSymbolValue) + 2;
    if minBitsSrc < minBitsSymbols then minBitsSrc else minBitsSymbols
  }

  /** A table log is fit for an input when the cells outnumber its bytes, or twice its greatest symbol. */
  lemma {:induction false} MinTableLogIs(total: nat, maxSymbolValue: nat, tableLog: nat)
    requires 0 < total < Pow2(32) && maxSymbolValue > 0
    ensures MinTableLog(total, maxSymbolValue) <= tableLog <==> total < Pow2(tableLog) || 2 * maxSymbolValue < Pow2(tableLog)
  {
    BelowPower(total, tableLog);
    if tableLog > 0 {
      BelowPower(maxSymbolValue, tableLog - 1);
    }
  }

  lemma {:induction false} BelowPower(x: nat, n: nat)
    requires x > 0
    ensures HighBit(x) + 1 <= n <==> x < Pow2(n)
  {
    if HighBit(x) + 1 <= n {
      Pow2Mono(HighBit(x) + 1, n);
    } else {
      Pow2Mono(n, HighBit(x));
    }
  }

  /** Counts whose table log is not below the minimum. */
  ghost predicate Counts(count: seq<nat>, total: nat, tableLog: nat) {
    && 2 <= |count| <= MAX_SYMBOL_VALUE + 1
    && total == Total(count, |count|) && 1 < total < Pow2(32)
    && MIN_TABLELOG <= tableLog <= MAX_TABLELOG && MinTableLog(total, |count| - 1) <= tableLog
  }

  lemma {:induction false} MinTableLogMeans(total: nat, maxSymbolValue: nat, tableLog: nat)
    requires 0 < total < Pow2(32) && maxSymbolValue > 0 && MinTableLog(total, maxSymbolValue) <= tableLog
    ensures total < Pow2(tableLog) || maxSymbolValue + 1 < Pow2(tableLog)
  {
    if HighBit(total) + 1 <= tableLog {
      Pow2Mono(HighBit(total) + 1, tableLog);
    } else {
      Pow2Mono(HighBit(maxSymbolValue) + 2, tableLog);
    }
  }

  /** Some symbol is above the threshold of one cell: there are fewer symbols than cells. */
  lemma {:induction false} SomeAbove(count: seq<nat>, total: nat, tableLog: nat) returns (s: nat)
    requires Counts(count, total, tableLog)
    ensures s < |count| && count[s] > Shr(total, tableLog)
  {
    var low := Shr(total, tableLog);
    if forall r :: 0 <= r < |count| ==> count[r] <= low {
      TotalBound(count, |count|, low);
      MinTableLogMeans(total, |count| - 1, tableLog);
      Join(total, tableLog);
      ShlIsMul(low, tableLog);
      if total < Pow2(tableLog) {
        LowSmall(total, tableLog);
      }
      TooFew(|count|, low, Pow2(tableLog), total);
      assert false;
    }
    s :| 0 <= s < |count| && count[s] > low;
  }

  /** n symbols of at most `low` cannot make up a total of at least `low` times more symbols. */
  lemma {:induction false} TooFew(n: nat, low: nat, size: nat, total: nat)
    requires total > 0 && low * size <= total && (low == 0 || n < size)
    ensures n * low < total
  {
    if low > 0 {
      MulMono(n + 1, size, low);
      assert (n + 1) * low == n * low + low;
    }
  }

  /** The symbols that occur are fewer than the cells. */
  function Occurring(count: seq<nat>, k: nat): (n: nat)
    requires k <= |count|
    ensures n <= k && n <= Total(count, k)
  {
    if k == 0 then 0 else Occurring(count, k - 1) + (if count[k - 1] > 0 then 1 else 0)
  }

  lemma {:induction false} FewSymbols(count: seq<nat>, total: nat, tableLog: nat)
    requires Counts(count, total, tableLog)
    ensures Occurring(count, |count|) < Pow2(tableLog)
  {
    MinTableLogMeans(total, |count| - 1, tableLog);
  }

  // ----- what a symbol is given -----

  /** No cells exactly when the symbol does not occur; else some cells, or the mark lowProbCount. */
  predicate Served(c: nat, x: int, lowProbCount: int) {
    (x == 0 <==> c == 0) && (x < 0 ==> x == lowProbCount)
  }

  ghost predicate AllServed(count: seq<nat>, norm: seq<int>, k: nat, lowProbCount: int)
    requires k <= |count| && k <= |norm|
  {
    forall i :: 0 <= i < k ==> Served(count[i], norm[i], lowProbCount)
  }

  /** What the thresholds decide: the mark, one cell, or to wait for a share of the cells left over. */
  function Decision(c: nat, lowThreshold: nat, lowOne: nat, lowProbCount: int): (x: int) {
    if c == 0 then 0 else if c <= lowThreshold then lowProbCount else if c <= lowOne then 1 else NOT_YET_ASSIGNED
  }

  predicate Decided(c: nat, x: int, lowThreshold: nat, lowOne: nat, lowProbCount: int) {
    x == Decision(c, lowThreshold, lowOne, lowProbCount)
  }

  ghost predicate AllDecided(count: seq<nat>, norm: seq<int>, k: nat, lowThreshold: nat, lowOne: nat, lowProbCount: int)
    requires k <= |count| && k <= |norm|
  {
    forall i :: 0 <= i < k ==> Decided(count[i], norm[i], lowThreshold, lowOne, lowProbCount)
  }

  /** Decided symbols take a cell each, so they are no more than the occurrences they stand for. */
  lemma {:induction false} DecidedSums(count: seq<nat>, norm: seq<int>, k: nat, low: nat, lowOne: nat, lowProbCount: int)
    requires k <= |count| && k <= |norm| && (lowProbCount == -1 || lowProbCount == 1)
    requires AllDecided(count, norm, k, low, lowOne, lowProbCount)
    ensures Assigned(norm, k) <= Occurring(count, k)
    ensures Assigned(norm, k) + Pending(count, norm, k) <= Total(count, k)
    ensures Assigned(norm, k) == k ==> forall i :: 0 <= i < k ==> norm[i] != NOT_YET_ASSIGNED
  {
    if k > 0 {
      assert Decided(count[k - 1], norm[k - 1], low, lowOne, lowProbCount);
      DecidedSums(count, norm, k - 1, low, lowOne, lowProbCount);
    }
  }

  // ----- FSE_normalizeM2, step by step -----

  /** First pass: rare symbols get one cell, the others are left pending. */
  method FirstPass(norm: array<int>, count: seq<nat>, total: nat, lowThreshold: nat, lowOne: nat, lowProbCount: int)
    returns (distributed: nat, rest: nat)
    requires |count| <= norm.Length && total == Total(count, |count|)
    requires lowProbCount == -1 || lowProbCount == 1
    modifies norm
    ensures norm[|count|..] == old(norm[|count|..])
    ensures AllDecided(count, norm[..], |count|, lowThreshold, lowOne, lowProbCount)
    ensures distributed == Assigned(norm[..], |count|) && rest == Pending(count, norm[..], |count|)
  {
    distributed, rest := 0, total;
    var s := 0;
    while s < |count|
      invariant 0 <= s <= |count|
      invariant norm[|count|..] == old(norm[|count|..])
      invariant AllDecided(count, norm[..], s, lowThreshold, lowOne, lowProbCount)
      invariant distributed == Assigned(norm[..], s)
      invariant rest + Total(count, s) == Pending(count, norm[..], s) + total
    {
      ghost var was := norm[..];
      TotalMono(count, s, |count|);
      if count[s] == 0 {
        norm[s] := 0;
      } else if count[s] <= lowThreshold {
        norm[s] := lowProbCount;
        distributed := distributed + 1;
        rest := rest - count[s];
      } else if count[s] <= lowOne {
        norm[s] := 1;
        distributed := distributed + 1;
        rest := rest - count[s];
      } else {
        norm[s] := NOT_YET_ASSIGNED;
      }
      SamePrefix(count, was, norm[..], s);
      s := s + 1;
    }
  }

  /** Second pass: pending symbols up to a higher threshold get one cell too. */
  method SecondPass(norm: array<int>, count: seq<nat>, ghost lowThreshold: nat, ghost first: nat, lowOne: nat,
                    ghost lowProbCount: int, distributed0: nat, rest0: nat)
    returns (distributed: nat, rest: nat)
    requires |count| <= norm.Length
    requires AllDecided(count, norm[..], |count|, lowThreshold, first, lowProbCount)
    requires first <= lowOne && (lowProbCount == -1 || lowProbCount == 1)
    requires distributed0 == Assigned(norm[..], |count|) && rest0 == Pending(count, norm[..], |count|)
    modifies norm
    ensures norm[|count|..] == old(norm[|count|..])
    ensures AllDecided(count, norm[..], |count|, lowThreshold, lowOne, lowProbCount)
    ensures distributed == Assigned(norm[..], |count|) && rest == Pending(count, norm[..], |count|) <= rest0
  {
    distributed, rest := distributed0, rest0;
    var s := 0;
    while s < |count|
      invariant 0 <= s <= |count|
      invariant norm[|count|..] == old(norm[|count|..])
      invariant AllDecided(count, norm[..], s, lowThreshold, lowOne, lowProbCount)
      invariant forall i :: s <= i < |count| ==> Decided(count[i], norm[i], lowThreshold, first, lowProbCount)
      invariant distributed == Assigned(norm[..], |count|)
      invariant rest == Pending(count, norm[..], |count|) <= rest0
    {
      assert Decided(count[s], norm[s], lowThreshold, first, lowProbCount);
      if norm[s] == NOT_YET_ASSIGNED && count[s] <= lowOne {
        Assign(count, norm[..], |count|, s, 1);
        norm[s] := 1;
        distributed := distributed + 1;
        rest := rest - count[s];
      }
      s := s + 1;
    }
  }

  /** m is the first symbol with the largest count. */
  ghost predicate IsLargest(count: seq<nat>, m: nat) {
    && m < |count| && (forall i :: 0 <= i < |count| ==> count[i] <= count[m])
    && forall i :: 0 <= i < m ==> count[i] < count[m]
  }

  /** Finds the symbol with the largest count. */
  method Largest(count: seq<nat>) returns (maxV: nat)
    requires |count| > 0
    ensures IsLargest(count, maxV)
  {
    var maxC := 0;
    maxV := 0;
    var s := 0;
    while s < |count|
      invariant 0 <= s <= |count| && maxV < |count|
      invariant maxC <= count[maxV] && forall i :: 0 <= i < s ==> count[i] <= maxC
      invariant maxC > 0 ==> count[maxV] == maxC
      invariant maxC == 0 ==> maxV == 0
      invariant forall i :: 0 <= i < maxV ==> count[i] < maxC
    {
      if count[s] > maxC {
        maxV := s;
        maxC := count[s];
      }
      s := s + 1;
    }
  }

  /** Every symbol with cells has got `level` more, those before `cut` one more still. */
  function Evened(x: int, s: nat, level: nat, cut: nat): (y: int) {
    if x > 0 then x + level + (if s < cut then 1 else 0) else x
  }

  ghost predicate AllEvened(was: seq<int>, now: seq<int>, n: nat, level: nat, cut: nat)
    requires n <= |was| == |now|
  {
    forall i :: 0 <= i < n ==> now[i] == Evened(was[i], i, level, cut)
  }

  /** Gives the cells left over one by one to the symbols in turn. */
  method RoundRobin(norm: array<int>, count: seq<nat>, toDistribute: nat, lowProbCount: int, ghost rich: nat)
    returns (ghost level: nat, ghost cut: nat)
    requires 0 < |count| <= norm.Length && AllServed(count, norm[..], |count|, lowProbCount)
    requires rich < |count| && norm[rich] > 0 && lowProbCount <= 1
    modifies norm
    ensures norm[|count|..] == old(norm[|count|..])
    ensures AllServed(count, norm[..], |count|, lowProbCount)
    ensures Weight(norm[..], |count|) == old(Weight(norm[..], |count|)) + toDistribute
    ensures AllEvened(old(norm[..]), norm[..], |count|, level, cut)
  {
    var left := toDistribute;
    var s := 0;
    ghost var was := norm[..];
    level := 0;
    while left > 0
      invariant 0 <= s < |count|
      invariant norm[|count|..] == old(norm[|count|..])
      invariant AllServed(count, norm[..], |count|, lowProbCount) && norm[rich] > 0
      invariant Weight(norm[..], |count|) + left == old(Weight(norm[..], |count|)) + toDistribute
      invariant AllEvened(was, norm[..], |count|, level, s)
      decreases left, if s <= rich then rich - s else rich + |count| - s
    {
      assert Served(count[s], norm[s], lowProbCount);
      if norm[s] > 0 {
        left := left - 1;
        GiveMore(norm[..], |count|, s, norm[s] + 1);
        norm[s] := norm[s] + 1;
      }
      if s + 1 == |count| {
        level := level + 1;
      }
      s := if s + 1 == |count| then 0 else s + 1;
    }
    cut := s;
  }

  // ----- fixed-point shares of the cells left over -----

  /** The fixed-point step that spreads `toDistribute` cells, with v fraction bits, over `total`. */
  function RStep(toDistribute: nat, v: nat, total: nat): (r: nat)
    requires v > 0 && total > 0
  {
    (Shl(toDistribute, v) + (Pow2(v - 1) - 1)) / total
  }

  lemma {:induction false} RStepBounds(toDistribute: nat, v: nat, total: nat)
    requires v > 0 && 0 < total <= Pow2(v - 1)
    ensures Shl(toDistribute, v) <= total * RStep(toDistribute, v, total) <= Shl(toDistribute, v) + (Pow2(v - 1) - 1)
  {
    DivBounds(Shl(toDistribute, v) + (Pow2(v - 1) - 1), total);
  }

  lemma {:induction false} DivBounds(x: nat, d: nat)
    requires d > 0
    ensures x - d < d * (x / d) <= x
  {
  }

  /** All the counts together take exactly the cells there are. */
  lemma {:induction false} AllShares(toDistribute: nat, v: nat, total: nat)
    requires v > 0 && 0 < total <= Pow2(v - 1)
    ensures Shr((Pow2(v - 1) - 1) + total * RStep(toDistribute, v, total), v) == toDistribute
    ensures Shr(Pow2(v - 1) - 1, v) == 0
  {
    RStepBounds(toDistribute, v, total);
    var given := total * RStep(toDistribute, v, total);
    Split((Pow2(v - 1) - 1) + given - Shl(toDistribute, v), toDistribute, v);
    LowSmall(Pow2(v - 1) - 1, v);
  }

  /** A count that gets no cell is below the average of the cells. */
  lemma {:induction false} NoCell(t: nat, c: nat, toDistribute: nat, v: nat, total: nat)
    requires v > 0 && 0 < total <= Pow2(v - 1)
    requires Shr(t + c * RStep(toDistribute, v, total), v) <= Shr(t, v)
    ensures c * toDistribute < total
  {
    var r := RStep(toDistribute, v, total);
    RStepBounds(toDistribute, v, total);
    ShlIsMul(toDistribute, v);
    if c * r >= Pow2(v) {
      Join(t, v);
      ShlSum(Shr(t, v), 1, v);
      Pow2Add(0, v);
      ShrLower(t + c * r, Shr(t, v) + 1, v);
      assert false;
    }
    CrossMultiply(c, toDistribute, total, r, Pow2(v));
  }

  lemma {:induction false} CrossMultiply(c: nat, n: nat, total: nat, r: nat, p: nat)
    requires n * p <= total * r && c * r < p && total > 0
    ensures c * n < total
  {
    if c > 0 {
      MulMono(n * p, total * r, c);
      assert (n * p) * c == (c * n) * p && (total * r) * c == (c * r) * total;
      MulMono(c * r + 1, p, total);
      assert (c * r + 1) * total == (c * r) * total + total;
      StrictlyLess(c * n, total, p);
    }
  }

  lemma {:induction false} StrictlyLess(a: nat, b: nat, p: nat)
    requires a * p < b * p
    ensures a < b
  {
    if a >= b {
      MulMono(b, a, p);
    }
  }

  lemma {:induction false} Distribute(a: nat, b: nat, c: nat)
    ensures (a + b) * c == a * c + b * c
  {
  }

  lemma {:induction false} ShrMono(x: nat, y: nat, n: nat)
    requires x <= y
    ensures Shr(x, n) <= Shr(y, n)
  {
    if n > 0 {
      ShrMono(x / 2, y / 2, n - 1);
    }
  }

  ghost predicate Handed(count: seq<nat>, norm: seq<int>, k: nat, lowProbCount: int)
    requires k <= |count| && k <= |norm|
  {
    AllServed(count, norm, k, lowProbCount) && forall i :: 0 <= i < k ==> norm[i] != NOT_YET_ASSIGNED
  }

  /** From some mark on, the count c covers no whole cell. */
  ghost predicate CoversNone(c: nat, rStep: nat, v: nat) {
    exists t: nat :: CoversNoneFrom(t, c, rStep, v)
  }

  ghost predicate CoversNoneFrom(t: nat, c: nat, rStep: nat, v: nat) {
    Shr(t + c * rStep, v) <= Shr(t, v)
  }

  lemma {:induction false} CoversNoneMeans(c: nat, toDistribute: nat, v: nat, total: nat)
    requires v > 0 && 0 < total <= Pow2(v - 1) && CoversNone(c, RStep(toDistribute, v, total), v)
    ensures c * toDistribute < total
  {
    var t: nat :| CoversNoneFrom(t, c, RStep(toDistribute, v, total), v);
    NoCell(t, c, toDistribute, v, total);
  }

  /** A pending symbol gets the cells of its stretch, to within one; the others keep theirs. */
  ghost predicate Stretched(c: nat, was: int, now: int, rStep: nat, v: nat) {
    if was == NOT_YET_ASSIGNED then (now - 1) * Pow2(v) < c * rStep < (now + 1) * Pow2(v) else now == was
  }

  ghost predicate AllStretched(count: seq<nat>, was: seq<int>, now: seq<int>, k: nat, rStep: nat, v: nat)
    requires k <= |count| && k <= |was| && k <= |now|
  {
    forall i :: 0 <= i < k ==> Stretched(count[i], was[i], now[i], rStep, v)
  }

  /** Walks a mark up by count * rStep; a pending symbol gets the whole cells its stretch covers. */
  method Stretches(norm: array<int>, count: seq<nat>, vStepLog: nat, rStep: nat, mid: nat, ghost lowProbCount: int,
                   ghost low: nat, ghost lowOne: nat)
    returns (r: Result<nat>)
    requires |count| <= norm.Length && (lowProbCount == -1 || lowProbCount == 1)
    requires AllDecided(count, norm[..], |count|, low, lowOne, lowProbCount)
    modifies norm
    ensures norm[|count|..] == old(norm[|count|..])
    ensures r == Ok(0) || r == Err(Generic)
    ensures r.Err? ==> exists s :: 0 <= s < |count| && old(norm[s]) == NOT_YET_ASSIGNED && CoversNone(count[s], rStep, vStepLog)
    ensures r.Ok? ==> Handed(count, norm[..], |count|, lowProbCount)
    ensures r.Ok? ==> AllStretched(count, old(norm[..]), norm[..], |count|, rStep, vStepLog)
    ensures r.Ok? ==>
              && Assigned(norm[..], |count|) + Shr(mid, vStepLog)
              == old(Assigned(norm[..], |count|)) + Shr(mid + old(Pending(count, norm[..], |count|)) * rStep, vStepLog)
  {
    var tmpTotal: nat := mid;
    ghost var was, given: nat := norm[..], 0;
    ghost var total := Pending(count, was, |count|);
    var s := 0;
    while s < |count|
      invariant 0 <= s <= |count|
      invariant norm[|count|..] == was[|count|..]
      invariant forall i :: s <= i < |count| ==> norm[i] == was[i]
      invariant Handed(count, norm[..], s, lowProbCount) && AllStretched(count, was, norm[..], s, rStep, vStepLog)
      invariant given + Pending(count, norm[..], |count|) == total && tmpTotal == mid + given * rStep
      invariant Assigned(norm[..], |count|) + Shr(mid, vStepLog) == Assigned(was, |count|) + Shr(tmpTotal, vStepLog)
    {
      assert Decided(count[s], was[s], low, lowOne, lowProbCount);
      if norm[s] == NOT_YET_ASSIGNED {
        var end: nat := tmpTotal + count[s] * rStep;
        var weight := Shr(end, vStepLog) - Shr(tmpTotal, vStepLog);
        if weight < 1 {
          assert CoversNoneFrom(tmpTotal, count[s], rStep, vStepLog);
          return Err(Generic);
        }
        StretchUnits(tmpTotal, count[s] * rStep, vStepLog);
        Assign(count, norm[..], |count|, s, weight);
        Distribute(given, count[s], rStep);
        given := given + count[s];
        norm[s] := weight;
        tmpTotal := end;
      }
      s := s + 1;
    }
    AllAssigned(count, norm[..], |count|);
    r := Ok(0);
  }

  /** Some pending symbol has less than the average count of a cell. */
  ghost predicate Starved(count: seq<nat>, norm: seq<int>, toDistribute: nat, total: nat)
    requires |count| <= |norm|
  {
    exists s :: 0 <= s < |count| && norm[s] == NOT_YET_ASSIGNED && count[s] * toDistribute < total
  }

  /** Shares the cells left over among the pending symbols, in proportion to their counts. */
  method FixedPoint(norm: array<int>, count: seq<nat>, tableLog: nat, toDistribute: nat, total: nat, ghost lowProbCount: int,
                    ghost low: nat, ghost lowOne: nat)
    returns (r: Result<nat>)
    requires |count| <= norm.Length && tableLog <= MAX_TABLELOG && (lowProbCount == -1 || lowProbCount == 1)
    requires AllDecided(count, norm[..], |count|, low, lowOne, lowProbCount)
    requires 0 < total == Pending(count, norm[..], |count|) < Pow2(32)
    modifies norm
    ensures norm[|count|..] == old(norm[|count|..])
    ensures r == Ok(0) || (r == Err(Generic) && old(Starved(count, norm[..], toDistribute, total)))
    ensures r.Ok? ==> AllServed(count, norm[..], |count|, lowProbCount)
    ensures r.Ok? ==> Weight(norm[..], |count|) == old(Assigned(norm[..], |count|)) + toDistribute
    ensures r.Ok? ==> AllFair(count, old(norm[..]), norm[..], |count|, toDistribute, total)
  {
    var vStepLog := 62 - tableLog;
    assert total <= Pow2(vStepLog - 1) by { Pow2Mono(32, vStepLog - 1); }
    var rStep := RStep(toDistribute, vStepLog, total);
    r := Stretches(norm, count, vStepLog, rStep, Pow2(vStepLog - 1) - 1, lowProbCount, low, lowOne);
    if r.Err? {
      ghost var s :| 0 <= s < |count| && old(norm[s]) == NOT_YET_ASSIGNED && CoversNone(count[s], rStep, vStepLog);
      CoversNoneMeans(count[s], toDistribute, vStepLog, total);
    } else {
      AllShares(toDistribute, vStepLog, total);
      AllAssigned(count, norm[..], |count|);
      StretchedFair(count, old(norm[..]), norm[..], toDistribute, vStepLog, total, low, lowOne, lowProbCount);
    }
  }

  /** A pending symbol got its fair share; the others keep their cells. */
  ghost predicate FairFor(c: nat, was: int, now: int, toDistribute: nat, rest: nat) {
    if was == NOT_YET_ASSIGNED then FairShare(now, c, toDistribute, rest) else now == was
  }

  ghost predicate AllFair(count: seq<nat>, was: seq<int>, now: seq<int>, k: nat, toDistribute: nat, rest: nat)
    requires k <= |count| && k <= |was| && k <= |now|
  {
    forall i :: 0 <= i < k ==> FairFor(count[i], was[i], now[i], toDistribute, rest)
  }

  lemma {:induction false} StretchedFair(count: seq<nat>, was: seq<int>, now: seq<int>, toDistribute: nat, v: nat, total: nat,
                                         low: nat, lowOne: nat, lowProbCount: int)
    requires |count| <= |was| && |count| <= |now| && v > 0 && 0 < total <= Pow2(v - 1)
    requires AllDecided(count, was, |count|, low, lowOne, lowProbCount) && (lowProbCount == -1 || lowProbCount == 1)
    requires AllStretched(count, was, now, |count|, RStep(toDistribute, v, total), v)
    ensures AllFair(count, was, now, |count|, toDistribute, total)
  {
    RStepBounds(toDistribute, v, total);
    ShlIsMul(toDistribute, v);
    var rStep := RStep(toDistribute, v, total);
    assert Pow2(v) == 2 * Pow2(v - 1);
    assert (2 * toDistribute + 1) * Pow2(v) == 2 * (toDistribute * Pow2(v)) + Pow2(v);
    forall i | 0 <= i < |count| ensures FairFor(count[i], was[i], now[i], toDistribute, total) {
      assert Stretched(count[i], was[i], now[i], rStep, v) && Decided(count[i], was[i], low, lowOne, lowProbCount);
      if was[i] == NOT_YET_ASSIGNED {
        StretchFair(now[i], count[i], rStep, Pow2(v), toDistribute, total);
      }
    }
  }

  // ----- no pending symbol is starved -----

  lemma {:induction false} AboveAverage(count: seq<nat>, norm: seq<int>, low: nat, lowOne: nat, lowProbCount: int, toDistribute: nat, rest: nat)
    requires |count| <= |norm| && AllDecided(count, norm, |count|, low, lowOne, lowProbCount) && lowProbCount >= -1
    requires toDistribute > 0 && rest / toDistribute <= lowOne
    ensures !Starved(count, norm, toDistribute, rest)
  {
    forall s | 0 <= s < |count| && norm[s] == NOT_YET_ASSIGNED ensures count[s] * toDistribute >= rest {
      assert Decided(count[s], norm[s], low, lowOne, lowProbCount);
      DivBounds(rest, toDistribute);
      MulMono(rest / toDistribute + 1, count[s], toDistribute);
    }
  }

  /** The first threshold: half as much again as the count of a cell. */
  function LowOne(total: nat, tableLog: nat): (t: nat)
  {
    Low(Shr(total * 3, tableLog + 1), 32)
  }

  lemma {:induction false} LowOneFits(total: nat, tableLog: nat)
    requires total < Pow2(32) && tableLog >= MIN_TABLELOG
    ensures LowOne(total, tableLog) == Shr(total * 3, tableLog + 1)
  {
    Pow2Mono(32, 33);
    Pow2Mono(33, 34);
    Pow2Mono(34, tableLog + 1 + 32);
    ShrBound(total * 3, tableLog + 1, 32);
    LowSmall(Shr(total * 3, tableLog + 1), 32);
  }

  lemma {:induction false} LowOneMeans(total: nat, tableLog: nat)
    ensures 3 * total < (Shr(total * 3, tableLog + 1) + 1) * (2 * Pow2(tableLog))
  {
    var x, n, q := total * 3, tableLog + 1, Shr(total * 3, tableLog + 1);
    Join(x, n);
    LowBound(x, n);
    ShlIsMul(q, n);
    Distribute(q, 1, Pow2(n));
  }

  /** When the threshold must be raised, at least a third of the cells are already gone. */
  lemma {:induction false} ManyGone(total: nat, size: nat, d: nat, rest: nat, lowOne: nat)
    requires d < size && rest / (size - d) > lowOne && rest <= total && 3 * total < (lowOne + 1) * (2 * size)
    ensures 3 * d > size
  {
    var left := size - d;
    DivBounds(rest, left);
    MulMono(lowOne + 1, rest / left, left);
    assert (lowOne + 1) * (3 * left) == 3 * ((lowOne + 1) * left);
    if 2 * size <= 3 * left {
      MulMono(2 * size, 3 * left, lowOne + 1);
      assert false;
    }
  }

  function Quot(x: nat, d: nat): (q: nat)
    requires d > 0
    ensures q * d <= x < q * d + d
  {
    x / d
  }

  /** Half as much again as the average of t over n. */
  function HalfMore(t: nat, n: nat): (m: nat)
    requires n > 0
    ensures m * (2 * n) <= 3 * t < m * (2 * n) + 2 * n
  {
    Quot(3 * t, 2 * n)
  }

  /** The raised threshold: half as much again as the count of a cell that is left. */
  function Raised(rest: nat, toDistribute: nat): (t: nat)
    requires toDistribute > 0
  {
    Low(HalfMore(rest, toDistribute), 32)
  }

  lemma {:induction false} RaisedFits(rest: nat, toDistribute: nat)
    requires toDistribute >= 2 && rest < Pow2(32)
    ensures Raised(rest, toDistribute) == HalfMore(rest, toDistribute)
  {
    var q := HalfMore(rest, toDistribute);
    MulMono(4, 2 * toDistribute, q);
    LowSmall(q, 32);
  }

  /** Above one and a half averages, and with at most a third of the cells gone since: still above the average. */
  lemma {:induction false} StillAbove(c: nat, q: nat, left0: nat, left: nat, rest0: nat, rest: nat)
    requires 3 * rest0 - 2 * left0 < (2 * left0) * q && c > q
    requires 2 * left0 <= 3 * left && rest <= rest0
    ensures c * left >= rest
  {
    MulMono(q + 1, c, 2 * left0);
    Distribute(q, 1, 2 * left0);
    MulMono(2 * left0, 3 * left, c);
    assert (3 * left) * c == 3 * (c * left);
  }

  /** After raising the threshold, whoever is above it still has an average count for a cell. */
  lemma {:induction false} AboveRaised(count: seq<nat>, norm: seq<int>, low: nat, lowOne: nat, lowProbCount: int,
                                       left0: nat, left: nat, rest0: nat, rest: nat)
    requires |count| <= |norm| && AllDecided(count, norm, |count|, low, lowOne, lowProbCount) && lowProbCount >= -1
    requires 0 < left0 && 2 * left0 <= 3 * left && rest <= rest0 && lowOne == HalfMore(rest0, left0)
    ensures !Starved(count, norm, left, rest)
  {
    forall s | 0 <= s < |count| && norm[s] == NOT_YET_ASSIGNED ensures count[s] * left >= rest {
      assert Decided(count[s], norm[s], low, lowOne, lowProbCount);
      StillAbove(count[s], lowOne, left0, left, rest0, rest);
    }
  }

  /** When the threshold is raised, a third of the cells is gone, but no more than half ever goes. */
  lemma {:induction false} RaiseMeans(count: seq<nat>, total: nat, tableLog: nat, d: nat, rest: nat)
    requires Counts(count, total, tableLog)
    requires d < Pow2(tableLog) && d + rest <= total && rest / (Pow2(tableLog) - d) > LowOne(total, tableLog)
    ensures 3 * d > Pow2(tableLog) && 2 * |count| <= Pow2(tableLog)
  {
    SomeLeft(rest, Pow2(tableLog) - d);
    RoomyTable(count, total, tableLog);
    LowOneFits(total, tableLog);
    LowOneMeans(total, tableLog);
    ManyGone(total, Pow2(tableLog), d, rest, LowOne(total, tableLog));
  }

  lemma {:induction false} SomeLeft(x: nat, d: nat)
    requires d > 0 && x / d > 0
    ensures d <= x
  {
  }

  /** If the threshold is raised, the table is at least twice as large as the alphabet. */
  lemma {:induction false} RoomyTable(count: seq<nat>, total: nat, tableLog: nat)
    requires Counts(count, total, tableLog) && total >= Pow2(tableLog)
    ensures 2 * |count| <= Pow2(tableLog)
  {
    if HighBit(total) + 1 <= tableLog {
      Pow2Mono(HighBit(total) + 1, tableLog);
      assert false;
    }
    Pow2Mono(HighBit(|count| - 1) + 2, tableLog);
  }

  // ----- what the thresholds come to -----

  /** The symbols among the first k that occur at most `one` times. */
  function Few(count: seq<nat>, one: nat, k: nat): (n: nat)
    requires k <= |count|
  {
    if k == 0 then 0 else Few(count, one, k - 1) + if 0 < count[k - 1] <= one then 1 else 0
  }

  /** The counts of the others. */
  function Many(count: seq<nat>, one: nat, k: nat): (t: nat)
    requires k <= |count|
  {
    if k == 0 then 0 else Many(count, one, k - 1) + if count[k - 1] > one then count[k - 1] else 0
  }

  lemma {:induction false} DecidedCounts(count: seq<nat>, norm: seq<int>, k: nat, low: nat, one: nat, lowProbCount: int)
    requires k <= |count| && k <= |norm| && (lowProbCount == -1 || lowProbCount == 1) && low <= one
    requires AllDecided(count, norm, k, low, one, lowProbCount)
    ensures Assigned(norm, k) == Few(count, one, k) && Pending(count, norm, k) == Many(count, one, k)
  {
    if k > 0 {
      assert Decided(count[k - 1], norm[k - 1], low, one, lowProbCount);
      DecidedCounts(count, norm, k - 1, low, one, lowProbCount);
    }
  }

  /**
   Up to which count a symbol gets one cell: half as much again as the average count of a cell, or
   of a cell that is left, if the average there is above the first threshold.
   */
  function Threshold(count: seq<nat>, total: nat, tableLog: nat): (one: nat)
  {
    var first := HalfMore(total, Pow2(tableLog));
    var left, rest := Pow2(tableLog) - Few(count, first, |count|), Many(count, first, |count|);
    if left > 0 && rest / left > first then HalfMore(rest, left) else first
  }

  lemma {:induction false} LowOneIs(total: nat, tableLog: nat)
    requires total < Pow2(32) && tableLog >= MIN_TABLELOG
    ensures LowOne(total, tableLog) == HalfMore(total, Pow2(tableLog)) >= Shr(total, tableLog)
  {
    LowOneFits(total, tableLog);
    ShrIsDiv(total, tableLog);
    WholeUnits(total * 3, tableLog + 1);
    NotBelowAverage(total, Pow2(tableLog));
    Distribute(LowOne(total, tableLog), 1, Pow2(tableLog + 1));
    OnlyHalfMore(LowOne(total, tableLog), total, Pow2(tableLog));
  }

  lemma {:induction false} OnlyHalfMore(m: nat, t: nat, n: nat)
    requires n > 0 && m * (2 * n) <= 3 * t < m * (2 * n) + 2 * n
    ensures m == HalfMore(t, n)
  {
    var h := HalfMore(t, n);
    Distribute(m, 1, 2 * n);
    if m < h {
      MulMono(m + 1, h, 2 * n);
    } else if h < m {
      MulMono(h + 1, m, 2 * n);
    }
  }

  lemma {:induction false} AtMostHalfMore(m: nat, t: nat, n: nat)
    requires n > 0 && m * (2 * n) <= 3 * t
    ensures m <= HalfMore(t, n)
  {
    if m > HalfMore(t, n) {
      MulMono(HalfMore(t, n) + 1, m, 2 * n);
    }
  }

  lemma {:induction false} NotBelowAverage(t: nat, n: nat)
    requires n > 0
    ensures HalfMore(t, n) >= t / n
  {
    DivBounds(t, n);
    assert (t / n) * (2 * n) == 2 * (n * (t / n));
    AtMostHalfMore(t / n, t, n);
  }

  lemma {:induction false} AtMostQuotient(q: nat, x: nat, d: nat)
    requires d > 0 && q * d <= x
    ensures q <= x / d
  {
    if q > x / d {
      DivBounds(x, d);
      MulMono(x / d + 1, q, d);
    }
  }

  /** The raised threshold is above the first one. */
  lemma {:induction false} RaisedAbove(rest: nat, left: nat, lowOne: nat)
    requires left > 0 && rest / left > lowOne
    ensures HalfMore(rest, left) >= lowOne
  {
    DivBounds(rest, left);
    MulMono(lowOne, rest / left, left);
    AtMostHalfMore(lowOne, rest, left);
  }

  /** Shares out what the first pass left, with a higher threshold if the average is above it. */
  method RaiseThreshold(norm: array<int>, count: seq<nat>, tableLog: nat, ghost total: nat, ghost low: nat, lowOne: nat,
                        ghost lowProbCount: int, distributed0: nat, rest0: nat)
    returns (distributed: nat, rest: nat)
    requires Counts(count, total, tableLog) && |count| <= norm.Length && (lowProbCount == -1 || lowProbCount == 1)
    requires AllDecided(count, norm[..], |count|, low, lowOne, lowProbCount) && lowOne == LowOne(total, tableLog)
    requires low == Shr(total, tableLog)
    requires distributed0 == Assigned(norm[..], |count|) < Pow2(tableLog) && rest0 == Pending(count, norm[..], |count|)
    modifies norm
    ensures norm[|count|..] == old(norm[|count|..])
    ensures low <= Threshold(count, total, tableLog)
    ensures AllDecided(count, norm[..], |count|, low, Threshold(count, total, tableLog), lowProbCount)
    ensures distributed == Assigned(norm[..], |count|) < Pow2(tableLog) && rest == Pending(count, norm[..], |count|)
    ensures !Starved(count, norm[..], Pow2(tableLog) - distributed, rest)
  {
    distributed, rest := distributed0, rest0;
    var toDistribute := Pow2(tableLog) - distributed;
    ThresholdIs(count, norm[..], total, tableLog, lowProbCount);
    if rest / toDistribute > lowOne {
      distributed, rest := RaiseAgain(norm, count, tableLog, total, low, lowOne, lowProbCount, distributed, rest);
    } else {
      AboveAverage(count, norm[..], low, lowOne, lowProbCount, toDistribute, rest);
    }
  }

  lemma {:induction false} ThresholdIs(count: seq<nat>, norm: seq<int>, total: nat, tableLog: nat, lowProbCount: int)
    requires Counts(count, total, tableLog) && |count| <= |norm| && (lowProbCount == -1 || lowProbCount == 1)
    requires AllDecided(count, norm, |count|, Shr(total, tableLog), LowOne(total, tableLog), lowProbCount)
    requires Assigned(norm, |count|) < Pow2(tableLog)
    ensures var one, left, rest := LowOne(total, tableLog), Pow2(tableLog) - Assigned(norm, |count|), Pending(count, norm, |count|);
            && Shr(total, tableLog) <= one
            && Threshold(count, total, tableLog) == (if rest / left > one then HalfMore(rest, left) else one)
            && (rest / left > one ==> one <= HalfMore(rest, left))
  {
    var one, left, rest := LowOne(total, tableLog), Pow2(tableLog) - Assigned(norm, |count|), Pending(count, norm, |count|);
    LowOneIs(total, tableLog);
    DecidedCounts(count, norm, |count|, Shr(total, tableLog), one, lowProbCount);
    if rest / left > one {
      RaisedAbove(rest, left, one);
    }
  }

  /** `if ((total / ToDistribute) > lowOne)` */
  method RaiseAgain(norm: array<int>, count: seq<nat>, tableLog: nat, ghost total: nat, ghost low: nat, lowOne: nat,
                    ghost lowProbCount: int, distributed0: nat, rest0: nat)
    returns (distributed: nat, rest: nat)
    requires Counts(count, total, tableLog) && |count| <= norm.Length && (lowProbCount == -1 || lowProbCount == 1)
    requires AllDecided(count, norm[..], |count|, low, lowOne, lowProbCount) && lowOne == LowOne(total, tableLog)
    requires distributed0 == Assigned(norm[..], |count|) < Pow2(tableLog) && rest0 == Pending(count, norm[..], |count|)
    requires rest0 / (Pow2(tableLog) - distributed0) > lowOne && lowOne <= HalfMore(rest0, Pow2(tableLog) - distributed0)
    modifies norm
    ensures norm[|count|..] == old(norm[|count|..])
    ensures AllDecided(count, norm[..], |count|, low, HalfMore(rest0, Pow2(tableLog) - distributed0), lowProbCount)
    ensures distributed == Assigned(norm[..], |count|) < Pow2(tableLog) && rest == Pending(count, norm[..], |count|)
    ensures !Starved(count, norm[..], Pow2(tableLog) - distributed, rest)
  {
    var toDistribute := Pow2(tableLog) - distributed0;
    var raised := Raised(rest0, toDistribute);
    assert raised == HalfMore(rest0, toDistribute) && 3 * distributed0 > Pow2(tableLog) && 2 * |count| <= Pow2(tableLog) by {
      DecidedSums(count, norm[..], |count|, low, lowOne, lowProbCount);
      RaiseMeans(count, total, tableLog, distributed0, rest0);
      RaisedFits(rest0, toDistribute);
    }
    distributed, rest := SecondPass(norm, count, low, lowOne, raised, lowProbCount, distributed0, rest0);
    DecidedSums(count, norm[..], |count|, low, raised, lowProbCount);
    AboveRaised(count, norm[..], low, raised, lowProbCount, toDistribute, Pow2(tableLog) - distributed, rest0, rest);
  }

  // ----- FSE_normalizeM2 and FSE_normalizeCount -----

  /** All are decided: the most frequent symbol takes what is left. */
  ghost predicate ToLargest(count: seq<nat>, norm: seq<int>, low: nat, one: nat, lowProbCount: int, toDistribute: nat)
    requires |count| <= |norm|
  {
    exists m :: IsLargest(count, m)
                && forall s :: 0 <= s < |count| ==> LargestAt(count, norm, low, one, lowProbCount, toDistribute, m, s)
  }

  ghost predicate LargestAt(count: seq<nat>, norm: seq<int>, low: nat, one: nat, lowProbCount: int, toDistribute: nat, m: nat, s: nat)
    requires s < |count| <= |norm|
  {
    norm[s] == Decision(count[s], low, one, lowProbCount) + if s == m then toDistribute else 0
  }

  /** None waits: the symbols with cells get one more each in turn. */
  ghost predicate InTurn(count: seq<nat>, norm: seq<int>, low: nat, one: nat, lowProbCount: int)
    requires |count| <= |norm|
  {
    exists level: nat, cut: nat :: InTurnTo(count, norm, low, one, lowProbCount, level, cut)
  }

  ghost predicate InTurnTo(count: seq<nat>, norm: seq<int>, low: nat, one: nat, lowProbCount: int, level: nat, cut: nat)
    requires |count| <= |norm|
  {
    forall s :: 0 <= s < |count| ==> norm[s] == Evened(Decision(count[s], low, one, lowProbCount), s, level, cut)
  }

  /** Those above the threshold have fair shares of the cells left. */
  ghost predicate InProportion(count: seq<nat>, norm: seq<int>, low: nat, one: nat, lowProbCount: int, toDistribute: nat, rest: nat)
    requires |count| <= |norm|
  {
    forall s :: 0 <= s < |count| ==> FairFor(count[s], Decision(count[s], low, one, lowProbCount), norm[s], toDistribute, rest)
  }

  /** What FSE_normalizeM2 makes of the counts. */
  ghost predicate SharedOut(count: seq<nat>, norm: seq<int>, total: nat, tableLog: nat, lowProbCount: int)
    requires |count| <= |norm|
  {
    var low, one := Shr(total, tableLog), Threshold(count, total, tableLog);
    var few, rest := Few(count, one, |count|), Many(count, one, |count|);
    few < Pow2(tableLog) &&
    if few == |count| then ToLargest(count, norm, low, one, lowProbCount, Pow2(tableLog) - few)
    else if rest == 0 then InTurn(count, norm, low, one, lowProbCount)
    else InProportion(count, norm, low, one, lowProbCount, Pow2(tableLog) - few, rest)
  }

  /** Hands out the cells left when the thresholds are settled. */
  method HandOut(norm: array<int>, count: seq<nat>, tableLog: nat, ghost total: nat, ghost one: nat, lowProbCount: int,
                 distributed: nat, rest: nat)
    returns (r: Result<nat>)
    requires Counts(count, total, tableLog) && |count| <= norm.Length && (lowProbCount == -1 || lowProbCount == 1)
    requires AllDecided(count, norm[..], |count|, Shr(total, tableLog), one, lowProbCount)
    requires Shr(total, tableLog) <= one == Threshold(count, total, tableLog)
    requires distributed == Assigned(norm[..], |count|) < Pow2(tableLog) && rest == Pending(count, norm[..], |count|) < Pow2(32)
    requires !Starved(count, norm[..], Pow2(tableLog) - distributed, rest)
    modifies norm
    ensures norm[|count|..] == old(norm[|count|..])
    ensures r == Ok(0)
    ensures AllServed(count, norm[..], |count|, lowProbCount) && Weight(norm[..], |count|) == Pow2(tableLog)
    ensures SharedOut(count, norm[..], total, tableLog, lowProbCount)
  {
    var toDistribute := Pow2(tableLog) - distributed;
    DecidedCounts(count, norm[..], |count|, Shr(total, tableLog), one, lowProbCount);
    if distributed == |count| {
      GiveToLargest(norm, count, tableLog, total, one, lowProbCount, distributed);
      return Ok(0);
    }
    if rest == 0 {
      GiveInTurn(norm, count, tableLog, total, one, lowProbCount, toDistribute);
      return Ok(0);
    }
    ghost var was := norm[..];
    r := FixedPoint(norm, count, tableLog, toDistribute, rest, lowProbCount, Shr(total, tableLog), one);
    FairIsInProportion(count, was, norm[..], Shr(total, tableLog), one, lowProbCount, toDistribute, rest);
  }

  lemma {:induction false} FairIsInProportion(count: seq<nat>, was: seq<int>, now: seq<int>, low: nat, one: nat, lowProbCount: int,
                                              toDistribute: nat, rest: nat)
    requires |count| <= |was| && |count| <= |now| && AllDecided(count, was, |count|, low, one, lowProbCount)
    requires AllFair(count, was, now, |count|, toDistribute, rest)
    ensures InProportion(count, now, low, one, lowProbCount, toDistribute, rest)
  {
    forall s | 0 <= s < |count|
      ensures FairFor(count[s], Decision(count[s], low, one, lowProbCount), now[s], toDistribute, rest)
    {
      assert Decided(count[s], was[s], low, one, lowProbCount) && FairFor(count[s], was[s], now[s], toDistribute, rest);
    }
  }

  /** `for (s=0; ToDistribute > 0; s = (s+1)%(maxSymbolValue+1))` */
  method GiveInTurn(norm: array<int>, count: seq<nat>, tableLog: nat, ghost total: nat, ghost one: nat, lowProbCount: int,
                    toDistribute: nat)
    requires Counts(count, total, tableLog) && |count| <= norm.Length && (lowProbCount == -1 || lowProbCount == 1)
    requires AllDecided(count, norm[..], |count|, Shr(total, tableLog), one, lowProbCount)
    requires Pending(count, norm[..], |count|) == 0
    modifies norm
    ensures norm[|count|..] == old(norm[|count|..])
    ensures AllServed(count, norm[..], |count|, lowProbCount)
    ensures Weight(norm[..], |count|) == old(Assigned(norm[..], |count|)) + toDistribute
    ensures InTurn(count, norm[..], Shr(total, tableLog), one, lowProbCount)
  {
    ghost var low, was := Shr(total, tableLog), norm[..];
    NothingPending(count, norm[..], low, one, lowProbCount);
    AllAssigned(count, norm[..], |count|);
    ghost var rich := SomeAbove(count, total, tableLog);
    assert Decided(count[rich], norm[rich], low, one, lowProbCount);
    ServedWhenDecided(count, norm[..], low, one, lowProbCount);
    ghost var level, cut := RoundRobin(norm, count, toDistribute, lowProbCount, rich);
    forall s | 0 <= s < |count|
      ensures norm[s] == Evened(Decision(count[s], low, one, lowProbCount), s, level, cut)
    {
      assert Decided(count[s], was[s], low, one, lowProbCount);
    }
    assert InTurnTo(count, norm[..], low, one, lowProbCount, level, cut);
  }

  /** `norm[maxV] += (short)ToDistribute` */
  method GiveToLargest(norm: array<int>, count: seq<nat>, tableLog: nat, ghost total: nat, ghost one: nat, lowProbCount: int,
                       distributed: nat)
    requires Counts(count, total, tableLog) && |count| <= norm.Length && (lowProbCount == -1 || lowProbCount == 1)
    requires AllDecided(count, norm[..], |count|, Shr(total, tableLog), one, lowProbCount)
    requires distributed == |count| == Assigned(norm[..], |count|) < Pow2(tableLog)
    modifies norm
    ensures norm[|count|..] == old(norm[|count|..])
    ensures AllServed(count, norm[..], |count|, lowProbCount) && Weight(norm[..], |count|) == Pow2(tableLog)
    ensures ToLargest(count, norm[..], Shr(total, tableLog), one, lowProbCount, Pow2(tableLog) - distributed)
  {
    ghost var low, was := Shr(total, tableLog), norm[..];
    var toDistribute := Pow2(tableLog) - distributed;
    DecidedSums(count, norm[..], |count|, low, one, lowProbCount);
    AllAssigned(count, norm[..], |count|);
    ghost var rich := SomeAbove(count, total, tableLog);
    var maxV := Largest(count);
    assert Decided(count[maxV], norm[maxV], low, one, lowProbCount);
    ServedWhenDecided(count, norm[..], low, one, lowProbCount);
    GiveMore(norm[..], |count|, maxV, norm[maxV] + toDistribute);
    norm[maxV] := norm[maxV] + toDistribute;
    forall s | 0 <= s < |count| ensures LargestAt(count, norm[..], low, one, lowProbCount, toDistribute, maxV, s) {
      assert Decided(count[s], was[s], low, one, lowProbCount);
    }
  }

  lemma {:induction false} NothingPending(count: seq<nat>, norm: seq<int>, low: nat, lowOne: nat, lowProbCount: int)
    requires |count| <= |norm| && AllDecided(count, norm, |count|, low, lowOne, lowProbCount)
    requires Pending(count, norm, |count|) == 0
    ensures forall s :: 0 <= s < |count| ==> norm[s] != NOT_YET_ASSIGNED
  {
    forall s | 0 <= s < |count| ensures norm[s] != NOT_YET_ASSIGNED {
      assert Decided(count[s], norm[s], low, lowOne, lowProbCount);
      if norm[s] == NOT_YET_ASSIGNED {
        NonePending(count, norm, |count|, s);
      }
    }
  }

  lemma {:induction false} ServedWhenDecided(count: seq<nat>, norm: seq<int>, low: nat, lowOne: nat, lowProbCount: int)
    requires |count| <= |norm| && (lowProbCount == -1 || lowProbCount == 1)
    requires AllDecided(count, norm, |count|, low, lowOne, lowProbCount)
    requires forall s :: 0 <= s < |count| ==> norm[s] != NOT_YET_ASSIGNED
    ensures AllServed(count, norm, |count|, lowProbCount)
  {
    forall s | 0 <= s < |count| ensures Served(count[s], norm[s], lowProbCount) {
      assert Decided(count[s], norm[s], low, lowOne, lowProbCount);
    }
  }

  method NormalizeM2(norm: array<int>, tableLog: nat, count: seq<nat>, total: nat, lowProbCount: int) returns (r: Result<nat>)
    requires Counts(count, total, tableLog) && |count| <= norm.Length && (lowProbCount == -1 || lowProbCount == 1)
    modifies norm
    ensures norm[|count|..] == old(norm[|count|..])
    ensures r == Ok(0)
    ensures AllServed(count, norm[..], |count|, lowProbCount) && Weight(norm[..], |count|) == Pow2(tableLog)
    ensures SharedOut(count, norm[..], total, tableLog, lowProbCount)
  {
    var lowThreshold, lowOne := Shr(total, tableLog), LowOne(total, tableLog);
    var distributed, rest := FirstPass(norm, count, total, lowThreshold, lowOne, lowProbCount);
    r := Ok(0);
    DecidedSums(count, norm[..], |count|, lowThreshold, lowOne, lowProbCount);
    FewSymbols(count, total, tableLog);
    if distributed != Pow2(tableLog) {
      distributed, rest := RaiseThreshold(norm, count, tableLog, total, lowThreshold, lowOne, lowProbCount, distributed, rest);
      DecidedSums(count, norm[..], |count|, lowThreshold, Threshold(count, total, tableLog), lowProbCount);
      r := HandOut(norm, count, tableLog, total, Threshold(count, total, tableLog), lowProbCount, distributed, rest);
    }
  }

  const RTB_TABLE: seq<nat> := [0, 473195, 504333, 520860, 550000, 700000, 750000, 830000]

  /** product / 2^scale, rounded up when the fraction beats a threshold that grows with small results. */
  function Rounded(product: nat, scale: nat): (p: nat)
    requires scale >= 20
  {
    var proba := Shr(product, scale);
    if proba < 8 && product - Shl(proba, scale) > Pow2(scale - 20) * RTB_TABLE[proba] then proba + 1 else proba
  }

  lemma {:induction false} RoundedBounds(product: nat, scale: nat, size: nat)
    requires scale >= 20 && 0 < product <= Shl(size, scale) && size >= 8
    ensures 1 <= Rounded(product, scale) <= size
  {
    ShrMono(product, Shl(size, scale), scale);
    Split(0, size, scale);
    if Shr(product, scale) == 0 {
      ShlIsMul(0, scale);
    }
  }

  /** Rounding up or down, the result is within one of the exact quotient. */
  lemma {:induction false} RoundedNear(product: nat, scale: nat)
    requires scale >= 20 && product > 0
    ensures (Rounded(product, scale) - 1) * Pow2(scale) < product < (Rounded(product, scale) + 1) * Pow2(scale)
  {
    var q := Shr(product, scale);
    WholeUnits(product, scale);
    ShlIsMul(q, scale);
    NearUnits(q, Rounded(product, scale) - q, Pow2(scale), product);
  }

  lemma {:induction false} NearUnits(q: nat, up: nat, unit: nat, product: nat)
    requires unit > 0 && product > 0 && up <= 1 && q * unit <= product < (q + 1) * unit && (up == 1 ==> q * unit < product)
    ensures (q + up - 1) * unit < product < (q + up + 1) * unit
  {
    assert (q - 1) * unit == q * unit - unit && (q + 2) * unit == (q + 1) * unit + unit;
  }

  /** The share of a symbol above the low threshold: its part of 2^tableLog in fixed point, rounded. */
  method Proba(c: nat, step: nat, tableLog: nat, ghost total: nat) returns (proba: nat)
    requires 0 < c <= total < Pow2(32) && MIN_TABLELOG <= tableLog <= MAX_TABLELOG && step == Step(62, total)
    ensures 1 <= proba <= Pow2(tableLog) && proba == Rounded(c * step, 62 - tableLog)
    ensures CloseShare(proba, c, total, tableLog)
  {
    ProductFits(c, tableLog, total);
    RoundedBounds(c * step, 62 - tableLog, Pow2(tableLog));
    RoundedNear(c * step, 62 - tableLog);
    proba := Rounded(c * step, 62 - tableLog);
    RoundedClose(proba, c, step, total, tableLog);
  }

  lemma {:induction false} ProductFits(c: nat, tableLog: nat, total: nat)
    requires 0 < c <= total < Pow2(32) && MIN_TABLELOG <= tableLog <= MAX_TABLELOG
    ensures 0 < c * Step(62, total) <= Shl(Pow2(tableLog), 62 - tableLog) && Pow2(tableLog) >= 8
  {
    StepBounds(c, 62, total);
    Pow2Add(tableLog, 62 - tableLog);
    Pow2Mono(3, tableLog);
  }

  function Step(bits: nat, total: nat): (s: nat)
    requires total > 0
  {
    Pow2(bits) / total
  }

  lemma {:induction false} StepBounds(c: nat, bits: nat, total: nat)
    requires 0 < c <= total < Pow2(32) && bits >= 32
    ensures 0 < c * Step(bits, total) <= Pow2(bits)
  {
    Pow2Mono(32, bits);
    DivBounds(Pow2(bits), total);
    AtMostQuotient(1, Pow2(bits), total);
    MulMono(c, total, Step(bits, total));
    PositiveProduct(c, Step(bits, total));
  }

  lemma {:induction false} PositiveProduct(a: nat, b: nat)
    requires a > 0 && b > 0
    ensures a * b > 0
  {
  }

  /** What the primary method gives to a symbol. */
  function PrimaryCells(c: nat, total: nat, tableLog: nat, lowProbCount: int): (x: int)
    requires total > 0 && tableLog <= MAX_TABLELOG
  {
    if c == 0 then 0 else if c <= Shr(total, tableLog) then lowProbCount else RoundedShare(c, Step(62, total), 62 - tableLog)
  }

  function RoundedShare(c: nat, step: nat, scale: nat): (p: nat)
    requires scale >= 20
  {
    Rounded(c * step, scale)
  }

  /** Nothing, the mark, or a close share. */
  ghost predicate NearAt(c: nat, x: int, total: nat, tableLog: nat, lowProbCount: int)
    requires tableLog <= MAX_TABLELOG
  {
    if c == 0 then x == 0 else if c <= Shr(total, tableLog) then x == lowProbCount
    else x > 0 && CloseShare(x, c, total, tableLog)
  }

  method Cells(c: nat, step: nat, lowThreshold: nat, tableLog: nat, ghost total: nat, lowProbCount: int) returns (cells: int)
    requires c <= total && 0 < total < Pow2(32) && MIN_TABLELOG <= tableLog <= MAX_TABLELOG && step == Step(62, total)
    requires lowProbCount == -1 || lowProbCount == 1
    requires lowThreshold == Shr(total, tableLog)
    ensures Served(c, cells, lowProbCount) && (c > lowThreshold ==> cells > 0)
    ensures cells == PrimaryCells(c, total, tableLog, lowProbCount) && NearAt(c, cells, total, tableLog, lowProbCount)
  {
    if c == 0 {
      return 0;
    }
    if c <= lowThreshold {
      return lowProbCount;
    }
    cells := Proba(c, step, tableLog, total);
  }

  /** The cells that the primary method gives to the first k symbols. */
  function ShareSum(count: seq<nat>, total: nat, tableLog: nat, lowProbCount: int, k: nat): (w: nat)
    requires k <= |count| && total > 0 && tableLog <= MAX_TABLELOG
  {
    if k == 0 then 0
    else ShareSum(count, total, tableLog, lowProbCount, k - 1) + Abs(PrimaryCells(count[k - 1], total, tableLog, lowProbCount))
  }

  /** The largest share among the first k symbols. */
  function TopShare(count: seq<nat>, total: nat, tableLog: nat, lowProbCount: int, k: nat): (x: nat)
    requires k <= |count| && total > 0 && tableLog <= MAX_TABLELOG
  {
    if k == 0 then 0
    else
      var x, y := TopShare(count, total, tableLog, lowProbCount, k - 1), PrimaryCells(count[k - 1], total, tableLog, lowProbCount);
      if count[k - 1] > Shr(total, tableLog) && y > x then y else x
  }

  /** The shares are too many by half of the largest one: that is when the fallback is taken. */
  predicate Overruns(count: seq<nat>, total: nat, tableLog: nat, lowProbCount: int)
    requires total > 0 && tableLog <= MAX_TABLELOG
  {
    ShareSum(count, total, tableLog, lowProbCount, |count|) - Pow2(tableLog) >= TopShare(count, total, tableLog, lowProbCount, |count|) / 2
  }

  /** Symbol s has its share, which is no larger than y, and below y before symbol m. */
  ghost predicate NearBut(count: seq<nat>, norm: seq<int>, total: nat, tableLog: nat, lowProbCount: int, m: nat, y: int, s: nat)
    requires s < |count| && s < |norm| && tableLog <= MAX_TABLELOG
  {
    && NearAt(count[s], norm[s], total, tableLog, lowProbCount)
    && (count[s] > Shr(total, tableLog) ==> if s < m then norm[s] < y else norm[s] <= y)
  }

  ghost predicate AllNearBut(count: seq<nat>, norm: seq<int>, total: nat, tableLog: nat, lowProbCount: int, m: nat, y: int, k: nat)
    requires k <= |count| && k <= |norm| && tableLog <= MAX_TABLELOG
  {
    forall s :: 0 <= s < k && (s != m || y == 0) ==> NearBut(count, norm, total, tableLog, lowProbCount, m, y, s)
  }

  /**
   All symbols have close shares but one: the first of those with the largest share y, which is close
   too, takes what is left, and more than half of y.
   */
  ghost predicate NearShares(count: seq<nat>, norm: seq<int>, total: nat, tableLog: nat, lowProbCount: int)
    requires |count| <= |norm| && tableLog <= MAX_TABLELOG
  {
    exists m: nat, y :: OneTakesRest(count, norm, total, tableLog, lowProbCount, m, y)
  }

  ghost predicate OneTakesRest(count: seq<nat>, norm: seq<int>, total: nat, tableLog: nat, lowProbCount: int, m: nat, y: int)
    requires |count| <= |norm| && tableLog <= MAX_TABLELOG
  {
    && m < |count| && count[m] > Shr(total, tableLog) && NearAt(count[m], y, total, tableLog, lowProbCount) && 2 * norm[m] > y
    && AllNearBut(count, norm, total, tableLog, lowProbCount, m, y, |count|)
  }

  /** The shares of the primary method, unless some symbol makes up the whole input. */
  method PrimaryShares(norm: array<int>, count: seq<nat>, tableLog: nat, total: nat, lowProbCount: int, ghost some: nat)
    returns (rle: bool, stillToDistribute: int, largest: nat)
    requires total == Total(count, |count|) && 0 < total < Pow2(32) && MIN_TABLELOG <= tableLog <= MAX_TABLELOG
    requires |count| <= norm.Length && (lowProbCount == -1 || lowProbCount == 1)
    requires some < |count| && count[some] > Shr(total, tableLog)
    modifies norm
    ensures norm[|count|..] == old(norm[|count|..])
    ensures rle <==> exists s :: 0 <= s < |count| && count[s] == total
    ensures !rle ==> largest < |count| && norm[largest] > 0
                     && InPlace(count, norm[..], total, tableLog, lowProbCount, |count|, largest, norm[largest], stillToDistribute)
  {
    stillToDistribute, largest := Pow2(tableLog), 0;
    var largestP := 0;
    var step := Step(62, total);
    var s := 0;
    NothingInPlace(count, norm[..], total, tableLog, lowProbCount);
    while s < |count|
      invariant 0 <= s <= |count|
      invariant forall i :: |count| <= i < norm.Length ==> norm[i] == old(norm[i])
      invariant forall i :: 0 <= i < s ==> count[i] != total
      invariant InPlace(count, norm[..], total, tableLog, lowProbCount, s, largest, largestP, stillToDistribute)
    {
      if count[s] == total {
        return true, stillToDistribute, largest;
      }
      TotalMono(count, s, |count|);
      stillToDistribute, largest, largestP := NextShare(norm, count, tableLog, total, lowProbCount, step, s, stillToDistribute, largest, largestP);
      s := s + 1;
    }
    SomeShare(count, norm[..], total, tableLog, lowProbCount, some, largest, largestP, stillToDistribute);
    rle := false;
  }

  lemma {:induction false} NothingInPlace(count: seq<nat>, norm: seq<int>, total: nat, tableLog: nat, lowProbCount: int)
    requires tableLog <= MAX_TABLELOG && total > 0
    ensures InPlace(count, norm, total, tableLog, lowProbCount, 0, 0, 0, Pow2(tableLog))
  {
  }

  lemma {:induction false} SomeShare(count: seq<nat>, norm: seq<int>, total: nat, tableLog: nat, lowProbCount: int, some: nat,
                                     largest: nat, largestP: int, stillToDistribute: int)
    requires |count| <= |norm| && tableLog <= MAX_TABLELOG && total > 0 && some < |count| && count[some] > Shr(total, tableLog)
    requires InPlace(count, norm, total, tableLog, lowProbCount, |count|, largest, largestP, stillToDistribute)
    ensures largestP > 0 && largest < |count| && norm[largest] == largestP
  {
  }

  /** The state of the loop after s symbols. */
  ghost predicate InPlace(count: seq<nat>, norm: seq<int>, total: nat, tableLog: nat, lowProbCount: int, s: nat,
                          largest: nat, largestP: int, stillToDistribute: int)
    requires s <= |count| && s <= |norm| && tableLog <= MAX_TABLELOG && total > 0
  {
    && largestP == TopShare(count, total, tableLog, lowProbCount, s)
    && Shared(count, norm, total, tableLog, lowProbCount, s, largest, largestP)
    && stillToDistribute == Pow2(tableLog) - Weight(norm, s)
    && stillToDistribute == Pow2(tableLog) - ShareSum(count, total, tableLog, lowProbCount, s)
  }

  /** One round of the loop. */
  method NextShare(norm: array<int>, count: seq<nat>, tableLog: nat, total: nat, lowProbCount: int, step: nat, s: nat,
                   still0: int, largest0: nat, largestP0: int)
    returns (stillToDistribute: int, largest: nat, largestP: int)
    requires s < |count| <= norm.Length && count[s] <= total && 0 < total < Pow2(32) && MIN_TABLELOG <= tableLog <= MAX_TABLELOG
    requires step == Step(62, total) && (lowProbCount == -1 || lowProbCount == 1)
    requires InPlace(count, norm[..], total, tableLog, lowProbCount, s, largest0, largestP0, still0)
    modifies norm
    ensures forall i :: |count| <= i < norm.Length ==> norm[i] == old(norm[i])
    ensures InPlace(count, norm[..], total, tableLog, lowProbCount, s + 1, largest, largestP, stillToDistribute)
  {
    ghost var was := norm[..];
    var lowThreshold := Shr(total, tableLog);
    var cells := Cells(count[s], step, lowThreshold, tableLog, total, lowProbCount);
    largest, largestP := largest0, largestP0;
    if count[s] > lowThreshold && cells > largestP {
      largestP, largest := cells, s;
    }
    norm[s] := cells;
    SamePrefix(count, was, norm[..], s);
    SharedNext(count, was, norm[..], total, tableLog, lowProbCount, s, largest0, largestP0);
    stillToDistribute := still0 - Abs(cells);
  }

  /** The first k symbols have their shares; the first of the largest is y, of symbol m. */
  ghost predicate Shared(count: seq<nat>, norm: seq<int>, total: nat, tableLog: nat, lowProbCount: int, k: nat, m: nat, y: int)
    requires k <= |count| && k <= |norm| && tableLog <= MAX_TABLELOG
  {
    && AllServed(count, norm, k, lowProbCount) && AllNearBut(count, norm, total, tableLog, lowProbCount, m, y, k)
    && y >= 0
    && (y > 0 ==> m < k && norm[m] == y && count[m] > Shr(total, tableLog) && NearAt(count[m], y, total, tableLog, lowProbCount))
    && (y == 0 ==> m == 0 && forall i :: 0 <= i < k ==> count[i] <= Shr(total, tableLog))
  }

  lemma {:induction false} SharedNext(count: seq<nat>, was: seq<int>, now: seq<int>, total: nat, tableLog: nat, lowProbCount: int,
                                      s: nat, m: nat, y: int)
    requires s < |count| && |count| <= |was| == |now| && tableLog <= MAX_TABLELOG && now == was[s := now[s]]
    requires Shared(count, was, total, tableLog, lowProbCount, s, m, y)
    requires Served(count[s], now[s], lowProbCount) && NearAt(count[s], now[s], total, tableLog, lowProbCount)
    ensures var up := count[s] > Shr(total, tableLog) && now[s] > y;
            Shared(count, now, total, tableLog, lowProbCount, s + 1, if up then s else m, if up then now[s] else y)
  {
    var up := count[s] > Shr(total, tableLog) && now[s] > y;
    var m', y' := if up then s else m, if up then now[s] else y;
    forall i | 0 <= i < s + 1 ensures Served(count[i], now[i], lowProbCount) {
      if i < s {
        assert Served(count[i], was[i], lowProbCount);
      }
    }
    forall i | 0 <= i < s + 1 && (i != m' || y' == 0) ensures NearBut(count, now, total, tableLog, lowProbCount, m', y', i) {
      if i < s && (i != m || y == 0) {
        assert NearBut(count, was, total, tableLog, lowProbCount, m, y, i);
      }
    }
  }

  /** The primary method, and the fallback in the corner case where it takes too much from the largest symbol. */
  method NormalizeFit(norm: array<int>, tableLog: nat, count: seq<nat>, total: nat, lowProbCount: int) returns (r: Result<nat>)
    requires Counts(count, total, tableLog) && |count| <= norm.Length && (lowProbCount == -1 || lowProbCount == 1)
    modifies norm
    ensures norm[|count|..] == old(norm[|count|..])
    ensures r == Ok(if exists s :: 0 <= s < |count| && count[s] == total then 0 else tableLog)
    ensures r != Ok(0) ==> Normalized(norm[..|count|], tableLog) && AllServed(count, norm[..|count|], |count|, lowProbCount)
    ensures r != Ok(0) ==> Apportions(count, norm[..], total, tableLog, lowProbCount)
  {
    ghost var some := SomeAbove(count, total, tableLog);
    var rle, stillToDistribute, largest := PrimaryShares(norm, count, tableLog, total, lowProbCount, some);
    if rle {
      return Ok(0);
    }
    r := Ok(0);
    if -stillToDistribute >= norm[largest] / 2 {
      r := NormalizeM2(norm, tableLog, count, total, lowProbCount);
    } else {
      GiveRest(norm, count, tableLog, total, lowProbCount, stillToDistribute, largest);
    }
    ServedPrefix(count, norm[..], tableLog, lowProbCount);
    r := Ok(tableLog);
  }

  /** How the cells are shared out, and when by which method. */
  ghost predicate Apportions(count: seq<nat>, norm: seq<int>, total: nat, tableLog: nat, lowProbCount: int)
    requires |count| <= |norm| && total > 0 && tableLog <= MAX_TABLELOG
  {
    if Overruns(count, total, tableLog, lowProbCount) then SharedOut(count, norm, total, tableLog, lowProbCount)
    else NearShares(count, norm, total, tableLog, lowProbCount)
  }

  /** `normalizedCounter[largest] += (short)stillToDistribute` */
  method GiveRest(norm: array<int>, count: seq<nat>, tableLog: nat, ghost total: nat, ghost lowProbCount: int,
                  stillToDistribute: int, largest: nat)
    requires |count| <= norm.Length && tableLog <= MAX_TABLELOG && largest < |count| && norm[largest] > 0
    requires Shared(count, norm[..], total, tableLog, lowProbCount, |count|, largest, norm[largest])
    requires stillToDistribute == Pow2(tableLog) - Weight(norm[..], |count|) && -stillToDistribute < norm[largest] / 2
    modifies norm
    ensures norm[|count|..] == old(norm[|count|..])
    ensures AllServed(count, norm[..], |count|, lowProbCount) && Weight(norm[..], |count|) == Pow2(tableLog)
    ensures NearShares(count, norm[..], total, tableLog, lowProbCount)
  {
    ghost var was, y := norm[..], norm[largest];
    GiveMore(norm[..], |count|, largest, norm[largest] + stillToDistribute);
    assert Served(count[largest], norm[largest], lowProbCount);
    norm[largest] := norm[largest] + stillToDistribute;
    forall s | 0 <= s < |count| && (s != largest || y == 0)
      ensures NearBut(count, norm[..], total, tableLog, lowProbCount, largest, y, s)
    {
      assert NearBut(count, was, total, tableLog, lowProbCount, largest, y, s);
    }
    assert OneTakesRest(count, norm[..], total, tableLog, lowProbCount, largest, y);
  }

  lemma {:induction false} ServedPrefix(count: seq<nat>, norm: seq<int>, tableLog: nat, lowProbCount: int)
    requires 0 < |count| <= |norm| && |count| <= MAX_SYMBOL_VALUE + 1 && (lowProbCount == -1 || lowProbCount == 1)
    requires AllServed(count, norm, |count|, lowProbCount) && Weight(norm, |count|) == Pow2(tableLog)
    ensures AllServed(count, norm[..|count|], |count|, lowProbCount) && Normalized(norm[..|count|], tableLog)
  {
    SamePrefix(count, norm, norm[..|count|], |count|);
    forall s | 0 <= s < |count| ensures Served(count[s], norm[..|count|][s], lowProbCount) {
      assert Served(count[s], norm[s], lowProbCount);
    }
    forall s | 0 <= s < |count| ensures norm[..|count|][s] >= -1 {
      assert Served(count[s], norm[s], lowProbCount);
    }
  }

  /**
   Turns counts into frequencies for a table of 2^tableLog cells (0 asks for the default). It fails
   only when the table log is unfit: the failure branch of the fallback is never taken.
   */
  method NormalizeCount(norm: array<int>, tableLog: nat, count: seq<nat>, total: nat, useLowProbCount: bool) returns (r: Result<nat>)
    requires 2 <= |count| <= MAX_SYMBOL_VALUE + 1 && |count| <= norm.Length
    requires total == Total(count, |count|) && 1 < total < Pow2(32)
    modifies norm
    ensures norm[|count|..] == old(norm[|count|..])
    ensures r.Err? <==> !Fit(tableLog, total, |count| - 1)
    ensures r.Err? ==> r.error == (if tableLog > MAX_TABLELOG then TableLogTooLarge else Generic)
    ensures r.Ok? ==> r.value == if exists s :: 0 <= s < |count| && count[s] == total then 0 else ActualLog(tableLog)
    ensures r.Ok? && r.value != 0 ==>
              && Normalized(norm[..|count|], r.value)
              && AllServed(count, norm[..|count|], |count|, if useLowProbCount then -1 else 1)
              && Apportions(count, norm[..], total, r.value, if useLowProbCount then -1 else 1)
  {
    var log := ActualLog(tableLog);
    if log < MIN_TABLELOG {
      return Err(Generic);
    }
    if log > MAX_TABLELOG {
      return Err(TableLogTooLarge);
    }
    if log < MinTableLog(total, |count| - 1) {
      return Err(Generic);
    }
    r := NormalizeFit(norm, log, count, total, if useLowProbCount then -1 else 1);
  }

  function ActualLog(tableLog: nat): (l: nat) {
    if tableLog == 0 then DEFAULT_TABLELOG else tableLog
  }

  predicate Fit(tableLog: nat, total: nat, maxSymbolValue: nat)
    requires 0 < total < Pow2(32) && maxSymbolValue > 0
  {
    MIN_TABLELOG <= ActualLog(tableLog) <= MAX_TABLELOG && MinTableLog(total, maxSymbolValue) <= ActualLog(tableLog)
  }

  /** With two symbols that occur, no symbol owns the whole table. */
  lemma {:induction false} NoOwner(count: seq<nat>, norm: seq<int>, tableLog: nat, lowProbCount: int, a: nat, b: nat)
    requires |count| == |norm| && AllServed(count, norm, |count|, lowProbCount) && Normalized(norm, tableLog)
    requires a < |norm| && b < |norm| && a != b && count[a] > 0 && count[b] > 0
    ensures forall s :: 0 <= s < |norm| ==> Abs(norm[s]) < Pow2(tableLog)
  {
    forall s | 0 <= s < |norm| ensures Abs(norm[s]) < Pow2(tableLog) {
      var t := if s == a then b else a;
      assert Served(count[t], norm[t], lowProbCount);
      if s < t {
        WeightMono(norm, s, t);
        WeightMono(norm, t, |norm|);
      } else {
        WeightMono(norm, t, s);
        WeightMono(norm, s, |norm|);
      }
    }
  }
}
