/**
 Checking that a literal table of cells is the spread of a distribution and carries the decoding
 cells that follow from it: the walk is followed in stages, and the cells of a symbol are listed.
 */
module LayoutCheck {
  import opened Numeric
  import opened Distribution
  import opened Spread
  import opened SpreadSymbols
  import opened FseTable

  // ----- checking a literal layout -----

  function Around(x: nat, size: nat): (y: nat) {
    if x < size then x else x - size
  }

  /**
   From step j of the walk up to step `end`, the cells carry the symbols from the r-th cell of symbol s on;
   `last` is the position, the symbol and the number of its cells at the end.
   */
  predicate Walked(t: seq<byte>, norm: seq<int>, len: nat, size: nat, step: nat, top: nat, position: nat, j: nat, end: nat, s: nat, r: nat,
                   last: (nat, nat, nat))
    requires len == |norm| && position < size && step < size
    decreases end - j, len - s
  {
    if j >= end then last == (position, s, r)
    else if position >= top then Walked(t, norm, len, size, step, top, Around(position + step, size), j + 1, end, s, r, last)
    else if s >= len then false
    else if r >= norm[s] then Walked(t, norm, len, size, step, top, position, j, end, s + 1, 0, last)
    else
      && position < |t| && t[position] == s
      && Walked(t, norm, len, size, step, top, Around(position + step, size), j + 1, end, s, r + 1, last)
  }

  /** The walk has come to its step j at `position`; the cells on its way carry the symbols up to the r-th cell of symbol s. */
  ghost predicate Reached(t: seq<byte>, norm: seq<int>, tableLog: nat, j: nat, position: nat, s: nat, r: nat) {
    && Normalized(norm, tableLog) && tableLog >= 4 && |t| == Pow2(tableLog) && j <= |t| && s <= |norm|
    && position == Walk(tableLog, j) && (r > 0 ==> s < |norm| && r <= norm[s])
    && var m := |Expand(norm, s)| + r;
       m == |Visited(tableLog, Spread.Top(norm), j)| && Filled(t, norm, Visited(tableLog, Spread.Top(norm), |t|), m)
  }

  lemma {:induction false} ReachNext(t: seq<byte>, norm: seq<int>, tableLog: nat, j: nat, position: nat, s: nat, r: nat)
    requires Reached(t, norm, tableLog, j, position, s, r) && j < |t|
    requires Spread.Step(|t|) < |t|
    ensures position < |t|
    ensures position >= Spread.Top(norm) ==> Reached(t, norm, tableLog, j + 1, Around(position + Spread.Step(|t|), |t|), s, r)
    ensures position < Spread.Top(norm) && s < |norm| && r < norm[s] && t[position] == s ==>
              Reached(t, norm, tableLog, j + 1, Around(position + Spread.Step(|t|), |t|), s, r + 1)
    ensures s < |norm| && r >= norm[s] ==> Reached(t, norm, tableLog, j, position, s + 1, 0)
  {
    var top := Spread.Top(norm);
    WalkBelow(tableLog, j);
    ExpandLength(norm, |norm|);
    RoundVisitsEveryCell(tableLog, top);
    assert Walk(tableLog, j + 1) == Around(position + Spread.Step(|t|), |t|) by {
      AroundIsLow(position + Spread.Step(|t|), tableLog);
    }
    if position < top && s < |norm| && r < norm[s] && t[position] == s {
      ExpandAt(norm, s, r);
      NextCell(tableLog, top, j);
    }
  }

  lemma {:induction false} AroundIsLow(x: nat, n: nat)
    requires x < 2 * Pow2(n)
    ensures Low(x, n) == Around(x, Pow2(n))
  {
    if x < Pow2(n) {
      LowSmall(x, n);
    } else {
      Pow2Add(0, n);
      Split(x - Pow2(n), 1, n);
    }
  }

  /** What was checked has been reached. */
  lemma {:induction false} WalkedMeans(t: seq<byte>, norm: seq<int>, tableLog: nat, position: nat, j: nat, end: nat, s: nat, r: nat,
                                       last: (nat, nat, nat))
    requires Reached(t, norm, tableLog, j, position, s, r) && Spread.Step(|t|) < |t| && position < |t| && j <= end <= |t|
    requires Walked(t, norm, |norm|, |t|, Spread.Step(|t|), Spread.Top(norm), position, j, end, s, r, last)
    ensures Reached(t, norm, tableLog, end, last.0, last.1, last.2) && last.0 < |t|
    decreases end - j, |norm| - s
  {
    if j < end {
      ReachNext(t, norm, tableLog, j, position, s, r);
      var next := Around(position + Spread.Step(|t|), |t|);
      if position >= Spread.Top(norm) {
        WalkedMeans(t, norm, tableLog, next, j + 1, end, s, r, last);
      } else if r >= norm[s] {
        WalkedMeans(t, norm, tableLog, position, j, end, s + 1, 0, last);
      } else {
        WalkedMeans(t, norm, tableLog, next, j + 1, end, s, r + 1, last);
      }
    }
  }

  /** Where the walk is after j steps, and the r-th cell of symbol s that comes next. */
  datatype Stage = Stage(position: nat, j: nat, s: nat, r: nat)

  predicate StageOk(t: seq<byte>, norm: seq<int>, len: nat, size: nat, step: nat, top: nat, a: Stage, b: Stage) {
    && len == |norm| && a.position < size && step < size && a.j <= b.j <= size
    && Walked(t, norm, len, size, step, top, a.position, a.j, b.j, a.s, a.r, (b.position, b.s, b.r))
  }

  ghost predicate StageAt(t: seq<byte>, norm: seq<int>, size: nat, step: nat, top: nat, st: seq<Stage>, i: nat)
    requires i + 1 < |st|
  {
    StageOk(t, norm, |norm|, size, step, top, st[i], st[i + 1])
  }

  ghost predicate Stages(t: seq<byte>, norm: seq<int>, size: nat, step: nat, top: nat, st: seq<Stage>) {
    && |st| > 0 && st[0] == Stage(0, 0, 0, 0)
    && forall i {:trigger StageAt(t, norm, size, step, top, st, i)} :: 0 <= i < |st| - 1 ==> StageAt(t, norm, size, step, top, st, i)
  }

  /** Some stages lead from the start to b. */
  ghost predicate Arrives(t: seq<byte>, norm: seq<int>, size: nat, step: nat, top: nat, b: Stage) {
    exists st :: Stages(t, norm, size, step, top, st) && st[|st| - 1] == b
  }

  lemma {:induction false} Departs(t: seq<byte>, norm: seq<int>, size: nat, step: nat, top: nat)
    ensures Arrives(t, norm, size, step, top, Stage(0, 0, 0, 0))
  {
    var st := [Stage(0, 0, 0, 0)];
    assert Stages(t, norm, size, step, top, st) && st[|st| - 1] == Stage(0, 0, 0, 0);
  }

  lemma {:induction false} Proceeds(t: seq<byte>, norm: seq<int>, len: nat, size: nat, step: nat, top: nat, a: Stage, b: Stage)
    requires Arrives(t, norm, size, step, top, a) && StageOk(t, norm, len, size, step, top, a, b)
    ensures Arrives(t, norm, size, step, top, b)
  {
    var st :| Stages(t, norm, size, step, top, st) && st[|st| - 1] == a;
    var more := st + [b];
    forall i | 0 <= i < |more| - 1 ensures StageAt(t, norm, size, step, top, more, i) {
      if i < |st| - 1 {
        assert StageAt(t, norm, size, step, top, st, i);
      }
    }
    assert Stages(t, norm, size, step, top, more) && more[|more| - 1] == b;
  }

  lemma {:induction false} StagesMean(t: seq<byte>, norm: seq<int>, tableLog: nat, st: seq<Stage>, k: nat)
    requires k < |st| && |norm| <= 256 && Spread.Step(|t|) < |t| && Stages(t, norm, |t|, Spread.Step(|t|), Spread.Top(norm), st)
    requires Reached(t, norm, tableLog, 0, 0, 0, 0)
    ensures var b := st[k]; Reached(t, norm, tableLog, b.j, b.position, b.s, b.r) && (k > 0 ==> b.j <= |t|)
  {
    if k > 0 {
      StagesMean(t, norm, tableLog, st, k - 1);
      assert StageAt(t, norm, |t|, Spread.Step(|t|), Spread.Top(norm), st, k - 1);
      var a, b := st[k - 1], st[k];
      WalkedMeans(t, norm, tableLog, a.position, a.j, b.j, a.s, a.r, (b.position, b.s, b.r));
    }
  }

  /** The symbols from `low` on are those of low probability. */
  ghost predicate LowFrom(norm: seq<int>, low: nat) {
    low <= |norm| <= 256 && forall s :: 0 <= s < |norm| ==> if s < low then norm[s] > 0 else norm[s] == -1
  }

  lemma {:induction false} LowRun(norm: seq<int>, low: nat, k: nat)
    requires LowFrom(norm, low) && k <= |norm|
    ensures |LowProb(norm, k)| == if k <= low then 0 else k - low
    ensures forall i :: 0 <= i < |LowProb(norm, k)| ==> LowProb(norm, k)[i] == low + i
  {
    if k > 0 {
      LowRun(norm, low, k - 1);
    }
  }

  /** Before the walk, and after it. */
  lemma {:induction false} WalkStarts(t: seq<byte>, norm: seq<int>, tableLog: nat, low: nat)
    requires Normalized(norm, tableLog) && tableLog >= 4 && |t| == Pow2(tableLog) && LowFrom(norm, low)
    ensures Reached(t, norm, tableLog, 0, 0, 0, 0) && Spread.Top(norm) == |t| - (|norm| - low)
  {
    LowRun(norm, low, |norm|);
    ExpandLength(norm, |norm|);
    RoundVisitsEveryCell(tableLog, Spread.Top(norm));
  }

  /** The low-probability symbols, from the last cell down. */
  ghost predicate LastCells(t: seq<byte>, low: nat, n: nat) {
    low <= n && n - low <= |t| && forall s {:trigger HasSymbol(t, low, s)} :: low <= s < n ==> HasSymbol(t, low, s)
  }

  predicate HasSymbol(t: seq<byte>, low: nat, s: nat) {
    low <= s < low + |t| && t[|t| - 1 - (s - low)] == s
  }

  /** The whole layout has been checked. */
  lemma {:induction false} SpreadChecked(t: seq<byte>, norm: seq<int>, tableLog: nat, low: nat, top: nat, b: Stage)
    requires 5 <= tableLog <= MAX_TABLELOG && Normalized(norm, tableLog) && |t| == Pow2(tableLog) && Spread.Step(|t|) < |t|
    requires LowFrom(norm, low) && LastCells(t, low, |norm|) && top == |t| - (|norm| - low)
    requires Arrives(t, norm, |t|, Spread.Step(|t|), top, b) && b.j == |t|
    ensures IsSpread(t, norm, tableLog) && Apportioned(t, norm, tableLog)
  {
    var st :| Stages(t, norm, |t|, Spread.Step(|t|), top, st) && st[|st| - 1] == b;
    WalkStarts(t, norm, tableLog, low);
    StagesMean(t, norm, tableLog, st, |st| - 1);
    WalkEnds(t, norm, tableLog, low, b);
  }

  lemma {:induction false} WalkEnds(t: seq<byte>, norm: seq<int>, tableLog: nat, low: nat, b: Stage)
    requires 5 <= tableLog <= MAX_TABLELOG && LowFrom(norm, low) && LastCells(t, low, |norm|)
    requires Reached(t, norm, tableLog, |t|, b.position, b.s, b.r)
    ensures IsSpread(t, norm, tableLog) && Apportioned(t, norm, tableLog)
  {
    assert |Visited(tableLog, Spread.Top(norm), |t|)| == Spread.Top(norm) by {
      ExpandLength(norm, |norm|);
      RoundVisitsEveryCell(tableLog, Spread.Top(norm));
    }
    LowLaid(t, norm, low);
    SpreadDone(t, norm, tableLog);
    SpreadApportions(t, norm, tableLog);
  }

  lemma {:induction false} LowLaid(t: seq<byte>, norm: seq<int>, low: nat)
    requires LowFrom(norm, low) && LastCells(t, low, |norm|)
    ensures LaidLowProb(t, norm, |norm|)
  {
    LowRun(norm, low, |norm|);
    forall i | 0 <= i < |LowProb(norm, |norm|)| ensures t[|t| - 1 - i] == LowProb(norm, |norm|)[i] {
      assert HasSymbol(t, low, low + i);
    }
  }

  // ----- checking literal cells -----

  /** The decoding cell of number x, below 8, of symbol s. */
  function Lead(s: byte, x: nat, tableLog: nat): (cell: DCell)
    requires 0 < x < 8 && tableLog >= 2
  {
    if x == 1 then DCell(s, tableLog, 0)
    else if x < 4 then DCell(s, tableLog - 1, if x == 2 then 0 else Pow2(tableLog - 1))
    else DCell(s, tableLog - 2, if x == 4 then 0 else if x == 5 then Pow2(tableLog - 2) else if x == 6 then Pow2(tableLog - 1)
                                else 3 * Pow2(tableLog - 2))
  }

  lemma {:induction false} LeadMeans(cell: DCell, s: byte, x: nat, tableLog: nat)
    requires 0 < x < 8 && tableLog >= 2 && IsDCell(cell, s, x, tableLog)
    ensures cell == Lead(s, x, tableLog)
  {
    var h := if x == 1 then 0 else if x < 4 then 1 else 2;
    assert Pow2(0) == 1 && Pow2(1) == 2 && Pow2(2) == 4 && Pow2(3) == 8;
    HighBitUnique(x, h);
    assert Pow2(tableLog) == 2 * Pow2(tableLog - 1) == 4 * Pow2(tableLog - 2);
    ShlIsMul(x, tableLog - h);
  }

  lemma {:induction false} CountMono(t: seq<byte>, s: byte, u: nat, v: nat)
    requires u < v <= |t|
    ensures Count(t[..u], s) + (if t[u] == s then 1 else 0) <= Count(t[..v], s)
    decreases v
  {
    assert t[..v][..v - 1] == t[..v - 1];
    if u < v - 1 {
      CountMono(t, s, u, v - 1);
    }
  }

  /** `a` lists cells of symbol s in ascending order. */
  ghost predicate Lists(t: seq<byte>, s: byte, a: seq<nat>) {
    forall i :: 0 <= i < |a| ==> a[i] < |t| && t[a[i]] == s && (i > 0 ==> a[i - 1] < a[i])
  }

  lemma {:induction false} AtLeast(t: seq<byte>, s: byte, a: seq<nat>, i: nat)
    requires Lists(t, s, a) && i < |a|
    ensures Count(t[..a[i]], s) >= i && Count(t, s) >= Count(t[..a[i]], s) + (|a| - i)
    decreases i
  {
    AtMost(t, s, a, i);
    if i > 0 {
      AtLeast(t, s, a, i - 1);
      CountMono(t, s, a[i - 1], a[i]);
    }
  }

  lemma {:induction false} AtMost(t: seq<byte>, s: byte, a: seq<nat>, i: nat)
    requires Lists(t, s, a) && i < |a|
    ensures Count(t, s) >= Count(t[..a[i]], s) + (|a| - i)
    decreases |a| - i
  {
    if i + 1 < |a| {
      AtMost(t, s, a, i + 1);
      CountMono(t, s, a[i], a[i + 1]);
    } else {
      CountMono(t, s, a[i], |t|);
      assert t[..|t|] == t;
    }
  }

  /** A list of all the cells of a symbol gives their numbers. */
  lemma {:induction false} RankInList(t: seq<byte>, s: byte, a: seq<nat>, u: nat)
    requires Lists(t, s, a) && |a| == Count(t, s) && u < |t| && t[u] == s
    ensures Rank(t, u) < |a| && a[Rank(t, u)] == u
  {
    var r := Rank(t, u);
    CountMono(t, s, u, |t|);
    assert t[..|t|] == t;
    AtLeast(t, s, a, r);
    if u < a[r] {
      CountMono(t, s, u, a[r]);
      assert false;
    } else if a[r] < u {
      CountMono(t, s, a[r], u);
      assert false;
    }
  }

  /** A spread with its decoding cells. */
  ghost predicate Decodes(t: seq<byte>, norm: seq<int>, cells: seq<DCell>, tableLog: nat) {
    && Apportioned(t, norm, tableLog) && |cells| == |t|
    && forall u :: 0 <= u < |t| ==> DCellAt(cells, t, norm, tableLog, u)
  }

  lemma {:induction false} LeadsInList(t: seq<byte>, norm: seq<int>, cells: seq<DCell>, tableLog: nat, s: byte, a: seq<nat>)
    requires Decodes(t, norm, cells, tableLog) && s < |norm| && 0 < |a| == Abs(norm[s]) <= 4 && Lists(t, s, a)
    ensures forall i :: 0 <= i < |a| ==> a[i] < |cells| && cells[a[i]] == Lead(s, |a| + i, tableLog)
  {
    assert HasShare(t, norm, s);
    forall i | 0 <= i < |a| ensures cells[a[i]] == Lead(s, |a| + i, tableLog) {
      assert DCellAt(cells, t, norm, tableLog, a[i]);
      RankInList(t, s, a, a[i]);
      AtLeast(t, s, a, i);
      AscendingOnce(a, Rank(t, a[i]), i);
      LeadMeans(cells[a[i]], s, |a| + i, tableLog);
    }
  }

  lemma {:induction false} AscendingOnce(a: seq<nat>, i: nat, j: nat)
    requires i < |a| && j < |a| && a[i] == a[j] && forall k :: 0 < k < |a| ==> a[k - 1] < a[k]
    ensures i == j
  {
    if i < j {
      AscendingFrom(a, i, j);
    } else if j < i {
      AscendingFrom(a, j, i);
    }
  }

  lemma {:induction false} AscendingFrom(a: seq<nat>, i: nat, j: nat)
    requires i < j < |a| && forall k :: 0 < k < |a| ==> a[k - 1] < a[k]
    ensures a[i] < a[j]
    decreases j
  {
    if i < j - 1 {
      AscendingFrom(a, i, j - 1);
    }
  }

  /** The only cell of a symbol. */
  lemma {:induction false} Singles(t: seq<byte>, norm: seq<int>, cells: seq<DCell>, tableLog: nat)
    requires Decodes(t, norm, cells, tableLog)
    ensures forall u :: 0 <= u < |t| ==> t[u] < |norm| && (Abs(norm[t[u]]) == 1 ==> cells[u] == Lead(t[u], 1, tableLog))
  {
    forall u | 0 <= u < |t|
      ensures t[u] < |norm| && (Abs(norm[t[u]]) == 1 ==> cells[u] == Lead(t[u], 1, tableLog))
    {
      if Abs(norm[t[u]]) == 1 {
        LeadsInList(t, norm, cells, tableLog, t[u], [u]);
        assert [u][0] == u;
      }
    }
  }

  /** The cells of a symbol that has two, three or four of them. */
  lemma {:induction false} Two(t: seq<byte>, norm: seq<int>, cells: seq<DCell>, tableLog: nat, s: byte, u: nat, v: nat)
    requires Decodes(t, norm, cells, tableLog) && s < |norm| && Abs(norm[s]) == 2 && u < v < |t| && t[u] == t[v] == s
    ensures cells[u] == Lead(s, 2, tableLog) && cells[v] == Lead(s, 3, tableLog)
  {
    var a := [u, v];
    LeadsInList(t, norm, cells, tableLog, s, a);
    assert a[0] == u && a[1] == v;
  }

  lemma {:induction false} Three(t: seq<byte>, norm: seq<int>, cells: seq<DCell>, tableLog: nat, s: byte, u: nat, v: nat, w: nat)
    requires Decodes(t, norm, cells, tableLog) && s < |norm| && Abs(norm[s]) == 3 && u < v < w < |t| && t[u] == t[v] == t[w] == s
    ensures cells[u] == Lead(s, 3, tableLog) && cells[v] == Lead(s, 4, tableLog) && cells[w] == Lead(s, 5, tableLog)
  {
    var a := [u, v, w];
    LeadsInList(t, norm, cells, tableLog, s, a);
    assert a[0] == u && a[1] == v && a[2] == w;
  }

  lemma {:induction false} Four(t: seq<byte>, norm: seq<int>, cells: seq<DCell>, tableLog: nat, s: byte, u: nat, v: nat, w: nat, x: nat)
    requires Decodes(t, norm, cells, tableLog) && s < |norm| && Abs(norm[s]) == 4 && u < v < w < x < |t| && t[u] == t[v] == t[w] == t[x] == s
    ensures cells[u] == Lead(s, 4, tableLog) && cells[v] == Lead(s, 5, tableLog)
    ensures cells[w] == Lead(s, 6, tableLog) && cells[x] == Lead(s, 7, tableLog)
  {
    var a := [u, v, w, x];
    LeadsInList(t, norm, cells, tableLog, s, a);
    assert a[0] == u && a[1] == v && a[2] == w && a[3] == x;
  }

  /** A table built from a distribution is built on its only spread. */
  lemma {:induction false} DecodesAs(dt: DTable, t: seq<byte>, norm: seq<int>, tableLog: nat)
    requires DecodesWith(dt, norm, tableLog) && IsSpread(t, norm, tableLog)
    ensures Decodes(t, norm, dt.cells, tableLog)
    ensures forall u :: 0 <= u < |dt.cells| ==> dt.cells[u].symbol < |norm|
  {
    var v :| IsSpread(v, norm, tableLog) && Apportioned(v, norm, tableLog) && IsDTable(dt, v, norm, tableLog);
    SpreadUnique(t, v, norm, tableLog);
    forall u | 0 <= u < |dt.cells| ensures dt.cells[u].symbol < |norm| {
      assert DCellAt(dt.cells, t, norm, tableLog, u);
    }
  }

  // ----- literal rows -----

  /** Eight elements in a row. */
  ghost predicate Row<T>(s: seq<T>, i: nat, a: T, b: T, c: T, d: T, e: T, f: T, g: T, h: T) {
    && i + 8 <= |s| && s[i] == a && s[i + 1] == b && s[i + 2] == c && s[i + 3] == d
    && s[i + 4] == e && s[i + 5] == f && s[i + 6] == g && s[i + 7] == h
  }

  ghost predicate Half<T>(s: seq<T>, i: nat, a: T, b: T, c: T, d: T) {
    i + 4 <= |s| && s[i] == a && s[i + 1] == b && s[i + 2] == c && s[i + 3] == d
  }

  lemma {:induction false} WeightOfRow(norm: seq<int>, i: nat)
    requires i + 8 <= |norm|
    ensures Weight(norm, i + 8) == Weight(norm, i + 4) + Abs(norm[i + 4]) + Abs(norm[i + 5]) + Abs(norm[i + 6]) + Abs(norm[i + 7])
    ensures Weight(norm, i + 4) == Weight(norm, i) + Abs(norm[i]) + Abs(norm[i + 1]) + Abs(norm[i + 2]) + Abs(norm[i + 3])
  {
    WeightOfHalf(norm, i);
    WeightOfHalf(norm, i + 4);
  }

  lemma {:induction false} WeightOfHalf(norm: seq<int>, i: nat)
    requires i + 4 <= |norm|
    ensures Weight(norm, i + 4) == Weight(norm, i) + Abs(norm[i]) + Abs(norm[i + 1]) + Abs(norm[i + 2]) + Abs(norm[i + 3])
  {
    assert Weight(norm, i + 4) == Weight(norm, i + 3) + Abs(norm[i + 3]);
    assert Weight(norm, i + 2) == Weight(norm, i + 1) + Abs(norm[i + 1]);
  }

  function AppendRow<T>(s: seq<T>, a: T, b: T, c: T, d: T, e: T, f: T, g: T, h: T): (r: seq<T>)
    ensures |r| == |s| + 8 && Row(r, |s|, a, b, c, d, e, f, g, h)
    ensures forall i :: 0 <= i < |s| ==> r[i] == s[i]
  {
    s + [a, b, c, d, e, f, g, h]
  }
}
