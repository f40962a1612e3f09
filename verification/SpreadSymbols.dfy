/** The in-place spreading loops shared by the two table builders. */
module SpreadSymbols {
  import opened Numeric
  import opened Bytes
  import opened Distribution
  import opened Permutation
  import opened Spread

  /** The last cells hold the low-probability symbols among the first k, from the end. */
  ghost predicate LaidLowProb(table: seq<byte>, norm: seq<int>, k: nat)
    requires k <= |norm| <= 256
  {
    |LowProb(norm, k)| <= |table|
    && forall i :: 0 <= i < |LowProb(norm, k)| ==> table[|table| - 1 - i] == LowProb(norm, k)[i]
  }

  /** The first m cells of the fill order hold the first m symbols. */
  ghost predicate Filled(table: seq<byte>, norm: seq<int>, round: seq<nat>, m: nat)
    requires |norm| <= 256
  {
    && m <= |round| && m <= |Expand(norm, |norm|)| && Below(round, |table|)
    && forall i :: 0 <= i < m ==> table[round[i]] == Expand(norm, |norm|)[i]
  }

  lemma {:induction false} SpreadDone(table: seq<byte>, norm: seq<int>, tableLog: nat)
    requires Normalized(norm, tableLog) && tableLog >= 4 && |table| == Pow2(tableLog)
    requires LaidLowProb(table, norm, |norm|)
    requires Filled(table, norm, Visited(tableLog, Spread.Top(norm), |table|), Spread.Top(norm))
    ensures IsSpread(table, norm, tableLog)
  {
    var top, order, symbols := Spread.Top(norm), FillOrder(norm, tableLog), CellSymbols(norm);
    FillOrderIsPermutation(norm, tableLog);
    RoundVisitsEveryCell(tableLog, top);
    forall i | 0 <= i < |order|
      ensures table[order[i]] == symbols[i]
    {
      if i >= top {
        assert order[i] == |table| - 1 - (i - top);
        assert symbols[i] == LowProb(norm, |norm|)[i - top];
      }
    }
  }

  /** Symbol s fills the positions [|Expand(norm, s)|, |Expand(norm, s + 1)|) of the expansion. */
  lemma {:induction false} ExpandAt(norm: seq<int>, s: nat, i: nat)
    requires s < |norm| <= 256 && i < norm[s]
    ensures |Expand(norm, s)| + i < |Expand(norm, |norm|)|
    ensures Expand(norm, |norm|)[|Expand(norm, s)| + i] == s
    ensures |Expand(norm, s + 1)| == |Expand(norm, s)| + norm[s]
  {
    ExpandPrefix(norm, s + 1, |norm|);
    assert Expand(norm, s + 1)[|Expand(norm, s)| + i] == Repeat(s, norm[s])[i];
  }

  /** After j steps of the walk, m cells are filled and the position is free unless all are filled. */
  ghost predicate Progress(table: seq<byte>, norm: seq<int>, tableLog: nat, j: nat, m: nat, position: nat)
    requires Normalized(norm, tableLog)
  {
    var top := Spread.Top(norm);
    && |table| == Pow2(tableLog) && j <= |table|
    && m == |Visited(tableLog, top, j)| && position == Walk(tableLog, j)
    && (position < top || (top == 0 && j == 0))
    && Filled(table, norm, Visited(tableLog, top, |table|), m)
    && LaidLowProb(table, norm, |norm|)
  }

  lemma {:induction false} FillNext(was: seq<byte>, now: seq<byte>, norm: seq<int>, tableLog: nat,
                                    j: nat, m: nat, position: nat, symbol: byte)
    requires Normalized(norm, tableLog) && tableLog >= 4
    requires Progress(was, norm, tableLog, j, m, position)
    requires m < Spread.Top(norm) && symbol == Expand(norm, |norm|)[m]
    requires position < |was| && now == was[position := symbol]
    ensures j < |now| && |Visited(tableLog, Spread.Top(norm), j + 1)| == m + 1
    ensures Filled(now, norm, Visited(tableLog, Spread.Top(norm), |now|), m + 1)
    ensures LaidLowProb(now, norm, |norm|)
  {
    var top, size := Spread.Top(norm), |was|;
    ExpandLength(norm, |norm|);
    RoundVisitsEveryCell(tableLog, top);
    NextCell(tableLog, top, j);
    FillCell(was, now, norm, Visited(tableLog, top, size), m, position, symbol);
  }

  /** While cells are missing, the round is not over and the current position is the next cell. */
  lemma {:induction false} NextCell(tableLog: nat, top: nat, j: nat)
    requires tableLog >= 4 && top <= Pow2(tableLog) && j <= Pow2(tableLog)
    requires |Visited(tableLog, top, j)| < top && Walk(tableLog, j) < top
    ensures j < Pow2(tableLog) && |Visited(tableLog, top, j + 1)| == |Visited(tableLog, top, j)| + 1
    ensures var round := Visited(tableLog, top, Pow2(tableLog));
            |Visited(tableLog, top, j)| < |round| && round[|Visited(tableLog, top, j)|] == Walk(tableLog, j)
  {
    RoundVisitsEveryCell(tableLog, top);
    VisitedPrefix(tableLog, top, j + 1, Pow2(tableLog));
  }

  lemma {:induction false} FillCell(was: seq<byte>, now: seq<byte>, norm: seq<int>, round: seq<nat>,
                                    m: nat, position: nat, symbol: byte)
    requires Frequencies(norm) && |LowProb(norm, |norm|)| + |Expand(norm, |norm|)| == |was|
    requires Filled(was, norm, round, m) && LaidLowProb(was, norm, |norm|)
    requires Distinct(round) && Below(round, |Expand(norm, |norm|)|)
    requires m < |round| && m < |Expand(norm, |norm|)| && round[m] == position
    requires symbol == Expand(norm, |norm|)[m]
    requires position < |was| && now == was[position := symbol]
    ensures Filled(now, norm, round, m + 1) && LaidLowProb(now, norm, |norm|)
  {
  }

  /** Once every cell is filled the walk is back at its start. */
  lemma {:induction false} AllFilled(table: seq<byte>, norm: seq<int>, tableLog: nat, j: nat, position: nat)
    requires Normalized(norm, tableLog) && tableLog >= 4
    requires Progress(table, norm, tableLog, j, Spread.Top(norm), position)
    ensures position == 0 && IsSpread(table, norm, tableLog)
  {
    var top := Spread.Top(norm);
    ExpandLength(norm, |norm|);
    RoundVisitsEveryCell(tableLog, top);
    BackAtStart(tableLog, top, j);
    SpreadDone(table, norm, tableLog);
  }

  lemma {:induction false} BackAtStart(tableLog: nat, top: nat, j: nat)
    requires tableLog >= 4 && top <= Pow2(tableLog) && j <= Pow2(tableLog)
    requires |Visited(tableLog, top, j)| == top
    requires Walk(tableLog, j) < top || (top == 0 && j == 0)
    ensures Walk(tableLog, j) == 0
  {
    WalkReturns(tableLog);
    if j < Pow2(tableLog) && j > 0 {
      RoundVisitsEveryCell(tableLog, top);
      VisitedPrefix(tableLog, top, j + 1, Pow2(tableLog));
    }
  }

  /** `while (position > highThreshold) position = (position + step) & tableMask` */
  method SkipLowProb(tableLog: nat, highThreshold: int, start: nat, ghost j0: nat, ghost top: nat)
    returns (position: nat, ghost j: nat)
    requires tableLog >= 4 && start == Walk(tableLog, j0) && j0 <= Pow2(tableLog)
    requires 0 < top == highThreshold + 1
    ensures j0 <= j <= Pow2(tableLog) && position == Walk(tableLog, j) && position < top
    ensures Visited(tableLog, top, j) == Visited(tableLog, top, j0)
  {
    var step := Step(Pow2(tableLog));
    position, j := start, j0;
    WalkReturns(tableLog);
    while position > highThreshold
      invariant j0 <= j <= Pow2(tableLog) && position == Walk(tableLog, j)
      invariant Visited(tableLog, top, j) == Visited(tableLog, top, j0)
      decreases Pow2(tableLog) - j
    {
      position := Low(position + step, tableLog);
      j := j + 1;
    }
  }

  /** Places the occurrences of one symbol. */
  method PlaceSymbol(table: array<byte>, norm: seq<int>, tableLog: nat, highThreshold: int, symbol: byte,
                     start: nat, ghost j0: nat, ghost m0: nat)
    returns (position: nat, ghost j: nat, ghost m: nat)
    requires Normalized(norm, tableLog) && tableLog >= 4 && symbol < |norm|
    requires highThreshold + 1 == Spread.Top(norm)
    requires Progress(table[..], norm, tableLog, j0, m0, start) && m0 == |Expand(norm, symbol)|
    modifies table
    ensures Progress(table[..], norm, tableLog, j, m, position) && m == |Expand(norm, symbol + 1)|
  {
    position, j, m := start, j0, m0;
    var nbOccurrences := 0;
    var freq := norm[symbol];
    while nbOccurrences < freq
      invariant 0 <= nbOccurrences && (nbOccurrences <= freq || nbOccurrences == 0)
      invariant Progress(table[..], norm, tableLog, j, m, position) && m == m0 + nbOccurrences
    {
      ExpandAt(norm, symbol, nbOccurrences);
      position, j, m := PlaceOne(table, norm, tableLog, highThreshold, symbol, position, j, m);
      nbOccurrences := nbOccurrences + 1;
    }
  }

  /** Fills the current cell, and steps to the next one below the low-probability area. */
  method PlaceOne(table: array<byte>, ghost norm: seq<int>, tableLog: nat, highThreshold: int, symbol: byte,
                  start: nat, ghost j0: nat, ghost m0: nat) returns (position: nat, ghost j: nat, ghost m: nat)
    requires Normalized(norm, tableLog) && tableLog >= 4
    requires highThreshold + 1 == Spread.Top(norm)
    requires Progress(table[..], norm, tableLog, j0, m0, start)
    requires m0 < |Expand(norm, |norm|)| && symbol == Expand(norm, |norm|)[m0]
    modifies table
    ensures Progress(table[..], norm, tableLog, j, m, position) && m == m0 + 1
  {
    ghost var was := table[..];
    WalkBelow(tableLog, j0);
    assert |Expand(norm, |norm|)| == Spread.Top(norm) by { ExpandLength(norm, |norm|); }
    table[start] := symbol;
    FillNext(was, table[..], norm, tableLog, j0, m0, start, symbol);
    m := m0 + 1;
    position, j := SkipLowProb(tableLog, highThreshold, Low(start + Step(table.Length), tableLog), j0 + 1, Spread.Top(norm));
  }

  /** The simple loop, which steps over the low-probability area. */
  method SpreadSlow(table: array<byte>, norm: seq<int>, tableLog: nat, highThreshold: int)
    requires Normalized(norm, tableLog) && tableLog >= 4 && table.Length == Pow2(tableLog)
    requires LaidLowProb(table[..], norm, |norm|)
    requires highThreshold == table.Length - 1 - |LowProb(norm, |norm|)|
    modifies table
    ensures IsSpread(table[..], norm, tableLog)
  {
    ExpandLength(norm, |norm|);
    RoundVisitsEveryCell(tableLog, Spread.Top(norm));
    var position := 0;
    var symbol := 0;
    ghost var j, m := 0, 0;
    while symbol < |norm|
      invariant 0 <= symbol <= |norm|
      invariant Progress(table[..], norm, tableLog, j, m, position) && m == |Expand(norm, symbol)|
    {
      position, j, m := PlaceSymbol(table, norm, tableLog, highThreshold, symbol, position, j, m);
      symbol := symbol + 1;
    }
    AllFilled(table[..], norm, tableLog, j, position);
    assert position == 0;
  }

  // ----- the unrolled path, without low-probability symbols -----

  const ADD := 0x0101010101010101

  function Ones(k: nat): (x: nat) {
    if k == 0 then 0 else 1 + 256 * Ones(k - 1)
  }

  /** The bytes of a multiple of 0x0101..01 are copies of the factor. */
  lemma {:induction false} Copies(s: byte, k: nat)
    ensures s * Ones(k) >= 0
    ensures ToBytes(s * Ones(k), k) == Repeat(s, k)
  {
    if k > 0 {
      Copies(s, k - 1);
      var rest := s * Ones(k - 1);
      assert s * Ones(k) == s + 256 * rest;
      assert ToBytes(s + 256 * rest, k) == [s] + ToBytes(rest, k - 1);
    } else {
      assert s * Ones(k) == 0;
    }
  }

  /** MEM_write64 of a symbol repeated in every byte. */
  method Write8(spread: array<byte>, pos: nat, s: byte, sv: nat)
    requires pos + 8 <= spread.Length && sv == s * ADD
    modifies spread
    ensures forall k :: pos <= k < pos + 8 ==> spread[k] == s
    ensures forall k :: 0 <= k < spread.Length && !(pos <= k < pos + 8) ==> spread[k] == old(spread[k])
  {
    assert Ones(8) == ADD;
    Copies(s, 8);
    ghost var was := spread[..];
    WriteLE(spread, pos, 8, sv);
    ghost var now := spread[..];
    assert now == was[..pos] + Repeat(s, 8) + was[pos + 8..];
    forall k | 0 <= k < |now|
      ensures spread[k] == if pos <= k < pos + 8 then s else was[k]
    {
      assert spread[k] == now[k];
    }
  }

  /** Lays down n copies of a symbol from pos on, eight at a time, writing past them if need be. */
  method LayRun(spread: array<byte>, pos: nat, s: byte, n: nat, sv: nat)
    requires pos + n + 8 <= spread.Length && sv == s * ADD
    modifies spread
    ensures spread[..pos + n] == old(spread[..pos]) + Repeat(s, n)
  {
    Write8(spread, pos, s, sv);
    var i := 8;
    while i < n
      invariant 8 <= i && (i < n + 8 || i == 8)
      invariant forall k :: 0 <= k < pos ==> spread[k] == old(spread[k])
      invariant forall k :: pos <= k < pos + i && k < spread.Length ==> spread[k] == s
    {
      Write8(spread, pos + i, s, sv);
      i := i + 8;
    }
  }

  /** First the symbols in order, then two cells per iteration along the walk. */
  method SpreadFast(table: array<byte>, norm: seq<int>, tableLog: nat)
    requires Normalized(norm, tableLog) && tableLog >= 4 && table.Length == Pow2(tableLog)
    requires LowProb(norm, |norm|) == []
    modifies table
    ensures IsSpread(table[..], norm, tableLog)
  {
    var spread := new byte[table.Length + 8](_ => 0);
    ExpandLength(norm, |norm|);
    var pos, sv, symbol := 0, 0, 0;
    while symbol < |norm|
      invariant 0 <= symbol <= |norm| && sv == symbol * ADD
      invariant pos == |Expand(norm, symbol)| <= table.Length
      invariant spread[..pos] == Expand(norm, symbol)
    {
      NoLowProb(norm, symbol);
      ExpandPrefix(norm, symbol + 1, |norm|);
      LayRun(spread, pos, symbol, norm[symbol], sv);
      pos := pos + norm[symbol];
      symbol, sv := symbol + 1, sv + ADD;
    }
    SpreadPairs(table, spread, tableLog, norm);
    assert spread[..table.Length] == Expand(norm, |norm|);
    SpreadDone(table[..], norm, tableLog);
  }

  lemma {:induction false} NoLowProb(norm: seq<int>, s: nat)
    requires Frequencies(norm) && s < |norm| && LowProb(norm, |norm|) == []
    ensures norm[s] >= 0
  {
    ExpandPrefix(norm, s + 1, |norm|);
  }

  method PlacePair(table: array<byte>, spread: array<byte>, tableLog: nat, ghost norm: seq<int>,
                   position: nat, s: nat, ghost round: seq<nat>, ghost walk: seq<nat>) returns (next: nat)
    requires Normalized(norm, tableLog) && tableLog >= 4 && table.Length == Pow2(tableLog)
    requires LowProb(norm, |norm|) == []
    requires spread != table && spread.Length == table.Length + 8
    requires spread[..table.Length] == Expand(norm, |norm|)
    requires s % 2 == 0 && s < table.Length && IsWalk(walk, tableLog) && position == walk[s]
    requires round == Visited(tableLog, table.Length, table.Length) && Filled(table[..], norm, round, s)
    modifies table
    ensures s + 2 <= table.Length && next == walk[s + 2]
    ensures Filled(table[..], norm, round, s + 2)
  {
    assert WalkAt(walk, tableLog, s);
    PairSteps(tableLog, s);
    assert WalkAt(walk, tableLog, s + 2);
    var step := Step(table.Length);
    var first, second := Low(position, tableLog), Low(position + step, tableLog);
    next := Low(position + 2 * step, tableLog);
    ghost var was := table[..];
    table[first] := spread[s];
    table[second] := spread[s + 1];
    assert spread[s] == spread[..table.Length][s] && spread[s + 1] == spread[..table.Length][s + 1];
    FillPair(was, table[..], norm, tableLog, s);
  }

  lemma {:induction false} FillPair(was: seq<byte>, now: seq<byte>, norm: seq<int>, tableLog: nat, s: nat)
    requires |norm| <= 256 && tableLog >= 4 && |was| == Pow2(tableLog) == |Expand(norm, |norm|)|
    requires s + 1 < |was| && Walk(tableLog, s) < |was| && Walk(tableLog, s + 1) < |was|
    requires Filled(was, norm, Visited(tableLog, |was|, |was|), s)
    requires now == was[Walk(tableLog, s) := Expand(norm, |norm|)[s]]
                       [Walk(tableLog, s + 1) := Expand(norm, |norm|)[s + 1]]
    ensures Filled(now, norm, Visited(tableLog, |now|, |now|), s + 2)
  {
    var round := Visited(tableLog, |was|, |was|);
    RoundVisitsEveryCell(tableLog, |was|);
    VisitedAll(tableLog, |was|);
    var mid := was[Walk(tableLog, s) := Expand(norm, |norm|)[s]];
    FillAny(was, mid, norm, round, s, Walk(tableLog, s));
    FillAny(mid, now, norm, round, s + 1, Walk(tableLog, s + 1));
  }

  method SpreadPairs(table: array<byte>, spread: array<byte>, tableLog: nat, ghost norm: seq<int>)
    requires Normalized(norm, tableLog) && tableLog >= 4 && table.Length == Pow2(tableLog)
    requires LowProb(norm, |norm|) == []
    requires spread != table && spread.Length == table.Length + 8
    requires spread[..table.Length] == Expand(norm, |norm|)
    modifies table
    ensures Filled(table[..], norm, Visited(tableLog, table.Length, table.Length), table.Length)
  {
    StartRound(table[..], norm, tableLog);
    ghost var round := Visited(tableLog, table.Length, table.Length);
    ghost var walk := WalkTrace(tableLog);
    var position, s := 0, 0;
    while s < table.Length
      invariant 0 <= s <= table.Length && s % 2 == 0 && position == walk[s]
      invariant Filled(table[..], norm, round, s)
    {
      position := PlacePair(table, spread, tableLog, norm, position, s, round, walk);
      s := s + 2;
    }
    assert position == 0;
  }

  /** All the positions of the walk, as one sequence. */
  ghost predicate IsWalk(walk: seq<nat>, tableLog: nat) {
    |walk| == Pow2(tableLog) + 1 && forall i {:trigger WalkAt(walk, tableLog, i)} :: 0 <= i < |walk| ==> WalkAt(walk, tableLog, i)
  }

  ghost predicate WalkAt(walk: seq<nat>, tableLog: nat, i: nat)
    requires i < |walk|
  {
    walk[i] == Walk(tableLog, i)
  }

  lemma {:induction false} WalkTrace(tableLog: nat) returns (walk: seq<nat>)
    ensures IsWalk(walk, tableLog) && walk[0] == walk[Pow2(tableLog)] == 0
  {
    walk := seq(Pow2(tableLog) + 1, i requires 0 <= i <= Pow2(tableLog) => Walk(tableLog, i));
    WalkReturns(tableLog);
  }

  lemma {:induction false} StartRound(table: seq<byte>, norm: seq<int>, tableLog: nat)
    requires |norm| <= 256 && tableLog >= 4 && |table| == Pow2(tableLog)
    ensures Filled(table, norm, Visited(tableLog, |table|, |table|), 0)
  {
    RoundVisitsEveryCell(tableLog, |table|);
  }

  /** Two masked steps are one masked double step. */
  lemma {:induction false} PairSteps(tableLog: nat, s: nat)
    requires tableLog >= 4 && s < Pow2(tableLog) && s % 2 == 0
    ensures s + 1 < Pow2(tableLog)
    ensures Low(Walk(tableLog, s), tableLog) == Walk(tableLog, s) < Pow2(tableLog)
    ensures Walk(tableLog, s + 1) < Pow2(tableLog)
    ensures Low(Walk(tableLog, s) + 2 * Step(Pow2(tableLog)), tableLog) == Walk(tableLog, s + 2)
  {
    WalkBelow(tableLog, s);
    WalkBelow(tableLog, s + 1);
    LowSmall(Walk(tableLog, s), tableLog);
    LowOfSum(Walk(tableLog, s) + Step(Pow2(tableLog)), Step(Pow2(tableLog)), tableLog);
  }

  lemma {:induction false} FillAny(was: seq<byte>, now: seq<byte>, norm: seq<int>, round: seq<nat>, m: nat, position: nat)
    requires |norm| <= 256 && Filled(was, norm, round, m) && Distinct(round)
    requires m < |round| && m < |Expand(norm, |norm|)| && round[m] == position < |was|
    requires now == was[position := Expand(norm, |norm|)[m]]
    ensures Filled(now, norm, round, m + 1)
  {
  }

  /** Both builders choose between the two loops by whether any cell went to a rare symbol. */
  method SpreadAll(table: array<byte>, norm: seq<int>, tableLog: nat, highThreshold: int)
    requires Normalized(norm, tableLog) && tableLog >= 4 && table.Length == Pow2(tableLog)
    requires LaidLowProb(table[..], norm, |norm|)
    requires highThreshold == table.Length - 1 - |LowProb(norm, |norm|)|
    modifies table
    ensures IsSpread(table[..], norm, tableLog)
  {
    if highThreshold == table.Length - 1 {
      SpreadFast(table, norm, tableLog);
    } else {
      SpreadSlow(table, norm, tableLog, highThreshold);
    }
  }
}
