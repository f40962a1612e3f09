/** FSE_buildCTable_wksp and FSE_buildDTable_internal: the tables, filled in place. */
module FseBuild {
  import opened Numeric
  import opened Results
  import opened Distribution
  import opened Spread
  import opened SpreadSymbols
  import opened FseTable

  ghost predicate Cumulated(cumul: seq<nat>, norm: seq<int>, k: nat)
    requires k <= |cumul| && k <= |norm| + 1
  {
    forall s :: 0 <= s < k ==> StartsAt(cumul, norm, s)
  }

  ghost predicate StartsAt(cumul: seq<nat>, norm: seq<int>, s: nat)
    requires s < |cumul| && s <= |norm|
  {
    cumul[s] == Weight(norm, s)
  }

  /** The start position of every symbol, while low-probability symbols are laid from the end. */
  method CumulateWeights(norm: seq<int>, cumul: array<nat>, tableSymbol: array<byte>) returns (highThreshold: int)
    requires Frequencies(norm) && cumul.Length == |norm| + 1
    requires Weight(norm, |norm|) <= tableSymbol.Length
    modifies cumul, tableSymbol
    ensures Cumulated(cumul[..], norm, |norm|)
    ensures LaidLowProb(tableSymbol[..], norm, |norm|)
    ensures highThreshold == tableSymbol.Length - 1 - |LowProb(norm, |norm|)|
  {
    highThreshold := tableSymbol.Length - 1;
    cumul[0] := 0;
    var u := 1;
    while u <= |norm|
      invariant 1 <= u <= |norm| + 1
      invariant Cumulated(cumul[..], norm, u)
      invariant LaidLowProb(tableSymbol[..], norm, u - 1)
      invariant highThreshold == tableSymbol.Length - 1 - |LowProb(norm, u - 1)|
    {
      assert StartsAt(cumul[..], norm, u - 1);
      ghost var counts := cumul[..];
      if norm[u - 1] == -1 {
        cumul[u] := cumul[u - 1] + 1;
        LowProbRoom(norm, u - 1);
        ghost var was := tableSymbol[..];
        tableSymbol[highThreshold] := u - 1;
        LayNext(was, tableSymbol[..], norm, u - 1);
        highThreshold := highThreshold - 1;
      } else {
        cumul[u] := cumul[u - 1] + norm[u - 1];
      }
      CumulateNext(counts, cumul[..], norm, u);
      u := u + 1;
    }
    ghost var counts := cumul[..];
    cumul[|norm|] := tableSymbol.Length + 1;
    KeepStarts(counts, cumul[..], norm);
  }

  lemma {:induction false} CumulateNext(was: seq<nat>, now: seq<nat>, norm: seq<int>, u: nat)
    requires 1 <= u <= |norm| && u < |was| && Cumulated(was, norm, u)
    requires now == was[u := was[u - 1] + Abs(norm[u - 1])]
    ensures Cumulated(now, norm, u + 1)
  {
    forall s | 0 <= s < u + 1
      ensures StartsAt(now, norm, s)
    {
      assert StartsAt(was, norm, if s < u then s else u - 1);
    }
  }

  lemma {:induction false} KeepStarts(was: seq<nat>, now: seq<nat>, norm: seq<int>)
    requires |was| == |now| == |norm| + 1 && Cumulated(was, norm, |norm|) && now[..|norm|] == was[..|norm|]
    ensures Cumulated(now, norm, |norm|)
  {
    forall s | 0 <= s < |norm|
      ensures StartsAt(now, norm, s)
    {
      assert StartsAt(was, norm, s);
      assert now[s] == now[..|norm|][s];
    }
  }

  /** There is a cell for every low-probability symbol. */
  lemma {:induction false} LowProbRoom(norm: seq<int>, k: nat)
    requires Frequencies(norm) && k < |norm| && norm[k] == -1
    ensures |LowProb(norm, k)| < Weight(norm, |norm|)
  {
    ExpandLength(norm, k);
    WeightMono(norm, k, |norm|);
  }

  lemma {:induction false} LayNext(was: seq<byte>, now: seq<byte>, norm: seq<int>, k: nat)
    requires k < |norm| <= 256 && norm[k] == -1 && LaidLowProb(was, norm, k)
    requires |LowProb(norm, k)| < |was|
    requires now == was[|was| - 1 - |LowProb(norm, k)| := k]
    ensures LaidLowProb(now, norm, k + 1)
  {
  }

  /** The counter of symbol s after u cells: it started at start[s] and counted the cells of s. */
  ghost predicate Reached(counter: seq<nat>, start: seq<nat>, t: seq<byte>, u: nat, s: byte)
    requires u <= |t| && s < |start| == |counter|
  {
    counter[s] == start[s] + Count(t[..u], s)
  }

  ghost predicate AllReached(counter: seq<nat>, start: seq<nat>, t: seq<byte>, u: nat)
  {
    && u <= |t| && |counter| == |start|
    && forall s: byte :: s < |start| ==> Reached(counter, start, t, u, s)
  }

  lemma {:induction false} CountNext(was: seq<nat>, now: seq<nat>, start: seq<nat>, t: seq<byte>, u: nat)
    requires AllReached(was, start, t, u) && u < |t| && t[u] < |was|
    requires now == was[t[u] := was[t[u]] + 1]
    ensures AllReached(now, start, t, u + 1)
  {
    var v := u + 1;
    forall s: byte | s < |start|
      ensures Reached(now, start, t, v, s)
    {
      assert Reached(was, start, t, u, s);
      assert t[..u + 1][..u] == t[..u];
    }
  }

  /** `tableU16[cumul[s]++] = tableSize + u`, over all cells. */
  method FillStates(t: seq<byte>, norm: seq<int>, cumul: array<nat>, tableU16: array<nat>)
    requires Symbols(t, norm) && (forall s: byte :: s < |norm| ==> HasShare(t, norm, s))
    requires cumul.Length == |norm| + 1 && cumul != tableU16 && tableU16.Length == |t|
    requires Cumulated(cumul[..], norm, |norm|)
    modifies cumul, tableU16
    ensures IsStateTable(tableU16[..], t, norm, |t|)
  {
    ghost var start := cumul[..];
    var u := 0;
    while u < |t|
      invariant 0 <= u <= |t|
      invariant AllReached(cumul[..], start, t, u)
      invariant IsStateTable(tableU16[..], t, norm, u)
    {
      var s := t[u];
      assert StartsAt(start, norm, s) && Reached(cumul[..], start, t, u, s) && HasShare(t, norm, s);
      CountPositive(t, u);
      ghost var was, counts := tableU16[..], cumul[..];
      tableU16[cumul[s]] := |t| + u;
      StoreNext(was, tableU16[..], t, norm, u);
      cumul[s] := cumul[s] + 1;
      CountNext(counts, cumul[..], start, t, u);
      u := u + 1;
    }
  }

  /** Cells of different symbols, and different cells of one symbol, are stored apart. */
  lemma {:induction false} EntriesApart(t: seq<byte>, norm: seq<int>, v: nat, u: nat)
    requires v < u < |t| && Symbols(t, norm)
    requires HasShare(t, norm, t[v]) && HasShare(t, norm, t[u])
    ensures Weight(norm, t[v]) + Rank(t, v) != Weight(norm, t[u]) + Rank(t, u)
  {
    CountPositive(t, v);
    CountPositive(t, u);
    if t[v] == t[u] {
      CountPositive(t[..u], v);
      assert t[..u][..v] == t[..v];
    } else if t[v] < t[u] {
      WeightMono(norm, t[v], t[u]);
    } else {
      WeightMono(norm, t[u], t[v]);
    }
  }

  lemma {:induction false} StoreNext(was: seq<nat>, now: seq<nat>, t: seq<byte>, norm: seq<int>, u: nat)
    requires Symbols(t, norm) && (forall s: byte :: s < |norm| ==> HasShare(t, norm, s))
    requires u < |t| && IsStateTable(was, t, norm, u)
    requires Weight(norm, t[u]) + Rank(t, u) < |was|
    requires now == was[Weight(norm, t[u]) + Rank(t, u) := |t| + u]
    ensures IsStateTable(now, t, norm, u + 1)
  {
    forall v | 0 <= v < u + 1
      ensures EntryOf(now, t, norm, v)
    {
      if v < u {
        assert EntryOf(was, t, norm, v);
        assert HasShare(t, norm, t[v]) && HasShare(t, norm, t[u]);
        EntriesApart(t, norm, v, u);
      }
    }
  }

  /** The symbol transforms, in symbol order. A symbol that cannot occur only gets its cost. */
  method BuildTransforms(norm: seq<int>, tableLog: nat) returns (symbolTT: seq<SymbolTransform>)
    requires Normalized(norm, tableLog) && 5 <= tableLog <= MAX_TABLELOG
    ensures |symbolTT| == |norm|
    ensures forall s :: 0 <= s < |norm| ==> TransformOf(symbolTT, norm, tableLog, s)
  {
    Pow2Small(tableLog + 1);
    symbolTT := [];
    var total := 0;
    var s := 0;
    while s < |norm|
      invariant 0 <= s <= |norm| == |norm| && |symbolTT| == s && total == Weight(norm, s)
      invariant forall r :: 0 <= r < s ==> TransformOf(symbolTT, norm, tableLog, r)
    {
      ghost var was := symbolTT;
      var count := norm[s];
      if count == 0 {
        symbolTT := symbolTT + [SymbolTransform(0, (tableLog + 1) * 65536 - Pow2(tableLog))];
      } else if count == -1 || count == 1 {
        symbolTT := symbolTT + [SymbolTransform(total - 1, tableLog * 65536 - Pow2(tableLog))];
        total := total + 1;
      } else {
        WeightMono(norm, s, |norm|);
        MinState(count, tableLog);
        var maxBitsOut := tableLog - HighBit(count - 1);
        var minStatePlus := Shl(count, maxBitsOut);
        symbolTT := symbolTT + [SymbolTransform(total - count, maxBitsOut * 65536 - minStatePlus)];
        total := total + count;
      }
      KeepTransforms(was, symbolTT, norm, tableLog, s);
      s := s + 1;
    }
  }

  lemma {:induction false} KeepTransforms(was: seq<SymbolTransform>, now: seq<SymbolTransform>, norm: seq<int>,
                                          tableLog: nat, s: nat)
    requires s == |was| < |norm| && |now| == s + 1 && now[..s] == was
    requires forall r :: 0 <= r < s ==> TransformOf(was, norm, tableLog, r)
    requires TransformOf(now, norm, tableLog, s)
    ensures forall r :: 0 <= r < s + 1 ==> TransformOf(now, norm, tableLog, r)
  {
    forall r | 0 <= r < s + 1
      ensures TransformOf(now, norm, tableLog, r)
    {
      if r < s {
        assert TransformOf(was, norm, tableLog, r);
        assert now[r] == was[r];
      }
    }
  }

  method BuildCTable(norm: seq<int>, tableLog: nat) returns (ct: CTable)
    requires Normalized(norm, tableLog) && 5 <= tableLog <= MAX_TABLELOG
    ensures EncodesWith(ct, norm, tableLog)
  {
    var tableSize := Pow2(tableLog);
    var cumul := new nat[|norm| + 1](_ => 0);
    var tableSymbol := new byte[tableSize](_ => 0);
    var tableU16 := new nat[tableSize](_ => 0);
    var highThreshold := CumulateWeights(norm, cumul, tableSymbol);
    SpreadAll(tableSymbol, norm, tableLog, highThreshold);
    ghost var t := tableSymbol[..];
    SpreadApportions(t, norm, tableLog);
    FillStates(tableSymbol[..], norm, cumul, tableU16);
    var symbolTT := BuildTransforms(norm, tableLog);
    ct := CTable(tableLog, tableU16[..], symbolTT);
  }

  // ----- the decoding table -----

  /** Position of a symbol's next cell, and whether every cell will consume a bit. */
  method NextStates(norm: seq<int>, tableLog: nat, symbolNext: array<nat>, tableDecode: array<byte>)
    returns (highThreshold: int, fastMode: bool)
    requires Frequencies(norm) && symbolNext.Length == |norm| && tableLog >= 1
    requires Weight(norm, |norm|) <= tableDecode.Length
    modifies symbolNext, tableDecode
    ensures forall s :: 0 <= s < |norm| ==> symbolNext[s] == Abs(norm[s])
    ensures LaidLowProb(tableDecode[..], norm, |norm|)
    ensures highThreshold == tableDecode.Length - 1 - |LowProb(norm, |norm|)|
    ensures fastMode ==> forall s :: 0 <= s < |norm| ==> norm[s] < Pow2(tableLog - 1)
  {
    highThreshold := tableDecode.Length - 1;
    fastMode := true;
    var largeLimit := Pow2(tableLog - 1);
    var s := 0;
    while s < |norm|
      invariant 0 <= s <= |norm|
      invariant forall r :: 0 <= r < s ==> symbolNext[r] == Abs(norm[r])
      invariant LaidLowProb(tableDecode[..], norm, s)
      invariant highThreshold == tableDecode.Length - 1 - |LowProb(norm, s)|
      invariant fastMode ==> forall r :: 0 <= r < s ==> norm[r] < largeLimit
    {
      if norm[s] == -1 {
        LowProbRoom(norm, s);
        ghost var was := tableDecode[..];
        tableDecode[highThreshold] := s;
        LayNext(was, tableDecode[..], norm, s);
        highThreshold := highThreshold - 1;
        symbolNext[s] := 1;
      } else {
        if norm[s] >= largeLimit {
          fastMode := false;
        }
        symbolNext[s] := norm[s];
      }
      s := s + 1;
    }
  }

  /** A cell leads back into the table, whatever bits it reads. */
  lemma {:induction false} CellCloses(nextState: nat, tableLog: nat)
    requires 0 < nextState < Pow2(tableLog + 1)
    ensures HighBit(nextState) <= tableLog
    ensures Pow2(tableLog) <= Shl(nextState, tableLog - HighBit(nextState))
    ensures Shl(nextState, tableLog - HighBit(nextState)) + Pow2(tableLog - HighBit(nextState)) <= Pow2(tableLog + 1)
    ensures nextState < Pow2(tableLog) ==> HighBit(nextState) < tableLog
  {
    var h := HighBit(nextState);
    if h > tableLog {
      Pow2Mono(tableLog + 1, h);
    }
    if h == tableLog {
    } else {
      Pow2Mono(h + 1, tableLog);
    }
    var k := tableLog - h;
    assert Shl(Pow2(h), k) == Pow2(tableLog) by { Pow2Add(h, k); }
    assert Shl(Pow2(h + 1), k) == Pow2(tableLog + 1) by { Pow2Add(h + 1, k); }
    ShlMono(Pow2(h), nextState, k);
    ShlMono(nextState, Pow2(h + 1), k);
  }

  ghost predicate CellCloseable(cell: DCell, tableLog: nat, fastMode: bool) {
    && cell.nbBits <= tableLog && cell.newState + Pow2(cell.nbBits) <= Pow2(tableLog)
    && (fastMode ==> cell.nbBits >= 1)
  }

  /** The number of a cell lies between the weight of its symbol and twice that weight. */
  lemma {:induction false} NextStateRange(t: seq<byte>, norm: seq<int>, tableLog: nat, u: nat, fastMode: bool)
    requires Apportioned(t, norm, tableLog) && u < |t| && norm[t[u]] >= -1
    requires fastMode ==> norm[t[u]] < Pow2(tableLog - 1)
    ensures var nextState := Abs(norm[t[u]]) + Rank(t, u);
            0 < nextState < Pow2(tableLog + 1) && (fastMode ==> nextState < Pow2(tableLog))
  {
    assert HasShare(t, norm, t[u]);
    CountPositive(t, u);
  }

  method NumberCell(nextState: nat, symbol: byte, tableLog: nat, ghost fastMode: bool) returns (cell: DCell)
    requires 0 < nextState < Pow2(tableLog + 1) && (fastMode ==> nextState < Pow2(tableLog))
    ensures IsDCell(cell, symbol, nextState, tableLog)
    ensures CellCloseable(cell, tableLog, fastMode)
  {
    CellCloses(nextState, tableLog);
    var nbBits := tableLog - HighBit(nextState);
    cell := DCell(symbol, nbBits, Shl(nextState, nbBits) - Pow2(tableLog));
  }

  /** The loop that numbers the cells of every symbol. */
  method FillCells(t: seq<byte>, ghost norm: seq<int>, tableLog: nat, symbolNext: array<nat>, ghost fastMode: bool)
    returns (cells: seq<DCell>)
    requires Apportioned(t, norm, tableLog) && Frequencies(norm) && symbolNext.Length == |norm|
    requires forall s :: 0 <= s < |norm| ==> symbolNext[s] == Abs(norm[s])
    requires fastMode ==> forall s :: 0 <= s < |norm| ==> norm[s] < Pow2(tableLog - 1)
    modifies symbolNext
    ensures |cells| == |t|
    ensures forall u :: 0 <= u < |t| ==> DCellAt(cells, t, norm, tableLog, u)
    ensures forall u :: 0 <= u < |t| ==> CellCloseable(cells[u], tableLog, fastMode)
  {
    ghost var start := symbolNext[..];
    cells := [];
    var u := 0;
    while u < |t|
      invariant 0 <= u <= |t| && |cells| == u
      invariant AllReached(symbolNext[..], start, t, u)
      invariant forall v :: 0 <= v < u ==> DCellAt(cells, t, norm, tableLog, v)
      invariant forall v :: 0 <= v < u ==> CellCloseable(cells[v], tableLog, fastMode)
    {
      var symbol := t[u];
      assert Reached(symbolNext[..], start, t, u, symbol);
      NextStateRange(t, norm, tableLog, u, fastMode);
      var nextState := symbolNext[symbol];
      ghost var was := symbolNext[..];
      symbolNext[symbol] := nextState + 1;
      CountNext(was, symbolNext[..], start, t, u);
      var cell := NumberCell(nextState, symbol, tableLog, fastMode);
      KeepCells(cells, cell, t, norm, tableLog);
      cells := cells + [cell];
      u := u + 1;
    }
  }

  method BuildDTable(norm: seq<int>, tableLog: nat) returns (r: Result<DTable>)
    requires Normalized(norm, tableLog) && tableLog >= 5
    ensures r == Err(TableLogTooLarge) <==> tableLog > MAX_TABLELOG
    ensures tableLog <= MAX_TABLELOG ==> r.Ok? && DecodesWith(r.value, norm, tableLog) && Closed(r.value)
  {
    if tableLog > MAX_TABLELOG {
      return Err(TableLogTooLarge);
    }
    var symbolNext := new nat[|norm|](_ => 0);
    var tableDecode := new byte[Pow2(tableLog)](_ => 0);
    var highThreshold, fastMode := NextStates(norm, tableLog, symbolNext, tableDecode);
    SpreadAll(tableDecode, norm, tableLog, highThreshold);
    ghost var t := tableDecode[..];
    SpreadApportions(t, norm, tableLog);
    var cells := FillCells(tableDecode[..], norm, tableLog, symbolNext, fastMode);
    assert forall u :: 0 <= u < |cells| ==> CellCloseable(cells[u], tableLog, fastMode);
    r := Ok(DTable(tableLog, fastMode, cells));
  }

  lemma {:induction false} KeepCells(was: seq<DCell>, cell: DCell, t: seq<byte>, norm: seq<int>, tableLog: nat)
    requires |was| < |t| && Symbols(t, norm)
    requires forall v :: 0 <= v < |was| ==> DCellAt(was, t, norm, tableLog, v)
    requires IsDCell(cell, t[|was|], Abs(norm[t[|was|]]) + Rank(t, |was|), tableLog)
    ensures forall v :: 0 <= v < |was| + 1 ==> DCellAt(was + [cell], t, norm, tableLog, v)
  {
    forall v | 0 <= v < |was| + 1
      ensures DCellAt(was + [cell], t, norm, tableLog, v)
    {
      assert v < |was| ==> DCellAt(was, t, norm, tableLog, v);
    }
  }

  // ----- tables of a single repeated symbol -----

  /** FSE_buildCTable_rle: states are worth 0 bits and the state value stays 0. */
  function CTableRle(symbolValue: byte): (ct: CTable)
  {
    CTable(0, [0, 0], seq(symbolValue + 1, _ => SymbolTransform(0, 0)))
  }

  /** ZSTD_buildSeqTable_rle */
  function DTableRle(symbolValue: byte): (dt: DTable)
  {
    DTable(0, false, [DCell(symbolValue, 0, 0)])
  }

  lemma {:induction false} RleInverse(s: byte)
    ensures Inverse(CTableRle(s), DTableRle(s), {s}, 0) && Closed(DTableRle(s))
  {
    var tt := SymbolTransform(0, 0);
    Shift16(0);
    Shift16(32768);
    assert NbBitsOut(tt, 0) == 0 && NextIndex(tt, 0) == 0 && InitIndex(tt) == 0;
    assert forall x: nat :: IsState(CTableRle(s), 0, x) ==> x == 0;
  }
}
