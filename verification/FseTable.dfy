/**
 The encoding table (FSE_CTable), the decoding table (FSE_DTable), and the law that ties them:
 one decoding step undoes one encoding step.
 */
module FseTable {
  import opened Numeric
  import opened Distribution
  import opened Spread

  /** FSE_symbolCompressionTransform */
  datatype SymbolTransform = SymbolTransform(deltaFindState: int, deltaNbBits: nat)

  datatype CTable = CTable(tableLog: nat, stateTable: seq<nat>, symbolTT: seq<SymbolTransform>)

  /** FSE_decode_t */
  datatype DCell = DCell(symbol: byte, nbBits: nat, newState: nat)

  datatype DTable = DTable(tableLog: nat, fastMode: bool, cells: seq<DCell>)

  // ----- using the tables -----

  /** The number of bits FSE_encodeSymbol emits from a state value. */
  function NbBitsOut(tt: SymbolTransform, value: nat): (nb: nat)
  {
    Shr(value + tt.deltaNbBits, 16)
  }

  /** Where FSE_encodeSymbol looks up the next state value. */
  function NextIndex(tt: SymbolTransform, value: nat): (i: int)
  {
    Shr(value, NbBitsOut(tt, value)) + tt.deltaFindState
  }

  /** The state value FSE_initCState2 derives from the transform before the lookup. */
  function InitValue(tt: SymbolTransform): (value: int)
  {
    Shl(Shr(tt.deltaNbBits + 32768, 16), 16) - tt.deltaNbBits
  }

  function InitIndex(tt: SymbolTransform): (i: int)
  {
    if InitValue(tt) < 0 then -1
    else Shr(InitValue(tt), Shr(tt.deltaNbBits + 32768, 16)) + tt.deltaFindState
  }

  ghost predicate CanEncode(ct: CTable, value: nat, s: nat) {
    s < |ct.symbolTT| && 0 <= NextIndex(ct.symbolTT[s], value) < |ct.stateTable|
  }

  ghost predicate CanStart(ct: CTable, s: nat) {
    s < |ct.symbolTT| && 0 <= InitIndex(ct.symbolTT[s]) < |ct.stateTable|
  }

  function NextValue(ct: CTable, value: nat, s: nat): (next: nat)
    requires CanEncode(ct, value, s)
  {
    ct.stateTable[NextIndex(ct.symbolTT[s], value)]
  }

  function StartValue(ct: CTable, s: nat): (start: nat)
    requires CanStart(ct, s)
  {
    ct.stateTable[InitIndex(ct.symbolTT[s])]
  }

  /**
   What the decoder needs of an encoding table, a decoding table and an alphabet: from every
   encoder state that can occur, encoding a symbol leads to a state whose decoding cell carries
   that symbol, asks for exactly the bits emitted, and leads back. Encoder states are the
   2^tableLog values from `base` on; the decoder's state is the low tableLog bits of the encoder's.
   */
  ghost predicate Inverse(ct: CTable, dt: DTable, alphabet: set<byte>, base: nat) {
    && dt.tableLog == ct.tableLog <= MAX_TABLELOG && |dt.cells| == Pow2(dt.tableLog)
    && (forall s, x: nat {:trigger StepUndone(ct, dt, base, s, x)} |
          s in alphabet && IsState(ct, base, x) :: StepUndone(ct, dt, base, s, x))
    && (forall s {:trigger StartUndone(ct, dt, base, s)} | s in alphabet :: StartUndone(ct, dt, base, s))
  }

  ghost predicate IsState(ct: CTable, base: nat, x: nat) {
    base <= x < base + Pow2(ct.tableLog)
  }

  ghost predicate StepUndone(ct: CTable, dt: DTable, base: nat, s: byte, x: nat)
    requires |dt.cells| == Pow2(dt.tableLog)
  {
    CanEncode(ct, x, s) &&
    var nb, next := NbBitsOut(ct.symbolTT[s], x), NextValue(ct, x, s);
    LowBound(next, dt.tableLog);
    var cell := dt.cells[Low(next, dt.tableLog)];
    && nb <= ct.tableLog && IsState(ct, base, next)
    && cell.symbol == s && cell.nbBits == nb
    && cell.newState + Low(x, nb) == Low(x, dt.tableLog)
  }

  ghost predicate StartUndone(ct: CTable, dt: DTable, base: nat, s: byte)
    requires |dt.cells| == Pow2(dt.tableLog)
  {
    CanStart(ct, s) &&
    var start := StartValue(ct, s);
    LowBound(start, dt.tableLog);
    IsState(ct, base, start) && dt.cells[Low(start, dt.tableLog)].symbol == s
  }

  /** A decoding table that no bits can lead out of. */
  ghost predicate Closed(dt: DTable) {
    && |dt.cells| == Pow2(dt.tableLog) && dt.tableLog <= MAX_TABLELOG
    && forall u :: 0 <= u < |dt.cells| ==>
         && dt.cells[u].nbBits <= dt.tableLog
         && dt.cells[u].newState + Pow2(dt.cells[u].nbBits) <= |dt.cells|
         && (dt.fastMode ==> dt.cells[u].nbBits >= 1)
  }

  // ----- what the builders build -----

  /** How many earlier cells carry the symbol of cell u. */
  function Rank(t: seq<byte>, u: nat): (r: nat)
    requires u < |t|
  {
    Count(t[..u], t[u])
  }

  ghost predicate Symbols(t: seq<byte>, norm: seq<int>) {
    forall u :: 0 <= u < |t| ==> t[u] < |norm|
  }

  /** The numbers of the cells of a symbol, in order, follow each other from its cumulated weight. */
  ghost predicate IsStateTable(st: seq<nat>, t: seq<byte>, norm: seq<int>, done: nat)
    requires done <= |t| && Symbols(t, norm)
  {
    |st| == |t| && forall u :: 0 <= u < done ==> EntryOf(st, t, norm, u)
  }

  ghost predicate EntryOf(st: seq<nat>, t: seq<byte>, norm: seq<int>, u: nat)
    requires u < |t| && Symbols(t, norm)
  {
    && Weight(norm, t[u]) + Rank(t, u) < |st|
    && st[Weight(norm, t[u]) + Rank(t, u)] == |t| + u
  }

  /** The transform of a symbol with n cells, after symbols with `total` cells. */
  ghost predicate IsTransform(tt: SymbolTransform, n: nat, total: nat, tableLog: nat) {
    if n == 1 then
      && tt.deltaFindState == total - 1
      && tt.deltaNbBits == tableLog * 65536 - Pow2(tableLog)
    else
      && n >= 2 && tt.deltaFindState == total - n
      && var maxBitsOut := tableLog - HighBit(n - 1);
         maxBitsOut >= 0 && tt.deltaNbBits == maxBitsOut * 65536 - Shl(n, maxBitsOut)
  }

  ghost predicate IsCTable(ct: CTable, t: seq<byte>, norm: seq<int>, tableLog: nat)
    requires Symbols(t, norm)
  {
    && ct.tableLog == tableLog && |ct.symbolTT| == |norm|
    && IsStateTable(ct.stateTable, t, norm, |t|)
    && forall s :: 0 <= s < |norm| ==> TransformOf(ct.symbolTT, norm, tableLog, s)
  }

  ghost predicate TransformOf(symbolTT: seq<SymbolTransform>, norm: seq<int>, tableLog: nat, s: nat)
    requires s < |norm| && s < |symbolTT|
  {
    norm[s] != 0 ==> IsTransform(symbolTT[s], Abs(norm[s]), Weight(norm, s), tableLog)
  }

  /** The decoding cell of a position: `nextState` numbers the cells of a symbol from its weight. */
  ghost predicate IsDCell(cell: DCell, s: byte, nextState: nat, tableLog: nat) {
    && nextState > 0 && HighBit(nextState) <= tableLog
    && cell.symbol == s && cell.nbBits == tableLog - HighBit(nextState)
    && cell.newState == Shl(nextState, cell.nbBits) - Pow2(tableLog)
  }

  ghost predicate IsDTable(dt: DTable, t: seq<byte>, norm: seq<int>, tableLog: nat)
    requires Symbols(t, norm)
  {
    && dt.tableLog == tableLog && |dt.cells| == |t|
    && forall u :: 0 <= u < |t| ==> DCellAt(dt.cells, t, norm, tableLog, u)
  }

  ghost predicate DCellAt(cells: seq<DCell>, t: seq<byte>, norm: seq<int>, tableLog: nat, u: nat)
    requires u < |t| && u < |cells| && Symbols(t, norm)
  {
    IsDCell(cells[u], t[u], Abs(norm[t[u]]) + Rank(t, u), tableLog)
  }

  // ----- the arithmetic of one step -----

  /** 2^tableLog lies between half of the smallest full-bits state and that state. */
  lemma {:induction false} MinState(n: nat, tableLog: nat)
    requires 2 <= n <= Pow2(tableLog)
    ensures HighBit(n - 1) < tableLog
    ensures Pow2(tableLog) < Shl(n, tableLog - HighBit(n - 1)) <= Pow2(tableLog + 1)
  {
    var h := HighBit(n - 1);
    if h >= tableLog {
      Pow2Mono(tableLog, h);
    }
    var k := tableLog - h;
    assert Shl(Pow2(h), k) == Pow2(tableLog) by { Pow2Add(h, k); }
    assert Shl(Pow2(h + 1), k) == Pow2(tableLog + 1) by { Pow2Add(h + 1, k); }
    ShlMono(Pow2(h), n, k);
    ShlMono(n, Pow2(h + 1), k);
  }

  /** A value split at 16 bits, below or above the multiple. */
  lemma {:induction false} Shift16Around(k: nat, d: int)
    requires -65536 <= d < 65536 && k * 65536 + d >= 0
    ensures Shr(k * 65536 + d, 16) == if d >= 0 then k else k - 1
  {
    Shift16(k * 65536 + d);
  }

  /** The number of bits taken from a state, for a symbol with n cells. */
  lemma {:induction false} StepBits(tt: SymbolTransform, n: nat, total: nat, tableLog: nat, x: nat)
    requires 2 <= n <= Pow2(tableLog) && tableLog <= 14
    requires IsTransform(tt, n, total, tableLog)
    requires Pow2(tableLog) <= x < Pow2(tableLog + 1)
    ensures var k := tableLog - HighBit(n - 1);
            1 <= k <= tableLog && NbBitsOut(tt, x) == if x >= Shl(n, k) then k else k - 1
  {
    Pow2Small(tableLog + 1);
    MinState(n, tableLog);
    var k := tableLog - HighBit(n - 1);
    Shift16Around(k, x - Shl(n, k));
    assert x + tt.deltaNbBits == k * 65536 + (x - Shl(n, k));
  }

  /** Those bits leave a number among the n cells. */
  lemma {:induction false} StepRange(n: nat, tableLog: nat, x: nat)
    requires 2 <= n <= Pow2(tableLog)
    requires Pow2(tableLog) <= x < Pow2(tableLog + 1)
    ensures var k := tableLog - HighBit(n - 1);
            && 1 <= k
            && (x >= Shl(n, k) ==> n <= Shr(x, k) < 2 * n)
            && (x < Shl(n, k) ==> n <= Shr(x, k - 1) < 2 * n)
  {
    MinState(n, tableLog);
    var h := HighBit(n - 1);
    var k := tableLog - h;
    if x >= Shl(n, k) {
      ShrLower(x, n, k);
      Pow2Add(h + 1, k);
      ShrUpper(x, Pow2(h + 1), k);
    } else {
      ShlAdd(n, 1, k - 1);
      ShrUpper(x, 2 * n, k - 1);
      Pow2Add(h + 1, k - 1);
      ShrLower(x, Pow2(h + 1), k - 1);
    }
  }

  lemma {:induction false} SingleCell(tt: SymbolTransform, total: nat, tableLog: nat, x: nat)
    requires 1 <= tableLog <= 14 && IsTransform(tt, 1, total, tableLog)
    requires Pow2(tableLog) <= x < Pow2(tableLog + 1)
    ensures NbBitsOut(tt, x) == tableLog && Shr(x, tableLog) == 1
  {
    Pow2Small(tableLog + 1);
    Shift16Around(tableLog, x - Pow2(tableLog));
    Pow2Add(0, tableLog);
    Split(x - Pow2(tableLog), 1, tableLog);
  }

  /**
   From any state value, encoding shifts out just enough bits to land among the n cells of the
   symbol, and looks them up where they are stored.
   */
  lemma {:induction false} StepArithmetic(tt: SymbolTransform, n: nat, total: nat, tableLog: nat, x: nat)
    requires 1 <= n <= Pow2(tableLog) && 1 <= tableLog <= 14
    requires IsTransform(tt, n, total, tableLog)
    requires Pow2(tableLog) <= x < Pow2(tableLog + 1)
    ensures NbBitsOut(tt, x) <= tableLog
    ensures n <= Shr(x, NbBitsOut(tt, x)) < 2 * n
    ensures NextIndex(tt, x) == total + (Shr(x, NbBitsOut(tt, x)) - n)
  {
    if n == 1 {
      SingleCell(tt, total, tableLog, x);
    } else {
      StepBits(tt, n, total, tableLog, x);
      StepRange(n, tableLog, x);
    }
  }

  /** The first symbol starts at its first cell. */
  lemma {:induction false} StartArithmetic(tt: SymbolTransform, n: nat, total: nat, tableLog: nat)
    requires 1 <= n <= Pow2(tableLog) && 1 <= tableLog <= 14
    requires IsTransform(tt, n, total, tableLog)
    ensures InitIndex(tt) == total
  {
    if n == 1 {
      Pow2Add(0, tableLog);
      StartFrom(tt, 1, tableLog, tableLog);
    } else {
      MinState(n, tableLog);
      StartFrom(tt, n, tableLog - HighBit(n - 1), tableLog);
    }
  }

  lemma {:induction false} StartFrom(tt: SymbolTransform, n: nat, k: nat, tableLog: nat)
    requires tableLog <= 14 && Shl(n, k) <= Pow2(tableLog + 1)
    requires tt.deltaNbBits == k * 65536 - Shl(n, k)
    ensures InitIndex(tt) == n + tt.deltaFindState
  {
    Pow2Small(tableLog + 1);
    Shift16Around(k, 32768 - Shl(n, k));
    assert tt.deltaNbBits + 32768 == k * 65536 + (32768 - Shl(n, k));
    Shift16(k);
    Split(0, n, k);
  }

  /** Decoding computes back the bits that were shifted out and the state they were taken from. */
  lemma {:induction false} CellArithmetic(cell: DCell, s: byte, x: nat, nb: nat, tableLog: nat)
    requires Pow2(tableLog) <= x < Pow2(tableLog + 1) && nb <= tableLog
    requires IsDCell(cell, s, Shr(x, nb), tableLog)
    ensures cell.nbBits == nb
    ensures cell.newState + Low(x, nb) == Low(x, tableLog) == x - Pow2(tableLog)
  {
    HighBitUnique(x, tableLog);
    HighBitShr(x, nb);
    Join(x, nb);
    Pow2Add(0, tableLog);
    Split(x - Pow2(tableLog), 1, tableLog);
  }

  // ----- the tables of one distribution undo each other -----

  ghost function Alphabet(norm: seq<int>): (a: set<byte>) {
    set s: byte | s < |norm| && norm[s] != 0
  }

  lemma {:induction false} CellOf(t: seq<byte>, s: byte, r: nat) returns (u: nat)
    requires r < Count(t, s)
    ensures u < |t| && t[u] == s && Rank(t, u) == r
  {
    var k := |t| - 1;
    if r < Count(t[..k], s) {
      u := CellOf(t[..k], s, r);
      assert t[..k][..u] == t[..u];
    } else {
      u := k;
    }
  }

  /** A table in which every symbol has as many cells as its weight. */
  ghost predicate Apportioned(t: seq<byte>, norm: seq<int>, tableLog: nat) {
    && 5 <= tableLog <= MAX_TABLELOG && |t| == Pow2(tableLog) && Symbols(t, norm)
    && forall s: byte :: s < |norm| ==> HasShare(t, norm, s)
  }

  ghost predicate HasShare(t: seq<byte>, norm: seq<int>, s: byte)
    requires s < |norm|
  {
    Count(t, s) == Abs(norm[s]) && Weight(norm, s) + Abs(norm[s]) <= |t|
  }

  lemma {:induction false} SpreadApportions(t: seq<byte>, norm: seq<int>, tableLog: nat)
    requires 5 <= tableLog <= MAX_TABLELOG && Normalized(norm, tableLog) && IsSpread(t, norm, tableLog)
    ensures Apportioned(t, norm, tableLog)
  {
    forall s: byte | s < |norm|
      ensures HasShare(t, norm, s)
    {
      SpreadCounts(t, norm, tableLog, s);
      WeightMono(norm, s, |norm|);
    }
    forall u | 0 <= u < |t|
      ensures t[u] < |norm|
    {
      SpreadCounts(t, norm, tableLog, t[u]);
      CountPositive(t, u);
    }
  }

  lemma {:induction false} CountPositive(t: seq<byte>, u: nat)
    requires u < |t|
    ensures Rank(t, u) < Count(t, t[u])
  {
    if u < |t| - 1 {
      var p := t[..|t| - 1];
      CountPositive(p, u);
      assert p[..u] == t[..u];
    }
  }

  /** Entry n + r of a symbol is found, and is the cell that the decoder numbers n + r. */
  lemma {:induction false} LookupCell(ct: CTable, dt: DTable, t: seq<byte>, norm: seq<int>, tableLog: nat,
                                      s: byte, r: nat) returns (u: nat)
    requires Apportioned(t, norm, tableLog)
    requires IsCTable(ct, t, norm, tableLog) && IsDTable(dt, t, norm, tableLog)
    requires s < |norm| && r < Abs(norm[s])
    ensures Weight(norm, s) + r < |ct.stateTable| && u < |dt.cells|
    ensures ct.stateTable[Weight(norm, s) + r] == Pow2(tableLog) + u
    ensures Low(Pow2(tableLog) + u, tableLog) == u
    ensures IsDCell(dt.cells[u], s, Abs(norm[s]) + r, tableLog)
  {
    assert HasShare(t, norm, s);
    u := CellOf(t, s, r);
    assert EntryOf(ct.stateTable, t, norm, u);
    assert DCellAt(dt.cells, t, norm, tableLog, u);
    Pow2Add(0, tableLog);
    Split(u, 1, tableLog);
  }

  /** The law of the codec: decoding undoes encoding, for every symbol and every state. */
  lemma {:induction false} TablesInverse(ct: CTable, dt: DTable, t: seq<byte>, norm: seq<int>, tableLog: nat)
    requires Apportioned(t, norm, tableLog)
    requires IsCTable(ct, t, norm, tableLog) && IsDTable(dt, t, norm, tableLog)
    ensures Inverse(ct, dt, Alphabet(norm), Pow2(tableLog))
  {
    forall s, x: nat | s in Alphabet(norm) && IsState(ct, Pow2(tableLog), x)
      ensures StepUndone(ct, dt, Pow2(tableLog), s, x)
    {
      StepInverse(ct, dt, t, norm, tableLog, s, x);
    }
    forall s | s in Alphabet(norm)
      ensures StartUndone(ct, dt, Pow2(tableLog), s)
    {
      var _ := StartInverse(ct, dt, t, norm, tableLog, s);
    }
  }

  lemma {:induction false} StepInverse(ct: CTable, dt: DTable, t: seq<byte>, norm: seq<int>, tableLog: nat,
                                       s: byte, x: nat)
    requires Apportioned(t, norm, tableLog)
    requires IsCTable(ct, t, norm, tableLog) && IsDTable(dt, t, norm, tableLog)
    requires s in Alphabet(norm) && IsState(ct, Pow2(tableLog), x)
    ensures StepUndone(ct, dt, Pow2(tableLog), s, x)
  {
    var tt, n := ct.symbolTT[s], Abs(norm[s]);
    assert HasShare(t, norm, s) && TransformOf(ct.symbolTT, norm, tableLog, s);
    StepArithmetic(tt, n, Weight(norm, s), tableLog, x);
    var nb := NbBitsOut(tt, x);
    var u := LookupCell(ct, dt, t, norm, tableLog, s, Shr(x, nb) - n);
    CellArithmetic(dt.cells[u], s, x, nb, tableLog);
  }

  lemma {:induction false} StartInverse(ct: CTable, dt: DTable, t: seq<byte>, norm: seq<int>, tableLog: nat, s: byte)
    returns (u: nat)
    requires Apportioned(t, norm, tableLog)
    requires IsCTable(ct, t, norm, tableLog) && IsDTable(dt, t, norm, tableLog)
    requires s in Alphabet(norm)
    ensures StartUndone(ct, dt, Pow2(tableLog), s)
    ensures u == Low(StartValue(ct, s), tableLog) && u < |dt.cells|
    ensures IsDCell(dt.cells[u], s, Abs(norm[s]), tableLog)
  {
    assert HasShare(t, norm, s) && TransformOf(ct.symbolTT, norm, tableLog, s);
    StartArithmetic(ct.symbolTT[s], Abs(norm[s]), Weight(norm, s), tableLog);
    u := LookupCell(ct, dt, t, norm, tableLog, s, 0);
  }

  /** A first symbol is left through at least one bit exactly when it does not own the whole table. */
  lemma {:induction false} StartBits(ct: CTable, dt: DTable, t: seq<byte>, norm: seq<int>, tableLog: nat, s: byte)
    requires Apportioned(t, norm, tableLog)
    requires IsCTable(ct, t, norm, tableLog) && IsDTable(dt, t, norm, tableLog)
    requires s in Alphabet(norm)
    ensures StartUndone(ct, dt, Pow2(tableLog), s)
    ensures Low(StartValue(ct, s), tableLog) < |dt.cells|
    ensures dt.cells[Low(StartValue(ct, s), tableLog)].nbBits >= 1 <==> Abs(norm[s]) < Pow2(tableLog)
  {
    var u := StartInverse(ct, dt, t, norm, tableLog, s);
    assert HasShare(t, norm, s);
    FirstCellBits(Abs(norm[s]), tableLog);
  }

  lemma {:induction false} FirstCellBits(n: nat, tableLog: nat)
    requires 1 <= n <= Pow2(tableLog)
    ensures HighBit(n) <= tableLog && (HighBit(n) < tableLog <==> n < Pow2(tableLog))
  {
    if n < Pow2(tableLog) && HighBit(n) >= tableLog {
      Pow2Mono(tableLog, HighBit(n));
    }
    if n == Pow2(tableLog) {
      HighBitUnique(n, tableLog);
    }
  }

  /** ct is the encoding table of a distribution: built over its one spread of symbols. */
  ghost predicate EncodesWith(ct: CTable, norm: seq<int>, tableLog: nat) {
    Normalized(norm, tableLog) &&
    exists t :: IsSpread(t, norm, tableLog) && Apportioned(t, norm, tableLog) && IsCTable(ct, t, norm, tableLog)
  }

  ghost predicate DecodesWith(dt: DTable, norm: seq<int>, tableLog: nat) {
    Normalized(norm, tableLog) &&
    exists t :: IsSpread(t, norm, tableLog) && Apportioned(t, norm, tableLog) && IsDTable(dt, t, norm, tableLog)
  }

  /**
   The two tables of one distribution undo each other. A state entered by a first symbol is left
   through at least one bit exactly when the symbol does not own the whole table.
   */
  lemma {:induction false} BuiltTablesInverse(ct: CTable, dt: DTable, norm: seq<int>, tableLog: nat)
    requires EncodesWith(ct, norm, tableLog) && DecodesWith(dt, norm, tableLog)
    ensures Inverse(ct, dt, Alphabet(norm), Pow2(tableLog))
    ensures forall s | s in Alphabet(norm) :: LeavesThroughBits(ct, dt, s, Abs(norm[s]) < Pow2(tableLog))
  {
    var t :| IsSpread(t, norm, tableLog) && Apportioned(t, norm, tableLog) && IsCTable(ct, t, norm, tableLog);
    var u :| IsSpread(u, norm, tableLog) && Apportioned(u, norm, tableLog) && IsDTable(dt, u, norm, tableLog);
    SpreadUnique(t, u, norm, tableLog);
    TablesInverse(ct, dt, t, norm, tableLog);
    forall s | s in Alphabet(norm)
      ensures LeavesThroughBits(ct, dt, s, Abs(norm[s]) < Pow2(tableLog))
    {
      StartBits(ct, dt, t, norm, tableLog, s);
    }
  }

  ghost predicate LeavesThroughBits(ct: CTable, dt: DTable, s: byte, bits: bool) {
    && CanStart(ct, s) && Low(StartValue(ct, s), dt.tableLog) < |dt.cells|
    && (dt.cells[Low(StartValue(ct, s), dt.tableLog)].nbBits >= 1 <==> bits)
  }
}
