/** FSE_decompress_usingDTable_generic: four symbols per reload, then one at a time to the end. */
module FseDecompress {
  import opened Numeric
  import opened Results
  import opened BitStack
  import opened Bitstream
  import opened Distribution
  import opened FseTable
  import opened FseMessage

  /**
   src holds msg, compressed with tables that are undone by dt. The decoder notices the end by
   reading past it, so the symbol before the last must be left through at least one bit.
   */
  ghost predicate Compressed(src: seq<byte>, dt: DTable, c: Codec, msg: seq<byte>) {
    && c.Valid() && c.dt == dt && c.Encodes(msg) && |msg| > 2
    && IsStreamOf(src, MessageBits(c, msg))
    && var last := Low(Start(c, msg[|msg| - 2]), dt.tableLog);
       dt.cells[last].nbBits >= 1
  }

  /** FSE_decodeSymbol and FSE_decodeSymbolFast */
  method GetSymbol(bitD: DStream, dt: DTable, state: nat, fast: bool) returns (symbol: byte, next: nat)
    requires bitD.Valid() && Closed(dt) && state < |dt.cells| && (fast ==> dt.fastMode)
    modifies bitD`consumed
    ensures symbol == dt.cells[state].symbol && next < |dt.cells|
    ensures bitD.consumed == old(bitD.consumed) + dt.cells[state].nbBits
    ensures bitD.Legal() ==>
              var b, n := old(bitD.Remaining()), dt.cells[state].nbBits;
              n <= b.len && next == dt.cells[state].newState + Top(b, n) && bitD.Remaining() == Pop(b, n)
  {
    var cell := dt.cells[state];
    symbol := cell.symbol;
    var lowBits;
    if fast {
      lowBits := bitD.ReadBitsFast(cell.nbBits);
    } else {
      lowBits := bitD.ReadBits(cell.nbBits);
    }
    next := cell.newState + lowBits;
  }

  /** Having produced msg[..k], the reader and the states stand where the encoder stood. */
  ghost predicate Midway(bitD: DStream, c: Codec, trace: seq<Encoder>, k: nat, here: nat, next: nat)
    reads bitD
  {
    && bitD.Valid() && bitD.Legal() && k < |trace|
    && DecodesFrom(trace[k], c.dt.tableLog, bitD.Remaining(), here, next)
  }

  /** FSE_initDState */
  method InitState(bitD: DStream, dt: DTable) returns (state: nat)
    requires bitD.Valid() && Closed(dt)
    modifies bitD
    ensures bitD.Valid() && state < |dt.cells|
    ensures old(bitD.Legal() && bitD.Ready() && dt.tableLog <= bitD.Remaining().len) ==>
              && state == Top(old(bitD.Remaining()), dt.tableLog)
              && bitD.Legal() && bitD.Ready() && bitD.Remaining() == Pop(old(bitD.Remaining()), dt.tableLog)
  {
    state := bitD.ReadBits(dt.tableLog);
    var _ := bitD.Reload();
  }

  /** What the proof of a successful decoding follows; nothing is known of an arbitrary input. */
  ghost predicate Expected(dt: DTable, c: Codec, msg: seq<byte>, trace: seq<Encoder>) {
    && c.Valid() && c.dt == dt && c.Encodes(msg) && |msg| > 2 && IsTrace(c, msg, trace)
    && var last := Low(Start(c, msg[|msg| - 2]), dt.tableLog);
       dt.cells[last].nbBits >= 1
  }

  ghost predicate OnTrack(good: bool, bitD: DStream, c: Codec, msg: seq<byte>, trace: seq<Encoder>,
                          out: seq<byte>, here: nat, next: nat)
    reads bitD
  {
    good ==> |out| + 2 <= |msg| && out == msg[..|out|] && Midway(bitD, c, trace, |out|, here, next)
  }

  /** The container holds n more bits, or all that is left of the stream. */
  ghost predicate Room(bitD: DStream, n: nat)
    reads bitD
  {
    bitD.consumed + n <= 8 * bitD.width || bitD.ptr == 0
  }

  /** The next symbol. The last but one reads past the end of the stream and leaves the other state. */
  method DecodeOne(dst: array<byte>, op: nat, bitD: DStream, dt: DTable, here: nat, next: nat, fast: bool,
                   ghost good: bool, ghost c: Codec, ghost msg: seq<byte>, ghost trace: seq<Encoder>)
    returns (state: nat)
    requires bitD.Valid() && Closed(dt) && here < |dt.cells| && (fast ==> dt.fastMode) && op < dst.Length
    requires good ==> Expected(dt, c, msg, trace) && Room(bitD, MAX_TABLELOG)
    requires OnTrack(good, bitD, c, msg, trace, dst[..op], here, next)
    modifies dst, bitD`consumed
    ensures state < |dt.cells|
    ensures bitD.consumed <= old(bitD.consumed) + MAX_TABLELOG
    ensures Idle(dt) ==> bitD.consumed == old(bitD.consumed)
    ensures good && op + 2 < |msg| ==> OnTrack(good, bitD, c, msg, trace, dst[..op + 1], next, state)
    ensures good && op + 2 == |msg| ==>
              && !bitD.Legal() && dst[..op + 1] == msg[..op + 1]
              && next < |dt.cells| && dt.cells[next].symbol == msg[op + 1]
  {
    ghost var before := dst[..op];
    if good {
      if op + 2 < |msg| {
        TraceStep(c, msg, trace, op);
        TraceStep(c, msg, trace, op + 1);
        DecodeStep(c, trace[op + 1], msg[op], bitD.Remaining(), here, next);
        assert bitD.consumed + dt.cells[here].nbBits <= 8 * bitD.width;
      } else {
        SymbolsLeft(c, msg, trace, op);
      }
    }
    var symbol;
    symbol, state := GetSymbol(bitD, dt, here, fast);
    dst[op] := symbol;
    assert dst[..op + 1] == before + [symbol];
  }

  /** No cell asks for bits: one symbol owns the whole table. */
  ghost predicate Idle(dt: DTable) {
    forall u :: 0 <= u < |dt.cells| ==> dt.cells[u].nbBits == 0
  }

  datatype Tail = More(state: nat) | Full | Done

  /**
   A step of the tail loop: a symbol, then, if that read past the end of the stream, the symbol of
   the other state and the end.
   */
  method DecodeTailStep(dst: array<byte>, op: nat, bitD: DStream, dt: DTable, here: nat, next: nat, fast: bool,
                        ghost good: bool, ghost c: Codec, ghost msg: seq<byte>, ghost trace: seq<Encoder>)
    returns (t: Tail)
    requires bitD.Valid() && Closed(dt) && here < |dt.cells| && next < |dt.cells| && (fast ==> dt.fastMode)
    requires op <= dst.Length
    requires good ==> Expected(dt, c, msg, trace) && bitD.Ready()
    requires OnTrack(good, bitD, c, msg, trace, dst[..op], here, next)
    modifies dst, bitD
    ensures bitD.Valid()
    ensures t.Full? <==> op + 2 > dst.Length
    ensures t.More? ==> t.state < |dt.cells|
                        && OnTrack(good, bitD, c, msg, trace, dst[..op + 1], next, t.state)
                        && (good ==> bitD.Ready())
    ensures t.Done? && good ==> op + 2 == |msg| && dst[..op + 2] == msg
    ensures t.Full? && good ==> op + 2 <= |msg|
    ensures Idle(dt) && old(bitD.Legal()) ==> !t.Done? && bitD.Legal()
  {
    if op > dst.Length - 2 {
      return Full;
    }
    var state := DecodeOne(dst, op, bitD, dt, here, next, fast, good, c, msg, trace);
    ghost var legal := bitD.Legal();
    var status := bitD.Reload();
    if status == Overflow {
      ghost var before := dst[..op + 1];
      var symbol, _ := GetSymbol(bitD, dt, next, fast);
      dst[op + 1] := symbol;
      assert dst[..op + 2] == before + [symbol];
      return Done;
    }
    t := More(state);
  }

  /** The tail loop, with the two states taking turns. */
  method DecodeTail(dst: array<byte>, start: nat, bitD: DStream, dt: DTable, s1: nat, s2: nat, fast: bool,
                    ghost good: bool, ghost c: Codec, ghost msg: seq<byte>, ghost trace: seq<Encoder>)
    returns (r: Result<nat>)
    requires bitD.Valid() && Closed(dt) && s1 < |dt.cells| && s2 < |dt.cells| && (fast ==> dt.fastMode)
    requires start <= dst.Length
    requires good ==> Expected(dt, c, msg, trace) && bitD.Ready()
    requires OnTrack(good, bitD, c, msg, trace, dst[..start], s1, s2)
    modifies dst, bitD
    ensures r.Ok? ==> start + 2 <= r.value <= dst.Length
    ensures good && |msg| <= dst.Length ==> r == Ok(|msg|) && dst[..|msg|] == msg
    ensures good && |msg| > dst.Length ==> r == Err(DstSizeTooSmall)
    ensures Idle(dt) && old(bitD.Legal()) ==> r == Err(DstSizeTooSmall)
  {
    ghost var idle := Idle(dt) && bitD.Legal();
    var op: nat, state1: nat, state2: nat := start, s1, s2;
    while true
      invariant bitD.Valid() && start <= op <= dst.Length && state1 < |dt.cells| && state2 < |dt.cells|
      invariant good ==> bitD.Ready()
      invariant OnTrack(good, bitD, c, msg, trace, dst[..op], state1, state2)
      invariant idle ==> bitD.Legal()
      decreases dst.Length - op
    {
      var t := DecodeTailStep(dst, op, bitD, dt, state1, state2, fast, good, c, msg, trace);
      if t.Full? {
        return Err(DstSizeTooSmall);
      } else if t.Done? {
        return Ok(op + 2);
      }
      state1, op := t.state, op + 1;
      t := DecodeTailStep(dst, op, bitD, dt, state2, state1, fast, good, c, msg, trace);
      if t.Full? {
        return Err(DstSizeTooSmall);
      } else if t.Done? {
        return Ok(op + 2);
      }
      state2, op := t.state, op + 1;
    }
  }

  /** Two symbols, one from each state. */
  method DecodePair(dst: array<byte>, op: nat, bitD: DStream, dt: DTable, s1: nat, s2: nat, fast: bool,
                    ghost good: bool, ghost c: Codec, ghost msg: seq<byte>, ghost trace: seq<Encoder>)
    returns (state1: nat, state2: nat)
    requires bitD.Valid() && Closed(dt) && s1 < |dt.cells| && s2 < |dt.cells| && (fast ==> dt.fastMode)
    requires op + 2 <= dst.Length
    requires good ==> Expected(dt, c, msg, trace) && op + 4 < |msg| + 1 && Room(bitD, 2 * MAX_TABLELOG)
    requires OnTrack(good, bitD, c, msg, trace, dst[..op], s1, s2)
    modifies dst, bitD`consumed
    ensures bitD.Valid() && state1 < |dt.cells| && state2 < |dt.cells|
    ensures bitD.consumed <= old(bitD.consumed) + 2 * MAX_TABLELOG
    ensures Idle(dt) ==> bitD.consumed == old(bitD.consumed)
    ensures OnTrack(good, bitD, c, msg, trace, dst[..op + 2], state1, state2)
  {
    state1 := DecodeOne(dst, op, bitD, dt, s1, s2, fast, good, c, msg, trace);
    state2 := DecodeOne(dst, op + 1, bitD, dt, s2, state1, fast, good, c, msg, trace);
  }

  /** While a whole container of bits is left, the last symbols are still ahead. */
  lemma {:induction false} SymbolsAhead(bitD: DStream, dt: DTable, c: Codec, msg: seq<byte>, trace: seq<Encoder>,
                                        k: nat, here: nat, next: nat)
    requires Expected(dt, c, msg, trace) && Midway(bitD, c, trace, k, here, next) && bitD.consumed <= 7
    ensures k + (if bitD.width == 8 then 4 else 2) + 2 <= |msg|
  {
    SymbolsLeft(c, msg, trace, k);
  }

  /** The main loop. On 32 bits the container is refilled half way. */
  method DecodeMain(dst: array<byte>, bitD: DStream, dt: DTable, s1: nat, s2: nat, fast: bool,
                    ghost good: bool, ghost c: Codec, ghost msg: seq<byte>, ghost trace: seq<Encoder>)
    returns (op: nat, state1: nat, state2: nat)
    requires bitD.Valid() && Closed(dt) && s1 < |dt.cells| && s2 < |dt.cells| && (fast ==> dt.fastMode)
    requires good ==> Expected(dt, c, msg, trace)
    requires OnTrack(good, bitD, c, msg, trace, dst[..0], s1, s2)
    modifies dst, bitD
    ensures bitD.Valid() && op <= dst.Length && state1 < |dt.cells| && state2 < |dt.cells|
    ensures good ==> bitD.Ready()
    ensures OnTrack(good, bitD, c, msg, trace, dst[..op], state1, state2)
    ensures Idle(dt) && old(bitD.Legal()) ==> bitD.Legal()
  {
    ghost var idle := Idle(dt) && bitD.Legal();
    op, state1, state2 := 0, s1, s2;
    while true
      invariant bitD.Valid() && op <= dst.Length && state1 < |dt.cells| && state2 < |dt.cells|
      invariant OnTrack(good, bitD, c, msg, trace, dst[..op], state1, state2)
      invariant idle ==> bitD.Legal()
      decreases dst.Length - op
    {
      var status := bitD.Reload();
      if status != Unfinished || op >= dst.Length - 3 {
        return;
      }
      if good {
        SymbolsAhead(bitD, dt, c, msg, trace, op, state1, state2);
      }
      state1, state2 := DecodePair(dst, op, bitD, dt, state1, state2, fast, good, c, msg, trace);
      op := op + 2;
      if bitD.width == 4 {
        status := bitD.Reload();
        if status != Unfinished {
          return;
        }
        if good {
          SymbolsAhead(bitD, dt, c, msg, trace, op, state1, state2);
        }
      }
      state1, state2 := DecodePair(dst, op, bitD, dt, state1, state2, fast, good, c, msg, trace);
      op := op + 2;
    }
  }

  /**
   Decodes src into dst. For arbitrary bytes the output stays inside dst; for a compressed message
   the result is that message, or an error exactly when dst is too small for it. A table owned by
   one symbol never reads past the end, so a stream that holds both states always ends in an error.
   */
  method DecompressGeneric(dst: array<byte>, src: seq<byte>, dt: DTable, width: nat, fast: bool,
                           ghost c: Codec, ghost msg: seq<byte>) returns (r: Result<nat>)
    requires width == 4 || width == 8
    requires Closed(dt) && (fast ==> dt.fastMode)
    modifies dst
    ensures r.Ok? ==> r.value <= dst.Length
    ensures Compressed(src, dt, c, msg) && |msg| <= dst.Length ==> r == Ok(|msg|) && dst[..|msg|] == msg
    ensures Compressed(src, dt, c, msg) && |msg| > dst.Length ==> r == Err(DstSizeTooSmall)
    ensures Idle(dt) && HasEndMark(src) && Unread(src).len >= 2 * dt.tableLog ==> r == Err(DstSizeTooSmall)
  {
    ghost var good := Compressed(src, dt, c, msg);
    ghost var trace := [];
    if good {
      trace := TraceExists(c, msg);
      UnreadOfStream(src, MessageBits(c, msg));
      DecodeStart(c, msg);
    }
    var init := DStream.Init(src, width);
    if init.Err? {
      return Err(init.error);
    }
    var bitD := init.value;
    var state1 := InitState(bitD, dt);
    var state2 := InitState(bitD, dt);
    var status := bitD.Reload();
    if status == Overflow {
      return Err(CorruptionDetected);
    }
    var op;
    op, state1, state2 := DecodeMain(dst, bitD, dt, state1, state2, fast, good, c, msg, trace);
    r := DecodeTail(dst, op, bitD, dt, state1, state2, fast, good, c, msg, trace);
  }
}
