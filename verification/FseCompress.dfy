/** FSE_compress_usingCTable_generic: two interleaved states, encoding from the last symbol. */
module FseCompress {
  import opened Numeric
  import opened BitStack
  import opened Bitstream
  import opened Distribution
  import opened FseTable
  import opened FseMessage

  /** What the source assumes: the table was built for the symbols of the message. */
  ghost predicate Encoding(c: Codec, ct: CTable, msg: seq<byte>) {
    c.Valid() && c.ct == ct && c.Encodes(msg)
  }

  /** The writer and the two states hold the encoding of msg[i..]. */
  ghost predicate Holds(trace: seq<Encoder>, i: nat, bits: Bits, here: nat, next: nat) {
    i < |trace| && trace[i] == Encoder(bits, here, next)
  }

  /** Room for every intermediate flush when the bounds are not checked. */
  ghost predicate Fits(trace: seq<Encoder>, endPtr: nat) {
    |trace| > 0 && trace[0].bits.len / 8 <= endPtr
  }

  /** FSE_encodeSymbol for symbol i - 1. */
  method EncodeSymbol(bitC: CStream, ct: CTable, value: nat, s: byte, ghost c: Codec, ghost e: Encoder)
    returns (newValue: nat)
    requires bitC.Valid() && bitC.bitPos + MAX_TABLELOG < 8 * bitC.width
    requires c.Valid() && c.ct == ct && s in c.alphabet
    requires e.bits == bitC.pushed && e.next == value && c.State(e.here) && c.State(e.next)
    modifies bitC`container, bitC`bitPos, bitC`pushed
    ensures bitC.Valid() && bitC.bitPos <= old(bitC.bitPos) + MAX_TABLELOG
    ensures EncodeStep(c, e, s) == Encoder(bitC.pushed, newValue, e.here)
  {
    assert StepUndone(c.ct, c.dt, c.base, s, value);
    var nbBitsOut := NbBitsOut(ct.symbolTT[s], value);
    bitC.AddBits(value, nbBitsOut);
    newValue := NextValue(ct, value, s);
  }

  /** FSE_FLUSHBITS. The unchecked flush relies on the whole stream fitting. */
  method Flush(bitC: CStream, fast: bool)
    requires bitC.Valid()
    requires fast ==> bitC.pushed.len / 8 <= bitC.endPtr
    modifies bitC`container, bitC`bitPos, bitC`ptr, bitC.buf
    ensures bitC.Valid() && bitC.bitPos <= 7
  {
    if fast {
      UnclampedPosition(bitC);
      bitC.FlushBitsFast();
    } else {
      bitC.FlushBits();
    }
  }

  lemma {:induction false} UnclampedPosition(bitC: CStream)
    requires bitC.Valid() && bitC.pushed.len / 8 <= bitC.endPtr
    ensures bitC.ptr + bitC.bitPos / 8 <= bitC.endPtr
  {
  }

  /**
   The compressed size, and 0 when the message is too short to be worth it or the stream does not
   fit. Flushing with or without bounds checks, on 32 or 64 bits, gives the same bytes.
   */
  method CompressGeneric(dst: array<byte>, msg: seq<byte>, ct: CTable, width: nat, fast: bool, ghost c: Codec)
    returns (size: nat)
    requires width == 4 || width == 8
    requires Encoding(c, ct, msg)
    requires fast && |msg| >= 2 && dst.Length > width ==>
               EncodeFrom(c, msg, 0).bits.len / 8 <= dst.Length - width
    modifies dst
    ensures |msg| <= 2 || dst.Length <= width ==> size == 0
    ensures |msg| > 2 && dst.Length > width ==>
              (size == 0 <==> (MessageBits(c, msg).len + 1) / 8 >= dst.Length - width)
    ensures size > 0 ==> |msg| > 2 && size <= dst.Length && IsStreamOf(dst[..size], MessageBits(c, msg))
  {
    if |msg| <= 2 || dst.Length <= width {
      return 0;
    }
    var bitC := new CStream(dst, width);
    ghost var trace := TraceExists(c, msg);
    var state1, state2 := EncodeAll(bitC, msg, ct, fast, c, trace);
    size := Finish(bitC, msg, ct, state1, state2, c);
  }

  method EncodeAll(bitC: CStream, msg: seq<byte>, ct: CTable, fast: bool, ghost c: Codec, ghost trace: seq<Encoder>)
    returns (state1: nat, state2: nat)
    requires bitC.Valid() && bitC.pushed == EMPTY && bitC.bitPos == 0
    requires Encoding(c, ct, msg) && |msg| > 2 && IsTrace(c, msg, trace)
    requires fast ==> Fits(trace, bitC.endPtr)
    modifies bitC`container, bitC`bitPos, bitC`ptr, bitC`pushed, bitC.buf
    ensures bitC.Valid() && bitC.bitPos <= 7
    ensures Holds(trace, 0, bitC.pushed, state1, state2)
  {
    var ip;
    ip, state1, state2 := EncodeOdd(bitC, msg, ct, fast, c, trace);
    // join to mod 4
    if bitC.width == 8 && ip % 4 == 2 {
      ip, state1, state2 := EncodeAndFlush(bitC, msg, ct, fast, ip, 1, state1, state2, c, trace);
    }
    state1, state2 := EncodeRest(bitC, msg, ct, fast, ip, if bitC.width == 8 then 2 else 1, state1, state2, c, trace);
  }

  /** The main loop: two or four symbols per iteration. */
  method EncodeRest(bitC: CStream, msg: seq<byte>, ct: CTable, fast: bool, i: nat, pairs: nat,
                    s1: nat, s2: nat, ghost c: Codec, ghost trace: seq<Encoder>)
    returns (state1: nat, state2: nat)
    requires bitC.Valid() && bitC.bitPos <= 7
    requires pairs == 1 || (pairs == 2 && bitC.width == 8)
    requires Encoding(c, ct, msg) && IsTrace(c, msg, trace) && i + 2 <= |msg| && i % 2 == 0 && (pairs == 2 ==> i % 4 == 0)
    requires fast ==> Fits(trace, bitC.endPtr)
    requires Holds(trace, i, bitC.pushed, s1, s2)
    modifies bitC`container, bitC`bitPos, bitC`ptr, bitC`pushed, bitC.buf
    ensures bitC.Valid() && bitC.bitPos <= 7
    ensures Holds(trace, 0, bitC.pushed, state1, state2)
  {
    var ip := i;
    state1, state2 := s1, s2;
    while ip > 0
      invariant bitC.Valid() && bitC.bitPos <= 7
      invariant 0 <= ip && ip + 2 <= |msg| && ip % 2 == 0 && (pairs == 2 ==> ip % 4 == 0)
      invariant Holds(trace, ip, bitC.pushed, state1, state2)
    {
      ip, state1, state2 := EncodeAndFlush(bitC, msg, ct, fast, ip, pairs, state1, state2, c, trace);
    }
  }

  /** One or two pairs of symbols, then a flush. */
  method EncodeAndFlush(bitC: CStream, msg: seq<byte>, ct: CTable, fast: bool, i: nat, pairs: nat,
                        s1: nat, s2: nat, ghost c: Codec, ghost trace: seq<Encoder>)
    returns (ip: nat, state1: nat, state2: nat)
    requires bitC.Valid() && bitC.bitPos <= 7
    requires pairs == 1 || (pairs == 2 && bitC.width == 8)
    requires Encoding(c, ct, msg) && IsTrace(c, msg, trace) && 2 * pairs <= i && i + 2 <= |msg|
    requires fast ==> Fits(trace, bitC.endPtr)
    requires Holds(trace, i, bitC.pushed, s1, s2)
    modifies bitC`container, bitC`bitPos, bitC`ptr, bitC`pushed, bitC.buf
    ensures bitC.Valid() && bitC.bitPos <= 7 && ip == i - 2 * pairs
    ensures Holds(trace, ip, bitC.pushed, state1, state2)
  {
    ip := i;
    state1, state2 := EncodePair(bitC, msg, ct, ip, s1, s2, c, trace);
    ip := ip - 2;
    if pairs == 2 {
      state1, state2 := EncodePair(bitC, msg, ct, ip, state1, state2, c, trace);
      ip := ip - 2;
    }
    assert fast ==> bitC.pushed.len / 8 <= bitC.endPtr by {
      if fast {
        TraceStep(c, msg, trace, ip);
      }
    }
    Flush(bitC, fast);
  }

  /** FSE_flushCState for both states, and the end of the stream. */
  method Finish(bitC: CStream, msg: seq<byte>, ct: CTable, state1: nat, state2: nat, ghost c: Codec)
    returns (size: nat)
    requires bitC.Valid() && bitC.bitPos <= 7
    requires Encoding(c, ct, msg) && |msg| >= 2
    requires EncodeFrom(c, msg, 0) == Encoder(bitC.pushed, state1, state2)
    modifies bitC, bitC.buf
    ensures size == 0 <==> (MessageBits(c, msg).len + 1) / 8 >= bitC.endPtr
    ensures size > 0 ==> size <= bitC.buf.Length && IsStreamOf(bitC.buf[..size], MessageBits(c, msg))
  {
    bitC.AddBits(state2, ct.tableLog);
    bitC.FlushBits();
    bitC.AddBits(state1, ct.tableLog);
    bitC.FlushBits();
    size := bitC.Close();
  }

  /** Two symbols, the one with the odd index on the second state. */
  method EncodePair(bitC: CStream, msg: seq<byte>, ct: CTable, ip: nat, s1: nat, s2: nat, ghost c: Codec, ghost trace: seq<Encoder>)
    returns (state1: nat, state2: nat)
    requires bitC.Valid() && bitC.bitPos + 2 * MAX_TABLELOG < 8 * bitC.width
    requires Encoding(c, ct, msg) && IsTrace(c, msg, trace) && 2 <= ip && ip + 2 <= |msg|
    requires Holds(trace, ip, bitC.pushed, s1, s2)
    modifies bitC`container, bitC`bitPos, bitC`pushed
    ensures bitC.Valid() && bitC.bitPos <= old(bitC.bitPos) + 2 * MAX_TABLELOG
    ensures Holds(trace, ip - 2, bitC.pushed, state1, state2)
  {
    TraceStep(c, msg, trace, ip);
    TraceStep(c, msg, trace, ip - 1);
    state2 := EncodeSymbol(bitC, ct, s2, msg[ip - 1], c, trace[ip]);
    state1 := EncodeSymbol(bitC, ct, s1, msg[ip - 2], c, trace[ip - 1]);
  }

  /** The last two symbols choose the states; with an odd length one more symbol is encoded. */
  method EncodeOdd(bitC: CStream, msg: seq<byte>, ct: CTable, fast: bool, ghost c: Codec, ghost trace: seq<Encoder>)
    returns (ip: nat, state1: nat, state2: nat)
    requires bitC.Valid() && bitC.pushed == EMPTY && bitC.bitPos == 0
    requires Encoding(c, ct, msg) && |msg| > 2 && IsTrace(c, msg, trace)
    requires fast ==> Fits(trace, bitC.endPtr)
    modifies bitC`container, bitC`bitPos, bitC`ptr, bitC`pushed, bitC.buf
    ensures bitC.Valid() && bitC.bitPos <= 7
    ensures ip + 2 <= |msg| && ip % 2 == 0
    ensures Holds(trace, ip, bitC.pushed, state1, state2)
  {
    ip := |msg| - 2;
    if |msg| % 2 == 1 {
      ip, state1, state2 := EncodeThird(bitC, msg, ct, fast, c, trace);
    } else {
      TraceStep(c, msg, trace, ip);
      state2 := InitState(ct, msg[ip + 1], c);
      state1 := InitState(ct, msg[ip], c);
    }
  }

  /** With an odd length the states change places, and the third symbol from the end is encoded. */
  method EncodeThird(bitC: CStream, msg: seq<byte>, ct: CTable, fast: bool, ghost c: Codec, ghost trace: seq<Encoder>)
    returns (ip: nat, state1: nat, state2: nat)
    requires bitC.Valid() && bitC.pushed == EMPTY && bitC.bitPos == 0
    requires Encoding(c, ct, msg) && |msg| > 2 && IsTrace(c, msg, trace)
    requires fast ==> Fits(trace, bitC.endPtr)
    modifies bitC`container, bitC`bitPos, bitC`ptr, bitC`pushed, bitC.buf
    ensures bitC.Valid() && bitC.bitPos <= 7 && ip == |msg| - 3
    ensures Holds(trace, ip, bitC.pushed, state1, state2)
  {
    ip := |msg| - 3;
    TraceStep(c, msg, trace, ip + 1);
    TraceStep(c, msg, trace, ip);
    state1 := InitState(ct, msg[ip + 2], c);
    state2 := InitState(ct, msg[ip + 1], c);
    state1 := EncodeSymbol(bitC, ct, state1, msg[ip], c, trace[ip + 1]);
    Flush(bitC, fast);
  }

  /** FSE_initCState2 */
  function InitState(ct: CTable, s: byte, ghost c: Codec): (value: nat)
    requires c.Valid() && c.ct == ct && s in c.alphabet
    ensures value == Start(c, s)
  {
    assert StartUndone(c.ct, c.dt, c.base, s);
    StartValue(ct, s)
  }
}
