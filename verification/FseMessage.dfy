/**
 What a message becomes in the bitstream: its symbols are encoded last to first, on two states
 that take turns, and the two final states are added on top.
 */
module FseMessage {
  import opened Numeric
  import opened BitStack
  import opened Bitstream
  import opened FseTable
  import opened Distribution

  /** An encoding and a decoding table that undo each other on an alphabet. */
  datatype Codec = Codec(ct: CTable, dt: DTable, alphabet: set<byte>, base: nat) {
    ghost predicate Valid() {
      Inverse(ct, dt, alphabet, base)
    }

    ghost predicate Encodes(msg: seq<byte>) {
      forall i :: 0 <= i < |msg| ==> msg[i] in alphabet
    }

    ghost predicate State(x: nat) {
      IsState(ct, base, x)
    }
  }

  /** After encoding msg[i..]: the bits, the state of symbol i and the state of symbol i + 1. */
  datatype Encoder = Encoder(bits: Bits, here: nat, next: nat)

  ghost function Start(c: Codec, s: byte): (x: nat)
    requires c.Valid() && s in c.alphabet
    ensures c.State(x) && Low(x, c.dt.tableLog) < |c.dt.cells|
    ensures c.dt.cells[Low(x, c.dt.tableLog)].symbol == s
  {
    assert StartUndone(c.ct, c.dt, c.base, s);
    LowBound(StartValue(c.ct, s), c.dt.tableLog);
    StartValue(c.ct, s)
  }

  /** One call of FSE_encodeSymbol: its bits are added, and the state moves on. */
  ghost function EncodeStep(c: Codec, e: Encoder, s: byte): (r: Encoder)
    requires c.Valid() && s in c.alphabet && e.bits.Ok() && c.State(e.here) && c.State(e.next)
    ensures r.bits.Ok() && c.State(r.here) && c.State(r.next)
    ensures e.bits.len <= r.bits.len <= e.bits.len + MAX_TABLELOG
  {
    assert StepUndone(c.ct, c.dt, c.base, s, e.next);
    Encoder(Push(e.bits, e.next, NbBitsOut(c.ct.symbolTT[s], e.next)), NextValue(c.ct, e.next, s), e.here)
  }

  ghost function EncodeFrom(c: Codec, msg: seq<byte>, i: nat): (e: Encoder)
    requires c.Valid() && c.Encodes(msg) && i + 2 <= |msg|
    ensures e.bits.Ok() && c.State(e.here) && c.State(e.next)
    ensures e.bits.len <= MAX_TABLELOG * (|msg| - 2 - i)
    decreases |msg| - i
  {
    if i + 2 == |msg| then Encoder(EMPTY, Start(c, msg[i]), Start(c, msg[i + 1]))
    else EncodeStep(c, EncodeFrom(c, msg, i + 1), msg[i])
  }

  /** The encoders of all the suffixes of a message, as one sequence. */
  ghost predicate IsTrace(c: Codec, msg: seq<byte>, trace: seq<Encoder>)
    requires c.Valid() && c.Encodes(msg)
  {
    |trace| + 1 == |msg| && forall i :: 0 <= i < |trace| ==> TraceAt(c, msg, trace, i)
  }

  ghost predicate TraceAt(c: Codec, msg: seq<byte>, trace: seq<Encoder>, i: nat)
    requires c.Valid() && c.Encodes(msg) && i < |trace| && i + 2 <= |msg|
  {
    trace[i] == EncodeFrom(c, msg, i)
  }

  lemma {:induction false} TraceExists(c: Codec, msg: seq<byte>) returns (trace: seq<Encoder>)
    requires c.Valid() && c.Encodes(msg) && |msg| >= 2
    ensures IsTrace(c, msg, trace) && trace[0] == EncodeFrom(c, msg, 0)
  {
    trace := seq(|msg| - 1, i requires 0 <= i < |msg| - 1 => EncodeFrom(c, msg, i));
    assert TraceAt(c, msg, trace, 0);
  }

  /** Neighbours of a trace are one step apart, and it starts with the two last symbols. */
  lemma {:induction false} TraceStep(c: Codec, msg: seq<byte>, trace: seq<Encoder>, i: nat)
    requires c.Valid() && c.Encodes(msg) && IsTrace(c, msg, trace) && i < |trace|
    ensures trace[i].bits.Ok() && c.State(trace[i].here) && c.State(trace[i].next)
    ensures trace[i].bits.len <= trace[0].bits.len
    ensures i > 0 ==> trace[i - 1] == EncodeStep(c, trace[i], msg[i - 1])
    ensures i + 2 == |msg| ==> trace[i] == Encoder(EMPTY, Start(c, msg[i]), Start(c, msg[i + 1]))
  {
    assert TraceAt(c, msg, trace, i) && TraceAt(c, msg, trace, 0);
    LengthMono(c, msg, i);
    if i > 0 {
      assert TraceAt(c, msg, trace, i - 1);
    }
  }

  /** All the fields of a compressed message. */
  ghost function MessageBits(c: Codec, msg: seq<byte>): (b: Bits)
    requires c.Valid() && c.Encodes(msg) && |msg| >= 2
    ensures b.Ok()
  {
    var e := EncodeFrom(c, msg, 0);
    Push(Push(e.bits, e.next, c.ct.tableLog), e.here, c.ct.tableLog)
  }

  lemma {:induction false} LengthMono(c: Codec, msg: seq<byte>, i: nat)
    requires c.Valid() && c.Encodes(msg) && i + 2 <= |msg|
    ensures EncodeFrom(c, msg, i).bits.len <= EncodeFrom(c, msg, 0).bits.len
    decreases i
  {
    if i > 0 {
      LengthMono(c, msg, i - 1);
      assert EncodeFrom(c, msg, i - 1) == EncodeStep(c, EncodeFrom(c, msg, i), msg[i - 1]);
    }
  }

  /** What a decoder that has produced msg[..i] must hold. */
  ghost predicate DecodesFrom(e: Encoder, tableLog: nat, bits: Bits, here: nat, next: nat) {
    bits == e.bits && here == Low(e.here, tableLog) && next == Low(e.next, tableLog)
  }

  /** The decoder's states are read back from the top of the stream. */
  lemma {:induction false} DecodeStart(c: Codec, msg: seq<byte>)
    requires c.Valid() && c.Encodes(msg) && |msg| >= 2
    ensures var b, n := MessageBits(c, msg), c.dt.tableLog;
            && n <= b.len && n <= Pop(b, n).len
            && DecodesFrom(EncodeFrom(c, msg, 0), n, Pop(Pop(b, n), n), Top(b, n), Top(Pop(b, n), n))
  {
    var e := EncodeFrom(c, msg, 0);
    var b := Push(e.bits, e.next, c.ct.tableLog);
    PopPush(e.bits, e.next, c.ct.tableLog);
    PopPush(b, e.here, c.ct.tableLog);
  }

  /** Decoding one symbol undoes encoding it: same symbol, same bits, same states. */
  lemma {:induction false} DecodeStep(c: Codec, e: Encoder, s: byte, bits: Bits, here: nat, next: nat)
    requires c.Valid() && s in c.alphabet && e.bits.Ok() && c.State(e.here) && c.State(e.next)
    requires DecodesFrom(EncodeStep(c, e, s), c.dt.tableLog, bits, here, next)
    ensures here < |c.dt.cells|
    ensures var cell := c.dt.cells[here];
            && cell.symbol == s && cell.nbBits <= bits.len && cell.nbBits <= MAX_TABLELOG && bits.Ok()
            && DecodesFrom(e, c.dt.tableLog, Pop(bits, cell.nbBits), next, cell.newState + Top(bits, cell.nbBits))
  {
    assert StepUndone(c.ct, c.dt, c.base, s, e.next);
    LowBound(NextValue(c.ct, e.next, s), c.dt.tableLog);
    PopPush(e.bits, e.next, NbBitsOut(c.ct.symbolTT[s], e.next));
  }

  /** While more bits are left than the last symbols can have used, those symbols are not next. */
  lemma {:induction false} SymbolsLeft(c: Codec, msg: seq<byte>, trace: seq<Encoder>, i: nat)
    requires c.Valid() && c.Encodes(msg) && IsTrace(c, msg, trace) && i < |trace|
    ensures trace[i].bits.len <= MAX_TABLELOG * (|msg| - 2 - i)
    ensures trace[|msg| - 2] == Encoder(EMPTY, Start(c, msg[|msg| - 2]), Start(c, msg[|msg| - 1]))
  {
    assert TraceAt(c, msg, trace, i);
    TraceStep(c, msg, trace, |msg| - 2);
  }
}
