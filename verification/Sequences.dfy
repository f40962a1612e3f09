/**
 The bitstream of a sequences section (section 3.1.1.3.2 of RFC 8878): for each sequence, encoded
 last to first, three FSE states and the extra bits of its literal length, match length and offset.
 */
module Sequences {
  import opened Numeric
  import opened BitStack
  import opened Bitstream
  import opened Distribution
  import opened FseTable
  import opened FseMessage

  const MAX_LL := 35
  const MAX_ML := 52
  const MAX_OFF := 31
  const LL_FSE_LOG := 9
  const ML_FSE_LOG := 9
  const OFF_FSE_LOG := 8

  /** LL_bits: the extra bits of a literal length code. */
  function LLBits(code: byte): (n: nat)
    requires code <= MAX_LL
    ensures n <= 16
  {
    if code < 16 then 0
    else if code < 20 then 1
    else if code < 22 then 2
    else if code < 24 then 3
    else if code == 24 then 4
    else code - 19
  }

  /** ML_bits: the extra bits of a match length code. */
  function MLBits(code: byte): (n: nat)
    requires code <= MAX_ML
    ensures n <= 16
  {
    if code < 32 then 0
    else if code < 36 then 1
    else if code < 38 then 2
    else if code < 40 then 3
    else if code < 42 then 4
    else if code == 42 then 5
    else code - 36
  }

  /** A sequence and its three codes. */
  datatype Sequence = Sequence(llCode: byte, mlCode: byte, ofCode: byte, litLength: nat, mlBase: nat, offBase: nat)

  /** The tables of the three kinds of codes. */
  datatype Tables = Tables(ll: Codec, ml: Codec, of: Codec) {
    ghost predicate Valid() {
      && ll.Valid() && ll.ct.tableLog <= LL_FSE_LOG
      && ml.Valid() && ml.ct.tableLog <= ML_FSE_LOG
      && of.Valid() && of.ct.tableLog <= OFF_FSE_LOG
    }

    ghost predicate Encodes(q: Sequence) {
      && q.llCode in ll.alphabet && q.llCode <= MAX_LL
      && q.mlCode in ml.alphabet && q.mlCode <= MAX_ML
      && q.ofCode in of.alphabet && q.ofCode <= MAX_OFF
    }

    ghost predicate EncodesAll(seqs: seq<Sequence>) {
      forall i :: 0 <= i < |seqs| ==> Encodes(seqs[i])
    }

    ghost predicate States(e: SeqEncoder) {
      e.bits.Ok() && ll.State(e.ll) && ml.State(e.ml) && of.State(e.of)
    }
  }

  /** The fields added so far and the values of the three states. */
  datatype SeqEncoder = SeqEncoder(bits: Bits, ll: nat, ml: nat, of: nat)

  /** FSE_encodeSymbol: the bits that leave the state, and the next state. */
  ghost function PushState(c: Codec, b: Bits, x: nat, s: byte): (r: Bits)
    requires c.Valid() && s in c.alphabet && c.State(x) && b.Ok()
    ensures r.Ok()
  {
    assert StepUndone(c.ct, c.dt, c.base, s, x);
    Push(b, x, NbBitsOut(c.ct.symbolTT[s], x))
  }

  ghost function NextState(c: Codec, x: nat, s: byte): (next: nat)
    requires c.Valid() && s in c.alphabet && c.State(x)
    ensures c.State(next)
  {
    assert StepUndone(c.ct, c.dt, c.base, s, x);
    NextValue(c.ct, x, s)
  }

  /** The three states step to the codes of q, offset first. */
  ghost function PushStates(t: Tables, e: SeqEncoder, q: Sequence): (r: SeqEncoder)
    requires t.Valid() && t.Encodes(q) && t.States(e)
    ensures t.States(r)
  {
    SeqEncoder(PushState(t.ll, PushState(t.ml, PushState(t.of, e.bits, e.of, q.ofCode), e.ml, q.mlCode), e.ll, q.llCode),
               NextState(t.ll, e.ll, q.llCode), NextState(t.ml, e.ml, q.mlCode), NextState(t.of, e.of, q.ofCode))
  }

  /** The extra bits of q, offset last. */
  function PushExtras(b: Bits, q: Sequence): (r: Bits)
    requires b.Ok() && q.llCode <= MAX_LL && q.mlCode <= MAX_ML
    ensures r.Ok()
  {
    Push(Push(Push(b, q.litLength, LLBits(q.llCode)), q.mlBase, MLBits(q.mlCode)), q.offBase, q.ofCode)
  }

  ghost function Begin(t: Tables, q: Sequence): (e: SeqEncoder)
    requires t.Valid() && t.Encodes(q)
    ensures t.States(e)
  {
    SeqEncoder(PushExtras(EMPTY, q), Start(t.ll, q.llCode), Start(t.ml, q.mlCode), Start(t.of, q.ofCode))
  }

  ghost function Step(t: Tables, e: SeqEncoder, q: Sequence): (r: SeqEncoder)
    requires t.Valid() && t.Encodes(q) && t.States(e)
    ensures t.States(r)
  {
    var p := PushStates(t, e, q);
    p.(bits := PushExtras(p.bits, q))
  }

  ghost function EncodeFrom(t: Tables, seqs: seq<Sequence>, i: nat): (e: SeqEncoder)
    requires t.Valid() && t.EncodesAll(seqs) && i < |seqs|
    ensures t.States(e)
    decreases |seqs| - i
  {
    if i + 1 == |seqs| then Begin(t, seqs[i]) else Step(t, EncodeFrom(t, seqs, i + 1), seqs[i])
  }

  /** All the fields of the section: the states are flushed on top. */
  ghost function SectionBits(t: Tables, seqs: seq<Sequence>): (b: Bits)
    requires t.Valid() && t.EncodesAll(seqs) && |seqs| > 0
    ensures b.Ok()
  {
    FlushStates(t, EncodeFrom(t, seqs, 0))
  }

  ghost function FlushStates(t: Tables, e: SeqEncoder): (b: Bits)
    requires t.Valid() && t.States(e)
    ensures b.Ok()
  {
    Push(Push(Push(e.bits, e.ml, t.ml.ct.tableLog), e.of, t.of.ct.tableLog), e.ll, t.ll.ct.tableLog)
  }

  // ----- the encoders of all the suffixes, as one sequence -----

  ghost predicate IsTrace(t: Tables, seqs: seq<Sequence>, trace: seq<SeqEncoder>)
    requires t.Valid() && t.EncodesAll(seqs)
  {
    |trace| == |seqs| && forall i {:trigger TraceAt(t, seqs, trace, i)} :: 0 <= i < |trace| ==> TraceAt(t, seqs, trace, i)
  }

  ghost predicate TraceAt(t: Tables, seqs: seq<Sequence>, trace: seq<SeqEncoder>, i: nat)
    requires t.Valid() && t.EncodesAll(seqs) && i < |trace| && i < |seqs|
  {
    trace[i] == EncodeFrom(t, seqs, i)
  }

  lemma {:induction false} TraceExists(t: Tables, seqs: seq<Sequence>) returns (trace: seq<SeqEncoder>)
    requires t.Valid() && t.EncodesAll(seqs) && |seqs| > 0
    ensures IsTrace(t, seqs, trace) && trace[0] == EncodeFrom(t, seqs, 0)
  {
    trace := seq(|seqs|, i requires 0 <= i < |seqs| => EncodeFrom(t, seqs, i));
    assert TraceAt(t, seqs, trace, 0);
  }

  lemma {:induction false} TraceStep(t: Tables, seqs: seq<Sequence>, trace: seq<SeqEncoder>, i: nat)
    requires t.Valid() && t.EncodesAll(seqs) && IsTrace(t, seqs, trace) && i < |trace|
    ensures t.States(trace[i]) && t.Encodes(seqs[i])
    ensures i + 1 == |seqs| ==> trace[i] == Begin(t, seqs[i])
    ensures i + 1 < |seqs| ==> t.States(trace[i + 1]) && trace[i] == Step(t, trace[i + 1], seqs[i])
  {
    assert TraceAt(t, seqs, trace, i);
    if i + 1 < |seqs| {
      assert TraceAt(t, seqs, trace, i + 1);
    }
  }

  // ----- reading back -----

  /** The decoder's states are the low bits of the encoder's. */
  ghost predicate Reads(t: Tables, e: SeqEncoder, ll: nat, ml: nat, of: nat) {
    ll == Low(e.ll, t.ll.dt.tableLog) && ml == Low(e.ml, t.ml.dt.tableLog) && of == Low(e.of, t.of.dt.tableLog)
  }

  /** The cell of a state carries the symbol, and leads back to the state before with the bits on top. */
  lemma {:induction false} StateBack(c: Codec, b: Bits, x: nat, s: byte)
    requires c.Valid() && s in c.alphabet && c.State(x) && b.Ok()
    ensures Low(NextState(c, x, s), c.dt.tableLog) < |c.dt.cells|
    ensures var cell, p := c.dt.cells[Low(NextState(c, x, s), c.dt.tableLog)], PushState(c, b, x, s);
            && cell.symbol == s && cell.nbBits <= p.len && cell.nbBits <= c.dt.tableLog
            && cell.newState + Top(p, cell.nbBits) == Low(x, c.dt.tableLog) && Pop(p, cell.nbBits) == b
  {
    assert StepUndone(c.ct, c.dt, c.base, s, x);
    LowBound(NextValue(c.ct, x, s), c.dt.tableLog);
    PopPush(b, x, NbBitsOut(c.ct.symbolTT[s], x));
  }

  /** The codes of a sequence are the symbols of the states that its encoding ends in. */
  lemma {:induction false} CodesBack(t: Tables, seqs: seq<Sequence>, trace: seq<SeqEncoder>, i: nat, ll: nat, ml: nat, of: nat)
    requires t.Valid() && t.EncodesAll(seqs) && IsTrace(t, seqs, trace) && i < |trace| && Reads(t, trace[i], ll, ml, of)
    ensures ll < |t.ll.dt.cells| && t.ll.dt.cells[ll].symbol == seqs[i].llCode <= MAX_LL
    ensures ml < |t.ml.dt.cells| && t.ml.dt.cells[ml].symbol == seqs[i].mlCode <= MAX_ML
    ensures of < |t.of.dt.cells| && t.of.dt.cells[of].symbol == seqs[i].ofCode <= MAX_OFF
  {
    TraceStep(t, seqs, trace, i);
    var q := seqs[i];
    if i + 1 < |seqs| {
      var e := trace[i + 1];
      StateBack(t.ll, EMPTY, e.ll, q.llCode);
      StateBack(t.ml, EMPTY, e.ml, q.mlCode);
      StateBack(t.of, EMPTY, e.of, q.ofCode);
    }
  }

  /** The extra bits come back offset first. */
  lemma {:induction false} ExtrasBack(b: Bits, q: Sequence)
    requires b.Ok() && q.llCode <= MAX_LL && q.mlCode <= MAX_ML
    ensures var ofBits, mlBits, llBits := q.ofCode as nat, MLBits(q.mlCode), LLBits(q.llCode);
            var p := PushExtras(b, q);
            && ofBits <= p.len && Top(p, ofBits) == Low(q.offBase, ofBits)
            && mlBits <= Pop(p, ofBits).len && Top(Pop(p, ofBits), mlBits) == Low(q.mlBase, mlBits)
            && llBits <= Pop(Pop(p, ofBits), mlBits).len
            && Top(Pop(Pop(p, ofBits), mlBits), llBits) == Low(q.litLength, llBits)
            && Pop(Pop(Pop(p, ofBits), mlBits), llBits) == b
  {
    var b1 := Push(b, q.litLength, LLBits(q.llCode));
    var b2 := Push(b1, q.mlBase, MLBits(q.mlCode));
    PopPush(b, q.litLength, LLBits(q.llCode));
    PopPush(b1, q.mlBase, MLBits(q.mlCode));
    PopPush(b2, q.offBase, q.ofCode);
  }

  /** The states are at the top of the section, literal lengths first. */
  lemma {:induction false} StatesOnTop(t: Tables, e: SeqEncoder)
    requires t.Valid() && t.States(e)
    ensures var b, ll, of, ml := FlushStates(t, e), t.ll.dt.tableLog, t.of.dt.tableLog, t.ml.dt.tableLog;
            && ll <= b.len && of <= Pop(b, ll).len && ml <= Pop(Pop(b, ll), of).len
            && Reads(t, e, Top(b, ll), Top(Pop(Pop(b, ll), of), ml), Top(Pop(b, ll), of))
            && Pop(Pop(Pop(b, ll), of), ml) == e.bits
  {
    var b1 := Push(e.bits, e.ml, t.ml.ct.tableLog);
    var b2 := Push(b1, e.of, t.of.ct.tableLog);
    PopPush(e.bits, e.ml, t.ml.ct.tableLog);
    PopPush(b1, e.of, t.of.ct.tableLog);
    PopPush(b2, e.ll, t.ll.ct.tableLog);
  }
}
