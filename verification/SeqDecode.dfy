/** The reading side of ZSTD_decodeSequence: reloads always come in time, and every field comes back. */
module SeqDecode {
  import opened Numeric
  import opened Results
  import opened BitStack
  import opened Bitstream
  import opened Distribution
  import opened FseTable
  import opened Sequences
  import FseMessage

  const LONG_OFFSETS_MAX_EXTRA_BITS_32 := 5

  /** The codes of a sequence and the extra bits of each. */
  datatype Fields = Fields(llCode: byte, mlCode: byte, ofCode: byte, llExtra: nat, mlExtra: nat, ofExtra: nat)

  function FieldsOf(q: Sequence): (f: Fields)
    requires q.llCode <= MAX_LL && q.mlCode <= MAX_ML
  {
    Fields(q.llCode, q.mlCode, q.ofCode,
           Low(q.litLength, LLBits(q.llCode)), Low(q.mlBase, MLBits(q.mlCode)), Low(q.offBase, q.ofCode))
  }

  /** On 32 bits, at most 25 bits can be read after a reload, and 30 with the long offsets mode. */
  predicate Readable(q: Sequence, width: nat, longOffsets: bool) {
    width == 4 ==> q.ofCode <= (if longOffsets then 30 else 25)
  }

  /** At most n bits of the container are used, or it is the last one. */
  ghost predicate Used(d: DStream, n: nat)
    reads d
  {
    d.consumed <= n || d.ptr == 0
  }

  /** b is what is left to read. */
  ghost predicate Left(d: DStream, b: Bits)
    reads d
  {
    d.Valid() && d.Legal() && d.Remaining() == b
  }

  method Reload(d: DStream, ghost good: bool, ghost b: Bits)
    requires d.Valid() && (good ==> Left(d, b))
    modifies d
    ensures d.Valid() && (good ==> Left(d, b) && Used(d, 7))
  {
    var _ := d.Reload();
  }

  /** n bits: with BIT_readBitsFast, and none at all for n == 0. */
  method ReadExtra(d: DStream, n: nat, ghost good: bool, ghost b: Bits, ghost used: nat) returns (v: nat)
    requires d.Valid() && n <= 31
    requires good ==> Left(d, b) && n <= b.len && Used(d, used) && used + n <= 8 * d.width
    modifies d`consumed
    ensures d.Valid() && v < Pow2(n)
    ensures good ==> b.Ok() && n <= b.len && v == Top(b, n) && Left(d, Pop(b, n)) && Used(d, used + n)
  {
    if n == 0 {
      if good {
        LowSmall(b.val, b.len);
      }
      return 0;
    }
    v := d.ReadBitsFast(n);
  }

  /** The extra bits of an offset; on 32 bits a long one in two parts, high bits first. */
  method ReadOffset(d: DStream, ofBits: nat, longOffsets: bool, ghost good: bool, ghost b: Bits) returns (v: nat)
    requires d.Valid() && ofBits <= MAX_OFF
    requires good ==> Left(d, b) && ofBits <= b.len && Used(d, 7)
    requires good && d.width == 4 ==> ofBits <= if longOffsets then 30 else 25
    modifies d
    ensures d.Valid()
    ensures good ==> b.Ok() && ofBits <= b.len && v == Top(b, ofBits) && Left(d, Pop(b, ofBits))
    ensures good ==> Used(d, if d.width == 4 then 12 else 7 + ofBits)
  {
    if ofBits > 1 {
      if d.width == 4 && longOffsets && ofBits >= 25 {
        var extraBits := LONG_OFFSETS_MAX_EXTRA_BITS_32;
        if good {
          PopSplit(b, extraBits, ofBits - extraBits);
        }
        var high := ReadExtra(d, ofBits - extraBits, good, b, 7);
        ghost var rest := if good then Pop(b, ofBits - extraBits) else EMPTY;
        Reload(d, good, rest);
        var low := ReadExtra(d, extraBits, good, rest, 7);
        v := Shl(high, extraBits) + low;
      } else {
        v := ReadExtra(d, ofBits, good, b, 7);
        if d.width == 4 {
          Reload(d, good, if good then Pop(b, ofBits) else EMPTY);
        }
      }
    } else {
      v := ReadExtra(d, ofBits, good, b, 7);
    }
  }

  /** The extra bits of a sequence: offset, match length, literal length. */
  method ReadExtras(d: DStream, ofBits: nat, mlBits: nat, llBits: nat, longOffsets: bool, ghost good: bool, ghost b: Bits, ghost q: Sequence)
    returns (ofExtra: nat, mlExtra: nat, llExtra: nat)
    requires d.Valid() && ofBits <= MAX_OFF && mlBits <= 16 && llBits <= 16
    requires good ==> b.Ok() && q.llCode <= MAX_LL && q.mlCode <= MAX_ML && Readable(q, d.width, longOffsets)
    requires good ==> ofBits == q.ofCode && mlBits == MLBits(q.mlCode) && llBits == LLBits(q.llCode)
    requires good ==> Left(d, PushExtras(b, q)) && Used(d, 7)
    modifies d
    ensures d.Valid()
    ensures good ==> Left(d, b) && Used(d, if d.width == 4 then 7 else 37)
    ensures good ==> ofExtra == Low(q.offBase, ofBits) && mlExtra == Low(q.mlBase, mlBits) && llExtra == Low(q.litLength, llBits)
  {
    ghost var b0, b1, b2 := b, b, b;
    if good {
      ExtrasBack(b, q);
      b0 := PushExtras(b, q);
      b1 := Pop(b0, ofBits);
      b2 := Pop(b1, mlBits);
    }
    ofExtra := ReadOffset(d, ofBits, longOffsets, good, b0);
    mlExtra := ReadExtra(d, mlBits, good, b1, if d.width == 4 then 12 else 7 + ofBits);
    if d.width == 4 && mlBits + llBits >= 25 - LONG_OFFSETS_MAX_EXTRA_BITS_32 {
      Reload(d, good, b2);
    }
    if d.width == 8 && llBits + mlBits + ofBits >= 57 - (LL_FSE_LOG + ML_FSE_LOG + OFF_FSE_LOG) {
      Reload(d, good, b2);
    }
    llExtra := ReadExtra(d, llBits, good, b2, if d.width == 4 then (if mlBits + llBits >= 20 then 7 else 12 + mlBits)
                                              else (if llBits + mlBits + ofBits >= 31 then 7 else 7 + ofBits + mlBits));
    if d.width == 4 {
      Reload(d, good, b);
    }
  }

  /** ZSTD_updateFseStateWithDInfo */
  method UpdateState(d: DStream, dt: DTable, state: nat, ghost good: bool, ghost c: FseMessage.Codec, ghost b: Bits, ghost x: nat, ghost s: byte, ghost used: nat)
    returns (next: nat)
    requires d.Valid() && Closed(dt) && state < |dt.cells|
    requires good ==> c.Valid() && c.dt == dt && s in c.alphabet && c.State(x) && b.Ok()
    requires good ==> state == Low(NextState(c, x, s), dt.tableLog)
    requires good ==> Left(d, PushState(c, b, x, s)) && Used(d, used) && used + dt.tableLog <= 8 * d.width
    modifies d`consumed
    ensures d.Valid() && next < |dt.cells|
    ensures good ==> Left(d, b) && Used(d, used + dt.tableLog) && next == Low(x, dt.tableLog)
  {
    if good {
      StateBack(c, b, x, s);
    }
    var lowBits := d.ReadBits(dt.cells[state].nbBits);
    next := dt.cells[state].newState + lowBits;
  }

  /** The states before the sequence: literal length, match length, offset. */
  method UpdateStates(d: DStream, dts: (DTable, DTable, DTable), ll: nat, ml: nat, of: nat,
                      ghost good: bool, ghost t: Tables, ghost e: SeqEncoder, ghost q: Sequence) returns (ll': nat, ml': nat, of': nat)
    requires d.Valid() && Closed(dts.0) && Closed(dts.1) && Closed(dts.2)
    requires ll < |dts.0.cells| && ml < |dts.1.cells| && of < |dts.2.cells|
    requires good ==> t.Valid() && t.Encodes(q) && t.States(e) && dts == (t.ll.dt, t.ml.dt, t.of.dt)
    requires good ==> Reads(t, PushStates(t, e, q), ll, ml, of)
    requires good ==> Left(d, PushStates(t, e, q).bits) && Used(d, if d.width == 4 then 7 else 37)
    modifies d
    ensures d.Valid() && ll' < |dts.0.cells| && ml' < |dts.1.cells| && of' < |dts.2.cells|
    ensures good ==> Left(d, e.bits) && Used(d, 7) && Reads(t, e, ll', ml', of')
  {
    ghost var b1, b2 := EMPTY, EMPTY;
    if good {
      b1 := PushState(t.of, e.bits, e.of, q.ofCode);
      b2 := PushState(t.ml, b1, e.ml, q.mlCode);
    }
    ll' := UpdateState(d, dts.0, ll, good, t.ll, b2, e.ll, q.llCode, if d.width == 4 then 7 else 37);
    ml' := UpdateState(d, dts.1, ml, good, t.ml, b1, e.ml, q.mlCode, if d.width == 4 then 16 else 46);
    if d.width == 4 {
      Reload(d, good, b1);
    }
    of' := UpdateState(d, dts.2, of, good, t.of, e.bits, e.of, q.ofCode, if d.width == 4 then 7 else 55);
    Reload(d, good, e.bits);
  }

  /** Decoding tables for the three kinds of codes, as their builders make them. */
  ghost predicate SeqTables(dts: (DTable, DTable, DTable)) {
    && Closed(dts.0) && (forall u :: 0 <= u < |dts.0.cells| ==> dts.0.cells[u].symbol <= MAX_LL)
    && Closed(dts.1) && (forall u :: 0 <= u < |dts.1.cells| ==> dts.1.cells[u].symbol <= MAX_ML)
    && Closed(dts.2) && (forall u :: 0 <= u < |dts.2.cells| ==> dts.2.cells[u].symbol <= MAX_OFF)
  }

  ghost predicate InTables(dts: (DTable, DTable, DTable), ll: nat, ml: nat, of: nat) {
    ll < |dts.0.cells| && ml < |dts.1.cells| && of < |dts.2.cells|
  }

  /** What a successful decoding follows; nothing is known of an arbitrary input. */
  ghost predicate Expected(dts: (DTable, DTable, DTable), t: Tables, seqs: seq<Sequence>, trace: seq<SeqEncoder>, width: nat, longOffsets: bool) {
    && t.Valid() && t.EncodesAll(seqs) && IsTrace(t, seqs, trace) && dts == (t.ll.dt, t.ml.dt, t.of.dt)
    && forall i :: 0 <= i < |seqs| ==> Readable(seqs[i], width, longOffsets)
  }

  /** The reader stands where the encoder of seqs[k..] stood, or at the end. */
  ghost predicate Midway(d: DStream, t: Tables, trace: seq<SeqEncoder>, k: nat, ll: nat, ml: nat, of: nat)
    reads d
  {
    if k < |trace| then Left(d, trace[k].bits) && Used(d, 7) && Reads(t, trace[k], ll, ml, of)
    else Left(d, EMPTY)
  }

  /** ZSTD_decodeSequence: the fields of one sequence; the states are left alone after the last one. */
  method DecodeSequence(d: DStream, dts: (DTable, DTable, DTable), ll: nat, ml: nat, of: nat, longOffsets: bool, isLast: bool,
                        ghost good: bool, ghost t: Tables, ghost seqs: seq<Sequence>, ghost trace: seq<SeqEncoder>, ghost k: nat)
    returns (f: Fields, ll': nat, ml': nat, of': nat)
    requires d.Valid() && SeqTables(dts) && InTables(dts, ll, ml, of)
    requires good ==> Expected(dts, t, seqs, trace, d.width, longOffsets) && k < |seqs| && (isLast <==> k + 1 == |seqs|)
    requires good ==> Midway(d, t, trace, k, ll, ml, of)
    modifies d
    ensures d.Valid() && InTables(dts, ll', ml', of')
    ensures f.llCode == dts.0.cells[ll].symbol && f.mlCode == dts.1.cells[ml].symbol && f.ofCode == dts.2.cells[of].symbol
    ensures good ==> t.Encodes(seqs[k]) && f == FieldsOf(seqs[k]) && Midway(d, t, trace, k + 1, ll', ml', of')
  {
    var llCode, mlCode, ofCode := dts.0.cells[ll].symbol, dts.1.cells[ml].symbol, dts.2.cells[of].symbol;
    ghost var q := Sequence(llCode, mlCode, ofCode, 0, 0, 0);
    ghost var b := EMPTY;
    if good {
      TraceStep(t, seqs, trace, k);
      CodesBack(t, seqs, trace, k, ll, ml, of);
      q := seqs[k];
      b := if isLast then EMPTY else PushStates(t, trace[k + 1], q).bits;
    }
    var ofExtra, mlExtra, llExtra := ReadExtras(d, ofCode, MLBits(mlCode), LLBits(llCode), longOffsets, good, b, q);
    f := Fields(llCode, mlCode, ofCode, llExtra, mlExtra, ofExtra);
    ll', ml', of' := ll, ml, of;
    if !isLast {
      ll', ml', of' := UpdateStates(d, dts, ll, ml, of, good, t, if good then trace[k + 1] else SeqEncoder(EMPTY, 0, 0, 0), q);
    }
  }

  /** ZSTD_initFseState */
  method InitState(d: DStream, dt: DTable, ghost good: bool, ghost b: Bits) returns (state: nat)
    requires d.Valid() && Closed(dt)
    requires good ==> Left(d, b) && dt.tableLog <= b.len && Used(d, 8) && dt.tableLog <= 9
    modifies d
    ensures d.Valid() && state < |dt.cells|
    ensures good ==> b.Ok() && dt.tableLog <= b.len && state == Top(b, dt.tableLog) && Left(d, Pop(b, dt.tableLog)) && Used(d, 7)
  {
    state := d.ReadBits(dt.tableLog);
    Reload(d, good, if good then Pop(b, dt.tableLog) else EMPTY);
  }

  method InitStates(d: DStream, dts: (DTable, DTable, DTable), ghost good: bool, ghost t: Tables, ghost e: SeqEncoder)
    returns (ll: nat, ml: nat, of: nat)
    requires d.Valid() && SeqTables(dts)
    requires good ==> t.Valid() && t.States(e) && dts == (t.ll.dt, t.ml.dt, t.of.dt)
    requires good ==> Left(d, FlushStates(t, e)) && Used(d, 8)
    modifies d
    ensures d.Valid() && InTables(dts, ll, ml, of)
    ensures good ==> Left(d, e.bits) && Used(d, 7) && Reads(t, e, ll, ml, of)
  {
    ghost var b0, b1, b2 := EMPTY, EMPTY, EMPTY;
    if good {
      StatesOnTop(t, e);
      b0 := FlushStates(t, e);
      b1 := Pop(b0, t.ll.dt.tableLog);
      b2 := Pop(b1, t.of.dt.tableLog);
    }
    ll := InitState(d, dts.0, good, b0);
    of := InitState(d, dts.2, good, b1);
    ml := InitState(d, dts.1, good, b2);
  }

  /** src holds these sequences, encoded with tables that dts undoes, and the reader's container is wide enough for them. */
  ghost predicate HoldsSequences(src: seq<byte>, dts: (DTable, DTable, DTable), t: Tables, seqs: seq<Sequence>, width: nat, longOffsets: bool) {
    && t.Valid() && t.EncodesAll(seqs) && |seqs| > 0 && dts == (t.ll.dt, t.ml.dt, t.of.dt)
    && (forall i :: 0 <= i < |seqs| ==> Readable(seqs[i], width, longOffsets))
    && IsStreamOf(src, SectionBits(t, seqs))
  }

  ghost predicate AllFields(out: seq<Fields>, seqs: seq<Sequence>) {
    |out| <= |seqs| && forall i :: 0 <= i < |out| ==> FieldsAt(out, seqs, i)
  }

  ghost predicate FieldsAt(out: seq<Fields>, seqs: seq<Sequence>, i: nat)
    requires i < |out| <= |seqs|
  {
    seqs[i].llCode <= MAX_LL && seqs[i].mlCode <= MAX_ML && out[i] == FieldsOf(seqs[i])
  }

  lemma {:induction false} NextField(out: seq<Fields>, f: Fields, seqs: seq<Sequence>)
    requires AllFields(out, seqs) && |out| < |seqs|
    requires seqs[|out|].llCode <= MAX_LL && seqs[|out|].mlCode <= MAX_ML && f == FieldsOf(seqs[|out|])
    ensures AllFields(out + [f], seqs)
  {
    forall i | 0 <= i < |out| + 1 ensures FieldsAt(out + [f], seqs, i) {
      if i < |out| {
        assert FieldsAt(out, seqs, i);
      }
    }
  }

  method DecodeAll(d: DStream, dts: (DTable, DTable, DTable), ll0: nat, ml0: nat, of0: nat, nbSeq: nat, longOffsets: bool,
                   ghost good: bool, ghost t: Tables, ghost seqs: seq<Sequence>, ghost trace: seq<SeqEncoder>) returns (out: seq<Fields>)
    requires d.Valid() && SeqTables(dts) && InTables(dts, ll0, ml0, of0) && nbSeq > 0
    requires good ==> Expected(dts, t, seqs, trace, d.width, longOffsets) && nbSeq == |seqs| && Midway(d, t, trace, 0, ll0, ml0, of0)
    modifies d
    ensures d.Valid() && |out| == nbSeq
    ensures good ==> Left(d, EMPTY) && AllFields(out, seqs)
  {
    var ll, ml, of := ll0, ml0, of0;
    out := [];
    while |out| < nbSeq
      invariant d.Valid() && InTables(dts, ll, ml, of) && |out| <= nbSeq
      invariant good ==> Midway(d, t, trace, |out|, ll, ml, of) && AllFields(out, seqs)
      decreases nbSeq - |out|
    {
      var f;
      f, ll, ml, of := DecodeSequence(d, dts, ll, ml, of, longOffsets, |out| + 1 == nbSeq, good, t, seqs, trace, |out|);
      if good {
        NextField(out, f, seqs);
      }
      out := out + [f];
    }
  }

  /**
   The bitstream part of ZSTD_decompressSequences_body. A section gives back the codes and the extra
   bits of all its sequences, and is read to its exact end.
   */
  method DecodeSequences(src: seq<byte>, dts: (DTable, DTable, DTable), nbSeq: nat, width: nat, longOffsets: bool,
                         ghost t: Tables, ghost seqs: seq<Sequence>) returns (r: Result<seq<Fields>>)
    requires (width == 4 || width == 8) && SeqTables(dts)
    ensures r.Ok? ==> |r.value| == nbSeq
    ensures r.Err? ==> r.error == CorruptionDetected
    ensures HoldsSequences(src, dts, t, seqs, width, longOffsets) && nbSeq == |seqs| ==> r.Ok? && AllFields(r.value, seqs)
  {
    if nbSeq == 0 {
      return Ok([]);
    }
    ghost var good := HoldsSequences(src, dts, t, seqs, width, longOffsets) && nbSeq == |seqs|;
    ghost var trace := [];
    if good {
      trace := TraceExists(t, seqs);
      UnreadOfStream(src, SectionBits(t, seqs));
    }
    var init := DStream.Init(src, width);
    if init.Err? {
      return Err(CorruptionDetected);
    }
    var d := init.value;
    var ll, ml, of := InitStates(d, dts, good, t, if good then trace[0] else SeqEncoder(EMPTY, 0, 0, 0));
    var out := DecodeAll(d, dts, ll, ml, of, nbSeq, longOffsets, good, t, seqs, trace);
    if !d.EndOfDStream() {
      return Err(CorruptionDetected);
    }
    r := Ok(out);
  }
}
