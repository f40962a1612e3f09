/** ZSTD_encodeSequences_body: the flush schedule never lets the accumulator overflow. */
module SeqEncode {
  import opened Numeric
  import opened Results
  import opened BitStack
  import opened Bitstream
  import opened Distribution
  import opened FseTable
  import FseMessage
  import opened Sequences

  /** STREAM_ACCUMULATOR_MIN: the bits that always fit after a flush. */
  function AccumulatorMin(width: nat): (n: nat) {
    if width == 4 then 25 else 57
  }

  /** On 32 bits, offsets wider than 24 bits need the long offsets mode. */
  ghost predicate OffsetsFit(seqs: seq<Sequence>, width: nat, longOffsets: bool) {
    forall i :: 0 <= i < |seqs| ==> OffsetFits(seqs[i], width, longOffsets)
  }

  predicate OffsetFits(q: Sequence, width: nat, longOffsets: bool) {
    width == 4 && !longOffsets ==> q.ofCode <= 24
  }

  /** FSE_encodeSymbol for one of the three states. */
  method EncodeSymbol(s: CStream, ct: CTable, x: nat, code: byte, ghost c: FseMessage.Codec) returns (next: nat)
    requires s.Valid() && c.Valid() && c.ct == ct && code in c.alphabet && c.State(x)
    requires s.bitPos + ct.tableLog < 8 * s.width
    modifies s`container, s`bitPos, s`pushed
    ensures s.Valid() && s.bitPos <= old(s.bitPos) + ct.tableLog
    ensures s.pushed == PushState(c, old(s.pushed), x, code) && next == NextState(c, x, code)
  {
    assert StepUndone(c.ct, c.dt, c.base, code, x);
    s.AddBits(x, NbBitsOut(ct.symbolTT[code], x));
    next := NextValue(ct, x, code);
  }

  /** The extra bits of an offset; a long one in two parts, low bits first. */
  method AddOffset(s: CStream, q: Sequence, longOffsets: bool)
    requires s.Valid() && q.ofCode <= MAX_OFF && OffsetFits(q, s.width, longOffsets)
    requires s.bitPos + Min(q.ofCode, AccumulatorMin(s.width) - 1) < 8 * s.width
    requires q.ofCode < AccumulatorMin(s.width) || s.bitPos <= 7
    modifies s`container, s`bitPos, s`ptr, s`pushed, s.buf
    ensures s.Valid() && s.bitPos <= 7
    ensures s.pushed == Push(old(s.pushed), q.offBase, q.ofCode)
  {
    if longOffsets {
      var extraBits := q.ofCode - Min(q.ofCode, AccumulatorMin(s.width) - 1);
      if extraBits > 0 {
        s.AddBits(q.offBase, extraBits);
        s.FlushBits();
        s.AddBits(Shr(q.offBase, extraBits), q.ofCode - extraBits);
        PushSplit(old(s.pushed), q.offBase, extraBits, q.ofCode - extraBits);
      } else {
        s.AddBits(Shr(q.offBase, extraBits), q.ofCode - extraBits);
      }
    } else {
      s.AddBits(q.offBase, q.ofCode);
    }
    s.FlushBits();
  }

  /** FSE_initCState2 */
  function FirstState(ct: CTable, code: byte, ghost c: FseMessage.Codec): (x: nat)
    requires c.Valid() && c.ct == ct && code in c.alphabet
    ensures x == FseMessage.Start(c, code)
  {
    assert StartUndone(c.ct, c.dt, c.base, code);
    StartValue(ct, code)
  }

  /** The last sequence of the section, which is encoded first, chooses the states. */
  method EncodeFirst(s: CStream, q: Sequence, longOffsets: bool)
    requires s.Valid() && s.pushed == EMPTY && s.bitPos == 0
    requires q.llCode <= MAX_LL && q.mlCode <= MAX_ML && q.ofCode <= MAX_OFF && OffsetFits(q, s.width, longOffsets)
    modifies s`container, s`bitPos, s`ptr, s`pushed, s.buf
    ensures s.Valid() && s.bitPos <= 7 && s.pushed == PushExtras(EMPTY, q)
  {
    s.AddBits(q.litLength, LLBits(q.llCode));
    if s.width == 4 {
      s.FlushBits();
    }
    s.AddBits(q.mlBase, MLBits(q.mlCode));
    if s.width == 4 {
      s.FlushBits();
    }
    AddOffset(s, q, longOffsets);
  }

  /** The three states step to the codes of q. */
  method EncodeStates(s: CStream, q: Sequence, ll: nat, ml: nat, of: nat, ghost t: Tables, cts: (CTable, CTable, CTable))
    returns (ll': nat, ml': nat, of': nat)
    requires s.Valid() && s.bitPos <= 7 && t.Valid() && t.Encodes(q) && cts == (t.ll.ct, t.ml.ct, t.of.ct)
    requires t.States(SeqEncoder(s.pushed, ll, ml, of))
    modifies s`container, s`bitPos, s`ptr, s`pushed, s.buf
    ensures s.Valid() && s.bitPos <= (if s.width == 4 || q.ofCode + MLBits(q.mlCode) + LLBits(q.llCode) >= 31 then 7 else 33)
    ensures SeqEncoder(s.pushed, ll', ml', of') == PushStates(t, SeqEncoder(old(s.pushed), ll, ml, of), q)
  {
    of' := EncodeSymbol(s, cts.2, of, q.ofCode, t.of);
    ml' := EncodeSymbol(s, cts.1, ml, q.mlCode, t.ml);
    if s.width == 4 {
      s.FlushBits();
    }
    ll' := EncodeSymbol(s, cts.0, ll, q.llCode, t.ll);
    if s.width == 4 || q.ofCode + MLBits(q.mlCode) + LLBits(q.llCode) >= 64 - 7 - (LL_FSE_LOG + ML_FSE_LOG + OFF_FSE_LOG) {
      s.FlushBits();
    }
  }

  /** The extra bits of q. */
  method EncodeExtras(s: CStream, q: Sequence, longOffsets: bool)
    requires s.Valid() && q.llCode <= MAX_LL && q.mlCode <= MAX_ML && q.ofCode <= MAX_OFF && OffsetFits(q, s.width, longOffsets)
    requires s.bitPos <= (if s.width == 4 || q.ofCode + MLBits(q.mlCode) + LLBits(q.llCode) >= 31 then 7 else 33)
    modifies s`container, s`bitPos, s`ptr, s`pushed, s.buf
    ensures s.Valid() && s.bitPos <= 7 && s.pushed == PushExtras(old(s.pushed), q)
  {
    var llBits, mlBits := LLBits(q.llCode), MLBits(q.mlCode);
    s.AddBits(q.litLength, llBits);
    if s.width == 4 && llBits + mlBits > 24 {
      s.FlushBits();
    }
    s.AddBits(q.mlBase, mlBits);
    if s.width == 4 || q.ofCode + mlBits + llBits > 56 {
      s.FlushBits();
    }
    AddOffset(s, q, longOffsets);
  }

  method EncodeLast(s: CStream, q: Sequence, longOffsets: bool, ghost t: Tables, cts: (CTable, CTable, CTable))
    returns (ll: nat, ml: nat, of: nat)
    requires s.Valid() && s.pushed == EMPTY && s.bitPos == 0
    requires t.Valid() && t.Encodes(q) && cts == (t.ll.ct, t.ml.ct, t.of.ct) && OffsetFits(q, s.width, longOffsets)
    modifies s`container, s`bitPos, s`ptr, s`pushed, s.buf
    ensures s.Valid() && s.bitPos <= 7 && SeqEncoder(s.pushed, ll, ml, of) == Begin(t, q)
  {
    ml := FirstState(cts.1, q.mlCode, t.ml);
    of := FirstState(cts.2, q.ofCode, t.of);
    ll := FirstState(cts.0, q.llCode, t.ll);
    EncodeFirst(s, q, longOffsets);
  }

  method EncodeOne(s: CStream, q: Sequence, ll: nat, ml: nat, of: nat, longOffsets: bool, ghost t: Tables, cts: (CTable, CTable, CTable))
    returns (ll': nat, ml': nat, of': nat)
    requires s.Valid() && s.bitPos <= 7 && t.Valid() && t.Encodes(q) && cts == (t.ll.ct, t.ml.ct, t.of.ct)
    requires t.States(SeqEncoder(s.pushed, ll, ml, of)) && OffsetFits(q, s.width, longOffsets)
    modifies s`container, s`bitPos, s`ptr, s`pushed, s.buf
    ensures s.Valid() && s.bitPos <= 7
    ensures SeqEncoder(s.pushed, ll', ml', of') == Step(t, SeqEncoder(old(s.pushed), ll, ml, of), q)
  {
    ll', ml', of' := EncodeStates(s, q, ll, ml, of, t, cts);
    EncodeExtras(s, q, longOffsets);
  }

  /** FSE_flushCState */
  method FlushState(s: CStream, x: nat, tableLog: nat)
    requires s.Valid() && s.bitPos <= 7 && tableLog <= MAX_TABLELOG
    modifies s`container, s`bitPos, s`ptr, s`pushed, s.buf
    ensures s.Valid() && s.bitPos <= 7 && s.pushed == Push(old(s.pushed), x, tableLog)
  {
    s.AddBits(x, tableLog);
    s.FlushBits();
  }

  /**
   Encodes a sequences section. The result is an error exactly when the section does not fit, and
   else the section's bytes, on 32 and on 64 bits, with and without long offsets.
   */
  method EncodeSequences(dst: array<byte>, cts: (CTable, CTable, CTable), seqs: seq<Sequence>, width: nat, longOffsets: bool,
                         ghost t: Tables) returns (r: Result<nat>)
    requires width == 4 || width == 8
    requires t.Valid() && t.EncodesAll(seqs) && |seqs| > 0 && cts == (t.ll.ct, t.ml.ct, t.of.ct)
    requires OffsetsFit(seqs, width, longOffsets)
    modifies dst
    ensures r.Err? <==> dst.Length <= width || (SectionBits(t, seqs).len + 1) / 8 >= dst.Length - width
    ensures r.Err? ==> r.error == DstSizeTooSmall
    ensures r.Ok? ==> r.value <= dst.Length && IsStreamOf(dst[..r.value], SectionBits(t, seqs))
  {
    if dst.Length <= width {
      return Err(DstSizeTooSmall);
    }
    var s := new CStream(dst, width);
    ghost var trace := TraceExists(t, seqs);
    var ll, ml, of := EncodeAll(s, cts, seqs, longOffsets, t, trace);
    FlushState(s, ml, cts.1.tableLog);
    FlushState(s, of, cts.2.tableLog);
    FlushState(s, ll, cts.0.tableLog);
    var size := s.Close();
    r := if size == 0 then Err(DstSizeTooSmall) else Ok(size);
  }

  method EncodeNext(s: CStream, cts: (CTable, CTable, CTable), seqs: seq<Sequence>, n: nat, ll: nat, ml: nat, of: nat,
                    longOffsets: bool, ghost t: Tables, ghost trace: seq<SeqEncoder>) returns (ll': nat, ml': nat, of': nat)
    requires s.Valid() && s.bitPos <= 7 && n + 1 < |seqs|
    requires t.Valid() && t.EncodesAll(seqs) && cts == (t.ll.ct, t.ml.ct, t.of.ct) && IsTrace(t, seqs, trace)
    requires OffsetsFit(seqs, s.width, longOffsets)
    requires trace[n + 1] == SeqEncoder(s.pushed, ll, ml, of)
    modifies s`container, s`bitPos, s`ptr, s`pushed, s.buf
    ensures s.Valid() && s.bitPos <= 7
    ensures trace[n] == SeqEncoder(s.pushed, ll', ml', of')
  {
    TraceStep(t, seqs, trace, n);
    assert OffsetFits(seqs[n], s.width, longOffsets);
    ll', ml', of' := EncodeOne(s, seqs[n], ll, ml, of, longOffsets, t, cts);
  }

  method EncodeAll(s: CStream, cts: (CTable, CTable, CTable), seqs: seq<Sequence>, longOffsets: bool,
                   ghost t: Tables, ghost trace: seq<SeqEncoder>) returns (ll: nat, ml: nat, of: nat)
    requires s.Valid() && s.pushed == EMPTY && s.bitPos == 0
    requires t.Valid() && t.EncodesAll(seqs) && |seqs| > 0 && cts == (t.ll.ct, t.ml.ct, t.of.ct) && IsTrace(t, seqs, trace)
    requires OffsetsFit(seqs, s.width, longOffsets)
    modifies s`container, s`bitPos, s`ptr, s`pushed, s.buf
    ensures s.Valid() && s.bitPos <= 7
    ensures trace[0] == SeqEncoder(s.pushed, ll, ml, of)
  {
    var n := |seqs| - 1;
    TraceStep(t, seqs, trace, n);
    assert OffsetFits(seqs[n], s.width, longOffsets);
    ll, ml, of := EncodeLast(s, seqs[n], longOffsets, t, cts);
    while n > 0
      invariant 0 <= n < |seqs| && s.Valid() && s.bitPos <= 7
      invariant trace[n] == SeqEncoder(s.pushed, ll, ml, of)
    {
      n := n - 1;
      ll, ml, of := EncodeNext(s, cts, seqs, n, ll, ml, of, longOffsets, t, trace);
    }
  }
}
