/** Sequences end to end: from the match finder's values to the values that the decoder executes. */
module SeqRoundTrip {
  import opened Numeric
  import opened Results
  import opened Bitstream
  import opened Distribution
  import opened FseTable
  import opened FseBuild
  import opened Sequences
  import opened SeqEncode
  import opened SeqDecode
  import opened SeqValues
  import FseMessage

  /** The tables of a distribution, or of a single repeated code, serve for any of the three kinds of codes. */
  lemma {:induction false} BuiltCodec(ct: CTable, dt: DTable, norm: seq<int>, tableLog: nat)
    requires EncodesWith(ct, norm, tableLog) && DecodesWith(dt, norm, tableLog)
    ensures FseMessage.Codec(ct, dt, Alphabet(norm), Pow2(tableLog)).Valid() && ct.tableLog == tableLog
  {
    BuiltTablesInverse(ct, dt, norm, tableLog);
  }

  lemma {:induction false} RleCodec(s: byte)
    ensures FseMessage.Codec(CTableRle(s), DTableRle(s), {s}, 0).Valid() && CTableRle(s).tableLog == 0
  {
    RleInverse(s);
  }

  /** The codes of all the sequences. */
  function CodesOf(stored: seq<Stored>): (seqs: seq<Sequence>)
    requires forall i :: 0 <= i < |stored| ==> Expressible(stored[i])
    ensures AllCoded(seqs, stored)
  {
    seq(|stored|, i requires 0 <= i < |stored| && Expressible(stored[i]) => ToCodes(stored[i]))
  }

  /** What the tables must serve, and the containers hold. */
  ghost predicate Serves(t: Tables, seqs: seq<Sequence>, width: nat, longOffsets: bool, readWidth: nat, readLong: bool) {
    && t.Valid() && t.EncodesAll(seqs) && SeqTables((t.ll.dt, t.ml.dt, t.of.dt)) && OffsetsFit(seqs, width, longOffsets)
    && forall i :: 0 <= i < |seqs| ==> Readable(seqs[i], readWidth, readLong)
  }

  /**
   A section that could be encoded is decoded to the sequences that were found: their literal lengths,
   their match lengths and their offsets.
   */
  method SequencesRoundTrip(stored: seq<Stored>, rep: Rep, cts: (CTable, CTable, CTable), dts: (DTable, DTable, DTable), capacity: nat,
                            width: nat, longOffsets: bool, readWidth: nat, readLong: bool, ghost found: seq<Executed>, ghost t: Tables)
    returns (size: Result<nat>, executed: seq<Executed>)
    requires (width == 4 || width == 8) && (readWidth == 4 || readWidth == 8)
    requires |stored| > 0 && forall i :: 0 <= i < |stored| ==> Expressible(stored[i])
    requires Serves(t, CodesOf(stored), width, longOffsets, readWidth, readLong)
    requires cts == (t.ll.ct, t.ml.ct, t.of.ct) && dts == (t.ll.dt, t.ml.dt, t.of.dt)
    requires |found| == |stored| && AllStored(stored, found, rep)
    ensures size.Ok? ==> executed == found
  {
    var seqs := CodesOf(stored);
    var dst := new byte[capacity](_ => 0);
    size := EncodeSequences(dst, cts, seqs, width, longOffsets, t);
    executed := [];
    if size.Ok? {
      var fields := DecodeSequences(dst[..size.value], dts, |stored|, readWidth, readLong, t, seqs);
      FieldsWellFormed(fields.value, seqs, stored);
      SectionMeans(fields.value, seqs, stored, found, rep);
      executed := Execute(fields.value, 0, rep);
    }
  }
}
