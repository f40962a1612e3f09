/**
 From sequences to codes and back: the codes of a literal length, a match length and an offset with
 their extra bits give the values back, and the encoder and the decoder keep the same history of
 recent offsets (section 3.1.1.5 of RFC 8878).
 */
module SeqValues {
  import opened Numeric
  import opened Sequences
  import opened SeqDecode

  const MINMATCH := 3

  // ----- lengths -----

  /** ZSTD_LLcode. A literal length above 65535 takes the last code, as ZSTD_seqToCodes arranges. */
  function LLCode(litLength: nat): (code: nat)
  {
    if litLength > 63 then HighBit(litLength) + 19
    else if litLength < 16 then litLength
    else if litLength < 24 then 16 + (litLength - 16) / 2
    else if litLength < 32 then 20 + (litLength - 24) / 4
    else if litLength < 48 then 22 + (litLength - 32) / 8
    else 24
  }

  /** LL_base */
  function LLBase(code: byte): (b: nat)
    requires code <= MAX_LL
  {
    if code < 16 then code
    else if code < 20 then 16 + 2 * (code - 16)
    else if code < 22 then 24 + 4 * (code - 20)
    else if code < 24 then 32 + 8 * (code - 22)
    else if code == 24 then 48
    else Pow2(code - 19)
  }

  /** ZSTD_MLcode, for a match length less MINMATCH. */
  function MLCode(mlBase: nat): (code: nat)
  {
    if mlBase > 127 then HighBit(mlBase) + 36
    else if mlBase < 32 then mlBase
    else if mlBase < 40 then 32 + (mlBase - 32) / 2
    else if mlBase < 48 then 36 + (mlBase - 40) / 4
    else if mlBase < 64 then 38 + (mlBase - 48) / 8
    else if mlBase < 96 then 40 + (mlBase - 64) / 16
    else 42
  }

  /** ML_base */
  function MLBase(code: byte): (b: nat)
    requires code <= MAX_ML
  {
    MINMATCH +
    if code < 32 then code
    else if code < 36 then 32 + 2 * (code - 32)
    else if code < 38 then 40 + 4 * (code - 36)
    else if code < 40 then 48 + 8 * (code - 38)
    else if code < 42 then 64 + 16 * (code - 40)
    else if code == 42 then 96
    else Pow2(code - 36)
  }

  lemma {:induction false} SmallLow(x: nat)
    ensures Low(x, 0) == 0 && Low(x, 1) == x % 2 && Low(x, 2) == x % 4 && Low(x, 3) == x % 8
    ensures Low(x, 4) == x % 16 && Low(x, 5) == x % 32
  {
    assert Pow2(4) == 16 && Pow2(5) == 32;
    ShrIsDiv(x, 1);
    ShrIsDiv(x, 2);
    ShrIsDiv(x, 3);
    ShrIsDiv(x, 4);
    ShrIsDiv(x, 5);
  }

  /** A number is its highest bit and the bits below it. */
  lemma {:induction false} HighAndLow(x: nat)
    requires x > 0
    ensures Pow2(HighBit(x)) + Low(x, HighBit(x)) == x
  {
    var h := HighBit(x);
    Pow2Add(0, h);
    Split(x - Pow2(h), 1, h);
  }

  lemma {:induction false} HighBitRange(x: nat, low: nat, high: nat)
    requires Pow2(low) <= x < Pow2(high + 1)
    ensures low <= HighBit(x) <= high
  {
    if HighBit(x) < low {
      Pow2Mono(HighBit(x) + 1, low);
    } else if HighBit(x) > high {
      Pow2Mono(high + 1, HighBit(x));
    }
  }

  lemma {:induction false} Powers()
    ensures Pow2(2) == 4 && Pow2(6) == 64 && Pow2(7) == 128 && Pow2(17) == 0x20000
  {
    Pow2Literals();
    assert Pow2(17) == 2 * Pow2(16);
  }

  lemma {:induction false} LongLength(x: nat, low: nat)
    requires Pow2(low) <= x < 0x20000
    ensures low <= HighBit(x) <= 16 && Pow2(HighBit(x)) + Low(x, HighBit(x)) == x
  {
    Powers();
    HighBitRange(x, low, 16);
    HighAndLow(x);
  }

  /** Every literal length below 2^17 is its base and its extra bits; code 0 is the empty one. */
  lemma {:induction false} LiteralLengthBack(litLength: nat)
    requires litLength < 0x20000
    ensures LLCode(litLength) <= MAX_LL
    ensures LLBase(LLCode(litLength)) + Low(litLength, LLBits(LLCode(litLength))) == litLength
    ensures LLBase(LLCode(litLength)) == 0 <==> litLength == 0
  {
    if litLength > 63 {
      var h := HighBit(litLength);
      assert 6 <= h <= 16 && Pow2(h) + Low(litLength, h) == litLength by {
        Powers();
        LongLength(litLength, 6);
      }
    } else {
      SmallLow(litLength);
    }
  }

  lemma {:induction false} MatchLengthBack(mlBase: nat)
    requires mlBase < 0x20000
    ensures MLCode(mlBase) <= MAX_ML
    ensures MLBase(MLCode(mlBase)) + Low(mlBase, MLBits(MLCode(mlBase))) == mlBase + MINMATCH
  {
    if mlBase > 127 {
      var h := HighBit(mlBase);
      assert 7 <= h <= 16 && Pow2(h) + Low(mlBase, h) == mlBase by {
        Powers();
        LongLength(mlBase, 7);
      }
      assert MLBits(h + 36) == h && MLBase(h + 36) == MINMATCH + Pow2(h);
    } else {
      ShortMatch(mlBase);
    }
  }

  lemma {:induction false} ShortMatch(mlBase: nat)
    requires mlBase <= 127
    ensures MLCode(mlBase) <= MAX_ML
    ensures MLBase(MLCode(mlBase)) + Low(mlBase, MLBits(MLCode(mlBase))) == mlBase + MINMATCH
  {
    SmallLow(mlBase);
    if mlBase < 40 {
      assert MLBits(MLCode(mlBase)) <= 1;
    } else if mlBase < 64 {
      assert MLBits(MLCode(mlBase)) == if mlBase < 48 then 2 else 3;
    } else {
      assert MLBits(MLCode(mlBase)) == if mlBase < 96 then 4 else 5;
    }
  }

  // ----- offsets -----

  /** The three most recent offsets. */
  datatype Rep = Rep(r0: nat, r1: nat, r2: nat)

  function RepAt(rep: Rep, i: nat): (r: nat) {
    if i == 0 then rep.r0 else if i == 1 then rep.r1 else rep.r2
  }

  /** ZSTD_updateRep: the encoder's history, from the sum of repeat codes 1 to 3 and offsets plus 3. */
  function UpdateRep(rep: Rep, offBase: nat, ll0: bool): (r: Rep)
    requires offBase > 0
  {
    if offBase > 3 then Rep(offBase - 3, rep.r0, rep.r1)
    else
      var repCode := offBase - 1 + (if ll0 then 1 else 0);
      if repCode > 0 then
        var currentOffset := if repCode == 3 then (if rep.r0 > 0 then rep.r0 - 1 else 0) else RepAt(rep, repCode);
        Rep(currentOffset, rep.r0, if repCode >= 2 then rep.r1 else rep.r2)
      else rep
  }

  /** OF_base */
  function OFBase(code: byte): (b: int)
    requires code <= MAX_OFF
  {
    if code == 0 then 0 else if code == 1 then 1 else Pow2(code) - 3
  }

  /** The offset part of ZSTD_decodeSequence: the decoder's history from the extra bits. */
  function DecodeOffset(prev: Rep, ofCode: byte, extra: nat, ll0: bool): (r: Rep)
    requires ofCode <= MAX_OFF && (ofCode <= 1 || OFBase(ofCode) + extra >= 0)
  {
    if ofCode > 1 then Rep(OFBase(ofCode) + extra, prev.r0, prev.r1)
    else if ofCode == 0 then
      var i := if ll0 then 1 else 0;
      Rep(RepAt(prev, i), RepAt(prev, 1 - i), prev.r2)
    else
      var offset := OFBase(ofCode) + (if ll0 then 1 else 0) + extra;
      var temp := if offset == 3 then prev.r0 - 1 else RepAt(prev, offset);
      // an offset of 0 is forced to -1, which the execution of the sequence rejects
      var valid := if temp <= 0 then 0xFFFF_FFFF_FFFF_FFFF else temp;
      Rep(valid, prev.r0, if offset != 1 then prev.r1 else prev.r2)
  }

  /** The decoder makes of the extra bits what the encoder made of the offset. */
  lemma {:induction false} HistoryAgrees(rep: Rep, offBase: nat, ll0: bool)
    requires offBase > 0 && HighBit(offBase) <= MAX_OFF && UpdateRep(rep, offBase, ll0).r0 > 0
    ensures var code: byte, extra := HighBit(offBase), Low(offBase, HighBit(offBase));
            && (code <= 1 || OFBase(code) + extra >= 0)
            && DecodeOffset(rep, code, extra, ll0) == UpdateRep(rep, offBase, ll0)
  {
    HighAndLow(offBase);
    if offBase <= 3 {
      SmallLow(offBase);
    } else {
      Powers();
      HighBitRange(offBase, 2, HighBit(offBase));
    }
  }

  // ----- what an offset is stored as -----

  /** A sequence as the match finder stores it. */
  datatype Stored = Stored(litLength: nat, mlBase: nat, offBase: nat)

  /** A sequence as it is found in the input, and as it is executed to give the input back. */
  datatype Executed = Executed(litLength: nat, matchLength: nat, offset: nat)

  /**
   Section 3.1.1.5 of RFC 8878: a value above 3 is an offset plus 3; the values 1 to 3 repeat a
   recent offset, counted from the second one when there are no literals.
   */
  ghost predicate StandsFor(offBase: nat, rep: Rep, ll0: bool, offset: nat) {
    || offBase == offset + 3
    || (offBase == 1 && offset == if ll0 then rep.r1 else rep.r0)
    || (offBase == 2 && offset == if ll0 then rep.r2 else rep.r1)
    || (offBase == 3 && offset == if ll0 then rep.r0 - 1 else rep.r2)
  }

  function Recent(rep: Rep): (offsets: seq<nat>) {
    [rep.r0, rep.r1, rep.r2]
  }

  /** The recent offset that is repeated, or else the oldest one. */
  function Leaving(offBase: nat, ll0: bool): (i: nat)
    ensures i < 3
  {
    var i := offBase - 1 + if ll0 then 1 else 0;
    if 0 <= i < 3 then i else 2
  }

  /** An offset that is used goes first; the one it repeats, or else the oldest one, leaves its place. */
  function After(rep: Rep, offBase: nat, ll0: bool, offset: nat): (next: Rep)
    ensures var i := Leaving(offBase, ll0);
            Recent(next) == [offset] + Recent(rep)[..i] + Recent(rep)[i + 1..]
  {
    var i := Leaving(offBase, ll0);
    Rep(offset, if i == 0 then rep.r1 else rep.r0, if i == 2 then rep.r1 else rep.r2)
  }

  /** The encoder's history has the offset that was meant in front. */
  lemma {:induction false} UpdateMeans(rep: Rep, offBase: nat, ll0: bool, offset: nat)
    requires offset > 0 && StandsFor(offBase, rep, ll0, offset)
    ensures offBase > 0 && UpdateRep(rep, offBase, ll0) == After(rep, offBase, ll0, offset)
  {
  }

  // ----- whole sections -----

  /** The values that the format can express. */
  predicate Expressible(s: Stored) {
    s.litLength < 0x20000 && s.mlBase < 0x20000 && s.offBase > 0 && HighBit(s.offBase) <= MAX_OFF
  }

  /** ZSTD_storeSeq: a sequence stored while the recent offsets are `rep`; a match has at least 3 bytes. */
  ghost predicate Stores(s: Stored, f: Executed, rep: Rep) {
    && s.litLength == f.litLength && s.mlBase + 3 == f.matchLength
    && f.offset > 0 && StandsFor(s.offBase, rep, f.litLength == 0, f.offset)
  }

  function Next(rep: Rep, s: Stored, f: Executed): (next: Rep) {
    After(rep, s.offBase, f.litLength == 0, f.offset)
  }

  /** The recent offsets before sequence k. */
  ghost function HistoryAt(stored: seq<Stored>, found: seq<Executed>, rep: Rep, k: nat): (r: Rep)
    requires k <= |stored| <= |found|
  {
    if k == 0 then rep else Next(HistoryAt(stored, found, rep, k - 1), stored[k - 1], found[k - 1])
  }

  ghost predicate StoredAt(stored: seq<Stored>, found: seq<Executed>, rep: Rep, k: nat)
    requires k < |stored| <= |found|
  {
    Stores(stored[k], found[k], HistoryAt(stored, found, rep, k))
  }

  /** The first sequences found, as they are stored from the recent offsets `rep`. */
  ghost predicate AllStored(stored: seq<Stored>, found: seq<Executed>, rep: Rep) {
    |stored| <= |found| && forall i {:trigger StoredAt(stored, found, rep, i)} :: 0 <= i < |stored| ==> StoredAt(stored, found, rep, i)
  }

  /** ZSTD_seqToCodes for one sequence. */
  function ToCodes(s: Stored): (q: Sequence)
    requires Expressible(s)
    ensures q.llCode <= MAX_LL && q.mlCode <= MAX_ML && q.ofCode <= MAX_OFF
  {
    LiteralLengthBack(s.litLength);
    MatchLengthBack(s.mlBase);
    Sequence(LLCode(s.litLength), MLCode(s.mlBase), HighBit(s.offBase), s.litLength, s.mlBase, s.offBase)
  }

  ghost predicate AllCoded(seqs: seq<Sequence>, stored: seq<Stored>) {
    |seqs| == |stored| && forall i :: 0 <= i < |stored| ==> Expressible(stored[i]) && seqs[i] == ToCodes(stored[i])
  }

  predicate WellFormed(f: Fields) {
    f.llCode <= MAX_LL && f.mlCode <= MAX_ML && f.ofCode <= MAX_OFF && (f.ofCode <= 1 || OFBase(f.ofCode) + f.ofExtra >= 0)
  }

  /** What the decoder executes from sequence k on. */
  function Execute(fields: seq<Fields>, k: nat, prev: Rep): (out: seq<Executed>)
    requires k <= |fields| && forall i :: 0 <= i < |fields| ==> WellFormed(fields[i])
    decreases |fields| - k
  {
    if k == |fields| then []
    else
      assert WellFormed(fields[k]);
      var f := fields[k];
      var next := DecodeOffset(prev, f.ofCode, f.ofExtra, LLBase(f.llCode) == 0);
      [Executed(LLBase(f.llCode) + f.llExtra, MLBase(f.mlCode) + f.mlExtra, next.r0)] + Execute(fields, k + 1, next)
  }

  lemma {:induction false} FieldsWellFormed(fields: seq<Fields>, seqs: seq<Sequence>, stored: seq<Stored>)
    requires |fields| == |seqs| && AllFields(fields, seqs) && AllCoded(seqs, stored)
    ensures forall i :: 0 <= i < |fields| ==> WellFormed(fields[i])
  {
    forall i | 0 <= i < |fields| ensures WellFormed(fields[i]) {
      assert FieldsAt(fields, seqs, i);
      HighAndLow(stored[i].offBase);
    }
  }

  /** One sequence: its fields give back its lengths and its offset, and the history that follows. */
  lemma {:induction false} SequenceMeans(s: Stored, f: Executed, rep: Rep)
    requires Expressible(s) && Stores(s, f, rep)
    ensures var q := ToCodes(s);
            && LLBase(q.llCode) + Low(s.litLength, LLBits(q.llCode)) == f.litLength
            && MLBase(q.mlCode) + Low(s.mlBase, MLBits(q.mlCode)) == f.matchLength
            && (LLBase(q.llCode) == 0 <==> f.litLength == 0)
            && (q.ofCode <= 1 || OFBase(q.ofCode) + Low(s.offBase, q.ofCode) >= 0)
            && DecodeOffset(rep, q.ofCode, Low(s.offBase, q.ofCode), f.litLength == 0) == Next(rep, s, f)
  {
    LiteralLengthBack(s.litLength);
    MatchLengthBack(s.mlBase);
    UpdateMeans(rep, s.offBase, f.litLength == 0, f.offset);
    HistoryAgrees(rep, s.offBase, f.litLength == 0);
  }

  lemma {:induction false} FieldsMean(fields: seq<Fields>, seqs: seq<Sequence>, stored: seq<Stored>, k: nat, f: Executed, before: Rep)
    requires |fields| == |seqs| && AllFields(fields, seqs) && AllCoded(seqs, stored)
    requires forall i :: 0 <= i < |fields| ==> WellFormed(fields[i])
    requires k < |stored| && Stores(stored[k], f, before)
    ensures Execute(fields, k, before) == [f] + Execute(fields, k + 1, Next(before, stored[k], f))
  {
    assert FieldsAt(fields, seqs, k);
    SequenceMeans(stored[k], f, before);
  }

  /** From sequence k on, execution gives the k-th sequence found and goes on in step with the history. */
  ghost predicate MeansAt(fields: seq<Fields>, stored: seq<Stored>, found: seq<Executed>, rep: Rep, k: nat)
    requires k < |fields| == |stored| == |found| && forall i :: 0 <= i < |fields| ==> WellFormed(fields[i])
  {
    Execute(fields, k, HistoryAt(stored, found, rep, k)) ==
    [found[k]] + Execute(fields, k + 1, HistoryAt(stored, found, rep, k + 1))
  }

  lemma {:induction false} Collect(fields: seq<Fields>, stored: seq<Stored>, found: seq<Executed>, rep: Rep, k: nat)
    requires k <= |fields| == |stored| == |found| && forall i :: 0 <= i < |fields| ==> WellFormed(fields[i])
    requires forall i {:trigger MeansAt(fields, stored, found, rep, i)} :: 0 <= i < |fields| ==> MeansAt(fields, stored, found, rep, i)
    ensures Execute(fields, k, HistoryAt(stored, found, rep, k)) == found[k..]
    decreases |stored| - k
  {
    if k < |stored| {
      assert MeansAt(fields, stored, found, rep, k);
      Collect(fields, stored, found, rep, k + 1);
    }
  }

  /** Executing the fields of a section gives the sequences that were found, from any common history. */
  lemma {:induction false} SectionMeans(fields: seq<Fields>, seqs: seq<Sequence>, stored: seq<Stored>, found: seq<Executed>, rep: Rep)
    requires |fields| == |seqs| && AllFields(fields, seqs) && AllCoded(seqs, stored)
    requires forall i :: 0 <= i < |fields| ==> WellFormed(fields[i])
    requires |stored| == |found| && AllStored(stored, found, rep)
    ensures Execute(fields, 0, rep) == found
  {
    forall k | 0 <= k < |fields| ensures MeansAt(fields, stored, found, rep, k) {
      assert StoredAt(stored, found, rep, k);
      FieldsMean(fields, seqs, stored, k, found[k], HistoryAt(stored, found, rep, k));
    }
    Collect(fields, stored, found, rep, 0);
  }
}
