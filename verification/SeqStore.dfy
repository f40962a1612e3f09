/**
 How sequences found by a caller are stored: ZSTD_transferSequences_wBlockDelim, which may look for
 repeated offsets or store every offset in full. Either way the decoder's history stays in step.
 */
module SeqStore {
  import opened Numeric
  import opened Results
  import opened SeqValues

  /** A sequence that the format can express: its match has at least 3 bytes, its offset is not 0. */
  predicate Findable(f: Executed) {
    f.litLength < 0x20000 && 3 <= f.matchLength < 0x20003 && 0 < f.offset < 0xFFFF_FFFD
  }

  /** The end of a block is marked by a sequence without a match. */
  predicate IsDelimiter(f: Executed) {
    f.matchLength == 0 && f.offset == 0
  }

  /** ZSTD_finalizeOffBase: prefers a repeated offset. */
  function FinalizeOffBase(rawOffset: nat, rep: Rep, ll0: bool): (offBase: nat)
  {
    var l := if ll0 then 1 else 0;
    if !ll0 && rawOffset == rep.r0 then 1
    else if rawOffset == rep.r1 then 2 - l
    else if rawOffset == rep.r2 then 3 - l
    else if ll0 && rawOffset == (if rep.r0 > 0 then rep.r0 - 1 else 0xFFFF_FFFF) then 3
    else rawOffset + 3
  }

  /** It stands for the offset, and is an offset in full exactly when no value from 1 to 3 stands for it. */
  lemma {:induction false} FinalizeMeans(rawOffset: nat, rep: Rep, ll0: bool)
    requires 0 < rawOffset < 0xFFFF_FFFF
    ensures StandsFor(FinalizeOffBase(rawOffset, rep, ll0), rep, ll0, rawOffset)
    ensures FinalizeOffBase(rawOffset, rep, ll0) > 3 <==> forall i | 1 <= i <= 3 :: !StandsFor(i, rep, ll0, rawOffset)
  {
    assert StandsFor(1, rep, ll0, rawOffset) <==> rawOffset == if ll0 then rep.r1 else rep.r0;
    assert StandsFor(2, rep, ll0, rawOffset) <==> rawOffset == if ll0 then rep.r2 else rep.r1;
    assert StandsFor(3, rep, ll0, rawOffset) <==> rawOffset == if ll0 then rep.r0 - 1 else rep.r2;
  }

  lemma {:induction false} OffBaseFits(offBase: nat)
    requires 0 < offBase < 0x1_0000_0000
    ensures HighBit(offBase) <= 31
  {
    Pow2Literals();
    Pow2Add(16, 16);
    assert Pow2(32) == 65536 * 65536 by { ShlIsMul(Pow2(16), 16); }
    if HighBit(offBase) > 31 {
      Pow2Mono(32, HighBit(offBase));
    }
  }

  lemma {:induction false} HistoryPrefix(a: seq<Stored>, b: seq<Stored>, found: seq<Executed>, rep: Rep, k: nat)
    requires k <= |a| <= |b| <= |found| && a == b[..|a|]
    ensures HistoryAt(a, found, rep, k) == HistoryAt(b, found, rep, k)
  {
    if k > 0 {
      HistoryPrefix(a, b, found, rep, k - 1);
    }
  }

  /** One more sequence. */
  lemma {:induction false} StoreNext(stored: seq<Stored>, s: Stored, found: seq<Executed>, rep: Rep)
    requires |stored| < |found| && AllStored(stored, found, rep)
    requires Stores(s, found[|stored|], HistoryAt(stored, found, rep, |stored|))
    ensures AllStored(stored + [s], found, rep)
    ensures HistoryAt(stored + [s], found, rep, |stored| + 1) == Next(HistoryAt(stored, found, rep, |stored|), s, found[|stored|])
  {
    var all := stored + [s];
    HistoryPrefix(stored, all, found, rep, |stored|);
    forall i | 0 <= i < |all| ensures StoredAt(all, found, rep, i) {
      HistoryPrefix(stored, all, found, rep, i);
      if i < |stored| {
        assert StoredAt(stored, found, rep, i);
      }
    }
  }

  ghost predicate AllFull(stored: seq<Stored>) {
    forall i :: 0 <= i < |stored| ==> stored[i].offBase > 3
  }

  /** When all offsets are stored in full, the last three of them are the recent ones. */
  function LastOffsets(found: seq<Executed>, rep: Rep): (r: Rep)
  {
    var n := |found|;
    if n == 0 then rep
    else if n == 1 then Rep(found[0].offset, rep.r0, rep.r1)
    else if n == 2 then Rep(found[1].offset, found[0].offset, rep.r0)
    else Rep(found[n - 1].offset, found[n - 2].offset, found[n - 3].offset)
  }

  lemma {:induction false} LastOffsetsMeans(stored: seq<Stored>, found: seq<Executed>, rep: Rep, k: nat)
    requires k <= |stored| <= |found| && AllFull(stored)
    ensures HistoryAt(stored, found, rep, k) == LastOffsets(found[..k], rep)
  {
    if k > 0 {
      LastOffsetsMeans(stored, found, rep, k - 1);
      assert found[..k - 1] == found[..k][..k - 1];
    }
  }

  /** The value that stands for the offset, and the history that is kept only for the search. */
  method ChooseOffBase(f: Executed, rep: Rep, repSearch: bool) returns (offBase: nat, next: Rep)
    requires Findable(f)
    ensures 0 < offBase && HighBit(offBase) <= 31 && StandsFor(offBase, rep, f.litLength == 0, f.offset)
    ensures if repSearch then next == After(rep, offBase, f.litLength == 0, f.offset) else next == rep && offBase == f.offset + 3
  {
    var ll0 := f.litLength == 0;
    if repSearch {
      offBase := FinalizeOffBase(f.offset, rep, ll0);
      FinalizeMeans(f.offset, rep, ll0);
      UpdateMeans(rep, offBase, ll0, f.offset);
      next := UpdateRep(rep, offBase, ll0);
    } else {
      offBase, next := f.offset + 3, rep;
    }
    OffBaseFits(offBase);
  }

  ghost predicate AllExpressible(stored: seq<Stored>) {
    forall i :: 0 <= i < |stored| ==> Expressible(stored[i])
  }

  /** The sequences up to the delimiter, from number `start` on. */
  ghost predicate BlockAt(inSeqs: seq<Executed>, start: nat, end: nat) {
    && start <= end < |inSeqs| && IsDelimiter(inSeqs[end])
    && forall i :: start <= i < end ==> !IsDelimiter(inSeqs[i])
  }

  /** What is stored means what was found, and the history is kept, or not needed yet. */
  ghost predicate InStep(stored: seq<Stored>, next: Rep, repSearch: bool, found: seq<Executed>, rep: Rep) {
    && AllStored(stored, found, rep) && AllExpressible(stored)
    && if repSearch then next == HistoryAt(stored, found, rep, |stored|) else next == rep && AllFull(stored)
  }

  /** Stores one sequence. */
  method StoreSequence(stored0: seq<Stored>, next0: Rep, f: Executed, repSearch: bool, ghost found: seq<Executed>, ghost rep: Rep)
    returns (stored: seq<Stored>, next: Rep)
    requires |stored0| < |found| && f == found[|stored0|] && Findable(f) && InStep(stored0, next0, repSearch, found, rep)
    ensures |stored| == |stored0| + 1 && InStep(stored, next, repSearch, found, rep)
  {
    var offBase;
    offBase, next := ChooseOffBase(f, next0, repSearch);
    var s := Stored(f.litLength, f.matchLength - MINMATCH, offBase);
    StoreNext(stored0, s, found, rep);
    stored := stored0 + [s];
  }

  /**
   Stores the sequences of a block. It fails when there is no delimiter or no room; else what is stored
   means what was given, and `next` is the history that the decoder ends with.
   */
  method TransferSequences(inSeqs: seq<Executed>, start: nat, rep: Rep, repSearch: bool, maxNbSeq: nat)
    returns (r: Result<nat>, stored: seq<Stored>, next: Rep)
    requires start <= |inSeqs|
    requires forall i :: start <= i < |inSeqs| && !IsDelimiter(inSeqs[i]) ==> Findable(inSeqs[i])
    ensures r.Ok? ==> BlockAt(inSeqs, start, r.value) && r.value - start <= maxNbSeq
    ensures r.Err? ==> forall end: nat | BlockAt(inSeqs, start, end) :: end - start > maxNbSeq
    ensures r.Ok? ==> |stored| == r.value - start && AllStored(stored, inSeqs[start..r.value], rep)
    ensures r.Ok? ==> AllExpressible(stored)
    ensures r.Ok? ==> next == HistoryAt(stored, inSeqs[start..r.value], rep, |stored|)
  {
    ghost var found := inSeqs[start..];
    stored, next := [], rep;
    var idx := start;
    while idx < |inSeqs| && !IsDelimiter(inSeqs[idx])
      invariant start <= idx <= |inSeqs| && |stored| == idx - start <= maxNbSeq
      invariant forall i :: start <= i < idx ==> !IsDelimiter(inSeqs[i])
      invariant |stored| <= |found| && InStep(stored, next, repSearch, found, rep)
    {
      var f := inSeqs[idx];
      assert Findable(f) && f == found[|stored|];
      if idx - start >= maxNbSeq {
        return Err(ExternalSequencesInvalid), [], rep;
      }
      stored, next := StoreSequence(stored, next, f, repSearch, found, rep);
      idx := idx + 1;
    }
    if idx == |inSeqs| {
      return Err(ExternalSequencesInvalid), [], rep;
    }
    if !repSearch {
      next := LastOffsets(inSeqs[start..idx], rep);
    }
    assert inSeqs[start..idx] == found[..idx - start];
    SamePart(stored, found, inSeqs[start..idx], rep);
    r := Ok(idx);
  }

  lemma {:induction false} SameHistory(stored: seq<Stored>, found: seq<Executed>, block: seq<Executed>, rep: Rep, k: nat)
    requires k <= |stored| == |block| <= |found| && block == found[..|block|]
    ensures HistoryAt(stored, found, rep, k) == HistoryAt(stored, block, rep, k)
  {
    if k > 0 {
      SameHistory(stored, found, block, rep, k - 1);
    }
  }

  lemma {:induction false} SamePart(stored: seq<Stored>, found: seq<Executed>, block: seq<Executed>, rep: Rep)
    requires |stored| == |block| <= |found| && block == found[..|block|] && AllStored(stored, found, rep)
    ensures AllStored(stored, block, rep) && HistoryAt(stored, block, rep, |stored|) == HistoryAt(stored, found, rep, |stored|)
    ensures AllFull(stored) ==> HistoryAt(stored, block, rep, |stored|) == LastOffsets(block, rep)
  {
    if AllFull(stored) {
      LastOffsetsMeans(stored, block, rep, |stored|);
      assert block[..|stored|] == block;
    }
    SameHistory(stored, found, block, rep, |stored|);
    forall i | 0 <= i < |stored| ensures StoredAt(stored, block, rep, i) {
      SameHistory(stored, found, block, rep, i);
      assert StoredAt(stored, found, rep, i);
    }
  }
}
