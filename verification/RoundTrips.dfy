/**
 The codecs end to end: for every distribution, every message and every list of sequences, reading
 what was written gives it back, and it is said exactly when.
 */
module RoundTrips {
  import opened Numeric
  import opened Results
  import opened Bytes
  import opened BitStack
  import opened Bitstream
  import opened Distribution
  import opened Spread
  import opened FseTable
  import opened FseBuild
  import opened FseMessage
  import opened FseCompress
  import opened FseDecompress
  import opened FseBlock
  import opened NCountFormat
  import opened NCountWriter
  import opened NCountReader
  import opened HufWeights
  import opened HufStats

  // ----- messages -----

  lemma {:induction false} OwnerCell(t: seq<byte>, norm: seq<int>, tableLog: nat, s: byte, u: nat, cell: DCell)
    requires Apportioned(t, norm, tableLog) && s < |norm| && Abs(norm[s]) == Pow2(tableLog) && u < |t| && t[u] == s
    requires IsDCell(cell, s, Abs(norm[s]) + Rank(t, u), tableLog)
    ensures cell.nbBits == 0
  {
    assert HasShare(t, norm, s);
    CountPositive(t, u);
    HighBitUnique(Abs(norm[s]) + Rank(t, u), tableLog);
  }

  /** A symbol that owns the whole table is never left: no cell asks for bits. */
  lemma {:induction false} OwnerIdles(dt: DTable, norm: seq<int>, tableLog: nat, s: byte)
    requires DecodesWith(dt, norm, tableLog) && s < |norm| && Abs(norm[s]) == Pow2(tableLog)
    ensures Idle(dt)
  {
    var t :| IsSpread(t, norm, tableLog) && Apportioned(t, norm, tableLog) && IsDTable(dt, t, norm, tableLog);
    assert Count(t, s) == |t| by { assert HasShare(t, norm, s); }
    CountAll(t, s);
    forall u | 0 <= u < |dt.cells| ensures dt.cells[u].nbBits == 0 {
      assert DCellAt(dt.cells, t, norm, tableLog, u);
      OwnerCell(t, norm, tableLog, s, u, dt.cells[u]);
    }
  }

  ghost predicate OwnsTable(norm: seq<int>, tableLog: nat, s: byte) {
    s < |norm| && Abs(norm[s]) == Pow2(tableLog)
  }

  /** The message whose stream ends with a symbol of a shared table, or of a table with one owner. */
  lemma {:induction false} EitherWay(src: seq<byte>, c: Codec, norm: seq<int>, tableLog: nat, msg: seq<byte>)
    requires EncodesWith(c.ct, norm, tableLog) && DecodesWith(c.dt, norm, tableLog)
    requires c.alphabet == Alphabet(norm) && c.base == Pow2(tableLog) && c.Valid() && c.Encodes(msg) && |msg| > 2
    requires IsStreamOf(src, MessageBits(c, msg))
    ensures !OwnsTable(norm, tableLog, msg[|msg| - 2]) ==> Compressed(src, c.dt, c, msg)
    ensures OwnsTable(norm, tableLog, msg[|msg| - 2]) ==> Idle(c.dt)
    ensures HasEndMark(src) && Unread(src).len >= 2 * c.dt.tableLog
  {
    var s := msg[|msg| - 2];
    BuiltTablesInverse(c.ct, c.dt, norm, tableLog);
    assert LeavesThroughBits(c.ct, c.dt, s, Abs(norm[s]) < Pow2(tableLog));
    WeightMono(norm, s, |norm|);
    UnreadOfStream(src, MessageBits(c, msg));
    DecodeStart(c, msg);
    if OwnsTable(norm, tableLog, s) {
      OwnerIdles(c.dt, norm, tableLog, s);
    }
  }

  /**
   For every distribution and every message of its symbols that could be compressed: the message comes
   back exactly when there is room for it and its last symbol but one does not own the whole table.
   */
  method MessageRoundTrip(norm: seq<int>, tableLog: nat, msg: seq<byte>, capacity: nat, outCapacity: nat, width: nat, readWidth: nat,
                          fast: bool)
    returns (size: nat, r: Result<nat>, output: seq<byte>)
    requires (width == 4 || width == 8) && (readWidth == 4 || readWidth == 8)
    requires Normalized(norm, tableLog) && MIN_TABLELOG <= tableLog <= MAX_TABLELOG
    requires forall i :: 0 <= i < |msg| ==> msg[i] in Alphabet(norm)
    ensures |msg| <= 2 || capacity <= width ==> size == 0
    ensures size > 0 ==>
              (r == Ok(|msg|) <==> |msg| <= outCapacity && !OwnsTable(norm, tableLog, msg[|msg| - 2]))
              && (r.Ok? ==> output == msg) && (r.Err? ==> r.error == DstSizeTooSmall)
  {
    var ct := BuildCTable(norm, tableLog);
    var built := BuildDTable(norm, tableLog);
    var dt := built.value;
    BuiltTablesInverse(ct, dt, norm, tableLog);
    ghost var c := Codec(ct, dt, Alphabet(norm), Pow2(tableLog));
    var dst := new byte[capacity](_ => 0);
    size := CompressGeneric(dst, msg, ct, width, false, c);
    r, output := Ok(0), [];
    if size > 0 {
      EitherWay(dst[..size], c, norm, tableLog, msg);
      var out := new byte[outCapacity](_ => 0);
      r := DecompressGeneric(out, dst[..size], dt, readWidth, fast && dt.fastMode, c, msg);
      if r.Ok? {
        output := out[..r.value];
      }
    }
  }

  // ----- table headers -----

  /** A header that could be written is read back, whatever bytes follow it. */
  method HeaderRoundTrip(norm: seq<int>, tableLog: nat, capacity: nat, more: seq<byte>)
    returns (size: Result<nat>, read: Result<NCount>, freq: seq<int>)
    requires Normalized(norm, tableLog) && MIN_TABLELOG <= tableLog <= MAX_TABLELOG
    ensures RoomFor(capacity, HeaderBits(norm, tableLog).len) ==> size.Ok?
    ensures size.Ok? ==> read.Ok? && read.value.size == size.value && read.value.tableLog == tableLog
                         && |freq| == MAX_SYMBOL_VALUE + 1 && IsReading(freq, read.value, size.value + |more|)
                         && forall s :: 0 <= s < |freq| ==> freq[s] == if s < |norm| then norm[s] else 0
  {
    var header := new byte[capacity](_ => 0);
    size := WriteNCount(header, norm, tableLog);
    read, freq := Err(Generic), [];
    if size.Ok? {
      var src := header[..size.value] + more;
      assert src[..size.value] == header[..size.value];
      HeaderFirst(src, norm, tableLog, size.value);
      var ncount := new int[MAX_SYMBOL_VALUE + 1];
      read := ReadNCount(ncount, src, norm, tableLog);
      freq := ncount[..];
    }
  }

  // ----- Huffman weights -----

  /** The weights of all symbols. */
  ghost function AllWeights(nbBits: seq<nat>, huffLog: nat): (ws: seq<byte>)
    requires huffLog <= HUF_TABLELOG_MAX && forall i :: 0 <= i < |nbBits| ==> nbBits[i] <= huffLog
    ensures |ws| == |nbBits| && AreWeights(ws, nbBits, huffLog)
  {
    seq(|nbBits|, i requires 0 <= i < |nbBits| => WeightOf(nbBits[i], huffLog))
  }

  /** The part of the 2^huffLog codes of the greatest length that the codes of these lengths take. */
  ghost function CodeSpace(nbBits: seq<nat>, huffLog: nat): (n: nat)
    requires forall i :: 0 <= i < |nbBits| ==> nbBits[i] <= huffLog
  {
    if |nbBits| == 0 then 0
    else
      var last := nbBits[|nbBits| - 1];
      CodeSpace(nbBits[..|nbBits| - 1], huffLog) + if last == 0 then 0 else Pow2(huffLog - last)
  }

  /** A complete code with a code of the greatest length, whose last symbol is present. */
  ghost predicate CompleteCode(nbBits: seq<nat>, huffLog: nat) {
    && 1 < |nbBits| && 1 <= huffLog <= HUF_TABLELOG_MAX && (forall i :: 0 <= i < |nbBits| ==> nbBits[i] <= huffLog)
    && nbBits[|nbBits| - 1] > 0 && huffLog in nbBits && CodeSpace(nbBits, huffLog) == Pow2(huffLog)
  }

  /** The shares of the weights are the codes' parts of the space. */
  lemma {:induction false} SpaceIsShares(ws: seq<byte>, nbBits: seq<nat>, huffLog: nat)
    requires |ws| == |nbBits| && AreWeights(ws, nbBits, huffLog) && forall i :: 0 <= i < |nbBits| ==> nbBits[i] <= huffLog
    ensures WeightSum(ws) == CodeSpace(nbBits, huffLog)
  {
    if |ws| > 0 {
      var n := |ws| - 1;
      SpaceIsShares(ws[..n], nbBits[..n], huffLog);
      assert HasWeight(ws[n], nbBits[n], huffLog);
    }
  }

  lemma {:induction false} WeightsUnique(a: seq<byte>, b: seq<byte>, nbBits: seq<nat>, huffLog: nat)
    requires |a| <= |b| == |nbBits| && AreWeights(a, nbBits, huffLog) && AreWeights(b, nbBits, huffLog)
    ensures a == b[..|a|]
  {
    forall i | 0 <= i < |a| ensures a[i] == b[i] {
      assert HasWeight(a[i], nbBits[i], huffLog) && HasWeight(b[i], nbBits[i], huffLog);
    }
  }

  lemma {:induction false} CodeDescribed(src: seq<byte>, nbBits: seq<nat>, huffLog: nat, ws: seq<byte>)
    requires CompleteCode(nbBits, huffLog) && DescribesTable(src, nbBits, huffLog, ws)
    ensures var all := AllWeights(nbBits, huffLog);
            ws + [all[|ws|]] == all && DescribesComplete(src, ws, all[|ws|], huffLog)
  {
    var all := AllWeights(nbBits, huffLog);
    WeightsUnique(ws, all, nbBits, huffLog);
    assert ws + [all[|ws|]] == all;
    SpaceIsShares(all, nbBits, huffLog);
    assert HasWeight(all[|ws|], nbBits[|ws|], huffLog);
    forall i | 0 <= i < |all| ensures all[i] <= HUF_TABLELOG_MAX {
      assert HasWeight(all[i], nbBits[i], huffLog);
    }
    var i :| 0 <= i < |nbBits| && nbBits[i] == huffLog;
    assert HasWeight(all[i], nbBits[i], huffLog);
    CountOne(all, i);
  }

  /** HUF_readCTable: the code lengths that weights stand for. */
  method LengthsOf(weights: seq<byte>, tableLog: nat, ghost nbBits: seq<nat>) returns (lengths: seq<nat>)
    requires |weights| == |nbBits| && AreWeights(weights, nbBits, tableLog)
    ensures lengths == nbBits
  {
    lengths := [];
    var n := 0;
    while n < |weights|
      invariant 0 <= n <= |weights| && lengths == nbBits[..n]
    {
      var w := weights[n];
      assert HasWeight(w, nbBits[n], tableLog);
      lengths := lengths + [if w != 0 then tableLog + 1 - w else 0];
      n := n + 1;
    }
  }

  /**
   The description of a complete code gives back the weights and the lengths of all its symbols. It
   can be written at least for 129 symbols, with room for it.
   */
  method HuffmanRoundTrip(nbBits: seq<nat>, huffLog: nat, capacity: nat, hwSize: nat, more: seq<byte>, width: nat, readWidth: nat)
    returns (size: Result<nat>, read: Result<Stats>, weights: seq<byte>, lengths: seq<nat>)
    requires (width == 4 || width == 8) && (readWidth == 4 || readWidth == 8)
    requires CompleteCode(nbBits, huffLog) && |nbBits| <= hwSize
    ensures |nbBits| <= 129 && capacity > MAX_WEIGHTS_HEADER && capacity > |nbBits| / 2 ==> size.Ok?
    ensures size.Ok? ==> read == Ok(Stats(|nbBits|, huffLog, size.value)) && lengths == nbBits
    ensures size.Ok? ==> |weights| == |nbBits| && forall i :: 0 <= i < |weights| ==> HasWeight(weights[i], nbBits[i], huffLog)
  {
    var dst := new byte[capacity](_ => 0);
    size := WriteCTable(dst, nbBits, huffLog, width);
    read, weights, lengths := Err(Generic), [], [];
    if size.Ok? {
      ghost var ws :| DescribesTable(dst[..size.value], nbBits, huffLog, ws);
      CodeDescribed(dst[..size.value], nbBits, huffLog, ws);
      var src := dst[..size.value] + more;
      assert src[..size.value] == dst[..size.value];
      var huffWeight := new byte[hwSize](_ => 0);
      var rankStats := new nat[HUF_TABLELOG_MAX + 1](_ => 0);
      read := ReadStats(huffWeight, rankStats, src, readWidth, ws, AllWeights(nbBits, huffLog)[|ws|], huffLog, size.value);
      weights := huffWeight[..|nbBits|];
      lengths := LengthsOf(weights, read.value.tableLog, nbBits);
    }
  }
}
