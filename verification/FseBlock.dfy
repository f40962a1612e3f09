/**
 A whole FSE block: the header of a distribution followed by a message on its tables. Whatever
 the writer makes of a message, FSE_decompress_wksp gives the message back. The reader knows
 nothing but the bytes: it learns the distribution from the header, builds its own table from it,
 and hands the bytes after the header to the message decoder.
 */
module FseBlock {
  import opened Numeric
  import opened Results
  import opened Bytes
  import opened BitStack
  import opened Bitstream
  import opened Distribution
  import opened Spread
  import opened FseTable
  import opened FseBuild
  import opened FseMessage
  import opened FseCompress
  import opened FseDecompress
  import opened NCountFormat
  import opened NCountWriter
  import opened NCountReader
  import opened Normalize

  // ----- the stream depends on the encoding table alone -----

  lemma {:induction false} SameEncoding(c: Codec, d: Codec, msg: seq<byte>, i: nat)
    requires c.Valid() && d.Valid() && c.ct == d.ct && c.Encodes(msg) && d.Encodes(msg) && i + 2 <= |msg|
    ensures EncodeFrom(c, msg, i) == EncodeFrom(d, msg, i)
    decreases |msg| - i
  {
    if i + 2 < |msg| {
      SameEncoding(c, d, msg, i + 1);
    }
  }

  lemma {:induction false} SameBits(c: Codec, d: Codec, msg: seq<byte>)
    requires c.Valid() && d.Valid() && c.ct == d.ct && c.Encodes(msg) && d.Encodes(msg) && |msg| >= 2
    ensures MessageBits(c, msg) == MessageBits(d, msg)
  {
    SameEncoding(c, d, msg, 0);
  }

  /** With a small table, a symbol takes at most a byte. */
  lemma {:induction false} EncodingLength(c: Codec, msg: seq<byte>, i: nat)
    requires c.Valid() && c.Encodes(msg) && i + 2 <= |msg| && c.ct.tableLog <= 8
    ensures EncodeFrom(c, msg, i).bits.len <= 8 * (|msg| - 2 - i)
    decreases |msg| - i
  {
    if i + 2 < |msg| {
      EncodingLength(c, msg, i + 1);
      assert StepUndone(c.ct, c.dt, c.base, msg[i], EncodeFrom(c, msg, i + 1).next);
    }
  }

  /** Every encoding table has a decoding table that undoes it. */
  lemma {:induction false} DecoderExists(ct: CTable, norm: seq<int>, tableLog: nat) returns (dt: DTable)
    requires EncodesWith(ct, norm, tableLog)
    ensures DecodesWith(dt, norm, tableLog)
  {
    var t :| IsSpread(t, norm, tableLog) && Apportioned(t, norm, tableLog) && IsCTable(ct, t, norm, tableLog);
    forall u | 0 <= u < |t| ensures HasCell(t, norm, tableLog, u) {
      NextStateRange(t, norm, tableLog, u, false);
      CellCloses(Abs(norm[t[u]]) + Rank(t, u), tableLog);
    }
    var cells := seq(|t|, u requires 0 <= u < |t| && HasCell(t, norm, tableLog, u) => CellFor(t, norm, tableLog, u));
    dt := DTable(tableLog, false, cells);
    forall u | 0 <= u < |t| ensures DCellAt(cells, t, norm, tableLog, u) {
      assert HasCell(t, norm, tableLog, u);
    }
  }

  ghost predicate HasCell(t: seq<byte>, norm: seq<int>, tableLog: nat, u: nat)
    requires u < |t| && Symbols(t, norm)
  {
    var nextState := Abs(norm[t[u]]) + Rank(t, u);
    && nextState > 0 && HighBit(nextState) <= tableLog
    && Pow2(tableLog) <= Shl(nextState, tableLog - HighBit(nextState))
  }

  ghost function CellFor(t: seq<byte>, norm: seq<int>, tableLog: nat, u: nat): (cell: DCell)
    requires u < |t| && Symbols(t, norm) && HasCell(t, norm, tableLog, u)
    ensures IsDCell(cell, t[u], Abs(norm[t[u]]) + Rank(t, u), tableLog)
  {
    var nextState := Abs(norm[t[u]]) + Rank(t, u);
    var nb := tableLog - HighBit(nextState);
    DCell(t[u], nb, Shl(nextState, nb) - Pow2(tableLog))
  }

  // ----- what a block is -----

  ghost predicate IsBlock(src: seq<byte>, msg: seq<byte>, norm: seq<int>, tableLog: nat, ct: CTable, dt: DTable) {
    && MIN_TABLELOG <= tableLog <= MAX_TABLELOG && EncodesWith(ct, norm, tableLog) && DecodesWith(dt, norm, tableLog)
    && norm[|norm| - 1] != 0 && |msg| > 2 && (forall i :: 0 <= i < |msg| ==> msg[i] in Alphabet(norm))
    && Abs(norm[msg[|msg| - 2]]) < Pow2(tableLog)
    && var h := (HeaderBits(norm, tableLog).len + 7) / 8;
       && h <= |src| && LE(src[..h]) == HeaderBits(norm, tableLog).val
       && HoldsMessage(src[h..], msg, Codec(ct, dt, Alphabet(norm), Pow2(tableLog)))
  }

  ghost predicate HoldsMessage(src: seq<byte>, msg: seq<byte>, c: Codec) {
    c.Valid() && c.Encodes(msg) && |msg| >= 2 && IsStreamOf(src, MessageBits(c, msg))
  }

  /** src is the block of msg for some distribution in which the message does not consist of one symbol. */
  ghost predicate Block(src: seq<byte>, msg: seq<byte>, maxLog: nat) {
    exists norm, tableLog: nat, ct, dt :: tableLog <= maxLog && IsBlock(src, msg, norm, tableLog, ct, dt)
  }

  /** The bytes after the header do not disturb its reading. */
  lemma {:induction false} HeaderFirst(src: seq<byte>, norm: seq<int>, tableLog: nat, h: nat)
    requires Normalized(norm, tableLog) && MIN_TABLELOG <= tableLog <= MAX_TABLELOG
    requires h == (HeaderBits(norm, tableLog).len + 7) / 8 <= |src| && LE(src[..h]) == HeaderBits(norm, tableLog).val
    ensures HasHeader(src, norm, tableLog)
  {
    var b := HeaderBits(norm, tableLog);
    LESplit(src, h);
    LEBound(src[..h]);
    Split(LE(src[..h]), LE(src[h..]), 8 * h);
    LEBound(src);
    Join(LE(src), 8 * h);
    LowTower(LE(src), b.len, 8 * h);
    LowSmall(b.val, b.len);
  }

  // ----- writing -----

  /** FSE_optimalTableLog_internal; the subtraction wraps in 32 bits. */
  function OptimalTableLog(maxTableLog: nat, srcSize: nat, maxSymbolValue: nat, minus: nat): (l: nat)
    requires 1 < srcSize < Pow2(32) && maxSymbolValue > 0 && minus <= 2
  {
    var d := HighBit(srcSize - 1) - minus;
    var maxBitsSrc := if d < 0 then d + 0x1_0000_0000 else d;
    var l0 := if maxTableLog == 0 then DEFAULT_TABLELOG else maxTableLog;
    var l1 := if maxBitsSrc < l0 then maxBitsSrc else l0;
    var l2 := if MinTableLog(srcSize, maxSymbolValue) > l1 then MinTableLog(srcSize, maxSymbolValue) else l1;
    if l2 < MIN_TABLELOG then MIN_TABLELOG else if l2 > MAX_TABLELOG then MAX_TABLELOG else l2
  }

  /** The proposed table log always suits the normalization, and is no larger than it must be. */
  lemma {:induction false} OptimalFits(maxTableLog: nat, srcSize: nat, maxSymbolValue: nat, minus: nat)
    requires 1 < srcSize < Pow2(32) && 0 < maxSymbolValue <= MAX_SYMBOL_VALUE && minus <= 2
    ensures var l := OptimalTableLog(maxTableLog, srcSize, maxSymbolValue, minus);
            && l > 0 && Fit(l, srcSize, maxSymbolValue)
            && (MIN_TABLELOG <= maxTableLog && MinTableLog(srcSize, maxSymbolValue) <= maxTableLog ==> l <= maxTableLog)
  {
    assert Pow2(8) == 256;
    if HighBit(maxSymbolValue) >= 8 {
      Pow2Mono(8, HighBit(maxSymbolValue));
      assert false;
    }
  }

  /** FSE_writeNCount, always with bounds checks. */
  method WriteNCount(header: array<byte>, norm: seq<int>, tableLog: nat) returns (r: Result<nat>)
    requires Frequencies(norm)
    modifies header
    ensures tableLog > MAX_TABLELOG ==> r == Err(TableLogTooLarge)
    ensures tableLog < MIN_TABLELOG ==> r == Err(Generic)
    ensures Normalized(norm, tableLog) && MIN_TABLELOG <= tableLog <= MAX_TABLELOG ==>
              (RoomFor(header.Length, HeaderBits(norm, tableLog).len) ==> r.Ok?)
    ensures r.Ok? ==> var h := HeaderBits(norm, tableLog);
                      r.value == (h.len + 7) / 8 <= header.Length && LE(header[..r.value]) == h.val
  {
    if tableLog > MAX_TABLELOG {
      return Err(TableLogTooLarge);
    }
    if tableLog < MIN_TABLELOG {
      return Err(Generic);
    }
    if Weight(norm, |norm|) == Pow2(tableLog) {
      CompletesWhen(norm, tableLog, 0, |norm|);
    }
    r := WriteNCountGeneric(header, norm, tableLog, false);
  }

  /**
   FSE_compress_usingCTable: without bounds checks when dst has the size of a block bound. For
   tables of at most 2^8 cells that is always enough.
   */
  method CompressUsingCTable(dst: array<byte>, msg: seq<byte>, ct: CTable, width: nat, ghost c: Codec) returns (size: nat)
    requires width == 4 || width == 8
    requires Encoding(c, ct, msg) && ct.tableLog <= 8
    modifies dst
    ensures size > 0 ==> |msg| > 2 && size <= dst.Length && IsStreamOf(dst[..size], MessageBits(c, msg))
    ensures |msg| > 2 && dst.Length > width ==> (size == 0 <==> (MessageBits(c, msg).len + 1) / 8 >= dst.Length - width)
  {
    var fast := dst.Length >= |msg| + |msg| / 128 + 4 + width;
    if fast && |msg| >= 2 {
      EncodingLength(c, msg, 0);
    }
    size := CompressGeneric(dst, msg, ct, width, fast, c);
  }

  // ----- reading -----

  /** FSE_decompress_wksp_body: for arbitrary bytes the output stays inside dst; a block gives its message. */
  method DecompressWksp(dst: array<byte>, src: seq<byte>, maxLog: nat, width: nat, ghost msg: seq<byte>) returns (r: Result<nat>)
    requires width == 4 || width == 8
    modifies dst
    ensures r.Ok? ==> r.value <= dst.Length
    ensures Block(src, msg, maxLog) && |msg| <= dst.Length ==> r == Ok(|msg|) && dst[..|msg|] == msg
    ensures Block(src, msg, maxLog) && |msg| > dst.Length ==> r == Err(DstSizeTooSmall)
  {
    ghost var good := Block(src, msg, maxLog);
    ghost var norm, tableLog, ct, dt := BlockParts(src, msg, maxLog);
    var ncount := new int[MAX_SYMBOL_VALUE + 1];
    var n := ReadNCount(ncount, src, norm, tableLog);
    if n.Err? {
      return Err(n.error);
    }
    if n.value.tableLog > maxLog {
      return Err(TableLogTooLarge);
    }
    if good {
      SameSymbols(ncount[..], n.value, norm, tableLog, |src|);
    }
    r := DecodeMessage(dst, src, n.value.size, ncount[..n.value.maxSymbolValue + 1], n.value.tableLog, width, good, msg, ct, dt);
  }

  lemma {:induction false} BlockParts(src: seq<byte>, msg: seq<byte>, maxLog: nat)
    returns (norm: seq<int>, tableLog: nat, ct: CTable, dt: DTable)
    ensures Block(src, msg, maxLog) ==>
              && tableLog <= maxLog && IsBlock(src, msg, norm, tableLog, ct, dt) && HasHeader(src, norm, tableLog)
  {
    if Block(src, msg, maxLog) {
      norm, tableLog, ct, dt :| tableLog <= maxLog && IsBlock(src, msg, norm, tableLog, ct, dt);
      HeaderFirst(src, norm, tableLog, (HeaderBits(norm, tableLog).len + 7) / 8);
    } else {
      norm, tableLog, ct, dt := [], 0, CTable(0, [], []), DTable(0, false, []);
    }
  }

  /** The tables of the distribution that was read, and the message. */
  method DecodeMessage(dst: array<byte>, src: seq<byte>, start: nat, norm: seq<int>, tableLog: nat, width: nat,
                       ghost good: bool, ghost msg: seq<byte>, ghost ct: CTable, ghost dt0: DTable) returns (r: Result<nat>)
    requires width == 4 || width == 8
    requires Normalized(norm, tableLog) && MIN_TABLELOG <= tableLog && start <= |src|
    requires good ==> IsBlock(src, msg, norm, tableLog, ct, dt0) && start == (HeaderBits(norm, tableLog).len + 7) / 8
    modifies dst
    ensures r.Ok? ==> r.value <= dst.Length
    ensures good && |msg| <= dst.Length ==> r == Ok(|msg|) && dst[..|msg|] == msg
    ensures good && |msg| > dst.Length ==> r == Err(DstSizeTooSmall)
  {
    var table := BuildDTable(norm, tableLog);
    if table.Err? {
      return Err(table.error);
    }
    ghost var c := Codec(ct, table.value, Alphabet(norm), Pow2(tableLog));
    if good {
      BlockCompressed(src, msg, norm, tableLog, ct, dt0, table.value);
    }
    r := DecompressGeneric(dst, src[start..], table.value, width, table.value.fastMode, c, msg);
  }

  /** The frequencies read are the ones written, up to the last one present. */
  lemma {:induction false} SameSymbols(norm: seq<int>, n: NCount, want: seq<int>, tableLog: nat, size: nat)
    requires IsReading(norm, n, size) && ReadsBack(norm, n, want, tableLog)
    requires want[|want| - 1] != 0 && |want| <= |norm|
    ensures norm[..n.maxSymbolValue + 1] == want
  {
    assert norm[|want| - 1] != 0 && norm[n.maxSymbolValue] != 0;
  }

  lemma {:induction false} BlockCompressed(src: seq<byte>, msg: seq<byte>, norm: seq<int>, tableLog: nat, ct: CTable, dt0: DTable, dt: DTable)
    requires IsBlock(src, msg, norm, tableLog, ct, dt0) && DecodesWith(dt, norm, tableLog)
    ensures Compressed(src[(HeaderBits(norm, tableLog).len + 7) / 8..], dt, Codec(ct, dt, Alphabet(norm), Pow2(tableLog)), msg)
  {
    var c0, c := Codec(ct, dt0, Alphabet(norm), Pow2(tableLog)), Codec(ct, dt, Alphabet(norm), Pow2(tableLog));
    BuiltTablesInverse(ct, dt, norm, tableLog);
    SameBits(c0, c, msg);
    var s := msg[|msg| - 2];
    assert LeavesThroughBits(ct, dt, s, Abs(norm[s]) < Pow2(tableLog));
  }
}
