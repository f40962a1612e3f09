/**
 FSE_writeNCount_generic: fields of varying width collect in a 32-bit accumulator, which gives 16
 bits at a time to the output; a run of absent symbols gives 16 set bits for every 24 of them. The
 bytes are those of the header format, whatever the moments of writing, and with enough room the
 writer never fails on a distribution; without it, the checked form reports the overflow.
 */
module NCountWriter {
  import opened Numeric
  import opened Bytes
  import opened BitStack
  import opened Results
  import opened Distribution
  import opened NCountFormat

  /** The local variables of the writer: bytes written, accumulator, bits in the accumulator. */
  datatype Writer = Writer(out: nat, bitStream: nat, bitCount: nat)

  /** The bytes written and the accumulator hold the bits of b. */
  ghost predicate Holds(bytes: seq<byte>, w: Writer, b: Bits) {
    && b.Ok() && w.out <= |bytes| && w.bitStream < Pow2(w.bitCount) && b.len == 8 * w.out + w.bitCount
    && b.val == LE(bytes[..w.out]) + Shl(w.bitStream, 8 * w.out)
  }

  /** `bitStream += v << bitCount; bitCount += n`, which stays within 32 bits. */
  function Put(w: Writer, v: nat, n: nat): (r: Writer)
    requires w.bitCount + n <= 32
  {
    Writer(w.out, w.bitStream + Shl(v, w.bitCount), w.bitCount + n)
  }

  lemma {:induction false} PutHolds(bytes: seq<byte>, w: Writer, b: Bits, v: nat, n: nat)
    requires Holds(bytes, w, b) && v < Pow2(n) && w.bitCount + n <= 32
    ensures Holds(bytes, Put(w, v, n), Push(b, v, n))
  {
    LowSmall(v, n);
    ShlBound(w.bitStream, v, w.bitCount, n);
    ShlSum(w.bitStream, Shl(v, w.bitCount), 8 * w.out);
    ShlAdd(v, w.bitCount, 8 * w.out);
  }

  /** Stores the low 16 bits of the accumulator, unless the check of the bounds fails. */
  method Flush16(bytes: array<byte>, w: Writer, writeIsSafe: bool, ghost b: Bits) returns (ok: bool, r: Writer)
    requires Holds(bytes[..], w, b) && w.bitCount >= 16
    requires writeIsSafe ==> w.out + 2 <= bytes.Length
    modifies bytes
    ensures ok <==> w.out + 2 <= bytes.Length
    ensures ok ==> Holds(bytes[..], r, b) && r.bitCount == w.bitCount - 16
  {
    if !writeIsSafe && w.out > bytes.Length - 2 {
      return false, w;
    }
    StoreTwo(bytes, w, b);
    ok, r := true, Writer(w.out + 2, Shr(w.bitStream, 16), w.bitCount - 16);
  }

  /** `out[0] = (BYTE)bitStream; out[1] = (BYTE)(bitStream >> 8)` */
  method StoreTwo(bytes: array<byte>, w: Writer, ghost b: Bits)
    requires Holds(bytes[..], w, b) && w.out + 2 <= bytes.Length
    modifies bytes
    ensures LE(bytes[..w.out + 2]) == old(LE(bytes[..w.out])) + Shl(Low(w.bitStream, 16), 8 * w.out)
    ensures bytes[..w.out] == old(bytes[..w.out])
    ensures w.bitCount >= 16 ==> Holds(bytes[..], Writer(w.out + 2, Shr(w.bitStream, 16), w.bitCount - 16), b)
  {
    ghost var before := bytes[..w.out];
    WriteLE(bytes, w.out, 2, w.bitStream);
    assert bytes[..w.out + 2] == before + ToBytes(w.bitStream, 2);
    LEConcat(before, ToBytes(w.bitStream, 2));
    LEToBytes(w.bitStream, 2);
    if w.bitCount >= 16 {
      ShrBound(w.bitStream, 16, w.bitCount - 16);
      Join(w.bitStream, 16);
      ShlSum(Low(w.bitStream, 16), Shl(Shr(w.bitStream, 16), 16), 8 * w.out);
      ShlAdd(Shr(w.bitStream, 16), 16, 8 * w.out);
    }
  }

  /** Enough room for a header of n bits, whose last store writes two bytes. */
  ghost predicate RoomFor(capacity: nat, n: nat) {
    n / 8 + 2 <= capacity
  }

  /** `if (bitCount > 16)` flush */
  method FlushIfFull(bytes: array<byte>, w: Writer, writeIsSafe: bool, ghost b: Bits, ghost fits: bool)
    returns (ok: bool, r: Writer)
    requires Holds(bytes[..], w, b) && w.bitCount <= 32
    requires (writeIsSafe ==> fits) && (fits ==> RoomFor(bytes.Length, b.len))
    modifies bytes
    ensures fits ==> ok
    ensures ok ==> Holds(bytes[..], r, b) && r.bitCount <= 16
  {
    ok, r := true, w;
    if w.bitCount > 16 {
      ok, r := Flush16(bytes, w, writeIsSafe, b);
    }
  }

  /** The blocks of 24 absent symbols, written as 16 set bits each. */
  method WriteBlocks(bytes: array<byte>, w0: Writer, start0: nat, symbol: nat, writeIsSafe: bool,
                     ghost b0: Bits, ghost fits: bool)
    returns (ok: bool, w: Writer, start: nat, ghost b: Bits)
    requires start0 <= symbol && Holds(bytes[..], w0, b0) && w0.bitCount <= 16
    requires (writeIsSafe ==> fits) && (fits ==> RoomFor(bytes.Length, PushRun(b0, symbol - start0).len))
    modifies bytes
    ensures fits ==> ok
    ensures ok ==> start <= symbol < start + 24 && Holds(bytes[..], w, b) && w.bitCount <= 16
    ensures ok ==> PushRun(b, symbol - start) == PushRun(b0, symbol - start0)
  {
    ok, w, start, b := true, w0, start0, b0;
    while symbol >= start + 24
      invariant start <= symbol && Holds(bytes[..], w, b) && w.bitCount <= 16 && ok
      invariant PushRun(b, symbol - start) == PushRun(b0, symbol - start0)
    {
      ok, w, b := WriteBlock(bytes, w, symbol - start, writeIsSafe, b, fits);
      start := start + 24;
      if !ok {
        return;
      }
    }
  }

  /** 24 absent symbols. */
  method WriteBlock(bytes: array<byte>, w0: Writer, ghost z: nat, writeIsSafe: bool, ghost b0: Bits, ghost fits: bool)
    returns (ok: bool, w: Writer, ghost b: Bits)
    requires z >= 24 && Holds(bytes[..], w0, b0) && w0.bitCount <= 16
    requires (writeIsSafe ==> fits) && (fits ==> RoomFor(bytes.Length, PushRun(b0, z).len))
    modifies bytes
    ensures fits ==> ok
    ensures ok ==> Holds(bytes[..], w, b) && w.bitCount <= 16 && PushRun(b, z - 24) == PushRun(b0, z)
  {
    var ones := SIXTEEN_ONES;
    b := Push(b0, ones, 16);
    BlockOfRun(b0, z, ones);
    assert PushRun(b, z - 24).len >= b.len by { PushRunLength(b, z - 24); }
    PutHolds(bytes[..], w0, b0, ones, 16);
    ok, w := Flush16(bytes, Put(w0, ones, 16), writeIsSafe, b);
  }

  const SIXTEEN_ONES: nat := 0xFFFF

  lemma {:induction false} BlockOfRun(b: Bits, z: nat, ones: nat)
    requires b.Ok() && z >= 24 && ones == SIXTEEN_ONES
    ensures ones < Pow2(16) && PushRun(b, z) == PushRun(Push(b, ones, 16), z - 24)
  {
    Pow2Literals();
    RunOfPairs(b, z, 8);
    PairsAreOnes(b, 8);
  }

  /** The run of absent symbols that ends before `symbol`. */
  method WriteRun(bytes: array<byte>, w0: Writer, start0: nat, symbol: nat, writeIsSafe: bool,
                  ghost b0: Bits, ghost fits: bool) returns (ok: bool, w: Writer)
    requires start0 <= symbol && Holds(bytes[..], w0, b0) && w0.bitCount <= 16
    requires (writeIsSafe ==> fits) && (fits ==> RoomFor(bytes.Length, PushRun(b0, symbol - start0).len))
    modifies bytes
    ensures fits ==> ok
    ensures ok ==> Holds(bytes[..], w, PushRun(b0, symbol - start0)) && w.bitCount <= 16
  {
    ghost var b;
    var start;
    ok, w, start, b := WriteBlocks(bytes, w0, start0, symbol, writeIsSafe, b0, fits);
    if !ok {
      return;
    }
    w, start, b := WriteTriples(bytes[..], w, start, symbol, b);
    PutHolds(bytes[..], w, b, symbol - start, 2);
    ok, w := FlushIfFull(bytes, Put(w, symbol - start, 2), writeIsSafe, PushRun(b, symbol - start), fits);
  }

  /** A pair of set bits for each 3 more absent symbols; nothing is stored yet. */
  method WriteTriples(ghost bytes: seq<byte>, w0: Writer, start0: nat, symbol: nat, ghost b0: Bits)
    returns (w: Writer, start: nat, ghost b: Bits)
    requires start0 <= symbol < start0 + 24 && Holds(bytes, w0, b0) && w0.bitCount <= 16
    ensures start <= symbol < start + 3 && Holds(bytes, w, b) && w.bitCount <= 30
    ensures PushRun(b, symbol - start) == PushRun(b0, symbol - start0)
  {
    w, start, b := w0, start0, b0;
    ghost var pairs := 0;
    while symbol >= start + 3
      invariant start <= symbol && Holds(bytes, w, b)
      invariant start == start0 + 3 * pairs && w.bitCount <= 16 + 2 * pairs
      invariant PushRun(b, symbol - start) == PushRun(b0, symbol - start0)
    {
      PutHolds(bytes, w, b, 3, 2);
      b := Push(b, 3, 2);
      w := Put(w, 3, 2);
      start, pairs := start + 3, pairs + 1;
    }
  }

  /** The count of one symbol. */
  method WriteCount(bytes: array<byte>, w0: Writer, count: nat, remaining: nat, threshold: nat, nbBits: nat,
                    tableLog: nat, writeIsSafe: bool, ghost b: Bits, ghost fits: bool)
    returns (ok: bool, w: Writer)
    requires Holds(bytes[..], w0, b) && w0.bitCount <= 16 && 1 <= tableLog <= MAX_TABLELOG
    requires 1 < remaining <= Pow2(tableLog) + 1 && count <= remaining
    requires threshold == Pow2(HighBit(remaining)) && nbBits == HighBit(remaining) + 1
    requires (writeIsSafe ==> fits) && (fits ==> RoomFor(bytes.Length, PushCount(b, remaining, count).len))
    modifies bytes
    ensures fits ==> ok
    ensures ok ==> Holds(bytes[..], w, PushCount(b, remaining, count)) && w.bitCount <= 16
  {
    var max := (2 * threshold - 1) - remaining;
    var v := if count >= threshold then count + max else count;
    var n := nbBits - (if v < max then 1 else 0);
    assert v == CountValue(remaining, count) && n == CountWidth(remaining, count) && v < Pow2(n) && n <= 16 by {
      CountFits(remaining, count, tableLog);
    }
    PutHolds(bytes[..], w0, b, v, n);
    w := Put(w0, v, n);
    ok, w := FlushIfFull(bytes, w, writeIsSafe, PushCount(b, remaining, count), fits);
  }

  /** `while (remaining < threshold) { nbBits--; threshold >>= 1; }` */
  method Shrink(remaining: nat, threshold0: nat, nbBits0: nat) returns (threshold: nat, nbBits: nat)
    requires remaining >= 1 && nbBits0 >= 1 && threshold0 == Pow2(nbBits0 - 1) && remaining < 2 * threshold0
    ensures threshold == Pow2(HighBit(remaining)) && nbBits == HighBit(remaining) + 1
  {
    threshold, nbBits := threshold0, nbBits0;
    while remaining < threshold
      invariant nbBits >= 1 && threshold == Pow2(nbBits - 1) && remaining < 2 * threshold
    {
      nbBits := nbBits - 1;
      threshold := threshold / 2;
    }
    HighBitUnique(remaining, nbBits - 1);
  }

  /** `while ((symbol < alphabetSize) && !normalizedCounter[symbol]) symbol++` */
  method SkipZeros(norm: seq<int>, s: nat) returns (symbol: nat)
    requires s <= |norm|
    ensures symbol == s + Zeros(norm, s)
  {
    symbol := s;
    while symbol < |norm| && norm[symbol] == 0
      invariant s <= symbol <= |norm| && symbol + Zeros(norm, symbol) == s + Zeros(norm, s)
    {
      symbol := symbol + 1;
    }
  }

  /** `if (previousIs0) { ... }`: the run of absent symbols, up to the next present one. */
  method WriteGap(bytes: array<byte>, w0: Writer, norm: seq<int>, s: nat, previousIs0: bool, writeIsSafe: bool,
                  ghost b: Bits, ghost fits: bool)
    returns (r: Result<Writer>, symbol: nat)
    requires s < |norm| && previousIs0 == AfterZero(norm, s)
    requires Holds(bytes[..], w0, b) && w0.bitCount <= 16 && (writeIsSafe ==> fits)
    requires fits ==> NextSymbol(norm, s) < |norm| && RoomFor(bytes.Length, PushGap(norm, s, b).len)
    modifies bytes
    ensures NextSymbol(norm, s) == |norm| ==> r.Err?
    ensures fits ==> r.Ok?
    ensures r.Ok? ==> symbol == NextSymbol(norm, s) && r.value.bitCount <= 16
                      && Holds(bytes[..], r.value, PushGap(norm, s, b))
  {
    symbol := s;
    if !previousIs0 {
      return Ok(w0), symbol;
    }
    symbol := SkipZeros(norm, s);
    if symbol == |norm| {
      return Err(Generic), symbol;
    }
    var ok, w := WriteRun(bytes, w0, s, symbol, writeIsSafe, b, fits);
    r := if ok then Ok(w) else Err(DstSizeTooSmall);
  }

  /** The variables of the main loop. */
  datatype Round = Round(w: Writer, symbol: nat, remaining: nat, threshold: nat, nbBits: nat, previousIs0: bool)

  ghost predicate AtRound(bytes: seq<byte>, l: Round, norm: seq<int>, tableLog: nat, b: Bits) {
    && l.symbol <= |norm| && l.remaining == Remaining(norm, tableLog, l.symbol) >= 1
    && l.threshold == Pow2(HighBit(l.remaining)) && l.nbBits == HighBit(l.remaining) + 1
    && l.previousIs0 == AfterZero(norm, l.symbol)
    && Holds(bytes, l.w, b) && l.w.bitCount <= 16
  }

  /** One round of the main loop. */
  method WriteSymbol(bytes: array<byte>, l: Round, norm: seq<int>, tableLog: nat, writeIsSafe: bool,
                     ghost b: Bits, ghost fits: bool)
    returns (r: Result<Round>)
    requires Frequencies(norm) && 5 <= tableLog <= MAX_TABLELOG
    requires AtRound(bytes[..], l, norm, tableLog, b) && l.symbol < |norm| && l.remaining > 1
    requires writeIsSafe ==> fits
    requires fits ==> FitsNext(norm, tableLog, l.symbol, b, bytes.Length)
    modifies bytes
    ensures Stuck(norm, tableLog, l.symbol) ==> r.Err?
    ensures fits ==> r.Ok?
    ensures r.Ok? ==> r.value.symbol == NextSymbol(norm, l.symbol) + 1
                      && AtRound(bytes[..], r.value, norm, tableLog, PushSymbol(norm, tableLog, l.symbol, b))
  {
    ghost var c := PushGap(norm, l.symbol, b);
    var gap, symbol := WriteGap(bytes, l.w, norm, l.symbol, l.previousIs0, writeIsSafe, b, fits);
    if gap.Err? {
      return Err(gap.error);
    }
    NextSymbolWeight(norm, tableLog, l.symbol);
    if l.remaining - Abs(norm[symbol]) < 1 {
      return Err(Generic);
    }
    r := WriteLast(bytes, gap.value, l, norm, tableLog, symbol, writeIsSafe, c, fits);
  }

  /** The count of the symbol, and the variables of the next round. */
  method WriteLast(bytes: array<byte>, w0: Writer, l: Round, norm: seq<int>, tableLog: nat, symbol: nat,
                   writeIsSafe: bool, ghost c: Bits, ghost fits: bool)
    returns (r: Result<Round>)
    requires Frequencies(norm) && 5 <= tableLog <= MAX_TABLELOG && symbol < |norm|
    requires l.remaining == Remaining(norm, tableLog, symbol) > 1 && Abs(norm[symbol]) < l.remaining
    requires l.threshold == Pow2(HighBit(l.remaining)) && l.nbBits == HighBit(l.remaining) + 1
    requires Holds(bytes[..], w0, c) && w0.bitCount <= 16
    requires writeIsSafe ==> fits
    requires fits ==> RoomFor(bytes.Length, PushCount(c, l.remaining, norm[symbol] + 1).len)
    modifies bytes
    ensures fits ==> r.Ok?
    ensures r.Ok? ==> r.value.symbol == symbol + 1
                      && AtRound(bytes[..], r.value, norm, tableLog, PushCount(c, l.remaining, norm[symbol] + 1))
  {
    var ok, w := WriteCount(bytes, w0, norm[symbol] + 1, l.remaining, l.threshold, l.nbBits, tableLog,
                            writeIsSafe, c, fits);
    if !ok {
      return Err(DstSizeTooSmall);
    }
    var next := NextRound(l, norm, tableLog, symbol, w);
    r := Ok(next);
  }

  /** `remaining -= count < 0 ? -count : count` and what follows from it. */
  method NextRound(l: Round, norm: seq<int>, tableLog: nat, symbol: nat, w: Writer) returns (next: Round)
    requires symbol < |norm|
    requires l.remaining == Remaining(norm, tableLog, symbol) > 1 && Abs(norm[symbol]) < l.remaining
    requires l.threshold == Pow2(HighBit(l.remaining)) && l.nbBits == HighBit(l.remaining) + 1
    ensures next.w == w && next.symbol == symbol + 1
    ensures next.remaining == Remaining(norm, tableLog, symbol + 1) >= 1
    ensures next.threshold == Pow2(HighBit(next.remaining)) && next.nbBits == HighBit(next.remaining) + 1
    ensures next.previousIs0 == AfterZero(norm, symbol + 1)
  {
    var count := norm[symbol];
    var remaining := l.remaining - Abs(count);
    var threshold, nbBits := Shrink(remaining, l.threshold, l.nbBits);
    next := Round(w, symbol + 1, remaining, threshold, nbBits, count + 1 == 1);
  }

  ghost predicate FitsNext(norm: seq<int>, tableLog: nat, s: nat, b: Bits, capacity: nat)
    requires Frequencies(norm) && s < |norm| && b.Ok()
  {
    && !Stuck(norm, tableLog, s) && RoomFor(capacity, PushGap(norm, s, b).len)
    && RoomFor(capacity, PushSymbol(norm, tableLog, s, b).len)
  }

  /**
   Writes the header of a distribution. It succeeds only for frequencies whose first symbols share
   out the whole table; then the bytes hold the header's bits and nothing else. With room for the
   header and its last two-byte store it does succeed.
   */
  method WriteNCountGeneric(header: array<byte>, norm: seq<int>, tableLog: nat, writeIsSafe: bool)
    returns (r: Result<nat>)
    requires Frequencies(norm) && 5 <= tableLog <= MAX_TABLELOG
    requires writeIsSafe ==> Completes(norm, tableLog, 0) && RoomFor(header.Length, HeaderBits(norm, tableLog).len)
    modifies header
    ensures !Completes(norm, tableLog, 0) ==> r.Err?
    ensures Completes(norm, tableLog, 0) && RoomFor(header.Length, HeaderBits(norm, tableLog).len) ==> r.Ok?
    ensures r.Ok? ==> var h := HeaderBits(norm, tableLog);
                      r.value == (h.len + 7) / 8 <= header.Length && LE(header[..r.value]) == h.val
  {
    ghost var fits := Completes(norm, tableLog, 0) && RoomFor(header.Length, HeaderBits(norm, tableLog).len);
    ghost var b := Push(EMPTY, tableLog - MIN_TABLELOG, 4);
    var l := Start(header[..], norm, tableLog);
    while l.symbol < |norm| && l.remaining > 1
      invariant AtRound(header[..], l, norm, tableLog, b) && ToGo(norm, tableLog, l.symbol, b)
      decreases |norm| - l.symbol
    {
      var step;
      step, b := WriteNext(header, l, norm, tableLog, writeIsSafe, b, fits);
      if step.Err? {
        return Err(step.error);
      }
      l := step.value;
    }
    if l.remaining != 1 {
      return Err(Generic);
    }
    r := Finish(header, l.w, writeIsSafe, b, fits);
  }

  /** One round of the main loop, and the bits written by then. */
  method WriteNext(header: array<byte>, l: Round, norm: seq<int>, tableLog: nat, writeIsSafe: bool, ghost b: Bits, ghost fits: bool)
    returns (step: Result<Round>, ghost d: Bits)
    requires Frequencies(norm) && 5 <= tableLog <= MAX_TABLELOG
    requires AtRound(header[..], l, norm, tableLog, b) && ToGo(norm, tableLog, l.symbol, b)
    requires l.symbol < |norm| && l.remaining > 1 && (writeIsSafe ==> fits)
    requires fits ==> Completes(norm, tableLog, 0) && RoomFor(header.Length, HeaderBits(norm, tableLog).len)
    modifies header
    ensures fits ==> step.Ok?
    ensures step.Ok? ==> l.symbol < step.value.symbol && AtRound(header[..], step.value, norm, tableLog, d)
    ensures step.Ok? ==> ToGo(norm, tableLog, step.value.symbol, d)
  {
    ghost var stuck := Stuck(norm, tableLog, l.symbol);
    assert fits ==> FitsNext(norm, tableLog, l.symbol, b, header.Length) by { RoomAhead(norm, tableLog, l.symbol, b, header.Length); }
    step := WriteSymbol(header, l, norm, tableLog, writeIsSafe, b, fits);
    d := if stuck then b else PushSymbol(norm, tableLog, l.symbol, b);
    assert step.Ok? ==> ToGo(norm, tableLog, step.value.symbol, d) by { RoomAhead(norm, tableLog, l.symbol, b, header.Length); }
  }

  /** What is still to be written completes the header. */
  ghost predicate ToGo(norm: seq<int>, tableLog: nat, s: nat, b: Bits) {
    && Frequencies(norm) && tableLog >= 5 && s <= |norm| && b.Ok()
    && Header(norm, tableLog, s, b) == HeaderBits(norm, tableLog)
    && Completes(norm, tableLog, s) == Completes(norm, tableLog, 0)
  }

  lemma {:induction false} RoomAhead(norm: seq<int>, tableLog: nat, s: nat, b: Bits, capacity: nat)
    requires ToGo(norm, tableLog, s, b) && s < |norm| && Remaining(norm, tableLog, s) > 1
    ensures !Stuck(norm, tableLog, s) ==>
              ToGo(norm, tableLog, NextSymbol(norm, s) + 1, PushSymbol(norm, tableLog, s, b))
    ensures Stuck(norm, tableLog, s) ==> !Completes(norm, tableLog, 0)
    ensures Completes(norm, tableLog, 0) && RoomFor(capacity, HeaderBits(norm, tableLog).len) ==>
              FitsNext(norm, tableLog, s, b, capacity)
  {
    if !Stuck(norm, tableLog, s) {
      HeaderExtends(norm, tableLog, NextSymbol(norm, s) + 1, PushSymbol(norm, tableLog, s, b));
      SymbolExtends(norm, tableLog, s, b);
    }
  }

  /** The table log on 4 bits, and the loop variables before the first symbol. */
  method Start(ghost bytes: seq<byte>, ghost norm: seq<int>, tableLog: nat) returns (l: Round)
    requires 5 <= tableLog <= MAX_TABLELOG
    ensures AtRound(bytes, l, norm, tableLog, Push(EMPTY, tableLog - MIN_TABLELOG, 4))
    ensures l.symbol == 0
  {
    assert Pow2(4) == 16;
    PutHolds(bytes, Writer(0, 0, 0), EMPTY, tableLog - MIN_TABLELOG, 4);
    var w := Put(Writer(0, 0, 0), tableLog - MIN_TABLELOG, 4);
    HighBitUnique(Pow2(tableLog) + 1, tableLog);
    l := Round(w, 0, Pow2(tableLog) + 1, Pow2(tableLog), tableLog + 1, false);
  }

  /** The last one or two bytes. */
  method Finish(bytes: array<byte>, w: Writer, writeIsSafe: bool, ghost b: Bits, ghost fits: bool)
    returns (r: Result<nat>)
    requires Holds(bytes[..], w, b) && w.bitCount <= 16
    requires (writeIsSafe ==> fits) && (fits ==> RoomFor(bytes.Length, b.len))
    modifies bytes
    ensures fits ==> r.Ok?
    ensures r.Ok? ==> r.value == (b.len + 7) / 8 <= bytes.Length && LE(bytes[..r.value]) == b.val
  {
    if !writeIsSafe && w.out > bytes.Length - 2 {
      return Err(DstSizeTooSmall);
    }
    StoreTwo(bytes, w, b);
    Pow2Mono(w.bitCount, 16);
    LowSmall(w.bitStream, 16);
    var size := w.out + (w.bitCount + 7) / 8;
    assert bytes[..w.out + 2][..size] == bytes[..size];
    WholeBytes(bytes[..w.out + 2], b, size);
    r := Ok(size);
  }

  lemma {:induction false} WholeBytes(all: seq<byte>, b: Bits, size: nat)
    requires b.Ok() && LE(all) == b.val && b.len <= 8 * size && size <= |all|
    ensures LE(all[..size]) == b.val
  {
    LESplit(all, size);
    Pow2Mono(b.len, 8 * size);
    LowSmall(b.val, 8 * size);
  }
}
