/**
 FSE_readNCount_body. For arbitrary bytes it terminates within its buffer and its successes are
 distributions; on a written header, whatever follows it, it recovers what was written. The second
 claim follows the reader through the bits of the writer: after every symbol the reader's position
 is where the writer stood, what remains is what remained, and the frequencies read so far are those
 written. Reads of fewer than 8 bytes go through a buffer padded with zeros.
 */
module NCountReader {
  import opened Numeric
  import opened Bytes
  import opened BitStack
  import opened Results
  import opened Distribution
  import opened NCountFormat
  import opened NCountBits

  const TABLELOG_ABSOLUTE_MAX := 15

  datatype NCount = NCount(size: nat, maxSymbolValue: nat, tableLog: nat)

  /** A position of the window in a buffer: only at its end do more than 7 bits precede the window. */
  datatype Cursor = Cursor(ip: nat, bitCount: nat) {
    ghost predicate In(size: nat) {
      ip + 4 <= size && bitCount <= 31 && (bitCount <= 7 || ip + 4 == size)
    }

    function Position(): nat {
      8 * ip + bitCount
    }
  }

  /** Moves the window to where the bits consumed so far end, without leaving the buffer. */
  function Advance(ip: nat, bitCount: nat, size: nat): (c: Cursor)
    requires ip + 4 <= size && (ip + 7 <= size ==> bitCount <= 31)
    ensures c.In(size)
    ensures 8 * ip + bitCount < 8 * size ==> c.Position() == 8 * ip + bitCount
  {
    if ip + 7 <= size || ip + bitCount / 8 + 4 <= size then Cursor(ip + bitCount / 8, bitCount % 8)
    else Cursor(size - 4, (bitCount - 8 * (size - 4 - ip)) % 32)
  }

  /** Moves the window past 12 pairs of bits. */
  function SkipBlock(c: Cursor, size: nat): (r: Cursor)
    requires c.In(size) && size >= 8
    ensures r.In(size)
    ensures c.Position() + 24 < 8 * size ==> r.Position() == c.Position() + 24
  {
    if c.ip + 7 <= size then Cursor(c.ip + 3, c.bitCount)
    else Cursor(size - 4, (c.bitCount - 8 * (size - 7 - c.ip)) % 32)
  }

  /** Bounds the blocks that can still be skipped once the window is at the end of the buffer. */
  function BlocksLeft(c: Cursor): (n: nat)
  {
    if c.bitCount == 8 then 2 else if c.bitCount < 8 then 1 else 0
  }

  /** The bits of the buffer. */
  ghost function BufferBits(buf: seq<byte>): (f: Bits)
    ensures f.Ok()
  {
    LEBound(buf);
    Bits(8 * |buf|, LE(buf))
  }

  // ----- a run of absent symbols -----

  /** The window shows the run that z more symbols make, from the bits b on. */
  ghost predicate InRun(buf: seq<byte>, c: Cursor, b: Bits, z: nat) {
    b.Ok() && b.len == c.Position() && Extends(BufferBits(buf), PushRun(b, z))
  }

  /** How wide the window is compared to what is left of the run. */
  lemma {:induction false} WindowWide(buf: seq<byte>, c: Cursor, b: Bits, z: nat)
    requires c.In(|buf|) && InRun(buf, c, b, z)
    ensures 2 * (z / 3) + 2 <= 32 - c.bitCount || (32 - c.bitCount >= 24 && z / 3 >= 12)
    ensures z / 3 >= 12 ==> 32 - c.bitCount >= 24 && c.Position() + 24 < 8 * |buf|
  {
    PushRunLength(b, z);
  }

  lemma {:induction false} BlockStep(buf: seq<byte>, c: Cursor, b: Bits, z: nat)
    requires |buf| >= 8 && c.In(|buf|) && InRun(buf, c, b, z)
    requires Repeats(Window(buf, c.ip, c.bitCount)) >= 12
    ensures z >= 36 && InRun(buf, SkipBlock(c, |buf|), PushPairs(b, 12), z - 36)
  {
    assert z / 3 >= 12 by {
      WindowIsField(buf, c.ip, c.bitCount);
      WindowWide(buf, c, b, z);
      if z / 3 < 12 {
        RunSeen(BufferBits(buf), b, z, 32 - c.bitCount, 31);
      }
    }
    WindowWide(buf, c, b, z);
    RunOfPairs(b, z, 12);
  }

  lemma {:induction false} RunEnd(buf: seq<byte>, c: Cursor, b: Bits, z: nat)
    requires c.In(|buf|) && InRun(buf, c, b, z)
    requires Repeats(Window(buf, c.ip, c.bitCount)) < 12
    ensures Repeats(Window(buf, c.ip, c.bitCount)) == z / 3
    ensures Low(Shr(Window(buf, c.ip, c.bitCount), 2 * (z / 3)), 2) == z % 3
  {
    var w := 32 - c.bitCount;
    WindowIsField(buf, c.ip, c.bitCount);
    WindowWide(buf, c, b, z);
    if z / 3 >= 12 {
      PairsSeen(BufferBits(buf), b, z, w, 31, 12);
    }
    RunSeen(BufferBits(buf), b, z, w, 31);
  }

  /** 24 set bits in the window leave at most 8 bits before it. */
  lemma {:induction false} BlockAtEnd(buf: seq<byte>, c: Cursor)
    requires c.In(|buf|) && Repeats(Window(buf, c.ip, c.bitCount)) >= 12
    ensures c.bitCount <= 8
  {
    WindowIsField(buf, c.ip, c.bitCount);
    TrailingOnesBound(Window(buf, c.ip, c.bitCount), 31, 32 - c.bitCount);
  }

  /** The whole run: blocks of 36 symbols while the window shows 12 pairs, then what is left. */
  method ReadRun(buf: seq<byte>, c0: Cursor, charnum0: nat, ghost good: bool, ghost b0: Bits, ghost z0: nat)
    returns (charnum: nat, ip: nat, bitCount: nat)
    requires |buf| >= 8 && c0.In(|buf|)
    requires good ==> InRun(buf, c0, b0, z0)
    ensures ip + 4 <= |buf| && (ip + 7 <= |buf| ==> bitCount <= 31) && bitCount <= 63
    ensures charnum >= charnum0
    ensures good ==> charnum == charnum0 + z0 && 8 * ip + bitCount == PushRun(b0, z0).len
  {
    charnum := charnum0;
    var c := c0;
    ghost var b, z := b0, z0;
    var repeats := Repeats(Window(buf, c.ip, c.bitCount));
    while repeats >= 12
      invariant c.In(|buf|) && charnum >= charnum0
      invariant repeats == Repeats(Window(buf, c.ip, c.bitCount))
      invariant good ==> InRun(buf, c, b, z) && charnum + z == charnum0 + z0
                         && PushRun(b, z).len == PushRun(b0, z0).len
      decreases |buf| - 4 - c.ip, BlocksLeft(c)
    {
      if good {
        BlockStep(buf, c, b, z);
        RunOfPairs(b, z, 12);
        b, z := PushPairs(b, 12), z - 36;
      }
      BlockAtEnd(buf, c);
      charnum := charnum + 36;
      c := SkipBlock(c, |buf|);
      repeats := Repeats(Window(buf, c.ip, c.bitCount));
    }
    if good {
      RunEnd(buf, c, b, z);
      PushRunLength(b, z);
    }
    var rest := Low(Shr(Window(buf, c.ip, c.bitCount), 2 * repeats), 2);
    charnum := charnum + 3 * repeats + rest;
    ip, bitCount := c.ip, c.bitCount + 2 * repeats + 2;
  }

  // ----- the main loop -----

  /** The bytes begin with the header of a distribution, and may go on with anything. */
  ghost predicate HasHeader(buf: seq<byte>, want: seq<int>, tableLog: nat) {
    && Normalized(want, tableLog) && MIN_TABLELOG <= tableLog <= TABLELOG_ABSOLUTE_MAX
    && Extends(BufferBits(buf), HeaderBits(want, tableLog))
  }

  /** Every present symbol is below maxSV1. */
  ghost predicate PresentBelow(want: seq<int>, maxSV1: nat) {
    forall s :: maxSV1 <= s < |want| ==> want[s] == 0
  }

  /** Position p is where the writer stood before symbol s, after the bits b. */
  ghost predicate AtSymbol(p: nat, want: seq<int>, tableLog: nat, s: nat, b: Bits) {
    && Frequencies(want) && tableLog >= MIN_TABLELOG && s <= |want| && b.Ok() && b.len == p
    && Header(want, tableLog, s, b) == HeaderBits(want, tableLog)
  }

  /** While cells remain, a symbol takes some of them. */
  lemma {:induction false} NotStuck(want: seq<int>, tableLog: nat, s: nat)
    requires Normalized(want, tableLog) && s <= |want| && Remaining(want, tableLog, s) > 1
    ensures !Stuck(want, tableLog, s)
    ensures Remaining(want, tableLog, NextSymbol(want, s)) == Remaining(want, tableLog, s)
  {
    var t := NextSymbol(want, s);
    NextSymbolWeight(want, tableLog, s);
    if t < |want| {
      WeightMono(want, t, |want|);
    }
  }

  /** What extends the header from symbol s on shows the bits of the next present symbol. */
  lemma {:induction false} NextShown(f: Bits, want: seq<int>, tableLog: nat, s: nat, b: Bits)
    requires Frequencies(want) && s <= |want| && b.Ok() && Remaining(want, tableLog, s) > 1
    requires !Stuck(want, tableLog, s) && Extends(f, Header(want, tableLog, s, b))
    ensures Extends(f, PushSymbol(want, tableLog, s, b)) && Extends(f, PushGap(want, s, b))
  {
    var d := PushSymbol(want, tableLog, s, b);
    HeaderExtends(want, tableLog, NextSymbol(want, s) + 1, d);
    ExtendsTrans(f, Header(want, tableLog, s, b), d);
    SymbolExtends(want, tableLog, s, b);
    ExtendsTrans(f, d, PushGap(want, s, b));
  }

  lemma {:induction false} CountTakesBits(want: seq<int>, tableLog: nat, s: nat, b: Bits)
    requires Frequencies(want) && s <= |want| && b.Ok() && Remaining(want, tableLog, s) > 1 && tableLog >= 1
    requires !Stuck(want, tableLog, s)
    ensures PushGap(want, s, b).len < PushSymbol(want, tableLog, s, b).len
  {
    var t := NextSymbol(want, s);
    NextSymbolWeight(want, tableLog, s);
    CountFits(Remaining(want, tableLog, t), want[t] + 1, tableLog);
  }

  /** While cells remain, the bits of the next present symbol are in the buffer. */
  lemma {:induction false} NextInBuffer(buf: seq<byte>, p: nat, want: seq<int>, tableLog: nat, s: nat, b: Bits)
    requires HasHeader(buf, want, tableLog) && AtSymbol(p, want, tableLog, s, b)
    requires Remaining(want, tableLog, s) > 1
    ensures !Stuck(want, tableLog, s)
    ensures Extends(BufferBits(buf), PushSymbol(want, tableLog, s, b))
    ensures Extends(BufferBits(buf), PushGap(want, s, b))
    ensures PushGap(want, s, b).len < PushSymbol(want, tableLog, s, b).len <= 8 * |buf|
  {
    NotStuck(want, tableLog, s);
    NextShown(BufferBits(buf), want, tableLog, s, b);
    CountTakesBits(want, tableLog, s, b);
  }

  /** `if (previous0) { ... }`, up to the symbol whose count comes next. */
  method ReadGap(buf: seq<byte>, c0: Cursor, charnum0: nat, previous0: bool, maxSV1: nat,
                 ghost good: bool, ghost want: seq<int>, ghost tableLog: nat, ghost b: Bits)
    returns (charnum: nat, c: Cursor)
    requires |buf| >= 8 && c0.In(|buf|) && charnum0 < maxSV1
    requires good ==> HasHeader(buf, want, tableLog) && AtSymbol(c0.Position(), want, tableLog, charnum0, b)
                      && Remaining(want, tableLog, charnum0) > 1 && PresentBelow(want, maxSV1)
                      && previous0 == AfterZero(want, charnum0)
    ensures charnum >= charnum0 && c.In(|buf|)
    ensures good ==> charnum == NextSymbol(want, charnum0) < maxSV1
                     && c.Position() == PushGap(want, charnum0, b).len
  {
    if good {
      NextInBuffer(buf, c0.Position(), want, tableLog, charnum0, b);
    }
    charnum, c := charnum0, c0;
    if previous0 {
      ghost var z := if good then NextSymbol(want, charnum0) - charnum0 else 0;
      var ip, bitCount;
      charnum, ip, bitCount := ReadRun(buf, c0, charnum0, good, b, z);
      if charnum >= maxSV1 {
        return;
      }
      c := Advance(ip, bitCount, |buf|);
    }
  }


  ghost predicate CountNext(buf: seq<byte>, c: Cursor, want: seq<int>, tableLog: nat, s: nat, b: Bits) {
    && Normalized(want, tableLog) && 1 <= tableLog <= TABLELOG_ABSOLUTE_MAX && s <= |want| && b.Ok()
    && !Stuck(want, tableLog, s) && Remaining(want, tableLog, NextSymbol(want, s)) > 1
    && c.Position() == PushGap(want, s, b).len
    && Extends(BufferBits(buf), PushSymbol(want, tableLog, s, b))
  }

  lemma {:induction false} CountShown(buf: seq<byte>, c: Cursor, want: seq<int>, tableLog: nat, s: nat, b: Bits)
    requires c.In(|buf|) && CountNext(buf, c, want, tableLog, s, b)
    ensures var t := NextSymbol(want, s);
            var seen := CountSeen(Window(buf, c.ip, c.bitCount), Remaining(want, tableLog, t));
            seen.0 - 1 == want[t] && c.Position() + seen.1 == PushSymbol(want, tableLog, s, b).len
  {
    var t := NextSymbol(want, s);
    var remaining := Remaining(want, tableLog, t);
    CountInWindow(buf, c, want, tableLog, s, b);
    assert Window(buf, c.ip, c.bitCount) == Field(BufferBits(buf).val, c.Position(), 32 - c.bitCount) by {
      WindowIsField(buf, c.ip, c.bitCount);
    }
    CountReadBack(BufferBits(buf), PushGap(want, s, b), remaining, want[t] + 1, 32 - c.bitCount, tableLog);
  }

  /** The window is wide enough for the field of a count. */
  lemma {:induction false} CountInWindow(buf: seq<byte>, c: Cursor, want: seq<int>, tableLog: nat, s: nat, b: Bits)
    requires c.In(|buf|) && CountNext(buf, c, want, tableLog, s, b)
    ensures var t := NextSymbol(want, s);
            CountWidth(Remaining(want, tableLog, t), want[t] + 1) <= 32 - c.bitCount
  {
    var t := NextSymbol(want, s);
    var n := CountWidth(Remaining(want, tableLog, t), want[t] + 1);
    assert n <= 16 by { CountFits(Remaining(want, tableLog, t), want[t] + 1, tableLog); }
    assert c.Position() + n <= 8 * |buf|;
  }

  /** The count of one symbol: what it takes, and where its bits end. */
  method ReadCount(buf: seq<byte>, c: Cursor, remaining: nat,
                   ghost good: bool, ghost want: seq<int>, ghost tableLog: nat, ghost s: nat, ghost b: Bits)
    returns (count: int, bitCount: nat)
    requires |buf| >= 8 && c.In(|buf|) && 1 < remaining <= Pow2(TABLELOG_ABSOLUTE_MAX) + 1
    requires good ==> CountNext(buf, c, want, tableLog, s, b)
                      && remaining == Remaining(want, tableLog, NextSymbol(want, s))
    ensures -1 <= count && Abs(count) < remaining
    ensures c.bitCount <= bitCount <= c.bitCount + 16
    ensures good ==> count == want[NextSymbol(want, s)]
                     && 8 * c.ip + bitCount == PushSymbol(want, tableLog, s, b).len
  {
    CountInRange(Window(buf, c.ip, c.bitCount), remaining);
    if HighBit(remaining) > 15 {
      Pow2Mono(16, HighBit(remaining));
    }
    if good {
      CountShown(buf, c, want, tableLog, s, b);
    }
    var seen := CountSeen(Window(buf, c.ip, c.bitCount), remaining);
    count, bitCount := seen.0 - 1, c.bitCount + seen.1;
  }

  // ----- the distribution being read -----

  /** The frequencies below k have been read and account for what is distributed; the others are 0. */
  ghost predicate ReadUpTo(norm: seq<int>, tableLog: nat, k: nat, remaining: nat) {
    && 0 < |norm| <= 256 && k <= |norm|
    && (forall s :: 0 <= s < |norm| ==> norm[s] >= -1)
    && (forall s :: k <= s < |norm| ==> norm[s] == 0)
    && Weight(norm, k) + remaining == Pow2(tableLog) + 1
  }

  lemma {:induction false} WeightAgrees(a: seq<int>, b: seq<int>, k: nat)
    requires k <= |a| && k <= |b| && a[..k] == b[..k]
    ensures Weight(a, k) == Weight(b, k)
  {
    if k > 0 {
      assert a[k - 1] == a[..k][k - 1] && b[k - 1] == b[..k][k - 1];
      assert a[..k - 1] == a[..k][..k - 1] && b[..k - 1] == b[..k][..k - 1];
      WeightAgrees(a, b, k - 1);
    }
  }

  lemma {:induction false} StoreCount(was: seq<int>, now: seq<int>, tableLog: nat, k: nat, t: nat,
                                      remaining: nat, count: int)
    requires ReadUpTo(was, tableLog, k, remaining) && k <= t < |was|
    requires -1 <= count && Abs(count) < remaining && now == was[t := count]
    ensures ReadUpTo(now, tableLog, t + 1, remaining - Abs(count))
  {
    WeightOfZeros(was, k, t);
    WeightAgrees(was, now, t);
  }

  /** The frequencies below k are those wanted. */
  ghost predicate Matches(norm: seq<int>, want: seq<int>, k: nat) {
    k <= |norm| && k <= |want| && norm[..k] == want[..k]
  }

  lemma {:induction false} MatchNext(was: seq<int>, want: seq<int>, s: nat, t: nat)
    requires Matches(was, want, s) && s <= t < |was| && t < |want| && t == NextSymbol(want, s)
    requires forall i :: s <= i < |was| ==> was[i] == 0
    ensures Matches(was[t := want[t]], want, t + 1)
  {
  }

  /** Once everything is distributed, the symbols that follow are absent. */
  lemma {:induction false} RestAbsent(want: seq<int>, tableLog: nat, s: nat)
    requires Normalized(want, tableLog) && s <= |want| && Remaining(want, tableLog, s) == 1
    ensures forall i :: s <= i < |want| ==> want[i] == 0
  {
    forall i | s <= i < |want|
      ensures want[i] == 0
    {
      WeightAscends(want, s, i);
      WeightMono(want, i, |want|);
    }
  }

  // ----- the whole header -----

  /** The variables of the main loop. */
  datatype Round = Round(c: Cursor, charnum: nat, remaining: nat, previous0: bool)

  /** The variables agree with the writer's after the bits b, which end at position p. */
  ghost predicate OnTrack(buf: seq<byte>, norm: seq<int>, l: Round, p: nat, want: seq<int>, tableLog: nat, b: Bits) {
    HasHeader(buf, want, tableLog) && PresentBelow(want, |norm|) && Follows(norm, l, p, want, tableLog, b)
  }

  ghost predicate Follows(norm: seq<int>, l: Round, p: nat, want: seq<int>, tableLog: nat, b: Bits) {
    && l.charnum <= |want|
    && AtSymbol(p, want, tableLog, l.charnum, b) && Matches(norm, want, l.charnum)
    && l.remaining == Remaining(want, tableLog, l.charnum) && l.previous0 == AfterZero(want, l.charnum)
  }

  /** The writer's position after the next symbol. */
  lemma {:induction false} NextPosition(want: seq<int>, tableLog: nat, s: nat, b: Bits)
    requires AtSymbol(b.len, want, tableLog, s, b) && Remaining(want, tableLog, s) > 1 && !Stuck(want, tableLog, s)
    ensures var t, d := NextSymbol(want, s), PushSymbol(want, tableLog, s, b);
            && AtSymbol(d.len, want, tableLog, t + 1, d) && AfterZero(want, t + 1) == (want[t] == 0)
            && Remaining(want, tableLog, t + 1) == Remaining(want, tableLog, s) - Abs(want[t])
  {
    NextSymbolWeight(want, tableLog, s);
  }

  lemma {:induction false} FollowsNext(was: seq<int>, now: seq<int>, l: Round, want: seq<int>, tableLog: nat, b: Bits, next: Round, t: nat, d: Bits)
    requires Follows(was, l, b.len, want, tableLog, b) && l.remaining > 1 && ReadUpTo(was, tableLog, l.charnum, l.remaining)
    requires !Stuck(want, tableLog, l.charnum) && t == NextSymbol(want, l.charnum) && d == PushSymbol(want, tableLog, l.charnum, b)
    requires t < |was| && t < |want| && now == was[t := want[t]]
    requires next.charnum == t + 1 && next.remaining == l.remaining - Abs(want[t]) && next.previous0 == (want[t] == 0)
    ensures Follows(now, next, d.len, want, tableLog, d)
  {
    assert Matches(now, want, t + 1) by { MatchNext(was, want, l.charnum, t); }
    NextPosition(want, tableLog, l.charnum, b);
  }

  /** After a count the writer's next state is reached. */
  lemma {:induction false} TrackNext(buf: seq<byte>, was: seq<int>, now: seq<int>, l: Round, want: seq<int>,
                                     tableLog: nat, b: Bits, next: Round)
    requires OnTrack(buf, was, l, l.c.Position(), want, tableLog, b) && l.remaining > 1
    requires ReadUpTo(was, tableLog, l.charnum, l.remaining)
    requires var t := NextSymbol(want, l.charnum);
             && t < |was| && t < |want| && now == was[t := want[t]]
             && next.charnum == t + 1 && next.remaining == l.remaining - Abs(want[t]) && next.previous0 == (want[t] == 0)
    ensures !Stuck(want, tableLog, l.charnum)
    ensures var d := PushSymbol(want, tableLog, l.charnum, b);
            OnTrack(buf, now, next, d.len, want, tableLog, d)
  {
    NotStuck(want, tableLog, l.charnum);
    FollowsNext(was, now, l, want, tableLog, b, next, NextSymbol(want, l.charnum), PushSymbol(want, tableLog, l.charnum, b));
  }

  /**
   One round: a run, then a count, whose bits end bitCount after the cursor. There is no count when
   the run leaves the table of symbols.
   */
  method ReadSymbol(norm: array<int>, buf: seq<byte>, l: Round, tableLog: nat,
                    ghost good: bool, ghost want: seq<int>, ghost b: Bits)
    returns (done: bool, next: Round, bitCount: nat)
    requires |buf| >= 8 && l.c.In(|buf|) && tableLog <= TABLELOG_ABSOLUTE_MAX
    requires ReadUpTo(norm[..], tableLog, l.charnum, l.remaining) && l.charnum < norm.Length && l.remaining > 1
    requires good ==> OnTrack(buf, norm[..], l, l.c.Position(), want, tableLog, b)
    modifies norm
    ensures !done ==> !good
    ensures done ==> next.c.In(|buf|) && l.charnum < next.charnum <= norm.Length && 1 <= next.remaining
    ensures done ==> ReadUpTo(norm[..], tableLog, next.charnum, next.remaining)
    ensures done ==> next.c.bitCount <= bitCount <= next.c.bitCount + 16
    ensures done && next.remaining < l.remaining ==> norm[next.charnum - 1] != 0
    ensures good ==> !Stuck(want, tableLog, l.charnum) &&
                     var d := PushSymbol(want, tableLog, l.charnum, b);
                     OnTrack(buf, norm[..], next, d.len, want, tableLog, d) && d.len == 8 * next.c.ip + bitCount
  {
    var charnum, c := ReadGap(buf, l.c, l.charnum, l.previous0, norm.Length, good, want, tableLog, b);
    if charnum >= norm.Length {
      return false, l, 0;
    }
    next, bitCount := StoreSymbol(norm, buf, l, c, charnum, tableLog, good, want, b);
    done := true;
  }

  /** The second half of a round. */
  method StoreSymbol(norm: array<int>, buf: seq<byte>, l: Round, c: Cursor, charnum: nat, tableLog: nat,
                     ghost good: bool, ghost want: seq<int>, ghost b: Bits)
    returns (next: Round, bitCount: nat)
    requires |buf| >= 8 && c.In(|buf|) && tableLog <= TABLELOG_ABSOLUTE_MAX
    requires ReadUpTo(norm[..], tableLog, l.charnum, l.remaining) && l.remaining > 1
    requires l.charnum <= charnum < norm.Length
    requires good ==> OnTrack(buf, norm[..], l, l.c.Position(), want, tableLog, b)
                      && charnum == NextSymbol(want, l.charnum) && c.Position() == PushGap(want, l.charnum, b).len
    modifies norm
    ensures next.c == c && next.charnum == charnum + 1 && 1 <= next.remaining
    ensures ReadUpTo(norm[..], tableLog, next.charnum, next.remaining)
    ensures c.bitCount <= bitCount <= c.bitCount + 16
    ensures next.remaining < l.remaining ==> norm[charnum] != 0
    ensures good ==> !Stuck(want, tableLog, l.charnum) &&
                     var d := PushSymbol(want, tableLog, l.charnum, b);
                     OnTrack(buf, norm[..], next, d.len, want, tableLog, d) && d.len == 8 * c.ip + bitCount
  {
    ghost var was := norm[..];
    if good {
      CountIsNext(buf, norm[..], l, c, want, tableLog, b);
    }
    assert l.remaining <= Pow2(TABLELOG_ABSOLUTE_MAX) + 1 by {
      Pow2Mono(tableLog, TABLELOG_ABSOLUTE_MAX);
    }
    var count;
    count, bitCount := ReadCount(buf, c, l.remaining, good, want, tableLog, l.charnum, b);
    norm[charnum] := count;
    next := Round(c, charnum + 1, l.remaining - Abs(count), count == 0);
    StoreCount(was, norm[..], tableLog, l.charnum, charnum, l.remaining, count);
    if good {
      TrackNext(buf, was, norm[..], l, want, tableLog, b, next);
    }
  }

  lemma {:induction false} CountIsNext(buf: seq<byte>, norm: seq<int>, l: Round, c: Cursor, want: seq<int>,
                                       tableLog: nat, b: Bits)
    requires OnTrack(buf, norm, l, l.c.Position(), want, tableLog, b) && l.remaining > 1
    requires c.Position() == PushGap(want, l.charnum, b).len
    ensures CountNext(buf, c, want, tableLog, l.charnum, b)
    ensures l.remaining == Remaining(want, tableLog, NextSymbol(want, l.charnum))
  {
    NextInBuffer(buf, l.c.Position(), want, tableLog, l.charnum, b);
    NotStuck(want, tableLog, l.charnum);
  }

  /** A successful reading: a distribution up to its last present symbol, from within the buffer. */
  ghost predicate IsReading(norm: seq<int>, n: NCount, size: nat) {
    && n.size <= size && n.maxSymbolValue < |norm| && MIN_TABLELOG <= n.tableLog <= TABLELOG_ABSOLUTE_MAX
    && Normalized(norm[..n.maxSymbolValue + 1], n.tableLog) && norm[n.maxSymbolValue] != 0
    && forall s :: n.maxSymbolValue < s < |norm| ==> norm[s] == 0
  }

  /** The reading of a written header: its distribution, its table log and its length. */
  ghost predicate ReadsBack(norm: seq<int>, n: NCount, want: seq<int>, tableLog: nat) {
    && Frequencies(want) && tableLog >= MIN_TABLELOG && n.tableLog == tableLog
    && n.size == (HeaderBits(want, tableLog).len + 7) / 8
    && forall s :: 0 <= s < |norm| ==> norm[s] == if s < |want| then want[s] else 0
  }

  /** The table log, from the first 4 bits. */
  lemma {:induction false} TableLogSeen(buf: seq<byte>, want: seq<int>, tableLog: nat)
    requires |buf| >= 4 && HasHeader(buf, want, tableLog)
    ensures Low(LE(buf[0..4]), 4) == tableLog - MIN_TABLELOG
    ensures AtSymbol(4, want, tableLog, 0, Push(EMPTY, tableLog - MIN_TABLELOG, 4))
  {
    var b := Push(EMPTY, tableLog - MIN_TABLELOG, 4);
    HeaderExtends(want, tableLog, 0, b);
    ExtendsTrans(BufferBits(buf), HeaderBits(want, tableLog), b);
    FieldOfExtension(BufferBits(buf), EMPTY, tableLog - MIN_TABLELOG, 4);
    assert Pow2(4) == 16;
    LowSmall(tableLog - MIN_TABLELOG, 4);
    LEWindow(buf, 0, 4);
    LowTower(LE(buf), 4, 32);
  }

  /** When nothing remains, the variables hold a distribution. */
  lemma {:induction false} Finished(norm: seq<int>, tableLog: nat, k: nat)
    requires ReadUpTo(norm, tableLog, k, 1) && 0 < k
    ensures Normalized(norm[..k], tableLog)
  {
    WeightAgrees(norm, norm[..k], k);
  }

  lemma {:induction false} FinishedOnTrack(buf: seq<byte>, norm: seq<int>, l: Round, p: nat, want: seq<int>,
                                           tableLog: nat, b: Bits)
    requires OnTrack(buf, norm, l, p, want, tableLog, b) && l.remaining == 1
    requires ReadUpTo(norm, tableLog, l.charnum, 1)
    ensures HeaderBits(want, tableLog) == b && b.len == p <= 8 * |buf|
    ensures forall s :: 0 <= s < |norm| ==> norm[s] == if s < |want| then want[s] else 0
  {
    RestAbsent(want, tableLog, l.charnum);
    forall s | 0 <= s < |norm|
      ensures norm[s] == if s < |want| then want[s] else 0
    {
      if s < l.charnum {
        assert norm[s] == norm[..l.charnum][s] && want[s] == want[..l.charnum][s];
      }
    }
  }

  /** More symbols follow, so the position is inside the buffer and in the table of symbols. */
  lemma {:induction false} GoesOn(buf: seq<byte>, norm: seq<int>, l: Round, p: nat, want: seq<int>,
                                  tableLog: nat, b: Bits)
    requires OnTrack(buf, norm, l, p, want, tableLog, b) && l.remaining > 1
    ensures p < 8 * |buf| && l.charnum < |norm|
  {
    assert p < 8 * |buf| by {
      NextInBuffer(buf, p, want, tableLog, l.charnum, b);
      GapLength(want, l.charnum, b);
    }
    if l.charnum >= |norm| {
      WeightOfZeros(want, l.charnum, |want|);
      assert false;
    }
  }

  lemma {:induction false} GapLength(want: seq<int>, s: nat, b: Bits)
    requires s <= |want| && b.Ok()
    ensures b.len <= PushGap(want, s, b).len
  {
    if AfterZero(want, s) {
      PushRunLength(b, NextSymbol(want, s) - s);
    }
  }

  /** FSE_readNCount_body for at least 8 bytes. */
  method ReadNCountBody(norm: array<int>, buf: seq<byte>, ghost want: seq<int>, ghost wantLog: nat)
    returns (r: Result<NCount>)
    requires |buf| >= 8 && 1 <= norm.Length <= MAX_SYMBOL_VALUE + 1
    modifies norm
    ensures r.Ok? ==> IsReading(norm[..], r.value, |buf|)
    ensures HasHeader(buf, want, wantLog) && PresentBelow(want, norm.Length) ==>
              r.Ok? && ReadsBack(norm[..], r.value, want, wantLog)
  {
    ghost var good := HasHeader(buf, want, wantLog) && PresentBelow(want, norm.Length);
    if good {
      TableLogSeen(buf, want, wantLog);
    }
    forall i | 0 <= i < norm.Length {
      norm[i] := 0;
    }
    var tableLog := Low(LE(buf[0..4]), 4) + MIN_TABLELOG;
    if tableLog > TABLELOG_ABSOLUTE_MAX {
      return Err(TableLogTooLarge);
    }
    var l := Round(Cursor(0, 4), 0, Pow2(tableLog) + 1, false);
    ghost var b := if good then Push(EMPTY, wantLog - MIN_TABLELOG, 4) else EMPTY;
    while true
      invariant l.c.In(|buf|) && l.charnum < norm.Length && l.remaining > 1
      invariant ReadUpTo(norm[..], tableLog, l.charnum, l.remaining)
      invariant good ==> tableLog == wantLog && OnTrack(buf, norm[..], l, l.c.Position(), want, wantLog, b)
      decreases norm.Length - l.charnum
    {
      var done, next, bitCount := ReadSymbol(norm, buf, l, tableLog, good, want, b);
      if !done {
        return Err(CorruptionDetected);
      }
      if good {
        b := PushSymbol(want, wantLog, l.charnum, b);
      }
      if next.remaining <= 1 {
        r := ReadEnd(norm, buf, next, bitCount, tableLog, good, want, b);
        return;
      }
      if good {
        GoesOn(buf, norm[..], next, 8 * next.c.ip + bitCount, want, wantLog, b);
      }
      if next.charnum >= norm.Length {
        return Err(CorruptionDetected);
      }
      l := next.(c := Advance(next.c.ip, bitCount, |buf|));
    }
  }

  /** After the loop: the length used. */
  method ReadEnd(norm: array<int>, buf: seq<byte>, l: Round, bitCount: nat, tableLog: nat,
                 ghost good: bool, ghost want: seq<int>, ghost b: Bits) returns (r: Result<NCount>)
    requires |buf| >= 8 && l.c.In(|buf|) && bitCount <= l.c.bitCount + 16
    requires l.charnum > 0 && l.remaining == 1 && MIN_TABLELOG <= tableLog <= TABLELOG_ABSOLUTE_MAX
    requires ReadUpTo(norm[..], tableLog, l.charnum, 1) && norm[l.charnum - 1] != 0
    requires good ==> OnTrack(buf, norm[..], l, 8 * l.c.ip + bitCount, want, tableLog, b)
    ensures r.Ok? ==> IsReading(norm[..], r.value, |buf|)
    ensures good ==> r.Ok? && ReadsBack(norm[..], r.value, want, tableLog)
  {
    if good {
      FinishedOnTrack(buf, norm[..], l, 8 * l.c.ip + bitCount, want, tableLog, b);
    }
    if bitCount > 32 {
      return Err(CorruptionDetected);
    }
    Finished(norm[..], tableLog, l.charnum);
    r := Ok(NCount(l.c.ip + (bitCount + 7) / 8, l.charnum - 1, tableLog));
  }

  /**
   FSE_readNCount: shorter inputs are padded to 8 bytes first, and a header that would end in the
   padding is an error.
   */
  method ReadNCount(norm: array<int>, buf: seq<byte>, ghost want: seq<int>, ghost wantLog: nat)
    returns (r: Result<NCount>)
    requires 1 <= norm.Length <= MAX_SYMBOL_VALUE + 1
    modifies norm
    ensures r.Ok? ==> IsReading(norm[..], r.value, |buf|)
    ensures HasHeader(buf, want, wantLog) && PresentBelow(want, norm.Length) ==>
              r.Ok? && ReadsBack(norm[..], r.value, want, wantLog)
  {
    if |buf| >= 8 {
      r := ReadNCountBody(norm, buf, want, wantLog);
      return;
    }
    var zeros: seq<byte> := seq(8 - |buf|, _ => 0);
    var buffer := buf + zeros;
    ghost var good := HasHeader(buf, want, wantLog);
    if good {
      PaddedHeader(buf, zeros, want, wantLog);
    }
    r := ReadNCountBody(norm, buffer, want, wantLog);
    if r.Ok? && r.value.size > |buf| {
      r := Err(CorruptionDetected);
    }
  }

  lemma {:induction false} PaddedHeader(buf: seq<byte>, more: seq<byte>, want: seq<int>, tableLog: nat)
    requires HasHeader(buf, want, tableLog)
    ensures HasHeader(buf + more, want, tableLog)
    ensures (HeaderBits(want, tableLog).len + 7) / 8 <= |buf|
  {
    LEConcat(buf, more);
    LEBound(buf);
    Split(LE(buf), LE(more), 8 * |buf|);
    ExtendsTrans(BufferBits(buf + more), BufferBits(buf), HeaderBits(want, tableLog));
  }
}
