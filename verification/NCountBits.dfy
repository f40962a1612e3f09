/** What the reader of table headers sees through its 32-bit window. */
module NCountBits {
  import opened Numeric
  import opened Bytes
  import opened BitStack
  import opened Distribution
  import opened NCountFormat

  /** `MEM_readLE32(ip) >> bitCount` */
  function Window(buf: seq<byte>, ip: nat, bitCount: nat): (x: nat)
    requires ip + 4 <= |buf|
  {
    Shr(LE(buf[ip..ip + 4]), bitCount)
  }

  lemma {:induction false} WindowIsField(buf: seq<byte>, ip: nat, bitCount: nat)
    requires ip + 4 <= |buf| && bitCount <= 32
    ensures Window(buf, ip, bitCount) == Field(LE(buf), 8 * ip + bitCount, 32 - bitCount)
  {
    LEWindow(buf, ip, 4);
    LowTower(Shr(LE(buf), 8 * ip), bitCount, 32);
    ShrAdd(LE(buf), 8 * ip, bitCount);
  }

  // ----- runs of absent symbols -----

  /** The set bits at the low end of x, at most k of them. */
  function TrailingOnes(x: nat, k: nat): (n: nat)
    ensures n <= k
  {
    if k == 0 || x % 2 == 0 then 0 else 1 + TrailingOnes(x / 2, k - 1)
  }

  /** `ZSTD_countTrailingZeros32(~bitStream | 0x80000000) >> 1` */
  function Repeats(x: nat): (n: nat)
    ensures n <= 15
  {
    TrailingOnes(x, 31) / 2
  }

  lemma {:induction false} TrailingOnesBound(x: nat, k: nat, m: nat)
    requires x < Pow2(m)
    ensures TrailingOnes(x, k) <= m
  {
    if k > 0 && m > 0 {
      TrailingOnesBound(x / 2, k - 1, m - 1);
    }
  }

  lemma {:induction false} PairOnTop(x: nat, k: nat)
    ensures k >= 2 && Low(x, 2) == 3 ==> TrailingOnes(x, k) == 2 + TrailingOnes(Shr(x, 2), k - 2)
    ensures Low(x, 2) != 3 ==> TrailingOnes(x, k) < 2
  {
    assert Low(x, 2) == x % 2 + 2 * Low(x / 2, 1) && Low(x / 2, 1) == x / 2 % 2 + 2 * Low(x / 2 / 2, 0);
    assert Shr(x, 2) == Shr(x / 2, 1) && Shr(x / 2, 1) == Shr(x / 2 / 2, 0);
  }

  /** A run is seen whole: its pairs of set bits, then the two bits that end it. */
  lemma {:induction false} RunSeen(f: Bits, b: Bits, z: nat, w: nat, k: nat)
    requires b.Ok() && Extends(f, PushRun(b, z))
    requires 2 * (z / 3) + 2 <= w && 2 * (z / 3) <= k
    ensures TrailingOnes(Field(f.val, b.len, w), k) / 2 == z / 3
    ensures Low(Shr(Field(f.val, b.len, w), 2 * (z / 3)), 2) == z % 3
    decreases z
  {
    var x := Field(f.val, b.len, w);
    PairOnTop(x, k);
    FieldTower(f.val, b.len, 2, w);
    assert Pow2(2) == 4;
    if z >= 3 {
      var c := Push(b, 3, 2);
      PushRunLength(c, z - 3);
      ExtendsTrans(f, PushRun(c, z - 3), c);
      FieldOfExtension(f, b, 3, 2);
      LowSmall(3, 2);
      FieldShift(f.val, b.len, 2, w);
      RunSeen(f, c, z - 3, w - 2, k - 2);
      ShrAdd(x, 2, 2 * (z / 3) - 2);
    } else {
      FieldOfExtension(f, b, z, 2);
      LowSmall(z, 2);
    }
  }

  /** The first n pairs of a run are seen even when the run is longer than the window. */
  lemma {:induction false} PairsSeen(f: Bits, b: Bits, z: nat, w: nat, k: nat, n: nat)
    requires b.Ok() && Extends(f, PushRun(b, z))
    requires 3 * n <= z && 2 * n <= w && 2 * n <= k
    ensures TrailingOnes(Field(f.val, b.len, w), k) >= 2 * n
    decreases z
  {
    if n > 0 {
      var x := Field(f.val, b.len, w);
      var c := Push(b, 3, 2);
      PairOnTop(x, k);
      FieldTower(f.val, b.len, 2, w);
      PushRunLength(c, z - 3);
      ExtendsTrans(f, PushRun(c, z - 3), c);
      FieldOfExtension(f, b, 3, 2);
      assert Pow2(2) == 4;
      LowSmall(3, 2);
      FieldShift(f.val, b.len, 2, w);
      PairsSeen(f, c, z - 3, w - 2, k - 2, n - 1);
    }
  }

  // ----- counts -----

  /** The count at the low end of x, and its width. */
  function CountSeen(x: nat, remaining: nat): (r: (int, nat))
    requires remaining > 0
  {
    var nbBits := HighBit(remaining) + 1;
    var threshold := Pow2(nbBits - 1);
    var max := (2 * threshold - 1) - remaining;
    if Low(x, nbBits - 1) < max then (Low(x, nbBits - 1), nbBits - 1)
    else
      var count := Low(x, nbBits);
      (if count >= threshold then count - max else count, nbBits)
  }

  /** Whatever the bits, the count read is at most what remains. */
  lemma {:induction false} CountInRange(x: nat, remaining: nat)
    requires remaining > 0
    ensures 0 <= CountSeen(x, remaining).0 <= remaining
    ensures HighBit(remaining) <= CountSeen(x, remaining).1 <= HighBit(remaining) + 1
  {
    LowBound(x, HighBit(remaining));
    LowBound(x, HighBit(remaining) + 1);
  }

  /** The count that was written is the count that is read, with the same width. */
  lemma {:induction false} CountReadBack(f: Bits, b: Bits, remaining: nat, count: nat, w: nat, tableLog: nat)
    requires b.Ok() && 1 < remaining <= Pow2(tableLog) + 1 && count <= remaining && tableLog >= 1
    requires Extends(f, PushCount(b, remaining, count)) && CountWidth(remaining, count) <= w
    ensures CountSeen(Field(f.val, b.len, w), remaining) == (count, CountWidth(remaining, count))
  {
    var h, v, n := HighBit(remaining), CountValue(remaining, count), CountWidth(remaining, count);
    CountFits(remaining, count, tableLog);
    FieldOfExtension(f, b, v, n);
    FieldTower(f.val, b.len, n, w);
    LowSmall(v, n);
    if n == h + 1 {
      FieldTower(f.val, b.len, h, w);
      FieldTower(f.val, b.len, h, n);
      LowOfLong(v, h);
    }
  }

  lemma {:induction false} LowOfLong(v: nat, h: nat)
    requires v < Pow2(h + 1)
    ensures Low(v, h) == if v < Pow2(h) then v else v - Pow2(h)
  {
    if v < Pow2(h) {
      LowSmall(v, h);
    } else {
      Pow2Add(0, h);
      Split(v - Pow2(h), 1, h);
    }
  }
}
