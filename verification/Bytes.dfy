/** Little-endian numbers in byte sequences. */
module Bytes {
  import opened Numeric

  /** The number stored in s, least significant byte first (MEM_readLE32, MEM_readLEST). */
  function LE(s: seq<byte>): (x: nat)
  {
    if |s| == 0 then 0 else s[0] + 256 * LE(s[1..])
  }

  /** The k low bytes of x, least significant first (MEM_writeLEST, MEM_write64). */
  function ToBytes(x: nat, k: nat): (s: seq<byte>)
    ensures |s| == k
  {
    if k == 0 then [] else [x % 256] + ToBytes(x / 256, k - 1)
  }

  lemma {:induction false} ByteShift(x: nat)
    ensures Shl(x, 8) == 256 * x && Shr(x, 8) == x / 256 && Low(x, 8) == x % 256
  {
    assert Pow2(8) == 256;
    ShlIsMul(x, 8);
    ShrIsDiv(x, 8);
  }

  lemma {:induction false} ShiftUp8(x: nat, n: nat)
    ensures 256 * Shl(x, n) == Shl(x, n + 8)
    ensures Pow2(n + 8) == 256 * Pow2(n)
  {
    ByteShift(Shl(x, n));
    ShlAdd(x, n, 8);
    Pow2Add(n, 8);
    ByteShift(Pow2(n));
  }

  lemma {:induction false} ShiftDown8(x: nat, n: nat)
    ensures Shr(x, n + 8) == Shr(x / 256, n)
    ensures Low(x, n + 8) == x % 256 + 256 * Low(x / 256, n)
  {
    ByteShift(x);
    ShrAdd(x, 8, n);
    LowAdd(x, 8, n);
    ByteShift(Low(x / 256, n));
  }

  lemma {:induction false} LEBound(s: seq<byte>)
    ensures LE(s) < Pow2(8 * |s|)
  {
    if |s| > 0 {
      LEBound(s[1..]);
      ShiftUp8(0, 8 * |s[1..]|);
    }
  }

  lemma {:induction false} LEConcat(a: seq<byte>, b: seq<byte>)
    ensures LE(a + b) == LE(a) + Shl(LE(b), 8 * |a|)
  {
    if |a| == 0 {
      assert a + b == b;
    } else {
      assert (a + b)[1..] == a[1..] + b;
      LEConcat(a[1..], b);
      ShiftUp8(LE(b), 8 * |a[1..]|);
    }
  }

  /** The bytes before and after position k are the low and the high part of the number. */
  lemma {:induction false} LESplit(s: seq<byte>, k: nat)
    requires k <= |s|
    ensures LE(s) == LE(s[..k]) + Shl(LE(s[k..]), 8 * k)
    ensures LE(s[..k]) == Low(LE(s), 8 * k)
    ensures LE(s[k..]) == Shr(LE(s), 8 * k)
  {
    assert s == s[..k] + s[k..];
    LEConcat(s[..k], s[k..]);
    LEBound(s[..k]);
    Split(LE(s[..k]), LE(s[k..]), 8 * k);
  }

  /** A window of w bytes at byte p is the field of 8 * w bits at bit 8 * p. */
  lemma {:induction false} LEWindow(s: seq<byte>, p: nat, w: nat)
    requires p + w <= |s|
    ensures LE(s[p..p + w]) == Low(Shr(LE(s), 8 * p), 8 * w)
  {
    LESplit(s, p);
    LESplit(s[p..], w);
    assert s[p..][..w] == s[p..p + w];
  }

  lemma {:induction false} LEInjective(s: seq<byte>, t: seq<byte>)
    requires |s| == |t| && LE(s) == LE(t)
    ensures s == t
  {
    if |s| > 0 {
      assert s[0] == t[0] && LE(s[1..]) == LE(t[1..]);
      LEInjective(s[1..], t[1..]);
      assert s == [s[0]] + s[1..] && t == [t[0]] + t[1..];
    }
  }

  lemma {:induction false} LEToBytes(x: nat, k: nat)
    ensures LE(ToBytes(x, k)) == Low(x, 8 * k)
  {
    if k > 0 {
      LEToBytes(x / 256, k - 1);
      assert ToBytes(x, k)[1..] == ToBytes(x / 256, k - 1);
      ShiftDown8(x, 8 * (k - 1));
    }
  }

  /** Byte j of the bytes of x. */
  lemma {:induction false} ToBytesAt(x: nat, k: nat, j: nat)
    requires j < k
    ensures ToBytes(x, k)[j] == Low(Shr(x, 8 * j), 8)
  {
    if j == 0 {
      ShrIsDiv(x, 8);
    } else {
      ToBytesAt(x / 256, k - 1, j - 1);
      ShiftDown8(x, 8 * (j - 1));
    }
  }

  /** Stores the k low bytes of x at position p of a. */
  method WriteLE(a: array<byte>, p: nat, k: nat, x: nat)
    requires p + k <= a.Length
    modifies a
    ensures a[..] == old(a[..p]) + ToBytes(x, k) + old(a[p + k..])
  {
    var y := x;
    var i := 0;
    while i < k
      invariant 0 <= i <= k && y >= 0
      invariant a[..p] == old(a[..p]) && a[p + i..] == old(a[p + i..])
      invariant a[p..p + i] + ToBytes(y, k - i) == ToBytes(x, k)
    {
      ghost var was := a[..];
      a[p + i] := y % 256;
      assert a[p..p + i + 1] == was[p..p + i] + [y % 256];
      assert ToBytes(y, k - i) == [y % 256] + ToBytes(y / 256, k - i - 1);
      assert a[p + i + 1..] == was[p + i..][1..];
      y := y / 256;
      i := i + 1;
    }
    assert a[..] == a[..p] + a[p..p + k] + a[p + k..];
  }
}
