/**
 The bit writer (BIT_CStream_t) and the backward bit reader (BIT_DStream_t), for a container of
 `width` bytes: 8 on 64-bit targets, 4 on 32-bit ones. The writer adds fields above the ones
 already present, the reader takes them from the top, so a stream is a stack of bit fields.
 */
module Bitstream {
  import opened Numeric
  import opened Bytes
  import opened BitStack
  import opened Results

  /** The bytes of a closed stream: the fields of b, then one end mark bit, rounded up to bytes. */
  ghost predicate IsStreamOf(src: seq<byte>, b: Bits) {
    b.Ok() && |src| == b.len / 8 + 1 && LE(src) == Push(b, 1, 1).val
  }

  /** The bytes of a stream are determined by its fields, however they were flushed. */
  lemma {:induction false} StreamUnique(s: seq<byte>, t: seq<byte>, b: Bits)
    requires IsStreamOf(s, b) && IsStreamOf(t, b)
    ensures s == t
  {
    LEInjective(s, t);
  }

  class CStream {
    const width: nat
    const buf: array<byte>
    /** Offset of the last position where a whole container can be stored. */
    const endPtr: nat
    var container: nat
    var bitPos: nat
    var ptr: nat
    /** All the fields added so far, whether or not they still fit. */
    ghost var pushed: Bits

    ghost predicate Valid()
      reads this, buf
    {
      && (width == 4 || width == 8)
      && endPtr > 0 && endPtr + width == buf.Length
      && bitPos < 8 * width && container < Pow2(bitPos)
      && pushed.Ok() && bitPos <= pushed.len && (pushed.len - bitPos) % 8 == 0
      && ptr == Min((pushed.len - bitPos) / 8, endPtr)
      && (ptr < endPtr ==> pushed.val == LE(buf[..ptr]) + Shl(container, 8 * ptr))
    }

    constructor (dst: array<byte>, width: nat)
      requires width == 4 || width == 8
      requires dst.Length > width
      ensures Valid() && pushed == EMPTY
      ensures buf == dst && this.width == width
      ensures bitPos == 0
    {
      this.width := width;
      buf := dst;
      endPtr := dst.Length - width;
      container, bitPos, ptr := 0, 0, 0;
      pushed := EMPTY;
      new;
      assert buf[..0] == [];
    }

    /** A field added to the container is added to the number the container continues. */
    static lemma {:induction false} AddField(c: nat, pos: nat, value: nat, nb: nat, base: nat)
      requires c < Pow2(pos)
      ensures c + Shl(Low(value, nb), pos) < Pow2(pos + nb)
      ensures Shl(c + Shl(Low(value, nb), pos), base) == Shl(c, base) + Shl(Low(value, nb), base + pos)
    {
      LowBound(value, nb);
      ShlBound(c, Low(value, nb), pos, nb);
      ShlSum(c, Shl(Low(value, nb), pos), base);
      ShlAdd(Low(value, nb), pos, base);
    }

    /** BIT_addBits: the low nb bits of value. The two limits are what the C code asserts. */
    method AddBits(value: nat, nb: nat)
      requires Valid() && nb < 32 && nb + bitPos < 8 * width
      modifies this`container, this`bitPos, this`pushed
      ensures Valid() && bitPos == old(bitPos) + nb
      ensures pushed == Push(old(pushed), value, nb)
    {
      // the bits being set are still clear, so `|=` adds
      AddField(container, bitPos, value, nb, 8 * ptr);
      container := container + Shl(Low(value, nb), bitPos);
      pushed := Push(pushed, value, nb);
      bitPos := bitPos + nb;
    }

    /** Storing the container extends the bytes already committed by its whole bytes. */
    lemma {:induction false} CommitBytes(after: seq<byte>, before: seq<byte>, p: nat, w: nat, c: nat, k: nat)
      requires p + w <= |before| && k <= w
      requires after == before[..p] + ToBytes(c, w) + before[p + w..]
      ensures LE(after[..p + k]) == LE(before[..p]) + Shl(Low(c, 8 * k), 8 * p)
      ensures LE(after[..p + k]) + Shl(Shr(c, 8 * k), 8 * (p + k)) == LE(before[..p]) + Shl(c, 8 * p)
    {
      var t := ToBytes(c, w)[..k];
      assert after[..p + k] == before[..p] + t;
      LEConcat(before[..p], t);
      LESplit(ToBytes(c, w), k);
      LEToBytes(c, w);
      LowTower(c, 8 * k, 8 * w);
      Join(c, 8 * k);
      ShlSum(Low(c, 8 * k), Shl(Shr(c, 8 * k), 8 * k), 8 * p);
      ShlAdd(Shr(c, 8 * k), 8 * k, 8 * p);
    }

    /** The store that every flush begins with (MEM_writeLEST): whole bytes, then the partial one. */
    method Store()
      requires Valid()
      modifies buf
      ensures var k := bitPos / 8;
              && k < width
              && LE(buf[..ptr + k]) + Shl(Shr(container, 8 * k), 8 * (ptr + k))
                 == old(LE(buf[..ptr])) + Shl(container, 8 * ptr)
              && LE(buf[..ptr + k + 1]) == old(LE(buf[..ptr])) + Shl(container, 8 * ptr)
    {
      var k := bitPos / 8;
      ghost var before := buf[..];
      WriteLE(buf, ptr, width, container);
      ghost var after := buf[..];
      CommitBytes(after, before, ptr, width, container, k);
      CommitBytes(after, before, ptr, width, container, k + 1);
      Pow2Mono(bitPos, 8 * (k + 1));
      LowSmall(container, 8 * (k + 1));
      assert before[..ptr] == old(buf[..ptr]);
      assert after[..ptr + k] == buf[..ptr + k] && after[..ptr + k + 1] == buf[..ptr + k + 1];
    }

    /** Where the write pointer of a flush stands, clamped or not. */
    static lemma {:induction false} Advance(len: nat, pos: nat, p: nat, end: nat)
      requires pos <= len && (len - pos) % 8 == 0 && p == Min((len - pos) / 8, end)
      ensures pos == 8 * (pos / 8) + pos % 8 && pos % 8 <= len
      ensures (len - pos % 8) % 8 == 0
      ensures Min(p + pos / 8, end) == Min((len - pos % 8) / 8, end)
    {
      assert len - pos % 8 == (len - pos) + 8 * (pos / 8);
    }

    /** BIT_flushBits: stores the container and keeps the bits of the last partial byte. */
    method FlushBits()
      requires Valid()
      modifies this`container, this`bitPos, this`ptr, buf
      ensures Valid() && bitPos == old(bitPos) % 8
      ensures ptr < endPtr ==> LE(buf[..ptr + 1]) == pushed.val
    {
      Store();
      var nbBytes := bitPos / 8;
      Advance(pushed.len, bitPos, ptr, endPtr);
      ShrBound(container, 8 * nbBytes, bitPos % 8);
      ptr := ptr + nbBytes;
      if ptr > endPtr {
        ptr := endPtr;
      }
      bitPos := bitPos % 8;
      container := Shr(container, 8 * nbBytes);
    }

    /** BIT_flushBitsFast: no bounds check, so the caller must know that the bytes fit. */
    method FlushBitsFast()
      requires Valid() && ptr + bitPos / 8 <= endPtr
      modifies this`container, this`bitPos, this`ptr, buf
      ensures Valid() && bitPos == old(bitPos) % 8
    {
      Store();
      var nbBytes := bitPos / 8;
      Advance(pushed.len, bitPos, ptr, endPtr);
      ShrBound(container, 8 * nbBytes, bitPos % 8);
      ptr := ptr + nbBytes;
      bitPos := bitPos % 8;
      container := Shr(container, 8 * nbBytes);
    }

    /**
     BIT_closeCStream: the size of the stream, and 0 exactly when its bytes did not stay below
     endPtr. In particular a clamped write pointer always ends in 0.
     */
    method Close() returns (size: nat)
      requires Valid() && bitPos + 1 < 8 * width
      modifies this, buf
      ensures size == 0 <==> (old(pushed.len) + 1) / 8 >= endPtr
      ensures size > 0 ==> size <= buf.Length && IsStreamOf(buf[..size], old(pushed))
    {
      AddBits(1, 1);
      FlushBits();
      if ptr >= endPtr {
        return 0;
      }
      size := ptr + (if bitPos > 0 then 1 else 0);
      assert bitPos == 0 ==> Shl(container, 8 * ptr) == 0 by {
        if bitPos == 0 {
          ShlIsMul(container, 8 * ptr);
        }
      }
    }
  }

  ghost predicate HasEndMark(src: seq<byte>) {
    |src| > 0 && src[|src| - 1] > 0
  }

  /** The bits below the end mark, which sits in the last byte. */
  ghost function Unread(src: seq<byte>): (b: Bits)
    requires HasEndMark(src)
    ensures b.Ok()
  {
    var n := 8 * (|src| - 1) + HighBit(src[|src| - 1]);
    LowBound(LE(src), n);
    Bits(n, Low(LE(src), n))
  }

  lemma {:induction false} LastBit(last: byte)
    requires last > 0
    ensures HighBit(last) < 8
  {
    if HighBit(last) >= 8 {
      Pow2Mono(8, HighBit(last));
      assert false;
    }
  }

  /** Opening a closed stream finds exactly the fields that were put in. */
  lemma {:induction false} UnreadOfStream(src: seq<byte>, b: Bits)
    requires IsStreamOf(src, b)
    ensures HasEndMark(src) && Unread(src) == b
  {
    var k, last, x := |src| - 1, src[|src| - 1], LE(src);
    MarkedBits(b);
    LESplit(src, k);
    assert src[k..] == [last] && LE(src[k..]) == last;
    HighBitShr(x, 8 * k);
  }

  /** The end mark is the highest bit of the number, and the fields are what is below it. */
  lemma {:induction false} MarkedBits(b: Bits)
    requires b.Ok()
    ensures var x := Push(b, 1, 1).val; x > 0 && HighBit(x) == b.len && Low(x, b.len) == b.val
  {
    assert Low(1, 1) == 1;
    Split(b.val, 1, b.len);
    Pow2Add(0, b.len);
    HighBitUnique(Push(b, 1, 1).val, b.len);
  }

  /** `x & regMask`: shift counts are taken modulo the container width. */
  function RegMask(x: int, w: nat): (r: nat)
    requires w == 32 || w == 64
    ensures r < w && (0 <= x < w ==> r == x)
  {
    if w == 32 then x % 32 else x % 64
  }

  /** BIT_lookBits: a shift and a mask. */
  function LookBits(container: nat, w: nat, c: nat, n: nat): (v: nat)
    requires w == 32 || w == 64
    ensures v < Pow2(n)
  {
    var x := Shr(container, RegMask(w - c - n, w));
    LowBound(x, n);
    Low(x, n)
  }

  /** BIT_lookBitsFast: two shifts. */
  function LookBitsFast(container: nat, w: nat, c: nat, n: nat): (v: nat)
    requires (w == 32 || w == 64) && 1 <= n < w
    ensures v < Pow2(n)
  {
    var x := Low(Shl(container, RegMask(c, w)), w);
    LowBound(Shl(container, RegMask(c, w)), w);
    ShrBound(x, w - n, n);
    Shr(x, RegMask(w - n, w))
  }

  /** The two ways of reading agree while the container has the bits. */
  lemma {:induction false} FastIsSlow(container: nat, w: nat, c: nat, n: nat)
    requires (w == 32 || w == 64) && 1 <= n < w && c + n <= w
    ensures LookBitsFast(container, w, c, n) == LookBits(container, w, c, n)
  {
    LowTower(Shl(container, c), w - n, w);
    ShrShl(container, c, w - n - c);
  }

  /** Reading from the container is taking the top of the remaining bits of the whole stream. */
  lemma {:induction false} LookBitsIsTop(x: nat, base: nat, w: nat, c: nat, n: nat)
    requires (w == 32 || w == 64) && c + n <= w
    ensures var b := Bits(base + w - c, Low(x, base + w - c));
            && b.Ok()
            && LookBits(Low(Shr(x, base), w), w, c, n) == Top(b, n)
            && Pop(b, n) == Bits(base + w - c - n, Low(x, base + w - c - n))
  {
    var r, k := base + w - c, w - c - n;
    LowBound(x, r);
    LowTower(x, r - n, r);
    if k < w {
      LowTower(Shr(x, base), k, w);
      ShrAdd(x, base, k);
      LowTower(Shr(x, r - n), n, w - k);
    }
  }

  datatype Status = Unfinished | EndOfBuffer | Completed | Overflow

  class DStream {
    const width: nat
    const src: seq<byte>
    var container: nat
    var consumed: nat
    /** Offset of the container in src; 0 for a stream shorter than the container. */
    var ptr: nat

    ghost predicate Valid()
      reads this
    {
      && (width == 4 || width == 8)
      && |src| > 0 && (ptr == 0 || ptr + width <= |src|)
      && container == Low(Shr(LE(src), 8 * ptr), 8 * width)
    }

    /** No more bits have been consumed than the container holds. */
    predicate Legal()
      reads this
    {
      consumed <= 8 * width
    }

    /** As after a reload: either the container is almost full or it has reached the start. */
    predicate Ready()
      reads this
    {
      consumed <= 8 || ptr == 0
    }

    /** The bits not yet consumed. */
    ghost function Remaining(): (b: Bits)
      reads this
      requires Valid() && Legal()
      ensures b.Ok()
    {
      var n := 8 * ptr + 8 * width - consumed;
      LowBound(LE(src), n);
      Bits(n, Low(LE(src), n))
    }

    constructor (src: seq<byte>, width: nat, ptr: nat, container: nat, consumed: nat)
      requires width == 4 || width == 8
      requires |src| > 0 && (ptr == 0 || ptr + width <= |src|)
      requires container == Low(Shr(LE(src), 8 * ptr), 8 * width)
      ensures Valid() && fresh(this)
      ensures this.src == src && this.width == width
      ensures this.ptr == ptr && this.consumed == consumed
    {
      this.src, this.width := src, width;
      this.ptr, this.container, this.consumed := ptr, container, consumed;
    }

    /** BIT_initDStream: finds the end mark in the last byte. */
    static method Init(src: seq<byte>, width: nat) returns (r: Result<DStream>)
      requires width == 4 || width == 8
      ensures r.Ok? <==> HasEndMark(src)
      ensures r.Ok? ==> fresh(r.value) && r.value.Valid() && r.value.Legal()
                        && r.value.src == src && r.value.width == width
                        && r.value.Remaining() == Unread(src) && r.value.Ready()
    {
      if |src| < 1 {
        return Err(SrcSizeWrong);
      }
      var lastByte := src[|src| - 1];
      if lastByte == 0 {
        return if |src| >= width then Err(Generic) else Err(CorruptionDetected);
      }
      LastBit(lastByte);
      var p := 0;
      var c := LE(src);
      var used := 8 - HighBit(lastByte);
      if |src| >= width {
        p := |src| - width;
        LEWindow(src, p, width);
        c := LE(src[p..p + width]);
      } else {
        ShortContainer(src, width);
        used := used + (width - |src|) * 8;
      }
      var s := new DStream(src, width, p, c, used);
      r := Ok(s);
    }

    static lemma {:induction false} ShortContainer(src: seq<byte>, width: nat)
      requires |src| < width
      ensures LE(src) == Low(Shr(LE(src), 0), 8 * width)
    {
      LEBound(src);
      Pow2Mono(8 * |src|, 8 * width);
      LowSmall(LE(src), 8 * width);
    }

    /** BIT_readBits. When more bits are asked for than the container has, only the size is known. */
    method ReadBits(n: nat) returns (v: nat)
      requires Valid() && n < 32
      modifies this`consumed
      ensures consumed == old(consumed) + n && v < Pow2(n)
      ensures Legal() ==> v == Top(old(Remaining()), n) && Remaining() == Pop(old(Remaining()), n)
    {
      v := LookBits(container, 8 * width, consumed, n);
      if consumed + n <= 8 * width {
        LookBitsIsTop(LE(src), 8 * ptr, 8 * width, consumed, n);
      }
      consumed := consumed + n;
    }

    /** BIT_readBitsFast, for n >= 1. */
    method ReadBitsFast(n: nat) returns (v: nat)
      requires Valid() && 1 <= n < 32
      modifies this`consumed
      ensures consumed == old(consumed) + n && v < Pow2(n)
      ensures Legal() ==> v == Top(old(Remaining()), n) && Remaining() == Pop(old(Remaining()), n)
    {
      v := LookBitsFast(container, 8 * width, consumed, n);
      if consumed + n <= 8 * width {
        FastIsSlow(container, 8 * width, consumed, n);
        LookBitsIsTop(LE(src), 8 * ptr, 8 * width, consumed, n);
      }
      consumed := consumed + n;
    }

    /**
     BIT_reloadDStream: moves the container down by the consumed bytes, never below the start.
     A legal stream keeps its remaining bits, and the status tells how many can be read next.
     */
    method Reload() returns (status: Status)
      requires Valid()
      modifies this
      ensures Valid()
      ensures !old(Legal()) ==> status == Overflow && unchanged(this)
      ensures old(Legal()) ==> status != Overflow && Legal() && Remaining() == old(Remaining())
      ensures status == Unfinished ==> consumed <= 7
      ensures status != Overflow ==> Ready()
      ensures status == EndOfBuffer || status == Completed ==> ptr == 0
      ensures old(Legal()) ==> (status == Completed <==> Remaining().len == 0)
    {
      if consumed > 8 * width {
        return Overflow;
      }
      if ptr >= width {
        // BIT_reloadDStream_internal
        ptr := ptr - consumed / 8;
        consumed := consumed % 8;
        LEWindow(src, ptr, width);
        container := LE(src[ptr..ptr + width]);
        return Unfinished;
      }
      if ptr == 0 {
        return if consumed < 8 * width then EndOfBuffer else Completed;
      }
      var nbBytes := consumed / 8;
      status := Unfinished;
      if ptr < nbBytes {
        nbBytes := ptr;
        status := EndOfBuffer;
      }
      ptr := ptr - nbBytes;
      consumed := consumed - nbBytes * 8;
      LEWindow(src, ptr, width);
      container := LE(src[ptr..ptr + width]);
    }

    /** BIT_endOfDStream: exactly when every field has been read. */
    predicate EndOfDStream()
      reads this
      requires Valid()
      ensures Legal() ==> (EndOfDStream() <==> Remaining().len == 0)
    {
      ptr == 0 && consumed == 8 * width
    }
  }
}
