/**
 ZSTD_wildcopy and the match copy of ZSTD_execSequence: copies in chunks of 8 and 16 bytes that leave
 the requested bytes as a byte-by-byte forward copy would, also when source and destination overlap.
 Addresses are indices into one memory.
 */
module Wildcopy {
  import opened Numeric

  const WILDCOPY_OVERLENGTH := 32
  const WILDCOPY_VECLEN := 16

  // ----- the byte-by-byte copy -----

  /** n bytes copied one after the other, each read after the ones before were written. */
  function ForwardCopy(m: seq<byte>, op: nat, ip: nat, n: nat): (r: seq<byte>)
    requires op + n <= |m| && ip + n <= |m|
    ensures |r| == |m|
  {
    if n == 0 then m
    else
      var before := ForwardCopy(m, op, ip, n - 1);
      before[op + n - 1 := before[ip + n - 1]]
  }

  lemma {:induction false} OthersUntouched(m: seq<byte>, op: nat, ip: nat, n: nat, x: nat)
    requires op + n <= |m| && ip + n <= |m| && x < |m| && !(op <= x < op + n)
    ensures ForwardCopy(m, op, ip, n)[x] == m[x]
  {
    if n > 0 {
      OthersUntouched(m, op, ip, n - 1, x);
    }
  }

  /** Copying a bytes and then b more is copying a + b. */
  lemma {:induction false} CopyAppend(m: seq<byte>, op: nat, ip: nat, a: nat, b: nat)
    requires op + a + b <= |m| && ip + a + b <= |m|
    ensures ForwardCopy(ForwardCopy(m, op, ip, a), op + a, ip + a, b) == ForwardCopy(m, op, ip, a + b)
  {
    if b > 0 {
      CopyAppend(m, op, ip, a, b - 1);
    }
  }

  /** A longer copy leaves the same first bytes. */
  lemma {:induction false} FirstBytes(m: seq<byte>, op: nat, ip: nat, n: nat, more: nat)
    requires n <= more && op + more <= |m| && ip + more <= |m|
    ensures ForwardCopy(m, op, ip, more)[..op + n] == ForwardCopy(m, op, ip, n)[..op + n]
  {
    var first := ForwardCopy(m, op, ip, n);
    CopyAppend(m, op, ip, n, more - n);
    forall x | 0 <= x < op + n ensures ForwardCopy(m, op, ip, more)[x] == first[x] {
      OthersUntouched(first, op + n, ip + n, more - n, x);
    }
  }

  /** A chunk that is read whole before it is written: the same when the two do not overlap. */
  lemma {:induction false} ChunkCopies(m: seq<byte>, op: nat, ip: nat, k: nat)
    requires op + k <= |m| && ip + k <= |m| && (ip + k <= op || op + k <= ip)
    ensures ForwardCopy(m, op, ip, k) == m[..op] + m[ip..ip + k] + m[op + k..]
  {
    if k > 0 {
      ChunkCopies(m, op, ip, k - 1);
      OthersUntouched(m, op, ip, k - 1, ip + k - 1);
    }
  }

  // ----- what a match copy means -----

  ghost predicate RepeatsAt(r: seq<byte>, x: int, d: int)
    requires 0 <= x < |r| && 0 <= x + d < |r|
  {
    r[x] == r[x + d]
  }

  /** From lo to hi, bytes repeat at distance d. */
  ghost predicate Repeats(r: seq<byte>, lo: nat, hi: nat, d: nat) {
    hi <= |r| && forall x {:trigger RepeatsAt(r, x, d)} :: lo <= x && x + d < hi ==> RepeatsAt(r, x, d)
  }

  /** A forward copy repeats the bytes at the distance from source to destination... */
  lemma {:induction false} CopyRepeats(m: seq<byte>, op: nat, ip: nat, n: nat)
    requires ip < op && op + n <= |m|
    ensures Repeats(ForwardCopy(m, op, ip, n), ip, op + n, op - ip)
  {
    if n > 0 {
      var was, now := ForwardCopy(m, op, ip, n - 1), ForwardCopy(m, op, ip, n);
      CopyRepeats(m, op, ip, n - 1);
      var d := op - ip;
      forall x | ip <= x && x + d < op + n ensures RepeatsAt(now, x, d) {
        if x + d < op + n - 1 {
          assert RepeatsAt(was, x, d);
        }
      }
    }
  }

  /** ... and is the only way to do so. */
  lemma {:induction false} OnlyCopyRepeats(m: seq<byte>, r: seq<byte>, op: nat, ip: nat, n: nat)
    requires ip < op && op + n <= |m| == |r| && r[..op] == m[..op] && Repeats(r, ip, op + n, op - ip)
    ensures r[..op + n] == ForwardCopy(m, op, ip, n)[..op + n]
  {
    if n == 0 {
      return;
    }
    var x, d, was := op + n - 1, op - ip, ForwardCopy(m, op, ip, n - 1);
    assert forall y :: ip <= y && y + d < op + (n - 1) ==> RepeatsAt(r, y, d);
    OnlyCopyRepeats(m, r, op, ip, n - 1);
    assert RepeatsAt(r, ip + n - 1, op - ip);
    assert was[..x][ip + n - 1] == r[..x][ip + n - 1];
    forall y | 0 <= y < op + n ensures r[y] == ForwardCopy(m, op, ip, n)[y] {
      if y < x {
        assert was[..x][y] == r[..x][y];
      }
    }
  }

  /** Bytes that repeat at distance d repeat at its multiples. */
  lemma {:induction false} RepeatsTimes(r: seq<byte>, lo: nat, hi: nat, d: nat, q: nat)
    requires Repeats(r, lo, hi, d)
    ensures Repeats(r, lo, hi, q * d)
  {
    if q > 0 {
      RepeatsTimes(r, lo, hi, d, q - 1);
      var e := (q - 1) * d;
      assert q * d == e + d && e >= 0;
      var f := e + d;
      forall x | lo <= x && x + f < hi ensures RepeatsAt(r, x, f) {
        assert RepeatsAt(r, x, e) && RepeatsAt(r, x + e, d);
      }
    } else {
      assert 0 * d == 0;
    }
  }

  /** Copying on from a multiple of the distance goes on with the same repetition. */
  lemma {:induction false} SpreadRepeats(r: seq<byte>, lo: nat, mid: nat, hi: nat, d: nat, q: nat)
    requires mid <= hi <= |r| && d > 0 && q > 0 && lo + q * d <= mid
    requires Repeats(r, lo, mid, d) && Repeats(r, lo, hi, q * d)
    ensures Repeats(r, lo, hi, d)
    decreases hi - mid
  {
    if mid < hi {
      RepeatsTimes(r, lo, mid, d, q - 1);
      var e := (q - 1) * d;
      assert q * d == e + d && e >= 0;
      forall x | lo <= x && x + d < mid + 1 ensures RepeatsAt(r, x, d) {
        if x + d == mid {
          assert RepeatsAt(r, mid - (e + d), e + d);
          assert RepeatsAt(r, mid - (e + d), e);
        }
      }
      SpreadRepeats(r, lo, mid + 1, hi, d, q);
    }
  }

  // ----- ZSTD_wildcopy -----

  /** ZSTD_copy4, ZSTD_copy8 and ZSTD_copy16: k bytes, all read before any is written. */
  method CopyChunk(mem: array<byte>, op: nat, ip: nat, k: nat)
    requires op + k <= mem.Length && ip + k <= mem.Length && (ip + k <= op || op + k <= ip)
    modifies mem
    ensures mem[..] == ForwardCopy(old(mem[..]), op, ip, k)
  {
    var chunk := mem[ip..ip + k];
    forall i | 0 <= i < k {
      mem[op + i] := chunk[i];
    }
    ChunkCopies(old(mem[..]), op, ip, k);
  }

  /** One more chunk of a copy. */
  method CopyOn(mem: array<byte>, dst: nat, src: nat, n: nat, k: nat, ghost before: seq<byte>)
    requires dst + n + k <= mem.Length == |before| && src + n + k <= mem.Length && (src + k <= dst || dst + k <= src)
    requires mem[..] == ForwardCopy(before, dst, src, n)
    modifies mem
    ensures mem[..] == ForwardCopy(before, dst, src, n + k)
  {
    CopyAppend(before, dst, src, n, k);
    CopyChunk(mem, dst + n, src + n, k);
  }

  /** The bytes that a wild copy writes: whole chunks of 8; or 16 bytes, then chunks of 32. */
  function Written(length: nat, short: bool): (n: nat)
    ensures length <= n <= length + WILDCOPY_OVERLENGTH
    ensures length > 0 ==> n < length + WILDCOPY_OVERLENGTH
  {
    if short then (if length == 0 then 8 else (length + 7) / 8 * 8)
    else if length <= 16 then 16
    else 16 + (length + 15) / 32 * 32
  }

  /** The copies for which the source is called: at least 16 bytes apart, or 8 with the source before. */
  predicate MayWildcopy(dst: nat, src: nat, overlap: bool) {
    if overlap then src + 8 <= dst else src + WILDCOPY_VECLEN <= dst || dst + WILDCOPY_VECLEN <= src
  }

  /** The bytes written are those of a byte-by-byte copy, and no others are touched. */
  method WildcopyBytes(mem: array<byte>, dst: nat, src: nat, length: nat, overlap: bool)
    requires MayWildcopy(dst, src, overlap)
    requires var n := Written(length, overlap && dst - src < WILDCOPY_VECLEN);
             dst + n <= mem.Length && src + n <= mem.Length
    modifies mem
    ensures mem[..] == ForwardCopy(old(mem[..]), dst, src, Written(length, overlap && dst - src < WILDCOPY_VECLEN))
  {
    if overlap && dst - src < WILDCOPY_VECLEN {
      ShortCopy(mem, dst, src, length);
    } else {
      LongCopy(mem, dst, src, length);
    }
  }

  /** Chunks of 8, at least one. */
  method ShortCopy(mem: array<byte>, dst: nat, src: nat, length: nat)
    requires src + 8 <= dst && dst + Written(length, true) <= mem.Length
    modifies mem
    ensures mem[..] == ForwardCopy(old(mem[..]), dst, src, Written(length, true))
  {
    ghost var before := mem[..];
    CopyChunk(mem, dst, src, 8);
    var n := 8;
    while n < length
      invariant n % 8 == 0 && 8 <= n <= Written(length, true) && mem[..] == ForwardCopy(before, dst, src, n)
    {
      CopyOn(mem, dst, src, n, 8, before);
      n := n + 8;
    }
  }

  lemma {:induction false} PairsWritten(length: nat, k: nat)
    requires 16 + 32 * k < length
    ensures 16 + 32 * (k + 1) <= Written(length, false)
    ensures length <= 16 + 32 * (k + 1) ==> Written(length, false) == 16 + 32 * (k + 1)
  {
  }

  /** One chunk of 16, then pairs of them. */
  method LongCopy(mem: array<byte>, dst: nat, src: nat, length: nat)
    requires src + 16 <= dst || dst + 16 <= src
    requires dst + Written(length, false) <= mem.Length && src + Written(length, false) <= mem.Length
    modifies mem
    ensures mem[..] == ForwardCopy(old(mem[..]), dst, src, Written(length, false))
  {
    ghost var before := mem[..];
    CopyChunk(mem, dst, src, 16);
    if 16 >= length {
      return;
    }
    var n := 16;
    ghost var k := 0;
    while true
      invariant n == 16 + 32 * k < length && mem[..] == ForwardCopy(before, dst, src, n)
      decreases length - n
    {
      PairsWritten(length, k);
      CopyOn(mem, dst, src, n, 16, before);
      CopyOn(mem, dst, src, n + 16, 16, before);
      n := n + 32;
      k := k + 1;
      if n >= length {
        return;
      }
    }
  }

  // ----- matches -----

  /** Bytes that repeat at distance d, then bytes copied from a multiple e of d back. */
  lemma {:induction false} GoOnRepeating(m1: seq<byte>, r: seq<byte>, ip: nat, mid: nat, hi: nat, d: nat, q: nat, e: nat)
    requires mid <= hi <= |r| == |m1| && d > 0 && q > 0 && e == q * d && ip + e <= mid
    requires r[..mid] == m1[..mid] && Repeats(m1, ip, mid, d)
    requires Repeats(r, mid - e, hi, e)
    ensures Repeats(r, ip, hi, d)
  {
    forall x | ip <= x && x + d < mid ensures RepeatsAt(r, x, d) {
      assert RepeatsAt(m1, x, d) && r[..mid][x] == m1[..mid][x] && r[..mid][x + d] == m1[..mid][x + d];
    }
    RepeatsTimes(r, ip, mid, d, q);
    forall x | ip <= x && x + e < hi ensures RepeatsAt(r, x, e) {
      if x + e >= mid {
        assert mid - e <= x;
      }
    }
    SpreadRepeats(r, ip, mid, hi, d, q);
  }

  lemma {:induction false} PrefixUntouched(m: seq<byte>, op: nat, ip: nat, n: nat)
    requires op + n <= |m| && ip + n <= |m|
    ensures ForwardCopy(m, op, ip, n)[..op] == m[..op] && ForwardCopy(m, op, ip, n)[op + n..] == m[op + n..]
  {
    var r := ForwardCopy(m, op, ip, n);
    forall x | 0 <= x < |m| && !(op <= x < op + n) ensures r[x] == m[x] {
      OthersUntouched(m, op, ip, n, x);
    }
  }

  /** Two copies in a row touch nothing before the first and nothing after the second. */
  lemma {:induction false} TwiceUntouched(m: seq<byte>, op: nat, ip: nat, a: nat, from: nat, b: nat)
    requires ip + a <= |m| && from + b <= |m| && op + a + b <= |m|
    ensures var r := ForwardCopy(ForwardCopy(m, op, ip, a), op + a, from, b);
            r[..op] == m[..op] && r[op + a + b..] == m[op + a + b..]
  {
    var m1 := ForwardCopy(m, op, ip, a);
    var r := ForwardCopy(m1, op + a, from, b);
    forall x | 0 <= x < |m| && !(op <= x < op + a + b) ensures r[x] == m[x] {
      OthersUntouched(m, op, ip, a, x);
      OthersUntouched(m1, op + a, from, b, x);
    }
  }

  lemma {:induction false} TwiceRepeats(m: seq<byte>, op: nat, ip: nat, a: nat, from: nat, b: nat, q: nat, e: nat)
    requires ip < op && op + a + b <= |m| && q > 0 && e == q * (op - ip) >= op - ip
    requires ip <= from && from + e == op + a
    ensures Repeats(ForwardCopy(ForwardCopy(m, op, ip, a), op + a, from, b), ip, op + a + b, op - ip)
  {
    var m1 := ForwardCopy(m, op, ip, a);
    PrefixUntouched(m1, op + a, from, b);
    CopyRepeats(m, op, ip, a);
    CopyRepeats(m1, op + a, from, b);
    GoOnRepeating(m1, ForwardCopy(m1, op + a, from, b), ip, op + a, op + a + b, op - ip, q, e);
  }

  /** Copying on from an address that lies a multiple of the distance back is copying on. */
  lemma {:induction false} CopyFurtherBack(m: seq<byte>, op: nat, ip: nat, a: nat, from: nat, b: nat, q: nat)
    requires ip < op && op + a + b <= |m| && q > 0
    requires ip <= from && from + q * (op - ip) == op + a
    ensures ForwardCopy(ForwardCopy(m, op, ip, a), op + a, from, b) == ForwardCopy(m, op, ip, a + b)
  {
    var e, hi := q * (op - ip), op + a + b;
    MulMono(1, q, op - ip);
    var all, r := ForwardCopy(m, op, ip, a + b), ForwardCopy(ForwardCopy(m, op, ip, a), op + a, from, b);
    TwiceUntouched(m, op, ip, a, from, b);
    PrefixUntouched(m, op, ip, a + b);
    TwiceRepeats(m, op, ip, a, from, b, q, e);
    OnlyCopyRepeats(m, r, op, ip, a + b);
    assert r == r[..hi] + r[hi..] && all == all[..hi] + all[hi..];
  }

  const DEC32_TABLE: seq<nat> := [0, 1, 2, 1, 4, 4, 4, 4]
  const DEC64_TABLE: seq<nat> := [8, 8, 8, 7, 8, 9, 10, 11]

  /** How many times the offset fits in the distance after ZSTD_overlapCopy8. */
  ghost function Spread(offset: nat): (q: nat) {
    if offset == 1 then 8 else if offset == 2 then 4 else if offset == 3 then 3 else if offset < 8 then 2 else 1
  }

  /** ZSTD_overlapCopy8: 8 bytes, and a source at least 8 bytes back that goes on with the same repetition. */
  method OverlapCopy8(mem: array<byte>, op: nat, ip: nat, offset: nat) returns (op': nat, ip': nat)
    requires 0 < offset && ip + offset == op && op + 8 <= mem.Length
    modifies mem
    ensures mem[..] == ForwardCopy(old(mem[..]), op, ip, 8)
    ensures op' == op + 8 && ip <= ip' && ip' + Spread(offset) * offset == op'
    ensures ip' + 8 <= op' && (offset < WILDCOPY_VECLEN ==> op' < ip' + WILDCOPY_VECLEN)
  {
    if offset < 8 {
      CloseCopy(mem, op, ip, offset);
      op', ip' := op + 8, ip + DEC32_TABLE[offset] - DEC64_TABLE[offset] + 8;
    } else {
      CopyChunk(mem, op, ip, 8);
      op', ip' := op + 8, ip + 8;
    }
  }

  /** Four single bytes, then four at once from where the pattern has already been repeated. */
  method CloseCopy(mem: array<byte>, op: nat, ip: nat, offset: nat)
    requires 0 < offset < 8 && ip + offset == op && op + 8 <= mem.Length
    modifies mem
    ensures mem[..] == ForwardCopy(old(mem[..]), op, ip, 8)
  {
    ghost var before := mem[..];
    CopyBytes4(mem, op, ip);
    var from := ip + DEC32_TABLE[offset];
    ghost var q := if offset == 1 then 4 else if offset < 4 then 2 else 1;
    CopyFurtherBack(before, op, ip, 4, from, 4, q);
    CopyChunk(mem, op + 4, from, 4);
  }

  method CopyBytes4(mem: array<byte>, op: nat, ip: nat)
    requires ip < op && op + 4 <= mem.Length
    modifies mem
    ensures mem[..] == ForwardCopy(old(mem[..]), op, ip, 4)
  {
    ghost var before := mem[..];
    mem[op] := mem[ip];
    assert mem[..] == ForwardCopy(before, op, ip, 1);
    mem[op + 1] := mem[ip + 1];
    assert mem[..] == ForwardCopy(before, op, ip, 2);
    mem[op + 2] := mem[ip + 2];
    assert mem[..] == ForwardCopy(before, op, ip, 3);
    mem[op + 3] := mem[ip + 3];
  }

  /** The bytes written for a match of `length` bytes. */
  function MatchWritten(offset: nat, length: nat): (n: nat)
    requires length > 0
    ensures length <= n < length + WILDCOPY_OVERLENGTH
  {
    if offset >= WILDCOPY_VECLEN then Written(length, false)
    else if length > 8 then 8 + Written(length - 8, true)
    else 8
  }

  /**
   The match within the prefix, at the end of ZSTD_execSequence: for every offset the match is the
   byte-by-byte copy from `offset` bytes back, and at most 31 bytes behind it are overwritten.
   */
  method CopyMatch(mem: array<byte>, op: nat, offset: nat, length: nat)
    requires 0 < offset <= op && 0 < length && op + length + WILDCOPY_OVERLENGTH <= mem.Length
    modifies mem
    ensures mem[..] == ForwardCopy(old(mem[..]), op, op - offset, MatchWritten(offset, length))
    ensures mem[..op + length] == ForwardCopy(old(mem[..]), op, op - offset, length)[..op + length]
    ensures mem[op + length + WILDCOPY_OVERLENGTH..] == old(mem[op + length + WILDCOPY_OVERLENGTH..])
  {
    ghost var before := mem[..];
    if offset >= WILDCOPY_VECLEN {
      WildcopyBytes(mem, op, op - offset, length, false);
    } else {
      CopyNearMatch(mem, op, offset, length);
    }
    FirstBytes(before, op, op - offset, length, MatchWritten(offset, length));
    forall x | op + length + WILDCOPY_OVERLENGTH <= x < mem.Length ensures mem[x] == before[x] {
      OthersUntouched(before, op, op - offset, MatchWritten(offset, length), x);
      assert mem[x] == mem[..][x];
    }
  }

  method CopyNearMatch(mem: array<byte>, op: nat, offset: nat, length: nat)
    requires 0 < offset <= op && offset < WILDCOPY_VECLEN && 0 < length && op + length + WILDCOPY_OVERLENGTH <= mem.Length
    modifies mem
    ensures mem[..] == ForwardCopy(old(mem[..]), op, op - offset, MatchWritten(offset, length))
  {
    ghost var before := mem[..];
    var op', match' := OverlapCopy8(mem, op, op - offset, offset);
    if length > 8 {
      CopyFurtherBack(before, op, op - offset, 8, match', Written(length - 8, true), Spread(offset));
      WildcopyBytes(mem, op', match', length - 8, true);
    }
  }
}
