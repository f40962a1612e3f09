/**
 XXH64 and XXH32 (not XXH3): a stream hashed in pieces has the hash of the whole. The two hashes have
 the same shape, so the argument is made once, for any mixing functions and for words of 8 or 4 bytes.
 */
module XxHash {
  import opened Numeric

  datatype Lanes<W> = Lanes(v1: W, v2: W, v3: W, v4: W)

  /** The mixing functions of a hash. A word is read from wordBytes bytes. */
  datatype Kernel<!W> = Kernel(
    wordBytes: nat,
    read: seq<byte> -> W,
    lane1: W -> W,
    lane2: W -> W,
    lane4: W -> W,
    round: (W, W) -> W,
    converge: Lanes<W> -> W,
    plusPrime5: W -> W,
    addLength: (W, nat) -> W,
    wordStep: (W, seq<byte>) -> W,
    halfStep: (W, seq<byte>) -> W,
    byteStep: (W, byte) -> W,
    avalanche: W -> W)
  {
    predicate Valid() {
      wordBytes == 4 || wordBytes == 8
    }

    function StripeBytes(): (n: nat)
      requires Valid()
    {
      if wordBytes == 8 then 32 else 16
    }
  }

  /** The lanes before any input; the third is the seed itself. */
  function Seeded<W>(k: Kernel<W>, seed: W): (v: Lanes<W>) {
    Lanes(k.lane1(seed), k.lane2(seed), seed, k.lane4(seed))
  }

  // ----- what the hash of a byte sequence is -----

  /** One stripe: a word for each lane. */
  function Stripe<W>(k: Kernel<W>, v: Lanes<W>, s: seq<byte>): (r: Lanes<W>)
    requires k.Valid() && |s| == k.StripeBytes()
  {
    var n := k.wordBytes;
    Lanes(k.round(v.v1, k.read(s[..n])), k.round(v.v2, k.read(s[n..2 * n])),
          k.round(v.v3, k.read(s[2 * n..3 * n])), k.round(v.v4, k.read(s[3 * n..])))
  }

  /** All the whole stripes of s. */
  function Stripes<W>(k: Kernel<W>, v: Lanes<W>, s: seq<byte>): (r: Lanes<W>)
    requires k.Valid()
    decreases |s|
  {
    var n := k.StripeBytes();
    if |s| < n then v else Stripes(k, Stripe(k, v, s[..n]), s[n..])
  }

  /** The bytes after the last whole stripe. */
  function Rest<W>(k: Kernel<W>, s: seq<byte>): (r: seq<byte>)
    requires k.Valid()
    ensures |r| < k.StripeBytes()
    decreases |s|
  {
    var n := k.StripeBytes();
    if |s| < n then s else Rest(k, s[n..])
  }

  /** XXH64_finalize and XXH32_finalize: words, at most one half word of a long word, then bytes. */
  function Tail<W>(k: Kernel<W>, h: W, s: seq<byte>): (r: W)
    requires k.Valid()
    decreases |s|
  {
    if |s| >= k.wordBytes then Tail(k, k.wordStep(h, s[..k.wordBytes]), s[k.wordBytes..])
    else if |s| >= 4 then Tail(k, k.halfStep(h, s[..4]), s[4..])
    else if |s| > 0 then Tail(k, k.byteStep(h, s[0]), s[1..])
    else k.avalanche(h)
  }

  function HashOf<W>(k: Kernel<W>, seed: W, s: seq<byte>): (h: W)
    requires k.Valid()
  {
    Digest(k, Stripes(k, Seeded(k, seed), s), seed, |s|, Rest(k, s))
  }

  /** From the lanes, or from the seed when there was no whole stripe. */
  function Digest<W>(k: Kernel<W>, v: Lanes<W>, seed: W, total: nat, rest: seq<byte>): (h: W)
    requires k.Valid()
  {
    Tail(k, k.addLength(if total >= k.StripeBytes() then k.converge(v) else k.plusPrime5(seed), Truncated(k, total)), rest)
  }

  /** A length cast to the word of the hash. */
  function Truncated<W>(k: Kernel<W>, total: nat): (n: nat)
    requires k.Valid()
  {
    if k.wordBytes == 8 then Wrap64(total) else Wrap32(total)
  }

  // ----- laws -----

  /** Hashing a, then b after the bytes that a left over, is hashing both. */
  lemma {:induction false} StripesAppend<W>(k: Kernel<W>, v: Lanes<W>, a: seq<byte>, b: seq<byte>)
    requires k.Valid()
    ensures Stripes(k, v, a + b) == Stripes(k, Stripes(k, v, a), Rest(k, a) + b)
    ensures Rest(k, a + b) == Rest(k, Rest(k, a) + b)
    decreases |a|
  {
    var n := k.StripeBytes();
    if |a| >= n {
      assert (a + b)[..n] == a[..n] && (a + b)[n..] == a[n..] + b;
      StripesAppend(k, Stripe(k, v, a[..n]), a[n..], b);
    }
  }

  /** Completing a started stripe, then the rest of the input. */
  lemma {:induction false} TopUp<W>(k: Kernel<W>, v: Lanes<W>, rest: seq<byte>, input: seq<byte>)
    requires k.Valid() && |rest| < k.StripeBytes() <= |rest| + |input|
    ensures var p := k.StripeBytes() - |rest|;
            && Stripes(k, v, rest + input) == Stripes(k, Stripe(k, v, rest + input[..p]), input[p..])
            && Rest(k, rest + input) == Rest(k, input[p..])
  {
    var n, p, all := k.StripeBytes(), k.StripeBytes() - |rest|, rest + input;
    assert all[..n] == rest + input[..p] && all[n..] == input[p..];
  }

  lemma {:induction false} RestLength<W>(k: Kernel<W>, s: seq<byte>)
    requires k.Valid()
    ensures |Rest(k, s)| == if k.wordBytes == 8 then |s| % 32 else |s| % 16
    decreases |s|
  {
    var n := k.StripeBytes();
    if |s| >= n {
      RestLength(k, s[n..]);
      DivModUnique(|s|, n, (|s| - n) / n + 1, (|s| - n) % n);
    } else {
      assert Rest(k, s) == s;
    }
  }

  // ----- the one-shot hash -----

  /** Both finalize functions, on the bytes that are left. */
  method Finalize<W>(k: Kernel<W>, hash: W, tail: seq<byte>) returns (h: W)
    requires k.Valid()
    ensures h == Tail(k, hash, tail)
  {
    h := hash;
    var p := 0;
    while |tail| - p >= k.wordBytes
      invariant 0 <= p <= |tail| && Tail(k, h, tail[p..]) == Tail(k, hash, tail)
    {
      assert tail[p..][..k.wordBytes] == tail[p..p + k.wordBytes] && tail[p..][k.wordBytes..] == tail[p + k.wordBytes..];
      h := k.wordStep(h, tail[p..p + k.wordBytes]);
      p := p + k.wordBytes;
    }
    if |tail| - p >= 4 {
      assert tail[p..][..4] == tail[p..p + 4] && tail[p..][4..] == tail[p + 4..];
      h := k.halfStep(h, tail[p..p + 4]);
      p := p + 4;
    }
    while p < |tail|
      invariant 0 <= p <= |tail| && |tail| - p < 4 && Tail(k, h, tail[p..]) == Tail(k, hash, tail)
    {
      assert tail[p..][1..] == tail[p + 1..];
      h := k.byteStep(h, tail[p]);
      p := p + 1;
    }
    h := k.avalanche(h);
  }

  /** The loop over whole stripes, from position p of input. */
  method ConsumeStripes<W>(k: Kernel<W>, v0: Lanes<W>, input: seq<byte>, p0: nat) returns (v: Lanes<W>, p: nat)
    requires k.Valid() && p0 <= |input|
    ensures v == Stripes(k, v0, input[p0..]) && p0 <= p <= |input| && input[p..] == Rest(k, input[p0..])
  {
    v, p := v0, p0;
    while p + k.StripeBytes() <= |input|
      invariant p0 <= p <= |input|
      invariant Stripes(k, v, input[p..]) == Stripes(k, v0, input[p0..]) && Rest(k, input[p..]) == Rest(k, input[p0..])
    {
      var n := k.StripeBytes();
      assert input[p..][..n] == input[p..p + n] && input[p..][n..] == input[p + n..];
      v := Stripe(k, v, input[p..p + n]);
      p := p + n;
    }
  }

  /** XXH64_endian_align and XXH32_endian_align */
  method OneShot<W>(k: Kernel<W>, input: seq<byte>, seed: W) returns (h: W)
    requires k.Valid()
    ensures h == HashOf(k, seed, input)
  {
    var p := 0;
    assert input[0..] == input;
    if |input| >= k.StripeBytes() {
      var v;
      v, p := ConsumeStripes(k, Seeded(k, seed), input, 0);
      h := k.converge(v);
    } else {
      h := k.plusPrime5(seed);
    }
    h := k.addLength(h, Truncated(k, |input|));
    h := Finalize(k, h, input[p..]);
  }

  // ----- streaming -----

  /** The part that the two stream states share: lanes, and a buffer of one stripe. */
  class Absorber<W> {
    const k: Kernel<W>
    const mem: array<byte>
    var memsize: nat
    var v: Lanes<W>
    /** Everything absorbed so far. */
    ghost var seen: seq<byte>
    ghost const seed: W

    ghost predicate Valid()
      reads this, mem
    {
      && k.Valid() && mem.Length == k.StripeBytes() && memsize < mem.Length
      && v == Stripes(k, Seeded(k, seed), seen) && mem[..memsize] == Rest(k, seen)
    }

    constructor (k: Kernel<W>, seed: W)
      requires k.Valid()
      ensures Valid() && seen == [] && this.seed == seed && this.k == k && fresh(mem)
    {
      this.k, this.seed := k, seed;
      mem := new byte[k.StripeBytes()](_ => 0);
      memsize, v, seen := 0, Seeded(k, seed), [];
      new;
      assert mem[..0] == [];
    }

    /** memcpy into the buffer */
    method Fill(input: seq<byte>)
      requires memsize + |input| <= mem.Length
      modifies mem
      ensures mem[..memsize + |input|] == old(mem[..memsize]) + input
    {
      ghost var was := mem[..memsize];
      forall i | 0 <= i < |input| {
        mem[memsize + i] := input[i];
      }
      assert mem[..memsize] == was && mem[memsize..memsize + |input|] == input;
    }

    /** Completes the stripe in the buffer, and mixes it in. */
    method Complete(input: seq<byte>) returns (p: nat)
      requires k.Valid() && mem.Length == k.StripeBytes() && 0 < memsize < mem.Length <= memsize + |input|
      modifies this`memsize, this`v, mem
      ensures p == mem.Length - old(memsize) && memsize == 0
      ensures v == Stripe(k, old(v), old(mem[..memsize]) + input[..p])
    {
      p := mem.Length - memsize;
      Fill(input[..p]);
      v := Stripe(k, v, mem[..]);
      assert mem[..] == old(mem[..memsize]) + input[..p];
      memsize := 0;
    }

    /** Mixes in the whole stripes from position p of the input on, and buffers what is left. */
    method Consume(input: seq<byte>, p: nat)
      requires k.Valid() && mem.Length == k.StripeBytes() && memsize == 0 && p <= |input|
      modifies this`memsize, this`v, mem
      ensures v == Stripes(k, old(v), input[p..])
      ensures memsize < mem.Length && mem[..memsize] == Rest(k, input[p..])
    {
      var q;
      v, q := ConsumeStripes(k, v, input, p);
      if q < |input| {
        Fill(input[q..]);
        assert mem[..0] == [];
        memsize := |input| - q;
      }
    }

    /** The body of XXH64_update and XXH32_update after the length. */
    method Absorb(input: seq<byte>)
      requires Valid()
      modifies this`memsize, this`v, this`seen, mem
      ensures Valid() && seen == old(seen) + input
    {
      StripesAppend(k, Seeded(k, seed), seen, input);
      if memsize + |input| < k.StripeBytes() {
        Fill(input);
        memsize := memsize + |input|;
      } else {
        AbsorbStripes(input);
      }
      seen := seen + input;
    }

    /** At least one stripe is complete. */
    method AbsorbStripes(input: seq<byte>)
      requires k.Valid() && mem.Length == k.StripeBytes() && memsize < mem.Length <= memsize + |input|
      modifies this`memsize, this`v, mem
      ensures v == Stripes(k, old(v), old(mem[..memsize]) + input)
      ensures memsize < mem.Length && mem[..memsize] == Rest(k, old(mem[..memsize]) + input)
    {
      TopUp(k, v, mem[..memsize], input);
      var p := 0;
      if memsize > 0 {
        p := Complete(input);
      } else {
        assert mem[..memsize] + input == input[0..];
      }
      Consume(input, p);
    }
  }

  // ----- stream states -----

  function Wrap64(n: nat): (r: nat) {
    n % 0x1_0000_0000_0000_0000
  }

  function Wrap32(n: nat): (r: nat) {
    n % 0x1_0000_0000
  }

  lemma {:induction false} Wrap64Add(a: nat, b: nat)
    ensures Wrap64(Wrap64(a) + b) == Wrap64(a + b)
  {
    var m := 0x1_0000_0000_0000_0000;
    var x := a % m + b;
    DivModUnique(a + b, m, a / m + x / m, x % m);
  }

  lemma {:induction false} Wrap32Add(a: nat, b: nat)
    ensures Wrap32(Wrap32(a) + Wrap32(b)) == Wrap32(a + b)
  {
    var m := 0x1_0000_0000;
    var x := a % m + b % m;
    DivModUnique(a + b, m, a / m + b / m + x / m, x % m);
  }

  lemma {:induction false} WrapSmall(n: nat)
    ensures n < 0x1_0000_0000_0000_0000 ==> Wrap64(n) == n
    ensures n < 0x1_0000_0000 ==> Wrap32(n) == n
    ensures Wrap64(n) <= n && Wrap32(n) <= n
    ensures Wrap64(n) % 32 == n % 32
  {
    WrapKeepsLow(n);
  }

  lemma {:induction false} WrapKeepsLow(n: nat)
    ensures Wrap64(n) % 32 == n % 32
  {
    var q, w := n / 0x1_0000_0000_0000_0000, n % 0x1_0000_0000_0000_0000;
    DivModUnique(n, 32, q * 0x800_0000_0000_0000 + w / 32, w % 32);
  }

  /** The flag is set exactly when the true length reaches a stripe, however often the counter wraps. */
  lemma {:induction false} Sticky(total: nat, more: nat)
    ensures total >= 16 || more >= 16 || Wrap32(total + more) >= 16 <==> total + more >= 16
  {
    WrapSmall(total + more);
  }

  /** XXH64_state_t */
  class State64<W> {
    const a: Absorber<W>
    var totalLen: nat

    ghost predicate Valid()
      reads this, a, a.mem
    {
      a.Valid() && a.k.wordBytes == 8 && totalLen == Wrap64(|a.seen|)
    }

    /** XXH64_reset */
    constructor (k: Kernel<W>, seed: W)
      requires k.wordBytes == 8
      ensures Valid() && a.k == k && a.seen == [] && a.seed == seed && fresh(a) && fresh(a.mem)
    {
      a := new Absorber(k, seed);
      totalLen := 0;
    }

    /** XXH64_update */
    method Update(input: seq<byte>)
      requires Valid()
      modifies this, a, a.mem
      ensures Valid() && a.seen == old(a.seen) + input
    {
      Wrap64Add(|a.seen|, |input|);
      totalLen := Wrap64(totalLen + |input|);
      a.Absorb(input);
    }

    /**
     XXH64_digest: the one-shot hash of all the input, as long as its length fits 64 bits. Past that
     the test for a whole stripe may fail, and only then is the digest a different one.
     */
    method DigestStream() returns (h: W)
      requires Valid()
      ensures |a.seen| < 0x1_0000_0000_0000_0000 || Wrap64(|a.seen|) >= 32 ==> h == HashOf(a.k, a.seed, a.seen)
    {
      RestLength(a.k, a.seen);
      WrapSmall(|a.seen|);
      if totalLen >= 32 {
        h := a.k.converge(a.v);
      } else {
        h := a.k.plusPrime5(a.v.v3);
      }
      h := a.k.addLength(h, totalLen);
      h := Finalize(a.k, h, a.mem[..totalLen % 32]);
    }
  }

  ghost predicate Counts32(totalLen32: nat, largeLen: bool, n: nat) {
    totalLen32 == Wrap32(n) && (largeLen <==> n >= 16)
  }

  /** XXH32_state_t: the length wraps at 2^32, and largeLen remembers that there was a whole stripe. */
  class State32<W> {
    const a: Absorber<W>
    var totalLen32: nat
    var largeLen: bool

    ghost predicate Valid()
      reads this, a, a.mem
    {
      a.Valid() && a.k.wordBytes == 4 && Counts32(totalLen32, largeLen, |a.seen|)
    }

    /** XXH32_reset */
    constructor (k: Kernel<W>, seed: W)
      requires k.wordBytes == 4
      ensures Valid() && a.k == k && a.seen == [] && a.seed == seed && fresh(a) && fresh(a.mem)
    {
      a := new Absorber(k, seed);
      totalLen32, largeLen := 0, false;
    }

    static method CountLength(totalLen32: nat, largeLen: bool, len: nat, ghost seen: nat) returns (total: nat, large: bool)
      requires Counts32(totalLen32, largeLen, seen)
      ensures Counts32(total, large, seen + len)
    {
      Wrap32Add(seen, len);
      Sticky(seen, len);
      total := Wrap32(totalLen32 + Wrap32(len));
      large := largeLen || len >= 16 || total >= 16;
    }

    /** XXH32_update */
    method Update(input: seq<byte>)
      requires Valid()
      modifies this, a, a.mem
      ensures Valid() && a.seen == old(a.seen) + input
    {
      ghost var n := |a.seen| + |input|;
      var total, large := CountLength(totalLen32, largeLen, |input|, |a.seen|);
      a.Absorb(input);
      assert |a.seen| == n;
      totalLen32, largeLen := total, large;
    }

    /** XXH32_digest: the one-shot hash of all the input, however long. */
    method DigestStream() returns (h: W)
      requires Valid()
      ensures h == HashOf(a.k, a.seed, a.seen)
    {
      if largeLen {
        h := a.k.converge(a.v);
      } else {
        h := a.k.plusPrime5(a.v.v3);
      }
      h := a.k.addLength(h, totalLen32);
      h := Finalize(a.k, h, a.mem[..a.memsize]);
    }
  }

  // ----- any way of cutting the input -----

  function Concat(pieces: seq<seq<byte>>, n: nat): (s: seq<byte>)
    requires n <= |pieces|
  {
    if n == 0 then [] else Concat(pieces, n - 1) + pieces[n - 1]
  }

  method Hash64InPieces<W>(k: Kernel<W>, pieces: seq<seq<byte>>, seed: W) returns (h: W)
    requires k.wordBytes == 8 && |Concat(pieces, |pieces|)| < 0x1_0000_0000_0000_0000
    ensures h == HashOf(k, seed, Concat(pieces, |pieces|))
  {
    var state := new State64(k, seed);
    for i := 0 to |pieces|
      invariant state.Valid() && state.a.k == k && state.a.seed == seed && state.a.seen == Concat(pieces, i)
      invariant fresh(state) && fresh(state.a) && fresh(state.a.mem)
    {
      state.Update(pieces[i]);
    }
    h := state.DigestStream();
  }

  method Hash32InPieces<W>(k: Kernel<W>, pieces: seq<seq<byte>>, seed: W) returns (h: W)
    requires k.wordBytes == 4
    ensures h == HashOf(k, seed, Concat(pieces, |pieces|))
  {
    var state := new State32(k, seed);
    for i := 0 to |pieces|
      invariant state.Valid() && state.a.k == k && state.a.seed == seed && state.a.seen == Concat(pieces, i)
      invariant fresh(state) && fresh(state.a) && fresh(state.a.mem)
    {
      state.Update(pieces[i]);
    }
    h := state.DigestStream();
  }
}
