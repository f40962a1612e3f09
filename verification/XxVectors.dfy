/**
 Known values of XXH64 and XXH32. Together they go through every step of both hashes: the start of
 short inputs and of long ones, the four lanes and their merging, and words, half words and bytes at
 the end. The empty input has its published value without a seed; the other inputs have a seed, and
 words that differ from lane to lane, so that no two lanes, rotations or constants can change places.
 Each value is built up from single steps: a step mixes one word into one number, and the laws of
 the hash function put the steps together.
 */
module XxVectors {
  import opened Numeric
  import opened XxHash
  import opened XxStreams

  // ----- one step of a hash at a time -----

  lemma {:induction false} TailWord<W>(k: Kernel<W>, h: W, w: seq<byte>, rest: seq<byte>)
    requires k.Valid() && |w| == k.wordBytes
    ensures Tail(k, h, w + rest) == Tail(k, k.wordStep(h, w), rest)
  {
    assert (w + rest)[..|w|] == w && (w + rest)[|w|..] == rest;
  }

  lemma {:induction false} TailHalf<W>(k: Kernel<W>, h: W, w: seq<byte>, rest: seq<byte>)
    requires k.Valid() && |w| == 4 <= |w + rest| < k.wordBytes
    ensures Tail(k, h, w + rest) == Tail(k, k.halfStep(h, w), rest)
  {
    assert (w + rest)[..|w|] == w && (w + rest)[|w|..] == rest;
  }

  lemma {:induction false} TailByte<W>(k: Kernel<W>, h: W, b: byte, rest: seq<byte>)
    requires k.Valid() && |rest| < 3
    ensures Tail(k, h, [b] + rest) == Tail(k, k.byteStep(h, b), rest)
  {
    assert ([b] + rest)[1..] == rest;
  }

  /** An input without a whole stripe. */
  lemma {:induction false} ShortInput<W>(k: Kernel<W>, seed: W, s: seq<byte>)
    requires k.Valid() && |s| < k.StripeBytes()
    ensures HashOf(k, seed, s) == Tail(k, k.addLength(k.plusPrime5(seed), |s|), s)
  {
  }

  /** An input of one stripe. */
  lemma {:induction false} OneStripe<W>(k: Kernel<W>, seed: W, a: seq<byte>, b: seq<byte>, c: seq<byte>, d: seq<byte>)
    requires k.Valid() && |a| == |b| == |c| == |d| == k.wordBytes
    ensures HashOf(k, seed, a + b + c + d) ==
            k.avalanche(k.addLength(
              k.converge(Lanes(k.round(k.lane1(seed), k.read(a)), k.round(k.lane2(seed), k.read(b)),
                               k.round(seed, k.read(c)), k.round(k.lane4(seed), k.read(d)))),
              k.StripeBytes()))
  {
    var n, s := k.wordBytes, a + b + c + d;
    assert s[..k.StripeBytes()] == s && s[k.StripeBytes()..] == [];
    assert s[..n] == a && s[n..2 * n] == b && s[2 * n..3 * n] == c && s[3 * n..] == d;
    var v := Stripe(k, Seeded(k, seed), s);
    assert Stripes(k, Seeded(k, seed), s) == Stripes(k, v, []) == v;
    assert Rest(k, s) == Rest<W>(k, []) == [];
  }

  lemma {:induction false} Prepend64(b: byte, s: seq<byte>)
    ensures Read64([b] + s) == (b as bv64) | (Read64(s) << 8)
  {
    assert ([b] + s)[1..] == s;
  }

  lemma {:induction false} Prepend32(b: byte, s: seq<byte>)
    ensures Read32([b] + s) == (b as bv32) | (Read32(s) << 8)
  {
    assert ([b] + s)[1..] == s;
  }

  // ----- XXH64 -----

  lemma {:induction false} Empty64()
    ensures HashOf(XXH64(), 0, []) == 0xEF46DB3751D8E999
  {
  }

  lemma {:induction false} ReadCounting64()
    ensures Read64([1, 2, 3, 4, 5, 6, 7, 8]) == 0x0807060504030201
  {
    var s: seq<byte> := [1, 2, 3, 4, 5, 6, 7, 8];
    assert Read64(s[8..]) == 0;
    assert Read64(s[7..]) == 0x8;
    assert Read64(s[6..]) == 0x807;
    assert Read64(s[5..]) == 0x80706;
    assert Read64(s[4..]) == 0x8070605;
    assert Read64(s[3..]) == 0x807060504;
    assert Read64(s[2..]) == 0x80706050403;
    assert Read64(s[1..]) == 0x8070605040302;
  }

  lemma {:induction false} Read64Of2()
    ensures Read64([2, 0, 0, 0, 0, 0, 0, 0]) == 2
  {
  }

  lemma {:induction false} Read64Of3()
    ensures Read64([3, 0, 0, 0, 0, 0, 0, 0]) == 3
  {
  }

  lemma {:induction false} Read64Of4()
    ensures Read64([4, 0, 0, 0, 0, 0, 0, 0]) == 4
  {
  }

  lemma {:induction false} ReadHalf64()
    ensures Read64([1, 2, 3, 4]) == 0x04030201
  {
    var s: seq<byte> := [1, 2, 3, 4];
    assert Read64(s[4..]) == 0;
    assert Read64(s[3..]) == 4;
    assert Read64(s[2..]) == 0x0403;
    assert Read64(s[1..]) == 0x040302;
  }

  lemma {:induction false} End64()
    ensures Tail(XXH64(), 0x6709CBA09103817F, []) == 0x3137437B791D2A61
  {
  }

  lemma {:induction false} Bytes64()
    ensures MixByte64(0xC6C5A68F1D8040AB, 5) == 0x4B9E930461A1CDE9
    ensures MixByte64(0x4B9E930461A1CDE9, 6) == 0xFFE352FC1A5DAFAD
    ensures MixByte64(0xFFE352FC1A5DAFAD, 7) == 0x6709CBA09103817F
  {
  }

  lemma {:induction false} LastByte64()
    ensures Tail(XXH64(), 0xFFE352FC1A5DAFAD, [7]) == 0x3137437B791D2A61
  {
    End64();
    Bytes64();
    TailByte(XXH64(), 0xFFE352FC1A5DAFAD, 7, []);
    assert [7] + [] == [7];
  }

  lemma {:induction false} TwoBytes64()
    ensures Tail(XXH64(), 0x4B9E930461A1CDE9, [6, 7]) == 0x3137437B791D2A61
  {
    LastByte64();
    Bytes64();
    TailByte(XXH64(), 0x4B9E930461A1CDE9, 6, [7]);
    assert [6] + [7] == [6, 7];
  }

  lemma {:induction false} ThreeBytes64()
    ensures Tail(XXH64(), 0xC6C5A68F1D8040AB, [5, 6, 7]) == 0x3137437B791D2A61
  {
    TwoBytes64();
    Bytes64();
    TailByte(XXH64(), 0xC6C5A68F1D8040AB, 5, [6, 7]);
    assert [5] + [6, 7] == [5, 6, 7];
  }

  lemma {:induction false} HalfWord64()
    ensures Tail(XXH64(), 0xBFA440DE13EF42A6, [1, 2, 3, 4] + [5, 6, 7]) == 0x3137437B791D2A61
  {
    ThreeBytes64();
    ReadHalf64();
    assert MixHalf64(0xBFA440DE13EF42A6, 0x04030201) == 0xC6C5A68F1D8040AB;
    TailHalf(XXH64(), 0xBFA440DE13EF42A6, [1, 2, 3, 4], [5, 6, 7]);
  }

  lemma {:induction false} Word64()
    ensures Tail(XXH64(), 0x27D4EB2FB48DE185, [1, 2, 3, 4, 5, 6, 7, 8] + ([1, 2, 3, 4] + [5, 6, 7])) == 0x3137437B791D2A61
  {
    HalfWord64();
    ReadCounting64();
    assert MixWord64(0x27D4EB2FB48DE185, 0x0807060504030201) == 0xBFA440DE13EF42A6;
    TailWord(XXH64(), 0x27D4EB2FB48DE185, [1, 2, 3, 4, 5, 6, 7, 8], [1, 2, 3, 4] + [5, 6, 7]);
  }

  lemma {:induction false} Length64()
    ensures AddLength64(0x27D4EB2FB48DE176, 15) == 0x27D4EB2FB48DE185
  {
  }

  lemma {:induction false} Start64()
    ensures XXH64().addLength(XXH64().plusPrime5(0x000000009E3779B1), 15) == 0x27D4EB2FB48DE185
  {
    assert XXH64().plusPrime5(0x000000009E3779B1) == 0x27D4EB2FB48DE176;
    Length64();
  }

  /** A word, a half word and three bytes, with a seed. */
  lemma {:induction false} Short64()
    ensures HashOf(XXH64(), 0x000000009E3779B1, [1, 2, 3, 4, 5, 6, 7, 8] + ([1, 2, 3, 4] + [5, 6, 7])) == 0x3137437B791D2A61
  {
    ShortInput(XXH64(), 0x000000009E3779B1, [1, 2, 3, 4, 5, 6, 7, 8] + ([1, 2, 3, 4] + [5, 6, 7]));
    Start64();
    Word64();
  }

  lemma {:induction false} Lanes64()
    ensures Round64(0x60EA27EF4BF82F87, 0x0807060504030201) == 0x73E7690351F3B82F
    ensures Round64(0xC2B2AE3DC60C6500, 0x0000000000000004) == 0xFCECAE4102BA6FAF
    ensures Round64(0x000000009E3779B1, 0x0000000000000002) == 0xC93EE8514CB5042B
    ensures Round64(0x61C8864F184BAF2A, 0x0000000000000003) == 0x91098394832E9B15
  {
  }

  lemma {:induction false} Merges64()
    ensures MergeRound64(0x5AFD140DBDB84915, 0x73E7690351F3B82F) == 0x63175457DB3CBE6B
    ensures MergeRound64(0x63175457DB3CBE6B, 0xFCECAE4102BA6FAF) == 0xB3FB749F535D1CBA
    ensures MergeRound64(0xB3FB749F535D1CBA, 0xC93EE8514CB5042B) == 0xE27725881E1E8B4D
    ensures MergeRound64(0xE27725881E1E8B4D, 0x91098394832E9B15) == 0x1D14DA57ABC8FDC2
  {
  }

  lemma {:induction false} Converged64()
    ensures Converge64(Lanes(0x73E7690351F3B82F, 0xFCECAE4102BA6FAF, 0xC93EE8514CB5042B, 0x91098394832E9B15)) == 0x1D14DA57ABC8FDC2
  {
    Merges64();
  }

  lemma {:induction false} Finished64()
    ensures Avalanche64(0x1D14DA57ABC8FDE2) == 0xEFFD2AD7D7856214
  {
  }

  lemma {:induction false} StripeLength64()
    ensures AddLength64(0x1D14DA57ABC8FDC2, 32) == 0x1D14DA57ABC8FDE2
  {
  }

  lemma {:induction false} FromLanes64()
    ensures XXH64().avalanche(XXH64().addLength(XXH64().converge(Lanes(0x73E7690351F3B82F, 0xFCECAE4102BA6FAF, 0xC93EE8514CB5042B, 0x91098394832E9B15)), 32)) == 0xEFFD2AD7D7856214
  {
    Converged64();
    Finished64();
    StripeLength64();
  }

  lemma {:induction false} ToLanes64()
    ensures XXH64().round(XXH64().lane1(0x000000009E3779B1), XXH64().read([1, 2, 3, 4, 5, 6, 7, 8])) == 0x73E7690351F3B82F
    ensures XXH64().round(XXH64().lane2(0x000000009E3779B1), XXH64().read([4, 0, 0, 0, 0, 0, 0, 0])) == 0xFCECAE4102BA6FAF
    ensures XXH64().round(0x000000009E3779B1, XXH64().read([2, 0, 0, 0, 0, 0, 0, 0])) == 0xC93EE8514CB5042B
    ensures XXH64().round(XXH64().lane4(0x000000009E3779B1), XXH64().read([3, 0, 0, 0, 0, 0, 0, 0])) == 0x91098394832E9B15
  {
    ReadCounting64();
    Read64Of2();
    Read64Of3();
    Read64Of4();
    Lanes64();
  }

  /** A stripe with a seed. */
  lemma {:induction false} Stripe64()
    ensures HashOf(XXH64(), 0x000000009E3779B1, [1, 2, 3, 4, 5, 6, 7, 8] + [4, 0, 0, 0, 0, 0, 0, 0] + [2, 0, 0, 0, 0, 0, 0, 0] + [3, 0, 0, 0, 0, 0, 0, 0]) == 0xEFFD2AD7D7856214
  {
    OneStripe(XXH64(), 0x000000009E3779B1, [1, 2, 3, 4, 5, 6, 7, 8], [4, 0, 0, 0, 0, 0, 0, 0], [2, 0, 0, 0, 0, 0, 0, 0], [3, 0, 0, 0, 0, 0, 0, 0]);
    ToLanes64();
    FromLanes64();
  }

  // ----- XXH32 -----

  lemma {:induction false} Empty32()
    ensures HashOf(XXH32(), 0, []) == 0x02CC5D05
  {
  }

  lemma {:induction false} ReadCounting32()
    ensures Read32([1, 2, 3, 4]) == 0x04030201
  {
    var s: seq<byte> := [1, 2, 3, 4];
    assert Read32(s[4..]) == 0;
    assert Read32(s[3..]) == 0x4;
    assert Read32(s[2..]) == 0x403;
    assert Read32(s[1..]) == 0x40302;
  }

  lemma {:induction false} Read32Of2()
    ensures Read32([2, 0, 0, 0]) == 2
  {
  }

  lemma {:induction false} Read32Of3()
    ensures Read32([3, 0, 0, 0]) == 3
  {
  }

  lemma {:induction false} Read32Of4()
    ensures Read32([4, 0, 0, 0]) == 4
  {
  }

  lemma {:induction false} End32()
    ensures Tail(XXH32(), 0xF87519C6, []) == 0xF1C42308
  {
  }

  lemma {:induction false} Bytes32()
    ensures MixByte32(0xBD10C0D8, 5) == 0x831E1586
    ensures MixByte32(0x831E1586, 6) == 0x98811379
    ensures MixByte32(0x98811379, 7) == 0xF87519C6
  {
  }

  lemma {:induction false} LastByte32()
    ensures Tail(XXH32(), 0x98811379, [7]) == 0xF1C42308
  {
    End32();
    Bytes32();
    TailByte(XXH32(), 0x98811379, 7, []);
    assert [7] + [] == [7];
  }

  lemma {:induction false} TwoBytes32()
    ensures Tail(XXH32(), 0x831E1586, [6, 7]) == 0xF1C42308
  {
    LastByte32();
    Bytes32();
    TailByte(XXH32(), 0x831E1586, 6, [7]);
    assert [6] + [7] == [6, 7];
  }

  lemma {:induction false} ThreeBytes32()
    ensures Tail(XXH32(), 0xBD10C0D8, [5, 6, 7]) == 0xF1C42308
  {
    TwoBytes32();
    Bytes32();
    TailByte(XXH32(), 0xBD10C0D8, 5, [6, 7]);
    assert [5] + [6, 7] == [5, 6, 7];
  }

  lemma {:induction false} Word32()
    ensures Tail(XXH32(), 0xB48DE169, [1, 2, 3, 4] + ([5, 6, 7])) == 0xF1C42308
  {
    ThreeBytes32();
    ReadCounting32();
    assert MixWord32(0xB48DE169, 0x04030201) == 0xBD10C0D8;
    TailWord(XXH32(), 0xB48DE169, [1, 2, 3, 4], [5, 6, 7]);
  }

  lemma {:induction false} Length32()
    ensures AddLength32(0xB48DE162, 7) == 0xB48DE169
  {
  }

  lemma {:induction false} Start32()
    ensures XXH32().addLength(XXH32().plusPrime5(0x9E3779B1), 7) == 0xB48DE169
  {
    assert XXH32().plusPrime5(0x9E3779B1) == 0xB48DE162;
    Length32();
  }

  /** A word and three bytes, with a seed. */
  lemma {:induction false} Short32()
    ensures HashOf(XXH32(), 0x9E3779B1, [1, 2, 3, 4] + ([5, 6, 7])) == 0xF1C42308
  {
    ShortInput(XXH32(), 0x9E3779B1, [1, 2, 3, 4] + ([5, 6, 7]));
    Start32();
    Word32();
  }

  lemma {:induction false} Lanes32()
    ensures Round32(0xC25ABDD9, 0x04030201) == 0x5C6E0AE8
    ensures Round32(0x24234428, 0x00000004) == 0x295C555A
    ensures Round32(0x9E3779B1, 0x00000002) == 0x216F4AF1
    ensures Round32(0x00000000, 0x00000003) == 0x58EBB0B8
  {
  }

  lemma {:induction false} Converged32()
    ensures Converge32(Lanes(0x5C6E0AE8, 0x295C555A, 0x216F4AF1, 0x58EBB0B8)) == 0x1E9738A8
  {
  }

  lemma {:induction false} Finished32()
    ensures Avalanche32(0x1E9738B8) == 0xF4020AC3
  {
  }

  lemma {:induction false} StripeLength32()
    ensures AddLength32(0x1E9738A8, 16) == 0x1E9738B8
  {
  }

  lemma {:induction false} FromLanes32()
    ensures XXH32().avalanche(XXH32().addLength(XXH32().converge(Lanes(0x5C6E0AE8, 0x295C555A, 0x216F4AF1, 0x58EBB0B8)), 16)) == 0xF4020AC3
  {
    Converged32();
    Finished32();
    StripeLength32();
  }

  lemma {:induction false} ToLanes32()
    ensures XXH32().round(XXH32().lane1(0x9E3779B1), XXH32().read([1, 2, 3, 4])) == 0x5C6E0AE8
    ensures XXH32().round(XXH32().lane2(0x9E3779B1), XXH32().read([4, 0, 0, 0])) == 0x295C555A
    ensures XXH32().round(0x9E3779B1, XXH32().read([2, 0, 0, 0])) == 0x216F4AF1
    ensures XXH32().round(XXH32().lane4(0x9E3779B1), XXH32().read([3, 0, 0, 0])) == 0x58EBB0B8
  {
    ReadCounting32();
    Read32Of2();
    Read32Of3();
    Read32Of4();
    Lanes32();
  }

  /** A stripe with a seed. */
  lemma {:induction false} Stripe32()
    ensures HashOf(XXH32(), 0x9E3779B1, [1, 2, 3, 4] + [4, 0, 0, 0] + [2, 0, 0, 0] + [3, 0, 0, 0]) == 0xF4020AC3
  {
    OneStripe(XXH32(), 0x9E3779B1, [1, 2, 3, 4], [4, 0, 0, 0], [2, 0, 0, 0], [3, 0, 0, 0]);
    ToLanes32();
    FromLanes32();
  }
}
