/** The mixing functions of XXH64 and XXH32, and their hashes of an input that comes in pieces. */
module XxStreams {
  import opened Numeric
  import opened XxHash

  const PRIME64_1: bv64 := 0x9E3779B185EBCA87
  const PRIME64_2: bv64 := 0xC2B2AE3D27D4EB4F
  const PRIME64_3: bv64 := 0x165667B19E3779F9
  const PRIME64_4: bv64 := 0x85EBCA77C2B2AE63
  const PRIME64_5: bv64 := 0x27D4EB2F165667C5

  const PRIME32_1: bv32 := 0x9E3779B1
  const PRIME32_2: bv32 := 0x85EBCA77
  const PRIME32_3: bv32 := 0xC2B2AE3D
  const PRIME32_4: bv32 := 0x27D4EB2F
  const PRIME32_5: bv32 := 0x165667B1

  // ----- XXH64 -----

  function Read64(s: seq<byte>): (x: bv64) {
    if |s| == 0 then 0 else (s[0] as bv64) | (Read64(s[1..]) << 8)
  }

  function Round64(acc: bv64, input: bv64): (r: bv64) {
    (acc + input * PRIME64_2).RotateLeft(31) * PRIME64_1
  }

  function MergeRound64(acc: bv64, val: bv64): (r: bv64) {
    (acc ^ Round64(0, val)) * PRIME64_1 + PRIME64_4
  }

  function Converge64(v: Lanes<bv64>): (h: bv64) {
    var h := v.v1.RotateLeft(1) + v.v2.RotateLeft(7) + v.v3.RotateLeft(12) + v.v4.RotateLeft(18);
    MergeRound64(MergeRound64(MergeRound64(MergeRound64(h, v.v1), v.v2), v.v3), v.v4)
  }

  function MixWord64(h: bv64, x: bv64): (r: bv64) {
    (h ^ Round64(0, x)).RotateLeft(27) * PRIME64_1 + PRIME64_4
  }

  function WordStep64(h: bv64, s: seq<byte>): (r: bv64) {
    MixWord64(h, Read64(s))
  }

  function MixHalf64(h: bv64, x: bv64): (r: bv64) {
    (h ^ (x * PRIME64_1)).RotateLeft(23) * PRIME64_2 + PRIME64_3
  }

  function HalfStep64(h: bv64, s: seq<byte>): (r: bv64) {
    MixHalf64(h, Read64(s))
  }

  function MixByte64(h: bv64, x: bv64): (r: bv64) {
    (h ^ (x * PRIME64_5)).RotateLeft(11) * PRIME64_1
  }

  function ByteStep64(h: bv64, b: byte): (r: bv64) {
    MixByte64(h, b as bv64)
  }

  function Avalanche64(h0: bv64): (h: bv64) {
    var h1 := (h0 ^ (h0 >> 33)) * PRIME64_2;
    var h2 := (h1 ^ (h1 >> 29)) * PRIME64_3;
    h2 ^ (h2 >> 32)
  }

  function XXH64(): (k: Kernel<bv64>)
    ensures k.Valid() && k.wordBytes == 8
  {
    Kernel(8, Read64, seed => seed + PRIME64_1 + PRIME64_2, seed => seed + PRIME64_2, seed => seed - PRIME64_1,
           Round64, Converge64, seed => seed + PRIME64_5, AddLength64, WordStep64, HalfStep64, ByteStep64, Avalanche64)
  }

  function AddLength64(h: bv64, n: nat): (r: bv64) {
    h + if n < 0x1_0000_0000_0000_0000 then n as bv64 else (n % 0x1_0000_0000_0000_0000) as bv64
  }

  // ----- XXH32 -----

  function Read32(s: seq<byte>): (x: bv32) {
    if |s| == 0 then 0 else (s[0] as bv32) | (Read32(s[1..]) << 8)
  }

  function Round32(acc: bv32, input: bv32): (r: bv32) {
    (acc + input * PRIME32_2).RotateLeft(13) * PRIME32_1
  }

  function Converge32(v: Lanes<bv32>): (h: bv32) {
    v.v1.RotateLeft(1) + v.v2.RotateLeft(7) + v.v3.RotateLeft(12) + v.v4.RotateLeft(18)
  }

  function MixWord32(h: bv32, x: bv32): (r: bv32) {
    (h + x * PRIME32_3).RotateLeft(17) * PRIME32_4
  }

  function WordStep32(h: bv32, s: seq<byte>): (r: bv32) {
    MixWord32(h, Read32(s))
  }

  function MixByte32(h: bv32, x: bv32): (r: bv32) {
    (h + x * PRIME32_5).RotateLeft(11) * PRIME32_1
  }

  function ByteStep32(h: bv32, b: byte): (r: bv32) {
    MixByte32(h, b as bv32)
  }

  function Avalanche32(h0: bv32): (h: bv32) {
    var h1 := (h0 ^ (h0 >> 15)) * PRIME32_2;
    var h2 := (h1 ^ (h1 >> 13)) * PRIME32_3;
    h2 ^ (h2 >> 16)
  }

  function AddLength32(h: bv32, n: nat): (r: bv32) {
    h + if n < 0x1_0000_0000 then n as bv32 else (n % 0x1_0000_0000) as bv32
  }

  /** XXH32 has no half words: its words have 4 bytes. */
  function XXH32(): (k: Kernel<bv32>)
    ensures k.Valid() && k.wordBytes == 4
  {
    Kernel(4, Read32, seed => seed + PRIME32_1 + PRIME32_2, seed => seed + PRIME32_2, seed => seed - PRIME32_1,
           Round32, Converge32, seed => seed + PRIME32_5, AddLength32, WordStep32, WordStep32, ByteStep32, Avalanche32)
  }

  /** However the input is cut into updates, the digest is the hash of the whole. */
  method XXH64InPieces(pieces: seq<seq<byte>>, seed: bv64) returns (h: bv64)
    requires |Concat(pieces, |pieces|)| < 0x1_0000_0000_0000_0000
    ensures h == HashOf(XXH64(), seed, Concat(pieces, |pieces|))
  {
    h := Hash64InPieces(XXH64(), pieces, seed);
  }

  /** The same for XXH32, also for inputs of 2^32 bytes and more. */
  method XXH32InPieces(pieces: seq<seq<byte>>, seed: bv32) returns (h: bv32)
    ensures h == HashOf(XXH32(), seed, Concat(pieces, |pieces|))
  {
    h := Hash32InPieces(XXH32(), pieces, seed);
  }
}
