/**
 The description of a Huffman table: the weights of all symbols but the last, either as an FSE
 block or on 4 bits each. HUF_writeCTable_wksp writes it and HUF_readStats reads it.
 */
module HufWeights {
  import opened Numeric
  import opened Results
  import opened Bitstream
  import opened Distribution
  import opened FseTable
  import opened FseBuild
  import opened FseMessage
  import opened FseBlock
  import opened NCountFormat
  import opened BitStack
  import opened Normalize

  const HUF_TABLELOG_MAX := 12
  const MAX_FSE_TABLELOG_FOR_HUFF_HEADER := 6

  // ----- HIST_count_simple -----

  lemma {:induction false} CountOne(v: seq<byte>, i: nat)
    requires i < |v|
    ensures Count(v, v[i]) > 0
  {
    if i < |v| - 1 {
      CountOne(v[..|v| - 1], i);
    }
  }

  lemma {:induction false} CountAll(v: seq<byte>, s: byte)
    requires Count(v, s) == |v|
    ensures forall i :: 0 <= i < |v| ==> v[i] == s
  {
    if |v| > 0 {
      CountAll(v[..|v| - 1], s);
      assert forall i :: 0 <= i < |v| - 1 ==> v[..|v| - 1][i] == v[i];
    }
  }

  lemma {:induction false} CountSnoc(v: seq<byte>, i: nat, s: byte)
    requires i < |v|
    ensures Count(v[..i + 1], s) == Count(v[..i], s) + if v[i] == s then 1 else 0
  {
    assert v[..i + 1][..i] == v[..i];
  }

  /** Counting one more occurrence of s. */
  lemma {:induction false} TotalMore(count: seq<nat>, k: nat, s: nat)
    requires k <= |count| && s < |count|
    ensures Total(count[s := count[s] + 1], k) == Total(count, k) + if s < k then 1 else 0
  {
    if k > 0 {
      TotalMore(count, k - 1, s);
    }
  }

  lemma {:induction false} TotalNone(count: seq<nat>, k: nat, n: nat)
    requires k <= n <= |count| && forall s :: k <= s < n ==> count[s] == 0
    ensures Total(count, n) == Total(count, k)
    decreases n
  {
    if k < n {
      TotalNone(count, k, n - 1);
    }
  }

  lemma {:induction false} TotalPrefix(count: seq<nat>, k: nat, n: nat)
    requires k <= n <= |count|
    ensures Total(count[..n], k) == Total(count, k)
  {
    if k > 0 {
      TotalPrefix(count, k - 1, n);
    }
  }

  ghost predicate Counted(count: seq<nat>, v: seq<byte>) {
    |count| <= 256 && forall s :: 0 <= s < |count| ==> CountIs(count, v, s)
  }

  ghost predicate CountIs(count: seq<nat>, v: seq<byte>, s: byte)
    requires s < |count|
  {
    count[s] == Count(v, s)
  }

  method CountBytes(src: seq<byte>, maxSymbolValue: byte) returns (count: array<nat>)
    requires forall i :: 0 <= i < |src| ==> src[i] <= maxSymbolValue
    ensures fresh(count) && count.Length == maxSymbolValue + 1
    ensures Counted(count[..], src) && Total(count[..], count.Length) == |src|
  {
    count := new nat[maxSymbolValue + 1](_ => 0);
    TotalNone(count[..], 0, count.Length);
    var i := 0;
    while i < |src|
      invariant 0 <= i <= |src|
      invariant Counted(count[..], src[..i]) && Total(count[..], count.Length) == i
    {
      ghost var was := count[..];
      count[src[i]] := count[src[i]] + 1;
      TotalMore(was, count.Length, src[i]);
      ghost var now, seen := count[..], src[..i + 1];
      forall s | 0 <= s < count.Length ensures CountIs(now, seen, s) {
        assert CountIs(was, src[..i], s);
        CountSnoc(src, i, s);
      }
      i := i + 1;
    }
    assert src[..i] == src;
  }

  /** The counts up to the last symbol that occurs, and the largest of them. */
  method CountSimple(src: seq<byte>, maxSymbolValue: byte) returns (count: seq<nat>, largest: nat)
    requires forall i :: 0 <= i < |src| ==> src[i] <= maxSymbolValue
    ensures 0 < |count| <= maxSymbolValue + 1 && Counted(count, src) && Total(count, |count|) == |src|
    ensures |src| > 0 ==> count[|count| - 1] > 0
    ensures forall i :: 0 <= i < |src| ==> src[i] < |count|
    ensures (forall s :: 0 <= s < |count| ==> count[s] <= largest) && exists s :: 0 <= s < |count| && count[s] == largest
  {
    var table := CountBytes(src, maxSymbolValue);
    if |src| == 0 {
      count, largest := table[..1], 0;
      assert CountIs(table[..], src, 0);
      return;
    }
    var max := maxSymbolValue;
    while table[max] == 0
      invariant 0 <= max <= maxSymbolValue && forall s :: max < s <= maxSymbolValue ==> table[s] == 0
      invariant Total(table[..], max + 1) == |src|
      decreases max
    {
      assert Total(table[..], max) == |src|;
      max := max - 1;
    }
    count := table[..max + 1];
    TotalPrefix(table[..], max + 1, max + 1);
    forall s | 0 <= s < |count| ensures CountIs(count, src, s) {
      assert CountIs(table[..], src, s);
    }
    forall i | 0 <= i < |src| ensures src[i] < |count| {
      CountOne(src, i);
      assert CountIs(table[..], src, src[i]);
    }
    var at := Normalize.Largest(count);
    largest := count[at];
  }

  // ----- HUF_compressWeights -----

  datatype Outcome = NotCompressible | SingleWeight | Coded(bytes: seq<byte>)

  /** Two symbols occur, so every symbol owns less than the whole table, and all that occur have cells. */
  lemma {:induction false} MixedMessage(msg: seq<byte>, count: seq<nat>, norm: seq<int>, tableLog: nat)
    requires |count| == |norm| && Counted(count, msg) && (forall i :: 0 <= i < |msg| ==> msg[i] < |count|)
    requires |msg| > 0 && forall s :: 0 <= s < |count| ==> count[s] != |msg|
    requires Normalized(norm, tableLog) && AllServed(count, norm, |count|, 1)
    ensures forall i :: 0 <= i < |msg| ==> msg[i] in Alphabet(norm)
    ensures forall s :: 0 <= s < |norm| ==> Abs(norm[s]) < Pow2(tableLog)
  {
    forall i | 0 <= i < |msg| ensures msg[i] in Alphabet(norm) {
      Occurs(msg, count, i);
      assert Served(count[msg[i]], norm[msg[i]], 1);
    }
    var j := SomeOther(msg, count);
    Occurs(msg, count, 0);
    Occurs(msg, count, j);
    NoOwner(count, norm, tableLog, 1, msg[0], msg[j]);
  }

  lemma {:induction false} Occurs(msg: seq<byte>, count: seq<nat>, i: nat)
    requires Counted(count, msg) && i < |msg| && msg[i] < |count|
    ensures count[msg[i]] > 0
  {
    CountOne(msg, i);
    assert CountIs(count, msg, msg[i]);
  }

  lemma {:induction false} SomeOther(msg: seq<byte>, count: seq<nat>) returns (j: nat)
    requires |msg| > 0 && Counted(count, msg) && msg[0] < |count| && count[msg[0]] != |msg|
    ensures j < |msg| && msg[j] != msg[0]
  {
    assert CountIs(count, msg, msg[0]);
    if forall i :: 0 <= i < |msg| ==> msg[i] == msg[0] {
      AllSame(msg, msg[0]);
      assert false;
    }
    j :| 0 <= j < |msg| && msg[j] != msg[0];
  }

  lemma {:induction false} AllSame(v: seq<byte>, s: byte)
    requires forall i :: 0 <= i < |v| ==> v[i] == s
    ensures Count(v, s) == |v|
  {
    if |v| > 0 {
      AllSame(v[..|v| - 1], s);
    }
  }

  /** The room that the header of the weights' distribution takes at most. */
  const MAX_WEIGHTS_HEADER := 17

  lemma {:induction false} SmallHeader(norm: seq<int>, tableLog: nat)
    requires Normalized(norm, tableLog) && MIN_TABLELOG <= tableLog <= MAX_FSE_TABLELOG_FOR_HUFF_HEADER
    requires |norm| <= HUF_TABLELOG_MAX + 1
    ensures HeaderBits(norm, tableLog).len / 8 + 2 <= MAX_WEIGHTS_HEADER
  {
    HeaderLength(norm, tableLog, 0, Push(EMPTY, tableLog - MIN_TABLELOG, 4));
    MulMono(|norm|, 13, tableLog + 3);
  }

  /** The header and the message, one after the other. */
  method CodeWeights(capacity: nat, weights: seq<byte>, norm: seq<int>, tableLog: nat, width: nat) returns (r: Result<Outcome>)
    requires width == 4 || width == 8
    requires Normalized(norm, tableLog) && MIN_TABLELOG <= tableLog <= MAX_FSE_TABLELOG_FOR_HUFF_HEADER
    requires norm[|norm| - 1] != 0 && |weights| > 2 && forall i :: 0 <= i < |weights| ==> weights[i] in Alphabet(norm)
    requires forall s :: 0 <= s < |norm| ==> Abs(norm[s]) < Pow2(tableLog)
    ensures |norm| <= HUF_TABLELOG_MAX + 1 && capacity >= MAX_WEIGHTS_HEADER ==> r.Ok?
    ensures r.Ok? ==> !r.value.SingleWeight?
    ensures r.Ok? && r.value.Coded? ==>
              |r.value.bytes| <= capacity && Block(r.value.bytes, weights, MAX_FSE_TABLELOG_FOR_HUFF_HEADER)
  {
    var header := new byte[capacity](_ => 0);
    if |norm| <= HUF_TABLELOG_MAX + 1 {
      SmallHeader(norm, tableLog);
    }
    var h := WriteNCount(header, norm, tableLog);
    if h.Err? {
      return Err(h.error);
    }
    var ct := BuildCTable(norm, tableLog);
    ghost var dt := DecoderExists(ct, norm, tableLog);
    BuiltTablesInverse(ct, dt, norm, tableLog);
    ghost var c := Codec(ct, dt, Alphabet(norm), Pow2(tableLog));
    var rest := new byte[capacity - h.value](_ => 0);
    var size := CompressUsingCTable(rest, weights, ct, width, c);
    if size == 0 {
      return Ok(NotCompressible);
    }
    var bytes := header[..h.value] + rest[..size];
    assert bytes[..h.value] == header[..h.value] && bytes[h.value..] == rest[..size];
    assert IsBlock(bytes, weights, norm, tableLog, ct, dt);
    r := Ok(Coded(bytes));
  }

  /** The largest count is the length exactly when there is a single symbol. */
  lemma {:induction false} OnlyOne(msg: seq<byte>, count: seq<nat>, maxCount: nat)
    requires Counted(count, msg) && |msg| > 0 && msg[0] < |count| && Total(count, |count|) == |msg|
    requires forall s :: 0 <= s < |count| ==> count[s] <= maxCount
    requires exists s :: 0 <= s < |count| && count[s] == maxCount
    ensures maxCount == |msg| <==> forall i :: 0 <= i < |msg| ==> msg[i] == msg[0]
  {
    var s :| 0 <= s < |count| && count[s] == maxCount;
    assert CountIs(count, msg, s) && CountIs(count, msg, msg[0]);
    TotalMono(count, s, |count|);
    if maxCount == |msg| {
      CountAll(msg, s);
    }
    if forall i :: 0 <= i < |msg| ==> msg[i] == msg[0] {
      AllSame(msg, msg[0]);
    }
  }

  lemma {:induction false} AtLeastThree(msg: seq<byte>, count: seq<nat>, maxCount: nat)
    requires 0 < |count| && Total(count, |count|) == |msg| && count[|count| - 1] > 0
    requires forall s :: 0 <= s < |count| ==> count[s] <= maxCount
    requires exists s :: 0 <= s < |count| && count[s] == maxCount
    requires maxCount != |msg| && maxCount != 1
    ensures |count| >= 2 && |msg| > 2 && maxCount < |msg|
  {
    var s :| 0 <= s < |count| && count[s] == maxCount;
    TotalMono(count, s, |count|);
    assert Total(count, 1) == Total(count, 0) + count[0];
  }

  lemma {:induction false} SmallTable(srcSize: nat, maxSymbolValue: nat)
    requires 1 < srcSize < Pow2(32) && 0 < maxSymbolValue <= HUF_TABLELOG_MAX
    ensures var l := OptimalTableLog(MAX_FSE_TABLELOG_FOR_HUFF_HEADER, srcSize, maxSymbolValue, 2);
            0 < l <= MAX_FSE_TABLELOG_FOR_HUFF_HEADER && Fit(l, srcSize, maxSymbolValue)
  {
    OptimalFits(MAX_FSE_TABLELOG_FOR_HUFF_HEADER, srcSize, maxSymbolValue, 2);
    assert Pow2(4) == 16;
    if HighBit(maxSymbolValue) >= 4 {
      Pow2Mono(4, HighBit(maxSymbolValue));
      assert false;
    }
  }

  method NormalizeWeights(weights: seq<byte>, count: seq<nat>) returns (norm: seq<int>, tableLog: nat)
    requires 2 <= |count| <= HUF_TABLELOG_MAX + 1 && 2 < |weights| < Pow2(32)
    requires Counted(count, weights) && Total(count, |count|) == |weights| && count[|count| - 1] > 0
    requires forall i :: 0 <= i < |weights| ==> weights[i] < |count|
    requires forall s :: 0 <= s < |count| ==> count[s] != |weights|
    ensures Normalized(norm, tableLog) && MIN_TABLELOG <= tableLog <= MAX_FSE_TABLELOG_FOR_HUFF_HEADER
    ensures |norm| == |count|
    ensures norm[|norm| - 1] != 0 && forall i :: 0 <= i < |weights| ==> weights[i] in Alphabet(norm)
    ensures forall s :: 0 <= s < |norm| ==> Abs(norm[s]) < Pow2(tableLog)
  {
    tableLog := OptimalTableLog(MAX_FSE_TABLELOG_FOR_HUFF_HEADER, |weights|, |count| - 1, 2);
    SmallTable(|weights|, |count| - 1);
    var table := new int[HUF_TABLELOG_MAX + 1];
    var n := NormalizeCount(table, tableLog, count, |weights|, false);
    norm := table[..|count|];
    MixedMessage(weights, count, norm, tableLog);
    assert Served(count[|count| - 1], norm[|count| - 1], 1);
  }

  /** Weights as an FSE block; a size of 0 or 1 in the source stands for the first two outcomes. */
  method CompressWeights(capacity: nat, weights: seq<byte>, width: nat) returns (r: Result<Outcome>)
    requires width == 4 || width == 8
    requires |weights| < Pow2(32) && forall i :: 0 <= i < |weights| ==> weights[i] <= HUF_TABLELOG_MAX
    ensures r.Ok? && r.value.Coded? ==>
              |r.value.bytes| <= capacity && Block(r.value.bytes, weights, MAX_FSE_TABLELOG_FOR_HUFF_HEADER)
    ensures capacity >= MAX_WEIGHTS_HEADER ==> r.Ok?
    ensures |weights| <= 1 ==> r == Ok(NotCompressible)
    ensures |weights| > 1 ==> (r == Ok(SingleWeight) <==> forall i :: 0 <= i < |weights| ==> weights[i] == weights[0])
  {
    if |weights| <= 1 {
      return Ok(NotCompressible);
    }
    var count, maxCount := CountSimple(weights, HUF_TABLELOG_MAX);
    OnlyOne(weights, count, maxCount);
    if maxCount == |weights| {
      return Ok(SingleWeight);
    }
    if maxCount == 1 {
      return Ok(NotCompressible);
    }
    AtLeastThree(weights, count, maxCount);
    var norm, tableLog := NormalizeWeights(weights, count);
    r := CodeWeights(capacity, weights, norm, tableLog, width);
  }

  // ----- what a description is -----

  /** Weights on 4 bits each, two to a byte; a missing last one counts as 0. */
  ghost predicate Nibbles(src: seq<byte>, ws: seq<byte>) {
    |src| == (|ws| + 1) / 2 && NibblesUpTo(src, ws, |ws|)
  }

  ghost predicate NibblesUpTo(src: seq<byte>, ws: seq<byte>, n: nat)
    requires |src| == (|ws| + 1) / 2
  {
    forall i :: 0 <= i < n && i < |ws| ==> NibbleAt(src, ws, i)
  }

  ghost predicate NibbleAt(src: seq<byte>, ws: seq<byte>, i: nat)
    requires i < |ws| && |src| == (|ws| + 1) / 2
  {
    ws[i] == if i % 2 == 0 then src[i / 2] / 16 else src[i / 2] % 16
  }

  /** A size byte, then the weights in one of the two forms. */
  ghost predicate Describes(src: seq<byte>, ws: seq<byte>) {
    |src| > 0 &&
    if src[0] < 128 then |src| == src[0] + 1 && Block(src[1..], ws, MAX_FSE_TABLELOG_FOR_HUFF_HEADER)
    else |ws| == src[0] - 127 && Nibbles(src[1..], ws)
  }

  // ----- HUF_writeCTable_wksp -----

  /** The weight of a symbol whose code has nbBits bits. */
  function WeightOf(nbBits: nat, huffLog: nat): (w: nat)
    requires nbBits <= huffLog
  {
    if nbBits == 0 then 0 else huffLog + 1 - nbBits
  }

  /** Absent symbols have weight 0; for the others weight and length add up to one more than the greatest length. */
  ghost predicate HasWeight(w: nat, nbBits: nat, huffLog: nat) {
    (w == 0 <==> nbBits == 0) && (nbBits > 0 ==> w + nbBits == huffLog + 1)
  }

  ghost predicate AreWeights(ws: seq<byte>, nbBits: seq<nat>, huffLog: nat) {
    |ws| <= |nbBits| && forall i :: 0 <= i < |ws| ==> HasWeight(ws[i], nbBits[i], huffLog)
  }

  /** The weights of all symbols but the last. */
  method ConvertToWeights(nbBits: seq<nat>, huffLog: nat) returns (ws: seq<byte>)
    requires 0 < |nbBits| && huffLog <= HUF_TABLELOG_MAX && forall i :: 0 <= i < |nbBits| ==> nbBits[i] <= huffLog
    ensures |ws| == |nbBits| - 1 && AreWeights(ws, nbBits, huffLog)
  {
    var huffWeight := new byte[|nbBits| - 1](_ => 0);
    var n := 0;
    while n < |nbBits| - 1
      invariant 0 <= n <= |nbBits| - 1
      invariant AreWeights(huffWeight[..n], nbBits, huffLog)
    {
      huffWeight[n] := WeightOf(nbBits[n], huffLog);
      n := n + 1;
    }
    ws := huffWeight[..];
    assert huffWeight[..n] == ws;
  }

  method WriteNibbles(dst: array<byte>, ws: seq<byte>)
    requires (|ws| + 1) / 2 + 1 <= dst.Length && forall i :: 0 <= i < |ws| ==> ws[i] < 16
    modifies dst
    ensures Nibbles(dst[1..(|ws| + 1) / 2 + 1], ws) && dst[0] == old(dst[0])
  {
    ghost var half := (|ws| + 1) / 2;
    var n := 0;
    while n < |ws|
      invariant 0 <= n <= |ws| + 1 && n % 2 == 0 && dst[0] == old(dst[0])
      invariant NibblesUpTo(dst[1..half + 1], ws, n)
    {
      ghost var was := dst[1..half + 1];
      var next := if n + 1 < |ws| then ws[n + 1] else 0;
      dst[n / 2 + 1] := ws[n] * 16 + next;
      ghost var now := dst[1..half + 1];
      assert now[n / 2] == ws[n] * 16 + next;
      forall i | 0 <= i < n + 2 && i < |ws| ensures NibbleAt(now, ws, i) {
        if i < n {
          assert NibbleAt(was, ws, i) && now[i / 2] == was[i / 2];
        }
      }
      n := n + 2;
    }
  }

  method StoreBlock(dst: array<byte>, bytes: seq<byte>, ghost ws: seq<byte>)
    requires |bytes| < 128 && |bytes| < dst.Length && Block(bytes, ws, MAX_FSE_TABLELOG_FOR_HUFF_HEADER)
    modifies dst
    ensures Describes(dst[..|bytes| + 1], ws)
  {
    dst[0] := |bytes|;
    forall i | 0 <= i < |bytes| {
      dst[1 + i] := bytes[i];
    }
    assert dst[..|bytes| + 1][1..] == bytes;
  }

  method WriteRaw(dst: array<byte>, ws: seq<byte>) returns (r: Result<nat>)
    requires 0 < |ws| && forall i :: 0 <= i < |ws| ==> ws[i] < 16
    modifies dst
    ensures r == if |ws| > 128 then Err(Generic) else if (|ws| + 1) / 2 + 1 > dst.Length then Err(DstSizeTooSmall) else Ok((|ws| + 1) / 2 + 1)
    ensures r.Ok? ==> Describes(dst[..r.value], ws)
  {
    if |ws| > 256 - 128 {
      return Err(Generic);
    }
    var size := (|ws| + 1) / 2 + 1;
    if size > dst.Length {
      return Err(DstSizeTooSmall);
    }
    dst[0] := 128 + (|ws| - 1);
    WriteNibbles(dst, ws);
    assert dst[..size][1..] == dst[1..size];
    r := Ok(size);
  }

  ghost predicate DescribesTable(src: seq<byte>, nbBits: seq<nat>, huffLog: nat, ws: seq<byte>) {
    |ws| + 1 == |nbBits| && AreWeights(ws, nbBits, huffLog) && Describes(src, ws)
  }

  /** A table in full: the lengths 1, 2, 3 and 3, of which the last one is implied. */
  lemma {:induction false} ExampleTable()
    ensures DescribesTable([130, 0x32, 0x10], [1, 2, 3, 3], 3, [3, 2, 1])
  {
    var src: seq<byte>, ws: seq<byte> := [130, 0x32, 0x10], [3, 2, 1];
    assert src[1..] == [0x32, 0x10];
    assert NibbleAt([0x32, 0x10], ws, 0) && NibbleAt([0x32, 0x10], ws, 1) && NibbleAt([0x32, 0x10], ws, 2);
    forall i | 0 <= i < 3 ensures NibbleAt([0x32, 0x10], ws, i) {
      assert i == 0 || i == 1 || i == 2;
    }
    assert Nibbles(src[1..], ws);
  }

  /** The weights as an FSE block when that is worth it, else on 4 bits each. */
  method WriteWeights(dst: array<byte>, ws: seq<byte>, width: nat) returns (r: Result<nat>)
    requires width == 4 || width == 8
    requires 0 < |ws| <= MAX_SYMBOL_VALUE && 0 < dst.Length && forall i :: 0 <= i < |ws| ==> ws[i] <= HUF_TABLELOG_MAX
    modifies dst
    ensures r.Ok? ==> 0 < r.value <= dst.Length && Describes(dst[..r.value], ws)
    ensures |ws| <= 128 && dst.Length > MAX_WEIGHTS_HEADER && dst.Length > (|ws| + 1) / 2 ==> r.Ok?
  {
    SmallMessage(|ws|);
    var coded := CompressWeights(dst.Length - 1, ws, width);
    if coded.Err? {
      return Err(coded.error);
    }
    r := StoreBest(dst, coded.value, ws);
  }

  /** `if ((hSize > 1) & (hSize < maxSymbolValue / 2))` */
  method StoreBest(dst: array<byte>, coded: Outcome, ws: seq<byte>) returns (r: Result<nat>)
    requires 0 < |ws| <= MAX_SYMBOL_VALUE && 0 < dst.Length && forall i :: 0 <= i < |ws| ==> ws[i] < 16
    requires coded.Coded? ==> |coded.bytes| < dst.Length && Block(coded.bytes, ws, MAX_FSE_TABLELOG_FOR_HUFF_HEADER)
    modifies dst
    ensures r.Ok? ==> 0 < r.value <= dst.Length && Describes(dst[..r.value], ws)
    ensures |ws| <= 128 && dst.Length > (|ws| + 1) / 2 ==> r.Ok?
  {
    if coded.Coded? && 1 < |coded.bytes| < |ws| / 2 {
      StoreBlock(dst, coded.bytes, ws);
      r := Ok(|coded.bytes| + 1);
    } else {
      r := WriteRaw(dst, ws);
    }
  }

  /**
   Writes the description of a table given by its code lengths. With 129 symbols at most it cannot
   fail in a buffer that has room for the weights on 4 bits each, and for the header of their block.
   */
  method WriteCTable(dst: array<byte>, nbBits: seq<nat>, huffLog: nat, width: nat) returns (r: Result<nat>)
    requires width == 4 || width == 8
    requires 1 < |nbBits| && huffLog <= HUF_TABLELOG_MAX && forall i :: 0 <= i < |nbBits| ==> nbBits[i] <= huffLog
    modifies dst
    ensures |nbBits| - 1 > MAX_SYMBOL_VALUE ==> r == Err(MaxSymbolValueTooLarge)
    ensures r.Ok? ==> 0 < r.value <= dst.Length
    ensures r.Ok? ==> exists ws :: DescribesTable(dst[..r.value], nbBits, huffLog, ws)
    ensures |nbBits| <= 129 && dst.Length > MAX_WEIGHTS_HEADER && dst.Length > |nbBits| / 2 ==> r.Ok?
  {
    if |nbBits| - 1 > MAX_SYMBOL_VALUE {
      return Err(MaxSymbolValueTooLarge);
    }
    var ws := ConvertToWeights(nbBits, huffLog);
    if dst.Length < 1 {
      return Err(DstSizeTooSmall);
    }
    r := WriteWeights(dst, ws, width);
    assert r.Ok? ==> DescribesTable(dst[..r.value], nbBits, huffLog, ws);
  }

  lemma {:induction false} SmallMessage(n: nat)
    requires n <= MAX_SYMBOL_VALUE
    ensures n < Pow2(32)
  {
    assert Pow2(8) == 256;
    Pow2Mono(8, 32);
  }
}
