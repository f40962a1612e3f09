/**
 HUF_readStats: the weights of a Huffman table with the last one implied. Success means that they
 satisfy Kraft's equality; a written description is read back as the weights it was made from.
 */
module HufStats {
  import opened Numeric
  import opened Results
  import opened Distribution
  import opened FseBlock
  import opened HufWeights

  /** The share of a weight, `(1 << w) >> 1`: none for weight 0. */
  function Share(w: nat): (s: nat)
  {
    if w == 0 then 0 else Pow2(w - 1)
  }

  function WeightSum(ws: seq<byte>): (t: nat)
  {
    if |ws| == 0 then 0 else WeightSum(ws[..|ws| - 1]) + Share(ws[|ws| - 1])
  }

  /** A complete set of weights: Kraft's equality for codes of at most tableLog bits. */
  ghost predicate Complete(ws: seq<byte>, tableLog: nat) {
    && |ws| > 0 && ws[|ws| - 1] > 0 && (forall i :: 0 <= i < |ws| ==> ws[i] <= HUF_TABLELOG_MAX)
    && 1 <= tableLog <= HUF_TABLELOG_MAX && WeightSum(ws) == Pow2(tableLog)
  }

  lemma {:induction false} SumSnoc(ws: seq<byte>, i: nat)
    requires i < |ws|
    ensures WeightSum(ws[..i + 1]) == WeightSum(ws[..i]) + Share(ws[i])
  {
    assert ws[..i + 1][..i] == ws[..i];
  }

  lemma {:induction false} SumParity(ws: seq<byte>)
    ensures WeightSum(ws) % 2 == Count(ws, 1) % 2
  {
    if |ws| > 0 {
      SumParity(ws[..|ws| - 1]);
      var w := ws[|ws| - 1];
      if w >= 2 {
        assert Pow2(w - 1) == 2 * Pow2(w - 2);
      }
    }
  }

  /** The number of longest codes is even: the source's test of the low bit never fails on its own. */
  lemma {:induction false} LongestCodesPair(ws: seq<byte>, tableLog: nat)
    requires Complete(ws, tableLog)
    ensures Count(ws, 1) % 2 == 0
  {
    SumParity(ws);
  }

  /** A power of two below another is what is missing to it in only one way. */
  lemma {:induction false} LastWeight(sum: nat, last: nat, tableLog: nat)
    requires sum > 0 && last > 0 && sum + Pow2(last - 1) == Pow2(tableLog)
    ensures tableLog > 0 && HighBit(sum) + 1 == tableLog
    ensures HighBit(Pow2(last - 1)) + 1 == last <= tableLog
  {
    if last > tableLog {
      Pow2Mono(tableLog, last - 1);
      assert false;
    }
    Pow2Mono(last - 1, tableLog - 1);
    HighBitUnique(sum, tableLog - 1);
    HighBitUnique(Pow2(last - 1), last - 1);
  }

  /** With a longest code, the weights before the last do not sum up to zero. */
  lemma {:induction false} SomeSum(ws: seq<byte>, last: byte, tableLog: nat)
    requires Complete(ws + [last], tableLog) && Count(ws + [last], 1) > 0
    ensures WeightSum(ws) > 0 && WeightSum(ws) + Pow2(last - 1) == Pow2(tableLog)
    ensures Count(ws + [last], 1) >= 2
  {
    var all := ws + [last];
    assert all[..|all| - 1] == ws;
    LongestCodesPair(all, tableLog);
    SumOfLongest(ws);
  }

  lemma {:induction false} SumOfLongest(ws: seq<byte>)
    ensures WeightSum(ws) >= Count(ws, 1)
  {
    if |ws| > 0 {
      SumOfLongest(ws[..|ws| - 1]);
    }
  }

  // ----- reading -----

  datatype Stats = Stats(nbSymbols: nat, tableLog: nat, size: nat)

  ghost predicate RanksCount(rankStats: seq<nat>, ws: seq<byte>) {
    |rankStats| == HUF_TABLELOG_MAX + 1 && forall w: byte :: w <= HUF_TABLELOG_MAX ==> RankIs(rankStats, ws, w)
  }

  ghost predicate RankIs(rankStats: seq<nat>, ws: seq<byte>, w: byte)
    requires w < |rankStats|
  {
    rankStats[w] == Count(ws, w)
  }

  lemma {:induction false} RankMore(was: seq<nat>, ws: seq<byte>, w: byte)
    requires RanksCount(was, ws) && w <= HUF_TABLELOG_MAX
    ensures RanksCount(was[w := was[w] + 1], ws + [w])
  {
    var now, more := was[w := was[w] + 1], ws + [w];
    assert more[..|more| - 1] == ws;
    forall v: byte | v <= HUF_TABLELOG_MAX ensures RankIs(now, more, v) {
      assert RankIs(was, ws, v);
    }
  }

  /** The raw form: weights of 4 bits. */
  method ReadNibbles(huffWeight: array<byte>, src: seq<byte>, oSize: nat)
    requires oSize < huffWeight.Length && |src| == (oSize + 1) / 2
    modifies huffWeight
    ensures Nibbles(src, huffWeight[..oSize])
  {
    var n := 0;
    while n < oSize
      invariant 0 <= n <= oSize + 1 && n % 2 == 0
      invariant NibblesUpTo(src, huffWeight[..oSize], n)
    {
      ghost var was := huffWeight[..oSize];
      huffWeight[n] := src[n / 2] / 16;
      huffWeight[n + 1] := src[n / 2] % 16;
      ghost var now := huffWeight[..oSize];
      forall i | 0 <= i < n + 2 && i < oSize ensures NibbleAt(src, now, i) {
        if i < n {
          assert NibbleAt(src, was, i) && now[i] == was[i];
        }
      }
      n := n + 2;
    }
  }

  lemma {:induction false} SameNibbles(src: seq<byte>, a: seq<byte>, b: seq<byte>)
    requires |a| == |b| && Nibbles(src, a) && Nibbles(src, b)
    ensures a == b
  {
    forall i | 0 <= i < |a| ensures a[i] == b[i] {
      assert NibbleAt(src, a, i) && NibbleAt(src, b, i);
    }
  }

  /** The weights before the last, in either form, and the bytes they take. */
  method ReadWeights(huffWeight: array<byte>, src: seq<byte>, width: nat, ghost ws: seq<byte>, ghost size: nat)
    returns (r: Result<(nat, nat)>)
    requires (width == 4 || width == 8) && huffWeight.Length > 0 && size <= |src|
    modifies huffWeight
    ensures r.Ok? ==> r.value.0 < huffWeight.Length && 0 < r.value.1 <= |src|
    ensures Describes(src[..size], ws) && |ws| < huffWeight.Length ==> r == Ok((|ws|, size)) && huffWeight[..|ws|] == ws
  {
    if |src| == 0 {
      return Err(SrcSizeWrong);
    }
    var iSize := src[0];
    if iSize >= 128 {
      var oSize := iSize - 127;
      var n := (oSize + 1) / 2;
      if n + 1 > |src| {
        return Err(SrcSizeWrong);
      }
      if oSize >= huffWeight.Length {
        return Err(CorruptionDetected);
      }
      ReadNibbles(huffWeight, src[1..n + 1], oSize);
      if Describes(src[..size], ws) {
        assert src[..size][1..] == src[1..n + 1];
        SameNibbles(src[1..n + 1], huffWeight[..oSize], ws);
      }
      return Ok((oSize, n + 1));
    }
    if iSize + 1 > |src| {
      return Err(SrcSizeWrong);
    }
    ghost var good := Describes(src[..size], ws) && |ws| < huffWeight.Length;
    if good {
      assert src[..size][1..] == src[1..iSize + 1];
    }
    var out := new byte[huffWeight.Length - 1](_ => 0);
    var oSize := DecompressWksp(out, src[1..iSize + 1], MAX_FSE_TABLELOG_FOR_HUFF_HEADER, width, ws);
    if oSize.Err? {
      return Err(oSize.error);
    }
    forall i | 0 <= i < oSize.value {
      huffWeight[i] := out[i];
    }
    assert huffWeight[..oSize.value] == out[..oSize.value];
    r := Ok((oSize.value, iSize + 1));
  }

  /** Collects the ranks of the weights read and the sum of their shares. */
  method CollectStats(ws: seq<byte>, rankStats: array<nat>) returns (r: Result<nat>)
    requires rankStats.Length == HUF_TABLELOG_MAX + 1
    modifies rankStats
    ensures r.Ok? <==> forall i :: 0 <= i < |ws| ==> ws[i] <= HUF_TABLELOG_MAX
    ensures r.Err? ==> r.error == CorruptionDetected
    ensures r.Ok? ==> r.value == WeightSum(ws) && RanksCount(rankStats[..], ws)
  {
    forall w | 0 <= w < rankStats.Length {
      rankStats[w] := 0;
    }
    assert RanksCount(rankStats[..], []);
    var weightTotal := 0;
    var n := 0;
    while n < |ws|
      invariant 0 <= n <= |ws|
      invariant forall i :: 0 <= i < n ==> ws[i] <= HUF_TABLELOG_MAX
      invariant weightTotal == WeightSum(ws[..n]) && RanksCount(rankStats[..], ws[..n])
    {
      if ws[n] > HUF_TABLELOG_MAX {
        return Err(CorruptionDetected);
      }
      RankMore(rankStats[..], ws[..n], ws[n]);
      SumSnoc(ws, n);
      assert ws[..n] + [ws[n]] == ws[..n + 1];
      rankStats[ws[n]] := rankStats[ws[n]] + 1;
      weightTotal := weightTotal + Share(ws[n]);
      n := n + 1;
    }
    assert ws[..n] == ws;
    r := Ok(weightTotal);
  }

  /** The table log and the implied last weight: what is missing to a power of two must be one itself. */
  function Implied(weightTotal: nat): (r: Result<(nat, nat)>)
  {
    if weightTotal == 0 then Err(CorruptionDetected)
    else
      var tableLog := HighBit(weightTotal) + 1;
      if tableLog > HUF_TABLELOG_MAX then Err(CorruptionDetected)
      else
        var rest := Pow2(tableLog) - weightTotal;
        if Pow2(HighBit(rest)) != rest then Err(CorruptionDetected) else Ok((tableLog, HighBit(rest) + 1))
  }

  /** The rule finds the weight that is missing, and only such a weight. */
  lemma {:induction false} ImpliedMissing(sum: nat)
    requires Implied(sum).Ok?
    ensures var (tableLog, last) := Implied(sum).value;
            sum > 0 && 1 <= last <= tableLog <= HUF_TABLELOG_MAX && sum + Pow2(last - 1) == Pow2(tableLog)
  {
    LastWeight(sum, Implied(sum).value.1, Implied(sum).value.0);
  }

  lemma {:induction false} MissingImplied(sum: nat, last: nat, tableLog: nat)
    requires sum > 0 && last > 0 && tableLog <= HUF_TABLELOG_MAX && sum + Pow2(last - 1) == Pow2(tableLog)
    ensures Implied(sum) == Ok((tableLog, last))
  {
    assert HighBit(sum) + 1 == tableLog && HighBit(Pow2(last - 1)) + 1 == last by { LastWeight(sum, last, tableLog); }
    var rest := Pow2(HighBit(sum) + 1) - sum;
    assert rest == Pow2(last - 1);
  }

  lemma {:induction false} ImpliedCloses(ws: seq<byte>)
    requires forall i :: 0 <= i < |ws| ==> ws[i] <= HUF_TABLELOG_MAX
    ensures var r := Implied(WeightSum(ws));
            r.Ok? ==> r.value.1 < 256 && Complete(ws + [r.value.1 as byte], r.value.0)
  {
    var r := Implied(WeightSum(ws));
    if r.Ok? {
      ImpliedMissing(WeightSum(ws));
      assert (ws + [r.value.1])[..|ws|] == ws;
    }
  }

  lemma {:induction false} ClosingIsImplied(ws: seq<byte>, last: byte, tableLog: nat)
    requires Closes(ws, last, tableLog)
    ensures Implied(WeightSum(ws)) == Ok((tableLog, last as nat))
  {
    assert (ws + [last])[..|ws|] == ws;
    MissingImplied(WeightSum(ws), last, tableLog);
  }

  /** The last weight completes the others, which are not all absent. */
  ghost predicate Closes(ws: seq<byte>, last: byte, tableLog: nat) {
    Complete(ws + [last], tableLog) && WeightSum(ws) > 0
  }

  /** src describes the weights ws of a table whose last weight is `last` and that has a longest code. */
  ghost predicate DescribesComplete(src: seq<byte>, ws: seq<byte>, last: byte, tableLog: nat) {
    Describes(src, ws) && Complete(ws + [last], tableLog) && Count(ws + [last], 1) > 0
  }

  lemma {:induction false} WeightsClose(src: seq<byte>, ws: seq<byte>, last: byte, tableLog: nat)
    requires DescribesComplete(src, ws, last, tableLog)
    ensures Closes(ws, last, tableLog) && Count(ws + [last], 1) >= 2
    ensures forall i :: 0 <= i < |ws| ==> ws[i] <= HUF_TABLELOG_MAX
  {
    SomeSum(ws, last, tableLog);
    assert forall i :: 0 <= i < |ws| ==> ws[i] == (ws + [last])[i];
  }

  /** Adds the last weight. */
  method AddLast(huffWeight: array<byte>, rankStats: array<nat>, oSize: nat, last: byte, ghost tableLog: nat) returns (valid: bool)
    requires oSize < huffWeight.Length && rankStats.Length == HUF_TABLELOG_MAX + 1
    requires RanksCount(rankStats[..], huffWeight[..oSize]) && Complete(huffWeight[..oSize] + [last], tableLog)
    modifies huffWeight, rankStats
    ensures huffWeight[..oSize + 1] == old(huffWeight[..oSize]) + [last]
    ensures RanksCount(rankStats[..], huffWeight[..oSize + 1])
    ensures valid <==> Count(huffWeight[..oSize + 1], 1) >= 2
    ensures valid <==> rankStats[1] >= 2
    ensures rankStats[1] % 2 == 0
  {
    ghost var before := huffWeight[..oSize];
    RankMore(rankStats[..], before, last);
    huffWeight[oSize] := last;
    rankStats[last] := rankStats[last] + 1;
    assert huffWeight[..oSize + 1] == before + [last];
    LongestCodesPair(huffWeight[..oSize + 1], tableLog);
    assert RankIs(rankStats[..], huffWeight[..oSize + 1], 1);
    valid := !(rankStats[1] < 2 || rankStats[1] % 2 == 1);
  }

  /**
   Reads a description. Success means a complete set of weights with at least two longest codes, and
   rankStats their exact histogram; what the writer described is read back with its last weight.
   */
  method ReadStats(huffWeight: array<byte>, rankStats: array<nat>, src: seq<byte>, width: nat,
                   ghost ws: seq<byte>, ghost last: byte, ghost tableLog: nat, ghost size: nat) returns (r: Result<Stats>)
    requires (width == 4 || width == 8) && huffWeight.Length > 0 && rankStats.Length == HUF_TABLELOG_MAX + 1 && size <= |src|
    modifies huffWeight, rankStats
    ensures r.Ok? ==> r.value.nbSymbols <= huffWeight.Length && 0 < r.value.size <= |src|
    ensures r.Ok? ==> Complete(huffWeight[..r.value.nbSymbols], r.value.tableLog)
    ensures r.Ok? ==> RanksCount(rankStats[..], huffWeight[..r.value.nbSymbols]) && rankStats[1] >= 2 && rankStats[1] % 2 == 0
    ensures DescribesComplete(src[..size], ws, last, tableLog) && |ws| < huffWeight.Length ==>
              r == Ok(Stats(|ws| + 1, tableLog, size)) && huffWeight[..|ws| + 1] == ws + [last]
  {
    ghost var good := DescribesComplete(src[..size], ws, last, tableLog) && |ws| < huffWeight.Length;
    if good {
      WeightsClose(src[..size], ws, last, tableLog);
    }
    var read := ReadWeights(huffWeight, src, width, ws, size);
    if read.Err? {
      return Err(read.error);
    }
    var oSize := read.value.0;
    var sum := CollectStats(huffWeight[..oSize], rankStats);
    if sum.Err? {
      return Err(sum.error);
    }
    ImpliedCloses(huffWeight[..oSize]);
    if good {
      ClosingIsImplied(ws, last, tableLog);
    }
    var implied := Implied(sum.value);
    if implied.Err? {
      return Err(implied.error);
    }
    var valid := AddLast(huffWeight, rankStats, oSize, implied.value.1, implied.value.0);
    if !valid {
      return Err(CorruptionDetected);
    }
    r := Ok(Stats(oSize + 1, implied.value.0, read.value.1));
  }
}
