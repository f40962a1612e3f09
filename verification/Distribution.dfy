/** Normalized symbol distributions and the cells that a table gives to each symbol. */
module Distribution {
  import opened Numeric

  const MIN_TABLELOG := 5
  const MAX_TABLELOG := 12
  const MAX_SYMBOL_VALUE := 255

  /** The sum of the first k frequencies; -1 stands for a frequency below one cell and takes one. */
  function Weight(norm: seq<int>, k: nat): (w: nat)
    requires k <= |norm|
  {
    if k == 0 then 0 else Weight(norm, k - 1) + Abs(norm[k - 1])
  }

  lemma {:induction false} WeightMono(norm: seq<int>, s: nat, k: nat)
    requires s < k <= |norm|
    ensures Weight(norm, s) + Abs(norm[s]) <= Weight(norm, k)
    decreases k
  {
    if s < k - 1 {
      WeightMono(norm, s, k - 1);
    }
  }

  ghost predicate Frequencies(norm: seq<int>) {
    0 < |norm| <= MAX_SYMBOL_VALUE + 1 && forall s :: 0 <= s < |norm| ==> norm[s] >= -1
  }

  /** A distribution for a table of 2^tableLog cells. */
  ghost predicate Normalized(norm: seq<int>, tableLog: nat) {
    Frequencies(norm) && Weight(norm, |norm|) == Pow2(tableLog)
  }

  /** The first k symbols in order, each repeated as often as its positive frequency. */
  function Expand(norm: seq<int>, k: nat): (v: seq<byte>)
    requires k <= |norm| <= 256
  {
    if k == 0 then [] else Expand(norm, k - 1) + Repeat(k - 1, norm[k - 1])
  }

  function Repeat(s: byte, n: int): (v: seq<byte>)
    ensures |v| == if n > 0 then n else 0
    ensures forall i :: 0 <= i < |v| ==> v[i] == s
  {
    seq(if n > 0 then n else 0, i => s)
  }

  /** The low-probability symbols among the first k, in order. */
  function LowProb(norm: seq<int>, k: nat): (v: seq<byte>)
    requires k <= |norm| <= 256
    ensures |v| <= k
  {
    if k == 0 then []
    else LowProb(norm, k - 1) + (if norm[k - 1] == -1 then [k - 1] else [])
  }

  lemma {:induction false} ExpandLength(norm: seq<int>, k: nat)
    requires Frequencies(norm) && k <= |norm|
    ensures |Expand(norm, k)| + |LowProb(norm, k)| == Weight(norm, k)
  {
    if k > 0 {
      ExpandLength(norm, k - 1);
    }
  }

  lemma {:induction false} ExpandPrefix(norm: seq<int>, k: nat, n: nat)
    requires k <= n <= |norm| <= 256
    ensures Expand(norm, k) <= Expand(norm, n) && LowProb(norm, k) <= LowProb(norm, n)
    decreases n
  {
    if k < n {
      ExpandPrefix(norm, k, n - 1);
    }
  }

  /** Occurrences of s in v. */
  function Count(v: seq<byte>, s: byte): (n: nat)
    ensures n <= |v|
  {
    if |v| == 0 then 0 else Count(v[..|v| - 1], s) + (if v[|v| - 1] == s then 1 else 0)
  }

  lemma {:induction false} CountConcat(a: seq<byte>, b: seq<byte>, s: byte)
    ensures Count(a + b, s) == Count(a, s) + Count(b, s)
  {
    if |b| == 0 {
      assert a + b == a;
    } else {
      CountConcat(a, b[..|b| - 1], s);
      assert (a + b)[..|a + b| - 1] == a + b[..|b| - 1];
    }
  }

  lemma {:induction false} CountRepeat(t: byte, n: nat, s: byte)
    ensures Count(Repeat(t, n), s) == if t == s then n else 0
  {
    if n > 0 {
      CountRepeat(t, n - 1, s);
      assert Repeat(t, n)[..n - 1] == Repeat(t, n - 1);
    }
  }

  lemma {:induction false} CountExpand(norm: seq<int>, k: nat, s: byte)
    requires Frequencies(norm) && k <= |norm|
    ensures Count(Expand(norm, k), s) == if s < k && norm[s] > 0 then norm[s] else 0
  {
    if k > 0 {
      CountExpand(norm, k - 1, s);
      CountConcat(Expand(norm, k - 1), Repeat(k - 1, norm[k - 1]), s);
      if norm[k - 1] >= 0 {
        CountRepeat(k - 1, norm[k - 1], s);
      }
    }
  }

  lemma {:induction false} CountLowProb(norm: seq<int>, k: nat, s: byte)
    requires Frequencies(norm) && k <= |norm|
    ensures Count(LowProb(norm, k), s) == if s < k && norm[s] == -1 then 1 else 0
  {
    if k > 0 {
      CountLowProb(norm, k - 1, s);
      CountConcat(LowProb(norm, k - 1), if norm[k - 1] == -1 then [k - 1] else [], s);
    }
  }

  /** The symbols of all the cells: each symbol exactly as often as its weight. */
  function CellSymbols(norm: seq<int>): (v: seq<byte>)
    requires |norm| <= 256
  {
    Expand(norm, |norm|) + LowProb(norm, |norm|)
  }

  lemma {:induction false} CountCellSymbols(norm: seq<int>, s: byte)
    requires Frequencies(norm)
    ensures Count(CellSymbols(norm), s) == if s < |norm| then Abs(norm[s]) else 0
  {
    CountConcat(Expand(norm, |norm|), LowProb(norm, |norm|), s);
    CountExpand(norm, |norm|, s);
    CountLowProb(norm, |norm|, s);
  }
}
