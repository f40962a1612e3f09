/**
 The bit format of a table header: the table log, then for each symbol its frequency on a number of
 bits that shrinks with what remains to be distributed, and runs of absent symbols in steps of 3.
 */
module NCountFormat {
  import opened Numeric
  import opened BitStack
  import opened Distribution

  /** What remains before symbol s, plus one. */
  function Remaining(norm: seq<int>, tableLog: nat, s: nat): (r: int)
    requires s <= |norm|
  {
    Pow2(tableLog) + 1 - Weight(norm, s)
  }

  /** The largest frequency that remains is written as `remaining`; `max` values save one bit. */
  function MaxShort(remaining: nat): (max: int)
    requires remaining > 0
  {
    2 * Pow2(HighBit(remaining)) - 1 - remaining
  }

  /** The field for `count` (a frequency plus one): its value and its width. */
  function CountValue(remaining: nat, count: nat): (v: nat)
    requires remaining > 0
  {
    if count >= Pow2(HighBit(remaining)) then count + MaxShort(remaining) else count
  }

  function CountWidth(remaining: nat, count: nat): (n: nat)
    requires remaining > 0
  {
    HighBit(remaining) + if CountValue(remaining, count) < MaxShort(remaining) then 0 else 1
  }

  function PushCount(b: Bits, remaining: nat, count: nat): (r: Bits)
    requires remaining > 0 && b.Ok()
    ensures r.Ok()
  {
    Push(b, CountValue(remaining, count), CountWidth(remaining, count))
  }

  /** A run of z absent symbols: a pair of set bits for each 3 of them, then the rest on 2 bits. */
  function PushRun(b: Bits, z: nat): (r: Bits)
    requires b.Ok()
    ensures r.Ok()
    decreases z
  {
    if z >= 3 then PushRun(Push(b, 3, 2), z - 3) else Push(b, z, 2)
  }

  /** The number of absent symbols from s on. */
  function Zeros(norm: seq<int>, s: nat): (z: nat)
    requires s <= |norm|
    ensures s + z <= |norm| && forall i :: s <= i < s + z ==> norm[i] == 0
    ensures s + z < |norm| ==> norm[s + z] != 0
    decreases |norm| - s
  {
    if s < |norm| && norm[s] == 0 then 1 + Zeros(norm, s + 1) else 0
  }

  /** Whether symbol s comes right after an absent symbol. */
  predicate AfterZero(norm: seq<int>, s: nat)
    requires s <= |norm|
  {
    s > 0 && norm[s - 1] == 0
  }

  /** The next symbol whose count is written, once a run has been skipped. */
  function NextSymbol(norm: seq<int>, s: nat): (t: nat)
    requires s <= |norm|
    ensures s <= t <= |norm|
  {
    if AfterZero(norm, s) then s + Zeros(norm, s) else s
  }

  lemma {:induction false} WeightOfZeros(norm: seq<int>, s: nat, t: nat)
    requires s <= t <= |norm| && forall i :: s <= i < t ==> norm[i] == 0
    ensures Weight(norm, s) == Weight(norm, t)
    decreases t
  {
    if s < t {
      WeightOfZeros(norm, s, t - 1);
    }
  }

  /** No symbol follows, or one takes more than what remains: the distribution is incorrect. */
  predicate Stuck(norm: seq<int>, tableLog: nat, s: nat)
    requires s <= |norm|
  {
    var t := NextSymbol(norm, s);
    t == |norm| || Abs(norm[t]) >= Remaining(norm, tableLog, t)
  }

  /** The header can be written from symbol s to its end. */
  predicate Completes(norm: seq<int>, tableLog: nat, s: nat)
    requires s <= |norm|
    decreases |norm| - s
  {
    if Remaining(norm, tableLog, s) <= 1 then Remaining(norm, tableLog, s) == 1
    else !Stuck(norm, tableLog, s) && Completes(norm, tableLog, NextSymbol(norm, s) + 1)
  }

  /** After an absent symbol, the length of the run that it starts. */
  function PushGap(norm: seq<int>, s: nat, b: Bits): (r: Bits)
    requires s <= |norm| && b.Ok()
    ensures r.Ok()
  {
    if AfterZero(norm, s) then PushRun(b, NextSymbol(norm, s) - s) else b
  }

  function PushSymbol(norm: seq<int>, tableLog: nat, s: nat, b: Bits): (r: Bits)
    requires Frequencies(norm) && s <= |norm| && b.Ok() && !Stuck(norm, tableLog, s)
    ensures r.Ok()
  {
    var t := NextSymbol(norm, s);
    PushCount(PushGap(norm, s, b), Remaining(norm, tableLog, t), norm[t] + 1)
  }

  /** The header from symbol s on, after the bits of b. */
  function Header(norm: seq<int>, tableLog: nat, s: nat, b: Bits): (h: Bits)
    requires Frequencies(norm) && s <= |norm| && b.Ok()
    ensures h.Ok()
    decreases |norm| - s
  {
    if Remaining(norm, tableLog, s) <= 1 || Stuck(norm, tableLog, s) then b
    else Header(norm, tableLog, NextSymbol(norm, s) + 1, PushSymbol(norm, tableLog, s, b))
  }

  function HeaderBits(norm: seq<int>, tableLog: nat): (h: Bits)
    requires Frequencies(norm) && tableLog >= MIN_TABLELOG
    ensures h.Ok()
  {
    Header(norm, tableLog, 0, Push(EMPTY, tableLog - MIN_TABLELOG, 4))
  }

  lemma {:induction false} NextSymbolWeight(norm: seq<int>, tableLog: nat, s: nat)
    requires s <= |norm|
    ensures var t := NextSymbol(norm, s);
            Remaining(norm, tableLog, t) == Remaining(norm, tableLog, s)
  {
    WeightOfZeros(norm, s, NextSymbol(norm, s));
  }

  /** A header can be written exactly when some first symbols share out the whole table. */
  lemma {:induction false} CompletesWhen(norm: seq<int>, tableLog: nat, s: nat, k: nat)
    requires s <= k <= |norm| && Weight(norm, k) == Pow2(tableLog)
    ensures Completes(norm, tableLog, s)
    decreases |norm| - s
  {
    WeightAscends(norm, s, k);
    if Remaining(norm, tableLog, s) > 1 {
      NextSymbolWeight(norm, tableLog, s);
      var t := NextSymbol(norm, s);
      if t >= k {
        WeightAscends(norm, k, t);
      }
      WeightAscends(norm, t + 1, k);
      CompletesWhen(norm, tableLog, t + 1, k);
    }
  }

  lemma {:induction false} CompletesOnly(norm: seq<int>, tableLog: nat, s: nat) returns (k: nat)
    requires s <= |norm| && Completes(norm, tableLog, s)
    ensures s <= k <= |norm| && Weight(norm, k) == Pow2(tableLog)
    decreases |norm| - s
  {
    if Remaining(norm, tableLog, s) <= 1 {
      k := s;
    } else {
      k := CompletesOnly(norm, tableLog, NextSymbol(norm, s) + 1);
    }
  }

  lemma {:induction false} WeightAscends(norm: seq<int>, s: nat, k: nat)
    requires s <= k <= |norm|
    ensures Weight(norm, s) <= Weight(norm, k)
    decreases k
  {
    if s < k {
      WeightAscends(norm, s, k - 1);
    }
  }

  lemma {:induction false} SymbolExtends(norm: seq<int>, tableLog: nat, s: nat, b: Bits)
    requires Frequencies(norm) && s <= |norm| && b.Ok() && !Stuck(norm, tableLog, s)
    ensures Extends(PushSymbol(norm, tableLog, s, b), b)
    ensures Extends(PushSymbol(norm, tableLog, s, b), PushGap(norm, s, b))
  {
    var t, c := NextSymbol(norm, s), PushGap(norm, s, b);
    var remaining := Remaining(norm, tableLog, t);
    ExtendsPush(c, CountValue(remaining, norm[t] + 1), CountWidth(remaining, norm[t] + 1));
    if AfterZero(norm, s) {
      PushRunLength(b, t - s);
      ExtendsTrans(PushSymbol(norm, tableLog, s, b), c, b);
    }
  }

  /** Whatever is written later, the bits written first stay. */
  lemma {:induction false} HeaderExtends(norm: seq<int>, tableLog: nat, s: nat, b: Bits)
    requires Frequencies(norm) && s <= |norm| && b.Ok()
    ensures Extends(Header(norm, tableLog, s, b), b)
    decreases |norm| - s
  {
    if Remaining(norm, tableLog, s) <= 1 || Stuck(norm, tableLog, s) {
      ExtendsSelf(b);
    } else {
      var c := PushSymbol(norm, tableLog, s, b);
      SymbolExtends(norm, tableLog, s, b);
      HeaderExtends(norm, tableLog, NextSymbol(norm, s) + 1, c);
      ExtendsTrans(Header(norm, tableLog, s, b), c, b);
    }
  }

  // ----- widths -----

  lemma {:induction false} CountFits(remaining: nat, count: nat, tableLog: nat)
    requires 1 < remaining <= Pow2(tableLog) + 1 && count <= remaining
    requires tableLog >= 1
    ensures 1 <= HighBit(remaining) <= tableLog
    ensures 0 <= MaxShort(remaining) < Pow2(HighBit(remaining))
    ensures CountValue(remaining, count) < Pow2(CountWidth(remaining, count))
  {
    var h := HighBit(remaining);
    if h > tableLog {
      Pow2Mono(tableLog + 1, h);
    }
    if h == 0 {
      assert false;
    }
  }

  /** Below the threshold, the low bits of a count's field are the count; from it on, the field is the count moved up. */
  lemma {:induction false} CountField(remaining: nat, count: nat, tableLog: nat)
    requires 1 < remaining <= Pow2(tableLog) + 1 && count <= remaining && tableLog >= 1
    ensures var h, v := HighBit(remaining), CountValue(remaining, count);
            && (count < Pow2(h) ==> Low(v, h) == count)
            && (count >= Pow2(h) ==> CountWidth(remaining, count) == h + 1 && v == count + 2 * Pow2(h) - 1 - remaining)
            && (CountWidth(remaining, count) == h <==> count < 2 * Pow2(h) - 1 - remaining)
  {
    CountFits(remaining, count, tableLog);
    if count < Pow2(HighBit(remaining)) {
      LowSmall(count, HighBit(remaining));
    }
  }

  // ----- runs -----

  lemma {:induction false} PushRunLength(b: Bits, z: nat)
    requires b.Ok()
    ensures PushRun(b, z).len == b.len + 2 * (z / 3) + 2
    ensures Extends(PushRun(b, z), b)
    decreases z
  {
    if z >= 3 {
      PushRunLength(Push(b, 3, 2), z - 3);
      ExtendsPush(b, 3, 2);
      ExtendsTrans(PushRun(b, z), Push(b, 3, 2), b);
    } else {
      ExtendsPush(b, z, 2);
    }
  }

  /** A symbol, with the absent ones before it, takes a bounded number of bits. */
  lemma {:induction false} SymbolLength(norm: seq<int>, tableLog: nat, s: nat, b: Bits)
    requires Frequencies(norm) && s <= |norm| && b.Ok() && Remaining(norm, tableLog, s) > 1 && tableLog >= 1
    requires !Stuck(norm, tableLog, s)
    ensures PushSymbol(norm, tableLog, s, b).len <= b.len + 2 * ((NextSymbol(norm, s) - s) / 3) + tableLog + 3
  {
    var t := NextSymbol(norm, s);
    NextSymbolWeight(norm, tableLog, s);
    CountFits(Remaining(norm, tableLog, t), norm[t] + 1, tableLog);
    if AfterZero(norm, s) {
      PushRunLength(b, t - s);
    }
  }

  /** The bits that k symbols take at most. */
  function HeaderRoom(k: nat, tableLog: nat): (n: nat) {
    k * (tableLog + 3)
  }

  lemma {:induction false} RoomForNext(z: nat, k: nat, tableLog: nat)
    ensures 2 * (z / 3) + tableLog + 3 + HeaderRoom(k, tableLog) <= HeaderRoom(z + 1 + k, tableLog)
  {
    SplitProduct(z + 1, k, tableLog + 3);
    SplitProduct(z, 1, tableLog + 3);
    assert z * (tableLog + 3) >= z * 3;
  }

  lemma {:induction false} SplitProduct(a: nat, b: nat, c: nat)
    ensures (a + b) * c == a * c + b * c
  {
  }

  lemma {:induction false} HeaderLength(norm: seq<int>, tableLog: nat, s: nat, b: Bits)
    requires Frequencies(norm) && s <= |norm| && b.Ok() && tableLog >= 1
    ensures Header(norm, tableLog, s, b).len <= b.len + HeaderRoom(|norm| - s, tableLog)
    decreases |norm| - s
  {
    if Remaining(norm, tableLog, s) > 1 && !Stuck(norm, tableLog, s) {
      var next, more := NextSymbol(norm, s) + 1, PushSymbol(norm, tableLog, s, b);
      SymbolLength(norm, tableLog, s, b);
      HeaderLength(norm, tableLog, next, more);
      RoomForNext(next - 1 - s, |norm| - next, tableLog);
    }
  }

  /** k pairs of set bits. */
  function PushPairs(b: Bits, k: nat): (r: Bits)
    requires b.Ok()
    ensures r.Ok() && r.len == b.len + 2 * k
  {
    if k == 0 then b else Push(PushPairs(b, k - 1), 3, 2)
  }

  lemma {:induction false} PairsFirst(b: Bits, k: nat)
    requires b.Ok() && k > 0
    ensures PushPairs(b, k) == PushPairs(Push(b, 3, 2), k - 1)
  {
    if k > 1 {
      PairsFirst(b, k - 1);
    }
  }

  lemma {:induction false} RunOfPairs(b: Bits, z: nat, k: nat)
    requires b.Ok() && 3 * k <= z
    ensures PushRun(b, z) == PushRun(PushPairs(b, k), z - 3 * k)
    decreases k
  {
    if k > 0 {
      PairsFirst(b, k);
      RunOfPairs(Push(b, 3, 2), z - 3, k - 1);
    }
  }

  lemma {:induction false} OnesSplit(n: nat)
    ensures Low(4 * Pow2(n) - 1, n) == Low(Pow2(n) - 1, n) && Shr(4 * Pow2(n) - 1, n) == 3
  {
    assert Shl(3, n) == 3 * Pow2(n) by { ShlIsMul(3, n); }
    Split(Pow2(n) - 1, 3, n);
    LowSmall(Pow2(n) - 1, n);
  }

  /** k pairs are one field of 2 * k set bits: the 16 set bits of the writer are 8 pairs. */
  lemma {:induction false} PairsAreOnes(b: Bits, k: nat)
    requires b.Ok()
    ensures PushPairs(b, k) == Push(b, Pow2(2 * k) - 1, 2 * k)
    decreases k
  {
    if k > 0 {
      PairsAreOnes(b, k - 1);
      OnesSplit(2 * k - 2);
      assert Pow2(2 * k) == 4 * Pow2(2 * k - 2);
      PushSplit(b, Pow2(2 * k) - 1, 2 * k - 2, 2);
    } else {
      assert Shl(0, b.len) == 0 by { ShlIsMul(0, b.len); }
    }
  }

  // ----- a header in full -----

  /** The distribution 20, 0, 0, 0, 0, -1, 11 for 32 cells. */
  ghost predicate IsExample(norm: seq<int>) {
    |norm| == 7 && norm[0] == 20 && norm[1] == norm[2] == norm[3] == norm[4] == 0 && norm[5] == -1 && norm[6] == 11
  }

  lemma {:induction false} ExampleWeights(norm: seq<int>)
    requires IsExample(norm)
    ensures Frequencies(norm) && Weight(norm, 0) == 0 && Weight(norm, 1) == Weight(norm, 5) == 20
    ensures Weight(norm, 6) == 21 && Weight(norm, 7) == 32 && Pow2(5) == 32
    ensures NextSymbol(norm, 0) == 0 && NextSymbol(norm, 1) == 1 && NextSymbol(norm, 2) == 5 && NextSymbol(norm, 6) == 6
  {
    WeightOfZeros(norm, 1, 5);
    assert Weight(norm, 1) == Weight(norm, 0) + 20;
    assert Weight(norm, 6) == Weight(norm, 5) + 1;
    assert Weight(norm, 7) == Weight(norm, 6) + 11;
    assert Zeros(norm, 5) == 0 && Zeros(norm, 4) == 1 && Zeros(norm, 3) == 2 && Zeros(norm, 2) == 3;
  }

  lemma {:induction false} ExampleCounts()
    ensures CountValue(33, 21) == 21 && CountWidth(33, 21) == 5
    ensures CountValue(13, 1) == 1 && CountWidth(13, 1) == 3
    ensures CountValue(13, 0) == 0 && CountWidth(13, 0) == 3
    ensures CountValue(12, 12) == 15 && CountWidth(12, 12) == 4
  {
    assert Pow2(3) == 8 && Pow2(5) == 32;
    HighBitUnique(33, 5);
    HighBitUnique(13, 3);
    HighBitUnique(12, 3);
  }

  lemma {:induction false} ExampleSymbols(norm: seq<int>, b: Bits)
    requires IsExample(norm) && b.Ok()
    ensures Frequencies(norm) && !Stuck(norm, 5, 0) && !Stuck(norm, 5, 1) && !Stuck(norm, 5, 2) && !Stuck(norm, 5, 6)
    ensures PushSymbol(norm, 5, 0, b) == Push(b, 21, 5)
    ensures PushSymbol(norm, 5, 1, b) == Push(b, 1, 3)
    ensures PushSymbol(norm, 5, 2, b) == Push(PushRun(b, 3), 0, 3)
    ensures PushSymbol(norm, 5, 6, b) == Push(b, 15, 4)
  {
    ExampleWeights(norm);
    ExampleCounts();
  }

  lemma {:induction false} RunOfThree(b: Bits)
    requires b.Ok()
    ensures PushRun(b, 3) == Push(Push(b, 3, 2), 0, 2)
  {
  }

  /** Its header after the table log: 21 on 5 bits, 1 on 3, two set bits and 0 for the run, 0 on 3, and 15 on 4. */
  lemma {:induction false} ExampleHeader(norm: seq<int>, b: Bits)
    requires IsExample(norm) && b.Ok()
    ensures Frequencies(norm)
    ensures Header(norm, 5, 0, b) == Push(Push(Push(Push(Push(Push(b, 21, 5), 1, 3), 3, 2), 0, 2), 0, 3), 15, 4)
  {
    ExampleWeights(norm);
    var b1 := Push(b, 21, 5);
    var b2 := Push(b1, 1, 3);
    var b3 := PushRun(b2, 3);
    var b4 := Push(b3, 0, 3);
    ExampleSymbols(norm, b);
    ExampleSymbols(norm, b1);
    ExampleSymbols(norm, b2);
    ExampleSymbols(norm, b4);
    RunOfThree(b2);
    assert Header(norm, 5, 6, b4) == Push(b4, 15, 4);
    assert Header(norm, 5, 2, b2) == Header(norm, 5, 6, b4);
    assert Header(norm, 5, 1, b1) == Header(norm, 5, 2, b2);
  }
}
