/** Duplicate-free sequences of indices, and the pigeonhole facts the table layout rests on. */
module Permutation {
  import opened Numeric
  import opened Distribution

  ghost predicate Distinct(p: seq<nat>) {
    forall i, j :: 0 <= i < j < |p| ==> p[i] != p[j]
  }

  ghost predicate Below(p: seq<nat>, n: nat) {
    forall i :: 0 <= i < |p| ==> p[i] < n
  }

  /** n distinct numbers below n are all of them. */
  lemma {:induction false} Pigeonhole(p: seq<nat>, n: nat, c: nat)
    requires Distinct(p) && Below(p, n) && |p| == n && c < n
    ensures c in p
  {
    if c !in p {
      DistinctBound(p, n, {c});
    }
  }

  /** Distinct numbers below n outside a set of numbers below n leave room for that set. */
  lemma {:induction false} DistinctBound(p: seq<nat>, n: nat, except: set<nat>)
    requires Distinct(p) && Below(p, n)
    requires forall x :: x in except ==> x < n
    requires forall x :: x in except ==> x !in p
    ensures |p| + |except| <= n
  {
    if |p| == 0 {
      SubsetOfRange(except, n);
    } else {
      var last := p[|p| - 1];
      DistinctBound(p[..|p| - 1], n, except + {last});
    }
  }

  lemma {:induction false} SubsetOfRange(a: set<nat>, n: nat)
    requires forall x :: x in a ==> x < n
    ensures |a| <= n
  {
    if n == 0 {
      assert a == {};
    } else {
      SubsetOfRange(a - {n - 1}, n - 1);
    }
  }

  ghost function Cells(t: seq<byte>, s: byte): (a: set<nat>) {
    set u: nat | u < |t| && t[u] == s
  }

  lemma {:induction false} CountCells(t: seq<byte>, s: byte)
    ensures |Cells(t, s)| == Count(t, s)
  {
    if |t| == 0 {
      assert Cells(t, s) == {};
    } else {
      var k := |t| - 1;
      CountCells(t[..k], s);
      assert Cells(t, s) == Cells(t[..k], s) + (if t[k] == s then {k} else {});
    }
  }

  ghost function Image(p: seq<nat>, a: set<nat>): (b: set<nat>)
    requires forall i :: i in a ==> i < |p|
  {
    set i | i in a :: p[i]
  }

  lemma {:induction false} ImageSize(p: seq<nat>, a: set<nat>)
    requires Distinct(p) && forall i :: i in a ==> i < |p|
    ensures |Image(p, a)| == |a|
    decreases |a|
  {
    if a == {} {
      assert Image(p, a) == {};
    } else {
      var i :| i in a;
      ImageSize(p, a - {i});
      assert Image(p, a) == Image(p, a - {i}) + {p[i]};
      assert p[i] !in Image(p, a - {i});
    }
  }

  /** Filling the cells of a table in the order of a permutation keeps the symbol counts. */
  lemma {:induction false} CountPermuted(t: seq<byte>, v: seq<byte>, p: seq<nat>, s: byte)
    requires Distinct(p) && Below(p, |t|) && |p| == |v| == |t|
    requires forall i :: 0 <= i < |p| ==> t[p[i]] == v[i]
    ensures Count(t, s) == Count(v, s)
  {
    CountCells(t, s);
    CountCells(v, s);
    ImageSize(p, Cells(v, s));
    forall u | u in Cells(t, s)
      ensures u in Image(p, Cells(v, s))
    {
      Pigeonhole(p, |t|, u);
      var i :| 0 <= i < |p| && p[i] == u;
      assert i in Cells(v, s);
    }
    assert Cells(t, s) == Image(p, Cells(v, s));
  }
}
