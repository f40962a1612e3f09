/** The bump allocator: a chain of segments, and a pointer that moves up in the newest one. */
module Allocator {
  import opened Pages

  // ----- chains of segments -----

  /** The footer of the block before, or NULL. */
  ghost function Before(chain: seq<Block>, i: nat): (f: int)
    requires i < |chain|
  {
    if i == 0 then 0 else chain[i - 1].Footer()
  }

  /** The footer of the i-th block of a chain: its start, and the footer of the block before. */
  ghost predicate LinkAt(chain: seq<Block>, footers: map<nat, Segment>, i: nat)
    requires i < |chain|
  {
    && chain[i].Footer() > 0 && chain[i].Footer() in footers
    && footers[chain[i].Footer()].start == chain[i].start && footers[chain[i].Footer()].prev == Before(chain, i)
  }

  ghost predicate Linked(chain: seq<Block>, os: Os, i: nat)
    requires i < |chain|
    reads os
  {
    chain[i] in os.live && LinkAt(chain, os.footers, i)
  }

  ghost predicate Distinct(chain: seq<Block>) {
    forall i, j :: 0 <= i < j < |chain| ==> chain[i] != chain[j]
  }

  ghost predicate IsChain(chain: seq<Block>, seg: nat, os: Os)
    reads os
  {
    && (seg == 0 <==> chain == []) && (chain != [] ==> seg == chain[|chain| - 1].Footer())
    && (forall i {:trigger Linked(chain, os, i)} :: 0 <= i < |chain| ==> Linked(chain, os, i))
    && Distinct(chain)
  }

  function Backwards(s: seq<Block>): (r: seq<Block>)
    ensures |r| == |s|
  {
    if |s| == 0 then [] else [s[|s| - 1]] + Backwards(s[..|s| - 1])
  }

  /** Every block of a chain comes exactly once when the chain is followed backwards. */
  lemma {:induction false} BackwardsAt(s: seq<Block>, i: nat)
    requires i < |s|
    ensures Backwards(s)[|s| - 1 - i] == s[i]
  {
    if i < |s| - 1 {
      BackwardsAt(s[..|s| - 1], i);
    }
  }

  /** The blocks that the system takes back. */
  ghost function Taken(blocks: seq<Block>, refused: set<nat>): (t: set<Block>) {
    set b | b in blocks && b.start !in refused
  }

  ghost predicate AllTaken(blocks: seq<Block>, refused: set<nat>) {
    forall b :: b in blocks ==> b.start !in refused
  }

  lemma {:induction false} BackwardsCons(b: Block, s: seq<Block>)
    ensures Backwards([b] + s) == Backwards(s) + [b]
  {
    var all := [b] + s;
    if |s| > 0 {
      BackwardsCons(b, s[..|s| - 1]);
      assert all[..|all| - 1] == [b] + s[..|s| - 1];
    }
  }

  /** The blocks after k have been given back; those from first to k are still linked. */
  ghost predicate FreedAfter(os: Os, chain: seq<Block>, first: nat, k: int, requests: seq<Block>, live: set<Block>, ok: bool)
    requires -1 <= k < |chain|
    reads os
  {
    && os.Valid()
    && (forall i {:trigger Linked(chain, os, i)} :: first <= i <= k ==> Linked(chain, os, i))
    && os.requests == requests + Backwards(chain[k + 1..])
    && os.live == live - Taken(chain[k + 1..], os.refused)
    && (ok <==> AllTaken(chain[k + 1..], os.refused))
  }

  /** Gives the k-th block back. */
  method FreeBlock(os: Os, current: nat, start: nat, ok0: bool, ghost chain: seq<Block>, ghost first: nat, ghost k: nat,
                   ghost requests: seq<Block>, ghost live: set<Block>) returns (ok: bool)
    requires first <= k < |chain| && FreedAfter(os, chain, first, k, requests, live, ok0)
    requires Distinct(chain) && current == chain[k].Footer() && start == chain[k].start
    modifies os
    ensures FreedAfter(os, chain, first, k - 1, requests, live, ok)
  {
    assert Linked(chain, os, k);
    ghost var live1 := os.live;
    forall i | first <= i < k ensures Linked(chain, os, i) && !(chain[k].start <= chain[i].Footer() < chain[k].End()) {
      assert Linked(chain, os, i) && Disjoint(chain[i], chain[k]);
    }
    PagesBack(chain[k]);
    var freed := os.Free(start, (current + FOOTER_SIZE - start) / PAGE_SIZE);
    ok := ok0 && freed;
    forall i | first <= i < k ensures Linked(chain, os, i) {
    }
    OneMoreFreed(chain, k, os.refused, live, ok0);
  }

  lemma {:induction false} OneMoreFreed(chain: seq<Block>, k: nat, refused: set<nat>, live: set<Block>, ok: bool)
    requires k < |chain| && (ok <==> AllTaken(chain[k + 1..], refused))
    ensures Backwards(chain[k..]) == Backwards(chain[k + 1..]) + [chain[k]]
    ensures Taken(chain[k..], refused) == Taken(chain[k + 1..], refused) + if chain[k].start in refused then {} else {chain[k]}
    ensures AllTaken(chain[k..], refused) <==> ok && chain[k].start !in refused
  {
    assert chain[k..] == [chain[k]] + chain[k + 1..];
    BackwardsCons(chain[k], chain[k + 1..]);
  }

  /** The loop is at the k-th block, which it has read but not given back. */
  ghost predicate AtBlock(os: Os, chain: seq<Block>, first: nat, k: int, current: nat, prev: nat, start: nat,
                          requests: seq<Block>, live: set<Block>, ok: bool)
    reads os
  {
    && first <= k < |chain| && (first == 0 || first + 1 == |chain|)
    && FreedAfter(os, chain, first, k, requests, live, ok)
    && current == chain[k].Footer() && start == chain[k].start
    && prev == if k == first then 0 else Before(chain, k)
  }

  /** One round of the loop. */
  method FreeRound(os: Os, current0: nat, prev0: nat, start0: nat, ok0: bool, ghost chain: seq<Block>, ghost first: nat, ghost k: nat,
                   ghost requests: seq<Block>, ghost live: set<Block>) returns (ok: bool, current: nat, prev: nat, start: nat)
    requires Distinct(chain) && AtBlock(os, chain, first, k, current0, prev0, start0, requests, live, ok0)
    modifies os
    ensures prev0 == 0 <==> k == first
    ensures prev0 == 0 ==> FreedAfter(os, chain, first, first - 1, requests, live, ok)
    ensures prev0 != 0 ==> AtBlock(os, chain, first, k - 1, current, prev, start, requests, live, ok)
  {
    assert k > first ==> Linked(chain, os, k - 1);
    ok := FreeBlock(os, current0, start0, ok0, chain, first, k, requests, live);
    current, prev, start := current0, prev0, start0;
    if prev0 != 0 {
      assert Linked(chain, os, k - 1);
      current := prev0;
      prev := os.Read(current).prev;
      start := os.Read(current).start;
    }
  }
  /** The loop, which never needs more rounds than the chain has blocks. */
  method FreeLoop(os: Os, current0: nat, prev0: nat, start0: nat, ghost chain: seq<Block>, ghost first: nat) returns (ok: bool)
    requires Distinct(chain) && AtBlock(os, chain, first, |chain| - 1, current0, prev0, start0, os.requests, os.live, true)
    modifies os
    ensures FreedAfter(os, chain, first, first - 1, old(os.requests), old(os.live), ok)
  {
    ok := true;
    ghost var requests, live := os.requests, os.live;
    var current, prev, start := current0, prev0, start0;
    ghost var k := |chain| - 1;
    while true
      invariant AtBlock(os, chain, first, k, current, prev, start, requests, live, ok)
      decreases k
    {
      var last := prev == 0;
      ok, current, prev, start := FreeRound(os, current, prev, start, ok, chain, first, k, requests, live);
      if last {
        return;
      }
      k := k - 1;
    }
  }

  /**
   zaster_segment_free. Every block is given back once, with the number of pages it was obtained
   with, newest first; no footer is read after its block is gone.
   */
  method SegmentFree(os: Os, seg: nat, recursive: bool, ghost chain: seq<Block>) returns (ok: bool)
    requires os.Valid() && IsChain(chain, seg, os)
    modifies os
    ensures os.Valid()
    ensures var freed := if recursive || chain == [] then chain else [chain[|chain| - 1]];
            && os.requests == old(os.requests) + Backwards(freed)
            && os.live == old(os.live) - Taken(freed, os.refused)
            && (ok <==> AllTaken(freed, os.refused))
  {
    if seg == 0 {
      return true;
    }
    ghost var k := |chain| - 1;
    ghost var first := if recursive then 0 else k;
    assert Linked(chain, os, k);
    assert chain[first..] == (if recursive then chain else [chain[k]]) && chain[k + 1..] == [];
    ok := FreeLoop(os, seg, if recursive then os.Read(seg).prev else 0, os.Read(seg).start, chain, first);
  }

  // ----- allocations -----

  datatype Range = Range(start: nat, size: nat)

  /** Inside the usable bytes of the j-th block, and below the bump pointer in the newest one. */
  ghost predicate PlacedAt(chain: seq<Block>, cur: nat, r: Range, j: nat) {
    && j < |chain| && chain[j].start <= r.start && r.start + r.size <= chain[j].Footer()
    && (j == |chain| - 1 ==> r.start + r.size <= cur)
  }

  ghost predicate Placed(chain: seq<Block>, cur: nat, r: Range) {
    r.size > 0 ==> exists j :: PlacedAt(chain, cur, r, j)
  }

  predicate Apart(a: Range, b: Range) {
    a.size > 0 && b.size > 0 ==> a.start + a.size <= b.start || b.start + b.size <= a.start
  }

  /** All the allocations so far: in usable bytes, and pairwise disjoint. */
  ghost predicate Sound(chain: seq<Block>, cur: nat, allocs: seq<Range>) {
    && (forall i :: 0 <= i < |allocs| ==> Placed(chain, cur, allocs[i]))
    && (forall i, j :: 0 <= i < j < |allocs| ==> Apart(allocs[i], allocs[j]))
  }

  ghost predicate AllDisjoint(chain: seq<Block>) {
    forall i, j :: 0 <= i < j < |chain| ==> Disjoint(chain[i], chain[j])
  }

  lemma {:induction false} ChainDisjoint(chain: seq<Block>, seg: nat, os: Os)
    requires os.Valid() && IsChain(chain, seg, os)
    ensures AllDisjoint(chain)
  {
    forall i, j | 0 <= i < j < |chain| ensures Disjoint(chain[i], chain[j]) {
      assert Linked(chain, os, i) && Linked(chain, os, j);
    }
  }

  /** An allocation is apart from another block's usable bytes, and from every footer. */
  lemma {:induction false} FootersUntouched(chain: seq<Block>, cur: nat, r: Range, k: nat)
    requires AllDisjoint(chain) && Placed(chain, cur, r) && r.size > 0 && k < |chain|
    ensures r.start + r.size <= chain[k].Footer() || chain[k].End() <= r.start
  {
    var j: nat :| PlacedAt(chain, cur, r, j);
    if j < k {
      assert Disjoint(chain[j], chain[k]);
    } else if k < j {
      assert Disjoint(chain[k], chain[j]);
    }
  }

  /** Bumping in the newest block. */
  lemma {:induction false} SoundBump(chain: seq<Block>, cur: nat, allocs: seq<Range>, size: nat)
    requires Sound(chain, cur, allocs) && AllDisjoint(chain)
    requires size > 0 ==> |chain| > 0 && chain[|chain| - 1].start <= cur && cur + size <= chain[|chain| - 1].Footer()
    ensures Sound(chain, cur + size, allocs + [Range(cur, size)])
  {
    var r, more := Range(cur, size), allocs + [Range(cur, size)];
    if size > 0 {
      assert PlacedAt(chain, cur + size, r, |chain| - 1);
    }
    forall i | 0 <= i < |allocs| ensures Placed(chain, cur + size, allocs[i]) && Apart(allocs[i], r) {
      assert Placed(chain, cur, allocs[i]);
      if allocs[i].size > 0 {
        var j: nat :| PlacedAt(chain, cur, allocs[i], j);
        assert PlacedAt(chain, cur + size, allocs[i], j);
        if j < |chain| - 1 {
          assert Disjoint(chain[j], chain[|chain| - 1]);
        }
      }
    }
  }

  /** Starting a new block keeps the allocations of the old ones. */
  lemma {:induction false} SoundGrow(chain: seq<Block>, cur: nat, allocs: seq<Range>, block: Block)
    requires Sound(chain, cur, allocs)
    ensures Sound(chain + [block], block.start, allocs)
  {
    forall i | 0 <= i < |allocs| ensures Placed(chain + [block], block.start, allocs[i]) {
      assert Placed(chain, cur, allocs[i]);
      if allocs[i].size > 0 {
        var j: nat :| PlacedAt(chain, cur, allocs[i], j);
        assert PlacedAt(chain + [block], block.start, allocs[i], j);
      }
    }
  }

  /** Block i of a chain before another one was added. */
  ghost predicate WasLinked(chain: seq<Block>, live: set<Block>, footers: map<nat, Segment>, i: nat)
    requires i < |chain|
  {
    chain[i] in live && chain[i].count > 0 && LinkAt(chain, footers, i)
  }

  /** A chain with one more block on top. */
  lemma {:induction false} ChainGrow(chain: seq<Block>, seg: nat, live: set<Block>, footers: map<nat, Segment>, block: Block, os: Os)
    requires os.Valid() && os.live == live + {block} && block !in live
    requires block.count > 0 && block.Footer() > 0 && os.footers == footers[block.Footer() := Segment(block.start, seg)]
    requires (seg == 0 <==> chain == []) && (chain != [] ==> seg == chain[|chain| - 1].Footer()) && Distinct(chain)
    requires forall i {:trigger WasLinked(chain, live, footers, i)} :: 0 <= i < |chain| ==> WasLinked(chain, live, footers, i)
    ensures IsChain(chain + [block], block.Footer(), os)
  {
    var more := chain + [block];
    forall i | 0 <= i < |more| ensures Linked(more, os, i) && (i < |chain| ==> more[i] != block) {
      if i < |chain| {
        LinkStays(chain, live, footers, block, os, i, seg);
      }
    }
  }

  lemma {:induction false} LinkStays(chain: seq<Block>, live: set<Block>, footers: map<nat, Segment>, block: Block, os: Os, i: nat, seg: nat)
    requires os.Valid() && os.live == live + {block} && block !in live && block.count > 0 && block.Footer() > 0
    requires os.footers == footers[block.Footer() := Segment(block.start, seg)]
    requires i < |chain| && WasLinked(chain, live, footers, i)
    ensures Linked(chain + [block], os, i)
  {
    assert Disjoint(chain[i], block);
    assert Before(chain + [block], i) == Before(chain, i);
  }

  /** What a request came to: an address, or the end of the process because there is no memory. */
  datatype Outcome = At(address: nat) | Aborted

  class ZasterAllocator {
    const os: Os
    var cur: nat
    var segment: nat
    /** The blocks of the segments, oldest first. */
    ghost var chain: seq<Block>
    /** Every allocation returned so far. */
    ghost var allocs: seq<Range>

    ghost predicate Valid()
      reads this, os
    {
      && os.Valid() && IsChain(chain, segment, os) && Sound(chain, cur, allocs)
      && cur <= segment && (chain != [] ==> chain[|chain| - 1].start <= cur) && (chain == [] ==> cur == 0)
    }

    /** zaster_allocator_init */
    constructor (os: Os)
      requires os.Valid()
      ensures Valid() && this.os == os && chain == [] && allocs == []
    {
      this.os := os;
      cur, segment, chain, allocs := 0, 0, [], [];
    }

    /** zaster_allocator_grow, and the switch to the new segment that both callers make. */
    method Grow(size: nat, answer: nat) returns (aborted: bool)
      requires Valid() && os.Answers(answer, SizeToPages(size + FOOTER_SIZE))
      modifies this`cur, this`segment, this`chain, os
      ensures aborted <==> answer == 0
      ensures !aborted ==> Valid() && chain == old(chain) + [Block(answer, SizeToPages(size + FOOTER_SIZE))]
      ensures !aborted ==> cur == answer && cur + size <= segment && os.requests == old(os.requests)
    {
      ghost var live, footers := os.live, os.footers;
      forall i | 0 <= i < |chain| ensures WasLinked(chain, live, footers, i) {
        assert Linked(chain, os, i);
      }
      var seg;
      ghost var block;
      seg, block := os.SegmentNew(size, segment, answer);
      if seg == 0 {
        return true;
      }
      PagesHold(size + FOOTER_SIZE);
      ChainGrow(chain, segment, live, footers, block, os);
      SoundGrow(chain, cur, allocs, block);
      chain := chain + [block];
      cur := os.Read(seg).start;
      segment := seg;
      aborted := false;
    }

    /**
     zaster_reserve: the address at which at least `size` bytes are free, without taking them. A
     request for nothing to an allocator without segments gives NULL.
     */
    method Reserve(size: nat, answer: nat) returns (r: Outcome)
      requires Valid() && os.Answers(answer, SizeToPages(size + FOOTER_SIZE))
      modifies this`cur, this`segment, this`chain, os
      ensures r.Aborted? <==> old(cur + size > segment) && answer == 0
      ensures r.At? ==> Valid() && r.address == cur && cur + size <= segment
      ensures r.At? && old(cur + size <= segment) ==> cur == old(cur) && segment == old(segment) && chain == old(chain)
      ensures r.At? && old(cur + size > segment) ==> |chain| == |old(chain)| + 1
      ensures r.At? && r.address == 0 ==> size == 0 && old(chain) == []
    {
      var next := cur + size;
      assert chain != [] ==> Linked(chain, os, |chain| - 1);
      if next <= segment {
        return At(cur);
      }
      var aborted := Grow(size, answer);
      r := if aborted then Aborted else At(cur);
    }

    /** zaster_alloc: the same, and the bytes are taken. */
    method Alloc(size: nat, answer: nat) returns (r: Outcome)
      requires Valid() && os.Answers(answer, SizeToPages(size + FOOTER_SIZE))
      modifies this`cur, this`segment, this`chain, this`allocs, os
      ensures r.Aborted? <==> old(cur + size > segment) && answer == 0
      ensures r.At? ==> Valid() && allocs == old(allocs) + [Range(r.address, size)] && cur == r.address + size
      ensures r.At? && old(cur + size <= segment) ==> r.address == old(cur) && segment == old(segment) && chain == old(chain)
      ensures r.At? && old(cur + size > segment) ==> |chain| == |old(chain)| + 1
      ensures r.At? && r.address == 0 ==> size == 0 && old(chain) == []
    {
      var next := cur + size;
      assert chain != [] ==> Linked(chain, os, |chain| - 1);
      if next > segment {
        var aborted := Grow(size, answer);
        if aborted {
          return Aborted;
        }
      }
      ChainDisjoint(chain, segment, os);
      SoundBump(chain, cur, allocs, size);
      allocs := allocs + [Range(cur, size)];
      var p := cur;
      cur := cur + size;
      r := At(p);
    }

    /** zaster_allocator_free: the process ends if the system refuses a block. */
    method Free() returns (aborted: bool)
      requires Valid()
      modifies this, os
      ensures os.requests == old(os.requests) + Backwards(old(chain))
      ensures os.live == old(os.live) - Taken(old(chain), os.refused)
      ensures aborted <==> !AllTaken(old(chain), os.refused)
      ensures !aborted ==> Valid() && chain == [] && allocs == [] && cur == 0 && segment == 0
    {
      if segment != 0 {
        var ok := SegmentFree(os, segment, true, chain);
        if !ok {
          return true;
        }
      }
      cur, segment, chain, allocs := 0, 0, [], [];
      aborted := false;
    }
  }

  /**
   After any calls: a nonempty allocation lies in the usable bytes of a block that is still in use, is
   apart from every other allocation, and touches no footer.
   */
  lemma {:induction false} AllocationsSafe(a: ZasterAllocator, i: nat)
    requires a.Valid() && i < |a.allocs| && a.allocs[i].size > 0
    ensures exists b :: b in a.os.live && b.start <= a.allocs[i].start && a.allocs[i].start + a.allocs[i].size <= b.Footer()
    ensures forall k :: 0 <= k < |a.allocs| && k != i ==> Apart(a.allocs[i], a.allocs[k])
    ensures forall k :: 0 <= k < |a.chain| ==>
              a.allocs[i].start + a.allocs[i].size <= a.chain[k].Footer() || a.chain[k].End() <= a.allocs[i].start
  {
    ChainDisjoint(a.chain, a.segment, a.os);
    assert Placed(a.chain, a.cur, a.allocs[i]);
    var j: nat :| PlacedAt(a.chain, a.cur, a.allocs[i], j);
    assert Linked(a.chain, a.os, j) && a.chain[j] in a.os.live;
    forall k | 0 <= k < |a.chain|
      ensures a.allocs[i].start + a.allocs[i].size <= a.chain[k].Footer() || a.chain[k].End() <= a.allocs[i].start
    {
      FootersUntouched(a.chain, a.cur, a.allocs[i], k);
    }
    forall k | 0 <= k < |a.allocs| && k != i ensures Apart(a.allocs[i], a.allocs[k]) {
      if k < i {
        assert Apart(a.allocs[k], a.allocs[i]);
      }
    }
  }

  /** Reserving n bytes and then allocating at most n gives the reserved address, without a second block. */
  method ReserveThenAlloc(a: ZasterAllocator, n: nat, m: nat, answer: nat) returns (reserved: Outcome, given: Outcome)
    requires a.Valid() && m <= n && a.os.Answers(answer, SizeToPages(n + FOOTER_SIZE))
    modifies a, a.os
    ensures reserved.At? ==> given == reserved && a.Valid() && |a.chain| <= |old(a.chain)| + 1
    ensures reserved.At? ==> a.allocs == old(a.allocs) + [Range(reserved.address, m)]
  {
    reserved := a.Reserve(n, answer);
    given := Aborted;
    if reserved.At? {
      given := a.Alloc(m, 0);
    }
  }
}
