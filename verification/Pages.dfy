/**
 The operating system's pages and the segments made of them. A block is a run of pages; its segment
 footer lies in its last 16 bytes. Addresses are numbers and 0 is NULL. What the system answers to a
 request is a parameter: an address that is disjoint from every block in use, or NULL.
 */
module Pages {

  const PAGE_SIZE := 65536
  const FOOTER_SIZE := 16

  datatype Block = Block(start: nat, count: nat) {
    function End(): (e: nat) {
      start + count * PAGE_SIZE
    }

    /** Where the footer is: the end of the usable bytes. */
    function Footer(): (f: int) {
      End() - FOOTER_SIZE
    }
  }

  predicate Disjoint(a: Block, b: Block) {
    a.End() <= b.start || b.End() <= a.start
  }

  /** ZasterSegment */
  datatype Segment = Segment(start: nat, prev: nat)

  /** zaster_size_to_pages */
  function SizeToPages(size: nat): (n: nat) {
    (size + PAGE_SIZE - 1) / PAGE_SIZE
  }

  /** Enough pages, and not one too many. */
  lemma {:induction false} PagesHold(size: nat)
    ensures size <= SizeToPages(size) * PAGE_SIZE < size + PAGE_SIZE
  {
    var x := size + PAGE_SIZE - 1;
    assert x == (x / PAGE_SIZE) * PAGE_SIZE + x % PAGE_SIZE;
  }

  /** The number of pages computed back from the footer. */
  lemma {:induction false} PagesBack(b: Block)
    ensures (b.Footer() + FOOTER_SIZE - b.start) / PAGE_SIZE == b.count
  {
    assert b.count * PAGE_SIZE / PAGE_SIZE == b.count;
  }

  class Os {
    /** The blocks in use. */
    var live: set<Block>
    /** The footers written into blocks in use, by address. */
    var footers: map<nat, Segment>
    /** Every request to give pages back, in order. */
    var requests: seq<Block>
    /** Blocks that the system will not take back. */
    const refused: set<nat>

    ghost predicate Valid()
      reads this
    {
      && (forall b :: b in live ==> b.start > 0 && b.count > 0)
      && (forall a, b :: a in live && b in live && a != b ==> Disjoint(a, b))
    }

    constructor (refused: set<nat>)
      ensures Valid() && live == {} && footers == map[] && requests == [] && this.refused == refused
    {
      live, footers, requests := {}, map[], [];
      this.refused := refused;
    }

    /** What an honest system may answer to a request for `count` pages. */
    ghost predicate Answers(answer: nat, count: nat)
      reads this
    {
      answer > 0 && count > 0 ==> forall b :: b in live ==> Disjoint(Block(answer, count), b)
    }

    /** zaster_pages_alloc */
    method Alloc(count: nat, answer: nat) returns (p: nat)
      requires Valid() && Answers(answer, count)
      modifies this`live
      ensures Valid() && p == if count == 0 then 0 else answer
      ensures live == if p == 0 then old(live) else old(live) + {Block(p, count)}
      ensures p > 0 ==> Block(p, count) !in old(live)
    {
      if count == 0 {
        return 0;
      }
      p := answer;
      if p > 0 {
        assert forall b :: b in live ==> Disjoint(Block(p, count), b);
        live := live + {Block(p, count)};
      }
    }

    /** zaster_pages_free, on a block in use with the number of pages it was obtained with. */
    method Free(p: nat, count: nat) returns (ok: bool)
      requires Valid() && Block(p, count) in live
      modifies this
      ensures Valid() && requests == old(requests) + [Block(p, count)]
      ensures ok <==> p !in refused
      ensures live == if ok then old(live) - {Block(p, count)} else old(live)
      ensures forall a :: a in footers <==> a in old(footers) && !(ok && p <= a < Block(p, count).End())
      ensures forall a :: a in footers ==> footers[a] == old(footers)[a]
    {
      if p == 0 {
        assert false;
      }
      requests := requests + [Block(p, count)];
      if p in refused {
        return false;
      }
      live := live - {Block(p, count)};
      footers := map a | a in footers && !(p <= a < Block(p, count).End()) :: footers[a];
      ok := true;
    }

    /** Reads a footer, which must lie in a block in use. */
    function Read(seg: nat): (s: Segment)
      reads this
      requires seg in footers
    {
      footers[seg]
    }

    /** zaster_segment_new: a block for at least dataSize bytes, with its footer at the end. */
    method SegmentNew(dataSize: nat, prev: nat, answer: nat) returns (seg: nat, ghost block: Block)
      requires Valid() && Answers(answer, SizeToPages(dataSize + FOOTER_SIZE))
      modifies this
      ensures Valid() && requests == old(requests)
      ensures seg == 0 <==> answer == 0
      ensures seg == 0 ==> live == old(live) && footers == old(footers)
      ensures seg > 0 ==>
                && block == Block(answer, SizeToPages(dataSize + FOOTER_SIZE)) && seg == block.Footer()
                && live == old(live) + {block} && block !in old(live)
                && footers == old(footers)[seg := Segment(block.start, prev)]
                && block.start + dataSize <= block.Footer()
    {
      var count := SizeToPages(dataSize + FOOTER_SIZE);
      PagesHold(dataSize + FOOTER_SIZE);
      block := Block(answer, count);
      var start := Alloc(count, answer);
      if start == 0 {
        return 0, block;
      }
      seg := start + count * PAGE_SIZE - FOOTER_SIZE;
      footers := footers[seg := Segment(start, prev)];
    }
  }
}
