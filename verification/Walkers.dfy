/**
  The two heap walkers over arbitrary header memory, and what they say about the allocator's memory.
 */
module Walkers {
  import opened Wrappers
  import opened Layout
  import opened Metadata
  import opened HeapModel
  import opened Memory
  import opened Shapes

  /** Header contents at every address; nothing is assumed about them. */
  type Contents = int -> BlockHeader

  /** Blocks that follow one another from `a` to exactly `end`, each described by a valid header. */
  predicate Covers(mem: Contents, bs: seq<Block>, a: nat, end: nat) {
    if bs == [] then a == end
    else a < end && bs[0].addr == a && Describes(mem(a), bs[0]) && Covers(mem, bs[1..], bs[0].End(), end)
  }

  /** The walk that both walkers make: stops at the end or at the first invalid header. */
  function Walk(mem: Contents, a: nat, end: nat): seq<Block>
    decreases end - a
  {
    if a >= end || !mem(a).Validate() then []
    else [Block(a, mem(a).size, mem(a).status)] + Walk(mem, a + mem(a).TotalSize(), end)
  }

  /** Where that walk stops. */
  function Stop(mem: Contents, a: nat, end: nat): nat
    decreases end - a
  {
    if a >= end || !mem(a).Validate() then a else Stop(mem, a + mem(a).TotalSize(), end)
  }

  /** If any blocks cover the range, they are the ones the walk meets, and it stops exactly at the end. */
  lemma {:induction false} CoverIsWalk(mem: Contents, bs: seq<Block>, a: nat, end: nat)
    requires Covers(mem, bs, a, end)
    ensures Walk(mem, a, end) == bs && Stop(mem, a, end) == end
    decreases |bs|
  {
    if bs != [] {
      CoverIsWalk(mem, bs[1..], bs[0].End(), end);
      assert bs == [bs[0]] + bs[1..];
    }
  }

  lemma {:induction false} WalkCovers(mem: Contents, a: nat, end: nat)
    requires Stop(mem, a, end) == end
    ensures Covers(mem, Walk(mem, a, end), a, end)
    decreases end - a
  {
    if a < end {
      var b, rest := Block(a, mem(a).size, mem(a).status), Walk(mem, a + mem(a).TotalSize(), end);
      WalkCovers(mem, b.End(), end);
      assert ([b] + rest)[1..] == rest;
    }
  }

  /** A heap is well formed when some sequence of blocks covers it. */
  ghost predicate WellFormed(mem: Contents, start: nat, end: nat) {
    exists bs :: Covers(mem, bs, start, end)
  }

  lemma WellFormedIffStop(mem: Contents, start: nat, end: nat)
    ensures WellFormed(mem, start, end) <==> Stop(mem, start, end) == end
  {
    if WellFormed(mem, start, end) {
      var bs :| Covers(mem, bs, start, end);
      CoverIsWalk(mem, bs, start, end);
    }
    if Stop(mem, start, end) == end { WalkCovers(mem, start, end); }
  }

  /** `integrity_check`, with the reason it gives when it fails. */
  method IntegrityCheck(mem: Contents, start: nat, end: nat) returns (r: Result)
    ensures r.Ok? <==> WellFormed(mem, start, end)
    ensures r == Err(CorruptedHeader) <==> Stop(mem, start, end) < end
    ensures r == Err(InternalError) <==> Stop(mem, start, end) > end
  {
    WellFormedIffStop(mem, start, end);
    var current := start;
    while current < end
      invariant Stop(mem, current, end) == Stop(mem, start, end)
      decreases end - current
    {
      if !mem(current).Validate() { return Err(CorruptedHeader); }
      current := current + mem(current).TotalSize();
    }
    if current != end { return Err(InternalError); }
    return Ok;
  }

  class BlockIterator {
    var current: nat
    const end: nat

    constructor (start: nat, end: nat)
      ensures current == start && this.end == end
    {
      this.current, this.end := start, end;
    }

    /** Yields headers by their magic number alone. */
    method Next(mem: Contents) returns (header: Option<nat>)
      modifies this
      ensures if old(current) < end && mem(old(current)).magic == BLOCK_MAGIC
              then header == Some(old(current)) && current == old(current) + mem(old(current)).TotalSize()
              else header == None && current == old(current)
    {
      if current >= end { return None; }
      if mem(current).magic != BLOCK_MAGIC { return None; }
      header := Some(current);
      current := current + mem(current).TotalSize();
    }
  }

  datatype Verdict = Fine | ValidationFailed | BeyondHeap | NotFilled

  /** `BlockValidator::validate_heap` accepts exactly the heaps that `integrity_check` accepts. */
  method ValidateHeap(mem: Contents, start: nat, end: nat) returns (v: Verdict)
    requires start <= end
    ensures v == Fine <==> WellFormed(mem, start, end)
    ensures v == BeyondHeap ==> Stop(mem, start, end) > end
    ensures v == NotFilled ==> Stop(mem, start, end) < end && mem(Stop(mem, start, end)).magic != BLOCK_MAGIC
    ensures v == ValidationFailed ==> Stop(mem, start, end) < end && mem(Stop(mem, start, end)).magic == BLOCK_MAGIC
  {
    hide WellFormed, Covers, Walk, BlockHeader.CalculateChecksum;
    WellFormedIffStop(mem, start, end);
    var iter := new BlockIterator(start, end);
    var total: nat := 0;
    var header := iter.Next(mem);
    while header.Some?
      invariant iter.end == end && fresh(iter) && total + start <= end
      invariant Stop(mem, total + start, end) == Stop(mem, start, end)
      invariant header.Some? ==> total + start < end && header.value == total + start
                                 && mem(header.value).magic == BLOCK_MAGIC
                                 && iter.current == header.value + mem(header.value).TotalSize()
      invariant header.None? ==> total + start >= end || mem(total + start).magic != BLOCK_MAGIC
      decreases if header.Some? then 1 + end - header.value else 0
    {
      var h := mem(header.value);
      if !h.Validate() { return ValidationFailed; }
      if header.value + HEADER + h.size > end { return BeyondHeap; }
      total := total + h.TotalSize();
      header := iter.Next(mem);
    }
    if total != end - start { return NotFilled; }
    return Fine;
  }

  // ---------------------------------------------------------------- the allocator's own memory

  function ContentsOf(m: Mem): Contents { (a: int) => m.HeaderAt(a) }

  /** A well-shaped memory is covered by its blocks: every header of the walk is valid and the tiling is exact. */
  lemma {:induction false} ShapeCovers(m: Mem, bs: seq<Block>, lo: nat, hi: nat)
    requires Tiles(bs, lo, hi) && forall b | b in bs :: b.addr in m.headers && Describes(m.headers[b.addr], b)
    ensures Covers(ContentsOf(m), bs, lo, hi)
    decreases |bs|
  {
    if bs != [] {
      EdgeBounds(bs, lo, hi);
      assert bs[0] in bs;
      forall b | b in bs[1..] ensures b in bs {}
      ShapeCovers(m, bs[1..], bs[0].End(), hi);
    }
  }

  /**
    The three views agree in every state the allocator can be in: the physical header walk meets exactly
    the blocks; the list, followed forwards or backwards, is exactly their free part in address order; and
    the counters are theirs.
   */
  lemma ViewsAgree(m: Mem, head: int, s: Heap, fuel: nat)
    requires Inv(s) && Shape(m, head, s.blocks, s.stale, s.lo, s.hi) && fuel >= |s.blocks|
    ensures WellFormed(ContentsOf(m), s.lo, s.hi) && Walk(ContentsOf(m), s.lo, s.hi) == s.blocks
    ensures Follow(m, head, fuel) == FreeNodes(Walk(ContentsOf(m), s.lo, s.hi))
    ensures FollowBack(m, At(FreeNodes(s.blocks), |FreeNodes(s.blocks)| - 1), fuel) == Follow(m, head, fuel)
    ensures s.stats.freeCount == |Follow(m, head, fuel)|
    ensures TallyOf(Walk(ContentsOf(m), s.lo, s.hi)) ==
            Tally(s.stats.usedSize, s.stats.freeSize, s.stats.allocCount, s.stats.freeCount)
  {
    ShapeCovers(m, s.blocks, s.lo, s.hi);
    CoverIsWalk(ContentsOf(m), s.blocks, s.lo, s.hi);
    FreeSpaced(s.blocks, s.lo, s.hi);
    FreeNodesFacts(s.blocks, s.lo, s.hi);
    TallyTotal(s.blocks, s.lo, s.hi);
    FollowIsList(m, head, FreeNodes(s.blocks), fuel);
  }
}
