/**
  The early allocator itself: an object that updates headers and free-list nodes in raw memory.
  Every method is proved to refine the corresponding step of `HeapModel`.
 */
module Allocator {
  import opened Wrappers
  import opened Layout
  import opened Metadata
  import opened HeapModel
  import opened HeapRuns
  import opened Memory
  import opened Shapes
  import opened Walkers

  class EarlyAllocator {
    const heapStart: nat
    const heapEnd: nat
    var freeListHead: int
    var stats: AllocStats
    var frozen: bool
    var nextAllocId: nat
    var mem: Mem
    var clock: nat                 // the timestamp counter of the header code
    ghost var blocks: seq<Block>
    ghost var stale: set<int>

    ghost function Abs(): Heap
      reads this
    {
      Heap(heapStart, heapEnd, blocks, stale, stats, frozen)
    }

    ghost predicate Valid()
      reads this
    {
      && Inv(Abs())
      && Shape(mem, freeListHead, blocks, stale, heapStart, heapEnd)
      && nextAllocId == 1 + stats.totalAllocs && Ids(mem, Live(blocks), nextAllocId)
    }

    /** `remove_from_free_list`: unlinks the node at position `k`. */
    method RemoveFromFreeList(node: int, ghost free: seq<int>, ghost k: nat, ghost bs: seq<Block>, ghost m0: Mem)
      requires Linked(mem, freeListHead, free) && ListFrame(mem, free, bs) && Quiet(bs, m0, mem)
      requires k < |free| && free[k] == node
      modifies this`mem, this`freeListHead
      ensures Linked(mem, freeListHead, Without(free, k)) && ListFrame(mem, Without(free, k), bs)
      ensures mem.headers == old(mem.headers)
      ensures Quiet(bs, m0, mem)
    {
      UnlinkFacts(mem, free, k, bs);
      FrameWithout(mem, free, k, bs);
      var block := mem.nodes[node];
      if block.prev != 0 {
        mem := SetNext(mem, block.prev, block.next);
      } else {
        freeListHead := block.next;
      }
      if block.next != 0 {
        mem := SetPrev(mem, block.next, block.prev);
      }
      QuietTrans(bs, m0, old(mem), mem);
    }

    /** `insert_into_free_list`: links the node in at its place in address order. */
    method InsertIntoFreeList(node: int, ghost free: seq<int>, ghost k: nat, ghost bs: seq<Block>, ghost m0: Mem)
      requires Linked(mem, freeListHead, free) && ListFrame(mem, free, bs) && Quiet(bs, m0, mem)
      requires k <= |free| && Spaced(With(free, k, node)) && Clear(bs, node, NODE)
      modifies this`mem, this`freeListHead
      ensures Linked(mem, freeListHead, With(free, k, node))
      ensures mem.headers == Intact(old(mem.headers), HEADER, node, NODE)
      ensures Quiet(bs, m0, mem)
    {
      InsertFacts(mem, free, k, node, bs);
      InsertPlace(free, k, node);
      var current := freeListHead;
      if current == 0 || current - HEADER > node - HEADER {
        mem := mem.WriteNode(node, FreeBlock(current, 0));
        if current != 0 {
          mem := SetPrev(mem, current, node);
        }
        freeListHead := node;
        QuietTrans(bs, m0, old(mem), mem);
        return;
      }
      ghost var c := 0;
      while mem.nodes[current].next != 0 && mem.nodes[current].next - HEADER < node - HEADER
        invariant 0 <= c < k && current == free[c] && mem == old(mem) && freeListHead == old(freeListHead)
        decreases |free| - c
      {
        current := mem.nodes[current].next;
        c := c + 1;
      }
      assert c == k - 1;
      var next := mem.nodes[current].next;
      mem := mem.WriteNode(node, FreeBlock(next, current));
      if next != 0 {
        mem := SetPrev(mem, next, node);
      }
      mem := SetNext(mem, current, node);
      QuietTrans(bs, m0, old(mem), mem);
    }

    /** `find_free_block`: walks the list and stops at the first block with room. */
    method FindFreeBlock(size: nat, align: nat) returns (found: bool, header: int, user: nat, ghost k: nat)
      requires Valid() && align > 0
      ensures k == FirstFit(blocks, size, align)
      ensures found <==> FirstFit(blocks, size, align) < |blocks|
      ensures found ==> var b := blocks[FirstFit(blocks, size, align)];
                        header == b.addr && user == UserAddr(b, align)
    {
      hide StaleApart, Ledger, Coalesced, HeadersOk, NoneBefore;
      var current := freeListHead;
      ghost var i := 0;
      ghost var free := FreeNodes(blocks);
      StartNone(blocks, heapStart, heapEnd, size, align);
      FreeSpaced(blocks, heapStart, heapEnd);
      while current != 0
        invariant 0 <= i <= |free| && current == At(free, i) && NoneBefore(blocks, i, size, align)
        decreases |free| - i
      {
        k := NodeBlock(blocks, heapStart, heapEnd, i);
        HeaderOf(mem, blocks, stale, k);
        header := current - HEADER;
        var blockSize := mem.HeaderAt(header).size;
        user := AlignUp(header + HEADER, align);
        if blockSize >= user - header + Need(size) {
          FoundFirst(blocks, heapStart, heapEnd, i, k, size, align);
          return true, header, user, k;
        }
        SkipOne(blocks, heapStart, heapEnd, i, k, size, align);
        current := mem.nodes[current].next;
        i := i + 1;
      }
      NoneFits(blocks, size, align);
      return false, 0, 0, |blocks|;
    }

    /** Writes one header at a place that touches neither the list nor an allocated payload. */
    method PutHeader(a: int, h: BlockHeader, ghost free: seq<int>, ghost bs: seq<Block>, ghost m0: Mem)
      requires Linked(mem, freeListHead, free) && ListFrame(mem, free, bs) && Quiet(bs, m0, mem)
      requires Clear(bs, a, HEADER)
      requires forall i | 0 <= i < |free| :: a + HEADER <= free[i] || free[i] + NODE <= a
      modifies this`mem
      ensures Linked(mem, freeListHead, free) && ListFrame(mem, free, bs)
      ensures mem.headers == Intact(old(mem.headers), HEADER, a, HEADER)[a := h]
      ensures Quiet(bs, m0, mem)
    {
      QuietHeader(bs, mem, a, h);
      LinkedHeader(mem, freeListHead, free, a, h);
      mem := mem.WriteHeader(a, h);
      QuietTrans(bs, m0, old(mem), mem);
    }

    /** Takes the found block off the list and turns it, or its first part, into an allocated block. */
    method TakeBlock(header: int, required: nat, ghost k: nat) returns (size: nat)
      requires Shape(mem, freeListHead, blocks, stale, heapStart, heapEnd)
      requires k < |blocks| && blocks[k].status.Free? && header == blocks[k].addr
      requires MIN_BLOCK <= required <= blocks[k].size
      modifies this`mem, this`freeListHead, this`clock, this`nextAllocId, this`blocks, this`stale
      ensures Shape(mem, freeListHead, blocks, stale, heapStart, heapEnd)
      ensures blocks == CarveAt(old(blocks), k, required) && size == Carve(old(blocks)[k], required)[0].size
      ensures stale == if |Carve(old(blocks)[k], required)| == 2
                       then Surviving(old(stale), header + required, MIN_BLOCK) else old(stale)
      ensures nextAllocId == old(nextAllocId) + 1
      ensures Quiet(old(blocks), old(mem), mem)
      ensures Kept(Live(old(blocks)), old(mem), mem) && Stamped(old(mem), mem, header, old(nextAllocId), old(clock))
    {
      hide Kept, Live, Quiet, Clear, Linked, ListFrame, StaleApart, HeadersOk;
      ghost var bs := blocks;
      HeaderOf(mem, bs, stale, k);
      RestIsWithout(bs, k);
      ShapeFrame(mem, freeListHead, bs, stale, heapStart, heapEnd);
      QuietRefl(bs, mem);
      var blockSize := mem.HeaderAt(header).size;

      RemoveFromFreeList(header + HEADER, FreeNodes(bs), Rank(bs, k), bs, mem);
      if blockSize >= required + MIN_BLOCK {
        size := required - HEADER;
        Split(header, required, k, bs, old(mem));
      } else {
        size := blockSize;
        Whole(header, required, k, bs, old(mem));
      }
      nextAllocId := nextAllocId + 1;
    }

    /** The allocated part gets its header, the remainder a new header and a place in the list. */
    method Split(header: int, required: nat, ghost k: nat, ghost bs: seq<Block>, ghost m0: Mem)
      requires 0 < heapStart && Tiles(bs, heapStart, heapEnd)
      requires StaleApart(bs, stale) && HeadersOk(mem.headers, bs, stale)
      requires k < |bs| && bs[k] in bs && bs[k].status.Free? && header == bs[k].addr
      requires MIN_BLOCK <= required && required + MIN_BLOCK <= bs[k].size
      requires Linked(mem, freeListHead, Rest(bs, k)) && ListFrame(mem, Rest(bs, k), bs) && Quiet(bs, m0, mem)
      requires mem.headers == m0.headers
      modifies this`mem, this`freeListHead, this`clock, this`blocks, this`stale
      ensures Shape(mem, freeListHead, blocks, stale, heapStart, heapEnd)
      ensures blocks == CarveAt(bs, k, required) && stale == Surviving(old(stale), header + required, MIN_BLOCK)
      ensures Quiet(bs, m0, mem)
      ensures Kept(Live(bs), m0, mem) && Stamped(m0, mem, header, nextAllocId, old(clock))
    {
      hide Kept, Live, Quiet, Clear, Linked, ListFrame, StaleApart, HeadersOk, Spaced;
      HeaderOf(mem, bs, stale, k);
      var blockSize := mem.HeaderAt(header).size;
      var h := mem.HeaderAt(header)
               .(size := required - HEADER, status := Allocated, allocId := nextAllocId, timestamp := clock)
               .UpdateChecksum();
      var h' := NewHeader(blockSize - required, Free, clock + 1);
      assert Describes(h, Carve(bs[k], required)[0]) && Describes(h', Carve(bs[k], required)[1]);
      ghost var hs := mem.headers;
      SplitPlan(hs, bs, stale, heapStart, heapEnd, k, required, h);
      WriteSplit(header, h, header + required, h', Rest(bs, k), Rank(bs, k), bs, m0);
      SplitShape(mem, freeListHead, hs, bs, stale, heapStart, heapEnd, k, required, h, h');
      SplitKept(m0, mem, bs, heapStart, heapEnd, k, required, h, h');
      clock := clock + 2;
      blocks, stale := CarveAt(bs, k, required), Surviving(stale, header + required, MIN_BLOCK);
    }

    /** The writes of a split, in their order: allocated header, new header, links of the new node. */
    method WriteSplit(a: int, h: BlockHeader, n: int, h': BlockHeader,
                      ghost rest: seq<int>, ghost r: nat, ghost bs: seq<Block>, ghost m0: Mem)
      requires Linked(mem, freeListHead, rest) && ListFrame(mem, rest, bs) && Quiet(bs, m0, mem)
      requires Clear(bs, a, HEADER) && Clear(bs, n, HEADER) && Clear(bs, n + HEADER, NODE)
      requires forall i | 0 <= i < |rest| :: a + HEADER <= rest[i] || rest[i] + NODE <= a
      requires forall i | 0 <= i < |rest| :: n + HEADER <= rest[i] || rest[i] + NODE <= n
      requires Intact(mem.headers, HEADER, a, HEADER)[a := h] == mem.headers[a := h]
      requires r <= |rest| && Spaced(With(rest, r, n + HEADER))
      modifies this`mem, this`freeListHead
      ensures Linked(mem, freeListHead, With(rest, r, n + HEADER)) && Quiet(bs, m0, mem)
      ensures mem.headers == SplitHeaders(old(mem.headers), a, h, n, h')
    {
      hide Quiet, Clear, Linked;
      PutHeader(a, h, rest, bs, m0);
      PutHeader(n, h', rest, bs, m0);
      InsertIntoFreeList(n + HEADER, rest, r, bs, m0);
    }

    /** The remainder is too small to be a block, so all of it is allocated. */
    method Whole(header: int, ghost required: nat, ghost k: nat, ghost bs: seq<Block>, ghost m0: Mem)
      requires 0 < heapStart && Tiles(bs, heapStart, heapEnd)
      requires StaleApart(bs, stale) && HeadersOk(mem.headers, bs, stale)
      requires k < |bs| && bs[k].status.Free? && header == bs[k].addr
      requires MIN_BLOCK <= required <= bs[k].size < required + MIN_BLOCK
      requires Linked(mem, freeListHead, Rest(bs, k)) && ListFrame(mem, Rest(bs, k), bs) && Quiet(bs, m0, mem)
      requires mem.headers == m0.headers
      modifies this`mem, this`clock, this`blocks
      ensures Shape(mem, freeListHead, blocks, stale, heapStart, heapEnd)
      ensures blocks == CarveAt(bs, k, required) && Quiet(bs, m0, mem)
      ensures Kept(Live(bs), m0, mem) && Stamped(m0, mem, header, nextAllocId, old(clock))
    {
      hide Kept, Live, Quiet, Clear, Linked, StaleApart, HeadersOk;
      HeaderOf(mem, bs, stale, k);
      RestOff(bs, heapStart, heapEnd, k);
      CarveNodes(bs, heapStart, heapEnd, k, required);
      CarveApart(bs, stale, k, required);
      var h := mem.HeaderAt(header)
               .(status := Allocated, allocId := nextAllocId, timestamp := clock).UpdateChecksum();
      OwnHeader(mem.headers, bs, stale, heapStart, heapEnd, k, h);
      WholeHeadersOk(mem.headers, bs, stale, heapStart, heapEnd, k, required, h);
      BlockClear(bs, heapStart, heapEnd, k, header, HEADER);
      PutHeader(header, h, Rest(bs, k), bs, m0);
      OwnKept(m0, mem, bs, heapStart, heapEnd, k, h);
      clock := clock + 1;
      blocks := CarveAt(bs, k, required);
    }

    /**
      `alloc_aligned` refines the first-fit step, leaves every allocated payload and header as it was, and
      gives the new block the next allocation id and the time; the purpose is the one its header had before.
     */
    method AllocAligned(size: nat, align: nat) returns (r: Option<nat>)
      requires Valid()
      modifies this
      ensures Valid() && (Abs(), r) == HeapModel.Alloc(old(Abs()), size, align)
      ensures Quiet(old(blocks), old(mem), mem)
      ensures r.None? ==> mem == old(mem)
      ensures Kept(Live(old(blocks)), old(mem), mem)
      ensures r.Some? ==> var b := GrantedBlock(old(Abs()), size, align);
                          b in Live(blocks) && Stamped(old(mem), mem, b.addr, old(nextAllocId), old(clock))
    {
      hide Shape, Ids;
      ghost var s := Abs();
      if frozen || size == 0 || !IsPowerOfTwo(align) {
        Refused(s, size, align);
        RecordFailure();
        return None;
      }
      var found, header, user, k := FindFreeBlock(size, align);
      if !found {
        Refused(s, size, align);
        RecordFailure();
        return None;
      }
      AllocFound(s, size, align, k);
      TakeAndRecord(header, user - header + Need(size), k);
      GrantedFacts(s, size, align);
      return Some(user);
    }

    method RecordFailure()
      requires Valid()
      modifies this`stats
      ensures Valid() && Abs() == Refuse(old(Abs()))
    {
      hide Ids, Shape;
      stats := stats.RecordFailure();
    }

    /** Takes the block and brings the ledger up to date. */
    method TakeAndRecord(header: int, required: nat, ghost k: nat)
      requires Valid() && k < |blocks| && blocks[k].status.Free? && header == blocks[k].addr
      requires MIN_BLOCK <= required <= blocks[k].size
      requires stats.freeSize >= blocks[k].size + HEADER && stats.freeCount >= 1
      modifies this
      ensures Valid() && Abs() == CarveHeap(old(Abs()), k, required)
      ensures Quiet(old(blocks), old(mem), mem) && Kept(Live(old(blocks)), old(mem), mem)
      ensures Stamped(old(mem), mem, header, old(nextAllocId), old(clock))
    {
      hide Ids, Kept, Live, Quiet, Linked, StaleApart, Inv, HeadersOk;
      ghost var s := Abs();
      CarveInv(s, k, required);
      HeaderOf(mem, blocks, stale, k);
      var blockSize := mem.HeaderAt(header).size;
      var st := stats.(freeSize := stats.freeSize - (blockSize + HEADER), freeCount := stats.freeCount - 1);
      var taken := TakeBlock(header, required, k);
      CarveLive(s.blocks, heapStart, heapEnd, k, required);
      IdsGrow(old(mem), mem, Live(s.blocks), Carve(s.blocks[k], required)[0], old(nextAllocId));
      if blockSize >= required + MIN_BLOCK {
        st := st.RecordSplit();
        st := st.(freeSize := st.freeSize + (blockSize - required) + HEADER, freeCount := st.freeCount + 1);
      }
      stats := st.RecordAlloc(taken);
      assert Abs() == CarveHeap(s, k, required);
    }

    /** Merges block `k + 1` into block `k`: the second node leaves the list, the first header grows. */
    method Absorb(header: int, nextHeader: int, ghost k: nat, ghost m0: Mem)
      requires Shape(mem, freeListHead, blocks, stale, heapStart, heapEnd)
      requires Quiet(blocks, m0, mem) && Kept(Live(blocks), m0, mem)
      requires FreeAt(blocks, k) && FreeAt(blocks, k + 1)
      requires header == blocks[k].addr && nextHeader == blocks[k + 1].addr
      requires stats.freeCount == |FreeNodes(blocks)|
      modifies this`mem, this`freeListHead, this`blocks, this`stale, this`stats
      ensures Shape(mem, freeListHead, blocks, stale, heapStart, heapEnd) && Quiet(blocks, m0, mem)
      ensures Kept(Live(blocks), m0, mem)
      ensures Live(blocks) == Live(old(blocks))
      ensures blocks == MergeAt(old(blocks), k) && stale == old(stale) + {nextHeader}
      ensures stats.freeCount == |FreeNodes(blocks)|
      ensures stats == old(stats).RecordMerge().(freeCount := stats.freeCount)
      ensures stats.freeCount + 1 == old(stats.freeCount)
    {
      hide Quiet, Clear, Linked, ListFrame, StaleApart, HeadersOk, Spaced;
      ghost var bs, hs := blocks, mem.headers;
      HeaderOf(mem, bs, stale, k);
      HeaderOf(mem, bs, stale, k + 1);
      var h := mem.HeaderAt(header)
               .(size := mem.HeaderAt(header).size + mem.HeaderAt(nextHeader).TotalSize()).UpdateChecksum();
      assert Describes(h, Pair(bs, k));
      MergePlan(mem, freeListHead, bs, stale, heapStart, heapEnd, k, h);
      PairTiles(bs, heapStart, heapEnd, k);
      RemoveFromFreeList(nextHeader + HEADER, FreeNodes(bs), Rank(bs, k) + 1, bs, m0);
      PutHeader(header, h, Without(FreeNodes(bs), Rank(bs, k) + 1), bs, m0);
      MergeShape(mem, freeListHead, hs, bs, stale, heapStart, heapEnd, k, h);
      OwnKept(old(mem), mem, bs, heapStart, heapEnd, k, h);
      stats := stats.RecordMerge();
      stats := stats.(freeCount := stats.freeCount - 1);
      MergeLive(bs, k);
      QuietSub(MergeAt(bs, k), bs, m0, mem);
      blocks, stale := MergeAt(bs, k), stale + {nextHeader};
    }

    /** `coalesce`: merges with the physical successor, then with the list predecessor if it is adjacent. */
    method Coalesce(block: int, ghost k: nat, ghost m0: Mem)
      requires Shape(mem, freeListHead, blocks, stale, heapStart, heapEnd)
      requires Quiet(blocks, m0, mem) && Kept(Live(blocks), m0, mem)
      requires FreeAt(blocks, k) && block == blocks[k].Payload()
      requires stats.freeCount == |FreeNodes(blocks)|
      modifies this`mem, this`freeListHead, this`blocks, this`stale, this`stats
      ensures Shape(mem, freeListHead, blocks, stale, heapStart, heapEnd) && Quiet(blocks, m0, mem)
      ensures Kept(Live(blocks), m0, mem)
      ensures Live(blocks) == Live(old(blocks))
      ensures blocks == BothMerged(old(blocks), k) && stale == old(stale) + Absorbed(old(blocks), k)
      ensures var n := Absorptions(old(blocks), k);
              && stats.freeCount + n == old(stats.freeCount)
              && stats == old(stats).(freeCount := stats.freeCount, merges := old(stats.merges) + n,
                                      coalesces := old(stats.coalesces) + n)
    {
      hide Kept, Quiet, StaleApart, HeadersOk, Linked, FreeNodes, Live;
      MergeNext(block, k, m0);
      MergePrev(block, k, m0);
    }

    /** First half of `coalesce`. */
    method MergeNext(block: int, ghost k: nat, ghost m0: Mem)
      requires Shape(mem, freeListHead, blocks, stale, heapStart, heapEnd)
      requires Quiet(blocks, m0, mem) && Kept(Live(blocks), m0, mem)
      requires FreeAt(blocks, k) && block == blocks[k].Payload()
      requires stats.freeCount == |FreeNodes(blocks)|
      modifies this`mem, this`freeListHead, this`blocks, this`stale, this`stats
      ensures Shape(mem, freeListHead, blocks, stale, heapStart, heapEnd) && Quiet(blocks, m0, mem)
      ensures Kept(Live(blocks), m0, mem)
      ensures Live(blocks) == Live(old(blocks)) && stats.freeCount == |FreeNodes(blocks)|
      ensures if FreeAt(old(blocks), k + 1)
              then blocks == MergeAt(old(blocks), k) && stale == old(stale) + {old(blocks)[k + 1].addr}
                   && stats.freeCount + 1 == old(stats.freeCount)
                   && stats == old(stats).RecordMerge().(freeCount := stats.freeCount)
              else blocks == old(blocks) && stale == old(stale) && stats == old(stats)
    {
      hide Kept, Quiet, StaleApart, HeadersOk, Linked, FreeNodes, Live;
      var header := block - HEADER;
      HeaderOf(mem, blocks, stale, k);
      var nextHeader := header + mem.HeaderAt(header).TotalSize();
      NextHeader(blocks, heapStart, heapEnd, k);
      if nextHeader < heapEnd {
        HeaderOf(mem, blocks, stale, k + 1);
        if mem.HeaderAt(nextHeader).status.Free? {
          Absorb(header, nextHeader, k, m0);
        }
      }
    }

    /** Second half of `coalesce`. */
    method MergePrev(block: int, ghost k: nat, ghost m0: Mem)
      requires Shape(mem, freeListHead, blocks, stale, heapStart, heapEnd)
      requires Quiet(blocks, m0, mem) && Kept(Live(blocks), m0, mem)
      requires FreeAt(blocks, k) && block == blocks[k].Payload()
      requires stats.freeCount == |FreeNodes(blocks)|
      modifies this`mem, this`freeListHead, this`blocks, this`stale, this`stats
      ensures Shape(mem, freeListHead, blocks, stale, heapStart, heapEnd) && Quiet(blocks, m0, mem)
      ensures Kept(Live(blocks), m0, mem)
      ensures Live(blocks) == Live(old(blocks))
      ensures if FreeAt(old(blocks), k - 1)
              then blocks == MergeAt(old(blocks), k - 1) && stale == old(stale) + {block - HEADER}
                   && stats.freeCount + 1 == old(stats.freeCount)
                   && stats == old(stats).RecordMerge().(freeCount := stats.freeCount)
              else blocks == old(blocks) && stale == old(stale) && stats == old(stats)
    {
      hide Kept, Quiet, StaleApart, HeadersOk, FreeNodes, Live;
      var header := block - HEADER;
      ghost var j := PrevNode(blocks, heapStart, heapEnd, k);
      FreeSpaced(blocks, heapStart, heapEnd);
      var node := mem.nodes[block];
      assert node.prev == At(FreeNodes(blocks), Rank(blocks, k) - 1);
      if node.prev != 0 {
        var prevHeader := node.prev - HEADER;
        HeaderOf(mem, blocks, stale, j);
        if prevHeader + mem.HeaderAt(prevHeader).TotalSize() == header {
          Absorb(prevHeader, header, k - 1, m0);
        }
      }
    }

    /** Marks block `k` free in its header and links its node in; stale headers under the node are lost. */
    method MarkFree(header: int, ghost k: nat)
      requires Shape(mem, freeListHead, blocks, stale, heapStart, heapEnd)
      requires k < |blocks| && blocks[k].status.Allocated? && header == blocks[k].addr
      modifies this`mem, this`freeListHead, this`clock, this`blocks, this`stale
      ensures Shape(mem, freeListHead, blocks, stale, heapStart, heapEnd) && Quiet(blocks, old(mem), mem)
      ensures Kept(Live(blocks), old(mem), mem)
      ensures blocks == Marked(old(blocks), k) && stale == Surviving(old(stale), header + HEADER, NODE)
      ensures |FreeNodes(blocks)| == |FreeNodes(old(blocks))| + 1
    {
      hide Kept, Live, Quiet, Clear, Linked, ListFrame, StaleApart, HeadersOk, Spaced;
      ghost var bs, hs, m0 := blocks, mem.headers, mem;
      HeaderOf(mem, bs, stale, k);
      var h := mem.HeaderAt(header).(status := Free, timestamp := clock).UpdateChecksum();
      assert Describes(h, bs[k].(status := Free));
      MarkPlan(mem, freeListHead, bs, stale, heapStart, heapEnd, k, h);
      MarkedNodes(bs, k);
      QuietRefl(Marked(bs, k), mem);
      PutHeader(header, h, FreeNodes(bs), Marked(bs, k), m0);
      InsertIntoFreeList(header + HEADER, FreeNodes(bs), Rank(bs, k), Marked(bs, k), m0);
      MarkShape(mem, freeListHead, hs, bs, stale, heapStart, heapEnd, k, h);
      MarkKept(m0, mem, bs, heapStart, heapEnd, k, h);
      clock := clock + 1;
      blocks, stale := Marked(bs, k), Surviving(stale, header + HEADER, NODE);
    }

    /** The release of a live block, memory and ledger together. */
    method Release(header: int, ghost k: nat)
      requires Valid() && k < |blocks| && blocks[k].status.Allocated? && header == blocks[k].addr
      modifies this
      ensures Valid() && Abs() == ReleaseHeap(old(Abs()), k)
      ensures Undisturbed(old(blocks), blocks, old(mem), mem) && Kept(Live(blocks), old(mem), mem)
    {
      hide Ids, Kept, Live, Quiet, StaleApart, HeadersOk, Inv, Linked, Undisturbed, Tiles;
      ghost var s, bs := Abs(), blocks;
      ReleaseInv(s, k);
      LiveBlockCounted(s, k);
      FreeCountIsNodes(s);
      ReleaseIsMerges(bs, heapStart, heapEnd, k);
      HeaderOf(mem, bs, stale, k);
      var blockSize := mem.HeaderAt(header).size;
      stats := stats.RecordDealloc(blockSize);
      stats := stats.(freeSize := stats.freeSize + blockSize + HEADER, freeCount := stats.freeCount + 1);
      MarkFree(header, k);
      Coalesce(header + HEADER, k, old(mem));
      assert stale == ReleaseHeap(s, k).stale;
      assert stats == ReleaseHeap(s, k).stats;
      assert Abs() == ReleaseHeap(s, k);
      ReleaseLive(bs, heapStart, heapEnd, k);
      IdsKept(old(mem), mem, Live(bs), Live(blocks), nextAllocId);
      ReleaseQuiet(bs, heapStart, heapEnd, k, old(mem), mem);
    }

    /** `dealloc` of an arbitrary pointer refines the model's step and disturbs no other payload. */
    method Dealloc(ptr: int) returns (r: Result)
      requires Valid()
      modifies this
      ensures Valid() && (Abs(), r) == HeapModel.Dealloc(old(Abs()), ptr)
      ensures Undisturbed(old(blocks), blocks, old(mem), mem) && Kept(Live(blocks), old(mem), mem)
    {
      hide Ids, Shape, Ledger, Tiles, Coalesced, StaleApart;
      if frozen { return Err(AllocatorFrozen); }
      if ptr < heapStart || ptr > heapEnd { return Err(InvalidPointer); }
      var header := ptr - HEADER;
      ShapeHeaders(mem, freeListHead, blocks, stale, heapStart, heapEnd);
      ReadHeader(mem, Abs(), header);
      if !mem.HeaderAt(header).Validate() {
        RecordError(stats.RecordCorruption());
        return Err(CorruptedHeader);
      }
      if mem.HeaderAt(header).status.Free? {
        RecordError(stats.RecordDoubleFree());
        return Err(DoubleFree);
      }
      Release(header, IndexAt(blocks, header));
      return Ok;
    }

    /** A counter of failed calls moves; nothing else does. */
    method RecordError(st: AllocStats)
      requires Valid()
      requires st == stats.(failedAllocs := st.failedAllocs, doubleFrees := st.doubleFrees,
                            corrupted := st.corrupted)
      modifies this`stats
      ensures Valid() && Abs() == old(Abs()).(stats := st)
    {
      hide Ids, Shape, Tiles, Coalesced, StaleApart;
      stats := st;
    }

    /** `freeze`. */
    method Freeze()
      requires Valid()
      modifies this`frozen
      ensures Valid() && Abs() == old(Abs()).(frozen := true)
    {
      hide Ids, Shape, Tiles, Coalesced, StaleApart;
      frozen := true;
    }

    /** `set_purpose`: succeeds exactly on live blocks, and changes one header but neither layout nor payloads. */
    method SetPurpose(ptr: int, purpose: Purpose) returns (r: Result)
      requires Valid()
      modifies this`mem
      ensures Valid() && Abs() == old(Abs()) && Quiet(blocks, old(mem), mem)
      ensures r == if LiveHeaderAt(Abs(), ptr - HEADER) then Ok
                   else if FreeHeaderAt(Abs(), ptr - HEADER) then Err(InvalidPointer) else Err(CorruptedHeader)
      ensures mem.headers ==
              if r.Ok? then old(mem.headers)[ptr - HEADER := mem.HeaderAt(ptr - HEADER)] else old(mem.headers)
      ensures r.Ok? ==>
                var h := mem.HeaderAt(ptr - HEADER);
                h == old(mem.HeaderAt(ptr - HEADER)).(purpose := purpose, checksum := h.checksum) && h.Validate()
    {
      hide Ledger, Coalesced, StaleApart, HeadersOk, Quiet, Linked, ListFrame;
      var header := ptr - HEADER;
      QuietRefl(blocks, mem);
      ReadHeader(mem, Abs(), header);
      if !mem.HeaderAt(header).Validate() { return Err(CorruptedHeader); }
      if !mem.HeaderAt(header).status.Allocated? { return Err(InvalidPointer); }
      var h := mem.HeaderAt(header).(purpose := purpose).UpdateChecksum();
      ghost var k := IndexAt(blocks, header);
      HeaderOf(mem, blocks, stale, k);
      PurposePlan(mem, freeListHead, blocks, stale, heapStart, heapEnd, k, h);
      ghost var m0 := mem;
      PutHeader(header, h, FreeNodes(blocks), blocks, mem);
      assert Ids(mem, Live(blocks), nextAllocId) by { HeadNotStale(blocks, stale, k); }
      PurposeShape(mem, freeListHead, m0.headers, blocks, stale, heapStart, heapEnd, k, h);
      return Ok;
    }

    /** A client writes into its own payload: stale headers underneath are lost, nothing else changes. */
    method StoreBytes(at: int, data: seq<byte>)
      requires Valid() && InLivePayload(Abs(), at, |data|)
      modifies this`mem, this`stale
      ensures Valid() && Abs() == Store(old(Abs()), at, |data|)
      ensures mem == old(mem).WriteBytes(at, data)
    {
      hide Ledger, Coalesced;
      StoreShape(mem, mem.WriteBytes(at, data), freeListHead, blocks, stale, heapStart, heapEnd, at, |data|);
      ClientKept(mem, mem.WriteBytes(at, data), blocks, heapStart, heapEnd, at, |data|);
      IdsKept(mem, mem.WriteBytes(at, data), Live(blocks), Live(blocks), nextAllocId);
      StoreInv(Abs(), at, |data|);
      mem, stale := mem.WriteBytes(at, data), Surviving(stale, at, |data|);
    }

    /** A client copies `n` bytes from one live payload into another, stale headers included. */
    method CopyBytes(src: int, dst: int, n: nat)
      requires Valid() && InLivePayload(Abs(), src, n) && InLivePayload(Abs(), dst, n)
      modifies this`mem, this`stale
      ensures Valid() && Abs() == Copy(old(Abs()), src, dst, n)
      ensures mem == old(mem).CopyBytes(src, dst, n)
    {
      hide Ledger, Coalesced;
      CopyShape(mem, freeListHead, Abs(), src, dst, n);
      IdsKept(mem, mem.CopyBytes(src, dst, n), Live(blocks), Live(blocks), nextAllocId);
      CopyInv(Abs(), src, dst, n);
      mem, stale := mem.CopyBytes(src, dst, n), Copy(Abs(), src, dst, n).stale;
    }

    /** `integrity_check` accepts every state the allocator can be in. */
    method IntegrityCheck() returns (r: Result)
      requires Valid()
      ensures r == Ok
    {
      ShapeCovers(mem, blocks, heapStart, heapEnd);
      r := Walkers.IntegrityCheck(ContentsOf(mem), heapStart, heapEnd);
    }

    /** `alloc`: the natural alignment of a machine word. */
    method Alloc(size: nat) returns (r: Option<nat>)
      requires Valid()
      modifies this
      ensures Valid() && (Abs(), r) == HeapModel.Alloc(old(Abs()), size, 8)
      ensures Quiet(old(blocks), old(mem), mem) && Kept(Live(old(blocks)), old(mem), mem)
    {
      r := AllocAligned(size, 8);
    }

    /** `new`, for parameters it accepts. */
    constructor (start: nat, size: nat, bytes: map<int, byte>)
      requires start > 0 && size >= 2 * MIN_BLOCK
      ensures Valid() && Abs() == NewHeap(start, size)
    {
      heapStart, heapEnd := start, start + size;
      freeListHead := start + HEADER;
      stats := NewStats(size);
      frozen, nextAllocId, clock := false, 1, 1;
      mem := Mem(map[], map[], bytes).WriteHeader(start, NewHeader(size - HEADER, Free, 0))
             .WriteNode(start + HEADER, FreeBlock(0, 0));
      blocks, stale := [Block(start, size - HEADER, Free)], {};
      new;
      NewInv(start, size);
      NewShape(start, size, bytes);
    }

    /** `new`: refuses a null start and a heap too small for two blocks. */
    static method New(start: nat, size: nat, bytes: map<int, byte>) returns (r: Option<EarlyAllocator>)
      ensures r.None? <==> start == 0 || size < 2 * MIN_BLOCK
      ensures r.Some? ==> fresh(r.value) && r.value.Valid() && r.value.Abs() == NewHeap(start, size)
    {
      if start == 0 || size < 2 * MIN_BLOCK { return None; }
      var a := new EarlyAllocator(start, size, bytes);
      return Some(a);
    }
  }
}
