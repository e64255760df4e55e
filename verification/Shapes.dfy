/**
  How raw memory represents a layout: the headers of the walk, the stale headers, and the
  doubly linked list of free blocks; and what each group of writes does to that representation.
 */
module Shapes {
  import opened Layout
  import opened Metadata
  import opened HeapModel
  import opened Memory

  // ---------------------------------------------------------------- headers and blocks

  /** A header describes a block. */
  predicate Describes(h: BlockHeader, b: Block) {
    h.size == b.size && h.status == b.status && h.Validate()
  }

  /** Every block has its header, and the only other intact headers are stale ones, all valid and free. */
  ghost predicate HeadersOk(hs: map<int, BlockHeader>, bs: seq<Block>, stale: set<int>) {
    && (forall b | b in bs :: b.addr in hs && Describes(hs[b.addr], b))
    && (forall a | a in stale :: a in hs && hs[a].status.Free? && hs[a].Validate())
    && (forall a | a in hs :: a in stale || a in Addrs(bs))
  }

  /** The physical walk meets `bs`, and the linked list from `head` is the free part of `bs`. */
  ghost predicate Shape(m: Mem, head: int, bs: seq<Block>, stale: set<int>, lo: nat, hi: nat) {
    && 0 < lo && Tiles(bs, lo, hi) && StaleApart(bs, stale)
    && HeadersOk(m.headers, bs, stale)
    && Linked(m, head, FreeNodes(bs))
  }

  lemma ShapeFrame(m: Mem, head: int, bs: seq<Block>, stale: set<int>, lo: nat, hi: nat)
    requires Shape(m, head, bs, stale, lo, hi)
    ensures ListFrame(m, FreeNodes(bs), bs)
  {
    FreeSpaced(bs, lo, hi);
    FreeClear(bs, lo, hi);
    HeadersOff(m.headers, bs, stale, lo, hi);
  }

  /** Reading the header of a block of the walk. */
  lemma HeaderOf(m: Mem, bs: seq<Block>, stale: set<int>, k: nat)
    requires HeadersOk(m.headers, bs, stale) && k < |bs|
    ensures Describes(m.HeaderAt(bs[k].addr), bs[k])
  {
    assert bs[k] in bs;
  }

  lemma FreeSpaced(bs: seq<Block>, lo: nat, hi: nat)
    requires 0 < lo && Tiles(bs, lo, hi)
    ensures Spaced(FreeNodes(bs))
  {
    FreeNodesFacts(bs, lo, hi);
    forall i | 0 <= i < |FreeNodes(bs)| ensures FreeNodes(bs)[i] > 0 {
      assert FreeNodes(bs)[i] in FreeNodes(bs);
    }
  }

  lemma {:induction false} FreeClear(bs: seq<Block>, lo: nat, hi: nat)
    requires Tiles(bs, lo, hi)
    ensures NodesClear(bs, FreeNodes(bs))
  {
    FreeNodesFacts(bs, lo, hi);
    Disjoint(bs, lo, hi);
    forall i | 0 <= i < |FreeNodes(bs)| ensures Clear(bs, FreeNodes(bs)[i], NODE) {
      var n := FreeNodes(bs)[i];
      assert n in FreeNodes(bs);
      var f :| f in bs && f.status.Free? && f.Payload() == n;
    }
  }

  lemma {:induction false} HeadersOff(hs: map<int, BlockHeader>, bs: seq<Block>, stale: set<int>, lo: nat, hi: nat)
    requires Tiles(bs, lo, hi) && StaleApart(bs, stale) && HeadersOk(hs, bs, stale)
    ensures forall a, i | a in hs && 0 <= i < |FreeNodes(bs)| ::
              a + HEADER <= FreeNodes(bs)[i] || FreeNodes(bs)[i] + NODE <= a
  {
    FreeNodesFacts(bs, lo, hi);
    Disjoint(bs, lo, hi);
    var free := FreeNodes(bs);
    forall a, i | a in hs && 0 <= i < |free| ensures a + HEADER <= free[i] || free[i] + NODE <= a {
      assert free[i] in free;
      var f :| f in bs && f.status.Free? && f.Payload() == free[i];
      if a in stale { assert Apart(a, f); } else { var b :| b in bs && b.addr == a; }
    }
  }

  /** Rewriting the header of a block of the walk destroys no other header. */
  lemma {:induction false} OwnHeader(hs: map<int, BlockHeader>, bs: seq<Block>, stale: set<int>, lo: nat,
      hi: nat, k: nat, h: BlockHeader)
    requires Tiles(bs, lo, hi) && StaleApart(bs, stale) && HeadersOk(hs, bs, stale) && k < |bs|
    ensures Intact(hs, HEADER, bs[k].addr, HEADER)[bs[k].addr := h] == hs[bs[k].addr := h]
  {
    Disjoint(bs, lo, hi);
    var a := bs[k].addr;
    assert bs[k] in bs;
    forall x | x in hs && x != a ensures x + HEADER <= a || a + HEADER <= x {
      if x in stale { assert Apart(x, bs[k]); } else { var b :| b in bs && b.addr == x; }
    }
  }

  /** One block of the walk changes status in place. */
  lemma {:induction false} Restatus(hs: map<int, BlockHeader>, bs: seq<Block>, stale: set<int>, lo: nat,
      hi: nat, k: nat, b: Block, h: BlockHeader)
    requires Tiles(bs, lo, hi) && HeadersOk(hs, bs, stale) && k < |bs| && bs[k].addr !in stale
    requires b.addr == bs[k].addr && Describes(h, b)
    ensures HeadersOk(hs[b.addr := h], bs[k := b], stale)
  {
    Disjoint(bs, lo, hi);
    assert bs[k] in bs;
    var cs := bs[k := b];
    assert cs[k] == b;
    forall c | c in cs ensures c.addr in hs[b.addr := h] && Describes(hs[b.addr := h][c.addr], c) {
      var i :| 0 <= i < |cs| && cs[i] == c;
      if i != k {
        assert bs[i] in bs;
        if i < k { Ordered(bs, lo, hi, i, k); } else { Ordered(bs, lo, hi, k, i); }
      }
    }
    forall a | a in Addrs(bs) ensures a in Addrs(cs) {
      var i :| 0 <= i < |bs| && bs[i].addr == a;
      assert cs[i] in cs && cs[i].addr == a;
    }
  }

  lemma HeadNotStale(bs: seq<Block>, stale: set<int>, k: nat)
    requires StaleApart(bs, stale) && k < |bs|
    ensures bs[k].addr !in stale
  {
    assert bs[k] in bs;
    assert !Apart(bs[k].addr, bs[k]);
  }

  /** Position `k` separates the smaller from the larger nodes. */
  lemma InsertPlace(free: seq<int>, k: nat, node: int)
    requires k <= |free| && Spaced(With(free, k, node))
    ensures forall i | 0 <= i < |free| :: free[i] > 0 && (if i < k then free[i] < node else node < free[i])
    ensures node > 0
  {
    var all := With(free, k, node);
    assert all[k] == node;
    forall i | 0 <= i < |free| ensures free[i] > 0 && (if i < k then free[i] < node else node < free[i]) {
      if i < k { assert all[i] == free[i]; } else { assert all[i + 1] == free[i]; }
    }
  }

  // ---------------------------------------------------------------- finding a block

  /** No free block before position `i` of the list can take the request. */
  ghost predicate NoneBefore(bs: seq<Block>, i: nat, size: nat, align: nat)
    requires align > 0
  {
    forall b | b in bs && Fits(b, size, align) :: i < |FreeNodes(bs)| && FreeNodes(bs)[i] <= b.Payload()
  }

  /** Node `i` of the list belongs to a unique free block. */
  lemma NodeBlock(bs: seq<Block>, lo: nat, hi: nat, i: nat) returns (k: nat)
    requires Tiles(bs, lo, hi) && i < |FreeNodes(bs)|
    ensures k < |bs| && bs[k].status.Free? && bs[k].Payload() == FreeNodes(bs)[i]
  {
    FreeNodesFacts(bs, lo, hi);
    assert FreeNodes(bs)[i] in FreeNodes(bs);
    var b :| b in bs && b.status.Free? && b.Payload() == FreeNodes(bs)[i];
    k :| 0 <= k < |bs| && bs[k] == b;
  }

  lemma StartNone(bs: seq<Block>, lo: nat, hi: nat, size: nat, align: nat)
    requires Tiles(bs, lo, hi) && align > 0
    ensures NoneBefore(bs, 0, size, align)
  {
    FreeNodesFacts(bs, lo, hi);
    forall b | b in bs && Fits(b, size, align) ensures 0 < |FreeNodes(bs)| && FreeNodes(bs)[0] <= b.Payload() {
      var j :| 0 <= j < |FreeNodes(bs)| && FreeNodes(bs)[j] == b.Payload();
    }
  }

  lemma SkipOne(bs: seq<Block>, lo: nat, hi: nat, i: nat, k: nat, size: nat, align: nat)
    requires Tiles(bs, lo, hi) && align > 0 && i < |FreeNodes(bs)| && NoneBefore(bs, i, size, align)
    requires k < |bs| && bs[k].Payload() == FreeNodes(bs)[i] && !Fits(bs[k], size, align)
    ensures NoneBefore(bs, i + 1, size, align)
  {
    FreeNodesFacts(bs, lo, hi);
    Disjoint(bs, lo, hi);
    assert bs[k] in bs;
    var free := FreeNodes(bs);
    forall b | b in bs && Fits(b, size, align) ensures i + 1 < |free| && free[i + 1] <= b.Payload() {
      var j :| 0 <= j < |free| && free[j] == b.Payload();
      assert j != i;
    }
  }

  lemma FoundFirst(bs: seq<Block>, lo: nat, hi: nat, i: nat, k: nat, size: nat, align: nat)
    requires Tiles(bs, lo, hi) && align > 0 && i < |FreeNodes(bs)| && NoneBefore(bs, i, size, align)
    requires k < |bs| && bs[k].Payload() == FreeNodes(bs)[i] && Fits(bs[k], size, align)
    ensures FirstFit(bs, size, align) == k
  {
    var f := FirstFit(bs, size, align);
    if f < k {
      assert bs[f] in bs;
      Ordered(bs, lo, hi, f, k);
    }
  }

  lemma NoneFits(bs: seq<Block>, size: nat, align: nat)
    requires align > 0 && NoneBefore(bs, |FreeNodes(bs)|, size, align)
    ensures FirstFit(bs, size, align) == |bs|
  {
    var f := FirstFit(bs, size, align);
    assert forall i | 0 <= i < |bs| :: bs[i] in bs;
  }

  // ---------------------------------------------------------------- carving

  /** Position of block `k`'s node in the list of free nodes. */
  function Rank(bs: seq<Block>, k: nat): nat
    requires k <= |bs|
  {
    |FreeNodes(bs[..k])|
  }

  lemma {:induction false} RankNode(bs: seq<Block>, k: nat)
    requires k < |bs|
    ensures FreeNodes(bs) == FreeNodes(bs[..k]) + FreeNodes([bs[k]]) + FreeNodes(bs[k + 1..])
    ensures FreeNodes([bs[k]]) == if bs[k].status.Free? then [bs[k].Payload()] else []
  {
    FreeNodesParts(bs, bs[..k], [bs[k]], bs[k + 1..]);
    FreeNodesSingle(bs[k]);
  }

  /** The list without block `k`'s node. */
  function Rest(bs: seq<Block>, k: nat): seq<int>
    requires k < |bs|
  {
    FreeNodes(bs[..k]) + FreeNodes(bs[k + 1..])
  }

  /** The other free nodes lie outside block `k`. */
  lemma RestOff(bs: seq<Block>, lo: nat, hi: nat, k: nat)
    requires Tiles(bs, lo, hi) && k < |bs|
    ensures forall i | 0 <= i < |Rest(bs, k)| ::
              Rest(bs, k)[i] + NODE <= bs[k].addr || bs[k].End() + HEADER <= Rest(bs, k)[i]
  {
    var pre, post := bs[..k], bs[k + 1..];
    assert bs == pre + [bs[k]] + post;
    Around(pre, [bs[k]], post, lo, hi);
    FreeNodesFacts(pre, lo, Edge(pre, lo));
    FreeNodesFacts(post, bs[k].End(), hi);
    forall i | 0 <= i < |Rest(bs, k)|
      ensures Rest(bs, k)[i] + NODE <= bs[k].addr || bs[k].End() + HEADER <= Rest(bs, k)[i]
    {
      assert Rest(bs, k)[i] in FreeNodes(pre) || Rest(bs, k)[i] in FreeNodes(post);
    }
  }

  lemma {:induction false} RestIsWithout(bs: seq<Block>, k: nat)
    requires k < |bs|
    ensures bs[k].status.Free? ==> Rank(bs, k) < |FreeNodes(bs)| && Rest(bs, k) == Without(FreeNodes(bs), Rank(bs, k))
    ensures bs[k].status.Free? ==> FreeNodes(bs)[Rank(bs, k)] == bs[k].Payload()
    ensures bs[k].status.Allocated? ==> Rest(bs, k) == FreeNodes(bs)
  {
    RankNode(bs, k);
  }

  lemma FrameWithout(m: Mem, free: seq<int>, r: nat, bs: seq<Block>)
    requires ListFrame(m, free, bs) && r < |free|
    ensures ListFrame(m, Without(free, r), bs)
  {
    var rest := Without(free, r);
    forall i | 0 <= i < |rest| ensures rest[i] == free[if i < r then i else i + 1] {}
  }

  lemma BlockClear(bs: seq<Block>, lo: nat, hi: nat, k: nat, a: int, n: nat)
    requires Tiles(bs, lo, hi) && k < |bs| && bs[k].addr <= a && a + n <= bs[k].End()
    requires bs[k].status.Free? || a + n <= bs[k].Payload()
    ensures Clear(bs, a, n)
  {
    Disjoint(bs, lo, hi);
    assert bs[k] in bs;
  }

  /** The headers after a split: own header rewritten, new header, new node. */
  function SplitHeaders(hs: map<int, BlockHeader>, a: int, h: BlockHeader, n: int,
      h': BlockHeader): map<int, BlockHeader> {
    Intact(Intact(hs[a := h], HEADER, n, HEADER)[n := h'], HEADER, n + HEADER, NODE)
  }

  lemma SplitHeadersOk(hs: map<int, BlockHeader>, bs: seq<Block>, stale: set<int>, lo: nat,
      hi: nat, k: nat, req: nat, h: BlockHeader, h': BlockHeader)
    requires Tiles(bs, lo, hi) && StaleApart(bs, stale) && HeadersOk(hs, bs, stale)
    requires k < |bs| && bs[k].status.Free? && MIN_BLOCK <= req && req + MIN_BLOCK <= bs[k].size
    requires Describes(h, Carve(bs[k], req)[0]) && Describes(h', Carve(bs[k], req)[1])
    ensures HeadersOk(SplitHeaders(hs, bs[k].addr, h, bs[k].addr + req, h'),
                      CarveAt(bs, k, req), Surviving(stale, bs[k].addr + req, MIN_BLOCK))
  {
    hide SplitHeaders;
    var a, n, cs := bs[k].addr, bs[k].addr + req, CarveAt(bs, k, req);
    HeadNotStale(bs, stale, k);
    forall c | c in cs
      ensures c.addr in SplitHeaders(hs, a, h, n, h') && Describes(SplitHeaders(hs, a, h, n, h')[c.addr], c)
    {
      SplitBlock(hs, bs, lo, hi, k, req, h, h', c);
    }
    forall x | x in SplitHeaders(hs, a, h, n, h') ensures x in Surviving(stale, n, MIN_BLOCK) || x in Addrs(cs) {
      assert bs[k] in bs;
      SplitKey(hs, bs, stale, a, h, n, h', x);
      CarveAddr(bs, k, req, x);
    }
    SplitStale(hs, stale, a, h, n, h');
  }

  lemma SplitStale(hs: map<int, BlockHeader>, stale: set<int>, a: int, h: BlockHeader,
      n: int, h': BlockHeader)
    requires a !in stale && forall x | x in stale :: x in hs
    ensures forall x | x in Surviving(stale, n, MIN_BLOCK) ::
              x in SplitHeaders(hs, a, h, n, h') && SplitHeaders(hs, a, h, n, h')[x] == hs[x]
  {
  }

  lemma {:induction false} SplitBlock(hs: map<int, BlockHeader>, bs: seq<Block>, lo: nat, hi: nat, k: nat, req: nat,
                   h: BlockHeader, h': BlockHeader, c: Block)
    requires Tiles(bs, lo, hi) && forall b | b in bs :: b.addr in hs && Describes(hs[b.addr], b)
    requires k < |bs| && bs[k].status.Free? && MIN_BLOCK <= req && req + MIN_BLOCK <= bs[k].size
    requires Describes(h, Carve(bs[k], req)[0]) && Describes(h', Carve(bs[k], req)[1])
    requires c in CarveAt(bs, k, req)
    ensures var hs' := SplitHeaders(hs, bs[k].addr, h, bs[k].addr + req, h');
            c.addr in hs' && Describes(hs'[c.addr], c)
  {
    if c !in Carve(bs[k], req) {
      OtherBlock(bs, lo, hi, k, req, c);
      Disjoint(bs, lo, hi);
    }
  }

  lemma SplitKey(hs: map<int, BlockHeader>, bs: seq<Block>, stale: set<int>, a: int,
      h: BlockHeader, n: int, h': BlockHeader, x: int)
    requires HeadersOk(hs, bs, stale) && a in Addrs(bs) && x in SplitHeaders(hs, a, h, n, h')
    ensures x == n || x in Addrs(bs) || x in Surviving(stale, n, MIN_BLOCK)
  {
  }

  lemma OtherBlock(bs: seq<Block>, lo: nat, hi: nat, k: nat, req: nat, c: Block)
    requires Tiles(bs, lo, hi) && k < |bs| && MIN_BLOCK <= req <= bs[k].size
    requires c in CarveAt(bs, k, req) && c !in Carve(bs[k], req)
    ensures c in bs && (c.End() <= bs[k].addr || bs[k].End() <= c.addr)
  {
    if c in bs[..k] {
      var i :| 0 <= i < k && bs[i] == c;
      Ordered(bs, lo, hi, i, k);
    } else {
      var i :| k < i < |bs| && bs[i] == c;
      Ordered(bs, lo, hi, k, i);
    }
  }

  lemma CarveAddr(bs: seq<Block>, k: nat, req: nat, x: int)
    requires k < |bs| && MIN_BLOCK <= req <= bs[k].size
    ensures x in Addrs(bs) ==> x in Addrs(CarveAt(bs, k, req))
    ensures bs[k].size >= req + MIN_BLOCK && x == bs[k].addr + req ==> x in Addrs(CarveAt(bs, k, req))
  {
    var cs, mid := CarveAt(bs, k, req), Carve(bs[k], req);
    assert |mid| == 2 ==> cs[k + 1] == mid[1];
    assert cs[k] == mid[0];
    if x in Addrs(bs) {
      var i :| 0 <= i < |bs| && bs[i].addr == x;
      if i < k { assert cs[i] == bs[i]; } else if i > k { assert cs[i + |mid| - 1] == bs[i]; }
    }
  }

  /** The free list after a carve: the block's node is gone, or replaced by that of the remainder. */
  lemma CarveNodes(bs: seq<Block>, lo: nat, hi: nat, k: nat, req: nat)
    requires 0 < lo && Tiles(bs, lo, hi) && k < |bs| && bs[k].status.Free? && MIN_BLOCK <= req <= bs[k].size
    ensures Tiles(CarveAt(bs, k, req), lo, hi)
    ensures var cs := CarveAt(bs, k, req);
            if |Carve(bs[k], req)| == 2
            then FreeNodes(cs) == With(Rest(bs, k), Rank(bs, k), bs[k].addr + req + HEADER) && Spaced(FreeNodes(cs))
            else FreeNodes(cs) == Rest(bs, k)
  {
    CarveReplaces(bs, lo, hi, k, req);
    FreeSpaced(CarveAt(bs, k, req), lo, hi);
    CarvedNodes(bs[k], req);
  }

  lemma CarvedNodes(b: Block, req: nat)
    requires MIN_BLOCK <= req <= b.size
    ensures FreeNodes(Carve(b, req)) == if |Carve(b, req)| == 2 then [b.addr + req + HEADER] else []
  {
    var mid := Carve(b, req);
    FreeNodesSingle(mid[0]);
    if |mid| == 2 {
      FreeNodesSingle(mid[1]);
      FreeNodesConcat([mid[0]], [mid[1]]);
    }
  }

  /** Whole-block allocation only changes one header. */
  lemma WholeHeadersOk(hs: map<int, BlockHeader>, bs: seq<Block>, stale: set<int>, lo: nat,
      hi: nat, k: nat, req: nat, h: BlockHeader)
    requires Tiles(bs, lo, hi) && StaleApart(bs, stale) && HeadersOk(hs, bs, stale)
    requires k < |bs| && bs[k].status.Free? && MIN_BLOCK <= req <= bs[k].size < req + MIN_BLOCK
    requires Describes(h, Carve(bs[k], req)[0])
    ensures HeadersOk(hs[bs[k].addr := h], CarveAt(bs, k, req), stale)
  {
    HeadNotStale(bs, stale, k);
    Restatus(hs, bs, stale, lo, hi, k, Carve(bs[k], req)[0], h);
    assert CarveAt(bs, k, req) == bs[k := Carve(bs[k], req)[0]];
  }

  /** Everything a split needs to know before it writes. */
  lemma {:induction false} SplitPlan(hs: map<int, BlockHeader>, bs: seq<Block>, stale: set<int>, lo: nat,
      hi: nat, k: nat, req: nat, h: BlockHeader)
    requires 0 < lo && Tiles(bs, lo, hi) && StaleApart(bs, stale) && HeadersOk(hs, bs, stale)
    requires k < |bs| && bs[k].status.Free? && MIN_BLOCK <= req && req + MIN_BLOCK <= bs[k].size
    ensures var a, n, rest := bs[k].addr, bs[k].addr + req, Rest(bs, k);
            && Clear(bs, a, HEADER) && Clear(bs, n, HEADER) && Clear(bs, n + HEADER, NODE)
            && (forall i | 0 <= i < |rest| :: a + HEADER <= rest[i] || rest[i] + NODE <= a)
            && (forall i | 0 <= i < |rest| :: n + HEADER <= rest[i] || rest[i] + NODE <= n)
            && Intact(hs, HEADER, a, HEADER)[a := h] == hs[a := h]
            && Rank(bs, k) <= |Rest(bs, k)| && Spaced(With(Rest(bs, k), Rank(bs, k), n + HEADER))
  {
    var a := bs[k].addr;
    RestOff(bs, lo, hi, k);
    CarveNodes(bs, lo, hi, k, req);
    OwnHeader(hs, bs, stale, lo, hi, k, h);
    BlockClear(bs, lo, hi, k, a, HEADER);
    BlockClear(bs, lo, hi, k, a + req, HEADER);
    BlockClear(bs, lo, hi, k, a + req + HEADER, NODE);
  }

  /** What the writes of a split amount to. */
  lemma SplitShape(m: Mem, head: int, hs: map<int, BlockHeader>, bs: seq<Block>,
      stale: set<int>, lo: nat, hi: nat, k: nat, req: nat, h: BlockHeader, h': BlockHeader)
    requires 0 < lo && Tiles(bs, lo, hi) && StaleApart(bs, stale) && HeadersOk(hs, bs, stale)
    requires k < |bs| && bs[k].status.Free? && MIN_BLOCK <= req && req + MIN_BLOCK <= bs[k].size
    requires Describes(h, Carve(bs[k], req)[0]) && Describes(h', Carve(bs[k], req)[1])
    requires m.headers == SplitHeaders(hs, bs[k].addr, h, bs[k].addr + req, h')
    requires Linked(m, head, With(Rest(bs, k), Rank(bs, k), bs[k].addr + req + HEADER))
    ensures Shape(m, head, CarveAt(bs, k, req), Surviving(stale, bs[k].addr + req, MIN_BLOCK), lo, hi)
  {
    CarveNodes(bs, lo, hi, k, req);
    CarveApart(bs, stale, k, req);
    SplitHeadersOk(hs, bs, stale, lo, hi, k, req, h, h');
  }

  // ---------------------------------------------------------------- reading a header

  /** What an arbitrary header read tells: live, free (stale or not), or nothing intact. */
  lemma ReadHeader(m: Mem, s: Heap, a: int)
    requires Inv(s) && HeadersOk(m.headers, s.blocks, s.stale)
    ensures m.HeaderAt(a).Validate() <==> LiveHeaderAt(s, a) || FreeHeaderAt(s, a)
    ensures m.HeaderAt(a).Validate() ==> (m.HeaderAt(a).status.Free? <==> FreeHeaderAt(s, a))
    ensures LiveHeaderAt(s, a) ==> !FreeHeaderAt(s, a)
  {
    var k := IndexAt(s.blocks, a);
    if k < |s.blocks| {
      HeaderOf(m, s.blocks, s.stale, k);
      HeadNotStale(s.blocks, s.stale, k);
      assert s.blocks[k] in s.blocks;
    } else {
      assert a !in Addrs(s.blocks) by {
        forall b | b in s.blocks ensures b.addr != a { var i :| 0 <= i < |s.blocks| && s.blocks[i] == b; }
      }
    }
  }

  // ---------------------------------------------------------------- marking a block free

  function Marked(bs: seq<Block>, k: nat): seq<Block>
    requires k < |bs|
  {
    bs[k := bs[k].(status := Free)]
  }

  lemma {:induction false} MarkedTiles(bs: seq<Block>, lo: nat, hi: nat, k: nat)
    requires Tiles(bs, lo, hi) && k < |bs|
    ensures Tiles(Marked(bs, k), lo, hi)
  {
    if k == 0 {
      assert Marked(bs, k)[1..] == bs[1..];
    } else {
      MarkedTiles(bs[1..], bs[0].End(), hi, k - 1);
      assert Marked(bs, k)[1..] == Marked(bs[1..], k - 1);
    }
  }

  lemma MarkedNodes(bs: seq<Block>, k: nat)
    requires k < |bs| && bs[k].status.Allocated?
    ensures Rank(bs, k) <= |FreeNodes(bs)|
    ensures FreeNodes(Marked(bs, k)) == With(FreeNodes(bs), Rank(bs, k), bs[k].Payload())
  {
    hide FreeNodes;
    var cs := Marked(bs, k);
    RestIsWithout(bs, k);
    RankNode(cs, k);
    assert cs[..k] == bs[..k] && cs[k + 1..] == bs[k + 1..];
  }

  lemma {:induction false} MarkedHeadersOk(hs: map<int, BlockHeader>, bs: seq<Block>, stale: set<int>,
      lo: nat, hi: nat, k: nat, h: BlockHeader)
    requires Tiles(bs, lo, hi) && StaleApart(bs, stale) && HeadersOk(hs, bs, stale) && k < |bs|
    requires Describes(h, bs[k].(status := Free))
    ensures HeadersOk(Intact(hs[bs[k].addr := h], HEADER, bs[k].Payload(), NODE),
                      Marked(bs, k), Surviving(stale, bs[k].Payload(), NODE))
  {
    var a, n, cs := bs[k].addr, bs[k].Payload(), Marked(bs, k);
    HeadNotStale(bs, stale, k);
    Restatus(hs, bs, stale, lo, hi, k, bs[k].(status := Free), h);
    MarkedTiles(bs, lo, hi, k);
    HeadsOffPayload(cs, lo, hi, k);
  }

  /** No header of the walk overlaps the first bytes of a payload. */
  lemma HeadsOffPayload(bs: seq<Block>, lo: nat, hi: nat, k: nat)
    requires Tiles(bs, lo, hi) && k < |bs|
    ensures forall b | b in bs :: b.addr + HEADER <= bs[k].Payload() || bs[k].Payload() + NODE <= b.addr
  {
    Disjoint(bs, lo, hi);
    assert bs[k] in bs;
  }

  lemma MarkedApart(bs: seq<Block>, stale: set<int>, k: nat)
    requires StaleApart(bs, stale) && k < |bs|
    ensures StaleApart(Marked(bs, k), Surviving(stale, bs[k].Payload(), NODE))
  {
    forall a, b | a in Surviving(stale, bs[k].Payload(), NODE) && b in Marked(bs, k) ensures Apart(a, b) {
      var i :| 0 <= i < |bs| && Marked(bs, k)[i] == b;
      assert bs[i] in bs;
      assert Apart(a, bs[i]);
    }
  }

  lemma MarkedFrame(m: Mem, bs: seq<Block>, free: seq<int>, k: nat)
    requires ListFrame(m, free, bs) && k < |bs|
    ensures ListFrame(m, free, Marked(bs, k))
  {
    forall i | 0 <= i < |free| ensures Clear(Marked(bs, k), free[i], NODE) {
      assert Clear(bs, free[i], NODE);
      forall b | b in Marked(bs, k) && b.status.Allocated? ensures Off(b, free[i], NODE) {
        var j :| 0 <= j < |bs| && Marked(bs, k)[j] == b;
        assert bs[j] in bs && bs[j] == b;
      }
    }
  }

  /** Everything marking needs to know before it writes. */
  lemma MarkPlan(m: Mem, head: int, bs: seq<Block>, stale: set<int>, lo: nat, hi: nat,
      k: nat, h: BlockHeader)
    requires Shape(m, head, bs, stale, lo, hi) && k < |bs| && bs[k].status.Allocated?
    ensures var a, free, cs := bs[k].addr, FreeNodes(bs), Marked(bs, k);
            && ListFrame(m, free, cs) && Clear(cs, a, HEADER) && Clear(cs, a + HEADER, NODE)
            && (forall i | 0 <= i < |free| :: a + HEADER <= free[i] || free[i] + NODE <= a)
            && Intact(m.headers, HEADER, a, HEADER)[a := h] == m.headers[a := h]
            && Rank(bs, k) <= |free| && Spaced(With(free, Rank(bs, k), a + HEADER))
  {
    hide Linked, HeadersOk, StaleApart;
    ShapeFrame(m, head, bs, stale, lo, hi);
    MarkedFrame(m, bs, FreeNodes(bs), k);
    MarkedTiles(bs, lo, hi, k);
    MarkedNodes(bs, k);
    FreeSpaced(Marked(bs, k), lo, hi);
    BlockClear(Marked(bs, k), lo, hi, k, bs[k].addr, HEADER);
    Bounds(bs, lo, hi, k);
    BlockClear(Marked(bs, k), lo, hi, k, bs[k].Payload(), NODE);
    RestOff(bs, lo, hi, k);
    RestIsWithout(bs, k);
    OwnHeader(m.headers, bs, stale, lo, hi, k, h);
  }

  lemma MarkShape(m: Mem, head: int, hs: map<int, BlockHeader>, bs: seq<Block>,
      stale: set<int>, lo: nat, hi: nat, k: nat, h: BlockHeader)
    requires 0 < lo && Tiles(bs, lo, hi) && StaleApart(bs, stale) && HeadersOk(hs, bs, stale)
    requires k < |bs| && bs[k].status.Allocated? && Describes(h, bs[k].(status := Free))
    requires m.headers == Intact(hs[bs[k].addr := h], HEADER, bs[k].Payload(), NODE)
    requires Rank(bs, k) <= |FreeNodes(bs)| && Linked(m, head, With(FreeNodes(bs), Rank(bs, k), bs[k].Payload()))
    ensures Shape(m, head, Marked(bs, k), Surviving(stale, bs[k].Payload(), NODE), lo, hi)
  {
    MarkedTiles(bs, lo, hi, k);
    MarkedNodes(bs, k);
    MarkedApart(bs, stale, k);
    MarkedHeadersOk(hs, bs, stale, lo, hi, k, h);
  }

  // ---------------------------------------------------------------- merging two free neighbours

  function Pair(bs: seq<Block>, k: nat): Block
    requires k + 1 < |bs|
  {
    Block(bs[k].addr, bs[k].size + HEADER + bs[k + 1].size, Free)
  }

  function MergeAt(bs: seq<Block>, k: nat): seq<Block>
    requires k + 1 < |bs|
  {
    bs[..k] + [Pair(bs, k)] + bs[k + 2..]
  }

  lemma MergeLive(bs: seq<Block>, k: nat)
    requires k + 1 < |bs| && bs[k].status.Free? && bs[k + 1].status.Free?
    ensures Live(MergeAt(bs, k)) == Live(bs)
  {
    var cs := MergeAt(bs, k);
    forall b | b in Live(bs) ensures b in cs {
      var i :| 0 <= i < |bs| && bs[i] == b;
      if i < k { assert cs[i] == b; } else { assert cs[i - 1] == b; }
    }
    forall b | b in Live(cs) ensures b in bs {
      assert b in bs[..k] || b in bs[k + 2..];
    }
  }

  lemma {:induction false} MergedPairTiles(bs: seq<Block>, lo: nat, hi: nat, k: nat)
    requires Tiles(bs, lo, hi) && k + 1 < |bs|
    ensures Tiles(MergeAt(bs, k), lo, hi)
  {
    if k == 0 {
      assert bs[1..][1..] == bs[2..] == MergeAt(bs, k)[1..];
    } else {
      MergedPairTiles(bs[1..], bs[0].End(), hi, k - 1);
      assert MergeAt(bs, k)[1..] == MergeAt(bs[1..], k - 1);
    }
  }

  lemma PairTiles(bs: seq<Block>, lo: nat, hi: nat, k: nat)
    requires Tiles(bs, lo, hi) && k + 1 < |bs| && bs[k].status.Free? && bs[k + 1].status.Free?
    ensures Tiles(MergeAt(bs, k), lo, hi)
    ensures Rank(bs, k) + 1 < |FreeNodes(bs)|
    ensures FreeNodes(MergeAt(bs, k)) == Without(FreeNodes(bs), Rank(bs, k) + 1)
    ensures FreeNodes(bs)[Rank(bs, k)] == bs[k].Payload() && FreeNodes(bs)[Rank(bs, k) + 1] == bs[k + 1].Payload()
  {
    hide Tiles, FreeNodes;
    MergedPairTiles(bs, lo, hi, k);
    var pre, x, y, post := bs[..k], bs[k], bs[k + 1], bs[k + 2..];
    assert bs == pre + [x, y] + post && [x, y] == [x] + [y];
    FreeNodesThree(pre, [x, y], post);
    FreeNodesConcat([x], [y]);
    FreeNodesThree(pre, [Pair(bs, k)], post);
    FreeNodesSingle(x);
    FreeNodesSingle(y);
    FreeNodesSingle(Pair(bs, k));
  }

  /** After the merge the second header is stale, and still apart from the walk. */
  lemma PairApart(bs: seq<Block>, stale: set<int>, lo: nat, hi: nat, k: nat)
    requires Tiles(bs, lo, hi) && StaleApart(bs, stale)
    requires k + 1 < |bs| && bs[k].status.Free? && bs[k + 1].status.Free?
    ensures StaleApart(MergeAt(bs, k), stale + {bs[k + 1].addr})
  {
    forall a, b | a in stale + {bs[k + 1].addr} && b in MergeAt(bs, k) ensures Apart(a, b) {
      if b == Pair(bs, k) {
        Bounds(bs, lo, hi, k);
        Ordered(bs, lo, hi, k, k + 1);
        assert bs[k] in bs;
        assert a in stale ==> Apart(a, bs[k]);
      } else {
        OtherThanPair(bs, lo, hi, k, b);
        assert a in stale ==> Apart(a, b);
      }
    }
  }

  lemma OtherThanPair(bs: seq<Block>, lo: nat, hi: nat, k: nat, b: Block)
    requires Tiles(bs, lo, hi) && k + 1 < |bs| && b in MergeAt(bs, k) && b != Pair(bs, k)
    ensures b in bs && b.size >= NODE && (b.End() <= bs[k].addr || bs[k + 1].End() <= b.addr)
    ensures bs[k].addr + MIN_BLOCK <= bs[k + 1].addr < bs[k + 1].End()
  {
    Bounds(bs, lo, hi, k);
    Ordered(bs, lo, hi, k, k + 1);
    if b in bs[..k] {
      var i :| 0 <= i < k && bs[i] == b;
      Ordered(bs, lo, hi, i, k);
      Bounds(bs, lo, hi, i);
    } else {
      assert b in bs[k + 2..];
      var i :| k + 2 <= i < |bs| && bs[i] == b;
      Ordered(bs, lo, hi, k + 1, i);
      Bounds(bs, lo, hi, i);
    }
  }

  lemma PairHeadersOk(hs: map<int, BlockHeader>, bs: seq<Block>, stale: set<int>, lo: nat,
      hi: nat, k: nat, h: BlockHeader)
    requires Tiles(bs, lo, hi) && StaleApart(bs, stale) && HeadersOk(hs, bs, stale)
    requires k + 1 < |bs| && bs[k].status.Free? && bs[k + 1].status.Free? && Describes(h, Pair(bs, k))
    ensures HeadersOk(hs[bs[k].addr := h], MergeAt(bs, k), stale + {bs[k + 1].addr})
  {
    hide StaleApart, Tiles;
    var hs', cs, stale' := hs[bs[k].addr := h], MergeAt(bs, k), stale + {bs[k + 1].addr};
    HeadNotStale(bs, stale, k);
    HeadNotStale(bs, stale, k + 1);
    assert bs[k + 1] in bs;
    Ordered(bs, lo, hi, k, k + 1);
    forall b | b in cs ensures b.addr in hs' && Describes(hs'[b.addr], b) {
      if b != Pair(bs, k) { OtherThanPair(bs, lo, hi, k, b); }
    }
    forall a | a in hs' ensures a in stale' || a in Addrs(cs) {
      if a == bs[k].addr {
        PairAddr(bs, k, k);
      } else if a !in stale' {
        var i :| 0 <= i < |bs| && bs[i].addr == a;
        PairAddr(bs, k, i);
      }
    }
  }

  lemma PairAddr(bs: seq<Block>, k: nat, i: nat)
    requires k + 1 < |bs| && i < |bs| && i != k + 1
    ensures bs[i].addr in Addrs(MergeAt(bs, k))
  {
    var cs := MergeAt(bs, k);
    if i < k { assert cs[i] == bs[i]; }
    else if i == k { assert cs[k] == Pair(bs, k); }
    else { assert cs[i - 1] == bs[i]; }
  }

  /** What unlinking the second node and growing the first header amount to. */
  lemma MergeShape(m: Mem, head: int, hs: map<int, BlockHeader>, bs: seq<Block>,
      stale: set<int>, lo: nat, hi: nat, k: nat, h: BlockHeader)
    requires 0 < lo && Tiles(bs, lo, hi) && StaleApart(bs, stale) && HeadersOk(hs, bs, stale)
    requires k + 1 < |bs| && bs[k].status.Free? && bs[k + 1].status.Free? && Describes(h, Pair(bs, k))
    requires m.headers == hs[bs[k].addr := h]
    requires Rank(bs, k) + 1 < |FreeNodes(bs)| && Linked(m, head, Without(FreeNodes(bs), Rank(bs, k) + 1))
    ensures Shape(m, head, MergeAt(bs, k), stale + {bs[k + 1].addr}, lo, hi)
  {
    PairTiles(bs, lo, hi, k);
    PairApart(bs, stale, lo, hi, k);
    PairHeadersOk(hs, bs, stale, lo, hi, k, h);
  }

  /** Everything a merge needs to know before it writes. */
  lemma MergePlan(m: Mem, head: int, bs: seq<Block>, stale: set<int>, lo: nat, hi: nat,
      k: nat, h: BlockHeader)
    requires Shape(m, head, bs, stale, lo, hi)
    requires k + 1 < |bs| && bs[k].status.Free? && bs[k + 1].status.Free?
    ensures ListFrame(m, FreeNodes(bs), bs) && Clear(bs, bs[k].addr, HEADER)
    ensures Rank(bs, k) + 1 < |FreeNodes(bs)| && FreeNodes(bs)[Rank(bs, k) + 1] == bs[k + 1].Payload()
    ensures var a, rest := bs[k].addr, Without(FreeNodes(bs), Rank(bs, k) + 1);
            forall i | 0 <= i < |rest| :: a + HEADER <= rest[i] || rest[i] + NODE <= a
    ensures Intact(m.headers, HEADER, bs[k].addr, HEADER)[bs[k].addr := h] == m.headers[bs[k].addr := h]
  {
    ShapeFrame(m, head, bs, stale, lo, hi);
    PairTiles(bs, lo, hi, k);
    BlockClear(bs, lo, hi, k, bs[k].addr, HEADER);
    OwnHeader(m.headers, bs, stale, lo, hi, k, h);
    assert bs[k] in bs;
    OffWithout(m, FreeNodes(bs), Rank(bs, k) + 1, bs[k].addr);
  }

  lemma OffWithout(m: Mem, free: seq<int>, r: nat, a: int)
    requires HeadersOffNodes(m, free) && r < |free| && a in m.headers
    ensures forall i | 0 <= i < |Without(free, r)| ::
              a + HEADER <= Without(free, r)[i] || Without(free, r)[i] + NODE <= a
  {
    assert forall i | 0 <= i < |free| - 1 :: Without(free, r)[i] == free[if i < r then i else i + 1];
  }

  /** The list node before block `k`, if any, is its physical neighbour exactly when that neighbour is free. */
  lemma PrevNode(bs: seq<Block>, lo: nat, hi: nat, k: nat) returns (j: nat)
    requires 0 < lo && Tiles(bs, lo, hi) && k < |bs| && bs[k].status.Free?
    ensures Rank(bs, k) < |FreeNodes(bs)| && FreeNodes(bs)[Rank(bs, k)] == bs[k].Payload()
    ensures Rank(bs, k) == 0 ==> k == 0 || bs[k - 1].status.Allocated?
    ensures Rank(bs, k) > 0 ==>
              && j < k && bs[j].status.Free? && bs[j].Payload() == FreeNodes(bs)[Rank(bs, k) - 1]
              && (bs[j].End() == bs[k].addr <==> j == k - 1)
              && (j == k - 1 <==> bs[k - 1].status.Free?)
  {
    hide FreeNodes;
    RestIsWithout(bs, k);
    RankNode(bs, k);
    var pre, r := bs[..k], Rank(bs, k);
    assert bs == pre + bs[k..];
    TilesSplit(pre, bs[k..], lo, hi);
    FreeNodesFacts(pre, lo, Edge(pre, lo));
    j := 0;
    if r > 0 {
      j := NodeBlock(pre, lo, Edge(pre, lo), r - 1);
      assert FreeNodes(bs)[r - 1] == FreeNodes(pre)[r - 1];
      Ordered(bs, lo, hi, j, k);
      LastFree(pre, lo, Edge(pre, lo), j);
      if j < k - 1 { Ordered(bs, lo, hi, j, k - 1); Bounds(bs, lo, hi, k - 1); Ordered(bs, lo, hi, k - 1, k); }
    } else if k > 0 {
      assert pre[k - 1] in pre;
    }
  }

  /** Only the last block of a stretch can be free beyond its last free node. */
  lemma LastFree(bs: seq<Block>, lo: nat, hi: nat, j: nat)
    requires Tiles(bs, lo, hi) && FreeNodes(bs) != [] && j < |bs|
    requires bs[j].Payload() == FreeNodes(bs)[|FreeNodes(bs)| - 1]
    ensures bs[|bs| - 1].status.Free? ==> j == |bs| - 1
  {
    FreeNodesFacts(bs, lo, hi);
    var last := bs[|bs| - 1];
    if last.status.Free? && j < |bs| - 1 {
      assert last in bs;
      var i :| 0 <= i < |FreeNodes(bs)| && FreeNodes(bs)[i] == last.Payload();
      Ordered(bs, lo, hi, j, |bs| - 1);
    }
  }

  // ---------------------------------------------------------------- coalescing around a free block

  predicate FreeAt(bs: seq<Block>, i: int) { 0 <= i < |bs| && bs[i].status.Free? }

  /** Block `k` merged with its successor, then with its predecessor, wherever these are free. */
  function NextMerged(bs: seq<Block>, k: nat): seq<Block>
    requires k < |bs|
  {
    if FreeAt(bs, k + 1) then MergeAt(bs, k) else bs
  }

  function BothMerged(bs: seq<Block>, k: nat): seq<Block>
    requires k < |bs|
  {
    if FreeAt(bs, k - 1) then MergeAt(NextMerged(bs, k), k - 1) else NextMerged(bs, k)
  }

  function Absorbed(bs: seq<Block>, k: nat): set<int>
    requires k < |bs|
  {
    (if FreeAt(bs, k + 1) then {bs[k + 1].addr as int} else {})
    + (if FreeAt(bs, k - 1) then {bs[k].addr as int} else {})
  }

  function Absorptions(bs: seq<Block>, k: nat): nat
    requires k < |bs|
  {
    (if FreeAt(bs, k + 1) then 1 else 0) + (if FreeAt(bs, k - 1) then 1 else 0)
  }

  /** Marking and merging in two steps is the release of the layout model. */
  lemma {:induction false} ReleaseIsMerges(bs: seq<Block>, lo: nat, hi: nat, k: nat)
    requires Tiles(bs, lo, hi) && k < |bs| && bs[k].status.Allocated?
    ensures BothMerged(Marked(bs, k), k) == ReleaseAt(bs, k)
    ensures Absorptions(Marked(bs, k), k) == MergeTo(bs, k) - MergeFrom(bs, k) - 1
    ensures Absorbed(Marked(bs, k), k) == Addrs(bs) - Addrs(ReleaseAt(bs, k))
  {
    var cs, i, j := Marked(bs, k), MergeFrom(bs, k), MergeTo(bs, k);
    Swallowed(bs, lo, hi, k);
    MergedStretch(bs, k);
    assert Absorbed(cs, k) == set x | i < x < j :: bs[x].addr by {
      forall a | a in Absorbed(cs, k) ensures exists x :: i < x < j && bs[x].addr == a {
        if FreeAt(cs, k + 1) && a == bs[k + 1].addr { assert i < k + 1 < j; } else { assert i < k < j; }
      }
    }
  }

  lemma MergedStretch(bs: seq<Block>, k: nat)
    requires k < |bs| && bs[k].status.Allocated?
    ensures BothMerged(Marked(bs, k), k) == ReleaseAt(bs, k)
  {
    var i, j := MergeFrom(bs, k), MergeTo(bs, k);
    var cs, mid := Marked(bs, k), bs[i..j];
    SpanOfThree(mid);
    assert cs[..i] == bs[..i] && cs[j..] == bs[j..];
    assert NextMerged(cs, k) == bs[..k] + [Block(bs[k].addr, SpanSize(bs[k..j]), Free)] + bs[j..] by {
      SpanOfThree(bs[k..j]);
    }
  }

  lemma SpanOfThree(mid: seq<Block>)
    requires 1 <= |mid| <= 3
    ensures SpanSize(mid) == mid[0].size + (if |mid| > 1 then HEADER + mid[1].size else 0)
                                         + (if |mid| > 2 then HEADER + mid[2].size else 0)
  {
    if |mid| > 1 {
      assert SpanSize(mid[1..]) == mid[1].size + if |mid| > 2 then HEADER + mid[2].size else 0 by {
        if |mid| > 2 { assert mid[1..][1..] == [mid[2]]; }
      }
    }
  }

  /** The block that follows in memory is the next one of the walk. */
  lemma NextHeader(bs: seq<Block>, lo: nat, hi: nat, k: nat)
    requires Tiles(bs, lo, hi) && k < |bs|
    ensures bs[k].End() < hi <==> k + 1 < |bs|
    ensures k + 1 < |bs| ==> bs[k + 1].addr == bs[k].End()
  {
    EdgeBounds(bs, lo, hi);
    if k + 1 < |bs| {
      Ordered(bs, lo, hi, k, k + 1);
      Bounds(bs, lo, hi, k + 1);
    }
  }

  /** The blocks live on both sides of a release were left alone. */
  lemma ReleaseQuiet(bs: seq<Block>, lo: nat, hi: nat, k: nat, m: Mem, m': Mem)
    requires Tiles(bs, lo, hi) && k < |bs| && bs[k].status.Allocated? && Quiet(ReleaseAt(bs, k), m, m')
    ensures Undisturbed(bs, ReleaseAt(bs, k), m, m')
  {
  }

  lemma ShapeHeaders(m: Mem, head: int, bs: seq<Block>, stale: set<int>, lo: nat, hi: nat)
    requires Shape(m, head, bs, stale, lo, hi)
    ensures HeadersOk(m.headers, bs, stale)
  {
  }

  lemma FreeCountIsNodes(s: Heap)
    requires Inv(s)
    ensures s.stats.freeCount == |FreeNodes(s.blocks)|
  {
    FreeNodesFacts(s.blocks, s.lo, s.hi);
  }

  // ---------------------------------------------------------------- purposes, client stores, creation

  lemma PurposePlan(m: Mem, head: int, bs: seq<Block>, stale: set<int>, lo: nat, hi: nat,
      k: nat, h: BlockHeader)
    requires Shape(m, head, bs, stale, lo, hi) && k < |bs|
    ensures ListFrame(m, FreeNodes(bs), bs) && Clear(bs, bs[k].addr, HEADER)
    ensures forall i | 0 <= i < |FreeNodes(bs)| ::
              bs[k].addr + HEADER <= FreeNodes(bs)[i] || FreeNodes(bs)[i] + NODE <= bs[k].addr
    ensures Intact(m.headers, HEADER, bs[k].addr, HEADER)[bs[k].addr := h] == m.headers[bs[k].addr := h]
  {
    ShapeFrame(m, head, bs, stale, lo, hi);
    BlockClear(bs, lo, hi, k, bs[k].addr, HEADER);
    OwnHeader(m.headers, bs, stale, lo, hi, k, h);
    assert bs[k] in bs;
  }

  lemma PurposeShape(m: Mem, head: int, hs: map<int, BlockHeader>, bs: seq<Block>,
      stale: set<int>, lo: nat, hi: nat, k: nat, h: BlockHeader)
    requires 0 < lo && Tiles(bs, lo, hi) && StaleApart(bs, stale) && HeadersOk(hs, bs, stale)
    requires k < |bs| && Describes(h, bs[k]) && m.headers == hs[bs[k].addr := h] && Linked(m, head, FreeNodes(bs))
    ensures Shape(m, head, bs, stale, lo, hi)
  {
    HeadNotStale(bs, stale, k);
    Restatus(hs, bs, stale, lo, hi, k, bs[k], h);
    assert bs[k := bs[k]] == bs;
  }

  /** A client write of any kind inside a live payload. */
  predicate ClientWrite(m: Mem, m': Mem, at: int, n: nat) {
    m'.headers == Intact(m.headers, HEADER, at, n) && m'.nodes == Intact(m.nodes, NODE, at, n)
  }

  lemma StoreShape(m: Mem, m': Mem, head: int, bs: seq<Block>, stale: set<int>, lo: nat,
      hi: nat, at: int, n: nat)
    requires Shape(m, head, bs, stale, lo, hi) && ClientWrite(m, m', at, n)
    requires exists b :: b in Live(bs) && b.Payload() <= at && at + n <= b.End()
    ensures Shape(m', head, bs, Surviving(stale, at, n), lo, hi)
  {
    hide Linked;
    var b :| b in Live(bs) && b.Payload() <= at && at + n <= b.End();
    Disjoint(bs, lo, hi);
    assert b in bs;
    StoreNodes(m, m', head, bs, lo, hi, b, at, n);
  }

  /** Copying between live payloads: stale headers of the source become stale headers of the destination. */
  lemma CopyShape(m: Mem, head: int, s: Heap, src: int, dst: int, n: nat)
    requires Shape(m, head, s.blocks, s.stale, s.lo, s.hi)
    requires InLivePayload(s, src, n) && InLivePayload(s, dst, n)
    ensures Shape(m.CopyBytes(src, dst, n), head, s.blocks, Copy(s, src, dst, n).stale, s.lo, s.hi)
    ensures Kept(Live(s.blocks), m, m.CopyBytes(src, dst, n))
  {
    hide Linked, Tiles, StaleApart, HeadersOk, Kept, Mem.CopyBytes, InLivePayload, Live;
    var m', mid := m.CopyBytes(src, dst, n), Overwritten(m, dst, n);
    var heads := Shifted(s.stale, src, dst, n);
    assert InLivePayload(s, dst, n);
    OverwrittenShape(m, head, s, dst, n);
    SourceHeaders(m.headers, s, src, dst, n);
    CopiedHeaders(m, s, src, dst, n);
    CopiedApart(s, src, dst, n);
    MoreStale(mid.headers, m'.headers, s.blocks, Surviving(s.stale, dst, n), heads);
    SameNodes(mid, m', head, FreeNodes(s.blocks));
    StaleUnion(s.blocks, Surviving(s.stale, dst, n), heads);
    KeptOn(m, mid, m', s.blocks);
  }

  /** Memory with `[dst, dst + n)` overwritten by something that holds no header. */
  function Overwritten(m: Mem, dst: int, n: nat): Mem {
    m.(headers := Intact(m.headers, HEADER, dst, n), nodes := Intact(m.nodes, NODE, dst, n))
  }

  lemma OverwrittenShape(m: Mem, head: int, s: Heap, dst: int, n: nat)
    requires Shape(m, head, s.blocks, s.stale, s.lo, s.hi) && InLivePayload(s, dst, n)
    ensures Shape(Overwritten(m, dst, n), head, s.blocks, Surviving(s.stale, dst, n), s.lo, s.hi)
    ensures Kept(Live(s.blocks), m, Overwritten(m, dst, n))
  {
    hide Linked, Tiles, StaleApart, HeadersOk, Kept;
    StoreShape(m, Overwritten(m, dst, n), head, s.blocks, s.stale, s.lo, s.hi, dst, n);
    ClientKept(m, Overwritten(m, dst, n), s.blocks, s.lo, s.hi, dst, n);
  }

  /** The headers of a copy: what was not overwritten, and the stale headers of the source. */
  lemma CopiedHeaders(m: Mem, s: Heap, src: int, dst: int, n: nat)
    requires HeadersOk(m.headers, s.blocks, s.stale)
    requires Shifted(m.headers.Keys, src, dst, n) == Shifted(s.stale, src, dst, n)
    ensures var hs, hs' := Overwritten(m, dst, n).headers, m.CopyBytes(src, dst, n).headers;
            var heads := Shifted(s.stale, src, dst, n);
            && hs'.Keys == hs.Keys + heads && (forall a | a in hs && a !in heads :: hs'[a] == hs[a])
            && (forall a | a in heads :: hs'[a].status.Free? && hs'[a].Validate())
    ensures m.CopyBytes(src, dst, n).nodes == Overwritten(m, dst, n).nodes
  {
    hide Shifted;
    var hs', heads := m.CopyBytes(src, dst, n).headers, Shifted(s.stale, src, dst, n);
    forall a | a in heads ensures a in hs' && hs'[a].status.Free? && hs'[a].Validate() {
      assert a - dst + src in s.stale;
    }
  }

  lemma StaleUnion(bs: seq<Block>, a: set<int>, b: set<int>)
    requires StaleApart(bs, a) && StaleApart(bs, b)
    ensures StaleApart(bs, a + b)
  {
  }

  lemma KeptOn(m: Mem, mid: Mem, m': Mem, bs: seq<Block>)
    requires Kept(Live(bs), m, mid)
    requires forall b | b in bs :: b.addr in mid.headers && b.addr in m'.headers
                                   && m'.headers[b.addr] == mid.headers[b.addr]
    ensures Kept(Live(bs), m, m')
  {
  }

  lemma SameNodes(m: Mem, m': Mem, head: int, free: seq<int>)
    requires Linked(m, head, free) && m'.nodes == m.nodes
    ensures Linked(m', head, free)
  {
  }

  /** The only headers inside a live payload are stale. */
  lemma SourceHeaders(hs: map<int, BlockHeader>, s: Heap, src: int, dst: int, n: nat)
    requires Tiles(s.blocks, s.lo, s.hi) && HeadersOk(hs, s.blocks, s.stale) && InLivePayload(s, src, n)
    ensures Shifted(hs.Keys, src, dst, n) == Shifted(s.stale, src, dst, n)
  {
    hide Shifted, Tiles;
    Disjoint(s.blocks, s.lo, s.hi);
    var b :| b in Live(s.blocks) && b.Payload() <= src && src + n <= b.End();
    assert b in s.blocks;
    forall x | x in Shifted(hs.Keys, src, dst, n) ensures x - dst + src in s.stale {
      assert x - dst + src in hs;
    }
  }

  /** Free headers that appear apart from the walk are more stale headers, and hide no header of the walk. */
  lemma MoreStale(hs: map<int, BlockHeader>, hs': map<int, BlockHeader>, bs: seq<Block>,
                                     stale: set<int>, more: set<int>)
    requires HeadersOk(hs, bs, stale) && StaleApart(bs, more)
    requires hs'.Keys == hs.Keys + more && forall a | a in hs && a !in more :: hs'[a] == hs[a]
    requires forall a | a in more :: hs'[a].status.Free? && hs'[a].Validate()
    ensures HeadersOk(hs', bs, stale + more)
    ensures forall b | b in bs :: b.addr in hs && b.addr in hs' && hs'[b.addr] == hs[b.addr]
  {
    forall b | b in bs ensures b.addr !in more {
      var i :| 0 <= i < |bs| && bs[i] == b;
      HeadNotStale(bs, more, i);
    }
  }

  lemma StoreNodes(m: Mem, m': Mem, head: int, bs: seq<Block>, lo: nat, hi: nat, b: Block,
      at: int, n: nat)
    requires Tiles(bs, lo, hi) && b in Live(bs) && b.Payload() <= at && at + n <= b.End()
    requires Linked(m, head, FreeNodes(bs)) && ClientWrite(m, m', at, n)
    ensures Linked(m', head, FreeNodes(bs))
  {
    FreeNodesFacts(bs, lo, hi);
    Disjoint(bs, lo, hi);
    var free := FreeNodes(bs);
    forall i | 0 <= i < |free| ensures free[i] + NODE <= at || at + n <= free[i] {
      assert free[i] in free;
      var f :| f in bs && f.status.Free? && f.Payload() == free[i];
    }
  }

  lemma NewShape(start: nat, size: nat, bytes: map<int, byte>)
    requires start > 0 && size >= 2 * MIN_BLOCK
    ensures Shape(Mem(map[], map[], bytes).WriteHeader(start, NewHeader(size - HEADER, Free, 0))
                  .WriteNode(start + HEADER, FreeBlock(0, 0)),
                  start + HEADER, [Block(start, size - HEADER, Free)], {}, start, start + size)
  {
    var b := Block(start, size - HEADER, Free);
    FreeNodesSingle(b);
    assert [b][1..] == [];
    assert b in [b];
  }

  // ---------------------------------------------------------------- live headers

  /** The headers of these blocks read the same in both memories: id, purpose and timestamp included. */
  ghost predicate Kept(live: set<Block>, m: Mem, m': Mem) {
    forall b | b in live :: m'.HeaderAt(b.addr) == m.HeaderAt(b.addr)
  }

  /** The header at `a` got a new id and timestamp, and kept its purpose. */
  predicate Stamped(m: Mem, m': Mem, a: int, id: nat, now: nat) {
    var h := m'.HeaderAt(a);
    h.allocId == id && h.timestamp == now && h.purpose == m.HeaderAt(a).purpose
  }

  /** Live blocks carry distinct allocation ids, all given out before. */
  ghost predicate Ids(m: Mem, live: set<Block>, next: nat) {
    && (forall b | b in live :: 1 <= m.HeaderAt(b.addr).allocId < next)
    && (forall b, c | b in live && c in live && b != c :: m.HeaderAt(b.addr).allocId != m.HeaderAt(c.addr).allocId)
  }

  lemma IdsKept(m: Mem, m': Mem, live: set<Block>, left: set<Block>, next: nat)
    requires Ids(m, live, next) && left <= live && Kept(left, m, m')
    ensures Ids(m', left, next)
  {
  }

  lemma IdsGrow(m: Mem, m': Mem, live: set<Block>, c: Block, next: nat)
    requires Ids(m, live, next) && Kept(live, m, m') && m'.HeaderAt(c.addr).allocId == next && next >= 1
    ensures Ids(m', live + {c}, next + 1)
  {
  }

  /** Rewriting the header of a free block. */
  lemma OwnKept(m: Mem, m': Mem, bs: seq<Block>, lo: nat, hi: nat, k: nat, h: BlockHeader)
    requires Tiles(bs, lo, hi) && k < |bs| && bs[k].status.Free? && m'.headers == m.headers[bs[k].addr := h]
    ensures Kept(Live(bs), m, m') && m'.HeaderAt(bs[k].addr) == h
  {
    Disjoint(bs, lo, hi);
  }

  lemma {:induction false} SplitKept(m: Mem, m': Mem, bs: seq<Block>, lo: nat, hi: nat, k: nat, req: nat,
                                     h: BlockHeader, h': BlockHeader)
    requires Tiles(bs, lo, hi) && k < |bs| && bs[k].status.Free? && MIN_BLOCK <= req && req + MIN_BLOCK <= bs[k].size
    requires m'.headers == SplitHeaders(m.headers, bs[k].addr, h, bs[k].addr + req, h')
    ensures Kept(Live(bs), m, m') && m'.HeaderAt(bs[k].addr) == h
  {
    Disjoint(bs, lo, hi);
  }

  lemma MarkKept(m: Mem, m': Mem, bs: seq<Block>, lo: nat, hi: nat, k: nat, h: BlockHeader)
    requires Tiles(bs, lo, hi) && k < |bs|
    requires m'.headers == Intact(m.headers[bs[k].addr := h], HEADER, bs[k].Payload(), NODE)
    ensures Kept(Live(Marked(bs, k)), m, m')
  {
    MarkedTiles(bs, lo, hi, k);
    Disjoint(Marked(bs, k), lo, hi);
    assert Marked(bs, k)[k] in Marked(bs, k);
  }

  lemma ClientKept(m: Mem, m': Mem, bs: seq<Block>, lo: nat, hi: nat, at: int, n: nat)
    requires Tiles(bs, lo, hi) && ClientWrite(m, m', at, n)
    requires exists b :: b in Live(bs) && b.Payload() <= at && at + n <= b.End()
    ensures Kept(Live(bs), m, m')
  {
    Disjoint(bs, lo, hi);
  }
}
