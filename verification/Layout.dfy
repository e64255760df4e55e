/**
  The heap as the physical header walk sees it: a sequence of blocks that tiles
  the address range of the heap, each block a 48-byte header followed by its payload.
 */
module Layout {

  const HEADER: nat := 48       // size of a block header on a 64-bit target
  const NODE: nat := 16         // size of a free-list node, the smallest payload
  const MIN_BLOCK: nat := HEADER + NODE

  function Max(x: nat, y: nat): nat { if x < y then y else x }

  datatype Status = Free | Allocated

  datatype Block = Block(addr: nat, size: nat, status: Status) {
    function Payload(): nat { addr + HEADER }
    function End(): nat { addr + HEADER + size }
  }

  /** The blocks follow one another without gap from `lo` to `hi`, and each can hold a free-list node. */
  predicate Tiles(bs: seq<Block>, lo: nat, hi: nat) {
    if bs == [] then lo == hi
    else bs[0].addr == lo && bs[0].size >= NODE && Tiles(bs[1..], bs[0].End(), hi)
  }

  /** No two neighbouring blocks are both free. */
  predicate Coalesced(bs: seq<Block>) {
    |bs| < 2 || (!(bs[0].status.Free? && bs[1].status.Free?) && Coalesced(bs[1..]))
  }

  /** What the statistics ledger counts, recomputed from the blocks themselves. */
  datatype Tally = Tally(used: nat, free: nat, allocs: nat, frees: nat) {
    function Plus(t: Tally): Tally { Tally(used + t.used, free + t.free, allocs + t.allocs, frees + t.frees) }
  }

  function TallyOne(b: Block): Tally {
    if b.status.Free? then Tally(0, b.size + HEADER, 0, 1) else Tally(b.size, 0, 1, 0)
  }

  function TallyOf(bs: seq<Block>): Tally {
    if bs == [] then Tally(0, 0, 0, 0) else TallyOne(bs[0]).Plus(TallyOf(bs[1..]))
  }

  /** Node addresses of the free blocks, in address order: what the linked list must hold. */
  function FreeNodes(bs: seq<Block>): seq<int> {
    if bs == [] then []
    else (if bs[0].status.Free? then [bs[0].Payload()] else []) + FreeNodes(bs[1..])
  }

  ghost function Live(bs: seq<Block>): set<Block> { set b | b in bs && b.status.Allocated? }

  ghost function Addrs(bs: seq<Block>): set<int> { set b | b in bs :: b.addr }

  /** Where the headers at these addresses appear again when `[src, src + n)` is copied to `dst`. */
  function Shifted(heads: set<int>, src: int, dst: int, n: nat): (r: set<int>)
    ensures forall x :: x in r <==> x - dst + src in heads && dst <= x && x + HEADER <= dst + n
  {
    set a | a in heads && src <= a && a + HEADER <= src + n :: a - src + dst
  }

  // ---------------------------------------------------------------- concatenation

  function Edge(bs: seq<Block>, lo: nat): nat { if bs == [] then lo else bs[|bs| - 1].End() }

  lemma {:induction false} TilesConcat(a: seq<Block>, b: seq<Block>, lo: nat, mid: nat, hi: nat)
    requires Tiles(a, lo, mid) && Tiles(b, mid, hi)
    ensures Tiles(a + b, lo, hi)
  {
    if a == [] {
      assert a + b == b;
    } else {
      TilesConcat(a[1..], b, a[0].End(), mid, hi);
      assert (a + b)[1..] == a[1..] + b;
    }
  }

  lemma {:induction false} TilesSplit(a: seq<Block>, b: seq<Block>, lo: nat, hi: nat)
    requires Tiles(a + b, lo, hi)
    ensures Tiles(a, lo, Edge(a, lo)) && Tiles(b, Edge(a, lo), hi)
  {
    if a == [] {
      assert a + b == b;
    } else {
      assert (a + b)[1..] == a[1..] + b;
      TilesSplit(a[1..], b, a[0].End(), hi);
    }
  }

  lemma {:induction false} CoalescedConcat(a: seq<Block>, b: seq<Block>)
    ensures Coalesced(a + b) <==>
            (Coalesced(a) && Coalesced(b)
             && !(a != [] && b != [] && a[|a| - 1].status.Free? && b[0].status.Free?))
  {
    if a == [] {
      assert a + b == b;
    } else {
      assert (a + b)[1..] == a[1..] + b;
      CoalescedConcat(a[1..], b);
    }
  }

  lemma {:induction false} TallyConcat(a: seq<Block>, b: seq<Block>)
    ensures TallyOf(a + b) == TallyOf(a).Plus(TallyOf(b))
  {
    if a == [] {
      assert a + b == b;
    } else {
      var t := a[1..] + b;
      assert (a + b)[1..] == t && (a + b)[0] == a[0];
      TallyConcat(a[1..], b);
      assert TallyOf(a + b) == TallyOne(a[0]).Plus(TallyOf(t));
    }
  }

  lemma TallyThree(a: seq<Block>, b: seq<Block>, c: seq<Block>)
    ensures TallyOf(a + b + c) == TallyOf(a).Plus(TallyOf(b)).Plus(TallyOf(c))
  {
    TallyConcat(a + b, c);
    TallyConcat(a, b);
  }

  lemma TallySingle(b: Block)
    ensures TallyOf([b]) == TallyOne(b)
  {
    assert [b][1..] == [];
  }

  lemma {:induction false} FreeNodesConcat(a: seq<Block>, b: seq<Block>)
    ensures FreeNodes(a + b) == FreeNodes(a) + FreeNodes(b)
  {
    if a == [] {
      assert a + b == b;
    } else {
      var t := a[1..] + b;
      assert (a + b)[1..] == t && (a + b)[0] == a[0];
      FreeNodesConcat(a[1..], b);
      var h := if a[0].status.Free? then [a[0].Payload()] else [];
      assert FreeNodes(a + b) == h + FreeNodes(t);
    }
  }

  lemma FreeNodesThree(a: seq<Block>, b: seq<Block>, c: seq<Block>)
    ensures FreeNodes(a + b + c) == FreeNodes(a) + FreeNodes(b) + FreeNodes(c)
  {
    FreeNodesConcat(a + b, c);
    FreeNodesConcat(a, b);
  }

  lemma FreeNodesParts(bs: seq<Block>, a: seq<Block>, b: seq<Block>, c: seq<Block>)
    requires bs == a + b + c
    ensures FreeNodes(bs) == FreeNodes(a) + FreeNodes(b) + FreeNodes(c)
  {
    FreeNodesThree(a, b, c);
  }

  lemma FreeNodesSingle(b: Block)
    ensures FreeNodes([b]) == if b.status.Free? then [b.Payload()] else []
  {
    assert [b][1..] == [];
  }

  /** One middle block `b` taken out of a layout: every summary splits around it. */
  lemma Around(pre: seq<Block>, mid: seq<Block>, post: seq<Block>, lo: nat, hi: nat)
    requires Tiles(pre + mid + post, lo, hi)
    ensures Tiles(pre, lo, Edge(pre, lo))
    ensures Tiles(mid, Edge(pre, lo), Edge(mid, Edge(pre, lo)))
    ensures Tiles(post, Edge(mid, Edge(pre, lo)), hi)
    ensures TallyOf(pre + mid + post) == TallyOf(pre).Plus(TallyOf(mid)).Plus(TallyOf(post))
    ensures FreeNodes(pre + mid + post) == FreeNodes(pre) + FreeNodes(mid) + FreeNodes(post)
  {
    TilesSplit(pre + mid, post, lo, hi);
    TilesSplit(pre, mid, lo, Edge(pre + mid, lo));
    TallyThree(pre, mid, post);
    FreeNodesThree(pre, mid, post);
  }

  /** Replacing a middle stretch by another tiling of the same range tiles the whole range. */
  lemma Replace(pre: seq<Block>, mid: seq<Block>, post: seq<Block>, lo: nat, a: nat, b: nat, hi: nat)
    requires Tiles(pre, lo, a) && Tiles(mid, a, b) && Tiles(post, b, hi)
    ensures Tiles(pre + mid + post, lo, hi)
    ensures TallyOf(pre + mid + post) == TallyOf(pre).Plus(TallyOf(mid)).Plus(TallyOf(post))
    ensures FreeNodes(pre + mid + post) == FreeNodes(pre) + FreeNodes(mid) + FreeNodes(post)
  {
    TilesConcat(pre, mid, lo, a, b);
    TilesConcat(pre + mid, post, lo, b, hi);
    Around(pre, mid, post, lo, hi);
  }

  // ---------------------------------------------------------------- positions

  lemma Bounds(bs: seq<Block>, lo: nat, hi: nat, i: nat)
    requires Tiles(bs, lo, hi) && i < |bs|
    ensures lo <= bs[i].addr && bs[i].size >= NODE && bs[i].End() <= hi
  {
    TilesSplit(bs[..i], bs[i..], lo, hi) by { assert bs == bs[..i] + bs[i..]; }
    EdgeBounds(bs[..i], lo, Edge(bs[..i], lo));
    EdgeBounds(bs[i..][1..], bs[i].End(), hi);
  }

  lemma {:induction false} EdgeBounds(bs: seq<Block>, lo: nat, hi: nat)
    requires Tiles(bs, lo, hi)
    ensures lo <= hi && hi == Edge(bs, lo)
    ensures bs != [] ==> lo + MIN_BLOCK <= hi
  {
    if bs != [] {
      EdgeBounds(bs[1..], bs[0].End(), hi);
    }
  }

  /** Blocks keep their order in memory; an earlier block ends before a later one starts. */
  lemma Ordered(bs: seq<Block>, lo: nat, hi: nat, i: nat, j: nat)
    requires Tiles(bs, lo, hi) && i < j < |bs|
    ensures bs[i].End() <= bs[j].addr
    ensures j == i + 1 ==> bs[i].End() == bs[j].addr
  {
    assert bs == bs[..i + 1] + bs[i + 1..];
    TilesSplit(bs[..i + 1], bs[i + 1..], lo, hi);
    Bounds(bs[i + 1..], bs[i].End(), hi, j - i - 1);
  }

  /** The same facts for members of the layout: distinct blocks occupy disjoint ranges. */
  lemma Disjoint(bs: seq<Block>, lo: nat, hi: nat)
    requires Tiles(bs, lo, hi)
    ensures forall b | b in bs :: lo <= b.addr && b.size >= NODE && b.End() <= hi
    ensures forall b, c | b in bs && c in bs && b != c :: b.End() <= c.addr || c.End() <= b.addr
  {
    forall b | b in bs ensures lo <= b.addr && b.size >= NODE && b.End() <= hi {
      var i :| 0 <= i < |bs| && bs[i] == b;
      Bounds(bs, lo, hi, i);
    }
    forall b, c | b in bs && c in bs && b != c ensures b.End() <= c.addr || c.End() <= b.addr {
      var i :| 0 <= i < |bs| && bs[i] == b;
      var j :| 0 <= j < |bs| && bs[j] == c;
      if i < j { Ordered(bs, lo, hi, i, j); } else { Ordered(bs, lo, hi, j, i); }
    }
  }

  /** The sizes and headers of a tiling add up to the range it covers. */
  lemma {:induction false} TallyTotal(bs: seq<Block>, lo: nat, hi: nat)
    requires Tiles(bs, lo, hi)
    ensures lo + TallyOf(bs).used + TallyOf(bs).free + HEADER * TallyOf(bs).allocs == hi
    ensures TallyOf(bs).allocs + TallyOf(bs).frees == |bs|
  {
    if bs != [] {
      TallyTotal(bs[1..], bs[0].End(), hi);
    }
  }

  /** Free blocks are separated by allocated ones. */
  lemma {:induction false} FreeAtMostOneMore(bs: seq<Block>)
    requires Coalesced(bs)
    ensures TallyOf(bs).frees <= TallyOf(bs).allocs + 1
    ensures bs != [] && bs[0].status.Allocated? ==> TallyOf(bs).frees <= TallyOf(bs).allocs
  {
    if bs != [] {
      FreeAtMostOneMore(bs[1..]);
      if |bs| >= 2 && bs[0].status.Free? {
        assert bs[1..][0].status.Allocated?;
      }
    }
  }

  /** The node list holds exactly the free blocks, in strictly increasing order, a block apart. */
  lemma {:induction false} FreeNodesFacts(bs: seq<Block>, lo: nat, hi: nat)
    requires Tiles(bs, lo, hi)
    ensures forall b | b in bs && b.status.Free? :: b.Payload() in FreeNodes(bs)
    ensures forall n | n in FreeNodes(bs) ::
              exists b :: b in bs && b.status.Free? && b.Payload() == n
    ensures forall i, j | 0 <= i < j < |FreeNodes(bs)| :: FreeNodes(bs)[i] + MIN_BLOCK <= FreeNodes(bs)[j]
    ensures forall n | n in FreeNodes(bs) :: lo + HEADER <= n && n + NODE <= hi
    ensures |FreeNodes(bs)| == TallyOf(bs).frees
  {
    if bs != [] {
      FreeNodesFacts(bs[1..], bs[0].End(), hi);
      EdgeBounds(bs[1..], bs[0].End(), hi);
      assert bs == [bs[0]] + bs[1..];
      var rest := FreeNodes(bs[1..]);
      forall n | n in FreeNodes(bs) ensures exists b :: b in bs && b.status.Free? && b.Payload() == n {
        if n in rest {
          var b :| b in bs[1..] && b.status.Free? && b.Payload() == n;
          assert b in bs;
        } else {
          assert bs[0] in bs && bs[0].Payload() == n;
        }
      }
      forall i, j | 0 <= i < j < |FreeNodes(bs)|
        ensures FreeNodes(bs)[i] + MIN_BLOCK <= FreeNodes(bs)[j]
      {
        if bs[0].status.Free? {
          assert FreeNodes(bs) == [bs[0].Payload()] + rest;
          assert rest[j - 1] in rest;
          if i > 0 { assert rest[i - 1] + MIN_BLOCK <= rest[j - 1]; }
        } else {
          assert FreeNodes(bs) == rest;
        }
      }
    }
  }

  // ---------------------------------------------------------------- canonical form

  /** In a tiling the allocated block at the left edge is recognised by its address alone. */
  lemma HeadOf(bs: seq<Block>, lo: nat, hi: nat, b: Block)
    requires Tiles(bs, lo, hi) && b in bs && b.addr == lo
    ensures b == bs[0]
  {
    var i :| 0 <= i < |bs| && bs[i] == b;
    if i > 0 { Ordered(bs, lo, hi, 0, i); }
  }

  lemma LiveTail(bs: seq<Block>, lo: nat, hi: nat)
    requires Tiles(bs, lo, hi) && bs != []
    ensures Live(bs[1..]) == Live(bs) - {bs[0]}
    ensures forall b | b in Live(bs[1..]) :: bs[0].End() <= b.addr
  {
    assert bs == [bs[0]] + bs[1..];
    Disjoint(bs[1..], bs[0].End(), hi);
  }

  /** Counting the allocated blocks of the walk counts the set of them. */
  lemma {:induction false} LiveCount(bs: seq<Block>, lo: nat, hi: nat)
    requires Tiles(bs, lo, hi)
    ensures |Live(bs)| == TallyOf(bs).allocs
  {
    if bs == [] {
      assert Live(bs) == {};
    } else {
      LiveTail(bs, lo, hi);
      LiveCount(bs[1..], bs[0].End(), hi);
      if bs[0].status.Allocated? {
        assert bs[0] in Live(bs);
      } else {
        assert Live(bs[1..]) == Live(bs);
      }
    }
  }

  /** A free first block ends where the lowest allocated block, or the range, begins. */
  lemma FreeHead(bs: seq<Block>, lo: nat, hi: nat)
    requires Tiles(bs, lo, hi) && Coalesced(bs) && bs != [] && bs[0].status.Free?
    ensures |bs| == 1 ==> Live(bs) == {} && bs[0].End() == hi
    ensures |bs| > 1 ==> bs[1] in Live(bs) && bs[1].addr == bs[0].End()
                         && forall b | b in Live(bs) :: bs[1].addr <= b.addr
  {
    LiveTail(bs, lo, hi);
    if |bs| > 1 {
      assert bs[1..][0] == bs[1];
      assert bs[1] in bs;
      assert Tiles(bs[1..], bs[0].End(), hi);
    } else {
      assert bs[1..] == [];
    }
  }

  /**
    Canonical form: a coalesced tiling is determined by the set of its allocated blocks.
   */
  lemma {:induction false} Canonical(bs: seq<Block>, cs: seq<Block>, lo: nat, hi: nat)
    requires Tiles(bs, lo, hi) && Tiles(cs, lo, hi)
    requires Coalesced(bs) && Coalesced(cs)
    requires Live(bs) == Live(cs)
    ensures bs == cs
  {
    EdgeBounds(bs, lo, hi);
    EdgeBounds(cs, lo, hi);
    if bs != [] && cs != [] {
      SameHead(bs, cs, lo, hi);
      LiveTail(bs, lo, hi);
      LiveTail(cs, lo, hi);
      Canonical(bs[1..], cs[1..], bs[0].End(), hi);
      assert bs == [bs[0]] + bs[1..] && cs == [cs[0]] + cs[1..];
    }
  }

  lemma SameHead(bs: seq<Block>, cs: seq<Block>, lo: nat, hi: nat)
    requires Tiles(bs, lo, hi) && Tiles(cs, lo, hi) && bs != [] && cs != []
    requires Coalesced(bs) && Coalesced(cs)
    requires Live(bs) == Live(cs)
    ensures bs[0] == cs[0]
  {
    if bs[0].status.Allocated? {
      assert bs[0] in Live(bs);
      HeadOf(cs, lo, hi, bs[0]);
    } else if cs[0].status.Allocated? {
      assert cs[0] in Live(cs);
      HeadOf(bs, lo, hi, cs[0]);
    } else {
      FreeHead(bs, lo, hi);
      FreeHead(cs, lo, hi);
    }
  }

  // ---------------------------------------------------------------- the two layout steps

  /** The allocated block, and the free remainder when it is large enough to be one. */
  function Carve(b: Block, req: nat): seq<Block>
    requires MIN_BLOCK <= req <= b.size
  {
    if b.size >= req + MIN_BLOCK
    then [Block(b.addr, req - HEADER, Allocated), Block(b.addr + req, b.size - req, Free)]
    else [b.(status := Allocated)]
  }

  function CarveAt(bs: seq<Block>, k: nat, req: nat): seq<Block>
    requires k < |bs| && MIN_BLOCK <= req <= bs[k].size
  {
    bs[..k] + Carve(bs[k], req) + bs[k + 1..]
  }

  /** First block of the stretch that becomes one free block when block `k` is released. */
  function MergeFrom(bs: seq<Block>, k: nat): (i: nat)
    requires k < |bs|
    ensures i <= k
  {
    if k > 0 && bs[k - 1].status.Free? then k - 1 else k
  }

  function MergeTo(bs: seq<Block>, k: nat): (j: nat)
    requires k < |bs|
    ensures k < j <= |bs|
  {
    if k + 1 < |bs| && bs[k + 1].status.Free? then k + 2 else k + 1
  }

  function ReleaseAt(bs: seq<Block>, k: nat): seq<Block>
    requires k < |bs|
  {
    var i, j := MergeFrom(bs, k), MergeTo(bs, k);
    bs[..i] + [Merged(bs[i..j])] + bs[j..]
  }

  /** One free block over the whole stretch: later headers become payload. */
  function Merged(bs: seq<Block>): Block
    requires bs != []
  {
    Block(bs[0].addr, SpanSize(bs), Free)
  }

  function SpanSize(bs: seq<Block>): nat
    requires bs != []
  {
    if |bs| == 1 then bs[0].size else bs[0].size + HEADER + SpanSize(bs[1..])
  }

  lemma {:induction false} MergedTiles(bs: seq<Block>, lo: nat, hi: nat)
    requires Tiles(bs, lo, hi) && bs != []
    ensures Tiles([Merged(bs)], lo, hi) && Merged(bs).End() == hi
  {
    if |bs| == 1 {
      assert bs[1..] == [];
    } else {
      MergedTiles(bs[1..], bs[0].End(), hi);
    }
    assert [Merged(bs)][1..] == [];
  }

  lemma Neighbours(bs: seq<Block>, k: nat)
    requires Coalesced(bs) && k + 1 < |bs|
    ensures !(bs[k].status.Free? && bs[k + 1].status.Free?)
  {
    assert bs == bs[..k + 1] + bs[k + 1..];
    CoalescedConcat(bs[..k + 1], bs[k + 1..]);
  }

  /** Carving keeps a coalesced tiling and adds exactly one allocated block. */
  lemma CarveKeeps(bs: seq<Block>, lo: nat, hi: nat, k: nat, req: nat)
    requires Tiles(bs, lo, hi) && Coalesced(bs)
    requires k < |bs| && bs[k].status.Free? && MIN_BLOCK <= req <= bs[k].size
    ensures Tiles(CarveAt(bs, k, req), lo, hi)
    ensures Coalesced(CarveAt(bs, k, req))
    ensures Live(CarveAt(bs, k, req)) == Live(bs) + {Carve(bs[k], req)[0]}
    ensures Carve(bs[k], req)[0] !in Live(bs)
    ensures TallyOf(bs) == TallyOf(bs[..k]).Plus(TallyOne(bs[k])).Plus(TallyOf(bs[k + 1..]))
    ensures TallyOf(CarveAt(bs, k, req)) ==
            TallyOf(bs[..k]).Plus(TallyOf(Carve(bs[k], req))).Plus(TallyOf(bs[k + 1..]))
    ensures FreeNodes(bs) == FreeNodes(bs[..k]) + [bs[k].Payload()] + FreeNodes(bs[k + 1..])
    ensures FreeNodes(CarveAt(bs, k, req)) ==
            FreeNodes(bs[..k]) + FreeNodes(Carve(bs[k], req)) + FreeNodes(bs[k + 1..])
  {
    CarveReplaces(bs, lo, hi, k, req);
    CarveCoalesced(bs, k, req);
    CarveLive(bs, lo, hi, k, req);
  }

  lemma CarveReplaces(bs: seq<Block>, lo: nat, hi: nat, k: nat, req: nat)
    requires Tiles(bs, lo, hi)
    requires k < |bs| && bs[k].status.Free? && MIN_BLOCK <= req <= bs[k].size
    ensures Tiles(CarveAt(bs, k, req), lo, hi)
    ensures TallyOf(bs) == TallyOf(bs[..k]).Plus(TallyOne(bs[k])).Plus(TallyOf(bs[k + 1..]))
    ensures TallyOf(CarveAt(bs, k, req)) ==
            TallyOf(bs[..k]).Plus(TallyOf(Carve(bs[k], req))).Plus(TallyOf(bs[k + 1..]))
    ensures FreeNodes(bs) == FreeNodes(bs[..k]) + [bs[k].Payload()] + FreeNodes(bs[k + 1..])
    ensures FreeNodes(CarveAt(bs, k, req)) ==
            FreeNodes(bs[..k]) + FreeNodes(Carve(bs[k], req)) + FreeNodes(bs[k + 1..])
  {
    var pre, post, mid := bs[..k], bs[k + 1..], Carve(bs[k], req);
    assert bs == pre + [bs[k]] + post;
    Around(pre, [bs[k]], post, lo, hi);
    TallySingle(bs[k]);
    FreeNodesSingle(bs[k]);
    CarveTiles(bs[k], req);
    Replace(pre, mid, post, lo, bs[k].addr, bs[k].End(), hi);
  }

  lemma CarveLive(bs: seq<Block>, lo: nat, hi: nat, k: nat, req: nat)
    requires Tiles(bs, lo, hi)
    requires k < |bs| && bs[k].status.Free? && MIN_BLOCK <= req <= bs[k].size
    ensures Live(CarveAt(bs, k, req)) == Live(bs) + {Carve(bs[k], req)[0]}
    ensures Carve(bs[k], req)[0] !in Live(bs)
  {
    var mid, cs := Carve(bs[k], req), CarveAt(bs, k, req);
    assert mid[0] !in Live(bs) by {
      Disjoint(bs, lo, hi);
      assert bs[k] in bs;
    }
    assert cs[k] == mid[0];
    forall b | b in Live(bs) ensures b in cs {
      var x :| 0 <= x < |bs| && bs[x] == b;
      if x < k { assert cs[x] == b; } else { assert cs[x + |mid| - 1] == b; }
    }
    forall b | b in Live(cs) && b != mid[0] ensures b in bs {
      assert b in bs[..k] || b in bs[k + 1..];
    }
  }

  lemma CarveTiles(b: Block, req: nat)
    requires MIN_BLOCK <= req <= b.size
    ensures Tiles(Carve(b, req), b.addr, b.End())
  {
    var mid := Carve(b, req);
    if |mid| == 2 {
      assert mid[1..] == [mid[1]] && mid[1..][1..] == [];
    } else {
      assert mid[1..] == [];
    }
  }

  lemma {:induction false} CarveCoalesced(bs: seq<Block>, k: nat, req: nat)
    requires Coalesced(bs)
    requires k < |bs| && bs[k].status.Free? && MIN_BLOCK <= req <= bs[k].size
    ensures Coalesced(CarveAt(bs, k, req))
  {
    var pre, post, mid := bs[..k], bs[k + 1..], Carve(bs[k], req);
    assert bs == pre + [bs[k]] + post;
    CoalescedConcat(pre + [bs[k]], post);
    CoalescedConcat(pre, [bs[k]]);
    CoalescedConcat(pre, mid);
    CoalescedConcat(pre + mid, post);
  }

  /** Releasing keeps a coalesced tiling and removes exactly the released block. */
  lemma ReleaseKeeps(bs: seq<Block>, lo: nat, hi: nat, k: nat)
    requires Tiles(bs, lo, hi) && Coalesced(bs) && k < |bs| && bs[k].status.Allocated?
    ensures Tiles(ReleaseAt(bs, k), lo, hi)
    ensures Coalesced(ReleaseAt(bs, k))
    ensures Live(ReleaseAt(bs, k)) == Live(bs) - {bs[k]}
  {
    var i, j := MergeFrom(bs, k), MergeTo(bs, k);
    var pre, mid, post := bs[..i], bs[i..j], bs[j..];
    assert bs == pre + mid + post;
    Around(pre, mid, post, lo, hi);
    MergedTiles(mid, Edge(pre, lo), Edge(mid, Edge(pre, lo)));
    Replace(pre, [Merged(mid)], post, lo, Edge(pre, lo), Edge(mid, Edge(pre, lo)), hi);
    ReleaseCoalesced(bs, k);
    ReleaseLive(bs, lo, hi, k);
  }

  lemma {:induction false} ReleaseCoalesced(bs: seq<Block>, k: nat)
    requires Coalesced(bs) && k < |bs| && bs[k].status.Allocated?
    ensures Coalesced(ReleaseAt(bs, k))
  {
    hide SpanSize;
    var i, j := MergeFrom(bs, k), MergeTo(bs, k);
    var pre, mid, post := bs[..i], bs[i..j], bs[j..];
    assert bs == pre + mid + post;
    CoalescedConcat(pre + mid, post);
    CoalescedConcat(pre, mid);
    if i > 0 && i < k { Neighbours(bs, i - 1); }
    if j < |bs| && j > k + 1 { Neighbours(bs, j - 1); }
    CoalescedConcat(pre, [Merged(mid)]);
    CoalescedConcat(pre + [Merged(mid)], post);
  }

  lemma {:induction false} ReleaseLive(bs: seq<Block>, lo: nat, hi: nat, k: nat)
    requires Tiles(bs, lo, hi) && k < |bs| && bs[k].status.Allocated?
    ensures Live(ReleaseAt(bs, k)) == Live(bs) - {bs[k]}
  {
    var i, j := MergeFrom(bs, k), MergeTo(bs, k);
    var rs := ReleaseAt(bs, k);
    forall b | b in Live(rs) ensures b in Live(bs) && b != bs[k] {
      assert b in bs[..i] || b in bs[j..];
      var x :| 0 <= x < |bs| && bs[x] == b && (x < i || x >= j);
      if x < k { Ordered(bs, lo, hi, x, k); } else { Ordered(bs, lo, hi, k, x); }
      Bounds(bs, lo, hi, k);
    }
    forall b | b in Live(bs) && b != bs[k] ensures b in Live(rs) {
      var x :| 0 <= x < |bs| && bs[x] == b;
      assert x < i || x >= j;
      if x < i { assert rs[x] == b; } else { assert rs[i + 1 + (x - j)] == b; }
    }
  }
}
