/**
  Whole runs of the allocator together with what its clients hold, and the laws that
  hold in every state such a run can reach.
 */
module HeapRuns {
  import opened Wrappers
  import opened Layout
  import opened Metadata
  import opened HeapModel

  // ---------------------------------------------------------------- single steps

  lemma LiveAt(s: Heap, a: int)
    requires Inv(s)
    ensures LiveHeaderAt(s, a) <==> exists b :: b in Live(s.blocks) && b.addr == a
    ensures forall b | b in Live(s.blocks) && b.addr == a :: s.blocks[IndexAt(s.blocks, a)] == b
  {
    forall b | b in s.blocks && b.addr == a
      ensures a !in s.stale && IndexAt(s.blocks, a) < |s.blocks| && s.blocks[IndexAt(s.blocks, a)] == b
    {
      var i :| 0 <= i < |s.blocks| && s.blocks[i] == b;
      IndexUnique(s.blocks, s.lo, s.hi, i);
      assert !Apart(a, b);
    }
    var k := IndexAt(s.blocks, a);
    if LiveHeaderAt(s, a) {
      assert s.blocks[k] in Live(s.blocks);
    }
  }

  /** `dealloc` succeeds exactly on payload addresses of live blocks, for every pointer whatsoever. */
  lemma DeallocSucceeds(s: Heap, ptr: int)
    requires Inv(s) && !s.frozen
    ensures Dealloc(s, ptr).1.Ok? <==> exists b :: b in Live(s.blocks) && b.Payload() == ptr
    ensures forall b | b in Live(s.blocks) && b.Payload() == ptr ::
              Live(Dealloc(s, ptr).0.blocks) == Live(s.blocks) - {b}
    ensures !Dealloc(s, ptr).1.Ok? ==>
              Dealloc(s, ptr).0.(stats := s.stats) == s
  {
    LiveAt(s, ptr - HEADER);
    Disjoint(s.blocks, s.lo, s.hi);
    if LiveHeaderAt(s, ptr - HEADER) {
      ReleaseKeeps(s.blocks, s.lo, s.hi, IndexAt(s.blocks, ptr - HEADER));
    }
  }

  /**
    What `dealloc` answers to every pointer, and which one counter a failure moves: frozen first, then the
    range, then live, then free or stale, then anything else.
   */
  lemma DeallocExact(s: Heap, ptr: int)
    requires Inv(s)
    ensures var (u, r) := Dealloc(s, ptr);
            if s.frozen then r == Err(AllocatorFrozen) && u == s
            else if ptr < s.lo || ptr > s.hi then r == Err(InvalidPointer) && u == s
            else if exists b :: b in s.blocks && b.status.Allocated? && b.Payload() == ptr then r == Ok
            else if ptr - HEADER in s.stale || exists b :: b in s.blocks && b.status.Free? && b.Payload() == ptr
            then r == Err(DoubleFree) && u == s.(stats := s.stats.(doubleFrees := s.stats.doubleFrees + 1))
            else r == Err(CorruptedHeader) && u == s.(stats := s.stats.(corrupted := s.stats.corrupted + 1))
  {
    hide Ledger, Coalesced, ReleaseHeap;
    var a := ptr - HEADER;
    var k := IndexAt(s.blocks, a);
    forall b | b in s.blocks && b.Payload() == ptr ensures k < |s.blocks| && s.blocks[k] == b && a !in s.stale {
      var i :| 0 <= i < |s.blocks| && s.blocks[i] == b;
      IndexUnique(s.blocks, s.lo, s.hi, i);
      assert a in s.stale ==> Apart(a, b);
    }
    assert k < |s.blocks| ==> s.blocks[k] in s.blocks && s.blocks[k].Payload() == ptr;
  }

  /**
    First fit: a request succeeds exactly when the heap is not frozen, the size is positive, the alignment
    is a power of two, and some free block has room for the padding, one more header and at least 16 bytes;
    it takes the lowest such block. A refusal adds one to the failed requests and changes nothing else.
   */
  lemma FirstFitExact(s: Heap, size: nat, align: nat)
    requires Inv(s)
    ensures Alloc(s, size, align).1.Some? <==>
            && !s.frozen && size > 0 && SomePower(align)
            && exists b :: b in s.blocks && HasRoom(b, size, align)
    ensures Alloc(s, size, align).1.Some? ==>
              exists k :: 0 <= k < |s.blocks| && TakesBlock(s, size, align, k)
    ensures Alloc(s, size, align).1.None? ==>
              Alloc(s, size, align).0 == s.(stats := s.stats.(failedAllocs := s.stats.failedAllocs + 1))
  {
    hide Ledger, Coalesced, StaleApart, TallyOf, IsPowerOfTwo;
    PowerIff(align);
    if !s.frozen && ValidRequest(size, align) {
      PositivePower(align);
      var k := FirstFit(s.blocks, size, align);
      if k < |s.blocks| {
        assert s.blocks[k] in s.blocks && HasRoom(s.blocks[k], size, align);
        TakesFirst(s, size, align, k);
      } else {
        forall b | b in s.blocks ensures !HasRoom(b, size, align) {
          var i :| 0 <= i < |s.blocks| && s.blocks[i] == b;
          assert !Fits(s.blocks[i], size, align);
        }
      }
    }
  }

  lemma PositivePower(a: nat)
    requires IsPowerOfTwo(a)
    ensures a > 0
  {
  }

  lemma TakesFirst(s: Heap, size: nat, align: nat, k: nat)
    requires Inv(s) && !s.frozen && ValidRequest(size, align)
    requires k == FirstFit(s.blocks, size, align) < |s.blocks|
    ensures TakesBlock(s, size, align, k)
  {
    CarveSlices(s.blocks, k, Required(s.blocks[k], size, align));
    forall i | 0 <= i < k ensures !HasRoom(s.blocks[i], size, align) {
      assert !Fits(s.blocks[i], size, align);
    }
  }

  lemma CarveSlices(bs: seq<Block>, k: nat, req: nat)
    requires k < |bs| && MIN_BLOCK <= req <= bs[k].size
    ensures var cs, mid := CarveAt(bs, k, req), Carve(bs[k], req);
            && k < |cs| && cs[..k] == bs[..k] && cs[k] == mid[0]
            && (|mid| == 1 ==> cs[k + 1..] == bs[k + 1..])
            && (|mid| == 2 ==> k + 1 < |cs| && cs[k + 1] == mid[1] && cs[k + 2..] == bs[k + 1..])
  {
  }

  predicate HasRoom(b: Block, size: nat, align: nat) {
    && b.status.Free? && align > 0
    && b.size >= (AlignUp(b.addr + 48, align) - (b.addr + 48)) + 48 + Max(size, 16)
  }

  ghost predicate TakesBlock(s: Heap, size: nat, align: nat, k: nat)
    requires Inv(s) && k < |s.blocks|
  {
    var (s', r) := Alloc(s, size, align);
    && HasRoom(s.blocks[k], size, align)
    && (forall i | 0 <= i < k :: !HasRoom(s.blocks[i], size, align))
    && r == Some(AlignUp(s.blocks[k].Payload(), align))
    && k < |s'.blocks| && s'.blocks[k].status.Allocated? && s'.blocks[k].addr == s.blocks[k].addr
    && r.value + Max(size, 16) <= s'.blocks[k].End()
    && s'.blocks[..k] == s.blocks[..k]
    && (s'.blocks[k + 1..] == s.blocks[k + 1..]
        || (k + 1 < |s'.blocks| && s'.blocks[k + 2..] == s.blocks[k + 1..]
            && s'.blocks[k + 1].status.Free? && s'.blocks[k + 1].End() == s.blocks[k].End()))
  }

  /** The state after releasing the live block `b`. */
  ghost function Released(s: Heap, b: Block): Heap
    requires Inv(s) && b in Live(s.blocks)
  {
    LiveAt(s, b.addr);
    ReleaseHeap(s, IndexAt(s.blocks, b.addr))
  }

  lemma ReleasedFacts(s: Heap, b: Block)
    requires Inv(s) && b in Live(s.blocks)
    ensures Inv(Released(s, b)) && Live(Released(s, b).blocks) == Live(s.blocks) - {b}
    ensures Released(s, b).lo == s.lo && Released(s, b).hi == s.hi && Released(s, b).frozen == s.frozen
  {
    LiveAt(s, b.addr);
    var k := IndexAt(s.blocks, b.addr);
    ReleaseInv(s, k);
    ReleaseKeeps(s.blocks, s.lo, s.hi, k);
  }

  lemma ReleasedStale(s: Heap, b: Block)
    requires Inv(s) && b in Live(s.blocks)
    ensures Addrs(Released(s, b).blocks) <= Addrs(s.blocks)
    ensures Released(s, b).stale ==
            Surviving(s.stale, b.Payload(), NODE) + (Addrs(s.blocks) - Addrs(Released(s, b).blocks))
  {
    LiveAt(s, b.addr);
    Swallowed(s.blocks, s.lo, s.hi, IndexAt(s.blocks, b.addr));
  }

  lemma DeallocReleases(s: Heap, b: Block)
    requires Inv(s) && b in Live(s.blocks) && !s.frozen
    ensures Dealloc(s, b.Payload()) == (Released(s, b), Ok)
  {
    hide Coalesced, StaleApart, TallyOf, Ledger, ReleaseHeap;
    LiveAt(s, b.addr);
    var i :| 0 <= i < |s.blocks| && s.blocks[i] == b;
    Bounds(s.blocks, s.lo, s.hi, i);
  }

  /** Counters that a release changes without regard to the layout. */
  lemma ReleasedStats(s: Heap, b: Block)
    requires Inv(s) && b in Live(s.blocks)
    ensures var st, st' := s.stats, Released(s, b).stats;
            st' == st.(usedSize := st'.usedSize, freeSize := st'.freeSize, allocCount := st'.allocCount,
                       freeCount := st'.freeCount, merges := st'.merges, coalesces := st'.coalesces,
                       totalFrees := st.totalFrees + 1)
  {
    LiveAt(s, b.addr);
    LiveBlockCounted(s, IndexAt(s.blocks, b.addr));
  }

  /** Releasing two live blocks in either order leads to the same state, ledger and stale headers included. */
  lemma ReleasesCommute(s: Heap, b: Block, c: Block)
    requires Inv(s) && b in Live(s.blocks) && c in Live(s.blocks) && b != c
    ensures Inv(Released(s, b)) && c in Live(Released(s, b).blocks)
    ensures Inv(Released(s, c)) && b in Live(Released(s, c).blocks)
    ensures Released(Released(s, b), c) == Released(Released(s, c), b)
  {
    hide Inv, Live, Released, TwoFrees;
    ReleasedFacts(s, b);
    ReleasedFacts(s, c);
    ReleasedFacts(Released(s, b), c);
    ReleasedFacts(Released(s, c), b);
    BlocksAfterTwo(s, b, c);
    StaleAfterTwo(s, b, c);
    StaleAfterTwo(s, c, b);
    StatsAfterTwo(s, b, c);
    StatsAfterTwo(s, c, b);
    SameHeap(s.stale, Addrs(s.blocks), b.Payload(), c.Payload(),
             Released(Released(s, b), c), Released(Released(s, c), b), s.stats);
  }

  /** Two states with equal blocks and balanced ledgers that differ from a common origin as two releases do. */
  lemma SameHeap(stale: set<int>, heads: set<int>, p: int, q: int, x: Heap, y: Heap, st: AllocStats)
    requires Ledger(x) && Ledger(y) && x.lo == y.lo && x.hi == y.hi && x.frozen == y.frozen && x.blocks == y.blocks
    requires x.stale == Surviving(Surviving(stale, p, NODE), q, NODE) + (heads - Addrs(x.blocks))
    requires y.stale == Surviving(Surviving(stale, q, NODE), p, NODE) + (heads - Addrs(y.blocks))
    requires TwoFrees(st, x.stats) && TwoFrees(st, y.stats)
    ensures x == y
  {
    assert x.stale == y.stale;
  }

  predicate TwoFrees(st: AllocStats, st': AllocStats) {
    st' == st.(usedSize := st'.usedSize, freeSize := st'.freeSize, allocCount := st'.allocCount,
               freeCount := st'.freeCount, merges := st'.merges, coalesces := st'.coalesces,
               totalFrees := st.totalFrees + 2)
  }

  lemma BlocksAfterTwo(s: Heap, b: Block, c: Block)
    requires Inv(s) && b in Live(s.blocks) && c in Live(s.blocks) && b != c
    ensures Inv(Released(s, b)) && c in Live(Released(s, b).blocks)
    ensures Inv(Released(s, c)) && b in Live(Released(s, c).blocks)
    ensures Released(Released(s, b), c).blocks == Released(Released(s, c), b).blocks
  {
    hide Inv, Live, Released;
    ReleasedFacts(s, b);
    ReleasedFacts(s, c);
    ReleasedFacts(Released(s, b), c);
    ReleasedFacts(Released(s, c), b);
    var l := Live(s.blocks);
    assert l - {b} - {c} == l - {c} - {b};
    Canonical(Released(Released(s, b), c).blocks, Released(Released(s, c), b).blocks, s.lo, s.hi);
  }

  lemma StatsAfterTwo(s: Heap, b: Block, c: Block)
    requires Inv(s) && b in Live(s.blocks) && c in Live(s.blocks) && b != c
    ensures Inv(Released(s, b)) && c in Live(Released(s, b).blocks)
    ensures TwoFrees(s.stats, Released(Released(s, b), c).stats)
  {
    ReleasedFacts(s, b);
    ReleasedStats(s, b);
    ReleasedStats(Released(s, b), c);
  }

  /** What two releases leave stale: survivors of both node writes, and every header the walk lost. */
  lemma StaleAfterTwo(s: Heap, b: Block, c: Block)
    requires Inv(s) && b in Live(s.blocks) && c in Live(s.blocks) && b != c
    ensures Inv(Released(s, b)) && c in Live(Released(s, b).blocks)
    ensures Released(Released(s, b), c).stale ==
            Surviving(Surviving(s.stale, b.Payload(), NODE), c.Payload(), NODE)
            + (Addrs(s.blocks) - Addrs(Released(Released(s, b), c).blocks))
  {
    ReleasedFacts(s, b);
    ReleasedStale(s, b);
    ReleasedStale(Released(s, b), c);
    HeadsSurvive(s, c);
    TwoLosses(s.stale, Addrs(s.blocks), Addrs(Released(s, b).blocks), Addrs(Released(Released(s, b), c).blocks),
              b.Payload(), c.Payload());
  }

  lemma TwoLosses(stale: set<int>, heads: set<int>, heads1: set<int>, heads2: set<int>,
      p: int, q: int)
    requires heads2 <= heads1 <= heads
    requires forall a | a in heads :: a + HEADER <= q || q + NODE <= a
    ensures Surviving(Surviving(stale, p, NODE) + (heads - heads1), q, NODE) + (heads1 - heads2)
         == Surviving(Surviving(stale, p, NODE), q, NODE) + (heads - heads2)
  {
    var lost := heads - heads1;
    assert Surviving(lost, q, NODE) == lost;
  }

  lemma HeadsSurvive(s: Heap, c: Block)
    requires Inv(s) && c in s.blocks
    ensures forall a | a in Addrs(s.blocks) :: a + HEADER <= c.Payload() || c.Payload() + NODE <= a
  {
    Disjoint(s.blocks, s.lo, s.hi);
  }

  /** The same for the pointers themselves. */
  lemma FreesCommute(s: Heap, p: int, q: int)
    requires Inv(s)
    ensures Inv(Dealloc(s, p).0) && Inv(Dealloc(s, q).0)
    ensures p != q && Dealloc(s, p).1.Ok? && Dealloc(s, q).1.Ok? ==>
              && Dealloc(Dealloc(s, p).0, q).1.Ok?
              && Dealloc(Dealloc(s, p).0, q) == Dealloc(Dealloc(s, q).0, p)
  {
    DeallocInv(s, p);
    DeallocInv(s, q);
    if p != q && Dealloc(s, p).1.Ok? && Dealloc(s, q).1.Ok? {
      hide Inv, Dealloc;
      assert !s.frozen by { NotFrozen(s, p); }
      DeallocSucceeds(s, p);
      DeallocSucceeds(s, q);
      var b :| b in Live(s.blocks) && b.Payload() == p;
      var c :| c in Live(s.blocks) && c.Payload() == q;
      ReleasesCommute(s, b, c);
      ReleasedFacts(s, b);
      ReleasedFacts(s, c);
      DeallocReleases(s, b);
      DeallocReleases(s, c);
      DeallocReleases(Released(s, b), c);
      DeallocReleases(Released(s, c), b);
    }
  }

  /** The pointers of a sequence freed one after the other. */
  ghost function FreeAll(s: Heap, ps: seq<int>): (s': Heap)
    requires Inv(s)
    ensures Inv(s')
    decreases |ps|
  {
    if ps == [] then s else
      DeallocInv(s, ps[0]);
      FreeAll(Dealloc(s, ps[0]).0, ps[1..])
  }

  /** Different pointers, each of which could be freed now. */
  ghost predicate Freeable(s: Heap, ps: seq<int>)
    requires Inv(s)
  {
    && (forall i, j | 0 <= i < j < |ps| :: ps[i] != ps[j])
    && (forall i | 0 <= i < |ps| :: Dealloc(s, ps[i]).1.Ok?)
  }

  lemma StillFreeable(s: Heap, ps: seq<int>)
    requires Inv(s) && Freeable(s, ps) && ps != []
    ensures Inv(Dealloc(s, ps[0]).0) && Freeable(Dealloc(s, ps[0]).0, ps[1..])
  {
    hide Inv, Dealloc;
    DeallocInv(s, ps[0]);
    forall i | 0 <= i < |ps[1..]| ensures Dealloc(Dealloc(s, ps[0]).0, ps[1..][i]).1.Ok? {
      FreesCommute(s, ps[0], ps[1..][i]);
    }
  }

  /** The pointer at position `i` brought to the front. */
  function Fronted(ps: seq<int>, i: nat): seq<int>
    requires i < |ps|
  {
    [ps[i]] + ps[..i] + ps[i + 1..]
  }

  lemma {:induction false} FrontFirst(s: Heap, ps: seq<int>, i: nat)
    requires Inv(s) && Freeable(s, ps) && i < |ps|
    ensures FreeAll(s, Fronted(ps, i)) == FreeAll(s, ps)
    decreases i
  {
    hide Inv, Dealloc, Fronted;
    FrontedTail(ps, i);
    if i > 0 {
      var p, q, rest := ps[0], ps[i], ps[1..i] + ps[i + 1..];
      FreesCommute(s, p, q);
      StillFreeable(s, ps);
      FrontFirst(Dealloc(s, p).0, ps[1..], i - 1);
      DeallocInv(Dealloc(s, p).0, q);
      TwoThen(s, p, q, rest);
      TwoThen(s, q, p, rest);
    }
  }

  lemma FrontedTail(ps: seq<int>, i: nat)
    requires i < |ps|
    ensures i == 0 ==> Fronted(ps, i) == ps
    ensures i > 0 ==>
              var rest := ps[1..i] + ps[i + 1..];
              Fronted(ps[1..], i - 1) == [ps[i]] + rest && Fronted(ps, i) == [ps[i], ps[0]] + rest
  {
    if i > 0 {
      var rest := ps[1..i] + ps[i + 1..];
      assert ps[1..][..i - 1] == ps[1..i] && ps[1..][i..] == ps[i + 1..];
      assert Fronted(ps[1..], i - 1) == [ps[i]] + rest;
      assert ps[..i] == [ps[0]] + ps[1..i];
      assert Fronted(ps, i) == [ps[i], ps[0]] + rest;
    }
  }

  lemma TwoThen(s: Heap, p: int, q: int, rest: seq<int>)
    requires Inv(s) && Inv(Dealloc(s, p).0) && Inv(Dealloc(Dealloc(s, p).0, q).0)
    ensures FreeAll(s, [p, q] + rest) == FreeAll(Dealloc(Dealloc(s, p).0, q).0, rest)
    ensures FreeAll(Dealloc(s, p).0, [q] + rest) == FreeAll(Dealloc(Dealloc(s, p).0, q).0, rest)
  {
    hide Inv, Dealloc;
    assert ([p, q] + rest)[1..] == [q] + rest && ([q] + rest)[1..] == rest;
  }

  /** Freeing the same live pointers in any two orders leads to the same state. */
  lemma {:induction false} FreeOrderIrrelevant(s: Heap, ps: seq<int>, qs: seq<int>)
    requires Inv(s)
    ensures Freeable(s, ps) && Freeable(s, qs) && (forall p :: p in ps <==> p in qs) ==>
              FreeAll(s, ps) == FreeAll(s, qs)
    decreases |ps|
  {
    hide Inv, Dealloc;
    if Freeable(s, ps) && Freeable(s, qs) && forall p :: p in ps <==> p in qs {
      if ps != [] {
        assert ps[0] in qs;
        var i :| 0 <= i < |qs| && qs[i] == ps[0];
        var front := Fronted(qs, i);
        FrontFirst(s, qs, i);
        FrontMembers(qs, i);
        StillFreeable(s, ps);
        StillFreeable(s, front);
        assert ps == [ps[0]] + ps[1..];
        FreeOrderIrrelevant(Dealloc(s, ps[0]).0, ps[1..], front[1..]);
      } else {
        NoneLeft(ps, qs);
      }
    }
  }

  lemma NoneLeft(ps: seq<int>, qs: seq<int>)
    requires forall p :: p in qs ==> p in ps
    ensures ps == [] ==> qs == []
  {
    if qs != [] {
      var q := qs[0];
      assert q in qs && q in ps;
    }
  }

  lemma FrontMembers(ps: seq<int>, i: nat)
    requires i < |ps| && forall j, k | 0 <= j < k < |ps| :: ps[j] != ps[k]
    ensures var front := Fronted(ps, i);
            && (forall j, k | 0 <= j < k < |front| :: front[j] != front[k])
            && (forall x :: x in front[1..] <==> x in ps && x != ps[i])
            && (forall j | 0 <= j < |front| :: front[j] in ps)
  {
    var front := Fronted(ps, i);
    assert front[1..] == ps[..i] + ps[i + 1..];
    assert ps == ps[..i] + [ps[i]] + ps[i + 1..];
  }

  lemma NotFrozen(s: Heap, p: int)
    requires Inv(s) && Dealloc(s, p).1.Ok?
    ensures !s.frozen
  {
  }

  /**
    `alloc` then `dealloc` of the pointer it returned: the free succeeds exactly when the block's
    payload was already aligned, and then it restores the layout and the four block counters.
   */
  lemma AllocThenDealloc(s: Heap, size: nat, align: nat)
    requires Inv(s) && Alloc(s, size, align).1.Some?
    ensures Inv(Alloc(s, size, align).0)
    ensures var k := FirstFit(s.blocks, size, align);
            var (s1, r) := Alloc(s, size, align);
            var (s2, e) := Dealloc(s1, r.value);
            && k < |s.blocks|
            && (e.Ok? <==> s.blocks[k].Payload() % align == 0)
            && (e.Ok? ==> s2.blocks == s.blocks
                          && s2.stats.usedSize == s.stats.usedSize && s2.stats.freeSize == s.stats.freeSize
                          && s2.stats.allocCount == s.stats.allocCount && s2.stats.freeCount == s.stats.freeCount)
            && (!e.Ok? ==> s2.blocks == s1.blocks)
  {
    hide StaleApart, Coalesced, TallyOf, IsPowerOfTwo, FreeNodes, Surviving, ReleaseAt, CarveAt;
    var k := FirstFit(s.blocks, size, align);
    var b, req := s.blocks[k], Required(s.blocks[k], size, align);
    var (s1, r) := Alloc(s, size, align);
    AllocInv(s, size, align);
    CarveKeeps(s.blocks, s.lo, s.hi, k, req);
    var c := Carve(b, req)[0];
    DeallocSucceeds(s1, r.value);
    PointerOfBlock(s1, c, r.value);
    if Dealloc(s1, r.value).1.Ok? {
      DeallocInv(s1, r.value);
      Canonical(Dealloc(s1, r.value).0.blocks, s.blocks, s.lo, s.hi);
    }
  }

  /** A pointer into a live block is the payload address of some live block only if it is that block's own. */
  lemma PointerOfBlock(s: Heap, c: Block, ptr: int)
    requires Inv(s) && c in Live(s.blocks) && c.Payload() <= ptr < c.End()
    ensures (exists b :: b in Live(s.blocks) && b.Payload() == ptr) <==> ptr == c.Payload()
  {
    Disjoint(s.blocks, s.lo, s.hi);
    assert c in s.blocks;
  }

  /** With nothing allocated the heap is one free block again. */
  lemma EmptyHeapIsOneBlock(s: Heap)
    requires Inv(s) && Live(s.blocks) == {}
    ensures s.lo + MIN_BLOCK <= s.hi
    ensures s.blocks == [Block(s.lo, s.hi - s.lo - HEADER, Free)]
    ensures s.stats.freeSize == s.stats.totalSize && s.stats.usedSize == 0 && s.stats.freeCount == 1
  {
    EdgeBounds(s.blocks, s.lo, s.hi);
    var one := [Block(s.lo, s.hi - s.lo - HEADER, Free)];
    assert one[1..] == [];
    assert Tiles(one, s.lo, s.hi);
    Canonical(s.blocks, one, s.lo, s.hi);
    TallySingle(one[0]);
  }

  /** The ledger accounts for every byte, and free blocks outnumber live ones by at most one. */
  lemma LedgerBalances(s: Heap)
    requires Inv(s)
    ensures s.stats.usedSize + s.stats.freeSize + HEADER * s.stats.allocCount == s.stats.totalSize
    ensures s.stats.freeCount == |FreeNodes(s.blocks)| <= s.stats.allocCount + 1
    ensures s.stats.totalAllocs - s.stats.totalFrees == s.stats.allocCount == |Live(s.blocks)|
    ensures s.stats.allocCount + s.stats.freeCount == 1 + s.stats.splits - s.stats.merges == |s.blocks|
  {
    LiveCount(s.blocks, s.lo, s.hi);
    TallyTotal(s.blocks, s.lo, s.hi);
    FreeAtMostOneMore(s.blocks);
    FreeNodesFacts(s.blocks, s.lo, s.hi);
  }

  /** When a valid request is refused, little free space is left per live block. */
  lemma FragmentationBound(s: Heap, size: nat, align: nat)
    requires Inv(s) && Alloc(s, size, align).1.None?
    ensures !s.frozen && size > 0 && SomePower(align) ==>
              s.stats.freeSize < (s.stats.allocCount + 1) * (Max(size, 16) + align + 95)
  {
    hide Ledger, Coalesced, StaleApart, TallyOf, Tiles;
    FirstFitExact(s, size, align);
    if !s.frozen && size > 0 && SomePower(align) {
      RefusedBound(s, size, align);
    }
  }

  lemma RefusedBound(s: Heap, size: nat, align: nat)
    requires Inv(s) && align > 0 && !exists b :: b in s.blocks && HasRoom(b, size, align)
    ensures s.stats.freeSize < (s.stats.allocCount + 1) * (Max(size, 16) + align + 95)
  {
    var bound := Max(size, 16) + align + 94;
    forall b | b in s.blocks && b.status.Free? ensures b.size + HEADER <= bound {
      assert !HasRoom(b, size, align);
    }
    FreeSizeBound(s.blocks, bound);
    LedgerBalances(s);
    BoundProduct(s.stats.freeSize, s.stats.freeCount, s.stats.allocCount + 1, bound);
  }

  lemma BoundProduct(free: nat, n: nat, m: nat, bound: nat)
    requires free <= n * bound && n <= m && m > 0
    ensures free < m * (bound + 1)
  {
    assert n * bound <= m * bound;
  }

  lemma {:induction false} FreeSizeBound(bs: seq<Block>, bound: nat)
    requires forall b | b in bs && b.status.Free? :: b.size + HEADER <= bound
    ensures TallyOf(bs).free <= TallyOf(bs).frees * bound
  {
    if bs != [] {
      FreeSizeBound(bs[1..], bound);
      var f := TallyOf(bs[1..]).frees;
      assert (f + 1) * bound == f * bound + bound;
      assert bs[0] in bs;
    }
  }

  // ---------------------------------------------------------------- runs

  datatype Op = AllocOp(size: nat, align: nat) | DeallocOp(ptr: int) | StoreOp(at: int, n: nat)
              | CopyOp(src: int, dst: int, n: nat) | FreezeOp

  /** What a client was given and has not successfully returned, by the address of its block. */
  datatype Grant = Grant(ptr: nat, size: nat, align: nat)
  datatype Session = Session(heap: Heap, grants: map<nat, Grant>)

  /** The pointer is the first aligned address of the payload, and the bytes asked for fit behind it. */
  predicate GrantOk(b: Block, g: Grant) {
    && g.size > 0 && g.align > 0 && g.ptr % g.align == 0
    && b.Payload() <= g.ptr < b.Payload() + g.align && g.ptr + Need(g.size) <= b.End()
  }

  /** Every live block has its grant and every grant its live block. */
  ghost predicate Matches(live: set<Block>, grants: map<nat, Grant>) {
    && (forall b | b in live :: b.addr in grants && GrantOk(b, grants[b.addr]))
    && (forall a | a in grants :: exists b :: b in live && b.addr == a)
  }

  ghost predicate Good(t: Session) { Inv(t.heap) && Matches(Live(t.heap.blocks), t.grants) }

  lemma AddGrant(live: set<Block>, grants: map<nat, Grant>, c: Block, g: Grant)
    requires Matches(live, grants) && GrantOk(c, g) && forall b | b in live :: b.addr != c.addr
    ensures Matches(live + {c}, grants[c.addr := g])
  {
    var grants' := grants[c.addr := g];
    forall a | a in grants' ensures exists b :: b in live + {c} && b.addr == a {
      if a == c.addr {
        assert c in live + {c};
      } else {
        var b :| b in live && b.addr == a;
        assert b in live + {c};
      }
    }
  }

  lemma DropGrant(live: set<Block>, grants: map<nat, Grant>, c: Block)
    requires Matches(live, grants) && c in live && forall b | b in live && b != c :: b.addr != c.addr
    ensures Matches(live - {c}, grants - {c.addr})
  {
    forall a | a in grants - {c.addr} ensures exists b :: b in live - {c} && b.addr == a {
      var b :| b in live && b.addr == a;
      assert b in live - {c};
    }
  }

  ghost function Start(start: nat, size: nat): (t: Session)
    requires start > 0 && size >= 2 * MIN_BLOCK
    ensures Good(t)
  {
    NewInv(start, size);
    Session(NewHeap(start, size), map[])
  }

  /** The block a successful request turns into an allocated one. */
  ghost function GrantedBlock(s: Heap, size: nat, align: nat): Block
    requires Inv(s) && Alloc(s, size, align).1.Some?
  {
    var k := FirstFit(s.blocks, size, align);
    Carve(s.blocks[k], Required(s.blocks[k], size, align))[0]
  }

  lemma GrantedFacts(s: Heap, size: nat, align: nat)
    requires Inv(s) && Alloc(s, size, align).1.Some?
    ensures var (s', r) := Alloc(s, size, align);
            var c := GrantedBlock(s, size, align);
            && Inv(s') && Live(s'.blocks) == Live(s.blocks) + {c}
            && GrantOk(c, Grant(r.value, size, align))
            && (forall b | b in Live(s.blocks) :: b.addr != c.addr)
  {
    hide Ledger, StaleApart, AlignUp, TallyOf, FreeNodes, Coalesced;
    var k := FirstFit(s.blocks, size, align);
    AllocInv(s, size, align);
    AllocFound(s, size, align, k);
    CarveLive(s.blocks, s.lo, s.hi, k, Required(s.blocks[k], size, align));
    Disjoint(s.blocks, s.lo, s.hi);
    assert s.blocks[k] in s.blocks;
  }

  /** One client action; stores and copies are only made inside live payloads. */
  ghost function Step(t: Session, op: Op): (t': Session)
    requires Good(t)
  {
    match op
    case AllocOp(size, align) =>
      var (h, r) := Alloc(t.heap, size, align);
      if r.None? then t.(heap := h)
      else Session(h, t.grants[GrantedBlock(t.heap, size, align).addr := Grant(r.value, size, align)])
    case DeallocOp(ptr) =>
      var (h, r) := Dealloc(t.heap, ptr);
      if r.Ok? then Session(h, t.grants - {ptr - HEADER}) else t.(heap := h)
    case StoreOp(at, n) =>
      if InLivePayload(t.heap, at, n) then t.(heap := Store(t.heap, at, n)) else t
    case CopyOp(src, dst, n) =>
      if InLivePayload(t.heap, src, n) && InLivePayload(t.heap, dst, n)
      then t.(heap := Copy(t.heap, src, dst, n)) else t
    case FreezeOp => t.(heap := t.heap.(frozen := true))
  }

  lemma StepGood(t: Session, op: Op)
    requires Good(t)
    ensures Good(Step(t, op))
  {
    hide Ledger, StaleApart, Matches;
    match op
    case AllocOp(size, align) =>
      AllocInv(t.heap, size, align);
      if Alloc(t.heap, size, align).1.Some? { AllocGood(t, size, align); }
    case DeallocOp(ptr) =>
      DeallocInv(t.heap, ptr);
      if Dealloc(t.heap, ptr).1.Ok? { DeallocGood(t, ptr); }
    case StoreOp(at, n) => StoreInv(t.heap, at, n);
    case CopyOp(src, dst, n) =>
      if InLivePayload(t.heap, dst, n) { CopyInv(t.heap, src, dst, n); }
    case FreezeOp => FreezeInv(t.heap);
  }

  lemma AllocGood(t: Session, size: nat, align: nat)
    requires Good(t) && Alloc(t.heap, size, align).1.Some?
    ensures Good(Session(Alloc(t.heap, size, align).0,
                         t.grants[GrantedBlock(t.heap, size, align).addr :=
                                  Grant(Alloc(t.heap, size, align).1.value, size, align)]))
  {
    GrantedFacts(t.heap, size, align);
    AddGrant(Live(t.heap.blocks), t.grants, GrantedBlock(t.heap, size, align),
             Grant(Alloc(t.heap, size, align).1.value, size, align));
  }

  lemma DeallocGood(t: Session, ptr: int)
    requires Good(t) && Dealloc(t.heap, ptr).1.Ok?
    ensures Good(Session(Dealloc(t.heap, ptr).0, t.grants - {ptr - HEADER}))
  {
    ReleasedGood(t, t.heap.blocks[IndexAt(t.heap.blocks, ptr - HEADER)]);
  }

  lemma ReleasedGood(t: Session, c: Block)
    requires Good(t) && c in Live(t.heap.blocks)
    ensures Good(Session(Released(t.heap, c), t.grants - {c.addr}))
  {
    ReleasedFacts(t.heap, c);
    assert forall b | b in Live(t.heap.blocks) && b != c :: b.addr != c.addr by {
      Disjoint(t.heap.blocks, t.heap.lo, t.heap.hi);
    }
    DropGrant(Live(t.heap.blocks), t.grants, c);
  }

  ghost function Run(t: Session, ops: seq<Op>): (t': Session)
    requires Good(t)
    ensures Good(t')
    decreases |ops|
  {
    if ops == [] then t else
      StepGood(t, ops[0]);
      Run(Step(t, ops[0]), ops[1..])
  }

  /** The recorded extremes bound every block that is live. */
  ghost predicate Extremes(s: Heap) {
    forall b | b in Live(s.blocks) :: s.stats.minAlloc <= b.size <= s.stats.maxAlloc
  }

  lemma AllocExtremes(s: Heap, size: nat, align: nat)
    requires Inv(s) && Extremes(s) && Alloc(s, size, align).1.Some?
    ensures Extremes(Alloc(s, size, align).0)
  {
    hide Tiles, Coalesced, StaleApart, Ledger, TallyOf, FirstFit, IsPowerOfTwo, CarveAt;
    var k := FirstFit(s.blocks, size, align);
    AllocFound(s, size, align, k);
    CarveLive(s.blocks, s.lo, s.hi, k, Required(s.blocks[k], size, align));
  }

  lemma StepExtremes(t: Session, op: Op)
    requires Good(t) && Extremes(t.heap)
    ensures Extremes(Step(t, op).heap)
  {
    hide Inv, Alloc, Dealloc, GrantedBlock, Matches, Live;
    match op
    case AllocOp(size, align) =>
      if Alloc(t.heap, size, align).1.Some? {
        AllocExtremes(t.heap, size, align);
      } else {
        RefusedExtremes(t.heap, size, align);
      }
    case DeallocOp(ptr) => DeallocExtremes(t.heap, ptr);
    case StoreOp(at, n) =>
    case CopyOp(src, dst, n) =>
    case FreezeOp =>
  }

  lemma RefusedExtremes(s: Heap, size: nat, align: nat)
    requires Inv(s) && Extremes(s) && Alloc(s, size, align).1.None?
    ensures Extremes(Alloc(s, size, align).0)
  {
    hide Tiles, Coalesced, StaleApart, Ledger, FirstFit, IsPowerOfTwo, CarveAt;
  }

  lemma DeallocExtremes(s: Heap, ptr: int)
    requires Inv(s) && Extremes(s)
    ensures Extremes(Dealloc(s, ptr).0)
  {
    hide Tiles, Coalesced, StaleApart, Ledger, IndexAt, ReleaseAt;
    if Dealloc(s, ptr).1.Ok? {
      ReleaseLive(s.blocks, s.lo, s.hi, IndexAt(s.blocks, ptr - HEADER));
    }
  }

  /** In every reachable state the recorded minimum and maximum bound the sizes of all live blocks. */
  lemma {:induction false} RunExtremes(t: Session, ops: seq<Op>)
    requires Good(t) && Extremes(t.heap)
    ensures Extremes(Run(t, ops).heap)
    decreases |ops|
  {
    if ops != [] {
      StepExtremes(t, ops[0]);
      StepGood(t, ops[0]);
      RunExtremes(Step(t, ops[0]), ops[1..]);
    }
  }

  // ---------------------------------------------------------------- what the counters count

  /** What a run did, told by the answers its calls gave: the sizes granted, refusals, frees and failed frees. */
  datatype Account = Account(granted: seq<nat>, refused: nat, freed: nat, doubles: nat, corrupt: nat, used: seq<nat>)

  ghost function Told(t: Session, op: Op, rest: Account): Account
    requires Good(t)
  {
    match op
    case AllocOp(size, align) =>
      if Alloc(t.heap, size, align).1.Some?
      then rest.(granted := [GrantedBlock(t.heap, size, align).size] + rest.granted)
      else rest.(refused := rest.refused + 1)
    case DeallocOp(ptr) =>
      (match Dealloc(t.heap, ptr).1
       case Ok => rest.(freed := rest.freed + 1)
       case Err(DoubleFree) => rest.(doubles := rest.doubles + 1)
       case Err(CorruptedHeader) => rest.(corrupt := rest.corrupt + 1)
       case _ => rest)
    case _ => rest
  }

  ghost function Accounted(t: Session, ops: seq<Op>): Account
    requires Good(t)
    decreases |ops|
  {
    if ops == [] then Account([], 0, 0, 0, 0, []) else
      StepGood(t, ops[0]);
      var next := Step(t, ops[0]);
      var told := Told(t, ops[0], Accounted(next, ops[1..]));
      told.(used := [next.heap.stats.usedSize] + told.used)
  }

  function Highest(x: nat, s: seq<nat>): nat
    decreases |s|
  {
    if s == [] then x else Highest(Max(x, s[0]), s[1..])
  }

  function Lowest(x: nat, s: seq<nat>): nat
    decreases |s|
  {
    if s == [] then x else Lowest(if s[0] < x then s[0] else x, s[1..])
  }

  lemma OfOne(x: nat, y: nat)
    ensures Highest(x, [y]) == Max(x, y) && Lowest(x, [y]) == if y < x then y else x
  {
    assert [y][1..] == [];
  }

  /** The counters `st'` are those of `st` moved on by what the account tells. */
  ghost predicate Adds(st: AllocStats, a: Account, st': AllocStats) {
    && st'.totalAllocs == st.totalAllocs + |a.granted| && st'.failedAllocs == st.failedAllocs + a.refused
    && st'.totalFrees == st.totalFrees + a.freed
    && st'.doubleFrees == st.doubleFrees + a.doubles && st'.corrupted == st.corrupted + a.corrupt
    && st'.maxAlloc == Highest(st.maxAlloc, a.granted) && st'.minAlloc == Lowest(st.minAlloc, a.granted)
    && st'.peakUsed == Highest(st.peakUsed, a.used)
  }

  /** What one step does to those counters. */
  ghost predicate AddsOne(st: AllocStats, st': AllocStats, t: Session, op: Op)
    requires Good(t)
  {
    var a := Told(t, op, Account([], 0, 0, 0, 0, []));
    Adds(st, a.(used := [st'.usedSize]), st')
  }

  lemma AllocAdds(t: Session, size: nat, align: nat)
    requires Good(t)
    ensures AddsOne(t.heap.stats, Alloc(t.heap, size, align).0.stats, t, AllocOp(size, align))
  {
    hide Tiles, Coalesced, StaleApart, TallyOf, FirstFit, IsPowerOfTwo, CarveAt, Matches, AlignUp;
    var s := t.heap;
    if Alloc(s, size, align).1.Some? {
      var k := FirstFit(s.blocks, size, align);
      AllocFound(s, size, align, k);
      OfOne(s.stats.maxAlloc, GrantedBlock(s, size, align).size);
      OfOne(s.stats.minAlloc, GrantedBlock(s, size, align).size);
    }
    OfOne(s.stats.peakUsed, Alloc(s, size, align).0.stats.usedSize);
  }

  lemma DeallocAdds(t: Session, ptr: int)
    requires Good(t)
    ensures AddsOne(t.heap.stats, Dealloc(t.heap, ptr).0.stats, t, DeallocOp(ptr))
  {
    hide Tiles, Coalesced, StaleApart, TallyOf, Matches, IndexAt;
    OfOne(t.heap.stats.peakUsed, Dealloc(t.heap, ptr).0.stats.usedSize);
  }

  lemma StepAdds(t: Session, op: Op)
    requires Good(t)
    ensures AddsOne(t.heap.stats, Step(t, op).heap.stats, t, op)
  {
    hide Tiles, Coalesced, StaleApart, TallyOf, Matches, Alloc, Dealloc, GrantedBlock;
    OfOne(t.heap.stats.peakUsed, t.heap.stats.usedSize);
    match op
    case AllocOp(size, align) => AllocAdds(t, size, align);
    case DeallocOp(ptr) => DeallocAdds(t, ptr);
    case StoreOp(at, n) =>
    case CopyOp(src, dst, n) =>
    case FreezeOp =>
  }

  /**
    Over every run the statistics count what the calls answered: requests granted and refused, blocks freed,
    double frees and corrupted headers; the extremes are those of the sizes granted, and the peak is the
    highest use after any step.
   */
  lemma {:induction false} RunAccount(t: Session, ops: seq<Op>)
    requires Good(t)
    ensures Adds(t.heap.stats, Accounted(t, ops), Run(t, ops).heap.stats)
    decreases |ops|
  {
    hide Inv, Matches, Alloc, Dealloc, GrantedBlock, Step, Adds;
    if ops != [] {
      StepGood(t, ops[0]);
      StepAdds(t, ops[0]);
      var next := Step(t, ops[0]);
      RunAccount(next, ops[1..]);
      var rest := Accounted(next, ops[1..]);
      var one := Told(t, ops[0], Account([], 0, 0, 0, 0, [])).(used := [next.heap.stats.usedSize]);
      AddsTwice(t.heap.stats, one, next.heap.stats, rest, Run(t, ops).heap.stats);
      assert Joined(one, rest) == Accounted(t, ops);
    } else {
      AddsNothing(t.heap.stats);
    }
  }

  lemma AddsNothing(st: AllocStats)
    ensures Adds(st, Account([], 0, 0, 0, 0, []), st)
  {
  }

  function Joined(a: Account, b: Account): Account {
    Account(a.granted + b.granted, a.refused + b.refused, a.freed + b.freed, a.doubles + b.doubles,
            a.corrupt + b.corrupt, a.used + b.used)
  }

  lemma AddsTwice(st: AllocStats, a: Account, mid: AllocStats, b: Account, st': AllocStats)
    requires |a.granted| <= 1 && |a.used| == 1 && Adds(st, a, mid) && Adds(mid, b, st')
    ensures Adds(st, Joined(a, b), st')
  {
    if |a.granted| == 1 {
      ConsOf(st.maxAlloc, a.granted[0], b.granted);
      ConsOf(st.minAlloc, a.granted[0], b.granted);
      assert a.granted == [a.granted[0]];
    } else {
      assert a.granted + b.granted == b.granted;
    }
    ConsOf(st.peakUsed, a.used[0], b.used);
    assert a.used == [a.used[0]];
  }

  lemma ConsOf(x: nat, y: nat, s: seq<nat>)
    ensures Highest(x, [y] + s) == Highest(Highest(x, [y]), s)
    ensures Lowest(x, [y] + s) == Lowest(Lowest(x, [y]), s)
  {
    OfOne(x, y);
    assert ([y] + s)[1..] == s;
  }

  /** From a new heap on all counters start at zero, and the smallest size at the largest word. */
  lemma RunsAreCounted(start: nat, size: nat, ops: seq<Op>)
    requires start > 0 && size >= 2 * MIN_BLOCK
    ensures var a, st := Accounted(Start(start, size), ops), Run(Start(start, size), ops).heap.stats;
            && st.totalAllocs == |a.granted| && st.failedAllocs == a.refused && st.totalFrees == a.freed
            && st.doubleFrees == a.doubles && st.corrupted == a.corrupt
            && st.maxAlloc == Highest(0, a.granted) && st.minAlloc == Lowest(USIZE_MAX, a.granted)
            && st.peakUsed == Highest(0, a.used)
  {
    RunAccount(Start(start, size), ops);
  }

  /**
    In every reachable state each granted payload is aligned as requested, lies inside the heap,
    and is disjoint from every other granted payload and from every block header.
   */
  lemma {:induction false} GrantsDisjoint(start: nat, size: nat, ops: seq<Op>)
    requires start > 0 && size >= 2 * MIN_BLOCK
    ensures var t := Run(Start(start, size), ops);
            && (forall a | a in t.grants ::
                  var g := t.grants[a];
                  g.ptr % g.align == 0 && t.heap.lo + HEADER <= g.ptr && g.ptr + Need(g.size) <= t.heap.hi)
            && (forall a, c | a in t.grants && c in t.grants && a != c ::
                  Separate(t.grants[a].ptr, Need(t.grants[a].size), t.grants[c].ptr, Need(t.grants[c].size)))
            && (forall a, b | a in t.grants && b in t.heap.blocks ::
                  Separate(t.grants[a].ptr, Need(t.grants[a].size), b.addr, HEADER))
  {
    hide Ledger, StaleApart, Coalesced, TallyOf, Step, Run;
    var t := Run(Start(start, size), ops);
    Disjoint(t.heap.blocks, t.heap.lo, t.heap.hi);
    forall a, c | a in t.grants && c in t.grants && a != c
      ensures Separate(t.grants[a].ptr, Need(t.grants[a].size), t.grants[c].ptr, Need(t.grants[c].size))
    {
      var b :| b in Live(t.heap.blocks) && b.addr == a;
      var d :| d in Live(t.heap.blocks) && d.addr == c;
      assert b in t.heap.blocks && d in t.heap.blocks;
    }
    forall a, d | a in t.grants && d in t.heap.blocks
      ensures Separate(t.grants[a].ptr, Need(t.grants[a].size), d.addr, HEADER)
    {
      var b :| b in Live(t.heap.blocks) && b.addr == a;
      assert b in t.heap.blocks;
    }
  }

  predicate Separate(a: nat, n: nat, b: nat, m: nat) { a + n <= b || b + m <= a }

  /**
    In every state in which it is still held, a pointer can be freed exactly when its block's address + 48
    is a multiple of the alignment it was requested with; otherwise nothing is released.
   */
  lemma FreeableGrants(t: Session, a: nat)
    requires Good(t)
    ensures a in t.grants && !t.heap.frozen ==>
              var g := t.grants[a];
              var (s, r) := Dealloc(t.heap, g.ptr);
              && g.align > 0 && (r.Ok? <==> (a + HEADER) % g.align == 0)
              && (r.Ok? <==> g.ptr == a + HEADER)
              && (!r.Ok? ==> s.(stats := t.heap.stats) == t.heap)
  {
    hide Inv, Dealloc;
    if a in t.grants && !t.heap.frozen {
      var g := t.grants[a];
      var b :| b in Live(t.heap.blocks) && b.addr == a;
      DeallocSucceeds(t.heap, g.ptr);
      PointerOfBlock(t.heap, b, g.ptr);
      if (a + HEADER) % g.align == 0 { FirstMultiple(a + HEADER, g.ptr, g.align); }
    }
  }

  lemma FirstMultiple(x: nat, p: nat, a: nat)
    requires a > 0 && x % a == 0 && p % a == 0 && x <= p < x + a
    ensures p == x
  {
    assert p == x / a * a + (p - x);
    DivUnique(p, a, x / a, p - x);
  }

  // ---------------------------------------------------------------- granular runs

  predicate OnGranule(op: Op, g: nat) {
    op.AllocOp? ==> (g == 8 || g == 16) && Need(op.size) % g == 0 && op.align in {1, 2, 4, 8, 16} && op.align <= g
  }

  /** Every header sits on the granule and no grant is padded. */
  ghost predicate Unpadded(t: Session, g: nat) {
    && (g == 8 || g == 16)
    && (forall b | b in t.heap.blocks :: b.addr % g == 0)
    && (forall a | a in t.grants :: t.grants[a].ptr == a + HEADER)
  }

  /**
    In a run whose heap start, sizes and alignments all fit one granule of 8 or 16 bytes,
    every live pointer can be freed.
   */
  lemma GranularRunsFree(start: nat, size: nat, ops: seq<Op>, g: nat, a: nat)
    requires start > 0 && size >= 2 * MIN_BLOCK && (g == 8 || g == 16) && start % g == 0
    requires forall i | 0 <= i < |ops| :: OnGranule(ops[i], g)
    ensures var t := Run(Start(start, size), ops);
            && (forall b | b in t.heap.blocks :: b.addr % g == 0)
            && (a in t.grants && !t.heap.frozen ==> Dealloc(t.heap, t.grants[a].ptr).1.Ok?)
  {
    RunUnpadded(Start(start, size), ops, g);
    var t := Run(Start(start, size), ops);
    if a in t.grants && !t.heap.frozen { FreeableGrants(t, a); }
  }

  lemma {:induction false} RunUnpadded(t: Session, ops: seq<Op>, g: nat)
    requires Good(t) && Unpadded(t, g)
    requires forall i | 0 <= i < |ops| :: OnGranule(ops[i], g)
    ensures Unpadded(Run(t, ops), g)
    decreases |ops|
  {
    if ops != [] {
      StepGood(t, ops[0]);
      StepUnpadded(t, ops[0], g);
      RunUnpadded(Step(t, ops[0]), ops[1..], g);
    }
  }

  lemma StepUnpadded(t: Session, op: Op, g: nat)
    requires Good(t) && Unpadded(t, g) && OnGranule(op, g)
    ensures Unpadded(Step(t, op), g)
  {
    match op
    case AllocOp(size, align) =>
      AllocUnpadded(t, size, align, g);
    case DeallocOp(ptr) =>
      if Dealloc(t.heap, ptr).1.Ok? {
        var k := IndexAt(t.heap.blocks, ptr - HEADER);
        Swallowed(t.heap.blocks, t.heap.lo, t.heap.hi, k);
        forall b | b in ReleaseAt(t.heap.blocks, k) ensures b.addr % g == 0 {
          assert b.addr in Addrs(ReleaseAt(t.heap.blocks, k));
        }
      }
    case _ =>
  }

  lemma AllocUnpadded(t: Session, size: nat, align: nat, g: nat)
    requires Good(t) && Unpadded(t, g) && OnGranule(AllocOp(size, align), g)
    ensures Unpadded(Step(t, AllocOp(size, align)), g)
  {
    if Alloc(t.heap, size, align).1.Some? {
      var k := FirstFit(t.heap.blocks, size, align);
      GranuleFit(t.heap.blocks, k, size, align, g);
    }
  }

  lemma GranuleFit(bs: seq<Block>, k: nat, size: nat, align: nat, g: nat)
    requires k < |bs| && OnGranule(AllocOp(size, align), g) && (forall b | b in bs :: b.addr % g == 0)
    requires Fits(bs[k], size, align)
    ensures UserAddr(bs[k], align) == bs[k].Payload()
    ensures forall c | c in CarveAt(bs, k, Required(bs[k], size, align)) :: c.addr % g == 0
  {
    assert bs[k] in bs;
    GranuleSum(bs[k].addr, Need(size), g);
    GranuleSum(Need(size), 0, g);
    GranuleAligned(bs[k].Payload(), align, g);
    CarveOnGranule(bs, k, HEADER + Need(size), g);
  }

  lemma CarveOnGranule(bs: seq<Block>, k: nat, req: nat, g: nat)
    requires k < |bs| && MIN_BLOCK <= req <= bs[k].size && (g == 8 || g == 16) && req % g == 0
    requires forall b | b in bs :: b.addr % g == 0
    ensures forall c | c in CarveAt(bs, k, req) :: c.addr % g == 0
  {
    forall c | c in CarveAt(bs, k, req) ensures c.addr % g == 0 {
      assert bs[k] in bs;
      GranuleSum(bs[k].addr, req, g);
      if c in bs[..k] || c in bs[k + 1..] { assert c in bs; }
    }
  }

  lemma GranuleAligned(x: nat, align: nat, g: nat)
    requires (g == 8 || g == 16) && x % g == 0 && align in {1, 2, 4, 8, 16} && align <= g
    ensures AlignUp(x, align) == x
  {
    GranuleDivides(x, align, g);
  }

  lemma GranuleDivides(x: nat, align: nat, g: nat)
    requires (g == 8 || g == 16) && x % g == 0 && align in {1, 2, 4, 8, 16} && align <= g
    ensures x % align == 0
  {
    var q := x / 8;
    assert x == 8 * q;
    if align == 16 {
    } else if align == 4 {
      assert x == 4 * (2 * q);
    } else if align == 2 {
      assert x == 2 * (4 * q);
    }
  }

  lemma GranuleSum(x: nat, y: nat, g: nat)
    requires (g == 8 || g == 16) && x % g == 0 && y % g == 0
    ensures (x + y) % g == 0 && (x + HEADER) % g == 0
  {
  }

  const WORD_ALIGN: nat := 8      // alignment of a machine word

  /** A fresh heap: one free block that begins on a word. */
  ghost predicate Fresh(s: Heap) {
    Inv(s) && !s.frozen && |s.blocks| == 1 && s.blocks[0].status.Free? && s.lo % WORD_ALIGN == 0
  }

  /** Both of two word-aligned requests on a fresh heap are granted. */
  ghost predicate BothGranted(s: Heap, n: nat, m: nat)
    requires Fresh(s)
  {
    AllocInv(s, n, WORD_ALIGN);
    var (s1, p) := Alloc(s, n, WORD_ALIGN);
    p.Some? && Alloc(s1, m, WORD_ALIGN).1.Some?
  }

  /**
    Outside such runs padding does occur. Two word-aligned requests on a fresh heap are granted exactly when
    both headers, the first payload rounded up to a word and the second payload fit; and then the second
    pointer can be freed again exactly when the bytes taken by the first were a multiple of 8.
   */
  lemma SecondPointerFreeable(s: Heap, n: nat, m: nat)
    requires Fresh(s)
    ensures Inv(Alloc(s, n, WORD_ALIGN).0)
    ensures BothGranted(s, n, m) <==>
            n > 0 && m > 0 && s.blocks[0].size >= 2 * HEADER + AlignUp(Need(n), WORD_ALIGN) + Need(m)
    ensures var s1 := Alloc(s, n, WORD_ALIGN).0;
            var (s2, q) := Alloc(s1, m, WORD_ALIGN);
            BothGranted(s, n, m) ==> Inv(s2) && (Dealloc(s2, q.value).1.Ok? <==> Need(n) % WORD_ALIGN == 0)
  {
    hide Inv, Dealloc, Alloc, AlignUp;
    AllocInv(s, n, WORD_ALIGN);
    FirstIsCarved(s, n);
    var s1 := Alloc(s, n, WORD_ALIGN).0;
    if Alloc(s, n, WORD_ALIGN).1.Some? {
      SecondIsNext(s1, m);
      Rounding(s.lo, Need(n));
      if BothGranted(s, n, m) {
        AllocInv(s1, m, WORD_ALIGN);
        AllocThenDealloc(s1, m, WORD_ALIGN);
        assert s1.blocks[1].Payload() == s.lo + 2 * HEADER + Need(n);
      }
    } else {
      Rounding(s.lo, Need(n));
    }
  }

  /** A padded pointer: granted, and never freeable, whenever there is room and the first size is odd enough. */
  lemma PaddedPointerStuck(s: Heap, n: nat, m: nat)
    requires Fresh(s) && n > 0 && m > 0 && Need(n) % WORD_ALIGN != 0
    requires s.blocks[0].size >= 2 * HEADER + Need(n) + Need(m) + WORD_ALIGN - 1
    ensures Inv(Alloc(s, n, WORD_ALIGN).0)
    ensures var (s1, p) := Alloc(s, n, WORD_ALIGN);
            var (s2, q) := Alloc(s1, m, WORD_ALIGN);
            && p.Some? && q.Some? && Inv(s2) && !Dealloc(s2, q.value).1.Ok?
            && Dealloc(s2, q.value).0.(stats := s2.stats) == s2
  {
    hide Inv, Dealloc, Alloc;
    SecondPointerFreeable(s, n, m);
    var s1 := Alloc(s, n, WORD_ALIGN).0;
    AllocInv(s1, m, WORD_ALIGN);
    StillThawed(s, n, WORD_ALIGN);
    StillThawed(s1, m, WORD_ALIGN);
    var (s2, q) := Alloc(s1, m, WORD_ALIGN);
    DeallocSucceeds(s2, q.value);
  }

  lemma StillThawed(s: Heap, size: nat, align: nat)
    requires Inv(s)
    ensures Alloc(s, size, align).0.frozen == s.frozen
  {
  }

  lemma Rounding(lo: nat, n: nat)
    requires lo % WORD_ALIGN == 0
    ensures AlignUp(lo + 2 * HEADER + n, WORD_ALIGN) == lo + 2 * HEADER + AlignUp(n, WORD_ALIGN)
    ensures n <= AlignUp(n, WORD_ALIGN) < n + WORD_ALIGN
    ensures (lo + 2 * HEADER + n) % WORD_ALIGN == 0 <==> n % WORD_ALIGN == 0
  {
  }

  /** The first request takes the front of the one block, and leaves the rest if that can be a block. */
  lemma FirstIsCarved(s: Heap, n: nat)
    requires Fresh(s)
    ensures Alloc(s, n, WORD_ALIGN).1.Some? <==> n > 0 && s.blocks[0].size >= HEADER + Need(n)
    ensures var bs, size := Alloc(s, n, WORD_ALIGN).0.blocks, s.blocks[0].size;
            Alloc(s, n, WORD_ALIGN).1.Some? ==>
              && !Alloc(s, n, WORD_ALIGN).0.frozen && |bs| > 0
              && bs[0].status.Allocated? && bs[0].addr == s.lo
              && (if size >= HEADER + Need(n) + MIN_BLOCK
                  then bs[0].size == Need(n)
                       && bs[1..] == [Block(s.lo + HEADER + Need(n), size - HEADER - Need(n), Free)]
                  else |bs| == 1)
  {
    hide TallyOf, StaleApart, Coalesced, Ledger;
    EightIsPowerOfTwo();
    var b := s.blocks[0];
    assert UserAddr(b, WORD_ALIGN) == b.Payload();
    if n > 0 {
      assert Fits(b, n, WORD_ALIGN) <==> b.size >= HEADER + Need(n);
      if Fits(b, n, WORD_ALIGN) { AllocFound(s, n, WORD_ALIGN, 0); } else { Refused(s, n, WORD_ALIGN); }
    }
  }

  lemma EightIsPowerOfTwo()
    ensures IsPowerOfTwo(WORD_ALIGN)
  {
    assert IsPowerOfTwo(2) && IsPowerOfTwo(4);
  }

  /** A request behind an allocated first block is granted exactly when it fits the second, and takes that. */
  lemma SecondIsNext(s: Heap, m: nat)
    requires Inv(s) && !s.frozen && 1 <= |s.blocks| <= 2 && s.blocks[0].status.Allocated?
    ensures Alloc(s, m, WORD_ALIGN).1.Some? <==> m > 0 && |s.blocks| == 2 && Fits(s.blocks[1], m, WORD_ALIGN)
    ensures Alloc(s, m, WORD_ALIGN).1.Some? ==> FirstFit(s.blocks, m, WORD_ALIGN) == 1
  {
    hide TallyOf, StaleApart, Coalesced, Ledger, AlignUp;
    EightIsPowerOfTwo();
    assert FirstFit(s.blocks, m, WORD_ALIGN) == FirstFit(s.blocks, m, WORD_ALIGN, 1);
  }

  // ---------------------------------------------------------------- double free

  /** The header at `a` is intact, free, and buried in (or heading) a free block. */
  ghost predicate Buried(s: Heap, a: int) {
    exists f :: f in s.blocks && f.status.Free? && f.addr <= a && a + MIN_BLOCK <= f.End()
                && (a == f.addr || a in s.stale)
  }

  ghost predicate NothingGranted(t: Session, ops: seq<Op>)
    requires Good(t)
    decreases |ops|
  {
    if ops == [] then true else
      StepGood(t, ops[0]);
      && (ops[0].AllocOp? ==> Alloc(t.heap, ops[0].size, ops[0].align).1.None?)
      && NothingGranted(Step(t, ops[0]), ops[1..])
  }

  /**
    Double free is caught for as long as nothing is granted in between: whatever else was freed,
    merged or stored, a second `dealloc` of the same pointer changes one counter and nothing else.
   */
  lemma DoubleFreeCaught(t: Session, p: int, ops: seq<Op>)
    requires Good(t)
    ensures Good(Step(t, DeallocOp(p)))
    ensures var t1 := Step(t, DeallocOp(p));
            var u := Run(t1, ops).heap;
            Dealloc(t.heap, p).1.Ok? && NothingGranted(t1, ops) && !u.frozen ==>
              Dealloc(u, p) == (u.(stats := u.stats.(doubleFrees := u.stats.doubleFrees + 1)), Err(DoubleFree))
  {
    hide Buried, Matches, Inv, Dealloc, FreeHeaderAt, LiveHeaderAt;
    StepGood(t, DeallocOp(p));
    var t1 := Step(t, DeallocOp(p));
    var u := Run(t1, ops).heap;
    if Dealloc(t.heap, p).1.Ok? && NothingGranted(t1, ops) && !u.frozen {
      ReleasedIsBuried(t.heap, p);
      RunBuried(t1, ops, p - HEADER);
      BuriedIsFree(u, p - HEADER);
      FreeHeaderReported(u, p);
    }
  }

  lemma FreeHeaderReported(s: Heap, p: int)
    requires Inv(s) && !s.frozen && s.lo <= p - HEADER && p <= s.hi
    requires FreeHeaderAt(s, p - HEADER) && !LiveHeaderAt(s, p - HEADER)
    ensures Dealloc(s, p) == (s.(stats := s.stats.(doubleFrees := s.stats.doubleFrees + 1)), Err(DoubleFree))
  {
    hide Tiles, Coalesced, StaleApart, Ledger, IndexAt;
  }

  lemma ReleasedIsBuried(s: Heap, p: int)
    requires Inv(s) && Dealloc(s, p).1.Ok?
    ensures Buried(Dealloc(s, p).0, p - HEADER)
  {
    var k := IndexAt(s.blocks, p - HEADER);
    Bounds(s.blocks, s.lo, s.hi, k);
    ReleaseBuries(s, k, s.blocks[k].addr, k);
  }

  /** Every block of the released stretch ends up in or at the head of the merged block. */
  lemma ReleaseBuries(s: Heap, k: nat, a: int, x: nat)
    requires Inv(s) && k < |s.blocks| && s.blocks[k].status.Allocated?
    requires MergeFrom(s.blocks, k) <= x < MergeTo(s.blocks, k)
    requires s.blocks[x].addr <= a && a + MIN_BLOCK <= s.blocks[x].End()
    requires a == s.blocks[x].addr || (a in s.stale && a in Surviving(s.stale, s.blocks[k].Payload(), NODE))
    ensures Buried(ReleaseHeap(s, k), a)
  {
    var bs, i, j := s.blocks, MergeFrom(s.blocks, k), MergeTo(s.blocks, k);
    var f := Merged(bs[i..j]);
    ReleaseMembers(bs, k);
    Swallowed(bs, s.lo, s.hi, k);
    MergedSpan(bs, s.lo, s.hi, k, x);
    Bounds(bs, s.lo, s.hi, x);
    assert f in ReleaseHeap(s, k).blocks;
    if a == bs[x].addr && x > i {
      assert a in Addrs(bs) - Addrs(ReleaseAt(bs, k));
    }
  }

  lemma MergedSpan(bs: seq<Block>, lo: nat, hi: nat, k: nat, x: nat)
    requires Tiles(bs, lo, hi) && k < |bs| && MergeFrom(bs, k) <= x < MergeTo(bs, k)
    ensures var f := Merged(bs[MergeFrom(bs, k)..MergeTo(bs, k)]); f.addr <= bs[x].addr && bs[x].End() <= f.End()
  {
    var i, j := MergeFrom(bs, k), MergeTo(bs, k);
    var e := Edge(bs[..i], lo);
    assert Merged(bs[i..j]).End() == Edge(bs[i..j], e) by {
      assert bs == bs[..i] + bs[i..j] + bs[j..];
      Around(bs[..i], bs[i..j], bs[j..], lo, hi);
      MergedTiles(bs[i..j], e, Edge(bs[i..j], e));
    }
    if i < x { Ordered(bs, lo, hi, i, x); }
    if x < j - 1 { Ordered(bs, lo, hi, x, j - 1); Bounds(bs, lo, hi, j - 1); }
  }

  lemma {:induction false} RunBuried(t: Session, ops: seq<Op>, a: int)
    requires Good(t) && Buried(t.heap, a) && NothingGranted(t, ops)
    ensures Buried(Run(t, ops).heap, a)
    decreases |ops|
  {
    if ops != [] {
      StepGood(t, ops[0]);
      StepBuried(t, ops[0], a);
      RunBuried(Step(t, ops[0]), ops[1..], a);
    }
  }

  lemma StepBuried(t: Session, op: Op, a: int)
    requires Good(t) && Buried(t.heap, a)
    requires op.AllocOp? ==> Alloc(t.heap, op.size, op.align).1.None?
    ensures Buried(Step(t, op).heap, a)
  {
    hide Ledger, Coalesced, StaleApart, Tiles, Matches, Surviving, ReleaseHeap, CarveHeap, FirstFit, GrantedBlock;
    var s := t.heap;
    var f :| f in s.blocks && f.status.Free? && f.addr <= a && a + MIN_BLOCK <= f.End()
             && (a == f.addr || a in s.stale);
    match op
    case AllocOp(size, align) =>
    case FreezeOp =>
    case StoreOp(at, n) =>
      if InLivePayload(s, at, n) { StoreBuried(s, at, n, a, f); }
    case CopyOp(src, dst, n) =>
      if InLivePayload(s, dst, n) {
        StoreBuried(s, dst, n, a, f);
        assert Store(s, dst, n).stale <= Copy(s, src, dst, n).stale;
      }
    case DeallocOp(ptr) =>
      if Dealloc(s, ptr).1.Ok? {
        DeallocBuried(s, IndexAt(s.blocks, ptr - HEADER), a, f);
      }
  }

  lemma StoreBuried(s: Heap, at: int, n: nat, a: int, f: Block)
    requires Inv(s) && InLivePayload(s, at, n)
    requires f in s.blocks && f.status.Free? && f.addr <= a && a + MIN_BLOCK <= f.End()
    requires a == f.addr || a in s.stale
    ensures Buried(Store(s, at, n), a)
  {
    Disjoint(s.blocks, s.lo, s.hi);
    var b :| b in Live(s.blocks) && b.Payload() <= at && at + n <= b.End();
    assert b in s.blocks && b != f;
    assert f in Store(s, at, n).blocks;
  }

  lemma DeallocBuried(s: Heap, k: nat, a: int, f: Block)
    requires Inv(s) && k < |s.blocks| && s.blocks[k].status.Allocated?
    requires f in s.blocks && f.status.Free? && f.addr <= a && a + MIN_BLOCK <= f.End()
    requires a == f.addr || a in s.stale
    ensures Buried(ReleaseHeap(s, k), a)
  {
    var bs := s.blocks;
    var x :| 0 <= x < |bs| && bs[x] == f;
    Disjoint(bs, s.lo, s.hi);
    assert bs[k] in bs;
    assert a in s.stale ==> a in Surviving(s.stale, bs[k].Payload(), NODE);
    if MergeFrom(bs, k) <= x < MergeTo(bs, k) {
      ReleaseBuries(s, k, a, x);
    } else {
      OutsideKept(bs, k, x);
      assert f in ReleaseHeap(s, k).blocks;
    }
  }

  lemma BuriedIsFree(s: Heap, a: int)
    requires Inv(s) && Buried(s, a)
    ensures FreeHeaderAt(s, a) && !LiveHeaderAt(s, a) && s.lo <= a && a + HEADER <= s.hi
  {
    var f :| f in s.blocks && f.status.Free? && f.addr <= a && a + MIN_BLOCK <= f.End()
             && (a == f.addr || a in s.stale);
    Disjoint(s.blocks, s.lo, s.hi);
    var i :| 0 <= i < |s.blocks| && s.blocks[i] == f;
    IndexUnique(s.blocks, s.lo, s.hi, i);
  }

  // ---------------------------------------------------------------- stale headers in live payloads

  /**
    A copy takes stale headers along: of all addresses inside the destination, `dealloc` reports a double
    free exactly behind those where a stale header of the source appears, although nothing was ever
    allocated or freed there, and a corrupted header behind all others.
   */
  lemma CopiedHeaderMisleads(s: Heap, src: int, dst: int, n: nat, x: int)
    requires Inv(s) && !s.frozen && InLivePayload(s, dst, n) && dst <= x && x + HEADER <= dst + n
    ensures var u := Copy(s, src, dst, n);
            && Inv(u)
            && Dealloc(u, x + HEADER) ==
               if x - dst + src in s.stale
               then (u.(stats := u.stats.(doubleFrees := u.stats.doubleFrees + 1)), Err(DoubleFree))
               else (u.(stats := u.stats.(corrupted := u.stats.corrupted + 1)), Err(CorruptedHeader))
  {
    hide Ledger, Coalesced, StaleApart;
    CopyInv(s, src, dst, n);
    Disjoint(s.blocks, s.lo, s.hi);
    var c :| c in Live(s.blocks) && c.Payload() <= dst && dst + n <= c.End();
    assert c in s.blocks;
  }

  /**
    Such headers do get into live payloads: once two live blocks, the only ones, are freed, a request that
    takes the upper one's header into its payload finds it intact there.
   */
  lemma StaleUnderGrant(s: Heap, b: Block, c: Block, size: nat, align: nat)
    requires Inv(s) && Live(s.blocks) == {b, c} && b.addr < c.addr
    ensures Inv(Released(s, b)) && c in Live(Released(s, b).blocks) && Inv(Released(Released(s, b), c))
    ensures var (u, r) := Alloc(Released(Released(s, b), c), size, align);
            r.Some? && c.addr <= s.lo + Need(size) ==>
              Inv(u) && c.addr in u.stale && InLivePayload(u, c.addr, HEADER)
  {
    hide Ledger, StaleApart, Coalesced, TallyOf, FreeNodes, Tiles, Alloc, ReleaseHeap;
    assert b in Live(s.blocks) && c in Live(s.blocks);
    ReleasedFacts(s, b);
    ReleasedFacts(Released(s, b), c);
    var e := Released(Released(s, b), c);
    StaleAfterTwo(s, b, c);
    assert Live(e.blocks) == {};
    EmptyHeapIsOneBlock(e);
    BlockBounds(s, b);
    BlockBounds(s, c);
    assert c.addr in Addrs(s.blocks) && Addrs(e.blocks) == {s.lo as int};
    if Alloc(e, size, align).1.Some? && c.addr <= s.lo + Need(size) {
      GrantOverStale(e, c.addr, size, align);
    }
  }

  lemma BlockBounds(s: Heap, b: Block)
    requires Inv(s) && b in s.blocks
    ensures s.lo <= b.addr && b.size >= NODE && b.End() <= s.hi
  {
    Disjoint(s.blocks, s.lo, s.hi);
  }

  /** A grant on an empty heap keeps every stale header that it takes in whole. */
  lemma GrantOverStale(s: Heap, a: int, size: nat, align: nat)
    requires Inv(s)
    ensures var (u, r) := Alloc(s, size, align);
            r.Some? && |s.blocks| == 1 && a in s.stale && s.lo < a <= s.lo + Need(size) ==>
              Inv(u) && a in u.stale && InLivePayload(u, a, HEADER)
  {
    hide Ledger, Coalesced, TallyOf, FreeNodes, Live, StaleApart;
    var (u, r) := Alloc(s, size, align);
    if r.Some? && |s.blocks| == 1 && a in s.stale && s.lo < a <= s.lo + Need(size) {
      var k := FirstFit(s.blocks, size, align);
      AllocInv(s, size, align);
      AllocFound(s, size, align, k);
      var c := Carve(s.blocks[k], Required(s.blocks[k], size, align))[0];
      CarveLive(s.blocks, s.lo, s.hi, k, Required(s.blocks[k], size, align));
      assert Apart(a, s.blocks[0]) by { StaleIsApart(s, a); }
      assert c in Live(u.blocks);
      assert c.Payload() <= a && a + HEADER <= c.End();
    }
  }

  lemma StaleIsApart(s: Heap, a: int)
    requires Inv(s) && a in s.stale && |s.blocks| > 0
    ensures Apart(a, s.blocks[0])
  {
    assert s.blocks[0] in s.blocks;
  }

  /**
    And this is reached from every fresh heap: two requests of whole words, both freed again, then one that
    covers them. In the resulting heap a stale header lies inside a live payload.
   */
  lemma StaleInPayloadReached(s: Heap, n: nat, m: nat, size: nat)
    requires Fresh(s) && n > 0 && m > 0 && Need(n) % WORD_ALIGN == 0 && Need(size) >= HEADER + Need(n)
    requires s.blocks[0].size >= 2 * HEADER + Need(n) + Need(m) && s.blocks[0].size >= HEADER + Need(size)
    ensures Inv(Alloc(s, n, WORD_ALIGN).0) && Alloc(s, n, WORD_ALIGN).1.Some?
    ensures var (s1, p) := Alloc(s, n, WORD_ALIGN);
            var (s2, q) := Alloc(s1, m, WORD_ALIGN);
            && q.Some? && Inv(s2)
            && Inv(Dealloc(s2, p.value).0) && Inv(Dealloc(Dealloc(s2, p.value).0, q.value).0)
            && var u := Alloc(Dealloc(Dealloc(s2, p.value).0, q.value).0, size, WORD_ALIGN).0;
               exists a :: a in u.stale && InLivePayload(u, a, HEADER)
  {
    hide Inv, Dealloc, Alloc, AlignUp, Released, InLivePayload, Live;
    Rounding(s.lo, Need(n));
    SecondPointerFreeable(s, n, m);
    var (s1, p) := Alloc(s, n, WORD_ALIGN);
    var (s2, q) := Alloc(s1, m, WORD_ALIGN);
    FreshSize(s);
    var b, c := TwoLive(s, n, m);
    assert b in {b, c} && c in {b, c};
    ReleasedFacts(s2, b);
    DeallocReleases(s2, b);
    DeallocReleases(Released(s2, b), c);
    StaleUnderGrant(s2, b, c, size, WORD_ALIGN);
    var e := Released(Released(s2, b), c);
    FreshAgain(s2, b, c);
    FirstIsCarved(e, size);
  }

  /** The two blocks that two grants on a fresh heap leave, and the pointers to them. */
  lemma TwoLive(s: Heap, n: nat, m: nat) returns (b: Block, c: Block)
    requires Fresh(s) && BothGranted(s, n, m) && Need(n) % WORD_ALIGN == 0
    ensures Inv(Alloc(s, n, WORD_ALIGN).0)
    ensures var (s1, p) := Alloc(s, n, WORD_ALIGN);
            var (s2, q) := Alloc(s1, m, WORD_ALIGN);
            && Inv(s2) && !s2.frozen && s2.lo == s.lo && s2.hi == s.hi
            && Live(s2.blocks) == {b, c} && b.addr == s.lo && c.addr == s.lo + HEADER + Need(n)
            && p == Some(b.Payload()) && q == Some(c.Payload())
  {
    hide Dealloc, Inv, Alloc, Live, AlignUp;
    FreshSize(s);
    FirstIsCarved(s, n);
    AllocInv(s, n, WORD_ALIGN);
    GrantedFacts(s, n, WORD_ALIGN);
    b := GrantedBlock(s, n, WORD_ALIGN);
    GrantPlace(s, n, WORD_ALIGN);
    var s1 := Alloc(s, n, WORD_ALIGN).0;
    SecondIsNext(s1, m);
    AllocInv(s1, m, WORD_ALIGN);
    GrantedFacts(s1, m, WORD_ALIGN);
    c := GrantedBlock(s1, m, WORD_ALIGN);
    GrantPlace(s1, m, WORD_ALIGN);
    Rounding(s.lo, Need(n));
    Rounding(s.lo, 0);
    OnWord(s.lo + HEADER);
    OnWord(s.lo + 2 * HEADER + Need(n));
  }

  lemma OnWord(x: nat)
    ensures x % WORD_ALIGN == 0 ==> AlignUp(x, WORD_ALIGN) == x
  {
  }

  /** Where a grant lies, and what it leaves alone. */
  lemma GrantPlace(s: Heap, size: nat, align: nat)
    requires Inv(s) && Alloc(s, size, align).1.Some?
    ensures var k := FirstFit(s.blocks, size, align);
            var (u, r) := Alloc(s, size, align);
            && k < |s.blocks| && GrantedBlock(s, size, align).addr == s.blocks[k].addr
            && r == Some(AlignUp(s.blocks[k].Payload(), align))
            && u.frozen == s.frozen && u.lo == s.lo && u.hi == s.hi
  {
    hide Ledger, Coalesced, TallyOf, StaleApart, Tiles;
    AllocFound(s, size, align, FirstFit(s.blocks, size, align));
  }

  lemma FreshSize(s: Heap)
    requires Fresh(s)
    ensures Live(s.blocks) == {} && s.blocks[0].addr == s.lo && s.blocks[0].size == s.hi - s.lo - HEADER
  {
    hide Ledger, StaleApart, Coalesced;
    assert s.blocks[1..] == [] && Tiles(s.blocks[1..], s.blocks[0].End(), s.hi);
    assert s.blocks == [s.blocks[0]];
  }

  lemma FreshAgain(s: Heap, b: Block, c: Block)
    requires Inv(s) && !s.frozen && s.lo % WORD_ALIGN == 0 && Live(s.blocks) == {b, c} && b != c
    ensures Inv(Released(s, b)) && c in Live(Released(s, b).blocks) && Inv(Released(Released(s, b), c))
    ensures var e := Released(Released(s, b), c);
            Fresh(e) && e.lo == s.lo && e.blocks[0].size == s.hi - s.lo - HEADER
  {
    hide Inv, Released;
    assert b in Live(s.blocks) && c in Live(s.blocks);
    ReleasedFacts(s, b);
    ReleasedFacts(Released(s, b), c);
    assert Live(Released(Released(s, b), c).blocks) == {};
    EmptyHeapIsOneBlock(Released(Released(s, b), c));
  }
}
