/**
  The allocator as a state machine over layouts. Each step is given by what it does to the
  block sequence, to the set of stale headers left behind by merges, and to the ledger.
 */
module HeapModel {
  import opened Wrappers
  import opened Layout
  import opened Metadata

  datatype AllocError = AllocatorFrozen | InvalidPointer | CorruptedHeader | DoubleFree
                      | InvalidParameter | InternalError
  datatype Result = Ok | Err(error: AllocError)

  /**
    `stale` holds the addresses of intact headers that the physical walk no longer meets:
    a merge leaves the swallowed header in place, and it stays until something is written over it.
   */
  datatype Heap = Heap(lo: nat, hi: nat, blocks: seq<Block>, stale: set<int>, stats: AllocStats, frozen: bool)

  // ---------------------------------------------------------------- alignment and fit

  predicate IsPowerOfTwo(a: nat) {
    a == 1 || (a > 0 && a % 2 == 0 && IsPowerOfTwo(a / 2))
  }

  function Pow2(n: nat): (p: nat)
    ensures p > 0
  {
    if n == 0 then 1 else 2 * Pow2(n - 1)
  }

  ghost predicate SomePower(a: nat) { exists n: nat :: a == Pow2(n) }

  lemma {:induction false} PowersPass(n: nat)
    ensures IsPowerOfTwo(Pow2(n))
  {
    if n > 0 { PowersPass(n - 1); }
  }

  lemma {:induction false} Exponent(a: nat) returns (n: nat)
    requires IsPowerOfTwo(a)
    ensures a == Pow2(n)
  {
    if a == 1 {
      n := 0;
    } else {
      n := Exponent(a / 2);
      n := n + 1;
    }
  }

  /** The test accepts exactly the powers of two, however large. */
  lemma PowerIff(a: nat)
    ensures IsPowerOfTwo(a) <==> SomePower(a)
  {
    if IsPowerOfTwo(a) {
      var n := Exponent(a);
    }
    if n: nat :| a == Pow2(n) {
      PowersPass(n);
    }
  }

  function AlignUp(x: nat, a: nat): (r: nat)
    requires a > 0
    ensures x <= r < x + a && r % a == 0
    ensures x % a == 0 <==> r == x
  {
    AlignFacts(x, a);
    (x + a - 1) / a * a
  }

  lemma AlignFacts(x: nat, a: nat)
    requires a > 0
    ensures var r := (x + a - 1) / a * a; x <= r < x + a && r % a == 0 && (x % a == 0 <==> r == x)
  {
    var q, m := (x + a - 1) / a, (x + a - 1) % a;
    assert x + a - 1 == q * a + m;
    MultipleMod(q, a);
    if x % a == 0 { AlignExact(x, a, q, m); }
  }

  lemma AlignExact(x: nat, a: nat, q: nat, m: nat)
    requires a > 0 && x % a == 0 && x + a - 1 == q * a + m && m < a
    ensures q * a == x
  {
    var p := x / a;
    assert x == p * a;
    assert q < p ==> q * a <= (p - 1) * a;
    assert p < q ==> (p + 1) * a <= q * a;
  }

  lemma {:induction false} MultipleMod(q: nat, a: nat)
    requires a > 0
    ensures (q * a) % a == 0
  {
    if q > 0 {
      MultipleMod(q - 1, a);
      assert q * a == (q - 1) * a + a;
      AddMod((q - 1) * a, a);
    }
  }

  lemma AddMod(x: nat, a: nat)
    requires a > 0
    ensures (x + a) % a == x % a
  {
    var q, m := x / a, x % a;
    assert x + a == (q + 1) * a + m;
    DivUnique(x + a, a, q + 1, m);
  }

  lemma DivUnique(x: nat, a: nat, q: nat, m: nat)
    requires a > 0 && x == q * a + m && m < a
    ensures x % a == m
  {
    var q', m' := x / a, x % a;
    assert x == q' * a + m';
    assert q' < q ==> q' * a <= (q - 1) * a;
    assert q < q' ==> q * a <= (q' - 1) * a;
  }

  function Need(size: nat): nat { if size < NODE then NODE else size }

  /** User address a request would get in this block, and the bytes it takes counted from the header. */
  function UserAddr(b: Block, align: nat): nat
    requires align > 0
  {
    AlignUp(b.Payload(), align)
  }

  function Required(b: Block, size: nat, align: nat): (r: nat)
    requires align > 0
    ensures r >= MIN_BLOCK
  {
    UserAddr(b, align) - b.addr + Need(size)
  }

  predicate Fits(b: Block, size: nat, align: nat)
    requires align > 0
  {
    b.status.Free? && b.size >= Required(b, size, align)
  }

  predicate ValidRequest(size: nat, align: nat) { size > 0 && IsPowerOfTwo(align) }

  /** Index of the lowest block that fits, or the number of blocks. */
  function FirstFit(bs: seq<Block>, size: nat, align: nat, from: nat := 0): (k: nat)
    requires align > 0 && from <= |bs|
    ensures from <= k <= |bs|
    ensures k < |bs| ==> Fits(bs[k], size, align)
    ensures forall i | from <= i < k :: !Fits(bs[i], size, align)
    decreases |bs| - from
  {
    if from == |bs| || Fits(bs[from], size, align) then from else FirstFit(bs, size, align, from + 1)
  }

  /** Index of the block whose header is at `a`, or the number of blocks. */
  function IndexAt(bs: seq<Block>, a: int, from: nat := 0): (k: nat)
    requires from <= |bs|
    ensures from <= k <= |bs|
    ensures k < |bs| ==> bs[k].addr == a
    ensures forall i | from <= i < k :: bs[i].addr != a
    decreases |bs| - from
  {
    if from == |bs| || bs[from].addr == a then from else IndexAt(bs, a, from + 1)
  }

  /** Headers at these addresses survive a write to `[a, a + n)`. */
  function Surviving(stale: set<int>, a: int, n: nat): set<int> {
    set s | s in stale && (s + HEADER <= a || a + n <= s)
  }

  // ---------------------------------------------------------------- the steps

  function NewHeap(start: nat, size: nat): (s: Heap)
    requires start > 0 && size >= 2 * MIN_BLOCK
  {
    Heap(start, start + size, [Block(start, size - HEADER, Free)], {}, NewStats(size), false)
  }

  function Refuse(s: Heap): Heap { s.(stats := s.stats.RecordFailure()) }

  function CarveStats(st: AllocStats, b: Block, req: nat): AllocStats
    requires MIN_BLOCK <= req <= b.size
    requires st.freeSize >= b.size + HEADER && st.freeCount >= 1
  {
    var mid := Carve(b, req);
    var taken := st.(freeSize := st.freeSize - (b.size + HEADER), freeCount := st.freeCount - 1);
    if |mid| == 2
    then taken.RecordSplit()
         .(freeSize := taken.freeSize + mid[1].size + HEADER, freeCount := taken.freeCount + 1)
         .RecordAlloc(mid[0].size)
    else taken.RecordAlloc(mid[0].size)
  }

  function CarveHeap(s: Heap, k: nat, req: nat): Heap
    requires k < |s.blocks| && MIN_BLOCK <= req <= s.blocks[k].size
    requires s.stats.freeSize >= s.blocks[k].size + HEADER && s.stats.freeCount >= 1
  {
    var b := s.blocks[k];
    s.(blocks := CarveAt(s.blocks, k, req),
       stale := if |Carve(b, req)| == 2 then Surviving(s.stale, b.addr + req, MIN_BLOCK) else s.stale,
       stats := CarveStats(s.stats, b, req))
  }

  /** `alloc_aligned`: first fit over the physical blocks. */
  ghost function Alloc(s: Heap, size: nat, align: nat): (Heap, Option<nat>)
    requires Inv(s)
  {
    if s.frozen || !ValidRequest(size, align) then (Refuse(s), None)
    else
      var k := FirstFit(s.blocks, size, align);
      if k == |s.blocks| then (Refuse(s), None)
      else
        FreeBlockCounted(s, k);
        (CarveHeap(s, k, Required(s.blocks[k], size, align)), Some(UserAddr(s.blocks[k], align)))
  }

  /** A successful search gives the block, the room it takes and the address it yields. */
  lemma AllocFound(s: Heap, size: nat, align: nat, k: nat)
    requires Inv(s) && !s.frozen && ValidRequest(size, align) && k == FirstFit(s.blocks, size, align) < |s.blocks|
    ensures s.blocks[k].status.Free? && Required(s.blocks[k], size, align) <= s.blocks[k].size
    ensures s.stats.freeSize >= s.blocks[k].size + HEADER && s.stats.freeCount >= 1
    ensures Alloc(s, size, align) ==
            (CarveHeap(s, k, Required(s.blocks[k], size, align)), Some(UserAddr(s.blocks[k], align)))
  {
    FreeBlockCounted(s, k);
  }

  lemma Refused(s: Heap, size: nat, align: nat)
    requires Inv(s)
    requires s.frozen || !ValidRequest(size, align) || FirstFit(s.blocks, size, align) == |s.blocks|
    ensures Alloc(s, size, align) == (Refuse(s), None)
  {
  }

  function ReleaseStats(st: AllocStats, size: nat, merges: nat): (r: AllocStats)
    requires size <= st.usedSize && merges <= st.freeCount + 1
  {
    var released := st.RecordDealloc(size);
    released.(freeSize := st.freeSize + size + HEADER, freeCount := st.freeCount + 1 - merges,
              merges := st.merges + merges, coalesces := st.coalesces + merges)
  }

  ghost function ReleaseHeap(s: Heap, k: nat): Heap
    requires Inv(s) && k < |s.blocks| && s.blocks[k].status.Allocated?
  {
    LiveBlockCounted(s, k);
    var b, merges := s.blocks[k], MergeTo(s.blocks, k) - MergeFrom(s.blocks, k) - 1;
    var bs := ReleaseAt(s.blocks, k);
    s.(blocks := bs,
       stale := Surviving(s.stale, b.Payload(), NODE) + (Addrs(s.blocks) - Addrs(bs)),
       stats := ReleaseStats(s.stats, b.size, merges))
  }

  predicate FreeHeaderAt(s: Heap, a: int) {
    a in s.stale || (var k := IndexAt(s.blocks, a); k < |s.blocks| && s.blocks[k].status.Free?)
  }

  predicate LiveHeaderAt(s: Heap, a: int) {
    a !in s.stale && (var k := IndexAt(s.blocks, a); k < |s.blocks| && s.blocks[k].status.Allocated?)
  }

  /** `dealloc` of an arbitrary pointer. */
  ghost function Dealloc(s: Heap, ptr: int): (Heap, Result)
    requires Inv(s)
  {
    if s.frozen then (s, Err(AllocatorFrozen))
    else if ptr < s.lo || ptr > s.hi then (s, Err(InvalidPointer))
    else if LiveHeaderAt(s, ptr - HEADER) then (ReleaseHeap(s, IndexAt(s.blocks, ptr - HEADER)), Ok)
    else if FreeHeaderAt(s, ptr - HEADER) then (s.(stats := s.stats.RecordDoubleFree()), Err(DoubleFree))
    else (s.(stats := s.stats.RecordCorruption()), Err(CorruptedHeader))
  }

  /** A client's write of `n` bytes at `at`, which it may make only inside a live payload. */
  ghost predicate InLivePayload(s: Heap, at: int, n: nat) {
    exists b :: b in Live(s.blocks) && b.Payload() <= at && at + n <= b.End()
  }

  function Store(s: Heap, at: int, n: nat): Heap { s.(stale := Surviving(s.stale, at, n)) }

  /** A raw copy between live payloads, which takes the stale headers inside the source along. */
  function Copy(s: Heap, src: int, dst: int, n: nat): Heap {
    s.(stale := Surviving(s.stale, dst, n) + Shifted(s.stale, src, dst, n))
  }

  // ---------------------------------------------------------------- the invariant

  /** A stale header overlaps no header of the walk and no node of a free block. */
  ghost predicate StaleApart(bs: seq<Block>, stale: set<int>) {
    forall a, b | a in stale && b in bs :: Apart(a, b)
  }

  predicate Apart(a: int, b: Block) {
    a + HEADER <= b.addr || b.addr + (if b.status.Free? then MIN_BLOCK else HEADER) <= a
  }

  /** Every counter agrees with the blocks themselves, and no counter ever went below zero. */
  predicate Ledger(s: Heap) {
    var t, st := TallyOf(s.blocks), s.stats;
    && st.totalSize == s.hi - s.lo
    && st.usedSize == t.used && st.freeSize == t.free
    && st.allocCount == t.allocs && st.freeCount == t.frees
    && st.totalAllocs == st.totalFrees + st.allocCount
    && st.allocCount + st.freeCount + st.merges == 1 + st.splits
    && st.coalesces == st.merges
    && st.usedSize <= st.peakUsed <= st.totalSize
  }

  ghost predicate Inv(s: Heap) {
    && 0 < s.lo < s.hi
    && Tiles(s.blocks, s.lo, s.hi) && Coalesced(s.blocks)
    && StaleApart(s.blocks, s.stale)
    && Ledger(s)
  }

  lemma SplitTally(bs: seq<Block>, k: nat)
    requires k < |bs|
    ensures TallyOf(bs) == TallyOf(bs[..k]).Plus(TallyOne(bs[k])).Plus(TallyOf(bs[k + 1..]))
  {
    assert bs == bs[..k] + [bs[k]] + bs[k + 1..];
    TallyThree(bs[..k], [bs[k]], bs[k + 1..]);
    TallySingle(bs[k]);
  }

  lemma FreeBlockCounted(s: Heap, k: nat)
    requires Inv(s) && k < |s.blocks| && s.blocks[k].status.Free?
    ensures s.stats.freeSize >= s.blocks[k].size + HEADER && s.stats.freeCount >= 1
  {
    SplitTally(s.blocks, k);
  }

  lemma LiveBlockCounted(s: Heap, k: nat)
    requires Inv(s) && k < |s.blocks| && s.blocks[k].status.Allocated?
    ensures s.stats.usedSize >= s.blocks[k].size && s.stats.allocCount >= 1
    ensures MergeTo(s.blocks, k) - MergeFrom(s.blocks, k) - 1 <= s.stats.freeCount + 1
  {
    SplitTally(s.blocks, k);
    if MergeTo(s.blocks, k) == k + 2 && MergeFrom(s.blocks, k) == k - 1 {
      SplitTally(s.blocks, k - 1);
    }
  }

  lemma IndexUnique(bs: seq<Block>, lo: nat, hi: nat, i: nat)
    requires Tiles(bs, lo, hi) && i < |bs|
    ensures IndexAt(bs, bs[i].addr) == i
  {
    var k := IndexAt(bs, bs[i].addr);
    if k < i { Ordered(bs, lo, hi, k, i); }
  }

  /** A new heap satisfies the invariant. */
  lemma NewInv(start: nat, size: nat)
    requires start > 0 && size >= 2 * MIN_BLOCK
    ensures Inv(NewHeap(start, size))
  {
    var s := NewHeap(start, size);
    assert s.blocks[1..] == [];
    assert TallyOf(s.blocks) == Tally(0, size, 0, 1);
  }

  lemma CarveInv(s: Heap, k: nat, req: nat)
    requires Inv(s) && k < |s.blocks| && s.blocks[k].status.Free? && MIN_BLOCK <= req <= s.blocks[k].size
    ensures s.stats.freeSize >= s.blocks[k].size + HEADER && s.stats.freeCount >= 1
    ensures Inv(CarveHeap(s, k, req))
  {
    FreeBlockCounted(s, k);
    CarveKeeps(s.blocks, s.lo, s.hi, k, req);
    CarveLedger(s, k, req);
    CarveApart(s.blocks, s.stale, k, req);
  }

  lemma CarveTally(b: Block, req: nat)
    requires MIN_BLOCK <= req <= b.size
    ensures TallyOf(Carve(b, req)) ==
            if b.size >= req + MIN_BLOCK then Tally(req - HEADER, b.size - req + HEADER, 1, 1)
            else Tally(b.size, 0, 1, 0)
  {
    var mid := Carve(b, req);
    TallySingle(mid[0]);
    if |mid| == 2 {
      TallySingle(mid[1]);
      TallyConcat([mid[0]], [mid[1]]);
    }
  }

  lemma CarveLedger(s: Heap, k: nat, req: nat)
    requires Inv(s) && k < |s.blocks| && s.blocks[k].status.Free? && MIN_BLOCK <= req <= s.blocks[k].size
    requires s.stats.freeSize >= s.blocks[k].size + HEADER && s.stats.freeCount >= 1
    ensures Ledger(CarveHeap(s, k, req))
  {
    hide Tiles, Coalesced, StaleApart, CarveAt, FreeNodes, TallyOf, Live;
    var s', mid := CarveHeap(s, k, req), Carve(s.blocks[k], req);
    CarveKeeps(s.blocks, s.lo, s.hi, k, req);
    CarveTally(s.blocks[k], req);
    TallyTotal(s'.blocks, s.lo, s.hi);
  }

  /** Carving keeps stale headers apart from the walk. */
  lemma CarveApart(bs: seq<Block>, stale: set<int>, k: nat, req: nat)
    requires StaleApart(bs, stale) && k < |bs| && bs[k].status.Free? && MIN_BLOCK <= req <= bs[k].size
    ensures StaleApart(CarveAt(bs, k, req),
                       if |Carve(bs[k], req)| == 2 then Surviving(stale, bs[k].addr + req, MIN_BLOCK) else stale)
  {
    var mid := Carve(bs[k], req);
    var left := if |mid| == 2 then Surviving(stale, bs[k].addr + req, MIN_BLOCK) else stale;
    forall a, b | a in left && b in CarveAt(bs, k, req) ensures Apart(a, b) {
      if b !in mid {
        assert b in bs[..k] || b in bs[k + 1..];
        assert b in bs;
      } else {
        assert Apart(a, bs[k]);
      }
    }
  }

  lemma ReleaseInv(s: Heap, k: nat)
    requires Inv(s) && k < |s.blocks| && s.blocks[k].status.Allocated?
    ensures Inv(ReleaseHeap(s, k))
  {
    LiveBlockCounted(s, k);
    ReleaseKeeps(s.blocks, s.lo, s.hi, k);
    ReleaseLedger(s, k);
    ReleaseStale(s, k);
  }

  lemma ReleaseTally(bs: seq<Block>, k: nat)
    requires k < |bs| && bs[k].status.Allocated?
    ensures var t, t' := TallyOf(bs), TallyOf(ReleaseAt(bs, k));
            && t'.used + bs[k].size == t.used
            && t'.free == t.free + bs[k].size + HEADER
            && t'.allocs + 1 == t.allocs
            && t'.frees + (MergeTo(bs, k) - MergeFrom(bs, k) - 1) == t.frees + 1
  {
    SpliceTally(bs, MergeFrom(bs, k), MergeTo(bs, k), k);
  }

  lemma {:induction false} SpliceTally(bs: seq<Block>, i: nat, j: nat, k: nat)
    requires i <= k < j <= |bs| && forall x | i <= x < j :: bs[x].status.Allocated? <==> x == k
    ensures var t, t' := TallyOf(bs), TallyOf(bs[..i] + [Merged(bs[i..j])] + bs[j..]);
            && t'.used + bs[k].size == t.used
            && t'.free == t.free + bs[k].size + HEADER
            && t'.allocs + 1 == t.allocs
            && t'.frees + (j - i - 1) == t.frees + 1
  {
    MergeTally(bs[..i], bs[i..j], bs[j..], k - i);
    assert bs[..i] + bs[i..j] + bs[j..] == bs;
  }

  /** Merging a stretch in which only block `r` is allocated. */
  lemma MergeTally(pre: seq<Block>, mid: seq<Block>, post: seq<Block>, r: nat)
    requires r < |mid| && forall x | 0 <= x < |mid| :: mid[x].status.Allocated? <==> x == r
    ensures var t, t' := TallyOf(pre + mid + post), TallyOf(pre + [Merged(mid)] + post);
            && t'.used + mid[r].size == t.used
            && t'.free == t.free + mid[r].size + HEADER
            && t'.allocs + 1 == t.allocs
            && t'.frees + |mid| - 1 == t.frees + 1
  {
    TallyThree(pre, mid, post);
    TallyThree(pre, [Merged(mid)], post);
    SplitTally(mid, r);
    AllFreeTally(mid[..r]);
    AllFreeTally(mid[r + 1..]);
    SpanTally(mid);
    TallySingle(Merged(mid));
  }

  lemma {:induction false} AllFreeTally(bs: seq<Block>)
    requires forall x | 0 <= x < |bs| :: bs[x].status.Free?
    ensures TallyOf(bs).used == 0 && TallyOf(bs).allocs == 0 && TallyOf(bs).frees == |bs|
  {
    if bs != [] { AllFreeTally(bs[1..]); }
  }

  lemma {:induction false} SpanTally(bs: seq<Block>)
    requires bs != []
    ensures SpanSize(bs) + HEADER == TallyOf(bs).used + TallyOf(bs).free + HEADER * TallyOf(bs).allocs
  {
    if |bs| == 1 {
      TallySingle(bs[0]);
      assert bs == [bs[0]];
    } else {
      SpanTally(bs[1..]);
    }
  }

  lemma ReleaseLedger(s: Heap, k: nat)
    requires Inv(s) && k < |s.blocks| && s.blocks[k].status.Allocated?
    ensures Ledger(ReleaseHeap(s, k))
  {
    LiveBlockCounted(s, k);
    ReleaseTally(s.blocks, k);
  }

  lemma ReleaseMembers(bs: seq<Block>, k: nat)
    requires k < |bs|
    ensures var i, j := MergeFrom(bs, k), MergeTo(bs, k);
            && forall b :: b in ReleaseAt(bs, k) <==> b in bs[..i] || b in bs[j..] || b == Merged(bs[i..j])
  {
  }

  lemma OutsideKept(bs: seq<Block>, k: nat, x: nat)
    requires k < |bs| && x < |bs| && (x < MergeFrom(bs, k) || x >= MergeTo(bs, k))
    ensures bs[x] in ReleaseAt(bs, k)
  {
    var i, j := MergeFrom(bs, k), MergeTo(bs, k);
    if x < i {
      assert ReleaseAt(bs, k)[x] == bs[x];
    } else {
      assert ReleaseAt(bs, k)[i + 1 + (x - j)] == bs[x];
    }
  }

  /** Addresses that leave the walk are those of the swallowed headers. */
  lemma Swallowed(bs: seq<Block>, lo: nat, hi: nat, k: nat)
    requires Tiles(bs, lo, hi) && k < |bs|
    ensures var i, j := MergeFrom(bs, k), MergeTo(bs, k);
            Addrs(bs) - Addrs(ReleaseAt(bs, k)) == set x | i < x < j :: bs[x].addr
    ensures Addrs(ReleaseAt(bs, k)) <= Addrs(bs)
  {
    var i, j := MergeFrom(bs, k), MergeTo(bs, k);
    var rs := ReleaseAt(bs, k);
    ReleaseMembers(bs, k);
    assert bs[i] in bs && Merged(bs[i..j]).addr == bs[i].addr;
    assert Merged(bs[i..j]) in rs;
    forall x | i < x < j ensures bs[x].addr in Addrs(bs) && bs[x].addr !in Addrs(rs) {
      forall b | b in rs ensures b.addr != bs[x].addr {
        if b in bs[..i] {
          var y :| 0 <= y < i && bs[y] == b;
          Ordered(bs, lo, hi, y, x);
        } else if b in bs[j..] {
          var y :| j <= y < |bs| && bs[y] == b;
          Ordered(bs, lo, hi, x, y);
        } else {
          Ordered(bs, lo, hi, i, x);
        }
      }
    }
    forall a | a in Addrs(bs) - Addrs(rs) ensures exists x :: i < x < j && bs[x].addr == a {
      var x: nat :| x < |bs| && bs[x].addr == a;
      if x < i || x >= j { OutsideKept(bs, k, x); }
    }
    forall a | a in Addrs(rs) ensures a in Addrs(bs) {
      var b :| b in rs && b.addr == a;
      if b in bs[..i] || b in bs[j..] { assert b in bs; }
    }
  }

  lemma ReleaseStale(s: Heap, k: nat)
    requires Inv(s) && k < |s.blocks| && s.blocks[k].status.Allocated?
    ensures StaleApart(ReleaseHeap(s, k).blocks, ReleaseHeap(s, k).stale)
  {
    var bs, s' := s.blocks, ReleaseHeap(s, k);
    var i, j := MergeFrom(bs, k), MergeTo(bs, k);
    ReleaseMembers(bs, k);
    Swallowed(bs, s.lo, s.hi, k);
    assert bs[i] in bs && bs[k] in bs;
    forall a, b | a in s'.stale && b in s'.blocks ensures Apart(a, b) {
      if a in s.stale && a in Surviving(s.stale, bs[k].Payload(), NODE) {
        OldStaleApart(s, k, a, b);
      } else {
        var x :| i < x < j && bs[x].addr == a;
        SwallowedApart(bs, s.lo, s.hi, k, x, b);
      }
    }
  }

  lemma OldStaleApart(s: Heap, k: nat, a: int, b: Block)
    requires Inv(s) && k < |s.blocks| && s.blocks[k].status.Allocated? && b in ReleaseAt(s.blocks, k)
    requires a in s.stale && a in Surviving(s.stale, s.blocks[k].Payload(), NODE)
    ensures Apart(a, b)
  {
    var i, j := MergeFrom(s.blocks, k), MergeTo(s.blocks, k);
    ReleaseMembers(s.blocks, k);
    if b in s.blocks[..i] || b in s.blocks[j..] {
      assert b in s.blocks;
    } else {
      assert s.blocks[i] in s.blocks;
      assert Apart(a, s.blocks[i]);
    }
  }

  lemma SwallowedApart(bs: seq<Block>, lo: nat, hi: nat, k: nat, x: nat, b: Block)
    requires Tiles(bs, lo, hi) && k < |bs| && b in ReleaseAt(bs, k)
    requires MergeFrom(bs, k) < x < MergeTo(bs, k)
    ensures Apart(bs[x].addr, b)
  {
    var i, j := MergeFrom(bs, k), MergeTo(bs, k);
    Bounds(bs, lo, hi, x);
    if b in bs[..i] {
      var y :| 0 <= y < i && bs[y] == b;
      Ordered(bs, lo, hi, y, x);
      Bounds(bs, lo, hi, y);
    } else if b in bs[j..] {
      var y :| j <= y < |bs| && bs[y] == b;
      Ordered(bs, lo, hi, x, y);
    } else {
      Ordered(bs, lo, hi, i, x);
      Bounds(bs, lo, hi, i);
    }
  }

  /** Every step keeps the invariant, whatever its arguments. */
  lemma AllocInv(s: Heap, size: nat, align: nat)
    requires Inv(s)
    ensures Inv(Alloc(s, size, align).0)
  {
    if !s.frozen && ValidRequest(size, align) {
      var k := FirstFit(s.blocks, size, align);
      if k < |s.blocks| { CarveInv(s, k, Required(s.blocks[k], size, align)); }
    }
  }

  lemma DeallocInv(s: Heap, ptr: int)
    requires Inv(s)
    ensures Inv(Dealloc(s, ptr).0)
  {
    if LiveHeaderAt(s, ptr - HEADER) { ReleaseInv(s, IndexAt(s.blocks, ptr - HEADER)); }
  }

  lemma FreezeInv(s: Heap)
    requires Inv(s)
    ensures Inv(s.(frozen := true))
  {
  }

  lemma StoreInv(s: Heap, at: int, n: nat)
    requires Inv(s)
    ensures Inv(Store(s, at, n))
  {
  }

  lemma CopiedApart(s: Heap, src: int, dst: int, n: nat)
    requires Tiles(s.blocks, s.lo, s.hi) && InLivePayload(s, dst, n)
    ensures StaleApart(s.blocks, Shifted(s.stale, src, dst, n))
  {
    Disjoint(s.blocks, s.lo, s.hi);
    var c :| c in Live(s.blocks) && c.Payload() <= dst && dst + n <= c.End();
    assert c in s.blocks;
  }

  lemma CopyInv(s: Heap, src: int, dst: int, n: nat)
    requires Inv(s) && InLivePayload(s, dst, n)
    ensures Inv(Copy(s, src, dst, n))
  {
    hide Coalesced, TallyOf, Tiles;
    CopiedApart(s, src, dst, n);
  }
}
