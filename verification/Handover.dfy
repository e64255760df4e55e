/**
  Handing the heap over: the table of live blocks, its checksum and its validation.
 */
module Handover {
  import opened Layout
  import opened Metadata
  import opened HeapModel
  import opened Memory
  import opened Shapes
  import opened Allocator

  const MAX_TRACKED: nat := 512
  const VERSION: nat := 1
  const HANDOVER_MAGIC: nat := 0x4841_4E44_4F56_4552

  datatype AllocatedBlock = AllocatedBlock(addr: nat, size: nat, purpose: Purpose, allocId: nat, timestamp: nat) {
    function EndAddr(): nat { addr + size }
    predicate Contains(x: nat) { addr <= x < EndAddr() }
    predicate OverlapsWith(other: AllocatedBlock) { addr < other.EndAddr() && other.addr < EndAddr() }
  }

  /** For blocks that hold something, the overlap test finds a common address exactly when there is one. */
  lemma OverlapIsSharing(a: AllocatedBlock, b: AllocatedBlock)
    ensures a.size > 0 && b.size > 0 ==> (a.OverlapsWith(b) <==> exists x: nat :: a.Contains(x) && b.Contains(x))
  {
    if a.size > 0 && b.size > 0 && a.OverlapsWith(b) {
      var x := if a.addr < b.addr then b.addr else a.addr;
      assert a.Contains(x) && b.Contains(x);
    }
  }

  // ---------------------------------------------------------------- the table

  function Entry(h: BlockHeader, a: nat): AllocatedBlock {
    AllocatedBlock(a + HEADER, h.size, h.purpose, h.allocId, h.timestamp)
  }

  /** The allocated part of the walk, in address order, with what the headers say. */
  function TableOf(m: Mem, bs: seq<Block>): seq<AllocatedBlock> {
    if bs == [] then []
    else (if bs[0].status.Allocated? then [Entry(m.HeaderAt(bs[0].addr), bs[0].addr)] else []) + TableOf(m, bs[1..])
  }

  function Tracked(t: seq<AllocatedBlock>): seq<AllocatedBlock> {
    if |t| <= MAX_TRACKED then t else t[..MAX_TRACKED]
  }

  function TotalSize(t: seq<AllocatedBlock>): nat {
    if t == [] then 0 else t[0].size + TotalSize(t[1..])
  }

  lemma {:induction false} TableConcat(m: Mem, a: seq<Block>, b: seq<Block>)
    ensures TableOf(m, a + b) == TableOf(m, a) + TableOf(m, b)
  {
    if a == [] {
      assert a + b == b;
    } else {
      assert (a + b)[1..] == a[1..] + b;
      TableConcat(m, a[1..], b);
    }
  }

  lemma {:induction false} TotalConcat(a: seq<AllocatedBlock>, b: seq<AllocatedBlock>)
    ensures TotalSize(a + b) == TotalSize(a) + TotalSize(b)
  {
    if a == [] {
      assert a + b == b;
    } else {
      assert (a + b)[1..] == a[1..] + b;
      TotalConcat(a[1..], b);
    }
  }

  /** The table adds up to the ledger. */
  lemma {:induction false} TableTotals(m: Mem, bs: seq<Block>)
    requires forall b | b in bs :: Describes(m.HeaderAt(b.addr), b)
    ensures TotalSize(TableOf(m, bs)) == TallyOf(bs).used && |TableOf(m, bs)| == TallyOf(bs).allocs
    decreases |bs|
  {
    hide BlockHeader.CalculateChecksum, BlockHeader.Validate;
    if bs != [] {
      assert bs[0] in bs;
      forall b | b in bs[1..] ensures b in bs {}
      TableTotals(m, bs[1..]);
      var t := TableOf(m, bs[1..]);
      if bs[0].status.Allocated? {
        var e := Entry(m.HeaderAt(bs[0].addr), bs[0].addr);
        assert TableOf(m, bs) == [e] + t && ([e] + t)[1..] == t;
      } else {
        assert TableOf(m, bs) == t;
      }
    }
  }

  /** The table lists the live payloads: inside the heap, nonempty, in order and apart. */
  lemma {:induction false} TablePlaces(m: Mem, bs: seq<Block>, lo: nat, hi: nat)
    requires Tiles(bs, lo, hi) && forall b | b in bs :: Describes(m.HeaderAt(b.addr), b)
    ensures Placed(TableOf(m, bs), lo, hi)
    decreases |bs|
  {
    hide BlockHeader.CalculateChecksum, BlockHeader.Validate;
    if bs != [] {
      var b, t := bs[0], TableOf(m, bs[1..]);
      assert b in bs;
      forall c | c in bs[1..] ensures c in bs {}
      TablePlaces(m, bs[1..], b.End(), hi);
      EdgeBounds(bs[1..], b.End(), hi);
      if b.status.Allocated? {
        PlacedFirst(Entry(m.HeaderAt(b.addr), b.addr), t, lo, b.End(), hi);
      } else {
        assert TableOf(m, bs) == t;
      }
    }
  }

  predicate Placed(t: seq<AllocatedBlock>, lo: nat, hi: nat) {
    && (forall i | 0 <= i < |t| :: lo + HEADER <= t[i].addr && t[i].EndAddr() <= hi && t[i].size >= NODE)
    && (forall i, j | 0 <= i < j < |t| :: t[i].EndAddr() <= t[j].addr)
  }

  lemma PlacedFirst(e: AllocatedBlock, t: seq<AllocatedBlock>, lo: nat, mid: nat, hi: nat)
    requires e.addr == lo + HEADER && e.EndAddr() == mid <= hi && e.size >= NODE && Placed(t, mid, hi)
    ensures Placed([e] + t, lo, hi)
  {
  }

  /** The entry repeats size, purpose, id and timestamp of the header. */
  predicate Repeats(e: AllocatedBlock, h: BlockHeader) {
    e.size == h.size && e.purpose == h.purpose && e.allocId == h.allocId && e.timestamp == h.timestamp
  }

  ghost predicate Lists(m: Mem, live: set<Block>, e: AllocatedBlock) {
    exists b :: b in live && b.Payload() == e.addr && Repeats(e, m.HeaderAt(b.addr))
  }

  /** The table lists live blocks only, and no two of its entries carry the same allocation id. */
  lemma {:induction false} TableIds(m: Mem, bs: seq<Block>, lo: nat, hi: nat, next: nat)
    requires Tiles(bs, lo, hi) && Ids(m, Live(bs), next)
    ensures forall i | 0 <= i < |TableOf(m, bs)| :: Lists(m, Live(bs), TableOf(m, bs)[i])
    ensures forall i, j | 0 <= i < j < |TableOf(m, bs)| :: TableOf(m, bs)[i].allocId != TableOf(m, bs)[j].allocId
    decreases |bs|
  {
    if bs != [] {
      LiveTail(bs, lo, hi);
      var t := TableOf(m, bs[1..]);
      TableIds(m, bs[1..], bs[0].End(), hi, next);
      forall i | 0 <= i < |t|
        ensures Lists(m, Live(bs), t[i])
        ensures bs[0].status.Allocated? ==> t[i].allocId != m.HeaderAt(bs[0].addr).allocId
      {
        assert Lists(m, Live(bs[1..]), t[i]);
        var b :| b in Live(bs[1..]) && b.Payload() == t[i].addr && Repeats(t[i], m.HeaderAt(b.addr));
        assert b in Live(bs);
        assert bs[0].status.Allocated? ==> bs[0] in Live(bs);
      }
      if bs[0].status.Allocated? {
        assert bs[0] in Live(bs) && bs[0].Payload() == Entry(m.HeaderAt(bs[0].addr), bs[0].addr).addr;
        assert Lists(m, Live(bs), Entry(m.HeaderAt(bs[0].addr), bs[0].addr));
      }
    }
  }

  // ---------------------------------------------------------------- checksum

  function Add32(x: nat, y: nat): nat { (x + y) % WORD32 }

  function SumFields(version: nat, magic: nat, start: nat, end: nat, count: nat): nat {
    Add32(Add32(Add32(Add32(Add32(Add32(0, version), Low(magic)), High(magic)), Low(start)), Low(end)), Low(count))
  }

  /** The sampled entries folded into a running sum. */
  function SumEntries(acc: nat, t: seq<AllocatedBlock>): nat {
    if t == [] then acc
    else
      var e := t[|t| - 1];
      Add32(Add32(Add32(SumEntries(acc, t[..|t| - 1]), Low(e.addr)), Low(e.size)), Low(e.allocId))
  }

  function Sampled(t: seq<AllocatedBlock>): seq<AllocatedBlock> { if |t| <= 16 then t else t[..16] }

  /** What one entry adds to the sum, and what all of them do, without wrapping. */
  function Weight(e: AllocatedBlock): nat { Low(e.addr) + Low(e.size) + Low(e.allocId) }

  function Weights(t: seq<AllocatedBlock>): nat { if t == [] then 0 else Weight(t[0]) + Weights(t[1..]) }

  lemma {:induction false} WeightsConcat(a: seq<AllocatedBlock>, b: seq<AllocatedBlock>)
    ensures Weights(a + b) == Weights(a) + Weights(b)
  {
    if a == [] {
      assert a + b == b;
    } else {
      assert (a + b)[0] == a[0] && (a + b)[1..] == a[1..] + b;
      WeightsConcat(a[1..], b);
    }
  }

  /** Wrapping at every step is wrapping once. */
  lemma {:induction false} SumIsPlain(acc: nat, t: seq<AllocatedBlock>)
    requires acc < WORD32
    ensures SumEntries(acc, t) == (acc + Weights(t)) % WORD32
  {
    hide Low, Add32;
    if t != [] {
      var init, e := t[..|t| - 1], t[|t| - 1];
      SumIsPlain(acc, init);
      assert t == init + [e] && [e][1..] == [];
      WeightsConcat(init, [e]);
      assert Weights([e]) == Weight(e) + Weights([e][1..]);
      WrapThree(acc + Weights(init), Low(e.addr), Low(e.size), Low(e.allocId));
    }
  }

  lemma WrapThree(n: nat, x: nat, y: nat, z: nat)
    ensures Add32(Add32(Add32(n % WORD32, x), y), z) == (n + x + y + z) % WORD32
  {
    WrapOne(n, x);
    WrapOne(n + x, y);
    WrapOne(n + x + y, z);
  }

  lemma WrapOne(n: nat, x: nat)
    ensures Add32(n % WORD32, x) == (n + x) % WORD32
  {
  }

  /** Tampering with one entry goes unnoticed exactly when the entry is not sampled or its weight stays the same. */
  lemma TamperUnnoticed(acc: nat, t: seq<AllocatedBlock>, i: nat, e: AllocatedBlock)
    requires acc < WORD32 && i < |t|
    ensures SumEntries(acc, Sampled(t[i := e])) == SumEntries(acc, Sampled(t)) <==>
            i >= 16 || Weight(e) % WORD32 == Weight(t[i]) % WORD32
  {
    hide Weight, Weights, SumEntries;
    var s, s' := Sampled(t), Sampled(t[i := e]);
    SumIsPlain(acc, s);
    SumIsPlain(acc, s');
    if i >= 16 {
      assert s == s';
    } else {
      var pre, post := s[..i], s[i + 1..];
      assert s == pre + [t[i]] + post && s' == pre + [e] + post;
      WeightsAround(pre, t[i], post);
      WeightsAround(pre, e, post);
      SumMod(Weight(e), Weight(t[i]), acc + Weights(pre) + Weights(post));
    }
  }

  lemma WeightsAround(pre: seq<AllocatedBlock>, e: AllocatedBlock, post: seq<AllocatedBlock>)
    ensures Weights(pre + [e] + post) == Weights(pre) + Weight(e) + Weights(post)
  {
    WeightsConcat(pre + [e], post);
    WeightsConcat(pre, [e]);
    assert [e][1..] == [];
    assert Weights([e]) == Weight(e) + Weights([e][1..]);
  }

  /** Changing one of the recorded bounds, or the count, goes unnoticed exactly when its low word stays the same. */
  lemma BoundsSealed(version: nat, magic: nat, start: nat, end: nat, count: nat, t: seq<AllocatedBlock>, x: nat)
    ensures var sum := (s, e, c) => SumEntries(SumFields(version, magic, s, e, c), t);
            && (sum(x, end, count) == sum(start, end, count) <==> x % WORD32 == start % WORD32)
            && (sum(start, x, count) == sum(start, end, count) <==> x % WORD32 == end % WORD32)
            && (sum(start, end, x) == sum(start, end, count) <==> x % WORD32 == count % WORD32)
  {
    hide SumEntries, SumFields, Weights, Low, High;
    var v, m := version, Low(magic) + High(magic);
    FieldsArePlain(version, magic, start, end, count);
    FieldsArePlain(version, magic, x, end, count);
    FieldsArePlain(version, magic, start, x, count);
    FieldsArePlain(version, magic, start, end, x);
    SameSum(v + m + Low(x) + Low(end) + Low(count), v + m + Low(start) + Low(end) + Low(count), t);
    SameSum(v + m + Low(start) + Low(x) + Low(count), v + m + Low(start) + Low(end) + Low(count), t);
    SameSum(v + m + Low(start) + Low(end) + Low(x), v + m + Low(start) + Low(end) + Low(count), t);
    SumMod(Low(x), Low(start), v + m + Low(end) + Low(count));
    SumMod(Low(x), Low(end), v + m + Low(start) + Low(count));
    SumMod(Low(x), Low(count), v + m + Low(start) + Low(end));
    LowMod(x);
    LowMod(start);
    LowMod(end);
    LowMod(count);
  }

  lemma LowMod(x: nat)
    ensures Low(x) % WORD32 == x % WORD32
  {
  }

  lemma SameSum(x: nat, y: nat, t: seq<AllocatedBlock>)
    ensures SumEntries(x % WORD32, t) == SumEntries(y % WORD32, t) <==> x % WORD32 == y % WORD32
  {
    hide SumEntries, Weights;
    SumIsPlain(x % WORD32, t);
    SumIsPlain(y % WORD32, t);
    SumMod(x % WORD32, y % WORD32, Weights(t));
  }

  lemma FieldsArePlain(version: nat, magic: nat, start: nat, end: nat, count: nat)
    ensures SumFields(version, magic, start, end, count) ==
            (version + Low(magic) + High(magic) + Low(start) + Low(end) + Low(count)) % WORD32
  {
    hide Add32, Low, High;
    WrapOne(0, version);
    WrapThree(version, Low(magic), High(magic), Low(start));
    WrapOne(version + Low(magic) + High(magic) + Low(start), Low(end));
    WrapOne(version + Low(magic) + High(magic) + Low(start) + Low(end), Low(count));
  }

  // ---------------------------------------------------------------- the record

  datatype Verdict = Accepted | BadMagic | BadVersion | BadRange | TooMany | BadChecksum
                   | OutsideHeap | Overlapping | StatsMismatch

  class HandoverInfo {
    const version: nat
    const magic: nat
    const heapStart: nat
    const heapEnd: nat
    const allocatedBlocks: array<AllocatedBlock>
    var allocatedCount: nat
    const statistics: AllocStats
    var checksum: nat

    ghost predicate Valid()
      reads this, allocatedBlocks
    {
      allocatedBlocks.Length == MAX_TRACKED
    }

    ghost function Table(): seq<AllocatedBlock>
      requires Valid()
      reads this, allocatedBlocks
    {
      allocatedBlocks[..if allocatedCount <= MAX_TRACKED then allocatedCount else MAX_TRACKED]
    }

    ghost function Sum(): nat
      requires Valid()
      reads this, allocatedBlocks
    {
      SumEntries(SumFields(version, magic, heapStart, heapEnd, allocatedCount), Sampled(Table()))
    }

    constructor (start: nat, end: nat, stats: AllocStats)
      ensures Valid() && fresh(allocatedBlocks) && Table() == [] && allocatedCount == 0
      ensures version == VERSION && magic == HANDOVER_MAGIC
      ensures heapStart == start && heapEnd == end && statistics == stats
      ensures checksum == Sum()
    {
      version, magic := VERSION, HANDOVER_MAGIC;
      heapStart, heapEnd, statistics := start, end, stats;
      allocatedBlocks := new AllocatedBlock[MAX_TRACKED](_ => AllocatedBlock(0, 0, 0, 0, 0));
      allocatedCount := 0;
      checksum := 0;
      new;
      checksum := CalculateChecksum();
    }

    method CalculateChecksum() returns (c: nat)
      requires Valid()
      ensures c == Sum()
    {
      c := Add32(0, version);
      c := Add32(c, Low(magic));
      c := Add32(c, High(magic));
      c := Add32(c, Low(heapStart));
      c := Add32(c, Low(heapEnd));
      c := Add32(c, Low(allocatedCount));
      ghost var acc := c;
      var n := if allocatedCount < 16 then allocatedCount else 16;
      for i := 0 to n
        invariant c == SumEntries(acc, allocatedBlocks[..i])
      {
        var e := allocatedBlocks[i];
        assert allocatedBlocks[..i + 1][..i] == allocatedBlocks[..i];
        c := Add32(c, Low(e.addr));
        c := Add32(c, Low(e.size));
        c := Add32(c, Low(e.allocId));
      }
      assert allocatedBlocks[..n] == Sampled(Table());
    }

    method UpdateChecksum()
      requires Valid()
      modifies this`checksum
      ensures checksum == Sum()
    {
      checksum := CalculateChecksum();
    }

    method Push(e: AllocatedBlock)
      requires Valid() && allocatedCount < MAX_TRACKED
      modifies this`allocatedCount, allocatedBlocks
      ensures Valid() && Table() == old(Table()) + [e] && allocatedCount == old(allocatedCount) + 1
    {
      allocatedBlocks[allocatedCount] := e;
      allocatedCount := allocatedCount + 1;
    }

    method AllocatedSize() returns (total: nat)
      requires Valid() && allocatedCount <= MAX_TRACKED
      ensures total == TotalSize(Table())
    {
      total := 0;
      for i := 0 to allocatedCount
        invariant total == TotalSize(allocatedBlocks[..i])
      {
        assert allocatedBlocks[..i + 1] == allocatedBlocks[..i] + [allocatedBlocks[i]];
        TotalConcat(allocatedBlocks[..i], [allocatedBlocks[i]]);
        total := total + allocatedBlocks[i].size;
      }
    }

    /** What the checks decide, in the order they are made. */
    ghost function Decision(): Verdict
      requires Valid()
      reads this, allocatedBlocks
    {
      var t := Table();
      if magic != HANDOVER_MAGIC then BadMagic
      else if version != VERSION then BadVersion
      else if heapStart >= heapEnd then BadRange
      else if allocatedCount > MAX_TRACKED then TooMany
      else if checksum != Sum() then BadChecksum
      else if exists i :: 0 <= i < |t| && !(heapStart <= t[i].addr && t[i].EndAddr() <= heapEnd) then OutsideHeap
      else if exists i, j :: 0 <= i < j < |t| && t[i].OverlapsWith(t[j]) then Overlapping
      else if TotalSize(t) != statistics.usedSize then StatsMismatch
      else Accepted
    }

    /** `validate`: the first failing check decides. */
    method Validate() returns (v: Verdict)
      requires Valid()
      ensures v == Decision()
    {
      if magic != HANDOVER_MAGIC { return BadMagic; }
      if version != VERSION { return BadVersion; }
      if heapStart >= heapEnd { return BadRange; }
      if allocatedCount > MAX_TRACKED { return TooMany; }
      var sum := CalculateChecksum();
      if checksum != sum { return BadChecksum; }
      ghost var t := Table();
      for i := 0 to allocatedCount
        invariant forall k | 0 <= k < i :: heapStart <= t[k].addr && t[k].EndAddr() <= heapEnd
      {
        var e := allocatedBlocks[i];
        if e.addr < heapStart || e.EndAddr() > heapEnd {
          assert t[i] == e;
          return OutsideHeap;
        }
      }
      var clash := FindOverlap();
      if clash { return Overlapping; }
      var total := AllocatedSize();
      if total != statistics.usedSize { return StatsMismatch; }
      return Accepted;
    }

    method FindOverlap() returns (found: bool)
      requires Valid() && allocatedCount <= MAX_TRACKED
      ensures found <==> exists i, j :: 0 <= i < j < |Table()| && Table()[i].OverlapsWith(Table()[j])
    {
      ghost var t := Table();
      for i := 0 to allocatedCount
        invariant forall x, y | 0 <= x < i && x < y < |t| :: !t[x].OverlapsWith(t[y])
      {
        for j := i + 1 to allocatedCount
          invariant forall y | i < y < j :: !t[i].OverlapsWith(t[y])
        {
          if allocatedBlocks[i].OverlapsWith(allocatedBlocks[j]) {
            assert t[i].OverlapsWith(t[j]);
            return true;
          }
        }
      }
      return false;
    }
  }

  // ---------------------------------------------------------------- preparing it

  /** The record holds the address-ordered allocated part of the walk, cut at 512 entries, under a fresh checksum. */
  ghost predicate Prepared(info: HandoverInfo, m: Mem, s: Heap)
    reads info, info.allocatedBlocks
  {
    && Inv(s) && HeadersOk(m.headers, s.blocks, s.stale)
    && info.Valid() && info.Table() == Tracked(TableOf(m, s.blocks)) && info.allocatedCount <= MAX_TRACKED
    && info.checksum == info.Sum() && info.version == VERSION && info.magic == HANDOVER_MAGIC
    && info.heapStart == s.lo && info.statistics == s.stats
  }

  /** `prepare_handover` as coded: it records the size of the heap where the end is meant. */
  method PrepareHandover(a: EarlyAllocator) returns (info: HandoverInfo)
    requires a.Valid()
    ensures fresh(info) && Prepared(info, a.mem, a.Abs()) && info.heapEnd == a.heapEnd - a.heapStart
  {
    hide Linked, StaleApart, HeadersOk, Ledger, Coalesced, Tiles, TableOf;
    info := BuildHandover(a, a.heapEnd - a.heapStart);
  }

  /** The same for whatever end is recorded. */
  method BuildHandover(a: EarlyAllocator, end: nat) returns (info: HandoverInfo)
    requires a.Valid()
    ensures fresh(info) && fresh(info.allocatedBlocks) && info.heapEnd == end
    ensures Prepared(info, a.mem, a.Abs())
  {
    hide Linked, StaleApart, HeadersOk, Ledger, Coalesced, Tiles, TableOf;
    info := new HandoverInfo(a.heapStart, end, a.stats);
    var current := a.heapStart;
    ghost var i := 0;
    ghost var bs := a.blocks;
    WalkStart(a.mem, bs, a.heapStart, a.heapEnd);
    while current < a.heapEnd
      invariant fresh(info) && fresh(info.allocatedBlocks) && info.Valid() && info.allocatedCount <= MAX_TRACKED
      invariant 0 <= i <= |bs| && (if i < |bs| then current == bs[i].addr else current == a.heapEnd)
      invariant info.Table() == TableOf(a.mem, bs[..i])
      decreases a.heapEnd - current
    {
      NextHeader(bs, a.heapStart, a.heapEnd, i);
      EdgeBounds(bs, a.heapStart, a.heapEnd);
      HeaderOf(a.mem, bs, a.stale, i);
      TableStep(a.mem, bs, i);
      var h := a.mem.HeaderAt(current);
      if h.status.Allocated? {
        if info.allocatedCount < MAX_TRACKED {
          info.Push(Entry(h, current));
        } else {
          break;
        }
      }
      current := current + h.TotalSize();
      i := i + 1;
    }
    if i < |bs| { Bounds(bs, a.heapStart, a.heapEnd, i); }
    TableCut(a.mem, bs, i);
    info.UpdateChecksum();
  }

  lemma WalkStart(m: Mem, bs: seq<Block>, lo: nat, hi: nat)
    requires Tiles(bs, lo, hi) && lo < hi
    ensures bs != [] && bs[0].addr == lo && TableOf(m, bs[..0]) == []
  {
  }

  /** A walk cut at 512 entries gives the tracked part of the table. */
  lemma TableCut(m: Mem, bs: seq<Block>, i: nat)
    requires i <= |bs| && |TableOf(m, bs[..i])| <= MAX_TRACKED
    requires i < |bs| ==> |TableOf(m, bs[..i])| == MAX_TRACKED
    ensures Tracked(TableOf(m, bs)) == TableOf(m, bs[..i])
  {
    assert bs == bs[..i] + bs[i..];
    TableConcat(m, bs[..i], bs[i..]);
  }

  lemma TableStep(m: Mem, bs: seq<Block>, i: nat)
    requires i < |bs|
    ensures TableOf(m, bs[..i + 1]) == TableOf(m, bs[..i])
              + if bs[i].status.Allocated? then [Entry(m.HeaderAt(bs[i].addr), bs[i].addr)] else []
  {
    assert bs[..i + 1] == bs[..i] + [bs[i]];
    TableConcat(m, bs[..i], [bs[i]]);
    assert [bs[i]][1..] == [];
  }

  // ---------------------------------------------------------------- what validation says of a prepared record

  /** Cutting the table loses bytes. */
  lemma CutTotal(t: seq<AllocatedBlock>)
    requires forall i | 0 <= i < |t| :: t[i].size > 0
    ensures TotalSize(Tracked(t)) == TotalSize(t) <==> |t| <= MAX_TRACKED
  {
    if |t| > MAX_TRACKED {
      assert t == t[..MAX_TRACKED] + t[MAX_TRACKED..];
      TotalConcat(t[..MAX_TRACKED], t[MAX_TRACKED..]);
      assert t[MAX_TRACKED].size > 0;
    }
  }

  /** Whatever end was recorded: only the range, the blocks beyond that end, and the 512 limit matter. */
  lemma PreparedDecision(info: HandoverInfo, m: Mem, s: Heap)
    requires Prepared(info, m, s)
    ensures info.Decision() ==
            if s.lo >= info.heapEnd then BadRange
            else if exists i :: 0 <= i < |info.Table()| && info.Table()[i].EndAddr() > info.heapEnd then OutsideHeap
            else if s.stats.allocCount <= MAX_TRACKED then Accepted else StatsMismatch
  {
    hide Linked, StaleApart, Coalesced, Tiles, TableOf, HandoverInfo.Sum;
    forall b | b in s.blocks ensures Describes(m.HeaderAt(b.addr), b) {}
    TableTotals(m, s.blocks);
    TablePlaces(m, s.blocks, s.lo, s.hi);
    CutTotal(TableOf(m, s.blocks));
  }

  /** An accepted record is sound: its blocks lie in the heap, share no address, and add up to the used size. */
  lemma AcceptedIsSound(info: HandoverInfo)
    requires info.Valid() && info.Decision() == Accepted
    ensures info.magic == HANDOVER_MAGIC && info.version == 1 && info.allocatedCount <= 512
    ensures info.heapStart < info.heapEnd && info.checksum == info.Sum()
    ensures forall i, x: nat | 0 <= i < |info.Table()| && info.Table()[i].Contains(x) ::
              info.heapStart <= x < info.heapEnd
    ensures forall i, j, x: nat | 0 <= i < j < |info.Table()| && info.Table()[i].Contains(x) ::
              !info.Table()[j].Contains(x)
    ensures TotalSize(info.Table()) == info.statistics.usedSize
  {
    hide TotalSize, SumEntries, SumFields;
    var t := info.Table();
    forall i, j, x: nat | 0 <= i < j < |t| && t[i].Contains(x) ensures !t[j].Contains(x) {
      OverlapIsSharing(t[i], t[j]);
      assert !t[i].OverlapsWith(t[j]);
    }
  }

  /** With the heap end recorded, validation accepts exactly the complete tables. */
  lemma IntendedHandover(info: HandoverInfo, m: Mem, s: Heap)
    requires Prepared(info, m, s)
    ensures info.heapEnd == s.hi ==>
              info.Decision() == if s.stats.allocCount <= 512 then Accepted else StatsMismatch
  {
    hide Linked, StaleApart, Coalesced, Tiles, TableOf, HandoverInfo.Sum, HandoverInfo.Decision;
    PreparedDecision(info, m, s);
    forall b | b in s.blocks ensures Describes(m.HeaderAt(b.addr), b) {}
    TablePlaces(m, s.blocks, s.lo, s.hi);
  }

  /**
    The code records the heap size instead of the heap end. Validation then accepts exactly when the heap
    starts below its own size, every listed block ends below it too, and the table is complete; in
    particular it rejects every heap that starts at or above its size.
   */
  lemma HandoverAsCoded(info: HandoverInfo, m: Mem, s: Heap)
    requires Prepared(info, m, s) && info.heapEnd == s.hi - s.lo
    ensures info.Decision() == Accepted <==>
            (s.lo < s.hi - s.lo && s.stats.allocCount <= 512
             && forall b | b in Live(s.blocks) :: b.End() <= s.hi - s.lo)
    ensures s.lo >= s.hi - s.lo ==> info.Decision() == BadRange
  {
    hide Linked, StaleApart, Coalesced, Tiles, HandoverInfo.Sum, HandoverInfo.Decision;
    PreparedDecision(info, m, s);
    forall b | b in s.blocks ensures Describes(m.HeaderAt(b.addr), b) {}
    TableTotals(m, s.blocks);
    TableEnds(m, s.blocks, s.hi - s.lo);
  }

  lemma {:induction false} TableEnds(m: Mem, bs: seq<Block>, end: nat)
    requires forall b | b in bs :: Describes(m.HeaderAt(b.addr), b)
    ensures (forall i | 0 <= i < |TableOf(m, bs)| :: TableOf(m, bs)[i].EndAddr() <= end) <==>
            (forall b | b in Live(bs) :: b.End() <= end)
    decreases |bs|
  {
    hide BlockHeader.CalculateChecksum, BlockHeader.Validate;
    if bs != [] {
      assert bs[0] in bs;
      forall b | b in bs[1..] ensures b in bs {}
      TableEnds(m, bs[1..], end);
      assert bs == [bs[0]] + bs[1..];
      assert forall b :: b in Live(bs) <==> b in Live(bs[1..]) || (b == bs[0] && b.status.Allocated?);
      var t := TableOf(m, bs[1..]);
      if bs[0].status.Allocated? {
        var e := Entry(m.HeaderAt(bs[0].addr), bs[0].addr);
        assert TableOf(m, bs) == [e] + t;
        assert bs[0] in Live(bs);
        assert TableOf(m, bs)[0] == e && forall i | 0 <= i < |t| :: TableOf(m, bs)[i + 1] == t[i];
      } else {
        assert TableOf(m, bs) == t;
      }
    }
  }
}
