/**
  The fragmentation analysis: block indices are sorted by address in place, then one scan adds up the gaps.
 */
module Fragmentation {
  import opened Layout
  import opened Metadata
  import opened HeapModel
  import opened Memory
  import opened Shapes
  import opened Handover

  datatype Analysis = Analysis(external: nat, gaps: nat, largest: nat)

  function WithGap(r: Analysis, gap: nat): Analysis {
    Analysis(r.external + gap, r.gaps + 1, Max(r.largest, gap))
  }

  function Join(r: Analysis, t: Analysis): Analysis {
    Analysis(r.external + t.external, r.gaps + t.gaps, Max(r.largest, t.largest))
  }

  /** The gaps that a scan in this order finds between `last` and `end`. */
  function Gaps(view: seq<AllocatedBlock>, last: nat, end: nat): Analysis {
    if view == [] then
      if last < end then WithGap(Analysis(0, 0, 0), end - last) else Analysis(0, 0, 0)
    else
      var rest := Gaps(view[1..], view[0].EndAddr(), end);
      if view[0].addr > last then WithGap(rest, view[0].addr - last) else rest
  }

  // ---------------------------------------------------------------- sorting and scanning

  /** `view` is `blocks` read in the order of the distinct indices `perm`. */
  ghost predicate Reordering(blocks: seq<AllocatedBlock>, perm: seq<nat>, view: seq<AllocatedBlock>) {
    && |perm| == |view| == |blocks|
    && (forall i | 0 <= i < |perm| :: perm[i] < |blocks| && view[i] == blocks[perm[i]])
    && (forall i, j | 0 <= i < j < |perm| :: perm[i] != perm[j])
    && multiset(view) == multiset(blocks)
  }

  predicate Ascending(view: seq<AllocatedBlock>) {
    forall i, j | 0 <= i < j < |view| :: view[i].addr <= view[j].addr
  }

  function Swapped<T>(s: seq<T>, j: nat): seq<T>
    requires j + 1 < |s|
  {
    s[j := s[j + 1]][j + 1 := s[j]]
  }

  lemma SwapReorders(blocks: seq<AllocatedBlock>, perm: seq<nat>, view: seq<AllocatedBlock>, j: nat)
    requires Reordering(blocks, perm, view) && j + 1 < |blocks|
    ensures Reordering(blocks, Swapped(perm, j), Swapped(view, j))
  {
    SwapMultiset(view, j);
    SwapDistinct(perm, j);
  }

  lemma SwapDistinct(perm: seq<nat>, j: nat)
    requires j + 1 < |perm| && forall a, b | 0 <= a < b < |perm| :: perm[a] != perm[b]
    ensures forall a, b | 0 <= a < b < |perm| :: Swapped(perm, j)[a] != Swapped(perm, j)[b]
  {
  }

  lemma SwapMultiset<T>(s: seq<T>, j: nat)
    requires j + 1 < |s|
    ensures multiset(Swapped(s, j)) == multiset(s)
  {
  }

  /** Everything from position `from` on is in order and not below anything before it. */
  predicate TailSorted(view: seq<AllocatedBlock>, from: int) {
    forall p, q | 0 <= p < q < |view| && from <= q :: view[p].addr <= view[q].addr
  }

  /** One step of bubble sort: positions up to `j` do not exceed position `j`. */
  predicate Bubbled(view: seq<AllocatedBlock>, j: nat) {
    j < |view| && forall p | 0 <= p < j :: view[p].addr <= view[j].addr
  }

  lemma BubbleStep(view: seq<AllocatedBlock>, j: nat, from: int)
    requires TailSorted(view, from) && Bubbled(view, j) && j + 1 < from <= |view|
    ensures var v := if view[j].addr > view[j + 1].addr then Swapped(view, j) else view;
            TailSorted(v, from) && Bubbled(v, j + 1)
  {
  }

  lemma BubbleRound(view: seq<AllocatedBlock>, from: int)
    requires TailSorted(view, from) && 0 < from <= |view| && Bubbled(view, from - 1)
    ensures TailSorted(view, from - 1)
  {
  }

  /** The index array and its reading. */
  ghost predicate Reads(a: array<nat>, perm: seq<nat>)
    reads a
  {
    |perm| <= a.Length && forall i | 0 <= i < |perm| :: a[i] == perm[i]
  }

  method SortIndices(blocks: seq<AllocatedBlock>, a: array<nat>)
    returns (ghost perm: seq<nat>, ghost view: seq<AllocatedBlock>)
    requires |blocks| <= a.Length
    modifies a
    ensures Reads(a, perm) && Reordering(blocks, perm, view) && Ascending(view)
  {
    var n := |blocks|;
    for i := 0 to n
      invariant forall k | 0 <= k < i :: a[k] == k
    {
      a[i] := i;
    }
    perm, view := seq(n, i => i), blocks;
    for i := 0 to n
      invariant Reads(a, perm) && Reordering(blocks, perm, view) && TailSorted(view, n - i)
    {
      perm, view := BubblePass(blocks, a, n - i, perm, view);
    }
  }

  /** One round: the largest of the first `from` entries moves to their end. */
  method BubblePass(blocks: seq<AllocatedBlock>, a: array<nat>, from: nat, ghost perm0: seq<nat>,
      ghost view0: seq<AllocatedBlock>)
    returns (ghost perm: seq<nat>, ghost view: seq<AllocatedBlock>)
    requires 0 < from <= |blocks| <= a.Length
    requires Reads(a, perm0) && Reordering(blocks, perm0, view0) && TailSorted(view0, from)
    modifies a
    ensures Reads(a, perm) && Reordering(blocks, perm, view) && TailSorted(view, from - 1)
  {
    hide TailSorted, Bubbled, Reordering;
    perm, view := perm0, view0;
    ReorderedAt(blocks, perm, view, 0);
    BubbleStart(view);
    for j := 0 to from - 1
      invariant Reads(a, perm) && Reordering(blocks, perm, view) && TailSorted(view, from) && Bubbled(view, j)
    {
      perm, view := CompareSwap(blocks, a, j, from, perm, view);
    }
    ReorderedAt(blocks, perm, view, 0);
    BubbleRound(view, from);
  }

  method CompareSwap(blocks: seq<AllocatedBlock>, a: array<nat>, j: nat, ghost from: nat,
                     ghost perm0: seq<nat>, ghost view0: seq<AllocatedBlock>)
    returns (ghost perm: seq<nat>, ghost view: seq<AllocatedBlock>)
    requires j + 1 < from <= |blocks| <= a.Length
    requires Reads(a, perm0) && Reordering(blocks, perm0, view0) && TailSorted(view0, from) && Bubbled(view0, j)
    modifies a
    ensures Reads(a, perm) && Reordering(blocks, perm, view) && TailSorted(view, from) && Bubbled(view, j + 1)
  {
    hide TailSorted, Bubbled, Reordering;
    ReorderedAt(blocks, perm0, view0, j);
    ReorderedAt(blocks, perm0, view0, j + 1);
    BubbleStep(view0, j, from);
    SwapReorders(blocks, perm0, view0, j);
    perm, view := perm0, view0;
    if blocks[a[j]].addr > blocks[a[j + 1]].addr {
      a[j], a[j + 1] := a[j + 1], a[j];
      perm, view := Swapped(perm0, j), Swapped(view0, j);
    }
  }

  lemma ReorderedAt(blocks: seq<AllocatedBlock>, perm: seq<nat>, view: seq<AllocatedBlock>, i: nat)
    requires Reordering(blocks, perm, view) && i < |blocks|
    ensures |perm| == |view| == |blocks| && perm[i] < |blocks| && view[i] == blocks[perm[i]]
  {
  }

  lemma BubbleStart(view: seq<AllocatedBlock>)
    requires view != []
    ensures Bubbled(view, 0)
  {
  }

  /**
    `calculate_advanced_fragmentation`: the gaps of the blocks taken in address order; for proper blocks,
    in whatever order they come, the numbers are exact.
   */
  method CalculateAdvancedFragmentation(blocks: seq<AllocatedBlock>, start: nat, end: nat)
    returns (r: Analysis)
    requires |blocks| <= MAX_TRACKED
    ensures exists perm, view :: Reordering(blocks, perm, view) && Ascending(view) && r == Gaps(view, start, end)
    ensures Proper(blocks, start, end) ==> Exact(blocks, start, end, r)
  {
    hide Exact, Proper;
    var sorted := new nat[MAX_TRACKED];
    ghost var perm, view := SortIndices(blocks, sorted);
    r := Analysis(0, 0, 0);
    var last: nat := start;
    for i := 0 to |blocks|
      invariant Join(r, Gaps(view[i..], last, end)) == Gaps(view, start, end)
    {
      var b := blocks[sorted[i]];
      assert b == view[i] && view[i..][1..] == view[i + 1..];
      if b.addr > last { r := WithGap(r, b.addr - last); }
      last := b.EndAddr();
    }
    assert view[|blocks|..] == [];
    if last < end { r := WithGap(r, end - last); }
    if Proper(blocks, start, end) {
      AnalysisExact(blocks, perm, view, start, end);
    }
  }

  // ---------------------------------------------------------------- what the numbers mean

  /** Nonempty blocks inside the range, no two of them overlapping. */
  ghost predicate Proper(blocks: seq<AllocatedBlock>, start: nat, end: nat) {
    && start <= end
    && (forall i | 0 <= i < |blocks| :: start <= blocks[i].addr && blocks[i].EndAddr() <= end && blocks[i].size > 0)
    && (forall i, j | 0 <= i < j < |blocks| :: !blocks[i].OverlapsWith(blocks[j]))
  }

  /** In order and end to end: each block starts at or after the end of the one before. */
  predicate Chain(view: seq<AllocatedBlock>, start: nat, end: nat) {
    if view == [] then start <= end
    else start <= view[0].addr && view[0].size > 0 && Chain(view[1..], view[0].EndAddr(), end)
  }

  lemma {:induction false} ProperChain(view: seq<AllocatedBlock>, start: nat, end: nat)
    requires Proper(view, start, end) && Ascending(view)
    ensures Chain(view, start, end)
    decreases |view|
  {
    if view != [] {
      forall i | 0 <= i < |view[1..]| ensures view[0].EndAddr() <= view[1..][i].addr {
        assert !view[0].OverlapsWith(view[i + 1]);
      }
      forall i, j | 0 <= i < j < |view[1..]| ensures !view[1..][i].OverlapsWith(view[1..][j]) {
        assert !view[i + 1].OverlapsWith(view[j + 1]);
      }
      ProperChain(view[1..], view[0].EndAddr(), end);
    }
  }

  lemma ReorderedProper(blocks: seq<AllocatedBlock>, perm: seq<nat>,
      view: seq<AllocatedBlock>, start: nat, end: nat)
    requires Proper(blocks, start, end) && Reordering(blocks, perm, view)
    ensures Proper(view, start, end)
  {
    forall i, j | 0 <= i < j < |view| ensures !view[i].OverlapsWith(view[j]) {
      var p, q := perm[i], perm[j];
      assert p != q;
      if p < q { assert !blocks[p].OverlapsWith(blocks[q]); } else { assert !blocks[q].OverlapsWith(blocks[p]); }
    }
  }

  /** A stretch of addresses that no block covers. */
  ghost predicate Uncovered(blocks: seq<AllocatedBlock>, start: nat, end: nat, x: nat, y: nat) {
    start <= x < y <= end && forall b, p: nat | b in blocks && x <= p < y :: !b.Contains(p)
  }

  lemma {:induction false} GapsSum(view: seq<AllocatedBlock>, start: nat, end: nat)
    requires Chain(view, start, end)
    ensures Gaps(view, start, end).external + TotalSize(view) == end - start
    ensures Gaps(view, start, end).gaps == 0 <==> Gaps(view, start, end).external == 0
    ensures Gaps(view, start, end).largest <= Gaps(view, start, end).external
    decreases |view|
  {
    if view != [] { GapsSum(view[1..], view[0].EndAddr(), end); }
  }

  lemma {:induction false} GapsBound(view: seq<AllocatedBlock>, start: nat, end: nat, x: nat, y: nat)
    requires Chain(view, start, end) && Uncovered(view, start, end, x, y)
    ensures y - x <= Gaps(view, start, end).largest
    decreases |view|
  {
    if view != [] {
      var b := view[0];
      assert b in view;
      if y > b.addr {
        var p := if x <= b.addr then b.addr else x;
        assert !b.Contains(p);
        assert forall c | c in view[1..] :: c in view;
        GapsBound(view[1..], b.EndAddr(), end, x, y);
      }
    }
  }

  lemma {:induction false} ChainEdges(view: seq<AllocatedBlock>, start: nat, end: nat)
    requires Chain(view, start, end)
    ensures start <= end && forall b | b in view :: start <= b.addr && b.EndAddr() <= end
    decreases |view|
  {
    if view != [] { ChainEdges(view[1..], view[0].EndAddr(), end); }
  }

  /** The largest gap is really there. */
  lemma {:induction false} GapsWitness(view: seq<AllocatedBlock>, start: nat, end: nat) returns (x: nat, y: nat)
    requires Chain(view, start, end) && Gaps(view, start, end).largest > 0
    ensures Uncovered(view, start, end, x, y) && y - x == Gaps(view, start, end).largest
    decreases |view|
  {
    if view == [] {
      x, y := start, end;
    } else {
      var b, rest := view[0], view[1..];
      ChainEdges(rest, b.EndAddr(), end);
      assert view == [b] + rest;
      if Gaps(rest, b.EndAddr(), end).largest == Gaps(view, start, end).largest {
        x, y := GapsWitness(rest, b.EndAddr(), end);
      } else {
        x, y := start, b.addr;
      }
    }
  }

  lemma {:induction false} TotalMultiset(s: seq<AllocatedBlock>, t: seq<AllocatedBlock>)
    requires multiset(s) == multiset(t)
    ensures TotalSize(s) == TotalSize(t)
    decreases |s|
  {
    if s == [] {
      assert |multiset(t)| == 0;
    } else {
      assert s == [s[0]] + s[1..];
      assert s[0] in multiset(t);
      var i :| 0 <= i < |t| && t[i] == s[0];
      TotalRemove(t, i);
      assert multiset(s[1..]) == multiset(s) - multiset{s[0]};
      TotalMultiset(s[1..], t[..i] + t[i + 1..]);
    }
  }

  lemma {:induction false} TotalRemove(t: seq<AllocatedBlock>, i: nat)
    requires i < |t|
    ensures TotalSize(t) == t[i].size + TotalSize(t[..i] + t[i + 1..])
    ensures multiset(t[..i] + t[i + 1..]) == multiset(t) - multiset{t[i]}
  {
    var pre, one, post := t[..i], [t[i]], t[i + 1..];
    assert t == pre + one + post;
    TotalConcat(pre + one, post);
    TotalConcat(pre, one);
    TotalConcat(pre, post);
  }

  /** Gaps and blocks add up to the heap, and the largest gap is the longest stretch that no block covers. */
  ghost predicate Exact(blocks: seq<AllocatedBlock>, start: nat, end: nat, r: Analysis) {
    && r.external + TotalSize(blocks) == end - start
    && (forall x: nat, y: nat | Uncovered(blocks, start, end, x, y) :: y - x <= r.largest)
    && (r.largest > 0 ==> exists x: nat, y: nat :: Uncovered(blocks, start, end, x, y) && y - x == r.largest)
    && r.gaps == |GapStarts(blocks, start, end)|
  }

  ghost predicate Covered(blocks: seq<AllocatedBlock>, x: int) {
    exists b :: b in blocks && b.addr <= x < b.EndAddr()
  }

  /** Where the maximal uncovered stretches begin. */
  ghost predicate BeginsGap(blocks: seq<AllocatedBlock>, start: nat, end: nat, x: int) {
    start <= x < end && !Covered(blocks, x) && (x == start || Covered(blocks, x - 1))
  }

  ghost function GapStarts(blocks: seq<AllocatedBlock>, start: nat, end: nat): set<int> {
    set x: int | start <= x < end && BeginsGap(blocks, start, end, x)
  }

  lemma {:induction false} GapsCounted(view: seq<AllocatedBlock>, start: nat, end: nat)
    requires Chain(view, start, end)
    ensures Gaps(view, start, end).gaps == |GapStarts(view, start, end)|
    decreases |view|
  {
    if view == [] {
      assert GapStarts(view, start, end) == if start < end then {start as int} else {};
    } else {
      var b, rest := view[0], view[1..];
      GapsCounted(rest, b.EndAddr(), end);
      GapsOfTail(view, start, end);
    }
  }

  lemma GapsOfTail(view: seq<AllocatedBlock>, start: nat, end: nat)
    requires view != [] && Chain(view, start, end)
    ensures var b, tail := view[0], GapStarts(view[1..], view[0].EndAddr(), end);
            && GapStarts(view, start, end) == (if start < b.addr then {start as int} + tail else tail)
            && start !in tail
  {
    hide Gaps;
    var b, rest := view[0], view[1..];
    ChainEdges(view, start, end);
    ChainEdges(rest, b.EndAddr(), end);
    forall x: int ensures Covered(view, x) <==> b.addr <= x < b.EndAddr() || Covered(rest, x) {
      CoveredHead(view, x);
    }
    assert forall x: int | Covered(rest, x) :: b.EndAddr() <= x;
    var l, r := GapStarts(view, start, end), GapStarts(rest, b.EndAddr(), end);
    forall x: int ensures x in l <==> (start < b.addr && x == start) || x in r {
      assert x in l <==> BeginsGap(view, start, end, x);
      assert x in r <==> BeginsGap(rest, b.EndAddr(), end, x);
    }
  }

  lemma CoveredHead(view: seq<AllocatedBlock>, x: int)
    requires view != []
    ensures Covered(view, x) <==> view[0].addr <= x < view[0].EndAddr() || Covered(view[1..], x)
  {
    assert view == [view[0]] + view[1..];
    assert view[0] in view;
    if b :| b in view[1..] && b.addr <= x < b.EndAddr() { assert b in view; }
  }

  lemma SameGapStarts(s: seq<AllocatedBlock>, t: seq<AllocatedBlock>, start: nat, end: nat)
    requires forall b :: b in s <==> b in t
    ensures GapStarts(s, start, end) == GapStarts(t, start, end)
  {
    assert forall x: int :: Covered(s, x) <==> Covered(t, x);
  }

  /**
    For any order of proper blocks: gaps and blocks add up to the heap, and the largest gap is the longest
    stretch that no block covers.
   */
  lemma AnalysisExact(blocks: seq<AllocatedBlock>, perm: seq<nat>,
      view: seq<AllocatedBlock>, start: nat, end: nat)
    requires Proper(blocks, start, end) && Reordering(blocks, perm, view) && Ascending(view)
    ensures Exact(blocks, start, end, Gaps(view, start, end))
  {
    hide Reordering, Proper, Uncovered, Chain, Gaps, Ascending, GapStarts;
    ReorderedProper(blocks, perm, view, start, end);
    ProperChain(view, start, end);
    GapsSum(view, start, end);
    GapsCounted(view, start, end);
    ReorderedMembers(blocks, perm, view);
    SameGapStarts(view, blocks, start, end);
    TotalMultiset(view, blocks);
    forall x: nat, y: nat | Uncovered(blocks, start, end, x, y) ensures y - x <= Gaps(view, start, end).largest {
      SameUncovered(blocks, view, start, end, x, y);
      GapsBound(view, start, end, x, y);
    }
    if Gaps(view, start, end).largest > 0 {
      var x, y := GapsWitness(view, start, end);
      SameUncovered(view, blocks, start, end, x, y);
    }
  }

  lemma ReorderedMembers(blocks: seq<AllocatedBlock>, perm: seq<nat>, view: seq<AllocatedBlock>)
    requires Reordering(blocks, perm, view)
    ensures multiset(view) == multiset(blocks) && forall b :: b in view <==> b in blocks
  {
    forall b ensures b in view <==> b in blocks {
      assert b in view <==> b in multiset(view);
      assert b in blocks <==> b in multiset(blocks);
    }
  }

  lemma SameUncovered(s: seq<AllocatedBlock>, t: seq<AllocatedBlock>, start: nat, end: nat,
      x: nat, y: nat)
    requires Uncovered(s, start, end, x, y) && forall b :: b in s <==> b in t
    ensures Uncovered(t, start, end, x, y)
  {
  }

  /** On the table of a heap the gaps are the free blocks and all the headers of live ones. */
  lemma HandoverFragmentation(m: Mem, s: Heap, perm: seq<nat>, view: seq<AllocatedBlock>)
    requires Inv(s) && HeadersOk(m.headers, s.blocks, s.stale)
    requires Reordering(TableOf(m, s.blocks), perm, view) && Ascending(view)
    ensures Gaps(view, s.lo, s.hi).external == s.stats.freeSize + HEADER * s.stats.allocCount
  {
    var t := TableOf(m, s.blocks);
    forall b | b in s.blocks ensures Describes(m.HeaderAt(b.addr), b) {}
    TableTotals(m, s.blocks);
    TablePlaces(m, s.blocks, s.lo, s.hi);
    TallyTotal(s.blocks, s.lo, s.hi);
    forall i, j | 0 <= i < j < |t| ensures !t[i].OverlapsWith(t[j]) { assert t[i].EndAddr() <= t[j].addr; }
    AnalysisExact(t, perm, view, s.lo, s.hi);
  }
}
