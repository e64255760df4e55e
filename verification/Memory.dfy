/**
  Raw memory, kept as what is intact at each address: block headers (48 bytes), free-list
  nodes (16 bytes) and client bytes. Every write destroys whatever it overlaps, of any kind.
 */
module Memory {
  import opened Layout
  import opened Metadata

  type byte = b: int | 0 <= b < 256

  /** A free-list node; address 0 is the null pointer. */
  datatype FreeBlock = FreeBlock(next: int, prev: int)

  /** The items of width `w` that a write to `[a, a + n)` leaves intact. */
  function Intact<T>(m: map<int, T>, w: nat, a: int, n: nat): map<int, T> {
    map k | k in m && (k + w <= a || a + n <= k) :: m[k]
  }

  predicate InRange(x: int, a: int, n: nat) { a <= x < a + n }

  datatype Mem = Mem(headers: map<int, BlockHeader>, nodes: map<int, FreeBlock>, bytes: map<int, byte>) {

    /** Reading a header where none is intact yields bytes that fail validation. */
    function HeaderAt(a: int): BlockHeader { if a in headers then headers[a] else JUNK }

    function WriteHeader(a: int, h: BlockHeader): Mem {
      Mem(Intact(headers, HEADER, a, HEADER)[a := h], Intact(nodes, NODE, a, HEADER), Intact(bytes, 1, a, HEADER))
    }

    function WriteNode(a: int, n: FreeBlock): Mem {
      Mem(Intact(headers, HEADER, a, NODE), Intact(nodes, NODE, a, NODE)[a := n], Intact(bytes, 1, a, NODE))
    }

    function WriteBytes(a: int, data: seq<byte>): Mem {
      Mem(Intact(headers, HEADER, a, |data|), Intact(nodes, NODE, a, |data|),
          Intact(bytes, 1, a, |data|) + map x | a <= x < a + |data| && InRange(x, a, |data|) :: data[x - a])
    }

    /**
      A raw copy of `n` bytes. A header that lies whole in the source is intact in the copy too; bytes
      that hold nothing yet stay so in the copy.
     */
    function CopyBytes(src: int, dst: int, n: nat): Mem {
      Mem(Intact(headers, HEADER, dst, n)
          + map x | x in Shifted(headers.Keys, src, dst, n) :: headers[x - dst + src],
          Intact(nodes, NODE, dst, n),
          Intact(bytes, 1, dst, n)
          + map x | dst <= x < dst + n && InRange(x, dst, n) && x - dst + src in bytes :: bytes[x - dst + src])
    }
  }

  // ---------------------------------------------------------------- client bytes

  predicate SameByte(m: Mem, m': Mem, x: int) {
    (x in m.bytes <==> x in m'.bytes) && (x in m.bytes ==> m'.bytes[x] == m.bytes[x])
  }

  /** A written byte is that of the data; any other byte stays. */
  lemma WrittenByte(m: Mem, at: int, data: seq<byte>, x: int)
    ensures var m' := m.WriteBytes(at, data);
            if at <= x < at + |data| then x in m'.bytes && m'.bytes[x] == data[x - at] else SameByte(m, m', x)
  {
    assert InRange(x, at, |data|) <==> at <= x < at + |data|;
  }

  /** A copied byte is that of the source; any other byte stays. */
  lemma CopiedByte(m: Mem, src: int, dst: int, n: nat, x: int)
    ensures var m' := m.CopyBytes(src, dst, n);
            if InRange(x, dst, n)
            then (x in m'.bytes <==> x - dst + src in m.bytes)
                 && (x in m'.bytes ==> m'.bytes[x] == m.bytes[x - dst + src])
            else SameByte(m, m', x)
  {
  }

  /** The bytes of every payload that is allocated in `bs` are the same in both memories. */
  ghost predicate Quiet(bs: seq<Block>, m: Mem, m': Mem) {
    forall b, x | b in bs && b.status.Allocated? && b.Payload() <= x < b.End() :: SameByte(m, m', x)
  }

  /** The same for the payloads allocated both before and after a step. */
  ghost predicate Undisturbed(bs: seq<Block>, cs: seq<Block>, m: Mem, m': Mem) {
    forall b, x | b in bs && b in cs && b.status.Allocated? && b.Payload() <= x < b.End() :: SameByte(m, m', x)
  }

  /** The range `[a, a + n)` touches no allocated payload. */
  ghost predicate Clear(bs: seq<Block>, a: int, n: nat) {
    forall b {:trigger Off(b, a, n)} | b in bs && b.status.Allocated? :: Off(b, a, n)
  }

  predicate Off(b: Block, a: int, n: nat) { a + n <= b.Payload() || b.End() <= a }

  lemma QuietHeader(bs: seq<Block>, m: Mem, a: int, h: BlockHeader)
    requires Clear(bs, a, HEADER)
    ensures Quiet(bs, m, m.WriteHeader(a, h))
  {
    forall b, x | b in bs && b.status.Allocated? && b.Payload() <= x < b.End()
      ensures SameByte(m, m.WriteHeader(a, h), x)
    {
      assert Off(b, a, HEADER);
    }
  }

  lemma QuietNode(bs: seq<Block>, m: Mem, a: int, n: FreeBlock)
    requires Clear(bs, a, NODE)
    ensures Quiet(bs, m, m.WriteNode(a, n))
  {
    forall b, x | b in bs && b.status.Allocated? && b.Payload() <= x < b.End()
      ensures SameByte(m, m.WriteNode(a, n), x)
    {
      assert Off(b, a, NODE);
    }
  }

  /** Quiet depends only on which blocks are allocated. */
  lemma QuietSub(bs: seq<Block>, cs: seq<Block>, m: Mem, m': Mem)
    requires Quiet(cs, m, m') && Live(bs) <= Live(cs)
    ensures Quiet(bs, m, m')
  {
    forall b, x | b in bs && b.status.Allocated? && b.Payload() <= x < b.End() ensures SameByte(m, m', x) {
      assert b in Live(bs);
    }
  }

  lemma QuietRefl(bs: seq<Block>, m: Mem)
    ensures Quiet(bs, m, m)
  {
  }

  lemma QuietTrans(bs: seq<Block>, m: Mem, m': Mem, m'': Mem)
    requires Quiet(bs, m, m') && Quiet(bs, m', m'')
    ensures Quiet(bs, m, m'')
  {
    forall b, x | b in bs && b.status.Allocated? && b.Payload() <= x < b.End() ensures SameByte(m, m'', x) {
      assert SameByte(m, m', x) && SameByte(m', m'', x);
    }
  }

  // ---------------------------------------------------------------- the linked list

  function At(free: seq<int>, i: int): int { if 0 <= i < |free| then free[i] else 0 }

  /** Node addresses positive, increasing and at least a block apart. */
  predicate Spaced(free: seq<int>) {
    && (forall i | 0 <= i < |free| :: free[i] > 0)
    && (forall i, j | 0 <= i < j < |free| :: free[i] + MIN_BLOCK <= free[j])
  }

  /** The list nodes hold exactly these links. */
  ghost predicate Holds(m: Mem, free: seq<int>, links: seq<FreeBlock>) {
    |links| == |free| && forall i | 0 <= i < |free| :: free[i] in m.nodes && m.nodes[free[i]] == links[i]
  }

  function Links(free: seq<int>): seq<FreeBlock> {
    seq(|free|, i => FreeBlock(At(free, i + 1), At(free, i - 1)))
  }

  /** The doubly linked list starting at `head` is exactly `free`, and `prev` is the inverse of `next`. */
  ghost predicate Linked(m: Mem, head: int, free: seq<int>) {
    head == At(free, 0) && Holds(m, free, Links(free))
  }

  /** No intact header overlaps a list node. */
  ghost predicate HeadersOffNodes(m: Mem, free: seq<int>) {
    forall a, i | a in m.headers && 0 <= i < |free| :: a + HEADER <= free[i] || free[i] + NODE <= a
  }

  ghost predicate NodesClear(bs: seq<Block>, free: seq<int>) {
    forall i | 0 <= i < |free| :: Clear(bs, free[i], NODE)
  }

  /** Following `next` from `n`; a list that does not end within `fuel` nodes is cut there. */
  function Follow(m: Mem, n: int, fuel: nat): seq<int>
    decreases fuel
  {
    if fuel == 0 || n == 0 || n !in m.nodes then [] else [n] + Follow(m, m.nodes[n].next, fuel - 1)
  }

  function FollowBack(m: Mem, n: int, fuel: nat): seq<int>
    decreases fuel
  {
    if fuel == 0 || n == 0 || n !in m.nodes then [] else FollowBack(m, m.nodes[n].prev, fuel - 1) + [n]
  }

  /** Forwards from the head, and backwards from the last node, the links spell out exactly `free` and stop. */
  lemma {:induction false} FollowIsList(m: Mem, head: int, free: seq<int>, fuel: nat)
    requires Linked(m, head, free) && Spaced(free) && fuel >= |free|
    ensures Follow(m, head, fuel) == free
    ensures FollowBack(m, At(free, |free| - 1), fuel) == free
  {
    FollowFrom(m, head, free, 0, fuel);
    FollowBackFrom(m, head, free, |free|, fuel);
    assert free[0..] == free;
  }

  lemma {:induction false} FollowFrom(m: Mem, head: int, free: seq<int>, i: nat, fuel: nat)
    requires Linked(m, head, free) && Spaced(free) && i <= |free| && fuel >= |free| - i
    ensures Follow(m, At(free, i), fuel) == free[i..]
    decreases |free| - i
  {
    if i < |free| {
      assert free[i] > 0 && free[i] in m.nodes;
      FollowFrom(m, head, free, i + 1, fuel - 1);
      assert free[i..] == [free[i]] + free[i + 1..];
    }
  }

  lemma {:induction false} FollowBackFrom(m: Mem, head: int, free: seq<int>, i: nat, fuel: nat)
    requires Linked(m, head, free) && Spaced(free) && i <= |free| && fuel >= i
    ensures FollowBack(m, At(free, i - 1), fuel) == free[..i]
    decreases i
  {
    if i > 0 {
      assert free[i - 1] > 0 && free[i - 1] in m.nodes;
      FollowBackFrom(m, head, free, i - 1, fuel - 1);
      assert free[..i] == free[..i - 1] + [free[i - 1]];
    }
  }

  /** A header written off the list's nodes leaves the list alone. */
  lemma LinkedHeader(m: Mem, head: int, free: seq<int>, a: int, h: BlockHeader)
    requires Linked(m, head, free) && Spaced(free) && HeadersOffNodes(m, free)
    requires forall i | 0 <= i < |free| :: a + HEADER <= free[i] || free[i] + NODE <= a
    ensures Linked(m.WriteHeader(a, h), head, free) && HeadersOffNodes(m.WriteHeader(a, h), free)
  {
  }

  function SetNext(m: Mem, n: int, next: int): Mem {
    if n in m.nodes then m.WriteNode(n, m.nodes[n].(next := next)) else m
  }

  function SetPrev(m: Mem, n: int, prev: int): Mem {
    if n in m.nodes then m.WriteNode(n, m.nodes[n].(prev := prev)) else m
  }

  /** Rewriting one node of the list touches nothing else that matters. */
  lemma NodeUpdate(m: Mem, free: seq<int>, i: nat, n: FreeBlock, bs: seq<Block>)
    requires Spaced(free) && HeadersOffNodes(m, free) && NodesClear(bs, free) && i < |free|
    ensures m.WriteNode(free[i], n).headers == m.headers
    ensures free[i] in m.WriteNode(free[i], n).nodes && m.WriteNode(free[i], n).nodes[free[i]] == n
    ensures forall j | 0 <= j < |free| && j != i && free[j] in m.nodes ::
              free[j] in m.WriteNode(free[i], n).nodes && m.WriteNode(free[i], n).nodes[free[j]] == m.nodes[free[j]]
    ensures Quiet(bs, m, m.WriteNode(free[i], n))
  {
    QuietNode(bs, m, free[i], n);
    assert forall a | a in m.headers :: a + HEADER <= free[i] || free[i] + NODE <= a;
    assert m.WriteNode(free[i], n).headers == m.headers;
    forall j | 0 <= j < |free| && j != i && free[j] in m.nodes
      ensures free[j] in m.WriteNode(free[i], n).nodes && m.WriteNode(free[i], n).nodes[free[j]] == m.nodes[free[j]]
    {
      assert if i < j then free[i] + MIN_BLOCK <= free[j] else free[j] + MIN_BLOCK <= free[i];
    }
  }

  /** What every list operation works under. */
  ghost predicate ListFrame(m: Mem, free: seq<int>, bs: seq<Block>) {
    Spaced(free) && HeadersOffNodes(m, free) && NodesClear(bs, free)
  }

  lemma SetNextHolds(m: Mem, free: seq<int>, links: seq<FreeBlock>, i: nat, next: int,
      bs: seq<Block>)
    requires ListFrame(m, free, bs) && Holds(m, free, links) && i < |free|
    ensures var m' := SetNext(m, free[i], next);
            && Holds(m', free, links[i := links[i].(next := next)])
            && m'.headers == m.headers && ListFrame(m', free, bs) && Quiet(bs, m, m')
  {
    NodeUpdate(m, free, i, m.nodes[free[i]].(next := next), bs);
  }

  lemma SetPrevHolds(m: Mem, free: seq<int>, links: seq<FreeBlock>, i: nat, prev: int,
      bs: seq<Block>)
    requires ListFrame(m, free, bs) && Holds(m, free, links) && i < |free|
    ensures var m' := SetPrev(m, free[i], prev);
            && Holds(m', free, links[i := links[i].(prev := prev)])
            && m'.headers == m.headers && ListFrame(m', free, bs) && Quiet(bs, m, m')
  {
    NodeUpdate(m, free, i, m.nodes[free[i]].(prev := prev), bs);
  }

  function Without(free: seq<int>, k: nat): seq<int>
    requires k < |free|
  {
    free[..k] + free[k + 1..]
  }

  function With(free: seq<int>, k: nat, n: int): seq<int>
    requires k <= |free|
  {
    free[..k] + [n] + free[k..]
  }

  lemma AtWithout(free: seq<int>, k: nat, i: int)
    requires k < |free|
    ensures At(Without(free, k), i) == At(free, if i < k then i else i + 1)
  {
  }

  lemma AtWith(free: seq<int>, k: nat, n: int, i: int)
    requires k <= |free|
    ensures At(With(free, k, n), i) == if i == k then n else At(free, if i < k then i else i - 1)
  {
  }

  /** Links once the neighbours of position `k` point at each other. */
  function Bypass(free: seq<int>, k: nat): seq<FreeBlock>
    requires k < |free|
  {
    var l := NextAt(Links(free), k - 1, At(free, k + 1));
    PrevAt(l, k + 1, At(free, k - 1))
  }

  /** One link changed, if the position exists. */
  function NextAt(links: seq<FreeBlock>, i: int, next: int): (r: seq<FreeBlock>)
    ensures |r| == |links|
  {
    if 0 <= i < |links| then links[i := links[i].(next := next)] else links
  }

  function PrevAt(links: seq<FreeBlock>, i: int, prev: int): (r: seq<FreeBlock>)
    ensures |r| == |links|
  {
    if 0 <= i < |links| then links[i := links[i].(prev := prev)] else links
  }

  lemma BypassAt(free: seq<int>, k: nat, j: nat)
    requires k < |free| && j < |free|
    ensures Bypass(free, k)[j] == FreeBlock(if j == k - 1 then At(free, k + 1) else At(free, j + 1),
                                            if j == k + 1 then At(free, k - 1) else At(free, j - 1))
  {
  }

  lemma BypassWithout(free: seq<int>, k: nat, i: nat)
    requires k < |free| && i < |free| - 1
    ensures var j := if i < k then i else i + 1;
            Without(free, k)[i] == free[j] && Bypass(free, k)[j] == Links(Without(free, k))[i]
  {
    BypassAt(free, k, if i < k then i else i + 1);
    AtWithout(free, k, i - 1);
    AtWithout(free, k, i + 1);
  }

  lemma BypassLinks(m: Mem, free: seq<int>, k: nat)
    requires k < |free| && Holds(m, free, Bypass(free, k))
    ensures Linked(m, At(Without(free, k), 0), Without(free, k))
  {
    forall i | 0 <= i < |free| - 1
      ensures Without(free, k)[i] in m.nodes && m.nodes[Without(free, k)[i]] == Links(Without(free, k))[i]
    {
      BypassWithout(free, k, i);
    }
  }

  /** Unlinking: `prev` skips forward, then `next` skips back. */
  lemma UnlinkFacts(m: Mem, free: seq<int>, k: nat, bs: seq<Block>)
    requires ListFrame(m, free, bs) && k < |free| && Holds(m, free, Links(free))
    ensures var m1 := if k > 0 then SetNext(m, free[k - 1], At(free, k + 1)) else m;
            var m2 := if k + 1 < |free| then SetPrev(m1, free[k + 1], At(free, k - 1)) else m1;
            && Linked(m2, At(Without(free, k), 0), Without(free, k))
            && m2.headers == m.headers && Quiet(bs, m, m2)
  {
    var l1 := NextAt(Links(free), k - 1, At(free, k + 1));
    var m1 := if k > 0 then SetNext(m, free[k - 1], At(free, k + 1)) else m;
    if k > 0 { SetNextHolds(m, free, Links(free), k - 1, At(free, k + 1), bs); }
    var m2 := if k + 1 < |free| then SetPrev(m1, free[k + 1], At(free, k - 1)) else m1;
    if k + 1 < |free| {
      SetPrevHolds(m1, free, l1, k + 1, At(free, k - 1), bs);
      QuietTrans(bs, m, m1, m2);
    }
    BypassLinks(m2, free, k);
  }

  /** Writing the node of a block that joins the list between positions `k - 1` and `k`. */
  lemma PlaceNode(m: Mem, free: seq<int>, links: seq<FreeBlock>, k: nat, node: int,
      n: FreeBlock, bs: seq<Block>)
    requires ListFrame(m, free, bs) && Holds(m, free, links) && k <= |free|
    requires Spaced(With(free, k, node)) && Clear(bs, node, NODE)
    ensures var m' := m.WriteNode(node, n);
            && Holds(m', With(free, k, node), links[..k] + [n] + links[k..])
            && m'.headers == Intact(m.headers, HEADER, node, NODE)
            && ListFrame(m', With(free, k, node), bs) && Quiet(bs, m, m')
  {
    QuietNode(bs, m, node, n);
    PlaceHolds(m, free, links, k, node, n);
    PlaceFrame(m, free, k, node, n, bs);
  }

  lemma PlaceHolds(m: Mem, free: seq<int>, links: seq<FreeBlock>, k: nat, node: int, n: FreeBlock)
    requires Holds(m, free, links) && k <= |free| && Spaced(With(free, k, node))
    ensures Holds(m.WriteNode(node, n), With(free, k, node), links[..k] + [n] + links[k..])
  {
    var all := With(free, k, node);
    forall i | 0 <= i < |free| ensures free[i] + NODE <= node || node + NODE <= free[i] {
      if i < k { assert all[i] + MIN_BLOCK <= all[k]; } else { assert all[k] + MIN_BLOCK <= all[i + 1]; }
    }
  }

  lemma PlaceFrame(m: Mem, free: seq<int>, k: nat, node: int, n: FreeBlock, bs: seq<Block>)
    requires HeadersOffNodes(m, free) && NodesClear(bs, free) && Clear(bs, node, NODE) && k <= |free|
    ensures HeadersOffNodes(m.WriteNode(node, n), With(free, k, node)) && NodesClear(bs, With(free, k, node))
  {
    var all := With(free, k, node);
    assert forall i | 0 <= i < |all| :: all[i] == if i < k then free[i] else if i == k then node else free[i - 1];
  }

  /** Links of the list that `node` joins at `k`, before its neighbours point to it. */
  function Joining(free: seq<int>, k: nat, node: int): seq<FreeBlock>
    requires k <= |free|
  {
    Links(free)[..k] + [FreeBlock(At(free, k), At(free, k - 1))] + Links(free)[k..]
  }

  lemma JoiningAt(free: seq<int>, k: nat, node: int, i: nat)
    requires k <= |free| && i <= |free|
    ensures Joining(free, k, node)[i] ==
            if i <= k then FreeBlock(At(free, if i == k then k else i + 1), At(free, i - 1))
            else FreeBlock(At(free, i), At(free, i - 2))
  {
  }

  /** Once both neighbours point to it, the links are those of the longer list. */
  function BothJoined(free: seq<int>, k: nat, node: int): seq<FreeBlock>
    requires k <= |free|
  {
    NextAt(PrevAt(Joining(free, k, node), if k < |free| then k + 1 else -1, node), k - 1, node)
  }

  lemma BothJoinedAt(free: seq<int>, k: nat, node: int, i: nat)
    requires k <= |free| && i <= |free|
    ensures BothJoined(free, k, node)[i] ==
            FreeBlock(if i == k - 1 then node else Joining(free, k, node)[i].next,
                      if i == k + 1 then node else Joining(free, k, node)[i].prev)
  {
  }

  lemma JoinedAt(free: seq<int>, k: nat, node: int, i: nat)
    requires k <= |free| && i <= |free|
    ensures BothJoined(free, k, node)[i] == Links(With(free, k, node))[i]
  {
    BothJoinedAt(free, k, node, i);
    JoiningAt(free, k, node, i);
    AtWith(free, k, node, i - 1);
    AtWith(free, k, node, i + 1);
  }

  lemma Joined(free: seq<int>, k: nat, node: int)
    requires k <= |free|
    ensures BothJoined(free, k, node) == Links(With(free, k, node))
  {
    forall i | 0 <= i <= |free| ensures BothJoined(free, k, node)[i] == Links(With(free, k, node))[i] {
      JoinedAt(free, k, node, i);
    }
  }

  /** Inserting: the new node is written, then the node after it, then the node before it. */
  lemma InsertFacts(m: Mem, free: seq<int>, k: nat, node: int, bs: seq<Block>)
    requires ListFrame(m, free, bs) && k <= |free| && Holds(m, free, Links(free))
    requires Spaced(With(free, k, node)) && Clear(bs, node, NODE)
    ensures var m1 := m.WriteNode(node, FreeBlock(At(free, k), At(free, k - 1)));
            var m2 := if k < |free| then SetPrev(m1, free[k], node) else m1;
            var m3 := if k > 0 then SetNext(m2, free[k - 1], node) else m2;
            && Holds(m3, With(free, k, node), Links(With(free, k, node)))
            && m3.headers == Intact(m.headers, HEADER, node, NODE) && Quiet(bs, m, m3)
  {
    var all, n := With(free, k, node), FreeBlock(At(free, k), At(free, k - 1));
    var m1 := m.WriteNode(node, n);
    PlaceNode(m, free, Links(free), k, node, n, bs);
    var l1 := PrevAt(Joining(free, k, node), if k < |free| then k + 1 else -1, node);
    var m2 := if k < |free| then SetPrev(m1, free[k], node) else m1;
    if k < |free| {
      assert all[k + 1] == free[k];
      SetPrevHolds(m1, all, Joining(free, k, node), k + 1, node, bs);
      QuietTrans(bs, m, m1, m2);
    }
    assert Holds(m2, all, l1) && ListFrame(m2, all, bs) && Quiet(bs, m, m2);
    if k > 0 {
      assert all[k - 1] == free[k - 1];
      SetNextHolds(m2, all, l1, k - 1, node, bs);
      QuietTrans(bs, m, m2, SetNext(m2, free[k - 1], node));
    }
    Joined(free, k, node);
  }
}
