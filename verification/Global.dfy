/**
  The global allocator interface over the early allocator: raw `alloc`, `dealloc` and `realloc`,
  with 0 for the null pointer.
 */
module Global {
  import opened Bits
  import opened Wrappers
  import opened Layout
  import opened Metadata
  import opened HeapModel
  import opened HeapRuns
  import opened Memory
  import opened Shapes
  import opened Allocator

  const ISIZE_MAX: nat := 0x7FFF_FFFF_FFFF_FFFF

  /** A memory layout as the language runtime hands it over: size and alignment of the request. */
  datatype Request = Request(size: nat, align: nat)

  /** `Layout::from_size_align`: the alignment is a power of two and the padded size fits in `isize`. */
  predicate Representable(size: nat, align: nat) {
    IsPowerOfTwo(align) && size + align <= ISIZE_MAX + 1
  }

  /** It accepts exactly the powers of two to which the size can be rounded up without leaving `isize`. */
  lemma RepresentableIff(size: nat, align: nat)
    requires align < Pow2(64)
    ensures Representable(size, align) <==> SomePower(align) && AlignUp(size, align) <= ISIZE_MAX
  {
    hide AlignUp, IsPowerOfTwo, Pow2;
    PowerIff(align);
    if SomePower(align) {
      var n: nat :| align == Pow2(n);
      PowMonotone(64, n);
      PowAdd(63 - n, n);
      HalfRange();
      Multiples(size, AlignUp(size, align), align, Pow2(63 - n));
    }
  }

  lemma Multiples(size: nat, up: nat, align: nat, whole: nat)
    requires align > 0 && up % align == 0 && size <= up < size + align
    ensures size + align <= whole * align <==> up < whole * align
  {
    var q := up / align;
    assert up == q * align;
    if q < whole {
      assert whole * align == (whole - 1 - q) * align + q * align + align;
    } else {
      assert q * align == (q - whole) * align + whole * align;
    }
  }

  method RawAlloc(a: EarlyAllocator, request: Request) returns (ptr: nat)
    requires a.Valid()
    modifies a
    ensures a.Valid() && a.Abs() == Alloc(old(a.Abs()), request.size, request.align).0
    ensures match Alloc(old(a.Abs()), request.size, request.align).1
            case None => ptr == 0 && a.mem == old(a.mem)
            case Some(p) => ptr == p && ptr != 0
    ensures Quiet(old(a.blocks), old(a.mem), a.mem)
  {
    var r := a.AllocAligned(request.size, request.align);
    match r
    case None => ptr := 0;
    case Some(p) =>
      GrantedFacts(old(a.Abs()), request.size, request.align);
      ptr := p;
  }

  method RawDealloc(a: EarlyAllocator, ptr: nat)
    requires a.Valid()
    modifies a
    ensures a.Valid() && a.Abs() == if ptr == 0 then old(a.Abs()) else Dealloc(old(a.Abs()), ptr).0
    ensures Undisturbed(old(a.blocks), a.blocks, old(a.mem), a.mem)
  {
    if ptr == 0 { return; }
    var r := a.Dealloc(ptr);
  }

  /** The first `n` bytes at `dst` now are those that were at `src` before. */
  ghost predicate Copied(m: Mem, m': Mem, src: int, dst: int, n: nat) {
    forall i {:trigger InRange(i, 0, n)} | InRange(i, 0, n) ::
      (src + i in m.bytes <==> dst + i in m'.bytes) && (src + i in m.bytes ==> m'.bytes[dst + i] == m.bytes[src + i])
  }

  /** The outcome of moving the live block `b`, of which `ptr` is a pointer, to a block `c`. */
  ghost predicate Moved(s: Heap, s': Heap, b: Block, c: Block, ptr: nat, r: nat, newSize: nat, align: nat) {
    && c !in Live(s.blocks) && c.Payload() <= r && r + Need(newSize) <= c.End() && (align > 0 ==> r % align == 0)
    && Live(s'.blocks) == (if ptr == b.Payload() then Live(s.blocks) + {c} - {b} else Live(s.blocks) + {c})
  }

  /** `ptr` points into the live block `b`, with room for `n` bytes. */
  ghost predicate PointsInto(bs: seq<Block>, b: Block, ptr: nat, n: nat) {
    b in Live(bs) && b.Payload() <= ptr < b.End() && ptr + n <= b.End()
  }

  /** `realloc`: a null pointer allocates, a zero size frees, anything else moves. */
  method Realloc(a: EarlyAllocator, ptr: nat, request: Request, newSize: nat, ghost b: Block)
    returns (r: nat, ghost c: Block)
    requires a.Valid()
    requires ptr != 0 ==> PointsInto(a.blocks, b, ptr, request.size)
    modifies a
    ensures a.Valid()
    ensures ptr == 0 ==>
              var q := if Representable(newSize, request.align) then Request(newSize, request.align) else request;
              a.Abs() == Alloc(old(a.Abs()), q.size, q.align).0
              && (match Alloc(old(a.Abs()), q.size, q.align).1 case None => r == 0 case Some(p) => r == p && r != 0)
    ensures ptr != 0 && newSize == 0 ==> r == 0 && a.Abs() == Dealloc(old(a.Abs()), ptr).0
    ensures ptr != 0 && newSize > 0 ==>
              (r == 0 <==> !Representable(newSize, request.align)
                           || Alloc(old(a.Abs()), newSize, request.align).1.None?)
    ensures ptr != 0 && newSize > 0 && r == 0 ==> a.blocks == old(a.blocks) && a.mem == old(a.mem)
    ensures ptr != 0 && newSize > 0 && r != 0 ==>
              && Moved(old(a.Abs()), a.Abs(), b, c, ptr, r, newSize, request.align)
              && Copied(old(a.mem), a.mem, ptr, r, if request.size < newSize then request.size else newSize)
    ensures forall d, x | d in Live(old(a.blocks)) && (ptr != 0 ==> d != b) && d.Payload() <= x < d.End() ::
              SameByte(old(a.mem), a.mem, x)
  {
    hide EarlyAllocator.Valid, Moved, Copied, Dealloc;
    c := b;
    if ptr == 0 {
      var q := if Representable(newSize, request.align) then Request(newSize, request.align) else request;
      r := RawAlloc(a, q);
      OthersQuiet(old(a.blocks), old(a.mem), a.mem);
    } else if newSize == 0 {
      r := Drop(a, ptr, b);
    } else {
      r, c := Move(a, ptr, request, newSize, b);
    }
  }

  lemma OthersQuiet(bs: seq<Block>, m: Mem, m': Mem)
    requires Quiet(bs, m, m')
    ensures forall d, x | d in Live(bs) && d.Payload() <= x < d.End() :: SameByte(m, m', x)
  {
  }

  method Drop(a: EarlyAllocator, ptr: nat, ghost b: Block) returns (r: nat)
    requires a.Valid() && ptr != 0 && PointsInto(a.blocks, b, ptr, 0)
    modifies a
    ensures a.Valid() && r == 0 && a.Abs() == Dealloc(old(a.Abs()), ptr).0
    ensures forall d, x | d in Live(old(a.blocks)) && d != b && d.Payload() <= x < d.End() ::
              SameByte(old(a.mem), a.mem, x)
  {
    ghost var s := a.Abs();
    RawDealloc(a, ptr);
    r := 0;
    if !s.frozen { OldBlockReleased(s, b, ptr); }
    assert forall d | d in Live(s.blocks) && d != b :: d in Live(a.blocks);
  }

  /**
    `realloc` of a pointer into a live block `b`: on failure it returns null and neither layout nor memory
    changes; otherwise the common bytes are at the new address, every other payload is as it was, and the old
    block is released exactly when `ptr` is its payload address.
   */
  method Move(a: EarlyAllocator, ptr: nat, request: Request, newSize: nat, ghost b: Block)
    returns (r: nat, ghost c: Block)
    requires a.Valid() && ptr != 0 && newSize > 0 && PointsInto(a.blocks, b, ptr, request.size)
    modifies a
    ensures a.Valid()
    ensures r == 0 ==> a.blocks == old(a.blocks) && a.mem == old(a.mem)
    ensures r != 0 ==> Moved(old(a.Abs()), a.Abs(), b, c, ptr, r, newSize, request.align)
    ensures r != 0 ==> Copied(old(a.mem), a.mem, ptr, r, if request.size < newSize then request.size else newSize)
    ensures forall d, x | d in Live(old(a.blocks)) && d != b && d.Payload() <= x < d.End() ::
              SameByte(old(a.mem), a.mem, x)
    ensures r == 0 <==> !Representable(newSize, request.align)
                        || Alloc(old(a.Abs()), newSize, request.align).1.None?
  {
    hide Shape, Ids, Kept, Ledger, StaleApart, Coalesced;
    c := b;
    if !Representable(newSize, request.align) { return 0, c; }
    ghost var s0, m0 := a.Abs(), a.mem;
    r := RawAlloc(a, Request(newSize, request.align));
    if r == 0 { return; }
    GrantedFacts(s0, newSize, request.align);
    c := GrantedBlock(s0, newSize, request.align);
    ghost var m1, s1 := a.mem, a.Abs();
    var n := if request.size < newSize then request.size else newSize;
    assert c in Live(s1.blocks);
    a.CopyBytes(ptr, r, n);
    ghost var m2, s2 := a.mem, a.Abs();
    RawDealloc(a, ptr);
    OldBlockReleased(s2, b, ptr);
    Disjoint(s1.blocks, s1.lo, s1.hi);
    BytesMoved(s0.blocks, s1.blocks, a.blocks, b, c, m0, m1, a.mem, ptr, r, n);
  }

  /** The old block leaves the heap exactly when `ptr` is its payload address. */
  lemma OldBlockReleased(s: Heap, b: Block, ptr: nat)
    requires Inv(s) && !s.frozen && b in Live(s.blocks) && b.Payload() <= ptr < b.End()
    ensures Live(Dealloc(s, ptr).0.blocks) == if ptr == b.Payload() then Live(s.blocks) - {b} else Live(s.blocks)
  {
    DeallocSucceeds(s, ptr);
    PointerOfBlock(s, b, ptr);
  }

  /** Bytes through the three steps: allocation, copy, release. */
  lemma BytesMoved(bs0: seq<Block>, bs1: seq<Block>, bs3: seq<Block>, b: Block, c: Block,
                                      m0: Mem, m1: Mem, m3: Mem, ptr: nat, r: nat, n: nat)
    requires Live(bs1) == Live(bs0) + {c} && Live(bs1) - {b} <= Live(bs3) && b in Live(bs0) && c !in Live(bs0)
    requires c.status.Allocated?
    requires forall d, e | d in bs1 && e in bs1 && d != e :: d.End() <= e.addr || e.End() <= d.addr
    requires b.Payload() <= ptr && ptr + n <= b.End() && c.Payload() <= r && r + n <= c.End()
    requires Quiet(bs0, m0, m1) && Undisturbed(bs1, bs3, m1.CopyBytes(ptr, r, n), m3)
    ensures Copied(m0, m3, ptr, r, n)
    ensures forall d, x | d in Live(bs0) && d != b && d.Payload() <= x < d.End() :: SameByte(m0, m3, x)
  {
    hide Mem.CopyBytes;
    var m2 := m1.CopyBytes(ptr, r, n);
    forall i | InRange(i, 0, n)
      ensures ptr + i in m0.bytes <==> r + i in m3.bytes
      ensures ptr + i in m0.bytes ==> m3.bytes[r + i] == m0.bytes[ptr + i]
    {
      assert c in Live(bs1) && c in Live(bs3);
      assert SameByte(m0, m1, ptr + i) && SameByte(m2, m3, r + i);
      assert InRange(r + i, r, n);
      CopiedByte(m1, ptr, r, n, r + i);
    }
    forall d, x | d in Live(bs0) && d != b && d.Payload() <= x < d.End() ensures SameByte(m0, m3, x) {
      assert d in Live(bs1) && d in Live(bs3) && c in Live(bs1);
      CopiedByte(m1, ptr, r, n, x);
      assert SameByte(m0, m1, x) && SameByte(m1, m2, x) && SameByte(m2, m3, x);
    }
  }
}
