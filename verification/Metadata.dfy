/**
  Block headers with their checksum, and the statistics ledger.
 */
module Metadata {
  import opened Layout

  const BLOCK_MAGIC: nat := 0xB10C4EA0
  const WORD32: nat := 0x1_0000_0000
  const USIZE_MAX: nat := 0xFFFF_FFFF_FFFF_FFFF

  /** The twenty purposes, by discriminant; 0 is "unknown". */
  type Purpose = p: nat | p < 20

  datatype BlockHeader = BlockHeader(
    size: nat, status: Status, magic: nat, allocId: nat, purpose: Purpose, timestamp: nat, checksum: nat)
  {
    /** Wrapping 32-bit sum of both halves of every field except the checksum itself. */
    function CalculateChecksum(): (c: nat)
      ensures c < WORD32
    {
      (Low(size) + High(size) + (if status.Free? then 0 else 1) + magic + Low(allocId) + High(allocId)
       + purpose + Low(timestamp) + High(timestamp)) % WORD32
    }

    function UpdateChecksum(): BlockHeader { this.(checksum := CalculateChecksum()) }

    predicate Validate() { magic == BLOCK_MAGIC && checksum == CalculateChecksum() }

    function TotalSize(): nat { size + HEADER }
  }

  function Low(x: nat): nat { x % WORD32 }
  function High(x: nat): nat { x / WORD32 % WORD32 }

  function NewHeader(size: nat, status: Status, now: nat): (h: BlockHeader)
    ensures h.Validate() && h.allocId == 0 && h.purpose == 0
  {
    BlockHeader(size, status, BLOCK_MAGIC, 0, 0, now, 0).UpdateChecksum()
  }

  /** What is read where no intact header is stored: bytes that do not validate. */
  const JUNK: BlockHeader := BlockHeader(0, Free, 0, 0, 0, 0, 0)

  /** Both 32-bit halves of a word added up. */
  function Halves(x: nat): nat { x % WORD32 + x / WORD32 % WORD32 }

  /**
    Of a valid header, a lone change of status, purpose or magic number is always caught, and a lone change
    of size, id or timestamp exactly when the sum of its two halves changes; so always below 2^32.
   */
  lemma ChecksumCatches(h: BlockHeader, status: Status, purpose: Purpose, magic: nat, x: nat)
    requires h.Validate()
    ensures h.(status := status).Validate() <==> status == h.status
    ensures h.(purpose := purpose).Validate() <==> purpose == h.purpose
    ensures h.(magic := magic).Validate() <==> magic == h.magic
    ensures h.(size := x).Validate() <==> Halves(x) % WORD32 == Halves(h.size) % WORD32
    ensures h.(allocId := x).Validate() <==> Halves(x) % WORD32 == Halves(h.allocId) % WORD32
    ensures h.(timestamp := x).Validate() <==> Halves(x) % WORD32 == Halves(h.timestamp) % WORD32
    ensures x < WORD32 && h.size < WORD32 ==> (h.(size := x).Validate() <==> x == h.size)
    ensures x < WORD32 && h.allocId < WORD32 ==> (h.(allocId := x).Validate() <==> x == h.allocId)
    ensures x < WORD32 && h.timestamp < WORD32 ==> (h.(timestamp := x).Validate() <==> x == h.timestamp)
  {
    hide Halves, Mix, BlockHeader.CalculateChecksum;
    var g, i, t := Flag(h.status), Halves(h.allocId), Halves(h.timestamp);
    Decomposed(h);
    Decomposed(h.(status := status));
    MixChange(Halves(h.size), g, h.magic, i, h.purpose, t, Flag(status));
    Decomposed(h.(purpose := purpose));
    MixChange(Halves(h.size), g, h.magic, i, h.purpose, t, purpose);
    Decomposed(h.(size := x));
    Decomposed(h.(allocId := x));
    Decomposed(h.(timestamp := x));
    MixChange(Halves(h.size), g, h.magic, i, h.purpose, t, Halves(x));
    SmallHalves(x);
    SmallHalves(h.size);
    SmallHalves(h.allocId);
    SmallHalves(h.timestamp);
  }

  lemma SmallHalves(x: nat)
    ensures x < WORD32 ==> Halves(x) % WORD32 == x
  {
  }

  function Flag(status: Status): nat { if status.Free? then 0 else 1 }

  function Mix(a: nat, b: nat, c: nat, d: nat, e: nat, f: nat): nat { (a + b + c + d + e + f) % WORD32 }

  lemma Decomposed(h: BlockHeader)
    ensures h.CalculateChecksum() ==
            Mix(Halves(h.size), Flag(h.status), h.magic, Halves(h.allocId), h.purpose, Halves(h.timestamp))
  {
  }

  lemma MixChange(a: nat, b: nat, c: nat, d: nat, e: nat, f: nat, x: nat)
    ensures Mix(x, b, c, d, e, f) == Mix(a, b, c, d, e, f) <==> x % WORD32 == a % WORD32
    ensures Mix(a, x, c, d, e, f) == Mix(a, b, c, d, e, f) <==> x % WORD32 == b % WORD32
    ensures Mix(a, b, c, x, e, f) == Mix(a, b, c, d, e, f) <==> x % WORD32 == d % WORD32
    ensures Mix(a, b, c, d, x, f) == Mix(a, b, c, d, e, f) <==> x % WORD32 == e % WORD32
    ensures Mix(a, b, c, d, e, x) == Mix(a, b, c, d, e, f) <==> x % WORD32 == f % WORD32
  {
    SumMod(x, a, b + c + d + e + f);
    SumMod(x, b, a + c + d + e + f);
    SumMod(x, d, a + b + c + e + f);
    SumMod(x, e, a + b + c + d + f);
    SumMod(x, f, a + b + c + d + e);
  }

  lemma SumMod(x: nat, y: nat, rest: nat)
    ensures (x + rest) % WORD32 == (y + rest) % WORD32 <==> x % WORD32 == y % WORD32
  {
  }

  datatype AllocStats = AllocStats(
    totalSize: nat, usedSize: nat, freeSize: nat, allocCount: nat, freeCount: nat,
    totalAllocs: nat, totalFrees: nat, failedAllocs: nat, doubleFrees: nat, corrupted: nat,
    maxAlloc: nat, minAlloc: nat, merges: nat, splits: nat, coalesces: nat, peakUsed: nat)
  {
    function RecordAlloc(size: nat): AllocStats {
      this.(usedSize := usedSize + size, totalAllocs := totalAllocs + 1, allocCount := allocCount + 1,
            maxAlloc := if maxAlloc < size then size else maxAlloc,
            minAlloc := if size < minAlloc then size else minAlloc,
            peakUsed := if peakUsed < usedSize + size then usedSize + size else peakUsed)
    }

    /** `used_size` is a plain subtraction; `alloc_count` saturates at zero. */
    function RecordDealloc(size: nat): AllocStats
      requires size <= usedSize
    {
      this.(usedSize := usedSize - size, totalFrees := totalFrees + 1,
            allocCount := if allocCount == 0 then 0 else allocCount - 1)
    }

    function RecordMerge(): AllocStats { this.(merges := merges + 1, coalesces := coalesces + 1) }
    function RecordSplit(): AllocStats { this.(splits := splits + 1) }
    function RecordFailure(): AllocStats { this.(failedAllocs := failedAllocs + 1) }
    function RecordDoubleFree(): AllocStats { this.(doubleFrees := doubleFrees + 1) }
    function RecordCorruption(): AllocStats { this.(corrupted := corrupted + 1) }
  }

  function NewStats(total: nat): AllocStats {
    AllocStats(total, 0, total, 0, 1, 0, 0, 0, 0, 0, 0, USIZE_MAX, 0, 0, 0, 0)
  }
}
