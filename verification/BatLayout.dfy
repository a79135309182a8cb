/** Block allocation tables on disk: where entries are, what they decode to, and the
    sector bitmaps that go with them (MS-VHDX section 2.5 and the VHD specification). */
module BatLayout {
  import opened Bytes
  import opened Division
  import opened Words
  import opened Images

  // ---------------------------------------------------------------- VHDX entry positions

  function CeilDiv(n: nat, d: nat): nat
    requires d > 0
  {
    (n + d - 1) / d
  }

  /** VHDXBATEntryCount. */
  function EntryCount(blocks: nat, ratio: nat, diskType: DiskType): nat {
    if blocks == 0 || ratio == 0 then 0
    else if diskType == Differencing then (blocks + ratio - 1) / ratio * (ratio + 1)
    else blocks + (blocks - 1) / ratio
  }

  /** The count the deprecated ReadBAT reads, whatever the disk type. */
  function LegacyCount(blocks: nat, ratio: nat): nat
    requires ratio > 0
  {
    blocks + (blocks + ratio - 1) / ratio
  }

  /** The raw index of payload entry i, and of the bitmap entry of chunk c. */
  function PayloadIndex(i: nat, ratio: nat): nat
    requires ratio > 0
  {
    i + i / ratio
  }

  function BitmapIndex(c: nat, ratio: nat): nat {
    c * (ratio + 1) + ratio
  }

  lemma PayloadSplit(i: nat, ratio: nat)
    requires ratio > 0
    ensures PayloadIndex(i, ratio) == (i / ratio) * (ratio + 1) + i % ratio
    ensures PayloadIndex(i, ratio) / (ratio + 1) == i / ratio && PayloadIndex(i, ratio) % (ratio + 1) == i % ratio
  {
    var q, r := i / ratio, i % ratio;
    assert i == q * ratio + r;
    assert q * (ratio + 1) == q * ratio + q;
    assert (q + 1) * (ratio + 1) == q * (ratio + 1) + (ratio + 1);
    QuotientIs(PayloadIndex(i, ratio), ratio + 1, q);
  }

  lemma BitmapSplit(c: nat, ratio: nat)
    ensures BitmapIndex(c, ratio) / (ratio + 1) == c && BitmapIndex(c, ratio) % (ratio + 1) == ratio
  {
    assert (c + 1) * (ratio + 1) == c * (ratio + 1) + (ratio + 1);
    QuotientIs(BitmapIndex(c, ratio), ratio + 1, c);
  }

  /** No two entries share a raw index: payload entries differ from one another, bitmap
      entries do too, and no payload entry is a bitmap entry. */
  lemma EntriesDoNotCollide(i: nat, j: nat, c: nat, e: nat, ratio: nat)
    requires ratio > 0
    ensures PayloadIndex(i, ratio) == PayloadIndex(j, ratio) <==> i == j
    ensures BitmapIndex(c, ratio) == BitmapIndex(e, ratio) <==> c == e
    ensures PayloadIndex(i, ratio) != BitmapIndex(c, ratio)
  {
    PayloadSplit(i, ratio);
    PayloadSplit(j, ratio);
    BitmapSplit(c, ratio);
    BitmapSplit(e, ratio);
  }

  /** A payload slot is in the first `chunks` chunks of the table exactly when its block
      is, and likewise a bitmap entry. */
  lemma SlotsOfChunks(i: nat, c: nat, ratio: nat, chunks: nat)
    requires ratio > 0
    ensures PayloadIndex(i, ratio) < chunks * (ratio + 1) <==> i < chunks * ratio
    ensures BitmapIndex(c, ratio) < chunks * (ratio + 1) <==> c < chunks
  {
    PayloadSplit(i, ratio);
    BitmapSplit(c, ratio);
    QuotientBelow(PayloadIndex(i, ratio), ratio + 1, chunks);
    QuotientBelow(BitmapIndex(c, ratio), ratio + 1, chunks);
    QuotientBelow(i, ratio, chunks);
  }

  ghost predicate PayloadSlot(raw: nat, ratio: nat, slots: nat)
    requires ratio > 0
  {
    exists i: nat :: i < slots && PayloadIndex(i, ratio) == raw
  }

  ghost predicate BitmapSlot(raw: nat, ratio: nat, chunks: nat) {
    exists c: nat :: c < chunks && BitmapIndex(c, ratio) == raw
  }

  /** Every raw index is a payload slot or a bitmap entry. */
  lemma SlotOf(raw: nat, ratio: nat)
    requires ratio > 0
    ensures (exists i: nat :: PayloadIndex(i, ratio) == raw) || (exists c: nat :: BitmapIndex(c, ratio) == raw)
  {
    var c, r := raw / (ratio + 1), raw % (ratio + 1);
    assert raw == c * (ratio + 1) + r;
    if r == ratio {
      assert BitmapIndex(c, ratio) == raw;
    } else {
      var i := c * ratio + r;
      assert (c + 1) * ratio == c * ratio + ratio;
      QuotientIs(i, ratio, c);
      PayloadSplit(i, ratio);
      assert PayloadIndex(i, ratio) == raw;
    }
  }

  /** The raw indices of a differencing table are exactly the payload slots and the bitmap
      entries of its chunks, so with EntriesDoNotCollide the two kinds partition it. */
  lemma DifferencingPartition(blocks: nat, ratio: nat, raw: nat)
    requires blocks > 0 && ratio > 0
    ensures var chunks := CeilDiv(blocks, ratio);
      raw < EntryCount(blocks, ratio, Differencing) <==>
        PayloadSlot(raw, ratio, chunks * ratio) || BitmapSlot(raw, ratio, chunks)
  {
    hide PayloadIndex, BitmapIndex;
    var chunks := CeilDiv(blocks, ratio);
    SlotOf(raw, ratio);
    if raw < EntryCount(blocks, ratio, Differencing) {
      if i: nat :| PayloadIndex(i, ratio) == raw {
        SlotsOfChunks(i, 0, ratio, chunks);
      } else {
        var c: nat :| BitmapIndex(c, ratio) == raw;
        SlotsOfChunks(0, c, ratio, chunks);
      }
    } else {
      forall i: nat | PayloadIndex(i, ratio) == raw ensures i >= chunks * ratio {
        SlotsOfChunks(i, 0, ratio, chunks);
      }
      forall c: nat | BitmapIndex(c, ratio) == raw ensures c >= chunks {
        SlotsOfChunks(0, c, ratio, chunks);
      }
    }
  }

  lemma ChunkOfLast(blocks: nat, ratio: nat)
    requires blocks > 0 && ratio > 0
    ensures CeilDiv(blocks, ratio) == (blocks - 1) / ratio + 1
  {
    QuotientIs(blocks - 1 + ratio, ratio, (blocks - 1) / ratio + 1);
  }

  /** A fixed or dynamic table ends at its last payload entry, holds every payload entry,
      and omits only the bitmap entry of the last chunk. */
  lemma DynamicTableEnds(blocks: nat, ratio: nat, i: nat, c: nat)
    requires blocks > 0 && ratio > 0 && i < blocks && c < CeilDiv(blocks, ratio)
    ensures var count := EntryCount(blocks, ratio, Dynamic);
      && count == PayloadIndex(blocks - 1, ratio) + 1
      && PayloadIndex(i, ratio) < count
      && (BitmapIndex(c, ratio) < count <==> c + 1 < CeilDiv(blocks, ratio))
  {
    ChunkOfLast(blocks, ratio);
    QuotientMonotone(i, blocks - 1, ratio);
    PayloadSplit(blocks - 1, ratio);
    var q := (blocks - 1) / ratio;
    if c < q {
      MulMonotone(c + 1, q, ratio + 1);
    } else {
      MulMonotone(q, c, ratio + 1);
    }
  }

  /** Every entry a differencing disk needs is inside its table. */
  lemma DifferencingTableHolds(blocks: nat, ratio: nat, i: nat, c: nat)
    requires blocks > 0 && ratio > 0 && i < blocks && c < CeilDiv(blocks, ratio)
    ensures PayloadIndex(i, ratio) < EntryCount(blocks, ratio, Differencing)
    ensures BitmapIndex(c, ratio) < EntryCount(blocks, ratio, Differencing)
  {
    var chunks := CeilDiv(blocks, ratio);
    ChunkOfLast(blocks, ratio);
    SectorSpan(ratio, blocks - 1, 1);
    hide CeilDiv, PayloadIndex, BitmapIndex;
    SlotsOfChunks(i, c, ratio, chunks);
  }

  /** The legacy count reaches the last chunk's bitmap entry exactly when the chunk ratio
      divides the block count. */
  lemma LegacyReaches(blocks: nat, ratio: nat)
    requires blocks > 0 && ratio > 0
    ensures BitmapIndex(CeilDiv(blocks, ratio) - 1, ratio) < LegacyCount(blocks, ratio) <==> blocks % ratio == 0
  {
    ChunkOfLast(blocks, ratio);
    var q, r := (blocks - 1) / ratio, (blocks - 1) % ratio;
    assert blocks - 1 == q * ratio + r;
    assert q * (ratio + 1) == q * ratio + q;
    if r == ratio - 1 {
      assert (q + 1) * ratio == q * ratio + ratio;
      QuotientIs(blocks, ratio, q + 1);
    } else {
      QuotientIs(blocks, ratio, q);
    }
  }

  // ---------------------------------------------------------------- VHDX entry contents

  /** The file offset in a raw entry: bits 20 to 63, in mebibytes. */
  function OffsetBits(raw: nat): nat { (raw / MIB) % 0x100_0000_0000_0000 }

  function RawOffset(raw: nat): int { Wrap64(OffsetBits(raw) * MIB) }

  function DecodeBlock(raw: nat): BlockEntry {
    var state: BlockState := raw % 8;
    var present := state == BLOCK_FULLY_PRESENT || state == BLOCK_PARTIALLY_PRESENT;
    BlockEntry(present, if present then RawOffset(raw) else -1, state)
  }

  const SECTOR_BITMAP_PRESENT := 6

  function DecodeBitmap(raw: nat): int {
    if raw % 8 == SECTOR_BITMAP_PRESENT then RawOffset(raw) else -1
  }

  /** The number of payload entries between bitmap entries. */
  function ChunkRatio(blockSize: nat, sectorSize: nat): nat
    requires blockSize > 0
  {
    (0x80_0000 * sectorSize) / blockSize
  }

  /** The chunk ratio is 2^23 times the sector size over the block size, rounded down. */
  lemma ChunkRatioIs(blockSize: nat, sectorSize: nat)
    requires blockSize > 0
    ensures var r := ChunkRatio(blockSize, sectorSize);
      r * blockSize <= 8388608 * sectorSize < (r + 1) * blockSize
  {
  }

  function RawEntry(file: seq<byte>, offset: nat, j: nat): nat
    requires offset + 8 * j + 8 <= |file|
  {
    Le(file[offset + 8 * j..offset + 8 * j + 8])
  }

  /** Where chunk c's bitmap is, -1 when it is absent or its entry lies past the table. */
  function BitmapAt(file: seq<byte>, offset: nat, c: nat, ratio: nat, count: nat): int
    requires offset + 8 * count <= |file|
  {
    if BitmapIndex(c, ratio) < count then DecodeBitmap(RawEntry(file, offset, BitmapIndex(c, ratio))) else -1
  }

  /** What a raw table decodes to. The chunk ratio is kept in 32 bits. */
  ghost predicate TableOf(t: Table, file: seq<byte>, offset: nat, blocks: nat, ratio: nat, count: nat)
    requires ratio > 0 && offset + 8 * count <= |file|
    requires forall i :: 0 <= i < blocks ==> PayloadIndex(i, ratio) < count
  {
    && t.VhdxTable? && t.chunkRatio == WrapU32(ratio)
    && |t.entries| == blocks && |t.bitmapOffsets| == CeilDiv(blocks, ratio)
    && (forall i :: 0 <= i < blocks ==> t.entries[i] == DecodeBlock(RawEntry(file, offset, PayloadIndex(i, ratio))))
    && (forall c :: 0 <= c < |t.bitmapOffsets| ==> t.bitmapOffsets[c] == BitmapAt(file, offset, c, ratio, count))
  }

  lemma PayloadFits(blocks: nat, ratio: nat, diskType: DiskType)
    requires blocks > 0 && ratio > 0
    ensures forall i :: 0 <= i < blocks ==> PayloadIndex(i, ratio) < EntryCount(blocks, ratio, diskType)
  {
    ChunkOfLast(blocks, ratio);
    forall i | 0 <= i < blocks ensures PayloadIndex(i, ratio) < EntryCount(blocks, ratio, diskType) {
      if diskType == Differencing {
        DifferencingTableHolds(blocks, ratio, i, 0);
      } else {
        DynamicTableEnds(blocks, ratio, i, 0);
      }
    }
  }

  /** The sector size a reader of the table uses: zero stands for 512. */
  function SectorSizeOf(sectorSize: nat): (ss: nat)
    ensures ss > 0
  {
    if sectorSize == 0 then 512 else sectorSize
  }

  /** ReadBATForDiskType. */
  method ReadVhdxBat(file: seq<byte>, offset: nat, blocks: Uint32, blockSize: Uint32, sectorSize: Uint32,
                     diskType: DiskType)
    returns (t: Table, err: Error)
    ensures err == Ok <==>
      && blocks > 0 && blockSize > 0
      && ChunkRatio(blockSize, if sectorSize == 0 then 512 else sectorSize) > 0
      && var ratio := ChunkRatio(blockSize, if sectorSize == 0 then 512 else sectorSize);
         offset + 8 * EntryCount(blocks, ratio, diskType) <= |file|
    ensures err == Ok ==>
      var ratio := ChunkRatio(blockSize, if sectorSize == 0 then 512 else sectorSize);
      && (forall i :: 0 <= i < blocks ==> PayloadIndex(i, ratio) < EntryCount(blocks, ratio, diskType))
      && TableOf(t, file, offset, blocks, ratio, EntryCount(blocks, ratio, diskType))
  {
    t := Flat;
    if blocks == 0 || blockSize == 0 {
      return t, Invalid;
    }
    var ratio := ChunkRatio(blockSize, SectorSizeOf(sectorSize));
    if ratio == 0 {
      return t, Invalid;
    }
    var chunks, count := CeilDiv(blocks, ratio), EntryCount(blocks, ratio, diskType);
    if offset + 8 * count > |file| {
      return t, EndOfFile;
    }
    PayloadFits(blocks, ratio, diskType);
    hide EntryCount, ChunkRatio, PayloadIndex, BitmapIndex, CeilDiv, DecodeBlock, DecodeBitmap, RawEntry;
    var bitmaps: seq<int> := [];
    for c := 0 to chunks
      invariant |bitmaps| == c
      invariant forall k :: 0 <= k < c ==> bitmaps[k] == BitmapAt(file, offset, k, ratio, count)
    {
      var at := BitmapIndex(c, ratio);
      if at >= count {
        bitmaps := bitmaps + [-1];
      } else {
        bitmaps := bitmaps + [DecodeBitmap(RawEntry(file, offset, at))];
      }
    }
    var entries: seq<BlockEntry> := [];
    for i := 0 to blocks
      invariant |entries| == i
      invariant forall k :: 0 <= k < i ==> entries[k] == DecodeBlock(RawEntry(file, offset, PayloadIndex(k, ratio)))
    {
      entries := entries + [DecodeBlock(RawEntry(file, offset, PayloadIndex(i, ratio)))];
    }
    return VhdxTable(entries, WrapU32(ratio), bitmaps), Ok;
  }

  /** The chunk ratio survives being kept in 32 bits exactly when it fits them. It does for
      every block and sector size the metadata parser lets through. */
  lemma RatioNarrows(blockSize: nat, sectorSize: nat)
    requires blockSize > 0
    ensures WrapU32(ChunkRatio(blockSize, sectorSize)) == ChunkRatio(blockSize, sectorSize) <==>
      ChunkRatio(blockSize, sectorSize) < TWO_32
    ensures Parsed(blockSize, sectorSize) ==> ChunkRatio(blockSize, sectorSize) <= 0x8000
  {
    if Parsed(blockSize, sectorSize) {
      QuotientBelow(0x80_0000 * sectorSize, blockSize, 0x8001);
    }
  }

  /** The block and sector sizes the metadata parser lets through. */
  predicate Parsed(blockSize: nat, sectorSize: nat) {
    MIB <= blockSize <= 256 * MIB && blockSize % 512 == 0 && sectorSize in {512, 4096}
  }

  /** A decoded table is one the read path accepts exactly when its chunk ratio did not
      narrow to zero and no present block reaches past 2^63 in the file. */
  lemma DecodedTableValid(t: Table, file: seq<byte>, offset: nat, blocks: nat, blockSize: nat, ratio: nat, count: nat)
    requires ratio > 0 && blockSize > 0 && offset + 8 * count <= |file|
    requires forall i :: 0 <= i < blocks ==> PayloadIndex(i, ratio) < count
    requires TableOf(t, file, offset, blocks, ratio, count)
    ensures ValidTable(t, blockSize) <==>
      && ratio % TWO_32 != 0
      && forall i :: 0 <= i < blocks && t.entries[i].isAllocated ==>
           OffsetBits(RawEntry(file, offset, PayloadIndex(i, ratio))) * MIB + blockSize <= TWO_63
  {
    hide RawEntry, PayloadIndex;
    forall i | 0 <= i < blocks
      ensures t.entries[i].isAllocated ==>
        (EntryFits(t.entries[i], blockSize) <==>
         OffsetBits(RawEntry(file, offset, PayloadIndex(i, ratio))) * MIB + blockSize <= TWO_63)
      ensures t.entries[i].isAllocated <==>
        t.entries[i].state == BLOCK_FULLY_PRESENT || t.entries[i].state == BLOCK_PARTIALLY_PRESENT
    {
      RawBound(file, offset, PayloadIndex(i, ratio));
      OffsetSign(RawEntry(file, offset, PayloadIndex(i, ratio)));
    }
  }

  lemma RawBound(file: seq<byte>, offset: nat, j: nat)
    requires offset + 8 * j + 8 <= |file|
    ensures RawEntry(file, offset, j) < TWO_64
  {
    LeBound(file[offset + 8 * j..offset + 8 * j + 8]);
    assert Pow256(8) == TWO_64 by {
      assert Pow256(4) == 0x1_0000_0000;
    }
  }

  lemma OffsetSign(raw: nat)
    requires raw < TWO_64
    ensures OffsetBits(raw) * MIB < TWO_63 ==> RawOffset(raw) == OffsetBits(raw) * MIB
    ensures OffsetBits(raw) * MIB >= TWO_63 ==> RawOffset(raw) < 0
  {
    assert OffsetBits(raw) <= raw / MIB;
  }

  // ---------------------------------------------------------------- sector bitmaps

  /** When the sector size divides the block size, no two sectors of a chunk share a bit,
      and every bit is inside the 1 MiB bitmap block. */
  lemma BitsDoNotCollide(blockSize: nat, sectorSize: nat, b: nat, s: nat, c: nat, t: nat)
    requires blockSize > 0 && sectorSize > 0 && blockSize % sectorSize == 0
    requires b < ChunkRatio(blockSize, sectorSize) && c < ChunkRatio(blockSize, sectorSize)
    requires s < blockSize / sectorSize && t < blockSize / sectorSize
    ensures b * (blockSize / sectorSize) + s == c * (blockSize / sectorSize) + t <==> b == c && s == t
    ensures b * (blockSize / sectorSize) + s < 0x80_0000
  {
    var n, ratio := blockSize / sectorSize, ChunkRatio(blockSize, sectorSize);
    assert (b + 1) * n == b * n + n && (c + 1) * n == c * n + n;
    QuotientIs(b * n + s, n, b);
    QuotientIs(c * n + t, n, c);
    MulMonotone(b + 1, ratio, n);
    BitsFit(blockSize, sectorSize);
  }

  lemma BitsFit(blockSize: nat, sectorSize: nat)
    requires blockSize > 0 && sectorSize > 0 && blockSize % sectorSize == 0
    ensures ChunkRatio(blockSize, sectorSize) * (blockSize / sectorSize) <= 0x80_0000
  {
    var n, ratio := blockSize / sectorSize, ChunkRatio(blockSize, sectorSize);
    assert blockSize == n * sectorSize;
    assert ratio * blockSize <= 0x80_0000 * sectorSize;
    assert (ratio * n) * sectorSize == ratio * blockSize;
    if ratio * n > 0x80_0000 {
      MulMonotone(0x80_0000 + 1, ratio * n, sectorSize);
    }
  }

  /** vhdSectorBitmapSize: one bit per 512-byte sector, in whole sectors. */
  function VhdSectorBitmapSize(blockSize: nat): (n: nat)
  {
    var bytes := blockSize / 4096 + if blockSize % 4096 != 0 then 1 else 0;
    var rem := bytes % 512;
    var padded := if rem != 0 then bytes + (512 - rem) else bytes;
    if padded == 0 then 512 else padded
  }

  /** The bitmap has a bit for every sector of the block, and is the smallest non-empty
      whole number of sectors that does. */
  lemma VhdBitmapFits(blockSize: nat)
    ensures var n := VhdSectorBitmapSize(blockSize);
      && n % 512 == 0 && n >= 512
      && (forall s: nat :: s * 512 < blockSize ==> s / 8 < n)
      && (n > 512 ==> exists s: nat :: s * 512 < blockSize && s / 8 >= n - 512)
  {
    var n := VhdSectorBitmapSize(blockSize);
    if n > 512 {
      var s := (n - 512) * 8;
      assert s * 512 < blockSize && s / 8 >= n - 512;
    }
  }

  const VHD_UNALLOCATED := 0xFFFF_FFFF

  /** A big-endian 32-bit integer. */
  function Be32(s: seq<byte>): nat
    requires |s| == 4
  {
    ((s[0] as int * 256 + s[1] as int) * 256 + s[2] as int) * 256 + s[3] as int
  }

  function DecodeVhd(raw: nat, bitmapSize: nat): BlockEntry {
    if raw == VHD_UNALLOCATED then BlockEntry(false, -1, BLOCK_NOT_PRESENT)
    else BlockEntry(true, raw * 512 + bitmapSize, BLOCK_NOT_PRESENT)
  }

  /** Where the parser looks for entry i of its buffer: a 32-bit product. */
  function VhdSlot(i: Uint32): Uint32 { WrapU32(4 * i) }

  /** Every entry is read from its own place exactly for tables of at most 2^30 entries. */
  lemma VhdSlots(blocks: Uint32)
    requires blocks > 0
    ensures (forall i: Uint32 :: i < blocks ==> VhdSlot(i) == 4 * i) <==> blocks <= 0x4000_0000
  {
    if blocks > 0x4000_0000 {
      assert VhdSlot(0x4000_0000) == 0;
    }
  }

  lemma VhdSlotFits(i: Uint32, blocks: Uint32)
    requires i < blocks
    ensures VhdSlot(i) + 4 <= 4 * blocks
  {
  }

  lemma VhdEntryFits(raw: nat, blockSize: Uint32)
    requires raw < TWO_32
    ensures EntryFits(DecodeVhd(raw, VhdSectorBitmapSize(blockSize)), blockSize)
  {
    assert VhdSectorBitmapSize(blockSize) <= TWO_32;
  }

  /** The table was read from the file at this place. */
  ghost predicate VhdTableAt(t: Table, file: seq<byte>, offset: nat, blockSize: nat) {
    && t.VhdTable? && t.sectorBitmapSize == VhdSectorBitmapSize(blockSize)
    && offset + 4 * |t.entries| <= |file|
    && forall i :: 0 <= i < |t.entries| ==>
         t.entries[i] == DecodeVhd(Be32(file[offset + 4 * i..offset + 4 * i + 4]), t.sectorBitmapSize)
  }

  /** VHDBATParser.ReadBAT. Its tables are always ones the read path accepts. */
  method ReadVhdBat(file: seq<byte>, offset: nat, blocks: Uint32, blockSize: Uint32) returns (t: Table, err: Error)
    ensures err == Ok <==> blocks > 0 && offset + 4 * blocks <= |file|
    ensures err == Ok ==>
      && t.VhdTable? && t.sectorBitmapSize == VhdSectorBitmapSize(blockSize) && |t.entries| == blocks
      && ValidTable(t, blockSize)
    ensures err == Ok && blocks <= 0x4000_0000 ==> VhdTableAt(t, file, offset, blockSize)
  {
    if blocks == 0 {
      return Flat, Invalid;
    }
    if offset + 4 * blocks > |file| {
      return Flat, EndOfFile;
    }
    VhdSlots(blocks);
    hide VhdSectorBitmapSize, Be32, VhdSlot;
    var bitmapSize := VhdSectorBitmapSize(blockSize);
    var entries: seq<BlockEntry> := [];
    var i: Uint32 := 0;
    while i < blocks
      invariant i <= blocks && |entries| == i
      invariant forall k :: 0 <= k < i ==> EntryFits(entries[k], blockSize)
      invariant blocks <= 0x4000_0000 ==> forall k :: 0 <= k < i ==>
        entries[k] == DecodeVhd(Be32(file[offset + 4 * k..offset + 4 * k + 4]), bitmapSize)
    {
      VhdSlotFits(i, blocks);
      var at := offset + VhdSlot(i);
      var raw := Be32(file[at..at + 4]);
      Be32Bound(file[at..at + 4]);
      VhdEntryFits(raw, blockSize);
      entries := entries + [DecodeVhd(raw, bitmapSize)];
      i := i + 1;
    }
    return VhdTable(entries, bitmapSize), Ok;
  }

  lemma Be32Bound(s: seq<byte>)
    requires |s| == 4
    ensures 0 <= Be32(s) < TWO_32
  {
  }
}
