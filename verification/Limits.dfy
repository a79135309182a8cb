/** Inputs at the edge of 64 bits that opening accepts, and what the operations proved
    correct elsewhere do with them. Each lies in the family its own theorem shuts out. */
module Limits {
  import opened Bytes
  import opened Division
  import opened Words
  import opened Images
  import opened ExtentMap
  import opened DiskMap
  import opened BatLayout
  import opened Validate

  /** A fixed VHD of 2^63 - 1 bytes. Its sum with the footer wraps, so a file of any size
      passes; every byte of it has an answer; and the walk over it fails. */
  lemma WalkCanFail(file: seq<byte>, fileSize: Int64) returns (d: Disk)
    requires fileSize == |file| > 0
    ensures d.virtualSize == TWO_63 - 1 && ValidateVhdFixed(TWO_63 - 1, fileSize, 512) == Ok
    ensures d.source == file && ValidChain(d) && NoFault(d, 0, d.virtualSize) && !Walkable(d)
  {
    d := Disk(Fixed, TWO_63 - 1, 0xFFFF_FFFF, 512, file, "", Flat, None);
  }

  /** The geometry of a disk of that size, in blocks of that size and 512-byte sectors. */
  function Sized(diskSize: Uint64, blockSize: Uint32, batOffset: Int64, fileSize: Int64): Geometry {
    Geometry(diskSize, blockSize, 512, Dynamic, batOffset, 0, fileSize)
  }

  /** A VHDX of one 2 MiB block whose table entry places it 1 MiB below 2^63. It is
      accepted, and its second half is reported at a negative file offset. */
  lemma OffsetCanWrap(file: seq<byte>) returns (d: Disk)
    ensures var g := Sized(2 * MIB, 2 * MIB, MIB, 0);
      FromMetadata(g) && ValidateGeometry(g) == Ok && d.virtualSize == g.diskSize && d.blockSize == g.blockSize
    ensures d.table == VhdxTable([DecodeBlock(TWO_63 - MIB + 6)], 2048, [-1])
    ensures d.source == file && Formed(d) && !ValidImage(d)
    ensures BlockFileOffset(d, 0, 0) == At(TWO_63 - MIB)
    ensures BlockFileOffset(d, 0, MIB) == At(-TWO_63)
  {
    var raw := TWO_63 - MIB + 6;
    QuotientIs(raw, MIB, 0x7FF_FFFF_FFFF);
    var e := DecodeBlock(raw);
    assert e == BlockEntry(true, TWO_63 - MIB, BLOCK_FULLY_PRESENT);
    d := Disk(Dynamic, 2 * MIB, 2 * MIB, 512, file, "", VhdxTable([e], 2048, [-1]), None);
    assert d.table.entries[0] == e && !EntryFits(e, d.blockSize);
    OneBlockAccepted();
  }

  lemma OneBlockAccepted()
    ensures ValidateGeometry(Sized(2 * MIB, 2 * MIB, MIB, 0)) == Ok
  {
    var g := Sized(2 * MIB, 2 * MIB, MIB, 0);
    assert CeilDiv(g.diskSize, g.blockSize) == 1 && ChunkRatio(g.blockSize, g.sectorSize) == 2048;
    assert TableBytes(g) == 8;
    hide ValidateGeometry;
    GeometryAccepted(g);
  }

  /** The disks of two 1 MiB blocks that show what a report of changes can miss have a
      geometry, a chunk ratio and a bitmap slot that opening accepts. */
  lemma TwoBlocksAccepted(diskType: DiskType)
    requires diskType != Fixed
    ensures var g := Geometry(2 * MIB, MIB, 512, diskType, MIB, 0, 0);
      && FromMetadata(g) && ValidateGeometry(g) == Ok
      && ChunkRatio(g.blockSize, g.sectorSize) == 4096 && CeilDiv(2, 4096) == 1
  {
    var g := Geometry(2 * MIB, MIB, 512, diskType, MIB, 0, 0);
    assert CeilDiv(g.diskSize, g.blockSize) == 2 && ChunkRatio(g.blockSize, g.sectorSize) == 4096;
    assert TableBytes(g) <= 8 * 4097;
    hide ValidateGeometry;
    GeometryAccepted(g);
  }

  /** A region table with an empty BAT region 1 MiB below 2^63, and a disk that needs more
      table than that. Both are accepted, and the table does not fit the file. */
  lemma VhdxTableCanMissFile(bat: Guid)
    ensures var rs, g := [Region(bat, TWO_63 - MIB, 0)],
                         Sized(0x40000 * MIB, MIB, TWO_63 - MIB, TWO_63 - 1);
      && FromMetadata(g) && ValidateGeometry(g) == Ok && Acceptable(rs, g.fileSize)
      && ListsRegion(rs, bat, g.batOffset, g.batSize)
      && g.batOffset + TableBytes(g) > g.fileSize
  {
    var rs, g := [Region(bat, TWO_63 - MIB, 0)],
                 Sized(0x40000 * MIB, MIB, TWO_63 - MIB, TWO_63 - 1);
    assert rs[0].kind == bat;
    QuotientIs(0x40000 * MIB + MIB - 1, MIB, 0x40000);
    assert CeilDiv(g.diskSize, g.blockSize) == 0x40000 && ChunkRatio(g.blockSize, g.sectorSize) == 4096;
    assert TableBytes(g) == 8 * (0x40000 + 63);
    GeometryAccepted(g);
  }

  /** A VHD table of one entry at the last offset of the longest file there can be. */
  lemma VhdTableCanMissFile()
    ensures var h := DynamicHeader(MIB, MIB, 1, TWO_63 - 1);
      ValidateVhdDynamic(h, TWO_63 - 1) == Ok && h.tableOffset + 4 * h.blocks > TWO_63 - 1
  {
  }
}
