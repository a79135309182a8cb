/** The on-disk formats, said byte by byte and bit by bit with numbers alone: what a sector's
    bit is, and what byte a chain holds at an offset. Nothing here is said through the
    functions the decoder or its reference semantics are written with. */
module Meaning {
  import opened Bytes
  import opened Division
  import opened Images

  /** Bit k of a byte, counted from the least significant. */
  predicate Bit(b: byte, k: nat)
    requires k < 8
  {
    ((b as bv8) >> k) & 1 == 1
  }

  lemma TestBitIsBit(b: byte, k: nat)
    requires k < 8
    ensures TestBit(b, k) <==> Bit(b, k)
  {
    match k {
      case 0 => assert TestBit(b, 0) <==> Bit(b, 0);
      case 1 => assert TestBit(b, 1) <==> Bit(b, 1);
      case 2 => assert TestBit(b, 2) <==> Bit(b, 2);
      case 3 => assert TestBit(b, 3) <==> Bit(b, 3);
      case 4 => assert TestBit(b, 4) <==> Bit(b, 4);
      case 5 => assert TestBit(b, 5) <==> Bit(b, 5);
      case 6 => assert TestBit(b, 6) <==> Bit(b, 6);
      case 7 => assert TestBit(b, 7) <==> Bit(b, 7);
    }
  }

  /** In a VHDX, the sectors of a chunk are bits of its bitmap from the least significant
      bit of the first byte on; a chunk without a bitmap claims no sector. */
  lemma VhdxBit(d: Disk, block: nat, s: nat)
    requires Formed(d) && d.table.VhdxTable? && block < |d.table.entries|
    ensures var chunk := block / d.table.chunkRatio;
      var j := (block % d.table.chunkRatio) * (d.blockSize / d.sectorSize) + s;
      SectorBit(d, block, s) ==
        if chunk >= |d.table.bitmapOffsets| || d.table.bitmapOffsets[chunk] < 0 then Some(false)
        else if d.table.bitmapOffsets[chunk] + j / 8 >= |d.source| then None
        else Some(Bit(d.source[d.table.bitmapOffsets[chunk] + j / 8], j % 8))
  {
    var chunk := block / d.table.chunkRatio;
    var j := (block % d.table.chunkRatio) * (d.blockSize / d.sectorSize) + s;
    hide TestBit, Bit;
    if chunk < |d.table.bitmapOffsets| && 0 <= d.table.bitmapOffsets[chunk] + j / 8 < |d.source| {
      TestBitIsBit(d.source[d.table.bitmapOffsets[chunk] + j / 8], j % 8);
    }
  }

  /** In a VHD, the sectors of a block are bits of the bitmap right before its data, from
      the most significant bit of the first byte on. */
  lemma VhdBit(d: Disk, block: nat, s: nat)
    requires Formed(d) && d.table.VhdTable? && block < |d.table.entries|
    ensures var bitmap := d.table.entries[block].fileOffset - d.table.sectorBitmapSize;
      SectorBit(d, block, s) ==
        if bitmap < 0 || s / 8 >= d.table.sectorBitmapSize || bitmap + s / 8 >= |d.source| then None
        else Some(Bit(d.source[bitmap + s / 8], 7 - s % 8))
  {
    var bitmap := d.table.entries[block].fileOffset - d.table.sectorBitmapSize;
    hide TestBit, Bit;
    if 0 <= bitmap && bitmap + s / 8 < |d.source| {
      TestBitIsBit(d.source[bitmap + s / 8], 7 - s % 8);
    }
  }

  // ---------------------------------------------------------------- bytes

  /** What a file has at an offset. */
  function Held(file: seq<byte>, at: int): Cell {
    if 0 <= at < |file| then Value(file[at]) else Unreadable
  }

  /** What the rest of a chain has at an offset. */
  function Below(d: Disk, v: nat): Cell
    requires ValidChain(d)
  {
    if d.parent.None? then NeedsParent else ByteAt(d.parent.value, v)
  }

  /** A fixed disk is its file from the first byte on. */
  lemma FixedByte(d: Disk, v: nat)
    requires ValidChain(d) && d.table.Flat?
    ensures ByteAt(d, v) == Held(d.source, v)
  {
  }

  /** A dynamic VHD holds the data of its allocated blocks and zeroes. A differencing VHD
      holds the sectors of its allocated blocks whose bit is set, and leaves every other
      byte to its parent. Its sectors are 512 bytes. */
  lemma VhdByte(d: Disk, v: nat, block: nat, o: nat)
    requires ValidChain(d) && d.table.VhdTable? && v == block * d.blockSize + o && o < d.blockSize
    ensures
      if block >= |d.table.entries| then ByteAt(d, v) == Unreadable else
        var e := d.table.entries[block];
        && (d.diskType == Dynamic && !e.isAllocated ==> ByteAt(d, v) == Value(0))
        && (d.diskType == Dynamic && e.isAllocated ==> ByteAt(d, v) == Held(d.source, e.fileOffset + o))
        && (d.diskType == Differencing && !e.isAllocated ==> ByteAt(d, v) == Below(d, v))
        && (d.diskType == Differencing && e.isAllocated ==>
              var bit := SectorBit(d, block, o / 512);
              && (bit == None ==> ByteAt(d, v) == Unreadable)
              && (bit == Some(false) ==> ByteAt(d, v) == Below(d, v))
              && (bit == Some(true) ==> ByteAt(d, v) == Held(d.source, e.fileOffset + o)))
  {
    hide SectorBit;
    QuotientIs(v, d.blockSize, block);
    CellByVerdict(d, v);
    hide ByteAt;
  }

  /** A VHDX block in state 6 is its data. In state 7 its sectors are data where their bit is
      set. In any other state a disk without parents holds zeroes, and so does a
      differencing disk, but that it leaves a block in state 0, and in state 7 a sector whose
      bit is clear, to its parent. */
  lemma VhdxByte(d: Disk, v: nat, block: nat, o: nat)
    requires ValidChain(d) && d.table.VhdxTable? && v == block * d.blockSize + o && o < d.blockSize
    ensures
      if block >= |d.table.entries| then ByteAt(d, v) == Unreadable else
        var e := d.table.entries[block];
        var rest := if d.diskType == Differencing then Below(d, v) else Value(0);
        && (e.state == 6 ==> ByteAt(d, v) == Held(d.source, e.fileOffset + o))
        && (e.state == 0 ==> ByteAt(d, v) == rest)
        && (1 <= e.state <= 5 ==> ByteAt(d, v) == Value(0))
        && (e.state == 7 ==>
              var bit := SectorBit(d, block, o / d.sectorSize);
              && (bit == None ==> ByteAt(d, v) == Unreadable)
              && (bit == Some(false) ==> ByteAt(d, v) == rest)
              && (bit == Some(true) ==> ByteAt(d, v) == Held(d.source, e.fileOffset + o)))
  {
    hide SectorBit;
    QuotientIs(v, d.blockSize, block);
    CellByVerdict(d, v);
    hide ByteAt;
  }

  lemma CellByVerdict(d: Disk, v: nat)
    requires ValidChain(d)
    ensures ByteAt(d, v) ==
      match VerdictAt(d, v)
      case Own(at) => Held(d.source, at)
      case Beneath => Below(d, v)
      case Empty => Value(0)
      case Override => Value(0)
      case Broken => Unreadable
  {
    hide VerdictAt;
    if VerdictAt(d, v) == Beneath {
      ByteBeneath(d, v);
    }
  }
}
