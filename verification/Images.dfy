/** The decoded image and the meaning of a differencing chain.

    `Locate` is the reference semantics: it says, one byte at a time and straight
    from the on-disk tables, where a byte of the virtual disk lives. Everything the
    decoder computes in bulk is proved against it. */
module Images {
  import opened Bytes
  import opened Words

  // ---------------------------------------------------------------- tables

  datatype DiskType = Fixed | Dynamic | Differencing

  /** The low three bits of a VHDX block entry. */
  type BlockState = s: int | 0 <= s < 8

  const BLOCK_NOT_PRESENT: BlockState := 0
  const BLOCK_UNDEFINED: BlockState := 1
  const BLOCK_ZERO: BlockState := 2
  const BLOCK_UNMAPPED: BlockState := 3
  const BLOCK_FULLY_PRESENT: BlockState := 6
  const BLOCK_PARTIALLY_PRESENT: BlockState := 7

  const DEFAULT_SECTOR_SIZE := 512

  datatype BlockEntry = BlockEntry(isAllocated: bool, fileOffset: int, state: BlockState)

  /** The block allocation table of an image. A fixed VHD has none. */
  datatype Table =
    | Flat
    | VhdTable(entries: seq<BlockEntry>, sectorBitmapSize: nat)
    | VhdxTable(entries: seq<BlockEntry>, chunkRatio: nat, bitmapOffsets: seq<int>)

  /** An opened image together with the chain of parents attached to it. */
  datatype Disk = Disk(
    diskType: DiskType,
    virtualSize: nat,
    blockSize: nat,
    sectorSize: nat,
    source: seq<byte>,
    path: string,
    table: Table,
    parent: Option<Disk>)
  {
    predicate IsDifferencing() { diskType == Differencing }
  }

  /** A table whose entries are consistent, whatever offsets they hold. */
  predicate FormedTable(t: Table) {
    t.VhdxTable? ==>
      && 0 < t.chunkRatio
      && forall i :: 0 <= i < |t.entries| ==>
           (t.entries[i].isAllocated <==>
            t.entries[i].state == BLOCK_FULLY_PRESENT || t.entries[i].state == BLOCK_PARTIALLY_PRESENT)
  }

  /** No byte of a present block lies past the last offset a signed 64-bit number holds. */
  predicate EntryFits(e: BlockEntry, blockSize: nat) {
    e.isAllocated ==> 0 <= e.fileOffset && e.fileOffset + blockSize <= TWO_63
  }

  predicate OffsetsFit(t: Table, blockSize: nat) {
    !t.Flat? ==> forall i :: 0 <= i < |t.entries| ==> EntryFits(t.entries[i], blockSize)
  }

  predicate ValidTable(t: Table, blockSize: nat) {
    FormedTable(t) && OffsetsFit(t, blockSize)
  }

  const MAX_BLOCKS := 0x100_0000

  /** What opening an image establishes about it on its own, whatever its table holds:
      sizes that are not zero, and a virtual size no conversion of the read path truncates. */
  predicate Formed(d: Disk) {
    && d.virtualSize < TWO_63
    && FormedTable(d.table)
    && (d.table.Flat? ==> d.diskType == Fixed)
    && (!d.table.Flat? ==>
          && 0 < d.blockSize && 0 < d.sectorSize
          && d.virtualSize <= d.blockSize * MAX_BLOCKS)
    && (d.table.VhdTable? ==> d.diskType != Fixed && d.sectorSize == DEFAULT_SECTOR_SIZE)
  }

  /** An image whose present blocks also lie where file offsets can reach. Nothing is said
      about whether the file reaches there, or about how many entries the table has. */
  predicate ValidImage(d: Disk) {
    Formed(d) && OffsetsFit(d.table, d.blockSize)
  }

  /** A chain as SetParent builds it: only a differencing disk has a parent, and
      parent and child agree on the virtual size. */
  predicate ValidChain(d: Disk)
    decreases d
  {
    && ValidImage(d)
    && match d.parent
       case None => true
       case Some(p) => d.IsDifferencing() && p.virtualSize == d.virtualSize && ValidChain(p)
  }

  // ---------------------------------------------------------------- sector bitmaps

  /** The bit that stands for a sector of a block, within the block's bitmap (VHD) or
      within the bitmap of the block's chunk (VHDX). */
  function BitPos(d: Disk, block: nat, sector: nat): nat
    requires Formed(d) && !d.table.Flat?
  {
    if d.table.VhdTable? then sector
    else (block % d.table.chunkRatio) * (d.blockSize / d.sectorSize) + sector
  }

  /** Whether the bitmap claims a sector for this image: `None` when the bitmap cannot
      be read, `Some(false)` when the block has no bitmap at all. */
  function SectorBit(d: Disk, block: nat, sector: nat): Option<bool>
    requires Formed(d) && !d.table.Flat? && block < |d.table.entries|
  {
    var pos := BitPos(d, block, sector);
    if d.table.VhdTable? then
      var base := d.table.entries[block].fileOffset - d.table.sectorBitmapSize;
      if base < 0 || pos / 8 >= d.table.sectorBitmapSize then None
      else match FileByte(d.source, base + pos / 8)
           case None => None
           case Some(b) => Some(TestBit(b, 7 - pos % 8))
    else
      var chunk := block / d.table.chunkRatio;
      if chunk >= |d.table.bitmapOffsets| || d.table.bitmapOffsets[chunk] < 0 then Some(false)
      else match FileByte(d.source, d.table.bitmapOffsets[chunk] + pos / 8)
           case None => None
           case Some(b) => Some(TestBit(b, pos % 8))
  }

  // ---------------------------------------------------------------- where a byte lives

  /** Where one byte of the virtual disk lives. `link` counts disks from the one asked,
      which is 0. `Fault` means the tables cannot answer. */
  datatype Place =
    | InFile(link: nat, path: string, at: int)
    | Hole
    | Cleared(link: nat, path: string)
    | Missing(link: nat)
    | Fault

  /** The same place, seen from a child one link nearer the leaf. */
  function Deeper(p: Place): Place {
    match p
    case InFile(link, path, at) => InFile(link + 1, path, at)
    case Hole => Hole
    case Cleared(link, path) => Cleared(link + 1, path)
    case Missing(link) => Missing(link + 1)
    case Fault => Fault
  }

  /** What a block's own table says about one byte, before any parent is asked. */
  datatype Verdict = Own(at: int) | Beneath | Empty | Override | Broken

  function BySector(d: Disk, block: nat, offsetInBlock: nat, absent: Verdict): Verdict
    requires ValidImage(d) && !d.table.Flat? && block < |d.table.entries|
  {
    match SectorBit(d, block, offsetInBlock / d.sectorSize)
    case None => Broken
    case Some(true) => Own(d.table.entries[block].fileOffset + offsetInBlock)
    case Some(false) => absent
  }

  function VerdictAt(d: Disk, v: nat): Verdict
    requires ValidImage(d)
  {
    if d.table.Flat? then Own(v) else
    var block, o := v / d.blockSize, v % d.blockSize;
    if block >= |d.table.entries| then Broken else
    var e := d.table.entries[block];
    if d.table.VhdTable? then
      if !d.IsDifferencing() then
        if e.isAllocated then Own(e.fileOffset + o) else Empty
      else
        if e.isAllocated then BySector(d, block, o, Beneath) else Beneath
    else
      if e.state == BLOCK_FULLY_PRESENT then Own(e.fileOffset + o)
      else if e.state == BLOCK_PARTIALLY_PRESENT then
        BySector(d, block, o, if d.IsDifferencing() then Beneath else Empty)
      else if !d.IsDifferencing() then Empty
      else if e.state == BLOCK_NOT_PRESENT then Beneath
      else Override
  }

  /** The reference semantics of a chain. */
  function Locate(d: Disk, v: nat): Place
    requires ValidChain(d)
    decreases d
  {
    match VerdictAt(d, v)
    case Own(at) => InFile(0, d.path, at)
    case Empty => Hole
    case Override => Cleared(0, d.path)
    case Broken => Fault
    case Beneath =>
      match d.parent
      case None => Missing(1)
      case Some(p) => Deeper(Locate(p, v))
  }

  // ---------------------------------------------------------------- what a byte is

  /** What reading one byte yields. */
  datatype Cell = Value(b: byte) | NeedsParent | Unreadable

  /** How many disks the chain holds. */
  function Depth(d: Disk): (n: nat)
    ensures n >= 1
    decreases d
  {
    match d.parent
    case None => 1
    case Some(p) => 1 + Depth(p)
  }

  /** The disk `k` links away from the leaf. */
  function Link(d: Disk, k: nat): Disk
    requires k < Depth(d)
    decreases d
  {
    if k == 0 then d else Link(d.parent.value, k - 1)
  }

  function CellOf(d: Disk, p: Place): Cell {
    match p
    case InFile(link, _, at) =>
      if link >= Depth(d) then Unreadable else
        (match FileByte(Link(d, link).source, at)
         case None => Unreadable
         case Some(b) => Value(b))
    case Hole => Value(0)
    case Cleared(_, _) => Value(0)
    case Missing(_) => NeedsParent
    case Fault => Unreadable
  }

  /** The byte the virtual disk holds at v. */
  function ByteAt(d: Disk, v: nat): Cell
    requires ValidChain(d)
  {
    CellOf(d, Locate(d, v))
  }

  /** A byte the image defers to its parent is the parent's byte. */
  lemma ByteBeneath(d: Disk, v: nat)
    requires ValidChain(d) && VerdictAt(d, v) == Beneath
    ensures d.parent.None? ==> ByteAt(d, v) == NeedsParent
    ensures d.parent.Some? ==> ByteAt(d, v) == ByteAt(d.parent.value, v)
  {
  }
}
