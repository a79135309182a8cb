/** What the bytes of a block allocation table say, number by number: where each entry is,
    which state it is in, and where its block or bitmap lies in the file. */
module TableBytes {
  import opened Bytes
  import opened Words
  import opened Division
  import opened Images
  import opened ReadPath
  import opened BatLayout

  /** Four bytes, the most significant first. */
  function Big(b: seq<byte>, at: nat): nat
    requires at + 4 <= |b|
  {
    b[at] as int * 16777216 + b[at + 1] as int * 65536 + b[at + 2] as int * 256 + b[at + 3] as int
  }

  /** Four bytes, the least significant first. */
  function Little(b: seq<byte>, at: nat): nat
    requires at + 4 <= |b|
  {
    b[at] as int + b[at + 1] as int * 256 + b[at + 2] as int * 65536 + b[at + 3] as int * 16777216
  }

  lemma BigIs(b: seq<byte>, at: nat)
    requires at + 4 <= |b|
    ensures Be32(b[at..at + 4]) == Big(b, at)
  {
  }

  lemma LeFour(s: seq<byte>)
    requires |s| == 4
    ensures Le(s) == Little(s, 0)
  {
    assert Le(s[1..]) == s[1] as int + 256 * Le(s[1..][1..]) && s[1..][1..] == s[2..];
    assert Le(s[2..]) == s[2] as int + 256 * Le(s[2..][1..]) && s[2..][1..] == s[3..];
    assert Le(s[3..]) == s[3] as int + 256 * Le(s[3..][1..]) && s[3..][1..] == [];
  }

  lemma LeJoins(a: seq<byte>, b: seq<byte>)
    requires |a| == 4
    ensures Le(a + b) == Le(a) + 0x1_0000_0000 * Le(b)
  {
    LeCons(a, b);
    LeCons(a[1..], b);
    LeCons(a[2..], b);
    LeCons(a[3..], b);
    assert a[3..][1..] + b == b;
    assert a[1..][1..] == a[2..] && a[2..][1..] == a[3..];
    assert Le(a) == a[0] as int + 256 * Le(a[1..]);
    assert Le(a[1..]) == a[1] as int + 256 * Le(a[2..]);
    assert Le(a[2..]) == a[2] as int + 256 * Le(a[3..]);
    assert Le(a[3..]) == a[3] as int + 256 * Le(a[3..][1..]) && a[3..][1..] == [];
  }

  lemma LeCons(a: seq<byte>, b: seq<byte>)
    requires a != []
    ensures Le(a + b) == a[0] as int + 256 * Le(a[1..] + b)
  {
    assert (a + b)[1..] == a[1..] + b;
  }

  lemma LittleIs(b: seq<byte>, at: nat)
    requires at + 4 <= |b|
    ensures Le(b[at..at + 4]) == Little(b, at)
  {
    LeFour(b[at..at + 4]);
  }

  /** Eight bytes, the least significant first. */
  function Wide(b: seq<byte>, at: nat): nat
    requires at + 8 <= |b|
  {
    Little(b, at) + Little(b, at + 4) * 4294967296
  }

  lemma WideIs(b: seq<byte>, at: nat)
    requires at + 8 <= |b|
    ensures Le(b[at..at + 8]) == Wide(b, at)
  {
    var lo, hi := b[at..at + 4], b[at + 4..at + 8];
    assert b[at..at + 8] == lo + hi;
    LeJoins(lo, hi);
    LittleIs(b, at);
    LittleIs(b, at + 4);
  }

  // ---------------------------------------------------------------- VHDX

  /** The offset an entry records in bits 20 to 63, as a signed 64-bit number of bytes. */
  function Recorded(raw: nat): int {
    var bytes := raw / 1048576 * 1048576;
    if bytes < 9223372036854775808 then bytes else bytes - 18446744073709551616
  }

  lemma RecordedIs(raw: nat)
    requires raw < 18446744073709551616
    ensures RawOffset(raw) == Recorded(raw)
  {
    assert raw / MIB < 0x100_0000_0000_0000;
  }

  /** The eight bytes at a place of the file make this number. */
  predicate Holds8(file: seq<byte>, at: int, raw: nat) {
    0 <= at && at + 8 <= |file| && raw == Wide(file, at)
  }

  /** The low three bits of an entry are the state, states 6 and 7 are present, and a present
      block lies where bits 20 to 63 say. */
  predicate BlockSays(e: BlockEntry, raw: nat) {
    && e.state == raw % 8 && (e.isAllocated <==> raw % 8 == 6 || raw % 8 == 7)
    && (e.isAllocated ==> e.fileOffset == Recorded(raw))
  }

  /** Block i of a VHDX is described by the eight bytes of entry i + i / ratio. */
  lemma VhdxBlockEntry(t: Table, file: seq<byte>, offset: nat, blocks: nat, ratio: nat, count: nat, i: nat)
    returns (raw: nat)
    requires ratio > 0 && offset + 8 * count <= |file| && i < blocks
    requires forall k :: 0 <= k < blocks ==> PayloadIndex(k, ratio) < count
    requires TableOf(t, file, offset, blocks, ratio, count)
    ensures t.VhdxTable? && |t.entries| == blocks
    ensures Holds8(file, offset + 8 * (i + i / ratio), raw) && BlockSays(t.entries[i], raw)
  {
    var slot := PayloadIndex(i, ratio);
    assert offset + 8 * slot == offset + 8 * (i + i / ratio);
    BlockFromSlot(t, file, offset, blocks, ratio, count, i);
    hide TableOf, BlockSays, Wide, RawEntry, DecodeBlock, PayloadIndex;
    raw := RawEntry(file, offset, slot);
    RawAt(file, offset, slot);
    DecodedBlock(raw);
  }

  lemma BlockFromSlot(t: Table, file: seq<byte>, offset: nat, blocks: nat, ratio: nat, count: nat, i: nat)
    requires ratio > 0 && offset + 8 * count <= |file| && i < blocks
    requires forall k :: 0 <= k < blocks ==> PayloadIndex(k, ratio) < count
    requires TableOf(t, file, offset, blocks, ratio, count)
    ensures t.VhdxTable? && |t.entries| == blocks && PayloadIndex(i, ratio) < count
    ensures t.entries[i] == DecodeBlock(RawEntry(file, offset, PayloadIndex(i, ratio)))
  {
    hide PayloadIndex, RawEntry, DecodeBlock, BitmapAt, CeilDiv;
  }

  lemma RawAt(file: seq<byte>, offset: nat, j: nat)
    requires offset + 8 * j + 8 <= |file|
    ensures RawEntry(file, offset, j) == Wide(file, offset + 8 * j) && RawEntry(file, offset, j) < TWO_64
  {
    WideIs(file, offset + 8 * j);
    RawBound(file, offset, j);
  }

  lemma DecodedBlock(raw: nat)
    requires raw < TWO_64
    ensures BlockSays(DecodeBlock(raw), raw)
  {
    RecordedIs(raw);
    hide Recorded, RawOffset;
  }

  /** State 6 is a bitmap that lies where bits 20 to 63 say; in any other state, and past the
      end of the table, there is none. */
  predicate BitmapSays(found: int, file: seq<byte>, offset: nat, index: int, count: nat) {
    if index >= count then found == -1 else
      && 0 <= index && offset + 8 * index + 8 <= |file|
      && var raw := Wide(file, offset + 8 * index);
         found == if raw % 8 == 6 then Recorded(raw) else -1
  }

  /** The bitmap of chunk c is described by the eight bytes of entry c * (ratio + 1) + ratio. */
  lemma VhdxBitmapEntry(t: Table, file: seq<byte>, offset: nat, blocks: nat, ratio: nat, count: nat, c: nat)
    requires ratio > 0 && offset + 8 * count <= |file| && c < CeilDiv(blocks, ratio)
    requires forall k :: 0 <= k < blocks ==> PayloadIndex(k, ratio) < count
    requires TableOf(t, file, offset, blocks, ratio, count)
    ensures BitmapSays(t.bitmapOffsets[c], file, offset, c * (ratio + 1) + ratio, count)
  {
    var index := BitmapIndex(c, ratio);
    assert index == c * (ratio + 1) + ratio;
    if index < count {
      RawAt(file, offset, index);
      RecordedIs(RawEntry(file, offset, index));
    }
    hide Wide, Recorded, RawOffset, RawEntry, CeilDiv, DecodeBlock, BitmapIndex;
  }

  // ---------------------------------------------------------------- VHD

  /** Block i of a VHD is described by four bytes. All ones is a block that is not there.
      Otherwise they count the 512-byte sectors before the block's bitmap, and the data
      follows the bitmap. */
  lemma VhdBlockEntry(t: Table, file: seq<byte>, offset: nat, blockSize: nat, i: nat)
    requires VhdTableAt(t, file, offset, blockSize) && i < |t.entries|
    ensures var at, e := offset + 4 * i, t.entries[i];
      && (!e.isAllocated <==> file[at] == 255 && file[at + 1] == 255 && file[at + 2] == 255 && file[at + 3] == 255)
      && (e.isAllocated ==> e.fileOffset - t.sectorBitmapSize == 512 * Big(file, at))
  {
    BigIs(file, offset + 4 * i);
    hide VhdSectorBitmapSize;
  }

  /** On a dynamic disk, byte o of an allocated block lies o bytes past the block's bitmap. */
  lemma VhdBlockPlace(d: Disk, file: seq<byte>, offset: nat, i: nat, o: nat, v: nat)
    requires ValidChain(d) && VhdTableAt(d.table, file, offset, d.blockSize) && i < |d.table.entries|
    requires d.table.entries[i].isAllocated && o < d.blockSize && d.diskType == Dynamic
    requires v == i * d.blockSize + o
    ensures Locate(d, v) == InFile(0, d.path, 512 * Big(file, offset + 4 * i) + d.table.sectorBitmapSize + o)
  {
    VhdBlockEntry(d.table, file, offset, d.blockSize, i);
    QuotientIs(v, d.blockSize, i);
    hide Big, DecodeVhd, Be32, VhdSectorBitmapSize;
  }

  /** On a differencing disk, the place the entry counts to is where the block's bitmap is
      looked for. */
  method VhdBitmapFound(d: Disk, file: seq<byte>, offset: nat, i: nat) returns (base: Option<nat>, err: Error)
    requires ValidImage(d) && VhdTableAt(d.table, file, offset, d.blockSize) && i < |d.table.entries|
    requires d.table.entries[i].isAllocated
    ensures err == Ok && base == Some(512 * Big(file, offset + 4 * i))
  {
    VhdBlockEntry(d.table, file, offset, d.blockSize, i);
    hide Big, DecodeVhd, Be32, VhdSectorBitmapSize;
    var found, msbFirst, e := BitmapLocation(d, i);
    return found, e;
  }
}
