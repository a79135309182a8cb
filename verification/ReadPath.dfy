/** The read path: block readers, the differencing resolver and VirtualDisk.ReadAt.

    Every method fills a window p[lo..hi] of the caller's buffer in place, as the
    slices it models do, and is proved to deliver exactly the prefix of bytes that
    `ByteAt` says the chain holds. */
module ReadPath {
  import opened Bytes
  import opened Images
  import opened Division
  import opened Words

  // ---------------------------------------------------------------- the read contract

  /** How a read of `len` bytes at `v` may end after delivering n of them: a nil error
      means all of them, ParentRequired means the very next byte needs a parent that is
      not attached, and any other error means some requested byte cannot be read from
      the files at all. */
  ghost predicate Stops(d: Disk, v: nat, len: nat, n: nat, err: Error)
    requires ValidChain(d)
  {
    && n <= len
    && (err == Ok <==> n == len)
    && (err == ParentRequired ==> ByteAt(d, v + n) == NeedsParent)
    && (err == Ok || err == ParentRequired || exists i :: v <= i < v + len && ByteAt(d, i) == Unreadable)
  }

  /** p[lo..lo + n] holds the chain's bytes from v on. */
  ghost predicate Holds(d: Disk, v: nat, p: array<byte>, lo: nat, n: nat)
    requires ValidChain(d) && lo + n <= p.Length
    reads p
  {
    forall i :: lo <= i < lo + n ==> ByteAt(d, v + (i - lo)) == Value(p[i])
  }

  /** The end of a read that is first clamped to the device. */
  ghost predicate DeviceStops(d: Disk, v: int, len: nat, n: nat, err: Error)
    requires ValidChain(d)
  {
    if v < 0 then n == 0 && err == NegativeOffset
    else if v >= d.virtualSize then n == 0 && err == EndOfFile
    else
      var m := Min(len, d.virtualSize - v);
      if n == m then err == if m < len then EndOfFile else Ok
      else Stops(d, v, m, n, err)
  }

  /** How one segment of a longer request may end. */
  ghost predicate SegmentStops(d: Disk, v: nat, len: nat, n: nat, err: Error)
    requires ValidChain(d)
  {
    n <= len && (err == Ok ==> n > 0) && (err != Ok ==> Stops(d, v, len, n, err))
  }

  lemma StopsLater(d: Disk, v: nat, len: nat, total: nat, n: nat, err: Error)
    requires ValidChain(d) && total <= len
    requires Stops(d, v + total, len - total, n, err)
    ensures Stops(d, v, len, total + n, err)
  {
  }

  /** A part that stopped short of its own end leaves the whole request short. */
  lemma StopsWithin(d: Disk, v: nat, part: nat, len: nat, n: nat, err: Error)
    requires ValidChain(d) && part <= len && err != Ok
    requires Stops(d, v, part, n, err)
    ensures Stops(d, v, len, n, err)
  {
  }

  /** A part [start, end) of a request that stopped short stops the request there. */
  lemma StopsInside(d: Disk, v: nat, len: nat, start: nat, end: nat, n: nat, err: Error)
    requires ValidChain(d) && start <= end <= len && err != Ok
    requires Stops(d, v + start, end - start, n, err)
    ensures Stops(d, v, len, start + n, err)
  {
    StopsWithin(d, v + start, end - start, len - start, n, err);
    StopsLater(d, v, len, start, n, err);
  }

  /** A request whose every byte was delivered. */
  lemma StopsFull(d: Disk, v: nat, len: nat)
    requires ValidChain(d)
    ensures Stops(d, v, len, len, Ok)
  {
  }

  /** A request given up before its first byte, because of an unreadable one. */
  lemma StopsUnread(d: Disk, v: nat, len: nat, k: nat, err: Error)
    requires ValidChain(d) && k < len && ByteAt(d, v + k) == Unreadable
    requires err != Ok && err != ParentRequired
    ensures Stops(d, v, len, 0, err)
  {
  }

  lemma HoldsNone(d: Disk, v: nat, p: array<byte>, lo: nat)
    requires ValidChain(d) && lo <= p.Length
    ensures Holds(d, v, p, lo, 0)
  {
  }

  lemma StopsBounds(d: Disk, v: nat, len: nat, n: nat, err: Error)
    requires ValidChain(d) && Stops(d, v, len, n, err)
    ensures n <= len && (err == Ok <==> n == len)
  {
  }

  // ---------------------------------------------------------------- block readers

  /** The image read by its own block reader: no parent, no resolver. */
  function Standalone(d: Disk): (e: Disk)
    requires ValidImage(d) && !d.table.Flat?
    ensures ValidChain(e) && !e.IsDifferencing()
  {
    d.(diskType := Dynamic, parent := None)
  }

  /** Where the image itself supplies a byte, its block reader delivers that byte. */
  lemma OwnByte(d: Disk, v: nat)
    requires ValidChain(d) && !d.table.Flat? && VerdictAt(d, v).Own?
    ensures ByteAt(Standalone(d), v) == ByteAt(d, v)
  {
    assert VerdictAt(Standalone(d), v) == VerdictAt(d, v);
  }

  /** A block reader numbers blocks in 32 bits. */
  function BlockIndex(blockSize: nat, v: nat): Uint32
    requires blockSize > 0
  {
    WrapU32(v / blockSize)
  }

  /** The number is the block's own exactly below 2^32 blocks; the first byte past them is
      taken for the first byte of block 0. */
  lemma BlockIndexWraps(blockSize: nat, v: nat)
    requires blockSize > 0
    ensures BlockIndex(blockSize, v) == v / blockSize <==> v < blockSize * TWO_32
    ensures BlockIndex(blockSize, blockSize * TWO_32) == 0
    ensures (blockSize * TWO_32) % blockSize == 0
  {
    QuotientBelow(v, blockSize, TWO_32);
    QuotientIs(blockSize * TWO_32, blockSize, TWO_32);
  }

  /** The requests whose blocks all have a number. */
  predicate Numbered(d: Disk, v: nat, len: nat) {
    v + len <= d.blockSize * TWO_32
  }

  /** VHDBlockReader.ReadAt and VHDXBlockReader.ReadAt. */
  method BlockReadAt(d: Disk, p: array<byte>, lo: nat, hi: nat, v: nat) returns (n: nat, err: Error)
    requires ValidChain(d) && !d.table.Flat? && !d.IsDifferencing()
    requires lo <= hi <= p.Length && Numbered(d, v, hi - lo)
    modifies p
    ensures Stops(d, v, hi - lo, n, err) && Holds(d, v, p, lo, n)
    ensures forall i :: 0 <= i < p.Length && !(lo <= i < hi) ==> p[i] == old(p[i])
  {
    hide ByteAt;
    n := 0;
    while n < hi - lo
      invariant n <= hi - lo && Holds(d, v, p, lo, n)
      invariant forall i :: 0 <= i < p.Length && !(lo <= i < hi) ==> p[i] == old(p[i])
    {
      var m, e := BlockReadSegment(d, p, lo + n, hi, v + n);
      if e != Ok {
        StopsLater(d, v, hi - lo, n, m, e);
        return n + m, e;
      }
      n := n + m;
    }
    return n, Ok;
  }

  /** The part of a request that lies in the block it starts in. */
  function SegmentLength(d: Disk, v: nat, len: nat): (n: nat)
    requires ValidImage(d) && !d.table.Flat?
    ensures n <= len && (len > 0 ==> n > 0)
  {
    Min(len, d.blockSize - v % d.blockSize)
  }

  method BlockReadSegment(d: Disk, p: array<byte>, lo: nat, hi: nat, v: nat) returns (n: nat, err: Error)
    requires ValidChain(d) && !d.table.Flat? && !d.IsDifferencing()
    requires lo < hi <= p.Length && Numbered(d, v, hi - lo)
    modifies p
    ensures SegmentStops(d, v, hi - lo, n, err) && Holds(d, v, p, lo, n)
    ensures forall i :: 0 <= i < p.Length && !(lo <= i < hi) ==> p[i] == old(p[i])
  {
    var block, o := BlockIndex(d.blockSize, v), v % d.blockSize;
    BlockIndexWraps(d.blockSize, v);
    hide BlockIndex;
    if block >= |d.table.entries| {
      assert ByteAt(d, v) == Unreadable;
      return 0, EndOfFile;
    }
    var want := SegmentLength(d, v, hi - lo);
    var entry := d.table.entries[block];
    if !entry.isAllocated {
      WholeBlock(d, v, want);
      n, err := ReadRun(d, p, lo, lo + want, v, false, 0);
    } else if d.table.VhdxTable? && entry.state == BLOCK_PARTIALLY_PRESENT {
      n, err := ReadPartialBlock(d, p, lo, lo + want, v);
    } else {
      WholeBlock(d, v, want);
      n, err := ReadRun(d, p, lo, lo + want, v, true, entry.fileOffset + o);
    }
    if err != Ok {
      StopsWithin(d, v, want, hi - lo, n, err);
    }
  }

  /** A run of bytes that is contiguous in the image's own file, or not backed at all:
      one file read, or zeroes. */
  method ReadRun(d: Disk, p: array<byte>, lo: nat, hi: nat, v: nat, present: bool, at: nat) returns (n: nat, err: Error)
    requires ValidChain(d) && lo < hi <= p.Length
    requires AllIn(d, v, hi - lo, if present then InFile(0, d.path, at) else Hole)
    modifies p
    ensures Stops(d, v, hi - lo, n, err) && Holds(d, v, p, lo, n) && err != ParentRequired
    ensures forall i :: 0 <= i < p.Length && !(lo <= i < hi) ==> p[i] == old(p[i])
  {
    hide ByteAt;
    RunBytes(d, v, hi - lo, if present then InFile(0, d.path, at) else Hole);
    if !present {
      Clear(p, lo, hi);
      return hi - lo, Ok;
    }
    n, err := FileReadAt(d.source, p, lo, hi, at);
    if n > 0 {
      forall i | lo <= i < lo + n ensures p[i] == d.source[at + (i - lo)] {
        assert p[i] == p[lo..lo + n][i - lo];
      }
    }
    if n < hi - lo {
      assert ByteAt(d, v + n) == Unreadable;
    }
  }

  /** The bytes of a range that lies in one run. */
  lemma RunBytes(d: Disk, v: nat, len: nat, first: Place)
    requires ValidChain(d) && AllIn(d, v, len, first)
    requires first == Hole || (first.InFile? && first.link == 0 && first.at >= 0)
    ensures forall i :: v <= i < v + len ==>
      ByteAt(d, i) == if first == Hole then Value(0)
        else if first.at + (i - v) < |d.source| then Value(d.source[first.at + (i - v)]) else Unreadable
  {
  }

  /** A block of a disk without parents that is either wholly present or absent. */
  lemma WholeBlock(d: Disk, v: nat, want: nat)
    requires ValidChain(d) && !d.table.Flat? && !d.IsDifferencing()
    requires v % d.blockSize + want <= d.blockSize && v / d.blockSize < |d.table.entries|
    requires d.table.VhdTable? || d.table.entries[v / d.blockSize].state != BLOCK_PARTIALLY_PRESENT
    ensures AllIn(d, v, want,
      if d.table.entries[v / d.blockSize].isAllocated
      then InFile(0, d.path, d.table.entries[v / d.blockSize].fileOffset + v % d.blockSize) else Hole)
  {
    BlockSpan(d, v, want);
  }

  /** The place k bytes further on in the same run. */
  function Along(p: Place, k: int): Place {
    if p.InFile? then p.(at := p.at + k) else p
  }

  /** Every byte of the range lies in one run that starts at `first`. */
  ghost predicate AllIn(d: Disk, v: nat, len: nat, first: Place)
    requires ValidChain(d)
  {
    forall i :: v <= i < v + len ==> Locate(d, i) == Along(first, i - v)
  }

  /** The bytes of a request that lie in one block, addressed by block and offset. */
  lemma BlockSpan(d: Disk, v: nat, want: nat)
    requires ValidImage(d) && !d.table.Flat?
    requires v % d.blockSize + want <= d.blockSize
    ensures forall i :: v <= i < v + want ==>
      i / d.blockSize == v / d.blockSize && i % d.blockSize == v % d.blockSize + (i - v)
  {
    forall i | v <= i < v + want
      ensures i / d.blockSize == v / d.blockSize && i % d.blockSize == v % d.blockSize + (i - v)
    {
      SameBlock(d.blockSize, v, i - v);
    }
  }

  /** What a partially present block of a disk without parents says about one sector. */
  lemma PartialSector(d: Disk, v: nat, len: nat, span: Span, from: nat, to: nat, s: nat, present: bool)
    requires ValidChain(d) && d.table.VhdxTable? && !d.IsDifferencing()
    requires SpanOf(d, v, len, span) && from <= to <= len
    requires d.table.entries[span.block].state == BLOCK_PARTIALLY_PRESENT
    requires from == SectorEdge(d.sectorSize, span.o, len, s) && to == SectorEdge(d.sectorSize, span.o, len, s + 1)
    requires span.first <= s && SectorBit(d, span.block, s) == Some(present)
    ensures AllIn(d, v + from, to - from,
      if present then InFile(0, d.path, d.table.entries[span.block].fileOffset + span.o + from) else Hole)
  {
    SectorSpan(d.sectorSize, span.o, len);
    forall i | v + from <= i < v + to
      ensures i / d.blockSize == span.block && i % d.blockSize == span.o + (i - v)
      ensures (i % d.blockSize) / d.sectorSize == s
    {
      SameBlock(d.blockSize, v, i - v);
      QuotientIs(span.o + (i - v), d.sectorSize, s);
    }
  }

  /** A bitmap that cannot be read makes the last byte of the request unreadable. */
  lemma LastSectorFaults(d: Disk, v: nat, len: nat, span: Span)
    requires ValidChain(d) && !d.table.Flat? && SpanOf(d, v, len, span)
    requires d.table.VhdTable? ==> d.IsDifferencing() && d.table.entries[span.block].isAllocated
    requires d.table.VhdxTable? ==> d.table.entries[span.block].state == BLOCK_PARTIALLY_PRESENT
    requires SectorBit(d, span.block, span.last) == None
    ensures ByteAt(d, v + len - 1) == Unreadable
  {
    SameBlock(d.blockSize, v, len - 1);
  }

  /** readPartialBlock: one bitmap load, then sector by sector either a file read or
      zeroes. */
  method ReadPartialBlock(d: Disk, p: array<byte>, lo: nat, hi: nat, v: nat) returns (n: nat, err: Error)
    requires ValidChain(d) && d.table.VhdxTable? && !d.IsDifferencing()
    requires lo < hi <= p.Length && v % d.blockSize + (hi - lo) <= d.blockSize
    requires v / d.blockSize < |d.table.entries|
    requires d.table.entries[v / d.blockSize].state == BLOCK_PARTIALLY_PRESENT
    modifies p
    ensures Stops(d, v, hi - lo, n, err) && Holds(d, v, p, lo, n)
    ensures forall i :: 0 <= i < p.Length && !(lo <= i < hi) ==> p[i] == old(p[i])
  {
    hide Stops, Holds, ByteAt, SectorBit;
    var ss, len, block, o := d.sectorSize, hi - lo, v / d.blockSize, v % d.blockSize;
    var chunkIndex := block / d.table.chunkRatio;
    var startSector, endSector := SectorBounds(ss, o, len);
    var span := Span(block, o, startSector, endSector - 1);

    var bitmapOffset := -1;
    if chunkIndex < |d.table.bitmapOffsets| {
      bitmapOffset := d.table.bitmapOffsets[chunkIndex];
    }
    if bitmapOffset < 0 {
      NoBitmap(d, v, len);
      n, err := ReadRun(d, p, lo, hi, v, false, 0);
      return;
    }
    var slice, firstByte, e := LoadSlice(d, block, startSector, endSector - 1, bitmapOffset);
    if e != Ok {
      LastSectorFaults(d, v, len, span);
      StopsUnread(d, v, len, len - 1, e);
      HoldsNone(d, v, p, lo);
      return 0, e;
    }
    n, err := ReadSectors(d, p, lo, hi, v, span, firstByte, slice);
  }

  /** The part of a chunk's bitmap that readPartialBlock loads. */
  method LoadSlice(d: Disk, block: nat, first: nat, last: nat, base: nat)
    returns (slice: seq<byte>, firstByte: nat, err: Error)
    requires ChunkBitmapAt(d, block, base) && first <= last
    ensures err == Ok ==> forall s :: first <= s <= last ==> SliceAnswers(d, block, s, firstByte, slice)
    ensures err != Ok ==> err != ParentRequired && SectorBit(d, block, last) == None
  {
    BitPosMonotone(d, block, first, last);
    var firstBit, lastBit := BitPos(d, block, first), BitPos(d, block, last);
    firstByte := firstBit / 8;
    var bitmap := new byte[lastBit / 8 - firstByte + 1];
    var _, e := FileReadAt(d.source, bitmap, 0, bitmap.Length, base + firstByte);
    slice := bitmap[..];
    if e != Ok {
      UnloadedBitmap(d, block, last, base);
      return slice, firstByte, e;
    }
    assert slice == d.source[base + firstByte..base + firstByte + |slice|];
    LoadedBitmap(d, block, first, last, slice, base);
    return slice, firstByte, Ok;
  }

  /** A request inside one block: the block, the offset in it, and the sectors touched. */
  datatype Span = Span(block: nat, o: nat, first: nat, last: nat)

  ghost predicate SpanOf(d: Disk, v: nat, len: nat, span: Span)
    requires ValidImage(d) && !d.table.Flat?
  {
    && 0 < len
    && span.block == v / d.blockSize < |d.table.entries| && span.o == v % d.blockSize
    && span.o + len <= d.blockSize
    && span.first == span.o / d.sectorSize && span.last == (span.o + len - 1) / d.sectorSize
  }

  function SpanFor(d: Disk, v: nat, len: nat): (span: Span)
    requires ValidImage(d) && !d.table.Flat? && 0 < len
    requires v / d.blockSize < |d.table.entries| && v % d.blockSize + len <= d.blockSize
    ensures SpanOf(d, v, len, span) && span.block == v / d.blockSize
  {
    var o := v % d.blockSize;
    Span(v / d.blockSize, o, o / d.sectorSize, (o + len - 1) / d.sectorSize)
  }

  /** The sector loop of readPartialBlock, once the bitmap bytes are in memory. */
  method ReadSectors(d: Disk, p: array<byte>, lo: nat, hi: nat, v: nat, span: Span, firstByte: nat, slice: seq<byte>)
    returns (n: nat, err: Error)
    requires ValidChain(d) && d.table.VhdxTable? && !d.IsDifferencing()
    requires lo < hi <= p.Length && SpanOf(d, v, hi - lo, span)
    requires span.block < |d.table.entries| && d.table.entries[span.block].state == BLOCK_PARTIALLY_PRESENT
    requires forall s :: span.first <= s <= span.last ==> SliceAnswers(d, span.block, s, firstByte, slice)
    modifies p
    ensures Stops(d, v, hi - lo, n, err) && Holds(d, v, p, lo, n)
    ensures forall i :: 0 <= i < p.Length && !(lo <= i < hi) ==> p[i] == old(p[i])
  {
    hide ByteAt, SpanOf, SliceAnswers, SectorEdge, SectorBit, AllIn;
    var s, written := span.first, 0;
    SectorEdges(d, v, hi - lo, span);
    while s <= span.last
      invariant span.first <= s <= span.last + 1
      invariant written == SectorEdge(d.sectorSize, span.o, hi - lo, s) <= hi - lo
      invariant Holds(d, v, p, lo, written)
      invariant forall i :: 0 <= i < p.Length && !(lo <= i < hi) ==> p[i] == old(p[i])
    {
      var sectorStart, sectorEnd := RunWindow(d, v, hi - lo, span, s, s + 1);
      var present := SlicePresent(d, span.block, s, firstByte, slice);
      PartialSector(d, v, hi - lo, span, sectorStart, sectorEnd, s, present);
      var _, e := ReadRun(d, p, lo + sectorStart, lo + sectorEnd, v + sectorStart, present,
                          d.table.entries[span.block].fileOffset + span.o + sectorStart);
      if e != Ok {
        return written, e;
      }
      written := written + (sectorEnd - sectorStart);
      s := s + 1;
    }
    return written, Ok;
  }

  method SlicePresent(d: Disk, block: nat, s: nat, firstByte: nat, slice: seq<byte>) returns (present: bool)
    requires ValidImage(d) && d.table.VhdxTable? && block < |d.table.entries|
    requires SliceAnswers(d, block, s, firstByte, slice)
    ensures SectorBit(d, block, s) == Some(present)
  {
    var bitPos := BitPos(d, block, s);
    present := TestBit(slice[bitPos / 8 - firstByte], bitPos % 8);
  }

  /** The bitmap bytes in hand answer for a sector what the file would. */
  ghost predicate SliceAnswers(d: Disk, block: nat, s: nat, firstByte: nat, slice: seq<byte>)
    requires ValidImage(d) && d.table.VhdxTable? && block < |d.table.entries|
  {
    && 0 <= BitPos(d, block, s) / 8 - firstByte < |slice|
    && SectorBit(d, block, s) == Some(TestBit(slice[BitPos(d, block, s) / 8 - firstByte], BitPos(d, block, s) % 8))
  }

  /** The bitmap of the chunk a block belongs to exists, and this is where it starts. */
  predicate ChunkBitmapAt(d: Disk, block: nat, base: nat) {
    && ValidImage(d) && d.table.VhdxTable? && block < |d.table.entries|
    && block / d.table.chunkRatio < |d.table.bitmapOffsets|
    && d.table.bitmapOffsets[block / d.table.chunkRatio] == base
  }

  /** A bitmap slice that was read answers every sector it was read for. */
  lemma LoadedBitmap(d: Disk, block: nat, first: nat, last: nat, slice: seq<byte>, base: nat)
    requires ChunkBitmapAt(d, block, base) && first <= last
    requires var b := BitPos(d, block, first) / 8;
      && |slice| == BitPos(d, block, last) / 8 - b + 1
      && base + b + |slice| <= |d.source|
      && slice == d.source[base + b..base + b + |slice|]
    ensures forall s :: first <= s <= last ==> SliceAnswers(d, block, s, BitPos(d, block, first) / 8, slice)
  {
  }

  /** A bitmap slice that could not be read leaves its last sector unanswered. */
  lemma UnloadedBitmap(d: Disk, block: nat, last: nat, base: nat)
    requires ChunkBitmapAt(d, block, base)
    requires base + BitPos(d, block, last) / 8 >= |d.source|
    ensures SectorBit(d, block, last) == None
  {
  }

  lemma NoBitmap(d: Disk, v: nat, len: nat)
    requires ValidChain(d) && d.table.VhdxTable? && !d.IsDifferencing()
    requires v % d.blockSize + len <= d.blockSize && v / d.blockSize < |d.table.entries|
    requires d.table.entries[v / d.blockSize].state == BLOCK_PARTIALLY_PRESENT
    requires var c := v / d.blockSize / d.table.chunkRatio; c >= |d.table.bitmapOffsets| || d.table.bitmapOffsets[c] < 0
    ensures AllIn(d, v, len, Hole)
  {
    BlockSpan(d, v, len);
  }

  /** The first sector a request touches and the one past its last. */
  method SectorBounds(ss: nat, o: nat, len: nat) returns (start: nat, end: nat)
    requires 0 < ss && 0 < len
    ensures start == o / ss && end == (o + len - 1) / ss + 1
    ensures start < end
  {
    SectorSpan(ss, o, len);
    start, end := o / ss, (o + len + ss - 1) / ss;
  }

  /** How much of a request lies before sector s. */
  function SectorEdge(ss: nat, o: nat, len: nat, s: nat): (e: int)
    requires 0 < ss
  {
    if s <= o / ss then 0 else Min(s * ss - o, len)
  }

  lemma SectorEdges(d: Disk, v: nat, len: nat, span: Span)
    requires ValidImage(d) && !d.table.Flat? && SpanOf(d, v, len, span)
    ensures span.first <= span.last
    ensures SectorEdge(d.sectorSize, span.o, len, span.first) == 0
    ensures SectorEdge(d.sectorSize, span.o, len, span.last + 1) == len
  {
    SectorSpan(d.sectorSize, span.o, len);
  }

  lemma EdgeOrder(ss: nat, o: nat, len: nat, s: nat, run: nat)
    requires 0 < ss && 0 < len && o / ss <= s < run && s <= (o + len - 1) / ss
    ensures s * ss < o + len && o < run * ss && s * ss < run * ss
    ensures s > o / ss ==> o < s * ss
    ensures s == o / ss ==> s * ss <= o
  {
    SectorSpan(ss, o, len);
    MulMonotone(o / ss + 1, run, ss);
    MulMonotone(s, (o + len - 1) / ss, ss);
    MulMonotone(s + 1, run, ss);
    if o / ss < s {
      SectorSpan(ss, s * ss, 1);
      QuotientIs(s * ss, ss, s);
      if s * ss <= o {
        QuotientMonotone(s * ss, o, ss);
      }
    }
  }

  /** A byte of the request between two sector edges lies in a sector between them. */
  lemma SectorBetween(ss: nat, o: nat, len: nat, s: nat, run: nat, x: nat)
    requires 0 < ss && x < len && o / ss <= s < run
    requires SectorEdge(ss, o, len, s) <= x < SectorEdge(ss, o, len, run)
    ensures s <= (o + x) / ss < run
  {
    if s == o / ss {
      QuotientMonotone(o, o + x, ss);
    } else {
      QuotientMonotone(s * ss, o + x, ss);
      QuotientIs(s * ss, ss, s);
    }
    QuotientMonotone(o + x, run * ss - 1, ss);
    QuotientIs(run * ss - 1, ss, run - 1);
  }

  /** The bytes of the sectors [s, run) inside a request. */
  method RunWindow(d: Disk, v: nat, len: nat, span: Span, s: nat, run: nat) returns (start: nat, end: nat)
    requires ValidImage(d) && !d.table.Flat? && SpanOf(d, v, len, span) && span.first <= s < run <= span.last + 1
    ensures start == SectorEdge(d.sectorSize, span.o, len, s) && end == SectorEdge(d.sectorSize, span.o, len, run)
    ensures start < end <= len
  {
    var ss, o := d.sectorSize, span.o;
    EdgeOrder(ss, o, len, s, run);
    start := if s * ss - o < 0 then 0 else s * ss - o;
    end := if run * ss - o > len then len else run * ss - o;
  }

  // ---------------------------------------------------------------- the sector bitmap of a differencing block

  /** The bitmap bytes covering some range of sectors. */
  datatype BitmapWindow = BitmapWindow(bytes: seq<byte>, firstByte: nat, msbFirst: bool, absent: bool)
  {
    predicate Present(bitPos: int) {
      if absent || bitPos < 0 then false
      else
        var i := bitPos / 8 - firstByte;
        if i < 0 || i >= |bytes| then false
        else if msbFirst then TestBit(bytes[i], 7 - bitPos % 8)
        else TestBit(bytes[i], bitPos % 8)
    }
  }

  /** The window answers for every sector of the range exactly what the bitmap says. */
  ghost predicate WindowCovers(d: Disk, block: nat, first: nat, last: nat, w: BitmapWindow)
    requires ValidImage(d) && !d.table.Flat? && block < |d.table.entries|
  {
    forall s :: first <= s <= last ==> SectorBit(d, block, s) == Some(w.Present(BitPos(d, block, s)))
  }

  /** Where a block's bitmap starts in the file: `None` when it has none. */
  method BitmapLocation(d: Disk, block: nat) returns (base: Option<nat>, msbFirst: bool, err: Error)
    requires ValidImage(d) && !d.table.Flat? && block < |d.table.entries|
    ensures msbFirst == d.table.VhdTable?
    ensures err == Ok || err == Invalid
    ensures err != Ok <==> d.table.VhdTable? && d.table.entries[block].fileOffset < d.table.sectorBitmapSize
    ensures err == Ok && d.table.VhdTable? ==>
      base == Some(d.table.entries[block].fileOffset - d.table.sectorBitmapSize)
    ensures d.table.VhdxTable? && base.Some? ==> ChunkBitmapAt(d, block, base.value)
    ensures d.table.VhdxTable? && base.None? ==> forall s :: SectorBit(d, block, s) == Some(false)
  {
    if d.table.VhdTable? {
      var offset := d.table.entries[block].fileOffset - d.table.sectorBitmapSize;
      if offset < 0 {
        return None, true, Invalid;
      }
      return Some(offset), true, Ok;
    }
    var chunkIndex := block / d.table.chunkRatio;
    if chunkIndex >= |d.table.bitmapOffsets| || d.table.bitmapOffsets[chunkIndex] < 0 {
      return None, false, Ok;
    }
    return Some(d.table.bitmapOffsets[chunkIndex]), false, Ok;
  }

  lemma BitPosMonotone(d: Disk, block: nat, s: nat, t: nat)
    requires ValidImage(d) && !d.table.Flat? && s <= t
    ensures BitPos(d, block, s) <= BitPos(d, block, t) && BitPos(d, block, s) / 8 <= BitPos(d, block, t) / 8
  {
  }

  /** loadBitmap: one read for a whole range of sectors. It fails only if the bit of the
      last sector cannot be read. */
  method LoadBitmap(d: Disk, block: nat, first: nat, last: nat) returns (w: BitmapWindow, err: Error)
    requires ValidImage(d) && !d.table.Flat? && block < |d.table.entries| && first <= last
    ensures err == Ok ==> WindowCovers(d, block, first, last, w)
    ensures err != Ok ==> err != ParentRequired && SectorBit(d, block, last) == None
  {
    w := BitmapWindow([], 0, false, true);
    var base, msbFirst, e := BitmapLocation(d, block);
    if e != Ok {
      return w, e;
    }
    if base.None? {
      return w, Ok;
    }
    var firstBit, lastBit := BitPos(d, block, first), BitPos(d, block, last);
    BitPosMonotone(d, block, first, last);
    var firstByte := firstBit / 8;
    var byteCount := lastBit / 8 - firstByte + 1;
    if d.table.VhdTable? && firstByte + byteCount > d.table.sectorBitmapSize {
      return w, Invalid;
    }
    var buf := new byte[byteCount];
    var _, re := FileReadAt(d.source, buf, 0, buf.Length, base.value + firstByte);
    if re != Ok {
      return w, re;
    }
    assert buf[..] == d.source[base.value + firstByte..base.value + firstByte + byteCount];
    w := BitmapWindow(buf[..], firstByte, msbFirst, false);
    WindowLoaded(d, block, first, last, base.value, w);
    return w, Ok;
  }

  lemma WindowLoaded(d: Disk, block: nat, first: nat, last: nat, base: nat, w: BitmapWindow)
    requires ValidImage(d) && !d.table.Flat? && block < |d.table.entries| && first <= last
    requires d.table.VhdxTable? ==> ChunkBitmapAt(d, block, base)
    requires d.table.VhdTable? ==> base == d.table.entries[block].fileOffset - d.table.sectorBitmapSize
    requires d.table.VhdTable? ==> BitPos(d, block, last) / 8 < d.table.sectorBitmapSize
    requires !w.absent && w.firstByte == BitPos(d, block, first) / 8 && w.msbFirst == d.table.VhdTable?
    requires |w.bytes| == BitPos(d, block, last) / 8 - w.firstByte + 1
    requires base + w.firstByte + |w.bytes| <= |d.source|
    requires w.bytes == d.source[base + w.firstByte..base + w.firstByte + |w.bytes|]
    ensures WindowCovers(d, block, first, last, w)
  {
    forall s | first <= s <= last ensures SectorBit(d, block, s) == Some(w.Present(BitPos(d, block, s))) {
      BitPosMonotone(d, block, first, s);
      BitPosMonotone(d, block, s, last);
    }
  }

  /** The longest run of sectors from s on with one answer. */
  method RunEnd(d: Disk, block: nat, first: nat, last: nat, w: BitmapWindow, s: nat) returns (present: bool, run: nat)
    requires ValidImage(d) && !d.table.Flat? && block < |d.table.entries|
    requires first <= s <= last && WindowCovers(d, block, first, last, w)
    ensures s < run <= last + 1
    ensures forall t :: s <= t < run ==> SectorBit(d, block, t) == Some(present)
    ensures run <= last ==> SectorBit(d, block, run) == Some(!present)
  {
    present := w.Present(BitPos(d, block, s));
    run := s + 1;
    while run <= last && w.Present(BitPos(d, block, run)) == present
      invariant s < run <= last + 1
      invariant forall t :: s <= t < run ==> SectorBit(d, block, t) == Some(present)
    {
      run := run + 1;
    }
  }

  /** A run of sectors of one block, both ends included. */
  datatype SectorRun = SectorRun(first: nat, last: nat, inChild: bool)

  /** The runs tile [first, last] in order, each is what the bitmap says throughout, and
      neighbours differ, so none can be extended. */
  ghost predicate RunsTile(d: Disk, block: nat, first: nat, last: nat, runs: seq<SectorRun>)
    requires ValidImage(d) && !d.table.Flat? && block < |d.table.entries|
  {
    && runs != [] && runs[0].first == first && runs[|runs| - 1].last == last
    && (forall k :: 0 <= k < |runs| ==> runs[k].first <= runs[k].last)
    && (forall k :: 0 < k < |runs| ==> runs[k].first == runs[k - 1].last + 1 && runs[k].inChild != runs[k - 1].inChild)
    && (forall k, t :: 0 <= k < |runs| && runs[k].first <= t <= runs[k].last ==>
          SectorBit(d, block, t) == Some(runs[k].inChild))
  }

  /** Resolver.SectorRuns. */
  method SectorRuns(d: Disk, block: nat, first: nat, last: nat) returns (runs: seq<SectorRun>, err: Error)
    requires ValidImage(d) && !d.table.Flat? && block < |d.table.entries|
    ensures err == Ok ==> RunsTile(d, block, first, last, runs)
    ensures err != Ok <==> last < first || exists s :: first <= s <= last && SectorBit(d, block, s) == None
  {
    runs := [];
    if last < first {
      return runs, Invalid;
    }
    var w, e := LoadBitmap(d, block, first, last);
    if e != Ok {
      return runs, e;
    }
    hide SectorBit, BitPos, WindowCovers, RunsTile;
    var s := first;
    while s <= last
      invariant first <= s <= last + 1
      invariant runs == [] <==> s == first
      invariant runs != [] ==> RunsTile(d, block, first, s - 1, runs)
      invariant runs != [] && s <= last ==> SectorBit(d, block, s) == Some(!runs[|runs| - 1].inChild)
    {
      var present, run := RunEnd(d, block, first, last, w, s);
      assert SectorBit(d, block, s) == Some(present);
      RunsGrow(d, block, first, runs, SectorRun(s, run - 1, present));
      runs := runs + [SectorRun(s, run - 1, present)];
      s := run;
    }
    assert forall t :: first <= t <= last ==> SectorBit(d, block, t).Some? by {
      WindowAnswers(d, block, first, last, w);
    }
    return runs, Ok;
  }

  lemma WindowAnswers(d: Disk, block: nat, first: nat, last: nat, w: BitmapWindow)
    requires ValidImage(d) && !d.table.Flat? && block < |d.table.entries| && WindowCovers(d, block, first, last, w)
    ensures forall t :: first <= t <= last ==> SectorBit(d, block, t).Some?
  {
    hide SectorBit;
  }

  lemma RunsGrow(d: Disk, block: nat, first: nat, runs: seq<SectorRun>, r: SectorRun)
    requires ValidImage(d) && !d.table.Flat? && block < |d.table.entries| && r.first <= r.last
    requires if runs == [] then r.first == first
      else r.first > first && RunsTile(d, block, first, r.first - 1, runs) && r.inChild != runs[|runs| - 1].inChild
    requires forall t :: r.first <= t <= r.last ==> SectorBit(d, block, t) == Some(r.inChild)
    ensures RunsTile(d, block, first, r.last, runs + [r])
  {
    hide SectorBit;
  }

  // ---------------------------------------------------------------- the differencing resolver

  /** Where a differencing disk's block lives. */
  datatype Disposition = FromChild | FromParent | ReadsZero | PerSector

  /** Resolver.classify, for a block the table has. */
  function Classify(d: Disk, block: nat): Disposition
    requires Formed(d) && !d.table.Flat? && block < |d.table.entries|
  {
    var e := d.table.entries[block];
    if d.table.VhdTable? then
      if e.isAllocated then PerSector else FromParent
    else if e.state == BLOCK_FULLY_PRESENT then FromChild
    else if e.state == BLOCK_PARTIALLY_PRESENT then PerSector
    else if e.state == BLOCK_NOT_PRESENT then FromParent
    else ReadsZero
  }

  /** All bytes of the range are judged alike by the disk's own table. */
  ghost predicate AllJudged(d: Disk, v: nat, len: nat, first: Verdict)
    requires ValidImage(d)
  {
    forall i :: v <= i < v + len ==> VerdictAt(d, i) == if first.Own? then Own(first.at + (i - v)) else first
  }

  lemma ClassifiedBlock(d: Disk, v: nat, len: nat)
    requires ValidImage(d) && !d.table.Flat? && d.IsDifferencing()
    requires v / d.blockSize < |d.table.entries| && v % d.blockSize + len <= d.blockSize
    requires !Classify(d, v / d.blockSize).PerSector?
    ensures AllJudged(d, v, len, match Classify(d, v / d.blockSize)
      case FromChild => Own(d.table.entries[v / d.blockSize].fileOffset + v % d.blockSize)
      case FromParent => Beneath
      case _ => Override)
  {
    BlockSpan(d, v, len);
  }

  /** A run of sectors with one answer is one run of bytes. */
  lemma SectorRunJudged(d: Disk, v: nat, len: nat, span: Span, s: nat, run: nat, from: nat, to: nat, present: bool)
    requires ValidImage(d) && !d.table.Flat? && d.IsDifferencing()
    requires SpanOf(d, v, len, span) && Classify(d, span.block).PerSector?
    requires span.first <= s < run && from <= to
    requires from == SectorEdge(d.sectorSize, span.o, len, s) && to == SectorEdge(d.sectorSize, span.o, len, run)
    requires forall t :: s <= t < run ==> SectorBit(d, span.block, t) == Some(present)
    ensures AllJudged(d, v + from, to - from,
      if present then Own(d.table.entries[span.block].fileOffset + span.o + from) else Beneath)
  {
    forall i | v + from <= i < v + to
      ensures i / d.blockSize == span.block && i % d.blockSize == span.o + (i - v)
      ensures s <= (i % d.blockSize) / d.sectorSize < run
    {
      SameBlock(d.blockSize, v, i - v);
      SectorBetween(d.sectorSize, span.o, len, s, run, i - v);
    }
  }

  /** Reading a run the disk owns through its own block reader. */
  method ReadChild(d: Disk, p: array<byte>, lo: nat, hi: nat, v: nat, at: nat) returns (n: nat, err: Error)
    requires ValidChain(d) && !d.table.Flat? && lo < hi <= p.Length && v + (hi - lo) <= d.virtualSize
    requires AllJudged(d, v, hi - lo, Own(at))
    modifies p
    ensures Stops(d, v, hi - lo, n, err) && Holds(d, v, p, lo, n)
    ensures forall i :: 0 <= i < p.Length && !(lo <= i < hi) ==> p[i] == old(p[i])
  {
    forall i | v <= i < v + (hi - lo) ensures ByteAt(Standalone(d), i) == ByteAt(d, i) {
      OwnByte(d, i);
    }
    hide ByteAt;
    n, err := BlockReadAt(Standalone(d), p, lo, hi, v);
    SameCells(Standalone(d), d, v, hi - lo, n, err);
    assert Holds(Standalone(d), v, p, lo, n);
  }

  lemma SameCells(e: Disk, d: Disk, v: nat, len: nat, n: nat, err: Error)
    requires ValidChain(d) && ValidChain(e)
    requires forall i :: v <= i < v + len ==> ByteAt(e, i) == ByteAt(d, i)
    requires Stops(e, v, len, n, err)
    ensures Stops(d, v, len, n, err)
  {
    hide ByteAt;
    if err != Ok && err != ParentRequired {
      var i :| v <= i < v + len && ByteAt(e, i) == Unreadable;
      assert ByteAt(d, i) == Unreadable;
    }
  }

  /** Resolver.readParent: a range the disk leaves to its parent, failing closed when no
      parent is attached. */
  method ReadParent(d: Disk, p: array<byte>, lo: nat, hi: nat, v: nat) returns (n: nat, err: Error)
    requires ValidChain(d) && lo < hi <= p.Length && v + (hi - lo) <= d.virtualSize
    requires AllJudged(d, v, hi - lo, Beneath)
    modifies p
    ensures Stops(d, v, hi - lo, n, err) && Holds(d, v, p, lo, n)
    ensures forall i :: 0 <= i < p.Length && !(lo <= i < hi) ==> p[i] == old(p[i])
    decreases d, 0
  {
    forall i | v <= i < v + (hi - lo)
      ensures ByteAt(d, i) == if d.parent.None? then NeedsParent else ByteAt(d.parent.value, i)
    {
      ByteBeneath(d, i);
    }
    hide ByteAt;
    if d.parent.None? {
      return 0, ParentRequired;
    }
    n, err := ReadAt(d.parent.value, p, lo, hi, v);
    SameCells(d.parent.value, d, v, hi - lo, n, err);
    assert Holds(d.parent.value, v, p, lo, n);
  }

  /** One run of sectors, from whichever disk backs it. */
  method ReadSectorRun(d: Disk, p: array<byte>, lo: nat, hi: nat, v: nat, present: bool, at: nat)
    returns (n: nat, err: Error)
    requires ValidChain(d) && !d.table.Flat? && d.IsDifferencing()
    requires lo < hi <= p.Length && v + (hi - lo) <= d.virtualSize
    requires AllJudged(d, v, hi - lo, if present then Own(at) else Beneath)
    modifies p
    ensures Stops(d, v, hi - lo, n, err) && Holds(d, v, p, lo, n)
    ensures forall i :: 0 <= i < p.Length && !(lo <= i < hi) ==> p[i] == old(p[i])
    decreases d, 1
  {
    hide ByteAt, AllJudged;
    if present {
      n, err := ReadChild(d, p, lo, hi, v, at);
    } else {
      n, err := ReadParent(d, p, lo, hi, v);
    }
  }

  /** Resolver.readPerSector. */
  method ReadPerSector(d: Disk, p: array<byte>, lo: nat, hi: nat, v: nat, span: Span) returns (n: nat, err: Error)
    requires ValidChain(d) && !d.table.Flat? && d.IsDifferencing()
    requires lo < hi <= p.Length && v + (hi - lo) <= d.virtualSize
    requires SpanOf(d, v, hi - lo, span) && span.block < |d.table.entries| && Classify(d, span.block).PerSector?
    modifies p
    ensures Stops(d, v, hi - lo, n, err) && Holds(d, v, p, lo, n)
    ensures forall i :: 0 <= i < p.Length && !(lo <= i < hi) ==> p[i] == old(p[i])
    decreases d, 2
  {
    hide ByteAt, SpanOf, SectorEdge, SectorBit, WindowCovers, AllJudged, VerdictAt, Stops;
    SectorEdges(d, v, hi - lo, span);
    var w, e := LoadBitmap(d, span.block, span.first, span.last);
    if e != Ok {
      LastSectorFaults(d, v, hi - lo, span);
      StopsUnread(d, v, hi - lo, hi - lo - 1, e);
      return 0, e;
    }
    var s, written := span.first, 0;
    while s <= span.last
      invariant span.first <= s <= span.last + 1
      invariant written == SectorEdge(d.sectorSize, span.o, hi - lo, s) <= hi - lo
      invariant Holds(d, v, p, lo, written)
      invariant forall i :: 0 <= i < p.Length && !(lo <= i < hi) ==> p[i] == old(p[i])
    {
      var present, run := RunEnd(d, span.block, span.first, span.last, w, s);
      var start, end := RunWindow(d, v, hi - lo, span, s, run);
      SectorRunJudged(d, v, hi - lo, span, s, run, start, end, present);
      var m;
      var at := d.table.entries[span.block].fileOffset + span.o + start;
      m, e := ReadSectorRun(d, p, lo + start, lo + end, v + start, present, at);
      StopsBounds(d, v + start, end - start, m, e);
      if e != Ok {
        StopsInside(d, v, hi - lo, start, end, m, e);
        return written + m, e;
      }
      written := written + m;
      s := run;
    }
    StopsFull(d, v, hi - lo);
    return written, Ok;
  }

  /** Resolver.readSegment: one region within a single block. */
  method ReadSegment(d: Disk, p: array<byte>, lo: nat, hi: nat, v: nat) returns (n: nat, err: Error)
    requires ValidChain(d) && !d.table.Flat? && d.IsDifferencing()
    requires lo < hi <= p.Length && v + (hi - lo) <= d.virtualSize
    modifies p
    ensures SegmentStops(d, v, hi - lo, n, err) && Holds(d, v, p, lo, n)
    ensures forall i :: 0 <= i < p.Length && !(lo <= i < hi) ==> p[i] == old(p[i])
    decreases d, 3
  {
    var block, o := v / d.blockSize, v % d.blockSize;
    if block >= |d.table.entries| {
      assert ByteAt(d, v) == Unreadable;
      return 0, EndOfFile;
    }
    hide ByteAt, AllJudged, SpanOf, VerdictAt;
    var want := SegmentLength(d, v, hi - lo);
    var disposition := Classify(d, block);
    if !disposition.PerSector? {
      ClassifiedBlock(d, v, want);
    }
    match disposition {
      case FromChild =>
        n, err := ReadChild(d, p, lo, lo + want, v, d.table.entries[block].fileOffset + o);
      case FromParent =>
        n, err := ReadParent(d, p, lo, lo + want, v);
      case ReadsZero =>
        OverrideBytes(d, v, want);
        Clear(p, lo, lo + want);
        n, err := want, Ok;
      case PerSector =>
        var span := SpanFor(d, v, want);
        n, err := ReadPerSector(d, p, lo, lo + want, v, span);
    }
    if err != Ok {
      StopsWithin(d, v, want, hi - lo, n, err);
    }
  }

  lemma OverrideBytes(d: Disk, v: nat, len: nat)
    requires ValidChain(d) && AllJudged(d, v, len, Override)
    ensures forall i :: v <= i < v + len ==> ByteAt(d, i) == Value(0)
  {
  }

  /** Resolver.ReadAt. */
  method ResolverReadAt(d: Disk, p: array<byte>, lo: nat, hi: nat, v: int) returns (n: nat, err: Error)
    requires ValidChain(d) && !d.table.Flat? && d.IsDifferencing() && lo <= hi <= p.Length
    modifies p
    ensures lo + n <= hi && DeviceStops(d, v, hi - lo, n, err) && (n > 0 ==> v >= 0 && Holds(d, v, p, lo, n))
    ensures forall i :: 0 <= i < p.Length && !(lo <= i < hi) ==> p[i] == old(p[i])
    decreases d, 4
  {
    if v < 0 {
      return 0, NegativeOffset;
    }
    if v >= d.virtualSize {
      return 0, EndOfFile;
    }
    hide ByteAt, Stops;
    var end, clamped := hi, false;
    if hi - lo > d.virtualSize - v {
      end := lo + (d.virtualSize - v);
      clamped := true;
    }
    n := 0;
    while n < end - lo
      invariant n <= end - lo && Holds(d, v, p, lo, n)
      invariant forall i :: 0 <= i < p.Length && !(lo <= i < hi) ==> p[i] == old(p[i])
    {
      var m, e := ReadSegment(d, p, lo + n, end, v + n);
      if e != Ok {
        StopsLater(d, v, end - lo, n, m, e);
        StopsBounds(d, v, end - lo, n + m, e);
        return n + m, e;
      }
      n := n + m;
    }
    return n, if clamped then EndOfFile else Ok;
  }

  /** VirtualDisk.ReadAt. */
  method ReadAt(d: Disk, p: array<byte>, lo: nat, hi: nat, v: int) returns (n: nat, err: Error)
    requires ValidChain(d) && lo <= hi <= p.Length
    modifies p
    ensures lo + n <= hi && DeviceStops(d, v, hi - lo, n, err) && (n > 0 ==> v >= 0 && Holds(d, v, p, lo, n))
    ensures forall i :: 0 <= i < p.Length && !(lo <= i < hi) ==> p[i] == old(p[i])
    decreases d, 5
  {
    if v < 0 {
      return 0, NegativeOffset;
    }
    if v >= d.virtualSize {
      return 0, EndOfFile;
    }
    if hi == lo {
      return 0, Ok;
    }
    hide ByteAt, Stops;
    var end, clamped := hi, false;
    if hi - lo > d.virtualSize - v {
      end := lo + (d.virtualSize - v);
      clamped := true;
    }
    if d.table.Flat? {
      FlatPlaces(d, v, end - lo);
      n, err := ReadRun(d, p, lo, end, v, true, v);
    } else if d.IsDifferencing() {
      n, err := ResolverReadAt(d, p, lo, end, v);
    } else {
      n, err := BlockReadAt(d, p, lo, end, v);
    }
    if err == Ok && clamped {
      err := EndOfFile;
    }
  }

  lemma FlatPlaces(d: Disk, v: nat, len: nat)
    requires ValidChain(d) && d.table.Flat?
    ensures AllIn(d, v, len, InFile(0, d.path, v))
  {
  }
}
