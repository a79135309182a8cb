/** Extent mapping: rawExtents and everything it calls, VirtualDisk.Extents, and the
    chunked whole-disk walk. */
module ExtentMap {
  import opened Bytes
  import opened Division
  import opened Words
  import opened Images
  import opened ReadPath
  import opened Extents

  // ---------------------------------------------------------------- specification

  /** One byte of the disk as an extent, when the chain is walked from index c. */
  function UnitOf(p: Place, c: nat, v: int): Extent {
    match p
    case InFile(link, path, at) => Extent(v, 1, Mapped, at, c + link, path)
    case Hole => Extent(v, 1, Zero, 0, 0, "")
    case Cleared(link, path) => Extent(v, 1, ZeroedByChild, 0, c + link, path)
    case Missing(link) => Extent(v, 1, Unresolved, 0, c + link, "")
    case Fault => Extent(v, 1, Zero, 0, 0, "")  // only used where NoFault holds
  }

  /** A range of the disk, one extent per byte, straight from `Locate`. */
  function Units(d: Disk, c: nat, v: nat, len: nat): (us: seq<Extent>)
    requires ValidChain(d)
    ensures |us| == len
    ensures forall i :: 0 <= i < len ==> us[i] == UnitOf(Locate(d, v + i), c, v + i)
  {
    seq(len, (i: nat) => UnitOf(Locate(d, v + i), c, v + i))
  }

  /** The extent map of a range: the coarsest list that says what each byte is. */
  function MapOf(d: Disk, v: nat, len: nat): seq<Extent>
    requires ValidChain(d)
  {
    Merge(Units(d, 0, v, len))
  }

  ghost predicate NoFault(d: Disk, v: nat, len: nat)
    requires ValidChain(d)
  {
    forall i :: v <= i < v + len ==> Locate(d, i) != Fault
  }

  /** An unmerged list is right for a range when its bytes are the range's bytes. */
  ghost predicate Raw(d: Disk, c: nat, v: nat, len: nat, es: seq<Extent>)
    requires ValidChain(d)
  {
    NoFault(d, v, len) && Positive(es) && Explode(es) == Units(d, c, v, len)
  }

  lemma UnitsConcat(d: Disk, c: nat, v: nat, a: nat, b: nat)
    requires ValidChain(d)
    ensures Units(d, c, v, a) + Units(d, c, v + a, b) == Units(d, c, v, a + b)
  {
    hide Locate;
    var whole, back := Units(d, c, v, a + b), Units(d, c, v + a, b);
    forall i | a <= i < a + b ensures whole[i] == back[i - a] {
      assert v + a + (i - a) == v + i;
    }
  }

  lemma RawConcat(d: Disk, c: nat, v: nat, a: nat, b: nat, x: seq<Extent>, y: seq<Extent>)
    requires ValidChain(d)
    requires Raw(d, c, v, a, x) && Raw(d, c, v + a, b, y)
    ensures Raw(d, c, v, a + b, x + y)
  {
    hide Locate, Units, Explode;
    UnitsConcat(d, c, v, a, b);
    ExplodeConcat(x, y);
  }

  /** A run with one answer is one extent. */
  lemma RawOne(d: Disk, c: nat, v: nat, len: nat, first: Place, e: Extent)
    requires ValidChain(d) && 0 < len && first != Fault
    requires AllIn(d, v, len, first)
    requires e.virtualOffset == v && e.length == len
    requires Normalize(e) == UnitOf(first, c, v).(length := len)
    ensures Raw(d, c, v, len, [e])
  {
    hide Locate;
    assert Explode([e]) == Explode([]) + BytesOf(e) by {
      assert [e][..0] == [];
    }
    var bytes := BytesOf(e);
    forall i | 0 <= i < len ensures bytes[i] == Units(d, c, v, len)[i] {
      assert Locate(d, v + i) == Along(first, i);
      assert bytes[i] == ByteOf(Normalize(e), v + i);
    }
    assert Explode([e]) == Units(d, c, v, len);
  }

  /** A range the disk leaves to its parent has the parent's bytes, one link further. */
  lemma RawBeneath(d: Disk, c: nat, v: nat, len: nat, es: seq<Extent>)
    requires ValidChain(d) && d.parent.Some? && AllJudged(d, v, len, Beneath)
    ensures Raw(d.parent.value, c + 1, v, len, es) ==> Raw(d, c, v, len, es)
    ensures NoFault(d, v, len) <==> NoFault(d.parent.value, v, len)
  {
    hide VerdictAt;
    forall i | v <= i < v + len ensures Locate(d, i) == Deeper(Locate(d.parent.value, i)) {
      assert VerdictAt(d, i) == Beneath;
    }
    hide Locate;
    forall i | 0 <= i < len ensures Units(d, c, v, len)[i] == Units(d.parent.value, c + 1, v, len)[i] {
      assert Locate(d, v + i) == Deeper(Locate(d.parent.value, v + i));
    }
    assert Units(d, c, v, len) == Units(d.parent.value, c + 1, v, len);
    forall i | v <= i < v + len ensures Locate(d, i) == Fault <==> Locate(d.parent.value, i) == Fault {
      assert Locate(d, i) == Deeper(Locate(d.parent.value, i));
    }
  }

  lemma JudgedPlaces(d: Disk, v: nat, len: nat, verdict: Verdict)
    requires ValidChain(d) && AllJudged(d, v, len, verdict)
    ensures verdict.Own? ==> AllIn(d, v, len, InFile(0, d.path, verdict.at))
    ensures verdict.Empty? ==> AllIn(d, v, len, Hole)
    ensures verdict.Override? ==> AllIn(d, v, len, Cleared(0, d.path))
    ensures verdict.Beneath? && d.parent.None? ==> AllIn(d, v, len, Missing(1))
  {
    hide VerdictAt;
    forall i | v <= i < v + len
      ensures verdict.Own? ==> Locate(d, i) == InFile(0, d.path, verdict.at + (i - v))
      ensures verdict.Empty? ==> Locate(d, i) == Hole
      ensures verdict.Override? ==> Locate(d, i) == Cleared(0, d.path)
      ensures verdict.Beneath? && d.parent.None? ==> Locate(d, i) == Missing(1)
    {
      assert VerdictAt(d, i) == if verdict.Own? then Own(verdict.at + (i - v)) else verdict;
    }
  }

  // ---------------------------------------------------------------- table lookups

  /** The answer of a table lookup for one byte of a block. */
  datatype Lookup = At(at: int) | NotMapped | Failed

  /** vhdxSectorPresent, which reads one byte of the chunk's bitmap. */
  function SectorPresent(d: Disk, block: nat, o: nat): (present: Option<bool>)
    requires Formed(d) && d.table.VhdxTable? && block < |d.table.entries|
    ensures present == SectorBit(d, block, o / d.sectorSize)
  {
    var chunkIndex := block / d.table.chunkRatio;
    if chunkIndex >= |d.table.bitmapOffsets| || d.table.bitmapOffsets[chunkIndex] < 0 then Some(false) else
    var bitPos := BitPos(d, block, o / d.sectorSize);
    match FileByte(d.source, d.table.bitmapOffsets[chunkIndex] + bitPos / 8)
    case None => None
    case Some(b) => Some(TestBit(b, bitPos % 8))
  }

  /** The file offset of byte o of a block: a signed 64-bit sum. */
  function OffsetIn(entry: BlockEntry, o: nat): Int64 {
    Wrap64(entry.fileOffset + o)
  }

  /** Every byte of a block is where it should be exactly when the block fits. */
  lemma OffsetsExact(entry: BlockEntry, blockSize: nat)
    requires entry.isAllocated && -TWO_63 <= entry.fileOffset < TWO_63 && 0 < blockSize < TWO_32
    ensures EntryFits(entry, blockSize) <==>
      forall o: nat :: o < blockSize ==> 0 <= OffsetIn(entry, o) == entry.fileOffset + o
  {
    assert OffsetIn(entry, 0) == entry.fileOffset;
    var last := entry.fileOffset + (blockSize - 1);
    assert last >= TWO_63 ==> OffsetIn(entry, blockSize - 1) < 0;
  }

  /** blockFileOffset. */
  function BlockFileOffset(d: Disk, block: nat, o: nat): Lookup
    requires Formed(d) && !d.table.Flat?
  {
    if block >= |d.table.entries| then Failed else
    var entry := d.table.entries[block];
    if !entry.isAllocated || entry.fileOffset < 0 then NotMapped
    else if d.table.VhdxTable? && entry.state == BLOCK_PARTIALLY_PRESENT then
      match SectorPresent(d, block, o)
      case None => Failed
      case Some(false) => NotMapped
      case Some(true) => At(OffsetIn(entry, o))
    else At(OffsetIn(entry, o))
  }

  /** On a disk without parents the lookup is the whole truth about a byte. */
  lemma LookupIsPlace(d: Disk, v: nat)
    requires ValidChain(d) && !d.table.Flat? && !d.IsDifferencing()
    ensures Locate(d, v) == match BlockFileOffset(d, v / d.blockSize, v % d.blockSize)
                            case At(at) => InFile(0, d.path, at)
                            case NotMapped => Hole
                            case Failed => Fault
  {
  }

  /** What a differencing disk claims for itself has a file offset unless the block's own
      offset overflowed, so that is exactly when the zeroed and parent fallbacks for an
      unmapped claim execute: on a valid image never. */
  lemma ClaimedIsMapped(d: Disk, block: nat, o: nat)
    requires Formed(d) && !d.table.Flat? && block < |d.table.entries|
    requires || Classify(d, block).FromChild?
             || (Classify(d, block).PerSector? && SectorBit(d, block, o / d.sectorSize) == Some(true))
    ensures BlockFileOffset(d, block, o) == NotMapped <==> d.table.entries[block].fileOffset < 0
    ensures ValidImage(d) && o < d.blockSize ==>
      BlockFileOffset(d, block, o) == At(d.table.entries[block].fileOffset + o)
  {
    assert ValidImage(d) ==> EntryFits(d.table.entries[block], d.blockSize);
  }

  /** VirtualToFileOffset. A differencing disk has no single answer. */
  method VirtualToFileOffset(d: Disk, v: int) returns (r: Lookup, err: Error)
    requires ValidChain(d)
    ensures v < 0 ==> err == NegativeOffset
    ensures v >= d.virtualSize ==> err == EndOfFile
    ensures 0 <= v < d.virtualSize && d.IsDifferencing() ==> err == Ok && r == NotMapped
    ensures 0 <= v < d.virtualSize && !d.IsDifferencing() ==>
      && (err == Ok <==> Locate(d, v) != Fault)
      && (err == Ok ==> match r
                        case At(at) => Locate(d, v) == InFile(0, d.path, at)
                        case NotMapped => Locate(d, v) == Hole
                        case Failed => false)
  {
    if v < 0 {
      return NotMapped, NegativeOffset;
    }
    if v >= d.virtualSize {
      return NotMapped, EndOfFile;
    }
    if d.IsDifferencing() {
      return NotMapped, Ok;
    }
    if d.table.Flat? {
      return At(v), Ok;
    }
    var block, o := v / d.blockSize, v % d.blockSize;
    if block >= |d.table.entries| {
      return NotMapped, EndOfFile;
    }
    var entry := d.table.entries[block];
    assert EntryFits(entry, d.blockSize);
    if !entry.isAllocated || entry.fileOffset < 0 {
      return NotMapped, Ok;
    }
    if d.table.VhdTable? || entry.state == BLOCK_FULLY_PRESENT {
      return At(OffsetIn(entry, o)), Ok;
    }
    var bit := SectorPresent(d, block, o);
    hide SectorPresent;
    match bit
    case None => return NotMapped, EndOfFile;
    case Some(present) => return if present then At(OffsetIn(entry, o)) else NotMapped, Ok;
  }

  // ---------------------------------------------------------------- raw extents

  /** rawExtents: block by block, descending into the parent for what this disk does not
      supply. It fails exactly when some byte of the range has no answer. */
  method RawExtents(d: Disk, v: nat, len: nat, c: nat) returns (out: seq<Extent>, err: Error)
    requires ValidChain(d) && 0 < len
    ensures err == Ok <==> NoFault(d, v, len)
    ensures err == Ok ==> Raw(d, c, v, len, out)
    decreases d, 4
  {
    hide Locate;
    if d.table.Flat? {
      FlatPlaces(d, v, len);
      out := [Extent(v, len, Mapped, v, c, d.path)];
      RawOne(d, c, v, len, InFile(0, d.path, v), out[0]);
      return out, Ok;
    }
    hide Units;
    out := [];
    assert Units(d, c, v, 0) == [];
    var at, end := v, v + len;
    while at < end
      invariant v <= at <= end
      invariant Raw(d, c, v, at - v, out)
    {
      var span := BlockStep(d, at, end);
      var sub;
      if d.IsDifferencing() {
        sub, err := DifferencingExtents(d, at, span, c);
      } else {
        sub, err := PlainBlockExtent(d, at, span, c);
      }
      if err != Ok {
        return [], err;
      }
      RawConcat(d, c, v, at - v, span, out, sub);
      out := out + sub;
      at := at + span;
    }
    return out, Ok;
  }

  /** How far a step starting at `at` reaches: to the end of its block or of the range. */
  function BlockStep(d: Disk, at: nat, end: nat): (span: nat)
    requires ValidImage(d) && !d.table.Flat? && at < end
    ensures 0 < span && at + span <= end && at % d.blockSize + span <= d.blockSize
  {
    Min(d.blockSize - at % d.blockSize, end - at)
  }

  /** parentExtents. */
  method ParentExtents(d: Disk, v: nat, len: nat, c: nat) returns (out: seq<Extent>, err: Error)
    requires ValidChain(d) && 0 < len && AllJudged(d, v, len, Beneath)
    ensures err == Ok <==> NoFault(d, v, len)
    ensures err == Ok ==> Raw(d, c, v, len, out)
    decreases d, 0
  {
    if d.parent.None? {
      JudgedPlaces(d, v, len, Beneath);
      hide Locate;
      out := [Extent(v, len, Unresolved, 0, c + 1, "")];
      RawOne(d, c, v, len, Missing(1), out[0]);
      return out, Ok;
    }
    out, err := RawExtents(d.parent.value, v, len, c + 1);
    RawBeneath(d, c, v, len, out);
  }

  /** plainBlockExtent: one block of a disk without parents. */
  method PlainBlockExtent(d: Disk, v: nat, span: nat, c: nat) returns (out: seq<Extent>, err: Error)
    requires ValidChain(d) && !d.table.Flat? && !d.IsDifferencing()
    requires 0 < span && v % d.blockSize + span <= d.blockSize
    ensures err == Ok <==> NoFault(d, v, span)
    ensures err == Ok ==> Raw(d, c, v, span, out)
  {
    var block, o := v / d.blockSize, v % d.blockSize;
    if d.table.VhdxTable? && block < |d.table.entries| && d.table.entries[block].state == BLOCK_PARTIALLY_PRESENT {
      out, err := PartialBlockExtents(d, v, span, SpanFor(d, v, span), c);
      return;
    }
    var lookup := BlockFileOffset(d, block, o);
    if lookup.Failed? {
      LookupIsPlace(d, v);
      return [], EndOfFile;
    }
    WholeBlock(d, v, span);
    hide Locate;
    var place := if lookup.At? then InFile(0, d.path, lookup.at) else Hole;
    out := [Extent(v, span, if lookup.At? then Mapped else Zero, if lookup.At? then lookup.at else 0, c, d.path)];
    RawOne(d, c, v, span, place, out[0]);
    return out, Ok;
  }

  /** partialBlockExtents: sector by sector, one bitmap byte read each. */
  method PartialBlockExtents(d: Disk, v: nat, len: nat, span: Span, c: nat) returns (out: seq<Extent>, err: Error)
    requires ValidChain(d) && d.table.VhdxTable? && !d.IsDifferencing()
    requires SpanOf(d, v, len, span) && 0 < len && span.block < |d.table.entries|
    requires d.table.entries[span.block].state == BLOCK_PARTIALLY_PRESENT
    ensures err == Ok <==> NoFault(d, v, len)
    ensures err == Ok ==> Raw(d, c, v, len, out)
  {
    hide Locate, Units, BlockFileOffset, SpanOf, InStep;
    out := [];
    assert Units(d, c, v, 0) == [];
    var pos := 0;
    while pos < len
      invariant 0 <= pos <= len
      invariant Raw(d, c, v, pos, out)
    {
      var step := SectorStep(d, span.o + pos, len - pos);
      var lookup := BlockFileOffset(d, span.block, span.o + pos);
      SectorStepPlaces(d, v, len, span, pos, step);
      if lookup.Failed? {
        assert Locate(d, v + pos) == Fault;
        return [], EndOfFile;
      }
      var kind, at := if lookup.At? then Mapped else Zero, if lookup.At? then lookup.at else 0;
      var e := Extent(v + pos, step, kind, at, c, d.path);
      RawOne(d, c, v + pos, step, if lookup.At? then InFile(0, d.path, lookup.at) else Hole, e);
      RawConcat(d, c, v, pos, step, out, [e]);
      out := out + [e];
      pos := pos + step;
    }
    return out, Ok;
  }

  /** A step that stays in the sector it starts in. */
  predicate InStep(d: Disk, off: nat, step: nat) {
    0 < d.sectorSize && off % d.sectorSize + step <= d.sectorSize
  }

  function SectorStep(d: Disk, off: nat, left: nat): (step: nat)
    requires ValidImage(d) && !d.table.Flat? && 0 < left
    ensures 0 < step <= left && InStep(d, off, step)
  {
    Min(d.sectorSize - off % d.sectorSize, left)
  }

  lemma SectorStepPlaces(d: Disk, v: nat, len: nat, span: Span, pos: nat, step: nat)
    requires ValidChain(d) && d.table.VhdxTable? && !d.IsDifferencing()
    requires SpanOf(d, v, len, span) && pos + step <= len
    requires d.table.entries[span.block].state == BLOCK_PARTIALLY_PRESENT
    requires InStep(d, span.o + pos, step)
    ensures AllIn(d, v + pos, step, match BlockFileOffset(d, span.block, span.o + pos)
      case At(at) => InFile(0, d.path, at)
      case NotMapped => Hole
      case Failed => Fault)
  {
    forall i | v + pos <= i < v + pos + step
      ensures Locate(d, i) == Along(match BlockFileOffset(d, span.block, span.o + pos)
        case At(at) => InFile(0, d.path, at)
        case NotMapped => Hole
        case Failed => Fault, i - (v + pos))
    {
      SameBlock(d.blockSize, v, i - v);
      SameBlock(d.sectorSize, span.o + pos, i - v - pos);
      LookupIsPlace(d, i);
      SameSectorLookup(d, span.block, span.o + pos, span.o + (i - v));
      hide Locate, BlockFileOffset;
    }
  }

  lemma SameSectorLookup(d: Disk, block: nat, o: nat, p: nat)
    requires ValidImage(d) && !d.table.Flat? && o <= p < d.blockSize && o / d.sectorSize == p / d.sectorSize
    ensures BlockFileOffset(d, block, p) == match BlockFileOffset(d, block, o)
      case At(at) => At(at + (p - o))
      case other => other
  {
    hide SectorBit;
  }

  /** differencingExtents: one block of a differencing disk. */
  method DifferencingExtents(d: Disk, v: nat, span: nat, c: nat) returns (out: seq<Extent>, err: Error)
    requires ValidChain(d) && !d.table.Flat? && d.IsDifferencing()
    requires 0 < span && v % d.blockSize + span <= d.blockSize
    ensures err == Ok <==> NoFault(d, v, span)
    ensures err == Ok ==> Raw(d, c, v, span, out)
    decreases d, 3
  {
    var block, o := v / d.blockSize, v % d.blockSize;
    if block >= |d.table.entries| {
      assert Locate(d, v) == Fault;
      return [], Invalid;
    }
    if Classify(d, block).PerSector? {
      var sectors := SpanFor(d, v, span);
      out, err := SectorExtents(d, v, span, sectors, c);
      return;
    }
    ClassifiedBlock(d, v, span);
    hide Locate, VerdictAt;
    match Classify(d, block) {
      case ReadsZero =>
        JudgedPlaces(d, v, span, Override);
        out := [Extent(v, span, ZeroedByChild, 0, c, d.path)];
        RawOne(d, c, v, span, Cleared(0, d.path), out[0]);
        return out, Ok;
      case FromChild =>
        ClaimedIsMapped(d, block, o);
        var lookup := BlockFileOffset(d, block, o);
        JudgedPlaces(d, v, span, Own(lookup.at));
        out := [Extent(v, span, Mapped, lookup.at, c, d.path)];
        RawOne(d, c, v, span, InFile(0, d.path, lookup.at), out[0]);
        return out, Ok;
      case FromParent =>
        out, err := ParentExtents(d, v, span, c);
    }
  }

  /** The sector-run half of differencingExtents. */
  method SectorExtents(d: Disk, v: nat, len: nat, span: Span, c: nat) returns (out: seq<Extent>, err: Error)
    requires ValidChain(d) && !d.table.Flat? && d.IsDifferencing()
    requires SpanOf(d, v, len, span) && span.block < |d.table.entries| && Classify(d, span.block).PerSector?
    ensures err == Ok <==> NoFault(d, v, len)
    ensures err == Ok ==> Raw(d, c, v, len, out)
    decreases d, 2
  {
    hide Locate, VerdictAt, Units, SpanOf, SectorEdge, SectorBit;
    SectorEdges(d, v, len, span);
    var runs, e := SectorRuns(d, span.block, span.first, span.last);
    if e != Ok {
      UnreadableSector(d, v, len, span);
      return [], e;
    }
    out := [];
    assert Units(d, c, v, 0) == [];
    ghost var done := 0;
    for k := 0 to |runs|
      invariant done == SectorEdge(d.sectorSize, span.o, len, if k == |runs| then span.last + 1 else runs[k].first)
      invariant 0 <= done <= len && Raw(d, c, v, done, out)
    {
      var run := runs[k];
      RunInside(d, span, runs, k);
      var sub;
      ghost var end;
      sub, err, end := RunExtents(d, v, len, span, run, c);
      if err != Ok {
        return [], err;
      }
      RawConcat(d, c, v, done, end - done, out, sub);
      out := out + sub;
      done := end;
    }
    return out, Ok;
  }

  /** The runs returned for a span stay inside it. */
  lemma RunInside(d: Disk, span: Span, runs: seq<SectorRun>, k: nat)
    requires ValidImage(d) && !d.table.Flat? && span.block < |d.table.entries|
    requires RunsTile(d, span.block, span.first, span.last, runs) && k < |runs|
    ensures span.first <= runs[k].first <= runs[k].last <= span.last
    ensures k + 1 < |runs| ==> runs[k + 1].first == runs[k].last + 1
    ensures k + 1 == |runs| ==> runs[k].last == span.last
  {
    hide SectorBit;
    RunsAscend(runs, 0, k);
    RunsAscend(runs, k, |runs| - 1);
  }

  lemma {:induction false} RunsAscend(runs: seq<SectorRun>, i: nat, j: nat)
    requires i <= j < |runs|
    requires forall k :: 0 <= k < |runs| ==> runs[k].first <= runs[k].last
    requires forall k :: 0 < k < |runs| ==> runs[k].first == runs[k - 1].last + 1
    ensures runs[i].first <= runs[j].first && runs[i].last <= runs[j].last
    decreases j - i
  {
    if i < j {
      RunsAscend(runs, i, j - 1);
    }
  }

  lemma UnreadableSector(d: Disk, v: nat, len: nat, span: Span)
    requires ValidChain(d) && !d.table.Flat? && d.IsDifferencing()
    requires SpanOf(d, v, len, span) && Classify(d, span.block).PerSector?
    requires exists s :: span.first <= s <= span.last && SectorBit(d, span.block, s) == None
    ensures !NoFault(d, v, len)
  {
    hide SectorBit, Locate, Classify;
    var s :| span.first <= s <= span.last && SectorBit(d, span.block, s) == None;
    var ss := d.sectorSize;
    EdgeOrder(ss, span.o, len, s, s + 1);
    var x := if s == span.first then 0 else s * ss - span.o;
    SameBlock(d.blockSize, v, x);
    assert (span.o + x) / ss == s by {
      if s != span.first {
        QuotientIs(s * ss, ss, s);
      }
    }
    FaultySector(d, span.block, v + x);
  }

  lemma FaultySector(d: Disk, block: nat, x: nat)
    requires ValidChain(d) && !d.table.Flat? && d.IsDifferencing() && block == x / d.blockSize
    requires block < |d.table.entries| && Classify(d, block).PerSector?
    requires SectorBit(d, block, x % d.blockSize / d.sectorSize) == None
    ensures Locate(d, x) == Fault
  {
    hide SectorBit;
  }

  /** One run of sectors, intersected with the requested range. */
  method RunExtents(d: Disk, v: nat, len: nat, span: Span, run: SectorRun, c: nat)
    returns (out: seq<Extent>, err: Error, ghost edge: nat)
    requires ValidChain(d) && !d.table.Flat? && d.IsDifferencing()
    requires SpanOf(d, v, len, span) && span.block < |d.table.entries| && Classify(d, span.block).PerSector?
    requires span.first <= run.first <= run.last <= span.last
    requires forall t :: run.first <= t <= run.last ==> SectorBit(d, span.block, t) == Some(run.inChild)
    ensures var from := SectorEdge(d.sectorSize, span.o, len, run.first);
      && 0 <= from < edge <= len && edge == SectorEdge(d.sectorSize, span.o, len, run.last + 1)
      && (err == Ok ==> Raw(d, c, v + from, edge - from, out))
      && (err != Ok ==> !NoFault(d, v, len))
    decreases d, 1
  {
    hide SpanOf, SectorEdge, SectorBit, Classify, AllJudged, BlockFileOffset, VerdictAt;
    var start, end := RunWindow(d, v, len, span, run.first, run.last + 1);
    edge := end;
    SectorRunJudged(d, v, len, span, run.first, run.last + 1, start, end, run.inChild);
    if !run.inChild {
      out, err := ParentExtents(d, v + start, end - start, c);
      return;
    }
    ClaimedSector(d, v, len, span, run.first, start);
    var lookup := BlockFileOffset(d, span.block, span.o + start);
    JudgedPlaces(d, v + start, end - start, Own(lookup.at));
    hide Locate, NoFault, AllIn;
    out := [Extent(v + start, end - start, Mapped, lookup.at, c, d.path)];
    RawOne(d, c, v + start, end - start, InFile(0, d.path, lookup.at), out[0]);
    return out, Ok, edge;
  }

  lemma ClaimedSector(d: Disk, v: nat, len: nat, span: Span, s: nat, start: nat)
    requires ValidImage(d) && !d.table.Flat? && SpanOf(d, v, len, span) && Classify(d, span.block).PerSector?
    requires span.first <= s <= span.last && start == SectorEdge(d.sectorSize, span.o, len, s)
    requires SectorBit(d, span.block, s) == Some(true)
    ensures BlockFileOffset(d, span.block, span.o + start) ==
            At(d.table.entries[span.block].fileOffset + span.o + start)
  {
    var ss := d.sectorSize;
    EdgeOrder(ss, span.o, len, s, s + 1);
    assert (span.o + start) / ss == s by {
      if s != span.first {
        QuotientIs(s * ss, ss, s);
      }
    }
    ClaimedIsMapped(d, span.block, span.o + start);
  }
}
