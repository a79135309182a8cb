/** What opening checks before it trusts a header: that a VHDX region table places its
    regions sensibly, and that a disk's geometry fits the table that is about to be read.
    Every 64-bit operation is written with its wrap-around. */
module Validate {
  import opened Bytes
  import opened Division
  import opened Words
  import opened Images
  import opened BatLayout

  function Quotient(x: Uint64, d: Uint64): Uint64
    requires d > 0
  {
    var q := x / d;
    assert 0 <= q <= x by { QuotientShrinks(x, d); }
    q
  }

  lemma QuotientShrinks(x: nat, d: nat)
    requires d > 0
    ensures 0 <= x / d <= x
  {
    MulMonotone(1, d, x / d);
  }

  const MAX_BAT_BYTES := 0x400_0000

  // ---------------------------------------------------------------- region table

  type Guid = seq<byte>

  datatype Region = Region(kind: Guid, offset: Int64, size: Uint32)
  {
    function End(): int { offset + size }
  }

  function SpanEnd(r: Region): Int64 { Wrap64(r.offset + r.size) }

  predicate Apart(a: Region, b: Region) {
    a.End() <= b.offset || b.End() <= a.offset
  }

  /** The rules a region must meet by itself. A file size of zero or less is unknown. */
  predicate Placed(r: Region, fileSize: Int64) {
    && r.offset > 0 && r.offset % 0x10_0000 == 0
    && r.End() < TWO_63
    && (fileSize > 0 ==> r.End() <= fileSize)
  }

  ghost predicate KindsDiffer(rs: seq<Region>) {
    forall i, j :: 0 <= i < j < |rs| ==> rs[i].kind != rs[j].kind
  }

  /** No two regions that occupy anything overlap. */
  ghost predicate Disjoint(rs: seq<Region>) {
    forall i, j :: 0 <= i < j < |rs| && rs[i].size > 0 && rs[j].size > 0 ==> Apart(rs[i], rs[j])
  }

  /** What the region table must be. */
  ghost predicate Acceptable(rs: seq<Region>, fileSize: Int64) {
    && KindsDiffer(rs)
    && (forall i :: 0 <= i < |rs| ==> Placed(rs[i], fileSize))
    && Disjoint(rs)
  }

  /** The regions that occupy something. */
  function Spans(rs: seq<Region>): (ss: seq<Region>)
    ensures forall r :: r in ss <==> r in rs && r.size > 0
  {
    if rs == [] then []
    else if rs[0].size == 0 then Spans(rs[1..])
    else [rs[0]] + Spans(rs[1..])
  }

  ghost predicate AllApart(ss: seq<Region>) {
    ss == [] || ((forall r :: r in ss[1..] ==> Apart(ss[0], r)) && AllApart(ss[1..]))
  }

  ghost predicate ApartFromAll(r: Region, rest: seq<Region>) {
    forall x :: x in rest && x.size > 0 ==> Apart(r, x)
  }

  lemma DisjointCons(r: Region, rest: seq<Region>)
    ensures Disjoint([r] + rest) <==> Disjoint(rest) && (r.size > 0 ==> ApartFromAll(r, rest))
  {
    var all := [r] + rest;
    if Disjoint(all) {
      forall i, j | 0 <= i < j < |rest| && rest[i].size > 0 && rest[j].size > 0 ensures Apart(rest[i], rest[j]) {
        assert all[i + 1] == rest[i] && all[j + 1] == rest[j];
      }
      forall x | r.size > 0 && x in rest && x.size > 0 ensures Apart(r, x) {
        var j :| 0 <= j < |rest| && rest[j] == x;
        assert all[0] == r && all[j + 1] == x;
      }
    }
  }

  lemma SpansCons(r: Region, rest: seq<Region>)
    ensures AllApart(Spans([r] + rest)) <==>
      AllApart(Spans(rest)) && (r.size > 0 ==> ApartFromAll(r, rest))
  {
    hide Apart;
    assert ([r] + rest)[1..] == rest;
    if r.size > 0 {
      assert Spans([r] + rest)[1..] == Spans(rest);
    }
  }

  lemma {:induction false} SpansApart(rs: seq<Region>)
    ensures Disjoint(rs) <==> AllApart(Spans(rs))
  {
    if rs != [] {
      var r, rest := rs[0], rs[1..];
      SpansApart(rest);
      assert rs == [r] + rest;
      ApartStep(r, rest);
    }
  }

  lemma ApartStep(r: Region, rest: seq<Region>)
    requires Disjoint(rest) <==> AllApart(Spans(rest))
    ensures Disjoint([r] + rest) <==> AllApart(Spans([r] + rest))
  {
    DisjointCons(r, rest);
    SpansCons(r, rest);
    hide *;
  }

  // ---------------------------------------------------------------- sort, then look at neighbours

  function Insert(ss: seq<Region>, r: Region): (out: seq<Region>)
    ensures forall x :: x in out <==> x in ss || x == r
    ensures |out| == |ss| + 1
  {
    if ss == [] || r.offset <= ss[0].offset then [r] + ss else [ss[0]] + Insert(ss[1..], r)
  }

  /** sort.Slice by start. */
  function SortByStart(ss: seq<Region>): (out: seq<Region>)
    ensures forall x :: x in out <==> x in ss
    ensures |out| == |ss|
  {
    if ss == [] then [] else Insert(SortByStart(ss[1..]), ss[0])
  }

  ghost predicate Ascending(ss: seq<Region>) {
    ss == [] || ((forall r :: r in ss[1..] ==> ss[0].offset <= r.offset) && Ascending(ss[1..]))
  }

  lemma {:induction false} InsertKeeps(ss: seq<Region>, r: Region)
    ensures Ascending(ss) ==> Ascending(Insert(ss, r))
    ensures AllApart(Insert(ss, r)) <==> AllApart(ss) && forall x :: x in ss ==> Apart(r, x)
  {
    if ss == [] || r.offset <= ss[0].offset {
      assert Insert(ss, r)[1..] == ss;
    } else {
      InsertKeeps(ss[1..], r);
      assert forall x :: x in ss <==> x == ss[0] || x in ss[1..];
      assert Apart(ss[0], r) <==> Apart(r, ss[0]);
      hide Apart;
      assert Insert(ss, r)[1..] == Insert(ss[1..], r);
    }
  }

  lemma {:induction false} SortKeeps(ss: seq<Region>)
    ensures Ascending(SortByStart(ss))
    ensures AllApart(SortByStart(ss)) <==> AllApart(ss)
  {
    if ss != [] {
      SortKeeps(ss[1..]);
      InsertKeeps(SortByStart(ss[1..]), ss[0]);
    }
  }

  predicate ClearOfPrevious(ss: seq<Region>, i: int)
    requires 1 <= i < |ss|
  {
    ss[i - 1].End() <= ss[i].offset
  }

  ghost predicate NeighboursApart(ss: seq<Region>) {
    forall i :: 1 <= i < |ss| ==> ClearOfPrevious(ss, i)
  }

  lemma NeighboursCons(r: Region, rest: seq<Region>)
    requires rest != []
    ensures NeighboursApart([r] + rest) <==> r.End() <= rest[0].offset && NeighboursApart(rest)
  {
    var all := [r] + rest;
    if NeighboursApart(all) {
      assert ClearOfPrevious(all, 1);
      forall i | 1 <= i < |rest| ensures ClearOfPrevious(rest, i) {
        assert ClearOfPrevious(all, i + 1);
      }
    } else if r.End() <= rest[0].offset {
      var i :| 1 <= i < |all| && !ClearOfPrevious(all, i);
      assert i > 1 && !ClearOfPrevious(rest, i - 1);
    }
  }

  /** Once sorted, comparing neighbours is comparing every pair. */
  lemma {:induction false} NeighboursSuffice(ss: seq<Region>)
    requires Ascending(ss) && forall r :: r in ss ==> r.size > 0
    ensures NeighboursApart(ss) <==> AllApart(ss)
    ensures NeighboursApart(ss) ==> forall r :: r in ss[Min(1, |ss|)..] ==> ss[0].End() <= r.offset
  {
    if |ss| > 1 {
      var rest := ss[1..];
      NeighboursSuffice(rest);
      NeighboursCons(ss[0], rest);
      assert ss == [ss[0]] + rest;
      assert ss[1] in rest;
      assert forall r :: r in rest ==> r == rest[0] || r in rest[1..];
    }
  }

  /** The checks of one region, with their wrapping sum. */
  function RegionError(r: Region, fileSize: Int64): Error {
    var end := SpanEnd(r);
    if r.offset <= 0 || r.offset % MIB != 0 then Invalid
    else if end < r.offset then Invalid
    else if fileSize > 0 && end > fileSize then Invalid
    else Ok
  }

  lemma PlacedBySum(r: Region, fileSize: Int64)
    ensures RegionError(r, fileSize) == Ok <==> Placed(r, fileSize)
  {
  }

  /** `spans` holds those of the first i regions that occupy something. */
  ghost predicate Gathered(spans: seq<Region>, rs: seq<Region>, i: nat)
    requires i <= |rs|
  {
    spans + Spans(rs[i..]) == Spans(rs)
  }

  lemma GatheredStep(spans: seq<Region>, rs: seq<Region>, i: nat)
    requires i < |rs| && Gathered(spans, rs, i)
    ensures Gathered(if rs[i].size == 0 then spans else spans + [rs[i]], rs, i + 1)
  {
    assert rs[i..][1..] == rs[i + 1..];
  }

  lemma GatheredAll(spans: seq<Region>, rs: seq<Region>)
    requires Gathered(spans, rs, |rs|)
    ensures spans == Spans(rs) && forall r :: r in spans ==> r.size > 0
  {
    assert rs[|rs|..] == [];
  }

  /** `seen` holds the kinds of the first i regions, no two of which are equal. */
  ghost predicate Seen(rs: seq<Region>, i: nat, seen: set<Guid>)
    requires i <= |rs|
  {
    && (forall k :: k in seen <==> exists j :: 0 <= j < i && rs[j].kind == k)
    && forall j, k :: 0 <= j < k < i ==> rs[j].kind != rs[k].kind
  }

  lemma SeenStep(rs: seq<Region>, i: nat, seen: set<Guid>)
    requires i < |rs| && Seen(rs, i, seen)
    ensures rs[i].kind in seen ==> !KindsDiffer(rs)
    ensures rs[i].kind !in seen ==> Seen(rs, i + 1, seen + {rs[i].kind})
  {
  }

  /** What looking at the first i regions establishes. */
  ghost predicate Scanned(rs: seq<Region>, i: nat, seen: set<Guid>, spans: seq<Region>, fileSize: Int64)
    requires i <= |rs|
  {
    Seen(rs, i, seen) && Gathered(spans, rs, i) && forall j :: 0 <= j < i ==> Placed(rs[j], fileSize)
  }

  lemma ScanStep(rs: seq<Region>, i: nat, seen: set<Guid>, spans: seq<Region>, fileSize: Int64)
    requires i < |rs| && Scanned(rs, i, seen, spans, fileSize)
    ensures var r := rs[i];
      if r.kind in seen || RegionError(r, fileSize) != Ok then !Acceptable(rs, fileSize)
      else Scanned(rs, i + 1, seen + {r.kind}, if r.size == 0 then spans else spans + [r], fileSize)
  {
    hide Seen, Gathered, Placed, RegionError;
    SeenStep(rs, i, seen);
    PlacedBySum(rs[i], fileSize);
    GatheredStep(spans, rs, i);
  }

  lemma ScanEnds(rs: seq<Region>, seen: set<Guid>, spans: seq<Region>, fileSize: Int64)
    requires Scanned(rs, |rs|, seen, spans, fileSize)
    ensures Acceptable(rs, fileSize) <==> AllApart(spans)
    ensures forall r :: r in spans ==> r.size > 0
  {
    hide Gathered, Spans, Placed, AllApart;
    GatheredAll(spans, rs);
    SpansApart(rs);
  }

  /** validateVHDXRegionTable. */
  method ValidateRegionTable(regions: seq<Region>, fileSize: Int64) returns (err: Error)
    ensures err == Ok <==> Acceptable(regions, fileSize)
    ensures err == Ok || err == Invalid
  {
    var seen: set<Guid> := {};
    var spans: seq<Region> := [];
    hide AllApart, RegionError, Acceptable;
    for i := 0 to |regions|
      invariant Scanned(regions, i, seen, spans, fileSize)
    {
      var r := regions[i];
      ScanStep(regions, i, seen, spans, fileSize);
      hide Scanned;
      if r.kind in seen {
        return Invalid;
      }
      seen := seen + {r.kind};
      if RegionError(r, fileSize) != Ok {
        return Invalid;
      }
      if r.size == 0 {
        continue;
      }
      spans := spans + [r];
    }
    ScanEnds(regions, seen, spans, fileSize);
    var overlap := AnyOverlap(spans);
    return if overlap then Invalid else Ok;
  }

  lemma ScanSuffices(spans: seq<Region>)
    requires forall r :: r in spans ==> r.size > 0
    ensures NeighboursApart(SortByStart(spans)) <==> AllApart(spans)
  {
    SortKeeps(spans);
    NeighboursSuffice(SortByStart(spans));
  }

  /** The sort-and-scan that ends validateVHDXRegionTable. */
  method AnyOverlap(spans: seq<Region>) returns (overlap: bool)
    requires forall r :: r in spans ==> r.size > 0
    ensures overlap <==> !AllApart(spans)
  {
    ScanSuffices(spans);
    var sorted := SortByStart(spans);
    hide AllApart, SortByStart, ClearOfPrevious;
    var i := 1;
    while i < |sorted|
      invariant 1 <= i
      invariant forall j :: 1 <= j < i && j < |sorted| ==> ClearOfPrevious(sorted, j)
    {
      if !ClearOfPrevious(sorted, i) {
        return true;
      }
      i := i + 1;
    }
    return false;
  }

  // ---------------------------------------------------------------- region pointers

  datatype Pointers = Pointers(batOffset: Int64, batSize: Uint32, metaOffset: Int64, metaSize: Uint32)

  /** The two regions a table locates; zero offsets stand for an absent one, and a later
      entry of the same kind replaces an earlier one. */
  function PointersOf(rs: seq<Region>, bat: Guid, meta: Guid): Pointers {
    if rs == [] then Pointers(0, 0, 0, 0)
    else
      var p, r := PointersOf(rs[..|rs| - 1], bat, meta), rs[|rs| - 1];
      if r.kind == bat then p.(batOffset := r.offset, batSize := r.size)
      else if r.kind == meta then p.(metaOffset := r.offset, metaSize := r.size)
      else p
  }

  function PointerError(offset: Int64, size: Int64, fileSize: Int64): Error {
    if offset <= 0 || offset % MIB != 0 then Invalid
    else if size < 0 then Invalid
    else if fileSize > 0 && Wrap64(offset + size) > fileSize then Invalid
    else Ok
  }

  /** validateVHDXRegions. */
  function ValidateRegions(p: Pointers, fileSize: Int64): Error {
    if PointerError(p.batOffset, p.batSize, fileSize) != Ok then PointerError(p.batOffset, p.batSize, fileSize)
    else if PointerError(p.metaOffset, p.metaSize, fileSize) != Ok then PointerError(p.metaOffset, p.metaSize, fileSize)
    else if p.batSize > 0 && p.metaSize > 0
      && p.batOffset < Wrap64(p.metaOffset + p.metaSize) && p.metaOffset < Wrap64(p.batOffset + p.batSize) then Invalid
    else Ok
  }

  ghost predicate ListsRegion(rs: seq<Region>, kind: Guid, offset: int, size: int) {
    exists i :: 0 <= i < |rs| && rs[i].kind == kind && rs[i].offset == offset && rs[i].size == size
  }

  lemma {:induction false} PointersListed(rs: seq<Region>, bat: Guid, meta: Guid)
    requires bat != meta
    ensures var p := PointersOf(rs, bat, meta);
      && (p.batOffset != 0 ==> ListsRegion(rs, bat, p.batOffset, p.batSize))
      && (p.metaOffset != 0 ==> ListsRegion(rs, meta, p.metaOffset, p.metaSize))
  {
    if rs != [] {
      PointersListed(rs[..|rs| - 1], bat, meta);
      assert forall i :: 0 <= i < |rs| - 1 ==> rs[..|rs| - 1][i] == rs[i];
    }
  }

  /** The region a table lists under either kind is the one the pointers name. */
  lemma {:induction false} PointersFound(rs: seq<Region>, bat: Guid, meta: Guid, i: nat)
    requires bat != meta && KindsDiffer(rs) && i < |rs|
    ensures var p := PointersOf(rs, bat, meta);
      && (rs[i].kind == bat ==> p.batOffset == rs[i].offset && p.batSize == rs[i].size)
      && (rs[i].kind == meta ==> p.metaOffset == rs[i].offset && p.metaSize == rs[i].size)
  {
    var front, last := rs[..|rs| - 1], rs[|rs| - 1];
    if i < |front| {
      PointersFound(front, bat, meta, i);
      assert front[i] == rs[i] && last.kind != rs[i].kind;
    }
  }

  /** Accepting the two pointers, said without wrapping arithmetic. The sums let through
      what ends past 2^63. */
  lemma RegionsAccepted(p: Pointers, fileSize: Int64)
    ensures ValidateRegions(p, fileSize) == Ok <==>
      var batEnd, metaEnd := p.batOffset + p.batSize, p.metaOffset + p.metaSize;
      && p.batOffset > 0 && p.batOffset % 0x10_0000 == 0 && p.metaOffset > 0 && p.metaOffset % 0x10_0000 == 0
      && (fileSize > 0 ==> batEnd <= fileSize || batEnd >= TWO_63)
      && (fileSize > 0 ==> metaEnd <= fileSize || metaEnd >= TWO_63)
      && (p.batSize > 0 && p.metaSize > 0 && batEnd < TWO_63 && metaEnd < TWO_63 ==>
            batEnd <= p.metaOffset || metaEnd <= p.batOffset)
  {
    var batEnd, metaEnd := p.batOffset + p.batSize, p.metaOffset + p.metaSize;
    assert batEnd >= TWO_63 ==> Wrap64(batEnd) < 0;
    assert metaEnd >= TWO_63 ==> Wrap64(metaEnd) < 0;
    hide Wrap64;
  }

  /** Pointers taken from a table that was accepted always pass the second check. */
  lemma PointersAlwaysPass(rs: seq<Region>, fileSize: Int64, bat: Guid, meta: Guid)
    requires bat != meta && Acceptable(rs, fileSize)
    requires PointersOf(rs, bat, meta).batOffset != 0 && PointersOf(rs, bat, meta).metaOffset != 0
    ensures ValidateRegions(PointersOf(rs, bat, meta), fileSize) == Ok
  {
    hide Wrap64;
    var p := PointersOf(rs, bat, meta);
    PointersListed(rs, bat, meta);
    var i :| 0 <= i < |rs| && rs[i].kind == bat && rs[i].offset == p.batOffset && rs[i].size == p.batSize;
    var j :| 0 <= j < |rs| && rs[j].kind == meta && rs[j].offset == p.metaOffset && rs[j].size == p.metaSize;
    PlacedBySum(rs[i], fileSize);
    PlacedBySum(rs[j], fileSize);
    assert rs[i].size > 0 && rs[j].size > 0 ==> Apart(rs[i], rs[j]) by {
      if i < j {
        assert rs[i].size > 0 && rs[j].size > 0 ==> Apart(rs[i], rs[j]);
      } else {
        assert i != j;
        assert rs[j].size > 0 && rs[i].size > 0 ==> Apart(rs[j], rs[i]);
      }
    }
    assert Wrap64(rs[i].End()) == rs[i].End() && Wrap64(rs[j].End()) == rs[j].End();
  }

  // ---------------------------------------------------------------- VHDX geometry

  /** VHDXBATEntryCount in 64-bit arithmetic. */
  function EntryCount64(blocks: Uint64, ratio: Uint64, diskType: DiskType): Uint64 {
    if blocks == 0 || ratio == 0 then 0
    else if diskType == Differencing then WrapU64(Quotient(WrapU64(blocks + ratio - 1), ratio) * WrapU64(ratio + 1))
    else WrapU64(blocks + Quotient(blocks - 1, ratio))
  }

  /** What sizes a VHDX table, from the metadata and the region table. */
  datatype Geometry = Geometry(
    diskSize: Uint64,
    blockSize: Uint32,
    sectorSize: Uint32,
    diskType: DiskType,
    batOffset: Int64,
    batSize: Uint32,
    fileSize: Int64)

  /** validateVHDXGeometry. */
  function ValidateGeometry(g: Geometry): Error {
    if g.blockSize == 0 then Invalid
    else if g.diskSize == 0 then Invalid
    else if g.sectorSize == 0 then Invalid
    else if g.diskSize % g.sectorSize != 0 then Invalid
    else
      var blocks := Quotient(WrapU64(g.diskSize + g.blockSize - 1), g.blockSize);
      if blocks == 0 then Invalid
      else if blocks > 0xFFFF_FFFF then Invalid
      else
        var ratio := Quotient(WrapU64(0x80_0000 * g.sectorSize), g.blockSize);
        if ratio == 0 then Invalid
        else
          var batBytes := WrapU64(EntryCount64(blocks, ratio, g.diskType) * 8);
          if batBytes > MAX_BAT_BYTES then Invalid
          else if g.batOffset < 0 then Invalid
          else if g.batSize > 0 && batBytes > g.batSize then Invalid
          else if g.fileSize > 0 && Wrap64(g.batOffset + batBytes) > g.fileSize then Invalid
          else Ok
  }

  /** How many bytes of table a geometry asks for, without wrapping anything. */
  function TableBytes(g: Geometry): nat
    requires g.blockSize > 0
  {
    8 * EntryCount(CeilDiv(g.diskSize, g.blockSize), ChunkRatio(g.blockSize, g.sectorSize), g.diskType)
  }

  /** The count in 64-bit arithmetic is the true count whenever both factors fit what the
      checks before it allow. */
  lemma CountDoesNotWrap(blocks: nat, ratio: nat, diskType: DiskType)
    requires 0 < blocks <= 0xFFFF_FFFF && 0 < ratio < 0x80_0000_0000_0000
    ensures EntryCount64(blocks, ratio, diskType) == EntryCount(blocks, ratio, diskType)
    ensures 8 * EntryCount(blocks, ratio, diskType) < TWO_64
    ensures blocks <= EntryCount(blocks, ratio, diskType)
  {
    var q := (blocks - 1) / ratio;
    ChunkOfLast(blocks, ratio);
    QuotientShrinks(blocks - 1, ratio);
    CountProduct(blocks - 1, ratio, q);
    var product := (q + 1) * (ratio + 1);
    assert CeilDiv(blocks, ratio) == (blocks + ratio - 1) / ratio;
    hide WrapU64, CeilDiv;
    if diskType == Differencing {
      assert EntryCount(blocks, ratio, diskType) == product;
      assert WrapU64(ratio + 1) == ratio + 1 && WrapU64(blocks + ratio - 1) == blocks + ratio - 1;
    }
  }

  lemma CountProduct(n: nat, ratio: nat, q: nat)
    requires 0 < ratio && q == n / ratio
    ensures n + 1 <= (q + 1) * (ratio + 1) <= n + q + ratio + 1
  {
    assert (q + 1) * (ratio + 1) == q * ratio + ratio + q + 1;
    assert n == q * ratio + n % ratio;
  }

  lemma RoundingWraps(size: Uint64, blockSize: Uint32)
    requires size > 0 && blockSize > 0
    ensures size + blockSize - 1 < TWO_64 ==>
      Quotient(WrapU64(size + blockSize - 1), blockSize) == CeilDiv(size, blockSize)
    ensures size + blockSize - 1 >= TWO_64 ==> Quotient(WrapU64(size + blockSize - 1), blockSize) == 0
    ensures CeilDiv(size, blockSize) > 0
  {
    var sum := size + blockSize - 1;
    QuotientMonotone(blockSize, sum, blockSize);
    if sum >= TWO_64 {
      QuotientIs(sum - TWO_64, blockSize, 0);
    }
  }

  /** Accepting a geometry, said without wrapping arithmetic. The last clause keeps the one
      case the wrapping sum lets through: a table that starts so close to 2^63 that the
      end of the table is past it. */
  ghost predicate GeometrySound(g: Geometry) {
    && g.blockSize > 0 && g.diskSize > 0 && g.sectorSize > 0
    && g.diskSize % g.sectorSize == 0
    && g.diskSize + g.blockSize - 1 < TWO_64
    && ChunkRatio(g.blockSize, g.sectorSize) > 0
    && TableBytes(g) <= 0x400_0000
    && g.batOffset >= 0
    && (g.batSize > 0 ==> TableBytes(g) <= g.batSize)
    && (g.fileSize > 0 ==> g.batOffset + TableBytes(g) <= g.fileSize || g.batOffset + TableBytes(g) >= TWO_63)
  }

  lemma RatioFits(g: Geometry)
    requires g.blockSize > 0
    ensures Quotient(WrapU64(0x80_0000 * g.sectorSize), g.blockSize) == ChunkRatio(g.blockSize, g.sectorSize)
    ensures ChunkRatio(g.blockSize, g.sectorSize) < 0x80_0000_0000_0000
  {
    QuotientShrinks(0x80_0000 * g.sectorSize, g.blockSize);
  }

  lemma GeometryAccepted(g: Geometry)
    ensures ValidateGeometry(g) == Ok <==> GeometrySound(g)
  {
    if g.blockSize > 0 && g.diskSize > 0 && g.sectorSize > 0 {
      RoundingWraps(g.diskSize, g.blockSize);
      RatioFits(g);
      var blocks, ratio := CeilDiv(g.diskSize, g.blockSize), ChunkRatio(g.blockSize, g.sectorSize);
      hide Wrap64, WrapU64, Quotient, EntryCount64, EntryCount, CeilDiv, ChunkRatio;
      if ratio > 0 && g.diskSize + g.blockSize - 1 < TWO_64 {
        if blocks <= 0xFFFF_FFFF {
          CountDoesNotWrap(blocks, ratio, g.diskType);
        } else {
          CountCovers(blocks, ratio, g.diskType);
        }
      }
    }
  }

  lemma CountCovers(blocks: nat, ratio: nat, diskType: DiskType)
    requires 0 < blocks && 0 < ratio
    ensures blocks <= EntryCount(blocks, ratio, diskType)
  {
    var q := (blocks - 1) / ratio;
    ChunkOfLast(blocks, ratio);
    CountProduct(blocks - 1, ratio, q);
  }

  /** The geometries the metadata parser hands on: an item that is absent leaves a zero
      block size, which is refused afterwards, or the default sector size. */
  predicate FromMetadata(g: Geometry) {
    g.sectorSize in {512, 4096} && (g.blockSize == 0 || Parsed(g.blockSize, g.sectorSize))
  }

  /** What the read path may rely on once a geometry is accepted: rounding up did not
      wrap, there are at most 2^23 blocks, and neither the block count nor the disk size
      nor the chunk ratio is truncated by a conversion made of it afterwards. */
  lemma GeometryBounds(g: Geometry)
    requires FromMetadata(g) && ValidateGeometry(g) == Ok
    ensures var blocks := CeilDiv(g.diskSize, g.blockSize);
      && WrapU64(g.diskSize + g.blockSize - 1) / g.blockSize == blocks
      && 0 < blocks <= 0x80_0000 && WrapU32(blocks) == blocks
      && g.diskSize <= blocks * g.blockSize
      && g.diskSize < 0x80_0000_0000_0000 && Wrap64(g.diskSize) == g.diskSize
    ensures var ratio := ChunkRatio(g.blockSize, g.sectorSize);
      0 < ratio <= 0x8000 && WrapU32(ratio) == ratio
  {
    GeometryAccepted(g);
    var blocks := CeilDiv(g.diskSize, g.blockSize);
    CountCovers(blocks, ChunkRatio(g.blockSize, g.sectorSize), g.diskType);
    RoundingWraps(g.diskSize, g.blockSize);
    RoundedUp(g.diskSize, g.blockSize);
    MulMonotone(blocks, 0x80_0000, g.blockSize);
    RatioNarrows(g.blockSize, g.sectorSize);
    hide CeilDiv, ChunkRatio, WrapU32, Wrap64, WrapU64;
  }

  lemma RoundedUp(size: nat, blockSize: nat)
    requires blockSize > 0
    ensures size <= CeilDiv(size, blockSize) * blockSize
    ensures forall v: nat :: v < size ==> v / blockSize < CeilDiv(size, blockSize)
  {
    var sum := size + blockSize - 1;
    assert sum == (sum / blockSize) * blockSize + sum % blockSize;
    forall v: nat | v < size ensures v / blockSize < CeilDiv(size, blockSize) {
      QuotientBelow(v, blockSize, CeilDiv(size, blockSize));
    }
  }

  /** When the region pointers came from an accepted table and the file size is known, the
      table that will be read lies in its region and in the file, except in one case that
      a caller can see: a zero-length region that leaves less than the table below 2^63. */
  lemma BatReadFits(g: Geometry, rs: seq<Region>, bat: Guid)
    requires ValidateGeometry(g) == Ok && g.fileSize > 0
    requires Acceptable(rs, g.fileSize) && ListsRegion(rs, bat, g.batOffset, g.batSize)
    ensures g.batSize > 0 ==> TableBytes(g) <= g.batSize
    ensures g.batOffset + TableBytes(g) <= g.fileSize <==> g.batSize > 0 || g.batOffset + TableBytes(g) < TWO_63
  {
    GeometryAccepted(g);
    var i :| 0 <= i < |rs| && rs[i].kind == bat && rs[i].offset == g.batOffset && rs[i].size == g.batSize;
    assert Placed(rs[i], g.fileSize);
  }

  /** A VHDX whose geometry was accepted and whose table was read is an image the read
      path handles: it has an entry for every byte and a bitmap slot for every block, and
      it is valid exactly when no present block reaches past 2^63 in the file. */
  lemma OpenedVhdx(g: Geometry, d: Disk, file: seq<byte>)
    requires FromMetadata(g) && ValidateGeometry(g) == Ok
    requires d.virtualSize == g.diskSize && d.blockSize == g.blockSize && d.sectorSize == g.sectorSize
    requires g.batOffset + TableBytes(g) <= |file|
    requires var ratio, blocks := ChunkRatio(g.blockSize, g.sectorSize), CeilDiv(g.diskSize, g.blockSize);
      && ratio > 0
      && (forall i :: 0 <= i < blocks ==> PayloadIndex(i, ratio) < EntryCount(blocks, ratio, g.diskType))
      && TableOf(d.table, file, g.batOffset, blocks, ratio, EntryCount(blocks, ratio, g.diskType))
    ensures Formed(d)
    ensures ValidImage(d) <==> forall i :: 0 <= i < |d.table.entries| && d.table.entries[i].isAllocated ==>
      OffsetBits(RawEntry(file, g.batOffset, PayloadIndex(i, ChunkRatio(g.blockSize, g.sectorSize)))) * MIB
        + g.blockSize <= TWO_63
    ensures forall v: nat :: v < d.virtualSize ==> v / d.blockSize < |d.table.entries|
    ensures forall b: nat :: b < |d.table.entries| ==> b / d.table.chunkRatio < |d.table.bitmapOffsets|
  {
    GeometryAccepted(g);
    GeometryBounds(g);
    RoundedUp(g.diskSize, g.blockSize);
    var ratio, blocks := ChunkRatio(g.blockSize, g.sectorSize), CeilDiv(g.diskSize, g.blockSize);
    RoundedUp(blocks, ratio);
    MulMonotone(blocks, MAX_BLOCKS, g.blockSize);
    DecodedTableValid(d.table, file, g.batOffset, blocks, g.blockSize, ratio, EntryCount(blocks, ratio, g.diskType));
    hide RawEntry, PayloadIndex, CeilDiv, ChunkRatio, EntryCount, BitmapAt, ValidateGeometry, OffsetBits, DecodeBlock;
  }

  // ---------------------------------------------------------------- VHD dynamic header

  datatype DynamicHeader = DynamicHeader(mediaSize: Uint64, blockSize: Uint32, blocks: Uint32, tableOffset: Int64)

  /** validateVHDDynamic. */
  function ValidateVhdDynamic(h: DynamicHeader, fileSize: Int64): Error {
    if h.blockSize == 0 then Invalid
    else if h.mediaSize == 0 then Invalid
    else if h.blocks == 0 then Invalid
    else
      var batBytes := h.blocks * 4;
      if batBytes > MAX_BAT_BYTES then Invalid
      else if h.tableOffset < 0 then Invalid
      else if fileSize > 0 && h.tableOffset > fileSize then Invalid
      else if fileSize > 0 && Wrap64(h.tableOffset + batBytes) > fileSize then Invalid
      else if h.blocks < Quotient(WrapU64(h.mediaSize + h.blockSize - 1), h.blockSize) then Invalid
      else Ok
  }

  /** Accepting a dynamic header, said without wrapping arithmetic: nothing is zero, the
      table is at most 64 MiB and starts inside the file, it ends there or past 2^63, and it
      has an entry for every block unless rounding the media size up wraps. */
  lemma DynamicAccepted(h: DynamicHeader, fileSize: Int64)
    ensures ValidateVhdDynamic(h, fileSize) == Ok <==>
      && h.blockSize > 0 && h.mediaSize > 0 && 0 < h.blocks <= 0x100_0000 && h.tableOffset >= 0
      && (fileSize > 0 ==> h.tableOffset <= fileSize)
      && (fileSize > 0 ==> h.tableOffset + 4 * h.blocks <= fileSize || h.tableOffset + 4 * h.blocks >= TWO_63)
      && (h.mediaSize + h.blockSize - 1 < TWO_64 ==> CeilDiv(h.mediaSize, h.blockSize) <= h.blocks)
  {
    if h.blockSize > 0 && h.mediaSize > 0 {
      RoundingWraps(h.mediaSize, h.blockSize);
      hide CeilDiv, Quotient;
    }
  }

  /** The table of an accepted header has an entry for every block exactly when rounding
      the media size up to whole blocks did not wrap. */
  lemma VhdTableCovers(h: DynamicHeader, fileSize: Int64)
    requires ValidateVhdDynamic(h, fileSize) == Ok
    ensures CeilDiv(h.mediaSize, h.blockSize) <= h.blocks <==> h.mediaSize + h.blockSize - 1 < TWO_64
    ensures fileSize > 0 ==>
      (h.tableOffset + 4 * h.blocks <= fileSize <==> h.tableOffset + 4 * h.blocks < TWO_63)
  {
    RoundingWraps(h.mediaSize, h.blockSize);
    if CeilDiv(h.mediaSize, h.blockSize) <= h.blocks {
      RoundedUp(h.mediaSize, h.blockSize);
      MulMonotone(CeilDiv(h.mediaSize, h.blockSize), 0x100_0000, h.blockSize);
    }
  }

  /** A media size that close to 2^64 is accepted with a table of one block. */
  lemma VhdTableCanFallShort()
    ensures var h := DynamicHeader(TWO_64 - 1, 0x20_0000, 1, 0x600);
      ValidateVhdDynamic(h, 0) == Ok && CeilDiv(h.mediaSize, h.blockSize) > h.blocks
  {
    RoundingWraps(TWO_64 - 1, 0x20_0000);
    QuotientBelow(TWO_64 - 1 + 0x20_0000 - 1, 0x20_0000, 2);
  }

  /** A VHD whose header was accepted and whose table was read is an image the read path
      handles, with an entry for every byte, exactly when the rounding did not wrap. */
  lemma OpenedVhd(h: DynamicHeader, fileSize: Int64, d: Disk)
    requires ValidateVhdDynamic(h, fileSize) == Ok
    requires d.virtualSize == h.mediaSize && d.blockSize == h.blockSize && d.sectorSize == DEFAULT_SECTOR_SIZE
    requires d.diskType != Fixed
    requires d.table.VhdTable? && ValidTable(d.table, h.blockSize) && |d.table.entries| == h.blocks
    ensures ValidImage(d) <==> h.mediaSize + h.blockSize - 1 < TWO_64
    ensures ValidImage(d) ==> forall v: nat :: v < d.virtualSize ==> v / d.blockSize < |d.table.entries|
  {
    VhdTableCovers(h, fileSize);
    RoundedUp(h.mediaSize, h.blockSize);
    var blocks := CeilDiv(h.mediaSize, h.blockSize);
    if blocks <= h.blocks {
      MulMonotone(blocks, MAX_BLOCKS, h.blockSize);
    }
    hide CeilDiv, ValidTable;
  }

  // ---------------------------------------------------------------- VHD fixed disks

  /** validateVHDFixed. */
  function ValidateVhdFixed(mediaSize: Uint64, fileSize: Int64, footerBytes: Int64): Error {
    if mediaSize == 0 then Invalid
    else if mediaSize >= TWO_63 then Invalid
    else
      var footer := if footerBytes <= 0 then 512 else footerBytes;
      if fileSize > 0 && Wrap64(mediaSize + footer) > fileSize then Invalid else Ok
  }

  /** Accepting a fixed disk, said without wrapping arithmetic: a media size that is neither
      zero nor 2^63 or more, in a file that is of unknown size, or holds the payload and its
      footer, or is one whose needed length is past 2^63. */
  lemma FixedAccepted(mediaSize: Uint64, fileSize: Int64, footerBytes: Int64)
    ensures ValidateVhdFixed(mediaSize, fileSize, footerBytes) == Ok <==>
      && 0 < mediaSize < 0x8000_0000_0000_0000
      && var need := mediaSize + (if footerBytes <= 0 then 512 else footerBytes);
         fileSize <= 0 || need <= fileSize || need >= 0x8000_0000_0000_0000
  {
  }

  /** A fixed disk that was accepted fits a file of known size exactly when its payload and
      footer together end below 2^63. */
  lemma FixedFits(mediaSize: Uint64, fileSize: Int64, footerBytes: Int64)
    requires 0 < footerBytes && ValidateVhdFixed(mediaSize, fileSize, footerBytes) == Ok && fileSize > 0
    ensures mediaSize + footerBytes <= fileSize <==> mediaSize + footerBytes < TWO_63
  {
  }
}
