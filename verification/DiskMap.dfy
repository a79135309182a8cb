/** VirtualDisk.Extents and the whole-disk walk, and what an extent map says about
    reads: one theorem per direction. */
module DiskMap {
  import opened Bytes
  import opened Counting
  import opened Words
  import opened Images
  import opened ReadPath
  import opened Extents
  import opened ExtentMap

  // ---------------------------------------------------------------- mapping a range

  /** VirtualDisk.Extents: the canonical map of the clamped range, or an error exactly
      when some byte of it has no answer. */
  method ExtentsOf(d: Disk, v: int, len: int) returns (es: seq<Extent>, err: Error)
    requires ValidChain(d)
    ensures v < 0 || len < 0 <==> err == NegativeOffset
    ensures v >= 0 && len >= 0 && v >= d.virtualSize ==> err == EndOfFile
    ensures 0 <= v < d.virtualSize && len >= 0 ==>
      var m := Min(len, d.virtualSize - v);
      && (err == Ok <==> NoFault(d, v, m))
      && (err == Ok ==> es == MapOf(d, v, m))
  {
    if v < 0 || len < 0 {
      return [], NegativeOffset;
    }
    if v >= d.virtualSize {
      return [], EndOfFile;
    }
    if len == 0 {
      return [], Ok;
    }
    var m := Min(len, d.virtualSize - v);
    var raw, e := RawExtents(d, v, m, 0);
    if e != Ok {
      return [], Invalid;
    }
    es := MergeExtents(raw);
    RawMerges(d, v, m, raw);
    return es, Ok;
  }

  lemma RawMerges(d: Disk, v: nat, len: nat, raw: seq<Extent>)
    requires ValidChain(d) && Raw(d, 0, v, len, raw)
    ensures Merge(raw) == MapOf(d, v, len)
  {
    MergeByBytes(raw);
  }

  /** Mapping a range in two parts and merging the two maps is mapping it whole. */
  lemma MapSplits(d: Disk, v: nat, a: nat, b: nat)
    requires ValidChain(d)
    ensures Merge(MapOf(d, v, a) + MapOf(d, v + a, b)) == MapOf(d, v, a + b)
  {
    MergeHomomorphism(Units(d, 0, v, a), Units(d, 0, v + a, b));
    UnitsConcat(d, 0, v, a, b);
  }

  const CHUNK := 0x4000_0000

  /** The devices whose chunks a signed 64-bit counter can step over. */
  predicate Walkable(d: Disk) {
    d.virtualSize <= TWO_63 - 0x4000_0000
  }

  /** AllExtentsContext: the disk mapped a gibibyte at a time and merged at the end. Past
      2^63 - 2^30 bytes the counter wraps to a negative offset, which is refused, so the
      walk succeeds exactly when the tables answer and the device is walkable. */
  method AllExtents(d: Disk) returns (es: seq<Extent>, err: Error)
    requires ValidChain(d)
    ensures err == Ok <==> NoFault(d, 0, d.virtualSize) && Walkable(d)
    ensures err == Ok ==> es == MapOf(d, 0, d.virtualSize)
  {
    hide Locate, Units, MapOf, Merge, NoFault;
    EmptyMap(d);
    if d.virtualSize == 0 {
      return [], Ok;
    }
    var out := [];
    var at: Int64 := 0;
    while at < d.virtualSize
      invariant at >= 0 ==> at % CHUNK == 0 && NoFault(d, 0, Min(at, d.virtualSize))
      invariant at >= 0 ==> Merge(out) == MapOf(d, 0, Min(at, d.virtualSize))
      invariant at < 0 ==> at == -TWO_63 && !Walkable(d)
      decreases if at < 0 then 0 else d.virtualSize - at + CHUNK
    {
      var span := CHUNK;
      var remaining := Wrap64(d.virtualSize - at);
      if span > remaining {
        span := remaining;
      }
      var part, e := ExtentsOf(d, at, span);
      if at < 0 {
        return [], e;
      }
      NoFaultSplits(d, at, span);
      if e != Ok {
        NoFaultSplits(d, at + span, d.virtualSize - (at + span));
        return [], e;
      }
      ChunkStep(d, out, at, span, part);
      out := out + part;
      at := Wrap64(at + CHUNK);
    }
    es := MergeExtents(out);
    return es, Ok;
  }

  lemma EmptyMap(d: Disk)
    requires ValidChain(d)
    ensures MapOf(d, 0, 0) == [] && Merge([]) == [] && NoFault(d, 0, 0)
  {
    assert Units(d, 0, 0, 0) == [];
  }

  lemma NoFaultSplits(d: Disk, a: nat, b: nat)
    requires ValidChain(d)
    ensures NoFault(d, 0, a + b) <==> NoFault(d, 0, a) && NoFault(d, a, b)
  {
    hide Locate;
  }

  /** One more chunk of the walk. */
  lemma ChunkStep(d: Disk, out: seq<Extent>, at: nat, span: nat, part: seq<Extent>)
    requires ValidChain(d) && Merge(out) == MapOf(d, 0, at) && part == MapOf(d, at, span)
    ensures Merge(out + part) == MapOf(d, 0, at + span)
  {
    hide Merge, Units;
    MergeHomomorphism(out, part);
    MapMerged(d, at, span);
    MapSplits(d, 0, at, span);
  }

  lemma MapMerged(d: Disk, v: nat, len: nat)
    requires ValidChain(d)
    ensures Merge(MapOf(d, v, len)) == MapOf(d, v, len)
  {
    MergeIsMerged(Units(d, 0, v, len));
    MergeFixed(MapOf(d, v, len));
  }

  // ---------------------------------------------------------------- what a map says

  /** What an extent of a merged list says about the bytes it stands for. Only a run of
      cleared bytes may mix links: it carries the link of its first byte. */
  ghost predicate Speaks(e: Extent, us: seq<Extent>, v: int) {
    && 0 < e.length && v <= e.virtualOffset && e.End() <= v + |us|
    && us[e.virtualOffset - v] == ByteOf(e, e.virtualOffset)
    && forall k :: 0 <= k < |us| && e.Has(v + k) ==>
         us[k].kind == e.kind && (!e.kind.ZeroedByChild? ==> us[k] == ByteOf(e, v + k))
  }

  /** A list that tiles [v, v + |us|) exactly, in order, with nothing left to merge. */
  ghost predicate Tiling(es: seq<Extent>, us: seq<Extent>, v: int) {
    && (es == [] <==> us == [])
    && (es != [] ==> es[0].virtualOffset == v && es[|es| - 1].End() == v + |us|)
    && (forall i :: 0 < i < |es| ==> es[i].virtualOffset == es[i - 1].End())
    && (forall i :: 0 <= i < |es| ==> Speaks(es[i], us, v))
    && Merged(es)
  }

  /** One extent per byte, as `Units` lists them. */
  ghost predicate ByteList(us: seq<Extent>, v: int) {
    forall k :: 0 <= k < |us| ==>
      us[k].virtualOffset == v + k && us[k].length == 1 && Normalize(us[k]) == us[k]
  }

  lemma {:induction false} MergeTiles(us: seq<Extent>, v: int)
    requires ByteList(us, v)
    ensures Tiling(Merge(us), us, v)
  {
    MergeIsMerged(us);
    if us != [] {
      var front, u := us[..|us| - 1], us[|us| - 1];
      MergeTiles(front, v);
      assert us == front + [u];
      MergeSnoc(front, u);
      TilingPush(Merge(front), front, u, v);
    }
  }

  lemma TilingPush(out: seq<Extent>, front: seq<Extent>, u: Extent, v: int)
    requires ByteList(front + [u], v) && Tiling(out, front, v)
    requires Merged(Push(out, u))
    ensures Tiling(Push(out, u), front + [u], v)
  {
    var us, next := front + [u], Push(out, u);
    assert us[|front|] == u;
    forall i | 0 <= i < |out| ensures Speaks(out[i], us, v) {
      SpeaksStill(out[i], front, u, v);
    }
    if out != [] && CanMerge(out[|out| - 1], u) {
      SpeaksOn(out[|out| - 1], us, v);
    } else {
      assert u.End() == v + |us|;
      assert ByteOf(u, u.virtualOffset) == u;
      assert Speaks(u, us, v);
    }
    hide Speaks;
    forall i | 0 <= i < |next| ensures Speaks(next[i], us, v) {
    }
  }

  lemma SpeaksStill(e: Extent, front: seq<Extent>, u: Extent, v: int)
    requires Speaks(e, front, v)
    ensures Speaks(e, front + [u], v)
  {
    assert forall k :: 0 <= k < |front| ==> (front + [u])[k] == front[k];
  }

  /** An extent that takes in the next byte speaks for it too. */
  lemma SpeaksOn(e: Extent, us: seq<Extent>, v: int)
    requires us != [] && ByteList(us, v)
    requires Speaks(e, us, v) && e.End() == v + |us| - 1
    requires CanMerge(e, us[|us| - 1])
    ensures Speaks(Glue(e, us[|us| - 1]), us, v)
  {
    var g := Glue(e, us[|us| - 1]);
    forall k | 0 <= k < |us| && g.Has(v + k)
      ensures us[k].kind == g.kind && (!g.kind.ZeroedByChild? ==> us[k] == ByteOf(g, v + k))
    {
      if k < |us| - 1 {
        assert e.Has(v + k) && ByteOf(g, v + k) == ByteOf(e, v + k);
      }
    }
  }

  /** The extent map of a range tiles it, and says of every byte what `Locate` says. */
  lemma MapTiles(d: Disk, v: nat, len: nat)
    requires ValidChain(d)
    ensures Tiling(MapOf(d, v, len), Units(d, 0, v, len), v)
  {
    MergeTiles(Units(d, 0, v, len), v);
  }

  /** In a tiling, every byte of the range is in some extent. */
  lemma {:induction false} TilingCovers(es: seq<Extent>, us: seq<Extent>, v: int, x: int, upto: nat) returns (i: nat)
    requires Tiling(es, us, v) && v <= x < v + |us|
    requires upto < |es| && x < es[upto].End()
    ensures i <= upto && es[i].Has(x)
    decreases upto
  {
    if es[upto].virtualOffset <= x {
      i := upto;
    } else {
      i := TilingCovers(es, us, v, x, upto - 1);
    }
  }

  // ---------------------------------------------------------------- links and paths

  /** The link a place names exists, and is the disk with that path. */
  lemma {:induction false} PlaceLink(d: Disk, v: nat)
    requires ValidChain(d)
    ensures var p := Locate(d, v);
      && (p.InFile? || p.Cleared? ==> p.link < Depth(d) && Link(d, p.link).path == p.path)
      && (p.Missing? ==> p.link == Depth(d))
    decreases d
  {
    if VerdictAt(d, v) == Beneath && d.parent.Some? {
      PlaceLink(d.parent.value, v);
    }
  }

  /** What an extent map promises about the contents of one byte. */
  function Promise(d: Disk, e: Extent, x: int): Cell
    requires e.Has(x)
  {
    match e.kind
    case Zero => Value(0)
    case ZeroedByChild => Value(0)
    case Unresolved => NeedsParent
    case Mapped =>
      if e.chainIndex >= Depth(d) then Unreadable else
        match FileByte(Link(d, e.chainIndex).source, e.fileOffset + (x - e.virtualOffset))
        case None => Unreadable
        case Some(b) => Value(b)
  }

  /** Reads and extent maps agree on every byte, through every link of the chain. */
  lemma MapPromises(d: Disk, v: nat, len: nat, i: nat, x: int)
    requires ValidChain(d) && NoFault(d, v, len)
    requires i < |MapOf(d, v, len)| && MapOf(d, v, len)[i].Has(x)
    ensures v <= x < v + len
    ensures var e := MapOf(d, v, len)[i];
      && ByteAt(d, x) == Promise(d, e, x)
      && (e.kind.Mapped? ==> e.chainIndex < Depth(d) && Link(d, e.chainIndex).path == e.path)
      && (e.kind.Unresolved? ==> e.chainIndex == Depth(d))
  {
    MapTiles(d, v, len);
    var e, us := MapOf(d, v, len)[i], Units(d, 0, v, len);
    assert Speaks(e, us, v);
    assert e.Has(v + (x - v)) && us[x - v].kind == e.kind;
    PlaceLink(d, x);
  }

  /** The bytes a read delivered are the bytes the extent map promises. */
  lemma ReadMatchesMap(d: Disk, v: nat, len: nat, p: array<byte>, lo: nat, n: nat, i: nat, x: int)
    requires ValidChain(d) && NoFault(d, v, len)
    requires lo + n <= p.Length && n <= len && Holds(d, v, p, lo, n)
    requires i < |MapOf(d, v, len)| && MapOf(d, v, len)[i].Has(x) && x < v + n
    ensures v <= x && Promise(d, MapOf(d, v, len)[i], x) == Value(p[lo + (x - v)])
  {
    hide ByteAt;
    MapPromises(d, v, len, i, x);
    assert Value(p[lo + (x - v)]) == ByteAt(d, v + (lo + (x - v) - lo));
  }

  /** Failing closed, exactly, for what `ReadPath.ReadAt` promises of any request that
      starts on the device: when the files can be read, the read is refused for want of a
      parent if and only if its clamped range meets an unresolved extent, and then it
      delivers everything before the first one; otherwise it delivers the whole range. */
  lemma FailsClosed(d: Disk, p: array<byte>, lo: nat, hi: nat, v: nat, n: nat, err: Error)
    requires ValidChain(d) && lo <= hi <= p.Length && v < d.virtualSize
    requires lo + n <= hi && DeviceStops(d, v, hi - lo, n, err) && (n > 0 ==> Holds(d, v, p, lo, n))
    requires Readable(d, v, Clamped(d, v, hi - lo))
    ensures NoFault(d, v, Clamped(d, v, hi - lo))
    ensures err == ParentRequired <==> AnyUnresolved(MapOf(d, v, Clamped(d, v, hi - lo)))
    ensures err == ParentRequired ==> UnresolvedFrom(MapOf(d, v, Clamped(d, v, hi - lo)), v + n)
    ensures err != ParentRequired ==>
      n == Clamped(d, v, hi - lo) && err == if n < hi - lo then EndOfFile else Ok
  {
    var m := Clamped(d, v, hi - lo);
    ReadableHasNoFault(d, v, m);
    assert n == m || Stops(d, v, m, n, err);
    forall x | v <= x < v + n ensures ByteAt(d, x).Value? {
      assert ByteAt(d, v + (lo + (x - v) - lo)) == Value(p[lo + (x - v)]);
    }
    hide ByteAt, MapOf, Holds, NoFault;
    if n < m {
      var i := UnresolvedAt(d, v, m, v + n);
      assert FirstUnresolved(MapOf(d, v, m), i, v + n);
    } else {
      AllDelivered(d, v, m);
    }
  }

  /** How much of a request of len bytes at v is on the device. */
  function Clamped(d: Disk, v: nat, len: nat): nat
    requires v < d.virtualSize
  {
    Min(len, d.virtualSize - v)
  }

  /** No byte of a range is one the tables or the files cannot supply. */
  ghost predicate Readable(d: Disk, v: nat, len: nat)
    requires ValidChain(d)
  {
    forall x :: v <= x < v + len ==> ByteAt(d, x) != Unreadable
  }

  lemma ReadableHasNoFault(d: Disk, v: nat, len: nat)
    requires ValidChain(d) && Readable(d, v, len)
    ensures NoFault(d, v, len)
  {
    hide Locate;
    forall i | v <= i < v + len ensures Locate(d, i) != Fault {
      assert ByteAt(d, i) != Unreadable;
    }
  }

  /** Nothing is unresolved where every byte was delivered. */
  lemma AllDelivered(d: Disk, v: nat, len: nat)
    requires ValidChain(d) && NoFault(d, v, len)
    requires forall x :: v <= x < v + len ==> ByteAt(d, x).Value?
    ensures !AnyUnresolved(MapOf(d, v, len))
  {
    hide ByteAt, MapOf, NoFault;
    forall i | 0 <= i < |MapOf(d, v, len)| ensures !MapOf(d, v, len)[i].kind.Unresolved? {
      ExtentStart(d, v, len, i);
    }
  }

  ghost predicate AnyUnresolved(es: seq<Extent>) {
    exists i :: 0 <= i < |es| && es[i].kind.Unresolved?
  }

  /** Extent i is the first unresolved one, and it starts at x. */
  ghost predicate FirstUnresolved(es: seq<Extent>, i: nat, x: int) {
    && i < |es| && es[i].kind.Unresolved? && es[i].virtualOffset == x
    && forall j :: 0 <= j < i ==> !es[j].kind.Unresolved?
  }

  ghost predicate UnresolvedFrom(es: seq<Extent>, x: int) {
    exists i :: FirstUnresolved(es, i, x)
  }

  /** What the first byte of an extent reads as. */
  lemma ExtentStart(d: Disk, v: nat, len: nat, i: nat)
    requires ValidChain(d) && NoFault(d, v, len) && i < |MapOf(d, v, len)|
    ensures var e := MapOf(d, v, len)[i];
      v <= e.virtualOffset < v + len && (e.kind.Unresolved? ==> ByteAt(d, e.virtualOffset) == NeedsParent)
  {
    MapTiles(d, v, len);
    hide ByteAt;
    assert Speaks(MapOf(d, v, len)[i], Units(d, 0, v, len), v);
    MapPromises(d, v, len, i, MapOf(d, v, len)[i].virtualOffset);
  }

  lemma UnresolvedAt(d: Disk, v: nat, len: nat, x: nat) returns (i: nat)
    requires ValidChain(d) && NoFault(d, v, len) && v <= x < v + len
    requires forall y :: v <= y < x ==> ByteAt(d, y).Value?
    requires ByteAt(d, x) == NeedsParent
    ensures FirstUnresolved(MapOf(d, v, len), i, x)
  {
    var es, us := MapOf(d, v, len), Units(d, 0, v, len);
    MapTiles(d, v, len);
    hide ByteAt, MapOf, Units, Tiling, NoFault, Promise;
    TilingEnds(es, us, v);
    i := TilingCovers(es, us, v, x, |es| - 1);
    UnresolvedHere(d, v, len, i, x);
    forall j | 0 <= j < i ensures !es[j].kind.Unresolved? {
      TilingAscends(es, us, v, j, i);
      ExtentStart(d, v, len, j);
    }
  }

  /** The extent of the first byte that needs a parent is unresolved and starts there. */
  lemma UnresolvedHere(d: Disk, v: nat, len: nat, i: nat, x: nat)
    requires ValidChain(d) && NoFault(d, v, len) && v <= x < v + len
    requires forall y :: v <= y < x ==> ByteAt(d, y).Value?
    requires ByteAt(d, x) == NeedsParent
    requires i < |MapOf(d, v, len)| && MapOf(d, v, len)[i].Has(x)
    ensures MapOf(d, v, len)[i].kind.Unresolved? && MapOf(d, v, len)[i].virtualOffset == x
  {
    hide ByteAt, MapOf, NoFault;
    MapPromises(d, v, len, i, x);
    ExtentStart(d, v, len, i);
  }

  lemma TilingEnds(es: seq<Extent>, us: seq<Extent>, v: int)
    requires Tiling(es, us, v) && us != []
    ensures es != [] && es[|es| - 1].End() == v + |us|
  {
  }

  lemma {:induction false} TilingAscends(es: seq<Extent>, us: seq<Extent>, v: int, i: nat, j: nat)
    requires Tiling(es, us, v) && i < j < |es|
    ensures es[i].virtualOffset < es[i].End() <= es[j].virtualOffset
    decreases j - i
  {
    assert Speaks(es[i], us, v) && Speaks(es[j - 1], us, v);
    if i + 1 < j {
      TilingAscends(es, us, v, i, j - 1);
    }
  }

  // ---------------------------------------------------------------- accounting

  datatype Totals = Totals(mapped: int, zero: int, zeroedByChild: int, unresolved: int)
  {
    function Sum(): int { mapped + zero + zeroedByChild + unresolved }

    function Of(kind: Kind): int {
      match kind
      case Mapped => mapped
      case Zero => zero
      case ZeroedByChild => zeroedByChild
      case Unresolved => unresolved
    }

    function Add(kind: Kind, n: int): Totals {
      match kind
      case Mapped => this.(mapped := mapped + n)
      case Zero => this.(zero := zero + n)
      case ZeroedByChild => this.(zeroedByChild := zeroedByChild + n)
      case Unresolved => this.(unresolved := unresolved + n)
    }
  }

  /** The totals of an allocation report: each kind's total is the number of bytes of that
      kind, and the four account for every byte. */
  method AllocationTotals(d: Disk) returns (t: Totals, err: Error)
    requires ValidChain(d)
    ensures err == Ok <==> NoFault(d, 0, d.virtualSize) && Walkable(d)
    ensures err == Ok ==> t.Sum() == d.virtualSize
    ensures err == Ok ==> t.mapped == |KindBelow(d, Mapped, d.virtualSize)|
    ensures err == Ok ==> t.zero == |KindBelow(d, Zero, d.virtualSize)|
    ensures err == Ok ==> t.zeroedByChild == |KindBelow(d, ZeroedByChild, d.virtualSize)|
    ensures err == Ok ==> t.unresolved == |KindBelow(d, Unresolved, d.virtualSize)|
  {
    t := Totals(0, 0, 0, 0);
    var es, e := AllExtents(d);
    if e != Ok {
      return t, e;
    }
    MapTiles(d, 0, d.virtualSize);
    ghost var us := Units(d, 0, 0, d.virtualSize);
    assert CountsBelow(t, d, 0) by { NoneBelow(d); }
    hide Locate, MapOf, Units, Speaks, KindBelow, Merged, CountsBelow;
    ghost var at := 0;
    for i := 0 to |es|
      invariant at == if i == |es| then d.virtualSize else es[i].virtualOffset
      invariant CountsBelow(t, d, at)
    {
      var x := es[i];
      CountsGrow(t, d, x, us);
      t := t.Add(x.kind, x.length);
      at := x.End();
    }
    CountedAll(t, d);
    return t, Ok;
  }

  lemma CountedAll(t: Totals, d: Disk)
    requires ValidChain(d) && CountsBelow(t, d, d.virtualSize)
    ensures t.Sum() == d.virtualSize
    ensures t.mapped == |KindBelow(d, Mapped, d.virtualSize)| && t.zero == |KindBelow(d, Zero, d.virtualSize)|
    ensures t.zeroedByChild == |KindBelow(d, ZeroedByChild, d.virtualSize)|
    ensures t.unresolved == |KindBelow(d, Unresolved, d.virtualSize)|
  {
    assert t.Of(Mapped) == t.mapped && t.Of(Zero) == t.zero;
    assert t.Of(ZeroedByChild) == t.zeroedByChild && t.Of(Unresolved) == t.unresolved;
  }

  /** The bytes of one kind before `at`. */
  ghost function KindBelow(d: Disk, kind: Kind, at: int): set<int>
    requires ValidChain(d)
  {
    set x | 0 <= x < at && UnitOf(Locate(d, x), 0, x).kind == kind :: x
  }

  ghost predicate CountsBelow(t: Totals, d: Disk, at: int)
    requires ValidChain(d)
  {
    t.Sum() == at && forall kind: Kind :: t.Of(kind) == |KindBelow(d, kind, at)|
  }

  lemma CountsGrow(t: Totals, d: Disk, e: Extent, us: seq<Extent>)
    requires ValidChain(d) && us == Units(d, 0, 0, d.virtualSize) && Speaks(e, us, 0)
    requires CountsBelow(t, d, e.virtualOffset)
    ensures CountsBelow(t.Add(e.kind, e.length), d, e.End())
  {
    hide Locate, Units, Speaks, KindBelow;
    forall kind: Kind ensures t.Add(e.kind, e.length).Of(kind) == |KindBelow(d, kind, e.End())| {
      KindGrows(d, kind, e, us);
    }
  }

  lemma NoneBelow(d: Disk)
    requires ValidChain(d)
    ensures forall kind: Kind :: |KindBelow(d, kind, 0)| == 0
  {
    assert forall kind: Kind :: KindBelow(d, kind, 0) == {};
  }

  lemma KindGrows(d: Disk, kind: Kind, e: Extent, us: seq<Extent>)
    requires ValidChain(d) && us == Units(d, 0, 0, d.virtualSize) && Speaks(e, us, 0)
    ensures |KindBelow(d, kind, e.End())| ==
            |KindBelow(d, kind, e.virtualOffset)| + if e.kind == kind then e.length else 0
  {
    hide Locate, UnitOf;
    var a, b := KindBelow(d, kind, e.virtualOffset), KindBelow(d, kind, e.End());
    forall x | e.virtualOffset <= x < e.End() ensures UnitOf(Locate(d, x), 0, x).kind == e.kind {
      assert e.Has(0 + x) && us[x].kind == e.kind;
    }
    if e.kind == kind {
      var own := Interval(e.virtualOffset, e.length);
      forall x | x in own ensures x in b {
        assert UnitOf(Locate(d, x), 0, x).kind == kind;
      }
      assert b == a + own && a !! own;
    } else {
      assert b == a;
    }
  }
}
