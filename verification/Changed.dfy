/** Block-level change tracking: ChangedExtents and ChangedBytes, and exactly when what
    they report is what the nearer links wrote. */
module Changed {
  import opened Bytes
  import opened Counting
  import opened Images
  import opened Words
  import opened Extents
  import opened ExtentMap
  import opened DiskMap

  /** Which extents of the whole-disk map are reported as changed since link k. */
  predicate Reported(e: Extent, k: int) {
    if e.kind.Unresolved? then e.chainIndex <= k else e.kind.IsWrite() && e.chainIndex < k
  }

  function Select(es: seq<Extent>, k: int): seq<Extent> {
    if es == [] then []
    else Select(es[..|es| - 1], k) + if Reported(es[|es| - 1], k) then [es[|es| - 1]] else []
  }

  /** What ChangedExtents(k) returns for a disk whose tables are intact. */
  function ChangedOf(d: Disk, k: int): seq<Extent>
    requires ValidChain(d)
  {
    Merge(Select(MapOf(d, 0, d.virtualSize), k))
  }

  method ChangedExtents(d: Disk, k: int) returns (out: seq<Extent>, err: Error)
    requires ValidChain(d)
    ensures err == Ok <==> k >= 1 && NoFault(d, 0, d.virtualSize) && Walkable(d)
    ensures err == Ok ==> out == ChangedOf(d, k)
  {
    if k <= 0 {
      return [], Invalid;
    }
    var all, e := AllExtents(d);
    if e != Ok {
      return [], e;
    }
    var picked := [];
    for i := 0 to |all|
      invariant picked == Select(all[..i], k)
    {
      assert all[..i + 1][..i] == all[..i];
      if all[i].kind.Unresolved? {
        if all[i].chainIndex <= k {
          picked := picked + [all[i]];
        }
      } else if all[i].kind.IsWrite() && all[i].chainIndex < k {
        picked := picked + [all[i]];
      }
    }
    assert all[..|all|] == all;
    out := MergeExtents(picked);
    return out, Ok;
  }

  // ---------------------------------------------------------------- which bytes a list covers

  /** Some extent of one of the given kinds has the byte. */
  ghost predicate Covers(es: seq<Extent>, kinds: set<Kind>, x: int) {
    exists i :: 0 <= i < |es| && es[i].kind in kinds && es[i].Has(x)
  }

  const WRITES: set<Kind> := {Mapped, ZeroedByChild}

  lemma CoversSnoc(es: seq<Extent>, e: Extent, kinds: set<Kind>, x: int)
    ensures Covers(es + [e], kinds, x) <==> Covers(es, kinds, x) || (e.kind in kinds && e.Has(x))
  {
    if Covers(es, kinds, x) {
      var i :| 0 <= i < |es| && es[i].kind in kinds && es[i].Has(x);
      assert (es + [e])[i] == es[i];
    }
    if e.kind in kinds && e.Has(x) {
      assert (es + [e])[|es|] == e;
    }
  }

  /** Merging a list changes neither the bytes it covers nor their kinds. */
  lemma {:induction false} MergeCovers(es: seq<Extent>, kinds: set<Kind>, x: int)
    requires Positive(es)
    ensures Positive(Merge(es))
    ensures Covers(Merge(es), kinds, x) <==> Covers(es, kinds, x)
  {
    if es != [] {
      var front, e := es[..|es| - 1], es[|es| - 1];
      MergeCovers(front, kinds, x);
      assert es == front + [e];
      CoversSnoc(front, e, kinds, x);
      PushCovers(Merge(front), Normalize(e), kinds, x);
    }
  }

  lemma PushCovers(out: seq<Extent>, e: Extent, kinds: set<Kind>, x: int)
    requires Positive(out) && e.length > 0
    ensures Positive(Push(out, e))
    ensures Covers(Push(out, e), kinds, x) <==> Covers(out, kinds, x) || (e.kind in kinds && e.Has(x))
  {
    if out != [] && CanMerge(out[|out| - 1], e) {
      var rest, l := out[..|out| - 1], out[|out| - 1];
      assert out == rest + [l];
      CoversSnoc(rest, l, kinds, x);
      CoversSnoc(rest, Glue(l, e), kinds, x);
    } else {
      CoversSnoc(out, e, kinds, x);
    }
  }

  lemma {:induction false} SelectCovers(es: seq<Extent>, k: int, kinds: set<Kind>, x: int)
    requires Positive(es)
    ensures Positive(Select(es, k))
    ensures Covers(Select(es, k), kinds, x) <==>
      exists i :: 0 <= i < |es| && Reported(es[i], k) && es[i].kind in kinds && es[i].Has(x)
  {
    if es != [] {
      var front, e := es[..|es| - 1], es[|es| - 1];
      SelectCovers(front, k, kinds, x);
      CoversSnoc(Select(front, k), e, kinds, x);
      if exists i :: 0 <= i < |front| && Reported(front[i], k) && front[i].kind in kinds && front[i].Has(x) {
        var i :| 0 <= i < |front| && Reported(front[i], k) && front[i].kind in kinds && front[i].Has(x);
        assert es[i] == front[i];
      }
      if exists i :: 0 <= i < |es| && Reported(es[i], k) && es[i].kind in kinds && es[i].Has(x) {
        var i :| 0 <= i < |es| && Reported(es[i], k) && es[i].kind in kinds && es[i].Has(x);
        assert i == |es| - 1 || front[i] == es[i];
      }
    }
  }

  // ---------------------------------------------------------------- the extent of a byte

  /** The one extent of the whole-disk map that has a byte. */
  lemma ExtentOf(d: Disk, x: int) returns (i: nat)
    requires ValidChain(d) && 0 <= x < d.virtualSize
    ensures var es := MapOf(d, 0, d.virtualSize);
      && i < |es| && es[i].Has(x) && Speaks(es[i], Units(d, 0, 0, d.virtualSize), 0)
      && forall j :: 0 <= j < |es| && es[j].Has(x) ==> j == i
  {
    var es, us := MapOf(d, 0, d.virtualSize), Units(d, 0, 0, d.virtualSize);
    MapTiles(d, 0, d.virtualSize);
    hide MapOf, Units, Speaks, Merged;
    i := TilingCovers(es, us, 0, x, |es| - 1);
    forall j | 0 <= j < |es| && es[j].Has(x) ensures j == i {
      if j < i {
        TilingAscends(es, us, 0, j, i);
      } else if i < j {
        TilingAscends(es, us, 0, i, j);
      }
    }
  }

  /** A byte is covered by the report exactly when its extent is in it. */
  lemma ReportCovers(d: Disk, k: int, kinds: set<Kind>, x: int, i: nat)
    requires ValidChain(d)
    requires var es := MapOf(d, 0, d.virtualSize);
      && i < |es| && es[i].Has(x) && forall j :: 0 <= j < |es| && es[j].Has(x) ==> j == i
    ensures Covers(ChangedOf(d, k), kinds, x) <==>
      var e := MapOf(d, 0, d.virtualSize)[i]; Reported(e, k) && e.kind in kinds
  {
    var es := MapOf(d, 0, d.virtualSize);
    MapTiles(d, 0, d.virtualSize);
    assert Positive(es) by {
      forall j | 0 <= j < |es| ensures es[j].length > 0 {
        assert Speaks(es[j], Units(d, 0, 0, d.virtualSize), 0);
      }
    }
    hide MapOf, Merge, Select;
    SelectCovers(es, k, kinds, x);
    MergeCovers(Select(es, k), kinds, x);
  }

  // ---------------------------------------------------------------- exactness

  /** A link nearer the leaf than k wrote the byte, with data or with zeroes. */
  predicate WrittenBelow(d: Disk, k: nat, x: nat)
    requires ValidChain(d)
  {
    var p := Locate(d, x);
    (p.InFile? || p.Cleared?) && p.link < k
  }

  predicate ClearedAt(d: Disk, x: nat)
    requires ValidChain(d)
  {
    Locate(d, x).Cleared?
  }

  /** No two neighbouring cleared bytes were cleared on opposite sides of link k. */
  ghost predicate NoStraddle(d: Disk, k: nat)
    requires ValidChain(d)
  {
    forall x, y :: 0 <= x && y == x + 1 && y < d.virtualSize && ClearedAt(d, x) && ClearedAt(d, y) ==>
      (WrittenBelow(d, k, x) <==> WrittenBelow(d, k, y))
  }

  /** The report covers exactly the bytes the nearer links wrote. */
  ghost predicate Exact(d: Disk, k: nat)
    requires ValidChain(d)
  {
    forall x :: 0 <= x < d.virtualSize ==> (Covers(ChangedOf(d, k), WRITES, x) <==> WrittenBelow(d, k, x))
  }

  /** Where a byte's own extent starts, which is what decides whether it is reported. */
  lemma CoveredByItsRun(d: Disk, k: nat, x: nat) returns (start: nat)
    requires ValidChain(d) && x < d.virtualSize && NoFault(d, 0, d.virtualSize)
    ensures start <= x
    ensures !ClearedAt(d, x) ==> start == x
    ensures ClearedAt(d, x) ==> forall y :: start <= y <= x ==> ClearedAt(d, y)
    ensures Covers(ChangedOf(d, k), WRITES, x) <==> WrittenBelow(d, k, start)
  {
    var i := ExtentOf(d, x);
    var us, e := Units(d, 0, 0, d.virtualSize), MapOf(d, 0, d.virtualSize)[i];
    ReportCovers(d, k, WRITES, x, i);
    RunOfByte(e, us, x);
    start := if e.kind.ZeroedByChild? then e.virtualOffset else x;
    hide MapOf, Units, ChangedOf, Covers, Speaks, ClearedAt, WrittenBelow, Locate;
    forall y | start <= y <= x ensures ClearedAt(d, y) <==> us[y].kind.ZeroedByChild? {
      UnitWritten(d, k, y);
    }
    UnitWritten(d, k, start);
  }

  /** The bytes of an extent up to x are of its kind, and its link is its first byte's. */
  lemma RunOfByte(e: Extent, us: seq<Extent>, x: int)
    requires Speaks(e, us, 0) && e.Has(x)
    ensures 0 <= e.virtualOffset && x < |us|
    ensures forall y :: e.virtualOffset <= y <= x ==> us[y].kind == e.kind
    ensures e.kind.ZeroedByChild? ==> us[e.virtualOffset].chainIndex == e.chainIndex
    ensures !e.kind.ZeroedByChild? ==> us[x].chainIndex == e.chainIndex
  {
    forall y | e.virtualOffset <= y <= x ensures us[y].kind == e.kind {
      assert e.Has(0 + y);
    }
    assert e.Has(0 + x) && us[x].kind == e.kind;
  }

  /** A byte's unit extent tells whether, and by which link, it was written. */
  lemma UnitWritten(d: Disk, k: nat, y: nat)
    requires ValidChain(d) && y < d.virtualSize && NoFault(d, 0, d.virtualSize)
    ensures var u := Units(d, 0, 0, d.virtualSize)[y];
      && (ClearedAt(d, y) <==> u.kind.ZeroedByChild?)
      && (WrittenBelow(d, k, y) <==> u.kind in WRITES && u.chainIndex < k)
  {
    hide Locate;
    assert Locate(d, y) != Fault;
    assert Units(d, 0, 0, d.virtualSize)[y] == UnitOf(Locate(d, 0 + y), 0, 0 + y);
  }

  /** Neighbouring cleared bytes are reported together. */
  lemma CoveredTogether(d: Disk, k: nat, x: nat)
    requires ValidChain(d) && x + 1 < d.virtualSize && NoFault(d, 0, d.virtualSize)
    requires ClearedAt(d, x) && ClearedAt(d, x + 1)
    ensures Covers(ChangedOf(d, k), WRITES, x + 1) <==> Covers(ChangedOf(d, k), WRITES, x)
  {
    var i := ExtentOf(d, x);
    var j := ExtentOf(d, x + 1);
    ReportCovers(d, k, WRITES, x, i);
    ReportCovers(d, k, WRITES, x + 1, j);
    MapTiles(d, 0, d.virtualSize);
    hide MapOf, Locate, ChangedOf, Covers, Tiling, Speaks;
    SameClearedRun(MapOf(d, 0, d.virtualSize), Units(d, 0, 0, d.virtualSize), x, i, j);
  }

  lemma TilingAt(es: seq<Extent>, us: seq<Extent>, v: int, i: nat)
    requires Tiling(es, us, v) && i < |es|
    ensures Speaks(es[i], us, v)
    ensures i > 0 ==> !CanMerge(es[i - 1], es[i]) && es[i].virtualOffset == es[i - 1].End()
  {
  }

  /** Neighbouring cleared bytes are in one extent of a tiling. */
  lemma SameClearedRun(es: seq<Extent>, us: seq<Extent>, x: int, i: nat, j: nat)
    requires Tiling(es, us, 0) && i < |es| && j < |es| && es[i].Has(x) && es[j].Has(x + 1)
    requires 0 <= x && x + 1 < |us| && us[x].kind.ZeroedByChild? && us[x + 1].kind.ZeroedByChild?
    ensures i == j
  {
    TilingAt(es, us, 0, i);
    TilingAt(es, us, 0, j);
    assert es[i].Has(0 + x) && es[j].Has(0 + (x + 1));
    assert es[i].kind.ZeroedByChild? && es[j].kind.ZeroedByChild?;
    hide Speaks;
    if j < i {
      TilingAscends(es, us, 0, j, i);
    } else if i < j {
      TilingAt(es, us, 0, i + 1);
      if i + 1 < j {
        assert es[i + 1].End() > es[i].End() by {
          assert Speaks(es[i + 1], us, 0);
          SpeaksLength(es[i + 1], us, 0);
        }
        TilingAscends(es, us, 0, i + 1, j);
      }
    }
  }

  lemma SpeaksLength(e: Extent, us: seq<Extent>, v: int)
    requires Speaks(e, us, v)
    ensures e.length > 0
  {
  }

  lemma {:induction false} SameSide(d: Disk, k: nat, a: nat, b: nat)
    requires ValidChain(d) && a <= b < d.virtualSize && NoStraddle(d, k)
    requires forall y :: a <= y <= b ==> ClearedAt(d, y)
    ensures WrittenBelow(d, k, a) <==> WrittenBelow(d, k, b)
    decreases b - a
  {
    if a < b {
      SameSide(d, k, a, b - 1);
      assert ClearedAt(d, b - 1) && ClearedAt(d, b);
    }
  }

  /** ChangedExtents(k) covers exactly the bytes the nearer links wrote if and only if no
      cleared run crosses link k. */
  lemma ChangedIsExact(d: Disk, k: nat)
    requires ValidChain(d) && NoFault(d, 0, d.virtualSize)
    ensures Exact(d, k) <==> NoStraddle(d, k)
  {
    hide ChangedOf, Covers, WrittenBelow, ClearedAt;
    if NoStraddle(d, k) {
      forall x | 0 <= x < d.virtualSize ensures Covers(ChangedOf(d, k), WRITES, x) <==> WrittenBelow(d, k, x) {
        var start := CoveredByItsRun(d, k, x);
        if start < x {
          SameSide(d, k, start, x);
        }
      }
    }
    if Exact(d, k) {
      forall x, y | 0 <= x && y == x + 1 && y < d.virtualSize && ClearedAt(d, x) && ClearedAt(d, y)
        ensures WrittenBelow(d, k, x) <==> WrittenBelow(d, k, y)
      {
        CoveredTogether(d, k, x);
        assert Covers(ChangedOf(d, k), WRITES, x) <==> WrittenBelow(d, k, x);
        assert Covers(ChangedOf(d, k), WRITES, y) <==> WrittenBelow(d, k, y);
      }
    }
  }

  /** Gaps are reported exactly: an unresolved byte is in the report if and only if the
      missing link is within the range asked about. */
  lemma GapsAreExact(d: Disk, k: nat, x: nat)
    requires ValidChain(d) && NoFault(d, 0, d.virtualSize) && x < d.virtualSize
    ensures Covers(ChangedOf(d, k), {Unresolved}, x) <==> Locate(d, x).Missing? && Depth(d) <= k
  {
    var i := ExtentOf(d, x);
    ReportCovers(d, k, {Unresolved}, x, i);
    MapPromises(d, 0, d.virtualSize, i, x);
    PlaceLink(d, x);
    var e, us := MapOf(d, 0, d.virtualSize)[i], Units(d, 0, 0, d.virtualSize);
    assert e.Has(0 + x) && us[x].kind == e.kind;
  }

  // ---------------------------------------------------------------- what did not change

  /** A byte no nearer link wrote is found at link k where the leaf finds it. */
  lemma {:induction false} SeenFromLink(d: Disk, k: nat, x: nat)
    requires ValidChain(d) && k < Depth(d) && !WrittenBelow(d, k, x) && Locate(d, x) != Fault
    ensures ValidChain(Link(d, k))
    ensures ByteAt(Link(d, k), x) == ByteAt(d, x)
    decreases d
  {
    if k > 0 {
      var p := d.parent.value;
      assert VerdictAt(d, x) == Beneath;
      ByteBeneath(d, x);
      SeenFromLink(p, k - 1, x);
    }
  }

  /** The delta of a checkpoint: bytes outside the report read the same from the leaf and
      from link k alone, and bytes inside it are those a nearer link wrote. */
  lemma DeltaIsCorrect(d: Disk, k: nat, x: nat)
    requires ValidChain(d) && NoFault(d, 0, d.virtualSize) && NoStraddle(d, k)
    requires 0 < k < Depth(d) && x < d.virtualSize
    ensures ValidChain(Link(d, k))
    ensures !Covers(ChangedOf(d, k), WRITES, x) ==> ByteAt(Link(d, k), x) == ByteAt(d, x)
    ensures Covers(ChangedOf(d, k), WRITES, x) <==> WrittenBelow(d, k, x)
  {
    hide ChangedOf, Covers, ByteAt;
    ChangedIsExact(d, k);
    LinkValid(d, k);
    if !Covers(ChangedOf(d, k), WRITES, x) {
      SeenFromLink(d, k, x);
    }
  }

  lemma {:induction false} LinkValid(d: Disk, k: nat)
    requires ValidChain(d) && k < Depth(d)
    ensures ValidChain(Link(d, k)) && Link(d, k).virtualSize == d.virtualSize
    decreases d
  {
    if k > 0 {
      LinkValid(d.parent.value, k - 1);
    }
  }

  /** A VHDX of two 1 MiB blocks in 512-byte sectors, decoded from some file that records
      each block as absent or as zero. */
  function TwoBlocks(diskType: DiskType, first: BlockState, second: BlockState, file: seq<byte>,
                     parent: Option<Disk>): Disk
  {
    Disk(diskType, 2 * MIB, MIB, 512, file, "",
         VhdxTable([BlockEntry(false, -1, first), BlockEntry(false, -1, second)], 4096, [-1]), parent)
  }

  lemma TwoBlocksVerdicts(d: Disk, first: BlockState, second: BlockState)
    requires d == TwoBlocks(d.diskType, first, second, d.source, d.parent)
    requires first in {BLOCK_NOT_PRESENT, BLOCK_ZERO} && second in {BLOCK_NOT_PRESENT, BLOCK_ZERO}
    ensures ValidImage(d)
    ensures d.IsDifferencing() ==> forall x: nat :: x < 2 * MIB ==>
      VerdictAt(d, x) == if (if x < MIB then first else second) == BLOCK_ZERO then Override else Beneath
  {
  }

  lemma StraddlePlace(d: Disk, mid: Disk, x: nat)
    requires ValidChain(d) && ValidChain(mid) && d.parent == Some(mid) && x < 2 * MIB
    requires VerdictAt(d, x) == if x < MIB then Override else Beneath
    requires x >= MIB ==> VerdictAt(mid, x) == Override
    ensures Locate(d, x) == if x < MIB then Cleared(0, d.path) else Cleared(1, mid.path)
    ensures ByteAt(d, x) == Value(0)
  {
    hide VerdictAt;
    assert x >= MIB ==> Locate(mid, x) == Cleared(0, mid.path);
  }

  /** Leaf, checkpoint and base: the leaf clears the first of two blocks, the checkpoint
      the second. */
  lemma StraddleChain(leaf: seq<byte>, checkpoint: seq<byte>, base: seq<byte>) returns (d: Disk, mid: Disk)
    ensures ValidChain(d) && ValidChain(mid) && d.parent == Some(mid) && d.virtualSize == 2 * MIB
    ensures d == TwoBlocks(Differencing, BLOCK_ZERO, BLOCK_NOT_PRESENT, leaf, d.parent)
    ensures forall x :: 0 <= x < 2 * MIB ==>
      Locate(d, x) == (if x < MIB then Cleared(0, d.path) else Cleared(1, mid.path)) && ByteAt(d, x) == Value(0)
  {
    var root := TwoBlocks(Dynamic, BLOCK_NOT_PRESENT, BLOCK_NOT_PRESENT, base, None);
    mid := TwoBlocks(Differencing, BLOCK_NOT_PRESENT, BLOCK_ZERO, checkpoint, Some(root));
    d := TwoBlocks(Differencing, BLOCK_ZERO, BLOCK_NOT_PRESENT, leaf, Some(mid));
    TwoBlocksVerdicts(root, BLOCK_NOT_PRESENT, BLOCK_NOT_PRESENT);
    TwoBlocksVerdicts(mid, BLOCK_NOT_PRESENT, BLOCK_ZERO);
    TwoBlocksVerdicts(d, BLOCK_ZERO, BLOCK_NOT_PRESENT);
    hide VerdictAt, Locate, ByteAt;
    assert ValidChain(root);
    assert ValidChain(mid);
    forall x | 0 <= x < 2 * MIB
      ensures Locate(d, x) == if x < MIB then Cleared(0, d.path) else Cleared(1, mid.path)
      ensures ByteAt(d, x) == Value(0)
    {
      StraddlePlace(d, mid, x);
    }
  }

  /** A complete chain, of any three files that decode to it, for which the report is not
      exact: asked what the leaf wrote, it
      also names the block the checkpoint cleared. */
  lemma StraddleIsPossible(leaf: seq<byte>, checkpoint: seq<byte>, base: seq<byte>) returns (d: Disk)
    ensures ValidChain(d) && NoFault(d, 0, d.virtualSize) && !Exact(d, 1)
    ensures d == TwoBlocks(Differencing, BLOCK_ZERO, BLOCK_NOT_PRESENT, leaf, d.parent)
    ensures forall x :: 0 <= x < d.virtualSize ==> ByteAt(d, x).Value?
  {
    var mid;
    d, mid := StraddleChain(leaf, checkpoint, base);
    hide Locate, ByteAt, Exact, ValidChain;
    var x, y := MIB - 1, MIB;
    assert Locate(d, x).Cleared? && Locate(d, y).Cleared?;
    assert ClearedAt(d, x) && ClearedAt(d, y) && WrittenBelow(d, 1, x) && !WrittenBelow(d, 1, y);
    ChangedIsExact(d, 1);
  }

  // ---------------------------------------------------------------- counting bytes

  /** Runs of positive length, in order and disjoint. */
  ghost predicate Ascending(es: seq<Extent>) {
    Positive(es) && forall i, j :: 0 <= i < j < |es| ==> es[i].End() <= es[j].virtualOffset
  }

  /** Every extent lies between 0 and limit. */
  predicate Within(es: seq<Extent>, limit: int) {
    forall i :: 0 <= i < |es| ==> 0 <= es[i].virtualOffset && es[i].End() <= limit
  }

  lemma {:induction false} SelectAscends(es: seq<Extent>, k: int, limit: int)
    requires Ascending(es) && Within(es, limit)
    ensures Ascending(Select(es, k)) && Within(Select(es, k), limit)
  {
    if es != [] {
      var e := es[|es| - 1];
      SelectAscends(es[..|es| - 1], k, e.virtualOffset);
    }
  }

  lemma {:induction false} MergeAscends(es: seq<Extent>, limit: int)
    requires Ascending(es) && Within(es, limit)
    ensures Ascending(Merge(es)) && Within(Merge(es), limit)
  {
    if es == [] {
      assert Merge(es) == [];
    } else {
      var front, e := es[..|es| - 1], es[|es| - 1];
      hide Within, Ascending, Merge, Push;
      FrontAscends(es, limit);
      MergeAscends(front, e.virtualOffset);
      assert es == front + [e];
      MergeSnoc(front, e);
      PushAscends(Merge(front), Normalize(e), limit);
    }
  }

  lemma FrontAscends(es: seq<Extent>, limit: int)
    requires es != [] && Ascending(es) && Within(es, limit)
    ensures var front, e := es[..|es| - 1], es[|es| - 1];
      && Ascending(front) && Within(front, e.virtualOffset)
      && e.length > 0 && 0 <= e.virtualOffset && e.End() <= limit
  {
  }

  lemma PushAscends(out: seq<Extent>, e: Extent, limit: int)
    requires Ascending(out) && e.length > 0 && 0 <= e.virtualOffset && e.End() <= limit
    requires Within(out, e.virtualOffset)
    ensures Ascending(Push(out, e)) && Within(Push(out, e), limit)
  {
  }

  /** The bytes before limit that the extents of the given kinds have. */
  ghost function BytesIn(es: seq<Extent>, kinds: set<Kind>, limit: int): set<int> {
    set x | 0 <= x < limit && Covers(es, kinds, x) :: x
  }

  lemma BytesInGrow(es: seq<Extent>, e: Extent, kinds: set<Kind>, limit: int)
    requires Ascending(es + [e]) && 0 <= e.virtualOffset && e.End() <= limit
    ensures |BytesIn(es + [e], kinds, limit)| == |BytesIn(es, kinds, limit)| + if e.kind in kinds then e.length else 0
  {
    assert e.length > 0 by {
      assert (es + [e])[|es|] == e;
    }
    forall x ensures Covers(es + [e], kinds, x) <==> Covers(es, kinds, x) || (e.kind in kinds && e.Has(x)) {
      CoversSnoc(es, e, kinds, x);
    }
    forall x | Covers(es, kinds, x) ensures !e.Has(x) {
      CoveredBefore(es, e, kinds, x);
    }
    hide Covers, Ascending, BytesIn;
    if e.kind in kinds {
      BytesInMore(es, e, kinds, limit);
    } else {
      BytesInSame(es, e, kinds, limit);
    }
  }

  lemma BytesInMore(es: seq<Extent>, e: Extent, kinds: set<Kind>, limit: int)
    requires 0 < e.length && 0 <= e.virtualOffset && e.End() <= limit
    requires forall x :: Covers(es + [e], kinds, x) <==> Covers(es, kinds, x) || e.Has(x)
    requires forall x :: Covers(es, kinds, x) ==> !e.Has(x)
    ensures |BytesIn(es + [e], kinds, limit)| == |BytesIn(es, kinds, limit)| + e.length
  {
    hide Covers;
    var own, a, b := Interval(e.virtualOffset, e.length), BytesIn(es, kinds, limit), BytesIn(es + [e], kinds, limit);
    forall x | x in own ensures x in b {
      assert e.Has(x);
    }
    assert b == a + own && a !! own;
  }

  lemma BytesInSame(es: seq<Extent>, e: Extent, kinds: set<Kind>, limit: int)
    requires forall x :: Covers(es + [e], kinds, x) <==> Covers(es, kinds, x)
    ensures BytesIn(es + [e], kinds, limit) == BytesIn(es, kinds, limit)
  {
    hide Covers;
  }

  lemma CoveredBefore(es: seq<Extent>, e: Extent, kinds: set<Kind>, x: int)
    requires Ascending(es + [e]) && Covers(es, kinds, x)
    ensures !e.Has(x)
  {
    var i :| 0 <= i < |es| && es[i].kind in kinds && es[i].Has(x);
    var all := es + [e];
    assert all[i] == es[i] && all[|es|] == e;
  }

  lemma ReportAscends(d: Disk, k: int)
    requires ValidChain(d)
    ensures Ascending(ChangedOf(d, k)) && Within(ChangedOf(d, k), d.virtualSize)
  {
    var es, us := MapOf(d, 0, d.virtualSize), Units(d, 0, 0, d.virtualSize);
    MapTiles(d, 0, d.virtualSize);
    hide MapOf, Units, Merge, Select;
    forall i, j | 0 <= i < j < |es| ensures es[i].End() <= es[j].virtualOffset {
      TilingAscends(es, us, 0, i, j);
    }
    forall i | 0 <= i < |es| ensures es[i].length > 0 && 0 <= es[i].virtualOffset && es[i].End() <= d.virtualSize {
      TilingAt(es, us, 0, i);
      SpeaksBounds(es[i], us);
    }
    SelectAscends(es, k, d.virtualSize);
    MergeAscends(Select(es, k), d.virtualSize);
  }

  /** The bytes links nearer than k wrote, and those missing because the chain ends by
      link k. */
  ghost function BytesWritten(d: Disk, k: nat): set<int>
    requires ValidChain(d)
  {
    set x | 0 <= x < d.virtualSize && WrittenBelow(d, k, x) :: x
  }

  ghost function BytesMissing(d: Disk, k: nat): set<int>
    requires ValidChain(d)
  {
    set x | 0 <= x < d.virtualSize && Locate(d, x).Missing? && Depth(d) <= k :: x
  }

  /** What the two counts of a report mean. */
  lemma CountsAreExact(d: Disk, k: nat)
    requires ValidChain(d) && NoFault(d, 0, d.virtualSize)
    ensures NoStraddle(d, k) ==> BytesIn(ChangedOf(d, k), WRITES, d.virtualSize) == BytesWritten(d, k)
    ensures BytesIn(ChangedOf(d, k), {Unresolved}, d.virtualSize) == BytesMissing(d, k)
  {
    hide ChangedOf, Covers, WrittenBelow, Locate;
    ChangedIsExact(d, k);
    forall x | 0 <= x < d.virtualSize
      ensures Covers(ChangedOf(d, k), {Unresolved}, x) <==> Locate(d, x).Missing? && Depth(d) <= k
    {
      GapsAreExact(d, k, x);
    }
  }

  lemma SpeaksBounds(e: Extent, us: seq<Extent>)
    requires Speaks(e, us, 0)
    ensures 0 < e.length && 0 <= e.virtualOffset && e.End() <= |us|
  {
  }

  /** ChangedBytes: how many bytes are missing by link k, and how many the nearer links
      wrote when no cleared run crosses link k. */
  method ChangedBytes(d: Disk, k: int) returns (written: int, unresolved: int, err: Error)
    requires ValidChain(d)
    ensures err == Ok <==> k >= 1 && NoFault(d, 0, d.virtualSize) && Walkable(d)
    ensures err == Ok ==> written == |BytesIn(ChangedOf(d, k), WRITES, d.virtualSize)|
    ensures err == Ok && NoStraddle(d, k) ==> written == |BytesWritten(d, k)|
    ensures err == Ok ==> unresolved == |BytesMissing(d, k)|
  {
    written, unresolved := 0, 0;
    var es, e := ChangedExtents(d, k);
    ReportAscends(d, k);
    if e != Ok {
      return 0, 0, e;
    }
    CountsAreExact(d, k);
    written, unresolved := CountBytes(es, d.virtualSize);
    return written, unresolved, Ok;
  }

  method CountBytes(es: seq<Extent>, ghost limit: int) returns (written: int, unresolved: int)
    requires Ascending(es) && Within(es, limit)
    ensures written == |BytesIn(es, WRITES, limit)| && unresolved == |BytesIn(es, {Unresolved}, limit)|
  {
    written, unresolved := 0, 0;
    NoBytes(limit);
    hide BytesIn;
    for i := 0 to |es|
      invariant Ascending(es[..i])
      invariant written == |BytesIn(es[..i], WRITES, limit)|
      invariant unresolved == |BytesIn(es[..i], {Unresolved}, limit)|
    {
      assert es[..i + 1] == es[..i] + [es[i]];
      BytesInGrow(es[..i], es[i], WRITES, limit);
      BytesInGrow(es[..i], es[i], {Unresolved}, limit);
      match es[i].kind {
        case Unresolved => unresolved := unresolved + es[i].length;
        case Zero =>
        case _ => written := written + es[i].length;
      }
    }
    assert es[..|es|] == es;
  }

  lemma NoBytes(limit: int)
    ensures forall kinds :: BytesIn([], kinds, limit) == {}
  {
  }
}
