/** Delta acquisition: a copy of link k brought up to date with what ChangedExtents(k)
    reports, and nothing else, is the device. */
module Delta {
  import opened Bytes
  import opened Images
  import opened Words
  import opened Extents
  import opened ExtentMap
  import opened Changed
  import opened Stream

  /** One reported extent with the bytes a read of it delivered. A gap has none. */
  datatype Patch = Patch(extent: Extent, data: seq<byte>)

  /** A patch of the device lies on it and carries the device's own bytes. */
  ghost predicate Genuine(d: Disk, p: Patch)
    requires ValidChain(d)
  {
    && 0 <= p.extent.virtualOffset && p.extent.End() <= d.virtualSize
    && (p.extent.kind in WRITES ==> |p.data| == p.extent.length && Carries(d, p.extent.virtualOffset, p.data))
  }

  ghost predicate AllGenuine(d: Disk, ps: seq<Patch>)
    requires ValidChain(d)
  {
    forall i :: 0 <= i < |ps| ==> Genuine(d, ps[i])
  }

  /** The patches of a report, extent by extent. */
  ghost predicate PatchesOf(d: Disk, k: nat, ps: seq<Patch>)
    requires ValidChain(d)
  {
    && |ps| == |ChangedOf(d, k)| && AllGenuine(d, ps)
    && forall i :: 0 <= i < |ps| ==> ps[i].extent == ChangedOf(d, k)[i]
  }

  /** An image of the device with every patch that is a write written over it. */
  function Patched(d: Disk, ps: seq<Patch>, image: seq<byte>): (r: seq<byte>)
    requires ValidChain(d) && |image| == d.virtualSize && AllGenuine(d, ps)
    ensures |r| == d.virtualSize
  {
    if ps == [] then image else
    var done, last := Patched(d, ps[..|ps| - 1], image), ps[|ps| - 1];
    if last.extent.kind in WRITES then WriteAt(done, last.extent.virtualOffset, last.data) else done
  }

  /** Some patch that is a write has the byte. */
  ghost predicate PatchHas(ps: seq<Patch>, x: int) {
    exists i :: 0 <= i < |ps| && ps[i].extent.kind in WRITES && ps[i].extent.Has(x)
  }

  /** A patched byte is the device's, and any other is what the image held. */
  lemma {:induction false} PatchedByte(d: Disk, ps: seq<Patch>, image: seq<byte>, x: nat)
    requires ValidChain(d) && |image| == d.virtualSize && AllGenuine(d, ps) && x < d.virtualSize
    ensures PatchHas(ps, x) ==> ByteAt(d, x) == Value(Patched(d, ps, image)[x])
    ensures !PatchHas(ps, x) ==> Patched(d, ps, image)[x] == image[x]
  {
    hide ByteAt;
    if ps != [] {
      var front, last := ps[..|ps| - 1], ps[|ps| - 1];
      PatchedByte(d, front, image, x);
      PatchHasLast(ps, x);
      if last.extent.kind in WRITES && last.extent.Has(x) {
        var k := x - last.extent.virtualOffset;
        assert ByteAt(d, last.extent.virtualOffset + k) == Value(last.data[k]);
      }
    }
  }

  lemma PatchHasLast(ps: seq<Patch>, x: int)
    requires ps != []
    ensures var front, last := ps[..|ps| - 1], ps[|ps| - 1];
      PatchHas(ps, x) <==> PatchHas(front, x) || (last.extent.kind in WRITES && last.extent.Has(x))
  {
    var front := ps[..|ps| - 1];
    if PatchHas(front, x) {
      var i :| 0 <= i < |front| && front[i].extent.kind in WRITES && front[i].extent.Has(x);
      assert ps[i] == front[i];
    }
    if PatchHas(ps, x) {
      var i :| 0 <= i < |ps| && ps[i].extent.kind in WRITES && ps[i].extent.Has(x);
      assert i < |front| ==> front[i] == ps[i];
    }
  }

  /** The delta copy theorem: when no cleared run crosses link k, a copy of link k's device
      with the reported extents written over it is the leaf's device, byte for byte. */
  lemma DeltaCopyIsDevice(d: Disk, k: nat, ps: seq<Patch>, image: seq<byte>, x: nat)
    requires ValidChain(d) && NoFault(d, 0, d.virtualSize) && NoStraddle(d, k) && 0 < k < Depth(d)
    requires PatchesOf(d, k, ps) && |image| == d.virtualSize && x < d.virtualSize
    requires ValidChain(Link(d, k)) && (WrittenBelow(d, k, x) || ByteAt(Link(d, k), x) == Value(image[x]))
    ensures ByteAt(d, x) == Value(Patched(d, ps, image)[x])
  {
    hide ByteAt, ChangedOf, NoStraddle, NoFault;
    DeltaIsCorrect(d, k, x);
    PatchedByte(d, ps, image, x);
    PatchesCover(d, k, ps, x);
  }

  lemma PatchesCover(d: Disk, k: nat, ps: seq<Patch>, x: int)
    requires ValidChain(d) && PatchesOf(d, k, ps)
    ensures PatchHas(ps, x) <==> Covers(ChangedOf(d, k), WRITES, x)
  {
    hide ChangedOf, Genuine;
    var es := ChangedOf(d, k);
    if PatchHas(ps, x) {
      var i :| 0 <= i < |ps| && ps[i].extent.kind in WRITES && ps[i].extent.Has(x);
      assert es[i].kind in WRITES && es[i].Has(x);
    }
    if Covers(es, WRITES, x) {
      var i :| 0 <= i < |es| && es[i].kind in WRITES && es[i].Has(x);
      assert ps[i].extent == es[i];
    }
  }

  // ---------------------------------------------------------------- the hypothesis is needed

  /** A base of two 1 MiB blocks, the second of them present 3 MiB into its file. */
  function Base(file: seq<byte>): Disk {
    Disk(Dynamic, 2 * MIB, MIB, 512, file, "",
         VhdxTable([BlockEntry(false, -1, BLOCK_NOT_PRESENT), BlockEntry(true, 3 * MIB, BLOCK_FULLY_PRESENT)],
                   4096, [-1]),
         None)
  }

  lemma BasePlaces(file: seq<byte>, x: nat)
    requires x < 2 * MIB
    ensures ValidChain(Base(file))
    ensures Locate(Base(file), x) == if x < MIB then Hole else InFile(0, "", 3 * MIB + (x - MIB))
  {
    assert x >= MIB ==> x / MIB == 1 && x % MIB == x - MIB;
  }

  /** The checkpoint clears the first block and the leaf the second. */
  lemma CrossedPlaces(d: Disk, mid: Disk, base: Disk, x: nat)
    requires ValidChain(d) && ValidChain(mid) && ValidChain(base) && x < 2 * MIB
    requires d.parent == Some(mid) && mid.parent == Some(base)
    requires VerdictAt(d, x) == if x < MIB then Beneath else Override
    requires VerdictAt(mid, x) == if x < MIB then Override else Beneath
    ensures Locate(d, x) == if x < MIB then Cleared(1, mid.path) else Cleared(0, d.path)
    ensures x >= MIB ==> ByteAt(mid, x) == ByteAt(base, x)
  {
    hide VerdictAt;
    if x < MIB {
      assert Locate(mid, x) == Cleared(0, mid.path);
    } else {
      ByteBeneath(mid, x);
    }
  }

  lemma CrossedChain(leaf: seq<byte>, checkpoint: seq<byte>, file: seq<byte>) returns (d: Disk, mid: Disk)
    ensures ValidChain(d) && ValidChain(mid) && ValidChain(Base(file))
    ensures d.parent == Some(mid) && mid.parent == Some(Base(file)) && d.virtualSize == 2 * MIB
    ensures forall x :: 0 <= x < 2 * MIB ==>
      Locate(d, x) == if x < MIB then Cleared(1, mid.path) else Cleared(0, d.path)
    ensures forall x :: MIB <= x < 2 * MIB ==> ByteAt(mid, x) == ByteAt(Base(file), x)
  {
    var base := Base(file);
    BasePlaces(file, 0);
    mid := TwoBlocks(Differencing, BLOCK_ZERO, BLOCK_NOT_PRESENT, checkpoint, Some(base));
    d := TwoBlocks(Differencing, BLOCK_NOT_PRESENT, BLOCK_ZERO, leaf, Some(mid));
    TwoBlocksVerdicts(mid, BLOCK_ZERO, BLOCK_NOT_PRESENT);
    TwoBlocksVerdicts(d, BLOCK_NOT_PRESENT, BLOCK_ZERO);
    hide VerdictAt, Locate, ByteAt;
    assert ValidChain(mid);
    forall x: nat | x < 2 * MIB
      ensures Locate(d, x) == if x < MIB then Cleared(1, mid.path) else Cleared(0, d.path)
      ensures x >= MIB ==> ByteAt(mid, x) == ByteAt(base, x)
    {
      CrossedPlaces(d, mid, base, x);
    }
  }

  /** A complete chain for which the copy is wrong: the leaf cleared a byte, link 1 holds
      another value there, and the report of what the leaf wrote does not name it. */
  lemma DeltaCanMiss(leaf: seq<byte>, checkpoint: seq<byte>, file: seq<byte>) returns (d: Disk)
    requires |file| >= 4 * MIB && file[3 * MIB] != 0
    ensures ValidChain(d) && NoFault(d, 0, d.virtualSize) && d.virtualSize == 2 * MIB && Depth(d) == 3
    ensures ByteAt(d, MIB) == Value(0) && !Covers(ChangedOf(d, 1), WRITES, MIB)
    ensures ValidChain(Link(d, 1)) && ByteAt(Link(d, 1), MIB) == Value(file[3 * MIB])
    ensures forall x :: 0 <= x < d.virtualSize ==> ByteAt(d, x).Value?
  {
    var mid;
    d, mid := CrossedChain(leaf, checkpoint, file);
    BasePlaces(file, MIB);
    ThreeDeep(d, mid, Base(file));
    assert ByteAt(Base(file), MIB) == Value(file[3 * MIB]);
    forall x: nat | x < d.virtualSize ensures ByteAt(d, x) == Value(0) {
      assert Locate(d, x).Cleared?;
    }
    CrossedUnreported(d);
  }

  lemma ThreeDeep(d: Disk, mid: Disk, base: Disk)
    requires d.parent == Some(mid) && mid.parent == Some(base) && base.parent == None
    ensures Depth(d) == 3 && Link(d, 1) == mid
  {
    assert Depth(base) == 1 && Depth(mid) == 2 && Link(mid, 0) == mid;
  }

  lemma CrossedUnreported(d: Disk)
    requires ValidChain(d) && d.virtualSize == 2 * MIB && NoFault(d, 0, d.virtualSize)
    requires forall x :: 0 <= x < 2 * MIB ==>
      Locate(d, x).Cleared? && Locate(d, x).link == if x < MIB then 1 else 0
    ensures !Covers(ChangedOf(d, 1), WRITES, MIB)
  {
    hide Locate, ChangedOf, Covers;
    var x := MIB - 1;
    assert Locate(d, x).Cleared? && Locate(d, x + 1).Cleared?;
    CoveredTogether(d, 1, x);
    var start := CoveredByItsRun(d, 1, x);
    assert Locate(d, start).link == 1;
  }
}
