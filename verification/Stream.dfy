/** Streaming: the device walked run by run, reading only what is backed by data, and
    the proof that a sparse copy made from the runs is the whole device. */
module Stream {
  import opened Bytes
  import opened Images
  import opened ReadPath
  import opened Extents
  import opened ExtentMap
  import opened DiskMap

  /** One piece of the device as the visit function sees it. */
  datatype Run = Run(extent: Extent, data: Option<seq<byte>>)

  datatype Options = Options(bufferSize: int, includeZero: bool, failOnUnresolved: bool)
  {
    function Buffer(): (n: nat)
      ensures n > 0
    {
      if bufferSize <= 0 then 0x40_0000 else bufferSize
    }
  }

  // ---------------------------------------------------------------- what the visitor is given

  /** A run tells the truth: its extent speaks for its bytes, and it carries data exactly
      when it is mapped, no more than a bufferful, and the device's own bytes. */
  ghost predicate Truthful(d: Disk, r: Run, buffer: nat)
    requires ValidChain(d)
  {
    && Speaks(r.extent, Units(d, 0, 0, d.virtualSize), 0)
    && (r.data.Some? <==> r.extent.kind.Mapped?)
    && (r.data.Some? ==>
          |r.data.value| == r.extent.length <= buffer && Carries(d, r.extent.virtualOffset, r.data.value))
  }

  ghost predicate Carries(d: Disk, v: nat, data: seq<byte>)
    requires ValidChain(d)
  {
    forall k :: 0 <= k < |data| ==> ByteAt(d, v + k) == Value(data[k])
  }

  /** The runs given so far are truthful, in order, disjoint, and end before upto. */
  ghost predicate Ordered(d: Disk, runs: seq<Run>, buffer: nat, upto: int)
    requires ValidChain(d)
  {
    && (forall i :: 0 <= i < |runs| ==> Truthful(d, runs[i], buffer) && runs[i].extent.End() <= upto)
    && (forall i, j :: 0 <= i < j < |runs| ==> runs[i].extent.End() <= runs[j].extent.virtualOffset)
  }

  ghost predicate InSomeRun(runs: seq<Run>, x: int) {
    exists i :: 0 <= i < |runs| && runs[i].extent.Has(x)
  }

  /** Every byte before upto that has to be given is in some run. */
  ghost predicate Reaches(d: Disk, runs: seq<Run>, includeZero: bool, upto: int)
    requires ValidChain(d)
  {
    forall x :: 0 <= x < upto && (includeZero || Locate(d, x).InFile? || Locate(d, x).Missing?) ==> InSomeRun(runs, x)
  }

  /** VirtualDisk.Stream. The visit function is modelled by its answer: false is an error,
      which stops the walk. */
  method Stream(d: Disk, opts: Options, visit: Run -> bool) returns (runs: seq<Run>, err: Error)
    requires ValidChain(d)
    ensures Ordered(d, runs, if opts.bufferSize <= 0 then 4194304 else opts.bufferSize, d.virtualSize)
    ensures err == Ok ==> NoFault(d, 0, d.virtualSize) && Walkable(d)
    ensures err == Ok ==> Reaches(d, runs, opts.includeZero, d.virtualSize)
    ensures err == Ok ==> Accepted(runs, opts, visit)
    ensures err != Ok ==>
      || !NoFault(d, 0, d.virtualSize)
      || !Walkable(d)
      || LastRefused(runs, visit)
      || (opts.failOnUnresolved && AnyMissing(d))
      || AnyUnreadable(d)
  {
    runs := [];
    var es, e := AllExtents(d);
    if e != Ok {
      return runs, e;
    }
    MapTiles(d, 0, d.virtualSize);
    hide MapOf, Units, Tiling, Locate, NoFault, Ordered, Reaches;
    hide Accepted, AnyMissing, AnyUnreadable, LastRefused, Given;
    NothingGiven(d, es, opts, visit);
    var buf := new byte[opts.Buffer()];
    for i := 0 to |es|
      invariant fresh(buf) && buf.Length == opts.Buffer()
      invariant Given(d, es, i, runs, opts, visit)
    {
      GivenSoFar(d, es, i, runs, opts, visit);
      runs, e := StreamExtent(d, buf, runs, es[i], opts, visit);
      OrderedLonger(d, runs, buf.Length, es[i].End(), d.virtualSize);
      if e != Ok {
        return runs, e;
      }
      GivenNext(d, es, i, runs, opts, visit);
    }
    GivenAll(d, es, runs, opts, visit);
    return runs, Ok;
  }

  /** Where the extents after the first i start. */
  function Edge(d: Disk, es: seq<Extent>, i: nat): int
    requires i <= |es|
  {
    if i == |es| then d.virtualSize else es[i].virtualOffset
  }

  /** The walk has given what it must of the first i extents of the map, and nothing else. */
  ghost predicate Given(d: Disk, es: seq<Extent>, i: nat, runs: seq<Run>, opts: Options, visit: Run -> bool)
    requires ValidChain(d)
  {
    && i <= |es| && Tiling(es, Units(d, 0, 0, d.virtualSize), 0)
    && Ordered(d, runs, opts.Buffer(), Edge(d, es, i)) && Reaches(d, runs, opts.includeZero, Edge(d, es, i))
    && Accepted(runs, opts, visit)
  }

  lemma GivenSoFar(d: Disk, es: seq<Extent>, i: nat, runs: seq<Run>, opts: Options, visit: Run -> bool)
    requires ValidChain(d) && Given(d, es, i, runs, opts, visit) && i < |es|
    ensures Speaks(es[i], Units(d, 0, 0, d.virtualSize), 0) && es[i].End() <= d.virtualSize
    ensures Ordered(d, runs, opts.Buffer(), es[i].virtualOffset)
    ensures Reaches(d, runs, opts.includeZero, es[i].virtualOffset) && Accepted(runs, opts, visit)
  {
    ExtentBounds(es[i], Units(d, 0, 0, d.virtualSize));
  }

  lemma GivenNext(d: Disk, es: seq<Extent>, i: nat, runs: seq<Run>, opts: Options, visit: Run -> bool)
    requires ValidChain(d) && i < |es| && Tiling(es, Units(d, 0, 0, d.virtualSize), 0)
    requires Ordered(d, runs, opts.Buffer(), es[i].End()) && Reaches(d, runs, opts.includeZero, es[i].End())
    requires Accepted(runs, opts, visit)
    ensures Given(d, es, i + 1, runs, opts, visit)
  {
    hide Units, Ordered, Reaches, Accepted, Speaks, Merged;
  }

  lemma GivenAll(d: Disk, es: seq<Extent>, runs: seq<Run>, opts: Options, visit: Run -> bool)
    requires ValidChain(d) && Given(d, es, |es|, runs, opts, visit)
    ensures Ordered(d, runs, opts.Buffer(), d.virtualSize) && Reaches(d, runs, opts.includeZero, d.virtualSize)
    ensures Accepted(runs, opts, visit)
  {
  }

  /** The visit function took every run, and none was one the options leave out or refuse. */
  predicate Accepted(runs: seq<Run>, opts: Options, visit: Run -> bool) {
    forall i :: 0 <= i < |runs| ==> visit(runs[i]) && Wanted(runs[i].extent.kind, opts)
  }

  predicate Wanted(kind: Kind, opts: Options) {
    match kind
    case Mapped => true
    case Unresolved => !opts.failOnUnresolved
    case _ => opts.includeZero
  }

  /** The reasons a walk may end early: the visit function refused the run it was just
      given, the device needs a parent nobody attached, or a file is too short. */
  predicate LastRefused(runs: seq<Run>, visit: Run -> bool) {
    runs != [] && !visit(runs[|runs| - 1])
  }

  ghost predicate AnyMissing(d: Disk)
    requires ValidChain(d)
  {
    exists x :: 0 <= x < d.virtualSize && Locate(d, x).Missing?
  }

  ghost predicate AnyUnreadable(d: Disk)
    requires ValidChain(d)
  {
    exists x :: 0 <= x < d.virtualSize && ByteAt(d, x) == Unreadable
  }

  /** A walk that reported no error had none of those reasons to end early. */
  lemma NothingStopsIt(d: Disk, runs: seq<Run>, opts: Options, visit: Run -> bool)
    requires ValidChain(d) && NoFault(d, 0, d.virtualSize)
    requires Ordered(d, runs, opts.Buffer(), d.virtualSize) && Reaches(d, runs, opts.includeZero, d.virtualSize)
    requires Accepted(runs, opts, visit)
    ensures !LastRefused(runs, visit) && !(opts.failOnUnresolved && AnyMissing(d)) && !AnyUnreadable(d)
  {
    hide ByteAt, Locate, Units, Truthful, Speaks;
    forall x | 0 <= x < d.virtualSize
      ensures !(opts.failOnUnresolved && Locate(d, x).Missing?) && ByteAt(d, x) != Unreadable
    {
      if Locate(d, x).InFile? || Locate(d, x).Missing? {
        assert InSomeRun(runs, x);
        var i :| 0 <= i < |runs| && runs[i].extent.Has(x);
        RunByte(d, runs[i], opts.Buffer(), x);
        assert Wanted(runs[i].extent.kind, opts);
      }
      PlaceCell(d, x);
    }
  }

  /** A byte of a truthful run has the run's kind, and is the byte of data given for it. */
  lemma RunByte(d: Disk, r: Run, buffer: nat, x: int)
    requires ValidChain(d) && Truthful(d, r, buffer) && r.extent.Has(x)
    ensures 0 <= x < d.virtualSize && UnitOf(Locate(d, x), 0, x).kind == r.extent.kind
    ensures r.extent.kind.Mapped? ==> ByteAt(d, x).Value?
  {
    KindAt(d, r.extent, x);
    hide Speaks, Units, ByteAt, Locate;
    if r.extent.kind.Mapped? {
      var k := x - r.extent.virtualOffset;
      assert ByteAt(d, r.extent.virtualOffset + k) == Value(r.data.value[k]);
    }
  }

  lemma KindAt(d: Disk, e: Extent, x: int)
    requires ValidChain(d) && Speaks(e, Units(d, 0, 0, d.virtualSize), 0) && e.Has(x)
    ensures 0 <= x < d.virtualSize && UnitOf(Locate(d, x), 0, x).kind == e.kind
  {
    hide Locate;
    ExtentBounds(e, Units(d, 0, 0, d.virtualSize));
    assert e.Has(0 + x) && Units(d, 0, 0, d.virtualSize)[x].kind == e.kind;
  }

  lemma PlaceCell(d: Disk, x: nat)
    requires ValidChain(d)
    ensures Locate(d, x).Missing? <==> ByteAt(d, x) == NeedsParent
    ensures ByteAt(d, x) == Unreadable ==> Locate(d, x).InFile? || Locate(d, x).Fault?
  {
  }

  /** One extent of the walk. */
  method StreamExtent(d: Disk, buf: array<byte>, runs: seq<Run>, e: Extent, opts: Options, visit: Run -> bool)
    returns (out: seq<Run>, err: Error)
    requires ValidChain(d) && buf.Length > 0
    requires Speaks(e, Units(d, 0, 0, d.virtualSize), 0)
    requires Ordered(d, runs, buf.Length, e.virtualOffset) && Reaches(d, runs, opts.includeZero, e.virtualOffset)
    requires Accepted(runs, opts, visit)
    modifies buf
    ensures Ordered(d, out, buf.Length, e.End())
    ensures err == Ok ==> Reaches(d, out, opts.includeZero, e.End()) && Accepted(out, opts, visit)
    ensures err != Ok ==> LastRefused(out, visit) || (opts.failOnUnresolved && AnyMissing(d)) || AnyUnreadable(d)
  {
    ExtentBounds(e, Units(d, 0, 0, d.virtualSize));
    OrderedLonger(d, runs, buf.Length, e.virtualOffset, e.End());
    hide Units, Speaks, Ordered, Reaches, AnyMissing, AnyUnreadable;
    match e.kind {
      case Mapped =>
        out, err := StreamMapped(d, buf, runs, e, opts.includeZero, visit);
        if err == Ok {
          AcceptedMore(runs, out, opts, visit);
        }
      case Unresolved =>
        if opts.failOnUnresolved {
          MissingHere(d, e);
          return runs, ParentRequired;
        }
        var ok;
        out, ok := GiveEmpty(d, runs, e, buf.Length, opts.includeZero, visit);
        err := if ok then Ok else Refused;
      case _ =>
        if !opts.includeZero {
          SkipZero(d, runs, e);
          return runs, Ok;
        }
        var ok;
        out, ok := GiveEmpty(d, runs, e, buf.Length, opts.includeZero, visit);
        err := if ok then Ok else Refused;
    }
  }

  lemma AcceptedMore(runs: seq<Run>, out: seq<Run>, opts: Options, visit: Run -> bool)
    requires Accepted(runs, opts, visit) && runs <= out
    requires forall i :: |runs| <= i < |out| ==> visit(out[i]) && out[i].extent.kind.Mapped?
    ensures Accepted(out, opts, visit)
  {
    forall i | 0 <= i < |out| ensures visit(out[i]) && Wanted(out[i].extent.kind, opts) {
      if i < |runs| {
        assert out[i] == runs[i];
      }
    }
  }

  lemma NothingGiven(d: Disk, es: seq<Extent>, opts: Options, visit: Run -> bool)
    requires ValidChain(d) && Tiling(es, Units(d, 0, 0, d.virtualSize), 0)
    ensures Given(d, es, 0, [], opts, visit) && Ordered(d, [], opts.Buffer(), d.virtualSize)
  {
    assert es == [] ==> d.virtualSize == 0;
  }

  lemma OrderedLonger(d: Disk, runs: seq<Run>, buffer: nat, upto: int, later: int)
    requires ValidChain(d) && Ordered(d, runs, buffer, upto) && upto <= later
    ensures Ordered(d, runs, buffer, later)
  {
    hide Truthful;
  }

  lemma ExtentBounds(e: Extent, us: seq<Extent>)
    requires Speaks(e, us, 0)
    ensures 0 <= e.virtualOffset < e.End() <= |us|
  {
  }

  /** A run without data. */
  method GiveEmpty(d: Disk, runs: seq<Run>, e: Extent, buffer: nat, includeZero: bool, visit: Run -> bool)
    returns (out: seq<Run>, ok: bool)
    requires ValidChain(d) && Speaks(e, Units(d, 0, 0, d.virtualSize), 0) && !e.kind.Mapped?
    requires Ordered(d, runs, buffer, e.virtualOffset) && Reaches(d, runs, includeZero, e.virtualOffset)
    ensures out == runs + [Run(e, None)] && ok == visit(Run(e, None))
    ensures Ordered(d, out, buffer, e.End()) && Reaches(d, out, includeZero, e.End())
  {
    out, ok := runs + [Run(e, None)], visit(Run(e, None));
    hide Units;
    assert Truthful(d, Run(e, None), buffer);
    GiveRun(d, runs, Run(e, None), buffer, includeZero);
  }

  lemma GiveRun(d: Disk, runs: seq<Run>, r: Run, buffer: nat, includeZero: bool)
    requires ValidChain(d) && Truthful(d, r, buffer)
    requires Ordered(d, runs, buffer, r.extent.virtualOffset) && Reaches(d, runs, includeZero, r.extent.virtualOffset)
    ensures Ordered(d, runs + [r], buffer, r.extent.End()) && Reaches(d, runs + [r], includeZero, r.extent.End())
  {
    ExtentBounds(r.extent, Units(d, 0, 0, d.virtualSize));
    hide Truthful, Locate;
    var out := runs + [r];
    forall x | 0 <= x < r.extent.End() && (x >= r.extent.virtualOffset || InSomeRun(runs, x))
      ensures InSomeRun(out, x)
    {
      if x >= r.extent.virtualOffset {
        assert out[|runs|].extent.Has(x);
      } else {
        var i :| 0 <= i < |runs| && runs[i].extent.Has(x);
        assert out[i].extent.Has(x);
      }
    }
  }

  /** Skipping a run that reads as zeroes misses nothing that has to be given. */
  lemma SkipZero(d: Disk, runs: seq<Run>, e: Extent)
    requires ValidChain(d) && Speaks(e, Units(d, 0, 0, d.virtualSize), 0) && e.kind.ReadsAsZero()
    requires Reaches(d, runs, false, e.virtualOffset)
    ensures Reaches(d, runs, false, e.End())
  {
    var us := Units(d, 0, 0, d.virtualSize);
    hide Locate;
    forall x | e.virtualOffset <= x < e.End() ensures !Locate(d, x).InFile? && !Locate(d, x).Missing? {
      assert e.Has(0 + x) && us[x].kind == e.kind;
    }
  }

  /** A piece of a mapped extent, as Stream cuts it. */
  function Piece(e: Extent, at: int, span: int): Extent {
    e.(virtualOffset := at, length := span, fileOffset := e.fileOffset + (at - e.virtualOffset))
  }

  lemma PieceSpeaks(e: Extent, us: seq<Extent>, at: int, span: int)
    requires Speaks(e, us, 0) && e.kind.Mapped? && e.virtualOffset <= at && 0 < span && at + span <= e.End()
    ensures Speaks(Piece(e, at, span), us, 0)
  {
    var p := Piece(e, at, span);
    forall k | 0 <= k < |us| && p.Has(0 + k) ensures us[k].kind == p.kind && us[k] == ByteOf(p, 0 + k) {
      assert e.Has(0 + k);
    }
    assert p.Has(0 + at) && us[at] == ByteOf(p, at);
  }

  /** A mapped extent, read and given a bufferful at a time. */
  method StreamMapped(d: Disk, buf: array<byte>, runs: seq<Run>, e: Extent, includeZero: bool, visit: Run -> bool)
    returns (out: seq<Run>, err: Error)
    requires ValidChain(d) && buf.Length > 0
    requires Speaks(e, Units(d, 0, 0, d.virtualSize), 0) && e.kind.Mapped?
    requires Ordered(d, runs, buf.Length, e.virtualOffset) && Reaches(d, runs, includeZero, e.virtualOffset)
    modifies buf
    ensures runs <= out && Ordered(d, out, buf.Length, e.End())
    ensures forall i :: |runs| <= i < |out| ==> out[i].extent.kind.Mapped?
    ensures err == Ok ==> Reaches(d, out, includeZero, e.End())
    ensures err == Ok ==> forall i :: |runs| <= i < |out| ==> visit(out[i])
    ensures err != Ok ==> LastRefused(out, visit) || AnyUnreadable(d)
  {
    ghost var us := Units(d, 0, 0, d.virtualSize);
    ExtentBounds(e, us);
    hide Units, Speaks, Truthful, Locate, ByteAt, Carries, DeviceStops, AnyUnreadable;
    out := runs;
    var at := e.virtualOffset;
    while at < e.End()
      invariant e.virtualOffset <= at <= e.End()
      invariant runs <= out && Ordered(d, out, buf.Length, at) && Reaches(d, out, includeZero, at)
      invariant forall i :: |runs| <= i < |out| ==> visit(out[i]) && out[i].extent.kind.Mapped?
    {
      var span := Min(buf.Length, e.End() - at);
      var n, re := ReadAt(d, buf, 0, span, at);
      if re != Ok {
        UnreadableHere(d, e, at, span, n, re);
        return out, re;
      }
      DeviceFull(d, at, span, n);
      var data := buf[..span];
      var run := Run(Piece(e, at, span), Some(data));
      CarriesHeld(d, at, buf, span);
      PieceSpeaks(e, us, at, span);
      GivenData(d, run, buf.Length);
      GiveRun(d, out, run, buf.Length, includeZero);
      out := out + [run];
      if !visit(run) {
        return out, Refused;
      }
      at := at + span;
    }
    return out, Ok;
  }

  lemma MissingHere(d: Disk, e: Extent)
    requires ValidChain(d) && Speaks(e, Units(d, 0, 0, d.virtualSize), 0) && e.kind.Unresolved?
    ensures AnyMissing(d)
  {
    hide Locate;
    ExtentBounds(e, Units(d, 0, 0, d.virtualSize));
    KindAt(d, e, e.virtualOffset);
  }

  /** A read of mapped bytes can only fail because a file is too short. */
  lemma UnreadableHere(d: Disk, e: Extent, at: nat, span: nat, n: nat, err: Error)
    requires ValidChain(d) && Speaks(e, Units(d, 0, 0, d.virtualSize), 0) && e.kind.Mapped?
    requires e.virtualOffset <= at && 0 < span && at + span <= e.End()
    requires DeviceStops(d, at, span, n, err) && err != Ok
    ensures AnyUnreadable(d)
  {
    ExtentBounds(e, Units(d, 0, 0, d.virtualSize));
    hide Speaks, Units, Locate, ByteAt, AnyUnreadable, DeviceStops, UnitOf;
    ReadFailure(d, at, span, n, err);
    MappedHasFile(d, e, at + n);
  }

  lemma MappedHasFile(d: Disk, e: Extent, x: nat)
    requires ValidChain(d) && Speaks(e, Units(d, 0, 0, d.virtualSize), 0) && e.kind.Mapped? && e.Has(x)
    ensures ByteAt(d, x) != NeedsParent
  {
    hide Speaks, Units, ByteAt, Locate;
    KindAt(d, e, x);
    PlaceCell(d, x);
  }

  lemma ReadFailure(d: Disk, at: nat, span: nat, n: nat, err: Error)
    requires ValidChain(d) && 0 < span && at + span <= d.virtualSize
    requires DeviceStops(d, at, span, n, err) && err != Ok
    ensures n < span
    ensures AnyUnreadable(d) || ByteAt(d, at + n) == NeedsParent
  {
    hide ByteAt;
  }

  lemma DeviceFull(d: Disk, v: nat, len: nat, n: nat)
    requires ValidChain(d) && v < d.virtualSize && DeviceStops(d, v, len, n, Ok)
    ensures n == len
  {
  }

  lemma CarriesHeld(d: Disk, v: nat, p: array<byte>, n: nat)
    requires ValidChain(d) && n <= p.Length && Holds(d, v, p, 0, n)
    ensures Carries(d, v, p[..n])
  {
    hide ByteAt;
    forall k | 0 <= k < n ensures ByteAt(d, v + k) == Value(p[..n][k]) {
      assert ByteAt(d, v + (k - 0)) == Value(p[k]);
    }
  }

  lemma GivenData(d: Disk, r: Run, buffer: nat)
    requires ValidChain(d) && Speaks(r.extent, Units(d, 0, 0, d.virtualSize), 0) && r.extent.kind.Mapped?
    requires r.data.Some? && |r.data.value| == r.extent.length <= buffer
    requires Carries(d, r.extent.virtualOffset, r.data.value)
    ensures Truthful(d, r, buffer)
  {
  }

  // ---------------------------------------------------------------- the sparse copy

  /** Writing data at an offset of a device image. */
  function WriteAt(image: seq<byte>, at: nat, data: seq<byte>): (r: seq<byte>)
    requires at + |data| <= |image|
    ensures |r| == |image|
  {
    image[..at] + data + image[at + |data|..]
  }

  /** Every run with data written at its virtual offset. */
  function Copy(d: Disk, runs: seq<Run>, buffer: nat, image: seq<byte>): (r: seq<byte>)
    requires ValidChain(d) && |image| == d.virtualSize && Ordered(d, runs, buffer, d.virtualSize)
    ensures |r| == d.virtualSize
  {
    if runs == [] then image else
    var front, last := runs[..|runs| - 1], runs[|runs| - 1];
    var done := Copy(d, front, buffer, image);
    RunFits(d, last, buffer);
    if last.data.Some? then WriteAt(done, last.extent.virtualOffset, last.data.value) else done
  }

  lemma RunFits(d: Disk, r: Run, buffer: nat)
    requires ValidChain(d) && Truthful(d, r, buffer)
    ensures 0 <= r.extent.virtualOffset < r.extent.End() <= d.virtualSize
  {
    ExtentBounds(r.extent, Units(d, 0, 0, d.virtualSize));
  }

  /** After copying, every byte of a run with data is the device's, and every byte of no
      such run is still what the image held. */
  lemma {:induction false} CopyBytes(d: Disk, runs: seq<Run>, buffer: nat, image: seq<byte>, x: nat)
    requires ValidChain(d) && |image| == d.virtualSize && Ordered(d, runs, buffer, d.virtualSize) && x < d.virtualSize
    ensures ByteAt(d, x) == Value(Copy(d, runs, buffer, image)[x]) ||
      (&& Copy(d, runs, buffer, image)[x] == image[x]
       && forall i :: 0 <= i < |runs| && runs[i].data.Some? ==> !runs[i].extent.Has(x))
  {
    hide ByteAt, Locate, Units, Speaks;
    if runs != [] {
      var front, last := runs[..|runs| - 1], runs[|runs| - 1];
      CopyBytes(d, front, buffer, image, x);
      RunFits(d, last, buffer);
      if last.data.Some? && last.extent.Has(x) {
        var k := x - last.extent.virtualOffset;
        assert ByteAt(d, last.extent.virtualOffset + k) == Value(last.data.value[k]);
      }
    }
  }

  /** The sparse copy theorem: with nothing unresolved, writing the runs of a completed
      walk onto a zero-filled device gives the device byte for byte. */
  lemma SparseCopyIsDense(d: Disk, runs: seq<Run>, opts: Options, zeroes: seq<byte>, x: nat)
    requires ValidChain(d) && NoFault(d, 0, d.virtualSize)
    requires Ordered(d, runs, opts.Buffer(), d.virtualSize) && Reaches(d, runs, opts.includeZero, d.virtualSize)
    requires forall y :: 0 <= y < d.virtualSize ==> !Locate(d, y).Missing?
    requires |zeroes| == d.virtualSize && forall y :: 0 <= y < |zeroes| ==> zeroes[y] == 0
    requires x < d.virtualSize
    ensures ByteAt(d, x) == Value(Copy(d, runs, opts.Buffer(), zeroes)[x])
  {
    CopyBytes(d, runs, opts.Buffer(), zeroes, x);
    if Locate(d, x).InFile? {
      assert InSomeRun(runs, x);
      var i :| 0 <= i < |runs| && runs[i].extent.Has(x);
      var us := Units(d, 0, 0, d.virtualSize);
      assert Truthful(d, runs[i], opts.Buffer()) && runs[i].extent.Has(0 + x) && us[x].kind.Mapped?;
    }
  }
}
