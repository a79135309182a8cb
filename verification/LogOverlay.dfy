/** The replayed log: Replay and its descriptors, Analyze, and the overlay reader. */
module LogOverlay {
  import opened Bytes
  import opened Counting
  import opened Words
  import opened LogFormat
  import opened LogReplay

  /** An overlay under construction: whole sectors by file offset, and what was replayed. */
  class Replay {
    var sectors: map<int, seq<byte>>
    var entryCount: nat
    var descriptorCount: nat
    var firstSequence: nat
    var lastSequence: nat

    constructor (entries: nat, first: nat, last: nat)
      ensures sectors == map[] && entryCount == entries && descriptorCount == 0
      ensures firstSequence == first && lastSequence == last
    {
      sectors, entryCount, descriptorCount := map[], entries, 0;
      firstSequence, lastSequence := first, last;
    }

    /** The overlay holds what a list of writes leaves behind. */
    ghost predicate Holds(ws: seq<Write>)
      reads this
    {
      Replays(sectors, ws) && |sectors| <= MAX_OVERLAY_SECTORS
    }

    method Put(at: nat, sector: seq<byte>, ghost ws: seq<Write>) returns (ok: bool)
      requires Holds(ws) && at % SECTOR_SIZE == 0 && |sector| == SECTOR_SIZE
      modifies `sectors
      ensures ok ==> sectors == old(sectors)[at := sector] && Holds(ws + [Write(at, sector)])
      ensures !ok ==> sectors == old(sectors) && |Touched(ws + [Write(at, sector)])| > MAX_OVERLAY_SECTORS
    {
      PutReplays(sectors, ws, at, sector);
      if at !in sectors && |sectors| >= MAX_OVERLAY_SECTORS {
        ReplayTouches(sectors[at := sector], ws + [Write(at, sector)]);
        KeysGrow(sectors, at, sector);
        return false;
      }
      KeysGrow(sectors, at, sector);
      sectors := sectors[at := sector];
      return true;
    }

    /** applyZero: a run of zeroed sectors. */
    method ApplyZero(at: nat, n: nat, ghost ws: seq<Write>) returns (ok: bool)
      requires Holds(ws)
      modifies `sectors
      ensures ok ==> ZeroRunOk(at, n) && Holds(ws + [Write(at, Zeroes(n))])
      ensures !ok ==> ZeroRunOk(at, n) ==> |Touched(ws + [Write(at, Zeroes(n))])| > MAX_OVERLAY_SECTORS
    {
      if !ZeroRunOk(at, n) {
        return false;
      }
      HoldsEmpty(ws, at);
      hide Holds, Replays, Zeroes, Touched, SameBytes, ZeroRunOk;
      var done := 0;
      while done < n
        invariant 0 <= done <= n && done % SECTOR_SIZE == 0
        invariant Holds(ws + [Write(at, Zeroes(done))])
      {
        NextSector(at, done, n);
        var put := Put(at + done, Zeroes(SECTOR_SIZE), ws + [Write(at, Zeroes(done))]);
        if !put {
          ZeroRunTooLong(ws, at, done, n);
          return false;
        }
        HoldsLonger(ws, at, done);
        done := done + SECTOR_SIZE;
      }
      return true;
    }

    lemma HoldsEmpty(ws: seq<Write>, at: nat)
      requires Holds(ws)
      ensures Holds(ws + [Write(at, Zeroes(0))])
    {
      EmptyWrite(sectors, ws, at);
    }

    lemma HoldsLonger(ws: seq<Write>, at: nat, done: nat)
      requires Holds(ws + [Write(at, Zeroes(done))] + [Write(at + done, Zeroes(SECTOR_SIZE))])
      ensures Holds(ws + [Write(at, Zeroes(done + SECTOR_SIZE))])
    {
      ZeroRunLonger(sectors, ws, at, done);
    }

    /** applyData: one sector, reconstructed. */
    method ApplyData(d: seq<byte>, sector: seq<byte>, sequenceNumber: nat, ghost ws: seq<Write>) returns (ok: bool)
      requires Holds(ws) && |d| == DESCRIPTOR_SIZE && |sector| == SECTOR_SIZE
      modifies `sectors
      ensures ok ==> DataOk(d, sector, sequenceNumber) && Holds(ws + [Write(Le(d[16..24]), Reconstructed(d, sector))])
      ensures !ok && DataOk(d, sector, sequenceNumber) ==>
        |Touched(ws + [Write(Le(d[16..24]), Reconstructed(d, sector))])| > MAX_OVERLAY_SECTORS
    {
      if !DataOk(d, sector, sequenceNumber) {
        return false;
      }
      ok := Put(Le(d[16..24]), Reconstructed(d, sector), ws);
    }

    /** apply: every descriptor of one entry, in order. It fails exactly when a descriptor
        is malformed or the overlay would grow past its limit. */
    method Apply(e: Entry, ghost ws: seq<Write>) returns (applied: nat, ok: bool)
      requires Holds(ws) && DescriptorsFit(e)
      modifies `sectors
      ensures ok ==> applied == e.descriptorCount
      ensures ok ==> WritesUpTo(e, applied).Some? && Holds(ws + WritesUpTo(e, applied).value)
      ensures !ok && WritesUpTo(e, e.descriptorCount).Some? ==>
        |Touched(ws + WritesUpTo(e, e.descriptorCount).value)| > MAX_OVERLAY_SECTORS
    {
      hide Replays, Touched, WriteOf, DataStart, Descriptor;
      var dataStart, dataIndex := DataStart(e), 0;
      applied := 0;
      assert ws + [] == ws;
      while applied < e.descriptorCount
        invariant applied <= e.descriptorCount && dataIndex == DataIndex(e, applied)
        invariant WritesUpTo(e, applied).Some? && Holds(ws + WritesUpTo(e, applied).value)
      {
        var done := ApplyDescriptor(e, applied, dataStart + dataIndex * SECTOR_SIZE, ws + WritesUpTo(e, applied).value);
        if !done {
          GiveUp(e, applied, ws);
          return applied, false;
        }
        UpToNext(e, applied, ws);
        dataIndex := dataIndex + if Descriptor(e, applied)[..4] == SIG_DESC then 1 else 0;
        applied := applied + 1;
      }
      return applied, true;
    }

    /** One descriptor, whose data sector (if it consumes one) is at sectorOff. */
    method ApplyDescriptor(e: Entry, i: nat, sectorOff: nat, ghost ws: seq<Write>) returns (ok: bool)
      requires Holds(ws) && DescriptorsFit(e) && i < e.descriptorCount
      requires sectorOff == DataStart(e) + DataIndex(e, i) * SECTOR_SIZE
      modifies `sectors
      ensures ok ==> WriteOf(e, i).Some? && Holds(ws + [WriteOf(e, i).value])
      ensures !ok && WriteOf(e, i).Some? ==> |Touched(ws + [WriteOf(e, i).value])| > MAX_OVERLAY_SECTORS
    {
      var d := Descriptor(e, i);
      hide Replays, Touched;
      assert SIG_ZERO[0] != SIG_DESC[0];
      if Le(d[24..32]) != e.sequenceNumber {
        return false;
      }
      if d[..4] == SIG_ZERO {
        ok := ApplyZero(Le(d[16..24]), Le(d[8..16]), ws);
      } else if d[..4] == SIG_DESC {
        if sectorOff + SECTOR_SIZE > |e.raw| {
          return false;
        }
        ok := ApplyData(d, e.raw[sectorOff..sectorOff + SECTOR_SIZE], e.sequenceNumber, ws);
      } else {
        return false;
      }
    }
  }

  // ---------------------------------------------------------------- lemmas about writes

  lemma KeysGrow(sectors: map<int, seq<byte>>, at: int, sector: seq<byte>)
    ensures |sectors[at := sector]| == |sectors| + if at in sectors then 0 else 1
  {
    assert sectors[at := sector].Keys == sectors.Keys + {at};
  }

  /** A write of no bytes changes nothing. */
  lemma EmptyWrite(sectors: map<int, seq<byte>>, ws: seq<Write>, at: nat)
    requires Replays(sectors, ws)
    ensures Replays(sectors, ws + [Write(at, Zeroes(0))])
  {
    forall i: nat ensures Written(ws + [Write(at, Zeroes(0))], i) == Written(ws, i) {
      WrittenSnoc(ws, Write(at, Zeroes(0)), i);
    }
    ReplaysSame(sectors, ws, ws + [Write(at, Zeroes(0))]);
  }

  lemma TouchedSame(ws: seq<Write>, vs: seq<Write>)
    requires SameBytes(ws, vs)
    ensures Touched(ws) == Touched(vs)
  {
    TouchedWithin(ws, vs);
    TouchedWithin(vs, ws);
  }

  /** If every byte one list writes is written by another, its sectors are among them. */
  lemma TouchedWithin(ws: seq<Write>, vs: seq<Write>)
    requires forall i: nat :: Written(ws, i).Some? ==> Written(vs, i).Some?
    ensures Touched(ws) <= Touched(vs)
  {
    forall s | s in Touched(ws) ensures s in Touched(vs) {
      var i: nat :| SectorOf(i) == s && Written(ws, i).Some?;
    }
  }

  lemma NextSector(at: nat, done: nat, n: nat)
    requires ZeroRunOk(at, n) && done < n && done % SECTOR_SIZE == 0
    ensures done + SECTOR_SIZE <= n && (done + SECTOR_SIZE) % SECTOR_SIZE == 0 && (at + done) % SECTOR_SIZE == 0
  {
  }

  lemma ZeroRunLonger(sectors: map<int, seq<byte>>, ws: seq<Write>, at: nat, done: nat)
    requires Replays(sectors, ws + [Write(at, Zeroes(done))] + [Write(at + done, Zeroes(SECTOR_SIZE))])
    ensures Replays(sectors, ws + [Write(at, Zeroes(done + SECTOR_SIZE))])
  {
    hide Replays;
    ZeroRunGrows(ws, at, done);
    ReplaysSame(sectors, ws + [Write(at, Zeroes(done))] + [Write(at + done, Zeroes(SECTOR_SIZE))],
                ws + [Write(at, Zeroes(done + SECTOR_SIZE))]);
  }

  lemma ZeroRunTooLong(ws: seq<Write>, at: nat, done: nat, n: nat)
    requires done + SECTOR_SIZE <= n
    requires |Touched(ws + [Write(at, Zeroes(done))] + [Write(at + done, Zeroes(SECTOR_SIZE))])| > MAX_OVERLAY_SECTORS
    ensures |Touched(ws + [Write(at, Zeroes(n))])| > MAX_OVERLAY_SECTORS
  {
    hide Touched, SameBytes, Zeroes;
    ZeroRunGrows(ws, at, done);
    TouchedSame(ws + [Write(at, Zeroes(done))] + [Write(at + done, Zeroes(SECTOR_SIZE))],
                ws + [Write(at, Zeroes(done + SECTOR_SIZE))]);
    TouchedZeroes(ws, at, done + SECTOR_SIZE, n);
  }

  lemma TouchedZeroes(ws: seq<Write>, at: nat, m: nat, n: nat)
    requires m <= n
    ensures |Touched(ws + [Write(at, Zeroes(m))])| <= |Touched(ws + [Write(at, Zeroes(n))])|
  {
    var short, long := ws + [Write(at, Zeroes(m))], ws + [Write(at, Zeroes(n))];
    forall i: nat ensures Written(short, i).Some? ==> Written(long, i).Some? {
      WrittenSnoc(ws, Write(at, Zeroes(m)), i);
      WrittenSnoc(ws, Write(at, Zeroes(n)), i);
    }
    TouchedWithin(short, long);
    SubsetSize(Touched(short), Touched(long));
  }

  /** More writes touch no fewer sectors. */
  lemma {:induction false} TouchedMore(ws: seq<Write>, more: seq<Write>)
    ensures |Touched(ws)| <= |Touched(ws + more)|
  {
    forall i: nat ensures Written(ws, i).Some? ==> Written(ws + more, i).Some? {
      WrittenMore(ws, more, i);
    }
    TouchedWithin(ws, ws + more);
    SubsetSize(Touched(ws), Touched(ws + more));
  }

  lemma {:induction false} WrittenMore(ws: seq<Write>, more: seq<Write>, i: nat)
    ensures Written(ws, i).Some? ==> Written(ws + more, i).Some?
  {
    if more == [] {
      assert ws + more == ws;
    } else {
      var front, w := more[..|more| - 1], more[|more| - 1];
      WrittenMore(ws, front, i);
      assert ws + more == (ws + front) + [w];
      WrittenSnoc(ws + front, w, i);
    }
  }

  /** If descriptor i cannot be applied, the entry as a whole is malformed or too large. */
  lemma GiveUp(e: Entry, i: nat, ws: seq<Write>)
    requires DescriptorsFit(e) && i < e.descriptorCount && WritesUpTo(e, i).Some?
    requires WriteOf(e, i).Some? ==>
      |Touched(ws + WritesUpTo(e, i).value + [WriteOf(e, i).value])| > MAX_OVERLAY_SECTORS
    ensures WritesUpTo(e, e.descriptorCount).Some? ==>
      |Touched(ws + WritesUpTo(e, e.descriptorCount).value)| > MAX_OVERLAY_SECTORS
  {
    hide Touched, WriteOf;
    if WritesUpTo(e, e.descriptorCount).Some? {
      UpToPrefix(e, i + 1, e.descriptorCount);
      var some, all := WritesUpTo(e, i + 1).value, WritesUpTo(e, e.descriptorCount).value;
      hide WritesUpTo;
      UpToNext(e, i, ws);
      assert ws + all == (ws + some) + all[|some|..];
      TouchedMore(ws + some, all[|some|..]);
    }
  }

  lemma UpToNext(e: Entry, i: nat, ws: seq<Write>)
    requires DescriptorsFit(e) && i < e.descriptorCount && WritesUpTo(e, i).Some?
    ensures WritesUpTo(e, i + 1).Some? <==> WriteOf(e, i).Some?
    ensures WriteOf(e, i).Some? ==>
      ws + WritesUpTo(e, i + 1).value == ws + WritesUpTo(e, i).value + [WriteOf(e, i).value]
  {
    hide WriteOf;
  }

  lemma {:induction false} UpToPrefix(e: Entry, i: nat, j: nat)
    requires i <= j <= e.descriptorCount && DescriptorsFit(e) && WritesUpTo(e, j).Some?
    ensures WritesUpTo(e, i).Some? && WritesUpTo(e, i).value <= WritesUpTo(e, j).value
    decreases j
  {
    if i < j {
      UpToPrefix(e, i, j - 1);
    }
  }

  lemma {:induction false} WritesPrefix(chain: seq<Entry>, k: nat)
    requires forall i :: 0 <= i < |chain| ==> DescriptorsFit(chain[i])
    requires k <= |chain| && WritesOf(chain).Some?
    ensures WritesOf(chain[..k]).Some? && WritesOf(chain[..k]).value <= WritesOf(chain).value
    decreases |chain|
  {
    if k < |chain| {
      var front := chain[..|chain| - 1];
      WritesPrefix(front, k);
      assert front[..k] == chain[..k];
    } else {
      assert chain[..k] == chain;
    }
  }

  // ---------------------------------------------------------------- Analyze

  /** The writes an intact log holds, or `None` when it cannot be replayed. */
  ghost predicate Replayable(g: Region, seal: Seal, newest: Entry, ws: seq<Write>)
    requires g.size > 0 && g.size % SECTOR_SIZE == 0 && Newest(g, seal, newest)
  {
    && Sequence(g, seal, newest).Some?
    && ChainFitsDescriptors(Sequence(g, seal, newest).value)
    && WritesOf(Sequence(g, seal, newest).value) == Some(ws)
    && |Touched(ws)| <= 65536
  }

  /** The log holds no entry, or the sequence of its newest entry cannot be replayed. */
  ghost predicate Unreplayable(g: Region, seal: Seal, newest: Option<Entry>)
    requires g.size > 0 && g.size % SECTOR_SIZE == 0
  {
    match newest
    case None => forall off :: 0 <= off < g.size && off % SECTOR_SIZE == 0 ==> EntryAt(g, off, seal).None?
    case Some(e) => Newest(g, seal, e) && forall vs :: !Replayable(g, seal, e, vs)
  }

  predicate ChainFitsDescriptors(chain: seq<Entry>) {
    forall i :: 0 <= i < |chain| ==> DescriptorsFit(chain[i])
  }

  predicate LogPlaced(logOffset: int, logSize: nat) {
    logSize != 0 && logSize % SECTOR_SIZE == 0 && logOffset > 0 && logOffset % SECTOR_SIZE == 0
  }

  /** A log to look at: at a positive offset and of a positive length, both whole sectors of
      4096 bytes, with an identifier that is not zero. */
  ghost predicate LogUsable(logOffset: int, logSize: nat, seal: Seal) {
    && logOffset >= 4096 && logOffset % 4096 == 0 && logSize >= 4096 && logSize % 4096 == 0
    && seal.guid != seq(16, i => 0)
  }

  lemma UsableIsPlaced(logOffset: int, logSize: nat, seal: Seal)
    ensures LogUsable(logOffset, logSize, seal) <==> LogPlaced(logOffset, logSize) && seal.guid != ZERO_GUID
  {
    assert seq(16, i => 0) == ZERO_GUID;
  }

  /** Every sector boundary is scanned, and the newest entry kept. */
  method Scan(g: Region, seal: Seal) returns (newest: Option<Entry>)
    requires g.size > 0 && g.size % SECTOR_SIZE == 0
    ensures newest.Some? ==> Newest(g, seal, newest.value)
    ensures newest.None? ==> forall off :: 0 <= off < g.size && off % SECTOR_SIZE == 0 ==> EntryAt(g, off, seal).None?
  {
    hide EntryAt;
    newest := None;
    var off := 0;
    while off < g.size
      invariant 0 <= off <= g.size && off % SECTOR_SIZE == 0
      invariant newest.None? ==> forall o :: 0 <= o < off && o % SECTOR_SIZE == 0 ==> EntryAt(g, o, seal).None?
      invariant newest.Some? ==> exists o :: 0 <= o < g.size && o % SECTOR_SIZE == 0 && EntryAt(g, o, seal) == newest
      invariant newest.Some? ==> forall o :: 0 <= o < off && o % SECTOR_SIZE == 0 && EntryAt(g, o, seal).Some? ==>
        EntryAt(g, o, seal).value.sequenceNumber <= newest.value.sequenceNumber
    {
      var e := ReadEntry(g, off, seal);
      if e.Some? && (newest.None? || e.value.sequenceNumber > newest.value.sequenceNumber) {
        newest := e;
      }
      off := off + SECTOR_SIZE;
    }
  }

  /** Analyze. A replay is returned exactly when the log can be replayed, and then its
      overlay holds what all descriptors of the sequence, applied in ascending order,
      leave behind. */
  method Analyze(file: seq<byte>, logOffset: int, logSize: nat, seal: Seal)
    returns (rp: Replay?, err: LogError, ghost newest: Option<Entry>, ghost ws: seq<Write>)
    ensures rp != null <==> err == Fine
    ensures rp != null ==> fresh(rp) && rp.Holds(ws) && LogUsable(logOffset, logSize, seal)
    ensures rp != null ==>
      var g := Region(file, logOffset, logSize);
      && newest.Some? && Newest(g, seal, newest.value) && Replayable(g, seal, newest.value, ws)
      && rp.lastSequence == newest.value.sequenceNumber
      && rp.entryCount == |Sequence(g, seal, newest.value).value| && rp.descriptorCount == |ws|
      && rp.firstSequence == newest.value.sequenceNumber - rp.entryCount + 1
    ensures rp == null && LogUsable(logOffset, logSize, seal) ==>
      Unreplayable(Region(file, logOffset, logSize), seal, newest)
  {
    rp, newest, ws := null, None, [];
    UsableIsPlaced(logOffset, logSize, seal);
    hide LogUsable;
    if seal.guid == ZERO_GUID {
      return null, NoEntries, newest, ws;
    }
    if !LogPlaced(logOffset, logSize) {
      return null, Malformed, newest, ws;
    }
    var g := Region(file, logOffset, logSize);
    var found := Scan(g, seal);
    newest := found;
    if found.None? {
      return null, NoEntries, newest, ws;
    }
    hide EntryAt, Newest, Walk, Touched, WritesOf;
    var chain, e := CollectSequence(g, seal, found.value);
    if e != Fine {
      return null, e, newest, ws;
    }
    SequenceShape(g, seal, found.value);
    SequenceFields(g, seal, found.value);
    rp, ws := ReplayChain(chain);
    err := if rp == null then Malformed else Fine;
  }

  /** The second half of Analyze: the descriptors of every entry, in ascending order. */
  method ReplayChain(chain: seq<Entry>) returns (rp: Replay?, ghost ws: seq<Write>)
    requires chain != [] && ChainFitsDescriptors(chain)
    ensures rp != null ==> fresh(rp) && rp.Holds(ws)
    ensures rp != null ==> WritesOf(chain) == Some(ws) && |Touched(ws)| <= MAX_OVERLAY_SECTORS
    ensures rp != null ==> rp.entryCount == |chain| && rp.descriptorCount == |ws|
    ensures rp != null ==> rp.firstSequence == chain[0].sequenceNumber
    ensures rp != null ==> rp.lastSequence == chain[|chain| - 1].sequenceNumber
    ensures rp == null && WritesOf(chain).Some? ==> |Touched(WritesOf(chain).value)| > MAX_OVERLAY_SECTORS
  {
    NothingWritten();
    hide Touched, WritesOf, Replays;
    var r := new Replay(|chain|, chain[0].sequenceNumber, chain[|chain| - 1].sequenceNumber);
    ws := [];
    assert chain[..0] == [];
    for i := 0 to |chain|
      invariant fresh(r) && r.entryCount == |chain| && r.descriptorCount == |ws|
      invariant r.firstSequence == chain[0].sequenceNumber && r.lastSequence == chain[|chain| - 1].sequenceNumber
      invariant WritesOf(chain[..i]) == Some(ws) && r.Holds(ws)
    {
      var n, ok := r.Apply(chain[i], ws);
      WritesStep(chain, i, ws);
      if !ok {
        TooMuch(chain, i, ws);
        return null, ws;
      }
      r.descriptorCount := r.descriptorCount + n;
      ws := ws + WritesUpTo(chain[i], n).value;
    }
    assert chain[..|chain|] == chain;
    ReplayTouches(r.sectors, ws);
    return r, ws;
  }

  lemma NothingWritten()
    ensures WritesOf([]) == Some([]) && Replays(map[], [])
  {
  }

  lemma WritesStep(chain: seq<Entry>, i: nat, ws: seq<Write>)
    requires i < |chain| && ChainFitsDescriptors(chain) && WritesOf(chain[..i]) == Some(ws)
    ensures var more := WritesUpTo(chain[i], chain[i].descriptorCount);
      WritesOf(chain[..i + 1]) == if more.None? then None else Some(ws + more.value)
  {
    assert chain[..i + 1][..i] == chain[..i];
  }

  lemma TooMuch(chain: seq<Entry>, i: nat, ws: seq<Write>)
    requires i < |chain| && ChainFitsDescriptors(chain) && WritesOf(chain[..i]) == Some(ws)
    requires var more := WritesUpTo(chain[i], chain[i].descriptorCount);
      more.Some? ==> |Touched(ws + more.value)| > MAX_OVERLAY_SECTORS
    ensures WritesOf(chain).Some? ==> |Touched(WritesOf(chain).value)| > MAX_OVERLAY_SECTORS
  {
    hide Touched, WritesUpTo;
    if WritesOf(chain).Some? {
      WritesPrefix(chain, i + 1);
      WritesStep(chain, i, ws);
      hide WritesOf;
      StillTooMuch(WritesOf(chain[..i + 1]).value, WritesOf(chain).value);
    }
  }

  lemma StillTooMuch(some: seq<Write>, all: seq<Write>)
    requires some <= all && |Touched(some)| > MAX_OVERLAY_SECTORS
    ensures |Touched(all)| > MAX_OVERLAY_SECTORS
  {
    hide Touched;
    assert all == some + all[|some|..];
    TouchedMore(some, all[|some|..]);
  }

  lemma SequenceFields(g: Region, seal: Seal, newest: Entry)
    requires g.size > 0 && g.size % SECTOR_SIZE == 0 && Newest(g, seal, newest)
    requires Sequence(g, seal, newest).Some?
    ensures ChainFitsDescriptors(Sequence(g, seal, newest).value)
  {
    SequenceShape(g, seal, newest);
    hide EntryAt, Following;
    var chain := Sequence(g, seal, newest).value;
    forall i | 0 <= i < |chain| ensures DescriptorsFit(chain[i]) {
      assert EntryAt(g, chain[i].offset, seal) == Some(chain[i]);
      EntryFields(g, chain[i].offset, seal);
    }
  }

  // ---------------------------------------------------------------- the overlay

  /** A read through the overlay: p[lo..lo + n] are the bytes of the written-through
      file, and it stopped exactly where that file has no byte. */
  ghost predicate ReadThrough(base: seq<byte>, ws: seq<Write>, off: nat, p: array<byte>, lo: nat, hi: nat, n: nat)
    requires lo <= hi <= p.Length
    reads p
  {
    && n <= hi - lo
    && (forall i :: lo <= i < lo + n ==> ByteAfter(base, ws, off + (i - lo)) == Some(p[i]))
    && (n < hi - lo ==> ByteAfter(base, ws, off + n) == None)
  }

  /** What a read through the overlay serves: the replayed sectors, unless the request
      ends past the last offset a signed 64-bit number holds. Its end then wraps to a
      negative number, no sector is looked at, and the base alone is read. */
  function Served(ws: seq<Write>, off: nat, len: nat): seq<Write> {
    if off + len < TWO_63 then ws else []
  }

  /** The requests whose sectors a signed 64-bit counter can step over. No buffer is
      2^63 bytes long. */
  predicate Steppable(off: int, len: nat) {
    len < TWO_63 && (off + len <= TWO_63 - SECTOR_SIZE || TWO_63 <= off + len)
  }

  /** For any other request the counter passes its end by wrapping to the bottom of its
      range, from where it steps up to the same sectors again. */
  lemma CounterWraps(off: Int64, len: nat)
    requires 0 <= off && 0 < len < TWO_63
    ensures Steppable(off, len) <==> forall s: Int64 :: InWalk(off, len, s) ==> s < Wrap64(s + SECTOR_SIZE)
  {
    if TWO_63 - SECTOR_SIZE < off + len < TWO_63 {
      var s: Int64 := TWO_63 - SECTOR_SIZE;
      assert InWalk(off, len, s) && Wrap64(s + SECTOR_SIZE) < s;
    } else {
      forall s: Int64 | InWalk(off, len, s) ensures s < Wrap64(s + SECTOR_SIZE) {
        assert s + SECTOR_SIZE < TWO_63;
      }
    }
  }

  /** A sector the walk over a request looks at. */
  predicate InWalk(off: Int64, len: nat, s: Int64)
    requires off >= 0
  {
    SectorOf(off) <= s < Wrap64(off + len) && s % SECTOR_SIZE == 0
  }

  /** overlayReader.ReadAt. The count is the longest prefix whose bytes lie below the base
      length or inside a replayed sector. */
  method OverlayReadAt(base: seq<byte>, sectors: map<int, seq<byte>>, ghost ws: seq<Write>,
                       p: array<byte>, lo: nat, hi: nat, off: Int64)
    returns (n: nat, err: Error)
    requires lo <= hi <= p.Length && Replays(sectors, ws)
    requires off >= 0 && lo < hi ==> Steppable(off, hi - lo)
    modifies p
    ensures forall i :: 0 <= i < p.Length && !(lo <= i < hi) ==> p[i] == old(p[i])
    ensures off < 0 <==> err == NegativeOffset
    ensures off < 0 ==> n == 0
    ensures off >= 0 ==> ReadThrough(base, Served(ws, off, hi - lo), off, p, lo, hi, n)
    ensures off >= 0 ==> (err == Ok <==> n == hi - lo)
  {
    if off < 0 {
      return 0, NegativeOffset;
    }
    if hi == lo {
      return 0, Ok;
    }
    var baseN, baseErr := FileReadAt(base, p, lo, hi, off);
    BaseBytes(base, off, p, lo, baseN);
    ghost var read := p[..];
    var overlaid := CopySectors(sectors, p, lo, hi, off);
    OverlayMeaning(sectors, ws);
    hide Replays, Overlaid, SectorOf;
    if !overlaid {
      forall i | lo <= i < lo + baseN
        ensures ByteAfter(base, Served(ws, off, hi - lo), off + (i - lo)) == Some(p[i])
      {
        assert p[i] == read[i];
      }
      return baseN, baseErr;
    }
    var valid := ExtendPrefix(sectors, off, hi - lo, baseN);
    forall i | lo <= i < lo + valid ensures ByteAfter(base, ws, off + (i - lo)) == Some(p[i]) {
      if Overlaid(sectors, off + (i - lo)).None? {
        assert p[i] == read[i];
      }
    }
    return valid, if valid == hi - lo then Ok else baseErr;
  }

  /** Overlay: the file as it reads with the replayed sectors applied. A replay of no
      sectors is the file itself. */
  method ReadReplayed(rp: Replay, base: seq<byte>, ghost ws: seq<Write>,
                      p: array<byte>, lo: nat, hi: nat, off: Int64)
    returns (n: nat, err: Error)
    requires lo <= hi <= p.Length && rp.Holds(ws)
    requires off >= 0 && lo < hi && rp.sectors != map[] ==> Steppable(off, hi - lo)
    modifies p
    ensures forall i :: 0 <= i < p.Length && !(lo <= i < hi) ==> p[i] == old(p[i])
    ensures off < 0 <==> err == NegativeOffset
    ensures off < 0 ==> n == 0
    ensures off >= 0 ==> ReadThrough(base, Served(ws, off, hi - lo), off, p, lo, hi, n)
    ensures off >= 0 ==> (err == Ok <==> n == hi - lo)
  {
    if |rp.sectors| == 0 {
      n, err := FileReadAt(base, p, lo, hi, off);
      if off >= 0 {
        BaseBytes(base, off, p, lo, n);
        OverlayMeaning(rp.sectors, ws);
        assert forall i: nat :: Written(ws, i) == None by {
          forall i: nat ensures Written(ws, i) == None {
            assert Overlaid(rp.sectors, i) == Written(ws, i);
          }
        }
      }
      return;
    }
    n, err := OverlayReadAt(base, rp.sectors, ws, p, lo, hi, off);
  }

  /** A read that serves every write, of a log that leaves no gap, is a read of the file
      the log was written through to. */
  lemma ReplayedIsWrittenThrough(base: seq<byte>, ws: seq<Write>, off: nat, p: array<byte>, lo: nat, hi: nat, n: nat)
    requires lo <= hi <= p.Length && off + (hi - lo) < TWO_63 && Gapless(base, ws)
    ensures ReadThrough(base, Served(ws, off, hi - lo), off, p, lo, hi, n) <==>
      ReadThrough(WriteThrough(base, ws), [], off, p, lo, hi, n)
  {
    OverlayIsWriteThrough(base, ws);
    hide WriteThrough, Gapless, Written;
    forall i: nat ensures ByteAfter(WriteThrough(base, ws), [], i) == ByteAfter(base, ws, i) {
      NoWrites(i);
    }
  }

  lemma NoWrites(i: nat)
    ensures Written([], i) == None
  {
  }

  /** How much of a request the base alone supplies. */
  function BaseCount(base: seq<byte>, off: nat, len: nat): nat {
    Min(len, Max(0, |base| - off))
  }

  lemma BaseReadStops(base: seq<byte>, off: nat, p: array<byte>, lo: nat, hi: nat, n: nat)
    requires lo <= hi <= p.Length && ReadThrough(base, [], off, p, lo, hi, n)
    ensures n == BaseCount(base, off, hi - lo)
    ensures forall i :: off <= i < off + n ==> FileByte(base, i) == Some(p[lo + (i - off)])
  {
    forall i | off <= i < off + n ensures FileByte(base, i) == Some(p[lo + (i - off)]) {
      var k := lo + (i - off);
      assert ByteAfter(base, [], off + (k - lo)) == Some(p[k]);
    }
    if n > 0 {
      assert FileByte(base, off + n - 1).Some?;
    }
    if n < hi - lo {
      assert ByteAfter(base, [], off + n) == None;
    }
  }

  /** The log leaves a request as the base alone answers it: it puts no other byte where
      the base has one, and none where the base ends. */
  ghost predicate LeftAlone(base: seq<byte>, ws: seq<Write>, off: nat, len: nat) {
    var n := BaseCount(base, off, len);
    && (forall i: nat :: off <= i < off + n ==> Written(ws, i) == None || Written(ws, i) == FileByte(base, i))
    && (n < len ==> Written(ws, off + n) == None)
  }

  /** A request whose end wraps is answered as the log calls for exactly when the log leaves
      it alone. */
  lemma WrappedReadMisses(base: seq<byte>, ws: seq<Write>, off: nat, p: array<byte>, lo: nat, hi: nat, n: nat)
    requires lo <= hi <= p.Length && TWO_63 <= off + (hi - lo)
    requires ReadThrough(base, Served(ws, off, hi - lo), off, p, lo, hi, n)
    ensures n == BaseCount(base, off, hi - lo)
    ensures ReadThrough(base, ws, off, p, lo, hi, n) <==> LeftAlone(base, ws, off, hi - lo)
  {
    BaseReadStops(base, off, p, lo, hi, n);
    hide Written;
    if ReadThrough(base, ws, off, p, lo, hi, n) {
      forall i: nat | off <= i < off + n ensures Written(ws, i) == None || Written(ws, i) == FileByte(base, i) {
        var k := lo + (i - off);
        assert ByteAfter(base, ws, off + (k - lo)) == Some(p[k]);
      }
    }
    if LeftAlone(base, ws, off, hi - lo) {
      forall k | lo <= k < lo + n ensures ByteAfter(base, ws, off + (k - lo)) == Some(p[k]) {
        var i: nat := off + (k - lo);
        assert FileByte(base, i) == Some(p[lo + (i - off)]);
        assert Written(ws, i) == None || Written(ws, i) == FileByte(base, i);
      }
      if n < hi - lo {
        NoWrites(off + n);
        assert ByteAfter(base, [], off + n) == None;
      }
    }
  }

  /** The last sector a log can place, and a request for twice as much from its start. */
  const HIGH_SECTOR := TWO_63 - 2 * SECTOR_SIZE

  /** Whatever is delivered for that request, as OverlayReadAt promises, is not what the
      writes call for. */
  ghost predicate WrongAnswer(base: seq<byte>, ws: seq<Write>, p: array<byte>, n: nat)
    requires p.Length == 2 * SECTOR_SIZE
    reads p
  {
    ReadThrough(base, Served(ws, HIGH_SECTOR, p.Length), HIGH_SECTOR, p, 0, p.Length, n) ==>
      !ReadThrough(base, ws, HIGH_SECTOR, p, 0, p.Length, n)
  }

  /** For every file that ends at or before that sector, a log that writes it is ignored:
      the request delivers nothing. */
  lemma HighSectorMissed(base: seq<byte>, sector: seq<byte>, p: array<byte>, n: nat)
    requires |base| <= HIGH_SECTOR && |sector| == SECTOR_SIZE && p.Length == 2 * SECTOR_SIZE
    ensures ZeroRunOk(HIGH_SECTOR, SECTOR_SIZE) && Steppable(HIGH_SECTOR, p.Length)
    ensures BaseCount(base, HIGH_SECTOR, p.Length) == 0
    ensures WrongAnswer(base, [Write(HIGH_SECTOR, sector)], p, n)
  {
    var ws := [Write(HIGH_SECTOR, sector)];
    assert Written(ws, HIGH_SECTOR).Some?;
    if ReadThrough(base, Served(ws, HIGH_SECTOR, p.Length), HIGH_SECTOR, p, 0, p.Length, n) {
      WrappedReadMisses(base, ws, HIGH_SECTOR, p, 0, p.Length, n);
    }
  }

  /** For every file that has a byte there, a log that writes another is ignored too, and
      the file's own byte is delivered as valid. */
  lemma HighSectorStale(base: seq<byte>, sector: seq<byte>, p: array<byte>, n: nat)
    requires HIGH_SECTOR < |base| < TWO_63 && |sector| == SECTOR_SIZE && p.Length == 2 * SECTOR_SIZE
    requires base[HIGH_SECTOR] != sector[0]
    ensures ZeroRunOk(HIGH_SECTOR, SECTOR_SIZE) && Steppable(HIGH_SECTOR, p.Length)
    ensures Gapless(base, [Write(HIGH_SECTOR, sector)]) && BaseCount(base, HIGH_SECTOR, p.Length) > 0
    ensures WrongAnswer(base, [Write(HIGH_SECTOR, sector)], p, n)
  {
    var ws := [Write(HIGH_SECTOR, sector)];
    assert WriteThrough(base, ws[..0]) == base;
    assert Written(ws, HIGH_SECTOR) == Some(sector[0]);
    if ReadThrough(base, Served(ws, HIGH_SECTOR, p.Length), HIGH_SECTOR, p, 0, p.Length, n) {
      WrappedReadMisses(base, ws, HIGH_SECTOR, p, 0, p.Length, n);
    }
  }

  lemma BaseBytes(base: seq<byte>, off: nat, p: array<byte>, lo: nat, n: nat)
    requires lo + n <= p.Length && (n > 0 ==> off + n <= |base| && p[lo..lo + n] == base[off..off + n])
    ensures forall i :: lo <= i < lo + n ==> off + (i - lo) < |base| && p[i] == base[off + (i - lo)]
  {
    forall i | lo <= i < lo + n ensures off + (i - lo) < |base| && p[i] == base[off + (i - lo)] {
      assert p[i] == p[lo..lo + n][i - lo];
    }
  }

  lemma OverlayMeaning(sectors: map<int, seq<byte>>, ws: seq<Write>)
    requires Replays(sectors, ws)
    ensures ValidSectors(sectors)
    ensures forall i: nat :: Overlaid(sectors, i) == Written(ws, i)
  {
  }

  /** The first loop: every replayed sector the request meets is copied over it. */
  method CopySectors(sectors: map<int, seq<byte>>, p: array<byte>, lo: nat, hi: nat, off: Int64)
    returns (overlaid: bool)
    requires off >= 0 && lo < hi <= p.Length && Steppable(off, hi - lo) && ValidSectors(sectors)
    modifies p
    ensures forall i :: 0 <= i < p.Length && !(lo <= i < hi) ==> p[i] == old(p[i])
    ensures off + (hi - lo) < TWO_63 ==> forall i :: lo <= i < hi ==>
      if Overlaid(sectors, off + (i - lo)).Some? then Overlaid(sectors, off + (i - lo)) == Some(p[i])
      else p[i] == old(p[i])
    ensures off + (hi - lo) < TWO_63 && !overlaid ==>
      forall k: nat :: off <= k < off + (hi - lo) ==> Overlaid(sectors, k).None?
    ensures off + (hi - lo) >= TWO_63 ==> !overlaid && forall i :: lo <= i < hi ==> p[i] == old(p[i])
  {
    overlaid := false;
    var end := Wrap64(off + (hi - lo));
    var s: Int64 := SectorOf(off);
    assert s % SECTOR_SIZE == 0;
    while s < end
      invariant s % SECTOR_SIZE == 0 && SectorOf(off) <= s
      invariant end == if off + (hi - lo) < TWO_63 then off + (hi - lo) else off + (hi - lo) - TWO_64
      invariant off + (hi - lo) >= TWO_63 ==> s == SectorOf(off) && !overlaid
      invariant off + (hi - lo) >= TWO_63 ==> forall i :: lo <= i < hi ==> p[i] == old(p[i])
      invariant forall i :: 0 <= i < p.Length && !(lo <= i < hi) ==> p[i] == old(p[i])
      invariant forall i :: lo <= i < hi ==>
        if off + (i - lo) < s && Overlaid(sectors, off + (i - lo)).Some?
        then Overlaid(sectors, off + (i - lo)) == Some(p[i]) else p[i] == old(p[i])
      invariant !overlaid ==> forall k: nat :: off <= k < Min(s, off + (hi - lo)) ==> Overlaid(sectors, k).None?
      decreases end - s
    {
      forall k: nat | s <= k < s + SECTOR_SIZE ensures SectorOf(k) == s {
        SectorOfIs(k, s);
      }
      if s in sectors {
        overlaid := true;
        CopyInto(sectors[s], p, lo + (Max(s, off) - off), lo + (Min(s + SECTOR_SIZE, end) - off), Max(s, off) - s);
      }
      s := Wrap64(s + SECTOR_SIZE);
    }
  }

  /** Go's built-in `copy` into a window. */
  method CopyInto(src: seq<byte>, p: array<byte>, lo: nat, hi: nat, from: nat)
    requires lo <= hi <= p.Length && from + (hi - lo) <= |src|
    modifies p
    ensures forall i :: 0 <= i < p.Length && !(lo <= i < hi) ==> p[i] == old(p[i])
    ensures forall i :: lo <= i < hi ==> p[i] == src[from + (i - lo)]
  {
    for j := lo to hi
      invariant forall i :: 0 <= i < p.Length && !(lo <= i < j) ==> p[i] == old(p[i])
      invariant forall i :: lo <= i < j ==> p[i] == src[from + (i - lo)]
    {
      p[j] := src[from + (j - lo)];
    }
  }

  /** The second loop: the valid prefix grows for as long as replayed sectors cover the
      gap the base read left. */
  method ExtendPrefix(sectors: map<int, seq<byte>>, off: nat, len: nat, baseN: nat) returns (valid: nat)
    requires baseN <= len && ValidSectors(sectors)
    ensures baseN <= valid <= len
    ensures forall k: nat :: off + baseN <= k < off + valid ==> Overlaid(sectors, k).Some?
    ensures valid < len ==> Overlaid(sectors, off + valid).None?
  {
    valid := baseN;
    while valid < len
      invariant baseN <= valid <= len
      invariant forall k: nat :: off + baseN <= k < off + valid ==> Overlaid(sectors, k).Some?
    {
      var s := SectorOf(off + valid);
      if s !in sectors {
        break;
      }
      forall k: nat | s <= k < s + SECTOR_SIZE ensures SectorOf(k) == s {
        SectorOfIs(k, s);
      }
      valid := Min(s + SECTOR_SIZE, off + len) - off;
    }
  }
}
