/** VHDX log replay: the scan for the newest entry, the walk over its sequence, the
    overlay the sequence's descriptors build, and the proof that reading through the
    overlay is reading a file the log has been written through to. */
module LogReplay {
  import opened Bytes
  import opened Counting
  import opened Division
  import opened LogFormat

  const MAX_OVERLAY_SECTORS := 65536

  datatype LogError = Fine | NoEntries | BrokenSequence | SequenceTooLong | Malformed

  // ---------------------------------------------------------------- the sequence

  /** Where the entry after one at `off` begins. */
  function Following(g: Region, off: int, entryLength: nat): (next: nat)
    requires g.size > 0
    ensures next < g.size
  {
    (off + entryLength) % g.size
  }

  /** The walk from an offset, expecting consecutive sequence numbers up to `last`. */
  ghost function Walk(g: Region, seal: Seal, off: nat, expected: nat, last: nat): Option<seq<Entry>>
    requires g.size > 0 && expected <= last
    decreases last - expected
  {
    match EntryAt(g, off, seal)
    case None => None
    case Some(e) =>
      if e.sequenceNumber != expected then None
      else if expected == last then Some([e])
      else
        match Walk(g, seal, Following(g, off, e.entryLength), expected + 1, last)
        case None => None
        case Some(rest) => Some([e] + rest)
  }

  /** A chain of entries: the first at `start`, each next where the last ended modulo the
      region, with consecutive sequence numbers. */
  ghost predicate Chained(g: Region, seal: Seal, start: nat, first: nat, chain: seq<Entry>)
    requires g.size > 0
  {
    forall i :: 0 <= i < |chain| ==>
      && (i == 0 ==> chain[i].offset == start)
      && (i > 0 ==> chain[i].offset == Following(g, chain[i - 1].offset, chain[i - 1].entryLength))
      && chain[i].sequenceNumber == first + i
      && EntryAt(g, chain[i].offset, seal) == Some(chain[i])
  }

  /** A walk succeeds exactly with the one chain that reaches `last`. */
  lemma {:induction false} WalkIsChain(g: Region, seal: Seal, off: nat, expected: nat, last: nat)
    requires g.size > 0 && expected <= last && Walk(g, seal, off, expected, last).Some?
    ensures var chain := Walk(g, seal, off, expected, last).value;
      && |chain| == last - expected + 1
      && Chained(g, seal, off, expected, chain)
    decreases last - expected
  {
    var e := EntryAt(g, off, seal).value;
    EntryFields(g, off, seal);
    hide EntryAt, Following, Chained;
    if expected == last {
      ChainSingle(g, seal, off, e);
    } else {
      var next := Following(g, off, e.entryLength);
      WalkIsChain(g, seal, next, expected + 1, last);
      ChainPrepends(g, seal, off, expected, e, Walk(g, seal, next, expected + 1, last).value);
    }
  }

  lemma ChainSingle(g: Region, seal: Seal, off: nat, e: Entry)
    requires g.size > 0 && e.offset == off && EntryAt(g, off, seal) == Some(e)
    ensures Chained(g, seal, off, e.sequenceNumber, [e])
  {
    hide EntryAt, Following;
  }

  lemma ChainPrepends(g: Region, seal: Seal, off: nat, first: nat, e: Entry, rest: seq<Entry>)
    requires g.size > 0 && e.offset == off && e.sequenceNumber == first && EntryAt(g, off, seal) == Some(e)
    requires Chained(g, seal, Following(g, off, e.entryLength), first + 1, rest)
    ensures Chained(g, seal, off, first, [e] + rest)
  {
    hide EntryAt, Following;
    var chain := [e] + rest;
    forall i | 0 <= i < |chain|
      ensures i == 0 ==> chain[i].offset == off
      ensures i > 0 ==> chain[i].offset == Following(g, chain[i - 1].offset, chain[i - 1].entryLength)
      ensures chain[i].sequenceNumber == first + i && EntryAt(g, chain[i].offset, seal) == Some(chain[i])
    {
      if i > 0 {
        assert chain[i] == rest[i - 1];
        if i > 1 {
          assert chain[i - 1] == rest[i - 2];
        }
      }
    }
  }

  lemma {:induction false} ChainIsWalk(g: Region, seal: Seal, off: nat, expected: nat, last: nat, chain: seq<Entry>)
    requires g.size > 0 && expected <= last && |chain| == last - expected + 1
    requires Chained(g, seal, off, expected, chain)
    ensures Walk(g, seal, off, expected, last) == Some(chain)
    decreases last - expected
  {
    hide EntryAt, Following;
    var e := chain[0];
    assert EntryAt(g, off, seal) == Some(e);
    if expected < last {
      var rest := chain[1..];
      assert chain[1].offset == Following(g, off, e.entryLength);
      forall i | 0 <= i < |rest|
        ensures i == 0 ==> rest[i].offset == Following(g, off, e.entryLength)
        ensures i > 0 ==> rest[i].offset == Following(g, rest[i - 1].offset, rest[i - 1].entryLength)
        ensures rest[i].sequenceNumber == expected + 1 + i && EntryAt(g, rest[i].offset, seal) == Some(rest[i])
      {
        assert rest[i] == chain[i + 1];
      }
      ChainIsWalk(g, seal, Following(g, off, e.entryLength), expected + 1, last, rest);
      assert chain == [e] + rest;
    } else {
      assert chain == [e];
    }
  }

  // ---------------------------------------------------------------- the walk always ends

  /** Offsets stay aligned: entries are whole sectors and so is the region. */
  lemma {:induction false} ChainAligned(g: Region, seal: Seal, start: nat, first: nat, chain: seq<Entry>, i: nat)
    requires g.size > 0 && g.size % SECTOR_SIZE == 0 && start % SECTOR_SIZE == 0 && start < g.size
    requires Chained(g, seal, start, first, chain) && i < |chain|
    ensures chain[i].offset % SECTOR_SIZE == 0 && 0 <= chain[i].offset < g.size
  {
    hide EntryAt, Following;
    if i > 0 {
      ChainAligned(g, seal, start, first, chain, i - 1);
      var p := chain[i - 1];
      assert EntryAt(g, p.offset, seal) == Some(p);
      EntryFields(g, p.offset, seal);
      FollowingAligned(g, p.offset, p.entryLength);
    }
  }

  lemma FollowingAligned(g: Region, off: nat, entryLength: nat)
    requires g.size > 0 && g.size % SECTOR_SIZE == 0 && off % SECTOR_SIZE == 0 && entryLength % SECTOR_SIZE == 0
    ensures Following(g, off, entryLength) % SECTOR_SIZE == 0
  {
    AlignedModulo(off + entryLength, g.size);
  }

  lemma AlignedModulo(x: int, size: nat)
    requires 0 < size && size % SECTOR_SIZE == 0 && 0 <= x && x % SECTOR_SIZE == 0
    ensures (x % size) % SECTOR_SIZE == 0
  {
    var q, k, m := x / size, size / SECTOR_SIZE, x / SECTOR_SIZE;
    assert x % size == x - size * q;
    assert size * q == SECTOR_SIZE * (k * q) by {
      assert size == SECTOR_SIZE * k;
    }
    assert x % size == (m - k * q) * SECTOR_SIZE;
    QuotientIs(x % size, SECTOR_SIZE, m - k * q);
  }

  /** By pigeonhole over aligned offsets, a chain has no more entries than the region has
      sectors: two entries at one offset would be one entry with two sequence numbers. */
  lemma ChainFits(g: Region, seal: Seal, start: nat, first: nat, chain: seq<Entry>)
    requires g.size > 0 && g.size % SECTOR_SIZE == 0 && start % SECTOR_SIZE == 0 && start < g.size
    requires Chained(g, seal, start, first, chain)
    ensures |chain| <= g.size / SECTOR_SIZE
  {
    var slots := seq(|chain|, i requires 0 <= i < |chain| => chain[i].offset / SECTOR_SIZE);
    forall i | 0 <= i < |chain|
      ensures 0 <= slots[i] < g.size / SECTOR_SIZE && chain[i].offset == slots[i] * SECTOR_SIZE
    {
      ChainAligned(g, seal, start, first, chain, i);
    }
    forall i, j | 0 <= i < j < |chain| ensures slots[i] != slots[j] {
      SameOffset(g, seal, start, first, chain, i, j);
    }
    hide Chained;
    Pigeonhole(slots, g.size / SECTOR_SIZE);
  }

  lemma SameOffset(g: Region, seal: Seal, start: nat, first: nat, chain: seq<Entry>, i: nat, j: nat)
    requires g.size > 0 && Chained(g, seal, start, first, chain) && i < j < |chain|
    ensures chain[i].offset != chain[j].offset
  {
    hide EntryAt, Following;
    assert chain[i].sequenceNumber == first + i && chain[j].sequenceNumber == first + j;
    assert EntryAt(g, chain[i].offset, seal) == Some(chain[i]) && EntryAt(g, chain[j].offset, seal) == Some(chain[j]);
  }

  // ---------------------------------------------------------------- collectSequence

  /** newest is an entry of the region, and no entry at a sector boundary is newer. */
  ghost predicate Newest(g: Region, seal: Seal, newest: Entry)
    requires g.size > 0
  {
    && (exists off :: 0 <= off < g.size && off % SECTOR_SIZE == 0 && EntryAt(g, off, seal) == Some(newest))
    && forall off :: 0 <= off < g.size && off % SECTOR_SIZE == 0 && EntryAt(g, off, seal).Some? ==>
         EntryAt(g, off, seal).value.sequenceNumber <= newest.sequenceNumber
  }

  /** The sequence the newest entry closes, if the log holds all of it. */
  ghost function Sequence(g: Region, seal: Seal, newest: Entry): Option<seq<Entry>>
    requires g.size > 0
  {
    match EntryAt(g, newest.tail, seal)
    case None => None
    case Some(first) =>
      if first.sequenceNumber > newest.sequenceNumber then None
      else Walk(g, seal, newest.tail, first.sequenceNumber, newest.sequenceNumber)
  }

  /** The specification's walk from the start, told by where it stands. */
  ghost predicate WalkStands(g: Region, seal: Seal, start: nat, first: nat, last: nat, chain: seq<Entry>,
                             off: nat, expected: nat)
    requires g.size > 0 && first <= last && expected <= last
  {
    Walk(g, seal, start, first, last) ==
      match Walk(g, seal, off, expected, last)
      case None => None
      case Some(rest) => Some(chain + rest)
  }

  /** One more entry on the walk. */
  lemma WalkStep(g: Region, seal: Seal, start: nat, first: nat, last: nat, chain: seq<Entry>, off: nat, expected: nat)
    requires g.size > 0 && first <= last && expected <= last
    requires WalkStands(g, seal, start, first, last, chain, off, expected)
    ensures var e := EntryAt(g, off, seal);
      && (e.None? || e.value.sequenceNumber != expected ==> Walk(g, seal, start, first, last) == None)
      && (e.Some? && e.value.sequenceNumber == expected == last ==>
            Walk(g, seal, start, first, last) == Some(chain + [e.value]))
      && (e.Some? && e.value.sequenceNumber == expected < last ==>
            WalkStands(g, seal, start, first, last, chain + [e.value],
                       Following(g, off, e.value.entryLength), expected + 1))
  {
    hide EntryAt, Following;
    var e := EntryAt(g, off, seal);
    if e.Some? && e.value.sequenceNumber == expected < last {
      var next := Walk(g, seal, Following(g, off, e.value.entryLength), expected + 1, last);
      if next.Some? {
        assert chain + ([e.value] + next.value) == (chain + [e.value]) + next.value;
      }
    }
  }

  /** Where the walk stands after a chain. */
  function NextOffset(g: Region, start: nat, chain: seq<Entry>): nat
    requires g.size > 0
  {
    if chain == [] then start
    else Following(g, chain[|chain| - 1].offset, chain[|chain| - 1].entryLength)
  }

  lemma ChainGrows(g: Region, seal: Seal, start: nat, first: nat, chain: seq<Entry>, e: Entry)
    requires g.size > 0 && Chained(g, seal, start, first, chain)
    requires EntryAt(g, NextOffset(g, start, chain), seal) == Some(e) && e.sequenceNumber == first + |chain|
    ensures Chained(g, seal, start, first, chain + [e])
  {
    EntryFields(g, NextOffset(g, start, chain), seal);
    hide EntryAt, Following, Le;
    var more := chain + [e];
    forall i | 0 <= i < |more|
      ensures i == 0 ==> more[i].offset == start
      ensures i > 0 ==> more[i].offset == Following(g, more[i - 1].offset, more[i - 1].entryLength)
      ensures more[i].sequenceNumber == first + i && EntryAt(g, more[i].offset, seal) == Some(more[i])
    {
      if i < |chain| {
        assert more[i] == chain[i] && (i > 0 ==> more[i - 1] == chain[i - 1]);
      }
    }
  }

  lemma NewestFields(g: Region, seal: Seal, newest: Entry)
    requires g.size > 0 && g.size % SECTOR_SIZE == 0 && Newest(g, seal, newest)
    ensures newest.tail < g.size && newest.tail % SECTOR_SIZE == 0
    ensures newest.sequenceNumber < 0x1_0000_0000_0000_0000
    ensures EntryAt(g, newest.tail, seal).Some? ==>
      EntryAt(g, newest.tail, seal).value.sequenceNumber <= newest.sequenceNumber
  {
    var off :| 0 <= off < g.size && EntryAt(g, off, seal) == Some(newest);
    EntryFields(g, off, seal);
  }

  /** The loop of collectSequence. It could only run out of entries to allow with a chain
      longer than the region has sectors. The expected number never passes the newest
      entry's, so the 64-bit counter does not wrap. */
  method WalkSequence(g: Region, seal: Seal, newest: Entry, first: Entry)
    returns (chain: seq<Entry>, err: LogError)
    requires g.size > 0 && first.sequenceNumber <= newest.sequenceNumber < 0x1_0000_0000_0000_0000
    ensures err == Fine || err == BrokenSequence || err == SequenceTooLong
    ensures err == Fine ==> Walk(g, seal, newest.tail, first.sequenceNumber, newest.sequenceNumber) == Some(chain)
    ensures err == BrokenSequence ==> Walk(g, seal, newest.tail, first.sequenceNumber, newest.sequenceNumber) == None
    ensures err == SequenceTooLong ==>
      |chain| > g.size / SECTOR_SIZE && Chained(g, seal, newest.tail, first.sequenceNumber, chain)
  {
    hide EntryAt, Walk, Chained, Following;
    var maxEntries := g.size / SECTOR_SIZE;
    chain := [];
    var off: nat, expected: nat := newest.tail, first.sequenceNumber;
    StandsAtStart(g, seal, newest.tail, expected, newest.sequenceNumber);
    while |chain| <= maxEntries
      invariant expected == first.sequenceNumber + |chain| <= newest.sequenceNumber
      invariant WalkStands(g, seal, newest.tail, first.sequenceNumber, newest.sequenceNumber, chain, off, expected)
      invariant Chained(g, seal, newest.tail, first.sequenceNumber, chain) && NextOffset(g, newest.tail, chain) == off
      decreases newest.sequenceNumber - expected
    {
      var e := ReadEntry(g, off, seal);
      WalkStep(g, seal, newest.tail, first.sequenceNumber, newest.sequenceNumber, chain, off, expected);
      if e.None? || e.value.sequenceNumber != expected {
        return [], BrokenSequence;
      }
      ChainGrows(g, seal, newest.tail, first.sequenceNumber, chain, e.value);
      EntryFields(g, off, seal);
      chain := chain + [e.value];
      if e.value.sequenceNumber == newest.sequenceNumber {
        return chain, Fine;
      }
      off := Following(g, off, e.value.entryLength);
      expected := expected + 1;
    }
    return chain, SequenceTooLong;
  }

  lemma StandsAtStart(g: Region, seal: Seal, start: nat, first: nat, last: nat)
    requires g.size > 0 && first <= last
    ensures WalkStands(g, seal, start, first, last, [], start, first) && Chained(g, seal, start, first, [])
  {
    hide EntryAt, Following;
    var w := Walk(g, seal, start, first, last);
    assert w.Some? ==> [] + w.value == w.value;
  }

  /** The error for a sequence with more entries than the region has sectors is never
      returned. */
  lemma NeverTooLong(g: Region, seal: Seal, start: nat, first: nat, chain: seq<Entry>, err: LogError)
    requires g.size > 0 && g.size % SECTOR_SIZE == 0 && start % SECTOR_SIZE == 0 && start < g.size
    requires err == SequenceTooLong ==> |chain| > g.size / SECTOR_SIZE && Chained(g, seal, start, first, chain)
    ensures err != SequenceTooLong
  {
    if err == SequenceTooLong {
      ChainFits(g, seal, start, first, chain);
    }
  }

  /** collectSequence. */
  method CollectSequence(g: Region, seal: Seal, newest: Entry) returns (chain: seq<Entry>, err: LogError)
    requires g.size > 0 && g.size % SECTOR_SIZE == 0 && Newest(g, seal, newest)
    ensures err == Fine || err == BrokenSequence
    ensures err == Fine <==> Sequence(g, seal, newest).Some?
    ensures err == Fine ==> Sequence(g, seal, newest) == Some(chain)
  {
    NewestFields(g, seal, newest);
    hide EntryAt, Newest, Walk, Following;
    var first := ReadEntry(g, newest.tail, seal);
    if first.None? {
      return [], BrokenSequence;
    }
    chain, err := WalkSequence(g, seal, newest, first.value);
    NeverTooLong(g, seal, newest.tail, first.value.sequenceNumber, chain, err);
  }

  /** What a collected sequence is: it starts at the newest entry's tail, its numbers are
      consecutive and end at the highest in the log, each entry begins where the last
      ended, and it fits the region. */
  lemma SequenceShape(g: Region, seal: Seal, newest: Entry)
    requires g.size > 0 && g.size % SECTOR_SIZE == 0 && Newest(g, seal, newest)
    requires Sequence(g, seal, newest).Some?
    ensures var chain := Sequence(g, seal, newest).value;
      && 0 < |chain| <= g.size / SECTOR_SIZE
      && Chained(g, seal, newest.tail, chain[0].sequenceNumber, chain)
      && chain[0].offset == newest.tail && chain[|chain| - 1].sequenceNumber == newest.sequenceNumber
      && (forall i :: 0 <= i < |chain| ==> chain[i].sequenceNumber == chain[0].sequenceNumber + i)
    ensures var chain := Sequence(g, seal, newest).value;
      forall i, j :: 0 <= i && j == i + 1 && j < |chain| ==> BeginsAfter(g, chain[i], chain[j])
  {
    NewestFields(g, seal, newest);
    hide EntryAt, Newest;
    var first := EntryAt(g, newest.tail, seal).value.sequenceNumber;
    WalkIsChain(g, seal, newest.tail, first, newest.sequenceNumber);
    ChainFits(g, seal, newest.tail, first, Sequence(g, seal, newest).value);
    assert forall off, n: nat :: Following(g, off, n) == (off + n) % g.size;
  }

  /** An entry begins where the one before it ends, modulo the region. */
  predicate BeginsAfter(g: Region, before: Entry, e: Entry)
    requires g.size > 0
  {
    e.offset == (before.offset + before.entryLength) % g.size
  }

  // ---------------------------------------------------------------- what the log writes

  /** The byte a list of writes, applied in order, leaves at a file offset. */
  function Written(ws: seq<Write>, i: nat): Option<byte> {
    if ws == [] then None else
    var w := ws[|ws| - 1];
    if w.at <= i < w.at + |w.data| then Some(w.data[i - w.at]) else Written(ws[..|ws| - 1], i)
  }

  /** A byte of the file after the writes have gone through to it. */
  function ByteAfter(base: seq<byte>, ws: seq<Write>, i: nat): Option<byte> {
    match Written(ws, i)
    case Some(b) => Some(b)
    case None => FileByte(base, i)
  }

  /** The sector a byte is in. */
  function SectorOf(i: nat): (s: nat)
    ensures s <= i < s + SECTOR_SIZE && s % SECTOR_SIZE == 0
  {
    i - i % SECTOR_SIZE
  }

  lemma SectorOfIs(i: nat, s: nat)
    requires s % SECTOR_SIZE == 0 && s <= i < s + SECTOR_SIZE
    ensures SectorOf(i) == s
  {
  }

  /** A sector map: aligned offsets to whole sectors. */
  predicate ValidSectors(sectors: map<int, seq<byte>>) {
    forall s :: s in sectors ==> s >= 0 && s % SECTOR_SIZE == 0 && |sectors[s]| == SECTOR_SIZE
  }

  function Overlaid(sectors: map<int, seq<byte>>, i: nat): Option<byte>
    requires ValidSectors(sectors)
  {
    if SectorOf(i) in sectors then Some(sectors[SectorOf(i)][i - SectorOf(i)]) else None
  }

  /** The sectors hold, byte for byte, what the writes leave behind. */
  ghost predicate Replays(sectors: map<int, seq<byte>>, ws: seq<Write>) {
    ValidSectors(sectors) && forall i: nat :: Overlaid(sectors, i) == Written(ws, i)
  }

  lemma WrittenSnoc(ws: seq<Write>, w: Write, i: nat)
    ensures Written(ws + [w], i) == if w.at <= i < w.at + |w.data| then Some(w.data[i - w.at]) else Written(ws, i)
  {
    assert (ws + [w])[..|ws|] == ws;
  }

  /** Storing one sector is one more write. */
  lemma PutReplays(sectors: map<int, seq<byte>>, ws: seq<Write>, at: nat, sector: seq<byte>)
    requires Replays(sectors, ws) && at % SECTOR_SIZE == 0 && |sector| == SECTOR_SIZE
    ensures Replays(sectors[at := sector], ws + [Write(at, sector)])
  {
    forall i: nat ensures Overlaid(sectors[at := sector], i) == Written(ws + [Write(at, sector)], i) {
      WrittenSnoc(ws, Write(at, sector), i);
      assert Overlaid(sectors, i) == Written(ws, i);
      if at <= i < at + SECTOR_SIZE {
        SectorOfIs(i, at);
      }
    }
  }

  /** Two lists of writes that leave the same bytes behind. */
  ghost predicate SameBytes(ws: seq<Write>, vs: seq<Write>) {
    forall i: nat :: Written(ws, i) == Written(vs, i)
  }

  lemma ReplaysSame(sectors: map<int, seq<byte>>, ws: seq<Write>, vs: seq<Write>)
    requires Replays(sectors, ws) && SameBytes(ws, vs)
    ensures Replays(sectors, vs)
  {
    forall i: nat ensures Overlaid(sectors, i) == Written(vs, i) {
      assert Overlaid(sectors, i) == Written(ws, i);
    }
  }

  /** A zero run is written one sector longer by writing one more sector. */
  lemma ZeroRunGrows(ws: seq<Write>, at: nat, n: nat)
    ensures SameBytes(ws + [Write(at, Zeroes(n))] + [Write(at + n, Zeroes(SECTOR_SIZE))],
                      ws + [Write(at, Zeroes(n + SECTOR_SIZE))])
  {
    var short, long := ws + [Write(at, Zeroes(n))], ws + [Write(at, Zeroes(n + SECTOR_SIZE))];
    var two := short + [Write(at + n, Zeroes(SECTOR_SIZE))];
    forall i: nat ensures Written(two, i) == Written(long, i) {
      WrittenSnoc(short, Write(at + n, Zeroes(SECTOR_SIZE)), i);
      WrittenSnoc(ws, Write(at, Zeroes(n)), i);
      WrittenSnoc(ws, Write(at, Zeroes(n + SECTOR_SIZE)), i);
    }
  }

  /** The sectors a list of writes touches. */
  ghost function Touched(ws: seq<Write>): (t: set<int>)
    ensures forall i: nat :: Written(ws, i).Some? ==> SectorOf(i) in t
    ensures forall s :: s in t ==> exists i: nat :: SectorOf(i) == s && Written(ws, i).Some?
  {
    if ws == [] then {} else
    var front, w := ws[..|ws| - 1], ws[|ws| - 1];
    var own := set i | w.at <= i < w.at + |w.data| :: SectorOf(i);
    assert ws == front + [w];
    assert forall i: nat ::
      Written(ws, i) == if w.at <= i < w.at + |w.data| then Some(w.data[i - w.at]) else Written(front, i);
    Touched(front) + own
  }

  /** The overlay's sectors are exactly the sectors the log touches. */
  lemma ReplayTouches(sectors: map<int, seq<byte>>, ws: seq<Write>)
    requires Replays(sectors, ws)
    ensures sectors.Keys == Touched(ws)
  {
    forall s | s in sectors ensures s in Touched(ws) {
      assert SectorOf(s) == s && Overlaid(sectors, s) == Written(ws, s);
    }
    forall s | s in Touched(ws) ensures s in sectors {
      var i: nat :| SectorOf(i) == s && Written(ws, i).Some?;
      assert Overlaid(sectors, i) == Written(ws, i);
    }
  }

  // ---------------------------------------------------------------- writing through

  /** The byte at i once a write has gone over a file. */
  function WrittenOver(file: seq<byte>, w: Write, i: nat): byte {
    if w.at <= i < w.at + |w.data| then w.data[i - w.at] else if i < |file| then file[i] else 0
  }

  /** One write to a file. Writing past the end leaves zeroes between. */
  function WriteOne(file: seq<byte>, w: Write): (f: seq<byte>)
    ensures |f| == if w.data == [] then |file| else Max(|file|, w.at + |w.data|)
    ensures forall i :: 0 <= i < |f| ==> f[i] == WrittenOver(file, w, i)
  {
    if w.data == [] then file else
    var padded := if |file| < w.at then file + Zeroes(w.at - |file|) else file;
    padded[..w.at] + w.data + if w.at + |w.data| <= |padded| then padded[w.at + |w.data|..] else []
  }

  /** The file with every write gone through to it, in order. */
  function WriteThrough(base: seq<byte>, ws: seq<Write>): seq<byte> {
    if ws == [] then base else WriteOne(WriteThrough(base, ws[..|ws| - 1]), ws[|ws| - 1])
  }

  /** What the written-through file holds: the bytes the overlay stands for, and zeroes
      wherever neither the base nor a write has a byte. */
  lemma {:induction false} WriteThroughBytes(base: seq<byte>, ws: seq<Write>, i: nat)
    ensures ByteAfter(base, ws, i).Some? ==> i < |WriteThrough(base, ws)|
    ensures i < |WriteThrough(base, ws)| ==>
      WriteThrough(base, ws)[i] == if ByteAfter(base, ws, i).Some? then ByteAfter(base, ws, i).value else 0
  {
    if ws != [] {
      WriteThroughBytes(base, ws[..|ws| - 1], i);
    }
  }

  /** No byte of the written-through file lies in a gap between the base and a write. */
  ghost predicate Gapless(base: seq<byte>, ws: seq<Write>) {
    forall i :: 0 <= i < |WriteThrough(base, ws)| ==> ByteAfter(base, ws, i).Some?
  }

  /** The overlay is the written-through file, byte for byte, exactly when there is no gap. */
  lemma OverlayIsWriteThrough(base: seq<byte>, ws: seq<Write>)
    ensures Gapless(base, ws) <==>
      forall i: nat :: ByteAfter(base, ws, i) == FileByte(WriteThrough(base, ws), i)
  {
    hide WriteThrough, ByteAfter;
    forall i: nat
      ensures ByteAfter(base, ws, i).Some? ==> ByteAfter(base, ws, i) == FileByte(WriteThrough(base, ws), i)
    {
      WriteThroughBytes(base, ws, i);
    }
    if Gapless(base, ws) {
      forall i: nat ensures ByteAfter(base, ws, i) == FileByte(WriteThrough(base, ws), i) {
        assert i < |WriteThrough(base, ws)| ==> ByteAfter(base, ws, i).Some?;
      }
    }
  }
}
