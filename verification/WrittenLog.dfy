/** A whole log as a writer leaves it: entries laid one after another around the region.
    Such a log is replayed, with the writes of every entry in the order they were logged. */
module WrittenLog {
  import opened Bytes
  import opened LogFormat
  import opened LogReplay
  import opened LogOverlay
  import LogWriter

  /** What one entry was given to log. */
  datatype Batch = Batch(items: seq<LogWriter.Item>, header: LogWriter.Header)

  /** Where entry k begins: at the start, or where the one before it ended. */
  function Offset(size: nat, start: nat, batches: seq<Batch>, k: nat): (r: nat)
    requires size > start && k <= |batches|
    ensures r < size
  {
    if k == 0 then start
    else (Offset(size, start, batches, k - 1) + LogWriter.EntryLength(batches[k - 1].items)) % size
  }

  /** The batches lie in the region from `start` on, numbered from `first` up, and the last
      says that the sequence begins at `start`. */
  ghost predicate Lies(g: Region, seal: Seal, start: nat, first: nat, batches: seq<Batch>)
    requires g.size > start
  {
    && batches != [] && batches[|batches| - 1].header.tail == start
    && forall k :: 0 <= k < |batches| ==>
         && LogWriter.EntryLies(g, Offset(g.size, start, batches, k), seal, batches[k].items, batches[k].header)
         && batches[k].header.number == first + k
  }

  /** Everything that was logged, in order. */
  function AllItems(batches: seq<Batch>): seq<LogWriter.Item> {
    if batches == [] then [] else AllItems(batches[..|batches| - 1]) + batches[|batches| - 1].items
  }

  /** The writes are those asked for, one for each item. */
  ghost predicate AllAsked(ws: seq<Write>, items: seq<LogWriter.Item>) {
    |ws| == |items| && forall k :: 0 <= k < |ws| ==> LogWriter.Asked(ws[k], items[k])
  }

  /** The last entry is the only one that new. */
  ghost predicate OnlyNewest(g: Region, seal: Seal, start: nat, first: nat, batches: seq<Batch>)
    requires g.size > start && batches != []
  {
    forall off :: 0 <= off < g.size && off % 4096 == 0 && EntryAt(g, off, seal).Some? ==>
      off == Offset(g.size, start, batches, |batches| - 1)
      || EntryAt(g, off, seal).value.sequenceNumber < first + |batches| - 1
  }

  // ---------------------------------------------------------------- the entries

  /** An entry holds the writes asked for. */
  ghost predicate Holding(e: Entry, items: seq<LogWriter.Item>) {
    && DescriptorsFit(e) && WritesUpTo(e, e.descriptorCount).Some?
    && AllAsked(WritesUpTo(e, e.descriptorCount).value, items)
  }

  /** The entry is what a batch at an offset is read as. */
  ghost predicate IsRead(g: Region, seal: Seal, e: Entry, off: nat, number: nat, b: Batch)
    requires g.size > 0
  {
    && EntryAt(g, off, seal) == Some(e) && e.offset == off && e.sequenceNumber == number
    && e.entryLength == LogWriter.EntryLength(b.items) && e.tail == b.header.tail && Holding(e, b.items)
  }

  lemma BatchIsRead(g: Region, seal: Seal, off: nat, b: Batch) returns (e: Entry)
    requires g.size > 0 && LogWriter.EntryLies(g, off, seal, b.items, b.header)
    ensures IsRead(g, seal, e, off, b.header.number, b)
  {
    LogWriter.LogRoundTrip(g, off, seal, b.items, b.header);
    hide EntryAt, WritesUpTo, LogWriter.EntryLies, LogWriter.EntryLength, LogWriter.Asked;
    e := EntryAt(g, off, seal).value;
  }

  ghost predicate AllRead(
    g: Region, seal: Seal, start: nat, first: nat, batches: seq<Batch>, chain: seq<Entry>)
    requires g.size > start && |chain| <= |batches|
  {
    forall i :: 0 <= i < |chain| ==>
      IsRead(g, seal, chain[i], Offset(g.size, start, batches, i), first + i, batches[i])
  }

  lemma {:induction false} EntriesRead(g: Region, seal: Seal, start: nat, first: nat, batches: seq<Batch>, k: nat)
    returns (chain: seq<Entry>)
    requires g.size > start && Lies(g, seal, start, first, batches) && k <= |batches|
    ensures |chain| == k && AllRead(g, seal, start, first, batches, chain)
  {
    hide IsRead, LogWriter.EntryLies, Offset;
    if k == 0 {
      return [];
    }
    chain := EntriesRead(g, seal, start, first, batches, k - 1);
    var e := BatchIsRead(g, seal, Offset(g.size, start, batches, k - 1), batches[k - 1]);
    chain := chain + [e];
  }

  // ---------------------------------------------------------------- the sequence

  lemma FollowsOn(size: nat, start: nat, batches: seq<Batch>, i: nat)
    requires size > start && i <= |batches|
    ensures Offset(size, start, batches, i) ==
            if i == 0 then start
            else (Offset(size, start, batches, i - 1) + LogWriter.EntryLength(batches[i - 1].items)) % size
  {
  }

  /** Entry i of the chain, as a chain demands it. */
  lemma Linked(
    g: Region, seal: Seal, start: nat, first: nat, batches: seq<Batch>, chain: seq<Entry>, i: nat)
    requires g.size > start && |chain| <= |batches| && AllRead(g, seal, start, first, batches, chain) && i < |chain|
    ensures i == 0 ==> chain[i].offset == start
    ensures i > 0 ==> chain[i].offset == Following(g, chain[i - 1].offset, chain[i - 1].entryLength)
    ensures chain[i].sequenceNumber == first + i && EntryAt(g, chain[i].offset, seal) == Some(chain[i])
    ensures Holding(chain[i], batches[i].items) && chain[i].offset == Offset(g.size, start, batches, i)
  {
    ReadAt(g, seal, start, first, batches, chain, i);
    FollowsOn(g.size, start, batches, i);
    if i > 0 {
      ReadAt(g, seal, start, first, batches, chain, i - 1);
    }
    hide AllRead, EntryAt, Holding, Offset, LogWriter.EntryLength;
  }

  lemma ReadAt(g: Region, seal: Seal, start: nat, first: nat, batches: seq<Batch>, chain: seq<Entry>, i: nat)
    requires g.size > start && |chain| <= |batches| && AllRead(g, seal, start, first, batches, chain) && i < |chain|
    ensures IsRead(g, seal, chain[i], Offset(g.size, start, batches, i), first + i, batches[i])
  {
    hide IsRead, Offset;
  }

  lemma ReadIsChained(g: Region, seal: Seal, start: nat, first: nat, batches: seq<Batch>, chain: seq<Entry>)
    requires g.size > start && |chain| <= |batches| && AllRead(g, seal, start, first, batches, chain)
    ensures Chained(g, seal, start, first, chain) && ChainFitsDescriptors(chain)
  {
    hide AllRead, EntryAt, WritesUpTo, AllAsked, Offset, Following, DescriptorsFit, LogWriter.EntryLength;
    forall i | 0 <= i < |chain|
      ensures i == 0 ==> chain[i].offset == start
      ensures i > 0 ==> chain[i].offset == Following(g, chain[i - 1].offset, chain[i - 1].entryLength)
      ensures chain[i].sequenceNumber == first + i && EntryAt(g, chain[i].offset, seal) == Some(chain[i])
      ensures DescriptorsFit(chain[i])
    {
      Linked(g, seal, start, first, batches, chain, i);
    }
  }

  /** A chain that begins where its last entry says is the sequence of that entry. */
  lemma SequenceOf(g: Region, seal: Seal, start: nat, first: nat, chain: seq<Entry>)
    requires g.size > start && chain != [] && Chained(g, seal, start, first, chain)
    requires chain[|chain| - 1].tail == start
    ensures Sequence(g, seal, chain[|chain| - 1]) == Some(chain)
  {
    var last := |chain| - 1;
    assert chain[last].sequenceNumber == first + last;
    assert EntryAt(g, start, seal) == Some(chain[0]) && chain[0].sequenceNumber == first;
    ChainIsWalk(g, seal, start, first, first + last, chain);
    hide Walk, Chained, EntryAt;
  }

  /** The newest entry of a written log is the last one written. */
  lemma NewestIsLast(
    g: Region, seal: Seal, start: nat, first: nat, batches: seq<Batch>, chain: seq<Entry>, newest: Option<Entry>)
    requires g.size > start && g.size % 4096 == 0 && start % 4096 == 0
    requires |chain| == |batches| > 0 && AllRead(g, seal, start, first, batches, chain)
    requires OnlyNewest(g, seal, start, first, batches)
    ensures Scanned(g, seal, newest) ==> newest == Some(chain[|chain| - 1])
  {
    var k := |chain| - 1;
    Linked(g, seal, start, first, batches, chain, k);
    ReadIsChained(g, seal, start, first, batches, chain);
    ChainAligned(g, seal, start, first, chain, k);
    assert EntryAt(g, chain[k].offset, seal) == Some(chain[k]);
    hide EntryAt, Chained, AllRead, ChainFitsDescriptors, Offset, Holding;
  }

  /** What a scan of the log returns. */
  ghost predicate Scanned(g: Region, seal: Seal, newest: Option<Entry>)
    requires g.size > 0
  {
    match newest
    case None => forall off :: 0 <= off < g.size && off % 4096 == 0 ==> EntryAt(g, off, seal).None?
    case Some(e) => Newest(g, seal, e)
  }

  // ---------------------------------------------------------------- the writes

  lemma AskedTogether(ws: seq<Write>, more: seq<Write>, items: seq<LogWriter.Item>, next: seq<LogWriter.Item>)
    requires AllAsked(ws, items) && AllAsked(more, next)
    ensures AllAsked(ws + more, items + next)
  {
    hide LogWriter.Asked;
  }

  lemma StepWrites(chain: seq<Entry>, k: nat, items: seq<LogWriter.Item>, next: seq<LogWriter.Item>)
    requires k < |chain| && ChainFitsDescriptors(chain) && Holding(chain[k], next)
    requires WritesOf(chain[..k]).Some? && AllAsked(WritesOf(chain[..k]).value, items)
    ensures var ws := WritesOf(chain[..k + 1]);
      ws.Some? && AllAsked(ws.value, items + next)
  {
    var ws, more := WritesOf(chain[..k]).value, WritesUpTo(chain[k], chain[k].descriptorCount).value;
    WritesStep(chain, k, ws);
    AskedTogether(ws, more, items, next);
    hide WritesOf, WritesUpTo, AllAsked;
  }

  lemma ItemsStep(batches: seq<Batch>, k: nat)
    requires k < |batches|
    ensures AllItems(batches[..k + 1]) == AllItems(batches[..k]) + batches[k].items
  {
    assert batches[..k + 1][..k] == batches[..k];
  }

  lemma {:induction false} ChainWrites(
    g: Region, seal: Seal, start: nat, first: nat, batches: seq<Batch>, chain: seq<Entry>, k: nat)
    requires g.size > start && |chain| == |batches| && AllRead(g, seal, start, first, batches, chain)
    requires ChainFitsDescriptors(chain) && k <= |batches|
    ensures var ws := WritesOf(chain[..k]);
      ws.Some? && AllAsked(ws.value, AllItems(batches[..k]))
  {
    hide AllRead, EntryAt, WritesUpTo, WritesOf, AllAsked, AllItems, Holding, Offset, DescriptorsFit;
    if k == 0 {
      NothingAsked();
      assert chain[..k] == [] && batches[..k] == [];
    } else {
      ChainWrites(g, seal, start, first, batches, chain, k - 1);
      Linked(g, seal, start, first, batches, chain, k - 1);
      StepWrites(chain, k - 1, AllItems(batches[..k - 1]), batches[k - 1].items);
      ItemsStep(batches, k - 1);
    }
  }

  lemma NothingAsked()
    ensures WritesOf([]) == Some([]) && AllAsked([], AllItems([]))
  {
  }

  lemma AllWrites(g: Region, seal: Seal, start: nat, first: nat, batches: seq<Batch>, chain: seq<Entry>)
    requires g.size > start && |chain| == |batches| && AllRead(g, seal, start, first, batches, chain)
    requires ChainFitsDescriptors(chain)
    ensures WritesOf(chain).Some? && AllAsked(WritesOf(chain).value, AllItems(batches))
  {
    ChainWrites(g, seal, start, first, batches, chain, |batches|);
    assert chain[..|batches|] == chain && batches[..|batches|] == batches;
    hide *;
  }

  lemma ReplayableIs(g: Region, seal: Seal, newest: Entry, chain: seq<Entry>, ws: seq<Write>, vs: seq<Write>)
    requires g.size > 0 && g.size % 4096 == 0 && Newest(g, seal, newest) && Sequence(g, seal, newest) == Some(chain)
    requires ChainFitsDescriptors(chain) && WritesOf(chain) == Some(ws)
    ensures Replayable(g, seal, newest, vs) <==> vs == ws && |Touched(ws)| <= 65536
  {
    hide Newest, Sequence, Touched, WritesOf, DescriptorsFit;
  }

  lemma StartAligned(g: Region, seal: Seal, start: nat, first: nat, batches: seq<Batch>)
    requires g.size > start && Lies(g, seal, start, first, batches)
    ensures start % 4096 == 0
  {
    var k := |batches| - 1;
    assert LogWriter.EntryLies(g, Offset(g.size, start, batches, k), seal, batches[k].items, batches[k].header);
    hide Offset, LogWriter.LiesAt, LogWriter.EntryLength, LogWriter.EntryBytes;
  }

  lemma EntriesFound(g: Region, seal: Seal, start: nat, first: nat, batches: seq<Batch>) returns (chain: seq<Entry>)
    requires g.size > start && Lies(g, seal, start, first, batches)
    ensures |chain| == |batches| && AllRead(g, seal, start, first, batches, chain) && ChainFitsDescriptors(chain)
    ensures Sequence(g, seal, chain[|chain| - 1]) == Some(chain)
    ensures chain[|chain| - 1].sequenceNumber == first + |batches| - 1
  {
    var n := |batches|;
    chain := EntriesRead(g, seal, start, first, batches, n);
    ReadIsChained(g, seal, start, first, batches, chain);
    ReadAt(g, seal, start, first, batches, chain, n - 1);
    SequenceOf(g, seal, start, first, chain);
    hide EntryAt, AllRead, Offset, Holding, Sequence, Chained, ChainFitsDescriptors;
    hide LogWriter.EntryLength, LogWriter.EntryLies;
  }

  /** The sequence of a written log is its entries, and their writes are those asked for. */
  lemma WrittenSequence(g: Region, seal: Seal, start: nat, first: nat, batches: seq<Batch>, newest: Option<Entry>)
    returns (chain: seq<Entry>, ws: seq<Write>)
    requires g.size > start && g.size % 4096 == 0 && Lies(g, seal, start, first, batches)
    requires OnlyNewest(g, seal, start, first, batches) && Scanned(g, seal, newest)
    ensures newest.Some? && Sequence(g, seal, newest.value) == Some(chain) && |chain| == |batches|
    ensures ChainFitsDescriptors(chain) && WritesOf(chain) == Some(ws) && AllAsked(ws, AllItems(batches))
    ensures newest.value.sequenceNumber == first + |batches| - 1
  {
    StartAligned(g, seal, start, first, batches);
    chain := EntriesFound(g, seal, start, first, batches);
    NewestIsLast(g, seal, start, first, batches, chain, newest);
    AllWrites(g, seal, start, first, batches, chain);
    hide Lies, OnlyNewest, Scanned, AllRead, WritesOf, AllAsked, AllItems, Sequence, ChainFitsDescriptors, Offset;
    ws := WritesOf(chain).value;
  }

  /** What Analyze's answer says of a written log. */
  lemma Answered(g: Region, seal: Seal, start: nat, first: nat, batches: seq<Batch>, newest: Option<Entry>,
    replayed: bool, vs: seq<Write>) returns (ws: seq<Write>)
    requires g.size > start && g.size % 4096 == 0 && Lies(g, seal, start, first, batches)
    requires OnlyNewest(g, seal, start, first, batches)
    requires replayed ==> newest.Some? && Newest(g, seal, newest.value) && Replayable(g, seal, newest.value, vs)
    requires !replayed ==> Unreplayable(g, seal, newest)
    ensures AllAsked(ws, AllItems(batches)) && (replayed <==> |Touched(ws)| <= 65536)
    ensures replayed ==> vs == ws && newest.value.sequenceNumber == first + |batches| - 1
    ensures replayed ==> |Sequence(g, seal, newest.value).value| == |batches|
  {
    assert Scanned(g, seal, newest);
    var chain;
    chain, ws := WrittenSequence(g, seal, start, first, batches, newest);
    ReplayableIs(g, seal, newest.value, chain, ws, vs);
    ReplayableIs(g, seal, newest.value, chain, ws, ws);
    hide Lies, OnlyNewest, Scanned, Newest, Sequence, Replayable, AllAsked, AllItems, Touched, WritesOf;
  }

  /** An intact log is replayed: unless its writes touch more sectors than a replay holds,
      Analyze returns them all, in the order they were logged. */
  method AnalyzeWritten(file: seq<byte>, logOffset: int, logSize: nat, seal: Seal,
    ghost start: nat, ghost first: nat, ghost batches: seq<Batch>)
    returns (rp: Replay?, err: LogError, ghost ws: seq<Write>)
    requires LogUsable(logOffset, logSize, seal) && start < logSize
    requires Lies(Region(file, logOffset, logSize), seal, start, first, batches)
    requires OnlyNewest(Region(file, logOffset, logSize), seal, start, first, batches)
    ensures AllAsked(ws, AllItems(batches))
    ensures rp != null <==> |Touched(ws)| <= 65536
    ensures rp != null ==> rp.Holds(ws) && rp.descriptorCount == |ws| && rp.entryCount == |batches|
    ensures rp != null ==> rp.firstSequence == first && rp.lastSequence == first + |batches| - 1
  {
    hide Lies, OnlyNewest, Newest, Replayable, Unreplayable, Sequence, AllAsked, AllItems, Touched;
    ghost var g, newest, vs := Region(file, logOffset, logSize), None, [];
    rp, err, newest, vs := Analyze(file, logOffset, logSize, seal);
    ws := Answered(g, seal, start, first, batches, newest, rp != null, vs);
  }
}
