/** The log as a writer lays it down (MS-VHDX section 2.3), byte by byte and apart from the
    reader, and the proof that the reader gets back what was written. */
module LogWriter {
  import opened Bytes
  import opened LogFormat
  import opened TableBytes

  // ---------------------------------------------------------------- numbers

  /** A number as four bytes, the least significant first. */
  function Four(n: nat): (s: seq<byte>)
    requires n < 4294967296
    ensures |s| == 4 && Little(s, 0) == n
  {
    FourDigits(n);
    [(n % 256) as byte, (n / 256 % 256) as byte, (n / 65536 % 256) as byte, (n / 16777216) as byte]
  }

  lemma FourDigits(n: nat)
    requires n < 4294967296
    ensures n == n % 256 + n / 256 % 256 * 256 + n / 65536 % 256 * 65536 + n / 16777216 * 16777216
    ensures n / 16777216 < 256
  {
    assert n / 65536 == n / 256 / 256;
    assert n / 16777216 == n / 256 / 256 / 256;
  }

  /** A number as eight bytes, the least significant first. */
  function Eight(n: nat): (s: seq<byte>)
    requires n < 18446744073709551616
    ensures |s| == 8
  {
    Four(n % 4294967296) + Four(n / 4294967296)
  }

  lemma FourRead(n: nat)
    requires n < 4294967296
    ensures Le(Four(n)) == n
  {
    LeFour(Four(n));
  }

  lemma EightRead(n: nat)
    requires n < 18446744073709551616
    ensures Le(Eight(n)) == n
  {
    FourRead(n % 4294967296);
    FourRead(n / 4294967296);
    LeJoins(Four(n % 4294967296), Four(n / 4294967296));
  }

  // ---------------------------------------------------------------- what is written

  /** A write to be logged: a run of zeroes, or one sector. */
  datatype Item = ZeroItem(at: nat, n: nat) | DataItem(at: nat, sector: seq<byte>)

  predicate Loggable(item: Item) {
    match item
    case ZeroItem(at, n) =>
      at % 4096 == 0 && n % 4096 == 0 && n <= 1073741824 && at + n < 9223372036854775808
    case DataItem(at, sector) =>
      at % 4096 == 0 && |sector| == 4096 && at + 4096 < 9223372036854775808
  }

  ghost predicate AllLoggable(items: seq<Item>) {
    forall i :: 0 <= i < |items| ==> Loggable(items[i])
  }

  /** The descriptor of an item: "zero", four unused bytes, the length, the offset and the
      entry's number; or "desc", the last four and the first eight bytes of the sector, the
      offset and the entry's number. */
  function DescriptorBytes(item: Item, number: nat): (s: seq<byte>)
    requires Loggable(item) && number < 18446744073709551616
    ensures |s| == 32
  {
    match item
    case ZeroItem(at, n) => [122, 101, 114, 111] + [0, 0, 0, 0] + Eight(n) + Eight(at) + Eight(number)
    case DataItem(at, sector) =>
      [100, 101, 115, 99] + sector[4092..] + sector[..8] + Eight(at) + Eight(number)
  }

  /** A data sector as logged: "data" and the upper half of the entry's number over its
      first eight bytes, the lower half over its last four. */
  function SectorBytes(sector: seq<byte>, number: nat): (s: seq<byte>)
    requires |sector| == 4096 && number < 18446744073709551616
    ensures |s| == 4096
  {
    [100, 97, 116, 97] + Four(number / 4294967296) + sector[8..4092] + Four(number % 4294967296)
  }

  /** How many items are sectors. */
  function Sectors(items: seq<Item>): nat {
    if items == [] then 0 else
    Sectors(items[..|items| - 1]) + if items[|items| - 1].DataItem? then 1 else 0
  }

  /** One descriptor after another. */
  function DescriptorArea(items: seq<Item>, number: nat): (s: seq<byte>)
    requires AllLoggable(items) && number < 18446744073709551616
    ensures |s| == 32 * |items|
  {
    if items == [] then [] else
    DescriptorArea(items[..|items| - 1], number) + DescriptorBytes(items[|items| - 1], number)
  }

  /** The sectors of the data items alone, one after another. */
  function DataArea(items: seq<Item>, number: nat): (s: seq<byte>)
    requires AllLoggable(items) && number < 18446744073709551616
    ensures |s| == 4096 * Sectors(items)
  {
    if items == [] then [] else
    var before, last := DataArea(items[..|items| - 1], number), items[|items| - 1];
    if last.DataItem? then before + SectorBytes(last.sector, number) else before
  }

  /** What an entry says about itself. The two last fields are not read back. */
  datatype Header = Header(tail: nat, number: nat, guid: seq<byte>, unused: seq<byte>, sizes: seq<byte>)

  predicate HeaderOk(h: Header) {
    && h.tail < 4294967296 && 0 < h.number < 18446744073709551616
    && |h.guid| == 16 && |h.unused| == 4 && |h.sizes| == 16
  }

  /** Bytes that fill the descriptors up to a whole sector. */
  function Filler(n: nat): nat {
    32 * ((254 - n % 128) % 128)
  }

  function EntryLength(items: seq<Item>): nat {
    64 + 32 * |items| + Filler(|items|) + 4096 * Sectors(items)
  }

  /** The 64 bytes an entry begins with. */
  function HeaderBytes(h: Header, crc: nat, length: nat, count: nat): (s: seq<byte>)
    requires HeaderOk(h) && crc < 4294967296 && length < 4294967296 && count < 4294967296
    ensures |s| == 64
  {
    [108, 111, 103, 101] + Four(crc) + Four(length) + Four(h.tail) + Eight(h.number) + Four(count) + h.unused
    + h.guid + h.sizes
  }

  /** What follows the header: the descriptors, filled up to a sector, and the sectors. */
  function Rest(items: seq<Item>, number: nat): (s: seq<byte>)
    requires AllLoggable(items) && number < 18446744073709551616
    ensures |s| == EntryLength(items) - 64
  {
    DescriptorArea(items, number) + Zeroes(Filler(|items|)) + DataArea(items, number)
  }

  /** A whole entry. */
  function EntryBytes(items: seq<Item>, h: Header, crc: nat): (s: seq<byte>)
    requires AllLoggable(items) && HeaderOk(h) && crc < 4294967296 && EntryLength(items) < 4294967296
    ensures |s| == EntryLength(items)
  {
    HeaderBytes(h, crc, EntryLength(items), |items|) + Rest(items, h.number)
  }

  // ---------------------------------------------------------------- where the parts lie

  lemma HeaderParts(h: Header, crc: nat, length: nat, count: nat)
    requires HeaderOk(h) && crc < 4294967296 && length < 4294967296 && count < 4294967296
    ensures var b := HeaderBytes(h, crc, length, count);
      && b[..4] == [108, 111, 103, 101] && b[4..8] == Four(crc) && b[8..12] == Four(length)
      && b[12..16] == Four(h.tail) && b[16..24] == Eight(h.number) && b[24..28] == Four(count)
      && b[32..48] == h.guid
  {
    hide Four, Eight;
  }

  lemma ZeroedField(a: seq<byte>, b: seq<byte>, rest: seq<byte>)
    requires |a| == |b| == 64 && a[..4] == b[..4] && b[4..8] == [0, 0, 0, 0] && a[8..] == b[8..]
    ensures Unsealed(a + rest) == b + rest
  {
    assert (a + rest)[..4] == b[..4] && (a + rest)[8..] == b[8..] + rest;
    assert b == b[..4] + b[4..8] + b[8..];
  }

  lemma ChecksumField(h: Header, crc: nat, length: nat, count: nat)
    requires HeaderOk(h) && crc < 4294967296 && length < 4294967296 && count < 4294967296
    ensures var a, b := HeaderBytes(h, crc, length, count), HeaderBytes(h, 0, length, count);
      a[..4] == b[..4] && b[4..8] == [0, 0, 0, 0] && a[8..] == b[8..]
  {
    assert Four(0) == [0, 0, 0, 0];
    hide Four, Eight;
    var fixed := Four(length) + Four(h.tail) + Eight(h.number) + Four(count) + h.unused + h.guid + h.sizes;
    assert HeaderBytes(h, crc, length, count) == [108, 111, 103, 101] + Four(crc) + fixed;
    assert HeaderBytes(h, 0, length, count) == [108, 111, 103, 101] + Four(0) + fixed;
    hide HeaderBytes;
  }

  /** Writing the checksum changes the checksum field alone. */
  lemma OnlyChecksum(items: seq<Item>, h: Header, crc: nat)
    requires AllLoggable(items) && HeaderOk(h) && crc < 4294967296 && EntryLength(items) < 4294967296
    ensures Unsealed(EntryBytes(items, h, crc)) == EntryBytes(items, h, 0)
  {
    var n, c := EntryLength(items), |items|;
    var rest := Rest(items, h.number);
    ChecksumField(h, crc, n, c);
    ZeroedField(HeaderBytes(h, crc, n, c), HeaderBytes(h, 0, n, c), rest);
  }

  lemma {:induction false} DescriptorPlace(items: seq<Item>, number: nat, i: nat)
    requires AllLoggable(items) && number < 18446744073709551616 && i < |items|
    ensures DescriptorArea(items, number)[32 * i..32 * i + 32] == DescriptorBytes(items[i], number)
  {
    hide DescriptorBytes;
    var last := |items| - 1;
    if i < last {
      DescriptorPlace(items[..last], number, i);
      assert items[..last][i] == items[i];
    }
  }

  lemma {:induction false} DataPlace(items: seq<Item>, number: nat, i: nat)
    requires AllLoggable(items) && number < 18446744073709551616 && i < |items| && items[i].DataItem?
    ensures var k := 4096 * Sectors(items[..i]);
      && k + 4096 <= 4096 * Sectors(items)
      && DataArea(items, number)[k..k + 4096] == SectorBytes(items[i].sector, number)
  {
    hide SectorBytes;
    var last := |items| - 1;
    if i < last {
      DataPlace(items[..last], number, i);
      assert items[..last][i] == items[i] && items[..last][..i] == items[..i];
    }
  }

  lemma PartOfPart(raw: seq<byte>, n: nat, lo: nat, hi: nat)
    requires lo <= hi <= n <= |raw|
    ensures raw[lo..hi] == raw[..n][lo..hi]
  {
  }

  /** The fields of a written entry, as the reader takes them. */
  lemma FieldsRead(items: seq<Item>, h: Header, crc: nat)
    requires AllLoggable(items) && HeaderOk(h) && crc < 4294967296 && EntryLength(items) < 4294967296
    ensures var b := EntryBytes(items, h, crc);
      && b[..4] == SIG_ENTRY && Le(b[4..8]) == crc && Le(b[8..12]) == EntryLength(items)
      && Le(b[12..16]) == h.tail && Le(b[16..24]) == h.number && Le(b[24..28]) == |items| && b[32..48] == h.guid
  {
    var n, c, b := EntryLength(items), |items|, EntryBytes(items, h, crc);
    HeaderParts(h, crc, n, c);
    assert b[..64] == HeaderBytes(h, crc, n, c);
    PartOfPart(b, 64, 0, 4);
    PartOfPart(b, 64, 4, 8);
    PartOfPart(b, 64, 8, 12);
    PartOfPart(b, 64, 12, 16);
    PartOfPart(b, 64, 16, 24);
    PartOfPart(b, 64, 24, 28);
    PartOfPart(b, 64, 32, 48);
    FourRead(crc);
    FourRead(n);
    FourRead(h.tail);
    EightRead(h.number);
    FourRead(c);
    hide EntryBytes, HeaderBytes, Four, Eight, Le, EntryLength;
  }

  // ---------------------------------------------------------------- the entry is found

  /** The bytes lie in the log from an offset on, going on at its start where it ends. */
  ghost predicate LiesAt(g: Region, off: int, raw: seq<byte>)
    requires g.size > 0
  {
    forall i :: 0 <= i < |raw| ==> FileByte(g.file, g.offset + (off + i) % g.size) == Some(raw[i])
  }

  lemma LiesRead(g: Region, off: int, raw: seq<byte>, n: nat)
    requires g.size > 0 && LiesAt(g, off, raw) && n <= |raw|
    ensures Readable(g, off, n) && RegionBytes(g, off, n) == raw[..n]
  {
    forall k | off <= k < off + n ensures Wrapped(g, k) < |g.file| {
      assert FileByte(g.file, g.offset + (off + (k - off)) % g.size) == Some(raw[k - off]);
    }
    forall i | 0 <= i < n ensures RegionBytes(g, off, n)[i] == raw[i] {
      assert FileByte(g.file, g.offset + (off + i) % g.size) == Some(raw[i]);
    }
  }

  /** An entry written with its own log's identifier and checksum lies at an offset. */
  ghost predicate EntryLies(g: Region, off: int, seal: Seal, items: seq<Item>, h: Header)
    requires g.size > 0
  {
    && AllLoggable(items) && HeaderOk(h) && EntryLength(items) <= g.size && EntryLength(items) < 4294967296
    && h.tail % 4096 == 0 && h.tail < g.size && h.guid == seal.guid
    && var crc := seal.crc(EntryBytes(items, h, 0));
       crc < 4294967296 && LiesAt(g, off, EntryBytes(items, h, crc))
  }

  lemma LengthIsWhole(items: seq<Item>)
    ensures EntryLength(items) % 4096 == 0 && EntryLength(items) >= 4096
  {
    var q := FillerEnds(|items|);
    assert EntryLength(items) == (q + Sectors(items)) * 4096;
    hide Filler, EntryLength;
  }

  /** A written entry is found, with its own tail, number, count and bytes. */
  lemma EntryFound(g: Region, off: int, seal: Seal, items: seq<Item>, h: Header)
    requires g.size > 0 && EntryLies(g, off, seal, items, h)
    ensures var crc := seal.crc(EntryBytes(items, h, 0));
      EntryAt(g, off, seal) == Some(
        Entry(off, EntryLength(items), h.tail, h.number, |items|, EntryBytes(items, h, crc)))
  {
    var crc := seal.crc(EntryBytes(items, h, 0));
    var raw := EntryBytes(items, h, crc);
    LengthIsWhole(items);
    FieldsRead(items, h, crc);
    OnlyChecksum(items, h, crc);
    LiesRead(g, off, raw, 64);
    LiesRead(g, off, raw, |raw|);
    assert raw[..|raw|] == raw;
    PartOfPart(raw, 64, 0, 4);
    PartOfPart(raw, 64, 8, 12);
    Covers(items);
    hide EntryBytes, Readable, RegionBytes, LiesAt, Le, EntryLength, Unsealed;
  }

  // ---------------------------------------------------------------- its writes are read back

  /** A write is the one an item asks for. */
  predicate Asked(w: Write, item: Item) {
    match item
    case ZeroItem(at, n) => w.at == at && |w.data| == n && forall k :: 0 <= k < n ==> w.data[k] == 0
    case DataItem(at, sector) => w.at == at && w.data == sector
  }

  /** The reader's view of a written entry. */
  ghost predicate IsEntryOf(e: Entry, items: seq<Item>, h: Header, crc: nat) {
    && AllLoggable(items) && HeaderOk(h) && crc < 4294967296 && EntryLength(items) < 4294967296
    && e.raw == EntryBytes(items, h, crc) && e.descriptorCount == |items| && e.sequenceNumber == h.number
  }

  /** The descriptors of a written entry start at byte 64. */
  lemma AreaRead(items: seq<Item>, h: Header, crc: nat, lo: nat, hi: nat)
    requires AllLoggable(items) && HeaderOk(h) && crc < 4294967296 && EntryLength(items) < 4294967296
    requires lo <= hi <= 32 * |items|
    ensures 64 + hi <= EntryLength(items)
    ensures EntryBytes(items, h, crc)[64 + lo..64 + hi] == DescriptorArea(items, h.number)[lo..hi]
  {
    var head, area := HeaderBytes(h, crc, EntryLength(items), |items|), DescriptorArea(items, h.number);
    var after := Zeroes(Filler(|items|)) + DataArea(items, h.number);
    InOrder(items, h, crc);
    Middle(head, area, after, lo, hi);
    hide *;
  }

  lemma InOrder(items: seq<Item>, h: Header, crc: nat)
    requires AllLoggable(items) && HeaderOk(h) && crc < 4294967296 && EntryLength(items) < 4294967296
    ensures EntryBytes(items, h, crc) ==
            HeaderBytes(h, crc, EntryLength(items), |items|)
            + (DescriptorArea(items, h.number) + (Zeroes(Filler(|items|)) + DataArea(items, h.number)))
  {
    hide HeaderBytes, DescriptorArea, DataArea, Filler, Zeroes, EntryLength, Sectors, AllLoggable, HeaderOk;
  }

  lemma Middle(a: seq<byte>, b: seq<byte>, c: seq<byte>, lo: nat, hi: nat)
    requires lo <= hi <= |b|
    ensures (a + (b + c))[|a| + lo..|a| + hi] == b[lo..hi]
  {
    SliceBehind(a, b + c, lo, hi);
    assert (b + c)[..|b|] == b;
    PartOfPart(b + c, |b|, lo, hi);
  }

  lemma SliceBehind(a: seq<byte>, b: seq<byte>, lo: nat, hi: nat)
    requires lo <= hi <= |b|
    ensures (a + b)[|a| + lo..|a| + hi] == b[lo..hi]
  {
  }

  lemma SliceIs(e: Entry, i: nat)
    requires 64 + 32 * i + 32 <= |e.raw|
    ensures Descriptor(e, i) == e.raw[64 + 32 * i..64 + 32 * i + 32]
  {
  }

  lemma Covers(items: seq<Item>)
    ensures EntryLength(items) >= 64 + 32 * |items|
  {
  }

  lemma DescriptorRead(e: Entry, items: seq<Item>, h: Header, crc: nat, i: nat)
    requires IsEntryOf(e, items, h, crc) && i < |items|
    ensures DescriptorsFit(e) && Descriptor(e, i) == DescriptorBytes(items[i], h.number)
  {
    DescriptorPlace(items, h.number, i);
    Covers(items);
    AreaRead(items, h, crc, 32 * i, 32 * i + 32);
    SliceIs(e, i);
    hide DescriptorArea, DescriptorBytes, EntryBytes, EntryLength, Descriptor, AllLoggable, HeaderOk;
  }

  /** The sectors of a written entry start at the first boundary after the descriptors. */
  lemma DataBegins(e: Entry, n: nat)
    requires e.descriptorCount == n
    ensures DataStart(e) == 64 + 32 * n + Filler(n)
  {
    Boundary(n);
    hide AlignUp, Filler;
  }

  lemma Boundary(n: nat)
    ensures AlignUp(64 + 32 * n, 4096) == 64 + 32 * n + Filler(n)
  {
    var q := FillerEnds(n);
    var x, r := 64 + 32 * n, AlignUp(64 + 32 * n, 4096);
    var a := r / 4096;
    assert r == a * 4096 && x <= r < x + 4096 && x <= q * 4096 < x + 4096;
    hide AlignUp, Filler;
    assert a == q;
  }

  lemma FillerEnds(n: nat) returns (q: nat)
    ensures 64 + 32 * n + Filler(n) == q * 4096 && Filler(n) < 4096
  {
    var d, m := n / 128, n % 128;
    assert n == 128 * d + m;
    if m == 127 {
      return d + 2;
    } else {
      assert (254 - m) % 128 == 126 - m;
      return d + 1;
    }
  }

  lemma SectorRead(e: Entry, items: seq<Item>, h: Header, crc: nat, i: nat)
    requires IsEntryOf(e, items, h, crc) && i < |items| && items[i].DataItem?
    ensures var at := DataStart(e) + Sectors(items[..i]) * 4096;
      at + 4096 <= |e.raw| && e.raw[at..at + 4096] == SectorBytes(items[i].sector, h.number)
  {
    DataPlace(items, h.number, i);
    DataBegins(e, |items|);
    var k, area := 4096 * Sectors(items[..i]), DataArea(items, h.number);
    var head := HeaderBytes(h, crc, EntryLength(items), |items|);
    var before := DescriptorArea(items, h.number) + Zeroes(Filler(|items|));
    assert e.raw == head + (before + area);
    hide IsEntryOf, DescriptorArea, SectorBytes, HeaderBytes, DataArea, Sectors, DataStart, Filler;
    SliceBehind(before, area, k, k + 4096);
    SliceBehind(head, before + area, |before| + k, |before| + k + 4096);
  }

  lemma {:induction false} IndexRead(e: Entry, items: seq<Item>, h: Header, crc: nat, i: nat)
    requires IsEntryOf(e, items, h, crc) && i <= |items| && DescriptorsFit(e)
    ensures DataIndex(e, i) == Sectors(items[..i])
  {
    hide EntryBytes, EntryLength;
    if i > 0 {
      IndexRead(e, items, h, crc, i - 1);
      DescriptorRead(e, items, h, crc, i - 1);
      assert items[..i][..i - 1] == items[..i - 1];
      SignatureOf(items[i - 1], h.number);
      hide DescriptorBytes, Descriptor;
    }
  }

  lemma SignatureOf(item: Item, number: nat)
    requires Loggable(item) && number < 18446744073709551616
    ensures DescriptorBytes(item, number)[..4] == if item.DataItem? then SIG_DESC else SIG_ZERO
  {
    hide Eight;
  }

  lemma Pieces(a: seq<byte>, b: seq<byte>, c: seq<byte>, d: seq<byte>, e: seq<byte>)
    requires |a| == |b| == 4 && |c| == |d| == |e| == 8
    ensures var s := a + b + c + d + e;
      s[..4] == a && s[4..8] == b && s[8..16] == c && s[16..24] == d && s[24..32] == e
  {
  }

  lemma DescriptorParts(item: Item, number: nat)
    requires Loggable(item) && number < 18446744073709551616
    ensures var d := DescriptorBytes(item, number);
      && d[24..32] == Eight(number) && d[16..24] == Eight(item.at)
      && (item.ZeroItem? ==> d[8..16] == Eight(item.n))
      && (item.DataItem? ==> d[4..8] == item.sector[4092..] && d[8..16] == item.sector[..8])
  {
    hide Eight;
    match item
    case ZeroItem(at, n) => Pieces([122, 101, 114, 111], [0, 0, 0, 0], Eight(n), Eight(at), Eight(number));
    case DataItem(at, sector) =>
      Pieces([100, 101, 115, 99], sector[4092..], sector[..8], Eight(at), Eight(number));
  }

  lemma DescriptorNumbers(item: Item, number: nat)
    requires Loggable(item) && number < 18446744073709551616
    ensures var d := DescriptorBytes(item, number);
      Le(d[24..32]) == number && Le(d[16..24]) == item.at && (item.ZeroItem? ==> Le(d[8..16]) == item.n)
  {
    DescriptorParts(item, number);
    EightRead(number);
    EightRead(item.at);
    if item.ZeroItem? {
      EightRead(item.n);
    }
    hide Eight, Le, DescriptorBytes;
  }

  lemma DataRead(sector: seq<byte>, at: nat, number: nat)
    requires Loggable(DataItem(at, sector)) && number < 18446744073709551616
    ensures var d, s := DescriptorBytes(DataItem(at, sector), number), SectorBytes(sector, number);
      DataOk(d, s, number) && Reconstructed(d, s) == sector
  {
    var d, high, low := DescriptorBytes(DataItem(at, sector), number), Four(number / 4294967296),
      Four(number % 4294967296);
    DescriptorParts(DataItem(at, sector), number);
    DescriptorNumbers(DataItem(at, sector), number);
    FourRead(number / 4294967296);
    FourRead(number % 4294967296);
    DataRoundTrip(sector, high, low, number, d);
    hide Le, Four, DescriptorBytes;
  }

  lemma ZeroWriteRead(e: Entry, items: seq<Item>, h: Header, crc: nat, i: nat)
    requires IsEntryOf(e, items, h, crc) && i < |items| && items[i].ZeroItem?
    ensures DescriptorsFit(e) && WriteOf(e, i).Some? && Asked(WriteOf(e, i).value, items[i])
  {
    DescriptorRead(e, items, h, crc, i);
    SignatureOf(items[i], h.number);
    DescriptorNumbers(items[i], h.number);
    hide EntryBytes, EntryLength, Descriptor, DataIndex, DataStart, Sectors, Le, DescriptorBytes, DataOk,
      Reconstructed;
  }

  lemma DataWriteIs(e: Entry, i: nat, at: nat, sector: seq<byte>)
    requires DescriptorsFit(e) && i < e.descriptorCount && |sector| == 4096
    requires at == DataStart(e) + DataIndex(e, i) * 4096 && at + 4096 <= |e.raw| && e.raw[at..at + 4096] == sector
    requires var d := Descriptor(e, i);
      d[..4] == SIG_DESC && Le(d[24..32]) == e.sequenceNumber && DataOk(d, sector, e.sequenceNumber)
    ensures var d := Descriptor(e, i);
      WriteOf(e, i) == Some(Write(Le(d[16..24]), Reconstructed(d, sector)))
  {
    hide Descriptor, DataIndex, DataStart, Le, DataOk, Reconstructed, ZeroRunOk;
  }

  lemma DataWriteRead(e: Entry, items: seq<Item>, h: Header, crc: nat, i: nat)
    requires IsEntryOf(e, items, h, crc) && i < |items| && items[i].DataItem?
    ensures DescriptorsFit(e) && WriteOf(e, i).Some? && Asked(WriteOf(e, i).value, items[i])
  {
    DescriptorRead(e, items, h, crc, i);
    SignatureOf(items[i], h.number);
    DescriptorNumbers(items[i], h.number);
    IndexRead(e, items, h, crc, i);
    SectorRead(e, items, h, crc, i);
    DataRead(items[i].sector, items[i].at, h.number);
    var at := DataStart(e) + Sectors(items[..i]) * 4096;
    DataWriteIs(e, i, at, SectorBytes(items[i].sector, h.number));
    hide EntryBytes, EntryLength, Descriptor, DataIndex, DataStart, Sectors, Le, DescriptorBytes, SectorBytes,
      DataOk, Reconstructed, WriteOf, DescriptorsFit;
  }

  lemma {:induction false} WritesRead(e: Entry, items: seq<Item>, h: Header, crc: nat, i: nat)
    requires IsEntryOf(e, items, h, crc) && i <= |items| && DescriptorsFit(e)
    ensures WritesUpTo(e, i).Some?
    ensures forall k :: 0 <= k < i ==> Asked(WritesUpTo(e, i).value[k], items[k])
  {
    hide IsEntryOf, WriteOf, Asked, DescriptorsFit;
    if i > 0 {
      WritesRead(e, items, h, crc, i - 1);
      if items[i - 1].ZeroItem? {
        ZeroWriteRead(e, items, h, crc, i - 1);
      } else {
        DataWriteRead(e, items, h, crc, i - 1);
      }
    }
  }

  /** The log's round trip: of a written entry the reader gets the tail, the number, and
      exactly the writes that were logged, each at its own offset with its own bytes. */
  lemma LogRoundTrip(g: Region, off: int, seal: Seal, items: seq<Item>, h: Header)
    requires g.size > 0 && EntryLies(g, off, seal, items, h)
    ensures EntryAt(g, off, seal).Some?
    ensures var e := EntryAt(g, off, seal).value;
      && e.offset == off && e.entryLength == EntryLength(items) && e.tail == h.tail
      && e.sequenceNumber == h.number && e.descriptorCount == |items| && DescriptorsFit(e)
      && var ws := WritesUpTo(e, |items|);
         ws.Some? && |ws.value| == |items| && forall k :: 0 <= k < |items| ==> Asked(ws.value[k], items[k])
  {
    EntryFound(g, off, seal, items, h);
    var crc := seal.crc(EntryBytes(items, h, 0));
    var e := EntryAt(g, off, seal).value;
    assert IsEntryOf(e, items, h, crc);
    Covers(items);
    WritesRead(e, items, h, crc, |items|);
    hide EntryAt, EntryBytes, EntryLength, Asked;
  }

  // ---------------------------------------------------------------- what is refused

  /** Numbers of the header, as the entry holds them. */
  lemma HeaderNumbers(raw: seq<byte>)
    requires |raw| >= 4096
    ensures Le(raw[4..8]) == Little(raw, 4) && Le(raw[8..12]) == Little(raw, 8)
    ensures Le(raw[12..16]) == Little(raw, 12) && Le(raw[24..28]) == Little(raw, 24)
    ensures Le(raw[16..24]) == Wide(raw, 16)
  {
    LittleIs(raw, 4);
    LittleIs(raw, 8);
    LittleIs(raw, 12);
    LittleIs(raw, 24);
    WideIs(raw, 16);
    hide Le, Little, Wide;
  }

  /** An entry is whole when its length is a multiple of 4096 that the region holds, the
      checksum is that of its bytes with the checksum field zero, the log's identifier is at
      byte 32, the number is not zero, the descriptors fit, and the tail is an offset of a
      sector of the region. */
  predicate Whole(raw: seq<byte>, size: nat, seal: Seal)
    requires |raw| >= 4096
  {
    && raw[..4] == [108, 111, 103, 101] && Little(raw, 8) == |raw| && |raw| % 4096 == 0 && |raw| <= size
    && seal.crc(raw[..4] + [0, 0, 0, 0] + raw[8..]) == Little(raw, 4)
    && raw[32..48] == seal.guid && Wide(raw, 16) != 0 && 64 + 32 * Little(raw, 24) <= |raw|
    && Little(raw, 12) % 4096 == 0 && Little(raw, 12) < size
  }

  /** The entry that whole bytes are. */
  predicate EntryIs(e: Entry, off: int, raw: seq<byte>)
    requires |raw| >= 4096
  {
    && e.raw == raw && e.offset == off && e.entryLength == |raw| && e.tail == Little(raw, 12)
    && e.sequenceNumber == Wide(raw, 16) && e.descriptorCount == Little(raw, 24)
  }

  /** An entry is found at an offset only when whole bytes lie there. */
  lemma FoundIsWhole(g: Region, off: int, seal: Seal)
    requires g.size > 0 && EntryAt(g, off, seal).Some?
    ensures var e := EntryAt(g, off, seal).value;
      |e.raw| >= 4096 && LiesAt(g, off, e.raw) && Whole(e.raw, g.size, seal) && EntryIs(e, off, e.raw)
  {
    var e := EntryAt(g, off, seal).value;
    var header := RegionBytes(g, off, 64);
    assert LengthFits(g, header);
    HeaderStarts(g, off, e.entryLength);
    HeaderNumbers(e.raw);
    ReadLies(g, off, e.entryLength);
    PartOfPart(e.raw, 64, 0, 4);
    PartOfPart(e.raw, 64, 8, 12);
    hide Readable, RegionBytes, LiesAt, Le, Little, Wide;
  }

  lemma HeaderStarts(g: Region, off: int, n: nat)
    requires g.size > 0 && n >= 64 && Readable(g, off, n)
    ensures Readable(g, off, 64) && RegionBytes(g, off, n)[..64] == RegionBytes(g, off, 64)
  {
    hide Wrapped;
  }

  lemma ReadLies(g: Region, off: int, n: nat)
    requires g.size > 0 && Readable(g, off, n)
    ensures LiesAt(g, off, RegionBytes(g, off, n))
  {
    var raw := RegionBytes(g, off, n);
    forall i | 0 <= i < n ensures FileByte(g.file, g.offset + (off + i) % g.size) == Some(raw[i]) {
      assert Wrapped(g, off + i) < |g.file|;
    }
  }

  /** Wherever whole bytes lie, their entry is found. */
  lemma WholeIsFound(g: Region, off: int, seal: Seal, raw: seq<byte>)
    requires g.size > 0 && |raw| >= 4096 && LiesAt(g, off, raw) && Whole(raw, g.size, seal)
    ensures EntryAt(g, off, seal).Some? && EntryIs(EntryAt(g, off, seal).value, off, raw)
  {
    LiesRead(g, off, raw, 64);
    LiesRead(g, off, raw, |raw|);
    assert raw[..|raw|] == raw;
    HeaderNumbers(raw);
    PartOfPart(raw, 64, 0, 4);
    PartOfPart(raw, 64, 8, 12);
    hide Readable, RegionBytes, LiesAt, Le, Little, Wide;
  }

  /** A zero descriptor's numbers are accepted: the length at byte 8, the offset at byte 16. */
  predicate ZeroFits(d: seq<byte>)
    requires |d| == 32
  {
    && d[..4] == [122, 101, 114, 111] && Wide(d, 16) % 4096 == 0 && Wide(d, 8) % 4096 == 0
    && Wide(d, 8) <= 1073741824 && Wide(d, 16) + Wide(d, 8) < 9223372036854775808
  }

  /** A data descriptor's offset is accepted, and its sector is whole. */
  predicate DataFits(d: seq<byte>, raw: seq<byte>, at: nat, number: nat)
    requires |d| == 32
  {
    && d[..4] == [100, 101, 115, 99] && Wide(d, 16) % 4096 == 0 && Wide(d, 16) + 4096 < 9223372036854775808
    && at + 4096 <= |raw| && raw[at..at + 4] == [100, 97, 116, 97]
    && Little(raw, at + 4) == number / 4294967296 && Little(raw, at + 4092) == number % 4294967296
  }

  lemma DescriptorNumbersAre(d: seq<byte>)
    requires |d| == 32
    ensures Le(d[8..16]) == Wide(d, 8) && Le(d[16..24]) == Wide(d, 16) && Le(d[24..32]) == Wide(d, 24)
  {
    WideIs(d, 8);
    WideIs(d, 16);
    WideIs(d, 24);
  }

  lemma UntornIs(raw: seq<byte>, at: nat, number: nat)
    requires at + 4096 <= |raw|
    ensures Untorn(raw[at..at + 4096], number) <==>
            && raw[at..at + 4] == [100, 97, 116, 97] && Little(raw, at + 4) == number / 4294967296
            && Little(raw, at + 4092) == number % 4294967296
  {
    LittleIs(raw, at + 4);
    LittleIs(raw, at + 4092);
    var sector := raw[at..at + 4096];
    assert sector[..4] == raw[at..at + 4] && sector[4..8] == raw[at + 4..at + 8];
    assert sector[4092..4096] == raw[at + 4092..at + 4096];
    hide Le, Little;
  }

  lemma DataOkIs(d: seq<byte>, raw: seq<byte>, at: nat, number: nat)
    requires |d| == 32 && d[..4] == SIG_DESC
    ensures DataFits(d, raw, at, number) <==> at + 4096 <= |raw| && DataOk(d, raw[at..at + 4096], number)
  {
    DescriptorNumbersAre(d);
    if at + 4096 <= |raw| {
      UntornIs(raw, at, number);
    }
    hide Le, Little, Wide, Untorn;
  }

  lemma ZeroRunOkIs(d: seq<byte>)
    requires |d| == 32 && d[..4] == SIG_ZERO
    ensures ZeroFits(d) <==> ZeroRunOk(Le(d[16..24]), Le(d[8..16]))
  {
    DescriptorNumbersAre(d);
    hide Le, Wide;
  }

  lemma SignatureDecides(d: seq<byte>, raw: seq<byte>, at: nat, number: nat)
    requires |d| == 32
    ensures ZeroFits(d) ==> d[..4] == SIG_ZERO
    ensures DataFits(d, raw, at, number) ==> d[..4] == SIG_DESC
    ensures SIG_ZERO != SIG_DESC
  {
    assert SIG_ZERO[0] != SIG_DESC[0];
    hide Wide, Little;
  }

  lemma WriteDecided(e: Entry, i: nat, at: nat, d: seq<byte>)
    requires i < e.descriptorCount && DescriptorsFit(e) && at == DataStart(e) + DataIndex(e, i) * 4096
    requires d == Descriptor(e, i)
    ensures WriteOf(e, i).Some? <==>
            && Le(d[24..32]) == e.sequenceNumber
            && if d[..4] == SIG_ZERO then ZeroRunOk(Le(d[16..24]), Le(d[8..16])) else
                 && d[..4] == SIG_DESC && at + 4096 <= |e.raw| && DataOk(d, e.raw[at..at + 4096], e.sequenceNumber)
  {
    hide Le, Descriptor, DataStart, DataIndex, Reconstructed, DataOk, ZeroRunOk, Zeroes;
  }

  /** A descriptor records a write exactly when it carries the entry's number and is a zero
      run or a data sector that fits. */
  lemma WriteAccepted(e: Entry, i: nat, at: nat)
    requires i < e.descriptorCount && DescriptorsFit(e) && at == DataStart(e) + DataIndex(e, i) * 4096
    ensures WriteOf(e, i).Some? <==>
            && Wide(e.raw[64 + 32 * i..64 + 32 * i + 32], 24) == e.sequenceNumber
            && (|| ZeroFits(e.raw[64 + 32 * i..64 + 32 * i + 32])
                || DataFits(e.raw[64 + 32 * i..64 + 32 * i + 32], e.raw, at, e.sequenceNumber))
  {
    var d := Descriptor(e, i);
    assert d == e.raw[64 + 32 * i..64 + 32 * i + 32];
    WriteDecided(e, i, at, d);
    hide WriteOf, Descriptor, DataStart, DataIndex, DescriptorsFit;
    WideIs(d, 24);
    SignatureDecides(d, e.raw, at, e.sequenceNumber);
    if d[..4] == SIG_ZERO {
      ZeroRunOkIs(d);
    } else if d[..4] == SIG_DESC {
      DataOkIs(d, e.raw, at, e.sequenceNumber);
    }
    hide Le, Wide, DataFits, ZeroFits, DataOk, ZeroRunOk;
  }
}
