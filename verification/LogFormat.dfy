/** The VHDX log on disk: the circular region, the entries it holds, and the write each
    descriptor of an entry records (MS-VHDX section 2.3). */
module LogFormat {
  import opened Bytes
  import opened Division
  import opened Words

  const SECTOR_SIZE := 4096
  const ENTRY_HEADER_SIZE := 64
  const DESCRIPTOR_SIZE := 32
  const MAX_ZERO_RUN := 0x4000_0000

  const SIG_ENTRY: seq<byte> := [0x6c, 0x6f, 0x67, 0x65]
  const SIG_ZERO: seq<byte> := [0x7a, 0x65, 0x72, 0x6f]
  const SIG_DESC: seq<byte> := [0x64, 0x65, 0x73, 0x63]
  const SIG_DATA: seq<byte> := [0x64, 0x61, 0x74, 0x61]

  // ---------------------------------------------------------------- the circular region

  datatype Region = Region(file: seq<byte>, offset: nat, size: nat)

  /** The file offset of a region-relative position. */
  function Wrapped(g: Region, off: int): nat
    requires g.size > 0
  {
    g.offset + off % g.size
  }

  /** Every byte of a region-relative range is in the file. */
  ghost predicate Readable(g: Region, off: int, n: nat)
    requires g.size > 0
  {
    forall k :: off <= k < off + n ==> Wrapped(g, k) < |g.file|
  }

  /** A region-relative range, wrapping at the end of the region. */
  function RegionBytes(g: Region, off: int, n: nat): (s: seq<byte>)
    requires g.size > 0 && Readable(g, off, n)
    ensures |s| == n
  {
    seq(n, i requires 0 <= i < n => g.file[Wrapped(g, off + i)])
  }

  /** Go's remainder, which takes the sign of the dividend. */
  function GoRem(a: int, b: nat): int
    requires b > 0
  {
    if a >= 0 then a % b else -((-a) % b)
  }

  lemma NormalisedOffset(off: int, size: nat)
    requires size > 0
    ensures (GoRem(off, size) + size) % size == off % size
  {
    if off < 0 {
      var q, r := (-off) / size, (-off) % size;
      assert off == (-q) * size - r;
      if r == 0 {
        QuotientIs(off, size, -q);
        QuotientIs(size, size, 1);
      } else {
        QuotientIs(off, size, -q - 1);
        QuotientIs(size - r, size, 0);
      }
    } else {
      QuotientIs(off % size + size, size, 1);
    }
  }

  /** Go's remainder is smaller than the divisor and never has the other sign. */
  lemma RemainderSign(off: int, size: nat)
    requires size > 0
    ensures var r := GoRem(off, size); 0 - size < r < size && (r < 0 ==> off < 0) && (r > 0 ==> off > 0)
  {
  }

  /** Part [lo, hi) of a region-relative range is one stretch of the file from `at`. */
  ghost predicate Stretch(g: Region, off: int, lo: nat, hi: nat, at: nat)
    requires g.size > 0
  {
    forall k :: off + lo <= k < off + hi ==> Wrapped(g, k) == at + (k - off - lo)
  }

  lemma WrapsAt(g: Region, off: int, j: nat)
    requires 0 <= j < g.size
    ensures Wrapped(g, off + j) == g.offset + off % g.size + j - if off % g.size + j < g.size then 0 else g.size
  {
    var q, r, size := off / g.size, off % g.size, g.size;
    assert off == q * size + r && (q + 1) * size == q * size + size && (q + 2) * size == q * size + 2 * size;
    if r + j < size {
      QuotientIs(off + j, size, q);
    } else {
      QuotientIs(off + j, size, q + 1);
    }
  }

  /** A range no longer than the region is one stretch, or two when it wraps. */
  lemma WrapsOnce(g: Region, off: int, n: nat)
    requires g.size > 0 && n <= g.size
    ensures var r := off % g.size;
      && Stretch(g, off, 0, Min(n, g.size - r), g.offset + r)
      && (n > g.size - r ==> Stretch(g, off, g.size - r, n, g.offset))
  {
    hide Wrapped;
    forall k | off <= k < off + n
      ensures Wrapped(g, k) ==
              g.offset + off % g.size + (k - off) - if off % g.size + (k - off) < g.size then 0 else g.size
    {
      WrapsAt(g, off, k - off);
    }
  }

  /** b is the byte of the file at a region-relative position. */
  predicate Delivered(g: Region, at: int, b: byte)
    requires g.size > 0
  {
    Wrapped(g, at) < |g.file| && b == g.file[Wrapped(g, at)]
  }

  /** The first n bytes of a region-relative range have been read. */
  ghost predicate PartRead(g: Region, p: array<byte>, off: int, n: nat)
    requires g.size > 0 && n <= p.Length
    reads p
  {
    forall i :: 0 <= i < n ==> Delivered(g, off + i, p[i])
  }

  method ReadStretch(g: Region, p: array<byte>, off: int, lo: nat, hi: nat, at: nat) returns (err: Error)
    requires g.size > 0 && lo <= hi <= p.Length && Stretch(g, off, lo, hi, at)
    requires PartRead(g, p, off, lo)
    modifies p
    ensures err == Ok ==> PartRead(g, p, off, hi)
    ensures err != Ok ==> !Readable(g, off, p.Length)
  {
    hide Wrapped;
    var n;
    n, err := FileReadAt(g.file, p, lo, hi, at);
    if err != Ok {
      assert Wrapped(g, off + lo + n) == at + n;
      return;
    }
    forall i | 0 <= i < hi ensures Delivered(g, off + i, p[i]) {
      if i >= lo {
        assert Wrapped(g, off + i) == at + (i - lo);
        assert p[i] == p[lo..lo + n][i - lo];
      }
    }
  }

  lemma WholeRead(g: Region, p: array<byte>, off: int)
    requires g.size > 0 && PartRead(g, p, off, p.Length)
    ensures Readable(g, off, p.Length) && p[..] == RegionBytes(g, off, p.Length)
  {
    hide Wrapped;
    forall k | off <= k < off + p.Length ensures Wrapped(g, k) < |g.file| {
      assert Delivered(g, off + (k - off), p[k - off]);
    }
  }

  /** region.readAt: one read, or two when the range wraps. */
  method RegionReadAt(g: Region, p: array<byte>, off: int) returns (err: Error)
    requires g.size > 0
    modifies p
    ensures err == Ok <==> p.Length <= g.size && Readable(g, off, p.Length)
    ensures err == Ok ==> p[..] == RegionBytes(g, off, p.Length)
  {
    if p.Length > g.size {
      return Invalid;
    }
    NormalisedOffset(off, g.size);
    WrapsOnce(g, off, p.Length);
    hide Wrapped, Readable, Stretch, RegionBytes;
    var at := (GoRem(off, g.size) + g.size) % g.size;
    var untilEnd := g.size - at;
    if untilEnd >= p.Length {
      err := ReadStretch(g, p, off, 0, p.Length, g.offset + at);
    } else {
      err := ReadStretch(g, p, off, 0, untilEnd, g.offset + at);
      if err != Ok {
        return;
      }
      err := ReadStretch(g, p, off, untilEnd, p.Length, g.offset);
    }
    if err == Ok {
      WholeRead(g, p, off);
    }
  }

  // ---------------------------------------------------------------- entries

  datatype Entry = Entry(
    offset: int, entryLength: nat, tail: nat, sequenceNumber: nat, descriptorCount: nat, raw: seq<byte>)

  /** What identifies this log: its GUID, and the checksum function entries are sealed
      with, which is not interpreted. */
  datatype Seal = Seal(guid: seq<byte>, crc: seq<byte> -> nat)

  const ZERO_GUID: seq<byte> := [0, 0, 0, 0, 0, 0, 0, 0, 0, 0, 0, 0, 0, 0, 0, 0]

  /** The entry with its checksum field zeroed, as the checksum is computed. */
  function Unsealed(raw: seq<byte>): seq<byte>
    requires |raw| >= 8
  {
    raw[..4] + [0, 0, 0, 0] + raw[8..]
  }

  predicate LengthFits(g: Region, header: seq<byte>)
    requires |header| == ENTRY_HEADER_SIZE
  {
    var n := Le(header[8..12]);
    header[..4] == SIG_ENTRY && SECTOR_SIZE <= n <= g.size && n % SECTOR_SIZE == 0
  }

  /** The checks on a whole entry, once its bytes are in hand. */
  predicate Sealed(g: Region, raw: seq<byte>, seal: Seal)
    requires |raw| >= SECTOR_SIZE
  {
    && seal.crc(Unsealed(raw)) == Le(raw[4..8])
    && raw[32..48] == seal.guid
    && Le(raw[16..24]) != 0
    && ENTRY_HEADER_SIZE + Le(raw[24..28]) * DESCRIPTOR_SIZE <= |raw|
    && Le(raw[12..16]) % SECTOR_SIZE == 0 && Le(raw[12..16]) < g.size
  }

  /** The entry that begins at a region-relative offset, if one does. */
  ghost function EntryAt(g: Region, off: int, seal: Seal): Option<Entry>
    requires g.size > 0
  {
    if g.size < ENTRY_HEADER_SIZE || !Readable(g, off, ENTRY_HEADER_SIZE) then None else
    var header := RegionBytes(g, off, ENTRY_HEADER_SIZE);
    if !LengthFits(g, header) then None else
    var n := Le(header[8..12]);
    if !Readable(g, off, n) then None else
    var raw := RegionBytes(g, off, n);
    if !Sealed(g, raw, seal) then None else
    Some(Entry(off, n, Le(raw[12..16]), Le(raw[16..24]), Le(raw[24..28]), raw))
  }

  /** readEntry. */
  method ReadEntry(g: Region, off: int, seal: Seal) returns (e: Option<Entry>)
    requires g.size > 0
    ensures e == EntryAt(g, off, seal)
  {
    var header := new byte[ENTRY_HEADER_SIZE];
    var err := RegionReadAt(g, header, off);
    if err != Ok {
      return None;
    }
    var h := header[..];
    if !LengthFits(g, h) {
      return None;
    }
    var entryLength := Le(h[8..12]);
    var buf := new byte[entryLength];
    err := RegionReadAt(g, buf, off);
    if err != Ok {
      return None;
    }
    var raw := buf[..];
    if !Sealed(g, raw, seal) {
      return None;
    }
    return Some(Entry(off, entryLength, Le(raw[12..16]), Le(raw[16..24]), Le(raw[24..28]), raw));
  }

  /** What reading an entry guarantees about its fields. */
  lemma EntryFields(g: Region, off: int, seal: Seal)
    requires g.size > 0 && EntryAt(g, off, seal).Some?
    ensures var e := EntryAt(g, off, seal).value;
      && e.offset == off && |e.raw| == e.entryLength && e.entryLength % SECTOR_SIZE == 0
      && SECTOR_SIZE <= e.entryLength <= g.size
      && e.tail % SECTOR_SIZE == 0 && e.tail < g.size
      && 0 < e.sequenceNumber < 0x1_0000_0000_0000_0000
      && ENTRY_HEADER_SIZE + e.descriptorCount * DESCRIPTOR_SIZE <= e.entryLength
  {
    var e := EntryAt(g, off, seal).value;
    LeBound(e.raw[16..24]);
    assert Pow256(8) == 0x1_0000_0000_0000_0000 by {
      assert Pow256(4) == 0x1_0000_0000;
    }
  }

  // ---------------------------------------------------------------- descriptors

  /** A write the log records: bytes to be found at an offset of the file. */
  datatype Write = Write(at: nat, data: seq<byte>)

  function AlignUp(n: nat, to: nat): (r: nat)
    requires to > 0
    ensures n <= r < n + to && r % to == 0
  {
    if n % to == 0 then n else
      QuotientIs((n / to + 1) * to, to, n / to + 1);
      (n / to + 1) * to
  }

  /** Descriptor i of an entry. */
  function Descriptor(e: Entry, i: nat): (d: seq<byte>)
    requires ENTRY_HEADER_SIZE + (i + 1) * DESCRIPTOR_SIZE <= |e.raw|
    ensures |d| == DESCRIPTOR_SIZE
  {
    e.raw[ENTRY_HEADER_SIZE + i * DESCRIPTOR_SIZE..][..DESCRIPTOR_SIZE]
  }

  predicate DescriptorsFit(e: Entry) {
    ENTRY_HEADER_SIZE + e.descriptorCount * DESCRIPTOR_SIZE <= |e.raw|
  }

  function Zeroes(n: nat): (s: seq<byte>)
    ensures |s| == n && forall i :: 0 <= i < n ==> s[i] == 0
  {
    seq(n, _ => 0)
  }

  predicate ZeroRunOk(at: nat, n: nat) {
    at % SECTOR_SIZE == 0 && n % SECTOR_SIZE == 0 && n <= MAX_ZERO_RUN && at < TWO_63 - n
  }

  /** A data sector is whole: its signature is there, and both ends carry the entry's
      sequence number, which detects a torn write. */
  predicate Untorn(sector: seq<byte>, sequenceNumber: nat)
    requires |sector| == SECTOR_SIZE
  {
    && sector[..4] == SIG_DATA
    && Le(sector[4..8]) == sequenceNumber / 0x1_0000_0000
    && Le(sector[4092..4096]) == sequenceNumber % 0x1_0000_0000
  }

  /** The sector a data descriptor describes: the displaced bytes put back. */
  function Reconstructed(d: seq<byte>, sector: seq<byte>): (s: seq<byte>)
    requires |d| == DESCRIPTOR_SIZE && |sector| == SECTOR_SIZE
    ensures |s| == SECTOR_SIZE
  {
    d[8..16] + sector[8..4092] + d[4..8]
  }

  predicate DataOk(d: seq<byte>, sector: seq<byte>, sequenceNumber: nat)
    requires |d| == DESCRIPTOR_SIZE && |sector| == SECTOR_SIZE
  {
    && Untorn(sector, sequenceNumber)
    && Le(d[16..24]) % SECTOR_SIZE == 0 && Le(d[16..24]) < TWO_63 - SECTOR_SIZE
  }

  /** How many of the first i descriptors consume a data sector. */
  function DataIndex(e: Entry, i: nat): (n: nat)
    requires i <= e.descriptorCount && DescriptorsFit(e)
    ensures n <= i
  {
    if i == 0 then 0
    else DataIndex(e, i - 1) + if Descriptor(e, i - 1)[..4] == SIG_DESC then 1 else 0
  }

  function DataStart(e: Entry): nat {
    AlignUp(ENTRY_HEADER_SIZE + e.descriptorCount * DESCRIPTOR_SIZE, SECTOR_SIZE)
  }

  /** The write descriptor i records, or `None` when the entry is malformed there. */
  function WriteOf(e: Entry, i: nat): Option<Write>
    requires i < e.descriptorCount && DescriptorsFit(e)
  {
    var d := Descriptor(e, i);
    if Le(d[24..32]) != e.sequenceNumber then None
    else if d[..4] == SIG_ZERO then
      if ZeroRunOk(Le(d[16..24]), Le(d[8..16])) then Some(Write(Le(d[16..24]), Zeroes(Le(d[8..16])))) else None
    else if d[..4] == SIG_DESC then
      var at := DataStart(e) + DataIndex(e, i) * SECTOR_SIZE;
      if at + SECTOR_SIZE > |e.raw| then None else
      var sector := e.raw[at..at + SECTOR_SIZE];
      if DataOk(d, sector, e.sequenceNumber) then Some(Write(Le(d[16..24]), Reconstructed(d, sector))) else None
    else None
  }

  /** The writes of the first i descriptors of an entry, in order. */
  function WritesUpTo(e: Entry, i: nat): (r: Option<seq<Write>>)
    requires i <= e.descriptorCount && DescriptorsFit(e)
    ensures r.Some? ==> |r.value| == i
  {
    if i == 0 then Some([]) else
    match (WritesUpTo(e, i - 1), WriteOf(e, i - 1))
    case (Some(ws), Some(w)) => Some(ws + [w])
    case _ => None
  }

  /** The writes of a chain of entries, in order. */
  function WritesOf(chain: seq<Entry>): Option<seq<Write>>
    requires forall i :: 0 <= i < |chain| ==> DescriptorsFit(chain[i])
  {
    if chain == [] then Some([]) else
    match (WritesOf(chain[..|chain| - 1]), WritesUpTo(chain[|chain| - 1], chain[|chain| - 1].descriptorCount))
    case (Some(ws), Some(more)) => Some(ws + more)
    case _ => None
  }

  /** What a writer puts in the log for a sector comes back out of it: displacing the ends
      of a sector and reconstructing it is the identity, and the result passes as whole. */
  lemma DataRoundTrip(sector: seq<byte>, high: seq<byte>, low: seq<byte>, sequenceNumber: nat, d: seq<byte>)
    requires |sector| == SECTOR_SIZE && |high| == 4 && |low| == 4 && |d| == DESCRIPTOR_SIZE
    requires Le(high) == sequenceNumber / 0x1_0000_0000 && Le(low) == sequenceNumber % 0x1_0000_0000
    requires d[8..16] == sector[..8] && d[4..8] == sector[4092..]
    ensures var logged := SIG_DATA + high + sector[8..4092] + low;
      |logged| == SECTOR_SIZE && Untorn(logged, sequenceNumber) && Reconstructed(d, logged) == sector
  {
    var logged := SIG_DATA + high + sector[8..4092] + low;
    assert logged[..4] == SIG_DATA && logged[4..8] == high && logged[4092..4096] == low;
    assert logged[8..4092] == sector[8..4092];
    assert sector == sector[..8] + sector[8..4092] + sector[4092..];
  }
}
