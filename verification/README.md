# libvhdi: a verified model

libvhdi decodes VHD and VHDX disk images read-only. Three views of one device have to
agree byte for byte, and different code computes each: what `ReadAt` returns, what the
extent map claims, and what the tables on disk mean. This project models the code behind
the three, gives the tables one short meaning, and proves that the rest agrees with it
for every image, every request and every chain depth.

## How it is built

- `Images` is the meaning. `Locate(d, v)` says, one byte at a time and straight from the
  tables, whether byte `v` lives in a file of the chain, reads as zero, was cleared by a
  link, needs a parent nobody attached, or cannot be told. `ByteAt` is the byte. Links of a
  chain may have different formats, block sizes and sector sizes.
- `Meaning` says the same once more with numbers alone, apart from every function the
  decoder shares with its specification: which bit of which byte stands for a sector, and
  which byte a disk holds in each state of a block. `TableBytes` does it for the block
  tables, from the bytes of an entry to the place of a block or bitmap.
- `ReadPath` is the read path over arrays: windowed bitmaps, sector runs, block splitting
  and the recursion through parents, proved against `ByteAt`.
- `Extents`, `ExtentMap`, `DiskMap`, `Changed`, `Stream` and `Delta` are the extent map and
  what is built on it. `MapOf` is the reference: one extent per byte, from `Locate`, merged.
- `LogFormat`, `LogReplay` and `LogOverlay` are the replay of a VHDX log into an overlay
  (MS-VHDX section 2.3), proved against writing every descriptor through to the file.
  `LogWriter` lays an entry down byte by byte, apart from the reader, and `WrittenLog` a
  whole log around the region; what they write is what is read and replayed.
- `BatLayout` and `Validate` are the tables on disk (MS-VHDX section 2.5 and the VHD
  specification) and what opening checks before it trusts them, with 64-bit wrap-around
  written out.
- `ChainSpec` and `ChainBuild` are chain construction. The resolver is arbitrary, disks are
  objects whose parent, warnings and handles change in place, and the contract is the
  chain the resolver's answers call for.
- `Ranges` is the byte-range algebra of change tracking, and `Geometry` the CHS geometry.
- `Limits` holds inputs at the edge of 64 bits that opening accepts, one in each family
  that a theorem elsewhere shuts out.
- `Bytes`, `Words`, `Counting` and `Division` hold small shared facts. `Words` is the
  64-bit and 32-bit wrap-around that the other modules write out where a sum or a product
  can leave its type.

A backing file is an immutable byte sequence, read with the behaviour of io.ReaderAt on a
file that may be too short. CRC-32C is an arbitrary function. Methods that the original
runs in place run in place here, on arrays or on object fields.

`ValidImage` is what opening an image is assumed to establish: sizes that are not zero and
that no conversion truncates (`Formed`), and present blocks that end at or below offset
2^63 of their file. Opening a VHDX establishes the first, and `Validate.OpenedVhdx` says
exactly when it establishes the second; opening a dynamic or differencing VHD establishes
both or neither, and `Validate.OpenedVhd` says exactly when. Nothing is assumed about
whether the file reaches those offsets, how many entries a table has, or whether the
sector size divides the block size: an answer the tables cannot give is a fault, and the
theorems say what happens then. A file is shorter than 2^63 bytes.

A replayed log enters the rest through `LogReplay.WriteThrough`: reading the overlay is
reading that file (`LogOverlay.ReplayedIsWrittenThrough`), so it is the `source` of a
VHDX whose log was replayed.

## Where the code and its documentation differ

- `canMerge` (reader/extents.go:536-537) joins abutting runs that different links cleared
  and keeps the first link's index, although an extent is documented to name the link that
  cleared it. Hence `ChangedExtents(k)` is exact if and only if no two abutting cleared
  bytes lie on different sides of link k (`Changed.ChangedIsExact`), and
  `Changed.StraddleIsPossible` is a chain of acceptable disks where it is not.
- `AllExtentsContext` (reader/stream.go:57-64) is documented to give the same result as
  `AllExtents`. Its counter wraps on a device of more than 2^63 - 2^30 bytes, and the walk
  then fails: `DiskMap.AllExtents` has the exact condition and `Limits.WalkCanFail` a fixed
  disk that is accepted and cannot be walked. Everything built on the walk inherits it.
- `blockFileOffset` and `VirtualToFileOffset` add an offset in a block to the block's offset
  in int64. A VHDX entry may place a block so that the sum wraps, and a negative file offset
  is then reported as mapped: `ExtentMap.OffsetsExact` has the exact condition and
  `Limits.OffsetCanWrap` an accepted image.
- A run of sectors the child holds always has a file offset unless the block's own offset
  overflowed, and exactly then the zeroed fallback for it in `differencingExtents` runs
  (`ExtentMap.ClaimedIsMapped`): on a valid image never, but opening accepts others too.
- The overlay's `ReadAt` (internal/vhdxlog/vhdxlog.go:457-479) computes the end of a request
  in int64. When it wraps, no replayed sector is looked at: `LogOverlay.OverlayReadAt` says
  what is returned, and `LogOverlay.WrappedReadMisses` exactly when that is wrong: bytes the
  log supplies are missed past the end of the file (`LogOverlay.HighSectorMissed`), and stale
  bytes are delivered as valid inside it (`LogOverlay.HighSectorStale`). A request ending in the last 4095 bytes below
  2^63 makes the sector counter itself wrap, and the walk over the sectors then does not
  end as it should (`LogOverlay.CounterWraps`); such a request is outside the contract.
- The block readers number blocks in 32 bits (block/block_reader.go:63 and 185), exactly
  below 2^32 blocks (`ReadPath.BlockIndexWraps`). A disk never asks them for more.
- `Coalesce` and `Intersects` (vhdimap/vhdimap.go:353-404) add a range's offset and length in
  int64. `Ranges.Coalesce` and `Ranges.Intersects` have the exact condition for their result
  to be the documented one, and `Ranges.OverflowIsFelt` inputs for which it is not.
- The "sequence exceeds" error of `collectSequence` (internal/vhdxlog/vhdxlog.go:306) can
  never be returned: `LogReplay.NeverTooLong`.
- `validateVHDDynamic` (reader/validate.go:115-121) says a table shorter than the disk is
  refused. The rounding there wraps for a media size within a block of 2^64, and then it is
  accepted: `Validate.VhdTableCovers` and `Validate.VhdTableCanFallShort`.
- The file-size checks of `validateVHDFixed`, `validateVHDDynamic` and
  `validateVHDXGeometry` add a size to an offset or to another size in int64. What was
  accepted fits the file if and only if that sum is below 2^63 (`Validate.FixedFits`,
  `Validate.VhdTableCovers`, `Validate.BatReadFits`). `Limits.WalkCanFail`,
  `Limits.VhdTableCanMissFile` and `Limits.VhdxTableCanMissFile` are accepted inputs that
  do not fit.
- The VHD parser indexes its buffer with a 32-bit product (bat/bat_parser.go:73-74), which
  reads every entry from its own place exactly for tables of at most 2^30 entries
  (`BatLayout.VhdSlots`). The header check allows at most 2^24.
- `resolveChain` documents that resolution is best-effort unless the whole chain is
  required. A chain deeper than the limit fails the open either way
  (`ChainSpec.BestEffortCanFail`). The failure branch after its `SetParent` cannot run:
  `ChainBuild.VirtualDisk.Attach`.
- A source the resolver returns with a closer but no reader is refused without closing it,
  so the ownership theorem speaks of handles supplied together with a reader.

## Model

| member | source | states |
|---|---|---|
| Images.ByteBeneath | diff/resolver.go:443-448 | a byte an image leaves to its parent is exactly the parent's byte, and needs a parent when none is attached |
| Meaning.VhdxBit | reader/reader.go:691-722 | a VHDX sector's bit is bit j mod 8 from the least significant of byte j / 8 of its chunk's bitmap, with j counting the sectors of the chunk; unset without a bitmap, unknown past the file's end |
| Meaning.VhdBit | diff/resolver.go:347-360 | a VHD sector's bit is bit 7 - s mod 8 of byte s / 8 of the bitmap right before the block's data; unknown outside bitmap or file |
| Meaning.FixedByte | reader/reader.go:579-603 | a fixed disk is its file, byte for byte |
| Meaning.VhdByte | diff/resolver.go:451-464 | a dynamic VHD holds its allocated blocks and zeroes; a differencing one the sectors whose bit is set, and its parent's bytes elsewhere |
| Meaning.VhdxByte | diff/resolver.go:466-483 | by block state 0 to 7: data in state 6, by the sector's bit in state 7, the parent's bytes where a differencing disk holds nothing, zeroes otherwise |
| ReadPath.OwnByte | diff/resolver.go:163-187 | a byte the child's table claims is what the child's own block reader returns for it, whatever the chain behind it |
| ReadPath.BlockIndexWraps | block/block_reader.go:57-69 | the 32-bit block number is the block's own if and only if the offset lies below 2^32 blocks; the next byte is taken for the first of block 0 |
| ReadPath.BlockReadAt | block/block_reader.go:39-55 | reading a dynamic disk delivers a prefix of its bytes, all of them unless some requested byte cannot be read from the file, and touches nothing outside the request |
| ReadPath.ReadPartialBlock | block/block_reader.go:221-293 | a partially present block yields file bytes where the sector's bit is set and zeroes elsewhere, for every alignment and length |
| ReadPath.BitmapLocation | diff/resolver.go:415-440 | finds a block's bitmap, and reports none only when every sector's bit means absent |
| ReadPath.LoadBitmap | diff/resolver.go:380-411 | the window it reads answers every sector of the range as the bitmap on disk does; it fails only when the last sector's bit cannot be read |
| ReadPath.RunEnd | diff/resolver.go:213-221 | returns the longest run of equal bits from a sector on |
| ReadPath.SectorRuns | diff/resolver.go:301-323 | tiles the sector range with maximal alternating runs; fails exactly when the range is empty or some bit in it cannot be read |
| ReadPath.ClassifiedBlock | diff/resolver.go:451-483 | a block's classification decides every byte of it as the tables do |
| ReadPath.ReadPerSector | diff/resolver.go:193-244 | run by run from a bitmap window, delivers what testing one bit per byte and asking one parent at a time defines |
| ReadPath.ReadSegment | diff/resolver.go:157-189 | one block's part of a read: the chain's bytes, or a stop at the first byte that needs an absent parent |
| ReadPath.ReadParent | diff/resolver.go:443-448 | the parent's bytes, or the error for a missing parent with nothing delivered |
| ReadPath.ResolverReadAt | diff/resolver.go:123-154 | any request on a differencing disk is clamped to the device and delivers the chain's bytes |
| ReadPath.ReadAt | reader/reader.go:579-603 | any request on any chain: clamping, end of file, count and error as documented, and every byte delivered is `ByteAt`; other bytes of the buffer are unchanged |
| Extents.MergeExtents | reader/extents.go:484-504 | the merging loop computes `Merge`, the fold the merge laws are about |
| Extents.MergeIsMerged | reader/extents.go:523-539 | a merged list carries no field its kind has no use for, and no two neighbours that meet are of one kind and one stretch |
| Extents.MergeFixed | reader/extents.go:484-504 | merging a merged list changes nothing |
| Extents.MergeHomomorphism | reader/extents.go:482-504 | merging two merged lists together gives what merging the whole at once gives |
| Extents.MergeByBytes | reader/extents.go:482-539 | merging depends only on what a list says byte by byte, not on how it is cut |
| ExtentMap.OffsetsExact | reader/extents.go:452-474 | the int64 sum of a block's offset and an offset in it is right for every byte of the block if and only if the block ends at or below 2^63 |
| ExtentMap.LookupIsPlace | reader/extents.go:439-480 | on a valid disk without parents the block lookup, wrapping sum and all, is the meaning of its tables |
| ExtentMap.ClaimedIsMapped | reader/extents.go:380-418 | sectors the child holds have no file offset exactly when the block's own offset overflowed, whatever image it is; on a valid image they always have theirs |
| ExtentMap.VirtualToFileOffset | reader/reader.go:614-679 | agrees with the tables at every offset of a disk without parents: mapped where and exactly where the byte lives in the file; a differencing disk maps nothing |
| ExtentMap.PlainBlockExtent | reader/extents.go:231-264 | the extent of one block's range says of each byte what the tables say |
| ExtentMap.PartialBlockExtents | reader/extents.go:271-310 | sector by sector, the extents of a partially present block say of each byte what the tables say |
| ExtentMap.DifferencingExtents | reader/extents.go:316-420 | the same for a block of a differencing disk, through its parents |
| ExtentMap.SectorExtents | reader/extents.go:340-420 | the same from sector runs |
| ExtentMap.ParentExtents | reader/extents.go:425-435 | the parent's extents one link on, or one unresolved extent |
| ExtentMap.RawExtents | reader/extents.go:178-227 | any range: fails exactly when the tables cannot answer for some byte, and otherwise says of each byte what they say |
| DiskMap.ExtentsOf | reader/extents.go:124-148 | the clamped range's extents are the one merged list that the bytes define |
| DiskMap.MapSplits | reader/stream.go:48-82 | a range split anywhere and merged back is the range mapped whole |
| DiskMap.AllExtents | reader/stream.go:48-82 | the chunked walk returns exactly the map of the whole device, through parents with other block sizes, if and only if the tables answer and the device has at most 2^63 - 2^30 bytes |
| DiskMap.MapTiles | reader/extents.go:117-123 | the map tiles the range exactly, in order, with positive lengths and nothing left to merge |
| DiskMap.TilingAscends | reader/extents.go:117-123 | extents are disjoint and ascending |
| DiskMap.MapPromises | reader/extents.go:85-107 | what an extent says is what the byte is: the named link's file at the offset plus distance, zero, or a missing parent, the link one past the end of the chain |
| DiskMap.ReadMatchesMap | reader/reader.go:579-603 | every byte a read delivers is the byte the extent map promises |
| DiskMap.FailsClosed | reader/reader.go:579-603 | for what ReadAt promises of any request that starts on the device, with readable files: it is refused for want of a parent exactly when its clamped range meets an unresolved extent, and delivers everything before the first one; otherwise it delivers the whole range |
| DiskMap.AllocationTotals | report/allocation.go:158-170 | each kind's total is the number of bytes the map gives that kind, and the four sum to the virtual size |
| Changed.ChangedExtents | reader/changed.go:44-71 | refused below 1 or when the walk fails, and otherwise the selected part of the map |
| Changed.ChangedIsExact | reader/changed.go:44-71 | the writes reported are exactly the bytes links nearer than k supply, if and only if no two abutting cleared bytes lie on different sides of link k |
| Changed.GapsAreExact | reader/changed.go:44-71 | the gaps reported are exactly the bytes missing because the chain ends at or before link k |
| Changed.SeenFromLink | reader/changed.go:20-43 | a byte no nearer link supplies reads from the leaf as it reads from link k alone |
| Changed.DeltaIsCorrect | reader/changed.go:20-43 | with that hypothesis, bytes outside the report read alike from the leaf and from link k, and the bytes inside it are exactly those nearer links wrote |
| Changed.StraddleIsPossible | reader/extents.go:536-537 | for any three files, a readable chain of disks with 1 MiB blocks whose report is not exact: the hypothesis is needed |
| Changed.ReportAscends | reader/changed.go:44-71 | the report is sorted and disjoint |
| Changed.CountsAreExact | reader/changed.go:73-98 | the bytes a report covers are, with that hypothesis, the bytes nearer links wrote, and its gaps are the bytes missing by link k |
| Changed.ChangedBytes | reader/changed.go:82-98 | counts the bytes missing by link k and, when no cleared run crosses it, the bytes nearer links wrote |
| Delta.PatchedByte | reader/changed.go:20-43 | writing reported extents over an image leaves the device's bytes where a write was reported and the image's elsewhere |
| Delta.DeltaCopyIsDevice | reader/changed.go:20-43 | with no cleared run across link k, a copy of link k with the reported extents written over it is the leaf's device |
| Delta.DeltaCanMiss | reader/extents.go:536-537 | for any files, a readable chain whose report omits a byte the leaf cleared, so that the copy is wrong: the hypothesis is needed |
| Stream.Stream | reader/stream.go:175-246 | runs are ordered, disjoint, no longer than the buffer and carry the device's bytes; a completed walk gave every byte it had to and nothing the options leave out, and a walk that failed had one of the documented reasons |
| Stream.StreamMapped | reader/stream.go:219-243 | a mapped extent is read and given a bufferful at a time |
| Stream.NothingStopsIt | reader/stream.go:175-246 | a walk that completed had no reason to fail |
| Stream.CopyBytes | reader/stream.go:115-124 | copying runs to their offsets leaves the device's bytes where a run had data and the old bytes elsewhere |
| Stream.SparseCopyIsDense | reader/stream.go:160-246 | with nothing unresolved, writing the runs onto a zero-filled device gives the device |
| LogFormat.NormalisedOffset | internal/vhdxlog/vhdxlog.go:85-90 | the truncating remainders normalise any offset, negative ones too, into the region |
| LogFormat.RemainderSign | internal/vhdxlog/vhdxlog.go:89 | the remainder is smaller than the divisor and never has the sign opposite to the dividend's |
| LogFormat.RegionReadAt | internal/vhdxlog/vhdxlog.go:85-106 | a read that wraps returns the circular bytes, and succeeds exactly when they fit the region and the file has them |
| LogFormat.ReadEntry | internal/vhdxlog/vhdxlog.go:119-180 | accepts exactly the entries whose header, lengths, log identifier and checksum hold |
| LogFormat.EntryFields | internal/vhdxlog/vhdxlog.go:119-180 | an accepted entry is whole sectors, no longer than the region, with its tail inside it and its descriptors inside the entry |
| LogFormat.DataRoundTrip | internal/vhdxlog/vhdxlog.go:382-407 | the sector a writer logged is the sector that is reconstructed |
| LogWriter.LogRoundTrip | internal/vhdxlog/vhdxlog.go:119-180 | an entry written byte by byte anywhere in the region, around its end too, is found with its own tail, number and count, and its writes are exactly the zero runs and sectors that were logged, each at its own offset, data sectors taken by data descriptors alone |
| LogWriter.OnlyChecksum | internal/vhdxlog/vhdxlog.go:139-146 | the bytes the checksum is taken over are the entry as written with a zero checksum field |
| LogWriter.FoundIsWhole | internal/vhdxlog/vhdxlog.go:119-180 | an entry found has its signature, length, checksum, identifier, number, descriptors and tail in order, each read from its own bytes |
| LogWriter.WholeIsFound | internal/vhdxlog/vhdxlog.go:119-180 | and wherever bytes that have them lie, that entry is found |
| LogWriter.WriteAccepted | internal/vhdxlog/vhdxlog.go:314-400 | a descriptor records a write if and only if it carries the entry's number and is a zero run, or a data descriptor with a whole sector, that is aligned and in bounds |
| LogReplay.WalkIsChain | internal/vhdxlog/vhdxlog.go:275-304 | a completed walk is a chain: each entry starts where the last ended, modulo the region, with consecutive numbers |
| LogReplay.ChainIsWalk | internal/vhdxlog/vhdxlog.go:275-304 | every such chain is the one the walk finds |
| LogReplay.ChainFits | internal/vhdxlog/vhdxlog.go:275-276 | a chain has no more entries than the region has sectors, by pigeonhole over aligned offsets |
| LogReplay.NeverTooLong | internal/vhdxlog/vhdxlog.go:286-307 | the walk never ends for being too long |
| LogReplay.WalkSequence | internal/vhdxlog/vhdxlog.go:286-307 | the loop returns the walk, fails when there is none, or holds a chain longer than the region, which NeverTooLong rules out |
| LogReplay.CollectSequence | internal/vhdxlog/vhdxlog.go:275-307 | succeeds exactly when the newest entry's tail starts a sequence that reaches it, and returns that sequence |
| LogReplay.SequenceShape | internal/vhdxlog/vhdxlog.go:228-251 | the sequence starts at the newest entry's tail, each entry begins where the last ended modulo the region, numbers are consecutive and end at the newest, and it fits the region |
| LogReplay.PutReplays | internal/vhdxlog/vhdxlog.go:412-426 | putting a sector in the overlay is writing it after everything before: the last writer wins |
| LogReplay.ReplayTouches | internal/vhdxlog/vhdxlog.go:203 | the overlay holds exactly the sectors the writes touch |
| LogReplay.WriteThroughBytes | internal/vhdxlog/vhdxlog.go:429-434 | the written-through file holds the byte the last write or the base put there, and zeroes in any gap |
| LogReplay.OverlayIsWriteThrough | internal/vhdxlog/vhdxlog.go:429-434 | the overlay's bytes are those of the written-through file if and only if that file has no gap between the base and a write |
| LogOverlay.Replay.Put | internal/vhdxlog/vhdxlog.go:412-426 | the overlay stands for one more write, or is unchanged because too many sectors are touched |
| LogOverlay.Replay.ApplyZero | internal/vhdxlog/vhdxlog.go:356-379 | a zero descriptor is a run of zero bytes; refused only when malformed or too large |
| LogOverlay.Replay.ApplyData | internal/vhdxlog/vhdxlog.go:382-407 | a data descriptor is its reconstructed sector; refused only when torn, misplaced or too large |
| LogOverlay.Replay.Apply | internal/vhdxlog/vhdxlog.go:314-353 | an entry is its descriptors' writes in order, or it is refused because some descriptor is bad or too much is touched |
| LogOverlay.Scan | internal/vhdxlog/vhdxlog.go:228-243 | the newest entry anywhere in the region, or none anywhere |
| LogOverlay.ReplayChain | internal/vhdxlog/vhdxlog.go:253-268 | the overlay of a chain is all its writes in ascending order |
| LogOverlay.Analyze | internal/vhdxlog/vhdxlog.go:215-271 | succeeds exactly when the log is placed on whole sectors, has an identifier and can be replayed, and its overlay then stands for the writes of the newest entry's sequence, with that sequence's count and numbers |
| WrittenLog.AnalyzeWritten | internal/vhdxlog/vhdxlog.go:215-271 | an intact log of any number of entries laid one after another around the region is replayed with exactly the writes that were logged, in order, unless they touch more than 65536 sectors |
| WrittenLog.WrittenSequence | internal/vhdxlog/vhdxlog.go:275-338 | the sequence found in such a log is the entries that were written, and their writes are those asked for |
| LogOverlay.CopySectors | internal/vhdxlog/vhdxlog.go:457-475 | overlays exactly the bytes of replayed sectors, and nothing when the end of the request wraps |
| LogOverlay.ExtendPrefix | internal/vhdxlog/vhdxlog.go:481-491 | the count grows to the first byte past the base that no replayed sector supplies |
| LogOverlay.OverlayReadAt | internal/vhdxlog/vhdxlog.go:447-496 | returns the bytes of the file with every write applied, and counts the longest prefix inside the file or a replayed sector; a request whose end wraps gets the base alone |
| LogOverlay.CounterWraps | internal/vhdxlog/vhdxlog.go:457-464 | the sector counter moves forward over every sector of a request if and only if the request does not end in the last 4095 bytes below 2^63 |
| LogOverlay.ReadReplayed | internal/vhdxlog/vhdxlog.go:429-434 | the same of the reader a replay hands out |
| LogOverlay.ReplayedIsWrittenThrough | internal/vhdxlog/vhdxlog.go:429-434 | for a log without gaps, a read through the overlay is a read of the file the log was written through to |
| LogOverlay.WrappedReadMisses | internal/vhdxlog/vhdxlog.go:457-479 | a request whose end wraps is answered rightly if and only if the log writes no other byte where the base has one and none where the base ends |
| LogOverlay.HighSectorMissed | internal/vhdxlog/vhdxlog.go:366-368 | for every file that ends before it, a sector a log may write and a request for it that delivers nothing |
| LogOverlay.HighSectorStale | internal/vhdxlog/vhdxlog.go:398-400 | for every file that has a byte there, a sector a log may write and a request for it that delivers the file's stale byte |
| BatLayout.PayloadSplit | bat/bat_parser.go:189-235 | the raw index of a payload entry decodes to its chunk and its place in it |
| BatLayout.EntriesDoNotCollide | bat/bat_parser.go:189-235 | payload and bitmap entries never share a raw index |
| BatLayout.SlotsOfChunks | bat/bat_parser.go:119-127 | an entry lies in the first chunks of a table exactly when its block or chunk does |
| BatLayout.DifferencingPartition | bat/bat_parser.go:110-127 | a differencing table is exactly the payload and bitmap entries of its chunks |
| BatLayout.DynamicTableEnds | bat/bat_parser.go:105-127 | a fixed or dynamic table ends at the last payload entry and omits only the last chunk's bitmap entry |
| BatLayout.DifferencingTableHolds | bat/bat_parser.go:110-127 | a differencing table holds every entry the disk needs |
| BatLayout.LegacyReaches | bat/bat_parser.go:150-162 | the deprecated count reaches the last bitmap entry exactly when the chunk ratio divides the block count |
| BatLayout.ReadVhdxBat | bat/bat_parser.go:144-262 | succeeds exactly when the sizes make sense and the file holds the table, and decodes every entry from its own slot, keeping the chunk ratio in 32 bits |
| BatLayout.RatioNarrows | bat/bat_parser.go:204 | keeping the chunk ratio in 32 bits is exact if and only if it fits them, and it does for the sizes the metadata parser lets through |
| BatLayout.ChunkRatioIs | bat/bat_parser.go:176-178 | the chunk ratio is 2^23 times the sector size over the block size, rounded down |
| TableBytes.VhdxBlockEntry | bat/bat_parser.go:189-262 | block i is described by the eight bytes of entry i + i / ratio: the low three bits are its state, states 6 and 7 are present, and bits 20 to 63 are its offset |
| TableBytes.VhdxBitmapEntry | bat/bat_parser.go:189-262 | chunk c's bitmap is where bits 20 to 63 of entry c (ratio + 1) + ratio say if its state is 6, and absent otherwise or past the table |
| BatLayout.DecodedTableValid | bat/bat_parser.go:189-262 | a decoded table is usable if and only if its chunk ratio did not narrow to zero and every present block ends at or below 2^63 |
| BatLayout.BitsDoNotCollide | bat/bat_parser.go:176-189 | when the sector size divides the block size, no two sectors of a chunk share a bit, and every bit is inside the 1 MiB bitmap |
| BatLayout.VhdBitmapFits | bat/bat_parser.go:34-49 | a VHD bitmap has a bit for every sector and is the smallest non-empty whole number of sectors that does |
| BatLayout.VhdSlots | bat/bat_parser.go:73-74 | the 32-bit index reads every entry from its own place if and only if there are at most 2^30 |
| BatLayout.ReadVhdBat | bat/bat_parser.go:51-90 | succeeds exactly when there are blocks and the file holds the table, and decodes a usable table; up to 2^30 entries, every entry from its own four bytes |
| TableBytes.VhdBlockEntry | bat/bat_parser.go:72-85 | a block is absent exactly when its four bytes are all 0xFF, and otherwise its data lies one bitmap past 512 times the big-endian number they make |
| TableBytes.VhdBlockPlace | bat/bat_parser.go:72-85 | byte o of an allocated block of a dynamic VHD lives o bytes past that block's bitmap |
| TableBytes.VhdBitmapFound | diff/resolver.go:415-430 | the bitmap of an allocated block is looked for at 512 times the number its four bytes make |
| Validate.ValidateRegionTable | reader/validate.go:160-211 | sorting and comparing neighbours accepts exactly the tables whose types are unique, whose regions are placed on positive 1 MiB multiples inside the file without overflow, and whose non-empty regions are pairwise disjoint |
| Validate.SpansApart | reader/validate.go:196-199 | leaving out empty regions loses no overlap between the others |
| Validate.NeighboursSuffice | reader/validate.go:202-208 | in a list sorted by start, comparing neighbours is comparing every pair |
| Validate.PointersAlwaysPass | reader/validate.go:234-264 | pointers taken from an accepted table always pass the second check |
| Validate.PointersFound | reader/reader.go:282-295 | in a table of unique types, the pointers are the offset and size of the region listed under each kind |
| Validate.RegionsAccepted | reader/validate.go:234-264 | the second check's exact condition, without wrapping sums |
| Validate.CountDoesNotWrap | bat/bat_parser.go:119-127 | the entry count and its size in bytes never wrap for counts the earlier checks allow |
| Validate.GeometryAccepted | reader/validate.go:267-322 | acceptance in wrapping arithmetic is acceptance in exact arithmetic, but for a table end past 2^63 |
| Validate.GeometryBounds | reader/reader.go:342-349 | for every geometry the metadata parser hands on: once accepted, rounding did not wrap, there are at most 2^23 blocks, and block count, disk size and chunk ratio survive their conversions |
| Validate.BatReadFits | reader/validate.go:308-319 | the table to be read lies in its region, and in a file of known size if and only if its end is below 2^63 or its region has a length |
| Validate.OpenedVhdx | reader/reader.go:336-370 | an accepted VHDX has an entry for every byte and a bitmap slot for every block, and is valid if and only if every present block's raw entry ends at or below 2^63 |
| Validate.VhdTableCovers | reader/validate.go:83-124 | an accepted VHD table covers the disk if and only if rounding the media size did not wrap, and fits a file of known size if and only if its end is below 2^63 |
| Validate.DynamicAccepted | reader/validate.go:83-124 | a dynamic header is accepted if and only if nothing is zero, the table has at most 2^24 entries and starts and ends in the file or past 2^63, and covers the disk unless rounding wraps |
| Validate.VhdTableCanFallShort | reader/validate.go:115-121 | a header that is accepted with a table too short for its disk |
| Validate.OpenedVhd | reader/reader.go:131-155 | an accepted VHD is a valid image with an entry for every byte exactly when the rounding did not wrap |
| Validate.FixedFits | reader/validate.go:58-76 | an accepted fixed disk fits a file of known size if and only if payload and footer together end below 2^63 |
| Validate.FixedAccepted | reader/validate.go:58-76 | a fixed disk is accepted if and only if its payload is neither empty nor 2^63 bytes or more, and with its footer, of 512 bytes when none is given, fits the file, whose size may be unknown, or ends past 2^63 |
| Limits.WalkCanFail | reader/validate.go:67-73 | a fixed disk that is accepted for a file of any size, is answered everywhere, and cannot be walked |
| Limits.OffsetCanWrap | reader/extents.go:452-474 | an accepted VHDX whose second half is reported at a negative file offset |
| Limits.TwoBlocksAccepted | reader/validate.go:267-322 | the disks of Changed.StraddleIsPossible and Delta.DeltaCanMiss have a geometry and a chunk ratio that opening accepts |
| Limits.VhdxTableCanMissFile | reader/validate.go:316-319 | an accepted region table and geometry whose block table ends past the file |
| Limits.VhdTableCanMissFile | reader/validate.go:103-112 | an accepted dynamic header whose block table ends past the file |
| ChainSpec.OutcomeUnique | reader/open.go:341-439 | the resolver's answers determine the chain and the reason for stopping |
| ChainSpec.ChainSafe | reader/open.go:341-439 | whatever the resolver answers: at most MaxChainDepth links, 32 when it is not positive, and that many when it stops for depth; no disk visited twice, equal virtual sizes, each parent named by its child's record or warned about, only differencing disks with parents |
| ChainSpec.IdentityMeaning | reader/reader.go:804-809 | a parent is the one recorded if and only if mismatches are allowed, nothing is recorded, or the record equals a VHDX parent's data-write identifier or a VHD parent's own |
| ChainSpec.KeyMeaning | reader/open.go:477-500 | two disks have the same key if and only if their normalised paths agree, or neither has a path and their identifiers agree and are not zero |
| ChainSpec.CycleIsRevisit | reader/open.go:412-423 | a walk that ends for a cycle was offered a disk the chain already holds |
| ChainSpec.BestEffortCanFail | reader/open.go:360-363 | a chain too deep is an error although the caller asked for the best effort |
| ChainSpec.BuiltChainReads | reader/open.go:425-437 | a chain built from valid images is a valid chain, and a byte of it is missing only if the walk ended at a disk that still needs a parent |
| ChainBuild.VirtualDisk.constructor | reader/reader.go:101-110 | a disk as opening leaves it: nothing attached, nothing owned, no reason recorded |
| ChainBuild.VirtualDisk.SetParent | reader/reader.go:425-443 | attaches exactly a parent of the same size to a differencing disk, for reading and for reporting alike, and otherwise changes nothing |
| ChainBuild.VirtualDisk.VerifyParent | reader/open.go:505-541 | accepts exactly a parent of the same size whose identifier, the data-write one of a VHDX, is the recorded one, or any when none is recorded or mismatches are allowed; leaves exactly the documented warnings on the child |
| ChainBuild.VirtualDisk.Close | reader/reader.go:464-481 | closes every handle the disk owes, once, in chain order, reports the first failure, and owes nothing afterwards |
| ChainBuild.VirtualDisk.ChainComplete | reader/chain.go:81-88 | true exactly when no link of the chain lacks a parent it needs |
| ChainBuild.VirtualDisk.FindParent | reader/open.go:360-423 | one turn of the walk stops for exactly the reason the answer gives, closing the handle it refuses, or returns the disk found, owned and unattached |
| ChainBuild.VirtualDisk.Attach | reader/open.go:425-437 | attaching keeps the walk's invariant and cannot be refused |
| ChainBuild.VirtualDisk.Extend | reader/open.go:359-438 | one turn keeps the chain, the keys seen, the warnings and the handles owed in step |
| ChainBuild.VirtualDisk.WalkParents | reader/open.go:354-439 | the loop builds the one chain the answers call for, and terminates |
| ChainBuild.VirtualDisk.ResolveChain | reader/open.go:341-439 | the chain, the error, the recorded reason, the warnings and the handles closed are those the answers call for |
| ChainBuild.OpenChain | reader/open.go:241-258 | every handle supplied with a reader is closed or owed by the disk returned, each exactly once; with resolution enabled, a disk is returned with a complete chain exactly when no reason is recorded |
| Ranges.EndWraps | vhdimap/vhdimap.go:82-83 | the int64 end of a range is right if and only if the range ends below 2^63, and is otherwise negative |
| Ranges.IntersectBytes | vhdimap/vhdimap.go:83-101 | the intersection of two ranges that fit is their shared bytes, and is there exactly when two non-empty ranges overlap |
| Ranges.Coalesce | vhdimap/vhdimap.go:353-386 | keeps exactly the input's bytes, in sorted non-empty ranges with a gap between neighbours, if and only if no range that reaches past 2^63 meets another |
| Ranges.MergingEnds | vhdimap/vhdimap.go:372-384 | what the merging loop ends with is canonical and complete exactly when every range past 2^63 stands alone |
| Ranges.CanonicalUnique | vhdimap/vhdimap.go:345-352 | two coalesced lists of the same bytes are the same list |
| Ranges.CanonicalShortest | vhdimap/vhdimap.go:345-352 | no list of the same bytes is shorter |
| Ranges.Intersects | vhdimap/vhdimap.go:394-405 | by binary search, true exactly when the range shares a byte with the set and neither it nor a last range that starts before its end reaches past 2^63 |
| Ranges.UnanswerableShares | vhdimap/vhdimap.go:394-405 | when the set is to blame for that answer, a byte is shared and the answer is wrong |
| Ranges.Overlap | vhdimap/vhdimap.go:412-424 | by binary search, returns exactly the shared bytes, canonically, of a range that fits and none of one that does not |
| Ranges.OverflowIsFelt | vhdimap/vhdimap.go:353-404 | two ranges that do not coalesce, and a shared byte that is denied |
| Ranges.ChangedWithin | change/diff.go:321-347 | the changed parts of a file are exactly its bytes that a non-sparse extent maps to a written disk byte |
| Geometry.ChsGeometry | types/geometry.go:19-46 | narrowing never truncates, the track size is the first of 17, 31, 63 and 255 that suits, and the geometry is the largest whole number of cylinders that does not exceed the capped sector count |
| Geometry.UnpackAfterPack | types/geometry.go:51-59 | the packed field holds cylinders, heads and sectors in bits 16, 8 and 0, and unpacking it returns the geometry |
| Geometry.PackAfterUnpack | types/geometry.go:51-59 | packing an unpacked field returns it |

## Left out

- File and directory access, path normalisation and the search for parents: the resolver is an arbitrary answer at each depth and normalisation an arbitrary function.
- CRC-32C and UTF-16 decoding: library calls; the checksum is an arbitrary function of the entry's bytes.
- Field-by-field parsers of footers, headers, metadata and locators, and the writers of test images: shallow round trips.
- The choice between the two VHDX region tables and the refusal of unknown required regions.
- Errors of a reader other than a file that is too short, and dead guards for a nil reader, a nil source, a differencing disk without its resolver, or zero sizes that opening rules out.
- The text of errors: they are distinguished only where callers tell them apart.
- Context cancellation and the visit function's error value: the visit function answers yes or no.
- `sort.Slice` and `sort.Search` are modelled by a sort and a binary search of this project; the sort of regions is stable where the library's need not be, which no result depends on.
- Images whose virtual size is 2^63 or more, and reads of images with a present block that ends past offset 2^63 of its file: `ValidImage` excludes them, and what mapping does with such a block is in `ExtentMap.OffsetsExact`.
- LogOverlay.OverlayReadAt: a request that ends in the last 4095 bytes below 2^63 is left out, because the original's sector counter wraps there and its loop does not return.
- Ranges.Overlap: a set whose last range reaches past 2^63 is left out, because the predicate the original searches with is then not monotone; so are, for Ranges.ChangedWithin, file runs that end past 2^63, and for all of them ranges that start before byte 0 of the disk.
- ReadPath.BlockReadAt: requests past 2^32 blocks are left out; no disk has that many, and `ReadPath.BlockIndexWraps` says what number such a block gets.
- Chains closed into a cycle by hand with SetParent: a chain is a finite value when it is read, and an acyclic list when it is built.
- The reading side works on values and not on the objects of chain construction: `ChainSpec.View` is the bridge, and reading one object from several goroutines is not modelled.
- Volume and partition detection, filesystem adapters, owner indexes, `Diff` beyond `changedWithin`, checkpoints, reports beyond the allocation totals, and `ChangedSince`, which finds a link by its path.
- ReadPath.ReadAt: which of several unreadable bytes an error names is not stated, because a bitmap window reads ahead of the bytes it serves.
