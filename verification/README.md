# A verified model of the graph store and its graph queries

The system keeps a property graph as a log of timestamped edge records in a log-structured merge store, and answers
social-network queries over adjacency lists derived from it. This project models four layers of it and proves what
each one promises its callers.

**The storage engine** (`Store`, `Runs`, `Reads`, `Durability`, `Compactions`, `Engines`). The specification of every read is one
line, `Merge.View`: a record is visible at a snapshot when it is the newest of its key `(src, type, dst)` among those
no newer than the snapshot, and an insert. `Store` is a state machine of inserts, deletes, rotations, flushes, targeted
and full compactions, and crashes that keep any prefix of what a step writes. `Runs.EveryRunReadsItsLog` says that after
every run a scan is the view of the surviving log, at every snapshot from the floor on. The floor is the highest
timestamp any compaction has read; it never exceeds a snapshot a compaction ran at, so the current snapshot is always
answered in full. `Compactions` says, over levels and records alone, what a flush and each compaction takes, leaves and
writes. `Engines.Engine` is the imperative engine: fields, frozen tables, cache, index and manifest are
updated in place, and each operation is proved to be a step, or a run of steps, of the state machine.

**The segment format** (`CsrFormat`, `CsrSegment`, `Segment`, `Bloom`, `MetadataCaches`, `Manifests`, `DiskImage`).
Writer and reader at byte level with round trips, the offset table and its binary search, the Bloom filter, the bounded
metadata cache, and replay of the manifest. `DiskImage.EveryRunReadsItsBytes` carries the result about runs down to
the bytes of the live files.

**Graph search** (`Ic1`, `Ic13`, `ShortestPaths`, `Ic14`, `TagClasses`, `CommentRoots`). Breadth-first searches against
one definition of distance (`KnowsGraph.Dist`), the parent DAG and the enumeration of all shortest paths with memoised
reply weights counted in half-units, and reply chains.

**Derived structures** (`Adjacency`, `AdjacencyCache`, `BaseCsr`, `CommentRoots`, `Calendar`). The adjacency builder and
its cache file, the static CSR, root posts resolved at build time, and calendar dates.

`Types`, `Sorting` and `Lists` hold what all of these share.

## Where the code falls short of its description

- Compaction keeps only the newest record of a key, so a snapshot older than its inputs may lose an edge
  (`Merge.OldSnapshotCanBeLost`). `Merge.OldSnapshotSurvivesIff` gives the exact condition, for every snapshot.
- The `ic13` query looks vertices up, not ids, and a vertex keeps only 56 bits of an id. Between two stored persons it
  always answers the distance (`Ic13.StoredPersonsAreAnswered`). An id that no person has, but that agrees modulo 2^56
  with a stored one, is taken for that person: with persons 1 and 2 adjacent, the query for 2^56 + 1 and 2 answers 1
  instead of -1 (`Ic13.AliasIsTakenForPerson`). `Ic13.RightForEveryGraph` says for which stores and ids the answer is
  right on every graph, and `Ic13.RightForEveryStore` for which ids it is right on every store of 56-bit ids: those that
  share a vertex or have 56 bits themselves.
- Reloading an adjacency and building it again is not the identity. An empty list is lost (`Adjacency.EmptyListIsLost`),
  and entries past the position where the timestamps run out come back in ascending order
  (`Adjacency.SaturatedListIsReordered`). `Adjacency.ReloadIsIdentityIff` gives the exact condition. A built adjacency
  has neither empty lists nor duplicates (`Adjacency.BuiltListsAreProper`), and with unique timestamps it never runs out
  of them (`Adjacency.NeverSaturates`).

## Model

| member | source | states |
|---|---|---|
| Merge.MergeLatestRecords | src/graph.rs:981-1005 | the loop over sorted records with its set of seen keys computes the specified merge |
| Merge.MergeLatestMeaning | src/graph.rs:981-1005 | with unique timestamps a merge returns exactly the latest record of every key at the snapshot (without tombstones: exactly the view), strictly ascending by source, then type, then destination |
| Merge.MergeVisibleMeaning | src/graph.rs:974-979 | the visible merge is exactly the view at the snapshot, one record a key, in key order |
| Merge.StrictUnique | src/graph.rs:981-1005 | such an answer is determined by its set of records, so input order and duplication do not matter |
| Merge.CompactionPreservesView | src/graph.rs:671-672 | replacing any part of the stored records by its merge with tombstones leaves the view unchanged at every snapshot from the highest replaced timestamp on, whatever other records are stored |
| Merge.OldSnapshotCanBeLost | src/graph.rs:671-672 | a concrete insert and later delete whose compaction changes the view at the older snapshot |
| Merge.OldSnapshotSurvivesIff | src/graph.rs:671-672 | a snapshot, old or new, reads the same after a compaction if and only if every record deciding a key for it and superseded by a later input is a delete with no older insert behind it |
| Runs.StepInv | src/graph.rs:178-300 | every step of the engine, crashes included, keeps: levels match the manifest, live files cover the durable log from the floor on, timestamps are unique and no newer than the clock, and log = durable + in memory |
| Runs.CrashInv | src/csr/manifest.rs:38-74 | whatever prefix of a flush or compaction reached the disk, with or without an unlogged file, reopening restores that invariant for the surviving log |
| Runs.ScanIsView | src/graph.rs:474-498 | in every such state a scan from the floor on is exactly the latest-write-wins view of the log, strictly sorted by key |
| Runs.EveryRunReadsItsLog | src/graph.rs:474-498 | after any run from an empty store, crashes at any point included, a scan at or above the floor is exactly the view of the surviving log, and the clock is at or above the floor |
| Runs.CrashesAnywhere | src/graph.rs:671-687 | a run may crash at rest, after any number of a flush's segments, and after any number of a compaction's create records or, once all are written, of its delete records |
| Runs.CrashCutsLog | src/graph.rs:671-687 | a crash in a step leaves the manifest of the finished step cut off after exactly that many records |
| Runs.FloorRises | src/graph.rs:671-672 | only compactions, and crashes in one, raise the floor, to the timestamp of a record then on disk |
| Reads.FiltersDropNothing | src/graph.rs:396-440 | a segment rejected by the partition filter, the source range or the Bloom filter holds no record the lookup asks for |
| Reads.SegmentNeighborsMeaning | src/csr/reader.rs:70-110 | range check, offset search and slice of one segment find exactly its records of the source |
| Reads.LookupCommutesWithMerge | src/graph.rs:373-472 | filtering by source and type before the merge gives the merged scan filtered by source and type |
| Reads.LookupIsScan | src/graph.rs:373-472 | whatever finds exactly the matching stored records answers as the filtered scan does |
| Reads.PinnedReadsForever | src/version.rs:38-46 | a version pinned when the clock was at least the snapshot scans the same after any later writes, rotations, flushes and compactions |
| Durability.NewFilesLive | src/graph.rs:271-297 | writing segments adds exactly their metadata to the replayed live set and leaves an unused next file id |
| Durability.FlushIsDurable | src/graph.rs:262-300 | after any number of a flush's segments exactly their records have become durable |
| Durability.CompactionPrefixIsDurable | src/graph.rs:671-687 | crash safety: after any prefix of the create and delete records of a compaction, replay recovers a store covering every durable record from the floor on, with the same clock and a fresh next id; the floor rises to the highest input timestamp only with the first deletion |
| Engines.Engine.Open | src/graph.rs:87-134 | opening a durable disk gives the state recovered by replay, with its invariant |
| Engines.Engine.Write | src/graph.rs:144-208 | allocates the next timestamp, extends the log and the active table by exactly that record, and is the write step; the table is frozen and a fresh one put in front exactly when its records, at 32 bytes each, then fill its capacity |
| Engines.Engine.InsertEdge | src/graph.rs:144-159 | logs exactly one insert record at the next timestamp and returns it |
| Engines.Engine.DeleteEdge | src/graph.rs:161-176 | logs exactly one delete record at the next timestamp and returns it |
| Engines.Engine.RotateActive | src/graph.rs:178-208 | freezes the active table, publishes a version with a fresh empty one in front, and is the rotate step |
| Engines.Engine.FlushMemgraph | src/graph.rs:262-300 | the flush step: the table leaves the queue and the version, L0 gains segments of exactly its records and is left ascending by (label, type, lowest source, id), deeper levels stay, and exactly those records become durable |
| Engines.Engine.WaitForFlushes | src/graph.rs:251-260 | runs every pending flush; nothing else about the log or memory changes |
| Engines.Engine.FlushActive | src/graph.rs:210-242 | a run after which every write is durable, at an unchanged clock; with automatic compaction L0 is then empty or below its threshold, without it nothing but rotations and flushes has run |
| Engines.Engine.CompactL0TargetToL1 | src/graph.rs:617-719 | flushes, then compacts: L0 keeps exactly the segments of another known label or single type than the target or beside its range, L1 exactly those of another partition or wholly below or above the L0 segments taken, besides the returned ones, which hold exactly the latest records of all segments taken and are cut to size; no L0 segment with a record of the target stays; a run ending in that step, with the log unchanged |
| Engines.Engine.CompactL0ToL1 | src/graph.rs:721-802 | flushes, then compacts exactly when L0 is not empty and it is forced or L0 has reached its threshold: L0 is then empty and L1 is the one returned segment, holding exactly the latest records of both levels; otherwise the levels stay; a run ending in that step, with log and clock unchanged |
| Compactions.FlushMeaning | src/graph.rs:262-300 | what a flush leaves: the queue and version without the table, L0 with segments of exactly its records, in order, and all deeper levels as they were |
| Compactions.TargetTakes | src/graph.rs:628-661 | segment by segment, what a targeted compaction leaves in L0 and L1, in terms of labels, types and source ranges alone |
| Compactions.WantedLeavesL0 | src/graph.rs:936-949 | no L0 segment holding a record of the target's label, type and range stays in L0 |
| Compactions.BetweenLeavesL1 | src/graph.rs:642-661 | no L1 segment stays that holds a record of the target's label and type between the sources of two records of the target in L0 |
| Compactions.TargetWrites | src/graph.rs:663-682 | the segments written hold exactly the latest record of every key among the segments taken |
| Compactions.TargetOrders | src/graph.rs:693-700 | a compaction that takes anything leaves L0 and L1 ascending by (label, type, lowest source, id) |
| Compactions.SplitFits | src/graph.rs:916-922 | new segments take consecutive ids, ascend by source and share none; all but the last reach the target size at 32 bytes a record, and past it a segment only goes on with its last source |
| Compactions.FullWrites | src/graph.rs:721-802 | a full compaction runs exactly when L0 is not empty and it is forced or at the threshold, and leaves L0 empty and L1 with one segment of the latest records of both |
| Compactions.LookupSkips | src/csr/format.rs:129-141 | a lookup's partition filter skips exactly the segments a target of its label and type would leave as another partition |
| Engines.Engine.RebuildIndex | src/graph.rs:804-829 | the index lists a segment under a source exactly when it is below L0 and has records of the source |
| Index.RebuiltIndexes | src/graph.rs:804-829 | adding the segments below L0 source by source yields exactly that index |
| Engines.Engine.MetadataFor | src/csr/reader.rs:155-175 | metadata from the cache or from disk is that of the file on disk, and the cache stays coherent |
| Engines.Engine.ScanEdges | src/graph.rs:474-498 | the scan over tables and levels is the view of the log at every snapshot from the floor on |
| Engines.Engine.GetNeighbors | src/graph.rs:355-361 | a lookup equals the scan filtered by source |
| Engines.Engine.GetNeighborsTyped | src/graph.rs:363-371 | a typed lookup equals the scan filtered by source and type |
| FlushSegments.BuildL0FlushSegments | src/graph.rs:309-353 | grouping, mixing of small groups, splitting and capping compute the specified cut, whose meaning the following rows give |
| FlushSegments.FlushPartsMeaning | src/graph.rs:314-334 | the partitions ascend by (label, type) and hold the records, each once; a record is under its label, and under its type unless the records of its label and type fill fewer than the minimum bytes at 32 each, when it is under the mixed type |
| FlushSegments.FlushCutMeaning | src/graph.rs:309-353 | a flush conserves the multiset of records, writes no empty segment and, graph-aware with a positive cap, at most that many segments; not graph-aware it writes one, and at or under the cap each partition's pieces stay as they are |
| FlushSegments.GraphAwareSegments | src/graph.rs:309-353 | before capping, a segment holds records of one partition, each belonging there by its label, its type and the size of its group, and no other piece of that partition has any of its sources |
| FlushSegments.SplitConserves | src/graph.rs:866-892 | the pieces of a split put together are the input, in order |
| FlushSegments.SplitShape | src/graph.rs:866-892 | every piece but the last reaches the target, and is under it without its last source run; pieces break only between sources |
| FlushSegments.SplitNeverSplitsSource | src/graph.rs:866-892 | on sorted input sources strictly ascend from piece to piece |
| FlushSegments.TargetEdgesMeaning | src/graph.rs:873 | the target of a split is the number of 32-byte records that fit, at least one |
| FlushSegments.CapMeaning | src/graph.rs:894-914 | at or under the cap nothing changes; over it, neighbours are put together in the smallest equal number that keeps the cap, the last possibly fewer |
| FlushSegments.CapBound | src/graph.rs:894-914 | ceil(n / ceil(n / m)) is at most m: a positive cap is kept |
| MemGraphs.MemGraph.Insert | src/memgraph/mod.rs:53-87 | inserting a new record adds exactly it; a source is inline exactly while its records fit a segment (one always does), segment ids stay unique, and inline and overflow sources disjoint |
| MemGraphs.MemGraph.GetEdgesForSrc | src/memgraph/mod.rs:101-112 | returns exactly the multiset of the source's records |
| MemGraphs.MemGraph.AllEdgesSorted | src/memgraph/mod.rs:114-125 | returns all records, each once, ascending by (src, type, dst, ts): their one sorted arrangement, whatever order the maps are visited in |
| MemGraphs.SortIsCanonical | src/memgraph/mod.rs:114-125 | distinct records have one sorted arrangement |
| Manifests.Manifest.Load | src/csr/manifest.rs:38-74 | replay in order gives the live files, the next file id and the highest timestamp |
| Manifests.Manifest.Append | src/csr/manifest.rs:76-88 | extends the log by one record |
| Manifests.ReplayCreations | src/csr/manifest.rs:38-74 | logging new files under new ids adds exactly them to the live set |
| Manifests.ReplayDeletions | src/csr/manifest.rs:38-74 | logging deletions removes exactly the named files, and neither id nor clock falls back |
| Manifests.SplitLevelsMeaning | src/levels.rs:7-20 | a reopened store has every live file once in the level its metadata names, ordered by (lowest source, id), and nothing else; it has as many levels as configured, at least two, and more only for a file beyond them |
| Segment.LookupIsFilter | src/csr/reader.rs:260-265 | the run an offset lookup selects is exactly the records of the source; no offset means no record |
| Segment.OffsetsTile | src/csr/writer.rs:30-118 | offset entries tile the bodies, each covering one source |
| Segment.OffsetsAscend | src/csr/writer.rs:30-118 | the offset table of sorted edges is strictly ascending by source |
| Segment.MetaBounds | src/csr/format.rs:129-141 | a segment's metadata bounds the source, timestamp, label and type of every record in it |
| Segment.LabelIff | src/csr/writer.rs:140-151 | a segment states a known label if and only if it has records and all their sources have that label |
| Segment.TypeIff | src/csr/writer.rs:153-163 | a segment states a single type if and only if it has records and all have that type |
| Segment.MetaDescribes | src/csr/writer.rs:30-118 | all of a segment's metadata over its records: counts, size in bytes, label, type, and the lowest and highest source and timestamp, each attained |
| Segment.UniqueSourceCount | src/csr/writer.rs:128-138 | there are as many offset entries as distinct sources |
| CsrFormat.EncodeHeader | src/csr/format.rs:41-64 | the fields written in place into one buffer are the header image |
| CsrFormat.HeaderRoundTrip | src/csr/format.rs:66-100 | decoding an encoded header gives it back if and only if magic and version are the supported ones, and names the wrong one otherwise |
| CsrFormat.HeaderSmallFields | src/csr/format.rs:43-47 | magic, version, header length, level and flags stand at bytes 0, 4, 6, 8 and 9 of an encoded header |
| CsrFormat.HeaderLabelFields | src/csr/format.rs:52-53 | the source label stands at bytes 120 to 123 and the type at 124 to 127 |
| CsrFormat.HeaderLowFields | src/csr/format.rs:48-56 | file id, creation, highest and lowest timestamp, source range and offset count stand at bytes 16, 24, 32, 112, 40, 48 and 56 |
| CsrFormat.HeaderHighFields | src/csr/format.rs:57-62 | body count, offset and body positions and lengths, and checksum stand at bytes 64 to 111 |
| CsrFormat.LeBytesAt | src/csr/format.rs:41-64 | integers are little-endian: byte i is the i-th digit to base 256 |
| CsrFormat.OffsetRoundTrip | src/csr/format.rs:159-174 | an offset entry survives encoding, with its fields at bytes 0, 8 and 16 |
| CsrFormat.BodyRoundTrip | src/csr/format.rs:184-225 | an edge survives being written as a body, field by field at its place, and read back under its source |
| CsrSegment.WriteSegment | src/csr/writer.rs:30-118 | the file is the image of the edges sorted by (src, type, dst, ts), and the metadata describes them: counts, exact size in bytes, label and type stated exactly when all records share them, and attained bounds |
| CsrSegment.EncodeRuns | src/csr/writer.rs:45-63 | the grouping loop appends one offset entry a source and one body an edge |
| CsrSegment.FindOffsetInBytes | src/csr/reader.rs:240-258 | binary search over bytes finds what the search on decoded offsets finds |
| CsrSegment.MetadataRoundTrip | src/csr/reader.rs:177-192 | a reader recovers the header and offsets the writer had |
| CsrSegment.HeaderStatesMeta | src/csr/writer.rs:66-88 | the header read back has the format's magic and version and states the segment's metadata, with offsets from byte 128, 24 bytes each, and then bodies of 32 bytes each, to the end of the file |
| CsrSegment.SegmentsFit | src/csr/writer.rs:30-118 | the size the byte-level results ask for excludes no segment of up to 2^58 records |
| CsrSegment.NeighborsRoundTrip | src/csr/reader.rs:70-110 | a lookup in a written segment returns exactly the source's records, in order |
| CsrSegment.ReadAllEdges | src/csr/reader.rs:112-142 | the reader's loop over the offsets computes the decoding the next row is about |
| CsrSegment.AllEdgesRoundTrip | src/csr/reader.rs:112-142 | reading everything back returns the sorted edges |
| DiskImage.LiveFileDecodes | src/csr/reader.rs:70-142 | every live file of a valid store decodes from its bytes to its records, whole and by source |
| DiskImage.WriteFiles | src/csr/writer.rs:30-118 | the segment writer, called for a batch, puts each image under its id and leaves the other files alone |
| DiskImage.StepImage | src/graph.rs:262-300 | every step, crashes with an unlogged file of arbitrary bytes included, leaves the live files' bytes what the writer makes of their records |
| DiskImage.EveryRunReadsItsBytes | src/graph.rs:373-498 | after any run that starts from an empty disk and writes segments with the writer, a scan decoding the live segments from their bytes is the view of the surviving log, and a lookup decoding one source's records is that scan filtered by source and type |
| Bloom.InsertSource | src/csr/cache.rs:105-111 | sets the three bits of a source in place and no others |
| Bloom.FromSources | src/csr/cache.rs:91-103 | inserts every source into a filter sized to the smallest power of two of bits with 16 a source, for at least four sources |
| Bloom.AdmittedIff | src/csr/cache.rs:113-122 | a filter admits a source if and only if each of its three bits is a bit of some source it was built from |
| Bloom.NoFalseNegatives | src/csr/cache.rs:84-133 | a source the filter was built from is never denied |
| Bloom.EmptyDenies | src/csr/cache.rs:113-122 | a filter built from nothing denies every source |
| MetadataCaches.MetadataCache.Insert | src/csr/cache.rs:60-76 | a hit or a cache with room evicts nothing; otherwise the ids queued longest are evicted until one entry has room and no further, although the queue holds stale duplicates; the rest stays, with the new entry cached and queued last |
| MetadataCaches.MetadataCache.Get | src/csr/cache.rs:51-58 | returns what is cached and re-queues a hit |
| KnowsGraph.EncodeRoundTrip | src/snb/props.rs:17-23 | the id comes back, and is added to the label times 2^56, if and only if it has 56 bits; the label always comes back |
| KnowsGraph.EncodeCollides | src/snb/props.rs:17-19 | two ids share a vertex if and only if they agree modulo 2^56 |
| Types.SourceLabelIff | src/types.rs:14-20 | a vertex has a known label l if and only if l is 1 to 8 and the id lies in the l-th block of 2^56 |
| KnowsGraph.DistExists | src/snb/queries.rs:1954-1986 | the definition of distance is total: a vertex reached in n steps has a distance of at most n |
| Ic13.Search | src/snb/queries.rs:1954-1986 | breadth-first search from start finds the exact distance of another vertex, -1 if and only if it is unreachable; queue depths never fall and span at most two levels |
| Ic13.Ic13 | src/snb/queries.rs:1954-1986 | the answer by id (0 for equal ids, -1 for a missing person, else the distance or -1 when there is none) is right if and only if neither id is mistaken for another stored person or the search finds nothing anyway |
| Ic13.StoredPersonsAreAnswered | src/snb/queries.rs:1954-1986 | for two stored persons the answer is always the exact distance, or -1 if and only if unreachable |
| Ic13.RightForEveryGraph | src/snb/queries.rs:1954-1966 | on a given store the query is right for every graph if and only if the ids are equal or share a vertex, a vertex is missing, or both vertices store exactly the ids asked for |
| Ic13.RightForEveryStore | src/snb/props.rs:234-237 | over all stores of 56-bit ids and all graphs the query is right if and only if the ids agree modulo 2^56 or both have 56 bits |
| Ic13.AliasIsTakenForPerson | src/snb/queries.rs:1954-1986 | persons 1 and 2 know each other: for 2^56 + 1, which no person has, and 2 the query returns exactly 1 where -1 is right |
| Ic1.Ic1 | src/snb/queries.rs:1313-1354 | the level-bounded search with early exit returns what the search of all three levels would, ties included |
| Ic1.EarlyExit | src/snb/queries.rs:1340-1346 | once enough candidates are found, sorting and truncating them gives the answer of all levels |
| Ic1.LevelIsExact | src/snb/queries.rs:1319-1331 | level n holds each vertex at distance exactly n once, and the visited set is what is within n |
| Ic1.SearchAllMeaning | src/snb/queries.rs:1332-1354 | the rows are the first `limit` of all persons of the name at exact distance 1 to 3 by (distance, last name, id): none twice, and every match left out follows all rows of a full answer |
| Ic1.BeforeMeaning | src/snb/queries.rs:1349-1354 | rows are ordered by distance, then last name character by character, then id |
| Ic1.AnswerUnique | src/snb/queries.rs:1349-1354 | when person ids differ there is only one such answer |
| ShortestPaths.ShortestPathParentDag | src/snb/queries.rs:2672-2712 | nothing if the goal is unreachable, otherwise a DAG with exact depths in which parents are exactly the edges from one level up, once each, complete to the goal's depth |
| ShortestPaths.PathsAreShortest | src/snb/queries.rs:2714-2738 | following parents lists every shortest path to a vertex exactly once and no other path |
| Ic14.Enumeration.EnumeratePaths | src/snb/queries.rs:2714-2738 | the recursion over shared buffers appends exactly the listed paths with their weights and restores the stack |
| Ic14.Ic14Cache.CommentCreator | src/snb/queries.rs:2602-2609 | the memoised creator is the uncached one |
| Ic14.Ic14Cache.ReplyWeight | src/snb/queries.rs:2621-2642 | two half-units per reply to a post, one per reply to a comment, over the author's messages and the target's, as the next rows pin down |
| Ic14.NoRepliesNoWeight | src/snb/queries.rs:2621-2642 | without reply edges the weight is 0 |
| Ic14.PostReplyAdds | src/snb/queries.rs:2626-2630 | one more reply to a post raises the weight by exactly two half-units for each listing of its message under the author, if the author created the message and the target the post; otherwise it changes nothing |
| Ic14.CommentReplyAdds | src/snb/queries.rs:2631-2638 | the same for a reply to a comment, with one half-unit |
| Ic14.PathWeighsItsEdges | src/snb/queries.rs:2611-2619 | a single vertex weighs nothing, and each further edge of a path adds its reply weights both ways |
| Ic14.Ic14Cache.KnowsWeight | src/snb/queries.rs:2611-2619 | the weight stored under the ordered pair is the uncached sum of both directions |
| Ic14.AllShortestPaths | src/snb/queries.rs:2645-2670 | every shortest path from start to goal exactly once, each with the uncached sum of symmetric reply weights over its edges |
| Ic14.TopkOrder | src/snb/queries.rs:2005-2043 | heap pushes and a sort rearrange the paths into descending weight, ties by first vertex and then in the order the heap left them in |
| Ic14.TopkOrderUnique | src/snb/queries.rs:2005-2043 | this determines the order completely |
| Ic14.TiesAreReordered | src/snb/queries.rs:2020-2039 | of two tied paths followed by a lighter one, the first is moved behind the second |
| Ic14.Ic14 | src/snb/queries.rs:1988-2003 | the query returns all shortest paths between the vertices of the two ids once each, heaviest first, and nothing when either vertex is not a stored person |
| TagClasses.TagClassAncestorsLikeDgs | src/snb/queries.rs:2548-2560 | the queue with repeats collects exactly the reachable classes, also on cycles |
| Adjacency.BuildListMeaning | src/snb/props.rs:543-562 | a built list holds every recorded destination once, the most recently recorded first |
| Adjacency.ScanAgrees | src/snb/props.rs:573-582 | for insert-only histories a builder fed a scan makes the lists of a builder fed the import stream, in the same order |
| Adjacency.EngineScanAgrees | src/snb/props.rs:573-582 | the same for a scan taken after any run of the engine |
| Adjacency.ReloadAgrees | src/snb/full_loader.rs:456-468 | a cache reloaded at a clock no older than its uniquely stamped records and then fed later updates agrees with one unbroken stream |
| Adjacency.NeverSaturates | src/snb/props.rs:511-523 | unique timestamps bound a list's length by its newest timestamp, so restamping never saturates |
| Adjacency.ReloadIsIdentityIff | src/snb/props.rs:511-523 | reloading any adjacency and building it gives it back if and only if every list is non-empty, duplicate-free, and ascending from the position where the timestamps reach 0 |
| Adjacency.ReloadedListIff | src/snb/props.rs:511-523 | the same for one list |
| Adjacency.EmptyListIsLost | src/snb/props.rs:517-520 | a key with an empty list does not come back |
| Adjacency.SaturatedListIsReordered | src/snb/props.rs:518-519 | the list 5, 3 reloaded at timestamp 0 comes back as 3, 5 |
| Adjacency.BuiltListsAreProper | src/snb/props.rs:543-570 | a built adjacency has no empty list and no duplicate |
| Adjacency.KnowsListsDistinct | src/snb/props.rs:553-561 | the adjacency lists of any edge type have no duplicates, as the path searches need |
| Adjacency.AdjacencyBuilder.FromAdjacency | src/snb/props.rs:511-523 | reloading restamps every list downward from the given timestamp, whatever order the map is visited in |
| Adjacency.AdjacencyBuilder.RecordEdge | src/snb/props.rs:525-537 | appends one stamped destination to its group and counts it |
| Adjacency.AdjacencyBuilder.Build | src/snb/props.rs:543-570 | lists every group; visible edges are the summed lengths of the lists, and all other recorded entries are counted as removed duplicates |
| Adjacency.BuildAdjacencyFromEdges | src/snb/props.rs:573-582 | the builder fed a list of records gives their adjacency |
| AdjacencyCache.WriteCache | src/snb/props.rs:597-653 | whatever the chunk size, the bytes are the image of the map's groups, each once, ascending by (source, type) and at its cumulative first index; loading them gives the map back |
| AdjacencyCache.HeaderBytesAre | src/snb/props.rs:609-614 | the file starts with "LSMADJ01", version 1, header length 32 and the counts of groups and destinations, and is exactly as long as they say |
| AdjacencyCache.EntryBytesAre | src/snb/props.rs:617-626 | the i-th group entry stands at byte 32 + 32 i: source, type, four zero bytes, number of destinations before it, number of its own |
| AdjacencyCache.DstBytesAre | src/snb/props.rs:628-637 | each destination stands behind the table, eight bytes each, in the order of the groups |
| AdjacencyCache.CacheIsDetermined | src/snb/props.rs:597-653 | a map has one such file, so the chunk size is irrelevant |
| AdjacencyCache.TablesTile | src/snb/props.rs:616-637 | group entries and destination runs tile their tables |
| AdjacencyCache.CacheRoundTrip | src/snb/props.rs:655-689 | loading the image of any groups that fit gives back their map |
| AdjacencyCache.Load | src/snb/props.rs:655-689 | the loader's loops compute the specified decoding, with its errors |
| BaseCsr.WriteCsr | src/base_graph/csr.rs:199-229 | counting and prefix sums in place leave in slot k the number of pairs with a smaller source, also with sources out of range |
| BaseCsr.RangeIsNeighbors | src/base_graph/csr.rs:151-154 | the range of an in-range source is exactly its destinations |
| BaseCsr.NeighborsMeaning | src/base_graph/csr.rs:199-229 | a source's destinations are ascending and occur as often as the pair does |
| BaseCsr.ScanChunks | src/base_graph/csr.rs:156-187 | for every configuration the chunks put together are exactly the destinations of the source, decoded from the file, and the counters count them; up to the small-degree threshold there is one chunk, past it all but the last fill exactly a block |
| BaseCsr.NeighborsVec | src/base_graph/csr.rs:189-196 | the whole list, empty for a source past the offsets |
| BaseCsr.BuildBidirectionalCsr | src/base_graph/builder.rs:568-613 | builds the structure of the pairs and of the swapped pairs |
| BaseCsr.Transposes | src/base_graph/builder.rs:583-613 | OUT and IN are transposes of each other with multiplicity |
| CommentRoots.ResolveCommentRoot | src/base_graph/builder.rs:738-755 | nested recursion returns the root of the chain, keeps every memo slot either unset or right, and never changes a filled slot |
| CommentRoots.ResolveAll | src/base_graph/builder.rs:545-548 | on acyclic parents every slot ends with the post at the end of its chain, or the sentinel |
| CommentRoots.LeadsToIs | src/snb/queries.rs:2338-2358 | only first reply edges count: one to a post ends the chain, otherwise one to a comment carries it on |
| CommentRoots.RootPostVid | src/snb/queries.rs:2338-2358 | terminates on any reply edges, cyclic ones included, with the root post if and only if the chain reaches one |
| CommentRoots.WalkIsMemo | src/snb/queries.rs:2338-2358 | on one reply forest the walk answers with the memoised root, and with nothing exactly for the sentinel |
| Calendar.CivilIsDate | src/snb/queries.rs:2573-2585 | every day number, negative ones included, becomes a valid Gregorian date whose day count is that number |
| Calendar.CivilInvertsDayNumber | src/snb/queries.rs:2573-2585 | the conversion inverts the day count on all valid dates |
| Calendar.CivilAscends | src/snb/queries.rs:2573-2585 | dates strictly increase with the day |
| Calendar.UnixDate | src/snb/queries.rs:2568-2571 | every i64 millisecond timestamp falls on the day of its date, and the year fits 32 bits |

## Left out

- Adjacency of histories with deletes: a delete never reaches a builder, and the code promises no agreement for them.
- Interleavings: pinning a version through publishing its successor, publishing with the index rebuild, and taking a timestamp with inserting the record are each one step; the code holds no lock across them.
- The background flush tasks run one at a time, in any order, as steps; the queue of the asynchronous runtime is not modelled.
- The engine reads segments as sorted record lists by file id; the bytes are carried along the same runs by `DiskImage`, for segments whose id and size fit the format.
- File and network input and output: temporary names and renames, short reads, sync, retries.
- Metrics, latency percentiles and the floating-point score that picks a compaction target; the compaction results hold for any target.
- Recency in the metadata cache: eviction takes the oldest queue entry, even of an entry used since.
- Views below the floor, apart from the exact condition proved for them.
- The hash of the Bloom filter is written out as in the code, but no statement depends on the values it gives.
- Memory layout: an edge record is taken to fill 32 bytes, and words of the Bloom filter are natural numbers.
- Overflow of 64-bit counters, sizes and timestamps; a write at the last timestamp is excluded.
- Reply weights are natural numbers of half-units; floating-point rounding beyond 2^53 is not modelled.
- The wall clock and file timings of `AdjacencyBuilder` and cache statistics.
- Loaders, CSV and JSON, catalogs and columns; pairs and records are given directly.
- The other complex, short and update queries, and the columns joined onto the rows of the modelled ones.
- The read-only views over base graph and updates, which concatenate local ids.
