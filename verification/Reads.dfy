/** The lookup path agrees with a full scan, and a pinned version never changes. */
module Reads {
  import opened Types
  import opened Sorting
  import opened Merge
  import opened Segment
  import opened FlushSegments
  import opened Manifests
  import opened Durability
  import opened Store
  import opened Runs
  import opened Bloom

  // ------------------------------------------------------------ single segment

  datatype CachedMetadata = CachedMetadata(offsets: seq<EdgeOffset>, filter: SourceBloom)

  function MetadataOf(file: seq<Edge>): CachedMetadata {
    CachedMetadata(Offsets(file), BloomOf(Sources(Offsets(file))))
  }

  /** The reader: range and emptiness checks, offset search, one slice. */
  function SegmentNeighbors(m: Meta, offsets: seq<EdgeOffset>, file: seq<Edge>, src: u64): seq<Edge> {
    if !InRange(m, src) || m.edgeCount == 0 then [] else Slice(file, FindOffset(offsets, src))
  }

  predicate Matches(e: Edge, src: u64, edgeType: Option<i32>) {
    e.src == src && (edgeType.Some? ==> e.edgeType == edgeType.value)
  }

  function Matching(src: u64, edgeType: Option<i32>): Edge -> bool {
    (e: Edge) => Matches(e, src, edgeType)
  }

  lemma {:induction false} SegmentNeighborsMeaning(m: Meta, file: seq<Edge>, src: u64, e: Edge)
    requires SortedBy(ByKeyTs, file) && m == MetaOf(m.level, m.fileId, file)
    ensures e in SegmentNeighbors(m, Offsets(file), file, src) <==> e in file && e.src == src
  {
    hide MetaOf;
    LookupIsFilter(file, src);
    InFilter(HasSrc(src), file, e);
    if e in file && e.src == src {
      MetaBounds(m.level, m.fileId, file, e);
    }
  }

  /** A segment dropped by the partition filter or the Bloom filter holds no record the query asks for. */
  lemma {:induction false} FiltersDropNothing(m: Meta, file: seq<Edge>, src: u64, edgeType: Option<i32>, e: Edge)
    requires SortedBy(ByKeyTs, file) && m == MetaOf(m.level, m.fileId, file)
    requires e in file && Matches(e, src, edgeType)
    ensures MayContainPartition(m, src, edgeType)
    ensures MayContain(MetadataOf(file).filter, src)
    ensures InRange(m, src)
  {
    hide MetaOf, MayContain, BloomOf;
    MetaBounds(m.level, m.fileId, file, e);
    SourceHasOffset(file, e);
    NoFalseNegatives(Sources(Offsets(file)), src);
  }

  lemma {:induction false} SourceHasOffset(file: seq<Edge>, e: Edge)
    requires SortedBy(ByKeyTs, file) && e in file
    ensures e.src in Sources(Offsets(file))
  {
    LookupIsFilter(file, e.src);
    InFilter(HasSrc(e.src), file, e);
    FoundSource(Offsets(file), e.src);
    var i :| 0 <= i < |Offsets(file)| && Offsets(file)[i].src == e.src;
    assert Sources(Offsets(file))[i] == e.src;
  }

  // ------------------------------------------------------------ merged lookups

  lemma {:induction false} FilterStrict(p: Edge -> bool, s: seq<Edge>)
    requires StrictlyByKey(s)
    ensures StrictlyByKey(Filter(p, s))
  {
    if s != [] {
      var n := |s| - 1;
      var found := Filter(p, s[..n]);
      FilterStrict(p, s[..n]);
      forall i | 0 <= i < |found|
        ensures KeyLt(KeyOf(found[i]), KeyOf(s[n]))
      {
        InFilter(p, s[..n], found[i]);
      }
    }
  }

  /** Looking up by source and type before the merge gives the scan filtered by source and type. */
  lemma {:induction false} LookupCommutesWithMerge(all: seq<Edge>, found: seq<Edge>, src: u64, edgeType: Option<i32>, snapshot: nat)
    requires TsUnique(Elements(all))
    requires forall e :: e in found <==> e in all && Matches(e, src, edgeType)
    ensures MergeVisible(found, snapshot) == Filter(Matching(src, edgeType), MergeVisible(all, snapshot))
  {
    hide MergeVisible;
    assert Elements(found) <= Elements(all);
    MergeVisibleMeaning(all, snapshot);
    MergeVisibleMeaning(found, snapshot);
    var scan := MergeVisible(all, snapshot);
    FilterStrict(Matching(src, edgeType), scan);
    forall e
      ensures e in MergeVisible(found, snapshot) <==> e in Filter(Matching(src, edgeType), scan)
    {
      InFilter(Matching(src, edgeType), scan, e);
      assert e in MergeVisible(found, snapshot) <==> e in View(Elements(found), snapshot);
      assert e in scan <==> e in View(Elements(all), snapshot);
    }
    StrictUnique(MergeVisible(found, snapshot), Filter(Matching(src, edgeType), scan));
  }

  /** The answer of a lookup, as the specification of `get_neighbors` and `get_neighbors_typed`. */
  function NeighborsSpec(s: State, src: u64, edgeType: Option<i32>, snapshot: nat): seq<Edge> {
    Filter(Matching(src, edgeType), Scan(s, snapshot))
  }

  lemma {:induction false} LookupIsScan(s: State, h: History, found: seq<Edge>, src: u64, edgeType: Option<i32>, snapshot: nat)
    requires Inv(s, h)
    requires forall e :: e in found <==>
               Matches(e, src, edgeType) && e in ScanInput(s.mem, s.files.disk, s.version)
    ensures MergeVisible(found, snapshot) == NeighborsSpec(s, src, edgeType, snapshot)
  {
    hide Inv, ScanInput, Matches, MergeVisible;
    StoredCovers(s, h);
    LookupCommutesWithMerge(ScanInput(s.mem, s.files.disk, s.version), found, src, edgeType, snapshot);
  }

  // ------------------------------------------------------------ pinned versions

  /** Memory tables only grow, by records newer than the old clock; named files stay as they are. */
  ghost predicate Extends(s: State, s': State) {
    && s.clock <= s'.clock && s.files.nextFileId <= s'.files.nextFileId
    && (forall id :: id in s.mem ==> id in s'.mem && Grown(s.mem[id], s'.mem[id], s.clock))
    && (forall f :: f in s.files.disk && f < s.files.nextFileId ==> f in s'.files.disk && s'.files.disk[f] == s.files.disk[f])
  }

  ghost predicate Grown(a: seq<Edge>, b: seq<Edge>, clock: nat) {
    && a <= b
    && forall i :: |a| <= i < |b| ==> b[i].ts > clock
  }

  lemma {:induction false} GrownTrans(a: seq<Edge>, b: seq<Edge>, c: seq<Edge>, clock1: nat, clock2: nat)
    requires Grown(a, b, clock1) && Grown(b, c, clock2) && clock1 <= clock2
    ensures Grown(a, c, clock1)
  {
  }

  lemma {:induction false} ExtendsTrans(s: State, s1: State, s2: State)
    requires Extends(s, s1) && Extends(s1, s2)
    ensures Extends(s, s2)
  {
    hide Grown;
    forall id | id in s.mem
      ensures id in s2.mem && Grown(s.mem[id], s2.mem[id], s.clock)
    {
      GrownTrans(s.mem[id], s1.mem[id], s2.mem[id], s.clock, s1.clock);
    }
  }

  lemma {:induction false} NewFilesExtend(f: Files, level: nat, segments: seq<seq<Edge>>)
    ensures var f' := NewFiles(f, level, segments);
            && f.nextFileId <= f'.nextFileId
            && forall id :: id in f.disk && id < f.nextFileId ==> id in f'.disk && f'.disk[id] == f.disk[id]
  {
    hide NewFiles, NewMetas, Creations;
    NewFilesMeaning(f, level, segments);
  }

  lemma {:induction false} WriteExtends(c: Config, s: State, h: History, e: Edge)
    requires Inv(s, h) && e.ts == s.clock + 1
    ensures Extends(s, Write(c, s, e))
  {
    hide Durable, LevelsMatch, Replay, MemRecords;
    var before, after := s.mem[s.active], s.mem[s.active] + [e];
    assert before <= after;
    assert s.nextMemId !in s.mem;
  }

  lemma {:induction false} StepExtends(c: Config, s: State, h: History, op: Op)
    requires Inv(s, h) && Enabled(c, s, op) && !op.CrashOp?
    ensures Extends(s, Step(c, s, op))
  {
    hide FlushSegs, NewFiles, NewMetas, TargetOutputs, FullOutputs, TargetLevels, FullLevels, Durable, LevelsMatch,
      MemRecords, Selected, AllInputs, Write, Replay;
    match op
    case WriteOp(src, dst, edgeType, marker) => WriteExtends(c, s, h, NewRecord(s, src, dst, edgeType, marker));
    case RotateOp => assert s.nextMemId !in s.mem;
    case FlushOp(m) => NewFilesExtend(s.files, L0, FlushSegs(c, s, m));
    case CompactTargetOp(t) => NewFilesExtend(s.files, L1, TargetOutputs(c, s, t));
    case CompactFullOp(force) => NewFilesExtend(s.files, L1, FullOutputs(s));
  }

  ghost predicate NoCrash(ops: seq<Op>) {
    forall i :: 0 <= i < |ops| ==> !ops[i].CrashOp?
  }

  lemma {:induction false} RunExtends(c: Config, s: State, h: History, ops: seq<Op>, s': State, h': History)
    requires Inv(s, h) && Runs.Runs(c, s, h, ops, s', h') && NoCrash(ops)
    ensures Extends(s, s')
    decreases |ops|
  {
    hide Inv, Step, StepHistory, Enabled, Extends;
    if ops == [] {
      ExtendsSelf(s);
    } else {
      StepExtends(c, s, h, ops[0]);
      StepInv(c, s, h, ops[0]);
      RunExtends(c, Step(c, s, ops[0]), StepHistory(c, s, h, ops[0]), ops[1..], s', h');
      ExtendsTrans(s, Step(c, s, ops[0]), s');
    }
  }

  lemma {:induction false} ExtendsSelf(s: State)
    ensures Extends(s, s)
  {
  }

  lemma {:induction false} GrownReadsSame(a: seq<Edge>, b: seq<Edge>, clock: nat, snapshot: nat)
    requires Grown(a, b, clock) && snapshot <= clock
    ensures Filter(NoNewerThan(snapshot), SortBy(ByKeyTs, b)) == Filter(NoNewerThan(snapshot), SortBy(ByKeyTs, a))
  {
    assert TotalPreorder(ByKeyTs);
    hide SortBy, TotalPreorder;
    FilterSort(ByKeyTs, NoNewerThan(snapshot), a);
    FilterSort(ByKeyTs, NoNewerThan(snapshot), b);
    assert b == a + b[|a|..];
    FilterAppend(NoNewerThan(snapshot), a, b[|a|..]);
    FilterNone(NoNewerThan(snapshot), b[|a|..]);
    assert Filter(NoNewerThan(snapshot), a) + [] == Filter(NoNewerThan(snapshot), a);
  }

  lemma {:induction false} MemReadsSame(s: State, s': State, ids: seq<nat>, snapshot: nat)
    requires Extends(s, s') && snapshot <= s.clock && forall id :: id in ids ==> id in s.mem
    ensures Filter(NoNewerThan(snapshot), ReadMem(s'.mem, ids)) == Filter(NoNewerThan(snapshot), ReadMem(s.mem, ids))
  {
    hide SortBy, Grown;
    if ids != [] {
      var n := |ids| - 1;
      MemReadsSame(s, s', ids[..n], snapshot);
      assert ids[n] in s.mem;
      GrownReadsSame(s.mem[ids[n]], s'.mem[ids[n]], s.clock, snapshot);
      FilterAppend(NoNewerThan(snapshot), ReadMem(s.mem, ids[..n]), SortBy(ByKeyTs, s.mem[ids[n]]));
      FilterAppend(NoNewerThan(snapshot), ReadMem(s'.mem, ids[..n]), SortBy(ByKeyTs, s'.mem[ids[n]]));
    }
  }

  lemma {:induction false} PinnedFilesSame(s: State, h: History, s': State)
    requires Inv(s, h) && Extends(s, s')
    ensures ReadFiles(s'.files.disk, Flatten(s.version.levels)) == ReadFiles(s.files.disk, Flatten(s.version.levels))
  {
    hide Replay, MemInv, MemRecords, Covers, TsUnique;
    forall m | m in Flatten(s.version.levels)
      ensures RecordsOf(s'.files.disk, m) == RecordsOf(s.files.disk, m)
    {
      InFlatten(s.version.levels, m);
      assert m in Live(s.files);
      assert FileHolds(s.files.disk, m);
    }
    SameReads(s.files.disk, s'.files.disk, Flatten(s.version.levels));
  }

  lemma {:induction false} SameFilteredInput(a: seq<Edge>, b: seq<Edge>, snapshot: nat)
    requires Filter(NoNewerThan(snapshot), a) == Filter(NoNewerThan(snapshot), b)
    ensures MergeVisible(a, snapshot) == MergeVisible(b, snapshot)
  {
  }

  /** A pinned version reads the same at every snapshot it knew, whatever the engine does afterwards. */
  lemma {:induction false} PinnedReadsForever(c: Config, s: State, h: History, ops: seq<Op>, s': State, h': History, snapshot: nat)
    requires Inv(s, h) && Runs.Runs(c, s, h, ops, s', h') && NoCrash(ops) && snapshot <= s.clock
    ensures ScanVersion(s'.mem, s'.files.disk, s.version, snapshot) == Scan(s, snapshot)
  {
    hide Runs.Runs, MergeVisible, ReadMem, ReadFiles;
    RunExtends(c, s, h, ops, s', h');
    PinnedFilesSame(s, h, s');
    VersionTablesExist(s, h);
    MemReadsSame(s, s', s.version.memgraphs, snapshot);
    var files := ReadFiles(s.files.disk, Flatten(s.version.levels));
    FilterAppend(NoNewerThan(snapshot), ReadMem(s.mem, s.version.memgraphs), files);
    FilterAppend(NoNewerThan(snapshot), ReadMem(s'.mem, s.version.memgraphs), files);
    SameFilteredInput(ReadMem(s.mem, s.version.memgraphs) + files, ReadMem(s'.mem, s.version.memgraphs) + files, snapshot);
  }

  lemma {:induction false} VersionTablesExist(s: State, h: History)
    requires Inv(s, h)
    ensures forall id :: id in s.version.memgraphs ==> id in s.mem
  {
  }
}
