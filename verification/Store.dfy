/** The engine as a state machine over atomic steps, beside a ghost log of every write. */
module Store {
  import opened Types
  import opened Sorting
  import opened Merge
  import opened Segment
  import opened FlushSegments
  import opened Manifests
  import opened Durability

  datatype Version = Version(id: nat, memgraphs: seq<nat>, levels: seq<seq<Meta>>)

  /** `mem` keeps every MemGraph of this process by id: a pinned version may still hold it. */
  datatype State = State(
    mem: map<nat, seq<Edge>>, active: nat, nextMemId: nat, flushTasks: seq<nat>,
    version: Version, clock: nat, files: Files)

  /** All writes that count, those a crash cannot lose, and the lowest snapshot still answered in full. */
  datatype History = History(log: set<Edge>, durable: set<Edge>, floor: nat)

  datatype Target = Target(srcLabel: i32, edgeType: Option<i32>, range: Option<(u64, u64)>)

  function Contents(s: State, id: nat): seq<Edge> {
    if id in s.mem then s.mem[id] else []
  }

  function LevelAt(levels: seq<seq<Meta>>, i: nat): seq<Meta> {
    if i < |levels| then levels[i] else []
  }

  // ------------------------------------------------------------------- reads

  function ReadMem(mem: map<nat, seq<Edge>>, ids: seq<nat>): seq<Edge> {
    if ids == [] then []
    else
      var n := |ids| - 1;
      ReadMem(mem, ids[..n]) + if ids[n] in mem then SortBy(ByKeyTs, mem[ids[n]]) else []
  }

  function ScanInput(mem: map<nat, seq<Edge>>, disk: map<nat, seq<Edge>>, v: Version): seq<Edge> {
    ReadMem(mem, v.memgraphs) + ReadFiles(disk, Flatten(v.levels))
  }

  function ScanVersion(mem: map<nat, seq<Edge>>, disk: map<nat, seq<Edge>>, v: Version, snapshot: nat): seq<Edge> {
    MergeVisible(ScanInput(mem, disk, v), snapshot)
  }

  function Scan(s: State, snapshot: nat): seq<Edge> {
    ScanVersion(s.mem, s.files.disk, s.version, snapshot)
  }

  // ------------------------------------------------------------------- steps

  function NewRecord(s: State, src: u64, dst: u64, edgeType: i32, marker: Marker): Edge
    requires s.clock < U64_MAX
  {
    Edge(src, dst, edgeType, s.clock + 1, marker)
  }

  function Rotate(s: State): State {
    s.(mem := s.mem[s.nextMemId := []], active := s.nextMemId, nextMemId := s.nextMemId + 1,
       flushTasks := s.flushTasks + [s.active],
       version := Version(s.version.id + 1, [s.nextMemId] + s.version.memgraphs, s.version.levels))
  }

  function Append(s: State, e: Edge): State {
    s.(clock := s.clock + 1, mem := s.mem[s.active := Contents(s, s.active) + [e]])
  }

  function Write(c: Config, s: State, e: Edge): State {
    var s1 := Append(s, e);
    if EDGE_RECORD_SIZE * |Contents(s1, s.active)| >= c.memgraphCapacityBytes then Rotate(s1) else s1
  }

  function Without(m: nat): nat -> bool {
    (x: nat) => x != m
  }

  function FlushSegs(c: Config, s: State, m: nat): seq<seq<Edge>> {
    var edges := SortBy(ByKeyTs, Contents(s, m));
    if edges == [] then [] else FlushCut(c, edges)
  }

  function Flush(c: Config, s: State, m: nat): State {
    var s1 := s.(flushTasks := Filter(Without(m), s.flushTasks));
    if Contents(s, m) == [] then s1
    else
      var segments := FlushSegs(c, s, m);
      var levels := Grow(s.version.levels, L0 + 1);
      var l0 := SortLevel(levels[L0] + NewMetas(s.files.nextFileId, L0, segments));
      s1.(files := NewFiles(s.files, L0, segments),
          version := Version(s.version.id + 1, Filter(Without(m), s.version.memgraphs), levels[L0 := l0]))
  }

  predicate PartitionOverlapsTarget(m: Meta, srcLabel: i32, edgeType: Option<i32>) {
    && (srcLabel == UNKNOWN_SOURCE_LABEL || m.srcLabel == UNKNOWN_SOURCE_LABEL || m.srcLabel == srcLabel)
    && (edgeType.Some? ==> m.edgeTypePartition == MIXED_EDGE_TYPE || m.edgeTypePartition == edgeType.value)
  }

  predicate RangesOverlap(leftMin: u64, leftMax: u64, rightMin: u64, rightMax: u64) {
    leftMin <= rightMax && rightMin <= leftMax
  }

  predicate TargetMatches(t: Target, m: Meta) {
    && PartitionOverlapsTarget(m, t.srcLabel, t.edgeType)
    && (t.range.Some? ==> RangesOverlap(m.minSrc, m.maxSrc, t.range.value.0, t.range.value.1))
  }

  function MinSrc(metas: seq<Meta>): u64 {
    if metas == [] then 0
    else if |metas| == 1 then metas[0].minSrc
    else
      var rest := MinSrc(metas[1..]);
      if metas[0].minSrc <= rest then metas[0].minSrc else rest
  }

  function MaxSrc(metas: seq<Meta>): u64 {
    if metas == [] then 0
    else
      var rest := MaxSrc(metas[1..]);
      if metas[0].maxSrc >= rest then metas[0].maxSrc else rest
  }

  function SelectL0(levels: seq<seq<Meta>>, t: Target): seq<Meta> {
    Filter((m: Meta) => TargetMatches(t, m), LevelAt(levels, L0))
  }

  function SelectL1(levels: seq<seq<Meta>>, t: Target): seq<Meta> {
    var l0 := SelectL0(levels, t);
    var lo, hi := MinSrc(l0), MaxSrc(l0);
    Filter((m: Meta) => PartitionOverlapsTarget(m, t.srcLabel, t.edgeType) && RangesOverlap(m.minSrc, m.maxSrc, lo, hi),
           LevelAt(levels, L1))
  }

  function Ids(metas: seq<Meta>): set<nat> {
    set m | m in metas :: m.fileId
  }

  function NotIn(ids: set<nat>): Meta -> bool {
    (m: Meta) => m.fileId !in ids
  }

  function Selected(s: State, t: Target): seq<Meta> {
    SelectL0(s.version.levels, t) + SelectL1(s.version.levels, t)
  }

  function Compacted(s: State, selected: seq<Meta>): seq<Edge> {
    MergeLatest(ReadFiles(s.files.disk, selected), s.clock, true)
  }

  function TargetOutputs(c: Config, s: State, t: Target): seq<seq<Edge>> {
    Split(SortBy(ByKeyTs, Compacted(s, Selected(s, t))), TargetEdges(c.segmentTargetBytes))
  }

  /** Publishes a compaction of `selected` into `outputs` under the given levels. */
  function Rewrite(s: State, selected: seq<Meta>, outputs: seq<seq<Edge>>, levels: seq<seq<Meta>>): State {
    s.(files := DeleteFiles(NewFiles(s.files, L1, outputs), selected),
       version := Version(s.version.id + 1, s.version.memgraphs, levels))
  }

  function TargetLevels(s: State, t: Target, outputs: seq<seq<Edge>>): seq<seq<Meta>> {
    var levels := Grow(s.version.levels, L1 + 1);
    var l0 := Filter(NotIn(Ids(SelectL0(s.version.levels, t))), levels[L0]);
    var l1 := Filter(NotIn(Ids(SelectL1(s.version.levels, t))), levels[L1]) + NewMetas(s.files.nextFileId, L1, outputs);
    levels[L0 := SortLevel(l0)][L1 := SortLevel(l1)]
  }

  function CompactTarget(c: Config, s: State, t: Target): State {
    if SelectL0(s.version.levels, t) == [] then s
    else
      var outputs := TargetOutputs(c, s, t);
      Rewrite(s, Selected(s, t), outputs, TargetLevels(s, t, outputs))
  }

  function AllInputs(s: State): seq<Meta> {
    LevelAt(s.version.levels, L0) + LevelAt(s.version.levels, L1)
  }

  function FullOutputs(s: State): seq<seq<Edge>> {
    [Compacted(s, AllInputs(s))]
  }

  function FullLevels(s: State): seq<seq<Meta>> {
    Grow(s.version.levels, L1 + 1)[L0 := []][L1 := SortLevel(NewMetas(s.files.nextFileId, L1, FullOutputs(s)))]
  }

  predicate FullCompactionDue(c: Config, s: State, force: bool) {
    && LevelAt(s.version.levels, L0) != []
    && (force || |LevelAt(s.version.levels, L0)| >= c.l0FileThreshold)
  }

  function CompactFull(c: Config, s: State, force: bool): State {
    if !FullCompactionDue(c, s, force) then s
    else Rewrite(s, AllInputs(s), FullOutputs(s), FullLevels(s))
  }

  /** How far a step had got when the process died. */
  datatype Partial =
    | Idle
    | InFlush(m: nat, written: nat)
    | InTarget(t: Target, created: nat, deleted: nat)
    | InFull(created: nat, deleted: nat)

  datatype Op =
    | WriteOp(src: u64, dst: u64, edgeType: i32, marker: Marker)
    | RotateOp
    | FlushOp(m: nat)
    | CompactTargetOp(t: Target)
    | CompactFullOp(force: bool)
    | CrashOp(at: Partial, orphan: Option<seq<Edge>>)

  predicate PrefixOk(created: nat, outputs: nat, deleted: nat, selected: nat) {
    created <= outputs && deleted <= selected && (deleted > 0 ==> created == outputs)
  }

  predicate Enabled(c: Config, s: State, op: Op) {
    match op
    case WriteOp(_, _, _, _) => s.clock < U64_MAX
    case RotateOp => Contents(s, s.active) != []
    case FlushOp(m) => m in s.flushTasks
    case CompactTargetOp(_) => true
    case CompactFullOp(_) => true
    case CrashOp(at, _) => CanCrash(c, s, at)
  }

  /** The process can die with this much of a step done. */
  predicate CanCrash(c: Config, s: State, at: Partial) {
    match at
    case Idle => true
    case InFlush(m, written) => m in s.flushTasks && written <= |FlushSegs(c, s, m)|
    case InTarget(t, created, deleted) =>
      SelectL0(s.version.levels, t) != [] &&
      PrefixOk(created, |TargetOutputs(c, s, t)|, deleted, |Selected(s, t)|)
    case InFull(created, deleted) =>
      LevelAt(s.version.levels, L0) != [] &&
      PrefixOk(created, |FullOutputs(s)|, deleted, |AllInputs(s)|)
  }

  function FilesAtCrash(c: Config, s: State, at: Partial): Files
    requires CanCrash(c, s, at)
  {
    match at
    case Idle => s.files
    case InFlush(m, written) => NewFiles(s.files, L0, FlushSegs(c, s, m)[..written])
    case InTarget(t, created, deleted) =>
      CompactionPrefix(s.files, Selected(s, t), TargetOutputs(c, s, t), created, deleted)
    case InFull(created, deleted) =>
      CompactionPrefix(s.files, AllInputs(s), FullOutputs(s), created, deleted)
  }

  /** A segment may have been written without its manifest record. */
  function WithOrphan(f: Files, orphan: Option<seq<Edge>>): Files {
    if orphan.None? then f else f.(disk := f.disk[f.nextFileId := orphan.value])
  }

  function Reopen(c: Config, f: Files): State {
    var r := Replay(f.manifest);
    State(map[1 := []], 1, 2, [], Version(1, [1], SplitLevels(r.live, c.maxLevels)), r.maxTs,
          f.(nextFileId := r.maxFileId + 1))
  }

  function Init(c: Config): State {
    Reopen(c, Files(map[], [], 1))
  }

  function Step(c: Config, s: State, op: Op): State
    requires Enabled(c, s, op)
  {
    match op
    case WriteOp(src, dst, edgeType, marker) => Write(c, s, NewRecord(s, src, dst, edgeType, marker))
    case RotateOp => Rotate(s)
    case FlushOp(m) => Flush(c, s, m)
    case CompactTargetOp(t) => CompactTarget(c, s, t)
    case CompactFullOp(force) => CompactFull(c, s, force)
    case CrashOp(at, orphan) => Reopen(c, WithOrphan(FilesAtCrash(c, s, at), orphan))
  }

  ghost function StepHistory(c: Config, s: State, h: History, op: Op): History
    requires Enabled(c, s, op)
  {
    match op
    case WriteOp(src, dst, edgeType, marker) => h.(log := h.log + {NewRecord(s, src, dst, edgeType, marker)})
    case RotateOp => h
    case FlushOp(m) => h.(durable := h.durable + Elements(Contents(s, m)))
    case CompactTargetOp(t) =>
      if SelectL0(s.version.levels, t) == [] then h
      else h.(floor := InputFloor(s.files, Selected(s, t), h.floor))
    case CompactFullOp(force) =>
      if !FullCompactionDue(c, s, force) then h
      else h.(floor := InputFloor(s.files, AllInputs(s), h.floor))
    case CrashOp(at, _) => CrashHistory(c, s, h, at)
  }

  /** A crash forgets the records no finished segment write has made durable, and nothing else. */
  ghost function CrashHistory(c: Config, s: State, h: History, at: Partial): History
    requires CanCrash(c, s, at)
  {
    match at
    case Idle => History(h.durable, h.durable, h.floor)
    case InFlush(m, written) =>
      var kept := h.durable + Elements(Flatten(FlushSegs(c, s, m)[..written]));
      History(kept, kept, h.floor)
    case InTarget(t, _, deleted) => History(h.durable, h.durable, PrefixFloor(s.files, Selected(s, t), h.floor, deleted))
    case InFull(_, deleted) => History(h.durable, h.durable, PrefixFloor(s.files, AllInputs(s), h.floor, deleted))
  }

  // --------------------------------------------------------------- invariant

  ghost predicate Ascends(s: seq<Edge>) {
    forall i, j :: 0 <= i < j < |s| ==> s[i].ts < s[j].ts
  }

  ghost predicate MemInv(s: State) {
    && s.active in s.mem && s.active !in s.flushTasks
    && (forall id :: id in s.mem ==> id < s.nextMemId && Ascends(s.mem[id]))
    && (forall id, e :: id in s.mem && e in s.mem[id] ==> 1 <= e.ts <= s.clock)
    && (forall id :: id in s.version.memgraphs <==> id == s.active || id in s.flushTasks)
    && (forall id :: id in s.flushTasks ==> id in s.mem && s.mem[id] != [])
  }

  ghost predicate LevelsMatch(levels: seq<seq<Meta>>, live: seq<Meta>) {
    && |levels| >= 2
    && (forall i, m :: 0 <= i < |levels| && m in levels[i] ==> m in live && m.level == i)
    && (forall m :: m in live ==> m.level < |levels| && m in levels[m.level])
  }

  ghost function MemRecords(s: State): set<Edge> {
    Elements(ReadMem(s.mem, s.version.memgraphs))
  }

  ghost predicate Inv(s: State, h: History) {
    && MemInv(s)
    && LevelsMatch(s.version.levels, Live(s.files))
    && Durable(s.files, h.durable, h.floor)
    && Replay(s.files.manifest).maxTs <= s.clock
    && TsUnique(h.log) && (forall e :: e in h.log ==> 1 <= e.ts <= s.clock)
    && h.log == h.durable + MemRecords(s)
  }
}
