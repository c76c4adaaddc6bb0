/** The disk as bytes: what the segment reader decodes from the files of a store is what the store's records say. */
module DiskImage {
  import opened Types
  import opened Sorting
  import opened Segment
  import opened Merge
  import opened FlushSegments
  import opened Durability
  import opened CsrFormat
  import opened CsrSegment
  import opened Store
  import opened Reads
  import opened Manifests
  import Runs

  /** Bytes of each file by id. */
  type Image = map<nat, seq<byte>>

  /** The file of live metadata `m` holds the bytes the segment writer makes of its records. */
  ghost predicate Written(image: Image, f: Files, m: Meta) {
    m.fileId in f.disk ==>
      && SegmentFits(m.level, m.fileId, f.disk[m.fileId])
      && m.fileId in image && image[m.fileId] == SegmentBytes(m.level, m.fileId, f.disk[m.fileId])
  }

  ghost predicate ImageOf(image: Image, f: Files) {
    forall m :: m in Live(f) ==> Written(image, f, m)
  }

  /** Decodes the records of files in turn; any file that cannot be read fails the whole. */
  function ReadImage(image: Image, metas: seq<Meta>): Option<seq<Edge>> {
    if metas == [] then Some([])
    else
      var n := |metas| - 1;
      var before := ReadImage(image, metas[..n]);
      if before.None? || metas[n].fileId !in image then None
      else
        var edges := AllEdgesIn(image[metas[n].fileId], metas[n]);
        if edges.None? then None else Some(before.value + edges.value)
  }

  lemma {:induction false} LiveFileDecodes(image: Image, f: Files, m: Meta)
    requires FilesValid(f) && ImageOf(image, f) && m in Live(f)
    ensures m.fileId in image && AllEdgesIn(image[m.fileId], m) == Some(RecordsOf(f.disk, m))
    ensures forall src :: NeighborsIn(image[m.fileId], m, src) == Some(Filter(HasSrc(src), RecordsOf(f.disk, m)))
  {
    hide Replay, AllEdgesIn, NeighborsIn, SegmentBytes, SegmentFits, MetaOf;
    assert Written(image, f, m) && FileHolds(f.disk, m);
    AllEdgesRoundTrip(m.level, m.fileId, f.disk[m.fileId]);
    forall src
      ensures NeighborsIn(image[m.fileId], m, src) == Some(Filter(HasSrc(src), RecordsOf(f.disk, m)))
    {
      NeighborsRoundTrip(m.level, m.fileId, f.disk[m.fileId], src);
    }
  }

  lemma {:induction false} ImageReadsFiles(image: Image, f: Files, metas: seq<Meta>)
    requires FilesValid(f) && ImageOf(image, f) && forall m :: m in metas ==> m in Live(f)
    ensures ReadImage(image, metas) == Some(ReadFiles(f.disk, metas))
  {
    hide FilesValid, ImageOf, AllEdgesIn, Live;
    if metas != [] {
      var n := |metas| - 1;
      ImageReadsFiles(image, f, metas[..n]);
      LiveFileDecodes(image, f, metas[n]);
    }
  }

  // ------------------------------------------------------------------- writing

  /** The files of `segments` written under ascending ids from `firstId`. */
  function WriteImage(image: Image, firstId: nat, level: nat, segments: seq<seq<Edge>>): Image {
    if segments == [] then image
    else
      var n := |segments| - 1;
      WriteImage(image, firstId, level, segments[..n])
        [firstId + n := SegmentBytes(level, firstId + n, SortBy(ByKeyTs, segments[n]))]
  }

  /** The files of a batch, written one by one by the segment writer. */
  method WriteFiles(image: Image, firstId: nat, level: nat, segments: seq<seq<Edge>>) returns (out: Image)
    ensures out == WriteImage(image, firstId, level, segments)
  {
    hide SegmentBytes, SortBy;
    out := image;
    for i := 0 to |segments|
      invariant out == WriteImage(image, firstId, level, segments[..i])
    {
      var bytes, meta := WriteSegment(level, firstId + i, segments[i]);
      assert segments[..i + 1][..i] == segments[..i];
      out := out[firstId + i := bytes];
    }
    assert segments[..|segments|] == segments;
  }

  ghost predicate SegmentsFit(firstId: nat, level: nat, segments: seq<seq<Edge>>) {
    forall i :: 0 <= i < |segments| ==> SegmentFits(level, firstId + i, SortBy(ByKeyTs, segments[i]))
  }

  lemma {:induction false} WriteImageAt(image: Image, firstId: nat, level: nat, segments: seq<seq<Edge>>, id: nat)
    ensures var out := WriteImage(image, firstId, level, segments);
            if firstId <= id < firstId + |segments| then
              id in out && out[id] == SegmentBytes(level, id, SortBy(ByKeyTs, segments[id - firstId]))
            else (id in out <==> id in image) && (id in image ==> out[id] == image[id])
  {
    hide SegmentBytes, SortBy;
    if segments != [] {
      WriteImageAt(image, firstId, level, segments[..|segments| - 1], id);
    }
  }

  /** Writing new files keeps the bytes of the live ones and adds those of the new ones. */
  lemma {:induction false} NewFilesImage(image: Image, f: Files, level: nat, segments: seq<seq<Edge>>)
    requires FilesValid(f) && ImageOf(image, f) && SegmentsFit(f.nextFileId, level, segments)
    ensures FilesValid(NewFiles(f, level, segments))
    ensures ImageOf(WriteImage(image, f.nextFileId, level, segments), NewFiles(f, level, segments))
  {
    hide Replay, NewFiles, SegmentBytes, SegmentFits, SortBy, MetaOf, FileHolds, WriteImage;
    var f', image' := NewFiles(f, level, segments), WriteImage(image, f.nextFileId, level, segments);
    NewFilesLive(f, level, segments);
    NewFilesMeaning(f, level, segments);
    forall m | m in Live(f')
      ensures Written(image', f', m)
    {
      WriteImageAt(image, f.nextFileId, level, segments, m.fileId);
      if m in Live(f) {
        assert Written(image, f, m);
      } else {
        var i :| 0 <= i < |segments| && m == MetaOf(level, f.nextFileId + i, SortBy(ByKeyTs, segments[i]));
        MetaNames(level, f.nextFileId + i, SortBy(ByKeyTs, segments[i]));
        assert FileIs(f'.disk, f.nextFileId + i, segments[i]);
      }
    }
  }

  lemma {:induction false} MetaNames(level: nat, fileId: nat, edges: seq<Edge>)
    ensures MetaOf(level, fileId, edges).level == level && MetaOf(level, fileId, edges).fileId == fileId
  {
  }

  /** Fewer live files, and any change to files that are not live, leave an image an image. */
  lemma {:induction false} StillImage(image: Image, f: Files, image': Image, f': Files)
    requires ImageOf(image, f)
    requires forall m :: m in Live(f') ==> m in Live(f)
    requires forall m :: m in Live(f') ==> (m.fileId in f'.disk <==> m.fileId in f.disk)
    requires forall m :: m in Live(f') && m.fileId in f.disk ==> f'.disk[m.fileId] == f.disk[m.fileId]
    requires forall m :: m in Live(f') && m.fileId in image ==> m.fileId in image' && image'[m.fileId] == image[m.fileId]
    ensures ImageOf(image', f')
  {
    hide Live, SegmentBytes, SegmentFits;
    forall m | m in Live(f')
      ensures Written(image', f', m)
    {
      assert Written(image, f, m);
    }
  }

  lemma {:induction false} DeletedImage(image: Image, f: Files, metas: seq<Meta>)
    requires ImageOf(image, f)
    ensures ImageOf(image, DeleteFiles(f, metas))
  {
    hide Replay, ImageOf;
    ReplayDeletions(f.manifest, metas);
    StillImage(image, f, image, DeleteFiles(f, metas));
  }

  /** A file without a manifest record, whatever its bytes, and a reset of the next id change nothing that is read. */
  lemma {:induction false} OrphanImage(image: Image, f: Files, orphan: Option<seq<Edge>>, image': Image, nextId: nat)
    requires FilesValid(f) && ImageOf(image, f)
    requires if orphan.None? then image' == image else image' - {f.nextFileId} == image - {f.nextFileId}
    ensures ImageOf(image', WithOrphan(f, orphan).(nextFileId := nextId))
  {
    hide Replay, ImageOf, FileHolds;
    var f' := WithOrphan(f, orphan).(nextFileId := nextId);
    forall m | m in Live(f') && m.fileId in image
      ensures m.fileId in image' && image'[m.fileId] == image[m.fileId]
    {
      assert m.fileId in image - {f.nextFileId} && (image - {f.nextFileId})[m.fileId] == image[m.fileId];
      assert orphan.Some? ==> m.fileId in image' - {f.nextFileId};
    }
    StillImage(image, f, image', f');
  }

  // ------------------------------------------------------------------------ runs

  /** What a step writes to disk: segments of one level. */
  datatype Batch = Batch(level: nat, segments: seq<seq<Edge>>)

  function BatchOf(c: Config, s: State, op: Op): Batch
    requires Enabled(c, s, op)
  {
    match op
    case WriteOp(_, _, _, _) => Batch(L0, [])
    case RotateOp => Batch(L0, [])
    case FlushOp(m) => Batch(L0, FlushSegs(c, s, m))
    case CompactTargetOp(t) => Batch(L1, if SelectL0(s.version.levels, t) == [] then [] else TargetOutputs(c, s, t))
    case CompactFullOp(force) => Batch(L1, if FullCompactionDue(c, s, force) then FullOutputs(s) else [])
    case CrashOp(at, _) =>
      match at
      case Idle => Batch(L0, [])
      case InFlush(m, written) => Batch(L0, FlushSegs(c, s, m)[..written])
      case InTarget(t, created, _) => Batch(L1, TargetOutputs(c, s, t)[..created])
      case InFull(created, _) => Batch(L1, FullOutputs(s)[..created])
  }

  /** The bytes on disk after a step: its segments written, and at a crash possibly any bytes under the next id. */
  ghost predicate DiskStep(c: Config, s: State, image: Image, op: Op, image': Image)
    requires Enabled(c, s, op)
  {
    var b := BatchOf(c, s, op);
    var firstId := s.files.nextFileId;
    var written := WriteImage(image, firstId, b.level, b.segments);
    var next := firstId + |b.segments|;
    && SegmentsFit(firstId, b.level, b.segments)
    && if op.CrashOp? && op.orphan.Some? then image' - {next} == written - {next} else image' == written
  }

  /** A run of the engine together with the bytes it leaves on disk. */
  ghost predicate RunsOnDisk(c: Config, s: State, h: History, image: Image, ops: seq<Op>, s': State, h': History, image': Image)
    decreases |ops|
  {
    hide Step, StepHistory, Enabled, DiskStep;
    if ops == [] then s == s' && h == h' && image == image'
    else
      && Enabled(c, s, ops[0])
      && exists next: Image :: DiskStep(c, s, image, ops[0], next) &&
           RunsOnDisk(c, Step(c, s, ops[0]), StepHistory(c, s, h, ops[0]), next, ops[1..], s', h', image')
  }

  lemma {:induction false} InvFiles(s: State, h: History)
    requires Inv(s, h)
    ensures FilesValid(s.files)
  {
  }

  lemma {:induction false} CrashImage(c: Config, s: State, h: History, image: Image, at: Partial, orphan: Option<seq<Edge>>, image': Image)
    requires Inv(s, h) && ImageOf(image, s.files) && CanCrash(c, s, at)
    requires DiskStep(c, s, image, CrashOp(at, orphan), image')
    ensures ImageOf(image', Step(c, s, CrashOp(at, orphan)).files)
  {
    hide Inv, ImageOf, FilesValid, Replay, NewFiles, FlushSegs, TargetOutputs, FullOutputs, Selected, AllInputs,
      WriteImage, SegmentsFit, SelectL0;
    var b := BatchOf(c, s, CrashOp(at, orphan));
    var f1 := NewFiles(s.files, b.level, b.segments);
    var written := WriteImage(image, s.files.nextFileId, b.level, b.segments);
    InvFiles(s, h);
    NewFilesImage(image, s.files, b.level, b.segments);
    NewFilesMeaning(s.files, b.level, b.segments);
    assert at.Idle? ==> f1 == s.files by { NothingWritten(s.files, L0); }
    var f := FilesAtCrash(c, s, at);
    var deleted := match at
      case InTarget(t, _, n) => Selected(s, t)[..n]
      case InFull(_, n) => AllInputs(s)[..n]
      case _ => [];
    if at.InTarget? || at.InFull? {
      assert f == DeleteFiles(f1, deleted);
      DeletedImage(written, f1, deleted);
      DeletedValid(f1, deleted);
    }
    OrphanImage(written, f, orphan, image', Replay(f.manifest).maxFileId + 1);
  }

  lemma {:induction false} NothingWritten(f: Files, level: nat)
    ensures NewFiles(f, level, []) == f
  {
  }

  lemma {:induction false} DeletedValid(f: Files, metas: seq<Meta>)
    requires FilesValid(f)
    ensures FilesValid(DeleteFiles(f, metas)) && DeleteFiles(f, metas).nextFileId == f.nextFileId
  {
    hide Replay, FileHolds;
    ReplayDeletions(f.manifest, metas);
  }

  /** Every step, crashes included, leaves bytes on disk that are the image of the live files. */
  lemma {:induction false} StepImage(c: Config, s: State, h: History, image: Image, op: Op, image': Image)
    requires Inv(s, h) && ImageOf(image, s.files) && Enabled(c, s, op) && DiskStep(c, s, image, op, image')
    ensures ImageOf(image', Step(c, s, op).files)
  {
    if op.CrashOp? {
      CrashImage(c, s, h, image, op.at, op.orphan, image');
    } else {
      hide Inv, ImageOf, FilesValid, Replay, NewFiles, FlushSegs, TargetOutputs, FullOutputs, Selected, AllInputs,
        WriteImage, SegmentsFit, SelectL0, TargetLevels, FullLevels, FullCompactionDue, Contents, DeleteFiles;
      var b := BatchOf(c, s, op);
      InvFiles(s, h);
      NewFilesImage(image, s.files, b.level, b.segments);
      NothingWritten(s.files, b.level);
      match op
      case FlushOp(m) => NothingToFlush(c, s, m);
      case CompactTargetOp(t) => DeletedImage(image', NewFiles(s.files, b.level, b.segments), Selected(s, t));
      case CompactFullOp(force) => DeletedImage(image', NewFiles(s.files, b.level, b.segments), AllInputs(s));
      case _ =>
    }
  }

  lemma {:induction false} NothingToFlush(c: Config, s: State, m: nat)
    ensures Contents(s, m) == [] ==> FlushSegs(c, s, m) == []
  {
  }

  /** A run with its bytes is a run, and keeps the invariant and the image. */
  lemma {:induction false} RunImage(c: Config, s: State, h: History, image: Image, ops: seq<Op>, s': State, h': History, image': Image)
    requires Inv(s, h) && ImageOf(image, s.files) && RunsOnDisk(c, s, h, image, ops, s', h', image')
    ensures Runs.Runs(c, s, h, ops, s', h') && Inv(s', h') && ImageOf(image', s'.files)
    decreases |ops|
  {
    hide Inv, ImageOf, Step, StepHistory, Enabled, DiskStep;
    if ops != [] {
      var s1, h1 := Step(c, s, ops[0]), StepHistory(c, s, h, ops[0]);
      var next: Image :| DiskStep(c, s, image, ops[0], next) && RunsOnDisk(c, s1, h1, next, ops[1..], s', h', image');
      Runs.StepInv(c, s, h, ops[0]);
      StepImage(c, s, h, image, ops[0], next);
      RunImage(c, s1, h1, next, ops[1..], s', h', image');
    }
  }

  // --------------------------------------------------------------------- reading

  /** A scan that decodes the live segments from their bytes and merges them with the MemGraphs. */
  function ScanImage(s: State, image: Image, snapshot: nat): Option<seq<Edge>> {
    var files := ReadImage(image, Flatten(s.version.levels));
    if files.None? then None else Some(MergeVisible(ReadMem(s.mem, s.version.memgraphs) + files.value, snapshot))
  }

  /** Decodes the records of one source from files in turn. */
  function ReadNeighbors(image: Image, metas: seq<Meta>, src: u64): Option<seq<Edge>> {
    if metas == [] then Some([])
    else
      var n := |metas| - 1;
      var before := ReadNeighbors(image, metas[..n], src);
      if before.None? || metas[n].fileId !in image then None
      else
        var edges := NeighborsIn(image[metas[n].fileId], metas[n], src);
        if edges.None? then None else Some(before.value + edges.value)
  }

  /** A lookup that decodes the source's records from the bytes of every live segment. */
  function LookupImage(s: State, image: Image, src: u64, edgeType: Option<i32>, snapshot: nat): Option<seq<Edge>> {
    var files := ReadNeighbors(image, Flatten(s.version.levels), src);
    if files.None? then None
    else Some(MergeVisible(Filter(Matching(src, edgeType), ReadMem(s.mem, s.version.memgraphs) + files.value), snapshot))
  }

  lemma {:induction false} ImageReadsNeighbors(image: Image, f: Files, metas: seq<Meta>, src: u64)
    requires FilesValid(f) && ImageOf(image, f) && forall m :: m in metas ==> m in Live(f)
    ensures ReadNeighbors(image, metas, src) == Some(Filter(HasSrc(src), ReadFiles(f.disk, metas)))
  {
    hide FilesValid, ImageOf, NeighborsIn, AllEdgesIn, Live, Filter, RecordsOf;
    if metas == [] {
      assert Filter(HasSrc(src), []) == [] by { FilterNone(HasSrc(src), []); }
    } else {
      var n := |metas| - 1;
      ImageReadsNeighbors(image, f, metas[..n], src);
      LiveFileDecodes(image, f, metas[n]);
      FilterAppend(HasSrc(src), ReadFiles(f.disk, metas[..n]), RecordsOf(f.disk, metas[n]));
    }
  }

  lemma {:induction false} LevelsAreLive(s: State, h: History)
    requires Inv(s, h)
    ensures forall m :: m in Flatten(s.version.levels) ==> m in Live(s.files)
  {
    hide Inv, Live, Flatten;
    forall m | m in Flatten(s.version.levels)
      ensures m in Live(s.files)
    {
      Runs.LevelsHoldLive(s, h, m);
    }
  }

  lemma {:induction false} LookupDecodes(s: State, h: History, image: Image, src: u64, edgeType: Option<i32>, snapshot: nat)
    requires Inv(s, h) && ImageOf(image, s.files)
    ensures LookupImage(s, image, src, edgeType, snapshot) == Some(NeighborsSpec(s, src, edgeType, snapshot))
  {
    hide Inv, ImageOf, FilesValid, ReadNeighbors, NeighborsSpec, MergeVisible, ReadMem, ReadFiles, Flatten, Filter, Live;
    var metas := Flatten(s.version.levels);
    InvFiles(s, h);
    LevelsAreLive(s, h);
    ImageReadsNeighbors(image, s.files, metas, src);
    var mem, files := ReadMem(s.mem, s.version.memgraphs), ReadFiles(s.files.disk, metas);
    var found := Filter(Matching(src, edgeType), mem + Filter(HasSrc(src), files));
    forall e
      ensures e in found <==> Matches(e, src, edgeType) && e in ScanInput(s.mem, s.files.disk, s.version)
    {
      InFilter(Matching(src, edgeType), mem + Filter(HasSrc(src), files), e);
      InFilter(HasSrc(src), files, e);
    }
    LookupIsScan(s, h, found, src, edgeType, snapshot);
  }

  /**
   * After any run from an empty disk, crashes included, a scan over the bytes on disk is the view of the surviving log,
   * and a lookup over the bytes is the scan filtered by source and type.
   */
  lemma {:induction false} EveryRunReadsItsBytes(c: Config, ops: seq<Op>, s: State, h: History, image: Image, snapshot: nat)
    requires RunsOnDisk(c, Init(c), History({}, {}, 0), map[], ops, s, h, image) && h.floor <= snapshot
    ensures ScanImage(s, image, snapshot).Some? && Elements(ScanImage(s, image, snapshot).value) == View(h.log, snapshot)
    ensures forall src: u64, edgeType: Option<i32> ::
              LookupImage(s, image, src, edgeType, snapshot) ==
              Some(Filter(Matching(src, edgeType), ScanImage(s, image, snapshot).value))
  {
    hide ImageOf, View, MergeVisible, ReadImage, ReadFiles, ReadMem, Flatten, RunsOnDisk, LookupImage, Inv, FilesValid,
      Filter, Init;
    Runs.InitInv(c);
    assert ImageOf(map[], Init(c).files) by { NothingLive(c); }
    RunImage(c, Init(c), History({}, {}, 0), map[], ops, s, h, image);
    Runs.ScanIsView(s, h, snapshot);
    InvFiles(s, h);
    LevelsAreLive(s, h);
    ImageReadsFiles(image, s.files, Flatten(s.version.levels));
    forall src: u64, edgeType: Option<i32>
      ensures LookupImage(s, image, src, edgeType, snapshot) ==
              Some(Filter(Matching(src, edgeType), ScanImage(s, image, snapshot).value))
    {
      LookupDecodes(s, h, image, src, edgeType, snapshot);
    }
  }

  lemma {:induction false} NothingLive(c: Config)
    ensures ImageOf(map[], Init(c).files)
  {
    assert Live(Files(map[], [], 1)) == [];
  }
}
