/** Segment files and the manifest: what a crash leaves, whatever prefix of a step reached the disk. */
module Durability {
  import opened Types
  import opened Sorting
  import opened Merge
  import opened Segment
  import opened Manifests

  /** Files are immutable sorted record lists by id; a deleted file stays on disk, only the log forgets it. */
  datatype Files = Files(disk: map<nat, seq<Edge>>, manifest: seq<ManifestRecord>, nextFileId: nat)

  function RecordsOf(disk: map<nat, seq<Edge>>, m: Meta): seq<Edge> {
    if m.fileId in disk then disk[m.fileId] else []
  }

  function ReadFiles(disk: map<nat, seq<Edge>>, metas: seq<Meta>): seq<Edge> {
    if metas == [] then []
    else
      var n := |metas| - 1;
      ReadFiles(disk, metas[..n]) + RecordsOf(disk, metas[n])
  }

  /** Writes one segment and appends its record to the manifest. */
  function NewFile(f: Files, level: nat, edges: seq<Edge>): Files {
    var sorted := SortBy(ByKeyTs, edges);
    Files(f.disk[f.nextFileId := sorted],
          f.manifest + [CreateFile(MetaOf(level, f.nextFileId, sorted))],
          f.nextFileId + 1)
  }

  function NewFiles(f: Files, level: nat, segments: seq<seq<Edge>>): Files {
    if segments == [] then f
    else
      var n := |segments| - 1;
      NewFile(NewFiles(f, level, segments[..n]), level, segments[n])
  }

  function NewMetas(firstId: nat, level: nat, segments: seq<seq<Edge>>): seq<Meta> {
    seq(|segments|, i requires 0 <= i < |segments| => MetaOf(level, firstId + i, SortBy(ByKeyTs, segments[i])))
  }

  function DeleteFiles(f: Files, metas: seq<Meta>): Files {
    f.(manifest := f.manifest + Deletions(metas))
  }

  function Live(f: Files): seq<Meta> {
    Replay(f.manifest).live
  }

  // ------------------------------------------------------------ the invariant

  ghost predicate FileHolds(disk: map<nat, seq<Edge>>, m: Meta) {
    && m.fileId in disk
    && SortedBy(ByKeyTs, disk[m.fileId])
    && m == MetaOf(m.level, m.fileId, disk[m.fileId])
  }

  /** Every live file is on disk under its own metadata, and the next id is unused in the log. */
  ghost predicate FilesValid(f: Files) {
    && Replay(f.manifest).maxFileId < f.nextFileId
    && (forall m :: m in Live(f) ==> FileHolds(f.disk, m) && m.fileId <= Replay(f.manifest).maxFileId)
  }

  ghost predicate LiveRecord(f: Files, e: Edge) {
    exists m :: m in Live(f) && e in RecordsOf(f.disk, m)
  }

  ghost function LiveRecords(f: Files): set<Edge> {
    Elements(ReadFiles(f.disk, Live(f)))
  }

  /** The live files cover the durable records from the floor on, and replay recovers a clock above them. */
  ghost predicate Durable(f: Files, durable: set<Edge>, floor: nat) {
    && FilesValid(f)
    && TsUnique(durable)
    && (forall e :: e in durable ==> 1 <= e.ts <= Replay(f.manifest).maxTs)
    && floor <= Replay(f.manifest).maxTs
    && Covers(LiveRecords(f), durable, floor)
  }

  lemma {:induction false} InReadFiles(disk: map<nat, seq<Edge>>, metas: seq<Meta>, e: Edge)
    ensures e in ReadFiles(disk, metas) <==> exists m :: m in metas && e in RecordsOf(disk, m)
  {
    if metas != [] {
      var n := |metas| - 1;
      InReadFiles(disk, metas[..n], e);
      assert forall m :: m in metas <==> m in metas[..n] || m == metas[n];
    }
  }

  lemma {:induction false} InLiveRecords(f: Files, e: Edge)
    ensures e in LiveRecords(f) <==> LiveRecord(f, e)
  {
    InReadFiles(f.disk, Live(f), e);
  }

  // ------------------------------------------------------------ adding files

  ghost predicate FileIs(disk: map<nat, seq<Edge>>, id: nat, edges: seq<Edge>) {
    id in disk && disk[id] == SortBy(ByKeyTs, edges)
  }

  lemma {:induction false} CreationsPush(manifest: seq<ManifestRecord>, metas: seq<Meta>, m: Meta)
    ensures (manifest + Creations(metas)) + [CreateFile(m)] == manifest + Creations(metas + [m])
  {
    assert Creations(metas + [m]) == Creations(metas) + [CreateFile(m)];
  }

  lemma {:induction false} NewMetasPush(firstId: nat, level: nat, segments: seq<seq<Edge>>)
    requires segments != []
    ensures var n := |segments| - 1;
            NewMetas(firstId, level, segments) ==
            NewMetas(firstId, level, segments[..n]) + [MetaOf(level, firstId + n, SortBy(ByKeyTs, segments[n]))]
  {
    hide MetaOf, SortBy;
  }

  lemma {:induction false} NewFilesMeaning(f: Files, level: nat, segments: seq<seq<Edge>>)
    ensures var f' := NewFiles(f, level, segments);
            && f'.manifest == f.manifest + Creations(NewMetas(f.nextFileId, level, segments))
            && f'.nextFileId == f.nextFileId + |segments|
            && (forall id :: id < f.nextFileId ==> (id in f'.disk <==> id in f.disk))
            && (forall id :: id < f.nextFileId && id in f.disk ==> f'.disk[id] == f.disk[id])
            && (forall i {:trigger segments[i]} :: 0 <= i < |segments| ==> FileIs(f'.disk, f.nextFileId + i, segments[i]))
  {
    hide SortBy, MetaOf, NewMetas, Creations;
    if segments == [] {
      NoCreations(f, level);
    } else {
      var n := |segments| - 1;
      NewFilesMeaning(f, level, segments[..n]);
      NewMetasPush(f.nextFileId, level, segments);
      CreationsPush(f.manifest, NewMetas(f.nextFileId, level, segments[..n]),
                    MetaOf(level, f.nextFileId + n, SortBy(ByKeyTs, segments[n])));
      forall i {:trigger segments[i]} | 0 <= i < |segments|
        ensures FileIs(NewFiles(f, level, segments).disk, f.nextFileId + i, segments[i])
      {
        assert i < n ==> segments[..n][i] == segments[i];
      }
    }
  }

  lemma {:induction false} NoCreations(f: Files, level: nat)
    ensures f.manifest + Creations(NewMetas(f.nextFileId, level, [])) == f.manifest
  {
  }

  /** Replay after writing segments: the live set grows by exactly their metadata. */
  lemma {:induction false} NewFilesLive(f: Files, level: nat, segments: seq<seq<Edge>>)
    requires FilesValid(f)
    ensures var f' := NewFiles(f, level, segments);
            && Added(Replay(f.manifest), Replay(f'.manifest), NewMetas(f.nextFileId, level, segments))
            && FilesValid(f')
  {
    hide Replay, NewFiles, MetaOf, SortBy, FileHolds;
    var f' := NewFiles(f, level, segments);
    var metas := NewMetas(f.nextFileId, level, segments);
    NewFilesMeaning(f, level, segments);
    MetaIds(f.nextFileId, level, segments);
    ReplayCreations(f.manifest, metas);
    forall m | m in Live(f')
      ensures FileHolds(f'.disk, m)
    {
      if i :| 0 <= i < |metas| && metas[i] == m {
        assert FileIs(f'.disk, f.nextFileId + i, segments[i]);
        NewFileHolds(f'.disk, level, f.nextFileId + i, segments[i]);
      } else {
        AddedFrom(Replay(f.manifest), Replay(f'.manifest), metas, m);
        FileStays(f.disk, f'.disk, m);
      }
    }
  }

  lemma {:induction false} FileStays(disk: map<nat, seq<Edge>>, disk': map<nat, seq<Edge>>, m: Meta)
    requires FileHolds(disk, m)
    requires m.fileId in disk ==> m.fileId in disk' && disk'[m.fileId] == disk[m.fileId]
    ensures FileHolds(disk', m)
  {
  }

  lemma {:induction false} MetaIds(firstId: nat, level: nat, segments: seq<seq<Edge>>)
    ensures var metas := NewMetas(firstId, level, segments);
            forall i :: 0 <= i < |metas| ==> metas[i].fileId == firstId + i && metas[i].level == level
  {
  }

  lemma {:induction false} NewFileHolds(disk: map<nat, seq<Edge>>, level: nat, id: nat, edges: seq<Edge>)
    requires FileIs(disk, id, edges)
    ensures FileHolds(disk, MetaOf(level, id, SortBy(ByKeyTs, edges)))
  {
    assert TotalPreorder(ByKeyTs);
    SortBySorted(ByKeyTs, edges);
  }

  lemma {:induction false} OldRecordsStay(f: Files, level: nat, segments: seq<seq<Edge>>, e: Edge)
    requires FilesValid(f) && e in LiveRecords(f)
    ensures e in LiveRecords(NewFiles(f, level, segments))
  {
    hide Replay, MetaOf, SortBy, NewFiles;
    var f' := NewFiles(f, level, segments);
    NewFilesMeaning(f, level, segments);
    NewFilesLive(f, level, segments);
    InLiveRecords(f, e);
    InLiveRecords(f', e);
    var m :| m in Live(f) && e in RecordsOf(f.disk, m);
    assert m in Live(f') && e in RecordsOf(f'.disk, m);
  }

  lemma {:induction false} NewRecordLive(f: Files, level: nat, segments: seq<seq<Edge>>, e: Edge) returns (m: Meta)
    requires e in Flatten(segments)
    ensures m in NewMetas(f.nextFileId, level, segments) && e in RecordsOf(NewFiles(f, level, segments).disk, m)
  {
    hide NewFiles, MetaOf, SortBy;
    NewFilesMeaning(f, level, segments);
    MetaIds(f.nextFileId, level, segments);
    InFlatten(segments, e);
    var i :| 0 <= i < |segments| && e in segments[i];
    SortByElements(ByKeyTs, segments[i]);
    m := NewMetas(f.nextFileId, level, segments)[i];
  }

  lemma {:induction false} LiveRecordFrom(f: Files, level: nat, segments: seq<seq<Edge>>, e: Edge)
    requires FilesValid(f) && e in LiveRecords(NewFiles(f, level, segments))
    ensures e in LiveRecords(f) || e in Flatten(segments)
  {
    hide Replay, MetaOf, SortBy, NewFiles, LiveRecords, Flatten, Added, Creations;
    var f' := NewFiles(f, level, segments);
    NewFilesMeaning(f, level, segments);
    NewFilesLive(f, level, segments);
    InLiveRecords(f', e);
    var m :| m in Live(f') && e in RecordsOf(f'.disk, m);
    if i :| 0 <= i < |segments| && NewMetas(f.nextFileId, level, segments)[i] == m {
      MetaIds(f.nextFileId, level, segments);
      assert FileIs(f'.disk, f.nextFileId + i, segments[i]);
      SortByElements(ByKeyTs, segments[i]);
      InFlatten(segments, e);
    } else {
      AddedFrom(Replay(f.manifest), Replay(f'.manifest), NewMetas(f.nextFileId, level, segments), m);
      assert m in Live(f) && e in RecordsOf(f.disk, m);
      InLiveRecords(f, e);
    }
  }

  lemma {:induction false} AddedFrom(r: Replaying, r': Replaying, metas: seq<Meta>, m: Meta)
    requires Added(r, r', metas) && m in r'.live
    ensures m in r.live || exists i :: 0 <= i < |metas| && metas[i] == m
  {
  }

  lemma {:induction false} NewFilesRecords(f: Files, level: nat, segments: seq<seq<Edge>>)
    requires FilesValid(f)
    ensures LiveRecords(NewFiles(f, level, segments)) == LiveRecords(f) + Elements(Flatten(segments))
  {
    hide LiveRecords;
    var f' := NewFiles(f, level, segments);
    NewFilesLive(f, level, segments);
    forall e
      ensures e in LiveRecords(f') <==> e in LiveRecords(f) || e in Flatten(segments)
    {
      if e in LiveRecords(f') {
        LiveRecordFrom(f, level, segments, e);
      }
      if e in LiveRecords(f) {
        OldRecordsStay(f, level, segments, e);
      }
      if e in Flatten(segments) {
        var m := NewRecordLive(f, level, segments, e);
        assert m in Live(f') && e in RecordsOf(f'.disk, m);
        InLiveRecords(f', e);
      }
    }
  }

  lemma {:induction false} NewMetaTs(firstId: nat, level: nat, segments: seq<seq<Edge>>, i: nat, e: Edge)
    requires i < |segments| && e in segments[i]
    ensures e.ts <= NewMetas(firstId, level, segments)[i].maxTs
  {
    hide SortBy, SegmentLabel, SegmentType, MinTs, Offsets;
    SortByElements(ByKeyTs, segments[i]);
  }

  lemma {:induction false} NewMetaTsBound(firstId: nat, level: nat, segments: seq<seq<Edge>>, m: Meta, clock: nat)
    requires m in NewMetas(firstId, level, segments)
    requires forall e :: e in Flatten(segments) ==> e.ts <= clock
    ensures m.maxTs <= clock
  {
    hide SortBy, SegmentLabel, SegmentType, MinTs, Offsets, Flatten;
    var i :| 0 <= i < |segments| && NewMetas(firstId, level, segments)[i] == m;
    SortByElements(ByKeyTs, segments[i]);
    if SortBy(ByKeyTs, segments[i]) != [] {
      var e :| e in SortBy(ByKeyTs, segments[i]) && e.ts == MaxTs(SortBy(ByKeyTs, segments[i]));
      InFlatten(segments, e);
    }
  }

  lemma {:induction false} NewFilesClock(f: Files, level: nat, segments: seq<seq<Edge>>, clock: nat)
    requires FilesValid(f) && Replay(f.manifest).maxTs <= clock
    requires forall e :: e in Flatten(segments) ==> e.ts <= clock
    ensures var f' := NewFiles(f, level, segments);
            && Replay(f.manifest).maxTs <= Replay(f'.manifest).maxTs <= clock
            && forall e :: e in Flatten(segments) ==> e.ts <= Replay(f'.manifest).maxTs
  {
    hide Replay, NewFiles, NewMetas, Flatten, FilesValid;
    var f' := NewFiles(f, level, segments);
    var metas := NewMetas(f.nextFileId, level, segments);
    NewFilesLive(f, level, segments);
    forall m | m in metas
      ensures m.maxTs <= clock
    {
      NewMetaTsBound(f.nextFileId, level, segments, m, clock);
    }
    forall e | e in Flatten(segments)
      ensures e.ts <= Replay(f'.manifest).maxTs
    {
      InFlatten(segments, e);
      var i :| 0 <= i < |segments| && e in segments[i];
      NewMetaTs(f.nextFileId, level, segments, i, e);
      MetaCount(f.nextFileId, level, segments);
      assert metas[i] in metas;
    }
  }

  lemma {:induction false} MetaCount(firstId: nat, level: nat, segments: seq<seq<Edge>>)
    ensures |NewMetas(firstId, level, segments)| == |segments|
  {
  }

  /** A flush, cut short after any number of segments: exactly their records become durable. */
  lemma {:induction false} FlushIsDurable(f: Files, durable: set<Edge>, floor: nat, segments: seq<seq<Edge>>, clock: nat)
    requires Durable(f, durable, floor) && Replay(f.manifest).maxTs <= clock
    requires forall e :: e in Flatten(segments) ==> 1 <= e.ts <= clock
    requires TsUnique(durable + Elements(Flatten(segments)))
    ensures Durable(NewFiles(f, L0, segments), durable + Elements(Flatten(segments)), floor)
  {
    hide Replay, NewFiles;
    NewFilesLive(f, L0, segments);
    NewFilesRecords(f, L0, segments);
    NewFilesClock(f, L0, segments, clock);
    CoversBeside(LiveRecords(f), durable, Elements(Flatten(segments)), floor);
  }

  // -------------------------------------------------------------- compaction

  /** The manifest part of a compaction, after `created` outputs and `deleted` inputs were logged. */
  function CompactionPrefix(f: Files, selected: seq<Meta>, outputs: seq<seq<Edge>>, created: nat, deleted: nat): Files
    requires created <= |outputs| && deleted <= |selected|
  {
    DeleteFiles(NewFiles(f, L1, outputs[..created]), selected[..deleted])
  }

  lemma {:induction false} CoversMore(stored: set<Edge>, more: set<Edge>, log: set<Edge>, floor: nat)
    requires Covers(stored, log, floor) && stored <= more <= log
    ensures Covers(more, log, floor)
  {
  }

  lemma {:induction false} FlattenPrefix<T>(ss: seq<seq<T>>, k: nat)
    requires k <= |ss|
    ensures Flatten(ss) == Flatten(ss[..k]) + Flatten(ss[k..])
  {
    assert ss == ss[..k] + ss[k..];
    FlattenAppend(ss[..k], ss[k..]);
  }

  /** Files left live by a compaction prefix: all but the deleted ones, and the outputs created so far. */
  lemma {:induction false} PrefixLive(f: Files, selected: seq<Meta>, outputs: seq<seq<Edge>>, created: nat, deleted: nat)
    requires FilesValid(f) && (forall m :: m in selected ==> m in Live(f))
    requires created <= |outputs| && deleted <= |selected|
    ensures var f' := CompactionPrefix(f, selected, outputs, created, deleted);
            && FilesValid(f')
            && (forall m :: m in Live(f') <==>
                  (m in Live(f) && m !in selected[..deleted]) || m in NewMetas(f.nextFileId, L1, outputs[..created]))
            && Replay(f'.manifest).maxTs == Replay(NewFiles(f, L1, outputs[..created]).manifest).maxTs
  {
    hide Replay, NewFiles, MetaOf, SortBy, LiveRemove;
    var f1 := NewFiles(f, L1, outputs[..created]);
    NewFilesLive(f, L1, outputs[..created]);
    MetaIds(f.nextFileId, L1, outputs[..created]);
    ReplayDeletions(f1.manifest, selected[..deleted]);
    ReplayAscends(f.manifest);
    assert forall m :: m in selected[..deleted] ==> m in Live(f);
    forall m, d | m in Live(f) && d in Live(f) && m.fileId == d.fileId
      ensures m == d
    {
      AscendingUnique(Live(f), m, d);
    }
  }

  lemma {:induction false} PrefixRecordFrom(f: Files, selected: seq<Meta>, outputs: seq<seq<Edge>>, created: nat, deleted: nat, e: Edge)
    requires FilesValid(f) && (forall m :: m in selected ==> m in Live(f))
    requires created <= |outputs| && deleted <= |selected|
    requires e in LiveRecords(CompactionPrefix(f, selected, outputs, created, deleted))
    ensures e in LiveRecords(f) || e in Flatten(outputs[..created])
  {
    hide Replay, MetaOf, SortBy, NewFiles, LiveRecords, Flatten;
    var f1 := NewFiles(f, L1, outputs[..created]);
    var f2 := CompactionPrefix(f, selected, outputs, created, deleted);
    PrefixLive(f, selected, outputs, created, deleted);
    PrefixLive(f, selected, outputs, created, 0);
    PrefixNothingDeleted(f, selected, outputs, created);
    InLiveRecords(f2, e);
    var m :| m in Live(f2) && e in RecordsOf(f2.disk, m);
    assert m in Live(f1);
    InLiveRecords(f1, e);
    LiveRecordFrom(f, L1, outputs[..created], e);
  }

  lemma {:induction false} PrefixKeepsOutput(f: Files, selected: seq<Meta>, outputs: seq<seq<Edge>>, created: nat, deleted: nat, e: Edge)
    requires FilesValid(f) && (forall m :: m in selected ==> m in Live(f))
    requires created <= |outputs| && deleted <= |selected| && e in Flatten(outputs[..created])
    ensures e in LiveRecords(CompactionPrefix(f, selected, outputs, created, deleted))
  {
    hide Replay, MetaOf, SortBy, NewFiles, LiveRecords, Flatten;
    var f2 := CompactionPrefix(f, selected, outputs, created, deleted);
    PrefixLive(f, selected, outputs, created, deleted);
    var m := NewRecordLive(f, L1, outputs[..created], e);
    assert m in Live(f2) && e in RecordsOf(f2.disk, m);
    InLiveRecords(f2, e);
  }

  lemma {:induction false} PrefixKeepsRest(f: Files, selected: seq<Meta>, outputs: seq<seq<Edge>>, created: nat, deleted: nat, e: Edge)
    requires FilesValid(f) && (forall m :: m in selected ==> m in Live(f))
    requires created <= |outputs| && deleted <= |selected|
    requires e in LiveRecords(f) && e !in ReadFiles(f.disk, selected[..deleted])
    ensures e in LiveRecords(CompactionPrefix(f, selected, outputs, created, deleted))
  {
    hide Replay, MetaOf, SortBy, NewFiles, LiveRecords, Flatten;
    var f2 := CompactionPrefix(f, selected, outputs, created, deleted);
    PrefixLive(f, selected, outputs, created, deleted);
    NewFilesMeaning(f, L1, outputs[..created]);
    InLiveRecords(f, e);
    InReadFiles(f.disk, selected[..deleted], e);
    var m :| m in Live(f) && e in RecordsOf(f.disk, m);
    assert m in Live(f2) && e in RecordsOf(f2.disk, m);
    InLiveRecords(f2, e);
  }

  lemma {:induction false} PrefixRecords(f: Files, selected: seq<Meta>, outputs: seq<seq<Edge>>, created: nat, deleted: nat)
    requires FilesValid(f) && (forall m :: m in selected ==> m in Live(f))
    requires created <= |outputs| && deleted <= |selected|
    ensures var after := LiveRecords(CompactionPrefix(f, selected, outputs, created, deleted));
            && after <= LiveRecords(f) + Elements(Flatten(outputs[..created]))
            && Elements(Flatten(outputs[..created])) <= after
            && (forall e :: e in LiveRecords(f) && e !in ReadFiles(f.disk, selected[..deleted]) ==> e in after)
  {
    hide FilesValid, LiveRecords, CompactionPrefix, Flatten, ReadFiles;
    var after := LiveRecords(CompactionPrefix(f, selected, outputs, created, deleted));
    forall e
      ensures e in after ==> e in LiveRecords(f) || e in Flatten(outputs[..created])
      ensures e in Flatten(outputs[..created]) ==> e in after
      ensures e in LiveRecords(f) && e !in ReadFiles(f.disk, selected[..deleted]) ==> e in after
    {
      if e in after {
        PrefixRecordFrom(f, selected, outputs, created, deleted, e);
      }
      if e in Flatten(outputs[..created]) {
        PrefixKeepsOutput(f, selected, outputs, created, deleted, e);
      }
      if e in LiveRecords(f) && e !in ReadFiles(f.disk, selected[..deleted]) {
        PrefixKeepsRest(f, selected, outputs, created, deleted, e);
      }
    }
  }

  lemma {:induction false} PrefixNothingDeleted(f: Files, selected: seq<Meta>, outputs: seq<seq<Edge>>, created: nat)
    requires created <= |outputs|
    ensures CompactionPrefix(f, selected, outputs, created, 0) == NewFiles(f, L1, outputs[..created])
  {
    var f1 := NewFiles(f, L1, outputs[..created]);
    assert f1.manifest + Deletions([]) == f1.manifest;
  }

  /** The records a compaction writes are the latest ones of what it read. */
  ghost predicate CompactionOf(f: Files, selected: seq<Meta>, outputs: seq<seq<Edge>>, snapshot: nat) {
    && (forall m :: m in selected ==> m in Live(f))
    && Elements(Flatten(outputs)) == Elements(MergeLatest(ReadFiles(f.disk, selected), snapshot, true))
  }

  /** Highest timestamp among the inputs: from there on a compaction changes no view. */
  function InputFloor(f: Files, selected: seq<Meta>, floor: nat): nat {
    Max(floor, MaxTs(ReadFiles(f.disk, selected)))
  }

  /** Until an input is logged as deleted, all inputs are still live and the floor stays. */
  function PrefixFloor(f: Files, selected: seq<Meta>, floor: nat, deleted: nat): nat {
    if deleted == 0 then floor else InputFloor(f, selected, floor)
  }

  lemma {:induction false} NoInputsNoRise(f: Files, floor: nat)
    ensures InputFloor(f, [], floor) == floor
  {
  }

  lemma {:induction false} SelectedAreLive(f: Files, selected: seq<Meta>, e: Edge)
    requires (forall m :: m in selected ==> m in Live(f)) && e in ReadFiles(f.disk, selected)
    ensures e in LiveRecords(f)
  {
    InReadFiles(f.disk, selected, e);
    InLiveRecords(f, e);
  }

  lemma {:induction false} SelectedAreDurable(f: Files, durable: set<Edge>, floor: nat, selected: seq<Meta>)
    requires Durable(f, durable, floor) && forall m :: m in selected ==> m in Live(f)
    ensures Elements(ReadFiles(f.disk, selected)) <= LiveRecords(f) <= durable
    ensures forall e :: e in durable ==> e.ts <= Replay(f.manifest).maxTs
  {
    hide Replay, ReadFiles, LiveRecords, FilesValid;
    forall e | e in ReadFiles(f.disk, selected)
      ensures e in LiveRecords(f)
    {
      SelectedAreLive(f, selected, e);
    }
  }

  lemma {:induction false} MergedPlusRest(inputs: seq<Edge>, merged: set<Edge>, live: set<Edge>, after: set<Edge>)
    requires Elements(inputs) <= live && merged <= after <= live + merged && merged <= Elements(inputs)
    requires forall e :: e in live && e !in inputs ==> e in after
    ensures merged + after == after && Elements(inputs) + after == live
  {
  }

  lemma {:induction false} CompactionCoversDurable(f: Files, durable: set<Edge>, floor: nat, selected: seq<Meta>, outputs: seq<seq<Edge>>,
                                snapshot: nat, after: set<Edge>)
    requires Durable(f, durable, floor) && Replay(f.manifest).maxTs <= snapshot
    requires CompactionOf(f, selected, outputs, snapshot)
    requires Elements(Flatten(outputs)) <= after <= LiveRecords(f) + Elements(Flatten(outputs))
    requires forall e :: e in LiveRecords(f) && e !in ReadFiles(f.disk, selected) ==> e in after
    ensures Covers(after, durable, InputFloor(f, selected, floor))
  {
    SelectedAreDurable(f, durable, floor, selected);
    hide Replay, LiveRecords, FilesValid, ReadFiles, MergeLatest, Covers, LatestAt;
    var inputs := ReadFiles(f.disk, selected);
    var merged := Elements(MergeLatest(inputs, snapshot, true));
    assert TsUnique(Elements(inputs)) by { assert Elements(inputs) <= durable; }
    assert forall e :: e in inputs ==> e in Elements(inputs);
    assert MaxTs(inputs) <= snapshot;
    CompactionCovers(inputs, snapshot, MaxTs(inputs));
    assert merged <= Elements(inputs) by { CoversIsSubset(merged, Elements(inputs), MaxTs(inputs)); }
    CoversBeside(merged, Elements(inputs), after, MaxTs(inputs));
    MergedPlusRest(inputs, merged, LiveRecords(f), after);
    CoversTrans(after, LiveRecords(f), durable, MaxTs(inputs), floor);
  }

  lemma {:induction false} CoversIsSubset(stored: set<Edge>, log: set<Edge>, floor: nat)
    requires Covers(stored, log, floor)
    ensures stored <= log
  {
  }

  lemma {:induction false} OutputsAreLive(f: Files, durable: set<Edge>, floor: nat, selected: seq<Meta>, outputs: seq<seq<Edge>>,
                       snapshot: nat, e: Edge)
    requires Durable(f, durable, floor) && CompactionOf(f, selected, outputs, snapshot)
    requires e in Flatten(outputs)
    ensures e in LiveRecords(f) && e.ts <= Replay(f.manifest).maxTs
  {
    hide Replay;
    var inputs := ReadFiles(f.disk, selected);
    MergeInputsUnique(f, durable, floor, selected);
    MergeLatestMeaning(inputs, snapshot, true);
    assert e in Elements(Flatten(outputs));
    SelectedAreLive(f, selected, e);
    assert e in durable;
  }

  lemma {:induction false} PrefixClock(f: Files, durable: set<Edge>, floor: nat, selected: seq<Meta>, outputs: seq<seq<Edge>>,
                    snapshot: nat, created: nat)
    requires Durable(f, durable, floor) && CompactionOf(f, selected, outputs, snapshot)
    requires created <= |outputs|
    ensures Elements(Flatten(outputs[..created])) <= LiveRecords(f)
    ensures Replay(NewFiles(f, L1, outputs[..created]).manifest).maxTs == Replay(f.manifest).maxTs
  {
    hide Replay, NewFiles, LiveRecords;
    FlattenPrefix(outputs, created);
    forall e | e in Flatten(outputs[..created])
      ensures e in LiveRecords(f) && e.ts <= Replay(f.manifest).maxTs
    {
      OutputsAreLive(f, durable, floor, selected, outputs, snapshot, e);
    }
    NewFilesClock(f, L1, outputs[..created], Replay(f.manifest).maxTs);
  }

  lemma {:induction false} InputFloorBound(f: Files, durable: set<Edge>, floor: nat, selected: seq<Meta>)
    requires Durable(f, durable, floor) && forall m :: m in selected ==> m in Live(f)
    ensures floor <= InputFloor(f, selected, floor) <= Replay(f.manifest).maxTs
  {
    forall e | e in ReadFiles(f.disk, selected)
      ensures e in durable
    {
      SelectedAreLive(f, selected, e);
    }
  }

  /** Crash safety of compaction: any prefix keeps every durable view from the floor on, which rises with the first deletion. */
  lemma {:induction false} CompactionPrefixIsDurable(f: Files, durable: set<Edge>, floor: nat, selected: seq<Meta>,
                                  outputs: seq<seq<Edge>>, snapshot: nat, created: nat, deleted: nat)
    requires Durable(f, durable, floor) && Replay(f.manifest).maxTs <= snapshot
    requires CompactionOf(f, selected, outputs, snapshot)
    requires created <= |outputs| && deleted <= |selected| && (deleted > 0 ==> created == |outputs|)
    ensures Durable(CompactionPrefix(f, selected, outputs, created, deleted), durable, PrefixFloor(f, selected, floor, deleted))
    ensures Replay(CompactionPrefix(f, selected, outputs, created, deleted).manifest).maxTs == Replay(f.manifest).maxTs
  {
    hide Replay, NewFiles, InputFloor, LiveRecords, CompactionPrefix;
    var after := LiveRecords(CompactionPrefix(f, selected, outputs, created, deleted));
    PrefixLive(f, selected, outputs, created, deleted);
    PrefixRecords(f, selected, outputs, created, deleted);
    PrefixClock(f, durable, floor, selected, outputs, snapshot, created);
    InputFloorBound(f, durable, floor, selected);
    if deleted == 0 {
      assert ReadFiles(f.disk, selected[..deleted]) == [];
      CoversMore(LiveRecords(f), after, durable, floor);
    } else {
      assert outputs[..created] == outputs;
      DeletedWereSelected(f, selected, deleted);
      CompactionCoversDurable(f, durable, floor, selected, outputs, snapshot, after);
    }
  }

  lemma {:induction false} MergeInputsUnique(f: Files, durable: set<Edge>, floor: nat, selected: seq<Meta>)
    requires Durable(f, durable, floor) && (forall m :: m in selected ==> m in Live(f))
    ensures TsUnique(Elements(ReadFiles(f.disk, selected)))
  {
    forall e | e in ReadFiles(f.disk, selected)
      ensures e in durable
    {
      SelectedAreLive(f, selected, e);
    }
  }

  lemma {:induction false} DeletedWereSelected(f: Files, selected: seq<Meta>, deleted: nat)
    requires deleted <= |selected|
    ensures forall e :: e in ReadFiles(f.disk, selected[..deleted]) ==> e in ReadFiles(f.disk, selected)
  {
    forall e | e in ReadFiles(f.disk, selected[..deleted])
      ensures e in ReadFiles(f.disk, selected)
    {
      InReadFiles(f.disk, selected[..deleted], e);
      InReadFiles(f.disk, selected, e);
      var m :| m in selected[..deleted] && e in RecordsOf(f.disk, m);
      assert m in selected;
    }
  }
}
