/** The manifest: a log of created and deleted segments, replayed when a store is opened. */
module Manifests {
  import opened Sorting
  import opened Segment
  import opened Types

  datatype ManifestRecord = CreateFile(meta: Meta) | DeleteFile(fileId: nat)

  datatype ManifestState = ManifestState(liveFiles: seq<Meta>, nextFileId: nat, maxTs: nat)

  /** Insertion into a map ordered by file id, given as the list of its values. */
  function LiveInsert(live: seq<Meta>, m: Meta): seq<Meta> {
    if live == [] then [m]
    else if live[0].fileId == m.fileId then [m] + live[1..]
    else if m.fileId < live[0].fileId then [m] + live
    else [live[0]] + LiveInsert(live[1..], m)
  }

  function LiveRemove(live: seq<Meta>, fileId: nat): seq<Meta> {
    if live == [] then []
    else if live[0].fileId == fileId then live[1..]
    else [live[0]] + LiveRemove(live[1..], fileId)
  }

  function Max(a: nat, b: nat): nat {
    if a < b then b else a
  }

  datatype Replaying = Replaying(live: seq<Meta>, maxFileId: nat, maxTs: nat)

  function ReplayOne(r: Replaying, record: ManifestRecord): Replaying {
    match record
    case CreateFile(m) => Replaying(LiveInsert(r.live, m), Max(r.maxFileId, m.fileId), Max(r.maxTs, m.maxTs))
    case DeleteFile(fileId) => r.(live := LiveRemove(r.live, fileId))
  }

  function Replay(log: seq<ManifestRecord>): Replaying {
    if log == [] then Replaying([], 0, 0)
    else ReplayOne(Replay(log[..|log| - 1]), log[|log| - 1])
  }

  class Manifest {
    var log: seq<ManifestRecord>

    constructor (log: seq<ManifestRecord>)
      ensures this.log == log
    {
      this.log := log;
    }

    method Append(record: ManifestRecord)
      modifies this
      ensures log == old(log) + [record]
    {
      log := log + [record];
    }

    method Load() returns (s: ManifestState)
      ensures var r := Replay(log); s == ManifestState(r.live, r.maxFileId + 1, r.maxTs)
    {
      var live: seq<Meta> := [];
      var maxFileId: nat := 0;
      var maxTs: nat := 0;
      for i := 0 to |log|
        invariant Replay(log[..i]) == Replaying(live, maxFileId, maxTs)
      {
        assert log[..i + 1][..i] == log[..i];
        match log[i]
        case CreateFile(meta) =>
          maxFileId := Max(maxFileId, meta.fileId);
          maxTs := Max(maxTs, meta.maxTs);
          live := LiveInsert(live, meta);
        case DeleteFile(fileId) =>
          live := LiveRemove(live, fileId);
      }
      assert log[..|log|] == log;
      s := ManifestState(live, maxFileId + 1, maxTs);
    }
  }

  // ------------------------------------------------------ what replay yields

  ghost predicate Ascending(live: seq<Meta>) {
    forall i, j :: 0 <= i < j < |live| ==> live[i].fileId < live[j].fileId
  }

  lemma {:induction false} AscendingUnique(live: seq<Meta>, m: Meta, d: Meta)
    requires Ascending(live) && m in live && d in live && m.fileId == d.fileId
    ensures m == d
  {
    var i :| 0 <= i < |live| && live[i] == m;
    var j :| 0 <= j < |live| && live[j] == d;
    assert i == j;
  }

  lemma {:induction false} AscendingTail(live: seq<Meta>)
    requires Ascending(live) && live != []
    ensures Ascending(live[1..])
    ensures forall x :: x in live[1..] ==> live[0].fileId < x.fileId
    ensures forall x :: x in live <==> x == live[0] || x in live[1..]
  {
  }

  lemma {:induction false} AscendingCons(m: Meta, rest: seq<Meta>)
    requires Ascending(rest) && forall x :: x in rest ==> m.fileId < x.fileId
    ensures Ascending([m] + rest)
  {
  }

  lemma {:induction false} LiveInsertMeaning(live: seq<Meta>, m: Meta)
    requires Ascending(live)
    ensures Ascending(LiveInsert(live, m))
    ensures forall x :: x in LiveInsert(live, m) <==> x == m || (x in live && x.fileId != m.fileId)
  {
    hide Ascending;
    if live == [] {
      NoMetas();
      AscendingCons(m, []);
      assert [m] + [] == [m];
    } else {
      AscendingTail(live);
      if live[0].fileId < m.fileId {
        LiveInsertMeaning(live[1..], m);
        AscendingCons(live[0], LiveInsert(live[1..], m));
      } else if live[0].fileId == m.fileId {
        AscendingCons(m, live[1..]);
      } else {
        AscendingCons(m, live);
      }
    }
  }

  lemma {:induction false} NoMetas()
    ensures Ascending([])
  {
  }

  lemma {:induction false} LiveRemoveMeaning(live: seq<Meta>, fileId: nat)
    requires Ascending(live)
    ensures Ascending(LiveRemove(live, fileId))
    ensures forall x :: x in LiveRemove(live, fileId) <==> x in live && x.fileId != fileId
  {
    hide Ascending;
    if live != [] {
      AscendingTail(live);
      if live[0].fileId != fileId {
        LiveRemoveMeaning(live[1..], fileId);
        AscendingCons(live[0], LiveRemove(live[1..], fileId));
      }
    }
  }

  lemma {:induction false} ReplayAscends(log: seq<ManifestRecord>)
    ensures Ascending(Replay(log).live)
  {
    if log != [] {
      var n := |log| - 1;
      ReplayAscends(log[..n]);
      match log[n]
      case CreateFile(m) => LiveInsertMeaning(Replay(log[..n]).live, m);
      case DeleteFile(f) => LiveRemoveMeaning(Replay(log[..n]).live, f);
    }
  }

  lemma {:induction false} ReplayPush(log: seq<ManifestRecord>, record: ManifestRecord)
    ensures Replay(log + [record]) == ReplayOne(Replay(log), record)
  {
    assert (log + [record])[..|log|] == log;
  }

  function Creations(metas: seq<Meta>): seq<ManifestRecord> {
    seq(|metas|, i requires 0 <= i < |metas| => CreateFile(metas[i]))
  }

  function Deletions(metas: seq<Meta>): seq<ManifestRecord> {
    seq(|metas|, i requires 0 <= i < |metas| => DeleteFile(metas[i].fileId))
  }

  /** `r'` is `r` with exactly the new files `metas` added. */
  ghost predicate Added(r: Replaying, r': Replaying, metas: seq<Meta>) {
    && (forall m :: m in r'.live <==> m in r.live || m in metas)
    && (forall m :: m in r'.live ==> m.fileId <= r'.maxFileId)
    && r'.maxFileId == (if metas == [] then r.maxFileId else metas[|metas| - 1].fileId)
    && r.maxTs <= r'.maxTs && (forall m :: m in metas ==> m.maxTs <= r'.maxTs)
    && (r'.maxTs == r.maxTs || exists m :: m in metas && m.maxTs == r'.maxTs)
  }

  lemma {:induction false} AddedPush(r: Replaying, r': Replaying, metas: seq<Meta>, m: Meta)
    requires Added(r, r', metas) && Ascending(r'.live) && r'.maxFileId < m.fileId
    ensures Added(r, ReplayOne(r', CreateFile(m)), metas + [m])
  {
    LiveInsertMeaning(r'.live, m);
    assert forall x :: x in metas + [m] <==> x in metas || x == m;
  }

  /** Creating files under new ids adds exactly them. */
  lemma {:induction false} ReplayCreations(log: seq<ManifestRecord>, metas: seq<Meta>)
    requires forall i :: 0 <= i < |metas| ==> metas[i].fileId == metas[0].fileId + i
    requires metas != [] ==> Replay(log).maxFileId < metas[0].fileId
    requires forall m :: m in Replay(log).live ==> m.fileId <= Replay(log).maxFileId
    ensures Added(Replay(log), Replay(log + Creations(metas)), metas)
  {
    hide Replay, ReplayOne;
    if metas == [] {
      assert log + Creations(metas) == log;
    } else {
      var n := |metas| - 1;
      var before := log + Creations(metas[..n]);
      ReplayCreations(log, metas[..n]);
      assert log + Creations(metas) == before + [CreateFile(metas[n])];
      ReplayPush(before, CreateFile(metas[n]));
      ReplayAscends(before);
      var r, r' := Replay(log), Replay(before);
      assert metas == metas[..n] + [metas[n]];
      assert r'.maxFileId < metas[n].fileId;
      assert Added(r, ReplayOne(r', CreateFile(metas[n])), metas) by {
        AddedPush(r, r', metas[..n], metas[n]);
      }
    }
  }

  /** `r'` is `r` with exactly the files of `metas` removed. */
  ghost predicate Removed(r: Replaying, r': Replaying, metas: seq<Meta>) {
    && (forall m :: m in r'.live <==> m in r.live && forall d :: d in metas ==> d.fileId != m.fileId)
    && r'.maxFileId == r.maxFileId && r'.maxTs == r.maxTs
  }

  lemma {:induction false} RemovedPush(r: Replaying, r': Replaying, metas: seq<Meta>, d: Meta)
    requires Removed(r, r', metas) && Ascending(r'.live)
    ensures Removed(r, ReplayOne(r', DeleteFile(d.fileId)), metas + [d])
  {
    LiveRemoveMeaning(r'.live, d.fileId);
    assert forall x :: x in metas + [d] <==> x in metas || x == d;
  }

  lemma {:induction false} ReplayDeletions(log: seq<ManifestRecord>, metas: seq<Meta>)
    ensures Removed(Replay(log), Replay(log + Deletions(metas)), metas)
  {
    hide Replay, ReplayOne;
    if metas == [] {
      assert log + Deletions(metas) == log;
    } else {
      var n := |metas| - 1;
      var before := log + Deletions(metas[..n]);
      ReplayDeletions(log, metas[..n]);
      assert log + Deletions(metas) == before + [DeleteFile(metas[n].fileId)];
      ReplayPush(before, DeleteFile(metas[n].fileId));
      ReplayAscends(before);
      RemovedPush(Replay(log), Replay(before), metas[..n], metas[n]);
      assert metas == metas[..n] + [metas[n]];
    }
  }

  // -------------------------------------------------------------- the levels

  const L0: nat := 0
  const L1: nat := 1

  predicate BySrcAndId(a: Meta, b: Meta) {
    a.minSrc < b.minSrc || (a.minSrc == b.minSrc && a.fileId <= b.fileId)
  }

  /** (source label, edge type partition, min source, file id) */
  predicate ByPartition(a: Meta, b: Meta) {
    a.srcLabel < b.srcLabel ||
    (a.srcLabel == b.srcLabel && (a.edgeTypePartition < b.edgeTypePartition ||
    (a.edgeTypePartition == b.edgeTypePartition && BySrcAndId(a, b))))
  }

  function SortLevel(level: seq<Meta>): seq<Meta> {
    SortBy(ByPartition, level)
  }

  function Grow(levels: seq<seq<Meta>>, count: nat): seq<seq<Meta>> {
    if |levels| >= count then levels else levels + seq(count - |levels|, _ => [])
  }

  function Place(levels: seq<seq<Meta>>, files: seq<Meta>): seq<seq<Meta>> {
    if files == [] then levels
    else
      var n := |files| - 1;
      var before := Grow(Place(levels, files[..n]), files[n].level + 1);
      before[files[n].level := before[files[n].level] + [files[n]]]
  }

  function SortEach(levels: seq<seq<Meta>>): seq<seq<Meta>> {
    seq(|levels|, i requires 0 <= i < |levels| => SortBy(BySrcAndId, levels[i]))
  }

  function SplitLevels(files: seq<Meta>, maxLevels: nat): seq<seq<Meta>> {
    SortEach(Place(seq(if maxLevels < 2 then 2 else maxLevels, _ => []), files))
  }

  method SplitIntoLevels(files: seq<Meta>, maxLevels: nat) returns (levels: seq<seq<Meta>>)
    ensures levels == SplitLevels(files, maxLevels)
  {
    levels := seq(if maxLevels < 2 then 2 else maxLevels, _ => []);
    ghost var empty := levels;
    for i := 0 to |files|
      invariant levels == Place(empty, files[..i])
    {
      assert files[..i + 1][..i] == files[..i];
      var file := files[i];
      levels := Grow(levels, file.level + 1);
      levels := levels[file.level := levels[file.level] + [file]];
    }
    assert files[..|files|] == files;
    levels := SortLevels(levels);
  }

  method SortLevels(placed: seq<seq<Meta>>) returns (levels: seq<seq<Meta>>)
    ensures levels == SortEach(placed)
  {
    hide SortBy;
    levels := placed;
    for i := 0 to |levels|
      invariant |levels| == |placed|
      invariant forall k :: 0 <= k < i ==> levels[k] == SortBy(BySrcAndId, placed[k])
      invariant forall k :: i <= k < |levels| ==> levels[k] == placed[k]
    {
      levels := levels[i := SortBy(BySrcAndId, levels[i])];
    }
  }

  ghost predicate Placed(levels: seq<seq<Meta>>, files: seq<Meta>) {
    && (forall i, m :: 0 <= i < |levels| && m in levels[i] ==> m in files && m.level == i)
    && (forall m :: m in files ==> m.level < |levels| && m in levels[m.level])
  }

  lemma {:induction false} PlaceOne(levels: seq<seq<Meta>>, files: seq<Meta>, file: Meta)
    requires Placed(levels, files) && file.level < |levels|
    ensures Placed(levels[file.level := levels[file.level] + [file]], files + [file])
  {
    assert forall m :: m in files + [file] <==> m in files || m == file;
  }

  lemma {:induction false} GrowPlaced(levels: seq<seq<Meta>>, files: seq<Meta>, count: nat)
    requires Placed(levels, files)
    ensures Placed(Grow(levels, count), files) && |Grow(levels, count)| >= count && |Grow(levels, count)| >= |levels|
  {
  }

  lemma {:induction false} PlaceMeaning(levels: seq<seq<Meta>>, files: seq<Meta>)
    requires forall i :: 0 <= i < |levels| ==> levels[i] == []
    ensures |Place(levels, files)| >= |levels| && Placed(Place(levels, files), files)
  {
    hide Placed, Grow;
    if files == [] {
      EmptyPlaced(levels);
    } else {
      var n := |files| - 1;
      PlaceMeaning(levels, files[..n]);
      var before := Place(levels, files[..n]);
      GrowPlaced(before, files[..n], files[n].level + 1);
      PlaceOne(Grow(before, files[n].level + 1), files[..n], files[n]);
      assert files == files[..n] + [files[n]];
    }
  }

  lemma {:induction false} EmptyPlaced(levels: seq<seq<Meta>>)
    requires forall i :: 0 <= i < |levels| ==> levels[i] == []
    ensures Placed(levels, [])
  {
  }

  lemma {:induction false} SortEachPlaced(levels: seq<seq<Meta>>, files: seq<Meta>)
    requires Placed(levels, files)
    ensures Placed(SortEach(levels), files)
  {
    hide SortBy;
    forall i, m | 0 <= i < |levels|
      ensures m in SortEach(levels)[i] <==> m in levels[i]
    {
      SortByElements(BySrcAndId, levels[i]);
    }
  }

  function AtLevel(level: nat): Meta -> bool {
    (m: Meta) => m.level == level
  }

  /** Level by level, the files of that level in the order they came. */
  ghost predicate Divided(levels: seq<seq<Meta>>, files: seq<Meta>) {
    forall i :: 0 <= i < |levels| ==> levels[i] == Filter(AtLevel(i), files)
  }

  lemma {:induction false} DivideOne(levels: seq<seq<Meta>>, files: seq<Meta>, file: Meta)
    requires Divided(levels, files) && file.level < |levels|
    ensures Divided(levels[file.level := levels[file.level] + [file]], files + [file])
  {
    var after := levels[file.level := levels[file.level] + [file]];
    forall i | 0 <= i < |after|
      ensures after[i] == Filter(AtLevel(i), files + [file])
    {
      FilterPush(AtLevel(i), files, file);
    }
  }

  lemma {:induction false} GrowDivided(levels: seq<seq<Meta>>, files: seq<Meta>, count: nat)
    requires Divided(levels, files) && Placed(levels, files)
    ensures Divided(Grow(levels, count), files)
  {
    var after := Grow(levels, count);
    forall i | 0 <= i < |after|
      ensures after[i] == Filter(AtLevel(i), files)
    {
      if i >= |levels| {
        FilterNone(AtLevel(i), files);
      }
    }
  }

  /** Placing opens no more levels than the files need. */
  lemma {:induction false} PlaceDivides(levels: seq<seq<Meta>>, files: seq<Meta>)
    requires forall i :: 0 <= i < |levels| ==> levels[i] == []
    ensures Divided(Place(levels, files), files)
    ensures |Place(levels, files)| > |levels| ==> exists m :: m in files && m.level == |Place(levels, files)| - 1
  {
    hide Placed, Divided;
    if files == [] {
      NothingDivided(levels);
    } else {
      var n := |files| - 1;
      var before := Place(levels, files[..n]);
      PlaceMeaning(levels, files[..n]);
      PlaceDivides(levels, files[..n]);
      GrowDivided(before, files[..n], files[n].level + 1);
      DivideOne(Grow(before, files[n].level + 1), files[..n], files[n]);
      assert files == files[..n] + [files[n]];
    }
  }

  lemma {:induction false} NothingDivided(levels: seq<seq<Meta>>)
    requires forall i :: 0 <= i < |levels| ==> levels[i] == []
    ensures Divided(levels, [])
  {
  }

  /** Ascending by lowest source, then by file id. */
  ghost predicate InSrcOrder(level: seq<Meta>) {
    forall i, j :: 0 <= i < j < |level| ==>
      level[i].minSrc < level[j].minSrc || (level[i].minSrc == level[j].minSrc && level[i].fileId <= level[j].fileId)
  }

  lemma {:induction false} SortedBySrc(level: seq<Meta>)
    ensures InSrcOrder(SortBy(BySrcAndId, level)) && multiset(SortBy(BySrcAndId, level)) == multiset(level)
  {
    assert TotalPreorder(BySrcAndId);
    SortBySorted(BySrcAndId, level);
    SortByMultiset(BySrcAndId, level);
    hide SortBy;
    var sorted := SortBy(BySrcAndId, level);
    forall i, j | 0 <= i < j < |sorted|
      ensures BySrcAndId(sorted[i], sorted[j])
    {
    }
  }

  /**
   * A reopened store has every live file in the level its metadata names, and nothing else, in the order of their
   * lowest sources. It has as many levels as configured, at least two, and more only if a file lies beyond them.
   */
  lemma {:induction false} SplitLevelsMeaning(files: seq<Meta>, maxLevels: nat)
    ensures var levels := SplitLevels(files, maxLevels);
            && |levels| >= 2 && |levels| >= maxLevels
            && (|levels| > 2 && |levels| > maxLevels ==> exists m :: m in files && m.level == |levels| - 1)
            && (forall i :: 0 <= i < |levels| ==>
                  InSrcOrder(levels[i]) && multiset(levels[i]) == multiset(Filter(AtLevel(i), files)))
            && (forall i, m :: 0 <= i < |levels| && m in levels[i] ==> m in files && m.level == i)
            && (forall m :: m in files ==> m.level < |levels| && m in levels[m.level])
  {
    hide Place, InSrcOrder;
    var empty := seq(if maxLevels < 2 then 2 else maxLevels, _ => []);
    var placed := Place(empty, files);
    PlaceMeaning(empty, files);
    PlaceDivides(empty, files);
    SortEachPlaced(placed, files);
    hide Placed;
    forall i | 0 <= i < |placed|
      ensures InSrcOrder(SortEach(placed)[i]) && multiset(SortEach(placed)[i]) == multiset(Filter(AtLevel(i), files))
    {
      SortedBySrc(placed[i]);
    }
  }
}
