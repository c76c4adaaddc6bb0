/** What holds in every run of the engine: reads follow the write log, crashes lose only what was not flushed. */
module Runs {
  import opened Types
  import opened Sorting
  import opened Merge
  import opened Segment
  import opened FlushSegments
  import opened Manifests
  import opened Durability
  import opened Store

  lemma {:induction false} InReadMem(mem: map<nat, seq<Edge>>, ids: seq<nat>, e: Edge)
    ensures e in ReadMem(mem, ids) <==> exists id :: id in ids && id in mem && e in mem[id]
  {
    if ids != [] {
      var n := |ids| - 1;
      InReadMem(mem, ids[..n], e);
      assert forall id :: id in ids <==> id in ids[..n] || id == ids[n];
      if ids[n] in mem {
        SortByElements(ByKeyTs, mem[ids[n]]);
      }
    }
  }

  lemma {:induction false} InMemRecords(s: State, e: Edge)
    ensures e in MemRecords(s) <==> exists id :: id in s.version.memgraphs && id in s.mem && e in s.mem[id]
  {
    InReadMem(s.mem, s.version.memgraphs, e);
  }

  // ---------------------------------------------------------- in-memory steps

  lemma {:induction false} AppendMemRecords(s: State, e: Edge)
    requires MemInv(s)
    ensures MemRecords(Append(s, e)) == MemRecords(s) + {e}
  {
    var s' := Append(s, e);
    forall x
      ensures x in MemRecords(s') <==> x in MemRecords(s) || x == e
    {
      hide MemRecords, ReadMem;
      InMemRecords(s, x);
      InMemRecords(s', x);
      assert x in s'.mem[s.active] <==> x in s.mem[s.active] || x == e;
      if x == e {
        assert s.active in s'.version.memgraphs && e in s'.mem[s.active];
      }
      if id :| id in s.version.memgraphs && id in s.mem && x in s.mem[id] {
        assert x in s'.mem[id];
      }
    }
  }

  lemma {:induction false} AppendMemInv(s: State, e: Edge)
    requires MemInv(s) && e.ts == s.clock + 1
    ensures MemInv(Append(s, e))
  {
    var before := s.mem[s.active];
    forall x | x in before
      ensures x.ts < e.ts
    {
    }
    assert Ascends(before + [e]);
  }

  lemma {:induction false} AppendInv(s: State, h: History, e: Edge)
    requires Inv(s, h) && e.ts == s.clock + 1
    ensures Inv(Append(s, e), h.(log := h.log + {e}))
  {
    hide Durable, LevelsMatch, Replay, MemInv, MemRecords;
    AppendMemRecords(s, e);
    AppendMemInv(s, e);
  }

  lemma {:induction false} RotateMemRecords(s: State)
    requires MemInv(s)
    ensures MemRecords(Rotate(s)) == MemRecords(s)
  {
    var s' := Rotate(s);
    forall x
      ensures x in MemRecords(s') <==> x in MemRecords(s)
    {
      hide MemRecords, ReadMem;
      InMemRecords(s, x);
      InMemRecords(s', x);
      if id :| id in s.version.memgraphs && id in s.mem && x in s.mem[id] {
        assert id in s'.version.memgraphs && x in s'.mem[id];
      }
    }
  }

  lemma {:induction false} RotateMemInv(s: State)
    requires MemInv(s) && Contents(s, s.active) != []
    ensures MemInv(Rotate(s))
  {
  }

  lemma {:induction false} RotateInv(s: State, h: History)
    requires Inv(s, h) && Contents(s, s.active) != []
    ensures Inv(Rotate(s), h)
  {
    hide Durable, LevelsMatch, Replay, MemInv, MemRecords, Contents;
    RotateMemRecords(s);
    RotateMemInv(s);
  }

  lemma {:induction false} WriteInv(c: Config, s: State, h: History, e: Edge)
    requires Inv(s, h) && e.ts == s.clock + 1
    ensures Inv(Write(c, s, e), h.(log := h.log + {e}))
  {
    hide Inv;
    AppendInv(s, h, e);
    if EDGE_RECORD_SIZE * |Contents(Append(s, e), s.active)| >= c.memgraphCapacityBytes {
      assert Contents(Append(s, e), s.active)[|Contents(s, s.active)|] == e;
      RotateInv(Append(s, e), h.(log := h.log + {e}));
    }
  }

  // -------------------------------------------------------------------- flush

  lemma {:induction false} FlushSegsRecords(c: Config, s: State, m: nat)
    ensures Elements(Flatten(FlushSegs(c, s, m))) == Elements(Contents(s, m))
  {
    hide FlushCut, SortBy, Flatten;
    var edges := SortBy(ByKeyTs, Contents(s, m));
    SortByElements(ByKeyTs, Contents(s, m));
    if edges == [] {
      assert Flatten<Edge>([]) == [] by { EmptyFlatten<Edge>(); }
      assert forall e :: e in Contents(s, m) <==> e in edges;
    } else {
      FlushCutMeaning(c, edges);
      SameElements(Flatten(FlushCut(c, edges)), edges);
    }
  }

  lemma {:induction false} SameElements(a: seq<Edge>, b: seq<Edge>)
    requires multiset(a) == multiset(b)
    ensures Elements(a) == Elements(b)
  {
    forall e
      ensures e in a <==> e in b
    {
      assert e in multiset(a) <==> e in multiset(b);
    }
  }

  lemma {:induction false} ContentsInLog(s: State, h: History, m: nat)
    requires Inv(s, h) && m in s.flushTasks
    ensures Elements(Contents(s, m)) <= h.log
  {
    forall e | e in Contents(s, m)
      ensures e in h.log
    {
      InMemRecords(s, e);
      assert m in s.version.memgraphs;
    }
  }

  /** Any prefix of a flush's segments becomes durable. */
  lemma {:induction false} FlushPrefixDurable(c: Config, s: State, h: History, m: nat, written: nat)
    requires Inv(s, h) && m in s.flushTasks && written <= |FlushSegs(c, s, m)|
    ensures var segments := FlushSegs(c, s, m)[..written];
            && Durable(NewFiles(s.files, L0, segments), h.durable + Elements(Flatten(segments)), h.floor)
            && Elements(Flatten(segments)) <= h.log
  {
    hide FlushSegs, Durable, Replay, NewFiles;
    var segments := FlushSegs(c, s, m)[..written];
    FlushSegsRecords(c, s, m);
    FlattenPrefix(FlushSegs(c, s, m), written);
    ContentsInLog(s, h, m);
    forall e | e in Flatten(segments)
      ensures e in h.log
    {
      assert e in Elements(Flatten(FlushSegs(c, s, m)));
    }
    FlushIsDurable(s.files, h.durable, h.floor, segments, s.clock);
  }

  lemma {:induction false} FlushMemRecords(c: Config, s: State, m: nat, e: Edge)
    requires MemInv(s) && m in s.flushTasks
    ensures e in MemRecords(s) <==> e in MemRecords(Flush(c, s, m)) || e in Contents(s, m)
  {
    hide FlushSegs, NewFiles, NewMetas;
    var s' := Flush(c, s, m);
    InMemRecords(s, e);
    InMemRecords(s', e);
    forall id
      ensures id in Filter(Without(m), s.version.memgraphs) <==> id in s.version.memgraphs && id != m
    {
      InFilter(Without(m), s.version.memgraphs, id);
    }
    if id :| id in s.version.memgraphs && id in s.mem && e in s.mem[id] {
      assert id == m || id in s'.version.memgraphs;
    }
    if e in Contents(s, m) {
      assert m in s.version.memgraphs;
    }
  }

  lemma {:induction false} FlushMemInv(c: Config, s: State, m: nat)
    requires MemInv(s) && m in s.flushTasks
    ensures MemInv(Flush(c, s, m))
  {
    hide FlushSegs, NewFiles, NewMetas;
    forall id
      ensures id in Filter(Without(m), s.version.memgraphs) <==> id in s.version.memgraphs && id != m
      ensures id in Filter(Without(m), s.flushTasks) <==> id in s.flushTasks && id != m
    {
      InFilter(Without(m), s.version.memgraphs, id);
      InFilter(Without(m), s.flushTasks, id);
    }
  }

  lemma {:induction false} FlushLevelsMatch(c: Config, s: State, m: nat)
    requires FilesValid(s.files) && LevelsMatch(s.version.levels, Live(s.files)) && Contents(s, m) != []
    ensures LevelsMatch(Flush(c, s, m).version.levels, Live(Flush(c, s, m).files))
  {
    hide FlushSegs, NewFiles, Replay, MetaOf, SortBy;
    var segments := FlushSegs(c, s, m);
    var metas := NewMetas(s.files.nextFileId, L0, segments);
    NewFilesLive(s.files, L0, segments);
    MetaIds(s.files.nextFileId, L0, segments);
    SortByElements(ByPartition, s.version.levels[L0] + metas);
    forall x
      ensures x in SortLevel(s.version.levels[L0] + metas) <==> x in s.version.levels[L0] || x in metas
    {
    }
  }

  lemma {:induction false} FlushInv(c: Config, s: State, h: History, m: nat)
    requires Inv(s, h) && m in s.flushTasks
    ensures Inv(Flush(c, s, m), h.(durable := h.durable + Elements(Contents(s, m))))
  {
    hide FlushSegs, NewFiles, Replay, MemRecords, LevelsMatch, FilesValid, Contents;
    var s' := Flush(c, s, m);
    assert Contents(s, m) != [] by { TaskNotEmpty(s, m); }
    var segments := FlushSegs(c, s, m);
    assert segments[..|segments|] == segments;
    FlushPrefixDurable(c, s, h, m, |segments|);
    FlushSegsRecords(c, s, m);
    FlushMemInv(c, s, m);
    FlushLevelsMatch(c, s, m);
    ContentsInLog(s, h, m);
    FlushClock(c, s, h, m);
    forall e
      ensures e in h.log <==> e in h.durable + Elements(Contents(s, m)) + MemRecords(s')
    {
      FlushMemRecords(c, s, m, e);
    }
  }

  lemma {:induction false} TaskNotEmpty(s: State, m: nat)
    requires MemInv(s) && m in s.flushTasks
    ensures Contents(s, m) != []
  {
  }

  lemma {:induction false} FlushClock(c: Config, s: State, h: History, m: nat)
    requires Inv(s, h) && m in s.flushTasks
    ensures Replay(NewFiles(s.files, L0, FlushSegs(c, s, m)).manifest).maxTs <= s.clock
  {
    hide FlushSegs, NewFiles, Replay, MemRecords, LevelsMatch;
    FlushSegsRecords(c, s, m);
    ContentsInLog(s, h, m);
    forall e | e in Flatten(FlushSegs(c, s, m))
      ensures e.ts <= s.clock
    {
      assert e in Elements(Flatten(FlushSegs(c, s, m)));
    }
    NewFilesClock(s.files, L0, FlushSegs(c, s, m), s.clock);
  }

  // --------------------------------------------------------------- compaction

  lemma {:induction false} InLevelIsLive(s: State, h: History, i: nat)
    requires Inv(s, h)
    ensures forall m :: m in LevelAt(s.version.levels, i) ==> m in Live(s.files) && m.level == i
  {
    hide Durable, MemInv, Replay, TsUnique, MemRecords, Live;
  }

  lemma {:induction false} SelectedMeaning(s: State, h: History, t: Target, m: Meta)
    requires Inv(s, h)
    ensures m in SelectL0(s.version.levels, t) ==> m in LevelAt(s.version.levels, L0)
    ensures m in SelectL1(s.version.levels, t) ==> m in LevelAt(s.version.levels, L1)
  {
    var l0 := SelectL0(s.version.levels, t);
    var lo, hi := MinSrc(l0), MaxSrc(l0);
    InFilter((x: Meta) => TargetMatches(t, x), LevelAt(s.version.levels, L0), m);
    InFilter((x: Meta) => PartitionOverlapsTarget(x, t.srcLabel, t.edgeType) && RangesOverlap(x.minSrc, x.maxSrc, lo, hi),
             LevelAt(s.version.levels, L1), m);
  }

  lemma {:induction false} SelectedLive(s: State, h: History, t: Target)
    requires Inv(s, h)
    ensures forall m :: m in Selected(s, t) ==> m in Live(s.files)
    ensures forall m :: m in AllInputs(s) ==> m in Live(s.files)
  {
    hide Inv, SelectL0, SelectL1;
    InLevelIsLive(s, h, L0);
    InLevelIsLive(s, h, L1);
    forall m | m in Selected(s, t)
      ensures m in Live(s.files)
    {
      SelectedMeaning(s, h, t, m);
    }
  }

  lemma {:induction false} TargetIsCompaction(c: Config, s: State, h: History, t: Target)
    requires Inv(s, h)
    ensures CompactionOf(s.files, Selected(s, t), TargetOutputs(c, s, t), s.clock)
  {
    hide Inv, Selected, MergeLatest, ReadFiles, SortBy;
    SelectedLive(s, h, t);
    var compacted := Compacted(s, Selected(s, t));
    SplitConserves(SortBy(ByKeyTs, compacted), TargetEdges(c.segmentTargetBytes));
    SortByElements(ByKeyTs, compacted);
  }

  lemma {:induction false} FullIsCompaction(s: State, h: History)
    requires Inv(s, h)
    ensures CompactionOf(s.files, AllInputs(s), FullOutputs(s), s.clock)
  {
    hide Inv, AllInputs, MergeLatest, ReadFiles;
    SelectedLive(s, h, Target(0, None, None));
    FlattenOne(Compacted(s, AllInputs(s)));
  }

  ghost predicate InLevelAfter(s: State, selected: seq<Meta>, outputs: seq<seq<Edge>>, i: nat, m: Meta) {
    || (m in LevelAt(s.version.levels, i) && m !in selected)
    || (i == L1 && m in NewMetas(s.files.nextFileId, L1, outputs))
  }

  ghost predicate LevelsAfter(s: State, selected: seq<Meta>, outputs: seq<seq<Edge>>, levels: seq<seq<Meta>>) {
    && |levels| >= 2 && |levels| == |s.version.levels|
    && forall i: nat, m :: m in LevelAt(levels, i) <==> InLevelAfter(s, selected, outputs, i, m)
  }

  lemma {:induction false} RewriteInv(s: State, h: History, selected: seq<Meta>, outputs: seq<seq<Edge>>, levels: seq<seq<Meta>>)
    requires Inv(s, h) && CompactionOf(s.files, selected, outputs, s.clock)
    requires LevelsAfter(s, selected, outputs, levels)
    ensures Inv(Rewrite(s, selected, outputs, levels), h.(floor := InputFloor(s.files, selected, h.floor)))
  {
    hide Replay, NewFiles, MemRecords, InputFloor, MetaOf, LiveRecords, MergeLatest;
    var s' := Rewrite(s, selected, outputs, levels);
    CompactionPrefixIsDurable(s.files, h.durable, h.floor, selected, outputs, s.clock, |outputs|, |selected|);
    if selected == [] {
      NoInputsNoRise(s.files, h.floor);
    }
    PrefixLive(s.files, selected, outputs, |outputs|, |selected|);
    WholePrefix(s.files, selected, outputs);
    MetaIds(s.files.nextFileId, L1, outputs);
    assert MemRecords(s') == MemRecords(s) by { SameMem(s, s'); }
    assert outputs[..|outputs|] == outputs && selected[..|selected|] == selected;
    RewriteLevels(s, selected, outputs, levels, Live(s'.files));
  }

  lemma {:induction false} RewriteLevels(s: State, selected: seq<Meta>, outputs: seq<seq<Edge>>, levels: seq<seq<Meta>>, live: seq<Meta>)
    requires LevelsMatch(s.version.levels, Live(s.files)) && LevelsAfter(s, selected, outputs, levels)
    requires forall m :: m in live <==>
               (m in Live(s.files) && m !in selected) || m in NewMetas(s.files.nextFileId, L1, outputs)
    ensures LevelsMatch(levels, live)
  {
    hide Live, MetaOf, SortBy;
    MetaIds(s.files.nextFileId, L1, outputs);
    forall i, m | 0 <= i < |levels| && m in levels[i]
      ensures m in live && m.level == i
    {
      assert m in LevelAt(levels, i);
      assert InLevelAfter(s, selected, outputs, i, m);
    }
    forall m | m in live
      ensures m.level < |levels| && m in levels[m.level]
    {
      assert InLevelAfter(s, selected, outputs, m.level, m);
      assert m in LevelAt(levels, m.level);
    }
  }

  lemma {:induction false} SameMem(s: State, s': State)
    requires s.mem == s'.mem && s.version.memgraphs == s'.version.memgraphs
    ensures MemRecords(s') == MemRecords(s)
  {
  }

  lemma {:induction false} WholePrefix(f: Files, selected: seq<Meta>, outputs: seq<seq<Edge>>)
    ensures CompactionPrefix(f, selected, outputs, |outputs|, |selected|) == DeleteFiles(NewFiles(f, L1, outputs), selected)
  {
    hide NewFiles;
    assert outputs[..|outputs|] == outputs && selected[..|selected|] == selected;
  }

  /** Among live files, leaving out by id is leaving out by identity. */
  lemma {:induction false} NotSelected(s: State, h: History, m: Meta, part: seq<Meta>)
    requires Inv(s, h) && m in Live(s.files) && forall d :: d in part ==> d in Live(s.files)
    ensures m.fileId in Ids(part) <==> m in part
  {
    ReplayAscends(s.files.manifest);
    if m.fileId in Ids(part) {
      var d :| d in part && d.fileId == m.fileId;
      AscendingUnique(Live(s.files), m, d);
    }
  }

  lemma {:induction false} KeptInLevel(s: State, h: History, i: nat, part: seq<Meta>, m: Meta)
    requires Inv(s, h) && i < 2 && forall d :: d in part ==> d in LevelAt(s.version.levels, i)
    ensures m in Filter(NotIn(Ids(part)), LevelAt(s.version.levels, i)) <==>
            m in LevelAt(s.version.levels, i) && m !in part
  {
    hide Inv;
    InLevelIsLive(s, h, i);
    InFilter(NotIn(Ids(part)), LevelAt(s.version.levels, i), m);
    if m in LevelAt(s.version.levels, i) {
      NotSelected(s, h, m, part);
    }
  }

  lemma {:induction false} SelectedInLevel(s: State, h: History, t: Target)
    requires Inv(s, h)
    ensures forall d :: d in SelectL0(s.version.levels, t) ==> d in LevelAt(s.version.levels, L0)
    ensures forall d :: d in SelectL1(s.version.levels, t) ==> d in LevelAt(s.version.levels, L1)
  {
    hide Inv, SelectL0, SelectL1, LevelAt;
    forall d
      ensures d in SelectL0(s.version.levels, t) ==> d in LevelAt(s.version.levels, L0)
      ensures d in SelectL1(s.version.levels, t) ==> d in LevelAt(s.version.levels, L1)
    {
      SelectedMeaning(s, h, t, d);
    }
  }

  lemma {:induction false} TargetLevelElement(s: State, h: History, t: Target, outputs: seq<seq<Edge>>, i: nat, m: Meta)
    requires Inv(s, h)
    ensures |TargetLevels(s, t, outputs)| == |s.version.levels|
    ensures m in LevelAt(TargetLevels(s, t, outputs), i) <==> InLevelAfter(s, Selected(s, t), outputs, i, m)
  {
    hide Inv, SelectL0, SelectL1, SortBy, Ids, MetaOf;
    var l0, l1 := SelectL0(s.version.levels, t), SelectL1(s.version.levels, t);
    var before, metas := s.version.levels, NewMetas(s.files.nextFileId, L1, outputs);
    LevelCount(s, h);
    SortByElements(ByPartition, Filter(NotIn(Ids(l0)), before[L0]));
    SortByElements(ByPartition, Filter(NotIn(Ids(l1)), before[L1]) + metas);
    SelectedInLevel(s, h, t);
    InLevelIsLive(s, h, L0);
    InLevelIsLive(s, h, L1);
    InLevelIsLive(s, h, i);
    KeptInLevel(s, h, L0, l0, m);
    KeptInLevel(s, h, L1, l1, m);
    assert m in Selected(s, t) <==> m in l0 || m in l1;
    assert m in l0 ==> m.level == L0;
    assert m in l1 ==> m.level == L1;
    assert m in LevelAt(before, i) ==> m.level == i;
  }

  lemma {:induction false} TargetLevelsAfter(c: Config, s: State, h: History, t: Target)
    requires Inv(s, h)
    ensures LevelsAfter(s, Selected(s, t), TargetOutputs(c, s, t), TargetLevels(s, t, TargetOutputs(c, s, t)))
  {
    hide Inv, Selected, TargetOutputs, TargetLevels, InLevelAfter, LevelAt;
    LevelCount(s, h);
    TargetLevelElement(s, h, t, TargetOutputs(c, s, t), 0, Meta(0, 0, 0, 0, 0, 0, 0, 0, 0, 0, 0));
    forall i: nat, m
      ensures m in LevelAt(TargetLevels(s, t, TargetOutputs(c, s, t)), i) <==>
              InLevelAfter(s, Selected(s, t), TargetOutputs(c, s, t), i, m)
    {
      TargetLevelElement(s, h, t, TargetOutputs(c, s, t), i, m);
    }
  }

  lemma {:induction false} LevelCount(s: State, h: History)
    requires Inv(s, h)
    ensures |s.version.levels| >= 2
  {
  }

  lemma {:induction false} FullLevelsAfter(s: State, h: History)
    requires Inv(s, h)
    ensures LevelsAfter(s, AllInputs(s), FullOutputs(s), FullLevels(s))
  {
    hide Inv, FullOutputs, SortBy, MetaOf;
    LevelCount(s, h);
    SortByElements(ByPartition, NewMetas(s.files.nextFileId, L1, FullOutputs(s)));
    InLevelIsLive(s, h, L0);
    InLevelIsLive(s, h, L1);
    forall i: nat, m
      ensures m in LevelAt(FullLevels(s), i) <==> InLevelAfter(s, AllInputs(s), FullOutputs(s), i, m)
    {
      InLevelIsLive(s, h, i);
    }
  }

  // ------------------------------------------------------------ crash, reopen

  lemma {:induction false} SameReads(disk: map<nat, seq<Edge>>, disk': map<nat, seq<Edge>>, metas: seq<Meta>)
    requires forall m :: m in metas ==> RecordsOf(disk', m) == RecordsOf(disk, m)
    ensures ReadFiles(disk', metas) == ReadFiles(disk, metas)
  {
    if metas != [] {
      SameReads(disk, disk', metas[..|metas| - 1]);
    }
  }

  /** Neither a stray file nor resetting the next id touches what the manifest names. */
  lemma {:induction false} OrphanIsIgnored(f: Files, orphan: Option<seq<Edge>>, durable: set<Edge>, floor: nat)
    requires Durable(f, durable, floor)
    ensures Durable(WithOrphan(f, orphan).(nextFileId := Replay(f.manifest).maxFileId + 1), durable, floor)
  {
    hide Replay, Covers, TsUnique, ReadFiles;
    var f' := WithOrphan(f, orphan);
    SameReads(f.disk, f'.disk, Live(f));
  }

  lemma {:induction false} ReopenMem(c: Config, f: Files)
    ensures MemInv(Reopen(c, f)) && MemRecords(Reopen(c, f)) == {}
  {
    hide Replay, SplitLevels;
    var s := Reopen(c, f);
    assert s.mem[1] == [];
    forall e
      ensures e !in MemRecords(s)
    {
      InMemRecords(s, e);
    }
  }

  lemma {:induction false} ReopenInv(c: Config, f: Files, orphan: Option<seq<Edge>>, durable: set<Edge>, floor: nat)
    requires Durable(f, durable, floor)
    ensures Inv(Reopen(c, WithOrphan(f, orphan)), History(durable, durable, floor))
  {
    hide Replay, SplitLevels, Covers, LiveRecords, FilesValid, MemInv, MemRecords, LevelsMatch;
    OrphanIsIgnored(f, orphan, durable, floor);
    ReopenMem(c, WithOrphan(f, orphan));
    SplitLevelsMatch(Replay(f.manifest).live, c.maxLevels);
  }

  lemma {:induction false} SplitLevelsMatch(live: seq<Meta>, maxLevels: nat)
    ensures LevelsMatch(SplitLevels(live, maxLevels), live)
  {
    hide SplitLevels, InSrcOrder;
    SplitLevelsMeaning(live, maxLevels);
  }

  lemma {:induction false} InitInv(c: Config)
    ensures Inv(Init(c), History({}, {}, 0))
  {
    var f := Files(map[], [], 1);
    assert ReadFiles(f.disk, Live(f)) == [];
    ReopenInv(c, f, None, {}, 0);
  }

  lemma {:induction false} CrashInTargetDurable(c: Config, s: State, h: History, t: Target, created: nat, deleted: nat)
    requires Inv(s, h) && PrefixOk(created, |TargetOutputs(c, s, t)|, deleted, |Selected(s, t)|)
    ensures Durable(CompactionPrefix(s.files, Selected(s, t), TargetOutputs(c, s, t), created, deleted), h.durable,
                    PrefixFloor(s.files, Selected(s, t), h.floor, deleted))
  {
    hide Replay, NewFiles, TargetOutputs, Selected, PrefixFloor, CompactionPrefix, Durable, MemInv, LevelsMatch;
    TargetIsCompaction(c, s, h, t);
    CompactionPrefixIsDurable(s.files, h.durable, h.floor, Selected(s, t), TargetOutputs(c, s, t), s.clock,
                              created, deleted);
  }

  lemma {:induction false} CrashInFullDurable(c: Config, s: State, h: History, created: nat, deleted: nat)
    requires Inv(s, h) && PrefixOk(created, |FullOutputs(s)|, deleted, |AllInputs(s)|)
    ensures Durable(CompactionPrefix(s.files, AllInputs(s), FullOutputs(s), created, deleted), h.durable,
                    PrefixFloor(s.files, AllInputs(s), h.floor, deleted))
  {
    hide Replay, NewFiles, FullOutputs, AllInputs, PrefixFloor, CompactionPrefix, Durable, MemInv, LevelsMatch;
    FullIsCompaction(s, h);
    CompactionPrefixIsDurable(s.files, h.durable, h.floor, AllInputs(s), FullOutputs(s), s.clock, created, deleted);
  }

  /** Whatever prefix of a step reached the disk, reopening restores the invariant for the surviving log. */
  lemma {:induction false} CrashInv(c: Config, s: State, h: History, at: Partial, orphan: Option<seq<Edge>>)
    requires Inv(s, h) && CanCrash(c, s, at)
    ensures Inv(Reopen(c, WithOrphan(FilesAtCrash(c, s, at), orphan)), CrashHistory(c, s, h, at))
  {
    hide Replay, NewFiles, FlushSegs, TargetOutputs, FullOutputs, Selected, AllInputs, PrefixFloor, CompactionPrefix,
      Durable, MemInv, LevelsMatch, MemRecords, Reopen;
    var f := FilesAtCrash(c, s, at);
    var h' := CrashHistory(c, s, h, at);
    match at {
      case Idle =>
      case InFlush(m, written) => FlushPrefixDurable(c, s, h, m, written);
      case InTarget(t, created, deleted) => CrashInTargetDurable(c, s, h, t, created, deleted);
      case InFull(created, deleted) => CrashInFullDurable(c, s, h, created, deleted);
    }
    ReopenInv(c, f, orphan, h'.durable, h'.floor);
  }

  // --------------------------------------------------------------------- runs

  lemma {:induction false} StepInv(c: Config, s: State, h: History, op: Op)
    requires Inv(s, h) && Enabled(c, s, op)
    ensures Inv(Step(c, s, op), StepHistory(c, s, h, op))
  {
    hide Inv, InputFloor, TargetOutputs, FullOutputs, TargetLevels, FullLevels, Rewrite, Selected, AllInputs;
    match op
    case WriteOp(src, dst, edgeType, marker) => WriteInv(c, s, h, NewRecord(s, src, dst, edgeType, marker));
    case RotateOp => RotateInv(s, h);
    case FlushOp(m) => FlushInv(c, s, h, m);
    case CompactTargetOp(t) =>
      if SelectL0(s.version.levels, t) != [] {
        TargetIsCompaction(c, s, h, t);
        TargetLevelsAfter(c, s, h, t);
        RewriteInv(s, h, Selected(s, t), TargetOutputs(c, s, t), TargetLevels(s, t, TargetOutputs(c, s, t)));
      }
    case CompactFullOp(force) =>
      if FullCompactionDue(c, s, force) {
        FullIsCompaction(s, h);
        FullLevelsAfter(s, h);
        RewriteInv(s, h, AllInputs(s), FullOutputs(s), FullLevels(s));
      }
    case CrashOp(at, orphan) => CrashInv(c, s, h, at, orphan);
  }

  /** Some run of enabled steps from one state and history to another. */
  ghost predicate Runs(c: Config, s: State, h: History, ops: seq<Op>, s': State, h': History)
    decreases |ops|
  {
    hide Step, StepHistory, Enabled;
    if ops == [] then s == s' && h == h'
    else Enabled(c, s, ops[0]) && Runs(c, Step(c, s, ops[0]), StepHistory(c, s, h, ops[0]), ops[1..], s', h')
  }

  lemma {:induction false} RunInv(c: Config, s: State, h: History, ops: seq<Op>, s': State, h': History)
    requires Inv(s, h) && Runs(c, s, h, ops, s', h')
    ensures Inv(s', h')
    decreases |ops|
  {
    if ops != [] {
      StepInv(c, s, h, ops[0]);
      RunInv(c, Step(c, s, ops[0]), StepHistory(c, s, h, ops[0]), ops[1..], s', h');
    }
  }

  lemma {:induction false} LevelsHoldLive(s: State, h: History, m: Meta)
    requires Inv(s, h)
    ensures m in Flatten(s.version.levels) <==> m in Live(s.files)
  {
    hide Replay, LiveRecords, Durable, MemInv, MemRecords, Flatten, Live;
    InFlatten(s.version.levels, m);
  }

  lemma {:induction false} LevelRecords(s: State, h: History)
    requires Inv(s, h)
    ensures Elements(ReadFiles(s.files.disk, Flatten(s.version.levels))) == LiveRecords(s.files)
  {
    hide Inv, LiveRecords, Live, Flatten, ReadFiles;
    forall e
      ensures e in ReadFiles(s.files.disk, Flatten(s.version.levels)) <==> e in LiveRecords(s.files)
    {
      InReadFiles(s.files.disk, Flatten(s.version.levels), e);
      InLiveRecords(s.files, e);
      forall m
        ensures m in Flatten(s.version.levels) <==> m in Live(s.files)
      {
        LevelsHoldLive(s, h, m);
      }
    }
  }

  /** The stored records cover the write log. */
  lemma {:induction false} StoredCovers(s: State, h: History)
    requires Inv(s, h)
    ensures var stored := Elements(ScanInput(s.mem, s.files.disk, s.version));
            && stored == LiveRecords(s.files) + MemRecords(s)
            && Covers(stored, h.log, h.floor) && TsUnique(stored)
  {
    hide Replay, Flatten;
    LevelRecords(s, h);
    CoversBeside(LiveRecords(s.files), h.durable, MemRecords(s), h.floor);
    var mem, files := ReadMem(s.mem, s.version.memgraphs), ReadFiles(s.files.disk, Flatten(s.version.levels));
    assert Elements(mem + files) == Elements(mem) + Elements(files);
  }

  /** A scan answers the latest-write-wins view of the log, in key order, one record a key. */
  lemma {:induction false} ScanIsView(s: State, h: History, snapshot: nat)
    requires Inv(s, h) && h.floor <= snapshot
    ensures Elements(Scan(s, snapshot)) == View(h.log, snapshot)
    ensures StrictlyByKey(Scan(s, snapshot))
  {
    hide Inv, Covers, View, TsUnique;
    StoredCovers(s, h);
    MergeVisibleMeaning(ScanInput(s.mem, s.files.disk, s.version), snapshot);
    CoveringView(Elements(ScanInput(s.mem, s.files.disk, s.version)), h.log, h.floor, snapshot);
  }

  /** A crash can come at rest, after any number of a flush's segments, and anywhere in a compaction's manifest records. */
  lemma {:induction false} CrashesAnywhere(c: Config, s: State, t: Target, m: nat, n: nat, orphan: Option<seq<Edge>>)
    ensures Enabled(c, s, CrashOp(Idle, orphan))
    ensures m in s.flushTasks && n <= |FlushSegs(c, s, m)| ==> Enabled(c, s, CrashOp(InFlush(m, n), orphan))
    ensures var created, taken := |TargetOutputs(c, s, t)|, |Selected(s, t)|;
            SelectL0(s.version.levels, t) != [] ==>
              && (n <= created ==> Enabled(c, s, CrashOp(InTarget(t, n, 0), orphan)))
              && (n <= taken ==> Enabled(c, s, CrashOp(InTarget(t, created, n), orphan)))
    ensures LevelAt(s.version.levels, L0) != [] ==>
              && (n <= 1 ==> Enabled(c, s, CrashOp(InFull(n, 0), orphan)))
              && (n <= |AllInputs(s)| ==> Enabled(c, s, CrashOp(InFull(1, n), orphan)))
  {
    hide FlushSegs, TargetOutputs, Selected, SelectL0, LevelAt, Compacted;
  }

  /** It leaves the log as the finished step does, cut off after that many records. */
  lemma {:induction false} CrashCutsLog(c: Config, s: State, at: Partial)
    requires CanCrash(c, s, at)
    ensures var log := FilesAtCrash(c, s, at).manifest;
            match at
            case Idle => log == s.files.manifest
            case InFlush(m, written) =>
              |log| == |s.files.manifest| + written && log <= Step(c, s, FlushOp(m)).files.manifest
            case InTarget(t, created, deleted) =>
              |log| == |s.files.manifest| + created + deleted && log <= Step(c, s, CompactTargetOp(t)).files.manifest
            case InFull(created, deleted) =>
              |log| == |s.files.manifest| + created + deleted && log <= Step(c, s, CompactFullOp(true)).files.manifest
  {
    hide FlushSegs, TargetOutputs, FullOutputs, Selected, AllInputs, SelectL0, NewFiles, TargetLevels, FullLevels, NewMetas, SortLevel;
    match at
    case Idle =>
    case InFlush(m, written) =>
      var segments := FlushSegs(c, s, m);
      CreationsCut(s.files, L0, segments, written, [], 0);
      assert NewFiles(s.files, L0, segments).manifest + Deletions([]) == NewFiles(s.files, L0, segments).manifest;
      var cut := NewFiles(s.files, L0, segments[..written]).manifest;
      assert cut + Deletions([][..0]) == cut;
      NothingToFlush(c, s, m);
      assert segments == [] ==> segments[..written] == [];
    case InTarget(t, created, deleted) =>
      CreationsCut(s.files, L1, TargetOutputs(c, s, t), created, Selected(s, t), deleted);
    case InFull(created, deleted) =>
      assert |FullOutputs(s)| == 1 by { OneOutput(s); }
      CreationsCut(s.files, L1, FullOutputs(s), created, AllInputs(s), deleted);
  }

  lemma {:induction false} OneOutput(s: State)
    ensures |FullOutputs(s)| == 1
  {
  }

  lemma {:induction false} NothingToFlush(c: Config, s: State, m: nat)
    ensures NewFiles(s.files, L0, []) == s.files && (Contents(s, m) == [] ==> FlushSegs(c, s, m) == [])
  {
    hide FlushCut;
  }

  lemma {:induction false} CreationsCut(f: Files, level: nat, segments: seq<seq<Edge>>, created: nat, selected: seq<Meta>, deleted: nat)
    requires PrefixOk(created, |segments|, deleted, |selected|)
    ensures var cut := DeleteFiles(NewFiles(f, level, segments[..created]), selected[..deleted]).manifest;
            && |cut| == |f.manifest| + created + deleted
            && cut <= DeleteFiles(NewFiles(f, level, segments), selected).manifest
  {
    hide NewFiles, MetaOf, SortBy;
    NewFilesMeaning(f, level, segments);
    NewFilesMeaning(f, level, segments[..created]);
    var all, some := NewMetas(f.nextFileId, level, segments), NewMetas(f.nextFileId, level, segments[..created]);
    assert some == all[..created];
    assert Creations(some) == Creations(all)[..created];
    assert Deletions(selected[..deleted]) == Deletions(selected)[..deleted];
  }

  lemma {:induction false} InputFloorIs(f: Files, selected: seq<Meta>, floor: nat)
    requires forall m :: m in selected ==> m in Live(f)
    ensures var raised := InputFloor(f, selected, floor);
            raised >= floor && (raised > floor ==> exists e :: e in LiveRecords(f) && e.ts == raised)
  {
    hide ReadFiles, LiveRecords, Live;
    var inputs := ReadFiles(f.disk, selected);
    if MaxTs(inputs) > floor {
      var e :| e in inputs && e.ts == MaxTs(inputs);
      SelectedAreLive(f, selected, e);
    }
  }

  /** Only compactions, and crashes in one, raise the floor, and never above the newest record on disk. */
  lemma {:induction false} FloorRises(c: Config, s: State, h: History, op: Op)
    requires Inv(s, h) && Enabled(c, s, op)
    ensures var floor := StepHistory(c, s, h, op).floor;
            && floor >= h.floor && (floor > h.floor ==> exists e :: e in LiveRecords(s.files) && e.ts == floor)
            && (op.WriteOp? || op.RotateOp? || op.FlushOp? ==> floor == h.floor)
            && (op.CrashOp? && (op.at.Idle? || op.at.InFlush?) ==> floor == h.floor)
  {
    hide Inv, Selected, SelectL0, InputFloor, LiveRecords, FlushSegs, TargetOutputs, FullOutputs, AllInputs, LevelAt;
    match op
    case CompactTargetOp(t) => TargetFloor(c, s, h, t);
    case CompactFullOp(_) => FullFloor(s, h);
    case CrashOp(at, _) =>
      if at.InTarget? {
        TargetFloor(c, s, h, at.t);
      } else if at.InFull? {
        FullFloor(s, h);
      }
    case _ =>
  }

  lemma {:induction false} TargetFloor(c: Config, s: State, h: History, t: Target)
    requires Inv(s, h)
    ensures var raised := InputFloor(s.files, Selected(s, t), h.floor);
            raised >= h.floor && (raised > h.floor ==> exists e :: e in LiveRecords(s.files) && e.ts == raised)
  {
    hide Inv, Selected, InputFloor, LiveRecords, TargetOutputs;
    TargetIsCompaction(c, s, h, t);
    InputFloorIs(s.files, Selected(s, t), h.floor);
  }

  lemma {:induction false} FullFloor(s: State, h: History)
    requires Inv(s, h)
    ensures var raised := InputFloor(s.files, AllInputs(s), h.floor);
            raised >= h.floor && (raised > h.floor ==> exists e :: e in LiveRecords(s.files) && e.ts == raised)
  {
    hide Inv, AllInputs, InputFloor, LiveRecords, FullOutputs;
    FullIsCompaction(s, h);
    InputFloorIs(s.files, AllInputs(s), h.floor);
  }

  /**
   * After any run from an empty store - writes, rotations, flushes in any order, compactions, crashes at any point -
   * a scan at or above the floor is exactly the view of the surviving log, and the current snapshot is one of those.
   */
  lemma {:induction false} EveryRunReadsItsLog(c: Config, ops: seq<Op>, s: State, h: History, snapshot: nat)
    requires Runs(c, Init(c), History({}, {}, 0), ops, s, h) && h.floor <= snapshot
    ensures StrictlyByKey(Scan(s, snapshot)) && Elements(Scan(s, snapshot)) == View(h.log, snapshot)
    ensures h.floor <= s.clock
  {
    InitInv(c);
    RunInv(c, Init(c), History({}, {}, 0), ops, s, h);
    ScanIsView(s, h, snapshot);
  }
}
