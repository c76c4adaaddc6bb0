/** What a flush and a compaction do to the levels: which segments they take, which they leave, and what they write. */
module Compactions {
  import opened Types
  import opened Sorting
  import opened Merge
  import opened Segment
  import opened FlushSegments
  import opened Manifests
  import opened Durability
  import opened Store
  import opened Runs

  // ------------------------------------------------------------- the selection

  /** Another known label than a known target's, or another single type than the target's. */
  ghost predicate OtherPartition(t: Target, m: Meta) {
    || (t.srcLabel != 0 && m.srcLabel != 0 && m.srcLabel != t.srcLabel)
    || (t.edgeType.Some? && m.edgeTypePartition != 0 && m.edgeTypePartition != t.edgeType.value)
  }

  /** An L0 segment the target leaves: in another partition, or with all its sources beside the target's range. */
  ghost predicate Spared(t: Target, m: Meta) {
    || OtherPartition(t, m)
    || (t.range.Some? && (m.maxSrc < t.range.value.0 || t.range.value.1 < m.minSrc))
  }

  /** An L1 segment the target leaves: in another partition, or wholly below or above all L0 segments taken. */
  ghost predicate SparedBelow(t: Target, l0: seq<Meta>, m: Meta) {
    || OtherPartition(t, m)
    || (forall x :: x in l0 && !Spared(t, x) ==> m.maxSrc < x.minSrc)
    || (forall x :: x in l0 && !Spared(t, x) ==> x.maxSrc < m.minSrc)
  }

  /** A record the target is about. */
  ghost predicate Wanted(t: Target, e: Edge) {
    && (t.srcLabel == 0 || SourceLabel(e.src) == t.srcLabel)
    && (t.edgeType.Some? ==> e.edgeType == t.edgeType.value)
    && (t.range.Some? ==> t.range.value.0 <= e.src <= t.range.value.1)
  }

  /** A lookup skips exactly the segments a target of its source's label and its type would leave as another partition. */
  lemma {:induction false} LookupSkips(m: Meta, src: u64, edgeType: Option<i32>)
    ensures MayContainPartition(m, src, edgeType) <==> !OtherPartition(Target(SourceLabel(src), edgeType, None), m)
  {
    hide SourceLabel;
  }

  lemma {:induction false} SelectL0Is(levels: seq<seq<Meta>>, t: Target, m: Meta)
    ensures m in SelectL0(levels, t) <==> m in LevelAt(levels, L0) && !Spared(t, m)
  {
    InFilter((x: Meta) => TargetMatches(t, x), LevelAt(levels, L0), m);
  }

  lemma {:induction false} MinSrcIs(metas: seq<Meta>)
    requires metas != []
    ensures (forall x :: x in metas ==> MinSrc(metas) <= x.minSrc) && exists x :: x in metas && x.minSrc == MinSrc(metas)
  {
    assert metas[0] in metas && metas == [metas[0]] + metas[1..];
    if |metas| > 1 {
      MinSrcIs(metas[1..]);
      var x :| x in metas[1..] && x.minSrc == MinSrc(metas[1..]);
      assert x in metas;
    }
  }

  lemma {:induction false} MaxSrcIs(metas: seq<Meta>)
    requires metas != []
    ensures (forall x :: x in metas ==> x.maxSrc <= MaxSrc(metas)) && exists x :: x in metas && x.maxSrc == MaxSrc(metas)
  {
    assert metas[0] in metas && metas == [metas[0]] + metas[1..];
    if |metas| > 1 {
      MaxSrcIs(metas[1..]);
      var x :| x in metas[1..] && x.maxSrc == MaxSrc(metas[1..]);
      assert x in metas;
    }
  }

  lemma {:induction false} SelectL1Is(levels: seq<seq<Meta>>, t: Target, m: Meta)
    requires SelectL0(levels, t) != []
    ensures m in SelectL1(levels, t) <==> m in LevelAt(levels, L1) && !SparedBelow(t, LevelAt(levels, L0), m)
  {
    var l0 := SelectL0(levels, t);
    var lo, hi := MinSrc(l0), MaxSrc(l0);
    MinSrcIs(l0);
    MaxSrcIs(l0);
    forall x
      ensures x in l0 <==> x in LevelAt(levels, L0) && !Spared(t, x)
    {
      SelectL0Is(levels, t, x);
    }
    var first :| first in l0 && first.minSrc == lo;
    var last :| last in l0 && last.maxSrc == hi;
    hide SelectL0, MinSrc, MaxSrc, Spared;
    InFilter((x: Meta) => PartitionOverlapsTarget(x, t.srcLabel, t.edgeType) && RangesOverlap(x.minSrc, x.maxSrc, lo, hi),
             LevelAt(levels, L1), m);
  }

  /** What is left of L0 and L1 after a targeted compaction, segment by segment. */
  lemma {:induction false} TargetTakes(c: Config, s: State, h: History, t: Target, m: Meta)
    requires Inv(s, h)
    ensures var before, after := s.version.levels, CompactTarget(c, s, t).version.levels;
            && (m in LevelAt(after, L0) <==> m in LevelAt(before, L0) && Spared(t, m))
            && (m in LevelAt(after, L1) <==>
                  (m in LevelAt(before, L1) && SparedBelow(t, LevelAt(before, L0), m)) || m in TargetMetas(c, s, t))
  {
    hide Inv, TargetLevels, SelectL0, SelectL1, TargetOutputs, LevelAt, Spared;
    var before, l0 := s.version.levels, SelectL0(s.version.levels, t);
    if l0 == [] {
      forall x | x in LevelAt(before, L0)
        ensures Spared(t, x)
      {
        SelectL0Is(before, t, x);
      }
    } else {
      TargetLevelsAfter(c, s, h, t);
      var after := TargetLevels(s, t, TargetOutputs(c, s, t));
      assert m in LevelAt(after, L0) <==> InLevelAfter(s, Selected(s, t), TargetOutputs(c, s, t), L0, m);
      assert m in LevelAt(after, L1) <==> InLevelAfter(s, Selected(s, t), TargetOutputs(c, s, t), L1, m);
      SelectL0Is(before, t, m);
      SelectL1Is(before, t, m);
      InLevelIsLive(s, h, L0);
      InLevelIsLive(s, h, L1);
    }
  }

  /** Metadata of the segments a targeted compaction writes: none when it takes nothing. */
  function TargetMetas(c: Config, s: State, t: Target): seq<Meta> {
    if SelectL0(s.version.levels, t) == [] then [] else NewMetas(s.files.nextFileId, L1, TargetOutputs(c, s, t))
  }

  // ------------------------------------------------------------ over records

  /** A segment holding a record the target is about is not spared. */
  lemma {:induction false} WantedIsNotSpared(t: Target, disk: map<nat, seq<Edge>>, m: Meta, e: Edge)
    requires FileHolds(disk, m) && e in RecordsOf(disk, m) && Wanted(t, e)
    ensures !Spared(t, m)
  {
    hide SourceLabel, Offsets;
    var edges := disk[m.fileId];
    MetaBounds(m.level, m.fileId, edges, e);
    var i :| 0 <= i < |edges| && edges[i] == e;
    LabelAndTypeFit(edges, i);
  }

  lemma {:induction false} LiveHolds(s: State, h: History, i: nat, m: Meta)
    requires Inv(s, h) && m in LevelAt(s.version.levels, i)
    ensures FileHolds(s.files.disk, m) && m.fileId < s.files.nextFileId
  {
    InLevelIsLive(s, h, i);
    hide Replay, MemInv, LevelsMatch, MemRecords, Covers, FileHolds;
  }

  /** No L0 segment with a record the target is about stays in L0. */
  lemma {:induction false} WantedLeavesL0(c: Config, s: State, h: History, t: Target, m: Meta, e: Edge)
    requires Inv(s, h) && m in LevelAt(s.version.levels, L0) && e in RecordsOf(s.files.disk, m) && Wanted(t, e)
    ensures m !in LevelAt(CompactTarget(c, s, t).version.levels, L0)
  {
    hide Inv, CompactTarget, LevelAt, FileHolds, Spared, Wanted;
    LiveHolds(s, h, L0, m);
    WantedIsNotSpared(t, s.files.disk, m, e);
    TargetTakes(c, s, h, t, m);
  }

  /** Nor does an L1 segment stay whose record of the target's label and type lies between records of L0 segments taken. */
  lemma {:induction false} BetweenLeavesL1(c: Config, s: State, h: History, t: Target, m: Meta, e: Edge,
                                           x: Meta, first: Edge, y: Meta, last: Edge)
    requires Inv(s, h) && m in LevelAt(s.version.levels, L1) && e in RecordsOf(s.files.disk, m)
    requires Wanted(t.(range := None), e) && first.src <= e.src <= last.src
    requires x in LevelAt(s.version.levels, L0) && first in RecordsOf(s.files.disk, x) && Wanted(t, first)
    requires y in LevelAt(s.version.levels, L0) && last in RecordsOf(s.files.disk, y) && Wanted(t, last)
    ensures m !in LevelAt(CompactTarget(c, s, t).version.levels, L1)
  {
    hide Inv, CompactTarget, LevelAt, MetaOf, TargetMetas;
    LiveHolds(s, h, L1, m);
    LiveHolds(s, h, L0, x);
    LiveHolds(s, h, L0, y);
    WantedIsNotSpared(t.(range := None), s.files.disk, m, e);
    WantedIsNotSpared(t, s.files.disk, x, first);
    WantedIsNotSpared(t, s.files.disk, y, last);
    MetaBounds(m.level, m.fileId, s.files.disk[m.fileId], e);
    MetaBounds(x.level, x.fileId, s.files.disk[x.fileId], first);
    MetaBounds(y.level, y.fileId, s.files.disk[y.fileId], last);
    TargetTakes(c, s, h, t, m);
    OldIsNotNew(c, s, t, m);
  }

  lemma {:induction false} OldIsNotNew(c: Config, s: State, t: Target, m: Meta)
    requires m.fileId < s.files.nextFileId
    ensures m !in TargetMetas(c, s, t)
  {
    hide TargetOutputs, SelectL0;
    MetaIds(s.files.nextFileId, L1, TargetOutputs(c, s, t));
  }

  // ------------------------------------------------------------ what is written

  /** Records of the segments under `metas`. */
  ghost function RecordsUnder(f: Files, metas: seq<Meta>): set<Edge> {
    Elements(ReadFiles(f.disk, metas))
  }

  lemma {:induction false} NewFilesRecords(f: Files, level: nat, segments: seq<seq<Edge>>)
    ensures RecordsUnder(NewFiles(f, level, segments), NewMetas(f.nextFileId, level, segments)) == Elements(Flatten(segments))
  {
    hide NewFiles, SortBy, MetaOf, Flatten, RecordsOf;
    var f' := NewFiles(f, level, segments);
    var metas := NewMetas(f.nextFileId, level, segments);
    forall e
      ensures e in RecordsUnder(f', metas) <==> e in Flatten(segments)
    {
      NewFilesRecord(f, level, segments, e);
    }
  }

  lemma {:induction false} NewFilesRecord(f: Files, level: nat, segments: seq<seq<Edge>>, e: Edge)
    ensures e in RecordsUnder(NewFiles(f, level, segments), NewMetas(f.nextFileId, level, segments)) <==> e in Flatten(segments)
  {
    hide NewFiles, SortBy, MetaOf, Flatten;
    var f' := NewFiles(f, level, segments);
    var metas := NewMetas(f.nextFileId, level, segments);
    NewFilesMeaning(f, level, segments);
    MetaIds(f.nextFileId, level, segments);
    InReadFiles(f'.disk, metas, e);
    InFlatten(segments, e);
    forall i | 0 <= i < |segments|
      ensures metas[i] in metas && (e in RecordsOf(f'.disk, metas[i]) <==> e in segments[i])
    {
      assert FileIs(f'.disk, f.nextFileId + i, segments[i]);
      SortByElements(ByKeyTs, segments[i]);
    }
  }

  /** The segments a compaction writes hold exactly the latest record of every key among what it takes. */
  lemma {:induction false} OutputsHoldLatest(s: State, h: History, selected: seq<Meta>, outputs: seq<seq<Edge>>)
    requires Inv(s, h) && CompactionOf(s.files, selected, outputs, s.clock)
    ensures RecordsUnder(DeleteFiles(NewFiles(s.files, L1, outputs), selected), NewMetas(s.files.nextFileId, L1, outputs)) ==
            LatestAt(RecordsUnder(s.files, selected), s.clock)
  {
    var inputs := ReadFiles(s.files.disk, selected);
    hide Inv, MemInv, LevelsMatch, Replay, NewFiles, NewMetas, Deletions, ReadFiles, MergeLatest, LatestAt, Flatten;
    InvDurable(s, h);
    MergeInputsUnique(s.files, h.durable, h.floor, selected);
    MergeLatestMeaning(inputs, s.clock, true);
    NewFilesRecords(s.files, L1, outputs);
  }

  lemma {:induction false} InvDurable(s: State, h: History)
    requires Inv(s, h)
    ensures Durable(s.files, h.durable, h.floor)
  {
  }

  /** The segments a targeted compaction takes, as a set; the ones it writes hold their latest records. */
  lemma {:induction false} TargetWrites(c: Config, s: State, h: History, t: Target) returns (taken: seq<Meta>)
    requires Inv(s, h)
    ensures forall m :: m in taken <==>
              || (m in LevelAt(s.version.levels, L0) && !Spared(t, m))
              || (m in LevelAt(s.version.levels, L1) && !SparedBelow(t, LevelAt(s.version.levels, L0), m))
    ensures RecordsUnder(CompactTarget(c, s, t).files, TargetMetas(c, s, t)) == LatestAt(RecordsUnder(s.files, taken), s.clock)
  {
    hide Inv, SelectL0, SelectL1, TargetOutputs, TargetLevels, LevelAt, Spared, NewFiles, NewMetas, ReadFiles, LatestAt;
    if SelectL0(s.version.levels, t) == [] {
      taken := [];
      forall m
        ensures m in LevelAt(s.version.levels, L0) ==> Spared(t, m)
      {
        SelectL0Is(s.version.levels, t, m);
      }
      NothingUnder(s.files, s.clock);
    } else {
      taken := Selected(s, t);
      forall m
        ensures m in taken <==>
                || (m in LevelAt(s.version.levels, L0) && !Spared(t, m))
                || (m in LevelAt(s.version.levels, L1) && !SparedBelow(t, LevelAt(s.version.levels, L0), m))
      {
        SelectL0Is(s.version.levels, t, m);
        SelectL1Is(s.version.levels, t, m);
      }
      TargetIsCompaction(c, s, h, t);
      OutputsHoldLatest(s, h, Selected(s, t), TargetOutputs(c, s, t));
    }
  }

  // ------------------------------------------------------------ order and size

  /** Ascending by label, then type, then lowest source, then file id. */
  ghost predicate InPartitionOrder(level: seq<Meta>) {
    forall i, j :: 0 <= i < j < |level| ==>
      level[i].srcLabel < level[j].srcLabel || (level[i].srcLabel == level[j].srcLabel &&
      (level[i].edgeTypePartition < level[j].edgeTypePartition || (level[i].edgeTypePartition == level[j].edgeTypePartition &&
      (level[i].minSrc < level[j].minSrc || (level[i].minSrc == level[j].minSrc && level[i].fileId <= level[j].fileId)))))
  }

  lemma {:induction false} SortLevelOrders(level: seq<Meta>)
    ensures InPartitionOrder(SortLevel(level)) && multiset(SortLevel(level)) == multiset(level)
  {
    assert TotalPreorder(ByPartition);
    SortBySorted(ByPartition, level);
    SortByMultiset(ByPartition, level);
    hide SortBy;
    var sorted := SortLevel(level);
    forall i, j | 0 <= i < j < |sorted|
      ensures ByPartition(sorted[i], sorted[j])
    {
    }
  }

  /** A compaction that takes anything leaves both levels in order. */
  lemma {:induction false} TargetOrders(c: Config, s: State, h: History, t: Target)
    requires Inv(s, h) && SelectL0(s.version.levels, t) != []
    ensures var levels := CompactTarget(c, s, t).version.levels;
            InPartitionOrder(LevelAt(levels, L0)) && InPartitionOrder(LevelAt(levels, L1))
  {
    hide Inv, SortLevel, SelectL0, SelectL1, TargetOutputs, NewMetas, NewFiles, Filter, InPartitionOrder;
    var outputs := TargetOutputs(c, s, t);
    var levels := Grow(s.version.levels, L1 + 1);
    SortLevelOrders(Filter(NotIn(Ids(SelectL0(s.version.levels, t))), levels[L0]));
    SortLevelOrders(Filter(NotIn(Ids(SelectL1(s.version.levels, t))), levels[L1]) + NewMetas(s.files.nextFileId, L1, outputs));
  }

  lemma {:induction false} PiecesSorted(edges: seq<Edge>, target: nat, i: nat)
    requires target > 0 && SortedBy(ByKeyTs, edges) && i < |Split(edges, target)|
    ensures SortedBy(ByKeyTs, Split(edges, target)[i])
    decreases |edges|
  {
    if |edges| >= target {
      var cut := RunEnd(edges, target - 1, edges[target - 1].src);
      if i > 0 {
        PiecesSorted(edges[cut..], target, i - 1);
      }
    }
  }

  /**
   * New segments on consecutive ids of level 1. All but the last hold as many records as fit the target size, at 32
   * bytes each and one at least; past that size a segment only goes on with its last source. Sources ascend from
   * segment to segment.
   */
  ghost predicate CutToSize(targetBytes: nat, f: Files, f': Files, metas: seq<Meta>) {
    forall i :: 0 <= i < |metas| ==> PieceFits(targetBytes, f, f', metas, i)
  }

  ghost predicate PieceFits(targetBytes: nat, f: Files, f': Files, metas: seq<Meta>, i: nat)
    requires i < |metas|
  {
    && metas[i].level == 1 && metas[i].fileId == f.nextFileId + i && metas[i].fileId in f'.disk
    && |f'.disk[metas[i].fileId]| == metas[i].edgeCount > 0
    && (i < |metas| - 1 ==> targetBytes < 32 * (metas[i].edgeCount + 1))
    && (forall k :: 0 <= k < metas[i].edgeCount && targetBytes <= 32 * (k + 1) ==>
          f'.disk[metas[i].fileId][k].src == metas[i].maxSrc)
    && (forall j :: i < j < |metas| ==> metas[i].maxSrc < metas[j].minSrc)
  }

  lemma {:induction false} SplitFits(f: Files, edges: seq<Edge>, targetBytes: nat)
    requires SortedBy(ByKeyTs, edges)
    ensures var pieces := Split(edges, TargetEdges(targetBytes));
            CutToSize(targetBytes, f, NewFiles(f, L1, pieces), NewMetas(f.nextFileId, L1, pieces))
  {
    var target := TargetEdges(targetBytes);
    var pieces := Split(edges, target);
    var f', metas := NewFiles(f, L1, pieces), NewMetas(f.nextFileId, L1, pieces);
    NewFilesMeaning(f, L1, pieces);
    hide Split, NewFiles;
    forall i | 0 <= i < |metas|
      ensures PieceFits(targetBytes, f, f', metas, i)
    {
      PieceFit(f, edges, targetBytes, i);
    }
  }

  lemma {:induction false} PieceShape(edges: seq<Edge>, targetBytes: nat, i: nat)
    requires SortedBy(ByKeyTs, edges) && i < |Split(edges, TargetEdges(targetBytes))|
    ensures var pieces := Split(edges, TargetEdges(targetBytes));
            && pieces[i] != [] && SortBy(ByKeyTs, pieces[i]) == pieces[i]
            && (i < |pieces| - 1 ==> targetBytes < 32 * (|pieces[i]| + 1))
            && (forall k :: 0 <= k < |pieces[i]| && targetBytes <= 32 * (k + 1) ==>
                  pieces[i][k].src == pieces[i][|pieces[i]| - 1].src)
  {
    var target := TargetEdges(targetBytes);
    PiecesSorted(edges, target, i);
    SplitShape(edges, target, i);
    SortByFixed(ByKeyTs, Split(edges, target)[i]);
  }

  lemma {:induction false} PiecesAscend(edges: seq<Edge>, target: nat, i: nat, j: nat)
    requires target > 0 && SortedBy(ByKeyTs, edges) && i < j < |Split(edges, target)|
    ensures var pieces := Split(edges, target);
            pieces[i] != [] && pieces[j] != [] && pieces[i][|pieces[i]| - 1].src < pieces[j][0].src
  {
    var pieces := Split(edges, target);
    SplitShape(edges, target, i);
    SplitShape(edges, target, j);
    ByKeyTsIsBySrc(edges);
    SplitNeverSplitsSource(edges, target, i, j, pieces[i][|pieces[i]| - 1], pieces[j][0]);
  }

  lemma {:induction false} MetaIs(firstId: nat, level: nat, segments: seq<seq<Edge>>, i: nat)
    requires i < |segments| && segments[i] != [] && SortBy(ByKeyTs, segments[i]) == segments[i]
    ensures var m := NewMetas(firstId, level, segments)[i];
            && m.level == level && m.fileId == firstId + i && m.edgeCount == |segments[i]|
            && m.minSrc == segments[i][0].src && m.maxSrc == segments[i][|segments[i]| - 1].src
  {
    hide SortBy, Offsets, SegmentLabel, SegmentType, MinTs, MaxTs;
  }

  lemma {:induction false} MetasAscend(firstId: nat, edges: seq<Edge>, targetBytes: nat, i: nat, j: nat)
    requires SortedBy(ByKeyTs, edges) && i < j < |Split(edges, TargetEdges(targetBytes))|
    ensures var metas := NewMetas(firstId, L1, Split(edges, TargetEdges(targetBytes)));
            metas[i].maxSrc < metas[j].minSrc
  {
    hide Split, SortBy, TargetEdges, NewMetas, SortedBy;
    TargetEdgesMeaning(targetBytes);
    var pieces := Split(edges, TargetEdges(targetBytes));
    MetaCount(firstId, L1, pieces);
    PieceShape(edges, targetBytes, i);
    PieceShape(edges, targetBytes, j);
    PiecesAscend(edges, TargetEdges(targetBytes), i, j);
    MetaIs(firstId, L1, pieces, i);
    MetaIs(firstId, L1, pieces, j);
  }

  lemma {:induction false} PieceFit(f: Files, edges: seq<Edge>, targetBytes: nat, i: nat)
    requires SortedBy(ByKeyTs, edges) && i < |Split(edges, TargetEdges(targetBytes))|
    ensures var pieces := Split(edges, TargetEdges(targetBytes));
            PieceFits(targetBytes, f, NewFiles(f, L1, pieces), NewMetas(f.nextFileId, L1, pieces), i)
  {
    hide Split, NewFiles, SortBy, TargetEdges, NewMetas, SortedBy;
    TargetEdgesMeaning(targetBytes);
    var pieces := Split(edges, TargetEdges(targetBytes));
    var metas := NewMetas(f.nextFileId, L1, pieces);
    MetaCount(f.nextFileId, L1, pieces);
    NewFilesMeaning(f, L1, pieces);
    assert FileIs(NewFiles(f, L1, pieces).disk, f.nextFileId + i, pieces[i]);
    PieceShape(edges, targetBytes, i);
    MetaIs(f.nextFileId, L1, pieces, i);
    forall j | i < j < |metas|
      ensures metas[i].maxSrc < metas[j].minSrc
    {
      MetasAscend(f.nextFileId, edges, targetBytes, i, j);
    }
  }

  lemma {:induction false} MetaCount(firstId: nat, level: nat, segments: seq<seq<Edge>>)
    ensures |NewMetas(firstId, level, segments)| == |segments|
  {
  }

  // ------------------------------------------------------ the whole of a step

  /** All a targeted compaction does to the levels and the records in them. */
  ghost predicate IsTargetCompaction(targetBytes: nat, t: Target, s: State, s': State, metas: seq<Meta>) {
    var l0, l1 := LevelAt(s.version.levels, L0), LevelAt(s.version.levels, L1);
    && (forall m :: m in LevelAt(s'.version.levels, L0) <==> m in l0 && Spared(t, m))
    && (forall m :: m in LevelAt(s'.version.levels, L1) <==> (m in l1 && SparedBelow(t, l0, m)) || m in metas)
    && (forall m, e :: m in l0 && e in RecordsOf(s.files.disk, m) && Wanted(t, e) ==> m !in LevelAt(s'.version.levels, L0))
    && (exists taken: seq<Meta> ::
          && (forall m :: m in taken <==> (m in l0 && !Spared(t, m)) || (m in l1 && !SparedBelow(t, l0, m)))
          && RecordsUnder(s'.files, metas) == LatestAt(RecordsUnder(s.files, taken), s.clock))
    && CutToSize(targetBytes, s.files, s'.files, metas)
    && ((exists m :: m in l0 && !Spared(t, m)) ==>
          InPartitionOrder(LevelAt(s'.version.levels, L0)) && InPartitionOrder(LevelAt(s'.version.levels, L1)))
  }

  lemma {:induction false} TargetMeaning(c: Config, s: State, h: History, t: Target)
    requires Inv(s, h)
    ensures IsTargetCompaction(c.segmentTargetBytes, t, s, CompactTarget(c, s, t), TargetMetas(c, s, t))
  {
    hide Inv, CompactTarget, TargetMetas, Spared, SparedBelow, Wanted, LevelAt, RecordsUnder, LatestAt, CutToSize,
      InPartitionOrder;
    var s' := CompactTarget(c, s, t);
    var l0, l1 := LevelAt(s.version.levels, L0), LevelAt(s.version.levels, L1);
    forall m
      ensures m in LevelAt(s'.version.levels, L0) <==> m in l0 && Spared(t, m)
      ensures m in LevelAt(s'.version.levels, L1) <==> (m in l1 && SparedBelow(t, l0, m)) || m in TargetMetas(c, s, t)
    {
      TargetTakes(c, s, h, t, m);
    }
    forall m, e | m in l0 && e in RecordsOf(s.files.disk, m) && Wanted(t, e)
      ensures m !in LevelAt(s'.version.levels, L0)
    {
      WantedLeavesL0(c, s, h, t, m, e);
    }
    var taken := TargetWrites(c, s, h, t);
    TargetCut(c, s, t);
    if m :| m in l0 && !Spared(t, m) {
      SelectL0Is(s.version.levels, t, m);
      TargetOrders(c, s, h, t);
    }
  }

  lemma {:induction false} TargetCut(c: Config, s: State, t: Target)
    ensures CutToSize(c.segmentTargetBytes, s.files, CompactTarget(c, s, t).files, TargetMetas(c, s, t))
  {
    hide SelectL0, SelectL1, SortBy, Split, NewFiles, NewMetas, Deletions, TargetLevels, PieceFits;
    if SelectL0(s.version.levels, t) != [] {
      var compacted := Compacted(s, Selected(s, t));
      SortBySorted(ByKeyTs, compacted) by { assert TotalPreorder(ByKeyTs); }
      SplitFits(s.files, SortBy(ByKeyTs, compacted), c.segmentTargetBytes);
      StillCut(c.segmentTargetBytes, s.files, NewFiles(s.files, L1, TargetOutputs(c, s, t)), Selected(s, t), TargetMetas(c, s, t));
    }
  }

  /** Only the log changes when files are deleted. */
  lemma {:induction false} StillCut(targetBytes: nat, f: Files, f': Files, deleted: seq<Meta>, metas: seq<Meta>)
    requires CutToSize(targetBytes, f, f', metas)
    ensures CutToSize(targetBytes, f, DeleteFiles(f', deleted), metas)
  {
    hide Deletions;
    forall i | 0 <= i < |metas|
      ensures PieceFits(targetBytes, f, DeleteFiles(f', deleted), metas, i)
    {
      assert PieceFits(targetBytes, f, f', metas, i);
    }
  }

  lemma {:induction false} NothingUnder(f: Files, clock: nat)
    ensures RecordsUnder(f, []) == {} && LatestAt({}, clock) == {}
  {
  }

  /** A full compaction leaves L0 empty and L1 with one segment, of the latest records of both levels. */
  lemma {:induction false} FullWrites(c: Config, s: State, h: History, force: bool)
    requires Inv(s, h)
    ensures var s' := CompactFull(c, s, force);
            if LevelAt(s.version.levels, L0) != [] && (force || |LevelAt(s.version.levels, L0)| >= c.l0FileThreshold) then
              && LevelAt(s'.version.levels, L0) == []
              && LevelAt(s'.version.levels, L1) == NewMetas(s.files.nextFileId, L1, FullOutputs(s))
              && RecordsUnder(s'.files, LevelAt(s'.version.levels, L1)) ==
                   LatestAt(RecordsUnder(s.files, LevelAt(s.version.levels, L0) + LevelAt(s.version.levels, L1)), s.clock)
            else s' == s
  {
    hide Inv, FullOutputs, NewFiles, MetaOf, ReadFiles, LatestAt, DeleteFiles;
    if FullCompactionDue(c, s, force) {
      LevelCount(s, h);
      SortOne(NewMetas(s.files.nextFileId, L1, FullOutputs(s)));
      OneOutput(s);
      FullIsCompaction(s, h);
      OutputsHoldLatest(s, h, AllInputs(s), FullOutputs(s));
    }
  }

  lemma {:induction false} SortOne(metas: seq<Meta>)
    ensures |metas| == 1 ==> SortLevel(metas) == metas
  {
    if |metas| == 1 {
      SortByFixed(ByPartition, metas);
    }
  }

  /** Metadata of the segments a flush writes. */
  function FlushMetas(c: Config, s: State, m: nat): seq<Meta> {
    NewMetas(s.files.nextFileId, L0, FlushSegs(c, s, m))
  }

  /**
   * A flush takes one frozen table off the queue and out of the version, and puts segments of exactly its records
   * into L0, which is left in order; deeper levels stay.
   */
  ghost predicate IsFlush(s: State, s': State, m: nat, metas: seq<Meta>) {
    && (forall x :: x in s'.flushTasks <==> x in s.flushTasks && x != m)
    && (forall x :: x in s'.version.memgraphs <==> x in s.version.memgraphs && x != m)
    && s'.version.id == s.version.id + 1
    && multiset(LevelAt(s'.version.levels, L0)) == multiset(LevelAt(s.version.levels, L0) + metas)
    && InPartitionOrder(LevelAt(s'.version.levels, L0))
    && |s'.version.levels| == |s.version.levels| && (forall i :: i > 0 ==> LevelAt(s'.version.levels, i) == LevelAt(s.version.levels, i))
    && (forall x :: x in metas ==> x.level == 0)
    && RecordsUnder(s'.files, metas) == Elements(Contents(s, m))
  }

  lemma {:induction false} FlushMeaning(c: Config, s: State, h: History, m: nat)
    requires Inv(s, h) && m in s.flushTasks
    ensures IsFlush(s, Flush(c, s, m), m, FlushMetas(c, s, m))
  {
    hide Inv, NewFiles, NewMetas, FlushCut, SortLevel, SortBy, Filter, InPartitionOrder, ReadFiles, Flatten;
    LevelCount(s, h);
    FlushHasRecords(s, h, m);
    var edges := SortBy(ByKeyTs, Contents(s, m));
    SortByMultiset(ByKeyTs, Contents(s, m));
    SortByElements(ByKeyTs, Contents(s, m));
    FlushCutMeaning(c, edges);
    SameElements(Flatten(FlushCut(c, edges)), edges);
    SortLevelOrders(s.version.levels[L0] + FlushMetas(c, s, m));
    NewFilesRecords(s.files, L0, FlushCut(c, edges));
    MetaIds(s.files.nextFileId, L0, FlushCut(c, edges));
    OnlyOneLeaves(s.flushTasks, m);
    OnlyOneLeaves(s.version.memgraphs, m);
  }

  lemma {:induction false} OnlyOneLeaves(ids: seq<nat>, m: nat)
    ensures forall x :: x in Filter(Without(m), ids) <==> x in ids && x != m
  {
    forall x
      ensures x in Filter(Without(m), ids) <==> x in ids && x != m
    {
      InFilter(Without(m), ids, x);
    }
  }

  lemma {:induction false} FlushHasRecords(s: State, h: History, m: nat)
    requires Inv(s, h) && m in s.flushTasks
    ensures Contents(s, m) != []
  {
    hide Durable, LevelsMatch, MemRecords;
  }

  lemma {:induction false} SameElements(a: seq<Edge>, b: seq<Edge>)
    requires multiset(a) == multiset(b)
    ensures Elements(a) == Elements(b)
  {
    forall e
      ensures e in a <==> e in b
    {
      assert e in a <==> e in multiset(a);
      assert e in b <==> e in multiset(b);
    }
  }
}
