/** The storage engine: its methods update the published version in place, one atomic step of the state machine each. */
module Engines {
  import opened Types
  import opened Sorting
  import opened Merge
  import opened Segment
  import opened FlushSegments
  import opened Manifests
  import opened Durability
  import opened Store
  import opened Runs
  import opened Compactions
  import opened Reads
  import opened Bloom
  import opened MetadataCaches
  import opened MemGraphs
  import Index

  datatype LiveVersion = LiveVersion(id: nat, memgraphs: seq<MemGraph>, levels: seq<seq<Meta>>)

  function IdsOf(graphs: seq<MemGraph>): seq<nat> {
    seq(|graphs|, i requires 0 <= i < |graphs| => graphs[i].id)
  }

  function AllBut(graphs: seq<MemGraph>, id: nat): seq<MemGraph> {
    if graphs == [] then []
    else
      var n := |graphs| - 1;
      if graphs[n].id != id then AllBut(graphs[..n], id) + [graphs[n]] else AllBut(graphs[..n], id)
  }

  lemma {:induction false} AllButIds(graphs: seq<MemGraph>, id: nat)
    ensures IdsOf(AllBut(graphs, id)) == Filter(Without(id), IdsOf(graphs))
    ensures forall g :: g in AllBut(graphs, id) ==> g in graphs
    ensures |AllBut(graphs, id)| <= |graphs|
    ensures (exists g :: g in graphs && g.id == id) ==> |AllBut(graphs, id)| < |graphs|
  {
    if graphs != [] {
      var n := |graphs| - 1;
      AllButIds(graphs[..n], id);
      assert graphs == graphs[..n] + [graphs[n]];
      assert IdsOf(graphs)[..n] == IdsOf(graphs[..n]);
      if graphs[n].id != id {
        assert IdsOf(AllBut(graphs[..n], id) + [graphs[n]]) == IdsOf(AllBut(graphs[..n], id)) + [graphs[n].id];
      }
    }
  }

  lemma {:induction false} RunsOne(c: Config, s: State, h: History, op: Op)
    requires Enabled(c, s, op)
    ensures Runs.Runs(c, s, h, [op], Step(c, s, op), StepHistory(c, s, h, op))
  {
    hide Enabled, Step, StepHistory;
    assert [op][1..] == [];
    assert Runs.Runs(c, Step(c, s, op), StepHistory(c, s, h, op), [], Step(c, s, op), StepHistory(c, s, h, op));
  }

  lemma {:induction false} RunsAppend(c: Config, s: State, h: History, a: seq<Op>, s1: State, h1: History,
                                      b: seq<Op>, s2: State, h2: History)
    requires Runs.Runs(c, s, h, a, s1, h1) && Runs.Runs(c, s1, h1, b, s2, h2)
    ensures Runs.Runs(c, s, h, a + b, s2, h2)
    decreases |a|
  {
    hide Enabled, Step, StepHistory;
    if a == [] {
      assert a + b == b;
    } else {
      RunsAppend(c, Step(c, s, a[0]), StepHistory(c, s, h, a[0]), a[1..], s1, h1, b, s2, h2);
      assert (a + b)[0] == a[0] && (a + b)[1..] == a[1..] + b;
    }
  }

  lemma {:induction false} NoCrashAppend(a: seq<Op>, b: seq<Op>)
    requires NoCrash(a) && NoCrash(b)
    ensures NoCrash(a + b)
  {
  }

  class Engine {
    const config: Config
    const manifest: Manifest
    const cache: MetadataCache<CachedMetadata>

    var active: MemGraph
    var nextMemId: nat
    var flushTasks: seq<MemGraph>
    var version: LiveVersion
    var nextFileId: nat
    var timestamp: nat
    var disk: map<nat, seq<Edge>>
    var index: Index.Entries

    /** Every MemGraph of this process; the state-machine state this object represents; its history. */
    ghost var tables: set<MemGraph>
    ghost var state: State
    ghost var history: History

    /** A table of this process: its layout is in order and its records are the ones the state has for its id. */
    ghost predicate TableOk(g: MemGraph, mem: map<nat, seq<Edge>>)
      reads g
    {
      g.Valid() && g.capacityBytes == config.memgraphCapacityBytes && g.id in mem && g.contents == mem[g.id]
    }

    ghost predicate Owned()
      reads this, tables
    {
      && (forall g :: g in tables ==> TableOk(g, state.mem))
      && (forall g, h :: g in tables && h in tables && g.id == h.id ==> g == h)
      && active in tables
      && (forall g :: g in flushTasks ==> g in tables)
      && (forall g :: g in version.memgraphs ==> g in tables)
    }

    /** The fields are the state, piece by piece. */
    ghost predicate Represents()
      reads this, manifest
    {
      && active.id == state.active && nextMemId == state.nextMemId
      && IdsOf(flushTasks) == state.flushTasks
      && version.id == state.version.id && version.levels == state.version.levels
      && IdsOf(version.memgraphs) == state.version.memgraphs
      && timestamp == state.clock
      && Files(disk, manifest.log, nextFileId) == state.files
    }

    /** Every cached entry is the metadata of the file on disk under its id. */
    ghost predicate CacheHolds(files: map<nat, seq<Edge>>, nextId: nat)
      reads cache
    {
      && cache.Valid()
      && forall id :: id in cache.entries ==>
           id < nextId && id in files && cache.entries[id] == MetadataOf(files[id])
    }

    ghost predicate Valid()
      reads this, tables, manifest, cache
    {
      && Owned() && Represents()
      && Inv(state, history)
      && CacheHolds(disk, nextFileId)
      && Index.Indexes(index, disk, version.levels)
    }

    // ------------------------------------------------------------- opening

    /** Opens whatever the disk and the manifest hold; on an empty store this is `create`. */
    constructor Open(config: Config, disk: map<nat, seq<Edge>>, manifest: Manifest,
                     ghost durable: set<Edge>, ghost floor: nat)
      requires Durable(Files(disk, manifest.log, Replay(manifest.log).maxFileId + 1), durable, floor)
      ensures Valid() && fresh(tables) && this.config == config && this.manifest == manifest
      ensures state == Reopen(config, Files(disk, manifest.log, Replay(manifest.log).maxFileId + 1))
      ensures history == History(durable, durable, floor)
    {
      hide Inv, MemGraph.Valid, Replay, SplitLevels, Durable, Index.Indexes, Reopen, MetadataOf, MetadataCache.Valid;
      ghost var f := Files(disk, manifest.log, Replay(manifest.log).maxFileId + 1);
      var recovered := manifest.Load();
      var first := new MemGraph(1, config.memgraphCapacityBytes, config.inlineSegmentCapacity);
      var levels := SplitIntoLevels(recovered.liveFiles, config.maxLevels);
      this.config := config;
      this.manifest := manifest;
      this.cache := new MetadataCache(4096);
      this.active := first;
      this.nextMemId := 2;
      this.flushTasks := [];
      this.version := LiveVersion(1, [first], levels);
      this.nextFileId := recovered.nextFileId;
      this.timestamp := recovered.maxTs;
      this.disk := disk;
      this.index := map[];
      this.tables := {first};
      this.state := Reopen(config, f);
      this.history := History(durable, durable, floor);
      new;
      hide Owned, Represents;
      OpenedAs(f, first);
      ReopenInv(config, f, None, durable, floor);
      assert CacheHolds(disk, nextFileId);
      Reindex();
    }

    /** The fields of a freshly opened engine are the reopened state. */
    lemma {:induction false} OpenedAs(f: Files, first: MemGraph)
      requires f.nextFileId == Replay(f.manifest).maxFileId + 1 && state == Reopen(config, f)
      requires Files(disk, manifest.log, nextFileId) == f && timestamp == Replay(f.manifest).maxTs
      requires first.Valid() && first.id == 1 && first.contents == [] && first.capacityBytes == config.memgraphCapacityBytes
      requires tables == {first} && active == first && nextMemId == 2 && flushTasks == []
      requires version == LiveVersion(1, [first], SplitLevels(Replay(f.manifest).live, config.maxLevels))
      ensures Owned() && Represents()
    {
      hide MemGraph.Valid, Replay, SplitLevels, Reopen;
      ReopenFields(config, f);
      IdsOfOne(first);
    }

    static lemma {:induction false} IdsOfOne(g: MemGraph)
      ensures IdsOf([g]) == [g.id] && IdsOf([]) == []
    {
    }

    static lemma {:induction false} ReopenFields(c: Config, f: Files)
      requires f.nextFileId == Replay(f.manifest).maxFileId + 1
      ensures var s := Reopen(c, f);
              && s.mem == map[1 := []] && s.active == 1 && s.nextMemId == 2 && s.flushTasks == []
              && s.version == Version(1, [1], SplitLevels(Replay(f.manifest).live, c.maxLevels))
              && s.clock == Replay(f.manifest).maxTs && s.files == f
    {
    }

    // ------------------------------------------------------------- writing

    /** Freezes the active table for flushing and publishes a version with a new one in front. */
    method RotateActive()
      requires Owned() && Represents() && MemInv(state)
      modifies this`active, this`nextMemId, this`flushTasks, this`version, this`tables, this`state
      ensures Owned() && Represents() && state == Store.Rotate(old(state))
      ensures version.levels == old(version.levels)
      ensures fresh(tables - old(tables)) && fresh(active) && active.contents == []
      ensures flushTasks == old(flushTasks) + [old(active)]
      ensures version.memgraphs == [active] + old(version.memgraphs)
    {
      hide MemInv, MemGraph.Valid;
      NewIdIsFree(state);
      var oldActive := active;
      var newActive := new MemGraph(nextMemId, config.memgraphCapacityBytes, config.inlineSegmentCapacity);
      active := newActive;
      tables := tables + {newActive};
      version := LiveVersion(version.id + 1, [newActive] + version.memgraphs, version.levels);
      flushTasks := flushTasks + [oldActive];
      nextMemId := nextMemId + 1;
      state := Store.Rotate(state);
    }

    method Write(src: u64, dst: u64, edgeType: i32, marker: Marker) returns (ts: u64)
      requires Valid() && timestamp < U64_MAX
      modifies this, tables
      ensures Valid() && fresh(tables - old(tables))
      ensures ts == old(timestamp) + 1 <= U64_MAX
      ensures state == Store.Write(config, old(state), Edge(src, dst, edgeType, ts, marker))
      ensures history == old(history).(log := old(history).log + {Edge(src, dst, edgeType, ts, marker)})
      ensures old(active).contents == old(active.contents) + [Edge(src, dst, edgeType, ts, marker)]
      ensures if 32 * (|old(active.contents)| + 1) >= config.memgraphCapacityBytes
              then fresh(active) && active.contents == [] && flushTasks == old(flushTasks) + [old(active)]
              else active == old(active) && flushTasks == old(flushTasks)
    {
      hide Inv, Owned, Represents, CacheHolds, Index.Indexes, Store.Rotate, Fresh;
      ActiveFacts();
      ts := timestamp + 1;
      var edge := Edge(src, dst, edgeType, ts, marker);
      NewerIsFresh(state, history, edge);
      WriteInv(config, state, history, edge);
      var full := AppendRecord(edge);
      if full {
        RotateActive();
      }
    }

    lemma {:induction false} ActiveFacts()
      requires Owned() && Represents()
      ensures active.id == state.active && active.id in state.mem && active.contents == state.mem[state.active]
      ensures active in tables && timestamp == state.clock
    {
    }

    method AppendRecord(edge: Edge) returns (full: bool)
      requires Owned() && Represents() && Fresh(active.contents, edge)
      modifies this`timestamp, this`state, this`history, active
      ensures Owned() && Represents() && state == Append(old(state), edge)
      ensures history == old(history).(log := old(history).log + {edge})
      ensures timestamp == old(timestamp) + 1
      ensures full == (EDGE_RECORD_SIZE * |Contents(state, old(state).active)| >= config.memgraphCapacityBytes)
      ensures active.contents == old(active.contents) + [edge] && Contents(state, old(state).active) == active.contents
      ensures tables == old(tables)
    {
      hide Holds, Fresh;
      timestamp := timestamp + 1;
      active.Insert(edge);
      state := Append(state, edge);
      history := history.(log := history.log + {edge});
      full := active.IsFull();
    }

    static lemma {:induction false} NewerIsFresh(s: State, h: History, e: Edge)
      requires Inv(s, h) && e.ts == s.clock + 1
      ensures s.active in s.mem && Fresh(s.mem[s.active], e)
      ensures MemInv(Append(s, e))
    {
      hide Durable, LevelsMatch, MemRecords;
      AppendMemInv(s, e);
    }

    static lemma {:induction false} NewIdIsFree(s: State)
      requires MemInv(s)
      ensures s.nextMemId !in s.mem
    {
    }

    method InsertEdge(src: u64, dst: u64, edgeType: i32) returns (ts: u64)
      requires Valid() && timestamp < U64_MAX
      modifies this, tables
      ensures Valid() && fresh(tables - old(tables))
      ensures ts == old(timestamp) + 1 <= U64_MAX
      ensures state == Store.Write(config, old(state), Edge(src, dst, edgeType, ts, Insert))
      ensures history == old(history).(log := old(history).log + {Edge(src, dst, edgeType, ts, Insert)})
    {
      hide Valid, Store.Write;
      ts := Write(src, dst, edgeType, Insert);
    }

    method DeleteEdge(src: u64, dst: u64, edgeType: i32) returns (ts: u64)
      requires Valid() && timestamp < U64_MAX
      modifies this, tables
      ensures Valid() && fresh(tables - old(tables))
      ensures ts == old(timestamp) + 1 <= U64_MAX
      ensures state == Store.Write(config, old(state), Edge(src, dst, edgeType, ts, Delete))
      ensures history == old(history).(log := old(history).log + {Edge(src, dst, edgeType, ts, Delete)})
    {
      hide Valid, Store.Write;
      ts := Write(src, dst, edgeType, Delete);
    }

    // ------------------------------------------------- segment metadata, index

    /** Every published segment is a file of this process. */
    ghost predicate FilesNamed()
      reads this
    {
      forall i, m :: 0 <= i < |version.levels| && m in version.levels[i] ==> m.fileId in disk && m.fileId < nextFileId
    }

    /** Header and offsets of a segment, from the cache or from disk. */
    method MetadataFor(meta: Meta) returns (metadata: CachedMetadata)
      requires CacheHolds(disk, nextFileId) && meta.fileId in disk && meta.fileId < nextFileId
      modifies cache
      ensures CacheHolds(disk, nextFileId) && metadata == MetadataOf(disk[meta.fileId])
    {
      hide MetadataOf, MetadataCache.MissInserted;
      var cached := cache.Get(meta.fileId);
      if cached.Some? {
        return cached.value;
      }
      metadata := ReadMetadataFromDisk(meta);
      cache.Insert(meta.fileId, metadata);
    }

    method ReadMetadataFromDisk(meta: Meta) returns (metadata: CachedMetadata)
      requires meta.fileId in disk
      ensures metadata == MetadataOf(disk[meta.fileId])
    {
      hide BloomOf, Offsets;
      var offsets := Offsets(disk[meta.fileId]);
      var filter := FromSources(Sources(offsets));
      metadata := CachedMetadata(offsets, filter);
    }

    /** The last part of every publish: the index is rebuilt for the new levels. */
    method Reindex()
      requires Owned() && Represents() && Inv(state, history) && CacheHolds(disk, nextFileId)
      modifies this`index, cache
      ensures Valid()
    {
      hide Inv, MemGraph.Valid, MetadataOf, Index.Indexes;
      InvNamesFiles(state, history);
      RebuildIndex();
    }

    method RebuildIndex()
      requires CacheHolds(disk, nextFileId) && FilesNamed() && |version.levels| >= 1
      modifies this`index, cache
      ensures CacheHolds(disk, nextFileId) && Index.Indexes(index, disk, version.levels)
    {
      hide Index.AddMetas, Index.AddOffsets, Flatten, BloomOf, Offsets;
      var entries: Index.Entries := map[];
      ghost var done: seq<seq<Meta>> := [];
      NothingIndexed(disk);
      for levelId := 0 to |version.levels|
        invariant CacheHolds(disk, nextFileId)
        invariant done == if levelId == 0 then [] else version.levels[1..levelId]
        invariant entries == Index.AddMetas(map[], disk, Flatten(done))
      {
        if levelId != L0 {
          var level := version.levels[levelId];
          assert version.levels[1..levelId + 1] == done + [level];
          entries := IndexLevel(entries, Flatten(done), level);
          FlattenAppend(done, [level]);
          FlattenOne(level);
          done := done + [level];
        }
      }
      assert done == version.levels[1..];
      RebuiltAsSpecified(disk, version.levels);
      index := entries;
    }

    static lemma {:induction false} NothingIndexed(disk: map<nat, seq<Edge>>)
      ensures Index.AddMetas(map[], disk, Flatten([])) == map[]
    {
    }

    static lemma {:induction false} RebuiltAsSpecified(disk: map<nat, seq<Edge>>, levels: seq<seq<Meta>>)
      requires |levels| >= 1
      ensures Index.Indexes(Index.AddMetas(map[], disk, Flatten(levels[1..])), disk, levels)
    {
      hide Index.Indexes, Index.AddMetas;
      Index.RebuiltIndexes(disk, levels);
    }

    method IndexLevel(entries: Index.Entries, ghost done: seq<Meta>, level: seq<Meta>) returns (out: Index.Entries)
      requires CacheHolds(disk, nextFileId) && forall m :: m in level ==> m.fileId in disk && m.fileId < nextFileId
      requires entries == Index.AddMetas(map[], disk, done)
      modifies cache
      ensures CacheHolds(disk, nextFileId) && out == Index.AddMetas(map[], disk, done + level)
    {
      hide Index.AddOffsets, BloomOf, Offsets, Index.AddMetas;
      out := entries;
      assert done + level[..0] == done;
      for j := 0 to |level|
        invariant CacheHolds(disk, nextFileId)
        invariant out == Index.AddMetas(map[], disk, done + level[..j])
      {
        var metadata := MetadataFor(level[j]);
        assert level[..j + 1] == level[..j] + [level[j]];
        IndexOneMore(disk, done + level[..j], level[j]);
        assert (done + level[..j]) + [level[j]] == done + level[..j + 1];
        out := IndexOffsets(out, level[j], metadata.offsets);
      }
      assert level[..|level|] == level;
    }

    static lemma {:induction false} IndexOneMore(disk: map<nat, seq<Edge>>, metas: seq<Meta>, m: Meta)
      ensures Index.AddMetas(map[], disk, metas + [m]) ==
              Index.AddOffsets(Index.AddMetas(map[], disk, metas), m, Offsets(RecordsOf(disk, m)))
    {
      hide Offsets, Index.AddOffsets;
      assert (metas + [m])[..|metas|] == metas;
    }

    static method IndexOffsets(entries: Index.Entries, meta: Meta, offsets: seq<EdgeOffset>) returns (out: Index.Entries)
      ensures out == Index.AddOffsets(entries, meta, offsets)
    {
      out := entries;
      for k := 0 to |offsets|
        invariant out == Index.AddOffsets(entries, meta, offsets[..k])
      {
        assert offsets[..k + 1][..k] == offsets[..k];
        out := Index.AddEntry(out, offsets[k].src, meta);
      }
      assert offsets[..|offsets|] == offsets;
    }

    // ------------------------------------------------------------- flushing

    method WriteFiles(level: nat, segments: seq<seq<Edge>>) returns (metas: seq<Meta>)
      modifies this`disk, this`nextFileId, manifest
      ensures Files(disk, manifest.log, nextFileId) ==
              NewFiles(old(Files(disk, manifest.log, nextFileId)), level, segments)
      ensures metas == NewMetas(old(nextFileId), level, segments)
    {
      hide SortBy, MetaOf;
      metas := [];
      ghost var before := Files(disk, manifest.log, nextFileId);
      for i := 0 to |segments|
        invariant Files(disk, manifest.log, nextFileId) == NewFiles(before, level, segments[..i])
        invariant nextFileId == before.nextFileId + i
        invariant metas == NewMetas(before.nextFileId, level, segments[..i])
      {
        assert segments[..i + 1][..i] == segments[..i];
        var fileId := AllocFileId();
        var sorted := SortBy(ByKeyTs, segments[i]);
        var meta := MetaOf(level, fileId, sorted);
        disk := disk[fileId := sorted];
        manifest.Append(CreateFile(meta));
        NewMetasPush(before.nextFileId, level, segments[..i + 1]);
        metas := metas + [meta];
      }
      assert segments[..|segments|] == segments;
    }

    method AllocFileId() returns (fileId: nat)
      modifies this`nextFileId
      ensures fileId == old(nextFileId) && nextFileId == old(nextFileId) + 1
    {
      fileId := nextFileId;
      nextFileId := nextFileId + 1;
    }

    method DeleteRecords(metas: seq<Meta>)
      modifies manifest
      ensures manifest.log == old(manifest.log) + Deletions(metas)
    {
      for i := 0 to |metas|
        invariant manifest.log == old(manifest.log) + Deletions(metas[..i])
      {
        assert Deletions(metas[..i + 1]) == Deletions(metas[..i]) + [DeleteFile(metas[i].fileId)];
        manifest.Append(DeleteFile(metas[i].fileId));
      }
      assert metas[..|metas|] == metas;
    }

    static lemma {:induction false} TaskHasRecords(s: State, h: History, m: nat)
      requires Inv(s, h) && m in s.flushTasks
      ensures m in s.mem && s.mem[m] != [] && SortBy(ByKeyTs, s.mem[m]) != []
    {
      hide Durable, LevelsMatch, MemRecords;
      SortByMultiset(ByKeyTs, s.mem[m]);
    }

    static lemma {:induction false} InvNamesFiles(s: State, h: History)
      requires Inv(s, h)
      ensures |s.version.levels| >= 2
      ensures forall i, m :: 0 <= i < |s.version.levels| && m in s.version.levels[i] ==>
                m.fileId in s.files.disk && m.fileId < s.files.nextFileId && SortedBy(ByKeyTs, s.files.disk[m.fileId]) &&
                m == MetaOf(m.level, m.fileId, s.files.disk[m.fileId])
    {
      hide Replay, MemInv, MemRecords, Covers, MetaOf, LiveRecords;
    }

    /** Coherence survives new files: they only take ids the cache cannot hold. */
    static lemma {:induction false} StillCoherent(entries: map<nat, CachedMetadata>, f: Files, level: nat, segments: seq<seq<Edge>>)
      requires forall id :: id in entries ==> id < f.nextFileId && id in f.disk && entries[id] == MetadataOf(f.disk[id])
      ensures var f' := NewFiles(f, level, segments);
              forall id :: id in entries ==> id < f'.nextFileId && id in f'.disk && entries[id] == MetadataOf(f'.disk[id])
    {
      hide NewFiles, MetadataOf;
      NewFilesExtend(f, level, segments);
    }

    static lemma {:induction false} FlushFields(c: Config, s: State, m: nat)
      requires SortBy(ByKeyTs, Contents(s, m)) != [] && |s.version.levels| >= 1
      ensures var s' := Store.Flush(c, s, m);
              var segments := FlushCut(c, SortBy(ByKeyTs, Contents(s, m)));
              && s'.mem == s.mem && s'.active == s.active && s'.nextMemId == s.nextMemId && s'.clock == s.clock
              && s'.flushTasks == Filter(Without(m), s.flushTasks)
              && s'.files == NewFiles(s.files, L0, segments)
              && s'.version == Version(
                   s.version.id + 1, Filter(Without(m), s.version.memgraphs),
                   s.version.levels[L0 := SortLevel(s.version.levels[L0] + NewMetas(s.files.nextFileId, L0, segments))])
    {
      hide FlushCut, NewFiles, NewMetas, SortLevel;
      SortByMultiset(ByKeyTs, Contents(s, m));
    }

    method FlushMemgraph(m: MemGraph)
      requires Valid() && m in flushTasks
      modifies this, manifest, cache
      ensures Valid() && tables == old(tables)
      ensures state == Store.Flush(config, old(state), m.id)
      ensures IsFlush(old(state), state, m.id, FlushMetas(config, old(state), m.id))
      ensures history == old(history).(durable := old(history).durable + Elements(m.contents))
      ensures |flushTasks| < |old(flushTasks)|
    {
      hide Inv, MemGraph.Valid, MetadataOf, Index.Indexes, Store.Flush, Filter, SortBy, IdsOf, IsFlush, FlushMetas;
      TaskIsQueued(flushTasks, m);
      FlushMeaning(config, state, history, m.id);
      FlushInv(config, state, history, m.id);
      TaskHasRecords(state, history, m.id);
      InvNamesFiles(state, history);
      var edges := m.AllEdgesSorted();
      if edges == [] {
        assert false;
      } else {
        PublishFlush(m, edges);
        Reindex();
      }
    }

    /** Cuts the records into segments and writes them. */
    method WriteFlush(edges: seq<Edge>) returns (metas: seq<Meta>)
      requires edges != [] && CacheHolds(disk, nextFileId) && Files(disk, manifest.log, nextFileId) == state.files
      modifies this`disk, this`nextFileId, manifest
      ensures CacheHolds(disk, nextFileId)
      ensures Files(disk, manifest.log, nextFileId) == NewFiles(state.files, L0, FlushCut(config, edges))
      ensures metas == NewMetas(state.files.nextFileId, L0, FlushCut(config, edges))
    {
      hide NewFiles, NewMetas, FlushCut, SortBy, MetadataOf, MetadataCache.Valid;
      var segments := BuildL0FlushSegments(config, edges);
      StillCoherent(cache.entries, state.files, L0, segments);
      metas := WriteFiles(L0, segments);
    }

    /** Writes the segments of a frozen table and publishes them in its place. */
    method PublishFlush(m: MemGraph, edges: seq<Edge>)
      requires Owned() && Represents() && CacheHolds(disk, nextFileId) && |version.levels| >= 1
      requires m in flushTasks && edges == SortBy(ByKeyTs, m.contents) && edges != []
      modifies this`disk, this`nextFileId, this`version, this`flushTasks, this`state, this`history, manifest
      ensures Owned() && Represents() && CacheHolds(disk, nextFileId)
      ensures state == Store.Flush(config, old(state), m.id)
      ensures history == old(history).(durable := old(history).durable + Elements(m.contents))
      ensures |flushTasks| < |old(flushTasks)|
    {
      hide MemGraph.Valid, NewFiles, NewMetas, FlushCut, SortBy, MetadataOf, SortLevel, Store.Flush, AllBut, IdsOf, Filter,
        MetadataCache.Valid;
      assert Contents(state, m.id) == m.contents;
      FlushFields(config, state, m.id);
      AllButIds(flushTasks, m.id);
      AllButIds(version.memgraphs, m.id);
      var metas := WriteFlush(edges);
      hide CacheHolds;
      flushTasks := AllBut(flushTasks, m.id);
      PublishSegments(m, metas);
      history := history.(durable := history.durable + Elements(m.contents));
      state := Store.Flush(config, state, m.id);
    }

    method PublishSegments(m: MemGraph, metas: seq<Meta>)
      requires |version.levels| >= 1
      modifies this`version
      ensures version == LiveVersion(
                old(version).id + 1, AllBut(old(version).memgraphs, m.id),
                old(version).levels[L0 := SortLevel(old(version).levels[L0] + metas)])
    {
      hide SortLevel, AllBut;
      var levels := Grow(version.levels, L0 + 1);
      levels := levels[L0 := SortLevel(levels[L0] + metas)];
      version := LiveVersion(version.id + 1, AllBut(version.memgraphs, m.id), levels);
    }

    static lemma {:induction false} TaskIsQueued(graphs: seq<MemGraph>, m: MemGraph)
      requires m in graphs
      ensures m.id in IdsOf(graphs)
    {
      var i :| 0 <= i < |graphs| && graphs[i] == m;
      assert IdsOf(graphs)[i] == m.id;
    }

    /** Runs every pending flush, newest first. */
    method WaitForFlushes() returns (ghost ops: seq<Op>)
      requires Valid()
      modifies this, manifest, cache
      ensures Valid() && tables == old(tables) && flushTasks == [] && state.flushTasks == []
      ensures Runs.Runs(config, old(state), old(history), ops, state, history) && NoCrash(ops)
      ensures forall op :: op in ops ==> op.FlushOp?
      ensures history.log == old(history.log) && history.floor == old(history.floor)
      ensures old(history.durable) <= history.durable
      ensures state.mem == old(state.mem) && state.active == old(state.active) && state.clock == old(state.clock)
    {
      hide Inv, Owned, CacheHolds, Index.Indexes, Store.Flush;
      ops := [];
      RunsNone(config, state, history);
      while flushTasks != []
        invariant Valid() && tables == old(tables)
        invariant Runs.Runs(config, old(state), old(history), ops, state, history) && NoCrash(ops)
        invariant forall op :: op in ops ==> op.FlushOp?
        invariant history.log == old(history.log) && history.floor == old(history.floor)
        invariant old(history.durable) <= history.durable
        invariant state.mem == old(state.mem) && state.active == old(state.active) && state.clock == old(state.clock)
        decreases |flushTasks|
      {
        var task := flushTasks[|flushTasks| - 1];
        ghost var s, h := state, history;
        TaskIsQueued(flushTasks, task);
        FlushedContents(task);
        FlushKeeps(config, s, task.id);
        FlushMemgraph(task);
        RunsMore(config, old(state), old(history), ops, s, h, FlushOp(task.id));
        ops := ops + [FlushOp(task.id)];
      }
    }

    lemma {:induction false} FlushedContents(task: MemGraph)
      requires Owned() && task in flushTasks
      ensures task.contents == Contents(state, task.id)
    {
    }

    static lemma {:induction false} FlushKeeps(c: Config, s: State, m: nat)
      ensures var s' := Store.Flush(c, s, m);
              s'.mem == s.mem && s'.active == s.active && s'.clock == s.clock
    {
      hide FlushSegs, NewFiles, NewMetas, SortLevel;
    }

    static lemma {:induction false} RunsNone(c: Config, s: State, h: History)
      ensures Runs.Runs(c, s, h, [], s, h)
    {
    }

    static lemma {:induction false} RunsMore(c: Config, s: State, h: History, ops: seq<Op>, s1: State, h1: History, op: Op)
      requires Runs.Runs(c, s, h, ops, s1, h1) && NoCrash(ops) && Enabled(c, s1, op) && !op.CrashOp?
      ensures Runs.Runs(c, s, h, ops + [op], Step(c, s1, op), StepHistory(c, s1, h1, op)) && NoCrash(ops + [op])
    {
      hide Enabled, Step, StepHistory, Runs.Runs;
      RunsOne(c, s1, h1, op);
      RunsAppend(c, s, h, ops, s1, h1, [op], Step(c, s1, op), StepHistory(c, s1, h1, op));
    }

    /** Makes everything written so far durable; then compacts if configured and due. */
    method FlushActive() returns (ghost ops: seq<Op>)
      requires Valid()
      modifies this, manifest, cache
      ensures Valid() && fresh(tables - old(tables))
      ensures Runs.Runs(config, old(state), old(history), ops, state, history) && NoCrash(ops)
      ensures history.log == old(history.log) && history.durable == history.log
      ensures state.clock == old(state.clock)
      ensures if config.autoCompaction
              then LevelAt(version.levels, L0) == [] || |LevelAt(version.levels, L0)| < config.l0FileThreshold
              else forall op :: op in ops ==> op.RotateOp? || op.FlushOp?
    {
      hide Inv, Owned, CacheHolds, Index.Indexes, MemGraph.Valid, Store.Rotate, NoCrash;
      ActiveFacts();
      var isEmpty := ActiveIsEmpty();
      ops := [];
      RunsNone(config, state, history);
      if !isEmpty {
        ops := [RotateOp];
        RotateInv(state, history);
        ActiveTableInv(state, history);
        RunsOne(config, state, history, RotateOp);
        RotateKeeps(state);
        RotateActive();
        ActiveFacts();
      }
      ghost var s1, h1 := state, history;
      ghost var more := WaitForFlushes();
      RunsAppend(config, old(state), old(history), ops, s1, h1, more, state, history);
      NoCrashAppend(ops, more);
      ops := ops + more;
      NothingInMemory(state, history);
      ghost var s2, h2 := state, history;
      more := CompactIfConfigured();
      RunsAppend(config, old(state), old(history), ops, s2, h2, more, state, history);
      NoCrashAppend(ops, more);
      ops := ops + more;
    }

    /** Compacts after a flush, if configured. */
    method CompactIfConfigured() returns (ghost ops: seq<Op>)
      requires Valid()
      modifies this, manifest, cache
      ensures Valid() && tables == old(tables)
      ensures Runs.Runs(config, old(state), old(history), ops, state, history) && NoCrash(ops)
      ensures history.log == old(history.log) && state.clock == old(state.clock)
      ensures old(history.durable) <= history.durable <= history.log
      ensures if config.autoCompaction
              then LevelAt(version.levels, L0) == [] || |LevelAt(version.levels, L0)| < config.l0FileThreshold
              else ops == []
    {
      hide Inv, Owned, Represents, CacheHolds, Index.Indexes;
      ops := [];
      RunsNone(config, state, history);
      DurableInLog(state, history);
      if config.autoCompaction {
        var output;
        ghost var flushed;
        output, ops, flushed := CompactL0ToL1(false);
      }
    }

    method ActiveIsEmpty() returns (r: bool)
      requires Owned()
      ensures r == (active.contents == [])
    {
      r := active.IsEmpty();
    }

    static lemma {:induction false} ActiveTableInv(s: State, h: History)
      requires Inv(s, h)
      ensures MemInv(s)
    {
    }

    static lemma {:induction false} RotateKeeps(s: State)
      ensures Store.Rotate(s).clock == s.clock && Store.Rotate(s).version.levels == s.version.levels
      ensures Store.Rotate(s).mem[Store.Rotate(s).active] == []
    {
    }

    static lemma {:induction false} NothingInMemory(s: State, h: History)
      requires Inv(s, h) && s.flushTasks == [] && s.active in s.mem && s.mem[s.active] == []
      ensures h.durable == h.log
    {
      hide Durable, LevelsMatch, MemRecords;
      forall e
        ensures e !in MemRecords(s)
      {
        InMemRecords(s, e);
      }
    }

    // ------------------------------------------------------------- compaction

    method ReadAll(metas: seq<Meta>) returns (updates: seq<Edge>)
      requires forall m :: m in metas ==> m.fileId in disk
      ensures updates == ReadFiles(disk, metas)
    {
      updates := [];
      for i := 0 to |metas|
        invariant updates == ReadFiles(disk, metas[..i])
      {
        assert metas[..i + 1][..i] == metas[..i];
        updates := updates + disk[metas[i].fileId];
      }
      assert metas[..|metas|] == metas;
    }

    /** Merges the selected segments at the current snapshot, keeping tombstones. */
    method CompactFiles(selected: seq<Meta>) returns (compacted: seq<Edge>)
      requires forall m :: m in selected ==> m.fileId in disk
      requires Represents()
      ensures compacted == Compacted(state, selected)
    {
      hide ReadFiles, MergeLatest;
      var updates := ReadAll(selected);
      compacted := MergeLatestRecords(updates, timestamp, true);
    }

    /** Writes the outputs, logs the inputs as deleted, publishes the levels. */
    method PublishRewrite(selected: seq<Meta>, outputs: seq<seq<Edge>>, ghost levels: seq<seq<Meta>>,
                          l0: seq<Meta>, l1: seq<Meta>) returns (metas: seq<Meta>)
      requires Owned() && Represents() && CacheHolds(disk, nextFileId) && |version.levels| >= 2
      requires levels == version.levels[L0 := l0][L1 := SortLevel(l1 + NewMetas(nextFileId, L1, outputs))]
      modifies this`disk, this`nextFileId, this`version, this`state, manifest
      ensures Owned() && Represents() && CacheHolds(disk, nextFileId)
      ensures state == Rewrite(old(state), selected, outputs, levels)
      ensures metas == NewMetas(old(nextFileId), L1, outputs)
    {
      hide MemGraph.Valid, NewFiles, NewMetas, SortLevel, MetadataOf, Deletions, IdsOf;
      StillCoherent(cache.entries, state.files, L1, outputs);
      metas := WriteFiles(L1, outputs);
      DeleteRecords(selected);
      var newLevels := version.levels[L0 := l0][L1 := SortLevel(l1 + metas)];
      version := LiveVersion(version.id + 1, version.memgraphs, newLevels);
      state := Rewrite(state, selected, outputs, levels);
    }

    static lemma {:induction false} SelectedOnDisk(s: State, h: History, t: Target)
      requires Inv(s, h)
      ensures forall m :: m in Selected(s, t) || m in AllInputs(s) ==> m.fileId in s.files.disk
      ensures |s.version.levels| >= 2
    {
      SelectedLive(s, h, t);
      hide Inv, Selected, AllInputs;
      LevelCount(s, h);
      forall m | m in Live(s.files)
        ensures m.fileId in s.files.disk
      {
        LiveOnDisk(s, h, m);
      }
    }

    static lemma {:induction false} LiveOnDisk(s: State, h: History, m: Meta)
      requires Inv(s, h) && m in Live(s.files)
      ensures m.fileId in s.files.disk
    {
      hide Replay, MemInv, LevelsMatch, MemRecords, Covers, MetaOf;
    }

    static lemma {:induction false} TargetStep(c: Config, s: State, h: History, t: Target)
      ensures Step(c, s, CompactTargetOp(t)) == CompactTarget(c, s, t)
      ensures var h' := StepHistory(c, s, h, CompactTargetOp(t));
              && h'.log == h.log && h'.durable == h.durable
              && (SelectL0(s.version.levels, t) == [] ==> h' == h && CompactTarget(c, s, t) == s)
              && (SelectL0(s.version.levels, t) != [] ==>
                    h' == h.(floor := InputFloor(s.files, Selected(s, t), h.floor)))
    {
      hide TargetOutputs, TargetLevels, Rewrite, InputFloor, Selected, SelectL0;
    }

    /** Rewrites the L0 segments of a target, and the L1 segments they overlap, into L1. */
    method CompactL0TargetToL1(t: Target) returns (metas: seq<Meta>, ghost ops: seq<Op>, ghost flushed: State)
      requires Valid()
      modifies this, manifest, cache
      ensures Valid() && tables == old(tables)
      ensures Runs.Runs(config, old(state), old(history), ops, state, history) && NoCrash(ops)
      ensures history.log == old(history.log)
      ensures |ops| > 0 && ops[|ops| - 1] == CompactTargetOp(t)
      ensures flushed.flushTasks == [] && state == CompactTarget(config, flushed, t)
      ensures metas == TargetMetas(config, flushed, t) &&
              IsTargetCompaction(config.segmentTargetBytes, t, flushed, state, metas)
    {
      hide Inv, Owned, CacheHolds, Index.Indexes, CompactTarget, InputFloor, Selected, SelectL0, Step, StepHistory,
        TargetOutputs, NewMetas, IsTargetCompaction;
      ops := WaitForFlushes();
      flushed := state;
      ghost var s, h := state, history;
      RunsMore(config, old(state), old(history), ops, s, h, CompactTargetOp(t));
      TargetStep(config, s, h, t);
      TargetMeaning(config, s, h, t);
      ops := ops + [CompactTargetOp(t)];
      var selectedL0 := SelectL0(version.levels, t);
      metas := [];
      if selectedL0 != [] {
        metas := CompactSelected(t);
      }
    }

    method CompactSelected(t: Target) returns (metas: seq<Meta>)
      requires Valid() && SelectL0(version.levels, t) != []
      modifies this, manifest, cache
      ensures Valid() && tables == old(tables)
      ensures state == CompactTarget(config, old(state), t)
      ensures history == old(history).(floor := InputFloor(old(state).files, Selected(old(state), t), old(history).floor))
      ensures metas == NewMetas(old(nextFileId), L1, TargetOutputs(config, old(state), t))
    {
      hide Inv, MemGraph.Valid, Index.Indexes, InputFloor, SelectL0, SelectL1, MetadataOf, NewFiles, NewMetas, Compacted,
        SortLevel, Split, SortBy, Deletions, IdsOf, MetadataCache.Valid, Filter, Ids;
      ghost var s, h := state, history;
      StepInv(config, s, h, CompactTargetOp(t));
      SelectedOnDisk(s, h, t);
      var l0, l1 := SelectL0(version.levels, t), SelectL1(version.levels, t);
      var compacted := CompactFiles(l0 + l1);
      var outputs := SplitRangeBoundedSegments(SortBy(ByKeyTs, compacted), config.segmentTargetBytes);
      metas := PublishRewrite(l0 + l1, outputs, TargetLevels(s, t, outputs),
                              SortLevel(Filter(NotIn(Ids(l0)), version.levels[L0])),
                              Filter(NotIn(Ids(l1)), version.levels[L1]));
      history := h.(floor := InputFloor(s.files, l0 + l1, h.floor));
      Reindex();
    }

    static lemma {:induction false} FullStep(c: Config, s: State, h: History, force: bool)
      ensures Step(c, s, CompactFullOp(force)) == CompactFull(c, s, force)
      ensures var h' := StepHistory(c, s, h, CompactFullOp(force));
              && h'.log == h.log && h'.durable == h.durable
              && (!FullCompactionDue(c, s, force) ==> h' == h && CompactFull(c, s, force) == s)
              && (FullCompactionDue(c, s, force) ==> h' == h.(floor := InputFloor(s.files, AllInputs(s), h.floor)))
    {
      hide FullOutputs, FullLevels, Rewrite, InputFloor, AllInputs;
    }

    static lemma {:induction false} DurableInLog(s: State, h: History)
      requires Inv(s, h)
      ensures h.durable <= h.log
    {
    }

    static lemma {:induction false} FullClock(c: Config, s: State, force: bool)
      ensures CompactFull(c, s, force).clock == s.clock
    {
      hide FullOutputs, FullLevels, AllInputs;
    }

    /** Rewrites all of L0 and L1 into one L1 segment, when forced or when L0 has reached its threshold. */
    method CompactL0ToL1(force: bool) returns (output: Option<Meta>, ghost ops: seq<Op>, ghost flushed: State)
      requires Valid()
      modifies this, manifest, cache
      ensures Valid() && tables == old(tables)
      ensures Runs.Runs(config, old(state), old(history), ops, state, history) && NoCrash(ops)
      ensures history.log == old(history.log) && state.clock == old(state.clock)
      ensures old(history.durable) <= history.durable <= history.log
      ensures |ops| > 0 && ops[|ops| - 1] == CompactFullOp(force)
      ensures flushed.flushTasks == [] && state == CompactFull(config, flushed, force)
      ensures output.Some? <==>
              LevelAt(flushed.version.levels, L0) != [] &&
              (force || |LevelAt(flushed.version.levels, L0)| >= config.l0FileThreshold)
      ensures output.Some? ==>
                && LevelAt(version.levels, L0) == [] && LevelAt(version.levels, L1) == [output.value]
                && RecordsUnder(state.files, [output.value]) ==
                     LatestAt(RecordsUnder(flushed.files, LevelAt(flushed.version.levels, L0) + LevelAt(flushed.version.levels, L1)),
                              flushed.clock)
      ensures output.None? ==> version.levels == flushed.version.levels
    {
      hide Inv, Owned, CacheHolds, Index.Indexes, CompactFull, InputFloor, AllInputs, Step, StepHistory, FullOutputs, NewMetas,
        RecordsUnder, LatestAt;
      ops := WaitForFlushes();
      flushed := state;
      ghost var s, h := state, history;
      RunsMore(config, old(state), old(history), ops, s, h, CompactFullOp(force));
      FullStep(config, s, h, force);
      FullWrites(config, s, h, force);
      FullClock(config, s, force);
      DurableInLog(s, h);
      ops := ops + [CompactFullOp(force)];
      output := None;
      if LevelAt(version.levels, L0) != [] && (force || |LevelAt(version.levels, L0)| >= config.l0FileThreshold) {
        var meta := CompactEverything(force);
        output := Some(meta);
      }
    }

    method CompactEverything(ghost force: bool) returns (meta: Meta)
      requires Valid() && FullCompactionDue(config, state, force)
      modifies this, manifest, cache
      ensures Valid() && tables == old(tables)
      ensures state == CompactFull(config, old(state), force)
      ensures history == old(history).(floor := InputFloor(old(state).files, AllInputs(old(state)), old(history).floor))
      ensures [meta] == NewMetas(old(nextFileId), L1, FullOutputs(old(state)))
    {
      hide Inv, MemGraph.Valid, Index.Indexes, InputFloor, MetadataOf, NewFiles, Compacted, SortLevel, SortBy,
        Deletions, IdsOf, MetadataCache.Valid, MetaOf;
      ghost var s, h := state, history;
      StepInv(config, s, h, CompactFullOp(force));
      SelectedOnDisk(s, h, Target(0, None, None));
      var inputs := LevelAt(version.levels, L0) + LevelAt(version.levels, L1);
      var compacted := CompactFiles(inputs);
      assert [] + NewMetas(nextFileId, L1, [compacted]) == NewMetas(nextFileId, L1, [compacted]);
      var metas := PublishRewrite(inputs, [compacted], FullLevels(s), [], []);
      meta := metas[0];
      history := h.(floor := InputFloor(s.files, inputs, h.floor));
      Reindex();
    }

    // ------------------------------------------------------------------ reads

    /** Every record of the current version, merged at the snapshot. */
    method ScanEdges(snapshot: nat) returns (out: seq<Edge>)
      requires Valid()
      ensures out == Scan(state, snapshot)
      ensures history.floor <= snapshot ==>
                StrictlyByKey(out) && Elements(out) == View(history.log, snapshot)
    {
      hide Inv, CacheHolds, Index.Indexes, MemGraph.Valid, SortBy, View, StrictlyByKey, MergeLatest, Flatten;
      var updates: seq<Edge> := [];
      for i := 0 to |version.memgraphs|
        invariant updates == ReadMem(state.mem, state.version.memgraphs[..i])
      {
        assert state.version.memgraphs[..i + 1][..i] == state.version.memgraphs[..i];
        var edges := TableEdges(version.memgraphs[i]);
        updates := updates + edges;
      }
      assert state.version.memgraphs[..|version.memgraphs|] == state.version.memgraphs;
      InvNamesFiles(state, history);
      var files := ReadLevels();
      updates := updates + files;
      out := MergeLatestRecords(updates, snapshot, false);
      out := Filter((e: Edge) => e.marker.Insert?, out);
      if history.floor <= snapshot {
        ScanIsView(state, history, snapshot);
      }
    }

    method TableEdges(g: MemGraph) returns (edges: seq<Edge>)
      requires Owned() && g in tables
      ensures g.id in state.mem && edges == SortBy(ByKeyTs, state.mem[g.id])
    {
      edges := g.AllEdgesSorted();
    }

    method ReadLevel(level: seq<Meta>, ghost before: seq<Meta>) returns (updates: seq<Edge>)
      requires forall m :: m in level ==> m.fileId in disk
      ensures ReadFiles(disk, before) + updates == ReadFiles(disk, before + level)
    {
      updates := [];
      assert before + level[..0] == before;
      for j := 0 to |level|
        invariant ReadFiles(disk, before) + updates == ReadFiles(disk, before + level[..j])
      {
        assert (before + level[..j + 1])[..|before| + j] == before + level[..j];
        assert ReadFiles(disk, before) + (updates + disk[level[j].fileId]) ==
               ReadFiles(disk, before) + updates + disk[level[j].fileId];
        updates := updates + disk[level[j].fileId];
      }
      assert level[..|level|] == level;
    }

    method ReadLevels() returns (updates: seq<Edge>)
      requires FilesNamed()
      ensures updates == ReadFiles(disk, Flatten(version.levels))
    {
      hide Flatten, ReadFiles;
      updates := [];
      EmptyFlatten<Meta>();
      NothingRead(disk);
      assert version.levels[..0] == [];
      for i := 0 to |version.levels|
        invariant updates == ReadFiles(disk, Flatten(version.levels[..i]))
      {
        var level := version.levels[i];
        var more := ReadLevel(level, Flatten(version.levels[..i]));
        assert version.levels[..i + 1] == version.levels[..i] + [level];
        FlattenAppend(version.levels[..i], [level]);
        FlattenOne(level);
        updates := updates + more;
      }
      assert version.levels[..|version.levels|] == version.levels;
    }

    static lemma {:induction false} NothingRead(disk: map<nat, seq<Edge>>)
      ensures ReadFiles(disk, []) == []
    {
    }

    // ---------------------------------------------------------------- lookups

    method GetNeighbors(src: u64, snapshot: nat) returns (out: seq<Edge>)
      requires Valid()
      modifies cache
      ensures Valid() && out == NeighborsSpec(state, src, None, snapshot)
    {
      out := GetNeighborsTypedInternal(src, None, snapshot);
    }

    method GetNeighborsTyped(src: u64, edgeType: i32, snapshot: nat) returns (out: seq<Edge>)
      requires Valid()
      modifies cache
      ensures Valid() && out == NeighborsSpec(state, src, Some(edgeType), snapshot)
    {
      out := GetNeighborsTypedInternal(src, Some(edgeType), snapshot);
    }

    /** The lookup path: tables, filtered L0 segments, indexed segments; it answers what a filtered scan would. */
    method GetNeighborsTypedInternal(src: u64, edgeType: Option<i32>, snapshot: nat) returns (out: seq<Edge>)
      requires Valid()
      modifies cache
      ensures Valid() && out == NeighborsSpec(state, src, edgeType, snapshot)
    {
      hide Inv, CacheHolds, Index.Indexes, MemGraph.Valid, Matches, MergeLatest, NeighborsSpec, Filter, Owned, Represents;
      InvNamesFiles(state, history);
      RepresentedLevels();
      var mem := NeighborsInMemory(src);
      var l0 := NeighborsInL0(src, edgeType);
      var below := NeighborsBelow(src);
      var updates := Filter(Matching(src, edgeType), mem + l0 + below);
      forall e
        ensures e in updates <==> Matches(e, src, edgeType) && e in ScanInput(state.mem, state.files.disk, state.version)
      {
        InFilter(Matching(src, edgeType), mem + l0 + below, e);
        ScanInputParts(state, src, edgeType, mem, l0, below, e);
      }
      LookupIsScan(state, history, updates, src, edgeType, snapshot);
      out := MergeLatestRecords(updates, snapshot, false);
      out := Filter((e: Edge) => e.marker.Insert?, out);
    }

    lemma {:induction false} RepresentedLevels()
      requires Represents()
      ensures version.levels == state.version.levels && disk == state.files.disk && nextFileId == state.files.nextFileId
    {
    }

    /** What the three sources of a lookup hold between them. */
    static ghost predicate MemPart(s: State, src: u64, found: seq<Edge>) {
      forall e :: e in found <==> e.src == src && InMem(s, e)
    }

    static ghost predicate InMem(s: State, e: Edge) {
      exists id :: id in s.version.memgraphs && id in s.mem && e in s.mem[id]
    }

    static ghost predicate FilePart(disk: map<nat, seq<Edge>>, metas: seq<Meta>, src: u64, edgeType: Option<i32>, found: seq<Edge>) {
      && (forall e :: e in found ==> e.src == src && InSomeFile(disk, metas, e))
      && (forall e :: Matches(e, src, edgeType) && InSomeFile(disk, metas, e) ==> e in found)
    }

    static ghost predicate InSomeFile(disk: map<nat, seq<Edge>>, metas: seq<Meta>, e: Edge) {
      exists m :: m in metas && e in RecordsOf(disk, m)
    }

    static lemma {:induction false} ScanInputParts(s: State, src: u64, edgeType: Option<i32>,
                                                   mem: seq<Edge>, l0: seq<Edge>, below: seq<Edge>, e: Edge)
      requires |s.version.levels| >= 2
      requires MemPart(s, src, mem)
      requires FilePart(s.files.disk, s.version.levels[L0], src, edgeType, l0)
      requires FilePart(s.files.disk, Flatten(s.version.levels[1..]), src, None, below)
      ensures Matches(e, src, edgeType) ==>
                (e in mem + l0 + below <==> e in ScanInput(s.mem, s.files.disk, s.version))
    {
      hide ReadMem, ReadFiles, Flatten;
      var levels := s.version.levels;
      InReadMem(s.mem, s.version.memgraphs, e);
      InReadFiles(s.files.disk, Flatten(levels), e);
      assert levels == [levels[0]] + levels[1..];
      FlattenAppend([levels[0]], levels[1..]);
      FlattenOne(levels[0]);
      assert InSomeFile(s.files.disk, Flatten(levels), e) <==>
             InSomeFile(s.files.disk, levels[L0], e) || InSomeFile(s.files.disk, Flatten(levels[1..]), e);
    }

    method NeighborsInMemory(src: u64) returns (found: seq<Edge>)
      requires Owned() && Represents()
      ensures MemPart(state, src, found)
    {
      hide MemGraph.Valid, Filter;
      found := [];
      for i := 0 to |version.memgraphs|
        invariant forall e :: e in found <==>
          e.src == src && exists k :: 0 <= k < i && e in version.memgraphs[k].contents
      {
        var edges := TableNeighbors(version.memgraphs[i], src);
        found := found + edges;
      }
      forall e
        ensures (exists k :: 0 <= k < |version.memgraphs| && e in version.memgraphs[k].contents) <==> InMem(state, e)
      {
        TablesAreMem(e);
      }
    }

    lemma {:induction false} TablesAreMem(e: Edge)
      requires Owned() && Represents()
      ensures (exists k :: 0 <= k < |version.memgraphs| && e in version.memgraphs[k].contents) <==> InMem(state, e)
    {
      hide MemGraph.Valid;
      var ids := state.version.memgraphs;
      forall k | 0 <= k < |version.memgraphs|
        ensures ids[k] == version.memgraphs[k].id && ids[k] in state.mem
        ensures version.memgraphs[k].contents == state.mem[ids[k]]
      {
        assert version.memgraphs[k] in version.memgraphs;
        assert TableOk(version.memgraphs[k], state.mem);
      }
      if k :| 0 <= k < |version.memgraphs| && e in version.memgraphs[k].contents {
        assert ids[k] in ids;
      }
      if id :| id in ids && id in state.mem && e in state.mem[id] {
        var k :| 0 <= k < |ids| && ids[k] == id;
        assert e in version.memgraphs[k].contents;
      }
    }

    method TableNeighbors(g: MemGraph, src: u64) returns (edges: seq<Edge>)
      requires Owned() && g in tables
      ensures forall e :: e in edges <==> e in g.contents && e.src == src
    {
      edges := g.GetEdgesForSrc(src);
      forall e
        ensures e in edges <==> e in g.contents && e.src == src
      {
        assert e in multiset(edges) <==> e in multiset(Filter(HasSrc(src), g.contents));
        InFilter(HasSrc(src), g.contents, e);
      }
    }

    /** The file behind a segment is in order and the metadata is its own. */
    ghost predicate FileReady(m: Meta)
      reads this`disk, this`nextFileId
    {
      && m.fileId in disk && m.fileId < nextFileId && SortedBy(ByKeyTs, disk[m.fileId])
      && m == MetaOf(m.level, m.fileId, disk[m.fileId])
    }

    method ReadNeighbors(meta: Meta, src: u64) returns (edges: seq<Edge>)
      requires CacheHolds(disk, nextFileId) && FileReady(meta)
      modifies cache
      ensures CacheHolds(disk, nextFileId)
      ensures forall e :: e in edges <==> e in RecordsOf(disk, meta) && e.src == src
    {
      hide MetaOf, Offsets, BloomOf, FindOffset, Slice, CacheHolds;
      var file := disk[meta.fileId];
      if src < meta.minSrc || src > meta.maxSrc || meta.edgeCount == 0 {
        edges := [];
      } else {
        var metadata := MetadataFor(meta);
        edges := Slice(file, FindOffset(metadata.offsets, src));
      }
      forall e
        ensures e in edges <==> e in file && e.src == src
      {
        SegmentNeighborsMeaning(meta, file, src, e);
      }
    }

    method NeighborsInL0(src: u64, edgeType: Option<i32>) returns (found: seq<Edge>)
      requires CacheHolds(disk, nextFileId) && |version.levels| >= 2
      requires forall m :: m in version.levels[L0] ==> FileReady(m)
      modifies cache
      ensures CacheHolds(disk, nextFileId)
      ensures FilePart(disk, version.levels[L0], src, edgeType, found)
    {
      hide CacheHolds, FileReady, Matches, MayContainPartition, RecordsOf;
      var level := version.levels[L0];
      found := [];
      for i := 0 to |level|
        invariant CacheHolds(disk, nextFileId)
        invariant FilePart(disk, level[..i], src, edgeType, found)
      {
        var edges := NeighborsInSegment(level[i], src, edgeType);
        OneMoreFile(disk, level[..i], level[i], src, edgeType, found, edges);
        assert level[..i + 1] == level[..i] + [level[i]];
        found := found + edges;
      }
      assert level[..|level|] == level;
    }

    static lemma {:induction false} OneMoreFile(disk: map<nat, seq<Edge>>, metas: seq<Meta>, m: Meta, src: u64,
                                                edgeType: Option<i32>, found: seq<Edge>, edges: seq<Edge>)
      requires FilePart(disk, metas, src, edgeType, found) && FilePart(disk, [m], src, edgeType, edges)
      ensures FilePart(disk, metas + [m], src, edgeType, found + edges)
    {
      hide Matches, RecordsOf;
      forall e
        ensures InSomeFile(disk, metas + [m], e) <==> InSomeFile(disk, metas, e) || InSomeFile(disk, [m], e)
      {
        if x :| x in metas + [m] && e in RecordsOf(disk, x) {
          assert x in metas || x in [m];
        }
        if x :| x in metas && e in RecordsOf(disk, x) {
          assert x in metas + [m];
        }
        if x :| x in [m] && e in RecordsOf(disk, x) {
          assert x in metas + [m];
        }
      }
    }

    /** One L0 segment: partition filter, range filter, Bloom filter if the metadata is cached, then the reader. */
    method NeighborsInSegment(meta: Meta, src: u64, edgeType: Option<i32>) returns (edges: seq<Edge>)
      requires CacheHolds(disk, nextFileId) && FileReady(meta)
      modifies cache
      ensures CacheHolds(disk, nextFileId) && FilePart(disk, [meta], src, edgeType, edges)
    {
      hide MetaOf, MayContainPartition, MetadataOf, MayContain;
      var file := disk[meta.fileId];
      forall e | e in file && Matches(e, src, edgeType)
        ensures MayContainPartition(meta, src, edgeType) && MayContain(MetadataOf(file).filter, src) && InRange(meta, src)
      {
        FiltersDropNothing(meta, file, src, edgeType, e);
      }
      assert forall e :: InSomeFile(disk, [meta], e) <==> e in file by {
        assert meta in [meta];
      }
      edges := [];
      if MayContainPartition(meta, src, edgeType) && meta.minSrc <= src <= meta.maxSrc {
        var cached := cache.Get(meta.fileId);
        if cached.None? || MayContain(cached.value.filter, src) {
          edges := ReadNeighbors(meta, src);
        }
      }
    }

    method NeighborsBelow(src: u64) returns (found: seq<Edge>)
      requires CacheHolds(disk, nextFileId) && |version.levels| >= 2 && Index.Indexes(index, disk, version.levels)
      requires forall i, m :: 0 <= i < |version.levels| && m in version.levels[i] ==> FileReady(m)
      modifies cache
      ensures CacheHolds(disk, nextFileId)
      ensures FilePart(disk, Flatten(version.levels[1..]), src, None, found)
    {
      hide CacheHolds, FileReady, Flatten, RecordsOf, Index.HoldsSource;
      var positions := Index.Get(index, src);
      found := [];
      for i := 0 to |positions|
        invariant CacheHolds(disk, nextFileId)
        invariant forall e :: e in found <==>
          e.src == src && exists k :: 0 <= k < i && e in RecordsOf(disk, positions[k])
      {
        assert positions[i] in positions;
        var edges := ReadNeighbors(positions[i], src);
        found := found + edges;
      }
      forall e: Edge | e.src == src
        ensures e in found <==> InSomeFile(disk, Flatten(version.levels[1..]), e)
      {
        IndexFindsAll(e, positions);
      }
      assert forall e :: Matches(e, src, None) <==> e.src == src;
    }

    /** The indexed segments of a source are the ones below L0 that hold a record of it. */
    lemma {:induction false} IndexFindsAll(e: Edge, positions: seq<Meta>)
      requires |version.levels| >= 2 && Index.Indexes(index, disk, version.levels)
      requires forall i, m :: 0 <= i < |version.levels| && m in version.levels[i] ==> FileReady(m)
      requires positions == Index.Get(index, e.src)
      ensures (exists k :: 0 <= k < |positions| && e in RecordsOf(disk, positions[k])) <==>
              InSomeFile(disk, Flatten(version.levels[1..]), e)
    {
      hide Flatten;
      if k :| 0 <= k < |positions| && e in RecordsOf(disk, positions[k]) {
        var m := positions[k];
        assert m in positions;
        var i :| 1 <= i < |version.levels| && m in version.levels[i];
        assert version.levels[1..][i - 1] == version.levels[i];
        InFlatten(version.levels[1..], m);
      }
      if m :| m in Flatten(version.levels[1..]) && e in RecordsOf(disk, m) {
        InFlatten(version.levels[1..], m);
        var i :| 0 <= i < |version.levels[1..]| && m in version.levels[1..][i];
        assert m in version.levels[i + 1];
        assert FileReady(m);
        SourceHasOffset(disk[m.fileId], e);
        assert Index.HoldsSource(disk, m, e.src);
        assert m in positions;
        var k :| 0 <= k < |positions| && positions[k] == m;
      }
    }
  }
}
