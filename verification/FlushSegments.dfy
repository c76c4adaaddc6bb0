/** How a flush and a compaction cut their records into segments. */
module FlushSegments {
  import opened Types
  import opened Sorting
  import opened Segment

  // ------------------------------------------------- range-bounded splitting

  function TargetEdges(targetBytes: nat): nat {
    if targetBytes / EDGE_RECORD_SIZE < 1 then 1 else targetBytes / EDGE_RECORD_SIZE
  }

  /** The target is the number of 32-byte records that fit, at least one. */
  lemma {:induction false} TargetEdgesMeaning(targetBytes: nat)
    ensures TargetEdges(targetBytes) >= 1 && targetBytes < 32 * (TargetEdges(targetBytes) + 1)
    ensures TargetEdges(targetBytes) == 1 || 32 * TargetEdges(targetBytes) <= targetBytes
  {
  }

  /** Pieces of `target` records, each extended to the end of the run its target-th record is in. */
  function Split(edges: seq<Edge>, target: nat): seq<seq<Edge>>
    requires target > 0
  {
    if edges == [] then []
    else if |edges| < target then [edges]
    else
      var cut := RunEnd(edges, target - 1, edges[target - 1].src);
      assert cut >= target;
      [edges[..cut]] + Split(edges[cut..], target)
  }

  predicate OneSourceFrom(piece: seq<Edge>, i: nat) {
    forall k :: i <= k < |piece| ==> piece[k].src == piece[i].src
  }

  lemma {:induction false} RunEndIs(edges: seq<Edge>, i: nat, end: nat, src: u64)
    requires i <= end <= |edges|
    requires forall k :: i <= k < end ==> edges[k].src == src
    requires end < |edges| ==> edges[end].src != src
    ensures RunEnd(edges, i, src) == end
    decreases end - i
  {
    if i < end {
      RunEndIs(edges, i + 1, end, src);
    }
  }

  /** State of the splitting loop: `done` is cut off, `edges[start..i]` is the current piece. */
  ghost predicate Cutting(edges: seq<Edge>, target: nat, done: seq<seq<Edge>>, start: nat, i: nat)
    requires target > 0
  {
    && start <= i <= |edges| && (i > 0 ==> start < i)
    && (forall k :: start + target - 1 <= k < i ==> edges[k].src == edges[i - 1].src)
    && done + Split(edges[start..], target) == Split(edges, target)
  }

  lemma {:induction false} CutStart(edges: seq<Edge>, target: nat)
    requires target > 0
    ensures Cutting(edges, target, [], 0, 0)
  {
    assert edges[0..] == edges;
  }

  lemma {:induction false} CutHere(edges: seq<Edge>, target: nat, done: seq<seq<Edge>>, start: nat, i: nat)
    requires target > 0 && Cutting(edges, target, done, start, i)
    requires start + target <= i < |edges| && edges[i].src != edges[i - 1].src
    ensures Cutting(edges, target, done + [edges[start..i]], i, i + 1)
  {
    hide Split;
    FirstPiece(edges, target, start, i);
    var piece := edges[start..i];
    assert done + [piece] + Split(edges[i..], target) == done + ([piece] + Split(edges[i..], target));
  }

  lemma {:induction false} FirstPiece(edges: seq<Edge>, target: nat, start: nat, i: nat)
    requires target > 0 && start + target <= i < |edges| && edges[i].src != edges[i - 1].src
    requires forall k :: start + target - 1 <= k < i ==> edges[k].src == edges[i - 1].src
    ensures Split(edges[start..], target) == [edges[start..i]] + Split(edges[i..], target)
  {
    var rest := edges[start..];
    RunEndIs(rest, target - 1, i - start, edges[i - 1].src);
    assert rest[..i - start] == edges[start..i] && rest[i - start..] == edges[i..];
  }

  lemma {:induction false} CutNotHere(edges: seq<Edge>, target: nat, done: seq<seq<Edge>>, start: nat, i: nat)
    requires target > 0 && Cutting(edges, target, done, start, i) && i < |edges|
    requires i < start + target || edges[i].src == edges[i - 1].src
    ensures Cutting(edges, target, done, start, i + 1)
  {
  }

  lemma {:induction false} CutEnd(edges: seq<Edge>, target: nat, done: seq<seq<Edge>>, start: nat)
    requires target > 0 && edges != [] && Cutting(edges, target, done, start, |edges|)
    ensures done + [edges[start..]] == Split(edges, target)
  {
    var rest := edges[start..];
    if |rest| >= target {
      RunEndIs(rest, target - 1, |rest|, edges[|edges| - 1].src);
      assert rest[..|rest|] == rest && rest[|rest|..] == [];
      assert Split(rest, target) == [rest] + Split(rest[|rest|..], target) == [rest];
    }
  }

  method SplitRangeBoundedSegments(edges: seq<Edge>, targetBytes: nat) returns (segments: seq<seq<Edge>>)
    ensures segments == Split(edges, TargetEdges(targetBytes))
  {
    segments := SplitAtTarget(edges, TargetEdges(targetBytes));
  }

  method SplitAtTarget(edges: seq<Edge>, target: nat) returns (segments: seq<seq<Edge>>)
    requires target > 0
    ensures segments == Split(edges, target)
  {
    hide Cutting;
    if edges == [] {
      return [];
    }
    segments := [];
    var current: seq<Edge> := [];
    var lastSrc: Option<u64> := None;
    ghost var start := 0;
    CutStart(edges, target);
    for i := 0 to |edges|
      invariant start <= i && (i > 0 ==> start < i)
      invariant Cutting(edges, target, segments, start, i)
      invariant current == edges[start..i]
      invariant i > 0 ==> lastSrc == Some(edges[i - 1].src)
    {
      var edge := edges[i];
      if current != [] && |current| >= target && lastSrc.Some? && lastSrc.value != edge.src {
        CutHere(edges, target, segments, start, i);
        segments := segments + [current];
        current := [];
        start := i;
        assert edges[i..i] == [];
      } else {
        CutNotHere(edges, target, segments, start, i);
      }
      lastSrc := Some(edge.src);
      assert edges[start..i + 1] == edges[start..i] + [edge];
      current := current + [edge];
    }
    CutEnd(edges, target, segments, start);
    assert edges[start..|edges|] == edges[start..];
    if current != [] {
      segments := segments + [current];
    }
  }

  lemma {:induction false} SplitConserves(edges: seq<Edge>, target: nat)
    requires target > 0
    ensures Flatten(Split(edges, target)) == edges
    decreases |edges|
  {
    if edges != [] {
      if |edges| < target {
        assert [edges][1..] == [];
        assert Flatten([edges]) == edges + Flatten([edges][1..]);
      } else {
        var cut := RunEnd(edges, target - 1, edges[target - 1].src);
        SplitConserves(edges[cut..], target);
        var rest := Split(edges[cut..], target);
        assert ([edges[..cut]] + rest)[1..] == rest;
        assert edges == edges[..cut] + edges[cut..];
      }
    }
  }

  /** Pieces are non-empty, only the last may be short, and none outgrows the target by more than one run. */
  lemma {:induction false} SplitShape(edges: seq<Edge>, target: nat, i: nat)
    requires target > 0 && i < |Split(edges, target)|
    ensures var p := Split(edges, target);
            && p[i] != []
            && (i < |p| - 1 ==> |p[i]| >= target)
            && (|p[i]| >= target ==> OneSourceFrom(p[i], target - 1))
            && (i < |p| - 1 ==> p[i + 1] != [] && p[i][|p[i]| - 1].src != p[i + 1][0].src)
    decreases |edges|
  {
    if |edges| >= target {
      var cut := RunEnd(edges, target - 1, edges[target - 1].src);
      var rest := Split(edges[cut..], target);
      assert Split(edges, target) == [edges[..cut]] + rest;
      if i > 0 {
        SplitShape(edges[cut..], target, i - 1);
      } else if rest != [] {
        SplitShape(edges[cut..], target, 0);
        FirstOfSplit(edges[cut..], target);
      }
    }
  }

  lemma {:induction false} FirstOfSplit(edges: seq<Edge>, target: nat)
    requires target > 0 && edges != []
    ensures Split(edges, target) != [] && Split(edges, target)[0] != [] && Split(edges, target)[0][0] == edges[0]
  {
  }

  lemma {:induction false} SourcesApart(edges: seq<Edge>, cut: nat, x: Edge, y: Edge)
    requires SortedBy(BySrc, edges) && 0 < cut < |edges| && edges[cut - 1].src != edges[cut].src
    requires x in edges[..cut] && y in edges[cut..]
    ensures x.src < y.src
  {
    var a :| 0 <= a < cut && edges[a] == x;
    var b :| cut <= b < |edges| && edges[b] == y;
    assert BySrc(edges[a], edges[cut - 1]) || a == cut - 1;
    assert BySrc(edges[cut - 1], edges[cut]);
    assert BySrc(edges[cut], edges[b]) || b == cut;
  }

  lemma {:induction false} FirstPieceApart(edges: seq<Edge>, target: nat, j: nat, x: Edge, y: Edge)
    requires target > 0 && SortedBy(BySrc, edges)
    requires 0 < j < |Split(edges, target)| && x in Split(edges, target)[0] && y in Split(edges, target)[j]
    ensures x.src < y.src
  {
    var cut := RunEnd(edges, target - 1, edges[target - 1].src);
    var rest := Split(edges[cut..], target);
    assert Split(edges, target)[j] == rest[j - 1];
    SplitConserves(edges[cut..], target);
    InFlatten(rest, y);
    SourcesApart(edges, cut, x, y);
  }

  /** On sorted input no source is shared by two pieces. */
  lemma {:induction false} SplitNeverSplitsSource(edges: seq<Edge>, target: nat, i: nat, j: nat, x: Edge, y: Edge)
    requires target > 0 && SortedBy(BySrc, edges)
    requires i < j < |Split(edges, target)| && x in Split(edges, target)[i] && y in Split(edges, target)[j]
    ensures x.src < y.src
    decreases |edges|
  {
    if i == 0 {
      FirstPieceApart(edges, target, j, x, y);
    } else {
      var cut := RunEnd(edges, target - 1, edges[target - 1].src);
      SplitNeverSplitsSource(edges[cut..], target, i - 1, j - 1, x, y);
    }
  }

  // ------------------------------------------------------- capping the count

  function DivCeil(n: nat, m: nat): nat
    requires m > 0
  {
    (n + m - 1) / m
  }

  function Chunks(segments: seq<seq<Edge>>, size: nat): seq<seq<Edge>>
    requires size > 0
  {
    if |segments| < size then
      if Flatten(segments) == [] then [] else [Flatten(segments)]
    else
      [Flatten(segments[..size])] + Chunks(segments[size..], size)
  }

  function Cap(segments: seq<seq<Edge>>, maxSegments: nat): seq<seq<Edge>> {
    if |segments| <= maxSegments || maxSegments == 0 then segments
    else
      assert DivCeil(|segments|, maxSegments) > 0 by { CeilPositive(|segments|, maxSegments); }
      Chunks(segments, DivCeil(|segments|, maxSegments))
  }

  lemma {:induction false} CeilPositive(n: nat, m: nat)
    requires n > m > 0
    ensures DivCeil(n, m) > 0 && DivCeil(n, m) * m >= n
  {
    var q := DivCeil(n, m);
    assert n + m - 1 == m * q + (n + m - 1) % m;
  }

  /** State of the capping loop: whole chunks merged, `segments[start..idx]` collected. */
  ghost predicate Capping(segments: seq<seq<Edge>>, size: nat, merged: seq<seq<Edge>>, start: nat, idx: nat)
    requires size > 0
  {
    && start <= idx <= |segments| && idx < start + size && start % size == 0
    && merged + Chunks(segments[start..], size) == Chunks(segments, size)
  }

  lemma {:induction false} CapHere(segments: seq<seq<Edge>>, size: nat, merged: seq<seq<Edge>>, start: nat, idx: nat)
    requires size > 0 && Capping(segments, size, merged, start, idx) && idx < |segments|
    ensures (idx + 1) % size == 0 ==>
              Capping(segments, size, merged + [Flatten(segments[start..idx + 1])], idx + 1, idx + 1)
    ensures (idx + 1) % size != 0 ==> Capping(segments, size, merged, start, idx + 1)
  {
    NextMultiple(start, idx + 1, size);
    if (idx + 1) % size == 0 {
      var rest := segments[start..];
      assert rest[..size] == segments[start..idx + 1];
      assert rest[size..] == segments[idx + 1..];
      var piece := Flatten(segments[start..idx + 1]);
      assert Chunks(rest, size) == [piece] + Chunks(segments[idx + 1..], size);
      assert merged + ([piece] + Chunks(segments[idx + 1..], size)) == (merged + [piece]) + Chunks(segments[idx + 1..], size);
    }
  }

  lemma {:induction false} CollectOne(segments: seq<seq<Edge>>, start: nat, idx: nat)
    requires start <= idx < |segments|
    ensures Flatten(segments[start..idx]) + segments[idx] == Flatten(segments[start..idx + 1])
  {
    assert segments[start..idx + 1] == segments[start..idx] + [segments[idx]];
    FlattenAppend(segments[start..idx], [segments[idx]]);
    FlattenOne(segments[idx]);
  }

  lemma {:induction false} CapEnd(segments: seq<seq<Edge>>, size: nat, merged: seq<seq<Edge>>, start: nat)
    requires size > 0 && Capping(segments, size, merged, start, |segments|)
    ensures var last := Flatten(segments[start..|segments|]);
            Chunks(segments, size) == if last == [] then merged else merged + [last]
  {
    assert segments[start..] == segments[start..|segments|];
  }

  method MergeSegmentsToCap(segments: seq<seq<Edge>>, maxSegments: nat) returns (merged: seq<seq<Edge>>)
    ensures merged == Cap(segments, maxSegments)
  {
    if |segments| <= maxSegments || maxSegments == 0 {
      return segments;
    }
    CeilPositive(|segments|, maxSegments);
    merged := MergeInChunks(segments, DivCeil(|segments|, maxSegments));
  }

  method MergeInChunks(segments: seq<seq<Edge>>, chunkSize: nat) returns (merged: seq<seq<Edge>>)
    requires chunkSize > 0
    ensures merged == Chunks(segments, chunkSize)
  {
    merged := [];
    var current: seq<Edge> := [];
    ghost var start := 0;
    assert segments[0..] == segments;
    assert Capping(segments, chunkSize, merged, 0, 0);
    hide Capping, Chunks, Flatten;
    EmptyFlatten<Edge>();
    assert segments[0..0] == [];
    for idx := 0 to |segments|
      invariant start <= idx && current == Flatten(segments[start..idx])
      invariant Capping(segments, chunkSize, merged, start, idx)
    {
      CollectOne(segments, start, idx);
      CapHere(segments, chunkSize, merged, start, idx);
      current := current + segments[idx];
      if (idx + 1) % chunkSize == 0 {
        merged := merged + [current];
        current := [];
        start := idx + 1;
        assert segments[start..idx + 1] == [];
      }
    }
    CapEnd(segments, chunkSize, merged, start);
    if current != [] {
      merged := merged + [current];
    }
  }

  /** Past a multiple, the next multiple is exactly one chunk away. */
  lemma {:induction false} NextMultiple(start: nat, i: nat, size: nat)
    requires size > 0 && start % size == 0 && start < i <= start + size
    ensures i % size == 0 <==> i == start + size
    ensures (start + size) % size == 0
  {
    var q := start / size;
    assert start == size * q;
    if i == start + size {
      assert i == size * (q + 1) + 0;
      DivModUnique(i, size, q + 1, 0);
    } else {
      DivModUnique(i, size, q, i - start);
      assert start + size == size * (q + 1) + 0;
      DivModUnique(start + size, size, q + 1, 0);
    }
  }

  lemma {:induction false} ChunksBound(segments: seq<seq<Edge>>, size: nat)
    requires size > 0
    ensures |Chunks(segments, size)| * size < |segments| + size
    decreases |segments|
  {
    if |segments| >= size {
      ChunksBound(segments[size..], size);
      assert |Chunks(segments, size)| == 1 + |Chunks(segments[size..], size)|;
      assert (1 + |Chunks(segments[size..], size)|) * size == size + |Chunks(segments[size..], size)| * size;
    } else {
      assert |Chunks(segments, size)| <= 1;
    }
  }

  /** A positive cap is kept: ceil(n / ceil(n / m)) is at most m. */
  lemma {:induction false} CapBound(segments: seq<seq<Edge>>, maxSegments: nat)
    requires maxSegments > 0
    ensures |Cap(segments, maxSegments)| <= maxSegments
  {
    if |segments| > maxSegments {
      var size := DivCeil(|segments|, maxSegments);
      CeilPositive(|segments|, maxSegments);
      ChunksBound(segments, size);
      var c := |Chunks(segments, size)|;
      assert (c - maxSegments) * size == c * size - size * maxSegments;
      LessThanOnce(c - maxSegments, size);
    }
  }

  /** Chunk `i` is the segments `i * size` up to the next multiple, put together. */
  lemma {:induction false} ChunksAt(segments: seq<seq<Edge>>, size: nat, i: nat)
    requires size > 0 && i < |Chunks(segments, size)|
    ensures 0 <= i * size < |segments|
    ensures var end := if (i + 1) * size <= |segments| then (i + 1) * size else |segments|;
            i * size <= end && Chunks(segments, size)[i] == Flatten(segments[i * size..end])
    decreases |segments|
  {
    hide Flatten;
    if |segments| < size {
      EmptyFlatten<Edge>();
      assert segments[0..|segments|] == segments;
      assert (0 + 1) * size == size;
    } else if i == 0 {
      assert (0 + 1) * size == size;
    } else {
      var rest := segments[size..];
      ChunksAt(rest, size, i - 1);
      assert i * size == (i - 1) * size + size && (i + 1) * size == i * size + size;
      var end := if i * size <= |rest| then i * size else |rest|;
      assert rest[(i - 1) * size..end] == segments[i * size..end + size];
    }
  }

  /**
   * At or under the cap, or with no cap, segments stay as they are. Over it, as few neighbours as possible are put
   * together, the same number each time but for the last.
   */
  lemma {:induction false} CapMeaning(segments: seq<seq<Edge>>, maxSegments: nat)
    ensures |segments| <= maxSegments || maxSegments == 0 ==> Cap(segments, maxSegments) == segments
    ensures |segments| > maxSegments > 0 ==>
              exists size: nat :: (size - 1) * maxSegments < |segments| <= size * maxSegments && IsChunked(segments, size, Cap(segments, maxSegments))
  {
    if |segments| > maxSegments > 0 {
      var n, m := |segments|, maxSegments;
      var size := DivCeil(n, m);
      CeilPositive(n, m);
      assert n + m - 1 == m * size + (n + m - 1) % m;
      assert (size - 1) * m == m * size - m;
      forall i | 0 <= i < |Chunks(segments, size)|
        ensures ChunkAt(segments, size, i, Chunks(segments, size)[i])
      {
        ChunksAt(segments, size, i);
      }
      ChunksBound(segments, size);
      hide ChunkAt, Chunks, DivCeil;
      assert IsChunked(segments, size, Cap(segments, m));
      assert (size - 1) * m < n <= size * m;
    }
  }

  ghost predicate ChunkAt(segments: seq<seq<Edge>>, size: nat, i: nat, chunk: seq<Edge>) {
    exists start: nat, end: nat :: start == i * size && start <= end <= |segments| &&
      (end == start + size || end == |segments| <= start + size) && chunk == Flatten(segments[start..end])
  }

  ghost predicate IsChunked(segments: seq<seq<Edge>>, size: nat, chunks: seq<seq<Edge>>) {
    && (forall i :: 0 <= i < |chunks| ==> ChunkAt(segments, size, i, chunks[i]))
    && |chunks| * size < |segments| + size
  }

  lemma {:induction false} ChunksConserve(segments: seq<seq<Edge>>, size: nat)
    requires size > 0
    ensures Flatten(Chunks(segments, size)) == Flatten(segments)
    decreases |segments|
  {
    if |segments| < size {
      FlattenOne(Flatten(segments));
    } else {
      ChunksConserve(segments[size..], size);
      FlattenAppend(segments[..size], segments[size..]);
      assert segments == segments[..size] + segments[size..];
      FlattenOne(Flatten(segments[..size]));
      FlattenAppend([Flatten(segments[..size])], Chunks(segments[size..], size));
    }
  }

  lemma {:induction false} FlattenNonEmpty(segments: seq<seq<Edge>>)
    requires segments != [] && forall s :: s in segments ==> s != []
    ensures Flatten(segments) != []
  {
    assert segments[0] in segments;
  }

  lemma {:induction false} ChunksNonEmpty(segments: seq<seq<Edge>>, size: nat)
    requires size > 0 && forall s :: s in segments ==> s != []
    ensures forall s :: s in Chunks(segments, size) ==> s != []
    decreases |segments|
  {
    if |segments| >= size {
      assert forall s :: s in segments[size..] ==> s in segments;
      assert forall s :: s in segments[..size] ==> s in segments;
      ChunksNonEmpty(segments[size..], size);
      FlattenNonEmpty(segments[..size]);
    }
  }

  // ----------------------------------------------------------- graph-aware L0

  datatype PartitionKey = PartitionKey(srcLabel: i32, edgeType: i32)
  datatype Group = Group(key: PartitionKey, edges: seq<Edge>)

  predicate PartitionLt(a: PartitionKey, b: PartitionKey) {
    a.srcLabel < b.srcLabel || (a.srcLabel == b.srcLabel && a.edgeType < b.edgeType)
  }

  /** Extends the entry of `key` in an ordered map, creating it when absent. */
  function Extend(groups: seq<Group>, key: PartitionKey, edges: seq<Edge>): seq<Group> {
    if groups == [] || PartitionLt(key, groups[0].key) then [Group(key, edges)] + groups
    else if groups[0].key == key then [Group(key, groups[0].edges + edges)] + groups[1..]
    else [groups[0]] + Extend(groups[1..], key, edges)
  }

  function ExactKey(e: Edge): PartitionKey {
    PartitionKey(SourceLabel(e.src), e.edgeType)
  }

  function ExactGroups(edges: seq<Edge>): seq<Group> {
    if edges == [] then []
    else
      var n := |edges| - 1;
      Extend(ExactGroups(edges[..n]), ExactKey(edges[n]), [edges[n]])
  }

  /** A group smaller than the minimum goes to the mixed partition of its label. */
  function Destination(g: Group, minBytes: nat): PartitionKey {
    if |g.edges| * EDGE_RECORD_SIZE < minBytes then PartitionKey(g.key.srcLabel, MIXED_EDGE_TYPE) else g.key
  }

  function Partitions(exact: seq<Group>, minBytes: nat): seq<Group> {
    if exact == [] then []
    else
      var n := |exact| - 1;
      Extend(Partitions(exact[..n], minBytes), Destination(exact[n], minBytes), exact[n].edges)
  }

  function SplitGroups(groups: seq<Group>, target: nat): seq<seq<Edge>>
    requires target > 0
  {
    if groups == [] then []
    else
      var n := |groups| - 1;
      SplitGroups(groups[..n], target) + Split(SortBy(ByKeyTs, groups[n].edges), target)
  }

  datatype Config = Config(
    memgraphCapacityBytes: nat, inlineSegmentCapacity: nat, maxLevels: nat, l0FileThreshold: nat,
    segmentTargetBytes: nat, minL0PartitionBytes: nat, maxL0SegmentsPerFlush: nat,
    autoCompaction: bool, graphAwareL0: bool)

  function FlushParts(c: Config, edges: seq<Edge>): seq<Group> {
    Partitions(ExactGroups(edges), c.minL0PartitionBytes)
  }

  function FlushCut(c: Config, edges: seq<Edge>): seq<seq<Edge>> {
    if !c.graphAwareL0 then [edges]
    else Cap(SplitGroups(FlushParts(c, edges), TargetEdges(c.segmentTargetBytes)), c.maxL0SegmentsPerFlush)
  }

  method BuildL0FlushSegments(c: Config, edges: seq<Edge>) returns (out: seq<seq<Edge>>)
    ensures out == FlushCut(c, edges)
  {
    if !c.graphAwareL0 {
      return [edges];
    }
    var exact: seq<Group> := [];
    for i := 0 to |edges|
      invariant exact == ExactGroups(edges[..i])
    {
      assert edges[..i + 1][..i] == edges[..i];
      exact := Extend(exact, ExactKey(edges[i]), [edges[i]]);
    }
    assert edges[..|edges|] == edges;
    var partitions: seq<Group> := [];
    for i := 0 to |exact|
      invariant partitions == Partitions(exact[..i], c.minL0PartitionBytes)
    {
      assert exact[..i + 1][..i] == exact[..i];
      partitions := Extend(partitions, Destination(exact[i], c.minL0PartitionBytes), exact[i].edges);
    }
    assert exact[..|exact|] == exact;
    var segments: seq<seq<Edge>> := [];
    for i := 0 to |partitions|
      invariant segments == SplitGroups(partitions[..i], TargetEdges(c.segmentTargetBytes))
    {
      assert partitions[..i + 1][..i] == partitions[..i];
      var pieces := SplitRangeBoundedSegments(SortBy(ByKeyTs, partitions[i].edges), c.segmentTargetBytes);
      segments := segments + pieces;
    }
    assert partitions[..|partitions|] == partitions;
    if segments == [] {
      out := [];
    } else if |segments| <= c.maxL0SegmentsPerFlush {
      out := segments;
    } else {
      out := MergeSegmentsToCap(segments, c.maxL0SegmentsPerFlush);
    }
  }

  function GroupEdges(groups: seq<Group>): seq<Edge> {
    if groups == [] then [] else groups[0].edges + GroupEdges(groups[1..])
  }

  ghost predicate GroupsOrdered(groups: seq<Group>) {
    forall i, j :: 0 <= i < j < |groups| ==> PartitionLt(groups[i].key, groups[j].key)
  }

  /** Ascending by label, then by type. */
  lemma {:induction false} GroupsAscend(groups: seq<Group>, i: nat, j: nat)
    requires GroupsOrdered(groups) && i < j < |groups|
    ensures groups[i].key.srcLabel < groups[j].key.srcLabel ||
            (groups[i].key.srcLabel == groups[j].key.srcLabel && groups[i].key.edgeType < groups[j].key.edgeType)
  {
    assert PartitionLt(groups[i].key, groups[j].key);
  }

  lemma {:induction false} ExtendConserves(groups: seq<Group>, key: PartitionKey, edges: seq<Edge>)
    ensures multiset(GroupEdges(Extend(groups, key, edges))) == multiset(GroupEdges(groups)) + multiset(edges)
  {
    var r := Extend(groups, key, edges);
    assert GroupEdges(r) == r[0].edges + GroupEdges(r[1..]);
    if groups == [] || PartitionLt(key, groups[0].key) {
      assert r[1..] == groups;
    } else if groups[0].key == key {
      assert r[1..] == groups[1..];
    } else {
      ExtendConserves(groups[1..], key, edges);
      assert r[1..] == Extend(groups[1..], key, edges);
    }
  }

  lemma {:induction false} ExtendOrdered(groups: seq<Group>, key: PartitionKey, edges: seq<Edge>)
    requires GroupsOrdered(groups)
    ensures GroupsOrdered(Extend(groups, key, edges))
    ensures forall g :: g in Extend(groups, key, edges) ==>
              (g.key == key && forall e :: e in g.edges ==> e in edges || exists h :: h in groups && h.key == key && e in h.edges)
              || g in groups
    ensures edges != [] && (forall h :: h in groups ==> h.edges != []) ==>
              forall g :: g in Extend(groups, key, edges) ==> g.edges != []
  {
    if groups != [] && !PartitionLt(key, groups[0].key) && groups[0].key != key {
      ExtendOrdered(groups[1..], key, edges);
      var rest := Extend(groups[1..], key, edges);
      assert Extend(groups, key, edges) == [groups[0]] + rest;
      forall j | 0 <= j < |rest|
        ensures PartitionLt(groups[0].key, rest[j].key)
      {
        assert rest[j] in rest;
        if rest[j] in groups[1..] {
          var k :| 0 <= k < |groups[1..]| && groups[1..][k] == rest[j];
          assert groups[k + 1] == rest[j];
        }
      }
    }
  }

  /** Ordered groups of one exact label and type each, holding exactly `edges`. */
  ghost predicate Grouped(groups: seq<Group>, edges: seq<Edge>) {
    && multiset(GroupEdges(groups)) == multiset(edges)
    && GroupsOrdered(groups)
    && (forall g, e :: g in groups && e in g.edges ==> ExactKey(e) == g.key)
    && (forall g :: g in groups ==> g.edges != [])
  }

  lemma {:induction false} GroupOne(groups: seq<Group>, edges: seq<Edge>, e: Edge)
    requires Grouped(groups, edges)
    ensures Grouped(Extend(groups, ExactKey(e), [e]), edges + [e])
  {
    hide Extend, GroupEdges, GroupsOrdered, SourceLabel;
    ExtendConserves(groups, ExactKey(e), [e]);
    ExtendOrdered(groups, ExactKey(e), [e]);
  }

  lemma {:induction false} ExactGroupsMeaning(edges: seq<Edge>)
    ensures Grouped(ExactGroups(edges), edges)
  {
    if edges != [] {
      var n := |edges| - 1;
      ExactGroupsMeaning(edges[..n]);
      GroupOne(ExactGroups(edges[..n]), edges[..n], edges[n]);
      assert edges == edges[..n] + [edges[n]];
    }
  }

  lemma {:induction false} GroupEdgesPush(groups: seq<Group>, g: Group)
    ensures GroupEdges(groups + [g]) == GroupEdges(groups) + g.edges
  {
    if groups == [] {
      assert [g][1..] == [];
      assert GroupEdges([g]) == g.edges + GroupEdges([g][1..]);
      assert groups + [g] == [g];
    } else {
      assert (groups + [g])[1..] == groups[1..] + [g];
      GroupEdgesPush(groups[1..], g);
    }
  }

  /** Every record is in the one partition of its label that its exact group was sent to. */
  ghost predicate Placed(e: Edge, key: PartitionKey, exact: seq<Group>, minBytes: nat) {
    exists g :: g in exact && e in g.edges && Destination(g, minBytes) == key
  }

  lemma {:induction false} PartitionsConserve(exact: seq<Group>, minBytes: nat)
    requires forall g :: g in exact ==> g.edges != []
    ensures multiset(GroupEdges(Partitions(exact, minBytes))) == multiset(GroupEdges(exact))
    ensures GroupsOrdered(Partitions(exact, minBytes))
    ensures forall p :: p in Partitions(exact, minBytes) ==> p.edges != []
  {
    if exact != [] {
      var n := |exact| - 1;
      assert exact == exact[..n] + [exact[n]];
      PartitionsConserve(exact[..n], minBytes);
      GroupEdgesPush(exact[..n], exact[n]);
      var before := Partitions(exact[..n], minBytes);
      ExtendConserves(before, Destination(exact[n], minBytes), exact[n].edges);
      ExtendOrdered(before, Destination(exact[n], minBytes), exact[n].edges);
    }
  }

  lemma {:induction false} PartitionsPlace(exact: seq<Group>, minBytes: nat, p: Group, e: Edge)
    requires p in Partitions(exact, minBytes) && e in p.edges
    ensures Placed(e, p.key, exact, minBytes)
  {
    var n := |exact| - 1;
    var g := exact[n];
    var before := Partitions(exact[..n], minBytes);
    assert exact == exact[..n] + [g];
    ExtendFrom(before, Destination(g, minBytes), g.edges, p, e);
    if h :| h in before && h.key == p.key && e in h.edges {
      PartitionsPlace(exact[..n], minBytes, h, e);
      var x :| x in exact[..n] && e in x.edges && Destination(x, minBytes) == h.key;
      assert x in exact;
    } else {
      assert g in exact;
    }
  }

  lemma {:induction false} ExtendFrom(groups: seq<Group>, key: PartitionKey, edges: seq<Edge>, p: Group, e: Edge)
    requires p in Extend(groups, key, edges) && e in p.edges
    ensures (p.key == key && e in edges) || exists h :: h in groups && h.key == p.key && e in h.edges
  {
    if groups == [] || PartitionLt(key, groups[0].key) {
    } else if groups[0].key == key {
      assert groups[0] in groups;
    } else if p == groups[0] {
      assert p in groups;
    } else {
      ExtendFrom(groups[1..], key, edges, p, e);
    }
  }

  lemma {:induction false} SortedSplitConserves(edges: seq<Edge>, target: nat)
    requires target > 0
    ensures multiset(Flatten(Split(SortBy(ByKeyTs, edges), target))) == multiset(edges)
  {
    SortByMultiset(ByKeyTs, edges);
    SplitConserves(SortBy(ByKeyTs, edges), target);
  }

  lemma {:induction false} NoGroupEdges()
    ensures GroupEdges([]) == []
  {
  }

  lemma {:induction false} ConservesStep(before: seq<seq<Edge>>, pieces: seq<seq<Edge>>, groups: seq<Group>, g: Group)
    requires multiset(Flatten(before)) == multiset(GroupEdges(groups))
    requires multiset(Flatten(pieces)) == multiset(g.edges)
    ensures multiset(Flatten(before + pieces)) == multiset(GroupEdges(groups + [g]))
  {
    hide Flatten, GroupEdges;
    FlattenAppend(before, pieces);
    GroupEdgesPush(groups, g);
  }

  lemma {:induction false} SplitGroupsConserves(groups: seq<Group>, target: nat)
    requires target > 0
    ensures multiset(Flatten(SplitGroups(groups, target))) == multiset(GroupEdges(groups))
  {
    hide Flatten, GroupEdges, Split, SortBy;
    if groups == [] {
      EmptyFlatten<Edge>();
      NoGroupEdges();
    } else {
      var n := |groups| - 1;
      SplitGroupsConserves(groups[..n], target);
      SortedSplitConserves(groups[n].edges, target);
      ConservesStep(SplitGroups(groups[..n], target), Split(SortBy(ByKeyTs, groups[n].edges), target), groups[..n], groups[n]);
      assert groups == groups[..n] + [groups[n]];
    }
  }

  /** Before capping, each piece is cut from one partition. */
  lemma {:induction false} PieceOfOnePartition(groups: seq<Group>, target: nat, s: seq<Edge>)
    requires target > 0
    requires s in SplitGroups(groups, target)
    ensures s != []
    ensures exists p :: p in groups && s in Split(SortBy(ByKeyTs, p.edges), target)
  {
    var n := |groups| - 1;
    var pieces := Split(SortBy(ByKeyTs, groups[n].edges), target);
    if s in pieces {
      var i :| 0 <= i < |pieces| && pieces[i] == s;
      SplitShape(SortBy(ByKeyTs, groups[n].edges), target, i);
      assert groups[n] in groups;
    } else {
      PieceOfOnePartition(groups[..n], target, s);
    }
  }

  /** A flush neither loses nor invents a record, writes no empty segment, and keeps a positive cap. */
  lemma {:induction false} FlushCutMeaning(c: Config, edges: seq<Edge>)
    requires edges != []
    ensures multiset(Flatten(FlushCut(c, edges))) == multiset(edges)
    ensures FlushCut(c, edges) != [] && forall s :: s in FlushCut(c, edges) ==> s != []
    ensures c.graphAwareL0 && c.maxL0SegmentsPerFlush > 0 ==> |FlushCut(c, edges)| <= c.maxL0SegmentsPerFlush
    ensures !c.graphAwareL0 ==> FlushCut(c, edges) == [edges]
    ensures var whole := SplitGroups(FlushParts(c, edges), TargetEdges(c.segmentTargetBytes));
            c.graphAwareL0 && (|whole| <= c.maxL0SegmentsPerFlush || c.maxL0SegmentsPerFlush == 0) ==> FlushCut(c, edges) == whole
  {
    if !c.graphAwareL0 {
      FlattenOne(edges);
    } else {
      var parts := FlushParts(c, edges);
      ExactGroupsMeaning(edges);
      PartitionsConserve(ExactGroups(edges), c.minL0PartitionBytes);
      SplitGroupsConserves(parts, TargetEdges(c.segmentTargetBytes));
      var segments := SplitGroups(parts, TargetEdges(c.segmentTargetBytes));
      forall s | s in segments
        ensures s != []
      {
        PieceOfOnePartition(parts, TargetEdges(c.segmentTargetBytes), s);
      }
      CapConserves(segments, c.maxL0SegmentsPerFlush);
      if c.maxL0SegmentsPerFlush > 0 {
        CapBound(segments, c.maxL0SegmentsPerFlush);
      }
    }
    var flat := Flatten(FlushCut(c, edges));
    assert |flat| == |multiset(flat)| == |multiset(edges)| == |edges|;
  }

  lemma {:induction false} CapConserves(segments: seq<seq<Edge>>, maxSegments: nat)
    requires forall s :: s in segments ==> s != []
    ensures Flatten(Cap(segments, maxSegments)) == Flatten(segments)
    ensures forall s :: s in Cap(segments, maxSegments) ==> s != []
  {
    if |segments| > maxSegments > 0 {
      CeilPositive(|segments|, maxSegments);
      ChunksConserve(segments, DivCeil(|segments|, maxSegments));
      ChunksNonEmpty(segments, DivCeil(|segments|, maxSegments));
    }
  }

  // ------------------------------------------------- where a flush puts a record

  /** Records of one source label and edge type. */
  function OfKind(srcLabel: i32, edgeType: i32): Edge -> bool {
    (e: Edge) => SourceLabel(e.src) == srcLabel && e.edgeType == edgeType
  }

  /**
   * The partition of a record: its label, and its type unless the records of that label and type fill fewer than
   * `minBytes`, at 32 bytes each; then they go to the mixed partition of the label.
   */
  ghost predicate BelongsTo(e: Edge, key: PartitionKey, edges: seq<Edge>, minBytes: nat) {
    && key.srcLabel == SourceLabel(e.src)
    && key.edgeType == if 32 * |Filter(OfKind(SourceLabel(e.src), e.edgeType), edges)| < minBytes then 0 else e.edgeType
  }

  /** Every group is all records of its label and type, in order, and every record has a group. */
  ghost predicate WholeGroups(groups: seq<Group>, edges: seq<Edge>) {
    && (forall g :: g in groups ==> g.edges == Filter(OfKind(g.key.srcLabel, g.key.edgeType), edges))
    && (forall e :: e in edges ==> exists g :: g in groups && g.key == ExactKey(e))
  }

  /** Extending changes the entry of the key, or adds it, and nothing else. */
  lemma {:induction false} ExtendElements(groups: seq<Group>, key: PartitionKey, edges: seq<Edge>, g: Group)
    requires GroupsOrdered(groups)
    ensures g in Extend(groups, key, edges) <==>
            if g.key != key then g in groups
            else (exists h :: h in groups && h.key == key && g.edges == h.edges + edges) ||
                 (g.edges == edges && forall h :: h in groups ==> h.key != key)
  {
    if groups == [] || PartitionLt(key, groups[0].key) {
      forall h | h in groups
        ensures h.key != key
      {
        FirstIsLeast(groups, h);
      }
    } else if groups[0].key == key {
      forall h | h in groups && h.key == key
        ensures h == groups[0]
      {
        KeyOnce(groups, h, groups[0]);
      }
      assert groups == [groups[0]] + groups[1..];
      forall h | h in groups[1..]
        ensures h.key != key
      {
        var i :| 0 <= i < |groups[1..]| && groups[1..][i] == h;
        assert PartitionLt(groups[0].key, groups[i + 1].key);
      }
    } else {
      TailOrdered(groups);
      ExtendElements(groups[1..], key, edges, g);
      assert groups == [groups[0]] + groups[1..];
    }
  }

  lemma {:induction false} TailOrdered(groups: seq<Group>)
    requires GroupsOrdered(groups) && groups != []
    ensures GroupsOrdered(groups[1..])
  {
  }

  lemma {:induction false} FirstIsLeast(groups: seq<Group>, h: Group)
    requires GroupsOrdered(groups) && h in groups
    ensures groups[0].key == h.key || PartitionLt(groups[0].key, h.key)
  {
  }

  lemma {:induction false} KeyOnce(groups: seq<Group>, g: Group, h: Group)
    requires GroupsOrdered(groups) && g in groups && h in groups && g.key == h.key
    ensures g == h
  {
    var i :| 0 <= i < |groups| && groups[i] == g;
    var j :| 0 <= j < |groups| && groups[j] == h;
    assert i == j;
  }

  lemma {:induction false} ExtendWhole(groups: seq<Group>, edges: seq<Edge>, e: Edge)
    requires WholeGroups(groups, edges) && GroupsOrdered(groups)
    ensures WholeGroups(Extend(groups, ExactKey(e), [e]), edges + [e])
  {
    hide Extend, GroupsOrdered, Filter, SourceLabel;
    var key, groups' := ExactKey(e), Extend(groups, ExactKey(e), [e]);
    forall g | g in groups'
      ensures g.edges == Filter(OfKind(g.key.srcLabel, g.key.edgeType), edges + [e])
    {
      ExtendElements(groups, key, [e], g);
      FilterPush(OfKind(g.key.srcLabel, g.key.edgeType), edges, e);
      if g.key == key && forall h :: h in groups ==> h.key != key {
        NoneOfKind(edges, key);
      }
    }
    forall x | x in edges + [e]
      ensures exists g :: g in groups' && g.key == ExactKey(x)
    {
      HasEntry(groups, key, [e], ExactKey(x));
    }
  }

  lemma {:induction false} NoneOfKind(edges: seq<Edge>, key: PartitionKey)
    requires forall e :: e in edges ==> ExactKey(e) != key
    ensures Filter(OfKind(key.srcLabel, key.edgeType), edges) == []
  {
    hide SourceLabel;
    forall k | 0 <= k < |edges|
      ensures !OfKind(key.srcLabel, key.edgeType)(edges[k])
    {
      assert edges[k] in edges;
    }
    FilterNone(OfKind(key.srcLabel, key.edgeType), edges);
  }

  lemma {:induction false} HasEntry(groups: seq<Group>, key: PartitionKey, edges: seq<Edge>, wanted: PartitionKey)
    requires GroupsOrdered(groups)
    requires wanted == key || exists g :: g in groups && g.key == wanted
    ensures exists g :: g in Extend(groups, key, edges) && g.key == wanted
  {
    hide Extend, GroupsOrdered;
    if wanted != key {
      var g :| g in groups && g.key == wanted;
      ExtendElements(groups, key, edges, g);
    } else if h :| h in groups && h.key == key {
      ExtendElements(groups, key, edges, Group(key, h.edges + edges));
    } else {
      ExtendElements(groups, key, edges, Group(key, edges));
    }
  }

  lemma {:induction false} ExactGroupsWhole(edges: seq<Edge>)
    ensures WholeGroups(ExactGroups(edges), edges)
  {
    hide Extend, Filter;
    if edges != [] {
      var n := |edges| - 1;
      ExactGroupsWhole(edges[..n]);
      ExactGroupsMeaning(edges[..n]);
      ExtendWhole(ExactGroups(edges[..n]), edges[..n], edges[n]);
      assert edges == edges[..n] + [edges[n]];
    }
  }

  /** The partitions of a flush: ordered by label and type, holding all records, each in the partition it belongs to. */
  lemma {:induction false} FlushPartsMeaning(c: Config, edges: seq<Edge>)
    ensures multiset(GroupEdges(FlushParts(c, edges))) == multiset(edges)
    ensures forall i, j {:trigger FlushParts(c, edges)[i], FlushParts(c, edges)[j]} :: 0 <= i < j < |FlushParts(c, edges)| ==>
              var a, b := FlushParts(c, edges)[i].key, FlushParts(c, edges)[j].key;
              a.srcLabel < b.srcLabel || (a.srcLabel == b.srcLabel && a.edgeType < b.edgeType)
    ensures forall p, e :: p in FlushParts(c, edges) && e in p.edges ==> BelongsTo(e, p.key, edges, c.minL0PartitionBytes)
  {
    hide Partitions, ExactGroups, GroupsOrdered, GroupEdges, Filter, SourceLabel;
    var exact := ExactGroups(edges);
    ExactGroupsMeaning(edges);
    ExactGroupsWhole(edges);
    PartitionsConserve(exact, c.minL0PartitionBytes);
    var parts := FlushParts(c, edges);
    forall i, j | 0 <= i < j < |parts|
      ensures parts[i].key.srcLabel < parts[j].key.srcLabel ||
              (parts[i].key.srcLabel == parts[j].key.srcLabel && parts[i].key.edgeType < parts[j].key.edgeType)
    {
      GroupsAscend(parts, i, j);
    }
    forall p, e | p in FlushParts(c, edges) && e in p.edges
      ensures BelongsTo(e, p.key, edges, c.minL0PartitionBytes)
    {
      PartitionsPlace(exact, c.minL0PartitionBytes, p, e);
      var g :| g in exact && e in g.edges && Destination(g, c.minL0PartitionBytes) == p.key;
      assert ExactKey(e) == g.key;
    }
  }

  /** `s` is a piece of partition `p` and shares no source with the other pieces of `p`. */
  ghost predicate OnlyPieceOfItsSources(p: Group, s: seq<Edge>, target: nat)
    requires target > 0
  {
    var pieces := Split(SortBy(ByKeyTs, p.edges), target);
    && s in pieces
    && forall t, x, y :: t in pieces && t != s && x in s && y in t ==> x.src != y.src
  }

  lemma {:induction false} PiecesApart(p: Group, s: seq<Edge>, target: nat)
    requires target > 0
    requires s in Split(SortBy(ByKeyTs, p.edges), target)
    ensures OnlyPieceOfItsSources(p, s, target)
  {
    var sorted := SortBy(ByKeyTs, p.edges);
    var pieces := Split(sorted, target);
    assert TotalPreorder(ByKeyTs);
    SortBySorted(ByKeyTs, p.edges);
    ByKeyTsIsBySrc(sorted);
    forall t, x, y | t in pieces && t != s && x in s && y in t
      ensures x.src != y.src
    {
      var i :| 0 <= i < |pieces| && pieces[i] == s;
      var j :| 0 <= j < |pieces| && pieces[j] == t;
      if i < j {
        SplitNeverSplitsSource(sorted, target, i, j, x, y);
      } else {
        SplitNeverSplitsSource(sorted, target, j, i, y, x);
      }
    }
  }

  lemma {:induction false} PieceElement(p: Group, s: seq<Edge>, target: nat, e: Edge)
    requires target > 0
    requires s in Split(SortBy(ByKeyTs, p.edges), target) && e in s
    ensures e in p.edges
  {
    var pieces := Split(SortBy(ByKeyTs, p.edges), target);
    var i :| 0 <= i < |pieces| && pieces[i] == s;
    InFlatten(pieces, e);
    SplitConserves(SortBy(ByKeyTs, p.edges), target);
    SortByElements(ByKeyTs, p.edges);
  }

  /**
   * While the cap is not hit, a graph-aware segment holds records of one partition, each one belonging there, and no
   * other segment of that partition holds any of its sources.
   */
  lemma {:induction false} GraphAwareSegments(c: Config, edges: seq<Edge>, s: seq<Edge>)
    requires s in SplitGroups(FlushParts(c, edges), TargetEdges(c.segmentTargetBytes))
    ensures exists p :: p in FlushParts(c, edges) && OnlyPieceOfItsSources(p, s, TargetEdges(c.segmentTargetBytes)) &&
              forall e :: e in s ==> BelongsTo(e, p.key, edges, c.minL0PartitionBytes)
  {
    hide BelongsTo, FlushParts;
    var parts := FlushParts(c, edges);
    FlushPartsMeaning(c, edges);
    PieceOfOnePartition(parts, TargetEdges(c.segmentTargetBytes), s);
    var p :| p in parts && s in Split(SortBy(ByKeyTs, p.edges), TargetEdges(c.segmentTargetBytes));
    PiecesApart(p, s, TargetEdges(c.segmentTargetBytes));
    forall e | e in s
      ensures BelongsTo(e, p.key, edges, c.minL0PartitionBytes)
    {
      PieceElement(p, s, TargetEdges(c.segmentTargetBytes), e);
    }
  }
}
