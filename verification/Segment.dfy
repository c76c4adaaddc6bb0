/** A CSR segment at record level: its runs of equal source, their offsets, and its metadata. */
module Segment {
  import opened Types
  import opened Sorting

  datatype Option<T> = None | Some(value: T)

  datatype Meta = Meta(
    fileId: nat, level: nat, srcLabel: i32, edgeTypePartition: i32, minSrc: u64, maxSrc: u64,
    minTs: u64, edgeCount: nat, uniqueSrcCount: nat, segmentBytes: nat, maxTs: u64)

  datatype EdgeOffset = EdgeOffset(src: u64, firstEdgeIdx: nat, edgeCount: nat)

  const CSR_HEADER_LEN: nat := 128
  const EDGE_OFFSET_LEN: nat := 24
  const DISK_EDGE_BODY_LEN: nat := 32

  // ----------------------------------------------------------------- offsets

  /** End of the run of `src` that contains position `i`. */
  function RunEnd(edges: seq<Edge>, i: nat, src: u64): (end: nat)
    requires i <= |edges|
    ensures i <= end <= |edges|
    ensures forall k :: i <= k < end ==> edges[k].src == src
    ensures end < |edges| ==> edges[end].src != src
    decreases |edges| - i
  {
    if i < |edges| && edges[i].src == src then RunEnd(edges, i + 1, src) else i
  }

  /** One offset a run, from position `i` on. */
  function OffsetsFrom(edges: seq<Edge>, i: nat): seq<EdgeOffset>
    requires i <= |edges|
    decreases |edges| - i
  {
    if i == |edges| then []
    else
      var end := RunEnd(edges, i, edges[i].src);
      assert end > i by { assert edges[i].src == edges[i].src; }
      [EdgeOffset(edges[i].src, i, end - i)] + OffsetsFrom(edges, end)
  }

  function Offsets(edges: seq<Edge>): seq<EdgeOffset> {
    OffsetsFrom(edges, 0)
  }

  function Sources(offsets: seq<EdgeOffset>): seq<u64> {
    seq(|offsets|, i requires 0 <= i < |offsets| => offsets[i].src)
  }

  /** Library binary search by source; the sources of an offset table are strictly ascending. */
  function FindOffset(offsets: seq<EdgeOffset>, src: u64): Option<EdgeOffset> {
    if offsets == [] then None
    else if offsets[0].src == src then Some(offsets[0])
    else FindOffset(offsets[1..], src)
  }

  function HasSrc(src: u64): Edge -> bool {
    (e: Edge) => e.src == src
  }

  predicate BySrc(a: Edge, b: Edge) {
    a.src <= b.src
  }

  lemma {:induction false} ByKeyTsIsBySrc(edges: seq<Edge>)
    requires SortedBy(ByKeyTs, edges)
    ensures SortedBy(BySrc, edges)
  {
  }

  lemma {:induction false} OffsetsTile(edges: seq<Edge>, i: nat, k: nat)
    requires i <= |edges| && k < |OffsetsFrom(edges, i)|
    ensures var o := OffsetsFrom(edges, i);
            && o[k].firstEdgeIdx == (if k == 0 then i else o[k - 1].firstEdgeIdx + o[k - 1].edgeCount)
            && o[k].edgeCount > 0
            && o[k].firstEdgeIdx + o[k].edgeCount <= |edges|
            && (k == |o| - 1 ==> o[k].firstEdgeIdx + o[k].edgeCount == |edges|)
            && forall j :: o[k].firstEdgeIdx <= j < o[k].firstEdgeIdx + o[k].edgeCount ==> edges[j].src == o[k].src
    decreases |edges| - i
  {
    var end := RunEnd(edges, i, edges[i].src);
    assert OffsetsFrom(edges, i) == [EdgeOffset(edges[i].src, i, end - i)] + OffsetsFrom(edges, end);
    assert end > i;
    if k > 0 {
      OffsetsTile(edges, end, k - 1);
    } else {
      assert |OffsetsFrom(edges, i)| == 1 ==> end == |edges|;
    }
  }

  /** On sorted edges the offset table is strictly ascending by source. */
  lemma {:induction false} OffsetsAscend(edges: seq<Edge>, i: nat)
    requires SortedBy(BySrc, edges) && i <= |edges|
    ensures forall a, b :: 0 <= a < b < |OffsetsFrom(edges, i)| ==>
              OffsetsFrom(edges, i)[a].src < OffsetsFrom(edges, i)[b].src
    ensures forall a :: 0 <= a < |OffsetsFrom(edges, i)| ==> i < |edges| && edges[i].src <= OffsetsFrom(edges, i)[a].src
    decreases |edges| - i
  {
    if i == |edges| {
      assert OffsetsFrom(edges, i) == [];
    } else {
      var end := RunEnd(edges, i, edges[i].src);
      assert end > i;
      assert OffsetsFrom(edges, i) == [EdgeOffset(edges[i].src, i, end - i)] + OffsetsFrom(edges, end);
      OffsetsAscend(edges, end);
      assert end < |edges| ==> edges[i].src < edges[end].src by {
        assert end < |edges| ==> BySrc(edges[i], edges[end]);
      }
    }
  }

  function Slice(edges: seq<Edge>, found: Option<EdgeOffset>): seq<Edge> {
    match found
    case None => []
    case Some(o) =>
      if o.firstEdgeIdx + o.edgeCount <= |edges| then edges[o.firstEdgeIdx..o.firstEdgeIdx + o.edgeCount] else []
  }

  lemma {:induction false} NoneBehindRun(edges: seq<Edge>, i: nat, end: nat)
    requires SortedBy(BySrc, edges) && i < end <= |edges|
    requires end < |edges| ==> edges[end].src != edges[i].src
    ensures forall k :: 0 <= k < |edges[end..]| ==> edges[end..][k].src != edges[i].src
  {
    forall k | 0 <= k < |edges[end..]|
      ensures edges[end..][k].src != edges[i].src
    {
      assert edges[end..][k] == edges[end + k];
      assert BySrc(edges[i], edges[end]);
      assert k == 0 || BySrc(edges[end], edges[end + k]);
    }
  }

  lemma {:induction false} RunFilter(edges: seq<Edge>, i: nat, end: nat, src: u64)
    requires SortedBy(BySrc, edges) && i < end <= |edges|
    requires forall k :: i <= k < end ==> edges[k].src == edges[i].src
    requires end < |edges| ==> edges[end].src != edges[i].src
    ensures Filter(HasSrc(src), edges[i..]) ==
            if edges[i].src == src then edges[i..end] else Filter(HasSrc(src), edges[end..])
  {
    var run, rest := edges[i..end], edges[end..];
    assert edges[i..] == run + rest;
    FilterAppend(HasSrc(src), run, rest);
    if edges[i].src == src {
      FilterAll(HasSrc(src), run);
      NoneBehindRun(edges, i, end);
      FilterNone(HasSrc(src), rest);
      assert run + [] == run;
    } else {
      FilterNone(HasSrc(src), run);
      assert [] + Filter(HasSrc(src), rest) == Filter(HasSrc(src), rest);
    }
  }

  /** The run an offset lookup selects is exactly the records of that source. */
  lemma {:induction false} LookupFrom(edges: seq<Edge>, i: nat, src: u64)
    requires SortedBy(BySrc, edges) && i <= |edges|
    ensures Slice(edges, FindOffset(OffsetsFrom(edges, i), src)) == Filter(HasSrc(src), edges[i..])
    ensures FindOffset(OffsetsFrom(edges, i), src).None? <==> Filter(HasSrc(src), edges[i..]) == []
    decreases |edges| - i
  {
    if i < |edges| {
      var end := RunEnd(edges, i, edges[i].src);
      assert end > i;
      var o := EdgeOffset(edges[i].src, i, end - i);
      var rest := OffsetsFrom(edges, end);
      assert OffsetsFrom(edges, i) == [o] + rest;
      RunFilter(edges, i, end, src);
      if edges[i].src != src {
        LookupFrom(edges, end, src);
        assert ([o] + rest)[1..] == rest;
      }
    }
  }

  lemma {:induction false} LookupIsFilter(edges: seq<Edge>, src: u64)
    requires SortedBy(ByKeyTs, edges)
    ensures Slice(edges, FindOffset(Offsets(edges), src)) == Filter(HasSrc(src), edges)
    ensures FindOffset(Offsets(edges), src).None? <==> Filter(HasSrc(src), edges) == []
  {
    ByKeyTsIsBySrc(edges);
    LookupFrom(edges, 0, src);
    assert edges[0..] == edges;
  }

  lemma {:induction false} FoundSource(offsets: seq<EdgeOffset>, src: u64)
    ensures FindOffset(offsets, src).Some? <==> exists i :: 0 <= i < |offsets| && offsets[i].src == src
    ensures FindOffset(offsets, src).Some? ==> FindOffset(offsets, src).value in offsets &&
                                               FindOffset(offsets, src).value.src == src
  {
    if offsets != [] {
      FoundSource(offsets[1..], src);
      if offsets[0].src != src {
        if i :| 0 <= i < |offsets| && offsets[i].src == src {
          assert offsets[1..][i - 1].src == src;
        }
      }
    }
  }

  // ---------------------------------------------------------------- metadata

  predicate AllOneLabel(edges: seq<Edge>) {
    forall i :: 0 <= i < |edges| ==> SourceLabel(edges[i].src) == SourceLabel(edges[0].src)
  }

  predicate AllOneType(edges: seq<Edge>) {
    forall i :: 0 <= i < |edges| ==> edges[i].edgeType == edges[0].edgeType
  }

  function SegmentLabel(edges: seq<Edge>): i32 {
    if edges != [] && AllOneLabel(edges) then SourceLabel(edges[0].src) else UNKNOWN_SOURCE_LABEL
  }

  function SegmentType(edges: seq<Edge>): i32 {
    if edges != [] && AllOneType(edges) then edges[0].edgeType else MIXED_EDGE_TYPE
  }

  function MinTs(edges: seq<Edge>): (t: u64)
    ensures forall e :: e in edges ==> t <= e.ts
    ensures if edges == [] then t == 0 else exists e :: e in edges && e.ts == t
  {
    if edges == [] then 0
    else if |edges| == 1 then edges[0].ts
    else
      var rest := MinTs(edges[1..]);
      assert edges == [edges[0]] + edges[1..];
      if edges[0].ts <= rest then edges[0].ts else rest
  }

  function MaxTs(edges: seq<Edge>): (t: u64)
    ensures forall e :: e in edges ==> e.ts <= t
    ensures if edges == [] then t == 0 else exists e :: e in edges && e.ts == t
  {
    if edges == [] then 0
    else if |edges| == 1 then edges[0].ts
    else
      var rest := MaxTs(edges[1..]);
      assert edges == [edges[0]] + edges[1..];
      if edges[0].ts >= rest then edges[0].ts else rest
  }

  /** Metadata of the segment holding `edges`, which are sorted. */
  function MetaOf(level: nat, fileId: nat, edges: seq<Edge>): Meta {
    Meta(
      fileId, level, SegmentLabel(edges), SegmentType(edges),
      if edges == [] then 0 else edges[0].src,
      if edges == [] then 0 else edges[|edges| - 1].src,
      MinTs(edges), |edges|, |Offsets(edges)|,
      CSR_HEADER_LEN + EDGE_OFFSET_LEN * |Offsets(edges)| + DISK_EDGE_BODY_LEN * |edges|,
      MaxTs(edges))
  }

  predicate MayContainPartition(m: Meta, src: u64, edgeType: Option<i32>) {
    var label0 := SourceLabel(src);
    && (m.srcLabel == UNKNOWN_SOURCE_LABEL || label0 == UNKNOWN_SOURCE_LABEL || m.srcLabel == label0)
    && (edgeType.Some? ==> m.edgeTypePartition == MIXED_EDGE_TYPE || m.edgeTypePartition == edgeType.value)
  }

  predicate InRange(m: Meta, src: u64) {
    m.minSrc <= src <= m.maxSrc
  }

  lemma {:induction false} LabelAndTypeFit(edges: seq<Edge>, i: nat)
    requires i < |edges|
    ensures SegmentLabel(edges) in {UNKNOWN_SOURCE_LABEL, SourceLabel(edges[i].src)}
    ensures SegmentType(edges) in {MIXED_EDGE_TYPE, edges[i].edgeType}
  {
  }

  ghost predicate HaveLabel(edges: seq<Edge>, l: i32) {
    forall e :: e in edges ==> SourceLabel(e.src) == l
  }

  ghost predicate HaveType(edges: seq<Edge>, t: i32) {
    forall e :: e in edges ==> e.edgeType == t
  }

  /** A label is stated exactly when all sources have it. */
  ghost predicate LabelStated(label0: i32, edges: seq<Edge>) {
    forall l: i32 :: l != UNKNOWN_SOURCE_LABEL ==> (label0 == l <==> edges != [] && HaveLabel(edges, l))
  }

  /** A type is stated exactly when all records have it. */
  ghost predicate TypeStated(edgeType: i32, edges: seq<Edge>) {
    forall t: i32 :: t != MIXED_EDGE_TYPE ==> (edgeType == t <==> edges != [] && HaveType(edges, t))
  }

  lemma {:induction false} LabelIff(edges: seq<Edge>)
    ensures LabelStated(SegmentLabel(edges), edges)
  {
    hide SourceLabel;
    if edges != [] {
      assert edges[0] in edges;
      assert AllOneLabel(edges) ==> HaveLabel(edges, SourceLabel(edges[0].src));
    }
  }

  lemma {:induction false} TypeIff(edges: seq<Edge>)
    ensures TypeStated(SegmentType(edges), edges)
  {
    if edges != [] {
      assert edges[0] in edges;
      assert AllOneType(edges) ==> HaveType(edges, edges[0].edgeType);
    }
  }

  lemma {:induction false} EndsBound(edges: seq<Edge>, i: nat)
    requires SortedBy(BySrc, edges) && i < |edges|
    ensures edges[0].src <= edges[i].src <= edges[|edges| - 1].src
  {
    assert i == 0 || BySrc(edges[0], edges[i]);
    assert i == |edges| - 1 || BySrc(edges[i], edges[|edges| - 1]);
  }

  /** A segment's metadata bounds every record in it, so no filter on it drops a record. */
  lemma {:induction false} MetaBounds(level: nat, fileId: nat, edges: seq<Edge>, e: Edge)
    requires SortedBy(ByKeyTs, edges) && e in edges
    ensures var m := MetaOf(level, fileId, edges);
            && InRange(m, e.src) && m.minTs <= e.ts <= m.maxTs
            && m.edgeCount > 0
            && MayContainPartition(m, e.src, None) && MayContainPartition(m, e.src, Some(e.edgeType))
  {
    var i :| 0 <= i < |edges| && edges[i] == e;
    LabelAndTypeFit(edges, i);
    ByKeyTsIsBySrc(edges);
    EndsBound(edges, i);
  }

  /** Everything in a segment's metadata, over the records it describes. */
  ghost predicate Describes(m: Meta, edges: seq<Edge>) {
    && m.edgeCount == |edges| && m.uniqueSrcCount == |set e | e in edges :: e.src|
    && m.segmentBytes == 128 + 24 * |set e | e in edges :: e.src| + 32 * |edges|
    && LabelStated(m.srcLabel, edges) && TypeStated(m.edgeTypePartition, edges)
    && (forall e :: e in edges ==> m.minSrc <= e.src <= m.maxSrc && m.minTs <= e.ts <= m.maxTs)
    && (edges != [] ==>
          && (exists e :: e in edges && e.src == m.minSrc) && (exists e :: e in edges && e.src == m.maxSrc)
          && (exists e :: e in edges && e.ts == m.minTs) && (exists e :: e in edges && e.ts == m.maxTs))
  }

  function SourceSet(edges: seq<Edge>, i: nat): set<u64> {
    set k | i <= k < |edges| :: edges[k].src
  }

  /** Runs are as many as distinct sources. */
  lemma {:induction false} UniqueSourceCount(edges: seq<Edge>, i: nat)
    requires SortedBy(BySrc, edges) && i <= |edges|
    ensures |OffsetsFrom(edges, i)| == |SourceSet(edges, i)|
    decreases |edges| - i
  {
    if i < |edges| {
      var end := RunEnd(edges, i, edges[i].src);
      assert end > i;
      UniqueSourceCount(edges, end);
      var rest := SourceSet(edges, end);
      assert edges[i].src !in rest by {
        forall k | end <= k < |edges|
          ensures edges[k].src != edges[i].src
        {
          assert BySrc(edges[i], edges[end]);
          assert k == end || BySrc(edges[end], edges[k]);
        }
      }
      assert SourceSet(edges, i) == {edges[i].src} + rest;
    }
  }

  lemma {:induction false} MetaDescribes(level: nat, fileId: nat, edges: seq<Edge>)
    requires SortedBy(ByKeyTs, edges)
    ensures Describes(MetaOf(level, fileId, edges), edges)
  {
    hide SegmentLabel, SegmentType, Offsets, MinTs, MaxTs;
    DistinctSources(edges);
    LabelIff(edges);
    TypeIff(edges);
    hide LabelStated, TypeStated;
    SrcBounds(edges);
    TsBounds(edges);
  }

  lemma {:induction false} DistinctSources(edges: seq<Edge>)
    requires SortedBy(ByKeyTs, edges)
    ensures |Offsets(edges)| == |set e | e in edges :: e.src|
  {
    ByKeyTsIsBySrc(edges);
    UniqueSourceCount(edges, 0);
    assert SourceSet(edges, 0) == set e | e in edges :: e.src;
  }

  lemma {:induction false} TsBounds(edges: seq<Edge>)
    ensures forall e :: e in edges ==> MinTs(edges) <= e.ts <= MaxTs(edges)
    ensures edges != [] ==> exists e :: e in edges && e.ts == MinTs(edges)
    ensures edges != [] ==> exists e :: e in edges && e.ts == MaxTs(edges)
  {
    if |edges| == 1 {
      assert edges[0] in edges;
    } else if edges != [] {
      TsBounds(edges[1..]);
      assert edges == [edges[0]] + edges[1..];
      assert edges[0] in edges;
      var first :| first in edges[1..] && first.ts == MinTs(edges[1..]);
      var last :| last in edges[1..] && last.ts == MaxTs(edges[1..]);
      assert first in edges && last in edges;
    }
  }

  lemma {:induction false} SrcBounds(edges: seq<Edge>)
    requires SortedBy(ByKeyTs, edges)
    ensures forall e :: e in edges ==> edges[0].src <= e.src <= edges[|edges| - 1].src
    ensures edges != [] ==> edges[0] in edges && edges[|edges| - 1] in edges
  {
    ByKeyTsIsBySrc(edges);
    forall e | e in edges
      ensures edges[0].src <= e.src <= edges[|edges| - 1].src
    {
      var i :| 0 <= i < |edges| && edges[i] == e;
      EndsBound(edges, i);
    }
  }

  /** A description depends on the records, not on their order. */
  lemma {:induction false} DescribesPermuted(m: Meta, a: seq<Edge>, b: seq<Edge>)
    requires Describes(m, a) && |a| == |b| && forall e :: e in a <==> e in b
    ensures Describes(m, b)
  {
    assert (set e | e in a :: e.src) == (set e | e in b :: e.src);
    assert a == [] <==> b == [];
    assert forall l: i32 :: HaveLabel(a, l) <==> HaveLabel(b, l);
    assert forall t: i32 :: HaveType(a, t) <==> HaveType(b, t);
  }
}
