/** Writing a segment as bytes and reading it back. */
module CsrSegment {
  import opened Types
  import opened Sorting
  import opened Segment
  import opened CsrFormat

  // ------------------------------------------------------------ the byte image

  function OffsetTableBytes(offsets: seq<EdgeOffset>): (r: seq<byte>)
    ensures |r| == EDGE_OFFSET_LEN * |offsets|
  {
    if offsets == [] then [] else OffsetTableBytes(offsets[..|offsets| - 1]) + OffsetBytes(offsets[|offsets| - 1])
  }

  function BodiesBytes(edges: seq<Edge>): (r: seq<byte>)
    ensures |r| == DISK_EDGE_BODY_LEN * |edges|
  {
    if edges == [] then [] else BodiesBytes(edges[..|edges| - 1]) + BodyBytes(BodyOf(edges[|edges| - 1]))
  }

  function HeaderOf(level: nat, fileId: nat, edges: seq<Edge>): Header {
    var m := MetaOf(level, fileId, edges);
    var offsetsLen := EDGE_OFFSET_LEN * |Offsets(edges)|;
    Header(CSR_MAGIC, CSR_VERSION, CSR_HEADER_LEN, level, 0, fileId, m.maxTs, m.minTs, m.maxTs, m.srcLabel,
           m.edgeTypePartition, m.minSrc, m.maxSrc, |Offsets(edges)|, |edges|, CSR_HEADER_LEN, offsetsLen,
           CSR_HEADER_LEN + offsetsLen, DISK_EDGE_BODY_LEN * |edges|, 0)
  }

  /** The file of the segment holding `edges`, which are sorted. */
  function SegmentBytes(level: nat, fileId: nat, edges: seq<Edge>): seq<byte> {
    HeaderBytes(HeaderOf(level, fileId, edges)) + OffsetTableBytes(Offsets(edges)) + BodiesBytes(edges)
  }

  /** Level, id and length fit their on-disk integers. */
  predicate SegmentFits(level: nat, fileId: nat, edges: seq<Edge>) {
    && level < 256 && fileId <= U64_MAX
    && CSR_HEADER_LEN + EDGE_OFFSET_LEN * |Offsets(edges)| + DISK_EDGE_BODY_LEN * |edges| <= U64_MAX
  }

  lemma {:induction false} NoMoreRunsThanRecords(edges: seq<Edge>, i: nat)
    requires i <= |edges|
    ensures |OffsetsFrom(edges, i)| <= |edges| - i
    decreases |edges| - i
  {
    if i < |edges| {
      NoMoreRunsThanRecords(edges, RunEnd(edges, i, edges[i].src));
    }
  }

  /** Nothing below 2^58 records is too long. */
  lemma {:induction false} SegmentsFit(level: nat, fileId: nat, edges: seq<Edge>)
    requires level < 256 && fileId < 0x1_0000_0000_0000_0000 && |edges| <= 0x400_0000_0000_0000
    ensures SegmentFits(level, fileId, edges)
  {
    NoMoreRunsThanRecords(edges, 0);
  }

  // ----------------------------------------------------------------- the writer

  method CountUniqueSources(edges: seq<Edge>) returns (count: nat)
    ensures count == |Offsets(edges)|
  {
    count := 0;
    var last: Option<u64> := None;
    ghost var start := 0;
    for i := 0 to |edges|
      invariant i == 0 ==> last == None && start == 0 && count == 0
      invariant i > 0 ==> start < i && count >= 1 && last == Some(edges[start].src)
      invariant i > 0 ==> RunEnd(edges, i, edges[start].src) == RunEnd(edges, start, edges[start].src)
      invariant i > 0 ==> count - 1 + |OffsetsFrom(edges, start)| == |Offsets(edges)|
    {
      if last != Some(edges[i].src) {
        if i > 0 {
          assert RunEnd(edges, i, edges[start].src) == i;
          assert |OffsetsFrom(edges, start)| == 1 + |OffsetsFrom(edges, i)|;
        }
        count := count + 1;
        last := Some(edges[i].src);
        start := i;
      }
    }
    if |edges| > 0 {
      assert RunEnd(edges, start, edges[start].src) == |edges|;
      assert OffsetsFrom(edges, |edges|) == [];
    }
  }

  method SegmentSrcLabel(edges: seq<Edge>) returns (r: i32)
    ensures r == SegmentLabel(edges)
  {
    var found: Option<i32> := None;
    for i := 0 to |edges|
      invariant i == 0 ==> found == None
      invariant i > 0 ==> found == Some(SourceLabel(edges[0].src))
      invariant forall k :: 0 <= k < i ==> SourceLabel(edges[k].src) == SourceLabel(edges[0].src)
    {
      var current := SourceLabel(edges[i].src);
      match found
      case None => found := Some(current);
      case Some(existing) =>
        if existing != current {
          return UNKNOWN_SOURCE_LABEL;
        }
    }
    r := if found.Some? then found.value else UNKNOWN_SOURCE_LABEL;
  }

  method SegmentEdgeType(edges: seq<Edge>) returns (r: i32)
    ensures r == SegmentType(edges)
  {
    var found: Option<i32> := None;
    for i := 0 to |edges|
      invariant i == 0 ==> found == None
      invariant i > 0 ==> found == Some(edges[0].edgeType)
      invariant forall k :: 0 <= k < i ==> edges[k].edgeType == edges[0].edgeType
    {
      match found
      case None => found := Some(edges[i].edgeType);
      case Some(existing) =>
        if existing != edges[i].edgeType {
          return MIXED_EDGE_TYPE;
        }
    }
    r := if found.Some? then found.value else MIXED_EDGE_TYPE;
  }

  lemma {:induction false} FirstRun(edges: seq<Edge>, i: nat)
    requires i < |edges|
    ensures var end := RunEnd(edges, i, edges[i].src);
            end > i && OffsetsFrom(edges, i) == [EdgeOffset(edges[i].src, i, end - i)] + OffsetsFrom(edges, end)
  {
    var end := RunEnd(edges, i, edges[i].src);
    assert end > i by { assert edges[i].src == edges[i].src; }
    hide RunEnd;
    OffsetsUnfold(edges, i, end);
  }

  lemma {:induction false} OffsetsUnfold(edges: seq<Edge>, i: nat, end: nat)
    requires i < end <= |edges| && end == RunEnd(edges, i, edges[i].src)
    ensures OffsetsFrom(edges, i) == [EdgeOffset(edges[i].src, i, end - i)] + OffsetsFrom(edges, end)
  {
    hide RunEnd;
  }

  lemma {:induction false} Reassociate<T>(a: seq<T>, x: T, b: seq<T>)
    ensures (a + [x]) + b == a + ([x] + b)
  {
  }

  lemma {:induction false} OffsetsPrefix(done: seq<EdgeOffset>, edges: seq<Edge>, i: nat)
    requires i < |edges| && done + OffsetsFrom(edges, i) == Offsets(edges)
    ensures var end := RunEnd(edges, i, edges[i].src);
            end > i && (done + [EdgeOffset(edges[i].src, i, end - i)]) + OffsetsFrom(edges, end) == Offsets(edges)
  {
    hide OffsetsFrom, Offsets, RunEnd;
    FirstRun(edges, i);
    var end := RunEnd(edges, i, edges[i].src);
    Reassociate(done, EdgeOffset(edges[i].src, i, end - i), OffsetsFrom(edges, end));
  }

  lemma {:induction false} TablePush(offsets: seq<EdgeOffset>, o: EdgeOffset)
    ensures OffsetTableBytes(offsets + [o]) == OffsetTableBytes(offsets) + OffsetBytes(o)
  {
    assert (offsets + [o])[..|offsets|] == offsets;
  }

  lemma {:induction false} BodiesPush(edges: seq<Edge>, i: nat)
    requires i < |edges|
    ensures BodiesBytes(edges[..i + 1]) == BodiesBytes(edges[..i]) + BodyBytes(BodyOf(edges[i]))
  {
    assert edges[..i + 1][..i] == edges[..i];
  }

  /** Groups the sorted edges by source while appending to the offset table and the bodies. */
  method EncodeRuns(edges: seq<Edge>) returns (offsets: seq<byte>, bodies: seq<byte>)
    ensures offsets == OffsetTableBytes(Offsets(edges)) && bodies == BodiesBytes(edges)
  {
    hide OffsetBytes, BodyBytes, OffsetTableBytes, BodiesBytes, OffsetsFrom;
    offsets, bodies := [], [];
    ghost var done: seq<EdgeOffset> := [];
    EmptyImages();
    assert edges[..0] == [];
    var idx := 0;
    while idx < |edges|
      invariant idx <= |edges|
      invariant offsets == OffsetTableBytes(done) && bodies == BodiesBytes(edges[..idx])
      invariant done + OffsetsFrom(edges, idx) == Offsets(edges)
    {
      OffsetsPrefix(done, edges, idx);
      var src := edges[idx].src;
      var first := idx;
      var count := 0;
      ghost var end := RunEnd(edges, first, src);
      while idx < |edges| && edges[idx].src == src
        invariant first <= idx <= |edges| && count == idx - first
        invariant RunEnd(edges, idx, src) == end
        invariant bodies == BodiesBytes(edges[..idx])
      {
        BodiesPush(edges, idx);
        bodies := bodies + BodyBytes(BodyOf(edges[idx]));
        count := count + 1;
        idx := idx + 1;
      }
      var o := EdgeOffset(src, first, count);
      TablePush(done, o);
      done := done + [o];
      offsets := offsets + OffsetBytes(o);
    }
    NoOffsetsAtEnd(edges);
    assert done + [] == done;
    assert edges[..|edges|] == edges;
  }

  lemma {:induction false} EmptyImages()
    ensures OffsetTableBytes([]) == [] && BodiesBytes([]) == []
  {
  }

  lemma {:induction false} NoOffsetsAtEnd(edges: seq<Edge>)
    ensures OffsetsFrom(edges, |edges|) == []
  {
  }

  lemma {:induction false} DivExact(n: nat)
    ensures (EDGE_OFFSET_LEN * n) / EDGE_OFFSET_LEN == n
  {
  }

  method WriteSegment(level: nat, fileId: nat, edges: seq<Edge>) returns (bytes: seq<byte>, meta: Meta)
    ensures bytes == SegmentBytes(level, fileId, SortBy(ByKeyTs, edges))
    ensures meta == MetaOf(level, fileId, SortBy(ByKeyTs, edges))
    ensures meta.level == level && meta.fileId == fileId && meta.segmentBytes == |bytes| && Describes(meta, edges)
  {
    hide SortBy, Offsets, HeaderFields, HeaderBytes, SegmentLabel, SegmentType, MinTs, MaxTs, OffsetTableBytes, BodiesBytes,
      Describes;
    var sorted := SortBy(ByKeyTs, edges);
    var minTs, maxTs := MinTs(sorted), MaxTs(sorted);
    var minSrc := if sorted == [] then 0 else sorted[0].src;
    var maxSrc := if sorted == [] then 0 else sorted[|sorted| - 1].src;
    var uniqueSrcCount := CountUniqueSources(sorted);
    var srcLabel := SegmentSrcLabel(sorted);
    var edgeTypePartition := SegmentEdgeType(sorted);
    var offsets, bodies := EncodeRuns(sorted);
    DivExact(|Offsets(sorted)|);
    var bodiesOffset := CSR_HEADER_LEN + |offsets|;
    var header := Header(
      CSR_MAGIC, CSR_VERSION, CSR_HEADER_LEN, level, 0, fileId, maxTs, minTs, maxTs, srcLabel, edgeTypePartition,
      minSrc, maxSrc, |offsets| / EDGE_OFFSET_LEN, |sorted|, CSR_HEADER_LEN, |offsets|, bodiesOffset, |bodies|, 0);
    var head := EncodeHeader(header);
    bytes := head[..] + offsets + bodies;
    meta := Meta(fileId, level, srcLabel, edgeTypePartition, minSrc, maxSrc, minTs, |sorted|, uniqueSrcCount,
                 |bytes|, maxTs);
    WrittenDescribes(level, fileId, edges);
  }

  lemma {:induction false} WrittenDescribes(level: nat, fileId: nat, edges: seq<Edge>)
    ensures Describes(MetaOf(level, fileId, SortBy(ByKeyTs, edges)), edges)
  {
    hide SortBy, MetaOf, Describes;
    assert TotalPreorder(ByKeyTs);
    SortBySorted(ByKeyTs, edges);
    SortByElements(ByKeyTs, edges);
    SortByMultiset(ByKeyTs, edges);
    MetaDescribes(level, fileId, SortBy(ByKeyTs, edges));
    DescribesPermuted(MetaOf(level, fileId, SortBy(ByKeyTs, edges)), SortBy(ByKeyTs, edges), edges);
  }

  // ----------------------------------------------------------------- the reader

  /** `chunks_exact` of the offset table, decoded. */
  function DecodeTable(b: seq<byte>): seq<EdgeOffset> {
    if |b| < EDGE_OFFSET_LEN then [] else [DecodeOffset(b[..EDGE_OFFSET_LEN])] + DecodeTable(b[EDGE_OFFSET_LEN..])
  }

  /** `chunks_exact` of edge bodies, decoded as edges of one source. */
  function DecodeBodies(b: seq<byte>, src: u64): seq<Edge> {
    if |b| < DISK_EDGE_BODY_LEN then []
    else [ToEdge(DecodeBody(b[..DISK_EDGE_BODY_LEN]), src)] + DecodeBodies(b[DISK_EDGE_BODY_LEN..], src)
  }

  lemma {:induction false} TableBytesFront(offsets: seq<EdgeOffset>)
    requires offsets != []
    ensures OffsetTableBytes(offsets) == OffsetBytes(offsets[0]) + OffsetTableBytes(offsets[1..])
  {
    hide OffsetBytes;
    var n := |offsets| - 1;
    if n == 0 {
      assert offsets[..0] == [] && offsets[1..] == [];
      assert OffsetTableBytes(offsets) == [] + OffsetBytes(offsets[0]);
    } else {
      TableBytesFront(offsets[..n]);
      assert offsets[..n][1..] == offsets[1..][..n - 1];
      assert offsets[..n][0] == offsets[0];
    }
  }

  lemma {:induction false} BodiesBytesAppend(a: seq<Edge>, b: seq<Edge>)
    ensures BodiesBytes(a + b) == BodiesBytes(a) + BodiesBytes(b)
  {
    hide BodyBytes;
    if b == [] {
      assert a + b == a;
    } else {
      var n := |b| - 1;
      assert (a + b)[..|a| + n] == a + b[..n];
      BodiesBytesAppend(a, b[..n]);
    }
  }

  lemma {:induction false} TableRoundTrip(offsets: seq<EdgeOffset>)
    requires forall o :: o in offsets ==> OffsetFits(o)
    ensures DecodeTable(OffsetTableBytes(offsets)) == offsets
  {
    hide OffsetBytes, DecodeOffset, OffsetTableBytes;
    if offsets != [] {
      TableBytesFront(offsets);
      assert offsets[0] in offsets;
      forall o | o in offsets[1..]
        ensures OffsetFits(o)
      {
        assert o in offsets;
      }
      TableRoundTrip(offsets[1..]);
      OffsetRoundTrip(offsets[0]);
      var b := OffsetTableBytes(offsets);
      assert b[..EDGE_OFFSET_LEN] == OffsetBytes(offsets[0]) && b[EDGE_OFFSET_LEN..] == OffsetTableBytes(offsets[1..]);
    }
  }

  lemma {:induction false} BodiesRoundTrip(edges: seq<Edge>, src: u64)
    requires forall k :: 0 <= k < |edges| ==> edges[k].src == src
    ensures DecodeBodies(BodiesBytes(edges), src) == edges
  {
    hide BodyBytes, DecodeBody;
    if edges != [] {
      assert edges == [edges[0]] + edges[1..];
      BodiesBytesAppend([edges[0]], edges[1..]);
      assert [edges[0]][..0] == [];
      assert BodiesBytes([edges[0]]) == [] + BodyBytes(BodyOf(edges[0]));
      BodiesRoundTrip(edges[1..], src);
      BodyRoundTrip(edges[0]);
      var b := BodiesBytes(edges);
      assert b[..DISK_EDGE_BODY_LEN] == BodyBytes(BodyOf(edges[0]));
      assert b[DISK_EDGE_BODY_LEN..] == BodiesBytes(edges[1..]);
    }
  }

  lemma {:induction false} BodiesSlice(edges: seq<Edge>, first: nat, count: nat)
    requires first + count <= |edges|
    ensures BodiesBytes(edges)[DISK_EDGE_BODY_LEN * first..DISK_EDGE_BODY_LEN * (first + count)] ==
            BodiesBytes(edges[first..first + count])
  {
    hide BodiesBytes;
    var a, b, c := edges[..first], edges[first..first + count], edges[first + count..];
    assert edges == (a + b) + c;
    BodiesBytesAppend(a + b, c);
    BodiesBytesAppend(a, b);
  }

  datatype Metadata = Metadata(header: Header, offsets: seq<EdgeOffset>)

  /** Positional read; a range past the end of the file is an error. */
  function ReadAt(file: seq<byte>, offset: nat, len: nat): Option<seq<byte>> {
    if offset + len <= |file| then Some(file[offset..offset + len]) else None
  }

  function ReadMetadata(file: seq<byte>): Option<Metadata> {
    var head := ReadAt(file, 0, CSR_HEADER_LEN);
    if head.None? then None
    else
      var header := DecodeHeader(head.value);
      if !header.Ok? then None
      else
        var table := ReadAt(file, header.value.offsetsOffset, header.value.offsetsLen);
        if table.None? then None else Some(Metadata(header.value, DecodeTable(table.value)))
  }

  method FindOffsetInBytes(offsetsBytes: seq<byte>, src: u64) returns (found: Option<EdgeOffset>)
    requires forall i, j :: 0 <= i < j < |DecodeTable(offsetsBytes)| ==>
               DecodeTable(offsetsBytes)[i].src < DecodeTable(offsetsBytes)[j].src
    ensures found == FindOffset(DecodeTable(offsetsBytes), src)
  {
    var count := |offsetsBytes| / EDGE_OFFSET_LEN;
    ghost var table := DecodeTable(offsetsBytes);
    TableLength(offsetsBytes);
    hide DecodeTable, FindOffset, DecodeOffset;
    var lo, hi := 0, count;
    while lo < hi
      invariant 0 <= lo <= hi <= count
      invariant forall k :: 0 <= k < lo ==> table[k].src < src
      invariant forall k :: hi <= k < count ==> src < table[k].src
    {
      var mid := (lo + hi) / 2;
      TableEntry(offsetsBytes, mid);
      var chunk := offsetsBytes[mid * EDGE_OFFSET_LEN..(mid + 1) * EDGE_OFFSET_LEN];
      var offset := DecodeOffset(chunk);
      if offset.src == src {
        FoundAt(table, mid, src);
        return Some(offset);
      }
      if offset.src < src {
        lo := mid + 1;
      } else {
        hi := mid;
      }
    }
    FoundSource(table, src);
    found := None;
  }

  lemma {:induction false} TableLength(b: seq<byte>)
    ensures |DecodeTable(b)| == |b| / EDGE_OFFSET_LEN
    decreases |b|
  {
    if |b| >= EDGE_OFFSET_LEN {
      TableLength(b[EDGE_OFFSET_LEN..]);
    }
  }

  lemma {:induction false} TableEntry(b: seq<byte>, k: nat)
    requires k < |DecodeTable(b)|
    ensures (k + 1) * EDGE_OFFSET_LEN <= |b|
    ensures DecodeTable(b)[k] == DecodeOffset(b[k * EDGE_OFFSET_LEN..(k + 1) * EDGE_OFFSET_LEN])
    decreases |b|
  {
    hide DecodeOffset;
    if k > 0 {
      var rest := b[EDGE_OFFSET_LEN..];
      TableEntry(rest, k - 1);
      assert rest[(k - 1) * EDGE_OFFSET_LEN..k * EDGE_OFFSET_LEN] == b[k * EDGE_OFFSET_LEN..(k + 1) * EDGE_OFFSET_LEN];
    }
  }

  lemma {:induction false} FoundAt(table: seq<EdgeOffset>, k: nat, src: u64)
    requires k < |table| && table[k].src == src
    requires forall i, j :: 0 <= i < j < |table| ==> table[i].src < table[j].src
    ensures FindOffset(table, src) == Some(table[k])
  {
    if k > 0 {
      FoundAt(table[1..], k - 1, src);
    }
  }

  method GetNeighbors(file: seq<byte>, meta: Meta, src: u64) returns (out: Option<seq<Edge>>)
    ensures out == NeighborsIn(file, meta, src)
  {
    if src < meta.minSrc || src > meta.maxSrc || meta.edgeCount == 0 {
      return Some([]);
    }
    var metadata := ReadMetadata(file);
    if metadata.None? {
      return None;
    }
    var offset := FindOffset(metadata.value.offsets, src);
    if offset.None? {
      return Some([]);
    }
    var bodies := ReadAt(file, metadata.value.header.bodiesOffset + offset.value.firstEdgeIdx * DISK_EDGE_BODY_LEN,
                         offset.value.edgeCount * DISK_EDGE_BODY_LEN);
    if bodies.None? {
      return None;
    }
    var edges := DecodeChunks(bodies.value, src);
    out := Some(edges);
  }

  method DecodeChunks(bodies: seq<byte>, src: u64) returns (out: seq<Edge>)
    ensures out == DecodeBodies(bodies, src)
  {
    hide DecodeBody;
    out := [];
    var pos := 0;
    assert bodies[0..] == bodies;
    while pos + DISK_EDGE_BODY_LEN <= |bodies|
      invariant pos <= |bodies|
      invariant out + DecodeBodies(bodies[pos..], src) == DecodeBodies(bodies, src)
    {
      ghost var rest := bodies[pos..];
      assert rest[..DISK_EDGE_BODY_LEN] == bodies[pos..pos + DISK_EDGE_BODY_LEN];
      assert rest[DISK_EDGE_BODY_LEN..] == bodies[pos + DISK_EDGE_BODY_LEN..];
      out := out + [ToEdge(DecodeBody(bodies[pos..pos + DISK_EDGE_BODY_LEN]), src)];
      pos := pos + DISK_EDGE_BODY_LEN;
    }
    assert out + [] == out;
  }

  function NeighborsIn(file: seq<byte>, meta: Meta, src: u64): Option<seq<Edge>> {
    if !InRange(meta, src) || meta.edgeCount == 0 then Some([])
    else
      var metadata := ReadMetadata(file);
      if metadata.None? then None
      else
        var offset := FindOffset(metadata.value.offsets, src);
        if offset.None? then Some([])
        else
          var bodies := ReadAt(file, metadata.value.header.bodiesOffset + offset.value.firstEdgeIdx * DISK_EDGE_BODY_LEN,
                               offset.value.edgeCount * DISK_EDGE_BODY_LEN);
          if bodies.None? then None else Some(DecodeBodies(bodies.value, src))
  }

  /** Bodies of each offset entry in turn; the source indexes past the bodies only on a malformed file. */
  function DecodeRuns(bodies: seq<byte>, offsets: seq<EdgeOffset>): Option<seq<Edge>> {
    if offsets == [] then Some([])
    else
      var n := |offsets| - 1;
      var before := DecodeRuns(bodies, offsets[..n]);
      var run := ReadAt(bodies, offsets[n].firstEdgeIdx * DISK_EDGE_BODY_LEN, offsets[n].edgeCount * DISK_EDGE_BODY_LEN);
      if before.None? || run.None? then None else Some(before.value + DecodeBodies(run.value, offsets[n].src))
  }

  function AllEdgesIn(file: seq<byte>, meta: Meta): Option<seq<Edge>> {
    if meta.edgeCount == 0 then Some([])
    else
      var metadata := ReadMetadata(file);
      if metadata.None? then None
      else
        var bodies := ReadAt(file, metadata.value.header.bodiesOffset, metadata.value.header.bodiesLen);
        if bodies.None? then None else DecodeRuns(bodies.value, metadata.value.offsets)
  }

  method ReadAllEdges(file: seq<byte>, meta: Meta) returns (out: Option<seq<Edge>>)
    ensures out == AllEdgesIn(file, meta)
  {
    if meta.edgeCount == 0 {
      return Some([]);
    }
    var metadata := ReadMetadata(file);
    if metadata.None? {
      return None;
    }
    var bodies := ReadAt(file, metadata.value.header.bodiesOffset, metadata.value.header.bodiesLen);
    if bodies.None? {
      return None;
    }
    var offsets := metadata.value.offsets;
    out := DecodeAllRuns(bodies.value, offsets);
  }

  method DecodeAllRuns(bodies: seq<byte>, offsets: seq<EdgeOffset>) returns (out: Option<seq<Edge>>)
    ensures out == DecodeRuns(bodies, offsets)
  {
    hide DecodeBodies;
    out := Some([]);
    for i := 0 to |offsets|
      invariant out.Some? && out == DecodeRuns(bodies, offsets[..i])
    {
      assert offsets[..i + 1][..i] == offsets[..i];
      var o := offsets[i];
      var run := ReadAt(bodies, o.firstEdgeIdx * DISK_EDGE_BODY_LEN, o.edgeCount * DISK_EDGE_BODY_LEN);
      if run.None? {
        RunsFailEarly(bodies, offsets, i + 1);
        return None;
      }
      var edges := DecodeChunks(run.value, o.src);
      out := Some(out.value + edges);
    }
    assert offsets[..|offsets|] == offsets;
  }

  lemma {:induction false} RunsFailEarly(bodies: seq<byte>, offsets: seq<EdgeOffset>, k: nat)
    requires k <= |offsets| && DecodeRuns(bodies, offsets[..k]).None?
    ensures DecodeRuns(bodies, offsets).None?
    decreases |offsets|
  {
    hide DecodeBodies;
    if k < |offsets| {
      var n := |offsets| - 1;
      assert offsets[..n][..k] == offsets[..k];
      RunsFailEarly(bodies, offsets[..n], k);
    } else {
      assert offsets[..k] == offsets;
    }
  }

  // -------------------------------------------------------------- round trips

  lemma {:induction false} OffsetsFit(edges: seq<Edge>)
    requires |edges| <= U64_MAX
    ensures forall o :: o in Offsets(edges) ==> OffsetFits(o)
  {
    forall i | 0 <= i < |Offsets(edges)|
      ensures OffsetFits(Offsets(edges)[i])
    {
      OffsetsTile(edges, 0, i);
    }
  }

  lemma {:induction false} WrittenHeaderFits(level: nat, fileId: nat, edges: seq<Edge>)
    requires SegmentFits(level, fileId, edges)
    ensures HeaderFits(HeaderOf(level, fileId, edges))
  {
    hide Offsets;
  }

  lemma {:induction false} HeaderLayout(level: nat, fileId: nat, edges: seq<Edge>)
    ensures var h := HeaderOf(level, fileId, edges);
            && h.offsetsOffset == CSR_HEADER_LEN && h.offsetsLen == EDGE_OFFSET_LEN * |Offsets(edges)|
            && h.magic == CSR_MAGIC && h.version == CSR_VERSION
  {
    hide Offsets, MetaOf;
  }

  /** The metadata a reader recovers from a written segment is the one the writer had. */
  lemma {:induction false} MetadataRoundTrip(level: nat, fileId: nat, edges: seq<Edge>)
    requires SegmentFits(level, fileId, edges)
    ensures ReadMetadata(SegmentBytes(level, fileId, edges)) ==
            Some(Metadata(HeaderOf(level, fileId, edges), Offsets(edges)))
  {
    hide HeaderOf, HeaderFits;
    var h, file := HeaderOf(level, fileId, edges), SegmentBytes(level, fileId, edges);
    HeaderLayout(level, fileId, edges);
    WrittenHeaderFits(level, fileId, edges);
    hide HeaderBytes, OffsetTableBytes, BodiesBytes, Offsets, DecodeHeader, DecodeTable;
    assert file[0..CSR_HEADER_LEN] == HeaderBytes(h);
    HeaderRoundTrip(h);
    var table := OffsetTableBytes(Offsets(edges));
    assert file[CSR_HEADER_LEN..CSR_HEADER_LEN + |table|] == table;
    OffsetsFit(edges);
    TableRoundTrip(Offsets(edges));
  }

  /** The header a reader decodes states the metadata the writer returned, and where the tables lie. */
  lemma {:induction false} HeaderStatesMeta(level: nat, fileId: nat, edges: seq<Edge>)
    requires SegmentFits(level, fileId, edges)
    ensures var m, metadata := MetaOf(level, fileId, edges), ReadMetadata(SegmentBytes(level, fileId, edges));
            && metadata.Some?
            && var h := metadata.value.header;
               && h.magic == 0x4753_4d4c && h.version == 1 && h.headerLen == 128 && h.flags == 0 && h.checksum == 0
               && h.level == level && h.fileId == fileId && h.srcLabel == m.srcLabel && h.edgeTypePartition == m.edgeTypePartition
               && h.minSrc == m.minSrc && h.maxSrc == m.maxSrc && h.minTs == m.minTs && h.maxTs == m.maxTs && h.createTs == m.maxTs
               && h.edgeOffsetCount == m.uniqueSrcCount && h.edgeBodyCount == m.edgeCount
               && h.offsetsOffset == 128 && h.offsetsLen == 24 * m.uniqueSrcCount
               && h.bodiesOffset == 128 + 24 * m.uniqueSrcCount && h.bodiesLen == 32 * m.edgeCount
               && h.bodiesOffset + h.bodiesLen == m.segmentBytes
  {
    MetadataRoundTrip(level, fileId, edges);
    hide ReadMetadata, SegmentBytes, SegmentFits, Offsets, SegmentLabel, SegmentType, MinTs, MaxTs;
  }

  lemma {:induction false} FoundRun(level: nat, fileId: nat, edges: seq<Edge>, src: u64, o: EdgeOffset)
    requires SortedBy(ByKeyTs, edges) && FindOffset(Offsets(edges), src) == Some(o)
    ensures ReadAt(SegmentBytes(level, fileId, edges),
                   HeaderOf(level, fileId, edges).bodiesOffset + o.firstEdgeIdx * DISK_EDGE_BODY_LEN,
                   o.edgeCount * DISK_EDGE_BODY_LEN).Some?
    ensures DecodeBodies(ReadAt(SegmentBytes(level, fileId, edges),
                   HeaderOf(level, fileId, edges).bodiesOffset + o.firstEdgeIdx * DISK_EDGE_BODY_LEN,
                   o.edgeCount * DISK_EDGE_BODY_LEN).value, src) == Filter(HasSrc(src), edges)
  {
    hide SegmentBytes, HeaderOf, Offsets, DecodeBodies, BodiesBytes, ReadAt;
    FoundSource(Offsets(edges), src);
    LookupIsFilter(edges, src);
    RunBytes(level, fileId, edges, o);
    RunSources(edges, o);
    BodiesRoundTrip(edges[o.firstEdgeIdx..o.firstEdgeIdx + o.edgeCount], src);
  }

  /** A lookup in a written segment returns exactly the records of the source, in order. */
  lemma {:induction false} NeighborsRoundTrip(level: nat, fileId: nat, edges: seq<Edge>, src: u64)
    requires SegmentFits(level, fileId, edges) && SortedBy(ByKeyTs, edges)
    ensures NeighborsIn(SegmentBytes(level, fileId, edges), MetaOf(level, fileId, edges), src) ==
            Some(Filter(HasSrc(src), edges))
  {
    hide SegmentBytes, HeaderOf, Offsets, DecodeBodies, ReadAt, ReadMetadata, FindOffset, SegmentFits, SegmentLabel,
      SegmentType, MinTs, MaxTs;
    var m := MetaOf(level, fileId, edges);
    if !InRange(m, src) || m.edgeCount == 0 {
      OutOfRangeIsAbsent(level, fileId, edges, src);
    } else {
      MetadataRoundTrip(level, fileId, edges);
      LookupIsFilter(edges, src);
      var found := FindOffset(Offsets(edges), src);
      if found.Some? {
        FoundRun(level, fileId, edges, src, found.value);
      }
    }
  }

  lemma {:induction false} OutOfRangeIsAbsent(level: nat, fileId: nat, edges: seq<Edge>, src: u64)
    requires SortedBy(ByKeyTs, edges)
    requires !InRange(MetaOf(level, fileId, edges), src) || edges == []
    ensures Filter(HasSrc(src), edges) == []
  {
    hide MetaOf;
    forall k | 0 <= k < |edges|
      ensures !HasSrc(src)(edges[k])
    {
      MetaBounds(level, fileId, edges, edges[k]);
    }
    FilterNone(HasSrc(src), edges);
  }

  lemma {:induction false} RunSources(edges: seq<Edge>, o: EdgeOffset)
    requires o in Offsets(edges)
    ensures o.firstEdgeIdx + o.edgeCount <= |edges|
    ensures forall j :: o.firstEdgeIdx <= j < o.firstEdgeIdx + o.edgeCount ==> edges[j].src == o.src
  {
    var i :| 0 <= i < |Offsets(edges)| && Offsets(edges)[i] == o;
    OffsetsTile(edges, 0, i);
  }

  /** Byte ranges behind the header and the offset table fall into the bodies. */
  lemma {:induction false} ReadBehind(head: seq<byte>, table: seq<byte>, bodies: seq<byte>, lo: nat, len: nat)
    requires lo + len <= |bodies|
    ensures ReadAt(head + table + bodies, |head| + |table| + lo, len) == Some(bodies[lo..lo + len])
  {
    var file, at := head + table + bodies, |head| + |table|;
    assert file[at + lo..at + lo + len] == bodies[lo..lo + len];
  }

  lemma {:induction false} HeaderPlaces(level: nat, fileId: nat, edges: seq<Edge>)
    ensures var h := HeaderOf(level, fileId, edges);
            && h.bodiesOffset == CSR_HEADER_LEN + EDGE_OFFSET_LEN * |Offsets(edges)|
            && h.bodiesLen == DISK_EDGE_BODY_LEN * |edges|
  {
  }

  lemma {:induction false} OffsetsReachEnd(edges: seq<Edge>)
    ensures EndOfRun(edges, |Offsets(edges)|) == |edges|
  {
    if edges != [] {
      assert Offsets(edges) != [];
      OffsetsTile(edges, 0, |Offsets(edges)| - 1);
    }
  }

  lemma {:induction false} ReadBodies(level: nat, fileId: nat, edges: seq<Edge>, lo: nat, len: nat)
    requires lo + len <= DISK_EDGE_BODY_LEN * |edges|
    ensures ReadAt(SegmentBytes(level, fileId, edges), HeaderOf(level, fileId, edges).bodiesOffset + lo, len) ==
            Some(BodiesBytes(edges)[lo..lo + len])
  {
    hide HeaderBytes, OffsetTableBytes, BodiesBytes, HeaderOf, Offsets, ReadAt;
    var h := HeaderOf(level, fileId, edges);
    HeaderPlaces(level, fileId, edges);
    ReadBehind(HeaderBytes(h), OffsetTableBytes(Offsets(edges)), BodiesBytes(edges), lo, len);
  }

  lemma {:induction false} RunBytes(level: nat, fileId: nat, edges: seq<Edge>, o: EdgeOffset)
    requires o in Offsets(edges)
    ensures o.firstEdgeIdx + o.edgeCount <= |edges|
    ensures ReadAt(SegmentBytes(level, fileId, edges),
                   HeaderOf(level, fileId, edges).bodiesOffset + o.firstEdgeIdx * DISK_EDGE_BODY_LEN,
                   o.edgeCount * DISK_EDGE_BODY_LEN) ==
            Some(BodiesBytes(edges[o.firstEdgeIdx..o.firstEdgeIdx + o.edgeCount]))
  {
    hide SegmentBytes, HeaderOf, Offsets, BodiesBytes, ReadAt;
    RunSources(edges, o);
    ReadBodies(level, fileId, edges, o.firstEdgeIdx * DISK_EDGE_BODY_LEN, o.edgeCount * DISK_EDGE_BODY_LEN);
    BodiesSlice(edges, o.firstEdgeIdx, o.edgeCount);
  }

  function EndOfRun(edges: seq<Edge>, k: nat): nat
    requires k <= |Offsets(edges)|
  {
    if k == 0 then 0 else Offsets(edges)[k - 1].firstEdgeIdx + Offsets(edges)[k - 1].edgeCount
  }

  lemma {:induction false} RunEnds(edges: seq<Edge>, k: nat)
    requires k < |Offsets(edges)|
    ensures var o := Offsets(edges)[k];
            && o.firstEdgeIdx == EndOfRun(edges, k) && EndOfRun(edges, k + 1) == o.firstEdgeIdx + o.edgeCount <= |edges|
            && forall j :: EndOfRun(edges, k) <= j < EndOfRun(edges, k + 1) ==> edges[j].src == o.src
  {
    OffsetsTile(edges, 0, k);
    if k > 0 {
      OffsetsTile(edges, 0, k - 1);
    }
  }

  lemma {:induction false} RunAt(edges: seq<Edge>, o: EdgeOffset, lo: nat, hi: nat)
    requires o.firstEdgeIdx == lo <= hi == lo + o.edgeCount <= |edges|
    requires forall j :: lo <= j < hi ==> edges[j].src == o.src
    ensures ReadAt(BodiesBytes(edges), o.firstEdgeIdx * DISK_EDGE_BODY_LEN, o.edgeCount * DISK_EDGE_BODY_LEN) ==
            Some(BodiesBytes(edges[lo..hi]))
    ensures DecodeBodies(BodiesBytes(edges[lo..hi]), o.src) == edges[lo..hi]
  {
    hide DecodeBodies, BodiesBytes;
    BodiesSlice(edges, lo, o.edgeCount);
    BodiesRoundTrip(edges[lo..hi], o.src);
  }

  lemma {:induction false} RunsRoundTrip(edges: seq<Edge>, k: nat)
    requires k <= |Offsets(edges)|
    ensures EndOfRun(edges, k) <= |edges|
    ensures DecodeRuns(BodiesBytes(edges), Offsets(edges)[..k]) == Some(edges[..EndOfRun(edges, k)])
  {
    hide DecodeBodies, BodiesBytes, Offsets, ReadAt;
    if k > 0 {
      RunsRoundTrip(edges, k - 1);
      assert Offsets(edges)[..k][..k - 1] == Offsets(edges)[..k - 1];
      var a, b := EndOfRun(edges, k - 1), EndOfRun(edges, k);
      RunEnds(edges, k - 1);
      RunAt(edges, Offsets(edges)[k - 1], a, b);
      assert edges[..a] + edges[a..b] == edges[..b];
    }
  }

  /** Reading back everything returns the sorted edges. */
  lemma {:induction false} AllEdgesRoundTrip(level: nat, fileId: nat, edges: seq<Edge>)
    requires SegmentFits(level, fileId, edges)
    ensures AllEdgesIn(SegmentBytes(level, fileId, edges), MetaOf(level, fileId, edges)) == Some(edges)
  {
    hide SegmentBytes, HeaderOf, Offsets, BodiesBytes, ReadAt, ReadMetadata, DecodeRuns, SegmentFits, SegmentLabel,
      SegmentType, MinTs, MaxTs, EndOfRun;
    if edges != [] {
      MetadataRoundTrip(level, fileId, edges);
      HeaderPlaces(level, fileId, edges);
      ReadBodies(level, fileId, edges, 0, DISK_EDGE_BODY_LEN * |edges|);
      WholeSlice(BodiesBytes(edges), DISK_EDGE_BODY_LEN * |edges|);
      RunsRoundTrip(edges, |Offsets(edges)|);
      OffsetsReachEnd(edges);
      WholeSlice(Offsets(edges), |Offsets(edges)|);
      WholeSlice(edges, |edges|);
    }
  }

  lemma {:induction false} WholeSlice<T>(s: seq<T>, n: nat)
    requires n == |s|
    ensures s[0..n] == s && s[..n] == s
  {
  }
}
