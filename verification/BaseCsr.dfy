/** The base graph's static CSR: sorted pairs, counted offsets, and chunked neighbour reads. */
module BaseCsr {
  import opened Types
  import opened Sorting
  import opened Segment
  import opened CsrFormat
  import opened Lists

  type u32 = x: int | 0 <= x < 0x1_0000_0000

  datatype Pair = Pair(src: u32, dst: u32)

  predicate ByPair(a: Pair, b: Pair) {
    a.src < b.src || (a.src == b.src && a.dst <= b.dst)
  }

  function SrcBelow(k: nat): Pair -> bool {
    (p: Pair) => p.src < k
  }

  function SrcIs(s: u32): Pair -> bool {
    (p: Pair) => p.src == s
  }

  function CountBelow(edges: seq<Pair>, k: nat): nat {
    |Filter(SrcBelow(k), edges)|
  }

  function DstsOf(edges: seq<Pair>): seq<u32> {
    seq(|edges|, i requires 0 <= i < |edges| => edges[i].dst)
  }

  /** The destinations of one source, ascending, with multiplicity. */
  function NeighborsOf(edges: seq<Pair>, s: u32): seq<u32> {
    DstsOf(Filter(SrcIs(s), SortBy(ByPair, edges)))
  }

  // --------------------------------------------------- offsets into sorted pairs

  /** One source's pairs are the stretch between two counts. */
  lemma {:induction false} SourceIsStretch(t: seq<Pair>, s: u32)
    requires SortedBy(ByPair, t)
    ensures CountBelow(t, s) <= CountBelow(t, s + 1) <= |t|
    ensures Filter(SrcIs(s), t) == t[CountBelow(t, s)..CountBelow(t, s + 1)]
  {
    hide Filter;
    if t == [] {
      NothingFiltered(s);
    } else {
      var n := |t| - 1;
      var front, x := t[..n], t[n];
      SourceIsStretch(front, s);
      assert t == front + [x];
      FilterPush(SrcIs(s), front, x);
      FilterPush(SrcBelow(s), front, x);
      FilterPush(SrcBelow(s + 1), front, x);
      assert forall i :: 0 <= i < n ==> ByPair(t[i], t[n]);
      if x.src <= s {
        FilterAll(SrcBelow(s + 1), front);
      }
      if x.src < s {
        FilterAll(SrcBelow(s), front);
      }
    }
  }

  lemma {:induction false} NothingFiltered(s: u32)
    ensures Filter(SrcIs(s), []) == [] && CountBelow([], s) == 0 && CountBelow([], s + 1) == 0
  {
  }

  lemma {:induction false} CountPermutes(a: seq<Pair>, k: nat)
    ensures CountBelow(SortBy(ByPair, a), k) == CountBelow(a, k)
  {
    FilterSort(ByPair, SrcBelow(k), a);
    SortByMultiset(ByPair, Filter(SrcBelow(k), a));
  }

  /** What the offsets and neighbours of a list of pairs are. */
  ghost predicate IsCsr(edges: seq<Pair>, numSrc: nat, offsets: seq<nat>, neighbors: seq<u32>) {
    && |offsets| == numSrc + 1
    && (forall k :: 0 <= k <= numSrc ==> offsets[k] == CountBelow(edges, k))
    && neighbors == DstsOf(SortBy(ByPair, edges))
  }

  /** Every in-range source finds exactly its destinations, also when sources out of range sort to the tail. */
  lemma {:induction false} RangeIsNeighbors(edges: seq<Pair>, numSrc: nat, offsets: seq<nat>, neighbors: seq<u32>, s: u32)
    requires IsCsr(edges, numSrc, offsets, neighbors) && s < numSrc
    ensures offsets[s] <= offsets[s + 1] <= |neighbors|
    ensures neighbors[offsets[s]..offsets[s + 1]] == NeighborsOf(edges, s)
  {
    hide CountBelow, SortBy, Filter;
    assert TotalPreorder(ByPair);
    var t := SortBy(ByPair, edges);
    SortBySorted(ByPair, edges);
    SortByMultiset(ByPair, edges);
    CountPermutes(edges, s);
    CountPermutes(edges, s + 1);
    SourceIsStretch(t, s);
  }

  /** A source's neighbour list is ascending and holds each destination as often as the pair occurs. */
  lemma {:induction false} NeighborsMeaning(edges: seq<Pair>, s: u32)
    ensures var out := NeighborsOf(edges, s);
            && (forall i, j :: 0 <= i < j < |out| ==> out[i] <= out[j])
            && (forall d: u32 :: multiset(out)[d] == multiset(edges)[Pair(s, d)])
  {
    var t := SortBy(ByPair, edges);
    assert TotalPreorder(ByPair);
    SortBySorted(ByPair, edges);
    SortByMultiset(ByPair, edges);
    hide SortBy;
    SourceIsStretch(t, s);
    var mine := Filter(SrcIs(s), t);
    forall i, j | 0 <= i < j < |mine|
      ensures mine[i].dst <= mine[j].dst
    {
      var at := CountBelow(t, s);
      assert ByPair(t[at + i], t[at + j]);
      InFilter(SrcIs(s), t, mine[i]);
      InFilter(SrcIs(s), t, mine[j]);
    }
    forall d: u32
      ensures multiset(DstsOf(mine))[d] == multiset(t)[Pair(s, d)]
    {
      CountDst(t, s, d);
    }
  }

  lemma {:induction false} CountDst(t: seq<Pair>, s: u32, d: u32)
    ensures multiset(DstsOf(Filter(SrcIs(s), t)))[d] == multiset(t)[Pair(s, d)]
  {
    if t == [] {
      assert DstsOf([]) == [];
    } else {
      var n := |t| - 1;
      CountDst(t[..n], s, d);
      assert t == t[..n] + [t[n]];
      FilterPush(SrcIs(s), t[..n], t[n]);
      var mine := Filter(SrcIs(s), t[..n]);
      assert DstsOf(mine + [t[n]]) == DstsOf(mine) + [t[n].dst];
    }
  }

  // -------------------------------------------------------------------- transposes

  function Swapped(edges: seq<Pair>): seq<Pair> {
    seq(|edges|, i requires 0 <= i < |edges| => Pair(edges[i].dst, edges[i].src))
  }

  lemma {:induction false} SwappedCounts(edges: seq<Pair>, s: u32, d: u32)
    ensures multiset(Swapped(edges))[Pair(d, s)] == multiset(edges)[Pair(s, d)]
  {
    if edges == [] {
      assert Swapped(edges) == [];
    } else {
      var n := |edges| - 1;
      SwappedCounts(edges[..n], s, d);
      assert edges == edges[..n] + [edges[n]];
      assert Swapped(edges) == Swapped(edges[..n]) + [Pair(edges[n].dst, edges[n].src)];
    }
  }

  /** OUT and IN structures are transposes of each other, with multiplicity. */
  lemma {:induction false} Transposes(edges: seq<Pair>, numSrc: nat, numDst: nat, outOffsets: seq<nat>, outNeighbors: seq<u32>,
                                      inOffsets: seq<nat>, inNeighbors: seq<u32>, s: u32, d: u32)
    requires IsCsr(edges, numSrc, outOffsets, outNeighbors) && IsCsr(Swapped(edges), numDst, inOffsets, inNeighbors)
    requires s < numSrc && d < numDst
    ensures outOffsets[s] <= outOffsets[s + 1] <= |outNeighbors| && inOffsets[d] <= inOffsets[d + 1] <= |inNeighbors|
    ensures multiset(outNeighbors[outOffsets[s]..outOffsets[s + 1]])[d] == multiset(inNeighbors[inOffsets[d]..inOffsets[d + 1]])[s]
  {
    RangeIsNeighbors(edges, numSrc, outOffsets, outNeighbors, s);
    RangeIsNeighbors(Swapped(edges), numDst, inOffsets, inNeighbors, d);
    NeighborsMeaning(edges, s);
    NeighborsMeaning(Swapped(edges), d);
    SwappedCounts(edges, s, d);
  }

  // ------------------------------------------------------------------------ writing

  /** Number of the first `m` pairs with source `k`. */
  function CountAt(edges: seq<Pair>, k: nat): nat {
    if edges == [] then 0
    else CountAt(edges[..|edges| - 1], k) + if edges[|edges| - 1].src == k then 1 else 0
  }

  lemma {:induction false} CountBelowStep(edges: seq<Pair>, k: nat)
    ensures CountBelow(edges, k + 1) == CountBelow(edges, k) + CountAt(edges, k)
  {
    if edges != [] {
      CountBelowStep(edges[..|edges| - 1], k);
    }
  }

  lemma {:induction false} CountBelowNone(edges: seq<Pair>)
    ensures CountBelow(edges, 0) == 0
  {
    if edges != [] {
      CountBelowNone(edges[..|edges| - 1]);
    }
  }

  /** Counts per source one slot up, then adds the counts up in place; pairs of other sources are not counted. */
  method WriteCsr(numSrc: nat, edges: seq<Pair>) returns (offsets: array<nat>, neighbors: seq<u32>)
    ensures fresh(offsets) && IsCsr(edges, numSrc, offsets[..], neighbors)
  {
    hide SortBy, CountBelow, CountAt;
    var t := SortBy(ByPair, edges);
    offsets := new nat[numSrc + 1](_ => 0);
    NothingCounted();
    for i := 0 to |t|
      invariant offsets[0] == 0
      invariant forall k :: 1 <= k <= numSrc ==> offsets[k] == CountAt(t[..i], k - 1)
    {
      CountOne(t, i);
      var idx := t[i].src;
      if idx < numSrc {
        offsets[idx + 1] := offsets[idx + 1] + 1;
      }
    }
    assert t[..|t|] == t;
    CountBelowNone(t);
    for idx := 1 to offsets.Length
      invariant forall k :: 0 <= k < idx ==> offsets[k] == CountBelow(t, k)
      invariant forall k :: idx <= k <= numSrc ==> offsets[k] == CountAt(t, k - 1)
    {
      CountBelowStep(t, idx - 1);
      offsets[idx] := offsets[idx] + offsets[idx - 1];
    }
    neighbors := DstsOf(t);
    forall k | 0 <= k <= numSrc
      ensures offsets[k] == CountBelow(edges, k)
    {
      CountPermutes(edges, k);
    }
  }

  lemma {:induction false} NothingCounted()
    ensures forall k: nat :: CountAt([], k) == 0
  {
  }

  lemma {:induction false} CountOne(t: seq<Pair>, i: nat)
    requires i < |t|
    ensures forall k: nat :: CountAt(t[..i + 1], k) == CountAt(t[..i], k) + if t[i].src == k then 1 else 0
  {
    assert t[..i + 1][..i] == t[..i];
  }

  /** Both structures of one relation. */
  method BuildBidirectionalCsr(numSrc: nat, numDst: nat, pairs: seq<Pair>)
      returns (outOffsets: array<nat>, outNeighbors: seq<u32>, inOffsets: array<nat>, inNeighbors: seq<u32>)
    ensures IsCsr(pairs, numSrc, outOffsets[..], outNeighbors) && IsCsr(Swapped(pairs), numDst, inOffsets[..], inNeighbors)
  {
    hide IsCsr;
    var outEdges: seq<Pair>, inEdges: seq<Pair> := [], [];
    for i := 0 to |pairs|
      invariant outEdges == pairs[..i] && inEdges == Swapped(pairs[..i])
    {
      outEdges := outEdges + [pairs[i]];
      inEdges := inEdges + [Pair(pairs[i].dst, pairs[i].src)];
    }
    assert pairs[..|pairs|] == pairs;
    outOffsets, outNeighbors := WriteCsr(numSrc, outEdges);
    inOffsets, inNeighbors := WriteCsr(numDst, inEdges);
  }

  // ------------------------------------------------------------------------ reading

  /** The neighbours file: four little-endian bytes a destination. */
  function U32sBytes(v: seq<u32>): seq<byte> {
    if v == [] then [] else U32sBytes(v[..|v| - 1]) + LeBytes(v[|v| - 1], 4)
  }

  lemma {:induction false} U32At(v: seq<u32>, i: nat)
    requires i < |v|
    ensures |U32sBytes(v)| == 4 * |v|
    ensures LeValue(U32sBytes(v)[4 * i..4 * i + 4]) == v[i]
  {
    hide LeValue, LeBytes;
    var n := |v| - 1;
    U32Length(v[..n]);
    if i < n {
      U32At(v[..n], i);
      assert U32sBytes(v)[4 * i..4 * i + 4] == U32sBytes(v[..n])[4 * i..4 * i + 4];
    } else {
      Widths();
      LeRoundTrip(v[n], 4);
      assert U32sBytes(v)[4 * i..4 * i + 4] == LeBytes(v[n], 4);
    }
  }

  lemma {:induction false} U32Length(v: seq<u32>)
    ensures |U32sBytes(v)| == 4 * |v|
  {
    if v != [] {
      U32Length(v[..|v| - 1]);
    }
  }

  function ReadU32(b: seq<byte>, at: nat): u32
    requires at + 4 <= |b|
  {
    Widths();
    LeValueBound(b[at..at + 4]);
    LeValue(b[at..at + 4])
  }

  datatype IoConfig = IoConfig(smallDegreeThreshold: nat, neighborBlockBytes: nat)

  function ChooseChunkItems(degree: nat, config: IoConfig): (n: nat)
    ensures n > 0
  {
    if degree <= config.smallDegreeThreshold then if degree > 1 then degree else 1
    else if config.neighborBlockBytes / 4 > 1 then config.neighborBlockBytes / 4 else 1
  }

  function Range(offsets: seq<nat>, src: u32): Option<(nat, nat)> {
    if src + 1 < |offsets| then Some((offsets[src], offsets[src + 1])) else None
  }

  class ReadContext {
    var scratch: seq<u32>
    var readChunks: nat
    var readItems: nat
    const config: IoConfig

    constructor (config: IoConfig)
      ensures this.config == config && readChunks == 0 && readItems == 0
    {
      this.config := config;
      scratch, readChunks, readItems := [], 0, 0;
    }
  }

  /** No chunk is empty or longer than `size`, and only the last may be shorter. */
  predicate InBlocks(chunks: seq<seq<u32>>, size: nat) {
    forall i :: 0 <= i < |chunks| ==> 0 < |chunks[i]| <= size && (i < |chunks| - 1 ==> |chunks[i]| == size)
  }

  lemma {:induction false} NoBlocks(size: nat)
    ensures InBlocks([], size) && Flatten<u32>([]) == []
  {
  }

  /** The chunks so far hold `done` of `degree` items, in chunks of `size`. */
  ghost predicate Chunked(chunks: seq<seq<u32>>, size: nat, done: nat, degree: nat) {
    && [] !in chunks && InBlocks(chunks, size)
    && (chunks != [] ==> done == degree || (|chunks[|chunks| - 1]| == size && size <= done))
    && (|chunks| <= 1 || size < degree)
  }

  lemma {:induction false} NextChunk(chunks: seq<seq<u32>>, size: nat, done: nat, degree: nat, chunk: seq<u32>)
    requires Chunked(chunks, size, done, degree) && done < degree && size > 0
    requires |chunk| == if size < degree - done then size else degree - done
    ensures Chunked(chunks + [chunk], size, done + |chunk|, degree)
  {
  }

  /** Decodes `n` destinations from the file into the scratch buffer. */
  method ReadChunk(ghost neighbors: seq<u32>, file: seq<byte>, pos: nat, n: nat, ctx: ReadContext)
    requires pos + n <= |neighbors| && file == U32sBytes(neighbors) && |file| == 4 * |neighbors|
    modifies ctx`scratch
    ensures ctx.scratch == neighbors[pos..pos + n]
  {
    hide U32sBytes, ReadU32;
    ctx.scratch := [];
    var bytes := file[pos * 4..pos * 4 + n * 4];
    for i := 0 to n
      invariant ctx.scratch == neighbors[pos..pos + i]
    {
      ReadsBack(neighbors, pos, n, i);
      ctx.scratch := ctx.scratch + [ReadU32(bytes, 4 * i)];
    }
  }

  /**
   * Hands out the neighbours of a source chunk by chunk. Whatever the configuration, the chunks put together are
   * exactly the destinations of the source; a source past the offsets has none.
   */
  method ScanChunks(ghost edges: seq<Pair>, ghost numSrc: nat, offsets: seq<nat>, file: seq<byte>, src: u32, ctx: ReadContext)
      returns (chunks: seq<seq<u32>>)
    requires IsCsr(edges, numSrc, offsets, DstsOf(SortBy(ByPair, edges)))
    requires file == U32sBytes(DstsOf(SortBy(ByPair, edges)))
    modifies ctx
    ensures Flatten(chunks) == if src < numSrc then NeighborsOf(edges, src) else []
    ensures ctx.readChunks == old(ctx.readChunks) + |chunks|
    ensures ctx.readItems == old(ctx.readItems) + |Flatten(chunks)|
    ensures [] !in chunks && (|Flatten(chunks)| <= ctx.config.smallDegreeThreshold ==> |chunks| <= 1)
    ensures |Flatten(chunks)| > ctx.config.smallDegreeThreshold ==>
              InBlocks(chunks, if ctx.config.neighborBlockBytes < 4 then 1 else ctx.config.neighborBlockBytes / 4)
  {
    hide InBlocks, Chunked, Flatten, IsCsr, NeighborsOf, U32sBytes, SortBy, DstsOf, ChooseChunkItems;
    chunks := [];
    NoBlocks(1);
    ghost var neighbors := DstsOf(SortBy(ByPair, edges));
    OffsetsCount(edges, numSrc, offsets, neighbors);
    var r := Range(offsets, src);
    if r.None? {
      return;
    }
    var (start, end) := r.value;
    RangeIsNeighborsOf(edges, numSrc, offsets, src);
    if start == end {
      return;
    }
    var degree := end - start;
    var chunkItems := ChooseChunkItems(degree, ctx.config);
    var pos := start;
    U32Length(neighbors);
    NothingChunked(chunkItems, degree);
    while pos < end
      invariant start <= pos <= end && Chunked(chunks, chunkItems, pos - start, degree)
      invariant Flatten(chunks) == neighbors[start..pos]
      invariant ctx.readChunks == old(ctx.readChunks) + |chunks| && ctx.readItems == old(ctx.readItems) + (pos - start)
    {
      var n := if chunkItems < end - pos then chunkItems else end - pos;
      ReadChunk(neighbors, file, pos, n, ctx);
      ctx.readChunks := ctx.readChunks + 1;
      ctx.readItems := ctx.readItems + n;
      FlattenAppend(chunks, [ctx.scratch]);
      FlattenOne(ctx.scratch);
      NextChunk(chunks, chunkItems, pos - start, degree, ctx.scratch);
      chunks := chunks + [ctx.scratch];
      pos := pos + n;
    }
    AllChunked(chunks, degree, ctx.config);
  }

  lemma {:induction false} NothingChunked(size: nat, degree: nat)
    ensures Chunked([], size, 0, degree)
  {
  }

  lemma {:induction false} AllChunked(chunks: seq<seq<u32>>, degree: nat, config: IoConfig)
    requires Chunked(chunks, ChooseChunkItems(degree, config), degree, degree) && degree > 0
    ensures [] !in chunks && (degree <= config.smallDegreeThreshold ==> |chunks| <= 1)
    ensures degree > config.smallDegreeThreshold ==>
              InBlocks(chunks, if config.neighborBlockBytes < 4 then 1 else config.neighborBlockBytes / 4)
  {
  }

  lemma {:induction false} OffsetsCount(edges: seq<Pair>, numSrc: nat, offsets: seq<nat>, neighbors: seq<u32>)
    requires IsCsr(edges, numSrc, offsets, neighbors)
    ensures |offsets| == numSrc + 1
  {
  }

  lemma {:induction false} RangeIsNeighborsOf(edges: seq<Pair>, numSrc: nat, offsets: seq<nat>, s: u32)
    requires IsCsr(edges, numSrc, offsets, DstsOf(SortBy(ByPair, edges))) && s < numSrc
    ensures |offsets| == numSrc + 1 && offsets[s] <= offsets[s + 1] <= |DstsOf(SortBy(ByPair, edges))|
    ensures DstsOf(SortBy(ByPair, edges))[offsets[s]..offsets[s + 1]] == NeighborsOf(edges, s)
  {
    RangeIsNeighbors(edges, numSrc, offsets, DstsOf(SortBy(ByPair, edges)), s);
  }

  lemma {:induction false} ReadsBack(neighbors: seq<u32>, pos: nat, n: nat, i: nat)
    requires i < n && pos + n <= |neighbors|
    ensures |U32sBytes(neighbors)| == 4 * |neighbors|
    ensures ReadU32(U32sBytes(neighbors)[pos * 4..pos * 4 + n * 4], 4 * i) == neighbors[pos + i]
  {
    hide LeValue, U32sBytes;
    U32At(neighbors, pos + i);
    SliceOfSlice(U32sBytes(neighbors), pos * 4, n * 4, 4 * i, 4);
  }

  /** `neighbors_vec`: the chunks put together. */
  method NeighborsVec(ghost edges: seq<Pair>, ghost numSrc: nat, offsets: seq<nat>, file: seq<byte>, src: u32, ctx: ReadContext)
      returns (out: seq<u32>)
    requires IsCsr(edges, numSrc, offsets, DstsOf(SortBy(ByPair, edges)))
    requires file == U32sBytes(DstsOf(SortBy(ByPair, edges)))
    modifies ctx
    ensures out == if src < numSrc then NeighborsOf(edges, src) else []
  {
    hide IsCsr, NeighborsOf, U32sBytes, SortBy, DstsOf;
    var chunks := ScanChunks(edges, numSrc, offsets, file, src, ctx);
    out := Flatten(chunks);
  }
}
