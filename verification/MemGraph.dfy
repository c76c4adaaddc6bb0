/** The in-memory table: short adjacency lists inline, long ones in ordered trees. */
module MemGraphs {
  import opened Types
  import opened Sorting
  import opened Segment
  import Lists

  datatype AdjRef = Inline(segmentId: nat) | Overflow

  /** No two records share source, type, destination and timestamp. */
  ghost predicate Distinct(s: seq<Edge>) {
    forall i, j :: 0 <= i < j < |s| ==> KeyOf(s[i]) != KeyOf(s[j]) || s[i].ts != s[j].ts
  }

  /** An ordered map from (type, destination, timestamp), as the ordered list of its values. */
  function TreeInsert(tree: seq<Edge>, e: Edge): seq<Edge> {
    if tree == [] then [e]
    else if KeyOf(tree[0]) == KeyOf(e) && tree[0].ts == e.ts then [e] + tree[1..]
    else if ByKeyTs(e, tree[0]) then [e] + tree
    else [tree[0]] + TreeInsert(tree[1..], e)
  }

  lemma {:induction false} TreeInsertFresh(tree: seq<Edge>, e: Edge)
    requires forall x :: x in tree ==> KeyOf(x) != KeyOf(e) || x.ts != e.ts
    ensures multiset(TreeInsert(tree, e)) == multiset(tree) + multiset{e}
  {
    if tree != [] {
      assert tree[0] in tree;
      assert tree == [tree[0]] + tree[1..];
      if !ByKeyTs(e, tree[0]) {
        TreeInsertFresh(tree[1..], e);
      }
    }
  }

  lemma {:induction false} DistinctByMultiset(a: seq<Edge>, b: seq<Edge>)
    requires Distinct(a) && multiset(a) == multiset(b)
    ensures Lists.Distinct(a) && Lists.Distinct(b)
  {
    Lists.DistinctPermutation(a, b);
  }

  type Vertices = map<u64, AdjRef>
  type Trees = map<u64, seq<Edge>>

  /** The records of one source sit in exactly one place. */
  ghost predicate RefHolds(vertices: Vertices, low: seq<seq<Edge>>, high: Trees, contents: seq<Edge>, src: u64)
    requires src in vertices
  {
    match vertices[src]
    case Inline(i) =>
      i < |low| && low[i] != [] && low[i] == Filter(HasSrc(src), contents)
    case Overflow =>
      src in high && multiset(high[src]) == multiset(Filter(HasSrc(src), contents))
  }

  ghost predicate SegmentsNamed(vertices: Vertices, low: seq<seq<Edge>>) {
    forall i :: 0 <= i < |low| && low[i] != [] ==>
      low[i][0].src in vertices && vertices[low[i][0].src] == Inline(i)
  }

  /** The layout holds exactly `contents`; segments are not shared and overflow sources keep none. */
  ghost predicate Holds(vertices: Vertices, low: seq<seq<Edge>>, high: Trees, contents: seq<Edge>) {
    && Distinct(contents)
    && (forall e :: e in contents ==> e.src in vertices)
    && (forall src :: src in vertices ==> RefHolds(vertices, low, high, contents, src))
    && SegmentsNamed(vertices, low)
    && (forall src :: src in high ==> src in vertices && vertices[src].Overflow?)
  }

  lemma {:induction false} FilterOfAbsent(s: seq<Edge>, src: u64)
    requires forall e :: e in s ==> e.src != src
    ensures Filter(HasSrc(src), s) == []
  {
    FilterNone(HasSrc(src), s);
  }

  lemma {:induction false} FilterKeepsDistinct(p: Edge -> bool, s: seq<Edge>)
    requires Distinct(s)
    ensures Distinct(Filter(p, s))
  {
    if s != [] {
      var n := |s| - 1;
      FilterKeepsDistinct(p, s[..n]);
      forall x | x in Filter(p, s[..n])
        ensures KeyOf(x) != KeyOf(s[n]) || x.ts != s[n].ts
      {
        InFilter(p, s[..n], x);
      }
    }
  }

  /** Two inline sources never share a segment. */
  lemma {:induction false} InlineSourceOf(vertices: Vertices, low: seq<seq<Edge>>, high: Trees, contents: seq<Edge>, src: u64)
    requires Holds(vertices, low, high, contents) && src in vertices && vertices[src].Inline?
    ensures vertices[src].segmentId < |low| && low[vertices[src].segmentId] != []
    ensures low[vertices[src].segmentId][0].src == src
    ensures forall s :: s in vertices && s != src ==> vertices[s] != vertices[src]
  {
    assert RefHolds(vertices, low, high, contents, src);
    var i := vertices[src].segmentId;
    InFilter(HasSrc(src), contents, low[i][0]);
    forall s | s in vertices && s != src
      ensures vertices[s] != vertices[src]
    {
      if vertices[s] == vertices[src] {
        assert RefHolds(vertices, low, high, contents, s);
        InFilter(HasSrc(s), contents, low[i][0]);
      }
    }
  }

  ghost predicate Fresh(contents: seq<Edge>, e: Edge) {
    forall x :: x in contents ==> KeyOf(x) != KeyOf(e) || x.ts != e.ts
  }

  /** After an insert every source other than the new record's is where it was. */
  lemma {:induction false} OthersUnmoved(v: Vertices, low: seq<seq<Edge>>, high: Trees, contents: seq<Edge>, e: Edge,
                      v': Vertices, low': seq<seq<Edge>>, high': Trees)
    requires Holds(v, low, high, contents) && Fresh(contents, e)
    requires v'.Keys == v.Keys + {e.src} && forall s :: s in v && s != e.src ==> v'[s] == v[s]
    requires |low'| >= |low|
    requires forall i :: 0 <= i < |low| && (e.src in v ==> v[e.src] != Inline(i)) ==> low'[i] == low[i]
    requires forall s :: s in high && s != e.src ==> s in high' && high'[s] == high[s]
    requires forall s :: s in high' ==> (s in high && s != e.src) || (s == e.src && v'[s].Overflow?)
    requires RefHolds(v', low', high', contents + [e], e.src)
    requires SegmentsNamed(v', low')
    ensures Holds(v', low', high', contents + [e])
  {
    assert Distinct(contents + [e]);
    hide Filter, Distinct, SegmentsNamed;
    forall s | s in v' && s != e.src
      ensures RefHolds(v', low', high', contents + [e], s)
    {
      FilterPush(HasSrc(s), contents, e);
      assert RefHolds(v, low, high, contents, s);
      if e.src in v && v[s].Inline? {
        InlineSourceOf(v, low, high, contents, s);
      }
    }
  }

  lemma {:induction false} NewSource(v: Vertices, low: seq<seq<Edge>>, high: Trees, contents: seq<Edge>, e: Edge)
    requires Holds(v, low, high, contents) && Fresh(contents, e) && e.src !in v
    ensures Holds(v[e.src := Inline(|low|)], low + [[e]], high, contents + [e])
  {
    var v', low' := v[e.src := Inline(|low|)], low + [[e]];
    FilterOfAbsent(contents, e.src);
    FilterPush(HasSrc(e.src), contents, e);
    hide Filter, Distinct, Fresh;
    assert [] + [e] == [e];
    assert RefHolds(v', low', high, contents + [e], e.src);
    hide RefHolds;
    NewSegmentNamed(v, low, e);
    hide SegmentsNamed;
    OthersUnmoved(v, low, high, contents, e, v', low', high);
  }

  lemma {:induction false} NewSegmentNamed(v: Vertices, low: seq<seq<Edge>>, e: Edge)
    requires SegmentsNamed(v, low) && e.src !in v
    ensures SegmentsNamed(v[e.src := Inline(|low|)], low + [[e]])
  {
  }

  lemma {:induction false} GrowInline(v: Vertices, low: seq<seq<Edge>>, high: Trees, contents: seq<Edge>, e: Edge, i: nat)
    requires Holds(v, low, high, contents) && Fresh(contents, e) && e.src in v && v[e.src] == Inline(i)
    ensures i < |low| && Holds(v, low[i := low[i] + [e]], high, contents + [e])
  {
    InlineSourceOf(v, low, high, contents, e.src);
    assert RefHolds(v, low, high, contents, e.src);
    FilterPush(HasSrc(e.src), contents, e);
    hide Filter, Distinct, Fresh;
    OthersUnmoved(v, low, high, contents, e, v, low[i := low[i] + [e]], high);
  }

  lemma {:induction false} Spill(v: Vertices, low: seq<seq<Edge>>, high: Trees, contents: seq<Edge>, e: Edge, i: nat, tree: seq<Edge>)
    requires Holds(v, low, high, contents) && Fresh(contents, e) && e.src in v && v[e.src] == Inline(i)
    requires i < |low| && multiset(tree) == multiset(low[i] + [e])
    ensures Holds(v[e.src := Overflow], low[i := []], high[e.src := tree], contents + [e])
  {
    InlineSourceOf(v, low, high, contents, e.src);
    assert RefHolds(v, low, high, contents, e.src);
    FilterPush(HasSrc(e.src), contents, e);
    hide Filter, Distinct, Fresh;
    var v', low', high' := v[e.src := Overflow], low[i := []], high[e.src := tree];
    assert RefHolds(v', low', high', contents + [e], e.src);
    hide RefHolds;
    assert SegmentsNamed(v', low') by { SegmentDropped(v, low, e.src, i); }
    hide SegmentsNamed;
    OthersUnmoved(v, low, high, contents, e, v', low', high');
  }

  lemma {:induction false} SegmentDropped(v: Vertices, low: seq<seq<Edge>>, src: u64, i: nat)
    requires SegmentsNamed(v, low) && i < |low| && src in v && v[src] == Inline(i)
    ensures SegmentsNamed(v[src := Overflow], low[i := []])
  {
  }

  lemma {:induction false} GrowTree(v: Vertices, low: seq<seq<Edge>>, high: Trees, contents: seq<Edge>, e: Edge)
    requires Holds(v, low, high, contents) && Fresh(contents, e) && e.src in v && v[e.src].Overflow?
    ensures e.src in high && Holds(v, low, high[e.src := TreeInsert(high[e.src], e)], contents + [e])
  {
    assert RefHolds(v, low, high, contents, e.src);
    var tree := high[e.src];
    forall x | x in tree
      ensures KeyOf(x) != KeyOf(e) || x.ts != e.ts
    {
      assert x in multiset(tree);
      assert x in multiset(Filter(HasSrc(e.src), contents));
      InFilter(HasSrc(e.src), contents, x);
    }
    TreeInsertFresh(tree, e);
    FilterPush(HasSrc(e.src), contents, e);
    hide Filter, Distinct, TreeInsert;
    OthersUnmoved(v, low, high, contents, e, v, low, high[e.src := TreeInsert(tree, e)]);
  }

  /** A source is inline as long as its records fit a segment of the given capacity; one always fits. */
  ghost predicate BySize(v: Vertices, contents: seq<Edge>, capacity: nat) {
    forall src :: src in v ==>
      (v[src].Inline? <==> |Filter(HasSrc(src), contents)| <= if capacity == 0 then 1 else capacity)
  }

  lemma {:induction false} StillBySize(v: Vertices, contents: seq<Edge>, capacity: nat, e: Edge, v': Vertices)
    requires BySize(v, contents, capacity)
    requires v'.Keys == v.Keys + {e.src} && forall s :: s in v && s != e.src ==> v'[s] == v[s]
    requires v'[e.src].Inline? <==> |Filter(HasSrc(e.src), contents + [e])| <= if capacity == 0 then 1 else capacity
    ensures BySize(v', contents + [e], capacity)
  {
    forall s | s in v'
      ensures v'[s].Inline? <==> |Filter(HasSrc(s), contents + [e])| <= if capacity == 0 then 1 else capacity
    {
      FilterPush(HasSrc(s), contents, e);
    }
  }

  /** Where everything is kept. */
  ghost predicate Layout(v: Vertices, low: seq<seq<Edge>>, high: Trees, contents: seq<Edge>, capacity: nat) {
    Holds(v, low, high, contents) && BySize(v, contents, capacity)
  }

  lemma {:induction false} NewSourceLayout(v: Vertices, low: seq<seq<Edge>>, high: Trees, contents: seq<Edge>, capacity: nat, e: Edge)
    requires Layout(v, low, high, contents, capacity) && Fresh(contents, e) && e.src !in v
    ensures Layout(v[e.src := Inline(|low|)], low + [[e]], high, contents + [e], capacity)
  {
    NewSource(v, low, high, contents, e);
    FilterOfAbsent(contents, e.src);
    FilterPush(HasSrc(e.src), contents, e);
    hide Holds, BySize, Filter;
    StillBySize(v, contents, capacity, e, v[e.src := Inline(|low|)]);
  }

  lemma {:induction false} InlineLayout(v: Vertices, low: seq<seq<Edge>>, high: Trees, contents: seq<Edge>, capacity: nat, e: Edge, i: nat)
    requires Layout(v, low, high, contents, capacity) && Fresh(contents, e) && e.src in v && v[e.src] == Inline(i)
    ensures i < |low| && Distinct(low[i] + [e]) && low[i] + [e] == Filter(HasSrc(e.src), contents + [e])
    ensures |low[i]| < capacity ==> Layout(v, low[i := low[i] + [e]], high, contents + [e], capacity)
  {
    GrowInline(v, low, high, contents, e, i);
    assert RefHolds(v, low, high, contents, e.src);
    FilterPush(HasSrc(e.src), contents, e);
    FilterKeepsDistinct(HasSrc(e.src), contents + [e]);
    hide Holds, BySize, Filter, Distinct;
    if |low[i]| < capacity {
      StillBySize(v, contents, capacity, e, v);
    }
  }

  lemma {:induction false} SpillLayout(v: Vertices, low: seq<seq<Edge>>, high: Trees, contents: seq<Edge>, capacity: nat, e: Edge,
                                       i: nat, tree: seq<Edge>)
    requires Layout(v, low, high, contents, capacity) && Fresh(contents, e) && e.src in v && v[e.src] == Inline(i)
    requires i < |low| && |low[i]| >= capacity && multiset(tree) == multiset(low[i] + [e])
    ensures Layout(v[e.src := Overflow], low[i := []], high[e.src := tree], contents + [e], capacity)
  {
    Spill(v, low, high, contents, e, i, tree);
    assert RefHolds(v, low, high, contents, e.src);
    InlineLayout(v, low, high, contents, capacity, e, i);
    hide Holds, BySize, Filter, Distinct;
    StillBySize(v, contents, capacity, e, v[e.src := Overflow]);
  }

  lemma {:induction false} TreeLayout(v: Vertices, low: seq<seq<Edge>>, high: Trees, contents: seq<Edge>, capacity: nat, e: Edge)
    requires Layout(v, low, high, contents, capacity) && Fresh(contents, e) && e.src in v && v[e.src].Overflow?
    ensures e.src in high && Layout(v, low, high[e.src := TreeInsert(high[e.src], e)], contents + [e], capacity)
  {
    GrowTree(v, low, high, contents, e);
    FilterPush(HasSrc(e.src), contents, e);
    assert |Filter(HasSrc(e.src), contents)| > if capacity == 0 then 1 else capacity;
    hide Holds, BySize, Filter, TreeInsert;
    StillBySize(v, contents, capacity, e, v);
  }

  /** Inserts a list into an empty tree, one record at a time. */
  method TreeOf(edges: seq<Edge>) returns (tree: seq<Edge>)
    requires Distinct(edges)
    ensures multiset(tree) == multiset(edges)
  {
    tree := [];
    for i := 0 to |edges|
      invariant multiset(tree) == multiset(edges[..i])
    {
      forall x | x in tree
        ensures KeyOf(x) != KeyOf(edges[i]) || x.ts != edges[i].ts
      {
        assert x in multiset(tree);
        assert x in edges[..i];
      }
      TreeInsertFresh(tree, edges[i]);
      assert edges[..i + 1] == edges[..i] + [edges[i]];
      tree := TreeInsert(tree, edges[i]);
    }
    assert edges[..|edges|] == edges;
  }

  lemma {:induction false} DistinctNeverTie(b: seq<Edge>, x: Edge, y: Edge)
    requires Distinct(b) && x in b && y in b && ByKeyTs(x, y) && ByKeyTs(y, x)
    ensures x == y
  {
    var i :| 0 <= i < |b| && b[i] == x;
    var j :| 0 <= j < |b| && b[j] == y;
    assert i == j;
  }

  /** Ascending by source, then type, then destination, then timestamp. */
  ghost predicate InFileOrder(s: seq<Edge>) {
    forall i, j :: 0 <= i < j < |s| ==>
      s[i].src < s[j].src || (s[i].src == s[j].src &&
      (s[i].edgeType < s[j].edgeType || (s[i].edgeType == s[j].edgeType &&
      (s[i].dst < s[j].dst || (s[i].dst == s[j].dst && s[i].ts <= s[j].ts)))))
  }

  lemma {:induction false} SortedIsFileOrder(s: seq<Edge>)
    ensures InFileOrder(SortBy(ByKeyTs, s)) && multiset(SortBy(ByKeyTs, s)) == multiset(s)
  {
    assert TotalPreorder(ByKeyTs);
    SortBySorted(ByKeyTs, s);
    SortByMultiset(ByKeyTs, s);
    hide SortBy;
    var sorted := SortBy(ByKeyTs, s);
    forall i, j | 0 <= i < j < |sorted|
      ensures ByKeyTs(sorted[i], sorted[j])
    {
    }
  }

  /** Distinct records have one sorted arrangement. */
  lemma {:induction false} SortIsCanonical(a: seq<Edge>, b: seq<Edge>)
    requires multiset(a) == multiset(b) && Distinct(b)
    ensures SortBy(ByKeyTs, a) == SortBy(ByKeyTs, b)
  {
    assert TotalPreorder(ByKeyTs);
    hide SortBy, TotalPreorder, SortedBy, Distinct, ByKeyTs;
    SortBySorted(ByKeyTs, a);
    SortBySorted(ByKeyTs, b);
    SortByMultiset(ByKeyTs, a);
    SortByMultiset(ByKeyTs, b);
    var sa := SortBy(ByKeyTs, a);
    forall x, y | x in sa && y in sa && ByKeyTs(x, y) && ByKeyTs(y, x)
      ensures x == y
    {
      assert x in multiset(sa) && y in multiset(sa);
      assert x in multiset(b) && y in multiset(b);
      DistinctNeverTie(b, x, y);
    }
    SortedUnique(ByKeyTs, sa, SortBy(ByKeyTs, b));
  }

  /** The elements collected once the first `i` segments have been visited. */
  ghost predicate CollectedLow(edges: seq<Edge>, v: Vertices, contents: seq<Edge>, i: nat)
    requires forall e :: e in contents ==> e.src in v
  {
    && Lists.Distinct(edges)
    && forall e :: e in edges <==> e in contents && v[e.src].Inline? && v[e.src].segmentId < i
  }

  lemma {:induction false} CollectSegment(edges: seq<Edge>, v: Vertices, low: seq<seq<Edge>>, high: Trees, contents: seq<Edge>, i: nat)
    requires Holds(v, low, high, contents) && i < |low| && CollectedLow(edges, v, contents, i)
    ensures CollectedLow(edges + low[i], v, contents, i + 1)
  {
    if low[i] == [] {
      assert edges + low[i] == edges;
      forall e | e in contents
        ensures v[e.src] != Inline(i)
      {
        assert RefHolds(v, low, high, contents, e.src);
      }
    } else {
      var src := low[i][0].src;
      InlineSourceOf(v, low, high, contents, src);
      assert RefHolds(v, low, high, contents, src);
      FilterKeepsDistinct(HasSrc(src), contents);
      forall e
        ensures e in low[i] <==> e in contents && e.src == src
      {
        InFilter(HasSrc(src), contents, e);
      }
      Lists.DistinctAppend(edges, low[i]);
    }
  }

  /** The elements collected when the trees of `pending` are still to be visited. */
  ghost predicate CollectedHigh(edges: seq<Edge>, v: Vertices, contents: seq<Edge>, pending: set<u64>)
    requires forall e :: e in contents ==> e.src in v
  {
    && Lists.Distinct(edges)
    && forall e :: e in edges <==> e in contents && (v[e.src].Inline? || e.src !in pending)
  }

  lemma {:induction false} CollectTree(edges: seq<Edge>, v: Vertices, low: seq<seq<Edge>>, high: Trees, contents: seq<Edge>,
                    pending: set<u64>, src: u64)
    requires Holds(v, low, high, contents) && src in pending && pending <= high.Keys
    requires CollectedHigh(edges, v, contents, pending)
    ensures CollectedHigh(edges + high[src], v, contents, pending - {src})
  {
    assert RefHolds(v, low, high, contents, src);
    FilterKeepsDistinct(HasSrc(src), contents);
    DistinctByMultiset(Filter(HasSrc(src), contents), high[src]);
    forall e
      ensures e in high[src] <==> e in contents && e.src == src
    {
      assert e in multiset(high[src]) <==> e in multiset(Filter(HasSrc(src), contents));
      InFilter(HasSrc(src), contents, e);
    }
    Lists.DistinctAppend(edges, high[src]);
  }

  class MemGraph {
    const id: nat
    const inlineSegmentCapacity: nat
    const capacityBytes: nat

    var vertexMap: Vertices
    var lowDegreeSegments: seq<seq<Edge>>
    var highDegree: Trees
    var bytes: nat
    var edgeCount: nat

    /** Every record inserted so far, oldest first. */
    ghost var contents: seq<Edge>

    ghost predicate Valid()
      reads this
    {
      && Layout(vertexMap, lowDegreeSegments, highDegree, contents, inlineSegmentCapacity)
      && bytes == EDGE_RECORD_SIZE * |contents| && edgeCount == |contents|
    }

    constructor (id: nat, capacityBytes: nat, inlineSegmentCapacity: nat)
      ensures Valid() && contents == []
      ensures this.id == id && this.capacityBytes == capacityBytes && this.inlineSegmentCapacity == inlineSegmentCapacity
    {
      this.id := id;
      this.capacityBytes := capacityBytes;
      this.inlineSegmentCapacity := inlineSegmentCapacity;
      vertexMap := map[];
      lowDegreeSegments := [];
      highDegree := map[];
      bytes := 0;
      edgeCount := 0;
      contents := [];
    }

    method Insert(edge: Edge)
      requires Valid() && Fresh(contents, edge)
      modifies this
      ensures Valid() && contents == old(contents) + [edge]
    {
      hide Layout, Fresh, Distinct, TreeInsert;
      bytes := bytes + EDGE_RECORD_SIZE;
      edgeCount := edgeCount + 1;
      if edge.src !in vertexMap {
        NewSourceLayout(vertexMap, lowDegreeSegments, highDegree, contents, inlineSegmentCapacity, edge);
        var segmentId := |lowDegreeSegments|;
        lowDegreeSegments := lowDegreeSegments + [[edge]];
        vertexMap := vertexMap[edge.src := Inline(segmentId)];
      } else if vertexMap[edge.src].Inline? {
        var segmentId := vertexMap[edge.src].segmentId;
        InlineLayout(vertexMap, lowDegreeSegments, highDegree, contents, inlineSegmentCapacity, edge, segmentId);
        if |lowDegreeSegments[segmentId]| < inlineSegmentCapacity {
          lowDegreeSegments := lowDegreeSegments[segmentId := lowDegreeSegments[segmentId] + [edge]];
        } else {
          var existing := lowDegreeSegments[segmentId];
          var tree := TreeOf(existing + [edge]);
          SpillLayout(vertexMap, lowDegreeSegments, highDegree, contents, inlineSegmentCapacity, edge, segmentId, tree);
          lowDegreeSegments := lowDegreeSegments[segmentId := []];
          highDegree := highDegree[edge.src := tree];
          vertexMap := vertexMap[edge.src := Overflow];
        }
      } else {
        TreeLayout(vertexMap, lowDegreeSegments, highDegree, contents, inlineSegmentCapacity, edge);
        highDegree := highDegree[edge.src := TreeInsert(highDegree[edge.src], edge)];
      }
      contents := contents + [edge];
    }

    predicate IsFull()
      reads this
    {
      bytes >= capacityBytes
    }

    predicate IsEmpty()
      reads this
    {
      edgeCount == 0
    }

    method GetEdgesForSrc(src: u64) returns (out: seq<Edge>)
      requires Valid()
      ensures multiset(out) == multiset(Filter(HasSrc(src), contents))
    {
      if src !in vertexMap {
        out := [];
        FilterOfAbsent(contents, src);
      } else {
        assert RefHolds(vertexMap, lowDegreeSegments, highDegree, contents, src);
        match vertexMap[src]
        case Inline(segmentId) => out := lowDegreeSegments[segmentId];
        case Overflow => out := highDegree[src];
      }
    }

    /** The trees are visited in no particular order; the sort makes the result unique. */
    method AllEdgesSorted() returns (edges: seq<Edge>)
      requires Valid()
      ensures edges == SortBy(ByKeyTs, contents)
      ensures InFileOrder(edges) && multiset(edges) == multiset(contents)
    {
      edges := [];
      for i := 0 to |lowDegreeSegments|
        invariant CollectedLow(edges, vertexMap, contents, i)
      {
        CollectSegment(edges, vertexMap, lowDegreeSegments, highDegree, contents, i);
        edges := edges + lowDegreeSegments[i];
      }
      var pending := highDegree.Keys;
      assert CollectedHigh(edges, vertexMap, contents, pending) by {
        forall e | e in contents
          ensures if vertexMap[e.src].Inline? then vertexMap[e.src].segmentId < |lowDegreeSegments| else e.src in highDegree
        {
          assert RefHolds(vertexMap, lowDegreeSegments, highDegree, contents, e.src);
        }
      }
      while pending != {}
        invariant pending <= highDegree.Keys
        invariant CollectedHigh(edges, vertexMap, contents, pending)
      {
        var src :| src in pending;
        CollectTree(edges, vertexMap, lowDegreeSegments, highDegree, contents, pending, src);
        edges := edges + highDegree[src];
        pending := pending - {src};
      }
      Lists.SameOnce(edges, contents);
      SortIsCanonical(edges, contents);
      edges := SortBy(ByKeyTs, edges);
      SortedIsFileOrder(contents);
    }
  }
}
