/** Query IC14: the parent DAG of all shortest knows paths, and their enumeration. */
module ShortestPaths {
  import opened Types
  import opened Lists
  import opened Segment
  import opened KnowsGraph

  /** Adjacency lists are built without duplicates. */
  ghost predicate DistinctLists(g: Graph) {
    forall v: u64 :: Distinct(Neighbors(g, v))
  }

  // ------------------------------------------------------------ shortest walks

  ghost predicate IsWalk(g: Graph, path: seq<u64>) {
    forall k :: 0 <= k < |path| - 1 ==> path[k + 1] in Neighbors(g, path[k])
  }

  ghost predicate WalkFromTo(g: Graph, s: u64, v: u64, path: seq<u64>, n: nat) {
    |path| == n + 1 && path[0] == s && path[n] == v && IsWalk(g, path)
  }

  /** A path no walk is shorter than. */
  ghost predicate ShortestPath(g: Graph, s: u64, v: u64, path: seq<u64>) {
    |path| > 0 && WalkFromTo(g, s, v, path, |path| - 1) && Dist(g, s, v, |path| - 1)
  }

  lemma {:induction false} WalkReaches(g: Graph, s: u64, v: u64, path: seq<u64>, n: nat)
    requires WalkFromTo(g, s, v, path, n)
    ensures Reach(g, s, v, n)
    decreases n
  {
    if n > 0 {
      WalkReaches(g, s, path[n - 1], path[..n], n - 1);
      StepReach(g, s, path[n - 1], v, n - 1);
    }
  }

  // ------------------------------------------------------------------ the DAG

  datatype Dag = Dag(vids: seq<u64>, depths: seq<nat>, parents: seq<seq<nat>>, index: map<u64, nat>)

  ghost predicate DagEdge(g: Graph, d: Dag, j: nat, i: nat)
    requires j < |d.vids| && i < |d.vids| && |d.depths| == |d.vids|
  {
    d.depths[i] == d.depths[j] + 1 && d.vids[i] in Neighbors(g, d.vids[j])
  }

  ghost predicate Shape(d: Dag, start: u64) {
    && |d.vids| == |d.depths| == |d.parents| && |d.vids| > 0 && d.vids[0] == start
    && (forall i :: 0 <= i < |d.vids| ==> d.vids[i] in d.index && d.index[d.vids[i]] == i)
    && (forall v :: v in d.index ==> d.index[v] < |d.vids| && d.vids[d.index[v]] == v)
  }

  ghost predicate ExactDepths(g: Graph, d: Dag, start: u64)
    requires |d.depths| == |d.vids|
  {
    forall i :: 0 <= i < |d.vids| ==> Dist(g, start, d.vids[i], d.depths[i])
  }

  /** Vertices below `p`, and the first `k` neighbours of vertex `p`, have been followed. */
  ghost predicate Followed(g: Graph, d: Dag, p: nat, k: nat) {
    && p <= |d.vids|
    && (forall j, w :: 0 <= j < p && w in Neighbors(g, d.vids[j]) ==> w in d.index)
    && (k > 0 ==> p < |d.vids| && k <= |Neighbors(g, d.vids[p])| && forall w :: w in Neighbors(g, d.vids[p])[..k] ==> w in d.index)
  }

  ghost predicate IsParent(g: Graph, d: Dag, p: nat, k: nat, j: nat, i: nat)
    requires i < |d.vids| && |d.depths| == |d.vids|
  {
    || (j < p && j < |d.vids| && DagEdge(g, d, j, i))
    || (j == p && p < |d.vids| && d.depths[i] == d.depths[p] + 1 && k <= |Neighbors(g, d.vids[p])| &&
        d.vids[i] in Neighbors(g, d.vids[p])[..k])
  }

  ghost predicate ParentsOf(g: Graph, d: Dag, p: nat, k: nat, i: nat)
    requires i < |d.depths| == |d.vids| == |d.parents|
  {
    Distinct(d.parents[i]) && forall j: nat :: j in d.parents[i] <==> IsParent(g, d, p, k, j, i)
  }

  /** Parent lists name exactly the edges followed so far, once each. */
  ghost predicate ParentsExact(g: Graph, d: Dag, p: nat, k: nat)
    requires |d.depths| == |d.vids| == |d.parents|
  {
    forall i :: 0 <= i < |d.vids| ==> ParentsOf(g, d, p, k, i)
  }

  /** The level being followed is `lo..hi` at depth `depth`; later vertices are one deeper, earlier ones closer. */
  ghost predicate Levels(d: Dag, hi: nat, depth: nat, lo: nat)
    requires |d.depths| == |d.vids|
  {
    && lo <= hi <= |d.vids|
    && (forall i :: 0 <= i < lo ==> d.depths[i] < depth)
    && (forall i :: lo <= i < hi ==> d.depths[i] == depth)
    && (forall i :: hi <= i < |d.vids| ==> d.depths[i] == depth + 1)
  }

  ghost predicate Building(g: Graph, start: u64, d: Dag, p: nat, k: nat, lo: nat, hi: nat, depth: nat) {
    && Shape(d, start) && ExactDepths(g, d, start)
    && Followed(g, d, p, k) && ParentsExact(g, d, p, k)
    && Levels(d, hi, depth, lo) && lo <= p <= hi
    && d.index.Keys <= Vertices(g) + {start}
  }

  /** Everything within the current depth is already a vertex of the DAG. */
  lemma {:induction false} KnownWithin(g: Graph, start: u64, d: Dag, p: nat, k: nat, lo: nat, hi: nat, depth: nat, v: u64, n: nat)
    requires Building(g, start, d, p, k, lo, hi, depth) && Reach(g, start, v, n) && n <= depth
    ensures v in d.index
    decreases n
  {
    if n > 0 {
      var u := PredecessorOf(g, start, v, n - 1);
      KnownWithin(g, start, d, p, k, lo, hi, depth, u, n - 1);
      var i := d.index[u];
      assert Dist(g, start, d.vids[i], d.depths[i]);
      assert d.depths[i] < depth;
      assert i < lo;
    }
  }

  lemma {:induction false} NewVertexDist(g: Graph, start: u64, d: Dag, p: nat, k: nat, lo: nat, hi: nat, depth: nat)
    requires Building(g, start, d, p, k, lo, hi, depth) && p < hi && k < |Neighbors(g, d.vids[p])|
    requires Neighbors(g, d.vids[p])[k] !in d.index
    ensures Dist(g, start, Neighbors(g, d.vids[p])[k], depth + 1)
  {
    var w := Neighbors(g, d.vids[p])[k];
    forall n: nat | n <= depth
      ensures !Reach(g, start, w, n)
    {
      if Reach(g, start, w, n) {
        KnownWithin(g, start, d, p, k, lo, hi, depth, w, n);
        assert false;
      }
    }
    NewDist(g, start, d.vids[p], w, depth);
  }

  function AddVertex(d: Dag, v: u64, depth: nat, parent: nat): Dag {
    Dag(d.vids + [v], d.depths + [depth], d.parents + [[parent]], d.index[v := |d.vids|])
  }

  function AddParent(d: Dag, i: nat, parent: nat): Dag
    requires i < |d.parents|
  {
    d.(parents := d.parents[i := d.parents[i] + [parent]])
  }

  lemma {:induction false} PrefixPush<T>(s: seq<T>, k: nat, x: T)
    requires k < |s|
    ensures x in s[..k + 1] <==> x in s[..k] || x == s[k]
    ensures Distinct(s) ==> s[k] !in s[..k]
  {
    assert s[..k + 1] == s[..k] + [s[k]];
  }

  lemma {:induction false} NewShape(d: Dag, start: u64, v: u64, parent: nat, lo: nat, hi: nat, depth: nat)
    requires Shape(d, start) && Levels(d, hi, depth, lo) && v !in d.index
    ensures Shape(AddVertex(d, v, depth + 1, parent), start) && Levels(AddVertex(d, v, depth + 1, parent), hi, depth, lo)
  {
  }

  lemma {:induction false} NewDepth(g: Graph, d: Dag, start: u64, v: u64, parent: nat, depth: nat)
    requires |d.depths| == |d.vids| && ExactDepths(g, d, start) && Dist(g, start, v, depth)
    ensures ExactDepths(g, AddVertex(d, v, depth, parent), start)
  {
    hide Dist;
  }

  lemma {:induction false} FollowNew(g: Graph, start: u64, d: Dag, p: nat, k: nat, lo: nat, hi: nat, depth: nat)
    requires Building(g, start, d, p, k, lo, hi, depth) && p < hi && k < |Neighbors(g, d.vids[p])|
    requires Neighbors(g, d.vids[p])[k] !in d.index
    ensures Building(g, start, AddVertex(d, Neighbors(g, d.vids[p])[k], depth + 1, p), p, k + 1, lo, hi, depth)
  {
    hide Followed, ParentsExact, ExactDepths, Neighbors, Vertices, Dist;
    var w := Neighbors(g, d.vids[p])[k];
    assert d.depths[p] == depth;
    hide Shape, Levels;
    NewVertexDist(g, start, d, p, k, lo, hi, depth);
    NeighborIsVertex(g, d.vids[p], w);
    NewShape(d, start, w, p, lo, hi, depth);
    NewDepth(g, d, start, w, p, depth + 1);
    NewFollowed(g, d, p, k, w, depth + 1);
    NewParents(g, start, d, p, k, w);
  }

  lemma {:induction false} NewFollowed(g: Graph, d: Dag, p: nat, k: nat, w: u64, depth: nat)
    requires Followed(g, d, p, k) && p < |d.vids| && k < |Neighbors(g, d.vids[p])| && w == Neighbors(g, d.vids[p])[k]
    ensures Followed(g, AddVertex(d, w, depth, p), p, k + 1)
  {
    var d' := AddVertex(d, w, depth, p);
    forall x | x in Neighbors(g, d'.vids[p])[..k + 1]
      ensures x in d'.index
    {
      PrefixPush(Neighbors(g, d.vids[p]), k, x);
    }
  }

  lemma {:induction false} NewParents(g: Graph, start: u64, d: Dag, p: nat, k: nat, w: u64)
    requires Shape(d, start) && Followed(g, d, p, k) && ParentsExact(g, d, p, k)
    requires p < |d.vids| && k < |Neighbors(g, d.vids[p])| && w == Neighbors(g, d.vids[p])[k] && w !in d.index
    ensures ParentsExact(g, AddVertex(d, w, d.depths[p] + 1, p), p, k + 1)
  {
    var d' := AddVertex(d, w, d.depths[p] + 1, p);
    var k' := k + 1;
    forall i | 0 <= i < |d'.vids|
      ensures ParentsOf(g, d', p, k', i)
    {
      assert i < |d.vids| ==> ParentsOf(g, d, p, k, i);
      forall j: nat
        ensures j in d'.parents[i] <==> IsParent(g, d', p, k + 1, j, i)
      {
        if i < |d.vids| {
          OldParent(g, d, d', p, k, j, i);
        } else {
          FreshParent(g, d, d', p, k, j, w);
        }
      }
    }
  }

  /** An old vertex is not the new one, so following one more neighbour gives it no parent. */
  lemma {:induction false} OldParent(g: Graph, d: Dag, d': Dag, p: nat, k: nat, j: nat, i: nat)
    requires |d.depths| == |d.vids| && i < |d.vids| && p < |d.vids| && k < |Neighbors(g, d.vids[p])|
    requires d.vids[i] in d.index && Neighbors(g, d.vids[p])[k] !in d.index
    requires d' == AddVertex(d, Neighbors(g, d.vids[p])[k], d.depths[p] + 1, p)
    ensures IsParent(g, d', p, k + 1, j, i) <==> IsParent(g, d, p, k, j, i)
  {
    PrefixPush(Neighbors(g, d.vids[p]), k, d.vids[i]);
  }

  lemma {:induction false} FreshParent(g: Graph, d: Dag, d': Dag, p: nat, k: nat, j: nat, w: u64)
    requires |d.depths| == |d.vids| && Followed(g, d, p, k) && p < |d.vids| && k < |Neighbors(g, d.vids[p])|
    requires w == Neighbors(g, d.vids[p])[k] && w !in d.index && d' == AddVertex(d, w, d.depths[p] + 1, p)
    ensures IsParent(g, d', p, k + 1, j, |d.vids|) <==> j == p
  {
    PrefixPush(Neighbors(g, d.vids[p]), k, w);
  }

  lemma {:induction false} FollowOld(g: Graph, start: u64, d: Dag, p: nat, k: nat, lo: nat, hi: nat, depth: nat)
    requires DistinctLists(g)
    requires Building(g, start, d, p, k, lo, hi, depth) && p < hi && k < |Neighbors(g, d.vids[p])|
    requires Neighbors(g, d.vids[p])[k] in d.index
    ensures var i := d.index[Neighbors(g, d.vids[p])[k]];
            var d' := if d.depths[i] == depth + 1 then AddParent(d, i, p) else d;
            Building(g, start, d', p, k + 1, lo, hi, depth)
  {
    var w := Neighbors(g, d.vids[p])[k];
    var i := d.index[w];
    var d' := if d.depths[i] == depth + 1 then AddParent(d, i, p) else d;
    assert d.depths[p] == depth;
    hide Dist, Reach, Vertices, Followed, ParentsExact, Neighbors, DistinctLists;
    OldFollowed(g, d, d', p, k);
    MoreParents(g, start, d, d', p, k);
  }

  lemma {:induction false} OldFollowed(g: Graph, d: Dag, d': Dag, p: nat, k: nat)
    requires Followed(g, d, p, k) && p < |d.vids| && k < |Neighbors(g, d.vids[p])| && Neighbors(g, d.vids[p])[k] in d.index
    requires d'.vids == d.vids && d'.index == d.index
    ensures Followed(g, d', p, k + 1)
  {
    forall x | x in Neighbors(g, d.vids[p])[..k + 1]
      ensures x in d.index
    {
      PrefixPush(Neighbors(g, d.vids[p]), k, x);
    }
  }

  lemma {:induction false} MoreParents(g: Graph, start: u64, d: Dag, d': Dag, p: nat, k: nat)
    requires DistinctLists(g) && Shape(d, start) && ParentsExact(g, d, p, k)
    requires p < |d.vids| && k < |Neighbors(g, d.vids[p])| && Neighbors(g, d.vids[p])[k] in d.index
    requires var i := d.index[Neighbors(g, d.vids[p])[k]];
             d' == if d.depths[i] == d.depths[p] + 1 then AddParent(d, i, p) else d
    ensures ParentsExact(g, d', p, k + 1)
  {
    var w := Neighbors(g, d.vids[p])[k];
    var k' := k + 1;
    forall i | 0 <= i < |d'.vids|
      ensures ParentsOf(g, d', p, k', i)
    {
      assert ParentsOf(g, d, p, k, i);
      PrefixPush(Neighbors(g, d.vids[p]), k, d.vids[i]);
      assert Distinct(Neighbors(g, d.vids[p]));
      assert d.vids[i] == w <==> i == d.index[w];
      assert p in d.parents[i] <==> IsParent(g, d, p, k, p, i);
    }
  }

  /** The last neighbour followed, the next vertex is up. */
  lemma {:induction false} NextVertex(g: Graph, start: u64, d: Dag, p: nat, lo: nat, hi: nat, depth: nat)
    requires p < |d.vids| && Building(g, start, d, p, |Neighbors(g, d.vids[p])|, lo, hi, depth) && p < hi
    ensures Building(g, start, d, p + 1, 0, lo, hi, depth)
  {
    var nbrs := Neighbors(g, d.vids[p]);
    hide Dist, Reach, Vertices;
    assert nbrs[..|nbrs|] == nbrs;
    var p' := p + 1;
    forall i | 0 <= i < |d.vids|
      ensures ParentsOf(g, d, p', 0, i)
    {
      assert ParentsOf(g, d, p, |nbrs|, i);
    }
  }

  /** The level followed, the next level is up. */
  lemma {:induction false} NextLevel(g: Graph, start: u64, d: Dag, lo: nat, hi: nat, depth: nat)
    requires Building(g, start, d, hi, 0, lo, hi, depth)
    ensures Building(g, start, d, hi, 0, hi, |d.vids|, depth + 1)
  {
    hide Dist, Reach, Vertices, ParentsExact;
  }

  function Range(lo: nat, hi: nat): seq<nat>
    requires lo <= hi
  {
    seq(hi - lo, i => lo + i)
  }

  lemma {:induction false} RangeSize(lo: nat, hi: nat)
    requires lo <= hi
    ensures |Range(lo, hi)| == hi - lo && (lo < hi ==> Range(lo, hi)[0] == lo)
    ensures hi == lo + 1 ==> Range(lo, hi) == [lo]
  {
  }

  /** The parents of a vertex are exactly the vertices with an edge to it one level up, once each. */
  ghost predicate AllParents(g: Graph, d: Dag, i: nat)
    requires i < |d.depths| == |d.vids| == |d.parents|
  {
    Distinct(d.parents[i]) && forall j: nat :: j in d.parents[i] <==> j < |d.vids| && DagEdge(g, d, j, i)
  }

  /** A DAG complete up to the depth of the goal. */
  ghost predicate Complete(g: Graph, start: u64, d: Dag, depth: nat) {
    && Shape(d, start) && ExactDepths(g, d, start)
    && (forall i :: 0 <= i < |d.vids| ==> AllParents(g, d, i))
    && (forall v, n: nat :: n < depth && Reach(g, start, v, n) ==> v in d.index)
  }

  /** The vertices not yet followed have the deepest depth, so none is a parent. */
  lemma {:induction false} FollowedAll(g: Graph, d: Dag, lo: nat, hi: nat, depth: nat, i: nat)
    requires i < |d.depths| == |d.vids| == |d.parents|
    requires ParentsOf(g, d, hi, 0, i) && Levels(d, hi, depth, lo)
    ensures AllParents(g, d, i)
  {
    forall j: nat
      ensures IsParent(g, d, hi, 0, j, i) <==> j < |d.vids| && DagEdge(g, d, j, i)
    {
    }
  }

  lemma {:induction false} BuiltIsComplete(g: Graph, start: u64, d: Dag, lo: nat, hi: nat, depth: nat)
    requires Building(g, start, d, hi, 0, lo, hi, depth)
    ensures Complete(g, start, d, depth + 1)
  {
    forall v, n: nat | n < depth + 1 && Reach(g, start, v, n)
      ensures v in d.index
    {
      KnownWithin(g, start, d, hi, 0, lo, hi, depth, v, n);
    }
    hide Dist, Reach, Vertices;
    forall i | 0 <= i < |d.vids|
      ensures AllParents(g, d, i)
    {
      FollowedAll(g, d, lo, hi, depth, i);
    }
  }

  /** With no vertex left to follow, everything reachable is in the DAG. */
  lemma {:induction false} NothingBeyond(g: Graph, start: u64, d: Dag, lo: nat, depth: nat, v: u64, n: nat)
    requires Building(g, start, d, |d.vids|, 0, lo, |d.vids|, depth) && Reach(g, start, v, n)
    ensures v in d.index
    decreases n
  {
    if n > 0 {
      var u := PredecessorOf(g, start, v, n - 1);
      NothingBeyond(g, start, d, lo, depth, u, n - 1);
    }
  }

  lemma {:induction false} StartDag(g: Graph, start: u64)
    ensures Building(g, start, Dag([start], [0], [[]], map[start := 0]), 0, 0, 0, 1, 0)
  {
    assert Reach(g, start, start, 0);
  }

  datatype ParentDag = ParentDag(vids: seq<u64>, parents: seq<seq<nat>>, goalIdx: nat, goalDepth: nat)

  /** What the search returns: the goal's place in a DAG complete up to it, or nothing if it cannot be reached. */
  ghost predicate DagFor(g: Graph, start: u64, goal: u64, r: Option<ParentDag>, depths: seq<nat>, index: map<u64, nat>) {
    match r
    case None => !Reachable(g, start, goal)
    case Some(p) =>
      && Complete(g, start, Dag(p.vids, depths, p.parents, index), p.goalDepth)
      && p.goalIdx < |p.vids| && p.vids[p.goalIdx] == goal && depths[p.goalIdx] == p.goalDepth
  }

  /** Where the goal stands, once found. */
  ghost predicate GoalFound(d: Dag, goal: u64, goalIdx: Option<nat>, goalDepth: nat)
    requires |d.depths| == |d.vids|
  {
    match goalIdx
    case None => goal !in d.index
    case Some(i) => i < |d.vids| && d.vids[i] == goal && d.depths[i] == goalDepth
  }

  lemma {:induction false} DepthOf(g: Graph, start: u64, d: Dag, lo: nat, hi: nat, depth: nat)
    requires Building(g, start, d, lo, 0, lo, hi, depth) && lo < hi
    ensures lo < |d.depths| && d.depths[lo] == depth
    ensures d.index.Keys <= Vertices(g) + {start}
  {
    hide Dist, Reach, Vertices, ParentsExact, Followed;
  }

  lemma {:induction false} Unreached(g: Graph, start: u64, goal: u64, d: Dag, lo: nat, depth: nat)
    requires Building(g, start, d, lo, 0, lo, |d.vids|, depth) && lo == |d.vids|
    ensures Reachable(g, start, goal) ==> goal in d.index
  {
    if Reachable(g, start, goal) {
      var n: nat :| Reach(g, start, goal, n);
      NothingBeyond(g, start, d, lo, depth, goal, n);
    }
  }

  /** Follows every neighbour of one level. */
  method FollowLevel(g: Graph, start: u64, goal: u64, dag: Dag, frontier: seq<nat>, nextDepth: nat,
                     ghost lo: nat, ghost hi: nat, ghost depth: nat)
      returns (d: Dag, next: seq<nat>, goalIdx: Option<nat>, goalDepth: nat)
    requires DistinctLists(g)
    requires Building(g, start, dag, lo, 0, lo, hi, depth) && lo < hi == |dag.vids| && frontier == Range(lo, hi)
    requires nextDepth == depth + 1 && goal !in dag.index
    ensures Building(g, start, d, hi, 0, lo, hi, depth) && |d.vids| == |d.depths| && hi <= |d.vids|
    ensures next == Range(hi, |d.vids|)
    ensures GoalFound(d, goal, goalIdx, goalDepth) && (goalIdx.Some? ==> goalDepth == depth + 1)
    ensures dag.index.Keys <= d.index.Keys <= Vertices(g) + {start}
    ensures d.index.Keys == dag.index.Keys ==> next == []
  {
    hide Building, Neighbors, Vertices, DistinctLists;
    d, next, goalIdx, goalDepth := dag, [], None, 0;
    BuildingShape(g, start, d, lo, 0, lo, hi, depth);
    for f := 0 to |frontier|
      invariant Building(g, start, d, lo + f, 0, lo, hi, depth) && |d.vids| == |d.depths| && hi <= |d.vids|
      invariant next == Range(hi, |d.vids|)
      invariant GoalFound(d, goal, goalIdx, goalDepth) && (goalIdx.Some? ==> goalDepth == depth + 1)
      invariant dag.index.Keys <= d.index.Keys
      invariant d.index.Keys == dag.index.Keys ==> next == []
    {
      d, next, goalIdx, goalDepth :=
        FollowVertex(g, start, goal, d, frontier[f], nextDepth, next, goalIdx, goalDepth, lo, hi, depth);
    }
    BuildingShape(g, start, d, hi, 0, lo, hi, depth);
  }

  lemma {:induction false} BuildingShape(g: Graph, start: u64, d: Dag, p: nat, k: nat, lo: nat, hi: nat, depth: nat)
    requires Building(g, start, d, p, k, lo, hi, depth)
    ensures Shape(d, start) && d.index.Keys <= Vertices(g) + {start} && hi <= |d.vids|
    ensures lo <= p < hi ==> d.depths[p] == depth
  {
    hide Dist, Reach, Vertices, ParentsExact, Followed, ExactDepths;
  }

  /** Follows the neighbours of one vertex: known ones one level deeper gain a parent, unknown ones join the DAG. */
  method FollowVertex(g: Graph, start: u64, goal: u64, dag: Dag, idx: nat, nextDepth: nat, next0: seq<nat>,
                      goalIdx0: Option<nat>, goalDepth0: nat, ghost lo: nat, ghost hi: nat, ghost depth: nat)
      returns (d: Dag, next: seq<nat>, goalIdx: Option<nat>, goalDepth: nat)
    requires DistinctLists(g)
    requires Building(g, start, dag, idx, 0, lo, hi, depth) && lo <= idx < hi <= |dag.vids| == |dag.depths|
    requires nextDepth == depth + 1 && next0 == Range(hi, |dag.vids|)
    requires GoalFound(dag, goal, goalIdx0, goalDepth0) && (goalIdx0.Some? ==> goalDepth0 == depth + 1)
    ensures Building(g, start, d, idx + 1, 0, lo, hi, depth) && |d.vids| == |d.depths| && hi <= |d.vids|
    ensures next == Range(hi, |d.vids|)
    ensures GoalFound(d, goal, goalIdx, goalDepth) && (goalIdx.Some? ==> goalDepth == depth + 1)
    ensures dag.index.Keys <= d.index.Keys
    ensures d.index.Keys == dag.index.Keys ==> next == next0
  {
    hide Building, Neighbors, Vertices, DistinctLists;
    d, next, goalIdx, goalDepth := dag, next0, goalIdx0, goalDepth0;
    var neighbors := Neighbors(g, d.vids[idx]);
    for k := 0 to |neighbors|
      invariant Building(g, start, d, idx, k, lo, hi, depth) && |d.vids| == |d.depths| && hi <= |d.vids|
      invariant neighbors == Neighbors(g, d.vids[idx])
      invariant next == Range(hi, |d.vids|)
      invariant GoalFound(d, goal, goalIdx, goalDepth) && (goalIdx.Some? ==> goalDepth == depth + 1)
      invariant dag.index.Keys <= d.index.Keys
      invariant d.index.Keys == dag.index.Keys ==> next == next0
    {
      var nbr := neighbors[k];
      BuildingShape(g, start, d, idx, k, lo, hi, depth);
      if nbr in d.index {
        var nidx := d.index[nbr];
        FollowOld(g, start, d, idx, k, lo, hi, depth);
        if d.depths[nidx] == nextDepth {
          d := AddParent(d, nidx, idx);
        }
      } else {
        FollowNew(g, start, d, idx, k, lo, hi, depth);
        var nidx := |d.vids|;
        d := AddVertex(d, nbr, nextDepth, idx);
        next := next + [nidx];
        assert nbr in d.index.Keys && nbr !in dag.index.Keys;
        if nbr == goal {
          goalIdx := Some(nidx);
          goalDepth := nextDepth;
        }
      }
    }
    NextVertex(g, start, d, idx, lo, hi, depth);
  }

  /** Between levels: the frontier is the last level, and the goal, once found, stands in it. */
  ghost predicate BetweenLevels(g: Graph, start: u64, goal: u64, d: Dag, frontier: seq<nat>, goalIdx: Option<nat>, goalDepth: nat,
                                lo: nat, depth: nat) {
    && lo <= |d.vids| && Building(g, start, d, lo, 0, lo, |d.vids|, depth) && frontier == Range(lo, |d.vids|)
    && |d.depths| == |d.vids| && GoalFound(d, goal, goalIdx, goalDepth)
    && (goalIdx.Some? ==> goalDepth == depth && Complete(g, start, d, depth))
  }

  method ShortestPathParentDag(g: Graph, start: u64, goal: u64) returns (r: Option<ParentDag>)
    requires DistinctLists(g) && start != goal
    ensures exists depths: seq<nat>, index: map<u64, nat> :: DagFor(g, start, goal, r, depths, index)
  {
    hide Building, Neighbors, Vertices, DistinctLists, Range, GoalFound, DagFor, BetweenLevels, Unseen;
    var d := Dag([start], [0], [[]], map[start := 0]);
    var frontier: seq<nat> := [0];
    var goalIdx: Option<nat> := None;
    var goalDepth: nat := 0;
    ghost var lo: nat, depth: nat := 0, 0;
    FirstLevel(g, start, goal);
    while frontier != [] && goalIdx.None?
      invariant BetweenLevels(g, start, goal, d, frontier, goalIdx, goalDepth, lo, depth)
      decreases Unseen(g, start, d.index.Keys), |frontier|
    {
      ghost var before := d;
      LevelOpens(g, start, goal, d, frontier, goalDepth, lo, depth);
      var nextDepth := d.depths[frontier[0]] + 1;
      var next: seq<nat>;
      d, next, goalIdx, goalDepth := FollowLevel(g, start, goal, d, frontier, nextDepth, lo, |d.vids|, depth);
      LevelCloses(g, start, goal, d, next, goalIdx, goalDepth, lo, |before.vids|, depth);
      frontier := next;
      lo, depth := |before.vids|, depth + 1;
      UnseenShrinks(g, start, before.index.Keys, d.index.Keys);
    }
    SearchEnds(g, start, goal, d, frontier, goalIdx, goalDepth, lo, depth);
    r := match goalIdx
      case None => None
      case Some(i) => Some(ParentDag(d.vids, d.parents, i, goalDepth));
    assert DagFor(g, start, goal, r, d.depths, d.index);
  }

  lemma {:induction false} FirstLevel(g: Graph, start: u64, goal: u64)
    requires start != goal
    ensures BetweenLevels(g, start, goal, Dag([start], [0], [[]], map[start := 0]), [0], None, 0, 0, 0)
  {
    StartDag(g, start);
    hide Building, Complete;
    RangeSize(0, 1);
  }

  lemma {:induction false} LevelOpens(g: Graph, start: u64, goal: u64, d: Dag, frontier: seq<nat>, goalDepth: nat, lo: nat, depth: nat)
    requires BetweenLevels(g, start, goal, d, frontier, None, goalDepth, lo, depth) && frontier != []
    ensures Building(g, start, d, lo, 0, lo, |d.vids|, depth) && lo < |d.vids| == |d.depths| && frontier == Range(lo, |d.vids|)
    ensures frontier[0] < |d.depths| && d.depths[frontier[0]] == depth && goal !in d.index
    ensures d.index.Keys <= Vertices(g) + {start}
  {
    hide Building, Range;
    RangeSize(lo, |d.vids|);
    DepthOf(g, start, d, lo, |d.vids|, depth);
  }

  lemma {:induction false} LevelCloses(g: Graph, start: u64, goal: u64, d: Dag, next: seq<nat>, goalIdx: Option<nat>, goalDepth: nat,
                                       lo: nat, hi: nat, depth: nat)
    requires Building(g, start, d, hi, 0, lo, hi, depth) && hi <= |d.vids| == |d.depths| && next == Range(hi, |d.vids|)
    requires GoalFound(d, goal, goalIdx, goalDepth) && (goalIdx.Some? ==> goalDepth == depth + 1)
    ensures BetweenLevels(g, start, goal, d, next, goalIdx, goalDepth, hi, depth + 1)
  {
    NextLevel(g, start, d, lo, hi, depth);
    BuiltIsComplete(g, start, d, lo, hi, depth);
    hide Building, Range, Complete;
  }

  lemma {:induction false} SearchEnds(g: Graph, start: u64, goal: u64, d: Dag, frontier: seq<nat>, goalIdx: Option<nat>, goalDepth: nat,
                                      lo: nat, depth: nat)
    requires BetweenLevels(g, start, goal, d, frontier, goalIdx, goalDepth, lo, depth)
    requires frontier == [] || goalIdx.Some?
    ensures DagFor(g, start, goal,
                   match goalIdx case None => None case Some(i) => Some(ParentDag(d.vids, d.parents, i, goalDepth)),
                   d.depths, d.index)
  {
    hide Building, Range, Complete, Reachable;
    match goalIdx
    case None =>
      RangeSize(lo, |d.vids|);
      Unreached(g, start, goal, d, lo, depth);
    case Some(i) =>
  }

  // -------------------------------------------------------------- enumeration

  function AppendAll<T>(paths: seq<seq<T>>, tail: seq<T>): seq<seq<T>> {
    seq(|paths|, i requires 0 <= i < |paths| => paths[i] + tail)
  }

  predicate ParentsInRange(vids: seq<u64>, parents: seq<seq<nat>>) {
    |parents| == |vids| && forall i, k :: 0 <= i < |parents| && 0 <= k < |parents[i]| ==> parents[i][k] < |vids|
  }

  predicate IndicesBelow(s: seq<nat>, n: nat) {
    forall k :: 0 <= k < |s| ==> s[k] < n
  }

  /** The paths that follow `depth` parent links down to `cur`, in the order of the parent lists. */
  function PathsTo(vids: seq<u64>, parents: seq<seq<nat>>, cur: nat, depth: nat): seq<seq<u64>>
    requires ParentsInRange(vids, parents) && cur < |vids|
    decreases depth, 0
  {
    if depth == 0 then [[vids[cur]]]
    else AppendAll(PathsVia(vids, parents, parents[cur], depth - 1), [vids[cur]])
  }

  function PathsVia(vids: seq<u64>, parents: seq<seq<nat>>, via: seq<nat>, depth: nat): seq<seq<u64>>
    requires ParentsInRange(vids, parents) && IndicesBelow(via, |vids|)
    decreases depth, |via| + 1
  {
    if via == [] then []
    else PathsVia(vids, parents, via[..|via| - 1], depth) + PathsTo(vids, parents, via[|via| - 1], depth)
  }

  /** Where the parents of a vertex of a complete DAG stand. */
  lemma {:induction false} ParentFacts(g: Graph, start: u64, d: Dag, depth: nat, i: nat)
    requires Complete(g, start, d, depth) && i < |d.vids|
    ensures ParentsInRange(d.vids, d.parents) && Distinct(d.parents[i])
    ensures forall k :: 0 <= k < |d.parents[i]| ==> DagEdge(g, d, d.parents[i][k], i)
  {
    forall i, k | 0 <= i < |d.parents| && 0 <= k < |d.parents[i]|
      ensures d.parents[i][k] < |d.vids| && DagEdge(g, d, d.parents[i][k], i)
    {
      assert AllParents(g, d, i) && d.parents[i][k] in d.parents[i];
    }
    assert AllParents(g, d, i);
  }

  /** A shortest path, one step longer. */
  lemma {:induction false} ExtendShortest(g: Graph, start: u64, u: u64, v: u64, path: seq<u64>, n: nat)
    requires ShortestPath(g, start, u, path) && Dist(g, start, u, n) && Dist(g, start, v, n + 1) && v in Neighbors(g, u)
    ensures ShortestPath(g, start, v, path + [v])
  {
    DistUnique(g, start, u, |path| - 1, n);
    hide Dist, Neighbors;
  }

  /** A shortest path, without its last step. */
  lemma {:induction false} ShortenShortest(g: Graph, start: u64, v: u64, path: seq<u64>, n: nat)
    requires ShortestPath(g, start, v, path) && Dist(g, start, v, n + 1)
    ensures |path| == n + 2 && path == path[..n + 1] + [v]
    ensures ShortestPath(g, start, path[n], path[..n + 1]) && Dist(g, start, path[n], n) && v in Neighbors(g, path[n])
  {
    DistUnique(g, start, v, |path| - 1, n + 1);
    assert v in Neighbors(g, path[n]);
    WalkReaches(g, start, path[n], path[..n + 1], n);
    PredecessorDist(g, start, path[n], v, n);
  }

  ghost predicate ListsShortest(g: Graph, start: u64, v: u64, paths: seq<seq<u64>>) {
    Distinct(paths) && forall path :: path in paths <==> ShortestPath(g, start, v, path)
  }

  ghost predicate AllListed(g: Graph, start: u64, d: Dag, via: seq<nat>, n: nat)
    requires ParentsInRange(d.vids, d.parents) && IndicesBelow(via, |d.vids|)
  {
    forall k :: 0 <= k < |via| ==> ListsShortest(g, start, d.vids[via[k]], PathsTo(d.vids, d.parents, via[k], n))
  }

  lemma {:induction false} ViaLists(g: Graph, start: u64, d: Dag, via: seq<nat>, n: nat)
    requires Shape(d, start) && ParentsInRange(d.vids, d.parents) && IndicesBelow(via, |d.vids|) && Distinct(via)
    requires AllListed(g, start, d, via, n)
    ensures var paths := PathsVia(d.vids, d.parents, via, n);
            && Distinct(paths)
            && forall path :: path in paths <==> exists k :: 0 <= k < |via| && ShortestPath(g, start, d.vids[via[k]], path)
    decreases |via|
  {
    hide ShortestPath;
    if via != [] {
      var m := |via| - 1;
      ViaLists(g, start, d, via[..m], n);
      var head, last := PathsVia(d.vids, d.parents, via[..m], n), PathsTo(d.vids, d.parents, via[m], n);
      assert ListsShortest(g, start, d.vids[via[m]], last);
      forall path
        ensures path in head + last <==> exists k :: 0 <= k < |via| && ShortestPath(g, start, d.vids[via[k]], path)
      {
        SplitLast(g, start, d.vids, via, path);
      }
      forall path | path in head
        ensures path !in last
      {
        var k :| 0 <= k < m && ShortestPath(g, start, d.vids[via[..m][k]], path);
        EndsApart(g, start, d.vids[via[k]], d.vids[via[m]], path);
      }
      DistinctAppend(head, last);
    }
  }

  lemma {:induction false} SplitLast(g: Graph, start: u64, vids: seq<u64>, via: seq<nat>, path: seq<u64>)
    requires via != [] && IndicesBelow(via, |vids|)
    ensures var m := |via| - 1;
            (exists k :: 0 <= k < |via| && ShortestPath(g, start, vids[via[k]], path)) <==>
            (exists k :: 0 <= k < m && ShortestPath(g, start, vids[via[..m][k]], path)) || ShortestPath(g, start, vids[via[m]], path)
  {
    hide ShortestPath;
    var m := |via| - 1;
    if k :| 0 <= k < m && ShortestPath(g, start, vids[via[..m][k]], path) {
      assert ShortestPath(g, start, vids[via[k]], path);
    }
    if k :| 0 <= k < |via| && ShortestPath(g, start, vids[via[k]], path) {
      if k < m {
        assert ShortestPath(g, start, vids[via[..m][k]], path);
      }
    }
  }

  lemma {:induction false} EndsApart(g: Graph, start: u64, u: u64, v: u64, path: seq<u64>)
    requires ShortestPath(g, start, u, path) && u != v
    ensures !ShortestPath(g, start, v, path)
  {
    hide Dist;
  }

  /** Appending a step keeps paths apart. */
  lemma {:induction false} AppendAllDistinct<T>(paths: seq<seq<T>>, x: T)
    requires Distinct(paths)
    ensures Distinct(AppendAll(paths, [x]))
    ensures forall path :: path in AppendAll(paths, [x]) <==> exists p :: p in paths && path == p + [x]
  {
    var all := AppendAll(paths, [x]);
    forall i, j | 0 <= i < j < |all|
      ensures all[i] != all[j]
    {
      assert all[i][..|paths[i]|] == paths[i] && all[j][..|paths[j]|] == paths[j];
    }
    forall path
      ensures path in all <==> exists p :: p in paths && path == p + [x]
    {
      if p :| p in paths && path == p + [x] {
        var i :| 0 <= i < |paths| && paths[i] == p;
        assert all[i] == path;
      }
      if path in all {
        var i :| 0 <= i < |all| && all[i] == path;
        assert paths[i] in paths;
      }
    }
  }

  /** If the paths to every parent are listed, so are those to the vertex. */
  lemma {:induction false} PathsStep(g: Graph, start: u64, d: Dag, depth: nat, i: nat)
    requires Complete(g, start, d, depth) && i < |d.vids| && 0 < d.depths[i] <= depth
    requires ParentsInRange(d.vids, d.parents) && AllListed(g, start, d, d.parents[i], d.depths[i] - 1)
    ensures ListsShortest(g, start, d.vids[i], PathsTo(d.vids, d.parents, i, d.depths[i]))
  {
    hide AllListed, ListsShortest, ShortestPath, ExactDepths, AllParents, PathsVia, PathsTo, Neighbors, Distinct;
    var n := d.depths[i];
    ParentFacts(g, start, d, depth, i);
    PathsUnfold(d.vids, d.parents, i, n);
    ViaLists(g, start, d, d.parents[i], n - 1);
    ExtendLists(g, start, d, depth, i, PathsVia(d.vids, d.parents, d.parents[i], n - 1));
  }

  lemma {:induction false} DepthZero(g: Graph, start: u64, d: Dag, depth: nat, i: nat)
    requires Complete(g, start, d, depth) && i < |d.vids| && d.depths[i] == 0
    requires ParentsInRange(d.vids, d.parents)
    ensures ListsShortest(g, start, d.vids[i], PathsTo(d.vids, d.parents, i, 0))
  {
    assert Dist(g, start, d.vids[i], 0);
    OnlyStart(g, start, d.vids[i]);
    PathsUnfold(d.vids, d.parents, i, 0);
    hide Complete, ListsShortest, PathsTo;
  }

  /** Every shortest path to a vertex of the DAG is listed exactly once, and nothing else is. */
  lemma {:induction false} PathsAreShortest(g: Graph, start: u64, d: Dag, depth: nat, i: nat)
    requires Complete(g, start, d, depth) && i < |d.vids| && d.depths[i] <= depth
    ensures ParentsInRange(d.vids, d.parents)
    ensures ListsShortest(g, start, d.vids[i], PathsTo(d.vids, d.parents, i, d.depths[i]))
    decreases d.depths[i]
  {
    hide ListsShortest, PathsTo, AllParents, ExactDepths, Distinct, Neighbors;
    ParentFacts(g, start, d, depth, i);
    if d.depths[i] == 0 {
      DepthZero(g, start, d, depth, i);
    } else {
      var via, n := d.parents[i], d.depths[i] - 1;
      forall k | 0 <= k < |via|
        ensures ListsShortest(g, start, d.vids[via[k]], PathsTo(d.vids, d.parents, via[k], n))
      {
        assert DagEdge(g, d, via[k], i);
        PathsAreShortest(g, start, d, depth, via[k]);
      }
      PathsStep(g, start, d, depth, i);
    }
  }

  lemma {:induction false} PathsUnfold(vids: seq<u64>, parents: seq<seq<nat>>, cur: nat, depth: nat)
    requires ParentsInRange(vids, parents) && cur < |vids|
    ensures PathsTo(vids, parents, cur, depth) ==
            if depth == 0 then [[vids[cur]]] else AppendAll(PathsVia(vids, parents, parents[cur], depth - 1), [vids[cur]])
  {
    hide PathsVia, AppendAll;
  }

  lemma {:induction false} ExtendLists(g: Graph, start: u64, d: Dag, depth: nat, i: nat, paths: seq<seq<u64>>)
    requires Complete(g, start, d, depth) && i < |d.vids| && 0 < d.depths[i] <= depth
    requires ParentsInRange(d.vids, d.parents) && Distinct(paths)
    requires forall p :: p in paths <==> exists k :: 0 <= k < |d.parents[i]| && ShortestPath(g, start, d.vids[d.parents[i][k]], p)
    ensures ListsShortest(g, start, d.vids[i], AppendAll(paths, [d.vids[i]]))
  {
    hide Complete, ShortestPath, AppendAll;
    var v := d.vids[i];
    AppendAllDistinct(paths, v);
    forall path
      ensures path in AppendAll(paths, [v]) <==> ShortestPath(g, start, v, path)
    {
      OneStep(g, start, d, depth, i, paths, path);
    }
  }

  lemma {:induction false} OnlyStart(g: Graph, start: u64, v: u64)
    requires Dist(g, start, v, 0)
    ensures ListsShortest(g, start, v, [[v]])
  {
    forall path
      ensures path in [[v]] <==> ShortestPath(g, start, v, path)
    {
      if ShortestPath(g, start, v, path) {
        DistUnique(g, start, v, |path| - 1, 0);
        assert path == [v];
      }
    }
  }

  /** The shortest paths to a vertex are those to its parents, one step longer. */
  lemma {:induction false} OneStep(g: Graph, start: u64, d: Dag, depth: nat, i: nat, paths: seq<seq<u64>>, path: seq<u64>)
    requires Complete(g, start, d, depth) && i < |d.vids| && 0 < d.depths[i] <= depth
    requires ParentsInRange(d.vids, d.parents)
    requires forall p :: p in paths <==> exists k :: 0 <= k < |d.parents[i]| && ShortestPath(g, start, d.vids[d.parents[i][k]], p)
    ensures (exists p :: p in paths && path == p + [d.vids[i]]) <==> ShortestPath(g, start, d.vids[i], path)
  {
    hide ExactDepths, AllParents, Reach, ShortestPath;
    var v := d.vids[i];
    if p :| p in paths && path == p + [v] {
      var k :| 0 <= k < |d.parents[i]| && ShortestPath(g, start, d.vids[d.parents[i][k]], p);
      StepFromParent(g, start, d, depth, i, k, p);
    }
    if ShortestPath(g, start, v, path) {
      var k := StepToParent(g, start, d, depth, i, path);
      assert path[..|path| - 1] in paths;
    }
  }

  lemma {:induction false} StepFromParent(g: Graph, start: u64, d: Dag, depth: nat, i: nat, k: nat, p: seq<u64>)
    requires Complete(g, start, d, depth) && i < |d.vids| && 0 < d.depths[i] <= depth
    requires ParentsInRange(d.vids, d.parents) && k < |d.parents[i]|
    requires ShortestPath(g, start, d.vids[d.parents[i][k]], p)
    ensures ShortestPath(g, start, d.vids[i], p + [d.vids[i]])
  {
    hide ShortestPath, Dist, Reach;
    ParentFacts(g, start, d, depth, i);
    assert DagEdge(g, d, d.parents[i][k], i);
    ExtendShortest(g, start, d.vids[d.parents[i][k]], d.vids[i], p, d.depths[i] - 1);
  }

  lemma {:induction false} StepToParent(g: Graph, start: u64, d: Dag, depth: nat, i: nat, path: seq<u64>) returns (k: nat)
    requires Complete(g, start, d, depth) && i < |d.vids| && 0 < d.depths[i] <= depth
    requires ParentsInRange(d.vids, d.parents) && ShortestPath(g, start, d.vids[i], path)
    ensures |path| > 0 && path == path[..|path| - 1] + [d.vids[i]]
    ensures k < |d.parents[i]| && ShortestPath(g, start, d.vids[d.parents[i][k]], path[..|path| - 1])
  {
    hide ShortestPath, Dist, Reach, ParentsInRange;
    var n := d.depths[i] - 1;
    assert Dist(g, start, d.vids[i], n + 1);
    ShortenShortest(g, start, d.vids[i], path, n);
    var j := PlaceOf(g, start, d, depth, path[n], n);
    assert AllParents(g, d, i) && DagEdge(g, d, j, i);
    k :| 0 <= k < |d.parents[i]| && d.parents[i][k] == j;
  }

  lemma {:induction false} PlaceOf(g: Graph, start: u64, d: Dag, depth: nat, u: u64, n: nat) returns (j: nat)
    requires Complete(g, start, d, depth) && Dist(g, start, u, n) && n < depth
    ensures j < |d.vids| && d.vids[j] == u && d.depths[j] == n
  {
    j := d.index[u];
    DistUnique(g, start, u, d.depths[j], n);
  }
}
