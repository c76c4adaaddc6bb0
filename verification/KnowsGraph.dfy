/** The knows graph of the social network and walks in it. */
module KnowsGraph {
  import opened Types

  type Graph = map<u64, seq<u64>>

  /** Cached adjacency list of a vertex; a vertex without one has no neighbours. */
  function Neighbors(g: Graph, v: u64): seq<u64> {
    if v in g then g[v] else []
  }

  /** `v` is at the end of some walk of `n` edges from `s`. */
  ghost predicate Reach(g: Graph, s: u64, v: u64, n: nat)
    decreases n
  {
    if n == 0 then v == s
    else exists u: u64 :: Reach(g, s, u, n - 1) && v in Neighbors(g, u)
  }

  ghost predicate Reachable(g: Graph, s: u64, v: u64) {
    exists n: nat :: Reach(g, s, v, n)
  }

  /** `n` is the length of the shortest walks from `s` to `v`. */
  ghost predicate Dist(g: Graph, s: u64, v: u64, n: nat) {
    Reach(g, s, v, n) && forall k: nat :: k < n ==> !Reach(g, s, v, k)
  }

  /** Every vertex the graph mentions. */
  function Vertices(g: Graph): set<u64> {
    g.Keys + set v, w | v in g && w in g[v] :: w
  }

  /** How many vertices a search from `start` has not seen: what makes it end. */
  ghost function Unseen(g: Graph, start: u64, seen: set<u64>): nat {
    |Vertices(g) + {start} - seen|
  }

  lemma {:induction false} UnseenShrinks(g: Graph, start: u64, before: set<u64>, seen: set<u64>)
    requires before <= seen <= Vertices(g) + {start}
    ensures Unseen(g, start, seen) <= Unseen(g, start, before)
    ensures seen != before ==> Unseen(g, start, seen) < Unseen(g, start, before)
  {
    hide Vertices;
    var bound := Vertices(g) + {start};
    assert bound - before == (bound - seen) + (seen - before);
    if seen != before {
      var x :| x in seen - before;
      assert |seen - before| > 0;
    }
  }

  lemma {:induction false} NeighborIsVertex(g: Graph, u: u64, v: u64)
    requires v in Neighbors(g, u)
    ensures v in Vertices(g)
  {
  }

  lemma {:induction false} DistUnique(g: Graph, s: u64, v: u64, m: nat, n: nat)
    requires Dist(g, s, v, m) && Dist(g, s, v, n)
    ensures m == n
  {
  }

  lemma {:induction false} StepReach(g: Graph, s: u64, u: u64, v: u64, n: nat)
    requires Reach(g, s, u, n) && v in Neighbors(g, u)
    ensures Reach(g, s, v, n + 1)
  {
  }

  lemma {:induction false} PredecessorOf(g: Graph, s: u64, v: u64, n: nat) returns (u: u64)
    requires Reach(g, s, v, n + 1)
    ensures Reach(g, s, u, n) && v in Neighbors(g, u)
  {
    u :| Reach(g, s, u, n) && v in Neighbors(g, u);
  }

  /** A reachable vertex has a distance. */
  lemma {:induction false} DistExists(g: Graph, s: u64, v: u64, n: nat) returns (d: nat)
    requires Reach(g, s, v, n)
    ensures d <= n && Dist(g, s, v, d)
    decreases n
  {
    if k: nat :| k < n && Reach(g, s, v, k) {
      d := DistExists(g, s, v, k);
    } else {
      d := n;
    }
  }

  /** A neighbour of a vertex at distance `n` that no shorter walk reaches is at distance `n + 1`. */
  lemma {:induction false} NewDist(g: Graph, s: u64, u: u64, v: u64, n: nat)
    requires Dist(g, s, u, n) && v in Neighbors(g, u) && forall k: nat :: k <= n ==> !Reach(g, s, v, k)
    ensures Dist(g, s, v, n + 1)
  {
    StepReach(g, s, u, v, n);
  }

  /** The last but one vertex of a shortest walk is one step closer. */
  lemma {:induction false} PredecessorDist(g: Graph, s: u64, u: u64, v: u64, n: nat)
    requires Dist(g, s, v, n + 1) && Reach(g, s, u, n) && v in Neighbors(g, u)
    ensures Dist(g, s, u, n)
  {
    forall k: nat | k < n
      ensures !Reach(g, s, u, k)
    {
      if Reach(g, s, u, k) {
        StepReach(g, s, u, v, k);
        assert false;
      }
    }
  }

  // ------------------------------------------------------------ vertex ids

  const EXTERNAL_RANGE: int := VERTEX_LABEL_UNIT
  const PERSON_LABEL: int := 1

  type i64 = x: int | -0x8000_0000_0000_0000 <= x < 0x8000_0000_0000_0000

  /** `encode_vid`: the label above the low 56 bits of the id. */
  function EncodeVid(vertexLabel: int, id: i64): u64
    requires 1 <= vertexLabel <= 8
  {
    vertexLabel * EXTERNAL_RANGE + id % EXTERNAL_RANGE
  }

  function ExternalId(vid: u64): i64 {
    vid % EXTERNAL_RANGE
  }

  /** Encoding is undone, and labels recovered, exactly for ids of 56 bits. */
  lemma {:induction false} EncodeRoundTrip(vertexLabel: int, id: i64)
    requires 1 <= vertexLabel <= 8
    ensures ExternalId(EncodeVid(vertexLabel, id)) == id <==> 0 <= id < 0x100_0000_0000_0000
    ensures SourceLabel(EncodeVid(vertexLabel, id)) == vertexLabel
    ensures 0 <= id < 0x100_0000_0000_0000 ==> EncodeVid(vertexLabel, id) == vertexLabel * 0x100_0000_0000_0000 + id
  {
    var low := id % EXTERNAL_RANGE;
    var vid := EncodeVid(vertexLabel, id);
    assert vid / EXTERNAL_RANGE == vertexLabel && vid % EXTERNAL_RANGE == low;
  }

  /** Two ids share a vertex exactly when they agree modulo 2^56. */
  lemma {:induction false} EncodeCollides(vertexLabel: int, a: i64, b: i64)
    requires 1 <= vertexLabel <= 8
    ensures EncodeVid(vertexLabel, a) == EncodeVid(vertexLabel, b) <==>
            a % 0x100_0000_0000_0000 == b % 0x100_0000_0000_0000
  {
  }
}
