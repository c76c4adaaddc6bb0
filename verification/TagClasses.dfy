/** Tag classes below a root: everything reachable over reversed subclass edges, searched with a queue that may hold repeats. */
module TagClasses {
  import opened Types
  import opened KnowsGraph

  ghost predicate QueueInv(g: Graph, root: u64, out: set<u64>, queue: seq<u64>) {
    && (forall v :: v in out ==> Reachable(g, root, v))
    && (forall v :: v in queue ==> Reachable(g, root, v) && v in Vertices(g) + {root})
    && out <= Vertices(g) + {root}
    && (root in out || root in queue)
    && (forall v :: v in out ==> forall w :: w in Neighbors(g, v) ==> w in out || w in queue)
  }

  /** With the queue empty, what was collected is exactly what is reachable. */
  lemma {:induction false} Collected(g: Graph, root: u64, out: set<u64>, v: u64, n: nat)
    requires QueueInv(g, root, out, []) && Reach(g, root, v, n)
    ensures v in out
    decreases n
  {
    if n > 0 {
      var u := PredecessorOf(g, root, v, n - 1);
      Collected(g, root, out, u, n - 1);
    }
  }

  lemma {:induction false} StepReachable(g: Graph, root: u64, v: u64, w: u64)
    requires Reachable(g, root, v) && w in Neighbors(g, v)
    ensures Reachable(g, root, w) && w in Vertices(g)
  {
    var n: nat :| Reach(g, root, v, n);
    StepReach(g, root, v, w, n);
    NeighborIsVertex(g, v, w);
  }

  /** A repeat is dropped. */
  lemma {:induction false} DropRepeat(g: Graph, root: u64, out: set<u64>, queue: seq<u64>)
    requires QueueInv(g, root, out, queue) && queue != [] && queue[0] in out
    ensures QueueInv(g, root, out, queue[1..])
  {
    hide Reachable, Vertices, Neighbors;
    InTail(queue);
  }

  lemma {:induction false} InTail(queue: seq<u64>)
    requires queue != []
    ensures forall v :: v in queue <==> v == queue[0] || v in queue[1..]
  {
    assert queue == [queue[0]] + queue[1..];
  }

  /** A new vertex joins, its neighbours queue up. */
  lemma {:induction false} Join(g: Graph, root: u64, out: set<u64>, queue: seq<u64>)
    requires QueueInv(g, root, out, queue) && queue != []
    ensures QueueInv(g, root, out + {queue[0]}, queue[1..] + Neighbors(g, queue[0]))
  {
    InTail(queue);
    var more := queue[1..] + Neighbors(g, queue[0]);
    forall w | w in Neighbors(g, queue[0])
      ensures Reachable(g, root, w) && w in Vertices(g) && w in more
    {
      StepReachable(g, root, queue[0], w);
    }
    hide Reachable, Vertices, Neighbors;
    assert forall v :: v in queue[1..] ==> v in more;
  }

  method TagClassAncestorsLikeDgs(g: Graph, root: u64) returns (out: set<u64>)
    ensures forall v: u64 :: v in out <==> Reachable(g, root, v)
  {
    hide QueueInv, Neighbors, Vertices, Reachable, Unseen;
    out := {};
    var queue := [root];
    StartQueue(g, root);
    while queue != []
      invariant QueueInv(g, root, out, queue)
      decreases Unseen(g, root, out), |queue|
    {
      var tc := queue[0];
      if tc in out {
        DropRepeat(g, root, out, queue);
        queue := queue[1..];
        continue;
      }
      Join(g, root, out, queue);
      QueuedIsVertex(g, root, out, queue);
      UnseenShrinks(g, root, out, out + {tc});
      out := out + {tc};
      queue := queue[1..];
      ghost var rest := queue;
      var parents := Neighbors(g, tc);
      for i := 0 to |parents|
        invariant queue == rest + parents[..i]
      {
        queue := queue + [parents[i]];
      }
      assert parents[..|parents|] == parents;
    }
    AllCollected(g, root, out);
  }

  lemma {:induction false} QueuedIsVertex(g: Graph, root: u64, out: set<u64>, queue: seq<u64>)
    requires QueueInv(g, root, out, queue) && queue != []
    ensures queue[0] in Vertices(g) + {root} && out <= Vertices(g) + {root}
  {
  }

  lemma {:induction false} StartQueue(g: Graph, root: u64)
    ensures QueueInv(g, root, {}, [root])
  {
    assert Reach(g, root, root, 0);
  }

  lemma {:induction false} AllCollected(g: Graph, root: u64, out: set<u64>)
    requires QueueInv(g, root, out, [])
    ensures forall v: u64 :: v in out <==> Reachable(g, root, v)
  {
    forall v: u64 | Reachable(g, root, v)
      ensures v in out
    {
      var n: nat :| Reach(g, root, v, n);
      Collected(g, root, out, v, n);
    }
  }
}
