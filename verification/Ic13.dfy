/** Query IC13: the length of a shortest knows path, by breadth-first search with a queue of depths. */
module Ic13 {
  import opened Types
  import opened KnowsGraph

  datatype Entry = Entry(vid: u64, depth: nat)

  ghost predicate Closed(g: Graph, seen: set<u64>, v: u64) {
    forall w :: w in Neighbors(g, v) ==> w in seen
  }

  ghost predicate Queued(queue: seq<Entry>, v: u64) {
    exists i :: 0 <= i < |queue| && queue[i].vid == v
  }

  /** Depths in the queue never fall and span at most two levels. */
  ghost predicate TwoLevels(queue: seq<Entry>) {
    forall i, j :: 0 <= i <= j < |queue| ==> queue[i].depth <= queue[j].depth <= queue[0].depth + 1
  }

  ghost predicate DepthsExact(g: Graph, start: u64, queue: seq<Entry>) {
    forall i :: 0 <= i < |queue| ==> Dist(g, start, queue[i].vid, queue[i].depth)
  }

  /** Every vertex seen is waiting in the queue, or has all its neighbours seen. */
  ghost predicate Explored(g: Graph, seen: set<u64>, queue: seq<Entry>) {
    forall v :: v in seen ==> Queued(queue, v) || Closed(g, seen, v)
  }

  ghost predicate SearchInv(g: Graph, start: u64, goal: u64, seen: set<u64>, queue: seq<Entry>) {
    && start in seen && (goal in seen ==> goal == start) && seen <= Vertices(g) + {start}
    && (forall v :: v in seen ==> Reachable(g, start, v))
    && (forall i :: 0 <= i < |queue| ==> queue[i].vid in seen)
    && TwoLevels(queue) && DepthsExact(g, start, queue) && Explored(g, seen, queue)
  }

  /** Everything no farther than the front of the queue has been seen. */
  lemma {:induction false} SeenUpToFront(g: Graph, start: u64, goal: u64, seen: set<u64>, queue: seq<Entry>, v: u64, k: nat)
    requires SearchInv(g, start, goal, seen, queue) && queue != []
    requires Reach(g, start, v, k) && k <= queue[0].depth
    ensures v in seen
    decreases k
  {
    if k > 0 {
      var u := PredecessorOf(g, start, v, k - 1);
      SeenUpToFront(g, start, goal, seen, queue, u, k - 1);
      forall i | 0 <= i < |queue|
        ensures queue[i].vid != u
      {
        assert queue[0].depth <= queue[i].depth && Dist(g, start, queue[i].vid, queue[i].depth);
      }
      assert Closed(g, seen, u);
    }
  }

  /** With the queue empty everything reachable has been seen. */
  lemma {:induction false} SeenAll(g: Graph, start: u64, goal: u64, seen: set<u64>, v: u64, k: nat)
    requires SearchInv(g, start, goal, seen, []) && Reach(g, start, v, k)
    ensures v in seen
    decreases k
  {
    if k > 0 {
      var u := PredecessorOf(g, start, v, k - 1);
      SeenAll(g, start, goal, seen, u, k - 1);
      assert Closed(g, seen, u);
    }
  }

  /** State while the neighbours of `vid`, popped at `depth`, are visited up to position `i`. */
  ghost predicate VisitInv(g: Graph, start: u64, goal: u64, seen: set<u64>, queue: seq<Entry>, vid: u64, depth: nat, i: nat) {
    && start in seen && (goal in seen ==> goal == start) && seen <= Vertices(g) + {start}
    && (forall v :: v in seen ==> Reachable(g, start, v))
    && (forall j :: 0 <= j < |queue| ==> queue[j].vid in seen)
    && (forall j, k :: 0 <= j <= k < |queue| ==> depth <= queue[j].depth <= queue[k].depth <= depth + 1)
    && DepthsExact(g, start, queue)
    && Dist(g, start, vid, depth) && vid in seen
    && (forall v, k: nat :: k <= depth && Reach(g, start, v, k) ==> v in seen)
    && (forall v :: v in seen ==> v == vid || Queued(queue, v) || Closed(g, seen, v))
    && i <= |Neighbors(g, vid)| && (forall j :: 0 <= j < i ==> Neighbors(g, vid)[j] in seen)
  }

  lemma {:induction false} StillExplored(g: Graph, seen: set<u64>, queue: seq<Entry>, v: u64)
    requires queue != [] && (Queued(queue, v) || Closed(g, seen, v))
    ensures v == queue[0].vid || Queued(queue[1..], v) || Closed(g, seen, v)
  {
    if v != queue[0].vid && Queued(queue, v) {
      var i :| 0 <= i < |queue| && queue[i].vid == v;
      assert queue[1..][i - 1].vid == v;
    }
  }

  lemma {:induction false} Pop(g: Graph, start: u64, goal: u64, seen: set<u64>, queue: seq<Entry>)
    requires SearchInv(g, start, goal, seen, queue) && queue != []
    ensures VisitInv(g, start, goal, seen, queue[1..], queue[0].vid, queue[0].depth, 0)
  {
    forall v, k: nat | k <= queue[0].depth && Reach(g, start, v, k)
      ensures v in seen
    {
      SeenUpToFront(g, start, goal, seen, queue, v, k);
    }
    forall v | v in seen
      ensures v == queue[0].vid || Queued(queue[1..], v) || Closed(g, seen, v)
    {
      StillExplored(g, seen, queue, v);
    }
    hide Reach, Dist, Queued, Closed, Reachable, Vertices;
  }

  lemma {:induction false} QueueMore(g: Graph, seen: set<u64>, queue: seq<Entry>, e: Entry, v: u64)
    requires v == e.vid || Queued(queue, v) || Closed(g, seen, v)
    ensures Queued(queue + [e], v) || Closed(g, seen + {e.vid}, v)
  {
    var queue' := queue + [e];
    if v == e.vid {
      assert queue'[|queue|].vid == v;
    } else if Queued(queue, v) {
      var j :| 0 <= j < |queue| && queue[j].vid == v;
      assert queue'[j].vid == v;
    }
  }

  lemma {:induction false} PushFacts(g: Graph, start: u64, goal: u64, seen: set<u64>, queue: seq<Entry>, vid: u64, depth: nat, i: nat)
    requires VisitInv(g, start, goal, seen, queue, vid, depth, i) && i < |Neighbors(g, vid)|
    requires Neighbors(g, vid)[i] !in seen
    ensures var nbr := Neighbors(g, vid)[i];
            Dist(g, start, nbr, depth + 1) && Reachable(g, start, nbr) && nbr in Vertices(g)
  {
    var nbr := Neighbors(g, vid)[i];
    NewDist(g, start, vid, nbr, depth);
    NeighborIsVertex(g, vid, nbr);
  }

  lemma {:induction false} PushExplored(g: Graph, start: u64, goal: u64, seen: set<u64>, queue: seq<Entry>, vid: u64, depth: nat, i: nat,
                                        e: Entry, v: u64)
    requires VisitInv(g, start, goal, seen, queue, vid, depth, i) && v in seen + {e.vid}
    ensures v == vid || Queued(queue + [e], v) || Closed(g, seen + {e.vid}, v)
  {
    hide Reach, Dist, Neighbors, Reachable, Vertices;
    if v != vid {
      QueueMore(g, seen, queue, e, v);
    }
  }

  lemma {:induction false} Push(g: Graph, start: u64, goal: u64, seen: set<u64>, queue: seq<Entry>, vid: u64, depth: nat, i: nat)
    requires VisitInv(g, start, goal, seen, queue, vid, depth, i) && i < |Neighbors(g, vid)|
    requires Neighbors(g, vid)[i] !in seen && Neighbors(g, vid)[i] != goal
    ensures var nbr := Neighbors(g, vid)[i];
            VisitInv(g, start, goal, seen + {nbr}, queue + [Entry(nbr, depth + 1)], vid, depth, i + 1)
  {
    hide Reach, Dist, Neighbors, Queued, Closed, Reachable, Vertices;
    var nbr := Neighbors(g, vid)[i];
    PushFacts(g, start, goal, seen, queue, vid, depth, i);
    forall v | v in seen + {nbr}
      ensures v == vid || Queued(queue + [Entry(nbr, depth + 1)], v) || Closed(g, seen + {nbr}, v)
    {
      PushExplored(g, start, goal, seen, queue, vid, depth, i, Entry(nbr, depth + 1), v);
    }
  }

  lemma {:induction false} Finish(g: Graph, start: u64, goal: u64, seen: set<u64>, queue: seq<Entry>, vid: u64, depth: nat)
    requires VisitInv(g, start, goal, seen, queue, vid, depth, |Neighbors(g, vid)|)
    ensures SearchInv(g, start, goal, seen, queue)
  {
    hide Reach, Dist, Neighbors;
    assert Closed(g, seen, vid);
  }

  /** Breadth-first search from `start`; `-1` when the queue runs dry. */
  method Search(g: Graph, start: u64, goal: u64) returns (length: int)
    ensures start != goal ==> Answers(g, start, goal, length)
    ensures start == goal ==> length == -1
  {
    hide SearchInv, VisitInv, Neighbors, Vertices, Dist, Reachable, Unseen;
    ghost var bound := Vertices(g) + {start};
    var seen := {start};
    var queue := [Entry(start, 0)];
    StartInv(g, start, goal);
    while queue != []
      invariant seen <= bound && SearchInv(g, start, goal, seen, queue)
      decreases Unseen(g, start, seen), |queue|
    {
      var entry := queue[0];
      Pop(g, start, goal, seen, queue);
      queue := queue[1..];
      var neighbors := Neighbors(g, entry.vid);
      ghost var before, size := seen, |queue|;
      for i := 0 to |neighbors|
        invariant before <= seen <= bound
        invariant seen == before ==> |queue| == size
        invariant VisitInv(g, start, goal, seen, queue, entry.vid, entry.depth, i)
      {
        var nbr := neighbors[i];
        if nbr in seen {
          Skip(g, start, goal, seen, queue, entry.vid, entry.depth, i);
          continue;
        }
        NeighborIsVertex(g, entry.vid, nbr);
        if nbr == goal {
          FoundGoal(g, start, goal, seen, queue, entry.vid, entry.depth, i);
          return entry.depth + 1;
        }
        Push(g, start, goal, seen, queue, entry.vid, entry.depth, i);
        seen := seen + {nbr};
        queue := queue + [Entry(nbr, entry.depth + 1)];
      }
      Finish(g, start, goal, seen, queue, entry.vid, entry.depth);
      UnseenShrinks(g, start, before, seen);
    }
    NothingLeft(g, start, goal, seen);
    length := -1;
  }

  lemma {:induction false} NothingLeft(g: Graph, start: u64, goal: u64, seen: set<u64>)
    requires SearchInv(g, start, goal, seen, [])
    ensures start != goal ==> !Reachable(g, start, goal)
  {
    forall n: nat | Reach(g, start, goal, n)
      ensures goal in seen
    {
      SeenAll(g, start, goal, seen, goal, n);
    }
  }

  lemma {:induction false} StartInv(g: Graph, start: u64, goal: u64)
    ensures SearchInv(g, start, goal, {start}, [Entry(start, 0)])
  {
    assert Reach(g, start, start, 0);
    assert [Entry(start, 0)][0].vid == start;
  }

  lemma {:induction false} Skip(g: Graph, start: u64, goal: u64, seen: set<u64>, queue: seq<Entry>, vid: u64, depth: nat, i: nat)
    requires VisitInv(g, start, goal, seen, queue, vid, depth, i) && i < |Neighbors(g, vid)| && Neighbors(g, vid)[i] in seen
    ensures VisitInv(g, start, goal, seen, queue, vid, depth, i + 1)
  {
    hide Reach, Dist, Neighbors;
  }

  lemma {:induction false} FoundGoal(g: Graph, start: u64, goal: u64, seen: set<u64>, queue: seq<Entry>, vid: u64, depth: nat, i: nat)
    requires VisitInv(g, start, goal, seen, queue, vid, depth, i) && i < |Neighbors(g, vid)| && Neighbors(g, vid)[i] == goal
    requires goal !in seen
    ensures start != goal && Dist(g, start, goal, depth + 1)
  {
    NewDist(g, start, vid, goal, depth);
  }

  /** What the query card asks for: the shortest path length, or -1 when there is no path. */
  ghost predicate Answers(g: Graph, start: u64, goal: u64, length: int) {
    if length == -1 then !Reachable(g, start, goal) else length >= 0 && Dist(g, start, goal, length)
  }

  // -------------------------------------------------------------- the query by ids

  /** The id each person vertex stores. */
  type Persons = map<u64, i64>

  /** A person is stored under the encoding of its id, so a vertex holds one person. */
  ghost predicate Keyed(persons: Persons) {
    forall v :: v in persons ==> v == EncodeVid(1, persons[v])
  }

  predicate IsPerson(persons: Persons, id: i64) {
    EncodeVid(1, id) in persons && persons[EncodeVid(1, id)] == id
  }

  /** The right answer for two ids: 0 for equal ones, -1 when one names no stored person, else the distance. */
  ghost predicate RightAnswer(g: Graph, persons: Persons, person1: i64, person2: i64, length: int) {
    if person1 == person2 then length == 0
    else if !IsPerson(persons, person1) || !IsPerson(persons, person2) then length == -1
    else Answers(g, EncodeVid(1, person1), EncodeVid(1, person2), length)
  }

  /** The answer of the query, which looks at vertices only. */
  ghost predicate Returned(g: Graph, persons: Persons, person1: i64, person2: i64, length: int) {
    var start, goal := EncodeVid(1, person1), EncodeVid(1, person2);
    if person1 == person2 then length == 0
    else if start !in persons || goal !in persons || start == goal then length == -1
    else Answers(g, start, goal, length)
  }

  /** Neither id is taken for another stored person: some lookup stops the query, or both find their own person. */
  predicate NotMistaken(persons: Persons, person1: i64, person2: i64) {
    var start, goal := EncodeVid(1, person1), EncodeVid(1, person2);
    || person1 == person2 || start == goal || start !in persons || goal !in persons
    || (IsPerson(persons, person1) && IsPerson(persons, person2))
  }

  /** The answer is right exactly when neither id is mistaken for another person's, or the search finds nothing anyway. */
  method Ic13(g: Graph, persons: Persons, person1: i64, person2: i64) returns (length: int)
    ensures Returned(g, persons, person1, person2, length)
    ensures RightAnswer(g, persons, person1, person2, length) <==>
            NotMistaken(persons, person1, person2) ||
            !Reachable(g, EncodeVid(1, person1), EncodeVid(1, person2))
  {
    hide EncodeVid, Reachable;
    if person1 == person2 {
      return 0;
    }
    var start, goal := EncodeVid(PERSON_LABEL, person1), EncodeVid(PERSON_LABEL, person2);
    if start !in persons || goal !in persons {
      return -1;
    }
    length := Search(g, start, goal);
    if start != goal {
      AnswerUnique(g, start, goal, length);
    }
  }

  /** -1 is an answer only for what cannot be reached. */
  lemma {:induction false} AnswerUnique(g: Graph, start: u64, goal: u64, length: int)
    requires Answers(g, start, goal, length)
    ensures length == -1 <==> !Reachable(g, start, goal)
    ensures forall other :: Answers(g, start, goal, other) ==> other == length
  {
    forall other | Answers(g, start, goal, other)
      ensures other == length
    {
      if length >= 0 && other >= 0 {
        DistUnique(g, start, goal, length, other);
      }
    }
  }

  /** For two stored persons the answer is always the distance, whatever their ids. */
  lemma {:induction false} StoredPersonsAreAnswered(g: Graph, persons: Persons, person1: i64, person2: i64, length: int)
    requires IsPerson(persons, person1) && IsPerson(persons, person2)
    requires Returned(g, persons, person1, person2, length)
    ensures Answers(g, EncodeVid(PERSON_LABEL, person1), EncodeVid(PERSON_LABEL, person2), length)
  {
    assert Reach(g, EncodeVid(PERSON_LABEL, person1), EncodeVid(PERSON_LABEL, person1), 0);
  }

  lemma {:induction false} NeighborsAnswer(g: Graph, start: u64, goal: u64)
    requires start != goal && goal in Neighbors(g, start)
    ensures Answers(g, start, goal, 1) && Reachable(g, start, goal)
  {
    assert Reach(g, start, start, 0);
    NewDist(g, start, start, goal, 0);
  }

  /** On a given store the query is right for every graph exactly when neither id is mistaken. */
  lemma {:induction false} RightForEveryGraph(persons: Persons, person1: i64, person2: i64)
    ensures (forall g: Graph, length: int :: Returned(g, persons, person1, person2, length) ==>
              RightAnswer(g, persons, person1, person2, length))
            <==> NotMistaken(persons, person1, person2)
  {
    hide EncodeVid, Answers;
    if !NotMistaken(persons, person1, person2) {
      var start, goal := EncodeVid(PERSON_LABEL, person1), EncodeVid(PERSON_LABEL, person2);
      var g: Graph := map[start := [goal]];
      NeighborsAnswer(g, start, goal);
      assert Returned(g, persons, person1, person2, 1) && !RightAnswer(g, persons, person1, person2, 1);
    }
  }

  /** Stores whose persons have ids of 56 bits. */
  ghost predicate SmallIds(persons: Persons) {
    Keyed(persons) && forall v :: v in persons ==> 0 <= persons[v] < EXTERNAL_RANGE
  }

  /** A check on the ids alone: the same vertex, or both of 56 bits. */
  predicate SafeIds(person1: i64, person2: i64) {
    || person1 % 0x100_0000_0000_0000 == person2 % 0x100_0000_0000_0000
    || (0 <= person1 < 0x100_0000_0000_0000 && 0 <= person2 < 0x100_0000_0000_0000)
  }

  lemma {:induction false} SmallIdsFound(persons: Persons, id: i64)
    requires SmallIds(persons) && 0 <= id < EXTERNAL_RANGE
    ensures EncodeVid(PERSON_LABEL, id) in persons ==> IsPerson(persons, id)
  {
    if EncodeVid(PERSON_LABEL, id) in persons {
      EncodeCollides(PERSON_LABEL, id, persons[EncodeVid(PERSON_LABEL, id)]);
    }
  }

  lemma {:induction false} SafeIdsNotMistaken(persons: Persons, person1: i64, person2: i64)
    requires SmallIds(persons) && SafeIds(person1, person2)
    ensures NotMistaken(persons, person1, person2)
  {
    EncodeCollides(PERSON_LABEL, person1, person2);
    if person1 % EXTERNAL_RANGE != person2 % EXTERNAL_RANGE {
      SmallIdsFound(persons, person1);
      SmallIdsFound(persons, person2);
    }
  }

  /** Ids that fail the check are aliases of two persons who may know each other. */
  lemma {:induction false} MistakenStore(person1: i64, person2: i64) returns (g: Graph, persons: Persons)
    requires !SafeIds(person1, person2)
    ensures SmallIds(persons) && Returned(g, persons, person1, person2, 1)
    ensures !RightAnswer(g, persons, person1, person2, 1)
  {
    var a, b := person1 % EXTERNAL_RANGE, person2 % EXTERNAL_RANGE;
    EncodeCollides(PERSON_LABEL, a, b);
    EncodeCollides(PERSON_LABEL, person1, a);
    EncodeCollides(PERSON_LABEL, person2, b);
    hide EncodeVid;
    var start, goal := EncodeVid(PERSON_LABEL, a), EncodeVid(PERSON_LABEL, b);
    g, persons := map[start := [goal]], map[start := a, goal := b];
    NeighborsAnswer(g, start, goal);
    hide Answers, Neighbors;
  }

  /**
   * Over all such stores and all graphs the query is right exactly for ids that share a vertex, equal ids among them,
   * or both have 56 bits themselves.
   */
  lemma {:induction false} RightForEveryStore(person1: i64, person2: i64)
    ensures (forall g: Graph, persons: Persons, length: int ::
              SmallIds(persons) && Returned(g, persons, person1, person2, length) ==>
                RightAnswer(g, persons, person1, person2, length))
            <==> SafeIds(person1, person2)
  {
    hide RightAnswer, Returned, EncodeVid, SmallIds;
    if SafeIds(person1, person2) {
      forall g: Graph, persons: Persons, length: int | SmallIds(persons) && Returned(g, persons, person1, person2, length)
        ensures RightAnswer(g, persons, person1, person2, length)
      {
        SafeIdsNotMistaken(persons, person1, person2);
        RightForEveryGraph(persons, person1, person2);
      }
    } else {
      var g, persons := MistakenStore(person1, person2);
    }
  }

  /** Persons 1 and 2 know each other; the id 2^56 + 1 names nobody, yet the query answers 1 for it instead of -1. */
  lemma {:induction false} AliasIsTakenForPerson()
    ensures var v, w := EncodeVid(PERSON_LABEL, 1), EncodeVid(PERSON_LABEL, 2);
            var persons: Persons, g: Graph := map[v := 1, w := 2], map[v := [w], w := [v]];
            var alias := EXTERNAL_RANGE + 1;
            && SmallIds(persons) && IsPerson(persons, 1) && IsPerson(persons, 2) && !IsPerson(persons, alias)
            && (forall length :: Returned(g, persons, alias, 2, length) <==> length == 1)
            && (forall length :: RightAnswer(g, persons, alias, 2, length) <==> length == -1)
  {
    var v, w := EncodeVid(PERSON_LABEL, 1), EncodeVid(PERSON_LABEL, 2);
    var g: Graph := map[v := [w], w := [v]];
    EncodeCollides(PERSON_LABEL, 1, EXTERNAL_RANGE + 1);
    EncodeCollides(PERSON_LABEL, 1, 2);
    NeighborsAnswer(g, v, w);
    AnswerUnique(g, v, w, 1);
  }
}
