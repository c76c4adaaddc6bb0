/** Cached adjacency lists: built from an import stream, from a scan, or from a reloaded cache and later updates. */
module Adjacency {
  import opened Types
  import opened Lists
  import opened Sorting
  import opened Merge
  import opened KnowsGraph
  import opened ShortestPaths
  import opened Store
  import Runs
  import opened FlushSegments

  datatype Stamped = Stamped(dst: u64, ts: u64)

  type Grouped = map<(u64, i32), seq<Stamped>>

  type AdjacencyMap = map<(u64, i32), seq<u64>>

  /** Destination ascending, newest first. */
  predicate ByDst(a: Stamped, b: Stamped) {
    a.dst < b.dst || (a.dst == b.dst && a.ts >= b.ts)
  }

  /** Newest first, destination ascending. */
  predicate ByNewest(a: Stamped, b: Stamped) {
    a.ts > b.ts || (a.ts == b.ts && a.dst <= b.dst)
  }

  function Dedup(s: seq<Stamped>): seq<Stamped> {
    if s == [] then []
    else
      var n := |s| - 1;
      var kept := Dedup(s[..n]);
      if kept != [] && kept[|kept| - 1].dst == s[n].dst then kept else kept + [s[n]]
  }

  function Dsts(s: seq<Stamped>): seq<u64> {
    seq(|s|, i requires 0 <= i < |s| => s[i].dst)
  }

  /** What `build` makes of one group. */
  function BuildList(group: seq<Stamped>): seq<u64> {
    Dsts(SortBy(ByNewest, Dedup(SortBy(ByDst, group))))
  }

  function BuildAll(grouped: Grouped): AdjacencyMap {
    map k | k in grouped :: BuildList(grouped[k])
  }

  // ------------------------------------------------------- what a list means

  /** The newest timestamp recorded for a destination, -1 for none. */
  function LatestTs(s: seq<Stamped>, dst: u64): (t: int)
    ensures -1 <= t <= U64_MAX
  {
    if s == [] then -1
    else
      var n := |s| - 1;
      var before := LatestTs(s[..n], dst);
      if s[n].dst == dst && s[n].ts > before then s[n].ts else before
  }

  ghost predicate NewerFirst(s: seq<Stamped>, a: u64, b: u64) {
    LatestTs(s, a) > LatestTs(s, b) || (LatestTs(s, a) == LatestTs(s, b) && a <= b)
  }

  /** Every recorded destination once, the most recently recorded first. */
  ghost predicate IsNeighborList(s: seq<Stamped>, out: seq<u64>) {
    && Distinct(out)
    && (forall d: u64 :: d in out <==> LatestTs(s, d) >= 0)
    && (forall i, j :: 0 <= i < j < |out| ==> NewerFirst(s, out[i], out[j]))
  }

  lemma {:induction false} LatestTsMeaning(s: seq<Stamped>, dst: u64)
    ensures var t := LatestTs(s, dst);
            && t >= -1 && (t >= 0 ==> t <= U64_MAX && Stamped(dst, t) in s)
            && (forall i :: 0 <= i < |s| && s[i].dst == dst ==> s[i].ts <= t)
  {
    if s != [] {
      LatestTsMeaning(s[..|s| - 1], dst);
      assert s == s[..|s| - 1] + [s[|s| - 1]];
    }
  }

  lemma {:induction false} NoneRecorded(s: seq<Stamped>, dst: u64)
    requires forall i :: 0 <= i < |s| ==> s[i].dst != dst
    ensures LatestTs(s, dst) == -1
  {
    if s != [] {
      NoneRecorded(s[..|s| - 1], dst);
    }
  }

  /** The newest timestamp depends only on which entries there are. */
  lemma {:induction false} LatestTsByElements(a: seq<Stamped>, b: seq<Stamped>, dst: u64)
    requires forall x :: x in a && x.dst == dst ==> x in b
    requires forall x :: x in b && x.dst == dst ==> x in a
    ensures LatestTs(a, dst) == LatestTs(b, dst)
  {
    LatestTsMeaning(a, dst);
    LatestTsMeaning(b, dst);
    LatestTsAtLeast(a, b, dst);
    LatestTsAtLeast(b, a, dst);
  }

  lemma {:induction false} LatestTsAtLeast(a: seq<Stamped>, b: seq<Stamped>, dst: u64)
    requires forall x :: x in a && x.dst == dst ==> x in b
    ensures LatestTs(a, dst) <= LatestTs(b, dst)
  {
    LatestTsMeaning(a, dst);
    LatestTsMeaning(b, dst);
    if LatestTs(a, dst) >= 0 {
      assert Stamped(dst, LatestTs(a, dst)) in b;
    }
  }

  lemma {:induction false} LatestTsAppend(a: seq<Stamped>, b: seq<Stamped>, dst: u64)
    ensures LatestTs(a + b, dst) == if LatestTs(b, dst) > LatestTs(a, dst) then LatestTs(b, dst) else LatestTs(a, dst)
  {
    if b == [] {
      LatestTsMeaning(a, dst);
      assert a + b == a;
    } else {
      var n := |b| - 1;
      LatestTsAppend(a, b[..n], dst);
      assert (a + b)[..|a| + n] == a + b[..n] && (a + b)[|a| + n] == b[n];
      LatestTsMeaning(b[..n], dst);
    }
  }

  /** Deduplicating a list in (destination, newest first) order keeps the newest entry of every destination. */
  ghost predicate Kept(s: seq<Stamped>, kept: seq<Stamped>) {
    && (forall i, j :: 0 <= i < j < |kept| ==> kept[i].dst < kept[j].dst)
    && (forall i :: 0 <= i < |kept| ==> kept[i].ts == LatestTs(s, kept[i].dst))
    && (forall d: u64 :: LatestTs(s, d) >= 0 ==> Stamped(d, LatestTs(s, d)) in kept)
    && (s != [] ==> kept != [] && kept[|kept| - 1].dst == s[|s| - 1].dst)
  }

  lemma {:induction false} DedupKeeps(s: seq<Stamped>)
    requires SortedBy(ByDst, s)
    ensures Kept(s, Dedup(s))
  {
    if s != [] {
      var n := |s| - 1;
      DedupKeeps(s[..n]);
      KeepOne(s, Dedup(s[..n]));
    }
  }

  lemma {:induction false} KeepOne(s: seq<Stamped>, kept: seq<Stamped>)
    requires s != [] && SortedBy(ByDst, s) && Kept(s[..|s| - 1], kept)
    ensures Kept(s, if kept != [] && kept[|kept| - 1].dst == s[|s| - 1].dst then kept else kept + [s[|s| - 1]])
  {
    var n := |s| - 1;
    var e := s[n];
    LatestTsMeaning(s[..n], e.dst);
    if kept != [] && kept[|kept| - 1].dst == e.dst {
      assert ByDst(s[n - 1], e);
      assert s[n - 1].dst == e.dst;
      assert LatestTs(s[..n], e.dst) >= s[..n][n - 1].ts;
      assert LatestTs(s, e.dst) == LatestTs(s[..n], e.dst);
      KeptSame(s, kept);
    } else {
      forall i | 0 <= i < |s[..n]|
        ensures s[..n][i].dst != e.dst
      {
        assert i < n - 1 ==> ByDst(s[i], s[n - 1]);
        assert ByDst(s[n - 1], s[n]);
      }
      NoneRecorded(s[..n], e.dst);
      KeptMore(s, kept);
    }
  }

  lemma {:induction false} KeptSame(s: seq<Stamped>, kept: seq<Stamped>)
    requires s != [] && Kept(s[..|s| - 1], kept) && kept != [] && kept[|kept| - 1].dst == s[|s| - 1].dst
    requires LatestTs(s, s[|s| - 1].dst) == LatestTs(s[..|s| - 1], s[|s| - 1].dst)
    ensures Kept(s, kept)
  {
    forall d: u64
      ensures LatestTs(s, d) == LatestTs(s[..|s| - 1], d)
    {
    }
  }

  lemma {:induction false} KeptMore(s: seq<Stamped>, kept: seq<Stamped>)
    requires s != [] && SortedBy(ByDst, s) && Kept(s[..|s| - 1], kept)
    requires LatestTs(s[..|s| - 1], s[|s| - 1].dst) == -1
    ensures Kept(s, kept + [s[|s| - 1]])
  {
    var n := |s| - 1;
    var e := s[n];
    var more := kept + [e];
    assert LatestTs(s, e.dst) == e.ts;
    forall d: u64 | d != e.dst
      ensures LatestTs(s, d) == LatestTs(s[..n], d)
    {
    }
    forall i | 0 <= i < |kept|
      ensures kept[i].dst < e.dst
    {
      assert kept[i].dst <= kept[|kept| - 1].dst == s[n - 1].dst;
      assert ByDst(s[n - 1], s[n]);
      LatestTsMeaning(s[..n], kept[i].dst);
      assert kept[i].dst != e.dst;
    }
    forall d: u64 | LatestTs(s, d) >= 0
      ensures Stamped(d, LatestTs(s, d)) in more
    {
      if d == e.dst {
        assert more[|kept|] == e;
      } else {
        assert Stamped(d, LatestTs(s[..n], d)) in kept;
      }
    }
  }

  lemma {:induction false} OrdersAreTotal()
    ensures TotalPreorder(ByDst) && TotalPreorder(ByNewest)
  {
  }

  /** `build` lists every recorded destination once, the most recently recorded first. */
  lemma {:induction false} BuildListMeaning(group: seq<Stamped>)
    ensures IsNeighborList(group, BuildList(group))
  {
    OrdersAreTotal();
    var byDst := SortBy(ByDst, group);
    SortBySorted(ByDst, group);
    SortByElements(ByDst, group);
    forall d: u64
      ensures LatestTs(byDst, d) == LatestTs(group, d)
    {
      LatestTsByElements(byDst, group, d);
    }
    var kept := Dedup(byDst);
    DedupKeeps(byDst);
    var newest := SortBy(ByNewest, kept);
    SortBySorted(ByNewest, kept);
    SortByElements(ByNewest, kept);
    SortByMultiset(ByNewest, kept);
    hide SortBy, Dedup, LatestTs;
    ReadsAsNeighborList(group, byDst, kept, newest);
  }

  lemma {:induction false} ReadsAsNeighborList(group: seq<Stamped>, byDst: seq<Stamped>, kept: seq<Stamped>, newest: seq<Stamped>)
    requires forall d: u64 :: LatestTs(byDst, d) == LatestTs(group, d)
    requires Kept(byDst, kept) && SortedBy(ByNewest, newest) && multiset(newest) == multiset(kept)
    requires forall x :: x in newest <==> x in kept
    ensures IsNeighborList(group, Dsts(newest))
  {
    hide LatestTs;
    var out := Dsts(newest);
    assert Distinct(kept);
    DistinctPermutation(kept, newest);
    forall i | 0 <= i < |newest|
      ensures newest[i].ts == LatestTs(group, newest[i].dst)
    {
      assert newest[i] in kept;
    }
    forall i, j | 0 <= i < j < |out|
      ensures out[i] != out[j] && NewerFirst(group, out[i], out[j])
    {
      assert ByNewest(newest[i], newest[j]);
      assert newest[i] in newest && newest[j] in newest;
      KeptApart(byDst, kept, newest[i], newest[j]);
    }
    forall d: u64
      ensures d in out <==> LatestTs(group, d) >= 0
    {
      if LatestTs(group, d) >= 0 {
        var i :| 0 <= i < |newest| && newest[i] == Stamped(d, LatestTs(group, d));
        assert out[i] == d;
      }
    }
  }

  /** Different entries of the kept list have different destinations. */
  lemma {:induction false} KeptApart(s: seq<Stamped>, kept: seq<Stamped>, x: Stamped, y: Stamped)
    requires Kept(s, kept) && x in kept && y in kept && x != y
    ensures x.dst != y.dst
  {
    hide LatestTs;
    var a :| 0 <= a < |kept| && kept[a] == x;
    var b :| 0 <= b < |kept| && kept[b] == y;
    assert a < b || b < a;
  }

  /** A neighbour list is determined by what was recorded. */
  lemma {:induction false} NeighborListUnique(s: seq<Stamped>, a: seq<u64>, b: seq<u64>)
    requires IsNeighborList(s, a) && IsNeighborList(s, b)
    ensures a == b
  {
    hide LatestTs;
    var le := (x: u64, y: u64) => NewerFirst(s, x, y);
    assert TotalPreorder(le);
    SameOnce(a, b);
    SortedUnique(le, a, b);
  }

  // ------------------------------------------------------------------ recording

  function GroupAt(grouped: Grouped, k: (u64, i32)): seq<Stamped> {
    if k in grouped then grouped[k] else []
  }

  function Record(grouped: Grouped, k: (u64, i32), x: Stamped): Grouped {
    grouped[k := GroupAt(grouped, k) + [x]]
  }

  function RecordAll(grouped: Grouped, edges: seq<Edge>): Grouped {
    if edges == [] then grouped
    else
      var e := edges[|edges| - 1];
      Record(RecordAll(grouped, edges[..|edges| - 1]), (e.src, e.edgeType), Stamped(e.dst, e.ts))
  }

  /** The entries a list of records adds to one group. */
  function GroupOf(edges: seq<Edge>, k: (u64, i32)): seq<Stamped> {
    if edges == [] then []
    else
      var e := edges[|edges| - 1];
      GroupOf(edges[..|edges| - 1], k) + if (e.src, e.edgeType) == k then [Stamped(e.dst, e.ts)] else []
  }

  lemma {:induction false} RecordAllGroups(grouped: Grouped, edges: seq<Edge>)
    ensures forall k :: GroupAt(RecordAll(grouped, edges), k) == GroupAt(grouped, k) + GroupOf(edges, k)
    ensures (forall k :: k in grouped ==> grouped[k] != []) ==>
            forall k :: k in RecordAll(grouped, edges) <==> GroupAt(grouped, k) + GroupOf(edges, k) != []
  {
    if edges != [] {
      var n := |edges| - 1;
      RecordAllGroups(grouped, edges[..n]);
    }
  }

  lemma {:induction false} InGroupOf(edges: seq<Edge>, k: (u64, i32), x: Stamped)
    ensures x in GroupOf(edges, k) <==> exists e :: e in edges && (e.src, e.edgeType) == k && x == Stamped(e.dst, e.ts)
  {
    if edges != [] {
      var n := |edges| - 1;
      InGroupOf(edges[..n], k, x);
      assert edges == edges[..n] + [edges[n]];
      assert edges[n] in edges;
    }
  }

  /** Recording agrees on a group when the same newest entries are recorded in it. */
  ghost predicate SameLatest(a: seq<Stamped>, b: seq<Stamped>) {
    forall d: u64 :: LatestTs(a, d) == LatestTs(b, d)
  }

  lemma {:induction false} SameList(a: seq<Stamped>, b: seq<Stamped>)
    requires SameLatest(a, b)
    ensures BuildList(a) == BuildList(b)
  {
    BuildListMeaning(a);
    BuildListMeaning(b);
    hide LatestTs, BuildList;
    NeighborListUnique(a, BuildList(a), BuildList(b));
  }

  lemma {:induction false} EmptyByLatest(s: seq<Stamped>)
    ensures s == [] <==> forall d: u64 :: LatestTs(s, d) == -1
  {
    if s != [] {
      LatestTsMeaning(s, s[0].dst);
      assert s[0].ts <= LatestTs(s, s[0].dst);
    }
  }

  // ------------------------------------------------ first: stream against scan

  /** The adjacency of a history read from its records in order. */
  function AdjacencyOf(edges: seq<Edge>): AdjacencyMap {
    BuildAll(RecordAll(map[], edges))
  }

  ghost predicate InsertOnly(edges: seq<Edge>) {
    forall e :: e in edges ==> e.marker.Insert?
  }

  ghost predicate StampedBetween(edges: seq<Edge>, low: int, high: int) {
    forall e :: e in edges ==> low < e.ts <= high
  }

  lemma {:induction false} ScanSameLatest(history: seq<Edge>, edges: seq<Edge>, snapshot: nat, k: (u64, i32))
    requires InsertOnly(history) && StampedBetween(history, -1, snapshot)
    requires Elements(edges) == View(Elements(history), snapshot)
    ensures SameLatest(GroupOf(edges, k), GroupOf(history, k))
  {
    forall d: u64
      ensures LatestTs(GroupOf(edges, k), d) == LatestTs(GroupOf(history, k), d)
    {
      forall x | x in GroupOf(edges, k)
        ensures x in GroupOf(history, k)
      {
        InGroupOf(edges, k, x);
        InGroupOf(history, k, x);
        var e :| e in edges && (e.src, e.edgeType) == k && x == Stamped(e.dst, e.ts);
        assert e in Elements(edges);
      }
      LatestTsAtLeast(GroupOf(edges, k), GroupOf(history, k), d);
      LatestTsMeaning(GroupOf(history, k), d);
      LatestTsMeaning(GroupOf(edges, k), d);
      if LatestTs(GroupOf(history, k), d) >= 0 {
        NewestIsScanned(history, edges, snapshot, k, d);
      }
    }
  }

  lemma {:induction false} NewestIsScanned(history: seq<Edge>, edges: seq<Edge>, snapshot: nat, k: (u64, i32), d: u64)
    requires InsertOnly(history) && StampedBetween(history, -1, snapshot)
    requires Elements(edges) == View(Elements(history), snapshot) && LatestTs(GroupOf(history, k), d) >= 0
    ensures LatestTs(GroupOf(edges, k), d) >= LatestTs(GroupOf(history, k), d)
  {
    var t := LatestTs(GroupOf(history, k), d);
    LatestTsMeaning(GroupOf(history, k), d);
    InGroupOf(history, k, Stamped(d, t));
    var e :| e in history && (e.src, e.edgeType) == k && Stamped(d, t) == Stamped(e.dst, e.ts);
    forall x | x in Elements(history) && KeyOf(x) == KeyOf(e)
      ensures x.ts <= e.ts
    {
      InGroupOf(history, k, Stamped(x.dst, x.ts));
      LatestTsMeaning(GroupOf(history, k), d);
    }
    assert e in Elements(history);
    assert IsLatest(e, Elements(history), snapshot);
    assert e in Elements(edges);
    InGroupOf(edges, k, Stamped(d, t));
    LatestTsMeaning(GroupOf(edges, k), d);
  }

  /** For insert-only histories a builder fed a scan makes the lists of a builder fed the import stream. */
  lemma {:induction false} ScanAgrees(history: seq<Edge>, edges: seq<Edge>, snapshot: nat)
    requires InsertOnly(history) && StampedBetween(history, -1, snapshot)
    requires Elements(edges) == View(Elements(history), snapshot)
    ensures AdjacencyOf(edges) == AdjacencyOf(history)
  {
    RecordAllGroups(map[], edges);
    RecordAllGroups(map[], history);
    forall k
      ensures k in RecordAll(map[], edges) <==> k in RecordAll(map[], history)
      ensures BuildList(GroupAt(RecordAll(map[], edges), k)) == BuildList(GroupAt(RecordAll(map[], history), k))
    {
      var a, b := GroupOf(edges, k), GroupOf(history, k);
      assert GroupAt(map[], k) + a == a && GroupAt(map[], k) + b == b;
      ScanSameLatest(history, edges, snapshot, k);
      SameList(a, b);
      EmptyByLatest(a);
      EmptyByLatest(b);
    }
    hide RecordAll, BuildList;
    SameBuild(RecordAll(map[], edges), RecordAll(map[], history));
  }

  lemma {:induction false} SameBuild(a: Grouped, b: Grouped)
    requires forall k :: k in a <==> k in b
    requires forall k :: BuildList(GroupAt(a, k)) == BuildList(GroupAt(b, k))
    ensures BuildAll(a) == BuildAll(b)
  {
    hide BuildList;
    forall k | k in a
      ensures BuildAll(a)[k] == BuildAll(b)[k]
    {
      assert GroupAt(a, k) == a[k] && GroupAt(b, k) == b[k];
    }
  }

  // ----------------------------------------------------- second: reload and go on

  /** `saturating_sub`. */
  function SaturatingSub(a: u64, b: nat): u64 {
    if b <= a then a - b else 0
  }

  /** A reloaded list, its entries stamped downward from the newest timestamp. */
  function Restamp(dsts: seq<u64>, max: u64): seq<Stamped> {
    seq(|dsts|, i requires 0 <= i < |dsts| => Stamped(dsts[i], SaturatingSub(max, i)))
  }

  /** What reloading puts in the builder: empty lists leave no group behind. */
  function Reloaded(adjacency: AdjacencyMap, max: u64): Grouped {
    map k | k in adjacency && adjacency[k] != [] :: Restamp(adjacency[k], max)
  }

  lemma {:induction false} RestampLatest(dsts: seq<u64>, max: u64, i: nat)
    requires Distinct(dsts) && i < |dsts|
    ensures LatestTs(Restamp(dsts, max), dsts[i]) == SaturatingSub(max, i)
  {
    hide LatestTs;
    var s := Restamp(dsts, max);
    LatestTsMeaning(s, dsts[i]);
    assert s[i].dst == dsts[i];
    var j :| 0 <= j < |s| && s[j] == Stamped(dsts[i], LatestTs(s, dsts[i]));
    assert dsts[j] == dsts[i];
  }

  lemma {:induction false} RestampNone(dsts: seq<u64>, max: u64, d: u64)
    requires d !in dsts
    ensures LatestTs(Restamp(dsts, max), d) == -1
  {
    NoneRecorded(Restamp(dsts, max), d);
  }

  /** No two destinations of a group share a newest timestamp. */
  ghost predicate NoTies(s: seq<Stamped>) {
    forall a: u64, b: u64 :: LatestTs(s, a) == LatestTs(s, b) >= 0 ==> a == b
  }

  /** Unique timestamps bound a list by the newest of them, so restamping never saturates. */
  lemma {:induction false} NeverSaturates(s: seq<Stamped>, out: seq<u64>, max: u64, i: nat)
    requires IsNeighborList(s, out) && NoTies(s) && i < |out|
    requires forall d: u64 :: LatestTs(s, d) <= max
    ensures LatestTs(s, out[i]) + i <= max
  {
    hide LatestTs;
    if i > 0 {
      NeverSaturates(s, out, max, i - 1);
      assert out[i - 1] in out && out[i] in out;
      assert NewerFirst(s, out[i - 1], out[i]);
    }
  }

  lemma {:induction false} PositionOrder(s: seq<Stamped>, out: seq<u64>, i: nat, j: nat)
    requires IsNeighborList(s, out) && i < |out| && j < |out| && NewerFirst(s, out[i], out[j])
    ensures i <= j
  {
    hide LatestTs;
  }

  /** Reloading keeps the order of the old entries below every later one. */
  lemma {:induction false} ReloadKeepsOrder(s1: seq<Stamped>, s2: seq<Stamped>, old1: seq<u64>, max: u64, a: u64, b: u64)
    requires IsNeighborList(s1, old1) && NoTies(s1) && (forall d: u64 :: LatestTs(s1, d) <= max)
    requires forall i :: 0 <= i < |s2| ==> s2[i].ts > max
    requires LatestTs(s1 + s2, a) >= 0 && LatestTs(s1 + s2, b) >= 0
    requires NewerFirst(s1 + s2, a, b)
    ensures NewerFirst(Restamp(old1, max) + s2, a, b)
  {
    hide LatestTs;
    var r := Restamp(old1, max);
    LatestTsAppend(s1, s2, a);
    LatestTsAppend(s1, s2, b);
    LatestTsAppend(r, s2, a);
    LatestTsAppend(r, s2, b);
    LaterAbove(s2, max, a);
    LaterAbove(s2, max, b);
    RestampAtMost(old1, max, a);
    RestampAtMost(old1, max, b);
    if LatestTs(s2, a) == -1 && LatestTs(s2, b) == -1 {
      var i :| 0 <= i < |old1| && old1[i] == a;
      var j :| 0 <= j < |old1| && old1[j] == b;
      RestampLatest(old1, max, i);
      RestampLatest(old1, max, j);
      NeverSaturates(s1, old1, max, i);
      NeverSaturates(s1, old1, max, j);
      PositionOrder(s1, old1, i, j);
    }
  }

  lemma {:induction false} LaterAbove(s: seq<Stamped>, max: u64, d: u64)
    requires forall i :: 0 <= i < |s| ==> s[i].ts > max
    ensures LatestTs(s, d) == -1 || LatestTs(s, d) > max
  {
    LatestTsMeaning(s, d);
  }

  lemma {:induction false} RestampAtMost(dsts: seq<u64>, max: u64, d: u64)
    requires Distinct(dsts)
    ensures -1 <= LatestTs(Restamp(dsts, max), d) <= max
    ensures LatestTs(Restamp(dsts, max), d) >= 0 <==> d in dsts
  {
    hide LatestTs;
    if d in dsts {
      var i :| 0 <= i < |dsts| && dsts[i] == d;
      RestampLatest(dsts, max, i);
    } else {
      RestampNone(dsts, max, d);
    }
  }

  /** One group: reloaded and continued, it lists what it would have listed without the reload. */
  lemma {:induction false} ReloadedList(s1: seq<Stamped>, s2: seq<Stamped>, max: u64)
    requires NoTies(s1) && (forall d: u64 :: LatestTs(s1, d) <= max)
    requires forall i :: 0 <= i < |s2| ==> s2[i].ts > max
    ensures BuildList(Restamp(BuildList(s1), max) + s2) == BuildList(s1 + s2)
  {
    var old1 := BuildList(s1);
    var r := Restamp(old1, max) + s2;
    var out := BuildList(s1 + s2);
    BuildListMeaning(s1);
    BuildListMeaning(s1 + s2);
    BuildListMeaning(r);
    hide LatestTs, BuildList, Restamp, NewerFirst;
    forall d: u64
      ensures d in out <==> LatestTs(r, d) >= 0
    {
      LatestTsAppend(s1, s2, d);
      LatestTsAppend(Restamp(old1, max), s2, d);
      RestampAtMost(old1, max, d);
    }
    forall i, j | 0 <= i < j < |out|
      ensures NewerFirst(r, out[i], out[j])
    {
      assert out[i] in out && out[j] in out;
      ReloadKeepsOrder(s1, s2, old1, max, out[i], out[j]);
    }
    NeighborListUnique(r, BuildList(r), out);
  }

  /** Unique timestamps leave no ties in any group. */
  lemma {:induction false} UniqueNoTies(edges: seq<Edge>, k: (u64, i32))
    requires TsUnique(Elements(edges))
    ensures NoTies(GroupOf(edges, k))
  {
    hide LatestTs;
    var s := GroupOf(edges, k);
    forall a: u64, b: u64 | LatestTs(s, a) == LatestTs(s, b) >= 0
      ensures a == b
    {
      var t := LatestTs(s, a);
      LatestTsMeaning(s, a);
      LatestTsMeaning(s, b);
      InGroupOf(edges, k, Stamped(a, t));
      InGroupOf(edges, k, Stamped(b, t));
      var e :| e in edges && (e.src, e.edgeType) == k && Stamped(a, t) == Stamped(e.dst, e.ts);
      var f :| f in edges && (f.src, f.edgeType) == k && Stamped(b, t) == Stamped(f.dst, f.ts);
      assert e in Elements(edges) && f in Elements(edges);
    }
  }

  lemma {:induction false} GroupOfAppend(a: seq<Edge>, b: seq<Edge>, k: (u64, i32))
    ensures GroupOf(a + b, k) == GroupOf(a, k) + GroupOf(b, k)
  {
    if b == [] {
      assert a + b == a;
    } else {
      var n := |b| - 1;
      GroupOfAppend(a, b[..n], k);
      assert (a + b)[..|a| + n] == a + b[..n] && (a + b)[|a| + n] == b[n];
    }
  }

  lemma {:induction false} GroupBounds(edges: seq<Edge>, k: (u64, i32), low: int, high: int)
    requires StampedBetween(edges, low, high) && high >= -1
    ensures forall i :: 0 <= i < |GroupOf(edges, k)| ==> low < GroupOf(edges, k)[i].ts <= high
    ensures forall d: u64 :: LatestTs(GroupOf(edges, k), d) <= high
  {
    hide LatestTs;
    var s := GroupOf(edges, k);
    forall i | 0 <= i < |s|
      ensures low < s[i].ts <= high
    {
      InGroupOf(edges, k, s[i]);
    }
    forall d: u64
      ensures LatestTs(s, d) <= high
    {
      LatestTsMeaning(s, d);
    }
  }

  lemma {:induction false} ReloadGroup(past: seq<Edge>, later: seq<Edge>, max: u64, k: (u64, i32))
    requires TsUnique(Elements(past)) && StampedBetween(past, -1, max) && StampedBetween(later, max, U64_MAX)
    ensures var again := RecordAll(Reloaded(AdjacencyOf(past), max), later);
            && (k in again <==> k in RecordAll(map[], past + later))
            && BuildList(GroupAt(again, k)) == BuildList(GroupAt(RecordAll(map[], past + later), k))
  {
    hide BuildList, LatestTs;
    var s1, s2 := GroupOf(past, k), GroupOf(later, k);
    var reloaded := Reloaded(AdjacencyOf(past), max);
    RecordAllGroups(map[], past);
    RecordAllGroups(map[], past + later);
    RecordAllGroups(reloaded, later);
    GroupOfAppend(past, later, k);
    hide RecordAll;
    assert GroupAt(map[], k) + s1 == s1 && GroupAt(map[], k) + (s1 + s2) == s1 + s2;
    UniqueNoTies(past, k);
    GroupBounds(past, k, -1, max);
    GroupBounds(later, k, max, U64_MAX);
    ReloadedList(s1, s2, max);
    ReloadedAt(past, max, k);
  }

  /** A group is listed exactly when something was recorded in it. */
  lemma {:induction false} ListedWhenRecorded(s: seq<Stamped>)
    ensures s == [] <==> BuildList(s) == []
  {
    BuildNothing();
    BuildListMeaning(s);
    if s != [] {
      LatestTsMeaning(s, s[0].dst);
      hide LatestTs, BuildList;
      assert s[0].dst in BuildList(s);
    }
  }

  lemma {:induction false} ReloadedAt(past: seq<Edge>, max: u64, k: (u64, i32))
    ensures GroupAt(Reloaded(AdjacencyOf(past), max), k) == Restamp(BuildList(GroupOf(past, k)), max)
    ensures GroupOf(past, k) == [] <==> BuildList(GroupOf(past, k)) == []
  {
    hide BuildList, RecordAll, GroupOf, Restamp;
    var s := GroupOf(past, k);
    RecordAllGroups(map[], past);
    assert GroupAt(map[], k) + s == s;
    ListedWhenRecorded(s);
    if s == [] {
      assert Restamp([], max) == [] by { RestampNothing(max); }
    }
  }

  lemma {:induction false} RestampNothing(max: u64)
    ensures Restamp([], max) == []
  {
  }

  lemma {:induction false} BuildNothing()
    ensures BuildList([]) == []
  {
  }

  /** A cache reloaded at a clock no older than its records, then fed later updates, agrees with one unbroken stream. */
  lemma {:induction false} ReloadAgrees(past: seq<Edge>, later: seq<Edge>, max: u64)
    requires TsUnique(Elements(past)) && StampedBetween(past, -1, max) && StampedBetween(later, max, U64_MAX)
    ensures BuildAll(RecordAll(Reloaded(AdjacencyOf(past), max), later)) == AdjacencyOf(past + later)
  {
    hide BuildList, RecordAll;
    var again, whole := RecordAll(Reloaded(AdjacencyOf(past), max), later), RecordAll(map[], past + later);
    forall k
      ensures k in again <==> k in whole
      ensures BuildList(GroupAt(again, k)) == BuildList(GroupAt(whole, k))
    {
      ReloadGroup(past, later, max, k);
    }
    hide AdjacencyOf;
    SameBuild(again, whole);
    assert AdjacencyOf(past + later) == BuildAll(whole) by { AdjacencyUnfold(past + later); }
  }

  lemma {:induction false} AdjacencyUnfold(edges: seq<Edge>)
    ensures AdjacencyOf(edges) == BuildAll(RecordAll(map[], edges))
  {
  }

  // ------------------------------------------------------- reloading by itself

  /** Past the position the timestamps run out at, where all entries are stamped 0, destinations must ascend. */
  ghost predicate TailAscends(dsts: seq<u64>, max: u64) {
    forall i, j :: max <= i < j < |dsts| ==> dsts[i] < dsts[j]
  }

  /** A list is rebuilt as it was exactly when it has no duplicates and its tail ascends. */
  lemma {:induction false} ReloadedListIff(dsts: seq<u64>, max: u64)
    ensures BuildList(Restamp(dsts, max)) == dsts <==> Distinct(dsts) && TailAscends(dsts, max)
  {
    var s := Restamp(dsts, max);
    BuildListMeaning(s);
    hide BuildList, LatestTs, Restamp;
    if Distinct(dsts) {
      forall i | 0 <= i < |dsts|
        ensures LatestTs(s, dsts[i]) == SaturatingSub(max, i)
      {
        RestampLatest(dsts, max, i);
      }
      if BuildList(s) == dsts {
        forall i, j | max <= i < j < |dsts|
          ensures dsts[i] < dsts[j]
        {
          assert NewerFirst(s, dsts[i], dsts[j]);
        }
      }
      if TailAscends(dsts, max) {
        forall d: u64
          ensures d in dsts <==> LatestTs(s, d) >= 0
        {
          RestampAtMost(dsts, max, d);
        }
        NeighborListUnique(s, BuildList(s), dsts);
      }
    }
  }

  /** Reloading and building gives an adjacency back exactly when no list is empty, repeats itself or has a falling tail. */
  lemma {:induction false} ReloadIsIdentityIff(adjacency: AdjacencyMap, max: u64)
    ensures BuildAll(Reloaded(adjacency, max)) == adjacency <==>
            forall k :: k in adjacency ==> adjacency[k] != [] && Distinct(adjacency[k]) && TailAscends(adjacency[k], max)
  {
    hide BuildList, Restamp, TailAscends, Distinct;
    var built := BuildAll(Reloaded(adjacency, max));
    forall k | k in adjacency
      ensures k in built <==> adjacency[k] != []
      ensures k in built ==> (built[k] == adjacency[k] <==> Distinct(adjacency[k]) && TailAscends(adjacency[k], max))
    {
      ReloadedListIff(adjacency[k], max);
    }
  }

  /** An empty list does not come back: its key is lost. */
  lemma {:induction false} EmptyListIsLost(k: (u64, i32), max: u64)
    ensures BuildAll(Reloaded(map[k := []], max)) == map[]
  {
  }

  lemma {:induction false} TwoAtZero(a: u64, b: u64, d: u64)
    ensures LatestTs([Stamped(a, 0), Stamped(b, 0)], d) == if d == a || d == b then 0 else -1
  {
    var s := [Stamped(a, 0), Stamped(b, 0)];
    assert s[..1] == [Stamped(a, 0)];
    assert [Stamped(a, 0)][..0] == [];
    assert LatestTs([Stamped(a, 0)], d) == if d == a then 0 else -1;
  }

  /** Two entries reloaded at clock 0 are both stamped 0, so they come back in ascending order. */
  lemma {:induction false} SaturatedListIsReordered(k: (u64, i32))
    ensures BuildAll(Reloaded(map[k := [5, 3]], 0)) == map[k := [3, 5]]
  {
    hide BuildList, LatestTs;
    var s := Restamp([5, 3], 0);
    assert s == [Stamped(5, 0), Stamped(3, 0)];
    hide Restamp;
    BuildListMeaning(s);
    forall d: u64
      ensures LatestTs(s, d) == if d == 5 || d == 3 then 0 else -1
    {
      TwoAtZero(5, 3, d);
    }
    NeighborListUnique(s, BuildList(s), [3, 5]);
  }

  /** A built adjacency has neither empty lists nor duplicates. */
  lemma {:induction false} BuiltListsAreProper(edges: seq<Edge>, k: (u64, i32))
    requires k in AdjacencyOf(edges)
    ensures AdjacencyOf(edges)[k] != [] && Distinct(AdjacencyOf(edges)[k])
  {
    var s := RecordAll(map[], edges)[k];
    RecordAllGroups(map[], edges);
    assert GroupAt(RecordAll(map[], edges), k) == s;
    BuildListMeaning(s);
    hide BuildList, RecordAll;
    ListedWhenRecorded(s);
  }

  /** The graph of one edge type. */
  function GraphOf(adjacency: AdjacencyMap, edgeType: i32): Graph {
    map k | k in adjacency && k.1 == edgeType :: k.0 := adjacency[k]
  }

  lemma {:induction false} KnowsListsDistinct(edges: seq<Edge>, edgeType: i32)
    ensures DistinctLists(GraphOf(AdjacencyOf(edges), edgeType))
  {
    hide AdjacencyOf;
    var g := GraphOf(AdjacencyOf(edges), edgeType);
    forall v: u64
      ensures Distinct(Neighbors(g, v))
    {
      if v in g {
        var k :| k in AdjacencyOf(edges) && k.1 == edgeType && k.0 == v;
        assert k == (v, edgeType);
        BuiltListsAreProper(edges, k);
      }
    }
  }

  /** After any run of the engine whose surviving log only inserts, a scan gives the adjacency of that log. */
  lemma {:induction false} EngineScanAgrees(c: Config, ops: seq<Op>, s: State, h: History, snapshot: nat, stream: seq<Edge>)
    requires Runs.Runs(c, Init(c), History({}, {}, 0), ops, s, h) && h.floor <= snapshot
    requires Elements(stream) == h.log && InsertOnly(stream) && StampedBetween(stream, -1, snapshot)
    ensures AdjacencyOf(Scan(s, snapshot)) == AdjacencyOf(stream)
  {
    hide AdjacencyOf, View, Scan;
    Runs.EveryRunReadsItsLog(c, ops, s, h, snapshot);
    ScanAgrees(stream, Scan(s, snapshot), snapshot);
  }

  // ------------------------------------------------------------------ the builder

  /** Summed lengths of the lists of a map. */
  ghost function TotalLength<V>(lists: map<(u64, i32), seq<V>>): nat
    decreases |lists|
  {
    if lists == map[] then 0
    else
      var k :| k in lists;
      |lists[k]| + TotalLength(lists - {k})
  }

  lemma {:induction false} TotalWithout<V>(lists: map<(u64, i32), seq<V>>, k: (u64, i32))
    requires k in lists
    ensures TotalLength(lists) == |lists[k]| + TotalLength(lists - {k})
    decreases |lists|
  {
    var k0 :| k0 in lists && TotalLength(lists) == |lists[k0]| + TotalLength(lists - {k0});
    if k0 != k {
      TotalWithout(lists - {k0}, k);
      TotalWithout(lists - {k}, k0);
      assert lists - {k0} - {k} == lists - {k} - {k0};
    }
  }

  lemma {:induction false} TotalWith<V>(lists: map<(u64, i32), seq<V>>, k: (u64, i32), list: seq<V>)
    requires k !in lists
    ensures TotalLength(lists[k := list]) == TotalLength(lists) + |list|
  {
    TotalWithout(lists[k := list], k);
    assert lists[k := list] - {k} == lists;
  }

  lemma {:induction false} RecordCounts(grouped: Grouped, k: (u64, i32), x: Stamped)
    ensures TotalLength(Record(grouped, k, x)) == TotalLength(grouped) + 1
  {
    var more := Record(grouped, k, x);
    TotalWithout(more, k);
    assert more - {k} == grouped - {k};
    if k in grouped {
      TotalWithout(grouped, k);
    } else {
      assert grouped - {k} == grouped;
    }
  }

  lemma {:induction false} RestampStep(before: Grouped, k: (u64, i32), dsts: seq<u64>, max: u64, idx: nat)
    requires k !in before && idx < |dsts|
    ensures var all := Restamp(dsts, max);
            Record(if idx == 0 then before else before[k := all[..idx]], (k.0, k.1), Stamped(dsts[idx], SaturatingSub(max, idx)))
            == before[k := all[..idx + 1]]
  {
    var all := Restamp(dsts, max);
    assert all[..idx + 1] == all[..idx] + [all[idx]];
  }

  method DedupByDst(s: seq<Stamped>) returns (kept: seq<Stamped>)
    ensures kept == Dedup(s)
  {
    kept := [];
    for i := 0 to |s|
      invariant kept == Dedup(s[..i])
    {
      assert s[..i + 1][..i] == s[..i];
      if kept == [] || kept[|kept| - 1].dst != s[i].dst {
        kept := kept + [s[i]];
      }
    }
    assert s[..|s|] == s;
  }

  lemma {:induction false} DedupShrinks(s: seq<Stamped>)
    ensures |Dedup(s)| <= |s|
  {
    if s != [] {
      DedupShrinks(s[..|s| - 1]);
    }
  }

  /** Sorts, deduplicates and sorts one group again. */
  method BuildGroup(group: seq<Stamped>) returns (list: seq<u64>, removed: nat)
    ensures list == BuildList(group) && |list| + removed == |group|
  {
    hide SortBy, Dedup;
    var dsts := SortBy(ByDst, group);
    SortByMultiset(ByDst, group);
    DedupShrinks(dsts);
    dsts := DedupByDst(dsts);
    removed := |group| - |dsts|;
    SortByMultiset(ByNewest, dsts);
    dsts := SortBy(ByNewest, dsts);
    list := Dsts(dsts);
  }

  class AdjacencyBuilder {
    var grouped: Grouped
    var directedEdges: nat

    ghost predicate Valid()
      reads this
    {
      directedEdges == TotalLength(grouped)
    }

    constructor ()
      ensures Valid() && grouped == map[]
    {
      grouped, directedEdges := map[], 0;
    }

    /** Continues from a reloaded adjacency, groups taken in any order. */
    constructor FromAdjacency(adjacency: AdjacencyMap, maxExistingTs: u64)
      ensures Valid() && grouped == Reloaded(adjacency, maxExistingTs)
    {
      grouped, directedEdges := map[], 0;
      new;
      var pending := adjacency.Keys;
      while pending != {}
        invariant Valid() && pending <= adjacency.Keys
        invariant forall k :: k in grouped <==> k in adjacency && k !in pending && adjacency[k] != []
        invariant forall k :: k in grouped ==> grouped[k] == Restamp(adjacency[k], maxExistingTs)
        decreases |pending|
      {
        var k :| k in pending;
        var dsts := adjacency[k];
        ghost var before := grouped;
        for idx := 0 to |dsts|
          invariant Valid()
          invariant grouped == if idx == 0 then before else before[k := Restamp(dsts, maxExistingTs)[..idx]]
        {
          RestampStep(before, k, dsts, maxExistingTs, idx);
          RecordEdge(k.0, k.1, dsts[idx], SaturatingSub(maxExistingTs, idx));
        }
        assert Restamp(dsts, maxExistingTs)[..|dsts|] == Restamp(dsts, maxExistingTs);
        pending := pending - {k};
      }
    }

    method RecordEdge(src: u64, edgeType: i32, dst: u64, ts: u64)
      requires Valid()
      modifies this
      ensures Valid() && grouped == Record(old(grouped), (src, edgeType), Stamped(dst, ts))
    {
      var k := (src, edgeType);
      RecordCounts(grouped, k, Stamped(dst, ts));
      grouped := grouped[k := (if k in grouped then grouped[k] else []) + [Stamped(dst, ts)]];
      directedEdges := directedEdges + 1;
    }

    /** Lists every group; every recorded entry is either visible or counted as a duplicate. */
    method Build() returns (adjacency: AdjacencyMap, visibleEdges: nat, duplicateEdgesRemoved: nat)
      requires Valid()
      ensures adjacency == BuildAll(grouped)
      ensures visibleEdges == TotalLength(adjacency) && duplicateEdgesRemoved == directedEdges - visibleEdges
    {
      hide BuildList, TotalLength;
      adjacency, visibleEdges, duplicateEdgesRemoved := map[], 0, 0;
      NothingListed();
      var pending := grouped.Keys;
      ghost var rest := grouped;
      while pending != {}
        invariant pending == rest.Keys && pending <= grouped.Keys && (forall k :: k in rest ==> rest[k] == grouped[k])
        invariant adjacency.Keys == grouped.Keys - pending
        invariant forall k :: k in adjacency ==> adjacency[k] == BuildList(grouped[k])
        invariant visibleEdges == TotalLength(adjacency)
        invariant visibleEdges + duplicateEdgesRemoved + TotalLength(rest) == TotalLength(grouped)
        decreases |pending|
      {
        var k :| k in pending;
        var list, removed := BuildGroup(grouped[k]);
        visibleEdges := visibleEdges + |list|;
        duplicateEdgesRemoved := duplicateEdgesRemoved + removed;
        TotalWith(adjacency, k, list);
        adjacency := adjacency[k := list];
        TotalWithout(rest, k);
        rest := rest - {k};
        pending := pending - {k};
      }
      assert rest == map[];
    }
  }

  lemma {:induction false} NothingListed()
    ensures TotalLength<Stamped>(map[]) == 0 && TotalLength<u64>(map[]) == 0
  {
  }

  /** `build_adjacency_from_edges`. */
  method BuildAdjacencyFromEdges(edges: seq<Edge>) returns (adjacency: AdjacencyMap)
    ensures adjacency == AdjacencyOf(edges)
  {
    var builder := new AdjacencyBuilder();
    for i := 0 to |edges|
      invariant fresh(builder) && builder.Valid()
      invariant builder.grouped == RecordAll(map[], edges[..i])
    {
      assert edges[..i + 1][..i] == edges[..i];
      builder.RecordEdge(edges[i].src, edges[i].edgeType, edges[i].dst, edges[i].ts);
    }
    assert edges[..|edges|] == edges;
    var visible, removed;
    adjacency, visible, removed := builder.Build();
  }
}
