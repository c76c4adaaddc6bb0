/** Reads and compactions merge records by timestamp; the specification is a view of a set of records. */
module Merge {
  import opened Types
  import opened Sorting

  /** Equal timestamps name the same record. */
  ghost predicate TsUnique(records: set<Edge>) {
    forall a, b :: a in records && b in records && a.ts == b.ts ==> a == b
  }

  /** `r` is the newest record of its key among those no newer than the snapshot. */
  ghost predicate IsLatest(r: Edge, records: set<Edge>, snapshot: nat) {
    && r in records && r.ts <= snapshot
    && forall x :: x in records && KeyOf(x) == KeyOf(r) && x.ts <= snapshot ==> x.ts <= r.ts
  }

  ghost function LatestAt(records: set<Edge>, snapshot: nat): set<Edge> {
    set r | r in records && IsLatest(r, records, snapshot)
  }

  /** The specification of every read: the latest record of a key, if it is an insert. */
  ghost function View(records: set<Edge>, snapshot: nat): set<Edge> {
    set r | r in records && IsLatest(r, records, snapshot) && r.marker.Insert?
  }

  /** Ascending by source, then type, then destination, with no key twice. */
  ghost predicate StrictlyByKey(s: seq<Edge>) {
    forall i, j :: 0 <= i < j < |s| ==>
      s[i].src < s[j].src || (s[i].src == s[j].src &&
      (s[i].edgeType < s[j].edgeType || (s[i].edgeType == s[j].edgeType && s[i].dst < s[j].dst)))
  }

  // ---------------------------------------------------------------- the merge

  /** Keeps the first record of every key not seen yet. */
  function PickFirst(s: seq<Edge>, seen: set<Key>, keepTombstones: bool): seq<Edge> {
    if s == [] then []
    else
      var rest := PickFirst(s[1..], seen + {KeyOf(s[0])}, keepTombstones);
      if KeyOf(s[0]) !in seen && (keepTombstones || s[0].marker.Insert?) then [s[0]] + rest else rest
  }

  function NoNewerThan(snapshot: nat): Edge -> bool {
    (e: Edge) => e.ts <= snapshot
  }

  function MergeInput(updates: seq<Edge>, snapshot: nat): seq<Edge> {
    SortBy(ByKeyNewestFirst, Filter(NoNewerThan(snapshot), updates))
  }

  function MergeLatest(updates: seq<Edge>, snapshot: nat, keepTombstones: bool): seq<Edge> {
    SortBy(ByKey, PickFirst(MergeInput(updates, snapshot), {}, keepTombstones))
  }

  function MergeVisible(updates: seq<Edge>, snapshot: nat): seq<Edge> {
    Filter((e: Edge) => e.marker.Insert?, MergeLatest(updates, snapshot, false))
  }

  lemma {:induction false} PickOne(s: seq<Edge>, i: nat, seen: set<Key>, keep: bool)
    requires i < |s|
    ensures PickFirst(s[i..], seen, keep) ==
            (if KeyOf(s[i]) !in seen && (keep || s[i].marker.Insert?) then [s[i]] else [])
            + PickFirst(s[i + 1..], seen + {KeyOf(s[i])}, keep)
  {
    assert s[i..][1..] == s[i + 1..];
  }

  lemma {:induction false} PickNone(seen: set<Key>, keep: bool)
    ensures PickFirst([], seen, keep) == []
  {
  }

  method MergeLatestRecords(updates: seq<Edge>, snapshot: nat, keepTombstones: bool) returns (out: seq<Edge>)
    ensures out == MergeLatest(updates, snapshot, keepTombstones)
  {
    hide MergeInput, PickFirst, SortBy;
    var sorted := MergeInput(updates, snapshot);
    var seen: set<Key> := {};
    out := [];
    assert sorted[0..] == sorted;
    for i := 0 to |sorted|
      invariant out + PickFirst(sorted[i..], seen, keepTombstones) == PickFirst(sorted, {}, keepTombstones)
    {
      var edge := sorted[i];
      PickOne(sorted, i, seen, keepTombstones);
      var isNew := KeyOf(edge) !in seen;
      seen := seen + {KeyOf(edge)};
      if isNew && (keepTombstones || edge.marker.Insert?) {
        assert out + ([edge] + PickFirst(sorted[i + 1..], seen, keepTombstones)) ==
               out + [edge] + PickFirst(sorted[i + 1..], seen, keepTombstones);
        out := out + [edge];
      }
    }
    PickNone(seen, keepTombstones);
    assert sorted[|sorted|..] == [] && out + [] == out;
    out := SortBy(ByKey, out);
  }

  // ------------------------------------------------ what the merge computes

  lemma {:induction false} OrdersAreTotal()
    ensures TotalPreorder(ByKey) && TotalPreorder(ByKeyTs) && TotalPreorder(ByKeyNewestFirst)
  {
  }

  ghost predicate IsFirstOfKey(s: seq<Edge>, i: int) {
    0 <= i < |s| && forall j :: 0 <= j < i ==> KeyOf(s[j]) != KeyOf(s[i])
  }

  /** On input sorted by key, picking keeps one record a key, in strictly ascending key order. */
  lemma {:induction false} PickFirstStrict(s: seq<Edge>, seen: set<Key>, keep: bool)
    requires SortedBy(ByKeyNewestFirst, s)
    ensures StrictlyByKey(PickFirst(s, seen, keep))
    ensures forall e :: e in PickFirst(s, seen, keep) ==> KeyOf(e) !in seen && e in s
  {
    if s != [] {
      var seen' := seen + {KeyOf(s[0])};
      PickFirstStrict(s[1..], seen', keep);
      var rest := PickFirst(s[1..], seen', keep);
      forall i | 0 <= i < |rest|
        ensures KeyLt(KeyOf(s[0]), KeyOf(rest[i]))
      {
        assert rest[i] in rest;
        var k :| 0 <= k < |s[1..]| && s[1..][k] == rest[i];
        assert ByKeyNewestFirst(s[0], s[k + 1]);
      }
    }
  }

  lemma {:induction false} PickFirstElements(s: seq<Edge>, seen: set<Key>, keep: bool, e: Edge)
    ensures e in PickFirst(s, seen, keep) <==>
            (keep || e.marker.Insert?) && KeyOf(e) !in seen &&
            exists i :: IsFirstOfKey(s, i) && s[i] == e
  {
    if s != [] {
      var seen' := seen + {KeyOf(s[0])};
      PickFirstElements(s[1..], seen', keep, e);
      if i :| IsFirstOfKey(s, i) && s[i] == e && i > 0 {
        assert IsFirstOfKey(s[1..], i - 1) by {
          forall j | 0 <= j < i - 1
            ensures KeyOf(s[1..][j]) != KeyOf(s[1..][i - 1])
          {
            assert s[1..][j] == s[j + 1];
          }
        }
        assert KeyOf(s[0]) != KeyOf(s[i]);
      }
      if i :| IsFirstOfKey(s[1..], i) && s[1..][i] == e && KeyOf(e) != KeyOf(s[0]) {
        assert IsFirstOfKey(s, i + 1) by {
          forall j | 0 <= j < i + 1
            ensures KeyOf(s[j]) != KeyOf(s[i + 1])
          {
            assert j > 0 ==> s[j] == s[1..][j - 1];
          }
        }
      }
      assert IsFirstOfKey(s, 0);
    }
  }

  /** The first record of a key in merge order is the latest one. */
  lemma {:induction false} FirstIsLatest(updates: seq<Edge>, snapshot: nat, e: Edge)
    requires TsUnique(Elements(updates))
    ensures (exists i :: IsFirstOfKey(MergeInput(updates, snapshot), i) && MergeInput(updates, snapshot)[i] == e)
            <==> IsLatest(e, Elements(updates), snapshot)
  {
    var kept := Filter(NoNewerThan(snapshot), updates);
    var s := MergeInput(updates, snapshot);
    OrdersAreTotal();
    SortBySorted(ByKeyNewestFirst, kept);
    SortByElements(ByKeyNewestFirst, kept);
    forall x
      ensures x in s <==> x in updates && x.ts <= snapshot
    {
      InFilter(NoNewerThan(snapshot), updates, x);
    }
    if i :| IsFirstOfKey(s, i) && s[i] == e {
      assert e in s;
      forall x | x in updates && KeyOf(x) == KeyOf(e) && x.ts <= snapshot
        ensures x.ts <= e.ts
      {
        assert x in s;
        var j :| 0 <= j < |s| && s[j] == x;
        assert j == i || ByKeyNewestFirst(s[i], s[j]);
      }
    }
    if IsLatest(e, Elements(updates), snapshot) {
      assert e in s;
      var i := FirstIndexOf(s, e);
      assert s[i] in s;
      assert s[i].ts >= e.ts by {
        var k :| 0 <= k < |s| && s[k] == e;
        assert k == i || ByKeyNewestFirst(s[i], s[k]);
      }
      assert s[i] == e;
    }
  }

  lemma {:induction false} FirstIndexOf(s: seq<Edge>, e: Edge) returns (i: nat)
    requires e in s
    ensures IsFirstOfKey(s, i) && KeyOf(s[i]) == KeyOf(e)
    ensures forall k :: 0 <= k < |s| && s[k] == e ==> i <= k
  {
    i := 0;
    while KeyOf(s[i]) != KeyOf(e)
      invariant 0 <= i < |s|
      invariant forall j :: 0 <= j < i ==> KeyOf(s[j]) != KeyOf(e)
      decreases |s| - i
    {
      var k :| 0 <= k < |s| && s[k] == e;
      assert k > i;
      i := i + 1;
    }
  }

  lemma {:induction false} StrictIsSorted(s: seq<Edge>)
    requires StrictlyByKey(s)
    ensures SortedBy(ByKey, s)
  {
  }

  /** A merge keeps exactly the latest record of every key, in strictly ascending key order. */
  lemma {:induction false} MergeLatestMeaning(updates: seq<Edge>, snapshot: nat, keep: bool)
    requires TsUnique(Elements(updates))
    ensures StrictlyByKey(MergeLatest(updates, snapshot, keep))
    ensures Elements(MergeLatest(updates, snapshot, keep)) ==
            if keep then LatestAt(Elements(updates), snapshot) else View(Elements(updates), snapshot)
  {
    var s := MergeInput(updates, snapshot);
    OrdersAreTotal();
    SortBySorted(ByKeyNewestFirst, Filter(NoNewerThan(snapshot), updates));
    PickFirstStrict(s, {}, keep);
    StrictIsSorted(PickFirst(s, {}, keep));
    SortByFixed(ByKey, PickFirst(s, {}, keep));
    forall e
      ensures e in MergeLatest(updates, snapshot, keep) <==>
              IsLatest(e, Elements(updates), snapshot) && (keep || e.marker.Insert?)
    {
      PickFirstElements(s, {}, keep, e);
      FirstIsLatest(updates, snapshot, e);
    }
  }

  lemma {:induction false} MergeVisibleMeaning(updates: seq<Edge>, snapshot: nat)
    requires TsUnique(Elements(updates))
    ensures StrictlyByKey(MergeVisible(updates, snapshot))
    ensures Elements(MergeVisible(updates, snapshot)) == View(Elements(updates), snapshot)
  {
    MergeLatestMeaning(updates, snapshot, false);
    var m := MergeLatest(updates, snapshot, false);
    forall e | e in m
      ensures e.marker.Insert?
    {
      assert e in Elements(m);
    }
    FilterAll((e: Edge) => e.marker.Insert?, m);
  }

  /** A strictly sorted answer is determined by its set of records. */
  lemma {:induction false} StrictUnique(a: seq<Edge>, b: seq<Edge>)
    requires StrictlyByKey(a) && StrictlyByKey(b) && Elements(a) == Elements(b)
    ensures a == b
  {
    assert |a| > 0 ==> a[0] in Elements(b);
    assert |b| > 0 ==> b[0] in Elements(a);
    if a != [] && b != [] {
      assert a[0] in Elements(b) && b[0] in Elements(a);
      var i :| 0 <= i < |b| && b[i] == a[0];
      var j :| 0 <= j < |a| && a[j] == b[0];
      assert a[0] == b[0];
      forall e
        ensures e in a[1..] <==> e in b[1..]
      {
        assert e in a[1..] <==> e in Elements(a) && e != a[0] by { TailElements(a, e); }
        assert e in b[1..] <==> e in Elements(b) && e != b[0] by { TailElements(b, e); }
      }
      StrictUnique(a[1..], b[1..]);
    }
  }

  lemma {:induction false} TailElements(a: seq<Edge>, e: Edge)
    requires StrictlyByKey(a) && a != []
    ensures e in a[1..] <==> e in a && e != a[0]
  {
    if e in a[1..] {
      var i :| 0 <= i < |a[1..]| && a[1..][i] == e;
      assert a[i + 1] == e && KeyLt(KeyOf(a[0]), KeyOf(a[i + 1]));
    }
  }

  // ---------------------------------------------------- compaction and views

  ghost predicate SupersededBy(r: Edge, x: Edge, floor: nat) {
    KeyOf(x) == KeyOf(r) && r.ts < x.ts <= floor
  }

  /** `stored` may lack records of `log`, but only ones superseded at or below the floor. */
  ghost predicate Covers(stored: set<Edge>, log: set<Edge>, floor: nat) {
    && stored <= log
    && forall r :: r in log && r !in stored ==> exists x :: x in stored && SupersededBy(r, x, floor)
  }

  /** At and above the floor a covering store reads like the full log. */
  lemma {:induction false} CoveringView(stored: set<Edge>, log: set<Edge>, floor: nat, snapshot: nat)
    requires Covers(stored, log, floor) && floor <= snapshot
    ensures View(stored, snapshot) == View(log, snapshot)
    ensures LatestAt(stored, snapshot) == LatestAt(log, snapshot)
  {
    forall r
      ensures IsLatest(r, stored, snapshot) <==> IsLatest(r, log, snapshot)
    {
      if IsLatest(r, stored, snapshot) {
        forall x | x in log && KeyOf(x) == KeyOf(r) && x.ts <= snapshot
          ensures x.ts <= r.ts
        {
          if x !in stored {
            var y :| y in stored && SupersededBy(x, y, floor);
          }
        }
      }
      if IsLatest(r, log, snapshot) {
        assert forall y :: y in stored ==> !SupersededBy(r, y, floor);
        assert r in stored;
      }
    }
  }

  lemma {:induction false} CoversTrans(a: set<Edge>, b: set<Edge>, c: set<Edge>, floor1: nat, floor2: nat)
    requires Covers(a, b, floor1) && Covers(b, c, floor2)
    ensures Covers(a, c, if floor1 < floor2 then floor2 else floor1)
  {
    var floor := if floor1 < floor2 then floor2 else floor1;
    forall r | r in c && r !in a
      ensures exists x :: x in a && SupersededBy(r, x, floor)
    {
      if r in b {
        var x :| x in a && SupersededBy(r, x, floor1);
        assert SupersededBy(r, x, floor);
      } else {
        var y :| y in b && SupersededBy(r, y, floor2);
        if y in a {
          assert SupersededBy(r, y, floor);
        } else {
          var x :| x in a && SupersededBy(y, x, floor1);
          assert SupersededBy(r, x, floor);
        }
      }
    }
  }

  /** There is a latest record of the key of `r` among the records at or below the snapshot. */
  lemma {:induction false} LatestExists(records: set<Edge>, r: Edge, snapshot: nat) returns (x: Edge)
    requires r in records && r.ts <= snapshot
    ensures IsLatest(x, records, snapshot) && KeyOf(x) == KeyOf(r) && r.ts <= x.ts
    decreases snapshot - r.ts
  {
    if y :| y in records && KeyOf(y) == KeyOf(r) && y.ts <= snapshot && r.ts < y.ts {
      x := LatestExists(records, y, snapshot);
    } else {
      x := r;
    }
  }

  /** What a compaction writes covers what it read, from the highest timestamp it read. */
  lemma {:induction false} CompactionCovers(inputs: seq<Edge>, snapshot: nat, floor: nat)
    requires TsUnique(Elements(inputs))
    requires forall e :: e in inputs ==> e.ts <= floor <= snapshot
    ensures Covers(Elements(MergeLatest(inputs, snapshot, true)), Elements(inputs), floor)
  {
    MergeLatestMeaning(inputs, snapshot, true);
    forall r | r in Elements(inputs) && r !in LatestAt(Elements(inputs), snapshot)
      ensures exists x :: x in LatestAt(Elements(inputs), snapshot) && SupersededBy(r, x, floor)
    {
      assert !IsLatest(r, Elements(inputs), snapshot);
      var x := LatestExists(Elements(inputs), r, snapshot);
      assert x.ts == r.ts ==> x == r;
      assert x in LatestAt(Elements(inputs), snapshot) && SupersededBy(r, x, floor);
    }
  }

  /** The same, with other records beside the rewritten ones. */
  lemma {:induction false} CoversBeside(a: set<Edge>, b: set<Edge>, other: set<Edge>, floor: nat)
    requires Covers(a, b, floor)
    ensures Covers(a + other, b + other, floor)
  {
    forall r | r in b + other && r !in a + other
      ensures exists x :: x in a + other && SupersededBy(r, x, floor)
    {
      var x :| x in a && SupersededBy(r, x, floor);
      assert x in a + other;
    }
  }

  /** Rewriting any part of the stored records leaves every view from their highest timestamp on unchanged. */
  lemma {:induction false} CompactionPreservesView(inputs: seq<Edge>, other: set<Edge>, snapshot: nat, floor: nat, readAt: nat)
    requires TsUnique(Elements(inputs))
    requires forall e :: e in inputs ==> e.ts <= floor <= snapshot
    requires floor <= readAt
    ensures View(Elements(MergeLatest(inputs, snapshot, true)) + other, readAt) ==
            View(Elements(inputs) + other, readAt)
  {
    var merged := Elements(MergeLatest(inputs, snapshot, true));
    CompactionCovers(inputs, snapshot, floor);
    CoversBeside(merged, Elements(inputs), other, floor);
    CoveringView(merged + other, Elements(inputs) + other, floor, readAt);
  }

  // ------------------------------------------------------ below the floor

  /** `r` decides its key at the snapshot, and the compaction drops it for a newer record. */
  ghost predicate Dropped(r: Edge, inputs: set<Edge>, other: set<Edge>, snapshot: nat) {
    && r in inputs && r !in other && IsLatest(r, inputs + other, snapshot)
    && exists x :: x in inputs && KeyOf(x) == KeyOf(r) && r.ts < x.ts
  }

  /**
   * A reader pinned at a snapshot may compact only when each record that decides a key for it and is
   * superseded by a later input is a delete with no older insert behind it.
   */
  ghost predicate CompactableFor(inputs: set<Edge>, other: set<Edge>, snapshot: nat) {
    forall r :: Dropped(r, inputs, other, snapshot) ==>
      r.marker.Delete? && forall y :: IsLatest(y, other, snapshot) && KeyOf(y) == KeyOf(r) ==> y.marker.Delete?
  }

  /** An old snapshot does not survive compaction in general: its insert is dropped for the later delete. */
  lemma {:induction false} OldSnapshotCanBeLost()
    ensures var a := Edge(1, 2, 1, 1, Insert);
            var b := Edge(1, 2, 1, 2, Delete);
            View(Elements([a, b]), 1) == {a} && View(Elements(MergeLatest([a, b], 2, true)), 1) == {}
  {
    var a := Edge(1, 2, 1, 1, Insert);
    var b := Edge(1, 2, 1, 2, Delete);
    var s := [a, b];
    assert Elements(s) == {a, b};
    MergeLatestMeaning(s, 2, true);
    assert IsLatest(b, {a, b}, 2) && !IsLatest(a, {a, b}, 2) && IsLatest(a, {a, b}, 1);
    assert LatestAt({a, b}, 2) == {b};
  }

  lemma {:induction false} SameLatestUnlessDropped(a: set<Edge>, b: set<Edge>, floor: nat, snapshot: nat, r: Edge)
    requires TsUnique(a + b) && forall e :: e in a ==> e.ts <= floor
    requires IsLatest(r, a + b, snapshot) && !Dropped(r, a, b, snapshot)
    ensures IsLatest(r, LatestAt(a, floor) + b, snapshot)
  {
    if r !in b {
      assert IsLatest(r, a, floor);
    }
  }

  /** Once the deciding record of a key is dropped, only the untouched records answer for the key. */
  lemma {:induction false} DroppedLeavesOther(a: set<Edge>, b: set<Edge>, floor: nat, snapshot: nat, w: Edge, r: Edge)
    requires TsUnique(a + b) && forall e :: e in a ==> e.ts <= floor
    requires Dropped(w, a, b, snapshot) && KeyOf(w) == KeyOf(r)
    requires IsLatest(r, LatestAt(a, floor) + b, snapshot)
    ensures IsLatest(r, b, snapshot)
  {
    var x :| x in a && KeyOf(x) == KeyOf(w) && w.ts < x.ts;
    assert r !in LatestAt(a, floor) by {
      assert x.ts > snapshot;
    }
  }

  lemma {:induction false} CompactableKeepsView(a: set<Edge>, other: set<Edge>, floor: nat, snapshot: nat, r: Edge)
    requires TsUnique(a + other) && forall e :: e in a ==> e.ts <= floor
    requires CompactableFor(a, other, snapshot)
    ensures r in View(a + other, snapshot) <==> r in View(LatestAt(a, floor) + other, snapshot)
  {
    if r in View(a + other, snapshot) {
      SameLatestUnlessDropped(a, other, floor, snapshot, r);
    }
    if r in View(LatestAt(a, floor) + other, snapshot) {
      var w := LatestExists(a + other, r, snapshot);
      if Dropped(w, a, other, snapshot) {
        DroppedLeavesOther(a, other, floor, snapshot, w, r);
      } else {
        SameLatestUnlessDropped(a, other, floor, snapshot, w);
        assert w == r;
      }
    }
  }

  lemma {:induction false} NotCompactableChangesView(a: set<Edge>, other: set<Edge>, floor: nat, snapshot: nat)
    requires TsUnique(a + other) && forall e :: e in a ==> e.ts <= floor
    requires !CompactableFor(a, other, snapshot)
    ensures View(a + other, snapshot) != View(LatestAt(a, floor) + other, snapshot)
  {
    var before, after := a + other, LatestAt(a, floor) + other;
    var r :| Dropped(r, a, other, snapshot) && !(r.marker.Delete? &&
             forall y :: IsLatest(y, other, snapshot) && KeyOf(y) == KeyOf(r) ==> y.marker.Delete?);
    if r.marker.Insert? {
      assert r in View(before, snapshot) && r !in View(after, snapshot);
    } else {
      var y :| IsLatest(y, other, snapshot) && KeyOf(y) == KeyOf(r) && !y.marker.Delete?;
      var x :| x in a && KeyOf(x) == KeyOf(r) && r.ts < x.ts;
      assert x.ts > snapshot;
      assert IsLatest(y, after, snapshot);
      assert y in View(after, snapshot) && y !in View(before, snapshot);
    }
  }

  /** Exactly when a snapshot, old or new, reads the same after a compaction. */
  lemma {:induction false} OldSnapshotSurvivesIff(inputs: seq<Edge>, other: set<Edge>, floor: nat, snapshot: nat)
    requires TsUnique(Elements(inputs) + other)
    requires forall e :: e in inputs ==> e.ts <= floor
    ensures View(Elements(MergeLatest(inputs, floor, true)) + other, snapshot) ==
            View(Elements(inputs) + other, snapshot)
            <==> CompactableFor(Elements(inputs), other, snapshot)
  {
    var a := Elements(inputs);
    MergeLatestMeaning(inputs, floor, true);
    if CompactableFor(a, other, snapshot) {
      forall r
        ensures r in View(a + other, snapshot) <==> r in View(LatestAt(a, floor) + other, snapshot)
      {
        CompactableKeepsView(a, other, floor, snapshot, r);
      }
    } else {
      NotCompactableChangesView(a, other, floor, snapshot);
    }
  }
}
