/** Query IC1: persons of a given first name within three knows steps, nearest first, searched level by level. */
module Ic1 {
  import opened Types
  import opened Lists
  import opened Sorting
  import opened KnowsGraph

  /** The person columns the search reads. */
  datatype Person = Person(firstName: string, lastName: string, id: i64)

  datatype Candidate = Candidate(distance: nat, lastName: string, id: i64, vid: u64)

  const MAX_DISTANCE: nat := 3

  /** Lexicographic order on strings. */
  predicate StringLe(a: string, b: string) {
    a == [] || (b != [] && (a[0] < b[0] || (a[0] == b[0] && StringLe(a[1..], b[1..]))))
  }

  /** (distance, last name, id). */
  predicate Before(a: Candidate, b: Candidate) {
    a.distance < b.distance ||
    (a.distance == b.distance &&
     (!StringLe(b.lastName, a.lastName) || (a.lastName == b.lastName && a.id <= b.id)))
  }

  lemma {:induction false} StringLeTotal(a: string, b: string)
    ensures StringLe(a, b) || StringLe(b, a)
    ensures StringLe(a, b) && StringLe(b, a) ==> a == b
  {
    if a != [] && b != [] {
      StringLeTotal(a[1..], b[1..]);
      assert a == [a[0]] + a[1..] && b == [b[0]] + b[1..];
    }
  }

  lemma {:induction false} StringLeTransitive(a: string, b: string, c: string)
    requires StringLe(a, b) && StringLe(b, c)
    ensures StringLe(a, c)
  {
    if a != [] {
      if a[0] == b[0] == c[0] {
        StringLeTransitive(a[1..], b[1..], c[1..]);
      }
    }
  }

  /** The names agree up to position `i`, where `a` has the smaller character or has ended. */
  ghost predicate SmallerAt(a: string, b: string, i: nat) {
    i <= |a| && i < |b| && a[..i] == b[..i] && (i == |a| || a[i] < b[i])
  }

  lemma {:induction false} StringLeIff(a: string, b: string)
    ensures StringLe(a, b) <==> a == b || exists i: nat :: SmallerAt(a, b, i)
  {
    if a == [] {
      assert b != [] ==> SmallerAt(a, b, 0);
    } else if b != [] {
      StringLeIff(a[1..], b[1..]);
      assert a == [a[0]] + a[1..] && b == [b[0]] + b[1..];
      if a[0] < b[0] {
        assert SmallerAt(a, b, 0);
      }
      if a[0] == b[0] {
        if i: nat :| SmallerAt(a[1..], b[1..], i) {
          var k := i + 1;
          assert a[..k] == [a[0]] + a[1..][..i] && b[..k] == [b[0]] + b[1..][..i];
          assert SmallerAt(a, b, k);
        }
      }
      if k: nat :| SmallerAt(a, b, k) && k > 0 {
        SmallerBehind(a, b, k);
      }
    }
  }

  lemma {:induction false} SmallerBehind(a: string, b: string, k: nat)
    requires k > 0 && SmallerAt(a, b, k)
    ensures a[0] == b[0] && SmallerAt(a[1..], b[1..], k - 1)
  {
    assert a[..k][0] == a[0] && b[..k][0] == b[0];
    assert a[1..][..k - 1] == a[..k][1..] && b[1..][..k - 1] == b[..k][1..];
  }

  /** Nearer first, then the smaller last name, character by character, then the smaller id. */
  lemma {:induction false} BeforeMeaning(a: Candidate, b: Candidate)
    ensures a.distance != b.distance ==> (Before(a, b) <==> a.distance < b.distance)
    ensures a.distance == b.distance && a.lastName == b.lastName ==> (Before(a, b) <==> a.id <= b.id)
    ensures a.distance == b.distance && a.lastName != b.lastName ==>
              (Before(a, b) <==> exists i: nat :: SmallerAt(a.lastName, b.lastName, i))
  {
    StringLeIff(a.lastName, b.lastName);
    StringLeTotal(a.lastName, b.lastName);
    hide StringLe, SmallerAt;
  }

  lemma {:induction false} BeforeTotal(a: Candidate, b: Candidate)
    ensures Before(a, b) || Before(b, a)
    ensures Before(a, b) && Before(b, a) ==> a.distance == b.distance && a.lastName == b.lastName && a.id == b.id
  {
    StringLeTotal(a.lastName, b.lastName);
    hide StringLe;
  }

  lemma {:induction false} BeforeTransitive(a: Candidate, b: Candidate, c: Candidate)
    requires Before(a, b) && Before(b, c)
    ensures Before(a, c)
  {
    StringLeTotal(a.lastName, b.lastName);
    StringLeTotal(b.lastName, c.lastName);
    StringLeTotal(a.lastName, c.lastName);
    if StringLe(c.lastName, a.lastName) && StringLe(a.lastName, b.lastName) {
      StringLeTransitive(c.lastName, a.lastName, b.lastName);
    }
    if StringLe(b.lastName, c.lastName) && StringLe(c.lastName, a.lastName) {
      StringLeTransitive(b.lastName, c.lastName, a.lastName);
    }
    hide StringLe;
  }

  lemma {:induction false} BeforeIsPreorder()
    ensures TotalPreorder(Before)
  {
    forall a, b
      ensures Before(a, b) || Before(b, a)
    {
      BeforeTotal(a, b);
    }
    forall a, b, c | Before(a, b) && Before(b, c)
      ensures Before(a, c)
    {
      BeforeTransitive(a, b, c);
    }
  }

  // ------------------------------------------------------------------- levels

  /** The neighbours not seen before, in order, each once. */
  function Fresh(seen: set<u64>, neighbors: seq<u64>): seq<u64> {
    if neighbors == [] then []
    else
      var n := |neighbors| - 1;
      var found := Fresh(seen, neighbors[..n]);
      if neighbors[n] in seen || neighbors[n] in found then found else found + [neighbors[n]]
  }

  function NextLevel(g: Graph, seen: set<u64>, frontier: seq<u64>): seq<u64> {
    if frontier == [] then []
    else
      var n := |frontier| - 1;
      var found := NextLevel(g, seen, frontier[..n]);
      found + Fresh(seen + Elements(found), Neighbors(g, frontier[n]))
  }

  datatype Level = Level(seen: set<u64>, frontier: seq<u64>)

  /** All levels, with no early exit. */
  function LevelAt(g: Graph, start: u64, n: nat): Level {
    if n == 0 then Level({start}, [start])
    else
      var l := LevelAt(g, start, n - 1);
      var next := NextLevel(g, l.seen, l.frontier);
      Level(l.seen + Elements(next), next)
  }

  lemma {:induction false} FreshExact(seen: set<u64>, neighbors: seq<u64>)
    ensures Distinct(Fresh(seen, neighbors))
    ensures forall v :: v in Fresh(seen, neighbors) <==> v in neighbors && v !in seen
  {
    if neighbors != [] {
      var n := |neighbors| - 1;
      FreshExact(seen, neighbors[..n]);
      assert neighbors == neighbors[..n] + [neighbors[n]];
    }
  }

  ghost predicate NextTo(g: Graph, frontier: seq<u64>, v: u64) {
    exists i :: 0 <= i < |frontier| && v in Neighbors(g, frontier[i])
  }

  lemma {:induction false} NextToPush(g: Graph, frontier: seq<u64>, v: u64)
    requires frontier != []
    ensures var n := |frontier| - 1;
            NextTo(g, frontier, v) <==> NextTo(g, frontier[..n], v) || v in Neighbors(g, frontier[n])
  {
    hide Neighbors;
    var n := |frontier| - 1;
    if NextTo(g, frontier[..n], v) {
      var i :| 0 <= i < n && v in Neighbors(g, frontier[..n][i]);
      assert v in Neighbors(g, frontier[i]);
    }
    if i :| 0 <= i < |frontier| && v in Neighbors(g, frontier[i]) && i < n {
      assert v in Neighbors(g, frontier[..n][i]);
    }
  }

  lemma {:induction false} NextLevelExact(g: Graph, seen: set<u64>, frontier: seq<u64>)
    ensures Distinct(NextLevel(g, seen, frontier))
    ensures forall v :: v in NextLevel(g, seen, frontier) <==> v !in seen && NextTo(g, frontier, v)
  {
    hide NextTo;
    if frontier == [] {
      forall v
        ensures !NextTo(g, [], v)
      {
        NextToNothing(g, v);
      }
    } else {
      var n := |frontier| - 1;
      var found := NextLevel(g, seen, frontier[..n]);
      var unseen := Fresh(seen + Elements(found), Neighbors(g, frontier[n]));
      NextLevelExact(g, seen, frontier[..n]);
      FreshExact(seen + Elements(found), Neighbors(g, frontier[n]));
      DistinctAppend(found, unseen);
      forall v
        ensures v in found + unseen <==> v !in seen && NextTo(g, frontier, v)
      {
        NextToPush(g, frontier, v);
      }
    }
  }

  lemma {:induction false} NextToNothing(g: Graph, v: u64)
    ensures !NextTo(g, [], v)
  {
  }

  ghost predicate Within(g: Graph, start: u64, v: u64, n: nat) {
    exists k: nat :: k <= n && Reach(g, start, v, k)
  }

  ghost predicate ExactLevel(g: Graph, start: u64, l: Level, n: nat) {
    && Distinct(l.frontier)
    && (forall v :: v in l.frontier <==> Dist(g, start, v, n))
    && (forall v :: v in l.seen <==> Within(g, start, v, n))
  }

  /** Level `n` holds each vertex at distance exactly `n` once; the vertices seen are those within `n`. */
  lemma {:induction false} LevelIsExact(g: Graph, start: u64, n: nat)
    ensures ExactLevel(g, start, LevelAt(g, start, n), n)
  {
    if n == 0 {
      forall v
        ensures Within(g, start, v, 0) <==> v == start
      {
        assert v == start ==> Reach(g, start, v, 0);
      }
      forall v
        ensures Dist(g, start, v, 0) <==> v == start
      {
      }
    } else {
      var l := LevelAt(g, start, n - 1);
      LevelIsExact(g, start, n - 1);
      NextLevelExact(g, l.seen, l.frontier);
      forall v
        ensures v !in l.seen && NextTo(g, l.frontier, v) <==> Dist(g, start, v, n)
        ensures Within(g, start, v, n) <==> v in l.seen || Dist(g, start, v, n)
      {
        OneLevelOut(g, start, l, n - 1, v);
      }
    }
  }

  lemma {:induction false} OneLevelOut(g: Graph, start: u64, l: Level, n: nat, v: u64)
    requires ExactLevel(g, start, l, n)
    ensures v !in l.seen && NextTo(g, l.frontier, v) <==> Dist(g, start, v, n + 1)
    ensures Within(g, start, v, n + 1) <==> v in l.seen || Dist(g, start, v, n + 1)
  {
    hide Reach, Neighbors;
    if v !in l.seen && NextTo(g, l.frontier, v) {
      var i :| 0 <= i < |l.frontier| && v in Neighbors(g, l.frontier[i]);
      assert l.frontier[i] in l.frontier;
      NewDist(g, start, l.frontier[i], v, n);
    }
    if Dist(g, start, v, n + 1) {
      var u := PredecessorOf(g, start, v, n);
      PredecessorDist(g, start, u, v, n);
      var i :| 0 <= i < |l.frontier| && l.frontier[i] == u;
      assert v in Neighbors(g, l.frontier[i]);
    }
    if Within(g, start, v, n + 1) && v !in l.seen {
      var k: nat :| k <= n + 1 && Reach(g, start, v, k);
      assert !Within(g, start, v, n);
      assert k == n + 1;
    }
  }

  // --------------------------------------------------------------- candidates

  type Persons = map<u64, Person>

  function CandidateOf(persons: Persons, vid: u64, distance: nat): Candidate
    requires vid in persons
  {
    Candidate(distance, persons[vid].lastName, persons[vid].id, vid)
  }

  predicate Named(persons: Persons, firstName: string, vid: u64) {
    vid in persons && persons[vid].firstName == firstName
  }

  function Matches(persons: Persons, firstName: string, level: seq<u64>, distance: nat): seq<Candidate> {
    if level == [] then []
    else
      var n := |level| - 1;
      var found := Matches(persons, firstName, level[..n], distance);
      if Named(persons, firstName, level[n]) then found + [CandidateOf(persons, level[n], distance)] else found
  }

  /** The candidates of levels 1 to `n`. */
  function MatchesUpTo(g: Graph, persons: Persons, firstName: string, start: u64, n: nat): seq<Candidate> {
    if n == 0 then []
    else MatchesUpTo(g, persons, firstName, start, n - 1) + Matches(persons, firstName, LevelAt(g, start, n).frontier, n)
  }

  function Truncate<T>(s: seq<T>, limit: nat): seq<T> {
    if |s| <= limit then s else s[..limit]
  }

  /** The simple form of the search: all three levels, all matches sorted, the first `limit` of them. */
  function SearchAll(g: Graph, persons: Persons, firstName: string, start: u64, limit: nat): seq<Candidate> {
    Truncate(SortBy(Before, MatchesUpTo(g, persons, firstName, start, MAX_DISTANCE)), limit)
  }

  lemma {:induction false} MatchesExact(persons: Persons, firstName: string, level: seq<u64>, distance: nat)
    ensures forall c :: c in Matches(persons, firstName, level, distance) <==>
                        c.vid in level && Named(persons, firstName, c.vid) && c == CandidateOf(persons, c.vid, distance)
    ensures Distinct(level) ==> Distinct(Matches(persons, firstName, level, distance))
  {
    if level != [] {
      var n := |level| - 1;
      MatchesExact(persons, firstName, level[..n], distance);
      assert level == level[..n] + [level[n]];
    }
  }

  /** A match of the query: the right first name, at exact distance one to three. */
  ghost predicate IsMatch(g: Graph, persons: Persons, firstName: string, start: u64, c: Candidate) {
    && 1 <= c.distance <= 3 && Dist(g, start, c.vid, c.distance)
    && c.vid in persons && persons[c.vid].firstName == firstName
    && persons[c.vid].lastName == c.lastName && persons[c.vid].id == c.id
  }

  lemma {:induction false} MatchesUpToExact(g: Graph, persons: Persons, firstName: string, start: u64, n: nat)
    requires n <= MAX_DISTANCE
    ensures Distinct(MatchesUpTo(g, persons, firstName, start, n))
    ensures forall c :: c in MatchesUpTo(g, persons, firstName, start, n) <==>
                        IsMatch(g, persons, firstName, start, c) && c.distance <= n
  {
    hide Dist, LevelAt;
    if n > 0 {
      var level := LevelAt(g, start, n).frontier;
      var nearer, here := MatchesUpTo(g, persons, firstName, start, n - 1), Matches(persons, firstName, level, n);
      MatchesUpToExact(g, persons, firstName, start, n - 1);
      LevelIsExact(g, start, n);
      MatchesExact(persons, firstName, level, n);
      DistinctAppend(nearer, here);
    }
  }

  // --------------------------------------------------------------- early exit

  lemma {:induction false} InsertAfter<T>(le: (T, T) -> bool, s: seq<T>, t: seq<T>, x: T)
    requires s == [] || le(s[|s| - 1], x)
    ensures InsertSorted(le, s + t, x) == s + InsertSorted(le, t, x)
  {
    if t == [] {
      assert s + t == s;
    } else {
      var n := |t| - 1;
      assert (s + t)[|s + t| - 1] == t[n] && (s + t)[..|s + t| - 1] == s + t[..n];
      if !le(t[n], x) {
        InsertAfter(le, s, t[..n], x);
      }
    }
  }

  /** Sorting nothing but later elements into a list leaves its sorted form in front. */
  lemma {:induction false} SortConcat<T(!new)>(le: (T, T) -> bool, a: seq<T>, b: seq<T>)
    requires forall x, y :: x in a && y in b ==> le(x, y)
    ensures SortBy(le, a + b) == SortBy(le, a) + SortBy(le, b)
  {
    if b == [] {
      assert a + b == a;
    } else {
      var n := |b| - 1;
      SortConcat(le, a, b[..n]);
      assert a + b == (a + b[..n]) + [b[n]];
      SortByPush(le, a + b[..n], b[n]);
      SortByElements(le, a);
      var front := SortBy(le, a);
      assert front != [] ==> front[|front| - 1] in a;
      InsertAfter(le, front, SortBy(le, b[..n]), b[n]);
    }
  }

  /** With enough candidates found, the levels not searched do not matter. */
  lemma {:induction false} EarlyExit(g: Graph, persons: Persons, firstName: string, start: u64, n: nat, limit: nat)
    requires n <= MAX_DISTANCE && |MatchesUpTo(g, persons, firstName, start, n)| >= limit
    ensures Truncate(SortBy(Before, MatchesUpTo(g, persons, firstName, start, n)), limit) ==
            SearchAll(g, persons, firstName, start, limit)
    decreases MAX_DISTANCE - n
  {
    hide Before, LevelAt, Matches, MatchesUpTo, IsMatch, SortBy, Truncate;
    if n < MAX_DISTANCE {
      var nearer := MatchesUpTo(g, persons, firstName, start, n);
      var more := Matches(persons, firstName, LevelAt(g, start, n + 1).frontier, n + 1);
      LevelFollows(g, persons, firstName, start, n + 1);
      FartherSortsLater(g, persons, firstName, start, n);
      SortConcat(Before, nearer, more);
      SortByMultiset(Before, nearer);
      TruncateFront(SortBy(Before, nearer), SortBy(Before, more), limit);
      EarlyExit(g, persons, firstName, start, n + 1, limit);
    }
  }

  lemma {:induction false} TruncateFront<T>(s: seq<T>, t: seq<T>, limit: nat)
    requires |s| >= limit
    ensures Truncate(s + t, limit) == Truncate(s, limit)
  {
  }

  lemma {:induction false} FartherSortsLater(g: Graph, persons: Persons, firstName: string, start: u64, n: nat)
    requires n < MAX_DISTANCE
    ensures var near, far := MatchesUpTo(g, persons, firstName, start, n),
                             Matches(persons, firstName, LevelAt(g, start, n + 1).frontier, n + 1);
            forall x, y :: x in near && y in far ==> Before(x, y)
  {
    hide MatchesUpTo, LevelAt, Matches, StringLe;
    MatchesUpToExact(g, persons, firstName, start, n);
    MatchesExact(persons, firstName, LevelAt(g, start, n + 1).frontier, n + 1);
  }

  /** Past an empty level there is nothing to find. */
  lemma {:induction false} EmptyLevel(g: Graph, persons: Persons, firstName: string, start: u64, n: nat, m: nat)
    requires n <= m && LevelAt(g, start, n).frontier == []
    ensures LevelAt(g, start, m).frontier == []
    ensures MatchesUpTo(g, persons, firstName, start, m) == MatchesUpTo(g, persons, firstName, start, n)
    decreases m
  {
    hide LevelAt, Matches, MatchesUpTo, NextLevel;
    if n < m {
      EmptyLevel(g, persons, firstName, start, n, m - 1);
      LevelFollows(g, persons, firstName, start, m);
      NextLevelNone(g, LevelAt(g, start, m - 1).seen);
      MatchesNone(persons, firstName, m);
    }
  }

  // ------------------------------------------------------------------ the search

  lemma {:induction false} NextLevelPush(g: Graph, seen: set<u64>, frontier: seq<u64>, i: nat)
    requires i < |frontier|
    ensures NextLevel(g, seen, frontier[..i + 1]) ==
            NextLevel(g, seen, frontier[..i]) +
            Fresh(seen + Elements(NextLevel(g, seen, frontier[..i])), Neighbors(g, frontier[i]))
  {
    assert frontier[..i + 1][..i] == frontier[..i];
  }

  lemma {:induction false} FreshPush(seen: set<u64>, neighbors: seq<u64>, j: nat)
    requires j < |neighbors|
    ensures var found := Fresh(seen, neighbors[..j]);
            Fresh(seen, neighbors[..j + 1]) ==
            if neighbors[j] in seen || neighbors[j] in found then found else found + [neighbors[j]]
  {
    assert neighbors[..j + 1][..j] == neighbors[..j];
  }

  method Expand(g: Graph, seen0: set<u64>, frontier: seq<u64>) returns (seen: set<u64>, next: seq<u64>)
    ensures next == NextLevel(g, seen0, frontier) && seen == seen0 + Elements(next)
  {
    hide NextLevel, Fresh, Neighbors;
    seen, next := seen0, [];
    assert NextLevel(g, seen0, []) == [] by { NextLevelNone(g, seen0); }
    for i := 0 to |frontier|
      invariant next == NextLevel(g, seen0, frontier[..i]) && seen == seen0 + Elements(next)
    {
      var neighbors := Neighbors(g, frontier[i]);
      ghost var before, found := seen, next;
      assert Fresh(before, []) == [] by { FreshNone(before); }
      for j := 0 to |neighbors|
        invariant next == found + Fresh(before, neighbors[..j])
        invariant seen == before + Elements(Fresh(before, neighbors[..j]))
      {
        FreshPush(before, neighbors, j);
        if neighbors[j] !in seen {
          seen := seen + {neighbors[j]};
          next := next + [neighbors[j]];
        }
      }
      assert neighbors[..|neighbors|] == neighbors;
      NextLevelPush(g, seen0, frontier, i);
    }
    assert frontier[..|frontier|] == frontier;
  }

  lemma {:induction false} NextLevelNone(g: Graph, seen: set<u64>)
    ensures NextLevel(g, seen, []) == []
  {
  }

  lemma {:induction false} FreshNone(seen: set<u64>)
    ensures Fresh(seen, []) == []
  {
  }

  lemma {:induction false} MatchesPush(persons: Persons, firstName: string, level: seq<u64>, i: nat, distance: nat)
    requires i < |level|
    ensures var found := Matches(persons, firstName, level[..i], distance);
            Matches(persons, firstName, level[..i + 1], distance) ==
            if Named(persons, firstName, level[i]) then found + [CandidateOf(persons, level[i], distance)] else found
  {
    assert level[..i + 1][..i] == level[..i];
  }

  /** The level-bounded search stops as soon as it has enough, and answers as if it had not. */
  method Ic1(g: Graph, persons: Persons, personId: i64, firstName: string, limit: nat) returns (rows: seq<Candidate>)
    ensures var start := EncodeVid(1, personId);
            rows == if start in persons then SearchAll(g, persons, firstName, start, limit) else []
  {
    hide LevelAt, Matches, MatchesUpTo, SortBy, Before, NextLevel, SearchAll;
    var start := EncodeVid(PERSON_LABEL, personId);
    if start !in persons {
      return [];
    }
    var seen, frontier := {start}, [start];
    var candidates: seq<Candidate> := [];
    var distance := 1;
    FirstLevel(g, persons, firstName, start);
    while distance <= MAX_DISTANCE
      invariant 1 <= distance <= MAX_DISTANCE + 1
      invariant Level(seen, frontier) == LevelAt(g, start, distance - 1)
      invariant candidates == MatchesUpTo(g, persons, firstName, start, distance - 1)
    {
      var next;
      seen, next := Expand(g, seen, frontier);
      ghost var nearer := candidates;
      assert Matches(persons, firstName, [], distance) == [] by { MatchesNone(persons, firstName, distance); }
      for i := 0 to |next|
        invariant candidates == nearer + Matches(persons, firstName, next[..i], distance)
      {
        MatchesPush(persons, firstName, next, i, distance);
        if next[i] in persons && persons[next[i]].firstName == firstName {
          candidates := candidates + [CandidateOf(persons, next[i], distance)];
        }
      }
      assert next[..|next|] == next;
      LevelFollows(g, persons, firstName, start, distance);
      if |candidates| >= limit {
        EarlyExit(g, persons, firstName, start, distance, limit);
        return Truncate(SortBy(Before, candidates), limit);
      }
      frontier := next;
      if frontier == [] {
        EmptyLevel(g, persons, firstName, start, distance, MAX_DISTANCE);
        AllLevels(g, persons, firstName, start, limit);
        return Truncate(SortBy(Before, candidates), limit);
      }
      distance := distance + 1;
    }
    AllLevels(g, persons, firstName, start, limit);
    rows := Truncate(SortBy(Before, candidates), limit);
  }

  lemma {:induction false} AllLevels(g: Graph, persons: Persons, firstName: string, start: u64, limit: nat)
    ensures SearchAll(g, persons, firstName, start, limit) ==
            Truncate(SortBy(Before, MatchesUpTo(g, persons, firstName, start, MAX_DISTANCE)), limit)
  {
  }

  lemma {:induction false} MatchesNone(persons: Persons, firstName: string, distance: nat)
    ensures Matches(persons, firstName, [], distance) == []
  {
  }

  lemma {:induction false} FirstLevel(g: Graph, persons: Persons, firstName: string, start: u64)
    ensures LevelAt(g, start, 0) == Level({start}, [start]) && MatchesUpTo(g, persons, firstName, start, 0) == []
  {
  }

  lemma {:induction false} LevelFollows(g: Graph, persons: Persons, firstName: string, start: u64, n: nat)
    requires n > 0
    ensures var l := LevelAt(g, start, n - 1);
            var next := NextLevel(g, l.seen, l.frontier);
            LevelAt(g, start, n) == Level(l.seen + Elements(next), next)
    ensures MatchesUpTo(g, persons, firstName, start, n) ==
            MatchesUpTo(g, persons, firstName, start, n - 1) + Matches(persons, firstName, LevelAt(g, start, n).frontier, n)
  {
  }

  // -------------------------------------------------------------- what it means

  /** The first `limit` of all matches in (distance, last name, id) order. */
  ghost predicate FirstMatches(g: Graph, persons: Persons, firstName: string, start: u64, limit: nat, rows: seq<Candidate>) {
    && |rows| <= limit && Distinct(rows) && SortedBy(Before, rows)
    && (forall c :: c in rows ==> IsMatch(g, persons, firstName, start, c))
    && (forall c :: IsMatch(g, persons, firstName, start, c) && c !in rows ==>
          |rows| == limit && forall r :: r in rows ==> Before(r, c))
  }

  /** The search returns the first `limit` of all matching persons at exact distance one to three. */
  lemma {:induction false} SearchAllMeaning(g: Graph, persons: Persons, firstName: string, start: u64, limit: nat)
    ensures FirstMatches(g, persons, firstName, start, limit, SearchAll(g, persons, firstName, start, limit))
  {
    hide Before, IsMatch, MatchesUpTo;
    var all := MatchesUpTo(g, persons, firstName, start, MAX_DISTANCE);
    var sorted := SortBy(Before, all);
    var rows := Truncate(sorted, limit);
    BeforeIsPreorder();
    SortBySorted(Before, all);
    SortByMultiset(Before, all);
    SortByElements(Before, all);
    MatchesUpToExact(g, persons, firstName, start, MAX_DISTANCE);
    WithinThree(g, persons, firstName, start);
    DistinctPermutation(all, sorted);
    hide SortBy;
    forall c | c in sorted && c !in rows
      ensures |rows| == limit && forall r :: r in rows ==> Before(r, c)
    {
      var k :| 0 <= k < |sorted| && sorted[k] == c;
      assert k < limit ==> c in rows;
    }
  }

  lemma {:induction false} WithinThree(g: Graph, persons: Persons, firstName: string, start: u64)
    ensures forall c :: IsMatch(g, persons, firstName, start, c) ==> c.distance <= MAX_DISTANCE
  {
  }

  ghost predicate Ties(g: Graph, persons: Persons, firstName: string, start: u64, x: Candidate, y: Candidate) {
    && IsMatch(g, persons, firstName, start, x) && IsMatch(g, persons, firstName, start, y)
    && Before(x, y) && Before(y, x)
  }

  ghost predicate NoTies(g: Graph, persons: Persons, firstName: string, start: u64) {
    forall x, y :: Ties(g, persons, firstName, start, x, y) ==> x == y
  }

  /** Persons with different ids never tie, so the answer is unique. */
  lemma {:induction false} AnswerUnique(g: Graph, persons: Persons, firstName: string, start: u64, limit: nat,
                                        a: seq<Candidate>, b: seq<Candidate>)
    requires FirstMatches(g, persons, firstName, start, limit, a) && FirstMatches(g, persons, firstName, start, limit, b)
    requires forall v, w :: v in persons && w in persons && persons[v].id == persons[w].id ==> v == w
    ensures a == b
  {
    hide StringLe, Dist;
    forall x, y | Ties(g, persons, firstName, start, x, y)
      ensures x == y
    {
      BeforeTotal(x, y);
    }
    BeforeIsPreorder();
    hide IsMatch, Before;
    SameRows(g, persons, firstName, start, limit, a, b);
    SameRows(g, persons, firstName, start, limit, b, a);
    forall x
      ensures multiset(a)[x] == multiset(b)[x]
    {
      OnceEach(a, x);
      OnceEach(b, x);
      assert x in multiset(a) <==> x in a;
      assert x in multiset(b) <==> x in b;
    }
    assert multiset(a) == multiset(b);
    forall x, y | x in a && y in a && Before(x, y) && Before(y, x)
      ensures x == y
    {
      assert Ties(g, persons, firstName, start, x, y);
    }
    SortedUnique(Before, a, b);
  }

  /** A row of one answer missing from the other would have to tie with a row missing from the first. */
  lemma {:induction false} SameRows(g: Graph, persons: Persons, firstName: string, start: u64, limit: nat,
                                    a: seq<Candidate>, b: seq<Candidate>)
    requires FirstMatches(g, persons, firstName, start, limit, a) && FirstMatches(g, persons, firstName, start, limit, b)
    requires NoTies(g, persons, firstName, start)
    ensures forall x :: x in a ==> x in b
  {
    hide IsMatch, Before;
    DistinctSize(a);
    DistinctSize(b);
    forall x | x in a
      ensures x in b
    {
      if y :| y in b && y !in a {
        OnlyByTie(g, persons, firstName, start, limit, a, b, x, y);
      } else {
        assert Elements(b) <= Elements(a);
        if x !in b {
          SameSizeSubset(Elements(b), Elements(a));
        }
        assert x in Elements(a);
      }
    }
  }

  lemma {:induction false} OnlyByTie(g: Graph, persons: Persons, firstName: string, start: u64, limit: nat,
                                     a: seq<Candidate>, b: seq<Candidate>, x: Candidate, y: Candidate)
    requires FirstMatches(g, persons, firstName, start, limit, a) && FirstMatches(g, persons, firstName, start, limit, b)
    requires NoTies(g, persons, firstName, start) && x in a && y in b && y !in a
    ensures x in b
  {
    if x !in b {
      MissingTie(g, persons, firstName, start, limit, a, b, x, y);
    }
  }

  lemma {:induction false} MissingTie(g: Graph, persons: Persons, firstName: string, start: u64, limit: nat,
                                      a: seq<Candidate>, b: seq<Candidate>, x: Candidate, y: Candidate)
    requires FirstMatches(g, persons, firstName, start, limit, a) && FirstMatches(g, persons, firstName, start, limit, b)
    requires x in a && x !in b && y in b && y !in a
    ensures Ties(g, persons, firstName, start, x, y)
  {
    hide IsMatch, Before;
  }

  lemma {:induction false} SameSizeSubset<T>(a: set<T>, b: set<T>)
    requires a <= b && |b| <= |a|
    ensures a == b
  {
    if a != b {
      SmallerSubset(a, b);
    }
  }

  lemma {:induction false} SmallerSubset<T>(a: set<T>, b: set<T>)
    requires a < b
    ensures |a| < |b|
  {
    assert b == a + (b - a);
    var x :| x in b - a;
    assert |b - a| > 0;
  }
}
