/** Query IC14: reply weights, memoised per query, and the enumeration of all shortest paths with their weights. */
module Ic14 {
  import opened Types
  import opened Lists
  import opened Sorting
  import opened Segment
  import opened KnowsGraph
  import opened ShortestPaths

  /** The adjacency lists the query reads, one map per edge label and direction. */
  datatype Social = Social(knows: Graph, creators: Graph, created: Graph, replyOfPost: Graph, replyOfComment: Graph)

  /** `message_creator_vid`. */
  function CreatorOf(snb: Social, msg: u64): Option<u64> {
    var creators := Neighbors(snb.creators, msg);
    if creators == [] then None else Some(creators[0])
  }

  function ByCreator(snb: Social, person: u64): u64 -> bool {
    (msg: u64) => CreatorOf(snb, msg) == Some(person)
  }

  // ------------------------------------------------------------ reply weights

  function MessagesBy(snb: Social, author: u64): seq<u64> {
    Filter(ByCreator(snb, author), Neighbors(snb.created, author))
  }

  /** Replied-to messages by `target`, one per reply edge from `msgs`. */
  function RepliesTo(snb: Social, edges: Graph, msgs: seq<u64>, target: u64): seq<u64> {
    if msgs == [] then []
    else
      var n := |msgs| - 1;
      RepliesTo(snb, edges, msgs[..n], target) + Filter(ByCreator(snb, target), Neighbors(edges, msgs[n]))
  }

  /** The weight of `author` replying to `target` in half-units: two per reply to a post, one per reply to a comment. */
  function ReplyHalves(snb: Social, author: u64, target: u64): nat {
    2 * |RepliesTo(snb, snb.replyOfPost, MessagesBy(snb, author), target)|
    + |RepliesTo(snb, snb.replyOfComment, MessagesBy(snb, author), target)|
  }

  /** The weight of a knows edge counts replies both ways. */
  function KnowsHalves(snb: Social, a: u64, b: u64): nat {
    ReplyHalves(snb, a, b) + ReplyHalves(snb, b, a)
  }

  function PathHalves(snb: Social, path: seq<u64>): nat {
    if |path| < 2 then 0
    else PathHalves(snb, path[..|path| - 1]) + KnowsHalves(snb, path[|path| - 2], path[|path| - 1])
  }

  function Reversed<T>(s: seq<T>): seq<T> {
    if s == [] then [] else [s[|s| - 1]] + Reversed(s[..|s| - 1])
  }

  lemma {:induction false} PathHalvesPush(snb: Social, path: seq<u64>, v: u64)
    requires path != []
    ensures PathHalves(snb, path + [v]) == PathHalves(snb, path) + KnowsHalves(snb, path[|path| - 1], v)
  {
    assert (path + [v])[..|path|] == path;
  }

  // ------------------------------------------------------ what a reply weighs

  predicate CreatedBy(snb: Social, msg: u64, person: u64) {
    var creators := Neighbors(snb.creators, msg);
    creators != [] && creators[0] == person
  }

  function WithReply(edges: Graph, msg: u64, to: u64): Graph {
    edges[msg := Neighbors(edges, msg) + [to]]
  }

  lemma {:induction false} NoRepliesTo(snb: Social, edges: Graph, msgs: seq<u64>, target: u64)
    requires forall v :: v in edges ==> edges[v] == []
    ensures RepliesTo(snb, edges, msgs, target) == []
  {
    if msgs != [] {
      NoRepliesTo(snb, edges, msgs[..|msgs| - 1], target);
    }
  }

  /** Without reply edges nothing weighs anything. */
  lemma {:induction false} NoRepliesNoWeight(snb: Social, author: u64, target: u64)
    requires forall v :: v in snb.replyOfPost ==> snb.replyOfPost[v] == []
    requires forall v :: v in snb.replyOfComment ==> snb.replyOfComment[v] == []
    ensures ReplyHalves(snb, author, target) == 0
  {
    hide MessagesBy;
    NoRepliesTo(snb, snb.replyOfPost, MessagesBy(snb, author), target);
    NoRepliesTo(snb, snb.replyOfComment, MessagesBy(snb, author), target);
  }

  lemma {:induction false} FilterSame<T>(p: T -> bool, q: T -> bool, s: seq<T>)
    requires forall x :: x in s ==> p(x) == q(x)
    ensures Filter(p, s) == Filter(q, s)
  {
    if s != [] {
      assert s[|s| - 1] in s;
      FilterSame(p, q, s[..|s| - 1]);
    }
  }

  /** Reply weights read the creators, not the other reply edges. */
  lemma {:induction false} SameCreators(a: Social, b: Social, edges: Graph, msgs: seq<u64>, author: u64, target: u64)
    requires a.creators == b.creators && a.created == b.created
    ensures RepliesTo(a, edges, msgs, target) == RepliesTo(b, edges, msgs, target)
    ensures MessagesBy(a, author) == MessagesBy(b, author)
  {
    FilterSame(ByCreator(a, author), ByCreator(b, author), Neighbors(a.created, author));
    if msgs != [] {
      var n := |msgs| - 1;
      SameCreators(a, b, edges, msgs[..n], author, target);
      FilterSame(ByCreator(a, target), ByCreator(b, target), Neighbors(edges, msgs[n]));
    }
  }

  lemma {:induction false} MoreReplies(snb: Social, edges: Graph, from: u64, target: u64, msg: u64, to: u64)
    ensures |Filter(ByCreator(snb, target), Neighbors(WithReply(edges, msg, to), from))| ==
            |Filter(ByCreator(snb, target), Neighbors(edges, from))| + if from == msg && CreatedBy(snb, to, target) then 1 else 0
  {
    FilterPush(ByCreator(snb, target), Neighbors(edges, msg), to);
    hide Filter;
  }

  /** One more reply edge is found once for every listing of its message, if its end is the target's. */
  lemma {:induction false} OneMoreReply(snb: Social, edges: Graph, msgs: seq<u64>, target: u64, msg: u64, to: u64)
    ensures |RepliesTo(snb, WithReply(edges, msg, to), msgs, target)| ==
            |RepliesTo(snb, edges, msgs, target)| + if CreatedBy(snb, to, target) then multiset(msgs)[msg] else 0
  {
    hide Filter, Neighbors, WithReply;
    if msgs != [] {
      var n := |msgs| - 1;
      OneMoreReply(snb, edges, msgs[..n], target, msg, to);
      assert msgs == msgs[..n] + [msgs[n]];
      MoreReplies(snb, edges, msgs[n], target, msg, to);
    }
  }

  lemma {:induction false} MessagesCount(snb: Social, author: u64, listed: seq<u64>, msg: u64)
    ensures multiset(Filter<u64>(ByCreator(snb, author), listed))[msg] ==
            if CreatedBy(snb, msg, author) then multiset(listed)[msg] else 0
  {
    if listed != [] {
      var n := |listed| - 1;
      MessagesCount(snb, author, listed[..n], msg);
      assert listed == listed[..n] + [listed[n]];
    }
  }

  lemma {:induction false} ListedMessages(snb: Social, author: u64, msg: u64)
    ensures multiset(MessagesBy(snb, author))[msg] ==
            if CreatedBy(snb, msg, author) then multiset(Neighbors(snb.created, author))[msg] else 0
  {
    hide CreatedBy;
    MessagesCount(snb, author, Neighbors(snb.created, author), msg);
  }

  /**
   * One more reply to a post of the target, from a message the author created, raises the weight by two half-units for
   * each time the message is listed under its author; any other reply to a post leaves it alone.
   */
  lemma {:induction false} PostReplyAdds(snb: Social, msg: u64, post: u64, author: u64, target: u64)
    ensures ReplyHalves(snb.(replyOfPost := WithReply(snb.replyOfPost, msg, post)), author, target) ==
            ReplyHalves(snb, author, target) +
            if CreatedBy(snb, msg, author) && CreatedBy(snb, post, target) then 2 * multiset(Neighbors(snb.created, author))[msg] else 0
  {
    hide RepliesTo, MessagesBy, CreatedBy, WithReply, Neighbors;
    var more := snb.(replyOfPost := WithReply(snb.replyOfPost, msg, post));
    var msgs := MessagesBy(snb, author);
    SameCreators(more, snb, more.replyOfPost, msgs, author, target);
    SameCreators(more, snb, snb.replyOfComment, msgs, author, target);
    OneMoreReply(snb, snb.replyOfPost, msgs, target, msg, post);
    ListedMessages(snb, author, msg);
  }

  /** The same for replies to comments, with one half-unit each. */
  lemma {:induction false} CommentReplyAdds(snb: Social, msg: u64, comment: u64, author: u64, target: u64)
    ensures ReplyHalves(snb.(replyOfComment := WithReply(snb.replyOfComment, msg, comment)), author, target) ==
            ReplyHalves(snb, author, target) +
            if CreatedBy(snb, msg, author) && CreatedBy(snb, comment, target) then multiset(Neighbors(snb.created, author))[msg] else 0
  {
    hide RepliesTo, MessagesBy, CreatedBy, WithReply, Neighbors;
    var more := snb.(replyOfComment := WithReply(snb.replyOfComment, msg, comment));
    var msgs := MessagesBy(snb, author);
    SameCreators(more, snb, more.replyOfComment, msgs, author, target);
    SameCreators(more, snb, snb.replyOfPost, msgs, author, target);
    OneMoreReply(snb, snb.replyOfComment, msgs, target, msg, comment);
    ListedMessages(snb, author, msg);
  }

  /** A path weighs the sum over its edges of the reply weights both ways; a single vertex weighs nothing. */
  lemma {:induction false} PathWeighsItsEdges(snb: Social, path: seq<u64>, k: nat)
    requires 0 < k < |path|
    ensures PathHalves(snb, path[..1]) == 0
    ensures PathHalves(snb, path[..k + 1]) ==
            PathHalves(snb, path[..k]) + ReplyHalves(snb, path[k - 1], path[k]) + ReplyHalves(snb, path[k], path[k - 1])
  {
    hide ReplyHalves;
    assert path[..k + 1][..k] == path[..k];
  }

  /** Caches of one query. */
  class Ic14Cache {
    const snb: Social
    var commentCreator: map<u64, u64>
    var knowsWeights: map<(u64, u64), nat>

    /** Every memoised value is the uncached one. */
    ghost predicate Valid()
      reads this
    {
      && (forall m :: m in commentCreator ==> CreatorOf(snb, m) == Some(commentCreator[m]))
      && (forall k :: k in knowsWeights ==> knowsWeights[k] == KnowsHalves(snb, k.0, k.1))
    }

    constructor (snb: Social)
      ensures Valid() && this.snb == snb && commentCreator == map[] && knowsWeights == map[]
    {
      this.snb := snb;
      commentCreator, knowsWeights := map[], map[];
    }

    method CommentCreator(msg: u64) returns (creator: Option<u64>)
      requires Valid()
      modifies this
      ensures Valid() && creator == CreatorOf(snb, msg)
      ensures creator.Some? ==> commentCreator == old(commentCreator)[msg := creator.value]
      ensures creator.None? ==> commentCreator == old(commentCreator)
      ensures knowsWeights == old(knowsWeights)
    {
      if msg in commentCreator {
        assert commentCreator == commentCreator[msg := commentCreator[msg]];
        return Some(commentCreator[msg]);
      }
      creator := CreatorOf(snb, msg);
      if creator.Some? {
        commentCreator := commentCreator[msg := creator.value];
      }
    }

    /** Counts, among the targets of one message's reply edges, those created by `target`. */
    method CountReplies(edges: Graph, msg: u64, target: u64) returns (count: nat)
      requires Valid()
      modifies this
      ensures Valid() && knowsWeights == old(knowsWeights)
      ensures count == |Filter(ByCreator(snb, target), Neighbors(edges, msg))|
    {
      hide Filter;
      var byTarget := ByCreator(snb, target);
      var replied := Neighbors(edges, msg);
      count := 0;
      FilterEmpty(byTarget);
      for i := 0 to |replied|
        invariant Valid() && knowsWeights == old(knowsWeights)
        invariant count == |Filter(byTarget, replied[..i])|
      {
        FilterPush(byTarget, replied[..i], replied[i]);
        assert replied[..i + 1] == replied[..i] + [replied[i]];
        var creator := CommentCreator(replied[i]);
        if creator == Some(target) {
          count := count + 1;
        }
      }
      assert replied[..|replied|] == replied;
    }

    method ReplyWeight(author: u64, target: u64) returns (weight: nat)
      requires Valid()
      modifies this
      ensures Valid() && knowsWeights == old(knowsWeights)
      ensures weight == ReplyHalves(snb, author, target)
    {
      hide Filter, Neighbors;
      var byAuthor := ByCreator(snb, author);
      var msgs := Neighbors(snb.created, author);
      weight := 0;
      FilterEmpty(byAuthor);
      for i := 0 to |msgs|
        invariant Valid() && knowsWeights == old(knowsWeights)
        invariant weight == 2 * |RepliesTo(snb, snb.replyOfPost, Filter(byAuthor, msgs[..i]), target)|
                            + |RepliesTo(snb, snb.replyOfComment, Filter(byAuthor, msgs[..i]), target)|
      {
        FilterPush(byAuthor, msgs[..i], msgs[i]);
        assert msgs[..i + 1] == msgs[..i] + [msgs[i]];
        var creator := CommentCreator(msgs[i]);
        if creator != Some(author) {
          continue;
        }
        RepliesPush(snb, snb.replyOfPost, Filter(byAuthor, msgs[..i]), msgs[i], target);
        RepliesPush(snb, snb.replyOfComment, Filter(byAuthor, msgs[..i]), msgs[i], target);
        var posts := CountReplies(snb.replyOfPost, msgs[i], target);
        var comments := CountReplies(snb.replyOfComment, msgs[i], target);
        weight := weight + 2 * posts + comments;
      }
      assert msgs[..|msgs|] == msgs;
    }

    /** The weight is looked up and stored under the ordered pair. */
    method KnowsWeight(a: u64, b: u64) returns (weight: nat)
      requires Valid()
      modifies this
      ensures Valid() && weight == KnowsHalves(snb, a, b)
      ensures knowsWeights == old(knowsWeights)[(if a <= b then (a, b) else (b, a)) := weight]
    {
      hide ReplyHalves;
      var key := if a <= b then (a, b) else (b, a);
      if key in knowsWeights {
        assert knowsWeights == knowsWeights[key := knowsWeights[key]];
        return knowsWeights[key];
      }
      var there := ReplyWeight(a, b);
      var back := ReplyWeight(b, a);
      weight := there + back;
      knowsWeights := knowsWeights[key := weight];
    }
  }

  lemma {:induction false} FilterEmpty<T>(p: T -> bool)
    ensures Filter(p, []) == []
  {
  }

  lemma {:induction false} RepliesPush(snb: Social, edges: Graph, msgs: seq<u64>, msg: u64, target: u64)
    ensures RepliesTo(snb, edges, msgs + [msg], target) ==
            RepliesTo(snb, edges, msgs, target) + Filter(ByCreator(snb, target), Neighbors(edges, msg))
  {
    assert (msgs + [msg])[..|msgs|] == msgs;
  }

  // -------------------------------------------------------------- enumeration

  datatype WeightedPath = WeightedPath(path: seq<u64>, halves: nat)

  function Weighted(snb: Social, paths: seq<seq<u64>>): seq<WeightedPath> {
    seq(|paths|, i requires 0 <= i < |paths| => WeightedPath(paths[i], PathHalves(snb, paths[i])))
  }

  /** The two buffers the recursive enumeration shares. */
  class Enumeration {
    var currentRev: seq<u64>
    var out: seq<WeightedPath>

    constructor ()
      ensures currentRev == [] && out == []
    {
      currentRev, out := [], [];
    }

    /** Adds to `out` every path down to `cur`, continued by the vertices on the stack; the stack is left as it was. */
    method EnumeratePaths(vids: seq<u64>, parents: seq<seq<nat>>, cur: nat, depth: nat, cache: Ic14Cache)
      requires ParentsInRange(vids, parents) && cur < |vids| && cache.Valid()
      modifies this, cache
      ensures cache.Valid() && currentRev == old(currentRev)
      ensures out == old(out) + Weighted(cache.snb, AppendAll(PathsTo(vids, parents, cur, depth), Reversed(old(currentRev))))
      decreases depth
    {
      hide Reversed, PathHalves, KnowsHalves, PathsVia;
      ghost var rev, found := currentRev, out;
      currentRev := currentRev + [vids[cur]];
      ReversedPush(rev, vids[cur]);
      if depth == 0 {
        var path := Reversed(currentRev);
        var weight := WeighPath(path, cache);
        out := out + [WeightedPath(path, weight)];
        assert AppendAll([[vids[cur]]], Reversed(rev)) == [path];
      } else {
        var via := parents[cur];
        PathsViaNone(vids, parents, depth - 1);
        for k := 0 to |via|
          invariant cache.Valid() && currentRev == rev + [vids[cur]]
          invariant out == found + Weighted(cache.snb, AppendAll(PathsVia(vids, parents, via[..k], depth - 1), Reversed(currentRev)))
        {
          EnumeratePaths(vids, parents, via[k], depth - 1, cache);
          PathsViaPush(vids, parents, via, k, depth - 1);
        }
        assert via[..|via|] == via;
        AppendTwice(PathsVia(vids, parents, via, depth - 1), vids[cur], Reversed(rev));
      }
      currentRev := currentRev[..|currentRev| - 1];
    }
  }

  /** Sum of the knows weights over the consecutive pairs of a path. */
  method WeighPath(path: seq<u64>, cache: Ic14Cache) returns (halves: nat)
    requires cache.Valid()
    modifies cache
    ensures cache.Valid() && halves == PathHalves(cache.snb, path)
  {
    hide KnowsHalves;
    halves := 0;
    if |path| < 2 {
      return;
    }
    for k := 0 to |path| - 1
      invariant cache.Valid() && halves == PathHalves(cache.snb, path[..k + 1])
    {
      var weight := cache.KnowsWeight(path[k], path[k + 1]);
      assert path[..k + 2] == path[..k + 1] + [path[k + 1]];
      PathHalvesPush(cache.snb, path[..k + 1], path[k + 1]);
      halves := halves + weight;
    }
    assert path[..|path|] == path;
  }

  lemma {:induction false} ReversedPush<T>(s: seq<T>, x: T)
    ensures Reversed(s + [x]) == [x] + Reversed(s)
  {
    assert (s + [x])[..|s|] == s;
  }

  lemma {:induction false} PathsViaNone(vids: seq<u64>, parents: seq<seq<nat>>, depth: nat)
    requires ParentsInRange(vids, parents)
    ensures PathsVia(vids, parents, [], depth) == []
  {
  }

  lemma {:induction false} PathsViaPush(vids: seq<u64>, parents: seq<seq<nat>>, via: seq<nat>, k: nat, depth: nat)
    requires ParentsInRange(vids, parents) && IndicesBelow(via, |vids|) && k < |via|
    ensures PathsVia(vids, parents, via[..k + 1], depth) ==
            PathsVia(vids, parents, via[..k], depth) + PathsTo(vids, parents, via[k], depth)
  {
    assert via[..k + 1][..k] == via[..k];
  }

  lemma {:induction false} AppendTwice(paths: seq<seq<u64>>, v: u64, tail: seq<u64>)
    ensures AppendAll(AppendAll(paths, [v]), tail) == AppendAll(paths, [v] + tail)
  {
    forall i | 0 <= i < |paths|
      ensures paths[i] + [v] + tail == paths[i] + ([v] + tail)
    {
    }
  }

  lemma {:induction false} AppendNothing(paths: seq<seq<u64>>)
    ensures AppendAll(paths, Reversed([])) == paths
  {
    assert Reversed<u64>([]) == [];
    forall i | 0 <= i < |paths|
      ensures paths[i] + [] == paths[i]
    {
    }
  }

  /** The answer of the search: every shortest path once, weighed by the uncached sum of symmetric reply weights. */
  ghost predicate AllShortestPathsOf(snb: Social, start: u64, goal: u64, paths: seq<WeightedPath>) {
    && Distinct(paths)
    && forall w: WeightedPath :: w in paths <==>
         ShortestPath(snb.knows, start, goal, w.path) && w.halves == PathHalves(snb, w.path)
  }

  method AllShortestPaths(start: u64, goal: u64, cache: Ic14Cache) returns (paths: seq<WeightedPath>)
    requires cache.Valid() && DistinctLists(cache.snb.knows)
    modifies cache
    ensures cache.Valid() && AllShortestPathsOf(cache.snb, start, goal, paths)
  {
    hide ShortestPath, PathHalves, Complete, DistinctLists, PathsTo, ListsShortest, AllShortestPathsOf;
    if start == goal {
      SelfPath(cache.snb, start);
      return [WeightedPath([start], 0)];
    }
    var dag := ShortestPathParentDag(cache.snb.knows, start, goal);
    ghost var depths: seq<nat>, index: map<u64, nat> :| DagFor(cache.snb.knows, start, goal, dag, depths, index);
    if dag.None? {
      NoPaths(cache.snb, start, goal);
      return [];
    }
    var found := dag.value;
    ghost var d := Dag(found.vids, depths, found.parents, index);
    PathsAreShortest(cache.snb.knows, start, d, found.goalDepth, found.goalIdx);
    ghost var listed := PathsTo(found.vids, found.parents, found.goalIdx, found.goalDepth);
    var search := new Enumeration();
    search.EnumeratePaths(found.vids, found.parents, found.goalIdx, found.goalDepth, cache);
    paths := search.out;
    AppendNothing(listed);
    assert paths == Weighted(cache.snb, listed);
    ListedIsAnswer(cache.snb, start, goal, listed);
  }

  lemma {:induction false} SelfPath(snb: Social, start: u64)
    ensures AllShortestPathsOf(snb, start, start, [WeightedPath([start], 0)])
  {
    assert Reach(snb.knows, start, start, 0);
    OnlyStart(snb.knows, start, start);
    PathHalvesShort(snb, start);
    hide PathHalves, ShortestPath;
    forall w: WeightedPath
      ensures w in [WeightedPath([start], 0)] <==>
              ShortestPath(snb.knows, start, start, w.path) && w.halves == PathHalves(snb, w.path)
    {
      assert w.path in [[start]] <==> w.path == [start];
    }
  }

  lemma {:induction false} PathHalvesShort(snb: Social, v: u64)
    ensures PathHalves(snb, [v]) == 0
  {
  }

  lemma {:induction false} NoPaths(snb: Social, start: u64, goal: u64)
    requires !Reachable(snb.knows, start, goal)
    ensures AllShortestPathsOf(snb, start, goal, [])
  {
    hide PathHalves;
  }

  lemma {:induction false} ListedIsAnswer(snb: Social, start: u64, goal: u64, listed: seq<seq<u64>>)
    requires ListsShortest(snb.knows, start, goal, listed)
    ensures AllShortestPathsOf(snb, start, goal, Weighted(snb, listed))
  {
    hide ShortestPath, PathHalves;
    var paths := Weighted(snb, listed);
    forall w: WeightedPath
      ensures w in paths <==> w.path in listed && w.halves == PathHalves(snb, w.path)
    {
      if w.path in listed && w.halves == PathHalves(snb, w.path) {
        var i :| 0 <= i < |listed| && listed[i] == w.path;
        assert paths[i] == w;
      }
    }
    forall i, j | 0 <= i < j < |paths|
      ensures paths[i] != paths[j]
    {
      assert listed[i] != listed[j];
    }
  }

  // -------------------------------------------------------------------- the query

  function StartOf(w: WeightedPath): u64 {
    if w.path == [] then 0 else w.path[0]
  }

  /** Heavier paths first, then by first vertex. */
  predicate ByWeight(a: WeightedPath, b: WeightedPath) {
    a.halves > b.halves || (a.halves == b.halves && StartOf(a) <= StartOf(b))
  }

  lemma {:induction false} UpdateMultiset<T>(s: seq<T>, i: nat, x: T)
    requires i < |s|
    ensures multiset(s[i := x]) == multiset(s) - multiset{s[i]} + multiset{x}
  {
    assert s == s[..i] + ([s[i]] + s[i + 1..]);
    assert s[i := x] == s[..i] + ([x] + s[i + 1..]);
  }

  lemma {:induction false} SwapMultiset<T>(s: seq<T>, i: nat, j: nat)
    requires i < j < |s|
    ensures multiset(s[i := s[j]][j := s[i]]) == multiset(s)
  {
    UpdateMultiset(s, i, s[j]);
    UpdateMultiset(s[i := s[j]], j, s[i]);
    assert s[i] in multiset(s);
  }

  /** Moves the entry at `i` up while it belongs strictly behind its parent. */
  function SiftUp(heap: seq<WeightedPath>, i: nat): seq<WeightedPath>
    requires i < |heap| || i == 0
    decreases i
  {
    if i == 0 then heap
    else
      var parent := (i - 1) / 2;
      if ByWeight(heap[i], heap[parent]) then heap
      else SiftUp(heap[parent := heap[i]][i := heap[parent]], parent)
  }

  /** The heap after pushing all paths in turn. */
  function Heaped(paths: seq<WeightedPath>): seq<WeightedPath> {
    if paths == [] then []
    else
      var heap := Heaped(paths[..|paths| - 1]) + [paths[|paths| - 1]];
      SiftUp(heap, |heap| - 1)
  }

  lemma {:induction false} SiftUpPermutes(heap: seq<WeightedPath>, i: nat)
    requires i < |heap| || i == 0
    ensures multiset(SiftUp(heap, i)) == multiset(heap)
    decreases i
  {
    hide ByWeight;
    if i > 0 && !ByWeight(heap[i], heap[(i - 1) / 2]) {
      var parent := (i - 1) / 2;
      SwapMultiset(heap, parent, i);
      SiftUpPermutes(heap[parent := heap[i]][i := heap[parent]], parent);
    }
  }

  lemma {:induction false} HeapedPermutes(paths: seq<WeightedPath>)
    ensures multiset(Heaped(paths)) == multiset(paths)
  {
    hide SiftUp;
    if paths != [] {
      var n := |paths| - 1;
      HeapedPermutes(paths[..n]);
      assert paths == paths[..n] + [paths[n]];
      SiftUpPermutes(Heaped(paths[..n]) + [paths[n]], |Heaped(paths[..n])|);
    }
  }

  /** Entries that tie with `w`. */
  function TiesWith(w: WeightedPath): WeightedPath -> bool {
    (x: WeightedPath) => ByWeight(x, w) && ByWeight(w, x)
  }

  /**
   * The paths in descending weight, then by first vertex. Ties stand in the order the heap left them in, which need
   * not be the order they came in.
   */
  ghost predicate IsTopkOrder(paths: seq<WeightedPath>, ordered: seq<WeightedPath>) {
    && multiset(ordered) == multiset(paths) && SortedBy(ByWeight, ordered)
    && forall w: WeightedPath :: Filter(TiesWith(w), ordered) == Filter(TiesWith(w), Heaped(paths))
  }

  lemma {:induction false} SortedHeapIsOrder(paths: seq<WeightedPath>)
    ensures IsTopkOrder(paths, SortBy(ByWeight, Heaped(paths)))
  {
    hide ByWeight, SortBy, Heaped, TiesWith;
    var heap := Heaped(paths);
    assert TotalPreorder(ByWeight) by { ByWeightIsPreorder(); }
    HeapedPermutes(paths);
    SortBySorted(ByWeight, heap);
    SortByMultiset(ByWeight, heap);
    forall w: WeightedPath
      ensures Filter(TiesWith(w), SortBy(ByWeight, heap)) == Filter(TiesWith(w), heap)
    {
      FilterSort(ByWeight, TiesWith(w), heap);
      TiesStay(w, heap);
    }
  }

  lemma {:induction false} TiesStay(w: WeightedPath, heap: seq<WeightedPath>)
    ensures SortBy(ByWeight, Filter(TiesWith(w), heap)) == Filter(TiesWith(w), heap)
  {
    hide SortBy;
    var ties := Filter(TiesWith(w), heap);
    forall i, j | 0 <= i < j < |ties|
      ensures ByWeight(ties[i], ties[j])
    {
      InFilter(TiesWith(w), heap, ties[i]);
      InFilter(TiesWith(w), heap, ties[j]);
    }
    SortByFixed(ByWeight, ties);
  }

  /** There is only one such order. */
  lemma {:induction false} TopkOrderUnique(paths: seq<WeightedPath>, a: seq<WeightedPath>, b: seq<WeightedPath>)
    requires IsTopkOrder(paths, a) && IsTopkOrder(paths, b)
    ensures a == b
  {
    forall w: WeightedPath
      ensures Filter(TiesWith(w), a) == Filter(TiesWith(w), b)
    {
    }
    hide Heaped, ByWeight;
    SameByTies(a, b);
  }

  /** Two sorted arrangements with the same tied entries in the same order agree. */
  lemma {:induction false} SameByTies(a: seq<WeightedPath>, b: seq<WeightedPath>)
    requires SortedBy(ByWeight, a) && SortedBy(ByWeight, b) && multiset(a) == multiset(b)
    requires forall w: WeightedPath :: Filter(TiesWith(w), a) == Filter(TiesWith(w), b)
    ensures a == b
    decreases |a|
  {
    assert |multiset(a)| == |a| && |multiset(b)| == |b|;
    if a != [] {
      var n := |a| - 1;
      ByWeightIsPreorder();
      Sorting.SplitLast(a);
      Sorting.SplitLast(b);
      assert a[n] in multiset(b) && b[n] in multiset(a);
      LastIsMaximal(ByWeight, a, b[n]);
      LastIsMaximal(ByWeight, b, a[n]);
      LastTie(a, a[n]);
      LastTie(b, a[n]);
      hide ByWeight;
      forall w: WeightedPath
        ensures Filter(TiesWith(w), a[..n]) == Filter(TiesWith(w), b[..n])
      {
        FilterDropLast(w, a, b);
      }
      SameByTies(a[..n], b[..n]);
    }
  }

  lemma {:induction false} LastTie(s: seq<WeightedPath>, w: WeightedPath)
    requires s != [] && TiesWith(w)(s[|s| - 1])
    ensures var ties := Filter(TiesWith(w), s);
            ties != [] && ties[|ties| - 1] == s[|s| - 1]
  {
  }

  lemma {:induction false} FilterDropLast(w: WeightedPath, a: seq<WeightedPath>, b: seq<WeightedPath>)
    requires a != [] && b != [] && a[|a| - 1] == b[|b| - 1] && Filter(TiesWith(w), a) == Filter(TiesWith(w), b)
    ensures Filter(TiesWith(w), a[..|a| - 1]) == Filter(TiesWith(w), b[..|b| - 1])
  {
    var n, m := |a| - 1, |b| - 1;
    FilterPush(TiesWith(w), a[..n], a[n]);
    FilterPush(TiesWith(w), b[..m], b[m]);
    assert a == a[..n] + [a[n]] && b == b[..m] + [b[m]];
    var x, y := Filter(TiesWith(w), a[..n]), Filter(TiesWith(w), b[..m]);
    if TiesWith(w)(a[n]) {
      assert x == (x + [a[n]])[..|x|] && y == (y + [b[m]])[..|y|];
    }
  }

  lemma {:induction false} SiftUpStep(heap: seq<WeightedPath>, i: nat)
    requires i < |heap|
    ensures i == 0 ==> SiftUp(heap, i) == heap
    ensures i > 0 ==> var parent := (i - 1) / 2;
              SiftUp(heap, i) == if ByWeight(heap[i], heap[parent]) then heap
                                 else SiftUp(heap[parent := heap[i]][i := heap[parent]], parent)
  {
    hide ByWeight;
  }

  lemma {:induction false} HeapedPush(paths: seq<WeightedPath>, w: WeightedPath)
    ensures Heaped(paths + [w]) == SiftUp(Heaped(paths) + [w], |Heaped(paths)|)
  {
    hide SiftUp;
    assert (paths + [w])[..|paths|] == paths;
  }

  lemma {:induction false} HeapOfTies(p: WeightedPath, q: WeightedPath, r: WeightedPath)
    requires ByWeight(q, p) && !ByWeight(r, p)
    ensures Heaped([p, q, r]) == [r, q, p]
  {
    hide ByWeight, SiftUp;
    assert Heaped([]) == [];
    hide Heaped;
    assert [] + [p] == [p] && [p] + [q] == [p, q] && [p, q] + [r] == [p, q, r];
    HeapedPush([], p);
    SiftUpStep([p], 0);
    HeapedPush([p], q);
    SiftUpStep([p, q], 1);
    HeapedPush([p, q], r);
    SiftUpStep([p, q, r], 2);
    assert [p, q, r][0 := r][2 := p] == [r, q, p];
    SiftUpStep([r, q, p], 0);
  }

  lemma {:induction false} SortOfTies(p: WeightedPath, q: WeightedPath, r: WeightedPath)
    requires ByWeight(q, p) && !ByWeight(r, q) && !ByWeight(r, p)
    ensures SortBy(ByWeight, [r, q, p]) == [q, p, r]
  {
    hide ByWeight;
    assert [] + [r] == [r] && [r] + [q] == [r, q] && [r, q] + [p] == [r, q, p];
    SortByPush(ByWeight, [], r);
    SortByPush(ByWeight, [r], q);
    SortByPush(ByWeight, [r, q], p);
    assert SortBy(ByWeight, []) == [];
    hide SortBy;
    assert InsertSorted(ByWeight, [], r) == [r];
    assert [r][..0] == [];
    assert InsertSorted(ByWeight, [r], q) == [q, r];
    assert [q, r][..1] == [q];
    assert InsertSorted(ByWeight, [q, r], p) == [q, p, r];
  }

  /** Two tied paths followed by a lighter one: the heap moves the first behind the second. */
  lemma {:induction false} TiesAreReordered(p: WeightedPath, q: WeightedPath, r: WeightedPath)
    requires TiesWith(p)(q) && p.halves > r.halves
    ensures forall ordered :: IsTopkOrder([p, q, r], ordered) <==> ordered == [q, p, r]
  {
    HeapOfTies(p, q, r);
    SortOfTies(p, q, r);
    hide SortBy, Heaped, IsTopkOrder, ByWeight;
    SortedHeapIsOrder([p, q, r]);
    forall ordered | IsTopkOrder([p, q, r], ordered)
      ensures ordered == [q, p, r]
    {
      TopkOrderUnique([p, q, r], ordered, [q, p, r]);
    }
  }

  /** Pushes the paths into a heap one by one, sifting each up in place, and then sorts the heap. */
  method TopkOrder(paths: seq<WeightedPath>) returns (ordered: seq<WeightedPath>)
    ensures IsTopkOrder(paths, ordered)
    ensures forall i, j :: 0 <= i < j < |ordered| ==> ordered[i].halves >= ordered[j].halves
  {
    hide ByWeight, SortBy, SiftUp, IsTopkOrder;
    var heap: seq<WeightedPath> := [];
    for k := 0 to |paths|
      invariant heap == Heaped(paths[..k])
    {
      heap := heap + [paths[k]];
      assert paths[..k + 1][..k] == paths[..k];
      var i := |heap| - 1;
      while i > 0
        invariant 0 <= i < |heap| && SiftUp(heap, i) == Heaped(paths[..k + 1])
      {
        SiftUpStep(heap, i);
        var parent := (i - 1) / 2;
        if ByWeight(heap[i], heap[parent]) {
          break;
        }
        heap := heap[parent := heap[i]][i := heap[parent]];
        i := parent;
      }
      SiftUpStep(heap, i);
    }
    assert paths[..|paths|] == paths;
    SortedHeapIsOrder(paths);
    ordered := SortBy(ByWeight, heap);
    HeaviestFirst(paths, ordered);
  }

  lemma {:induction false} HeaviestFirst(paths: seq<WeightedPath>, ordered: seq<WeightedPath>)
    requires IsTopkOrder(paths, ordered)
    ensures forall i, j :: 0 <= i < j < |ordered| ==> ordered[i].halves >= ordered[j].halves
    ensures forall i, j :: 0 <= i < j < |ordered| && ordered[i].halves == ordered[j].halves ==>
                             StartOf(ordered[i]) <= StartOf(ordered[j])
  {
    hide Heaped;
    forall i, j | 0 <= i < j < |ordered|
      ensures ByWeight(ordered[i], ordered[j])
    {
    }
  }

  lemma {:induction false} ByWeightIsPreorder()
    ensures TotalPreorder(ByWeight)
  {
  }

  lemma {:induction false} SameAnswer(snb: Social, start: u64, goal: u64, a: seq<WeightedPath>, b: seq<WeightedPath>)
    requires AllShortestPathsOf(snb, start, goal, a) && multiset(b) == multiset(a)
    ensures AllShortestPathsOf(snb, start, goal, b)
  {
    hide ShortestPath, PathHalves;
    DistinctPermutation(a, b);
    forall w: WeightedPath
      ensures w in b <==> w in a
    {
      assert w in b <==> w in multiset(b);
    }
  }

  /** The query: all shortest paths between two person vertices, each once, heaviest first; none for a vertex not stored. */
  method Ic14(persons: set<u64>, person1: i64, person2: i64, cache: Ic14Cache) returns (rows: seq<WeightedPath>)
    requires cache.Valid() && DistinctLists(cache.snb.knows)
    modifies cache
    ensures var start, goal := EncodeVid(1, person1), EncodeVid(1, person2);
            && (start !in persons || goal !in persons ==> rows == [])
            && (start in persons && goal in persons ==> AllShortestPathsOf(cache.snb, start, goal, rows))
    ensures forall i, j :: 0 <= i < j < |rows| ==> rows[i].halves >= rows[j].halves
  {
    hide AllShortestPathsOf, DistinctLists;
    var start, goal := EncodeVid(PERSON_LABEL, person1), EncodeVid(PERSON_LABEL, person2);
    if start !in persons || goal !in persons {
      return [];
    }
    var paths := AllShortestPaths(start, goal, cache);
    rows := TopkOrder(paths);
    hide Heaped;
    SameAnswer(cache.snb, start, goal, paths, rows);
  }
}
