/** Root posts of comments: memoised over parent arrays at build time, walked over reply edges at query time. */
module CommentRoots {
  import opened Types
  import opened Segment
  import opened KnowsGraph
  import BaseCsr

  type u32 = BaseCsr.u32

  const NO_ROOT: u32 := 0xFFFF_FFFF

  /** Parent columns: kind 0 replies to a post, kind 1 to a comment, anything else to nothing. */
  datatype Parents = Parents(kind: seq<nat>, id: seq<u32>)

  /** Following `n` comment parents from `c` leads to a comment whose chain ends in `root`. */
  ghost predicate EndsAt(p: Parents, c: u32, n: nat, root: u32)
    decreases n
  {
    && c < |p.kind| == |p.id|
    && if n == 0 then p.kind[c] != 1 && root == (if p.kind[c] == 0 then p.id[c] else 0xFFFF_FFFF)
       else p.kind[c] == 1 && EndsAt(p, p.id[c], n - 1, root)
  }

  ghost predicate Ends(p: Parents, c: u32) {
    exists n: nat, root: u32 :: EndsAt(p, c, n, root)
  }

  /** No comment's chain of parents is cyclic or leaves the arrays. */
  ghost predicate Acyclic(p: Parents) {
    |p.kind| == |p.id| && forall c: u32 :: c < |p.kind| ==> Ends(p, c)
  }

  ghost function ChainLength(p: Parents, c: u32): (n: nat)
    requires Ends(p, c)
    ensures exists root: u32 :: EndsAt(p, c, n, root)
  {
    var n: nat, root: u32 :| EndsAt(p, c, n, root);
    n
  }

  /** The post at the end of the chain, `NO_ROOT` if it ends elsewhere. */
  ghost function RootOf(p: Parents, c: u32): (root: u32)
    requires Ends(p, c)
    ensures EndsAt(p, c, ChainLength(p, c), root)
  {
    var root: u32 :| EndsAt(p, c, ChainLength(p, c), root);
    root
  }

  lemma {:induction false} EndsAtUnique(p: Parents, c: u32, m: nat, a: u32, n: nat, b: u32)
    requires EndsAt(p, c, m, a) && EndsAt(p, c, n, b)
    ensures m == n && a == b
    decreases m
  {
    if m > 0 && n > 0 {
      EndsAtUnique(p, p.id[c], m - 1, a, n - 1, b);
    }
  }

  lemma {:induction false} ParentEnds(p: Parents, c: u32)
    requires Ends(p, c) && p.kind[c] == 1
    ensures Ends(p, p.id[c]) && ChainLength(p, c) == ChainLength(p, p.id[c]) + 1 && RootOf(p, c) == RootOf(p, p.id[c])
  {
    var n, root := ChainLength(p, c), RootOf(p, c);
    assert EndsAt(p, p.id[c], n - 1, root);
    EndsAtUnique(p, p.id[c], n - 1, root, ChainLength(p, p.id[c]), RootOf(p, p.id[c]));
  }

  lemma {:induction false} EndsHere(p: Parents, c: u32)
    requires Ends(p, c) && p.kind[c] != 1
    ensures RootOf(p, c) == if p.kind[c] == 0 then p.id[c] else NO_ROOT
  {
    assert EndsAt(p, c, 0, if p.kind[c] == 0 then p.id[c] else NO_ROOT);
    EndsAtUnique(p, c, 0, if p.kind[c] == 0 then p.id[c] else NO_ROOT, ChainLength(p, c), RootOf(p, c));
  }

  lemma {:induction false} InArrays(p: Parents, c: u32)
    requires Ends(p, c)
    ensures c < |p.kind| == |p.id|
  {
  }

  /** A filled slot holds the root of its comment. */
  ghost predicate MemoHolds(p: Parents, memo: seq<u32>) {
    |memo| == |p.kind| && forall c: u32 :: c < |memo| && Ends(p, c) ==> memo[c] == NO_ROOT || memo[c] == RootOf(p, c)
  }

  /** Recursion through the memo; slots are filled on the way back and never change once they hold a post. */
  method ResolveCommentRoot(comment: u32, p: Parents, memo: array<u32>) returns (root: u32)
    requires Ends(p, comment) && MemoHolds(p, memo[..])
    modifies memo
    ensures root == RootOf(p, comment) && MemoHolds(p, memo[..]) && comment < memo.Length && memo[comment] == root
    ensures forall c: u32 :: c < memo.Length && old(memo[c]) != NO_ROOT ==> memo[c] == old(memo[c])
    decreases ChainLength(p, comment)
  {
    hide Ends;
    InArrays(p, comment);
    if memo[comment] != NO_ROOT {
      assert memo[..][comment] == memo[comment];
      return memo[comment];
    }
    if p.kind[comment] == 0 {
      EndsHere(p, comment);
      root := p.id[comment];
    } else if p.kind[comment] == 1 {
      ParentEnds(p, comment);
      root := ResolveCommentRoot(p.id[comment], p, memo);
    } else {
      EndsHere(p, comment);
      root := NO_ROOT;
    }
    ghost var before := memo[..];
    memo[comment] := root;
    MemoFilled(p, before, memo[..], comment);
  }

  lemma {:induction false} MemoFilled(p: Parents, before: seq<u32>, after: seq<u32>, c: u32)
    requires MemoHolds(p, before) && c < |before| && Ends(p, c) && after == before[c := RootOf(p, c)]
    ensures MemoHolds(p, after)
  {
    hide Ends;
  }

  /** The driving loop: every slot ends up with the root of its comment, or the sentinel if there is none. */
  method ResolveAll(p: Parents) returns (memo: array<u32>)
    requires Acyclic(p) && |p.kind| <= 0x1_0000_0000
    ensures memo.Length == |p.kind| && forall c: u32 :: c < |p.kind| ==> memo[c] == RootOf(p, c)
  {
    hide Ends;
    memo := new u32[|p.kind|](_ => NO_ROOT);
    for idx := 0 to |p.kind|
      invariant MemoHolds(p, memo[..])
      invariant forall c: u32 :: c < idx ==> memo[c] == RootOf(p, c)
    {
      ghost var before := memo[..];
      var root := ResolveCommentRoot(idx, p, memo);
      forall c: u32 | c < idx
        ensures memo[c] == RootOf(p, c)
      {
        assert before[c] == RootOf(p, c);
        assert memo[..][c] == memo[c];
      }
    }
  }

  // ----------------------------------------------------------------- at query time

  datatype Replies = Replies(posts: set<u64>, toPost: Graph, toComment: Graph)

  function First(g: Graph, v: u64): Option<u64> {
    if Neighbors(g, v) == [] then None else Some(Neighbors(g, v)[0])
  }

  /** After `n` first reply-of-comment edges the first reply-of-post edge leads to `post`. */
  ghost predicate LeadsTo(r: Replies, v: u64, n: nat, post: u64)
    decreases n
  {
    if n == 0 then First(r.toPost, v) == Some(post)
    else First(r.toPost, v).None? && First(r.toComment, v).Some? && LeadsTo(r, First(r.toComment, v).value, n - 1, post)
  }

  ghost predicate HasRoot(r: Replies, v: u64, post: u64) {
    exists n: nat :: LeadsTo(r, v, n, post)
  }

  /** Only first edges count: a post the vertex replies to ends the chain, a comment carries it on. */
  lemma {:induction false} LeadsToIs(r: Replies, v: u64, n: nat, post: u64)
    ensures LeadsTo(r, v, 0, post) <==> Neighbors(r.toPost, v) != [] && Neighbors(r.toPost, v)[0] == post
    ensures LeadsTo(r, v, n + 1, post) <==>
            Neighbors(r.toPost, v) == [] && Neighbors(r.toComment, v) != [] && LeadsTo(r, Neighbors(r.toComment, v)[0], n, post)
  {
  }

  /** The vertices walked through have no post of their own and lead on to one another or to the current vertex. */
  ghost predicate Walked(r: Replies, seen: set<u64>, current: u64) {
    forall v :: v in seen ==>
      First(r.toPost, v).None? && First(r.toComment, v).Some? && First(r.toComment, v).value in seen + {current}
  }

  lemma {:induction false} CycleHasNoRoot(r: Replies, seen: set<u64>, v: u64, n: nat, post: u64)
    requires forall u :: u in seen ==>
               First(r.toPost, u).None? && First(r.toComment, u).Some? && First(r.toComment, u).value in seen
    requires v in seen
    ensures !LeadsTo(r, v, n, post)
    decreases n
  {
    hide First;
    if n > 0 {
      CycleHasNoRoot(r, seen, First(r.toComment, v).value, n - 1, post);
    }
  }

  /** One step along the chain keeps the root. */
  lemma {:induction false} StepKeepsRoot(r: Replies, v: u64, post: u64)
    requires First(r.toPost, v).None? && First(r.toComment, v).Some?
    ensures HasRoot(r, v, post) <==> HasRoot(r, First(r.toComment, v).value, post)
  {
    hide First;
    var w := First(r.toComment, v).value;
    if n: nat :| LeadsTo(r, v, n, post) {
      assert LeadsTo(r, w, n - 1, post);
    }
    if n: nat :| LeadsTo(r, w, n, post) {
      assert LeadsTo(r, v, n + 1, post);
    }
  }

  /** The answer of the walk: a post itself, or the root of the chain, or nothing. */
  ghost predicate IsRootPost(r: Replies, msg: u64, answer: Option<u64>) {
    if msg in r.posts then answer == Some(msg)
    else
      match answer
      case Some(post) => HasRoot(r, msg, post)
      case None => forall post :: !HasRoot(r, msg, post)
  }

  /** Walks up the reply edges; on cyclic input it stops at the first vertex seen twice. */
  method RootPostVid(r: Replies, msg: u64) returns (answer: Option<u64>)
    ensures IsRootPost(r, msg, answer)
  {
    hide First, HasRoot, Vertices;
    if msg in r.posts {
      return Some(msg);
    }
    var current := msg;
    var seen: set<u64> := {};
    ghost var bound := Vertices(r.toComment) + {msg};
    while current !in seen
      invariant Walked(r, seen, current) && seen <= bound && current in bound
      invariant forall post :: HasRoot(r, msg, post) <==> HasRoot(r, current, post)
      decreases bound - seen
    {
      seen := seen + {current};
      var post := First(r.toPost, current);
      if post.Some? {
        RootHere(r, current, post.value);
        return post;
      }
      var next := First(r.toComment, current);
      if next.None? {
        NoRootHere(r, current);
        return None;
      }
      forall p
        ensures HasRoot(r, current, p) <==> HasRoot(r, next.value, p)
      {
        StepKeepsRoot(r, current, p);
      }
      NextIsVertex(r.toComment, current);
      current := next.value;
    }
    forall post
      ensures !HasRoot(r, current, post)
    {
      NeverLeads(r, seen, current, post);
    }
    answer := None;
  }

  lemma {:induction false} NeverLeads(r: Replies, seen: set<u64>, current: u64, post: u64)
    requires Walked(r, seen, current) && current in seen
    ensures !HasRoot(r, current, post)
  {
    hide First;
    forall n: nat
      ensures !LeadsTo(r, current, n, post)
    {
      CycleHasNoRoot(r, seen, current, n, post);
    }
  }

  lemma {:induction false} RootHere(r: Replies, v: u64, post: u64)
    requires First(r.toPost, v) == Some(post)
    ensures HasRoot(r, v, post)
  {
    assert LeadsTo(r, v, 0, post);
  }

  lemma {:induction false} NoRootHere(r: Replies, v: u64)
    requires First(r.toPost, v).None? && First(r.toComment, v).None?
    ensures forall post :: !HasRoot(r, v, post)
  {
  }

  lemma {:induction false} NextIsVertex(g: Graph, v: u64)
    requires First(g, v).Some?
    ensures First(g, v).value in Vertices(g)
  {
    NeighborIsVertex(g, v, First(g, v).value);
  }

  lemma {:induction false} LeadsToUnique(r: Replies, v: u64, m: nat, a: u64, n: nat, b: u64)
    requires LeadsTo(r, v, m, a) && LeadsTo(r, v, n, b)
    ensures m == n && a == b
    decreases m
  {
    hide First;
    if m > 0 && n > 0 {
      LeadsToUnique(r, First(r.toComment, v).value, m - 1, a, n - 1, b);
    }
  }

  // ------------------------------------------------------------------- both agree

  /** Columns and reply edges describe the same forest, posts and comments named by `postVid` and `commentVid`. */
  ghost predicate SameForest(p: Parents, r: Replies, postVid: u32 -> u64, commentVid: u32 -> u64) {
    && |p.kind| == |p.id|
    && forall c: u32 :: c < |p.kind| ==> SameParent(p, r, postVid, commentVid, c)
  }

  ghost predicate SameParent(p: Parents, r: Replies, postVid: u32 -> u64, commentVid: u32 -> u64, c: u32)
    requires c < |p.kind| == |p.id|
  {
    && commentVid(c) !in r.posts
    && First(r.toPost, commentVid(c)) == (if p.kind[c] == 0 then Some(postVid(p.id[c])) else None)
    && (p.kind[c] != 0 ==> First(r.toComment, commentVid(c)) == if p.kind[c] == 1 then Some(commentVid(p.id[c])) else None)
    && (p.kind[c] == 0 ==> p.id[c] != NO_ROOT)
  }

  lemma {:induction false} ChainsAgree(p: Parents, r: Replies, postVid: u32 -> u64, commentVid: u32 -> u64, c: u32, n: nat, root: u32)
    requires SameForest(p, r, postVid, commentVid) && EndsAt(p, c, n, root)
    ensures root != NO_ROOT ==> LeadsTo(r, commentVid(c), n, postVid(root))
    ensures root == NO_ROOT ==> forall post :: !HasRoot(r, commentVid(c), post)
    decreases n
  {
    hide First;
    assert SameParent(p, r, postVid, commentVid, c);
    if n > 0 {
      ChainsAgree(p, r, postVid, commentVid, p.id[c], n - 1, root);
      forall post
        ensures HasRoot(r, commentVid(c), post) <==> HasRoot(r, commentVid(p.id[c]), post)
      {
        StepKeepsRoot(r, commentVid(c), post);
      }
    } else if p.kind[c] != 0 {
      NoRootHere(r, commentVid(c));
    }
  }

  /** On one reply forest the walk answers with the memoised root, and with nothing exactly for the sentinel. */
  lemma {:induction false} WalkIsMemo(p: Parents, r: Replies, postVid: u32 -> u64, commentVid: u32 -> u64, c: u32, answer: Option<u64>)
    requires Acyclic(p) && SameForest(p, r, postVid, commentVid) && c < |p.kind|
    requires IsRootPost(r, commentVid(c), answer)
    ensures answer == if RootOf(p, c) == NO_ROOT then None else Some(postVid(RootOf(p, c)))
  {
    hide First;
    assert Ends(p, c);
    var n, root := ChainLength(p, c), RootOf(p, c);
    ChainsAgree(p, r, postVid, commentVid, c, n, root);
    assert SameParent(p, r, postVid, commentVid, c);
    if root != NO_ROOT {
      assert HasRoot(r, commentVid(c), postVid(root));
      if answer.Some? {
        var m: nat :| LeadsTo(r, commentVid(c), m, answer.value);
        LeadsToUnique(r, commentVid(c), m, answer.value, n, postVid(root));
      }
    }
  }
}
