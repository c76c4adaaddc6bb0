/** Edge records, their keys and the orders the engine sorts them by. */
module Types {

  const U64_MAX: int := 0xFFFF_FFFF_FFFF_FFFF

  type u64 = x: int | 0 <= x <= U64_MAX
  type i32 = x: int | -0x8000_0000 <= x < 0x8000_0000

  const VERTEX_LABEL_UNIT: int := 0x100_0000_0000_0000  // 1 << VERTEX_LABEL_SHIFT
  const UNKNOWN_SOURCE_LABEL: i32 := 0
  const MIXED_EDGE_TYPE: i32 := 0

  /** `size_of::<EdgeRecord>()`: three u64, one i32 and one byte, aligned to eight. */
  const EDGE_RECORD_SIZE: nat := 32

  datatype Marker = Insert | Delete

  datatype Edge = Edge(src: u64, dst: u64, edgeType: i32, ts: u64, marker: Marker)

  datatype Key = Key(src: u64, edgeType: i32, dst: u64)

  function KeyOf(e: Edge): Key {
    Key(e.src, e.edgeType, e.dst)
  }

  function SourceLabel(src: u64): i32 {
    var top := src / VERTEX_LABEL_UNIT;
    if 1 <= top <= 8 then top else UNKNOWN_SOURCE_LABEL
  }

  /** The label of a vertex is the top byte of its id; only the eight known ones count. */
  lemma {:induction false} SourceLabelIff(src: u64, l: i32)
    requires l != 0
    ensures SourceLabel(src) == l <==> 1 <= l <= 8 && l * 0x100_0000_0000_0000 <= src < (l + 1) * 0x100_0000_0000_0000
  {
    var top := src / VERTEX_LABEL_UNIT;
    assert top * VERTEX_LABEL_UNIT <= src < (top + 1) * VERTEX_LABEL_UNIT;
  }

  /** Lexicographic order on (src, edge type, dst). */
  predicate KeyLt(a: Key, b: Key) {
    a.src < b.src ||
    (a.src == b.src && (a.edgeType < b.edgeType || (a.edgeType == b.edgeType && a.dst < b.dst)))
  }

  /** (src, edge type, dst), the order of merged output. */
  predicate ByKey(a: Edge, b: Edge) {
    !KeyLt(KeyOf(b), KeyOf(a))
  }

  /** (src, edge type, dst, ts), the order inside a segment. */
  predicate ByKeyTs(a: Edge, b: Edge) {
    KeyLt(KeyOf(a), KeyOf(b)) || (KeyOf(a) == KeyOf(b) && a.ts <= b.ts)
  }

  /** (src, edge type, dst, Reverse(ts)), the order a merge reads its input in. */
  predicate ByKeyNewestFirst(a: Edge, b: Edge) {
    KeyLt(KeyOf(a), KeyOf(b)) || (KeyOf(a) == KeyOf(b) && a.ts >= b.ts)
  }

  function Elements<T>(s: seq<T>): set<T> {
    set e | e in s
  }

  /** All elements of a list of lists, in order. */
  function Flatten<T>(ss: seq<seq<T>>): seq<T> {
    if ss == [] then [] else ss[0] + Flatten(ss[1..])
  }

  lemma {:induction false} EmptyFlatten<T>()
    ensures Flatten<T>([]) == []
  {
  }

  lemma {:induction false} FlattenOne<T>(s: seq<T>)
    ensures Flatten([s]) == s
  {
    assert [s][1..] == [];
    assert Flatten([s]) == s + Flatten([s][1..]);
  }

  lemma {:induction false} FlattenAppend<T>(a: seq<seq<T>>, b: seq<seq<T>>)
    ensures Flatten(a + b) == Flatten(a) + Flatten(b)
  {
    if a == [] {
      assert a + b == b;
    } else {
      assert (a + b)[0] == a[0] && (a + b)[1..] == a[1..] + b;
      FlattenAppend(a[1..], b);
    }
  }

  lemma {:induction false} InFlatten<T>(ss: seq<seq<T>>, x: T)
    ensures x in Flatten(ss) <==> exists i :: 0 <= i < |ss| && x in ss[i]
  {
    if ss != [] {
      InFlatten(ss[1..], x);
      if x in Flatten(ss[1..]) {
        var i :| 0 <= i < |ss[1..]| && x in ss[1..][i];
        assert x in ss[i + 1];
      }
      if i :| 0 <= i < |ss| && x in ss[i] && i > 0 {
        assert x in ss[1..][i - 1];
      }
    }
  }

  function Filter<T>(p: T -> bool, s: seq<T>): seq<T> {
    if s == [] then []
    else
      var n := |s| - 1;
      if p(s[n]) then Filter(p, s[..n]) + [s[n]] else Filter(p, s[..n])
  }

  lemma {:induction false} FilterPush<T>(p: T -> bool, s: seq<T>, x: T)
    ensures Filter(p, s + [x]) == if p(x) then Filter(p, s) + [x] else Filter(p, s)
  {
    assert (s + [x])[..|s|] == s;
  }

  lemma {:induction false} InFilter<T>(p: T -> bool, s: seq<T>, x: T)
    ensures x in Filter(p, s) <==> x in s && p(x)
  {
    if s != [] {
      var n := |s| - 1;
      assert s == s[..n] + [s[n]];
      InFilter(p, s[..n], x);
    }
  }

  lemma {:induction false} FilterAll<T>(p: T -> bool, s: seq<T>)
    requires forall k :: 0 <= k < |s| ==> p(s[k])
    ensures Filter(p, s) == s
  {
    if s != [] {
      FilterAll(p, s[..|s| - 1]);
      assert s == s[..|s| - 1] + [s[|s| - 1]];
    }
  }

  lemma {:induction false} FilterNone<T>(p: T -> bool, s: seq<T>)
    requires forall k :: 0 <= k < |s| ==> !p(s[k])
    ensures Filter(p, s) == []
  {
    if s != [] {
      FilterNone(p, s[..|s| - 1]);
    }
  }

  lemma {:induction false} FilterAppend<T>(p: T -> bool, a: seq<T>, b: seq<T>)
    ensures Filter(p, a + b) == Filter(p, a) + Filter(p, b)
  {
    if b == [] {
      assert a + b == a;
    } else {
      var n := |b| - 1;
      FilterAppend(p, a, b[..n]);
      assert a + b == (a + b[..n]) + [b[n]];
      FilterPush(p, a + b[..n], b[n]);
    }
  }

  lemma {:induction false} MulAtLeast(k: int, d: nat)
    requires k >= 1
    ensures k * d >= d
  {
  }

  lemma {:induction false} LessThanOnce(k: int, d: nat)
    requires d > 0 && k * d < d
    ensures k <= 0
  {
    if k >= 1 {
      MulAtLeast(k, d);
    }
  }

  lemma {:induction false} DivModUnique(n: nat, d: nat, q: nat, r: nat)
    requires d > 0 && r < d && n == d * q + r
    ensures n % d == r && n / d == q
  {
    var k := n / d - q;
    assert n == d * (n / d) + n % d;
    assert k * d == d * (n / d) - d * q;
    LessThanOnce(k, d);
    assert (-k) * d == -(k * d);
    LessThanOnce(-k, d);
  }
}
