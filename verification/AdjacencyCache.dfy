/** The adjacency cache file: groups sorted by key, tiling one destination array. */
module AdjacencyCache {
  import opened Types
  import opened Lists
  import opened Sorting
  import opened CsrFormat
  import opened Adjacency

  const ADJ_MAGIC: seq<byte> := [76, 83, 77, 65, 68, 74, 48, 49]  // "LSMADJ01"
  const ADJ_HEADER_LEN: nat := 32
  const ADJ_GROUP_LEN: nat := 32

  datatype Group = Group(src: u64, edgeType: i32, dsts: seq<u64>)

  datatype LoadResult = Loaded(adjacency: AdjacencyMap) | Truncated | WrongMagic | WrongVersion | GroupOutOfRange

  // ------------------------------------------------------------------ the layout

  function TotalDsts(groups: seq<Group>): nat {
    if groups == [] then 0 else TotalDsts(groups[..|groups| - 1]) + |groups[|groups| - 1].dsts|
  }

  function U64sBytes(dsts: seq<u64>): seq<byte> {
    if dsts == [] then [] else U64sBytes(dsts[..|dsts| - 1]) + LeBytes(dsts[|dsts| - 1], 8)
  }

  function CacheHeader(groupCount: nat, totalEdges: nat): seq<byte> {
    ADJ_MAGIC + LeBytes(1, 4) + LeBytes(ADJ_HEADER_LEN, 4) + LeBytes(groupCount, 8) + LeBytes(totalEdges, 8)
  }

  function GroupEntry(g: Group, first: nat): seq<byte> {
    LeBytes(g.src, 8) + I32Bytes(g.edgeType) + LeBytes(0, 4) + LeBytes(first, 8) + LeBytes(|g.dsts|, 8)
  }

  /** Each group's first index is the number of destinations before it. */
  function GroupTable(groups: seq<Group>): seq<byte> {
    if groups == [] then []
    else
      var n := |groups| - 1;
      GroupTable(groups[..n]) + GroupEntry(groups[n], TotalDsts(groups[..n]))
  }

  function DstTable(groups: seq<Group>): seq<byte> {
    if groups == [] then [] else DstTable(groups[..|groups| - 1]) + U64sBytes(groups[|groups| - 1].dsts)
  }

  function CacheBytes(groups: seq<Group>): seq<byte> {
    CacheHeader(|groups|, TotalDsts(groups)) + GroupTable(groups) + DstTable(groups)
  }

  // ------------------------------------------------------------------- the loader

  function DecodeU64s(b: seq<byte>): seq<u64>
    requires |b| % 8 == 0
  {
    seq(|b| / 8, i requires 0 <= i < |b| / 8 => GetU64(b, 8 * i))
  }

  /** The first `n` groups of a table, over the destination bytes `dsts`. */
  function LoadGroups(table: seq<byte>, dsts: seq<byte>, n: nat): LoadResult
    requires ADJ_GROUP_LEN * n <= |table|
    decreases n
  {
    if n == 0 then Loaded(map[])
    else
      match LoadGroups(table, dsts, n - 1)
      case Loaded(before) =>
        var chunk := table[ADJ_GROUP_LEN * (n - 1)..ADJ_GROUP_LEN * n];
        var start := GetU64(chunk, 16) * 8;
        var end := start + GetU64(chunk, 24) * 8;
        if end > |dsts| then GroupOutOfRange
        else Loaded(before[(GetU64(chunk, 0), I32Value(chunk[8..12])) := DecodeU64s(dsts[start..end])])
      case failure => failure
  }

  function LoadCache(file: seq<byte>): LoadResult {
    if |file| < ADJ_HEADER_LEN then Truncated
    else if file[0..8] != ADJ_MAGIC then WrongMagic
    else if GetN(file, 8, 4) != 1 then WrongVersion
    else
      var groupCount, edgeCount := GetU64(file, 16), GetU64(file, 24);
      var table := ADJ_HEADER_LEN + groupCount * ADJ_GROUP_LEN;
      if |file| < table || |file| < table + edgeCount * 8 then Truncated
      else LoadGroups(file[ADJ_HEADER_LEN..table], file[table..table + edgeCount * 8], groupCount)
  }

  // ------------------------------------------------------------------ round trip

  lemma {:induction false} U64sBytesLength(dsts: seq<u64>)
    ensures |U64sBytes(dsts)| == 8 * |dsts|
  {
    if dsts != [] {
      U64sBytesLength(dsts[..|dsts| - 1]);
    }
  }

  lemma {:induction false} U64sBytesAppend(a: seq<u64>, b: seq<u64>)
    ensures U64sBytes(a + b) == U64sBytes(a) + U64sBytes(b)
  {
    hide LeBytes, U64sBytes;
    if b == [] {
      assert a + b == a;
      NoU64s();
    } else {
      var n := |b| - 1;
      U64sBytesAppend(a, b[..n]);
      assert a + b == (a + b[..n]) + [b[n]] && b == b[..n] + [b[n]];
      U64sBytesPush(a + b[..n], b[n]);
      U64sBytesPush(b[..n], b[n]);
    }
  }

  lemma {:induction false} U64sBytesPush(a: seq<u64>, x: u64)
    ensures U64sBytes(a + [x]) == U64sBytes(a) + LeBytes(x, 8)
  {
    hide LeBytes;
    assert (a + [x])[..|a|] == a;
  }

  lemma {:induction false} NoU64s()
    ensures U64sBytes([]) == []
  {
  }

  lemma {:induction false} DecodeAppend(a: seq<byte>, b: seq<byte>)
    requires |a| % 8 == 0 && |b| == 8
    ensures DecodeU64s(a + b) == DecodeU64s(a) + [GetU64(b, 0)]
  {
    hide LeValue;
    forall i | 0 <= i < |a| / 8
      ensures GetU64(a + b, 8 * i) == GetU64(a, 8 * i)
    {
      assert (a + b)[8 * i..8 * i + 8] == a[8 * i..8 * i + 8];
    }
    assert (a + b)[|a|..|a| + 8] == b[0..8];
  }

  lemma {:induction false} U64sRoundTrip(dsts: seq<u64>)
    ensures |U64sBytes(dsts)| == 8 * |dsts|
    ensures DecodeU64s(U64sBytes(dsts)) == dsts
  {
    U64sBytesLength(dsts);
    if dsts != [] {
      var n := |dsts| - 1;
      U64sRoundTrip(dsts[..n]);
      U64RoundTrip(dsts[n]);
      assert LeBytes(dsts[n], 8)[0..8] == LeBytes(dsts[n], 8);
      DecodeAppend(U64sBytes(dsts[..n]), LeBytes(dsts[n], 8));
    }
  }

  lemma {:induction false} TableLengths(groups: seq<Group>)
    ensures |GroupTable(groups)| == ADJ_GROUP_LEN * |groups|
    ensures |DstTable(groups)| == 8 * TotalDsts(groups)
  {
    if groups != [] {
      var n := |groups| - 1;
      TableLengths(groups[..n]);
      U64sBytesLength(groups[n].dsts);
    }
  }

  /** The groups tile both tables: each finds its own entry and its own destinations. */
  lemma {:induction false} TablesTile(groups: seq<Group>, i: nat)
    requires i < |groups|
    ensures |GroupTable(groups)| == ADJ_GROUP_LEN * |groups| && |DstTable(groups)| == 8 * TotalDsts(groups)
    ensures TotalDsts(groups[..i]) + |groups[i].dsts| <= TotalDsts(groups)
    ensures GroupTable(groups)[ADJ_GROUP_LEN * i..ADJ_GROUP_LEN * (i + 1)] == GroupEntry(groups[i], TotalDsts(groups[..i]))
    ensures var first := TotalDsts(groups[..i]);
            DstTable(groups)[8 * first..8 * (first + |groups[i].dsts|)] == U64sBytes(groups[i].dsts)
  {
    hide GroupEntry, U64sBytes;
    var n := |groups| - 1;
    var front := groups[..n];
    TableLengths(groups);
    TableLengths(front);
    U64sBytesLength(groups[n].dsts);
    var first := TotalDsts(groups[..i]);
    var entry, dsts := GroupEntry(groups[n], TotalDsts(front)), U64sBytes(groups[n].dsts);
    assert GroupTable(groups) == GroupTable(front) + entry && DstTable(groups) == DstTable(front) + dsts;
    if i < n {
      TablesTile(front, i);
      assert front[..i] == groups[..i];
      hide GroupTable, DstTable, TotalDsts;
      SliceOfFront(GroupTable(front), entry, ADJ_GROUP_LEN * i, ADJ_GROUP_LEN * (i + 1));
      SliceOfFront(DstTable(front), dsts, 8 * first, 8 * (first + |groups[i].dsts|));
    } else {
      hide GroupTable, DstTable, TotalDsts;
      SliceOfBack(GroupTable(front), entry);
      SliceOfBack(DstTable(front), dsts);
    }
  }

  lemma {:induction false} SliceOfFront(a: seq<byte>, b: seq<byte>, lo: nat, hi: nat)
    requires lo <= hi <= |a|
    ensures (a + b)[lo..hi] == a[lo..hi]
  {
  }

  lemma {:induction false} SliceOfBack(a: seq<byte>, b: seq<byte>)
    ensures (a + b)[|a|..|a| + |b|] == b
  {
  }

  ghost predicate CacheFits(groups: seq<Group>) {
    |groups| <= U64_MAX && TotalDsts(groups) <= U64_MAX
  }

  lemma {:induction false} FourParts(a: seq<byte>, b: seq<byte>, c: seq<byte>, d: seq<byte>, e: seq<byte>)
    requires |a| == 8 && |b| == 4 && |c| == 4 && |d| == 8 && |e| == 8
    ensures var s := a + b + c + d + e;
            |s| == 32 && s[0..8] == a && s[8..12] == b && s[12..16] == c && s[16..24] == d && s[24..32] == e
  {
  }

  lemma {:induction false} EntryRoundTrip(g: Group, first: nat)
    requires first <= U64_MAX && |g.dsts| <= U64_MAX
    ensures var chunk := GroupEntry(g, first);
            && |chunk| == ADJ_GROUP_LEN && GetU64(chunk, 0) == g.src && I32Value(chunk[8..12]) == g.edgeType
            && GetU64(chunk, 16) == first && GetU64(chunk, 24) == |g.dsts|
  {
    hide LeBytes, LeValue, I32Value, I32Bytes;
    I32Length(g.edgeType);
    FourParts(LeBytes(g.src, 8), I32Bytes(g.edgeType), LeBytes(0, 4), LeBytes(first, 8), LeBytes(|g.dsts|, 8));
    U64RoundTrip(g.src);
    U64RoundTrip(first);
    U64RoundTrip(|g.dsts|);
    I32RoundTrip(g.edgeType);
  }

  function MapOf(groups: seq<Group>): AdjacencyMap {
    if groups == [] then map[]
    else
      var g := groups[|groups| - 1];
      MapOf(groups[..|groups| - 1])[(g.src, g.edgeType) := g.dsts]
  }

  lemma {:induction false} GroupsRoundTrip(groups: seq<Group>, n: nat)
    requires CacheFits(groups) && n <= |groups|
    ensures |GroupTable(groups)| == ADJ_GROUP_LEN * |groups|
    ensures LoadGroups(GroupTable(groups), DstTable(groups), n) == Loaded(MapOf(groups[..n]))
  {
    hide GroupTable, DstTable, GroupEntry, U64sBytes, DecodeU64s, GetU64, I32Value, TotalDsts;
    TableLengths(groups);
    if n > 0 {
      var g, first := groups[n - 1], TotalDsts(groups[..n - 1]);
      GroupsRoundTrip(groups, n - 1);
      TablesTile(groups, n - 1);
      EntryRoundTrip(g, first);
      U64sRoundTrip(g.dsts);
      assert groups[..n][..n - 1] == groups[..n - 1];
    }
  }

  lemma {:induction false} HeaderReads(groupCount: nat, totalEdges: nat, rest: seq<byte>)
    requires groupCount <= U64_MAX && totalEdges <= U64_MAX
    ensures var file := CacheHeader(groupCount, totalEdges) + rest;
            && |file| == ADJ_HEADER_LEN + |rest| && file[0..8] == ADJ_MAGIC && GetN(file, 8, 4) == 1
            && GetU64(file, 16) == groupCount && GetU64(file, 24) == totalEdges
            && file[ADJ_HEADER_LEN..] == rest
  {
    hide LeBytes, LeValue;
    var h := CacheHeader(groupCount, totalEdges);
    FourParts(ADJ_MAGIC, LeBytes(1, 4), LeBytes(ADJ_HEADER_LEN, 4), LeBytes(groupCount, 8), LeBytes(totalEdges, 8));
    var file := h + rest;
    assert file[0..8] == h[0..8] && file[8..12] == h[8..12] && file[16..24] == h[16..24] && file[24..32] == h[24..32];
    U64RoundTrip(groupCount);
    U64RoundTrip(totalEdges);
    Widths();
    LeRoundTrip(1, 4);
  }

  /** Loading what was written gives back the groups. */
  lemma {:induction false} CacheRoundTrip(groups: seq<Group>)
    requires CacheFits(groups)
    ensures LoadCache(CacheBytes(groups)) == Loaded(MapOf(groups))
  {
    hide CacheHeader, GroupTable, DstTable, TotalDsts, GetU64, GetN, LoadGroups, MapOf;
    var total := TotalDsts(groups);
    var table, dsts := GroupTable(groups), DstTable(groups);
    TableLengths(groups);
    HeaderReads(|groups|, total, table + dsts);
    GroupsRoundTrip(groups, |groups|);
    var file := CacheHeader(|groups|, total) + (table + dsts);
    assert CacheBytes(groups) == file;
    var at := ADJ_HEADER_LEN + |groups| * ADJ_GROUP_LEN;
    assert file[ADJ_HEADER_LEN..at] == file[ADJ_HEADER_LEN..][..|table|];
    assert file[at..at + total * 8] == file[ADJ_HEADER_LEN..][|table|..];
    assert groups[..|groups|] == groups;
  }

  // ------------------------------------------------------------ byte by byte

  /** The file is a 32-byte header, 32 bytes a group and 8 bytes a destination. */
  lemma {:induction false} HeaderBytesAre(groups: seq<Group>)
    requires CacheFits(groups)
    ensures var file := CacheBytes(groups);
            && |file| == 32 + 32 * |groups| + 8 * TotalDsts(groups)
            && file[0..8] == [76, 83, 77, 65, 68, 74, 48, 49]  // "LSMADJ01"
            && LeValue(file[8..12]) == 1 && LeValue(file[12..16]) == 32
            && GetU64(file, 16) == |groups| && GetU64(file, 24) == TotalDsts(groups)
  {
    hide LeBytes, LeValue, GroupTable, DstTable, TotalDsts;
    var h := CacheHeader(|groups|, TotalDsts(groups));
    TableLengths(groups);
    FourParts(ADJ_MAGIC, LeBytes(1, 4), LeBytes(ADJ_HEADER_LEN, 4), LeBytes(|groups|, 8), LeBytes(TotalDsts(groups), 8));
    var file := CacheBytes(groups);
    assert file == h + (GroupTable(groups) + DstTable(groups));
    assert file[0..8] == h[0..8] && file[8..12] == h[8..12] && file[12..16] == h[12..16];
    assert file[16..24] == h[16..24] && file[24..32] == h[24..32];
    U64RoundTrip(|groups|);
    U64RoundTrip(TotalDsts(groups));
    Widths();
    LeRoundTrip(1, 4);
    LeRoundTrip(32, 4);
  }

  /** An entry names its source, its type, four zero bytes, the destinations before it and its own. */
  lemma {:induction false} EntryBytesAre(groups: seq<Group>, i: nat)
    requires CacheFits(groups) && i < |groups|
    ensures var file, at := CacheBytes(groups), 32 + 32 * i;
            && |file| >= at + 32
            && GetU64(file, at) == groups[i].src && I32Value(file[at + 8..at + 12]) == groups[i].edgeType
            && LeValue(file[at + 12..at + 16]) == 0
            && GetU64(file, at + 16) == TotalDsts(groups[..i]) && GetU64(file, at + 24) == |groups[i].dsts|
  {
    hide CacheHeader, GroupTable, DstTable, TotalDsts, LeValue, LeBytes, I32Value, I32Bytes;
    var file, at, table := CacheBytes(groups), 32 + 32 * i, GroupTable(groups);
    var g, first := groups[i], TotalDsts(groups[..i]);
    TableLengths(groups);
    TablesTile(groups, i);
    HeaderReads(|groups|, TotalDsts(groups), table + DstTable(groups));
    assert file == CacheHeader(|groups|, TotalDsts(groups)) + (table + DstTable(groups));
    EntryRoundTrip(g, first);
    I32Length(g.edgeType);
    FourParts(LeBytes(g.src, 8), I32Bytes(g.edgeType), LeBytes(0, 4), LeBytes(first, 8), LeBytes(|g.dsts|, 8));
    Widths();
    LeRoundTrip(0, 4);
    assert file[at..at + 32] == table[32 * i..32 * (i + 1)];
    SliceOfSlice(file, at, 32, 0, 8);
    SliceOfSlice(file, at, 32, 8, 4);
    SliceOfSlice(file, at, 32, 12, 4);
    SliceOfSlice(file, at, 32, 16, 8);
    SliceOfSlice(file, at, 32, 24, 8);
  }

  lemma {:induction false} U64At(dsts: seq<u64>, j: nat)
    requires j < |dsts|
    ensures |U64sBytes(dsts)| == 8 * |dsts| && LeValue(U64sBytes(dsts)[8 * j..8 * j + 8]) == dsts[j]
  {
    hide LeValue, LeBytes;
    var n := |dsts| - 1;
    U64sBytesLength(dsts);
    U64sBytesLength(dsts[..n]);
    if j < n {
      U64At(dsts[..n], j);
      SliceOfFront(U64sBytes(dsts[..n]), LeBytes(dsts[n], 8), 8 * j, 8 * j + 8);
    } else {
      SliceOfBack(U64sBytes(dsts[..n]), LeBytes(dsts[n], 8));
      U64RoundTrip(dsts[n]);
    }
  }

  /** The destinations stand behind the table in the order of the groups. */
  lemma {:induction false} DstBytesAre(groups: seq<Group>, i: nat, j: nat)
    requires CacheFits(groups) && i < |groups| && j < |groups[i].dsts|
    ensures var file, at := CacheBytes(groups), 32 + 32 * |groups| + 8 * (TotalDsts(groups[..i]) + j);
            |file| >= at + 8 && GetU64(file, at) == groups[i].dsts[j]
  {
    hide CacheHeader, GroupTable, DstTable, TotalDsts, LeValue, U64sBytes;
    var file, first := CacheBytes(groups), TotalDsts(groups[..i]);
    var from := 32 + 32 * |groups| + 8 * first;
    TableLengths(groups);
    TablesTile(groups, i);
    HeaderReads(|groups|, TotalDsts(groups), GroupTable(groups) + DstTable(groups));
    U64At(groups[i].dsts, j);
    var to := from + 8 * |groups[i].dsts|;
    assert file[from..to] == DstTable(groups)[8 * first..8 * (first + |groups[i].dsts|)];
    SliceOfSlice(file, from, to - from, 8 * j, 8);
  }

  // ------------------------------------------------------------------- the writer

  predicate ByGroupKey(a: Group, b: Group) {
    a.src < b.src || (a.src == b.src && a.edgeType <= b.edgeType)
  }

  /** The entries of a map, each once. */
  ghost predicate IsEntries(adjacency: AdjacencyMap, groups: seq<Group>) {
    && Distinct(groups)
    && (forall g :: g in groups ==> (g.src, g.edgeType) in adjacency && adjacency[(g.src, g.edgeType)] == g.dsts)
    && (forall k :: k in adjacency ==> Group(k.0, k.1, adjacency[k]) in groups)
  }

  lemma {:induction false} MapOfEntries(adjacency: AdjacencyMap, groups: seq<Group>)
    requires IsEntries(adjacency, groups)
    ensures MapOf(groups) == adjacency
  {
    MapOfFaithful(adjacency, groups);
    forall k | k in adjacency
      ensures k in MapOf(groups)
    {
      MapOfKeys(groups, Group(k.0, k.1, adjacency[k]));
    }
  }

  lemma {:induction false} MapOfFaithful(adjacency: AdjacencyMap, groups: seq<Group>)
    requires forall g :: g in groups ==> (g.src, g.edgeType) in adjacency && adjacency[(g.src, g.edgeType)] == g.dsts
    ensures forall k :: k in MapOf(groups) ==> k in adjacency && adjacency[k] == MapOf(groups)[k]
  {
    if groups != [] {
      MapOfFaithful(adjacency, groups[..|groups| - 1]);
    }
  }

  lemma {:induction false} MapOfKeys(groups: seq<Group>, g: Group)
    requires g in groups
    ensures (g.src, g.edgeType) in MapOf(groups)
  {
    var n := |groups| - 1;
    if g != groups[n] {
      assert groups == groups[..n] + [groups[n]];
      MapOfKeys(groups[..n], g);
    }
  }

  /** Appends a group's destinations, `chunk` of them at a time through one buffer. */
  method WriteDsts(out0: seq<byte>, dsts: seq<u64>, chunk: nat) returns (out: seq<byte>)
    requires chunk > 0
    ensures out == out0 + U64sBytes(dsts)
  {
    hide LeBytes, U64sBytes;
    out := out0;
    var pos := 0;
    NoU64s();
    while pos < |dsts|
      invariant 0 <= pos <= |dsts| && out == out0 + U64sBytes(dsts[..pos])
    {
      var end := if pos + chunk < |dsts| then pos + chunk else |dsts|;
      var buf: seq<byte> := [];
      assert dsts[pos..pos] == [];
      for i := pos to end
        invariant buf == U64sBytes(dsts[pos..i])
      {
        buf := buf + LeBytes(dsts[i], 8);
        U64sPush(dsts, pos, i);
      }
      out := out + buf;
      assert dsts[..end] == dsts[..pos] + dsts[pos..end];
      U64sBytesAppend(dsts[..pos], dsts[pos..end]);
      pos := end;
    }
    assert dsts[..|dsts|] == dsts;
  }

  lemma {:induction false} U64sPush(dsts: seq<u64>, from: nat, i: nat)
    requires from <= i < |dsts|
    ensures U64sBytes(dsts[from..i + 1]) == U64sBytes(dsts[from..i]) + LeBytes(dsts[i], 8)
  {
    hide LeBytes, U64sBytes;
    assert dsts[from..i + 1] == dsts[from..i] + [dsts[i]];
    U64sBytesPush(dsts[from..i], dsts[i]);
  }

  lemma {:induction false} PutNext(buf: seq<byte>, prefix: seq<byte>, bytes: seq<byte>)
    requires |prefix| + |bytes| <= |buf| && buf[..|prefix|] == prefix
    ensures |Put(buf, Field(|prefix|, bytes))| == |buf|
    ensures Put(buf, Field(|prefix|, bytes))[..|prefix| + |bytes|] == prefix + bytes
  {
  }

  /** The five fields of a 32-byte record, written in place one after the other. */
  method EncodeFields(a: seq<byte>, b: seq<byte>, c: seq<byte>, d: seq<byte>, e: seq<byte>) returns (out: array<byte>)
    requires |a| == 8 && |b| == 4 && |c| == 4 && |d| == 8 && |e| == 8
    ensures fresh(out) && out[..] == a + b + c + d + e
  {
    hide Put;
    out := new byte[32](_ => 0);
    PutNext(out[..], [], a);
    PutField(out, Field(0, a));
    PutNext(out[..], a, b);
    PutField(out, Field(8, b));
    PutNext(out[..], a + b, c);
    PutField(out, Field(12, c));
    PutNext(out[..], a + b + c, d);
    PutField(out, Field(16, d));
    PutNext(out[..], a + b + c + d, e);
    PutField(out, Field(24, e));
  }

  /** Collects the entries of the map in any order and sorts them by key. */
  method CollectGroups(adjacency: AdjacencyMap) returns (groups: seq<Group>)
    ensures IsEntries(adjacency, groups) && SortedBy(ByGroupKey, groups)
  {
    groups := [];
    var pending := adjacency.Keys;
    while pending != {}
      invariant pending <= adjacency.Keys && Distinct(groups)
      invariant forall g :: g in groups ==> (g.src, g.edgeType) in adjacency && adjacency[(g.src, g.edgeType)] == g.dsts
      invariant forall g :: g in groups ==> (g.src, g.edgeType) !in pending
      invariant forall k :: k in adjacency && k !in pending ==> Group(k.0, k.1, adjacency[k]) in groups
      decreases |pending|
    {
      var k :| k in pending;
      ghost var before := groups;
      groups := groups + [Group(k.0, k.1, adjacency[k])];
      assert groups[|before|] == Group(k.0, k.1, adjacency[k]);
      assert forall g :: g in before ==> g in groups;
      pending := pending - {k};
    }
    assert TotalPreorder(ByGroupKey);
    SortBySorted(ByGroupKey, groups);
    SortByElements(ByGroupKey, groups);
    SortByMultiset(ByGroupKey, groups);
    DistinctPermutation(groups, SortBy(ByGroupKey, groups));
    groups := SortBy(ByGroupKey, groups);
  }

  /** Writes the group table, each group at its running first index. */
  method WriteTable(out0: seq<byte>, groups: seq<Group>) returns (out: seq<byte>)
    ensures out == out0 + GroupTable(groups)
  {
    hide GroupEntry, GroupTable, DstTable, TotalDsts, LeBytes;
    out := out0;
    var first: nat := 0;
    NoGroups();
    for i := 0 to |groups|
      invariant first == TotalDsts(groups[..i]) && out == out0 + GroupTable(groups[..i])
    {
      var g := groups[i];
      I32Length(g.edgeType);
      var group := EncodeFields(LeBytes(g.src, 8), I32Bytes(g.edgeType), LeBytes(0, 4), LeBytes(first, 8), LeBytes(|g.dsts|, 8));
      EntryIs(g, first);
      PushGroup(groups, i);
      out := out + group[..];
      first := first + |g.dsts|;
    }
    assert groups[..|groups|] == groups;
  }

  method WriteAllDsts(out0: seq<byte>, groups: seq<Group>, chunk: nat) returns (out: seq<byte>)
    requires chunk > 0
    ensures out == out0 + DstTable(groups)
  {
    hide GroupEntry, GroupTable, DstTable, TotalDsts, U64sBytes;
    out := out0;
    NoGroups();
    for i := 0 to |groups|
      invariant out == out0 + DstTable(groups[..i])
    {
      PushGroup(groups, i);
      out := WriteDsts(out, groups[i].dsts, chunk);
    }
    assert groups[..|groups|] == groups;
  }

  method CountDsts(groups: seq<Group>) returns (total: nat)
    ensures total == TotalDsts(groups)
  {
    total := 0;
    for i := 0 to |groups|
      invariant total == TotalDsts(groups[..i])
    {
      assert groups[..i + 1][..i] == groups[..i];
      total := total + |groups[i].dsts|;
    }
    assert groups[..|groups|] == groups;
  }

  /** The image of the entries of a map in key order; if counts and indices fit, loading it gives the map back. */
  ghost predicate IsCacheOf(adjacency: AdjacencyMap, groups: seq<Group>, file: seq<byte>) {
    && IsEntries(adjacency, groups) && file == CacheBytes(groups)
    && (forall i, j :: 0 <= i < j < |groups| ==>
          groups[i].src < groups[j].src || (groups[i].src == groups[j].src && groups[i].edgeType <= groups[j].edgeType))
    && (CacheFits(groups) ==> LoadCache(file) == Loaded(adjacency))
  }

  lemma {:induction false} SortedIsKeyOrder(groups: seq<Group>)
    requires SortedBy(ByGroupKey, groups)
    ensures forall i, j :: 0 <= i < j < |groups| ==>
              groups[i].src < groups[j].src || (groups[i].src == groups[j].src && groups[i].edgeType <= groups[j].edgeType)
  {
    forall i, j | 0 <= i < j < |groups|
      ensures ByGroupKey(groups[i], groups[j])
    {
    }
  }

  /** A map has one cache file, so the chunk size it was written with is irrelevant. */
  lemma {:induction false} CacheIsDetermined(adjacency: AdjacencyMap, groups: seq<Group>, file: seq<byte>,
                                             groups': seq<Group>, file': seq<byte>)
    requires IsCacheOf(adjacency, groups, file) && IsCacheOf(adjacency, groups', file')
    ensures groups == groups' && file == file'
  {
    hide CacheBytes, CacheFits, LoadCache;
    forall g
      ensures g in groups <==> g in groups'
    {
      SameEntries(adjacency, groups, groups', g);
      SameEntries(adjacency, groups', groups, g);
    }
    SameOnce(groups, groups');
    assert TotalPreorder(ByGroupKey);
    assert SortedBy(ByGroupKey, groups) && SortedBy(ByGroupKey, groups');
    SortedUnique(ByGroupKey, groups, groups');
  }

  lemma {:induction false} SameEntries(adjacency: AdjacencyMap, a: seq<Group>, b: seq<Group>, g: Group)
    requires IsEntries(adjacency, a) && IsEntries(adjacency, b)
    ensures g in a ==> g in b
  {
    if g in a {
      assert g == Group(g.src, g.edgeType, adjacency[(g.src, g.edgeType)]);
    }
  }

  /** Writes the cache, chunk by chunk. */
  method WriteCache(adjacency: AdjacencyMap, chunk: nat) returns (file: seq<byte>)
    requires chunk > 0
    ensures exists groups: seq<Group> :: IsCacheOf(adjacency, groups, file)
  {
    hide CacheHeader, LoadCache, CacheBytes, GroupTable, DstTable, TotalDsts, MapOf, LeBytes, IsEntries, CacheFits, SortedBy;
    var groups := CollectGroups(adjacency);
    var total := CountDsts(groups);
    var header := EncodeFields(ADJ_MAGIC, LeBytes(1, 4), LeBytes(ADJ_HEADER_LEN, 4), LeBytes(|groups|, 8), LeBytes(total, 8));
    HeaderIs(|groups|, total);
    file := WriteTable(header[..], groups);
    file := WriteAllDsts(file, groups, chunk);
    CacheIs(groups);
    if CacheFits(groups) {
      CacheRoundTrip(groups);
      MapOfEntries(adjacency, groups);
    }
    SortedIsKeyOrder(groups);
    assert IsCacheOf(adjacency, groups, file);
  }

  lemma {:induction false} NoGroups()
    ensures TotalDsts([]) == 0 && GroupTable([]) == [] && DstTable([]) == []
  {
  }

  lemma {:induction false} PushGroup(groups: seq<Group>, i: nat)
    requires i < |groups|
    ensures TotalDsts(groups[..i + 1]) == TotalDsts(groups[..i]) + |groups[i].dsts|
    ensures GroupTable(groups[..i + 1]) == GroupTable(groups[..i]) + GroupEntry(groups[i], TotalDsts(groups[..i]))
    ensures DstTable(groups[..i + 1]) == DstTable(groups[..i]) + U64sBytes(groups[i].dsts)
  {
    assert groups[..i + 1][..i] == groups[..i];
  }

  lemma {:induction false} HeaderIs(groupCount: nat, totalEdges: nat)
    ensures CacheHeader(groupCount, totalEdges) ==
            ADJ_MAGIC + LeBytes(1, 4) + LeBytes(ADJ_HEADER_LEN, 4) + LeBytes(groupCount, 8) + LeBytes(totalEdges, 8)
  {
  }

  lemma {:induction false} EntryIs(g: Group, first: nat)
    ensures GroupEntry(g, first) ==
            LeBytes(g.src, 8) + I32Bytes(g.edgeType) + LeBytes(0, 4) + LeBytes(first, 8) + LeBytes(|g.dsts|, 8)
  {
  }

  lemma {:induction false} CacheIs(groups: seq<Group>)
    ensures CacheBytes(groups) == CacheHeader(|groups|, TotalDsts(groups)) + GroupTable(groups) + DstTable(groups)
  {
  }

  /** The loader's loop over fixed-size group entries. */
  method Load(file: seq<byte>) returns (r: LoadResult)
    ensures r == LoadCache(file)
  {
    hide DecodeU64s, GetU64, I32Value, GetN;
    if |file| < ADJ_HEADER_LEN {
      return Truncated;
    }
    if file[0..8] != ADJ_MAGIC {
      return WrongMagic;
    }
    if GetN(file, 8, 4) != 1 {
      return WrongVersion;
    }
    var groupCount: nat, edgeCount: nat := GetU64(file, 16), GetU64(file, 24);
    var at := ADJ_HEADER_LEN + groupCount * ADJ_GROUP_LEN;
    if |file| < at || |file| < at + edgeCount * 8 {
      return Truncated;
    }
    var table, dsts := file[ADJ_HEADER_LEN..at], file[at..at + edgeCount * 8];
    var out: AdjacencyMap := map[];
    for n := 0 to groupCount
      invariant LoadGroups(table, dsts, n) == Loaded(out)
    {
      var chunk := table[ADJ_GROUP_LEN * n..ADJ_GROUP_LEN * (n + 1)];
      var first: nat, count: nat := GetU64(chunk, 16), GetU64(chunk, 24);
      var start := first * 8;
      var end := start + count * 8;
      if end > |dsts| {
        FailureStays(table, dsts, n + 1, groupCount);
        return GroupOutOfRange;
      }
      var list: seq<u64> := [];
      DecodeNothing(dsts, start);
      for i := 0 to count
        invariant list == DecodeU64s(dsts[start..start + 8 * i])
      {
        list := list + [GetU64(dsts, start + 8 * i)];
        DecodeNext(dsts, start, i);
      }
      out := out[(GetU64(chunk, 0), I32Value(chunk[8..12])) := list];
    }
    r := Loaded(out);
  }

  lemma {:induction false} DecodeNext(dsts: seq<byte>, start: nat, i: nat)
    requires start + 8 * i + 8 <= |dsts|
    ensures DecodeU64s(dsts[start..start + 8 * (i + 1)]) ==
            DecodeU64s(dsts[start..start + 8 * i]) + [GetU64(dsts, start + 8 * i)]
  {
    hide LeValue;
    var a, b := dsts[start..start + 8 * i], dsts[start + 8 * i..start + 8 * i + 8];
    assert dsts[start..start + 8 * (i + 1)] == a + b;
    DecodeAppend(a, b);
    assert b[0..8] == b;
  }

  lemma {:induction false} DecodeNothing(dsts: seq<byte>, start: nat)
    requires start <= |dsts|
    ensures DecodeU64s(dsts[start..start]) == []
  {
  }

  lemma {:induction false} FailureStays(table: seq<byte>, dsts: seq<byte>, n: nat, m: nat)
    requires n <= m && ADJ_GROUP_LEN * m <= |table| && LoadGroups(table, dsts, n) == GroupOutOfRange
    ensures LoadGroups(table, dsts, m) == GroupOutOfRange
    decreases m
  {
    hide DecodeU64s, GetU64, I32Value;
    if n < m {
      FailureStays(table, dsts, n, m - 1);
    }
  }
}
