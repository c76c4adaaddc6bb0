/** The index from sources to the segments below L0 that hold them. */
module Index {
  import opened Types
  import opened Segment
  import opened Durability

  type Entries = map<u64, seq<Meta>>

  function Get(entries: Entries, src: u64): seq<Meta> {
    if src in entries then entries[src] else []
  }

  function AddEntry(entries: Entries, src: u64, m: Meta): Entries {
    entries[src := Get(entries, src) + [m]]
  }

  function AddOffsets(entries: Entries, m: Meta, offsets: seq<EdgeOffset>): Entries {
    if offsets == [] then entries
    else AddEntry(AddOffsets(entries, m, offsets[..|offsets| - 1]), offsets[|offsets| - 1].src, m)
  }

  function AddMetas(entries: Entries, disk: map<nat, seq<Edge>>, metas: seq<Meta>): Entries {
    if metas == [] then entries
    else
      var n := |metas| - 1;
      AddOffsets(AddMetas(entries, disk, metas[..n]), metas[n], Offsets(RecordsOf(disk, metas[n])))
  }

  ghost predicate HoldsSource(disk: map<nat, seq<Edge>>, m: Meta, src: u64) {
    src in Sources(Offsets(RecordsOf(disk, m)))
  }

  /** The index lists a segment under a source exactly when it is below L0 and has records of the source. */
  ghost predicate Indexes(entries: Entries, disk: map<nat, seq<Edge>>, levels: seq<seq<Meta>>) {
    forall src: u64, m :: m in Get(entries, src) <==>
      (exists i :: 1 <= i < |levels| && m in levels[i]) && HoldsSource(disk, m, src)
  }

  lemma {:induction false} AddOffsetsMeaning(entries: Entries, m: Meta, offsets: seq<EdgeOffset>, src: u64, x: Meta)
    ensures x in Get(AddOffsets(entries, m, offsets), src) <==>
            x in Get(entries, src) || (x == m && src in Sources(offsets))
  {
    if offsets != [] {
      var n := |offsets| - 1;
      AddOffsetsMeaning(entries, m, offsets[..n], src, x);
      assert Sources(offsets) == Sources(offsets[..n]) + [offsets[n].src];
    }
  }

  lemma {:induction false} AddMetasMeaning(entries: Entries, disk: map<nat, seq<Edge>>, metas: seq<Meta>, src: u64, x: Meta)
    ensures x in Get(AddMetas(entries, disk, metas), src) <==>
            x in Get(entries, src) || (x in metas && HoldsSource(disk, x, src))
  {
    hide Offsets, Sources, AddOffsets;
    if metas != [] {
      var n := |metas| - 1;
      AddMetasMeaning(entries, disk, metas[..n], src, x);
      AddOffsetsMeaning(AddMetas(entries, disk, metas[..n]), metas[n], Offsets(RecordsOf(disk, metas[n])), src, x);
      assert x in metas <==> x in metas[..n] || x == metas[n];
    }
  }

  lemma {:induction false} RebuiltIndexes(disk: map<nat, seq<Edge>>, levels: seq<seq<Meta>>)
    requires |levels| >= 1
    ensures Indexes(AddMetas(map[], disk, Flatten(levels[1..])), disk, levels)
  {
    hide AddMetas, HoldsSource, Flatten;
    forall src: u64, m
      ensures m in Get(AddMetas(map[], disk, Flatten(levels[1..])), src) <==>
              (exists i :: 1 <= i < |levels| && m in levels[i]) && HoldsSource(disk, m, src)
    {
      AddMetasMeaning(map[], disk, Flatten(levels[1..]), src, m);
      InFlatten(levels[1..], m);
      if i :| 1 <= i < |levels| && m in levels[i] {
        assert m in levels[1..][i - 1];
      }
      if i :| 0 <= i < |levels[1..]| && m in levels[1..][i] {
        assert m in levels[i + 1];
      }
    }
  }
}
