/** Byte layout of a CSR segment: little-endian fields, the header, offset entries and edge bodies. */
module CsrFormat {
  import opened Types
  import opened Segment

  type byte = x: int | 0 <= x < 256

  const CSR_MAGIC: nat := 0x4753_4d4c
  const CSR_VERSION: nat := 1

  datatype Result<T> = Ok(value: T) | TooShort | BadMagic | BadVersion

  // ------------------------------------------------------- little-endian integers

  function Power256(k: nat): (p: nat)
    ensures p > 0
  {
    if k == 0 then 1 else 256 * Power256(k - 1)
  }

  /** `to_le_bytes` of a `k`-byte integer. */
  function LeBytes(v: nat, k: nat): (r: seq<byte>)
    ensures |r| == k
  {
    if k == 0 then [] else [v % 256] + LeBytes(v / 256, k - 1)
  }

  /** `from_le_bytes` */
  function LeValue(b: seq<byte>): nat {
    if b == [] then 0 else b[0] + 256 * LeValue(b[1..])
  }

  lemma {:induction false} LeRoundTrip(v: nat, k: nat)
    requires v < Power256(k)
    ensures LeValue(LeBytes(v, k)) == v
  {
    if k > 0 {
      LeRoundTrip(v / 256, k - 1);
      assert LeBytes(v, k)[1..] == LeBytes(v / 256, k - 1);
    }
  }

  lemma {:induction false} DivTwice(v: nat, d: nat)
    requires d > 0
    ensures v / 256 / d == v / (256 * d)
  {
    var a, b, r := v / 256 / d, v / 256 % d, v % 256;
    assert v == 256 * (d * a + b) + r;
    assert 256 * (d * a) == a * (256 * d);
    DivModUnique(v, 256 * d, a, 256 * b + r);
  }

  /** The lowest byte comes first. */
  lemma {:induction false} LeBytesAt(v: nat, k: nat, i: nat)
    requires i < k
    ensures LeBytes(v, k)[i] == v / Power256(i) % 256
  {
    if i > 0 {
      LeBytesAt(v / 256, k - 1, i - 1);
      DivTwice(v, Power256(i - 1));
    }
  }

  lemma {:induction false} LeValueBound(b: seq<byte>)
    ensures LeValue(b) < Power256(|b|)
  {
    if b != [] {
      LeValueBound(b[1..]);
    }
  }

  lemma {:induction false} Widths()
    ensures Power256(1) == 256 && Power256(2) == 0x1_0000 && Power256(4) == 0x1_0000_0000
    ensures Power256(8) == U64_MAX + 1
  {
    assert Power256(2) == 256 * Power256(1);
    assert Power256(3) == 256 * Power256(2);
    assert Power256(4) == 256 * Power256(3);
    assert Power256(5) == 256 * Power256(4);
    assert Power256(6) == 256 * Power256(5);
    assert Power256(7) == 256 * Power256(6);
    assert Power256(8) == 256 * Power256(7);
  }

  function GetU64(b: seq<byte>, off: nat): u64
    requires off + 8 <= |b|
  {
    Widths();
    LeValueBound(b[off..off + 8]);
    LeValue(b[off..off + 8])
  }

  /** Two's complement of an i32. */
  function I32Bytes(v: i32): seq<byte> {
    LeBytes(if v < 0 then v + 0x1_0000_0000 else v, 4)
  }

  function I32Value(b: seq<byte>): i32
    requires |b| == 4
  {
    Widths();
    LeValueBound(b);
    var v := LeValue(b);
    if v >= 0x8000_0000 then v - 0x1_0000_0000 else v
  }

  lemma {:induction false} U64RoundTrip(v: nat)
    requires v <= U64_MAX
    ensures LeValue(LeBytes(v, 8)) == v
  {
    Widths();
    LeRoundTrip(v, 8);
  }

  lemma {:induction false} I32RoundTrip(v: i32)
    ensures I32Value(I32Bytes(v)) == v
  {
    Widths();
    LeRoundTrip(if v < 0 then v + 0x1_0000_0000 else v, 4);
  }

  // ------------------------------------------------------------ fields in place

  /** A field of a fixed record: where it goes and its bytes. */
  datatype Field = Field(offset: nat, bytes: seq<byte>)

  function Put(buf: seq<byte>, f: Field): seq<byte> {
    if f.offset + |f.bytes| <= |buf| then buf[..f.offset] + f.bytes + buf[f.offset + |f.bytes|..] else buf
  }

  function PutAll(buf: seq<byte>, fields: seq<Field>): seq<byte> {
    if fields == [] then buf else Put(PutAll(buf, fields[..|fields| - 1]), fields[|fields| - 1])
  }

  predicate Apart(f: Field, g: Field) {
    f.offset + |f.bytes| <= g.offset || g.offset + |g.bytes| <= f.offset
  }

  predicate Disjoint(fields: seq<Field>) {
    forall i, j :: 0 <= i < j < |fields| ==> Apart(fields[i], fields[j])
  }

  lemma {:induction false} PutKeeps(buf: seq<byte>, f: Field, g: Field)
    requires f.offset + |f.bytes| <= |buf| && g.offset + |g.bytes| <= |buf| && Apart(f, g)
    ensures |Put(buf, f)| == |buf|
    ensures Put(buf, f)[f.offset..f.offset + |f.bytes|] == f.bytes
    ensures Put(buf, f)[g.offset..g.offset + |g.bytes|] == buf[g.offset..g.offset + |g.bytes|]
  {
  }

  /** Writing non-overlapping fields in any order leaves each of them readable. */
  lemma {:induction false} PutAllReadable(buf: seq<byte>, fields: seq<Field>, k: nat)
    requires Disjoint(fields) && k < |fields|
    requires forall i :: 0 <= i < |fields| ==> fields[i].offset + |fields[i].bytes| <= |buf|
    ensures |PutAll(buf, fields)| == |buf|
    ensures PutAll(buf, fields)[fields[k].offset..fields[k].offset + |fields[k].bytes|] == fields[k].bytes
  {
    hide Put;
    var n := |fields| - 1;
    var before := PutAll(buf, fields[..n]);
    assert PutAll(buf, fields) == Put(before, fields[n]);
    PutAllLength(buf, fields[..n]);
    if k < n {
      PutAllReadable(buf, fields[..n], k);
      assert fields[..n][k] == fields[k];
      assert Apart(fields[k], fields[n]);
      PutKeeps(before, fields[n], fields[k]);
    } else {
      PutKeeps(before, fields[n], Field(0, []));
    }
  }

  lemma {:induction false} PutAllLength(buf: seq<byte>, fields: seq<Field>)
    ensures |PutAll(buf, fields)| == |buf|
  {
    if fields != [] {
      PutAllLength(buf, fields[..|fields| - 1]);
    }
  }

  method PutField(out: array<byte>, f: Field)
    requires f.offset + |f.bytes| <= out.Length
    modifies out
    ensures out[..] == Put(old(out[..]), f)
  {
    for i := 0 to |f.bytes|
      invariant forall k :: 0 <= k < i ==> out[f.offset + k] == f.bytes[k]
      invariant forall k :: 0 <= k < out.Length && !(f.offset <= k < f.offset + i) ==> out[k] == old(out[k])
    {
      out[f.offset + i] := f.bytes[i];
    }
    ghost var want := Put(old(out[..]), f);
    forall k | 0 <= k < out.Length
      ensures out[k] == want[k]
    {
      if f.offset <= k < f.offset + |f.bytes| {
        assert out[f.offset + (k - f.offset)] == f.bytes[k - f.offset];
      }
    }
    assert out[..] == want;
  }

  // ------------------------------------------------------------------ header

  datatype Header = Header(
    magic: nat, version: nat, headerLen: nat, level: nat, flags: nat, fileId: nat, createTs: nat, minTs: nat,
    maxTs: nat, srcLabel: i32, edgeTypePartition: i32, minSrc: nat, maxSrc: nat, edgeOffsetCount: nat,
    edgeBodyCount: nat, offsetsOffset: nat, offsetsLen: nat, bodiesOffset: nat, bodiesLen: nat, checksum: nat)

  predicate HeaderFits(h: Header) {
    && h.magic < 0x1_0000_0000 && h.version < 0x1_0000 && h.headerLen < 0x1_0000 && h.level < 256 && h.flags < 256
    && h.fileId <= U64_MAX && h.createTs <= U64_MAX && h.minTs <= U64_MAX && h.maxTs <= U64_MAX
    && h.minSrc <= U64_MAX && h.maxSrc <= U64_MAX && h.edgeOffsetCount <= U64_MAX && h.edgeBodyCount <= U64_MAX
    && h.offsetsOffset <= U64_MAX && h.offsetsLen <= U64_MAX && h.bodiesOffset <= U64_MAX
    && h.bodiesLen <= U64_MAX && h.checksum <= U64_MAX
  }

  /** In the order the encoder writes them. */
  function HeaderFields(h: Header): seq<Field> {
    [Field(0, LeBytes(h.magic, 4)), Field(4, LeBytes(h.version, 2)), Field(6, LeBytes(h.headerLen, 2)),
     Field(8, LeBytes(h.level, 1)), Field(9, LeBytes(h.flags, 1)), Field(16, LeBytes(h.fileId, 8)),
     Field(24, LeBytes(h.createTs, 8)), Field(32, LeBytes(h.maxTs, 8)), Field(112, LeBytes(h.minTs, 8)),
     Field(120, I32Bytes(h.srcLabel)), Field(124, I32Bytes(h.edgeTypePartition)), Field(40, LeBytes(h.minSrc, 8)),
     Field(48, LeBytes(h.maxSrc, 8)), Field(56, LeBytes(h.edgeOffsetCount, 8)), Field(64, LeBytes(h.edgeBodyCount, 8)),
     Field(72, LeBytes(h.offsetsOffset, 8)), Field(80, LeBytes(h.offsetsLen, 8)), Field(88, LeBytes(h.bodiesOffset, 8)),
     Field(96, LeBytes(h.bodiesLen, 8)), Field(104, LeBytes(h.checksum, 8))]
  }

  function Zeros(n: nat): (r: seq<byte>)
    ensures |r| == n
  {
    seq(n, _ => 0)
  }

  function HeaderBytes(h: Header): (r: seq<byte>)
    ensures |r| == CSR_HEADER_LEN
  {
    PutAllLength(Zeros(CSR_HEADER_LEN), HeaderFields(h));
    PutAll(Zeros(CSR_HEADER_LEN), HeaderFields(h))
  }

  lemma {:induction false} HeaderFieldsDisjoint(h: Header)
    ensures Disjoint(HeaderFields(h))
    ensures forall i :: 0 <= i < |HeaderFields(h)| ==>
              HeaderFields(h)[i].offset + |HeaderFields(h)[i].bytes| <= CSR_HEADER_LEN
  {
    I32Length(h.srcLabel);
    I32Length(h.edgeTypePartition);
    hide LeBytes, I32Bytes;
  }

  lemma {:induction false} HeaderIsFields(h: Header)
    ensures HeaderBytes(h) == PutAll(Zeros(CSR_HEADER_LEN), HeaderFields(h))
  {
  }

  method EncodeHeader(h: Header) returns (out: array<byte>)
    ensures fresh(out) && out[..] == HeaderBytes(h)
  {
    out := new byte[CSR_HEADER_LEN](_ => 0);
    assert out[..] == Zeros(CSR_HEADER_LEN);
    HeaderFieldsDisjoint(h);
    var fields := HeaderFields(h);
    hide HeaderFields, Put, HeaderBytes;
    assert HeaderBytes(h) == PutAll(Zeros(CSR_HEADER_LEN), fields) by { HeaderIsFields(h); }
    for i := 0 to |fields|
      invariant out[..] == PutAll(Zeros(CSR_HEADER_LEN), fields[..i])
    {
      assert fields[..i + 1][..i] == fields[..i];
      PutField(out, fields[i]);
    }
    assert fields[..|fields|] == fields;
  }

  function GetN(b: seq<byte>, off: nat, k: nat): nat
    requires off + k <= |b|
  {
    LeValue(b[off..off + k])
  }

  function DecodeHeader(b: seq<byte>): Result<Header> {
    if |b| < CSR_HEADER_LEN then TooShort
    else
      var h := Header(
        GetN(b, 0, 4), GetN(b, 4, 2), GetN(b, 6, 2), b[8], b[9], GetN(b, 16, 8), GetN(b, 24, 8), GetN(b, 112, 8),
        GetN(b, 32, 8), I32Value(b[120..124]), I32Value(b[124..128]), GetN(b, 40, 8), GetN(b, 48, 8),
        GetN(b, 56, 8), GetN(b, 64, 8), GetN(b, 72, 8), GetN(b, 80, 8), GetN(b, 88, 8), GetN(b, 96, 8), GetN(b, 104, 8));
      if h.magic != CSR_MAGIC then BadMagic
      else if h.version != CSR_VERSION then BadVersion
      else Ok(h)
  }

  lemma {:induction false} HeaderFieldAt(h: Header, k: nat)
    requires k < |HeaderFields(h)|
    ensures var f := HeaderFields(h)[k];
            f.offset + |f.bytes| <= CSR_HEADER_LEN && HeaderBytes(h)[f.offset..f.offset + |f.bytes|] == f.bytes
  {
    HeaderFieldsDisjoint(h);
    hide HeaderFields;
    PutAllReadable(Zeros(CSR_HEADER_LEN), HeaderFields(h), k);
  }

  lemma {:induction false} ReadField(h: Header, k: nat, off: nat, v: nat, w: nat)
    requires k < |HeaderFields(h)| && HeaderFields(h)[k] == Field(off, LeBytes(v, w)) && v < Power256(w)
    ensures off + w <= CSR_HEADER_LEN && GetN(HeaderBytes(h), off, w) == v
  {
    hide HeaderFields, HeaderBytes;
    HeaderFieldAt(h, k);
    LeRoundTrip(v, w);
  }

  lemma {:induction false} OneByte(b: seq<byte>, i: nat)
    requires i < |b|
    ensures LeValue(b[i..i + 1]) == b[i]
  {
    assert b[i..i + 1] == [b[i]];
    assert [b[i]][1..] == [];
  }

  lemma {:induction false} HeaderSmallFields(h: Header, b: seq<byte>)
    requires HeaderFits(h) && b == HeaderBytes(h)
    ensures GetN(b, 0, 4) == h.magic && GetN(b, 4, 2) == h.version && GetN(b, 6, 2) == h.headerLen
    ensures b[8] == h.level && b[9] == h.flags
  {
    Widths();
    hide HeaderBytes, LeValue, LeBytes, Power256, I32Bytes;
    ReadField(h, 0, 0, h.magic, 4);
    ReadField(h, 1, 4, h.version, 2);
    ReadField(h, 2, 6, h.headerLen, 2);
    ReadField(h, 3, 8, h.level, 1);
    ReadField(h, 4, 9, h.flags, 1);
    OneByte(b, 8);
    OneByte(b, 9);
  }

  lemma {:induction false} HeaderLabelFields(h: Header, b: seq<byte>)
    requires HeaderFits(h) && b == HeaderBytes(h)
    ensures I32Value(b[120..124]) == h.srcLabel && I32Value(b[124..128]) == h.edgeTypePartition
  {
    hide HeaderBytes, LeValue, LeBytes, Power256, I32Bytes, I32Value;
    HeaderFieldAt(h, 9);
    HeaderFieldAt(h, 10);
    I32Length(h.srcLabel);
    I32Length(h.edgeTypePartition);
    I32RoundTrip(h.srcLabel);
    I32RoundTrip(h.edgeTypePartition);
  }

  lemma {:induction false} I32Length(v: i32)
    ensures |I32Bytes(v)| == 4
  {
  }

  lemma {:induction false} HeaderLowFields(h: Header, b: seq<byte>)
    requires HeaderFits(h) && b == HeaderBytes(h)
    ensures GetN(b, 16, 8) == h.fileId && GetN(b, 24, 8) == h.createTs && GetN(b, 32, 8) == h.maxTs
    ensures GetN(b, 112, 8) == h.minTs && GetN(b, 40, 8) == h.minSrc && GetN(b, 48, 8) == h.maxSrc
    ensures GetN(b, 56, 8) == h.edgeOffsetCount
  {
    Widths();
    hide HeaderBytes, LeValue, LeBytes, Power256, I32Bytes, GetN;
    ReadField(h, 5, 16, h.fileId, 8);
    ReadField(h, 6, 24, h.createTs, 8);
    ReadField(h, 7, 32, h.maxTs, 8);
    ReadField(h, 8, 112, h.minTs, 8);
    ReadField(h, 11, 40, h.minSrc, 8);
    ReadField(h, 12, 48, h.maxSrc, 8);
    ReadField(h, 13, 56, h.edgeOffsetCount, 8);
  }

  lemma {:induction false} HeaderHighFields(h: Header, b: seq<byte>)
    requires HeaderFits(h) && b == HeaderBytes(h)
    ensures GetN(b, 64, 8) == h.edgeBodyCount && GetN(b, 72, 8) == h.offsetsOffset
    ensures GetN(b, 80, 8) == h.offsetsLen && GetN(b, 88, 8) == h.bodiesOffset
    ensures GetN(b, 96, 8) == h.bodiesLen && GetN(b, 104, 8) == h.checksum
  {
    Widths();
    hide HeaderBytes, LeValue, LeBytes, Power256, I32Bytes, GetN;
    ReadField(h, 14, 64, h.edgeBodyCount, 8);
    ReadField(h, 15, 72, h.offsetsOffset, 8);
    ReadField(h, 16, 80, h.offsetsLen, 8);
    ReadField(h, 17, 88, h.bodiesOffset, 8);
    ReadField(h, 18, 96, h.bodiesLen, 8);
    ReadField(h, 19, 104, h.checksum, 8);
  }

  /** Decoding an encoded header gives it back exactly when its magic and version are the ones supported. */
  lemma {:induction false} HeaderRoundTrip(h: Header)
    requires HeaderFits(h)
    ensures DecodeHeader(HeaderBytes(h)) == Ok(h) <==> h.magic == CSR_MAGIC && h.version == CSR_VERSION
    ensures h.magic != CSR_MAGIC ==> DecodeHeader(HeaderBytes(h)) == BadMagic
    ensures h.magic == CSR_MAGIC && h.version != CSR_VERSION ==> DecodeHeader(HeaderBytes(h)) == BadVersion
  {
    hide HeaderBytes, HeaderFields, GetN, I32Value, HeaderFits;
    HeaderLabelFields(h, HeaderBytes(h));
    HeaderSmallFields(h, HeaderBytes(h));
    HeaderLowFields(h, HeaderBytes(h));
    HeaderHighFields(h, HeaderBytes(h));
  }

  // -------------------------------------------------------- offsets and bodies

  predicate OffsetFits(o: EdgeOffset) {
    o.firstEdgeIdx <= U64_MAX && o.edgeCount <= U64_MAX
  }

  function OffsetBytes(o: EdgeOffset): (r: seq<byte>)
    ensures |r| == EDGE_OFFSET_LEN
  {
    LeBytes(o.src, 8) + LeBytes(o.firstEdgeIdx, 8) + LeBytes(o.edgeCount, 8)
  }

  function DecodeOffset(b: seq<byte>): EdgeOffset
    requires |b| == EDGE_OFFSET_LEN
  {
    EdgeOffset(GetU64(b, 0), GetU64(b, 8), GetU64(b, 16))
  }

  lemma {:induction false} OffsetRoundTrip(o: EdgeOffset)
    requires OffsetFits(o)
    ensures DecodeOffset(OffsetBytes(o)) == o
    ensures var b := OffsetBytes(o);
            GetU64(b, 0) == o.src && GetU64(b, 8) == o.firstEdgeIdx && GetU64(b, 16) == o.edgeCount
  {
    hide LeValue, LeBytes;
    var b := OffsetBytes(o);
    assert b[0..8] == LeBytes(o.src, 8) && b[8..16] == LeBytes(o.firstEdgeIdx, 8) && b[16..24] == LeBytes(o.edgeCount, 8);
    U64RoundTrip(o.src);
    U64RoundTrip(o.firstEdgeIdx);
    U64RoundTrip(o.edgeCount);
  }

  datatype DiskEdgeBody = DiskEdgeBody(dst: u64, ts: u64, propOffset: u64, edgeType: i32, marker: Marker)

  function BodyOf(e: Edge): DiskEdgeBody {
    DiskEdgeBody(e.dst, e.ts, 0, e.edgeType, e.marker)
  }

  function ToEdge(b: DiskEdgeBody, src: u64): Edge {
    Edge(src, b.dst, b.edgeType, b.ts, b.marker)
  }

  function MarkerByte(m: Marker): byte {
    match m case Insert => 0 case Delete => 1
  }

  function MarkerFrom(b: byte): Marker {
    if b == 1 then Delete else Insert
  }

  function BodyBytes(b: DiskEdgeBody): (r: seq<byte>)
    ensures |r| == DISK_EDGE_BODY_LEN
  {
    LeBytes(b.dst, 8) + LeBytes(b.ts, 8) + LeBytes(b.propOffset, 8) + I32Bytes(b.edgeType) + [MarkerByte(b.marker), 0, 0, 0]
  }

  function DecodeBody(b: seq<byte>): DiskEdgeBody
    requires |b| == DISK_EDGE_BODY_LEN
  {
    DiskEdgeBody(GetU64(b, 0), GetU64(b, 8), GetU64(b, 16), I32Value(b[24..28]), MarkerFrom(b[28]))
  }

  lemma {:induction false} BodyRoundTrip(e: Edge)
    ensures ToEdge(DecodeBody(BodyBytes(BodyOf(e))), e.src) == e
    ensures var b := BodyBytes(BodyOf(e));
            && GetU64(b, 0) == e.dst && GetU64(b, 8) == e.ts && GetU64(b, 16) == 0 && I32Value(b[24..28]) == e.edgeType
            && b[28..] == [if e.marker.Insert? then 0 else 1, 0, 0, 0]
  {
    hide LeValue, LeBytes, I32Bytes, I32Value;
    var b := BodyBytes(BodyOf(e));
    I32Length(e.edgeType);
    assert b[0..8] == LeBytes(e.dst, 8) && b[8..16] == LeBytes(e.ts, 8) && b[16..24] == LeBytes(0, 8);
    assert b[24..28] == I32Bytes(e.edgeType) && b[28] == MarkerByte(e.marker);
    U64RoundTrip(e.dst);
    U64RoundTrip(e.ts);
    U64RoundTrip(0);
    I32RoundTrip(e.edgeType);
  }
}
