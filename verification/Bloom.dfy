/** The source filter of a segment: a Bloom filter with three bits a source, set in place while it is built. */
module Bloom {
  import opened Types

  // ------------------------------------------------- bit operations on words

  function BitAnd(a: nat, b: nat): nat {
    if a == 0 || b == 0 then 0 else (if a % 2 == 1 && b % 2 == 1 then 1 else 0) + 2 * BitAnd(a / 2, b / 2)
  }

  function BitOr(a: nat, b: nat): nat
    decreases a + b
  {
    if a == 0 then b else if b == 0 then a
    else (if a % 2 == 1 || b % 2 == 1 then 1 else 0) + 2 * BitOr(a / 2, b / 2)
  }

  function BitXor(a: nat, b: nat): nat
    decreases a + b
  {
    if a == 0 then b else if b == 0 then a
    else (if a % 2 != b % 2 then 1 else 0) + 2 * BitXor(a / 2, b / 2)
  }

  function Pow2(n: nat): (p: nat)
    ensures p > 0
  {
    if n == 0 then 1 else 2 * Pow2(n - 1)
  }

  function NextPow2From(p: nat, n: nat): (r: nat)
    requires p > 0
    ensures r >= n && r >= p
    decreases if p >= n then 0 else n - p
  {
    if p >= n then p else NextPow2From(2 * p, n)
  }

  lemma {:induction false} AndAtMost(a: nat, m: nat)
    ensures BitAnd(a, m) <= m
  {
    if a != 0 && m != 0 {
      AndAtMost(a / 2, m / 2);
    }
  }

  /** A bit is set in the union exactly when it is set in one of the words. */
  lemma {:induction false} OrIff(a: nat, b: nat, p: nat)
    ensures BitAnd(BitOr(a, b), p) != 0 <==> BitAnd(a, p) != 0 || BitAnd(b, p) != 0
  {
    if a != 0 && b != 0 && p != 0 {
      OrIff(a / 2, b / 2, p / 2);
      OrHalf(a, b);
    }
  }

  lemma {:induction false} AndPowers(i: nat, j: nat)
    ensures BitAnd(Pow2(i), Pow2(j)) != 0 <==> i == j
  {
    if i == 0 || j == 0 {
      assert i > 0 ==> Pow2(i) % 2 == 0;
      assert j > 0 ==> Pow2(j) % 2 == 0;
    } else {
      AndPowers(i - 1, j - 1);
      assert Pow2(i) / 2 == Pow2(i - 1) && Pow2(j) / 2 == Pow2(j - 1);
    }
  }

  lemma {:induction false} OrHalf(a: nat, b: nat)
    requires a != 0 && b != 0
    ensures BitOr(a, b) / 2 == BitOr(a / 2, b / 2)
    ensures BitOr(a, b) % 2 == 1 <==> a % 2 == 1 || b % 2 == 1
    ensures BitOr(a, b) != 0
  {
    var d := if a % 2 == 1 || b % 2 == 1 then 1 else 0;
    assert BitOr(a, b) == d + 2 * BitOr(a / 2, b / 2);
    OrZero(a / 2, b / 2);
  }

  lemma {:induction false} OrZero(a: nat, b: nat)
    ensures BitOr(a, b) == 0 ==> a == 0 && b == 0
    decreases a + b
  {
    if a != 0 && b != 0 {
      OrZero(a / 2, b / 2);
    }
  }

  // ---------------------------------------------------------------- hashing

  const TWO64: nat := U64_MAX + 1

  /** The library's 64-bit finaliser; the filter is correct whatever it computes. */
  function Mix64(value: nat): nat {
    var v1 := BitXor(value, value / 0x4000_0000);
    var v2 := (v1 * 0xbf58_476d_1ce4_e5b9) % TWO64;
    var v3 := BitXor(v2, v2 / 0x800_0000);
    var v4 := (v3 * 0x94d0_49bb_1331_11eb) % TWO64;
    BitXor(v4, v4 / 0x8000_0000)
  }

  /** The three bit positions of a source. */
  function BitsFor(bitMask: nat, src: u64): (r: seq<nat>)
    ensures |r| == 3 && forall b :: b in r ==> b <= bitMask
  {
    var h1 := Mix64(src);
    var h2 := Mix64(BitXor(src, 0x9e37_79b9_7f4a_7c15));
    AndAtMost(h1, bitMask);
    AndAtMost((h1 + h2) % TWO64, bitMask);
    AndAtMost((h1 + h2 * 2 % TWO64) % TWO64, bitMask);
    [BitAnd(h1, bitMask), BitAnd((h1 + h2) % TWO64, bitMask), BitAnd((h1 + h2 * 2 % TWO64) % TWO64, bitMask)]
  }

  // --------------------------------------------------------------- the filter

  datatype SourceBloom = SourceBloom(bits: seq<nat>, bitMask: nat)

  predicate IsSet(bits: seq<nat>, bit: nat) {
    bit / 64 < |bits| && BitAnd(bits[bit / 64], Pow2(bit % 64)) != 0
  }

  function SetBit(bits: seq<nat>, bit: nat): seq<nat> {
    if bit / 64 < |bits| then bits[bit / 64 := BitOr(bits[bit / 64], Pow2(bit % 64))] else bits
  }

  function SetAll(bits: seq<nat>, positions: seq<nat>): seq<nat> {
    if positions == [] then bits
    else
      var n := |positions| - 1;
      SetBit(SetAll(bits, positions[..n]), positions[n])
  }

  function MayContain(f: SourceBloom, src: u64): bool {
    f.bits != [] && forall b :: b in BitsFor(f.bitMask, src) ==> IsSet(f.bits, b)
  }

  function BitCount(sources: nat): nat {
    NextPow2From(1, (if sources < 4 then 4 else sources) * 16)
  }

  function AddSources(bits: seq<nat>, bitMask: nat, sources: seq<u64>): seq<nat> {
    if sources == [] then bits
    else
      var n := |sources| - 1;
      SetAll(AddSources(bits, bitMask, sources[..n]), BitsFor(bitMask, sources[n]))
  }

  function BloomOf(sources: seq<u64>): SourceBloom {
    var count := BitCount(|sources|);
    SourceBloom(AddSources(seq((count + 63) / 64, _ => 0), count - 1, sources), count - 1)
  }

  method InsertSource(bits: array<nat>, bitMask: nat, src: u64)
    requires bitMask / 64 < bits.Length
    modifies bits
    ensures bits[..] == SetAll(old(bits[..]), BitsFor(bitMask, src))
  {
    hide BitsFor, BitOr, Pow2;
    var positions := BitsFor(bitMask, src);
    ghost var before := bits[..];
    for i := 0 to |positions|
      invariant bits[..] == SetAll(before, positions[..i])
    {
      assert positions[..i + 1][..i] == positions[..i];
      var bit := positions[i];
      assert bit in positions;
      assert bit / 64 < bits.Length;
      bits[bit / 64] := BitOr(bits[bit / 64], Pow2(bit % 64));
    }
    assert positions[..|positions|] == positions;
  }

  method FromSources(sources: seq<u64>) returns (f: SourceBloom)
    ensures f == BloomOf(sources)
    ensures var least := 16 * if |sources| < 4 then 4 else |sources|;
            && (exists k :: f.bitMask + 1 == Pow2(k)) && least <= f.bitMask + 1 < 2 * least
            && 64 * |f.bits| == f.bitMask + 1
  {
    hide SetAll, BitsFor, BitCount;
    var count := BitCount(|sources|);
    BitCountMeaning(|sources|);
    var bits := new nat[(count + 63) / 64](_ => 0);
    ghost var zero := bits[..];
    assert zero == seq((count + 63) / 64, _ => 0);
    for i := 0 to |sources|
      invariant bits[..] == AddSources(zero, count - 1, sources[..i])
    {
      assert sources[..i + 1][..i] == sources[..i];
      InsertSource(bits, count - 1, sources[i]);
    }
    assert sources[..|sources|] == sources;
    f := SourceBloom(bits[..], count - 1);
  }

  lemma {:induction false} NextPow2Meaning(k: nat, n: nat) returns (j: nat)
    requires Pow2(k) < 2 * n
    ensures NextPow2From(Pow2(k), n) == Pow2(j) && n <= Pow2(j) < 2 * n
    decreases if Pow2(k) >= n then 0 else n - Pow2(k)
  {
    if Pow2(k) >= n {
      j := k;
    } else {
      j := NextPow2Meaning(k + 1, n);
    }
  }

  lemma {:induction false} WholeWords(j: nat)
    ensures if j < 6 then Pow2(j) < 64 else Pow2(j) % 64 == 0
  {
    if j > 6 {
      WholeWords(j - 1);
    } else {
      assert Pow2(1) == 2 && Pow2(2) == 4 && Pow2(3) == 8 && Pow2(4) == 16 && Pow2(5) == 32 && Pow2(6) == 64;
    }
  }

  /** The smallest power of two with sixteen bits a source, and for at least four sources. */
  lemma {:induction false} BitCountMeaning(sources: nat)
    ensures var least := 16 * if sources < 4 then 4 else sources;
            && (exists k :: BitCount(sources) == Pow2(k)) && least <= BitCount(sources) < 2 * least
            && BitCount(sources) % 64 == 0
  {
    assert Pow2(0) == 1;
    var j := NextPow2Meaning(0, (if sources < 4 then 4 else sources) * 16);
    WholeWords(j);
  }

  lemma {:induction false} BitCountPositive(sources: nat)
    ensures BitCount(sources) >= 64
  {
  }

  // --------------------------------------------------- what the filter admits

  lemma {:induction false} SetBitExact(bits: seq<nat>, bit: nat, other: nat)
    requires bit / 64 < |bits|
    ensures |SetBit(bits, bit)| == |bits|
    ensures IsSet(SetBit(bits, bit), other) <==> other == bit || IsSet(bits, other)
  {
    hide BitAnd, BitOr, Pow2;
    OrIff(bits[bit / 64], Pow2(bit % 64), Pow2(other % 64));
    AndPowers(bit % 64, other % 64);
  }

  lemma {:induction false} SetAllExact(bits: seq<nat>, positions: seq<nat>, other: nat)
    requires forall p :: p in positions ==> p / 64 < |bits|
    ensures |SetAll(bits, positions)| == |bits|
    ensures IsSet(SetAll(bits, positions), other) <==> other in positions || IsSet(bits, other)
  {
    hide IsSet, SetBit;
    if positions != [] {
      var n := |positions| - 1;
      assert positions == positions[..n] + [positions[n]];
      assert positions[n] in positions && forall p :: p in positions[..n] ==> p in positions;
      SetAllExact(bits, positions[..n], other);
      SetBitExact(SetAll(bits, positions[..n]), positions[n], other);
    }
  }

  lemma {:induction false} PositionsFit(bitMask: nat, words: nat, src: u64)
    requires bitMask / 64 < words
    ensures forall p :: p in BitsFor(bitMask, src) ==> p / 64 < words
  {
    hide Mix64;
  }

  /** Some source of the list sets the bit. */
  ghost predicate SetBySome(bitMask: nat, sources: seq<u64>, bit: nat) {
    exists s :: s in sources && bit in BitsFor(bitMask, s)
  }

  lemma {:induction false} AddedExact(bits: seq<nat>, bitMask: nat, sources: seq<u64>, bit: nat)
    requires bitMask / 64 < |bits|
    ensures |AddSources(bits, bitMask, sources)| == |bits|
    ensures IsSet(AddSources(bits, bitMask, sources), bit) <==> SetBySome(bitMask, sources, bit) || IsSet(bits, bit)
  {
    hide IsSet, BitsFor, SetAll;
    if sources != [] {
      var n := |sources| - 1;
      assert sources == sources[..n] + [sources[n]];
      AddedExact(bits, bitMask, sources[..n], bit);
      PositionsFit(bitMask, |bits|, sources[n]);
      SetAllExact(AddSources(bits, bitMask, sources[..n]), BitsFor(bitMask, sources[n]), bit);
      assert SetBySome(bitMask, sources, bit) <==>
             SetBySome(bitMask, sources[..n], bit) || bit in BitsFor(bitMask, sources[n]);
    }
  }

  /** A filter admits exactly the sources whose three bits were all set by sources it was built from. */
  lemma {:induction false} AdmittedIff(sources: seq<u64>, src: u64)
    ensures var mask := BloomOf(sources).bitMask;
            MayContain(BloomOf(sources), src) <==> forall b :: b in BitsFor(mask, src) ==> SetBySome(mask, sources, b)
  {
    hide IsSet, BitsFor, AddSources, SetBySome, BitCount;
    var count := BitCount(|sources|);
    BitCountPositive(|sources|);
    var zero, mask := seq((count + 63) / 64, _ => 0), count - 1;
    var bits := AddSources(zero, mask, sources);
    forall b
      ensures IsSet(bits, b) <==> SetBySome(mask, sources, b)
    {
      AddedExact(zero, mask, sources, b);
      NothingSet((count + 63) / 64, b);
    }
    AddedExact(zero, mask, sources, 0);
  }

  lemma {:induction false} NothingSet(words: nat, bit: nat)
    ensures !IsSet(seq(words, _ => 0), bit)
  {
  }

  /** So a source the filter was built from is never denied, */
  lemma {:induction false} NoFalseNegatives(sources: seq<u64>, src: u64)
    requires src in sources
    ensures MayContain(BloomOf(sources), src)
  {
    hide MayContain, BitsFor, BloomOf;
    AdmittedIff(sources, src);
  }

  /** and a filter built from nothing denies every source. */
  lemma {:induction false} EmptyDenies(src: u64)
    ensures !MayContain(BloomOf([]), src)
  {
    hide MayContain, BitsFor, BloomOf;
    AdmittedIff([], src);
    assert BitsFor(BloomOf([]).bitMask, src)[0] in BitsFor(BloomOf([]).bitMask, src);
  }
}
