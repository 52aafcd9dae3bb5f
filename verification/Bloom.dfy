/**
 * The 64-bit Bloom filter stored in every page header (src/bloom.cc).
 */
module Bloom {
  import opened Common
  import opened Bytes

  function NatToBits(n: nat, size: nat): (bits: seq<bool>)
    ensures |bits| == size
  {
    if size == 0 then [] else [n % 2 == 1] + NatToBits(n / 2, size - 1)
  }

  type Filter = f: seq<bool> | |f| == BLOOM_BITS witness NatToBits(0, BLOOM_BITS)

  const EMPTY_FILTER: Filter := NatToBits(0, BLOOM_BITS)

  // --- uint64_t arithmetic ----------------------------------------------

  const WORD: nat := 0x1_0000_0000_0000_0000

  type Word = w: int | 0 <= w < WORD

  // static_cast<uint64_t> of a signed 32-bit key sign-extends.
  function Widen(k: Key): Word { if k < 0 then k + WORD else k }

  function Add(a: Word, b: Word): Word { (a + b) % WORD }

  function Mul(a: Word, b: Word): Word { (a * b) % WORD }

  function Not(a: Word): Word { WORD - 1 - a }

  function Pow2(n: nat): (p: nat)
    ensures p > 0
  {
    if n == 0 then 1 else 2 * Pow2(n - 1)
  }

  function Shl(a: Word, n: nat): Word { (a * Pow2(n)) % WORD }

  function Shr(a: Word, n: nat): Word {
    if n == 0 then a else Shr(a / 2, n - 1)
  }

  function Xor(a: nat, b: nat): nat {
    if a == 0 && b == 0 then 0 else (if a % 2 == b % 2 then 0 else 1) + 2 * Xor(a / 2, b / 2)
  }

  lemma {:induction false} XorBound(a: nat, b: nat, n: nat)
    requires a < Pow2(n) && b < Pow2(n)
    ensures Xor(a, b) < Pow2(n)
  {
    if n != 0 { XorBound(a / 2, b / 2, n - 1); }
  }

  lemma {:induction false} Pow2Bytes(bytes: nat)
    ensures Pow2(8 * bytes) == Pow256(bytes)
  {
    if bytes != 0 {
      Pow2Bytes(bytes - 1);
      var n := 8 * (bytes - 1);
      assert Pow2(n + 4) == 16 * Pow2(n) by { assert Pow2(n + 2) == 4 * Pow2(n); }
      assert Pow2(n + 8) == 16 * Pow2(n + 4) by { assert Pow2(n + 6) == 4 * Pow2(n + 4); }
    }
  }

  lemma Pow2Word()
    ensures Pow2(64) == Pow256(8) == WORD
  {
    Pow2Bytes(8);
    Pow256Four();
    assert Pow256(6) == 0x1_0000 * Pow256(4);
    assert Pow256(8) == 0x1_0000 * Pow256(6);
  }

  function Xor64(a: Word, b: Word): Word {
    Pow2Word();
    XorBound(a, b, 64);
    Xor(a, b)
  }

  // --- The three hash functions -------------------------------------------

  function Hash1(k: Key): (i: nat)
    ensures i < BLOOM_BITS
  {
    var h1 := Widen(k);
    var h2 := Add(Not(h1), Shl(h1, 15));
    var h3 := Xor64(h2, Shr(h2, 12));
    var h4 := Add(h3, Shl(h3, 2));
    var h5 := Xor64(h4, Shr(h4, 4));
    var h6 := Mul(h5, 2057);
    Xor64(h6, Shr(h6, 16)) % BLOOM_BITS
  }

  function Hash2(k: Key): (i: nat)
    ensures i < BLOOM_BITS
  {
    var h1 := Widen(k);
    var h2 := Add(Add(h1, 0x7ed5_5d16), Shl(h1, 12));
    var h3 := Xor64(Xor64(h2, 0xc761_c23c), Shr(h2, 19));
    var h4 := Add(Add(h3, 0x1656_67b1), Shl(h3, 5));
    var h5 := Xor64(Add(h4, 0xd3a2_646c), Shl(h4, 9));
    var h6 := Add(Add(h5, 0xfd70_46c5), Shl(h5, 3));
    Xor64(Xor64(h6, 0xb55a_4f09), Shr(h6, 16)) % BLOOM_BITS
  }

  function Hash3(k: Key): (i: nat)
    ensures i < BLOOM_BITS
  {
    var h1 := Widen(k);
    var h2 := Xor64(Xor64(h1, 61), Shr(h1, 16));
    var h3 := Add(h2, Shl(h2, 3));
    var h4 := Xor64(h3, Shr(h3, 4));
    var h5 := Mul(h4, 0x27d4_eb2d);
    Xor64(h5, Shr(h5, 15)) % BLOOM_BITS
  }

  // --- Filters --------------------------------------------------------------
  // Nothing below depends on which three hash functions are used.

  type BitIndex = i: nat | i < BLOOM_BITS

  datatype Hashes = Hashes(h1: Key -> BitIndex, h2: Key -> BitIndex, h3: Key -> BitIndex)

  const GHOST_HASHES := Hashes(k => Hash1(k), k => Hash2(k), k => Hash3(k))

  // The filter bits a key sets, and the filter of a whole table.
  function WithKey(hs: Hashes, f: Filter, k: Key): Filter {
    f[hs.h1(k) := true][hs.h2(k) := true][hs.h3(k) := true]
  }

  function FilterOf(hs: Hashes, t: Table): Filter {
    if t == [] then EMPTY_FILTER else WithKey(hs, FilterOf(hs, t[..|t| - 1]), t[|t| - 1].key)
  }

  predicate MayContain(hs: Hashes, f: Filter, k: Key) {
    f[hs.h1(k)] && f[hs.h2(k)] && f[hs.h3(k)]
  }

  // No false negatives: a table's filter passes every key of the table.
  lemma {:induction false} NoFalseNegative(hs: Hashes, t: Table, i: nat)
    requires i < |t|
    ensures MayContain(hs, FilterOf(hs, t), t[i].key)
  {
    if i < |t| - 1 {
      NoFalseNegative(hs, t[..|t| - 1], i);
      assert t[..|t| - 1][i] == t[i];
    }
  }

  predicate Sets(hs: Hashes, k: Key, b: BitIndex) {
    hs.h1(k) == b || hs.h2(k) == b || hs.h3(k) == b
  }

  // Whether some key of the table sets this bit.
  ghost predicate SetBySome(hs: Hashes, t: Table, b: BitIndex) {
    exists i :: 0 <= i < |t| && Sets(hs, t[i].key, b)
  }

  lemma {:induction false} NoBits(n: nat)
    ensures forall i :: 0 <= i < n ==> !NatToBits(0, n)[i]
  {
    if n != 0 { NoBits(n - 1); }
  }

  // A bit of a table's filter is set exactly when some key of the table sets it.
  lemma {:induction false} FilterBits(hs: Hashes, t: Table, b: BitIndex)
    ensures FilterOf(hs, t)[b] <==> SetBySome(hs, t, b)
  {
    if t == [] {
      NoBits(BLOOM_BITS);
    } else {
      var init, last := t[..|t| - 1], t[|t| - 1].key;
      FilterBits(hs, init, b);
      if SetBySome(hs, init, b) {
        var i :| 0 <= i < |init| && Sets(hs, init[i].key, b);
        assert t[i] == init[i];
      }
      if SetBySome(hs, t, b) {
        var i :| 0 <= i < |t| && Sets(hs, t[i].key, b);
        if i < |init| { assert init[i] == t[i]; }
      }
    }
  }

  // The filter passes a key exactly when each of its three bits is a bit of
  // some key of the table.
  lemma PassesIff(hs: Hashes, t: Table, k: Key)
    ensures MayContain(hs, FilterOf(hs, t), k) <==>
            SetBySome(hs, t, hs.h1(k)) && SetBySome(hs, t, hs.h2(k)) && SetBySome(hs, t, hs.h3(k))
  {
    FilterBits(hs, t, hs.h1(k));
    FilterBits(hs, t, hs.h2(k));
    FilterBits(hs, t, hs.h3(k));
  }

  // --- bitset<64> to and from uint64_t ----------------------------------

  function BitsToNat(bits: seq<bool>): nat {
    if bits == [] then 0 else (if bits[0] then 1 else 0) + 2 * BitsToNat(bits[1..])
  }

  lemma {:induction false} BitsRoundTrip(bits: seq<bool>)
    ensures NatToBits(BitsToNat(bits), |bits|) == bits
  {
    if bits != [] {
      BitsRoundTrip(bits[1..]);
      assert BitsToNat(bits) / 2 == BitsToNat(bits[1..]);
      assert bits == [bits[0]] + bits[1..];
    }
  }

  // Bit i of the filter is bit i of the number.
  lemma {:induction false} BitWeight(bits: seq<bool>, i: nat)
    requires i < |bits|
    ensures BitsToNat(bits[i := true]) == BitsToNat(bits[i := false]) + Pow2(i)
  {
    if i != 0 {
      BitWeight(bits[1..], i - 1);
      assert bits[i := true][1..] == bits[1..][i - 1 := true];
      assert bits[i := false][1..] == bits[1..][i - 1 := false];
    }
  }

  lemma {:induction false} BitsBound(bits: seq<bool>)
    ensures BitsToNat(bits) < Pow2(|bits|)
  {
    if bits != [] { BitsBound(bits[1..]); }
  }

  function FilterToBytes(f: Filter): (bs: seq<Byte>)
    ensures |bs| == 8
  {
    ToBytes(BitsToNat(f), 8)
  }

  function BytesToFilter(bs: seq<Byte>): Filter {
    NatToBits(FromBytes(bs), BLOOM_BITS)
  }

  lemma FilterRoundTrip(f: Filter)
    ensures BytesToFilter(FilterToBytes(f)) == f
  {
    BitsBound(f);
    Pow2Word();
    FromToBytes(BitsToNat(f), 8);
    BitsRoundTrip(f);
  }

  class BloomFilter {
    const hs: Hashes
    var filter: Filter

    constructor (hs: Hashes, f: Filter)
      ensures this.hs == hs && filter == f
    {
      this.hs := hs;
      filter := f;
    }

    method SetKey(key: Key)
      modifies this
      ensures filter == WithKey(hs, old(filter), key)
      ensures MayContain(hs, filter, key)
      ensures forall k :: MayContain(hs, old(filter), k) ==> MayContain(hs, filter, k)
    {
      filter := filter[hs.h1(key) := true];
      filter := filter[hs.h2(key) := true];
      filter := filter[hs.h3(key) := true];
    }

    predicate CouldHasKey(key: Key)
      reads this
    {
      MayContain(hs, filter, key)
    }

    method ClearKey()
      modifies this
      ensures filter == EMPTY_FILTER
    {
      filter := EMPTY_FILTER;
    }

    // The 64-bit integer from which Bloom(uint64_t) builds the same filter.
    function ToInt(): (n: nat)
      reads this
      ensures n < WORD && NatToBits(n, BLOOM_BITS) == filter
    {
      BitsBound(filter);
      Pow2Word();
      BitsRoundTrip(filter);
      BitsToNat(filter)
    }
  }
}
