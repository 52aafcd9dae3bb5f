/**
 * Range queries: what Buffer::GetRange (src/buffer.cc) and GhostDB::GetRange
 * (src/db.cc) copy out of one table, and what that adds up to over the store.
 */
module Ranges {
  import opened Common
  import opened Tables

  // lower_bound(key2), then one further.
  function RangeEnd(t: Table, key2: Key): (e: nat)
    ensures e <= |t|
  {
    var p := LowerBound(t, key2);
    if p < |t| then p + 1 else p
  }

  predicate Outside(t: Table, key1: Key, key2: Key) {
    t == [] || t[0].key > key2 || t[|t| - 1].key < key1
  }

  lemma RangeBounds(t: Table, key1: Key, key2: Key)
    requires key1 <= key2
    ensures LowerBound(t, key1) <= LowerBound(t, key2) <= RangeEnd(t, key2) <= |t|
  {}

  // The entries copied out of one table.
  ghost function RangeSlice(t: Table, key1: Key, key2: Key): Table
    requires key1 <= key2
  {
    RangeBounds(t, key1, key2);
    if Outside(t, key1, key2) then [] else t[LowerBound(t, key1)..RangeEnd(t, key2)]
  }

  ghost function SlicedSlot(s: Slot, key1: Key, key2: Key): Slot
    requires key1 <= key2
  {
    match s
    case None => None
    case Some(t) => Some(RangeSlice(t, key1, key2))
  }

  ghost function Sliced(s: seq<Slot>, key1: Key, key2: Key): (r: seq<Slot>)
    requires key1 <= key2
    ensures |r| == |s|
  {
    seq(|s|, i requires 0 <= i < |s| => SlicedSlot(s[i], key1, key2))
  }

  // What a range query returns over the slots s below the memtable kv.
  ghost function RangeView(s: seq<Slot>, kv: Table, key1: Key, key2: Key): map<Key, Val>
    requires key1 <= key2
  {
    Overlay(Sliced(s, key1, key2)) + AsMap(RangeSlice(kv, key1, key2))
  }

  lemma EmptyMap(m: map<Key, Val>)
    ensures AsMap([]) == map[] && m + AsMap([]) == m && AsMap([]) + m == m
  {}

  lemma SliceNext(t: Table, from: nat, i: nat)
    requires Sorted(t) && from <= i < |t|
    ensures AsMap(t[from..i + 1]) == AsMap(t[from..i])[t[i].key := t[i].val]
    ensures t[i].key !in AsMap(t[from..i])
  {
    var done := t[from..i];
    SpliceMap(done, |done|, t[i]);
    assert done[..|done|] + [t[i]] + done[|done|..] == t[from..i + 1];
    AsMapDomain(done, t[i].key);
  }

  // The slice runs one entry past key2.
  ghost predicate Overshoots(t: Table, key1: Key, key2: Key) {
    !Outside(t, key1, key2) && LowerBound(t, key2) < |t| && t[LowerBound(t, key2)].key > key2
  }

  // The entries of a table a slice holds: those from key1 to key2, and the
  // first one above key2 if key2 itself is missing.
  ghost predicate InSlice(t: Table, key1: Key, key2: Key, i: nat)
    requires i < |t|
  {
    key1 <= t[i].key && (t[i].key <= key2 || (Overshoots(t, key1, key2) && i == LowerBound(t, key2)))
  }

  lemma SliceEntries(t: Table, key1: Key, key2: Key, i: nat)
    requires Sorted(t) && key1 <= key2 && i < |t|
    ensures t[i].key in AsMap(RangeSlice(t, key1, key2)) <==> InSlice(t, key1, key2, i)
    ensures InSlice(t, key1, key2, i) ==> AsMap(RangeSlice(t, key1, key2))[t[i].key] == t[i].val
  {
    hide AsMap, LowerBound;
    RangeBounds(t, key1, key2);
    var p, e, slice := LowerBound(t, key1), RangeEnd(t, key2), RangeSlice(t, key1, key2);
    AsMapDomain(slice, t[i].key);
    if !Outside(t, key1, key2) {
      assert slice == t[p..e];
      if p <= i < e {
        assert slice[i - p] == t[i];
        AsMapAt(slice, i - p);
      }
    }
  }

  // Every entry of a slice is an entry of the table.
  lemma SliceOf(t: Table, key1: Key, key2: Key, k: Key)
    requires Sorted(t) && key1 <= key2
    ensures k in AsMap(RangeSlice(t, key1, key2)) ==>
              k in AsMap(t) && AsMap(t)[k] == AsMap(RangeSlice(t, key1, key2))[k] && key1 <= k
    ensures k in AsMap(RangeSlice(t, key1, key2)) && key2 < k ==> Overshoots(t, key1, key2)
    ensures key1 <= k <= key2 ==> (k in AsMap(t) <==> k in AsMap(RangeSlice(t, key1, key2)))
  {
    hide AsMap, LowerBound;
    RangeBounds(t, key1, key2);
    var slice := RangeSlice(t, key1, key2);
    AsMapDomain(slice, k);
    AsMapDomain(t, k);
    if k in AsMap(slice) {
      var j :| 0 <= j < |slice| && slice[j].key == k;
      assert slice[j] == t[LowerBound(t, key1) + j];
      SliceEntries(t, key1, key2, LowerBound(t, key1) + j);
      AsMapAt(t, LowerBound(t, key1) + j);
    } else if k in AsMap(t) {
      var i :| 0 <= i < |t| && t[i].key == k;
      SliceEntries(t, key1, key2, i);
    }
  }

  lemma {:induction false} SlicedOverlay(s: seq<Slot>, key1: Key, key2: Key, k: Key)
    requires AllSorted(s) && key1 <= key2
    ensures var r := Overlay(Sliced(s, key1, key2));
            && (key1 <= k <= key2 ==> (k in r <==> k in Overlay(s)) && (k in r ==> r[k] == Overlay(s)[k]))
            && (k in r ==> k in Overlay(s) && key1 <= k)
            && (k in r && key2 < k ==> exists i :: 0 <= i < |s| && s[i].Some? && Overshoots(s[i].value, key1, key2))
  {
    hide AsMap, RangeSlice, Overshoots;
    if s != [] {
      var init, last := s[..|s| - 1], s[|s| - 1];
      SlicedOverlay(init, key1, key2, k);
      assert Sliced(s, key1, key2)[..|s| - 1] == Sliced(init, key1, key2);
      if last.Some? { SliceOf(last.value, key1, key2, k); }
    }
  }

  // Within [key1, key2] a range query returns exactly the newest versions,
  // deletions included; nothing below key1 is ever returned.
  lemma RangeAgrees(s: seq<Slot>, kv: Table, key1: Key, key2: Key, k: Key)
    requires AllSorted(s) && Sorted(kv) && key1 <= key2
    ensures var r, c := RangeView(s, kv, key1, key2), Overlay(s) + AsMap(kv);
            && (key1 <= k <= key2 ==> (k in r <==> k in c) && (k in r ==> r[k] == c[k]))
            && (k in r ==> k in c && key1 <= k)
  {
    hide AsMap, RangeSlice;
    SlicedOverlay(s, key1, key2, k);
    SliceOf(kv, key1, key2, k);
  }

  // No table that the query reads lacks key2 while reaching beyond it.
  ghost predicate NoneOvershoots(s: seq<Slot>, kv: Table, key1: Key, key2: Key) {
    && !Overshoots(kv, key1, key2)
    && forall i :: 0 <= i < |s| && s[i].Some? ==> !Overshoots(s[i].value, key1, key2)
  }

  lemma OvershootKey(t: Table, key1: Key, key2: Key) returns (k: Key)
    requires Sorted(t) && key1 <= key2 && Overshoots(t, key1, key2)
    ensures key2 < k && k in AsMap(RangeSlice(t, key1, key2))
  {
    k := t[LowerBound(t, key2)].key;
    SliceEntries(t, key1, key2, LowerBound(t, key2));
  }

  // Exactly when a range query stays within its bounds.
  lemma RangeExactIff(s: seq<Slot>, kv: Table, key1: Key, key2: Key)
    requires AllSorted(s) && Sorted(kv) && key1 <= key2
    ensures (forall k :: k in RangeView(s, kv, key1, key2) ==> k <= key2) <==> NoneOvershoots(s, kv, key1, key2)
  {
    hide AsMap, RangeSlice, Overshoots, Overlay;
    var r := RangeView(s, kv, key1, key2);
    if NoneOvershoots(s, kv, key1, key2) {
      forall k | k in r ensures k <= key2 {
        SlicedOverlay(s, key1, key2, k);
        SliceOf(kv, key1, key2, k);
      }
    } else if Overshoots(kv, key1, key2) {
      var k := OvershootKey(kv, key1, key2);
      assert k in r;
    } else {
      var i :| 0 <= i < |s| && s[i].Some? && Overshoots(s[i].value, key1, key2);
      var k := OvershootKey(s[i].value, key1, key2);
      OverlayHas(Sliced(s, key1, key2), i, k);
      assert k in r;
    }
  }

  ghost function Within(m: map<Key, Val>, key1: Key, key2: Key): map<Key, Val> {
    map k | k in m && key1 <= k <= key2 :: m[k]
  }

  // The whole answer: a range query returns the content between its bounds and
  // nothing else, no stale value either, exactly when no table overshoots.
  lemma RangeIsContentIff(s: seq<Slot>, kv: Table, key1: Key, key2: Key)
    requires AllSorted(s) && Sorted(kv) && key1 <= key2
    ensures RangeView(s, kv, key1, key2) == Within(Overlay(s) + AsMap(kv), key1, key2) <==>
            NoneOvershoots(s, kv, key1, key2)
  {
    hide AsMap, Overlay, RangeView, NoneOvershoots;
    var r, c := RangeView(s, kv, key1, key2), Overlay(s) + AsMap(kv);
    RangeExactIff(s, kv, key1, key2);
    forall k: Key
      ensures key1 <= k <= key2 ==> (k in r <==> k in c) && (k in r ==> r[k] == c[k])
      ensures k in r ==> k in c && key1 <= k
    {
      RangeAgrees(s, kv, key1, key2, k);
    }
  }

  // --- What a range query returns, source by source -----------------------------
  // Without the bounds tests and positions of the code: each source gives its
  // entries from key1 to key2 and at most one more.

  // The least key above key2, if key2 itself is missing and some key lies below.
  ghost predicate Extra(m: map<Key, Val>, key2: Key, k: Key) {
    && k in m && key2 < k && key2 !in m
    && (exists a :: a in m && a <= key2)
    && forall x :: x in m && key2 < x ==> k <= x
  }

  ghost function RangeOf(m: map<Key, Val>, key1: Key, key2: Key): map<Key, Val> {
    map k | k in m && key1 <= k && (k <= key2 || Extra(m, key2, k)) :: m[k]
  }

  lemma ExtraEntry(t: Table, key1: Key, key2: Key, i: nat)
    requires Sorted(t) && key1 <= key2 && i < |t| && key2 < t[i].key
    ensures Extra(AsMap(t), key2, t[i].key) <==> Overshoots(t, key1, key2) && i == LowerBound(t, key2)
  {
    hide AsMap;
    var m, p := AsMap(t), LowerBound(t, key2);
    AsMapAt(t, i);
    AsMapAt(t, p);
    AsMapAt(t, 0);
    AsMapDomain(t, key2);
    if Extra(m, key2, t[i].key) {
      var a :| a in m && a <= key2;
      AsMapDomain(t, a);
    }
    if Overshoots(t, key1, key2) && i == p {
      forall x | x in m && key2 < x ensures t[i].key <= x { AsMapDomain(t, x); }
    }
  }

  lemma SliceIs(t: Table, key1: Key, key2: Key)
    requires Sorted(t) && key1 <= key2
    ensures AsMap(RangeSlice(t, key1, key2)) == RangeOf(AsMap(t), key1, key2)
  {
    hide AsMap, RangeSlice, Overshoots, Extra;
    var slice, spec := AsMap(RangeSlice(t, key1, key2)), RangeOf(AsMap(t), key1, key2);
    forall k: Key ensures (k in slice <==> k in spec) && (k in slice ==> slice[k] == spec[k]) {
      SliceOf(t, key1, key2, k);
      if k in AsMap(t) {
        AsMapDomain(t, k);
        var i :| 0 <= i < |t| && t[i].key == k;
        SliceEntries(t, key1, key2, i);
        if key2 < k { ExtraEntry(t, key1, key2, i); }
      }
    }
  }

  lemma ExtraIn(m: map<Key, Val>, key2: Key, k: Key)
    requires Extra(m, key2, k)
    ensures k in m && key2 < k
  {}

  // A source overshoots exactly when it has such a key.
  lemma OvershootsIff(t: Table, key1: Key, key2: Key)
    requires Sorted(t) && key1 <= key2
    ensures Overshoots(t, key1, key2) <==> exists k :: Extra(AsMap(t), key2, k)
  {
    hide AsMap, Extra;
    if Overshoots(t, key1, key2) { ExtraEntry(t, key1, key2, LowerBound(t, key2)); }
    if k :| Extra(AsMap(t), key2, k) {
      ExtraIn(AsMap(t), key2, k);
      AsMapDomain(t, k);
      var i :| 0 <= i < |t| && t[i].key == k;
      ExtraEntry(t, key1, key2, i);
    }
  }

  // Newest wins over what the sources give.
  ghost function RangesOf(s: seq<Slot>, key1: Key, key2: Key): map<Key, Val> {
    if s == [] then map[]
    else RangesOf(s[..|s| - 1], key1, key2) + RangeOf(SlotMap(s[|s| - 1]), key1, key2)
  }

  lemma NoRange(key1: Key, key2: Key)
    ensures RangeOf(map[], key1, key2) == map[]
  {}

  lemma {:induction false} SlicedIs(s: seq<Slot>, key1: Key, key2: Key)
    requires AllSorted(s) && key1 <= key2
    ensures Overlay(Sliced(s, key1, key2)) == RangesOf(s, key1, key2)
  {
    hide AsMap, RangeSlice, RangeOf;
    if s != [] {
      var init, last := s[..|s| - 1], s[|s| - 1];
      SlicedIs(init, key1, key2);
      assert Sliced(s, key1, key2)[..|s| - 1] == Sliced(init, key1, key2);
      if last.Some? { SliceIs(last.value, key1, key2); } else { NoRange(key1, key2); }
    }
  }

  // The whole result, key by key and value by value.
  lemma RangeViewIs(s: seq<Slot>, kv: Table, key1: Key, key2: Key)
    requires AllSorted(s) && Sorted(kv) && key1 <= key2
    ensures RangeView(s, kv, key1, key2) == RangesOf(s, key1, key2) + RangeOf(AsMap(kv), key1, key2)
  {
    hide AsMap, RangeSlice, RangeOf, Overlay;
    SlicedIs(s, key1, key2);
    SliceIs(kv, key1, key2);
  }

  lemma {:induction false} ExtraOfSlots(s: seq<Slot>, key1: Key, key2: Key, k: Key)
    requires k in RangesOf(s, key1, key2) && key2 < k
    ensures k in Overlay(s) && exists a :: a in Overlay(s) && a <= key2
  {
    hide SlotMap;
    var init, last := s[..|s| - 1], SlotMap(s[|s| - 1]);
    if k in RangeOf(last, key1, key2) {
      var a :| a in last && a <= key2;
      assert a in Overlay(s);
    } else {
      ExtraOfSlots(init, key1, key2, k);
      var a :| a in Overlay(init) && a <= key2;
      assert a in Overlay(s);
    }
  }

  // A key above key2 comes with one that is not above it: what lies wholly
  // above the range contributes nothing.
  lemma ExtraHasLower(s: seq<Slot>, kv: Table, key1: Key, key2: Key, k: Key)
    requires AllSorted(s) && Sorted(kv) && key1 <= key2
    requires k in RangeView(s, kv, key1, key2) && key2 < k
    ensures var c := Overlay(s) + AsMap(kv); k in c && exists a :: a in c && a <= key2
  {
    hide AsMap, Overlay, RangesOf, RangeView;
    RangeViewIs(s, kv, key1, key2);
    var c := Overlay(s) + AsMap(kv);
    if k in RangeOf(AsMap(kv), key1, key2) {
      var a :| a in AsMap(kv) && a <= key2;
      assert a in c;
    } else {
      ExtraOfSlots(s, key1, key2, k);
      var a :| a in Overlay(s) && a <= key2;
      assert a in c;
    }
  }
}
