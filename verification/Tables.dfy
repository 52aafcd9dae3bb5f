/**
 * Sorted tables as finite maps, MergeSSTable (src/util.cc), and the fold of
 * MergeSSTable over consecutive slots that compaction computes.
 */
module Tables {
  import opened Common

  // A slot of the store: no SSTable there, or the SSTable it holds.
  type Slot = Option<Table>

  ghost predicate Sorted(t: Table) {
    forall i, j :: 0 <= i < j < |t| ==> t[i].key < t[j].key
  }

  ghost function AsMap(t: Table): map<Key, Val> {
    if t == [] then map[] else AsMap(t[1..])[t[0].key := t[0].val]
  }

  lemma {:induction false} AsMapDomain(t: Table, k: Key)
    ensures k in AsMap(t) <==> exists i :: 0 <= i < |t| && t[i].key == k
  {
    if t != [] {
      AsMapDomain(t[1..], k);
      assert forall i :: 0 < i < |t| ==> t[i] == t[1..][i - 1];
    }
  }

  lemma {:induction false} AsMapAt(t: Table, i: nat)
    requires Sorted(t) && i < |t|
    ensures t[i].key in AsMap(t) && AsMap(t)[t[i].key] == t[i].val
  {
    if i != 0 {
      AsMapAt(t[1..], i - 1);
    }
  }

  lemma {:induction false} AsMapSize(t: Table)
    requires Sorted(t)
    ensures |AsMap(t)| == |t|
  {
    if t != [] {
      AsMapSize(t[1..]);
      AsMapDomain(t[1..], t[0].key);
      assert AsMap(t).Keys == AsMap(t[1..]).Keys + {t[0].key};
    }
  }

  // The first pair whose key is not less; the source finds it by comparing whole
  // pairs (PairLowerBoundIs).
  function LowerBound(t: Table, key: Key): (p: nat)
    ensures p <= |t|
    ensures forall i :: 0 <= i < p ==> t[i].key < key
    ensures p < |t| ==> key <= t[p].key
  {
    if t == [] || key <= t[0].key then 0 else 1 + LowerBound(t[1..], key)
  }

  // The order of std::pair, and std::lower_bound by it.
  predicate PairLess(a: Pair, b: Pair) {
    a.key < b.key || (a.key == b.key && a.val < b.val)
  }

  function PairLowerBound(t: Table, target: Pair): nat {
    if t == [] || !PairLess(t[0], target) then 0 else 1 + PairLowerBound(t[1..], target)
  }

  lemma TombstoneIsLeast(v: Val)
    ensures TOMBSTONE == -0x8000_0000 && TOMBSTONE <= v
  {}

  // Deletion writes the least value, so that no pair with the key sorts before
  // the pair (key, TOMBSTONE) that a search looks for.
  lemma {:induction false} PairLowerBoundIs(t: Table, key: Key)
    ensures PairLowerBound(t, Pair(key, TOMBSTONE)) == LowerBound(t, key)
  {
    if t != [] { PairLowerBoundIs(t[1..], key); }
  }

  lemma LowerBoundFinds(t: Table, key: Key)
    requires Sorted(t)
    ensures var p := LowerBound(t, key);
            && (key in AsMap(t) <==> p < |t| && t[p].key == key)
            && (key in AsMap(t) ==> AsMap(t)[key] == t[p].val)
  {
    AsMapDomain(t, key);
    var p := LowerBound(t, key);
    if p < |t| { AsMapAt(t, p); }
  }

  // An ordered map's kv[key] = val.
  function Insert(t: Table, key: Key, val: Val): Table {
    var p := LowerBound(t, key);
    if p < |t| && t[p].key == key then t[p := Pair(key, val)] else t[..p] + [Pair(key, val)] + t[p..]
  }

  lemma {:induction false} ReplaceMap(t: Table, p: nat, x: Pair)
    requires Sorted(t) && p < |t| && t[p].key == x.key
    ensures AsMap(t[p := x]) == AsMap(t)[x.key := x.val]
  {
    assert t[p := x][1..] == if p == 0 then t[1..] else t[1..][p - 1 := x];
    if p != 0 { ReplaceMap(t[1..], p - 1, x); }
  }

  lemma {:induction false} SpliceMap(t: Table, p: nat, x: Pair)
    requires p <= |t| && forall i :: 0 <= i < p ==> t[i].key != x.key
    ensures AsMap(t[..p] + [x] + t[p..]) == AsMap(t)[x.key := x.val]
  {
    if p == 0 {
      assert t[..p] + [x] + t[p..] == [x] + t;
    } else {
      SpliceMap(t[1..], p - 1, x);
      assert t[..p] + [x] + t[p..] == [t[0]] + (t[1..][..p - 1] + [x] + t[1..][p - 1..]);
    }
  }

  lemma InsertSorted(t: Table, p: nat, x: Pair)
    requires Sorted(t) && p <= |t| && forall i :: 0 <= i < p ==> t[i].key < x.key
    requires p < |t| ==> x.key <= t[p].key
    ensures Sorted(if p < |t| && t[p].key == x.key then t[p := x] else t[..p] + [x] + t[p..])
  {}

  lemma InsertCorrect(t: Table, key: Key, val: Val)
    requires Sorted(t)
    ensures Sorted(Insert(t, key, val))
    ensures AsMap(Insert(t, key, val)) == AsMap(t)[key := val]
    ensures |Insert(t, key, val)| == |t| + if key in AsMap(t) then 0 else 1
  {
    LowerBoundFinds(t, key);
    var p, x := LowerBound(t, key), Pair(key, val);
    InsertSorted(t, p, x);
    hide AsMap, LowerBound, Sorted;
    if p < |t| && t[p].key == key { ReplaceMap(t, p, x); } else { SpliceMap(t, p, x); }
  }

  // --- MergeSSTable ---------------------------------------------------

  function Merge(newer: Table, older: Table): Table {
    if newer == [] then older
    else if older == [] then newer
    else if newer[0].key < older[0].key then [newer[0]] + Merge(newer[1..], older)
    else if older[0].key < newer[0].key then [older[0]] + Merge(newer, older[1..])
    else (if newer[0].key != TOMBSTONE then [newer[0]] else []) + Merge(newer[1..], older[1..])
  }

  // One unfolding of Merge at two cursors, behind what is merged already.
  lemma MergeUnfold(done: Table, newer: Table, older: Table, i: nat, j: nat)
    requires i <= |newer| && j <= |older| && (i < |newer| || j < |older|)
    ensures done + Merge(newer[i..], older[j..]) ==
            if i == |newer| then done + [older[j]] + Merge(newer[i..], older[j + 1..])
            else if j == |older| || newer[i].key < older[j].key then
              done + [newer[i]] + Merge(newer[i + 1..], older[j..])
            else if older[j].key < newer[i].key then done + [older[j]] + Merge(newer[i..], older[j + 1..])
            else if newer[i].key != TOMBSTONE then done + [newer[i]] + Merge(newer[i + 1..], older[j + 1..])
            else done + Merge(newer[i + 1..], older[j + 1..])
  {
    if i < |newer| { assert newer[i..][1..] == newer[i + 1..]; }
    if j < |older| { assert older[j..][1..] == older[j + 1..]; }
    if i == |newer| {
      assert older[j..] == [older[j]] + older[j + 1..];
    } else if j == |older| {
      assert newer[i..] == [newer[i]] + newer[i + 1..];
      assert Merge(newer[i + 1..], older[j..]) == newer[i + 1..];
    }
  }

  method MergeSSTable(newTable: Table, oldTable: Table) returns (merged: Table)
    ensures merged == Merge(newTable, oldTable)
  {
    assert Merge([], []) == [];
    hide Merge;
    merged := [];
    var idx1, idx2 := 0, 0;
    while idx1 < |newTable| || idx2 < |oldTable|
      invariant 0 <= idx1 <= |newTable| && 0 <= idx2 <= |oldTable|
      invariant merged + Merge(newTable[idx1..], oldTable[idx2..]) == Merge(newTable, oldTable)
      decreases |newTable| - idx1 + |oldTable| - idx2
    {
      MergeUnfold(merged, newTable, oldTable, idx1, idx2);
      if idx1 == |newTable| {
        merged := merged + [oldTable[idx2]];
        idx2 := idx2 + 1;
        continue;
      } else if idx2 == |oldTable| {
        merged := merged + [newTable[idx1]];
        idx1 := idx1 + 1;
        continue;
      }
      var newKey := newTable[idx1].key;
      var oldKey := oldTable[idx2].key;
      if newKey < oldKey {
        merged := merged + [newTable[idx1]];
        idx1 := idx1 + 1;
      } else if oldKey < newKey {
        merged := merged + [oldTable[idx2]];
        idx2 := idx2 + 1;
      } else {
        if newKey != TOMBSTONE {
          merged := merged + [newTable[idx1]];
        }
        idx1 := idx1 + 1;
        idx2 := idx2 + 1;
      }
    }
  }

  // Everything but the one key that MergeSSTable mistakes for a tombstone.
  ghost function Ordinary(m: map<Key, Val>): map<Key, Val> {
    m - {TOMBSTONE}
  }

  // What a merge means: the newer table overrides the older one, except that
  // a key equal to TOMBSTONE present in both is dropped.
  ghost function MergedMap(newer: map<Key, Val>, older: map<Key, Val>): map<Key, Val> {
    if TOMBSTONE in newer && TOMBSTONE in older then Ordinary(older + newer) else older + newer
  }

  lemma SortedTail(t: Table, k: Key)
    requires Sorted(t) && t != [] && k <= t[0].key
    ensures Sorted(t[1..])
    ensures k !in AsMap(t[1..])
    ensures k < t[0].key ==> k !in AsMap(t)
  {
    AsMapDomain(t[1..], k);
    AsMapDomain(t, k);
  }

  lemma SortedCons(p: Pair, t: Table)
    requires Sorted(t) && forall k :: k in AsMap(t) ==> p.key < k
    ensures Sorted([p] + t) && AsMap([p] + t) == AsMap(t)[p.key := p.val]
  {
    assert ([p] + t)[1..] == t;
    forall i | 0 <= i < |t| ensures p.key < t[i].key {
      AsMapAt(t, i);
    }
  }

  lemma AboveHead(t: Table, k: Key)
    requires Sorted(t) && k in AsMap(t)
    ensures t != [] && t[0].key <= k
  {
    AsMapDomain(t, k);
  }

  lemma RemoveUpdate(m: map<Key, Val>, k: Key, v: Val)
    ensures Ordinary(m[k := v]) == if k == TOMBSTONE then Ordinary(m) else Ordinary(m)[k := v]
  {}

  lemma MergedMapCons(newer: map<Key, Val>, older: map<Key, Val>, k: Key, v: Val, w: Val)
    requires k !in newer && k !in older
    ensures MergedMap(newer[k := v], older) == MergedMap(newer, older)[k := v]
    ensures MergedMap(newer, older[k := w]) == MergedMap(newer, older)[k := w]
    ensures MergedMap(newer[k := v], older[k := w]) ==
            if k == TOMBSTONE then MergedMap(newer, older) else MergedMap(newer, older)[k := v]
  {
    assert older + newer[k := v] == (older + newer)[k := v];
    assert older[k := w] + newer == (older + newer)[k := w];
    assert older[k := w] + newer[k := v] == (older + newer)[k := v];
    if k != TOMBSTONE {
      RemoveUpdate(older + newer, k, v);
      RemoveUpdate(older + newer, k, w);
    }
  }

  lemma MergeHead(newer: Table, older: Table)
    requires newer != [] && older != []
    ensures var n, o := newer[0], older[0];
            var ns, os := if n.key <= o.key then newer[1..] else newer, if o.key <= n.key then older[1..] else older;
            Merge(newer, older) ==
            if n.key == o.key == TOMBSTONE then Merge(ns, os) else [if n.key <= o.key then n else o] + Merge(ns, os)
  {
    assert [] + Merge(newer[1..], older[1..]) == Merge(newer[1..], older[1..]);
  }

  // Prepending a pair whose key lies below both remaining tables.
  lemma MergeStep(p: Pair, newer: Table, older: Table)
    requires Sorted(newer) && Sorted(older) && Sorted(Merge(newer, older))
    requires AsMap(Merge(newer, older)) == MergedMap(AsMap(newer), AsMap(older))
    requires newer != [] ==> p.key <= newer[0].key
    requires older != [] ==> p.key <= older[0].key
    requires p.key !in AsMap(newer) && p.key !in AsMap(older)
    ensures Sorted([p] + Merge(newer, older))
    ensures AsMap([p] + Merge(newer, older)) == MergedMap(AsMap(newer), AsMap(older))[p.key := p.val]
  {
    forall k | k in AsMap(Merge(newer, older)) ensures p.key < k {
      if k in AsMap(newer) { AboveHead(newer, k); } else { AboveHead(older, k); }
    }
    SortedCons(p, Merge(newer, older));
  }

  // Merging strictly sorted tables gives a strictly sorted table whose map is
  // old overridden by new; tombstone values are kept.
  lemma {:induction false} MergeCorrect(newer: Table, older: Table)
    requires Sorted(newer) && Sorted(older)
    ensures Sorted(Merge(newer, older))
    ensures AsMap(Merge(newer, older)) == MergedMap(AsMap(newer), AsMap(older))
    decreases |newer| + |older|
  {
    if newer == [] || older == [] {
      assert AsMap([]) == map[];
    } else {
      var n, o := newer[0], older[0];
      var ns, os := if n.key <= o.key then newer[1..] else newer, if o.key <= n.key then older[1..] else older;
      MergeCorrect(ns, os);
      if n.key <= o.key { SortedTail(newer, n.key); }
      if o.key <= n.key { SortedTail(older, o.key); }
      if n.key < o.key { SortedTail(older, n.key); }
      if o.key < n.key { SortedTail(newer, o.key); }
      var p := if n.key <= o.key then n else o;
      MergeStep(p, ns, os);
      MergedMapCons(AsMap(ns), AsMap(os), p.key, n.val, o.val);
      MergeHead(newer, older);
    }
  }

  // --- Consecutive slots, oldest first ---------------------------------

  ghost function SlotMap(s: Slot): map<Key, Val> {
    match s
    case None => map[]
    case Some(t) => AsMap(t)
  }

  // The newest version of every key in a stretch of slots, oldest slot first.
  ghost function Overlay(slots: seq<Slot>): map<Key, Val> {
    if slots == [] then map[] else Overlay(slots[..|slots| - 1]) + SlotMap(slots[|slots| - 1])
  }

  lemma UnionAssoc(a: map<Key, Val>, b: map<Key, Val>, c: map<Key, Val>)
    ensures (a + b) + c == a + (b + c)
  {}

  lemma {:induction false} OverlayConcat(a: seq<Slot>, b: seq<Slot>)
    ensures Overlay(a + b) == Overlay(a) + Overlay(b)
  {
    if b == [] {
      assert a + b == a;
    } else {
      var init, last := b[..|b| - 1], b[|b| - 1];
      OverlayConcat(a, init);
      assert (a + b)[..|a + b| - 1] == a + init;
      assert (a + b)[|a + b| - 1] == last;
      assert Overlay(a + b) == Overlay(a + init) + SlotMap(last);
      assert Overlay(b) == Overlay(init) + SlotMap(last);
      UnionAssoc(Overlay(a), Overlay(init), SlotMap(last));
    }
  }

  lemma {:induction false} OverlayNone(slots: seq<Slot>)
    requires forall i :: 0 <= i < |slots| ==> slots[i].None?
    ensures Overlay(slots) == map[]
  {
    if slots != [] { OverlayNone(slots[..|slots| - 1]); }
  }

  lemma {:induction false} OverlayHas(slots: seq<Slot>, i: nat, k: Key)
    requires i < |slots| && k in SlotMap(slots[i])
    ensures k in Overlay(slots)
  {
    if i < |slots| - 1 { OverlayHas(slots[..|slots| - 1], i, k); }
  }

  // A search from the newest slot down that stops at the first hit reads the overlay.
  lemma {:induction false} OverlayNewest(slots: seq<Slot>, i: nat, k: Key)
    requires i < |slots|
    requires forall j :: i < j < |slots| ==> k !in SlotMap(slots[j])
    ensures k in SlotMap(slots[i]) ==> k in Overlay(slots) && Overlay(slots)[k] == SlotMap(slots[i])[k]
    ensures k !in SlotMap(slots[i]) ==>
              (k in Overlay(slots) <==> k in Overlay(slots[..i])) &&
              (k in Overlay(slots) ==> Overlay(slots)[k] == Overlay(slots[..i])[k])
  {
    if i < |slots| - 1 {
      OverlayNewest(slots[..|slots| - 1], i, k);
      assert slots[..|slots| - 1][..i] == slots[..i];
    }
  }

  lemma {:induction false} OverlayMiss(slots: seq<Slot>, k: Key)
    requires forall j :: 0 <= j < |slots| ==> k !in SlotMap(slots[j])
    ensures k !in Overlay(slots)
  {
    if slots != [] { OverlayMiss(slots[..|slots| - 1], k); }
  }

  // What compaction accumulates: each newer slot merged over what came before.
  ghost function Fold(slots: seq<Slot>): Table {
    if slots == [] then []
    else
      var older := Fold(slots[..|slots| - 1]);
      match slots[|slots| - 1]
      case None => older
      case Some(t) => Merge(t, older)
  }

  ghost predicate AllSorted(slots: seq<Slot>) {
    forall i :: 0 <= i < |slots| && slots[i].Some? ==> Sorted(slots[i].value)
  }

  // How many of the slots hold the key TOMBSTONE.
  ghost function TombKeys(slots: seq<Slot>): nat {
    if slots == [] then 0
    else TombKeys(slots[..|slots| - 1]) + if TOMBSTONE in SlotMap(slots[|slots| - 1]) then 1 else 0
  }

  // How the fold of some slots, of which n hold the key TOMBSTONE, relates to
  // their overlay: equal on every ordinary key; the key TOMBSTONE alternates,
  // and survives with its newest value when n is odd.
  ghost predicate FoldedFrom(folded: map<Key, Val>, overlay: map<Key, Val>, n: nat) {
    && Ordinary(folded) == Ordinary(overlay)
    && (TOMBSTONE in overlay <==> n != 0)
    && (TOMBSTONE in folded <==> n % 2 == 1)
    && (TOMBSTONE in folded ==> folded[TOMBSTONE] == overlay[TOMBSTONE])
  }

  lemma OrdinaryUnion(older: map<Key, Val>, newer: map<Key, Val>)
    ensures Ordinary(older + newer) == Ordinary(older) + Ordinary(newer)
    ensures Ordinary(MergedMap(newer, older)) == Ordinary(older) + Ordinary(newer)
  {}

  lemma FoldStep(newer: map<Key, Val>, folded: map<Key, Val>, overlay: map<Key, Val>, n: nat)
    requires FoldedFrom(folded, overlay, n)
    ensures FoldedFrom(MergedMap(newer, folded), overlay + newer, n + if TOMBSTONE in newer then 1 else 0)
  {
    OrdinaryUnion(folded, newer);
    OrdinaryUnion(overlay, newer);
  }

  // Folding oldest to newest is newest-wins override.
  lemma {:induction false} FoldOverlay(slots: seq<Slot>)
    requires AllSorted(slots)
    ensures Sorted(Fold(slots))
    ensures FoldedFrom(AsMap(Fold(slots)), Overlay(slots), TombKeys(slots))
  {
    if slots != [] {
      var init, last := slots[..|slots| - 1], slots[|slots| - 1];
      FoldOverlay(init);
      if last.Some? {
        MergeCorrect(last.value, Fold(init));
        FoldStep(AsMap(last.value), AsMap(Fold(init)), Overlay(init), TombKeys(init));
      } else {
        assert Overlay(slots) == Overlay(init) + map[] == Overlay(init);
      }
    }
  }

  lemma {:induction false} FoldNone(a: seq<Slot>, b: seq<Slot>)
    requires forall i :: 0 <= i < |b| ==> b[i].None?
    ensures Fold(a + b) == Fold(a)
  {
    if b == [] {
      assert a + b == a;
    } else {
      FoldNone(a, b[..|b| - 1]);
      assert (a + b)[..|a + b| - 1] == a + b[..|b| - 1];
    }
  }
}
