/**
 * The whole store as values: runs oldest first, below the memtable. These are
 * the facts the operations of GhostDB keep.
 */
module Contents {
  import opened Common
  import opened Tables
  import opened Ranges
  import Layout
  import Page
  import opened SSTables
  import opened Compaction

  // The newest version of every key ever put, deleted keys mapped to TOMBSTONE.
  ghost function Content(s: seq<Slot>, kv: Table): map<Key, Val> {
    Overlay(s) + AsMap(kv)
  }

  // The first slot of the group that minor compaction merges.
  function MinorBase(cfg: Config): int {
    Layout.LevelStart(cfg, MINOR_COMPACTION_LEVEL_NUM - 1)
  }

  lemma MinorBaseInRange(cfg: Config)
    requires cfg.Shape()
    ensures 0 <= MinorBase(cfg) && MinorBase(cfg) + 2 < cfg.TotalPages()
  {
    Layout.LevelStarts(cfg, 1);
    assert Layout.GetMaxRun(cfg, 1) >= 2 && Layout.GetMaxRun(cfg, 0) >= 1;
    Layout.LevelStarts(cfg, 0);
  }

  // The run that was dumped last.
  ghost function LastRun(s: seq<Slot>): Slot {
    if FirstEmpty(s) == 0 then None else s[FirstEmpty(s) - 1]
  }

  ghost predicate Ample(s: seq<Slot>) {
    forall i :: 0 <= i < |s| && s[i].Some? ==> |s[i].value| >= 2
  }

  // Within the group of minor compaction, past the slot where it leaves its
  // result, neighbours never hold the same set of keys: the put that makes the
  // memtable overflow brings a key that the dumped memtable does not have.
  ghost predicate Varied(cfg: Config, s: seq<Slot>) {
    forall i :: 0 <= i && MinorBase(cfg) < i && i + 1 < |s| && s[i + 1].Some? ==>
      SlotMap(s[i]).Keys != SlotMap(s[i + 1]).Keys
  }

  // The same for the last run and the memtable that will follow it.
  ghost predicate Varies(cfg: Config, s: seq<Slot>, kv: Table) {
    kv != [] && MinorBase(cfg) + 1 < FirstEmpty(s) ==> !(AsMap(kv).Keys <= SlotMap(LastRun(s)).Keys)
  }

  ghost predicate FreshKey(cfg: Config, s: seq<Slot>, kv: Table, key: Key) {
    kv == [] && MinorBase(cfg) + 1 < FirstEmpty(s) ==> key !in SlotMap(LastRun(s))
  }

  ghost predicate StoreOk(cfg: Config, s: seq<Slot>, kv: Table) {
    && Prefix(s)
    && AllSorted(s)
    && Ample(s)
    && Varied(cfg, s) && Varies(cfg, s, kv)
    && Sorted(kv) && |kv| <= cfg.maxBufferSize
  }

  lemma {:induction false} CardMonotone<T>(a: set<T>, b: set<T>)
    requires a <= b
    ensures |a| <= |b|
  {
    if a != {} {
      var x :| x in a;
      CardMonotone(a - {x}, b - {x});
    }
  }

  lemma KeysFit(cfg: Config, t: Table, m: map<Key, Val>)
    requires cfg.Shape() && Sorted(t) && AsMap(t).Keys <= m.Keys && |m.Keys| <= cfg.Capacity()
    ensures Page.Fits(cfg.pageSize, t)
  {
    AsMapSize(t);
    assert |AsMap(t).Keys| == |AsMap(t)|;
    CardMonotone(AsMap(t).Keys, m.Keys);
  }

  lemma {:induction false} FirstEmptyIs(s: seq<Slot>, p: nat)
    requires p < |s| && s[p].None? && forall i :: 0 <= i < p ==> s[i].Some?
    ensures FirstEmpty(s) == p
  {
    if p != 0 { FirstEmptyIs(s[1..], p - 1); }
  }

  // A dump fills the first empty slot, which becomes the last run.
  lemma DumpIsLast(s: seq<Slot>, kv: Table)
    requires Prefix(s) && FirstEmpty(s) < |s|
    ensures FirstEmpty(s[FirstEmpty(s) := Some(kv)]) == FirstEmpty(s) + 1
    ensures LastRun(s[FirstEmpty(s) := Some(kv)]) == Some(kv)
  {
    var p := FirstEmpty(s);
    if p + 1 < |s| { FirstEmptyIs(s[p := Some(kv)], p + 1); }
  }

  lemma DumpVaries(cfg: Config, s: seq<Slot>, kv: Table)
    requires StoreOk(cfg, s, kv) && kv != [] && FirstEmpty(s) < |s|
    ensures Varied(cfg, s[FirstEmpty(s) := Some(kv)])
  {
    hide AsMap, Overlay;
    var p := FirstEmpty(s);
    var after := s[p := Some(kv)];
    assert p + 1 < |s| ==> s[p + 1].None?;
    forall i | 0 <= i && MinorBase(cfg) < i && i + 1 < |s| && after[i + 1].Some?
      ensures SlotMap(after[i]).Keys != SlotMap(after[i + 1]).Keys
    {
      assert i != p;
    }
  }

  lemma DumpAmple(s: seq<Slot>, kv: Table)
    requires AllSorted(s) && Ample(s) && Sorted(kv) && |kv| >= 2 && FirstEmpty(s) < |s|
    ensures AllSorted(s[FirstEmpty(s) := Some(kv)]) && Ample(s[FirstEmpty(s) := Some(kv)])
  {
    hide Sorted, FirstEmpty;
    var after := s[FirstEmpty(s) := Some(kv)];
    assert forall i :: 0 <= i < |after| ==> after[i] == if i == FirstEmpty(s) then Some(kv) else s[i];
  }

  lemma EmptyTable()
    ensures Sorted([]) && AsMap([]) == map[]
  {}

  lemma OverlaySnoc(s: seq<Slot>, x: Slot)
    ensures Overlay(s + [x]) == Overlay(s) + SlotMap(x)
  {
    hide AsMap;
    assert (s + [x])[..|s|] == s;
  }

  lemma DumpOverlay(s: seq<Slot>, t: Table)
    requires Prefix(s) && FirstEmpty(s) < |s|
    ensures Prefix(s[FirstEmpty(s) := Some(t)])
    ensures Overlay(s[FirstEmpty(s) := Some(t)]) == Overlay(s) + AsMap(t)
  {
    hide Overlay, AsMap;
    var p := FirstEmpty(s);
    var after := s[p := Some(t)];
    SplitOverlay(s, p);
    SplitOverlay(after, p + 1);
    OverlaySnoc(s[..p], Some(t));
    assert after[..p + 1] == s[..p] + [Some(t)];
    OverlayNone(s[p..]);
    OverlayNone(after[p + 1..]);
    UnionEmpty(Overlay(s[..p]));
    UnionEmpty(Overlay(after[..p + 1]));
  }

  // Dumping the memtable into the first empty slot keeps every version.
  lemma DumpKeeps(cfg: Config, s: seq<Slot>, kv: Table)
    requires cfg.Shape() && StoreOk(cfg, s, kv) && |kv| == cfg.maxBufferSize && FirstEmpty(s) < |s|
    ensures var after := s[FirstEmpty(s) := Some(kv)];
            && StoreOk(cfg, after, [])
            && LastRun(after) == Some(kv)
            && Overlay(after) == Content(s, kv)
            && Content(after, []) == Content(s, kv)
  {
    hide AsMap, Overlay, Prefix, Sorted, Varied, SlotMap, AllSorted, Ample;
    var after := s[FirstEmpty(s) := Some(kv)];
    DumpIsLast(s, kv);
    DumpVaries(cfg, s, kv);
    DumpOverlay(s, kv);
    DumpAmple(s, kv);
    UnionEmpty(Overlay(after));
    EmptyTable();
  }

  lemma EmptyStore(cfg: Config, s: seq<Slot>)
    requires cfg.Shape() && forall i :: 0 <= i < |s| ==> s[i].None?
    ensures StoreOk(cfg, s, []) && Content(s, []) == map[] && FirstEmpty(s) == 0
  {
    OverlayNone(s);
    EmptyTable();
    UnionEmpty(map[]);
  }

  lemma UnionTwice(a: map<Key, Val>, b: map<Key, Val>)
    ensures a + b + b == a + b
  {}

  // A fold holds no key its slots do not hold.
  lemma FoldKeys(s: seq<Slot>)
    requires AllSorted(s)
    ensures AsMap(Fold(s)).Keys <= Overlay(s).Keys
  {
    hide AsMap, Overlay, Fold;
    FoldOverlay(s);
    forall k | k in AsMap(Fold(s)) ensures k in Overlay(s) {
      if k != TOMBSTONE { assert k in Ordinary(AsMap(Fold(s))); }
    }
  }

  lemma CompactedOverlay(s: seq<Slot>, base: nat)
    requires AllSorted(s) && base < |s|
    ensures Overlay(Compacted(s, base)).Keys <= Overlay(s).Keys
    ensures Ordinary(Overlay(Compacted(s, base))) == Ordinary(Overlay(s))
  {
    hide AsMap, Overlay, Fold;
    FoldKeys(s[base..]);
    SplitOverlay(s, base);
    SplitOverlay(Compacted(s, base), base);
    CompactedParts(s, base);
    RecoverCompacted(s, base, None);
    RecoverPlain(Compacted(s, base), base);
  }

  lemma CompactedShape(s: seq<Slot>, base: nat)
    requires AllSorted(s) && base + 1 < |s| && FirstEmpty(s) == |s| && Sorted(Fold(s[base..]))
    ensures Prefix(Compacted(s, base)) && AllSorted(Compacted(s, base))
    ensures FirstEmpty(Compacted(s, base)) == base + 1
  {
    hide AsMap, Overlay, Fold, Sorted;
    var after := Compacted(s, base);
    assert forall i :: 0 <= i < base ==> after[i] == s[i];
    assert after[base] == Some(Fold(s[base..]));
    assert forall i :: base < i < |s| ==> after[i].None?;
    FirstEmptyIs(after, base + 1);
  }

  // --- When compaction gives up ----------------------------------------------

  // Every slot holds the key TOMBSTONE, the key x, and no other.
  ghost predicate OnlyKeys(group: seq<Slot>, x: Key) {
    forall i :: 0 <= i < |group| ==> SlotMap(group[i]).Keys == {TOMBSTONE, x}
  }

  lemma {:induction false} OnlyKeysOverlay(group: seq<Slot>, x: Key)
    requires OnlyKeys(group, x)
    ensures TombKeys(group) == |group|
    ensures Overlay(group).Keys == if group == [] then {} else {TOMBSTONE, x}
  {
    hide SlotMap;
    if group != [] {
      var last := group[|group| - 1];
      assert SlotMap(last).Keys == {TOMBSTONE, x};
      OnlyKeysOverlay(group[..|group| - 1], x);
      assert Overlay(group).Keys == Overlay(group[..|group| - 1]).Keys + SlotMap(last).Keys;
    }
  }

  lemma OrdinaryKey(t: Table) returns (x: Key)
    requires Sorted(t) && |t| >= 2
    ensures x in AsMap(t) && x != TOMBSTONE
  {
    hide AsMap;
    AsMapAt(t, 0);
    AsMapAt(t, 1);
    x := t[1].key;
  }

  lemma OrdinaryKept(group: seq<Slot>, i: nat, k: Key)
    requires AllSorted(group) && i < |group| && k in SlotMap(group[i]) && k != TOMBSTONE
    ensures k in AsMap(Fold(group))
  {
    hide AsMap, Overlay, Fold, SlotMap;
    FoldOverlay(group);
    OverlayHas(group, i, k);
    assert k in Ordinary(Overlay(group));
  }

  lemma AtMostOne<T>(s: set<T>, a: T, b: T)
    requires |s| <= 1 && a in s && b in s
    ensures a == b
  {
    if a != b { CardMonotone({a, b}, s); }
  }

  lemma Both<T>(s: set<T>, a: T, b: T)
    requires s <= {a, b} && |s| >= 2
    ensures s == {a, b}
  {
    if a !in s { CardMonotone(s, {b}); }
    if b !in s { CardMonotone(s, {a}); }
  }

  lemma OneKey(group: seq<Slot>) returns (x: Key)
    requires AllSorted(group) && group != [] && |Fold(group)| <= 1
    requires forall i :: 0 <= i < |group| ==> group[i].Some? && |group[i].value| >= 2
    ensures x != TOMBSTONE && OnlyKeys(group, x) && TOMBSTONE !in AsMap(Fold(group))
  {
    hide AsMap, Overlay, Fold, Sorted;
    var folded := AsMap(Fold(group));
    FoldOverlay(group);
    AsMapSize(Fold(group));
    x := OrdinaryKey(group[0].value);
    OrdinaryKept(group, 0, x);
    assert |folded.Keys| <= 1;
    forall k | k in folded ensures k == x { AtMostOne(folded.Keys, k, x); }
    forall i | 0 <= i < |group| ensures SlotMap(group[i]).Keys == {TOMBSTONE, x} {
      var t := group[i].value;
      forall k | k in AsMap(t) && k != TOMBSTONE ensures k == x { OrdinaryKept(group, i, k); }
      AsMapSize(t);
      assert |AsMap(t).Keys| >= 2 && AsMap(t).Keys <= {TOMBSTONE, x};
      Both(AsMap(t).Keys, TOMBSTONE, x);
    }
  }

  // A group of full runs merges to at most one key, and compaction leaves it as
  // it is, exactly when all runs hold the same two keys, one of them TOMBSTONE,
  // and their number is even. GroupBig shows that Put never meets such a group;
  // its loop would not end there.
  lemma NoProgressIff(group: seq<Slot>)
    requires AllSorted(group) && group != []
    requires forall i :: 0 <= i < |group| ==> group[i].Some? && |group[i].value| >= 2
    ensures |Fold(group)| <= 1 <==> |group| % 2 == 0 && exists x: Key :: x != TOMBSTONE && OnlyKeys(group, x)
  {
    hide AsMap, Overlay, Fold, Sorted;
    var folded := AsMap(Fold(group));
    FoldOverlay(group);
    AsMapSize(Fold(group));
    if |Fold(group)| <= 1 {
      var x := OneKey(group);
      OnlyKeysOverlay(group, x);
    }
    if |group| % 2 == 0 && exists x: Key :: x != TOMBSTONE && OnlyKeys(group, x) {
      var x: Key :| x != TOMBSTONE && OnlyKeys(group, x);
      OnlyKeysOverlay(group, x);
      FoldKeys(group);
      CardMonotone(folded.Keys, {x});
      assert |folded| == |folded.Keys|;
    }
  }

  // In a full store minor compaction always has something to do.
  lemma GroupBig(cfg: Config, s: seq<Slot>, kv: Table)
    requires cfg.Shape() && StoreOk(cfg, s, kv) && FirstEmpty(s) == |s| == cfg.TotalPages()
    ensures 0 <= MinorBase(cfg) < |s| && |Fold(s[MinorBase(cfg)..])| > 1
  {
    hide AsMap, Overlay, Fold, Sorted;
    MinorBaseInRange(cfg);
    var base := MinorBase(cfg);
    var group := s[base..];
    assert group[1] == s[base + 1] && group[2] == s[base + 2];
    assert SlotMap(group[1]).Keys != SlotMap(group[2]).Keys;
    if |Fold(group)| <= 1 {
      var x := OneKey(group);
      assert false;
    }
  }

  lemma GroupFolds(s: seq<Slot>, base: nat)
    requires AllSorted(s) && base <= |s|
    ensures Sorted(Fold(s[base..])) && AsMap(Fold(s[base..])).Keys <= Overlay(s[base..]).Keys <= Overlay(s).Keys
  {
    hide AsMap, Overlay, Fold, Sorted;
    FoldOverlay(s[base..]);
    FoldKeys(s[base..]);
    SplitOverlay(s, base);
  }

  lemma CompactedAmple(cfg: Config, s: seq<Slot>)
    requires 0 <= MinorBase(cfg) < |s| && Ample(s) && |Fold(s[MinorBase(cfg)..])| >= 2
    ensures Ample(Compacted(s, MinorBase(cfg))) && Varied(cfg, Compacted(s, MinorBase(cfg)))
  {
    hide Fold, SlotMap;
    var base := MinorBase(cfg);
    var after := Compacted(s, base);
    assert forall i :: 0 <= i < base ==> after[i] == s[i];
    assert after[base] == Some(Fold(s[base..]));
    assert forall i :: base < i < |s| ==> after[i].None?;
  }

  // Minor compaction, when every slot is taken, frees a slot and keeps the
  // version of every ordinary key.
  lemma CompactKeeps(cfg: Config, s: seq<Slot>, kv: Table)
    requires cfg.Shape() && StoreOk(cfg, s, kv) && FirstEmpty(s) == |s| == cfg.TotalPages()
    ensures 0 <= MinorBase(cfg) && MinorBase(cfg) + 2 < |s|
    ensures var base := MinorBase(cfg);
            && |Fold(s[base..])| > 1
            && StoreOk(cfg, Compacted(s, base), kv)
            && Ordinary(Content(Compacted(s, base), kv)) == Ordinary(Content(s, kv))
            && Content(Compacted(s, base), kv).Keys <= Content(s, kv).Keys
            && FirstEmpty(Compacted(s, base)) == base + 1
  {
    hide AsMap, Overlay, Fold, Sorted, Prefix, AllSorted, Ample, Varied, Ordinary, SlotMap, Compacted;
    MinorBaseInRange(cfg);
    var base := MinorBase(cfg);
    var after := Compacted(s, base);
    GroupBig(cfg, s, kv);
    GroupFolds(s, base);
    CompactedOverlay(s, base);
    CompactedShape(s, base);
    CompactedAmple(cfg, s);
    OrdinaryUnion(Overlay(after), AsMap(kv));
    OrdinaryUnion(Overlay(s), AsMap(kv));
  }

  // --- What compaction does to the key TOMBSTONE -------------------------------

  ghost function Version(m: map<Key, Val>, k: Key): Option<Val> {
    if k in m then Some(m[k]) else None
  }

  // The memtable's version hides what compaction does. Otherwise a version in
  // the group survives when an odd number of the group's runs hold the key, and
  // is lost when their number is even: then an older version of a deeper run
  // comes back, or the key is gone.
  lemma TombstoneVersion(s: seq<Slot>, kv: Table, base: nat)
    requires AllSorted(s) && base < |s|
    ensures var n := TombKeys(s[base..]);
            && Version(Content(s, kv), TOMBSTONE) ==
               (if TOMBSTONE in AsMap(kv) then Version(AsMap(kv), TOMBSTONE)
                else Version(if n > 0 then Overlay(s[base..]) else Overlay(s[..base]), TOMBSTONE))
            && Version(Content(Compacted(s, base), kv), TOMBSTONE) ==
               (if TOMBSTONE in AsMap(kv) then Version(AsMap(kv), TOMBSTONE)
                else Version(if n % 2 == 1 then Overlay(s[base..]) else Overlay(s[..base]), TOMBSTONE))
  {
    hide AsMap, Overlay, Fold, Compacted;
    FoldOverlay(s[base..]);
    SplitOverlay(s, base);
    SplitOverlay(Compacted(s, base), base);
    CompactedParts(s, base);
  }

  lemma SameUpToTombstone(a: map<Key, Val>, b: map<Key, Val>)
    requires Ordinary(a) == Ordinary(b)
    ensures a == b <==> Version(a, TOMBSTONE) == Version(b, TOMBSTONE)
  {
    if Version(a, TOMBSTONE) == Version(b, TOMBSTONE) {
      forall k: Key ensures (k in a <==> k in b) && (k in a ==> a[k] == b[k]) {
        if k != TOMBSTONE {
          assert k in a <==> k in Ordinary(a);
          assert k in b <==> k in Ordinary(b);
        }
      }
    }
  }

  // Exactly when compaction leaves the content of the store as it was.
  lemma CompactionExactIff(s: seq<Slot>, kv: Table, base: nat)
    requires AllSorted(s) && base < |s|
    ensures var n, older, group := TombKeys(s[base..]), Overlay(s[..base]), Overlay(s[base..]);
            Content(Compacted(s, base), kv) == Content(s, kv) <==>
            || TOMBSTONE in AsMap(kv) || n == 0 || n % 2 == 1
            || (TOMBSTONE in older && TOMBSTONE in group && older[TOMBSTONE] == group[TOMBSTONE])
  {
    hide AsMap, Overlay, Fold, Compacted;
    FoldOverlay(s[base..]);
    TombstoneVersion(s, kv, base);
    CompactedOverlay(s, base);
    var before, after := Content(s, kv), Content(Compacted(s, base), kv);
    OrdinaryUnion(Overlay(s), AsMap(kv));
    OrdinaryUnion(Overlay(Compacted(s, base)), AsMap(kv));
    SameUpToTombstone(after, before);
  }

  const SMALL_CONFIG := Config(2, 1, 2, 1024, 24)

  // A full store of two levels, with memtables of two entries.
  ghost function FullStore(): seq<Slot> {
    [Some([Pair(TOMBSTONE, 1), Pair(1, 1)]), Some([Pair(TOMBSTONE, 2), Pair(2, 1)]), Some([Pair(3, 1), Pair(4, 1)])]
  }

  lemma TwoKeys(t: Table)
    requires |t| == 2 && t[0].key < t[1].key
    ensures Sorted(t) && AsMap(t) == map[t[0].key := t[0].val, t[1].key := t[1].val]
  {
    assert t[1..][1..] == [];
    assert AsMap(t[1..]) == map[t[1].key := t[1].val];
    assert AsMap(t) == map[t[0].key := t[0].val, t[1].key := t[1].val];
  }

  lemma FullStoreOk()
    ensures SMALL_CONFIG.Valid() && |FullStore()| == SMALL_CONFIG.TotalPages() == FirstEmpty(FullStore())
    ensures MinorBase(SMALL_CONFIG) == 0 && StoreOk(SMALL_CONFIG, FullStore(), [Pair(5, 1)])
  {
    hide AsMap;
    var s := FullStore();
    forall i | 0 <= i < 3 ensures s[i].Some? && Sorted(s[i].value) { TwoKeys(s[i].value); }
    TwoKeys(s[1].value);
    TwoKeys(s[2].value);
    assert 3 in SlotMap(s[2]).Keys && 3 !in SlotMap(s[1]).Keys;
    AsMapAt([Pair(5, 1)], 0);
    assert 5 in AsMap([Pair(5, 1)]).Keys && 5 !in SlotMap(s[2]).Keys;
  }

  // Its next compaction forgets the newest version of the key TOMBSTONE.
  lemma FullStoreForgets()
    ensures Version(Content(FullStore(), [Pair(5, 1)]), TOMBSTONE) == Some(2)
    ensures Version(Content(Compacted(FullStore(), 0), [Pair(5, 1)]), TOMBSTONE) == None
  {
    hide AsMap, Fold, Compacted, Sorted;
    var s := FullStore();
    FullStoreOk();
    TwoKeys(s[0].value);
    TwoKeys(s[1].value);
    TwoKeys(s[2].value);
    AsMapDomain([Pair(5, 1)], TOMBSTONE);
    assert s[0..] == s && s[..2][..1] == s[..1] && s[..1][..0] == [] && s[..0] == [];
    assert TombKeys(s[..1]) == 1;
    assert TombKeys(s[..2]) == 2;
    assert TombKeys(s) == 2;
    OverlayNewest(s, 1, TOMBSTONE);
    TombstoneVersion(s, [Pair(5, 1)], 0);
  }

  // --- A range query that returns a stale value ---------------------------------

  // A store in which 5 was put twice, the second time with value 2.
  ghost function TwiceStore(): seq<Slot> {
    [Some([Pair(2, 7), Pair(5, 1)]), Some([Pair(3, 0), Pair(5, 2)]), None]
  }

  lemma TwiceStoreOk()
    ensures |TwiceStore()| == SMALL_CONFIG.TotalPages() && StoreOk(SMALL_CONFIG, TwiceStore(), [Pair(0, 0)])
  {
    hide AsMap;
    var s := TwiceStore();
    TwoKeys(s[0].value);
    TwoKeys(s[1].value);
    assert FirstEmpty(s) == 2 by { FirstEmptyIs(s, 2); }
    AsMapAt([Pair(0, 0)], 0);
    assert 0 in AsMap([Pair(0, 0)]).Keys && 0 !in SlotMap(s[1]).Keys;
  }

  // The query from 1 to 3 returns 5, with the value that was overwritten.
  lemma RangeExtraCanBeStale()
    ensures var s, kv := TwiceStore(), [Pair(0, 0)];
            && StoreOk(SMALL_CONFIG, s, kv)
            && Version(Content(s, kv), 5) == Some(2)
            && Version(RangeView(s, kv, 1, 3), 5) == Some(1)
  {
    hide AsMap, RangeSlice;
    var s, kv: Table := TwiceStore(), [Pair(0, 0)];
    TwiceStoreOk();
    TwoKeys(s[0].value);
    TwoKeys(s[1].value);
    SliceEntries(s[0].value, 1, 3, 1);
    AsMapDomain(kv, 5);
    SliceOf(kv, 1, 3, 5);
    SliceOf(s[1].value, 1, 3, 5);
    OverlayNewest(s, 1, 5);
    OverlayNewest(Sliced(s, 1, 3), 0, 5);
  }

  lemma UnionPut(older: map<Key, Val>, newer: map<Key, Val>, key: Key, val: Val)
    ensures older + newer[key := val] == (older + newer)[key := val]
    ensures (older + newer)[key := val].Keys == (older + newer).Keys + {key}
  {}

  lemma PutKeeps(cfg: Config, s: seq<Slot>, kv: Table, after: Table, key: Key, val: Val)
    requires StoreOk(cfg, s, kv) && Sorted(after) && |after| <= cfg.maxBufferSize
    requires AsMap(after) == AsMap(kv)[key := val]
    requires FreshKey(cfg, s, kv, key)
    ensures StoreOk(cfg, s, after)
    ensures Content(s, after) == Content(s, kv)[key := val]
  {
    hide AsMap, Overlay, Prefix, AllSorted, Ample, Varied, Sorted;
    UnionPut(Overlay(s), AsMap(kv), key, val);
  }

  // --- What fits a page --------------------------------------------------------

  // The slots once the memtable has been dumped, after a compaction if need be.
  ghost function Spilled(cfg: Config, s: seq<Slot>, kv: Table): seq<Slot> {
    var t := if FirstEmpty(s) == |s| && 0 <= MinorBase(cfg) < |s| then Compacted(s, MinorBase(cfg)) else s;
    if FirstEmpty(t) < |t| then t[FirstEmpty(t) := Some(kv)] else t
  }

  lemma DumpedFits(cfg: Config, s: seq<Slot>, kv: Table)
    requires cfg.Shape() && StoreOk(cfg, s, kv) && FirstEmpty(s) < |s|
    requires |Content(s, kv).Keys| <= cfg.Capacity()
    ensures Page.Fits(cfg.pageSize, Fold(s[FirstEmpty(s) := Some(kv)]))
  {
    hide AsMap, Overlay, Fold, Varied, Sorted;
    var after := s[FirstEmpty(s) := Some(kv)];
    DumpOverlay(s, kv);
    FoldOverlay(after);
    FoldKeys(after);
    KeysFit(cfg, Fold(after), Content(s, kv));
  }

  // The slots once all runs have been merged into the first one, if there is
  // anything to merge.
  ghost function Merged(s: seq<Slot>): seq<Slot> {
    if s != [] && |Fold(s)| > 1 then Compacted(s, 0) else s
  }

  // If all keys of the store fit one page, so does every table ever written:
  // the memtable, the group of minor compaction, and the whole store.
  lemma AllFits(cfg: Config, s: seq<Slot>, kv: Table)
    requires cfg.Shape() && StoreOk(cfg, s, kv) && |s| == cfg.TotalPages()
    requires |Content(s, kv).Keys| <= cfg.Capacity()
    ensures Page.Fits(cfg.pageSize, kv)
    ensures 0 <= MinorBase(cfg) <= |s| && Page.Fits(cfg.pageSize, Fold(s[MinorBase(cfg)..]))
    ensures Page.Fits(cfg.pageSize, Fold(Spilled(cfg, s, kv)))
  {
    hide AsMap, Overlay, Fold, Sorted, Prefix, Ample, Varied, Varies, SlotMap, Compacted;
    var base := MinorBase(cfg);
    MinorBaseInRange(cfg);
    KeysFit(cfg, kv, Content(s, kv));
    GroupFolds(s, base);
    KeysFit(cfg, Fold(s[base..]), Content(s, kv));
    if FirstEmpty(s) == |s| {
      CompactKeeps(cfg, s, kv);
      CardMonotone(Content(Compacted(s, base), kv).Keys, Content(s, kv).Keys);
      DumpedFits(cfg, Compacted(s, base), kv);
    } else {
      DumpedFits(cfg, s, kv);
    }
  }
}
