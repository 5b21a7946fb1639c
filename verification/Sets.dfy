/**
 The string set of src/set.c as a value. It is the same open-addressing table, but an add
 takes the first free slot without looking further for the key, and rehashing goes through
 the same add.
 */
module Sets {
  import opened Primes
  import opened Hashing
  import opened Options
  import opened Slots
  import opened Tables
  import opened TableProperties

  type SetSlots = seq<Slot<()>>

  type SetTab = Tab<()>

  /** How the probe loop of an add ends. */
  datatype Scan = Stored(p: nat) | Present | Full

  function AddScan(slots: SetSlots, key: string, i: nat): (r: Scan)
    requires i <= |slots|
    ensures r.Stored? ==> r.p < |slots| && !slots[r.p].Live?
    decreases |slots| - i
  {
    if i == |slots| then Full
    else
      var p := Probe(key, |slots|, i);
      if !slots[p].Live? then Stored(p)
      else if slots[p].key == key then Present
      else AddScan(slots, key, i + 1)
  }

  function AddPlace(slots: SetSlots, key: string): (r: SetSlots)
    ensures |r| == |slots|
  {
    var scan := AddScan(slots, key, 0);
    if scan.Stored? then slots[scan.p := Live(key, ())] else slots
  }

  function AddMoved(src: SetSlots, n: nat, dst: SetSlots): (r: SetSlots)
    requires n <= |src|
    ensures |r| == |dst|
  {
    if n == 0 then dst
    else
      var t := AddMoved(src, n - 1, dst);
      if src[n - 1].Live? then AddPlace(t, src[n - 1].key) else t
  }

  ghost function SetRehash(src: SetSlots, size: nat): SetSlots {
    AddMoved(src, |src|, Fresh(size))
  }

  ghost function SetResize(t: SetTab, newSize: int): SetTab {
    if newSize < BASE_SIZE then t else Tab(SetRehash(t.slots, NextPrimeOf(newSize)), t.used)
  }

  ghost function SetResizeUp(t: SetTab): SetTab
    requires |t.slots| > 0
  {
    if Load(t.used, |t.slots|) > 70 then SetResize(t, |t.slots| * 2) else t
  }

  ghost function SetResizeDown(t: SetTab): SetTab
    requires |t.slots| > 0
  {
    if Load(t.used, |t.slots|) < 10 then SetResize(t, |t.slots| / 2) else t
  }

  ghost function SetAdd(t: SetTab, key: string): (SetTab, bool) {
    match AddScan(t.slots, key, 0)
    case Stored(p) => (SetResizeUp(Tab(t.slots[p := Live(key, ())], t.used + 1)), true)
    case _ => (t, false)
  }

  ghost function SetRem(t: SetTab, key: string): (SetTab, bool) {
    match Find(t.slots, key, 0)
    case None => (t, false)
    case Some(p) => (SetResizeDown(Tab(t.slots[p := Deleted], t.used - 1)), true)
  }

  // ----- the invariant: that of the table without the uniqueness of keys

  ghost predicate SetValid(t: SetTab) {
    && Prime(|t.slots|)
    && ChainInv(t.slots)
    && |LivePositions(t.slots)| <= t.used
    && Load(t.used, |t.slots|) <= 70
  }

  ghost predicate SetStructured(t: SetTab) {
    && Prime(|t.slots|)
    && ChainInv(t.slots)
    && |LivePositions(t.slots)| <= t.used <= |t.slots|
  }

  // ----- the scan

  /** Some probe of `key` meets a free slot before it meets `key`. */
  ghost predicate FreeBeforeKey(slots: SetSlots, key: string) {
    exists j: nat :: j < |slots| && FreeAt(slots, key, j)
  }

  ghost predicate FreeAt(slots: SetSlots, key: string, j: nat)
    requires j < |slots|
  {
    && !slots[Probe(key, |slots|, j)].Live?
    && forall i: nat :: i < j ==> !HoldsKey(slots, Probe(key, |slots|, i), key)
  }

  lemma {:induction false} ScanFrom(slots: SetSlots, key: string, i: nat) returns (j: nat)
    requires i <= |slots|
    ensures i <= j <= |slots|
    ensures forall k: nat :: i <= k < j ==>
              slots[Probe(key, |slots|, k)].Live? && slots[Probe(key, |slots|, k)].key != key
    ensures match AddScan(slots, key, i)
            case Full => j == |slots|
            case Stored(p) => j < |slots| && p == Probe(key, |slots|, j)
            case Present => j < |slots| && HoldsKey(slots, Probe(key, |slots|, j), key)
    decreases |slots| - i
  {
    if i == |slots| || !slots[Probe(key, |slots|, i)].Live? || slots[Probe(key, |slots|, i)].key == key {
      j := i;
    } else {
      j := ScanFrom(slots, key, i + 1);
    }
  }

  lemma ScanStoresFirstFree(slots: SetSlots, key: string)
    ensures match AddScan(slots, key, 0)
            case Stored(p) => FirstFree(slots, key, 0) == Some(p)
            case Present => key in Keys(slots)
            case Full => FirstFree(slots, key, 0) == None
  {
    var j := ScanFrom(slots, key, 0);
    var k := FirstFreeFrom(slots, key, 0);
  }

  /**
   An absent key is stored unless its step is 0 and its home is live; a present one is stored again exactly
   behind a tombstone.
   */
  lemma ScanOutcome(slots: SetSlots, key: string)
    requires Prime(|slots|) && ChainInv(slots) && |LivePositions(slots)| < |slots|
    ensures key !in Keys(slots) ==> (AddScan(slots, key, 0).Stored? <==> !StoreFails(slots, key))
    ensures key !in Keys(slots) ==> !AddScan(slots, key, 0).Present?
    ensures key in Keys(slots) ==> (AddScan(slots, key, 0).Stored? <==> FreeBeforeKey(slots, key))
    ensures key in Keys(slots) ==> !AddScan(slots, key, 0).Full?
  {
    ScanStoresFirstFree(slots, key);
    StoreFailsIff(slots, key);
    var j := ScanFrom(slots, key, 0);
    if key in Keys(slots) {
      var p := KeyHeld(slots, key);
      assert Chained(slots, p);
      var i :| ReachedBy(slots, key, p, i);
      assert j <= i;
      if AddScan(slots, key, 0).Stored? {
        assert FreeAt(slots, key, j);
      } else {
        forall k: nat | k < |slots|
          ensures !FreeAt(slots, key, k)
        {
        }
      }
    }
  }

  lemma AddKeys(slots: SetSlots, p: nat, key: string)
    requires p < |slots| && !slots[p].Live?
    ensures var after := slots[p := Live(key, ())];
            && Keys(after) == Keys(slots) + {key}
            && LivePositions(after) == LivePositions(slots) + {p}
            && |LivePositions(after)| == |LivePositions(slots)| + 1
  {
    var after := slots[p := Live(key, ())];
    forall k
      ensures k in Keys(after) <==> k in Keys(slots) + {key}
    {
      if k in Keys(slots) {
        var q := KeyHeld(slots, k);
        assert after[q].key == k;
      }
      if k in Keys(after) {
        var q := KeyHeld(after, k);
        assert q == p || slots[q].key == k;
      }
      assert after[p].key == key;
    }
    assert LivePositions(after) == LivePositions(slots) + {p};
  }

  // ----- rehashing

  /** Slot `i` of `src` holds a key that is not in the rehash target yet, has step 0 there, and whose home was taken. */
  ghost predicate SetDropped(src: SetSlots, size: nat, i: nat)
    requires size > 0
  {
    && i < |src|
    && src[i].Live?
    && var t := AddMoved(src, i, Fresh(size));
       src[i].key !in Keys(t) && StoreFails(t, src[i].key)
  }

  /** Some copy of `key` is dropped, and then no copy of it is in the target. */
  ghost predicate KeyDropped(src: SetSlots, size: nat, key: string)
    requires size > 0
  {
    exists i: nat :: SetDropped(src, size, i) && src[i].key == key
  }

  ghost predicate SetRehashDrops(src: SetSlots, size: nat)
    requires size > 0
  {
    exists i: nat :: SetDropped(src, size, i)
  }

  /** The rehash drops a member or merges two copies of one. */
  ghost predicate RehashLosesSlots(src: SetSlots, size: nat)
    requires size > 0
  {
    SetRehashDrops(src, size) || !UniqueKeys(src)
  }

  ghost predicate AddedExactly(src: SetSlots, n: nat, t: SetSlots)
    requires n <= |src| && |t| > 0
  {
    && ChainInv(t)
    && UniqueKeys(t)
    && NoTombstones(t)
    && |LivePositions(t)| <= |LiveBelow(src, n)|
    && (forall key :: key in Keys(t) ==> exists i: nat :: i < n && HoldsKey(src, i, key))
    && (forall i: nat :: i < n && src[i].Live? && !SetDropped(src, |t|, i) ==> src[i].key in Keys(t))
  }

  lemma {:induction false} AddMovedProperties(src: SetSlots, n: nat, size: nat)
    requires n <= |src| && Prime(size) && |LivePositions(src)| <= size
    ensures AddedExactly(src, n, AddMoved(src, n, Fresh(size)))
  {
    if n == 0 {
      FreshProperties<()>(size);
    } else {
      AddMovedProperties(src, n - 1, size);
      LiveBelowStep(src, n);
      if src[n - 1].Live? {
        AddOne(src, n, AddMoved(src, n - 1, Fresh(size)));
      }
    }
  }

  lemma AddOne(src: SetSlots, n: nat, t: SetSlots)
    requires 0 < n <= |src| && Prime(|t|) && src[n - 1].Live? && |LivePositions(src)| <= |t|
    requires t == AddMoved(src, n - 1, Fresh(|t|)) && AddedExactly(src, n - 1, t)
    ensures AddedExactly(src, n, AddPlace(t, src[n - 1].key))
  {
    hide Probe, FreeBeforeKey, Fresh;
    var key := src[n - 1].key;
    LiveBelowStep(src, n);
    ScanOutcome(t, key);
    ScanStoresFirstFree(t, key);
    if AddScan(t, key, 0).Stored? {
      NoTombstoneBeforeKey(t, key);
      StoreKeepsChains(t, key, ());
      StoreAdded(src, n, t, AddScan(t, key, 0).p);
    }
  }

  lemma StoreAdded(src: SetSlots, n: nat, t: SetSlots, p: nat)
    requires 0 < n <= |src| && src[n - 1].Live? && |t| > 0 && AddedExactly(src, n - 1, t)
    requires src[n - 1].key !in Keys(t) && p < |t| && !t[p].Live? && ChainInv(t[p := Live(src[n - 1].key, ())])
    ensures AddedExactly(src, n, t[p := Live(src[n - 1].key, ())])
  {
    hide SetDropped, ChainInv, Probe, Contents;
    var key := src[n - 1].key;
    LiveBelowStep(src, n);
    assert HoldsKey(src, n - 1, key);
    StoreContents(t, p, key, ());
    AddKeys(t, p, key);
  }

  /** Without tombstones a present key is always found before a free slot. */
  lemma NoTombstoneBeforeKey(slots: SetSlots, key: string)
    requires ChainInv(slots) && NoTombstones(slots)
    ensures key in Keys(slots) ==> !FreeBeforeKey(slots, key) && AddScan(slots, key, 0).Present?
  {
    if key in Keys(slots) {
      var p := KeyHeld(slots, key);
      assert Chained(slots, p);
      var i :| ReachedBy(slots, key, p, i);
      var j := ScanFrom(slots, key, 0);
      assert j <= i;
      forall k: nat | k < |slots|
        ensures !FreeAt(slots, key, k)
      {
        if k < i {
          assert !slots[Probe(key, |slots|, k)].Empty?;
        }
      }
    }
  }

  lemma {:induction false} LiveStays(src: SetSlots, i: nat, n: nat, dst: SetSlots, p: nat)
    requires i <= n <= |src| && p < |dst| && AddMoved(src, i, dst)[p].Live?
    ensures AddMoved(src, n, dst)[p] == AddMoved(src, i, dst)[p]
    decreases n
  {
    if i < n {
      LiveStays(src, i, n - 1, dst, p);
    }
  }

  lemma BlockedKeyStaysAway(t: SetSlots, key: string, added: string)
    requires Prime(|t|) && ChainInv(t) && |LivePositions(t)| < |t|
    requires key !in Keys(t) && StoreFails(t, key)
    ensures key !in Keys(AddPlace(t, added))
  {
    ScanOutcome(t, key);
    if AddScan(t, added, 0).Stored? {
      AddKeys(t, AddScan(t, added, 0).p, added);
    }
  }

  /** A key dropped once is not stored by a later copy of it either. */
  lemma {:induction false} DroppedStaysAway(src: SetSlots, size: nat, i: nat, n: nat)
    requires Prime(size) && |LivePositions(src)| <= size
    requires i <= n <= |src| && SetDropped(src, size, i)
    ensures src[i].key !in Keys(AddMoved(src, n, Fresh(size)))
    decreases n
  {
    if i < n {
      DroppedStaysAway(src, size, i, n - 1);
      if src[n - 1].Live? {
        LiveStays(src, i, n - 1, Fresh(size), Home(src[i].key, size));
        AddMovedProperties(src, n - 1, size);
        LiveBelowStep(src, n);
        BlockedKeyStaysAway(AddMoved(src, n - 1, Fresh(size)), src[i].key, src[n - 1].key);
      }
    }
  }

  /** A set rehash: valid, without tombstones or duplicates, and with the same members exactly when it drops none. */
  lemma SetRehashProperties(src: SetSlots, size: nat)
    requires Prime(size) && |LivePositions(src)| <= size
    ensures var t := SetRehash(src, size);
            && |t| == size && ChainInv(t) && UniqueKeys(t) && NoTombstones(t)
            && |LivePositions(t)| <= |LivePositions(src)|
            && Keys(t) <= Keys(src)
            && (forall key :: key in Keys(src) ==> (key in Keys(t) <==> !KeyDropped(src, size, key)))
            && (Keys(t) == Keys(src) <==> !SetRehashDrops(src, size))
            && (|LivePositions(t)| == |LivePositions(src)| <==> !RehashLosesSlots(src, size))
  {
    var t := SetRehash(src, size);
    AddMovedProperties(src, |src|, size);
    assert LiveBelow(src, |src|) == LivePositions(src);
    KeysCounted(t);
    forall key | key in Keys(src)
      ensures key in Keys(t) <==> !KeyDropped(src, size, key)
    {
      if KeyDropped(src, size, key) {
        var i: nat :| SetDropped(src, size, i) && src[i].key == key;
        DroppedStaysAway(src, size, i, |src|);
      } else {
        var i := KeyHeld(src, key);
        assert !SetDropped(src, size, i);
      }
    }
    if SetRehashDrops(src, size) {
      var i: nat :| SetDropped(src, size, i);
      assert src[i].key in Keys(src) && KeyDropped(src, size, src[i].key);
      FewerKeys(t, src, src[i].key);
    } else {
      assert Keys(t) == Keys(src);
      if UniqueKeys(src) {
        KeysCounted(src);
      } else {
        DuplicateCounted(src);
      }
    }
  }

  lemma FewerKeys(t: SetSlots, src: SetSlots, key: string)
    requires UniqueKeys(t) && Keys(t) <= Keys(src) - {key} && key in Keys(src)
    ensures |LivePositions(t)| < |LivePositions(src)|
  {
    KeysCounted(t);
    SubsetSize(Keys(t), Keys(src) - {key});
    KeysAtMostLive(src);
  }

  lemma SetResizeProperties(t: SetTab, newSize: int)
    requires |LivePositions(t.slots)| <= t.used
    requires newSize >= BASE_SIZE && Load(t.used, NextPrimeOf(newSize)) <= 50
    ensures var t', size := SetResize(t, newSize), NextPrimeOf(newSize);
            && SetValid(t') && UniqueKeys(t'.slots) && NoTombstones(t'.slots)
            && Keys(t'.slots) <= Keys(t.slots)
            && (forall key :: key in Keys(t.slots) ==> (key in Keys(t'.slots) <==> !KeyDropped(t.slots, size, key)))
            && (Keys(t'.slots) == Keys(t.slots) <==> !SetRehashDrops(t.slots, size))
            && (Counted(t') <==> Counted(t) && !RehashLosesSlots(t.slots, size))
  {
    var size := NextPrimeOf(newSize);
    RoomLeft(t.used, size);
    SetRehashProperties(t.slots, size);
  }

  // ----- one operation

  ghost predicate AddGrowthDrops(t: SetTab, key: string)
    requires |t.slots| > 0
  {
    && Grows(t.used + 1, |t.slots|)
    && SetRehashDrops(AddPlace(t.slots, key), NextPrimeOf(|t.slots| * 2))
  }

  lemma AddStructured(t: SetTab, key: string, p: nat)
    requires SetValid(t) && AddScan(t.slots, key, 0) == Stored(p)
    ensures SetStructured(Tab(t.slots[p := Live(key, ())], t.used + 1))
  {
    RoomLeft(t.used, |t.slots|);
    ScanStoresFirstFree(t.slots, key);
    StoreKeepsChains(t.slots, key, ());
    AddKeys(t.slots, p, key);
  }

  /** An add answers as a set does just when the key is absent and finds a place, or is met before any free slot. */
  ghost predicate AddAnswersRight(t: SetTab, key: string)
    requires |t.slots| > 0
  {
    if key in Keys(t.slots) then !FreeBeforeKey(t.slots, key) else !StoreFails(t.slots, key)
  }

  /** The key is stored: it is absent and finds a place, or a free slot comes before it. */
  ghost predicate AddStores(t: SetTab, key: string)
    requires |t.slots| > 0
  {
    if key in Keys(t.slots) then FreeBeforeKey(t.slots, key) else !StoreFails(t.slots, key)
  }

  /** The growth that the add starts loses a slot. */
  ghost predicate AddLosesSlots(t: SetTab, key: string)
    requires |t.slots| > 0
  {
    && AddStores(t, key)
    && Grows(t.used + 1, |t.slots|)
    && RehashLosesSlots(AddPlace(t.slots, key), NextPrimeOf(|t.slots| * 2))
  }

  lemma SetAddProperties(t: SetTab, key: string)
    requires SetValid(t)
    ensures var (t', added) := SetAdd(t, key);
            && SetValid(t')
            && (added == (key !in Keys(t.slots)) <==> AddAnswersRight(t, key))
            && t'.used == t.used + (if added then 1 else 0)
            && (!added ==> t' == t)
            && Keys(t'.slots) <= Keys(t.slots) + {key}
            && (added <==> AddStores(t, key))
            && (added ==> (Keys(t'.slots) == Keys(t.slots) + {key} <==> !AddGrowthDrops(t, key)))
            && (Counted(t') <==> Counted(t) && !AddLosesSlots(t, key))
  {
    hide Probe, ChainInv, UniqueKeys, FreeBeforeKey, StoreFails, SetRehashDrops, RehashLosesSlots, Keys, LivePositions;
    RoomLeft(t.used, |t.slots|);
    ScanOutcome(t.slots, key);
    if AddScan(t.slots, key, 0).Stored? {
      var p := AddScan(t.slots, key, 0).p;
      var u := Tab(t.slots[p := Live(key, ())], t.used + 1);
      AddStructured(t, key, p);
      AddKeys(t.slots, p, key);
      if Grows(u.used, |u.slots|) {
        GrowthTarget(u.used, |u.slots|);
        SetResizeProperties(u, |u.slots| * 2);
      }
    }
  }

  /** Adding a key that is absent, or met before any free slot, keeps the members distinct and counted. */
  lemma SetAddKeepsUnique(t: SetTab, key: string)
    requires SetValid(t) && UniqueKeys(t.slots) && AddAnswersRight(t, key)
    ensures var t' := SetAdd(t, key).0;
            && UniqueKeys(t'.slots)
            && (Counted(t) && (key in Keys(t.slots) || !AddGrowthDrops(t, key)) ==> Counted(t'))
  {
    RoomLeft(t.used, |t.slots|);
    ScanOutcome(t.slots, key);
    if AddScan(t.slots, key, 0).Stored? {
      var p := AddScan(t.slots, key, 0).p;
      var u := Tab(t.slots[p := Live(key, ())], t.used + 1);
      StoreContents(t.slots, p, key, ());
      AddStructured(t, key, p);
      if Grows(u.used, |u.slots|) {
        GrowthTarget(u.used, |u.slots|);
        SetResizeProperties(u, |u.slots| * 2);
      }
    }
  }

  /** Without growth an add keeps the count of live slots exact, whether it stores or not. */
  lemma SetAddKeepsCount(t: SetTab, key: string)
    requires SetValid(t) && Counted(t) && !Grows(t.used + 1, |t.slots|)
    ensures var t' := SetAdd(t, key).0;
            Counted(t') && t'.slots == AddPlace(t.slots, key)
  {
    var scan := AddScan(t.slots, key, 0);
    if scan.Stored? {
      AddKeys(t.slots, scan.p, key);
    }
  }

  ghost predicate Duplicated(slots: SetSlots, key: string) {
    exists p: nat, q: nat :: p != q && HoldsKey(slots, p, key) && HoldsKey(slots, q, key)
  }

  lemma RemKeys(slots: SetSlots, p: nat, key: string)
    requires HoldsKey(slots, p, key)
    ensures var after := slots[p := Deleted];
            && Keys(after) == Remaining(slots, key)
            && LivePositions(after) == LivePositions(slots) - {p}
            && |LivePositions(after)| == |LivePositions(slots)| - 1
            && (UniqueKeys(slots) ==> UniqueKeys(after))
  {
    var after := slots[p := Deleted];
    assert forall q: nat, k :: HoldsKey(after, q, k) <==> q != p && HoldsKey(slots, q, k);
    forall k
      ensures k in Keys(after) <==> k in Remaining(slots, key)
    {
      if k in Keys(after) {
        var q := KeyHeld(after, k);
        assert HoldsKey(slots, q, k);
      }
      if k in Keys(slots) && k != key {
        var q := KeyHeld(slots, k);
        assert HoldsKey(after, q, k);
      }
      if k == key && Duplicated(slots, key) {
        var q: nat :| q != p && HoldsKey(slots, q, key);
        assert HoldsKey(after, q, k);
      }
    }
    assert LivePositions(after) == LivePositions(slots) - {p};
  }

  ghost predicate RemDrops(t: SetTab, key: string)
    requires |t.slots| > 0
  {
    match Find(t.slots, key, 0)
    case None => false
    case Some(p) =>
      && Shrinks(t.used - 1, |t.slots|)
      && SetRehashDrops(t.slots[p := Deleted], NextPrimeOf(|t.slots| / 2))
  }

  /** The members once a slot of `key` is a tombstone: a key stored twice is still one of them. */
  ghost function Remaining(slots: SetSlots, key: string): set<string> {
    if Duplicated(slots, key) then Keys(slots) else Keys(slots) - {key}
  }

  /** The shrinkage that the removal starts drops `k`. */
  ghost predicate RemDropsKey(t: SetTab, key: string, k: string)
    requires |t.slots| > 0
  {
    match Find(t.slots, key, 0)
    case None => false
    case Some(p) =>
      && Shrinks(t.used - 1, |t.slots|)
      && KeyDropped(t.slots[p := Deleted], NextPrimeOf(|t.slots| / 2), k)
  }

  /** The shrinkage that the removal starts loses a slot. */
  ghost predicate RemLosesSlots(t: SetTab, key: string)
    requires |t.slots| > 0
  {
    match Find(t.slots, key, 0)
    case None => false
    case Some(p) =>
      && Shrinks(t.used - 1, |t.slots|)
      && RehashLosesSlots(t.slots[p := Deleted], NextPrimeOf(|t.slots| / 2))
  }

  lemma RemStructured(t: SetTab, p: nat)
    requires SetValid(t) && p < |t.slots| && t.slots[p].Live?
    ensures SetStructured(Tab(t.slots[p := Deleted], t.used - 1))
    ensures Load(t.used - 1, |t.slots|) <= 70
  {
    RoomLeft(t.used, |t.slots|);
    assert HoldsKey(t.slots, p, t.slots[p].key);
    RemKeys(t.slots, p, t.slots[p].key);
    OverwriteKeepsChains(t.slots, p, Deleted);
    LoadMonotone(t.used - 1, t.used, |t.slots|);
  }

  /**
   A removal answers whether the key was there. The members left are those of the other slots, a key
   stored twice among them, without those that the shrinkage drops.
   */
  lemma SetRemProperties(t: SetTab, key: string)
    requires SetValid(t)
    ensures var (t', removed) := SetRem(t, key);
            && SetValid(t')
            && (removed <==> key in Keys(t.slots))
            && t'.used == t.used - (if removed then 1 else 0)
            && (forall k :: k in Keys(t'.slots) <==> k in Remaining(t.slots, key) && !RemDropsKey(t, key, k))
            && (Keys(t'.slots) == Remaining(t.slots, key) <==> !RemDrops(t, key))
            && (UniqueKeys(t.slots) ==> UniqueKeys(t'.slots))
            && (UniqueKeys(t.slots) ==> (Keys(t'.slots) == Keys(t.slots) - {key} <==> !RemDrops(t, key)))
            && (Counted(t') <==> Counted(t) && !RemLosesSlots(t, key))
            && (UniqueKeys(t.slots) && Counted(t) && !RemDrops(t, key) ==> Counted(t'))
  {
    FindIffLive(t.slots, key);
    if Find(t.slots, key, 0).Some? {
      var p := Find(t.slots, key, 0).value;
      var u := Tab(t.slots[p := Deleted], t.used - 1);
      RemStructured(t, p);
      RemKeys(t.slots, p, key);
      if Shrinks(u.used, |u.slots|) {
        ShrinkageTarget(u.used, |u.slots|);
        SetResizeProperties(u, |u.slots| / 2);
      }
    } else {
      assert forall p: nat :: HoldsKey(t.slots, p, key) ==> key in Keys(t.slots);
    }
  }
}
