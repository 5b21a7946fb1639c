/**
 What one operation on a hash table keeps and when it behaves like the same operation on a
 finite map: the invariant is unconditional, equality with the map has an exact condition.
 */
module TableProperties {
  import opened Primes
  import opened Hashing
  import opened Options
  import opened Slots
  import opened Tables

  /** `used` counts the live slots; false only after a rehash dropped a key. */
  ghost predicate Counted<V>(t: Tab<V>) {
    t.used == |LivePositions(t.slots)|
  }

  /** What holds between a store or a removal and the resize check that follows it. */
  ghost predicate Structured<V>(t: Tab<V>) {
    && Prime(|t.slots|)
    && ChainInv(t.slots)
    && UniqueKeys(t.slots)
    && |LivePositions(t.slots)| <= t.used <= |t.slots|
  }

  lemma StoreStructured<V>(t: Tab<V>, key: string, value: V, p: nat)
    requires Valid(t) && key !in Keys(t.slots) && FirstFree(t.slots, key, 0) == Some(p)
    ensures Structured(Tab(t.slots[p := Live(key, value)], t.used + 1))
  {
    RoomLeft(t.used, |t.slots|);
    StoreKeepsChains(t.slots, key, value);
    StoreContents(t.slots, p, key, value);
  }

  lemma RemoveStructured<V>(t: Tab<V>, p: nat)
    requires Valid(t) && p < |t.slots| && t.slots[p].Live?
    ensures Structured(Tab(t.slots[p := Deleted], t.used - 1))
    ensures Load(t.used - 1, |t.slots|) <= 70
  {
    RoomLeft(t.used, |t.slots|);
    OverwriteKeepsChains(t.slots, p, Deleted);
    RemoveContents(t.slots, p);
    LoadMonotone(t.used - 1, t.used, |t.slots|);
  }

  lemma InitValid<V>(size: int)
    ensures Valid(Init<V>(size)) && Counted(Init<V>(size)) && Contents(Init<V>(size).slots) == map[]
  {
    FreshProperties<V>(NextPrimeOf(size));
    LoadBound(0, NextPrimeOf(size), 70);
  }

  // ----- resizing

  /** A rehash of at most `size / 2` items: no intermediate target is loaded enough to grow again. */
  lemma RehashNeverGrows<V>(src: seq<Slot<V>>, n: nat, size: nat)
    requires UniqueKeys(src) && n <= |src| && Prime(size)
    requires Load(|LivePositions(src)|, size) <= 50
    ensures Load(|LivePositions(Moved(src, n, Fresh(size)))|, size) <= 50
  {
    RoomLeft(|LivePositions(src)|, size);
    MovedProperties(src, n, size);
    SubsetSize(LiveBelow(src, n), LivePositions(src));
    LoadMonotone(|LivePositions(Moved(src, n, Fresh(size)))|, |LivePositions(src)|, size);
  }

  lemma ResizeProperties<V>(t: Tab<V>, newSize: int)
    requires UniqueKeys(t.slots) && |LivePositions(t.slots)| <= t.used
    requires newSize >= BASE_SIZE && Load(t.used, NextPrimeOf(newSize)) <= 50
    ensures var t' := Resize(t, newSize);
            && Valid(t') && NoTombstones(t'.slots) && Load(t'.used, |t'.slots|) <= 50
            && SubMap(Contents(t'.slots), Contents(t.slots))
            && (Contents(t'.slots) == Contents(t.slots) <==> !RehashDrops(t.slots, NextPrimeOf(newSize)))
            && (Counted(t') <==> Counted(t) && !RehashDrops(t.slots, NextPrimeOf(newSize)))
  {
    var size := NextPrimeOf(newSize);
    RoomLeft(t.used, size);
    RehashProperties(t.slots, size);
    RehashConserves(t.slots, size);
  }

  /** A table of this size grows at this count. */
  ghost predicate Grows(used: int, size: int)
    requires size > 0
  {
    Load(used, size) > 70
  }

  ghost predicate Shrinks(used: int, size: int)
    requires size > 0
  {
    Load(used, size) < 10 && size / 2 >= BASE_SIZE
  }

  lemma GrowthTarget(used: int, size: int)
    requires size >= 2 && 0 <= used <= size
    ensures Load(used, NextPrimeOf(size * 2)) <= 50
  {
    LoadAfterGrowth(used, size, NextPrimeOf(size * 2));
  }

  lemma ShrinkageTarget(used: int, size: int)
    requires size > 0 && 0 <= used && Shrinks(used, size)
    ensures Load(used, NextPrimeOf(size / 2)) <= 20
  {
    LoadAfterShrinkage(used, size, NextPrimeOf(size / 2));
  }

  // ----- insertion

  /** The store of an absent key finds no place: its only probe, the home slot, is taken. */
  ghost predicate StoreFails<V>(slots: seq<Slot<V>>, key: string)
    requires |slots| > 0
  {
    Step(key, |slots|) == 0 && slots[Home(key, |slots|)].Live?
  }

  ghost predicate GrowthDrops<V>(t: Tab<V>, key: string, value: V)
    requires |t.slots| > 0
  {
    && Grows(t.used + 1, |t.slots|)
    && RehashDrops(Place(t.slots, key, value), NextPrimeOf(|t.slots| * 2))
  }

  ghost predicate InsertLoses<V>(t: Tab<V>, key: string, value: V)
    requires |t.slots| > 0
  {
    StoreFails(t.slots, key) || GrowthDrops(t, key, value)
  }

  lemma InsertProperties<V>(t: Tab<V>, key: string, value: V)
    requires Valid(t) && key !in Keys(t.slots)
    ensures var t' := Insert(t, key, value);
            && Valid(t')
            && (StoreFails(t.slots, key) <==> t' == t)
            && (!StoreFails(t.slots, key) ==> t'.used == t.used + 1)
            && SubMap(Contents(t'.slots), Contents(t.slots)[key := value])
            && (Contents(t'.slots) == Contents(t.slots)[key := value] <==> !InsertLoses(t, key, value))
            && (Counted(t') <==> Counted(t) && (StoreFails(t.slots, key) || !GrowthDrops(t, key, value)))
  {
    RoomLeft(t.used, |t.slots|);
    StoreFailsIff(t.slots, key);
    if !StoreFails(t.slots, key) {
      var p := FirstFree(t.slots, key, 0).value;
      var u := Tab(t.slots[p := Live(key, value)], t.used + 1);
      StoreKeepsChains(t.slots, key, value);
      StoreContents(t.slots, p, key, value);
      if Grows(u.used, |u.slots|) {
        GrowthTarget(u.used, |u.slots|);
        ResizeProperties(u, |u.slots| * 2);
      }
    }
  }

  /** One step of a rehash: the key is not in the target yet, and its insert does not make the target grow. */
  lemma MoveWithoutGrowth<V>(src: seq<Slot<V>>, i: nat, t: Tab<V>, bound: int)
    requires UniqueKeys(src) && i < |src| && src[i].Live? && |LivePositions(src)| <= bound
    requires Valid(t) && Counted(t) && Load(bound, |t.slots|) <= 50
    requires t.slots == Moved(src, i, Fresh(|t.slots|))
    ensures src[i].key !in Keys(t.slots) && !Grows(t.used + 1, |t.slots|)
    ensures var t' := Insert(t, src[i].key, src[i].value);
            t'.slots == Moved(src, i + 1, Fresh(|t.slots|)) && Counted(t')
  {
    hide Probe, ChainInv, Dropped;
    RoomLeft(bound, |t.slots|);
    MovedProperties(src, i, |t.slots|);
    LiveBelowStep(src, i + 1);
    NotYetMoved(src, i + 1, |t.slots|, t.slots);
    LoadMonotone(t.used + 1, bound, |t.slots|);
    InsertProperties(t, src[i].key, src[i].value);
  }

  /** The key itself is lost: it finds no place, or the growth it starts finds none for it. */
  ghost predicate InsertLosesKey<V>(t: Tab<V>, key: string, value: V)
    requires |t.slots| > 0
  {
    var placed, size := Place(t.slots, key, value), NextPrimeOf(|t.slots| * 2);
    || StoreFails(t.slots, key)
    || (Grows(t.used + 1, |t.slots|) && exists i: nat :: HoldsKey(placed, i, key) && Dropped(placed, size, i))
  }

  /** Whether the key inserted is found afterwards. */
  lemma InsertedIsFound<V>(t: Tab<V>, key: string, value: V)
    requires Valid(t) && key !in Keys(t.slots)
    ensures var t' := Insert(t, key, value);
            Get(t', key) == if InsertLosesKey(t, key, value) then None else Some(value)
  {
    hide Probe, Dropped, Get, Find, FirstFree, ChainInv, UniqueKeys, Contents;
    InsertProperties(t, key, value);
    GetValue(Insert(t, key, value), key);
    if !StoreFails(t.slots, key) {
      var placed, size := Place(t.slots, key, value), NextPrimeOf(|t.slots| * 2);
      RoomLeft(t.used, |t.slots|);
      StoreFailsIff(t.slots, key);
      var p := FirstFree(t.slots, key, 0).value;
      StoreContents(t.slots, p, key, value);
      assert HoldsKey(placed, p, key);
      if Grows(t.used + 1, |t.slots|) {
        GrowthTarget(t.used + 1, |t.slots|);
        RoomLeft(t.used + 1, size);
        RehashProperties(placed, size);
      }
    }
  }

  /** A new table holds nothing and loses no first key. */
  lemma NothingInFresh<V>(size: int, key: string, value: V)
    ensures var t := Init<V>(size);
            Find(t.slots, key, 0) == None && Get(t, key) == None && !InsertLosesKey(t, key, value)
  {
    var t := Init<V>(size);
    InitValid<V>(size);
    FreshProperties<V>(|t.slots|);
    FindIffLive(t.slots, key);
    LoadBound(1, |t.slots|, 70);
  }

  // ----- deletion

  ghost predicate DeleteLoses<V>(t: Tab<V>, key: string)
    requires |t.slots| > 0
  {
    match Find(t.slots, key, 0)
    case None => false
    case Some(p) =>
      && Shrinks(t.used - 1, |t.slots|)
      && RehashDrops(t.slots[p := Deleted], NextPrimeOf(|t.slots| / 2))
  }

  lemma DeleteProperties<V>(t: Tab<V>, key: string)
    requires Valid(t)
    ensures var (t', deleted) := Delete(t, key);
            && Valid(t')
            && (deleted <==> key in Contents(t.slots))
            && t'.used == t.used - (if deleted then 1 else 0)
            && SubMap(Contents(t'.slots), Contents(t.slots) - {key})
            && (Contents(t'.slots) == Contents(t.slots) - {key} <==> !DeleteLoses(t, key))
            && (Counted(t') <==> Counted(t) && !DeleteLoses(t, key))
  {
    FindIffLive(t.slots, key);
    if Find(t.slots, key, 0).Some? {
      var p := Find(t.slots, key, 0).value;
      var u := Tab(t.slots[p := Deleted], t.used - 1);
      OverwriteKeepsChains(t.slots, p, Deleted);
      RemoveContents(t.slots, p);
      LoadMonotone(u.used, t.used, |t.slots|);
      if Shrinks(u.used, |u.slots|) {
        ShrinkageTarget(u.used, |u.slots|);
        ResizeProperties(u, |u.slots| / 2);
      }
    }
  }

  // ----- sizes

  /**
   The size after one operation. A table grows, to the least prime at or above twice its size, when the
   stored key makes it more than 70 percent full, and shrinks, to that at or above half its size, when a
   deletion leaves it less than 10 percent full and half its size is at least 2.
   */
  lemma SizeAfter<V>(t: Tab<V>, key: string, value: V)
    requires Valid(t) && key !in Keys(t.slots)
    ensures |Insert(t, key, value).slots| ==
            if Insert(t, key, value).used == t.used + 1 && (t.used + 1) * 100 / |t.slots| > 70
            then NextPrimeOf(2 * |t.slots|) else |t.slots|
  {
    InsertProperties(t, key, value);
  }

  lemma SizeAfterDelete<V>(t: Tab<V>, key: string)
    requires Valid(t)
    ensures |Delete(t, key).0.slots| ==
            if key in Keys(t.slots) && (t.used - 1) * 100 / |t.slots| < 10 && |t.slots| >= 4
            then NextPrimeOf(|t.slots| / 2) else |t.slots|
  {
    FindIffLive(t.slots, key);
  }

  // ----- overwriting

  lemma OverwriteProperties<V>(t: Tab<V>, key: string, p: nat, value: V)
    requires Valid(t) && Find(t.slots, key, 0) == Some(p)
    ensures var t' := t.(slots := t.slots[p := Live(key, value)]);
            && Valid(t')
            && Contents(t'.slots) == Contents(t.slots)[key := value]
            && (Counted(t') <==> Counted(t))
  {
    OverwriteKeepsChains(t.slots, p, Live(key, value));
    ReplaceContents(t.slots, p, value);
  }

  /** The rehash that a put starts drops a key: its own or another. */
  ghost predicate PutRehashDrops<V>(t: Tab<V>, key: string, value: V)
    requires |t.slots| > 0
  {
    key !in Keys(t.slots) && !StoreFails(t.slots, key) && GrowthDrops(t, key, value)
  }

  ghost predicate PutLoses<V>(t: Tab<V>, key: string, value: V)
    requires |t.slots| > 0
  {
    key !in Keys(t.slots) && InsertLoses(t, key, value)
  }

  lemma PutProperties<V>(t: Tab<V>, key: string, value: V)
    requires Valid(t)
    ensures var t' := Put(t, key, value);
            && Valid(t')
            && SubMap(Contents(t'.slots), Contents(t.slots)[key := value])
            && (Contents(t'.slots) == Contents(t.slots)[key := value] <==> !PutLoses(t, key, value))
            && (Counted(t') <==> Counted(t) && !PutRehashDrops(t, key, value))
            && t'.used >= t.used
  {
    FindValue(t.slots, key);
    if Find(t.slots, key, 0).Some? {
      OverwriteProperties(t, key, Find(t.slots, key, 0).value, value);
    } else {
      InsertProperties(t, key, value);
    }
  }

  /** A counter that is too high stays above 0: the last key deleted leaves it behind. */
  lemma DeleteLeavesCount<V>(t: Tab<V>, key: string)
    requires Valid(t) && !Counted(t)
    ensures t.used > 0 && Delete(t, key).0.used > 0 && !Counted(Delete(t, key).0)
  {
    DeleteProperties(t, key);
    FindIffLive(t.slots, key);
    if Find(t.slots, key, 0).Some? {
      assert Find(t.slots, key, 0).value in LivePositions(t.slots);
    }
  }

  lemma GetValue<V>(t: Tab<V>, key: string)
    requires Valid(t)
    ensures Get(t, key) == if key in Contents(t.slots) then Some(Contents(t.slots)[key]) else None
  {
    FindValue(t.slots, key);
  }

  lemma ValidBounds<V>(t: Tab<V>)
    requires Valid(t)
    ensures 0 <= t.used < |t.slots| && |Contents(t.slots)| <= t.used
    ensures Counted(t) <==> |Contents(t.slots)| == t.used
  {
    RoomLeft(t.used, |t.slots|);
    KeysCounted(t.slots);
    assert |Contents(t.slots)| == |Contents(t.slots).Keys|;
  }
}
