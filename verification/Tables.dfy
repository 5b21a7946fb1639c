/**
 The hash table as a value: what each operation of src/htable.c makes of the slots and of
 the `used` counter, and what that means for the finite map the table stands for.
 */
module Tables {
  import opened Primes
  import opened Hashing
  import opened Options
  import opened Slots

  const BASE_SIZE := 2

  datatype Tab<V> = Tab(slots: seq<Slot<V>>, used: int)

  // ----- the operations

  /** The loop body of a store, without the growth check. */
  function Place<V>(slots: seq<Slot<V>>, key: string, value: V): (r: seq<Slot<V>>)
    ensures |r| == |slots|
  {
    match FirstFree(slots, key, 0)
    case None => slots
    case Some(p) => slots[p := Live(key, value)]
  }

  /** The target of a rehash after the first `n` slots of `src` were moved into it. */
  function Moved<V>(src: seq<Slot<V>>, n: nat, dst: seq<Slot<V>>): (r: seq<Slot<V>>)
    requires n <= |src|
    ensures |r| == |dst|
  {
    if n == 0 then dst
    else
      var t := Moved(src, n - 1, dst);
      if src[n - 1].Live? then Place(t, src[n - 1].key, src[n - 1].value) else t
  }

  ghost function Rehash<V>(src: seq<Slot<V>>, size: nat): seq<Slot<V>> {
    Moved(src, |src|, Fresh(size))
  }

  ghost function Init<V>(size: int): Tab<V> {
    Tab(Fresh(NextPrimeOf(size)), 0)
  }

  /** `used` is kept as it is: the counter of the rehash target is thrown away. */
  ghost function Resize<V>(t: Tab<V>, newSize: int): Tab<V> {
    if newSize < BASE_SIZE then t else Tab(Rehash(t.slots, NextPrimeOf(newSize)), t.used)
  }

  function Load(used: int, size: int): int
    requires size > 0
  {
    used * 100 / size
  }

  ghost function ResizeUp<V>(t: Tab<V>): Tab<V>
    requires |t.slots| > 0
  {
    if Load(t.used, |t.slots|) > 70 then Resize(t, |t.slots| * 2) else t
  }

  ghost function ResizeDown<V>(t: Tab<V>): Tab<V>
    requires |t.slots| > 0
  {
    if Load(t.used, |t.slots|) < 10 then Resize(t, |t.slots| / 2) else t
  }

  ghost function Insert<V>(t: Tab<V>, key: string, value: V): Tab<V> {
    match FirstFree(t.slots, key, 0)
    case None => t
    case Some(p) => ResizeUp(Tab(t.slots[p := Live(key, value)], t.used + 1))
  }

  ghost function Delete<V>(t: Tab<V>, key: string): (Tab<V>, bool) {
    match Find(t.slots, key, 0)
    case None => (t, false)
    case Some(p) => (ResizeDown(Tab(t.slots[p := Deleted], t.used - 1)), true)
  }

  /** Insert or overwrite. */
  ghost function Put<V>(t: Tab<V>, key: string, value: V): Tab<V> {
    match Find(t.slots, key, 0)
    case None => Insert(t, key, value)
    case Some(p) => t.(slots := t.slots[p := Live(key, value)])
  }

  function Get<V>(t: Tab<V>, key: string): Option<V> {
    match Find(t.slots, key, 0)
    case None => None
    case Some(p) => Some(t.slots[p].value)
  }

  // ----- the invariant

  ghost predicate Valid<V>(t: Tab<V>) {
    && Prime(|t.slots|)
    && ChainInv(t.slots)
    && UniqueKeys(t.slots)
    && |LivePositions(t.slots)| <= t.used
    && Load(t.used, |t.slots|) <= 70
  }

  ghost predicate SubMap<K, V>(m: map<K, V>, n: map<K, V>) {
    forall k :: k in m ==> k in n && m[k] == n[k]
  }

  // ----- load arithmetic

  lemma LoadBound(used: int, size: int, bound: int)
    requires size > 0
    ensures Load(used, size) <= bound <==> used * 100 < (bound + 1) * size
  {
    QuotientBound(used * 100, size, used * 100 / size, used * 100 % size, bound);
  }

  lemma QuotientBound(x: int, size: int, q: int, r: int, bound: int)
    requires 0 <= r < size && x == q * size + r
    ensures q <= bound <==> x < (bound + 1) * size
  {
    assert (bound + 1) * size - x == (bound - q) * size + (size - r);
    MultipleBounds(bound - q, size);
  }

  /** A table at most 70 percent loaded has a slot left, and so has it after one more insert before any growth. */
  lemma RoomLeft(used: int, size: int)
    requires size >= 2 && Load(used, size) <= 70
    ensures used < size && used + 1 <= size
  {
    LoadBound(used, size, 70);
  }

  /** Growth: the rehash target starts its life at a load of at most 50. */
  lemma LoadAfterGrowth(used: int, size: int, newSize: int)
    requires size > 0 && 0 <= used <= size && newSize >= size * 2
    ensures Load(used, newSize) <= 50
  {
    LoadBound(used, newSize, 50);
  }

  /** Shrinkage: the rehash target starts its life at a load of at most 20. */
  lemma LoadAfterShrinkage(used: int, size: int, newSize: int)
    requires size > 0 && 0 <= used && Load(used, size) < 10
    requires newSize >= size / 2 && newSize >= 2
    ensures Load(used, newSize) <= 20
  {
    LoadBound(used, size, 9);
    LoadBound(used, newSize, 20);
  }

  lemma LoadMonotone(a: int, b: int, size: int)
    requires size > 0 && a <= b
    ensures Load(a, size) <= Load(b, size)
  {
    LoadBound(a, size, Load(b, size));
    LoadBound(b, size, Load(b, size));
  }

  // ----- rehashing

  ghost function LiveBelow<V>(slots: seq<Slot<V>>, n: nat): set<nat>
    requires n <= |slots|
  {
    set p: nat | p < n && slots[p].Live?
  }

  lemma LiveBelowStep<V>(slots: seq<Slot<V>>, n: nat)
    requires 0 < n <= |slots|
    ensures |LiveBelow(slots, n)| == |LiveBelow(slots, n - 1)| + if slots[n - 1].Live? then 1 else 0
    ensures |LiveBelow(slots, n)| <= |LivePositions(slots)|
  {
    SubsetSize(LiveBelow(slots, n), LivePositions(slots));
    if slots[n - 1].Live? {
      assert LiveBelow(slots, n) == LiveBelow(slots, n - 1) + {n - 1};
    } else {
      assert LiveBelow(slots, n) == LiveBelow(slots, n - 1);
    }
  }

  /** Slot `i` of `src` finds no place in the rehash target: its step there is 0 and its home was taken before it. */
  ghost predicate Dropped<V>(src: seq<Slot<V>>, size: nat, i: nat)
    requires size > 0
  {
    && i < |src|
    && src[i].Live?
    && Step(src[i].key, size) == 0
    && Moved(src, i, Fresh(size))[Home(src[i].key, size)].Live?
  }

  ghost predicate RehashDrops<V>(src: seq<Slot<V>>, size: nat)
    requires size > 0
  {
    exists i: nat :: Dropped(src, size, i)
  }

  ghost predicate NoTombstones<V>(slots: seq<Slot<V>>) {
    forall p: nat :: p < |slots| ==> !slots[p].Deleted?
  }

  ghost predicate InSlots<V>(slots: seq<Slot<V>>, s: Slot<V>) {
    exists p: nat :: p < |slots| && slots[p] == s
  }

  /** `s` is one of the first `n` slots of `src` and was not dropped. */
  ghost predicate Carried<V>(src: seq<Slot<V>>, n: nat, size: nat, s: Slot<V>)
    requires n <= |src| && size > 0
  {
    exists i: nat :: i < n && src[i] == s && !Dropped(src, size, i)
  }

  ghost predicate MovedExactly<V>(src: seq<Slot<V>>, n: nat, t: seq<Slot<V>>)
    requires n <= |src| && |t| > 0
  {
    && ChainInv(t)
    && UniqueKeys(t)
    && NoTombstones(t)
    && |LivePositions(t)| <= |LiveBelow(src, n)|
    && (forall p: nat :: p < |t| && t[p].Live? ==> Carried(src, n, |t|, t[p]))
    && (forall i: nat :: i < n && src[i].Live? && !Dropped(src, |t|, i) ==> InSlots(t, src[i]))
  }

  lemma {:induction false} MovedProperties<V>(src: seq<Slot<V>>, n: nat, size: nat)
    requires UniqueKeys(src) && n <= |src| && Prime(size) && |LivePositions(src)| <= size
    ensures MovedExactly(src, n, Moved(src, n, Fresh(size)))
  {
    if n == 0 {
      FreshProperties<V>(size);
    } else {
      MovedProperties(src, n - 1, size);
      LiveBelowStep(src, n);
      if src[n - 1].Live? {
        MoveOne(src, n, size, Moved(src, n - 1, Fresh(size)));
      } else {
        CarriedGrows(src, n, size);
      }
    }
  }

  lemma CarriedGrows<V>(src: seq<Slot<V>>, n: nat, size: nat)
    requires 0 < n <= |src| && size > 0
    ensures forall s :: Carried(src, n - 1, size, s) ==> Carried(src, n, size, s)
  {
  }

  lemma NotYetMoved<V>(src: seq<Slot<V>>, n: nat, size: nat, t: seq<Slot<V>>)
    requires UniqueKeys(src) && 0 < n <= |src| && src[n - 1].Live? && |t| == size > 0
    requires forall p: nat :: p < |t| && t[p].Live? ==> Carried(src, n - 1, size, t[p])
    ensures src[n - 1].key !in Keys(t)
  {
    var key := src[n - 1].key;
    assert HoldsKey(src, n - 1, key);
    if key in Keys(t) {
      var p := KeyHeld(t, key);
      assert Carried(src, n - 1, size, t[p]);
      var i: nat :| i < n - 1 && src[i] == t[p] && !Dropped(src, size, i);
      assert HoldsKey(src, i, key);
    }
  }

  lemma MoveOne<V>(src: seq<Slot<V>>, n: nat, size: nat, t: seq<Slot<V>>)
    requires UniqueKeys(src) && 0 < n <= |src| && Prime(size)
    requires src[n - 1].Live? && |LivePositions(src)| <= size
    requires t == Moved(src, n - 1, Fresh(size)) && MovedExactly(src, n - 1, t)
    ensures MovedExactly(src, n, Place(t, src[n - 1].key, src[n - 1].value))
  {
    var s := src[n - 1];
    LiveBelowStep(src, n);
    CarriedGrows(src, n, size);
    NotYetMoved(src, n, size, t);
    StoreFailsIff(t, s.key);
    assert FirstFree(t, s.key, 0).None? <==> Dropped(src, size, n - 1);
    if FirstFree(t, s.key, 0).Some? {
      StoreKeepsChains(t, s.key, s.value);
      StoreMoved(src, n, t, FirstFree(t, s.key, 0).value);
    }
  }

  lemma StoreMoved<V>(src: seq<Slot<V>>, n: nat, t: seq<Slot<V>>, p: nat)
    requires 0 < n <= |src| && src[n - 1].Live? && |t| > 0 && MovedExactly(src, n - 1, t)
    requires src[n - 1].key !in Keys(t) && p < |t| && !t[p].Live?
    requires !Dropped(src, |t|, n - 1) && ChainInv(t[p := src[n - 1]])
    ensures MovedExactly(src, n, t[p := src[n - 1]])
  {
    hide Dropped, Probe, Moved;
    var s := src[n - 1];
    var after := t[p := s];
    LiveBelowStep(src, n);
    CarriedGrows(src, n, |t|);
    StoreContents(t, p, s.key, s.value);
    assert Carried(src, n, |t|, s);
    assert after[p] == s;
    forall i: nat | i < n && src[i].Live? && !Dropped(src, |t|, i)
      ensures InSlots(after, src[i])
    {
      if i < n - 1 {
        var q: nat :| q < |t| && t[q] == src[i];
        assert after[q] == src[i];
      }
    }
  }

  /** What a rehash does: no tombstones are left, no value changes, and exactly the dropped keys are missing. */
  lemma RehashProperties<V>(src: seq<Slot<V>>, size: nat)
    requires UniqueKeys(src) && Prime(size) && |LivePositions(src)| <= size
    ensures var t := Rehash(src, size);
            && |t| == size
            && ChainInv(t) && UniqueKeys(t) && NoTombstones(t)
            && |LivePositions(t)| <= |LivePositions(src)|
            && SubMap(Contents(t), Contents(src))
            && (forall i: nat, key :: HoldsKey(src, i, key) ==> (key in Contents(t) <==> !Dropped(src, size, i)))
  {
    var t := Rehash(src, size);
    MovedProperties(src, |src|, size);
    assert LiveBelow(src, |src|) == LivePositions(src);
    forall key | key in Contents(t)
      ensures key in Contents(src) && Contents(t)[key] == Contents(src)[key]
    {
      var i := CarriedFrom(src, size, key);
      ContentsAt(src, i);
    }
    forall i: nat, key | HoldsKey(src, i, key)
      ensures key in Contents(t) <==> !Dropped(src, size, i)
    {
      if key in Keys(t) {
        var k := CarriedFrom(src, size, key);
        assert HoldsKey(src, k, key);
      }
      if !Dropped(src, size, i) {
        var p: nat :| p < |t| && t[p] == src[i];
      }
    }
  }

  lemma CarriedFrom<V>(src: seq<Slot<V>>, size: nat, key: string) returns (i: nat)
    requires size > 0 && MovedExactly(src, |src|, Rehash(src, size)) && key in Keys(Rehash(src, size))
    ensures HoldsKey(src, i, key) && !Dropped(src, size, i)
    ensures src[i].value == Contents(Rehash(src, size))[key]
  {
    var t := Rehash(src, size);
    var p := KeyHeld(t, key);
    ContentsAt(t, p);
    assert Carried(src, |src|, size, t[p]);
    i :| i < |src| && src[i] == t[p] && !Dropped(src, size, i);
  }

  /** A rehash keeps the whole map, and the number of live slots, exactly when it drops no key. */
  lemma RehashConserves<V>(src: seq<Slot<V>>, size: nat)
    requires UniqueKeys(src) && Prime(size) && |LivePositions(src)| <= size
    ensures !RehashDrops(src, size) <==> Contents(Rehash(src, size)) == Contents(src)
    ensures !RehashDrops(src, size) <==> |LivePositions(Rehash(src, size))| == |LivePositions(src)|
  {
    hide Rehash, Moved, Contents, ChainInv, NoTombstones, UniqueKeys;
    var t := Rehash(src, size);
    RehashProperties(src, size);
    KeysCounted(src);
    KeysCounted(t);
    assert Keys(t) <= Keys(src) by {
      assert forall key :: key in Contents(t) ==> key in Contents(src);
    }
    if RehashDrops(src, size) {
      var i: nat :| Dropped(src, size, i);
      var key := src[i].key;
      assert HoldsKey(src, i, key);
      assert key in Keys(src);
      assert key !in Contents(t);
      SubsetSize(Keys(t), Keys(src) - {key});
    } else {
      forall key | key in Keys(src)
        ensures key in Contents(t)
      {
        var i := KeyHeld(src, key);
        assert !Dropped(src, size, i);
      }
      assert Keys(t) == Keys(src);
    }
  }
}
