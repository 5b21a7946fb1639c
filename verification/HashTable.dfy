/**
 The hash table of src/htable.c: an array of slots updated in place by bounded probe loops,
 with tombstones, growth and shrinkage. Every method is proved against the operation of the
 same name on table values.
 */
module HashTables {
  import opened Primes
  import opened Hashing
  import opened Options
  import opened Slots
  import Tables
  import opened TableProperties

  class HashTable<V> {
    var size: int
    var used: int
    var items: array<Slot<V>>

    ghost function State(): Tables.Tab<V>
      reads this, items
    {
      Tables.Tab(items[..], used)
    }

    ghost predicate Valid()
      reads this, items
    {
      items.Length == size && Tables.Valid(State())
    }

    /** The state between a store and the growth check. */
    ghost predicate BeforeResize()
      reads this, items
    {
      items.Length == size && Structured(State())
    }

    constructor (initial: int)
      ensures Valid() && fresh(items)
      ensures State() == Tables.Init(initial)
    {
      var prime := NextPrime(initial);
      size := prime;
      used := 0;
      items := new Slot<V>[prime](_ => Empty);
      new;
      assert items[..] == Fresh(prime);
      InitValid<V>(initial);
    }

    /** The loop stores at the first free probe; growth may follow. */
    method Insert(key: string, value: V)
      requires Valid() && key !in Keys(items[..])
      modifies this, items
      ensures Valid() && (items == old(items) || fresh(items))
      ensures State() == Tables.Insert(old(State()), key, value)
      decreases if Grows(used + 1, size) then 1 else 0, 2
    {
      ghost var t := State();
      var i := 0;
      while i < size
        invariant 0 <= i <= size == |t.slots|
        invariant Valid() && State() == t && items == old(items)
        invariant FirstFree(t.slots, key, 0) == FirstFree(t.slots, key, i)
      {
        var hash := HashFunc(key, size, i);
        if !items[hash].Live? {
          StoreStructured(t, key, value, hash);
          items[hash] := Live(key, value);
          used := used + 1;
          assert items[..] == t.slots[hash := Live(key, value)];
          ResizeUp();
          return;
        }
        i := i + 1;
      }
    }

    method ResizeUp()
      requires BeforeResize()
      modifies this, items
      ensures Valid() && (items == old(items) || fresh(items))
      ensures State() == Tables.ResizeUp(old(State()))
      decreases if Grows(used, size) then 1 else 0, 1
    {
      var load := used * 100 / size;
      if load > 70 {
        GrowthTarget(used, size);
        Resize(size * 2);
      }
    }

    method ResizeDown()
      requires BeforeResize() && Tables.Load(used, size) <= 70
      modifies this, items
      ensures Valid() && (items == old(items) || fresh(items))
      ensures State() == Tables.ResizeDown(old(State()))
      decreases 1, 1
    {
      var load := used * 100 / size;
      if load < 10 {
        if Shrinks(used, size) {
          ShrinkageTarget(used, size);
        }
        Resize(size / 2);
      }
    }

    /** Rehash into a new table; the load bound of the target keeps the inner inserts from growing it. */
    method Resize(newSize: int)
      requires BeforeResize()
      requires newSize < Tables.BASE_SIZE ==> Tables.Load(used, size) <= 70
      requires newSize >= Tables.BASE_SIZE ==> Tables.Load(used, NextPrimeOf(newSize)) <= 50
      modifies this, items
      ensures Valid() && (items == old(items) || fresh(items))
      ensures State() == Tables.Resize(old(State()), newSize)
      decreases 1, 0
    {
      if newSize < Tables.BASE_SIZE {
        return;
      }
      ResizeProperties(State(), newSize);
      var target := MoveAll(newSize);
      size := target.size;
      items := target.items;
    }

    /** A new table holding the items of this one, moved over in slot order. */
    method MoveAll(newSize: int) returns (target: HashTable<V>)
      requires BeforeResize()
      requires Tables.Load(used, NextPrimeOf(newSize)) <= 50
      ensures fresh(target) && fresh(target.items)
      ensures target.items.Length == target.size
      ensures target.items[..] == Tables.Rehash(items[..], NextPrimeOf(newSize))
      decreases 0, 4
    {
      target := new HashTable<V>(newSize);
      FreshProperties<V>(target.size);
      var i := 0;
      while i < size
        invariant 0 <= i <= size == items.Length
        invariant target.Valid() && fresh(target) && fresh(target.items)
        invariant target.size == NextPrimeOf(newSize) && Counted(target.State())
        invariant target.items[..] == Tables.Moved(items[..], i, Fresh(target.size))
      {
        if items[i].Live? {
          target.ItemSwap(items[i], items[..], i, used);
        }
        i := i + 1;
      }
    }

    /** Move item `i` of the slots `src` being rehashed; `bound` is the item count of the whole rehash. */
    method ItemSwap(item: Slot<V>, ghost src: seq<Slot<V>>, ghost i: nat, ghost bound: int)
      requires Valid() && Counted(State())
      requires i < |src| && src[i] == item && item.Live? && UniqueKeys(src) && |LivePositions(src)| <= bound
      requires Tables.Load(bound, size) <= 50
      requires items[..] == Tables.Moved(src, i, Fresh(size))
      modifies this, items
      ensures Valid() && Counted(State()) && (items == old(items) || fresh(items))
      ensures size == old(size)
      ensures items[..] == Tables.Moved(src, i + 1, Fresh(size))
      decreases 0, 3
    {
      hide Tables.Insert, Tables.Valid, Tables.Moved, Counted, Keys, UniqueKeys, Fresh, LivePositions, Grows;
      MoveWithoutGrowth(src, i, State(), bound);
      assert |items[..]| == size;
      Insert(item.key, item.value);
    }

    /** The slot of `key`, if it is live. */
    method Search(key: string) returns (r: Option<nat>)
      requires Valid()
      ensures r == Find(items[..], key, 0)
    {
      var i := 0;
      while i < size
        invariant 0 <= i <= size
        invariant Find(items[..], key, 0) == Find(items[..], key, i)
      {
        var hash := HashFunc(key, size, i);
        if items[hash].Empty? {
          return None;
        }
        if items[hash].Live? && items[hash].key == key {
          return Some(hash);
        }
        i := i + 1;
      }
      return None;
    }

    method Exists(key: string) returns (r: bool)
      requires Valid()
      ensures r <==> key in Contents(items[..])
    {
      FindIffLive(items[..], key);
      var item := Search(key);
      return item.Some?;
    }

    method Get(key: string) returns (r: Option<V>)
      requires Valid()
      ensures r == if key in Contents(items[..]) then Some(Contents(items[..])[key]) else None
    {
      FindValue(items[..], key);
      var item := Search(key);
      if item.Some? {
        return Some(items[item.value].value);
      }
      return None;
    }

    /** Leaves a tombstone; shrinkage may follow. */
    method Del(key: string) returns (deleted: bool)
      requires Valid()
      modifies this, items
      ensures Valid() && (items == old(items) || fresh(items))
      ensures (State(), deleted) == Tables.Delete(old(State()), key)
    {
      ghost var t := State();
      var i := 0;
      while i < size
        invariant 0 <= i <= size == |t.slots|
        invariant Valid() && State() == t && items == old(items)
        invariant Find(t.slots, key, 0) == Find(t.slots, key, i)
      {
        var hash := HashFunc(key, size, i);
        if items[hash].Empty? {
          return false;
        }
        if items[hash].Live? && items[hash].key == key {
          RemoveStructured(t, hash);
          items[hash] := Deleted;
          used := used - 1;
          assert items[..] == t.slots[hash := Deleted];
          ResizeDown();
          return true;
        }
        i := i + 1;
      }
      return false;
    }

    /** Replaces the item of a live key in its slot. */
    method UpdateStr(key: string, value: V)
      requires Valid()
      modifies items
      ensures Valid()
      ensures match Find(old(items[..]), key, 0)
              case None => State() == old(State())
              case Some(p) => State() == old(State()).(slots := old(items[..])[p := Live(key, value)])
    {
      ghost var t := State();
      var i := 0;
      while i < size
        invariant 0 <= i <= size == |t.slots|
        invariant State() == t
        invariant Find(t.slots, key, 0) == Find(t.slots, key, i)
      {
        var hash := HashFunc(key, size, i);
        if items[hash].Empty? {
          break;
        }
        if items[hash].Live? && items[hash].key == key {
          OverwriteProperties(t, key, hash, value);
          items[hash] := Live(key, value);
          assert items[..] == t.slots[hash := Live(key, value)];
          return;
        }
        i := i + 1;
      }
    }

    /** Insert or overwrite. */
    method Set(key: string, value: V) returns (ok: bool)
      requires Valid()
      modifies this, items
      ensures Valid() && (items == old(items) || fresh(items))
      ensures ok && State() == Tables.Put(old(State()), key, value)
    {
      FindIffLive(items[..], key);
      var item := Search(key);
      if item.None? {
        Insert(key, value);
      } else {
        UpdateStr(key, value);
      }
      return true;
    }
  }
}
