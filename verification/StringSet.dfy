/**
 The set of strings of src/set.c: the open-addressing array updated in place. Every method is
 proved against the operation of the same name on set values.
 */
module StringSets {
  import opened Primes
  import opened Hashing
  import opened Slots
  import Tables
  import opened TableProperties
  import opened Sets
  import opened Listings

  class StringSet {
    var size: int
    var used: int
    var members: array<Slot<()>>

    ghost function State(): SetTab
      reads this, members
    {
      Tables.Tab(members[..], used)
    }

    ghost predicate Valid()
      reads this, members
    {
      members.Length == size && SetValid(State())
    }

    ghost predicate BeforeResize()
      reads this, members
    {
      members.Length == size && SetStructured(State())
    }

    constructor (initial: int)
      ensures Valid() && fresh(members)
      ensures State() == Tables.Init(initial)
    {
      var prime := NextPrime(initial);
      size := prime;
      used := 0;
      members := new Slot<()>[prime](_ => Empty);
      new;
      assert members[..] == Fresh(prime);
      InitValid<()>(initial);
    }

    /** The first free slot takes the key, even when the key is a member further along. */
    method Add(key: string) returns (added: bool)
      requires Valid()
      modifies this, members
      ensures Valid() && (members == old(members) || fresh(members))
      ensures (State(), added) == SetAdd(old(State()), key)
      decreases if Grows(used + 1, size) then 1 else 0, 2
    {
      ghost var t := State();
      var i := 0;
      while i < size
        invariant 0 <= i <= size == |t.slots|
        invariant Valid() && State() == t && members == old(members)
        invariant AddScan(t.slots, key, 0) == AddScan(t.slots, key, i)
      {
        var hash := HashFunc(key, size, i);
        if !members[hash].Live? {
          AddStructured(t, key, hash);
          members[hash] := Live(key, ());
          used := used + 1;
          assert members[..] == t.slots[hash := Live(key, ())];
          ResizeUp();
          return true;
        }
        if members[hash].key == key {
          return false;
        }
        i := i + 1;
      }
      return false;
    }

    method ResizeUp()
      requires BeforeResize()
      modifies this, members
      ensures Valid() && (members == old(members) || fresh(members))
      ensures State() == SetResizeUp(old(State()))
      decreases if Grows(used, size) then 1 else 0, 1
    {
      var load := used * 100 / size;
      if load > 70 {
        GrowthTarget(used, size);
        Resize(size * 2);
      }
    }

    method ResizeDown()
      requires BeforeResize() && Tables.Load(used, size) <= 70
      modifies this, members
      ensures Valid() && (members == old(members) || fresh(members))
      ensures State() == SetResizeDown(old(State()))
      decreases 1, 1
    {
      var load := used * 100 / size;
      if load < 10 {
        if Shrinks(used, size) {
          ShrinkageTarget(used, size);
        }
        Resize(size / 2);
      }
    }

    method Resize(newSize: int)
      requires BeforeResize()
      requires newSize < Tables.BASE_SIZE ==> Tables.Load(used, size) <= 70
      requires newSize >= Tables.BASE_SIZE ==> Tables.Load(used, NextPrimeOf(newSize)) <= 50
      modifies this, members
      ensures Valid() && (members == old(members) || fresh(members))
      ensures State() == SetResize(old(State()), newSize)
      decreases 1, 0
    {
      if newSize < Tables.BASE_SIZE {
        return;
      }
      SetResizeProperties(State(), newSize);
      var target := MoveAll(newSize);
      size := target.size;
      members := target.members;
    }

    /** A new set to which the members of this one were added in slot order. */
    method MoveAll(newSize: int) returns (target: StringSet)
      requires BeforeResize()
      requires Tables.Load(used, NextPrimeOf(newSize)) <= 50
      ensures fresh(target) && fresh(target.members)
      ensures target.members.Length == target.size
      ensures target.members[..] == SetRehash(members[..], NextPrimeOf(newSize))
      decreases 0, 4
    {
      target := new StringSet(newSize);
      FreshProperties<()>(target.size);
      var i := 0;
      while i < size
        invariant 0 <= i <= size == members.Length
        invariant target.Valid() && fresh(target) && fresh(target.members)
        invariant target.size == NextPrimeOf(newSize) && Counted(target.State())
        invariant target.members[..] == AddMoved(members[..], i, Fresh(target.size))
      {
        if members[i].Live? {
          target.MemberSwap(members[i], members[..], i, used);
        }
        i := i + 1;
      }
    }

    /** Add member `i` of the slots `src` being rehashed; `bound` is the member count of the whole rehash. */
    method MemberSwap(member: Slot<()>, ghost src: SetSlots, ghost i: nat, ghost bound: int)
      requires Valid() && Counted(State())
      requires i < |src| && src[i] == member && member.Live? && |LivePositions(src)| <= bound
      requires Tables.Load(bound, size) <= 50
      requires members[..] == AddMoved(src, i, Fresh(size))
      modifies this, members
      ensures Valid() && Counted(State()) && (members == old(members) || fresh(members))
      ensures size == old(size)
      ensures members[..] == AddMoved(src, i + 1, Fresh(size))
      decreases 0, 3
    {
      Tables.RoomLeft(bound, size);
      AddMovedProperties(src, i, size);
      Tables.LiveBelowStep(src, i + 1);
      Tables.LoadMonotone(used + 1, bound, size);
      NoTombstoneBeforeKey(members[..], member.key);
      ScanOutcome(members[..], member.key);
      SetAddKeepsCount(State(), member.key);
      var added := Add(member.key);
    }

    method Rem(key: string) returns (removed: bool)
      requires Valid()
      modifies this, members
      ensures Valid() && (members == old(members) || fresh(members))
      ensures (State(), removed) == SetRem(old(State()), key)
    {
      ghost var t := State();
      var i := 0;
      while i < size
        invariant 0 <= i <= size == |t.slots|
        invariant Valid() && State() == t && members == old(members)
        invariant Find(t.slots, key, 0) == Find(t.slots, key, i)
      {
        var hash := HashFunc(key, size, i);
        if members[hash].Empty? {
          return false;
        }
        if members[hash].Live? && members[hash].key == key {
          RemStructured(t, hash);
          members[hash] := Deleted;
          used := used - 1;
          assert members[..] == t.slots[hash := Deleted];
          ResizeDown();
          return true;
        }
        i := i + 1;
      }
      return false;
    }

    method IsMember(key: string) returns (r: bool)
      requires Valid()
      ensures r <==> key in Keys(members[..])
    {
      FindIffLive(members[..], key);
      var i := 0;
      while i < size
        invariant 0 <= i <= size
        invariant Find(members[..], key, 0) == Find(members[..], key, i)
      {
        var hash := HashFunc(key, size, i);
        if members[hash].Empty? {
          return false;
        }
        if members[hash].Live? && members[hash].key == key {
          return true;
        }
        i := i + 1;
      }
      return false;
    }

    /** The live members in slot order, in an array one longer than the table. */
    method Members() returns (r: seq<string>)
      requires Valid()
      ensures r == Firsts(Listed(members[..]))
    {
      var res := new string[size + 1](_ => "");
      var id := 0;
      var i := 0;
      while i < size
        invariant 0 <= id <= i <= size
        invariant res[..id] == Firsts(Listing(members[..], i))
      {
        if members[i].Live? {
          res[id] := members[i].key;
          id := id + 1;
        }
        i := i + 1;
      }
      return res[..id];
    }
  }
}
