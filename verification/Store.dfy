/**
 The typed store of src/htable.c with its containers on the heap: the items of the table are
 strings or references to hashes, lists and sets that the operations change in place.
 */
module Stores {
  import opened Options
  import opened Slots
  import opened Tables
  import opened TableProperties
  import opened HashTables
  import opened LinkedLists
  import ListSpec
  import opened StringSets
  import opened Sets
  import opened StoreSpec
  import opened StoreProperties
  import opened Relabelling
  import opened Listings

  datatype Ref = Str(s: string) | HashRef(h: HashTable<string>) | ListRef(l: List) | SetRef(m: StringSet)

  ghost function Root(v: Ref): set<object> {
    match v
    case Str(_) => {}
    case HashRef(h) => {h}
    case ListRef(l) => {l}
    case SetRef(m) => {m}
  }

  /** The objects an item is made of. */
  ghost function Foot(v: Ref): set<object>
    reads Root(v)
  {
    match v
    case Str(_) => {}
    case HashRef(h) => {h, h.items}
    case ListRef(l) => {l} + (set i | 0 <= i < |l.nodes| :: l.nodes[i] as object)
    case SetRef(m) => {m, m.members}
  }

  ghost predicate Sound(v: Ref)
    reads Root(v), Foot(v)
  {
    match v
    case Str(_) => true
    case HashRef(h) => h.Valid()
    case ListRef(l) => l.Valid()
    case SetRef(m) => m.Valid()
  }

  ghost function Deref(v: Ref): Val
    reads Root(v), Foot(v)
  {
    match v
    case Str(s) => StrVal(s)
    case HashRef(h) => HashVal(h.State())
    case ListRef(l) => ListVal(l.Values())
    case SetRef(m) => SetVal(m.State())
  }

  class TypedStore {
    var table: HashTable<Ref>
    ghost var Repr: set<object>

    ghost predicate Placed(v: Ref)
      requires table in Repr
      reads this, Repr
    {
      && Root(v) <= Repr
      && Foot(v) <= Repr - {this, table, table.items}
      && Sound(v)
    }

    /** No two items share an object, and none shares one with the table. */
    ghost predicate Layout()
      reads this, Repr
    {
      && this in Repr && table in Repr && table.items in Repr
      && table.Valid()
      && var m := Contents(table.items[..]);
         && (forall key :: key in m ==> Placed(m[key]))
         && (forall key, other :: key in m && other in m && key != other ==> Foot(m[key]) !! Foot(m[other]))
    }

    ghost function Names(): string -> Val
      requires Layout()
      reads this, Repr
    {
      var m := Contents(table.items[..]);
      var names := map key | key in m :: Deref(m[key]);
      key => if key in names then names[key] else StrVal("")
    }

    /** The store as a value. */
    ghost function Abs(): StoreSpec.Store
      requires Layout()
      reads this, Repr
    {
      RelabelTab(Names(), table.State())
    }

    ghost predicate Valid()
      reads this, Repr
      ensures Valid() ==> Layout() && StoreInv(Abs())
    {
      Layout() && StoreInv(Abs())
    }

    constructor (size: int)
      ensures Valid() && fresh(Repr)
      ensures Abs() == Init(size)
    {
      table := new HashTable<Ref>(size);
      new;
      Repr := {this, table, table.items};
      FreshProperties<Ref>(table.size);
      assert Relabel(Names(), table.items[..]) == Fresh<Val>(table.size);
      InitStoreInv(size);
    }

    /** The item a search finds. */
    ghost function ItemAt(key: string): Ref
      requires Find(table.items[..], key, 0).Some?
      reads this, table, table.items
    {
      table.items[Find(table.items[..], key, 0).value].value
    }

    lemma AbsIsRelabelled()
      requires Layout()
      ensures Abs() == RelabelTab(Names(), table.State())
      ensures this in Repr && table in Repr && table.items in Repr && table.Valid()
    {
    }

    /** Looking a key up in the table is looking it up in the store as a value. */
    lemma Lookup(key: string)
      requires Layout()
      ensures table.Valid() && table in Repr && this in Repr
      ensures Find(Abs().slots, key, 0) == Find(table.items[..], key, 0)
      ensures match Find(table.items[..], key, 0)
              case None => key !in Keys(table.items[..])
              case Some(p) =>
                && Placed(table.items[p].value)
                && Abs().slots[p] == Live(key, Deref(table.items[p].value))
    {
      RelabelFind(Names(), table.items[..], key, 0);
      FindValue(table.items[..], key);
    }

    /** The items not under key `at.0` are what they were, if only the table itself changed. */
    twostate lemma OthersKept(at: (string, Ref))
      requires old(Layout()) && table == old(table) && table.items in Repr
      requires unchanged(old(Repr) - {this, old(table), old(table.items)})
      requires SubMap(Contents(table.items[..]), old(Contents(table.items[..]))[at.0 := at.1])
      requires old(Repr) <= Repr && (table.items == old(table.items) || fresh(table.items))
      ensures var m, n := Contents(table.items[..]), old(Contents(table.items[..]));
              forall k :: k in m && k != at.0 ==>
                && k in n && m[k] == n[k] && Placed(m[k])
                && Foot(m[k]) == old(Foot(n[k])) && Deref(m[k]) == old(Deref(n[k]))
    {
      hide Contents, Sound, Deref, ChainInv, UniqueKeys, HashTable.Valid;
      var m, n := Contents(table.items[..]), old(Contents(table.items[..]));
      forall k | k in m && k != at.0
        ensures k in n && m[k] == n[k] && Placed(m[k])
        ensures Foot(m[k]) == old(Foot(n[k])) && Deref(m[k]) == old(Deref(n[k]))
      {
        assert old(Placed(n[k]));
        ItemKept(n[k]);
      }
    }

    /**
     The contents changed to a part of what they were, with `at.1` under key `at.0`; the items themselves did not
     change.
     */
    twostate lemma LayoutKept(at: (string, Ref))
      requires old(Layout()) && table == old(table) && table.Valid()
      requires table.items == old(table.items) || fresh(table.items)
      requires unchanged(old(Repr) - {this, old(table), old(table.items)})
      requires SubMap(Contents(table.items[..]), old(Contents(table.items[..]))[at.0 := at.1])
      requires Sound(at.1) && Foot(at.1) !! old(Repr) && table.items !in Foot(at.1)
      requires Root(at.1) <= Foot(at.1)
      requires Repr == old(Repr) + {table.items} + Foot(at.1)
      ensures Layout()
      ensures forall k :: k in Contents(table.items[..]) && k != at.0 ==> Names()(k) == old(Names())(k)
      ensures at.0 in Contents(table.items[..]) ==> Names()(at.0) == Deref(Contents(table.items[..])[at.0])
    {
      hide Deref, Sound, HashTable.Valid, ChainInv, UniqueKeys, Keys;
      OthersKept(at);
      assert Layout();
    }

    /** An item none of whose objects changed is what it was. */
    twostate lemma ItemKept(v: Ref)
      requires unchanged(Root(v)) && unchanged(old(Foot(v)))
      ensures Foot(v) == old(Foot(v)) && Deref(v) == old(Deref(v)) && Sound(v) == old(Sound(v))
    {
    }

    /** A new item, made of objects the store does not have yet, is inserted under an absent key. */
    method Attach(key: string, v: Ref)
      requires Layout() && key !in Keys(table.items[..])
      requires Sound(v) && Root(v) <= Foot(v) && Foot(v) !! Repr
      modifies Repr
      ensures Layout() && fresh(Repr - old(Repr) - Foot(v))
      ensures Foot(v) == old(Foot(v)) && Deref(v) == old(Deref(v))
      ensures Abs() == Insert(old(Abs()), key, Deref(v))
    {
      hide Insert, RelabelTab, Sound, Deref;
      ghost var g, t := Names(), table.State();
      assert Abs() == RelabelTab(g, t);
      InsertProperties(t, key, v);
      table.Insert(key, v);
      Repr := Repr + {table.items} + Foot(v);
      ItemKept(v);
      LayoutKept((key, v));
      assert Abs() == RelabelTab(Names(), table.State());
      InsertRelabelled(g, Names(), t, key, v, Deref(v));
    }

    /** A live key is deleted from the table; its item is no longer part of the store. */
    method Detach(key: string) returns (deleted: bool)
      requires Layout()
      modifies Repr
      ensures Layout() && fresh(Repr - old(Repr))
      ensures (Abs(), deleted) == Delete(old(Abs()), key)
    {
      hide Delete, RelabelTab, Deref, Sound, Contents;
      ghost var g, t := Names(), table.State();
      assert Abs() == RelabelTab(g, t);
      DeleteShrinks(t, key, Str(""));
      deleted := table.Del(key);
      Repr := Repr + {table.items};
      StrIsPlain("");
      LayoutKept((key, Str("")));
      assert Abs() == RelabelTab(Names(), table.State());
      DeleteRelabelled(g, Names(), t, key);
    }

    /** The items not in slot `at.0` are what they were, if only the objects of the item `at.1` there changed. */
    twostate lemma OthersKeptInPlace(at: (nat, Ref))
      requires old(Layout()) && table == old(table) && table.items == old(table.items)
      requires at.0 < table.items.Length && old(table.items[at.0]).Live? && old(table.items[at.0]).value == at.1
      requires unchanged(old(Repr) - {this} - old(Foot(at.1))) && old(Repr) <= Repr
      ensures var m := old(Contents(table.items[..]));
              forall k :: k in m && k != old(table.items[at.0]).key ==>
                Placed(m[k]) && Foot(m[k]) == old(Foot(m[k])) && Deref(m[k]) == old(Deref(m[k]))
    {
      var m, key := old(Contents(table.items[..])), old(table.items[at.0]).key;
      assert key in m && m[key] == at.1 by { ContentsAt(old(table.items[..]), at.0); }
      hide Contents, Sound, Deref, ChainInv, UniqueKeys, HashTable.Valid;
      forall k | k in m && k != key
        ensures Placed(m[k]) && Foot(m[k]) == old(Foot(m[k])) && Deref(m[k]) == old(Deref(m[k]))
      {
        assert old(Placed(m[k]));
        assert old(Foot(m[k])) !! old(Foot(at.1));
        ItemKept(m[k]);
      }
    }

    twostate lemma LayoutInPlace(at: (nat, Ref))
      requires old(Layout()) && table == old(table) && table.items == old(table.items)
      requires at.0 < table.items.Length && old(table.items[at.0]).Live? && old(table.items[at.0]).value == at.1
      requires unchanged(old(Repr) - {this} - old(Foot(at.1)))
      requires Sound(at.1) && Root(at.1) <= Foot(at.1)
      requires forall o :: o in Foot(at.1) ==> o in old(Foot(at.1)) || fresh(o)
      requires Repr == old(Repr) + Foot(at.1)
      ensures Layout() && table.State() == old(table.State())
      ensures forall k :: k in Contents(table.items[..]) ==>
                Names()(k) == if k == table.items[at.0].key then Deref(at.1) else old(Names())(k)
    {
      var m, key := old(Contents(table.items[..])), old(table.items[at.0]).key;
      assert key in m && m[key] == at.1 by { ContentsAt(old(table.items[..]), at.0); }
      hide Contents, Sound, Deref, ChainInv, UniqueKeys, HashTable.Valid;
      assert old(Placed(at.1));
      OthersKeptInPlace(at);
      assert table.items[..] == old(table.items[..]);
      assert Layout();
    }

    /** A container changed in place: the store is the old one with that item replaced in its slot. */
    twostate lemma ChangedInPlace(at: (nat, Ref))
      requires old(Layout()) && table == old(table) && table.items == old(table.items)
      requires at.0 < table.items.Length && old(table.items[at.0]).Live? && old(table.items[at.0]).value == at.1
      requires unchanged(old(Repr) - {this} - old(Foot(at.1)))
      requires Sound(at.1) && Root(at.1) <= Foot(at.1)
      requires forall o :: o in Foot(at.1) ==> o in old(Foot(at.1)) || fresh(o)
      requires Repr == old(Repr) + Foot(at.1)
      ensures Layout()
      ensures Abs() == Replace(old(Abs()), at.0, Deref(at.1))
    {
      LayoutInPlace(at);
      RelabelReplace(old(Names()), Names(), table.State(), at.0);
      var key := table.items[at.0].key;
      assert key in Contents(table.items[..]) by { ContentsAt(table.items[..], at.0); }
    }

    // ----- the operations

    /** The string under a live key is replaced in its slot. */
    method Overwrite(key: string, value: string, ghost p: nat)
      requires Layout() && Find(table.items[..], key, 0) == Some(p)
      modifies Repr
      ensures Layout() && Repr == old(Repr)
      ensures Abs() == Replace(old(Abs()), p, StrVal(value))
    {
      hide Layout, Abs, Names, Deref, Sound, Replace, RelabelTab, Contents, Keys, Find, Tables.Valid, UniqueKeys;
      AbsIsRelabelled();
      ghost var g, t := Names(), table.State();
      OverwriteFacts(t, key, p, Str(value));
      table.UpdateStr(key, Str(value));
      StrIsPlain(value);
      assert Repr == Repr + {table.items} + Foot(Str(value));
      LayoutKept((key, Str(value)));
      AbsIsRelabelled();
      OverwriteRelabelled(g, Names(), t, p, Str(value));
    }

    /** Insert or overwrite a string; an item of another kind is refused. */
    method SetStr(key: string, value: string) returns (ok: bool)
      requires Valid()
      modifies Repr
      ensures Valid() && fresh(Repr - old(Repr))
      ensures Does(old(Abs()), key, StoreSpec.SetStr(value), Abs(), Flag(ok))
    {
      hide Layout, Abs, StoreInv, Do, Insert, Replace, Find, Placed, HashTable.Valid, HashTable.State;
      Lookup(key);
      DoSetStr(Abs(), key, value);
      StrIsPlain(value);
      var item := table.Search(key);
      if item.None? {
        Attach(key, Str(value));
        return true;
      }
      if !table.items[item.value].value.Str? {
        return false;
      }
      Overwrite(key, value, item.value);
      return true;
    }

    method Del(key: string) returns (deleted: bool)
      requires Valid()
      modifies Repr
      ensures Valid() && fresh(Repr - old(Repr))
      ensures Does(old(Abs()), key, StoreSpec.Del, Abs(), Flag(deleted))
    {
      hide Layout, Abs, StoreInv, Do, Delete;
      DoDel(Abs(), key);
      deleted := Detach(key);
    }

    /** Sets a field of the hash a live key names, in place; false for an absent key. */
    method UpdateHash(key: string, field: string, value: string) returns (ok: bool)
      requires Layout() && (Find(table.items[..], key, 0).Some? ==> ItemAt(key).HashRef?)
      modifies Repr
      ensures Layout() && fresh(Repr - old(Repr))
      ensures match Find(old(table.items[..]), key, 0)
              case None => !ok && Abs() == old(Abs())
              case Some(p) =>
                var t := Put(old(ItemAt(key).h.State()), field, value);
                ok && Abs() == Replace(old(Abs()), p, HashVal(t))
    {
      hide Layout, Abs, Insert, Delete, Replace, Find, HashTable.Valid, SetAdd, SetRem, Put, Init, Contents, Keys,
           List.Linked, ValuesOf;
      Lookup(key);
      var item := table.Search(key);
      if item.None? {
        return false;
      }
      var v := table.items[item.value].value;
      ok := v.h.Set(field, value);
      Repr := Repr + Foot(v);
      ChangedInPlace((item.value, v));
    }

    /** Pushes a value to the list a live key names, in place, and returns its length; 0 for an absent key. */
    method UpdateList(key: string, value: string, left: bool) returns (len: int)
      requires Layout() && (Find(table.items[..], key, 0).Some? ==> ItemAt(key).ListRef?)
      modifies Repr
      ensures Layout() && fresh(Repr - old(Repr))
      ensures match Find(old(table.items[..]), key, 0)
              case None => len == 0 && Abs() == old(Abs())
              case Some(p) =>
                var items := Pushed(old(ItemAt(key).l.Values()), value, left);
                len == |items| && Abs() == Replace(old(Abs()), p, ListVal(items))
    {
      hide Layout, Abs, Insert, Delete, Replace, Find, HashTable.Valid, SetAdd, SetRem, Put, Init, Contents, Keys,
           List.Linked, ValuesOf;
      Lookup(key);
      var item := table.Search(key);
      if item.None? {
        return 0;
      }
      var v := table.items[item.value].value;
      PushTo(v.l, value, left);
      Repr := Repr + Foot(v);
      ChangedInPlace((item.value, v));
      return v.l.len;
    }

    /** Adds a member to the set a live key names, in place; false for an absent key. */
    method UpdateSet(key: string, member: string) returns (ok: bool)
      requires Layout() && (Find(table.items[..], key, 0).Some? ==> ItemAt(key).SetRef?)
      modifies Repr
      ensures Layout() && fresh(Repr - old(Repr))
      ensures match Find(old(table.items[..]), key, 0)
              case None => !ok && Abs() == old(Abs())
              case Some(p) =>
                var (t, added) := SetAdd(old(ItemAt(key).m.State()), member);
                ok == added && Abs() == Replace(old(Abs()), p, SetVal(t))
    {
      hide Layout, Abs, Insert, Delete, Replace, Find, HashTable.Valid, SetAdd, SetRem, Put, Init, Contents, Keys,
           List.Linked, ValuesOf;
      Lookup(key);
      var item := table.Search(key);
      if item.None? {
        return false;
      }
      var v := table.items[item.value].value;
      ok := v.m.Add(member);
      Repr := Repr + Foot(v);
      ChangedInPlace((item.value, v));
    }

    /** Sets a field of the hash under `key`; a missing hash starts with that field. */
    method HSet(key: string, field: string, value: string) returns (ok: bool)
      requires Valid() && Defined(Get(Abs(), key), StoreSpec.HSet(field, value))
      modifies Repr
      ensures Valid() && fresh(Repr - old(Repr))
      ensures Does(old(Abs()), key, StoreSpec.HSet(field, value), Abs(), Flag(ok))
    {
      hide Layout, Abs, StoreInv, Do, Insert, Delete, Replace, Find, HashTable.Valid, SetAdd, SetRem, Put, Init,
           Contents, Keys, List.Linked, ValuesOf;
      Lookup(key);
      DoHSet(Abs(), key, field, value);
      var item := table.Search(key);
      if item.None? {
        var h := new HashTable<string>(BASE_SIZE);
        var stored := h.Set(field, value);
        Attach(key, HashRef(h));
        return true;
      }
      ok := UpdateHash(key, field, value);
    }

    /** Deletes a field; a hash whose count reaches 0 goes with its key. */
    method HDel(key: string, field: string) returns (ok: bool)
      requires Valid() && Defined(Get(Abs(), key), StoreSpec.HDel(field))
      modifies Repr
      ensures Valid() && fresh(Repr - old(Repr))
      ensures Does(old(Abs()), key, StoreSpec.HDel(field), Abs(), Flag(ok))
    {
      hide Layout, Abs, StoreInv, Do, Insert, Delete, Replace, Find, HashTable.Valid, SetAdd, SetRem, Put, Init,
           Contents, Keys, List.Linked, ValuesOf;
      Lookup(key);
      DoHDel(Abs(), key, field);
      var item := table.Search(key);
      if item.None? {
        return false;
      }
      var v := table.items[item.value].value;
      ok := v.h.Del(field);
      Repr := Repr + Foot(v);
      ChangedInPlace((item.value, v));
      if v.h.used == 0 {
        var gone := Detach(key);
      }
    }

    /** Adds a value at one end of the list under `key`; a missing list starts with it. */
    method Push(key: string, value: string, left: bool) returns (len: int)
      requires Valid() && Defined(Get(Abs(), key), StoreSpec.Push(value, left))
      modifies Repr
      ensures Valid() && fresh(Repr - old(Repr))
      ensures Does(old(Abs()), key, StoreSpec.Push(value, left), Abs(), Number(len))
    {
      hide Layout, Abs, StoreInv, Do, Insert, Delete, Replace, Find, HashTable.Valid, SetAdd, SetRem, Put, Init,
           Contents, Keys, List.Linked, ValuesOf;
      Lookup(key);
      DoPush(Abs(), key, value, left);
      var item := table.Search(key);
      if item.None? {
        var l := ListOfOne(value, left);
        Attach(key, ListRef(l));
        return 1;
      }
      len := UpdateList(key, value, left);
    }

    /** Takes the value at one end; the node read is there because no stored list is empty. */
    method Pop(key: string, left: bool) returns (res: Option<string>)
      requires Valid() && Defined(Get(Abs(), key), StoreSpec.Pop(left))
      modifies Repr
      ensures Valid() && fresh(Repr - old(Repr))
      ensures Does(old(Abs()), key, StoreSpec.Pop(left), Abs(), Text(res))
    {
      hide Layout, Abs, StoreInv, Do, Insert, Delete, Replace, Find, HashTable.Valid, SetAdd, SetRem, Put, Init,
           Contents, Keys, List.Linked, ValuesOf;
      Lookup(key);
      DoPop(Abs(), key, left);
      var item := table.Search(key);
      if item.None? {
        return None;
      }
      var v := table.items[item.value].value;
      var node: ListNode?;
      if left {
        node := v.l.LPop();
      } else {
        node := v.l.RPop();
      }
      res := Some(node.value);
      ChangedInPlace((item.value, v));
      if v.l.len == 0 {
        var gone := Detach(key);
      }
    }

    /** Overwrites the value at an index. */
    method LSet(key: string, id: int, value: string) returns (ok: bool)
      requires Valid() && Defined(Get(Abs(), key), StoreSpec.LSet(id, value))
      modifies Repr
      ensures Valid() && fresh(Repr - old(Repr))
      ensures Does(old(Abs()), key, StoreSpec.LSet(id, value), Abs(), Flag(ok))
    {
      hide Layout, Abs, StoreInv, Do, Insert, Delete, Replace, Find, HashTable.Valid, SetAdd, SetRem, Put, Init,
           Contents, Keys, List.Linked, ValuesOf;
      Lookup(key);
      DoLSet(Abs(), key, id, value);
      var item := table.Search(key);
      if item.None? {
        return false;
      }
      var v := table.items[item.value].value;
      ok := v.l.Set(id, value);
      ChangedInPlace((item.value, v));
    }

    /** Removes matching values; a list left empty goes with its key. */
    method LRem(key: string, count: int, value: string) returns (removed: int)
      requires Valid() && Defined(Get(Abs(), key), StoreSpec.LRem(count, value))
      modifies Repr
      ensures Valid() && fresh(Repr - old(Repr))
      ensures Does(old(Abs()), key, StoreSpec.LRem(count, value), Abs(), Number(removed))
    {
      hide Layout, Abs, StoreInv, Do, Insert, Delete, Replace, Find, HashTable.Valid, SetAdd, SetRem, Put, Init,
           Contents, Keys, List.Linked, ValuesOf;
      Lookup(key);
      DoLRem(Abs(), key, count, value);
      var item := table.Search(key);
      if item.None? {
        return 0;
      }
      var v := table.items[item.value].value;
      removed := RemFrom(v.l, count, value);
      ChangedInPlace((item.value, v));
      if v.l.len == 0 {
        var gone := Detach(key);
      }
    }

    /** Adds a member to the set under `key`; a missing set starts with it. */
    method SAdd(key: string, member: string) returns (ok: bool)
      requires Valid() && Defined(Get(Abs(), key), StoreSpec.SAdd(member))
      modifies Repr
      ensures Valid() && fresh(Repr - old(Repr))
      ensures Does(old(Abs()), key, StoreSpec.SAdd(member), Abs(), Flag(ok))
    {
      hide Layout, Abs, StoreInv, Do, Insert, Delete, Replace, Find, HashTable.Valid, SetAdd, SetRem, Put, Init,
           Contents, Keys, List.Linked, ValuesOf;
      Lookup(key);
      DoSAdd(Abs(), key, member);
      var item := table.Search(key);
      if item.None? {
        var m := new StringSet(BASE_SIZE);
        var added := m.Add(member);
        Attach(key, SetRef(m));
        return true;
      }
      ok := UpdateSet(key, member);
    }

    /** Removes a member; a set whose count reaches 0 goes with its key. */
    method SRem(key: string, member: string) returns (ok: bool)
      requires Valid() && Defined(Get(Abs(), key), StoreSpec.SRem(member))
      modifies Repr
      ensures Valid() && fresh(Repr - old(Repr))
      ensures Does(old(Abs()), key, StoreSpec.SRem(member), Abs(), Flag(ok))
    {
      hide Layout, Abs, StoreInv, Do, Insert, Delete, Replace, Find, HashTable.Valid, SetAdd, SetRem, Put, Init,
           Contents, Keys, List.Linked, ValuesOf;
      Lookup(key);
      DoSRem(Abs(), key, member);
      var item := table.Search(key);
      if item.None? {
        return false;
      }
      var v := table.items[item.value].value;
      ok := v.m.Rem(member);
      Repr := Repr + Foot(v);
      ChangedInPlace((item.value, v));
      if v.m.used == 0 {
        var gone := Detach(key);
      }
    }

    /** One operation, whichever it is. */
    method Perform(key: string, prim: Prim) returns (answer: Answer)
      requires Valid() && Defined(Get(Abs(), key), prim)
      modifies Repr
      ensures Valid() && fresh(Repr - old(Repr))
      ensures Does(old(Abs()), key, prim, Abs(), answer)
    {
      hide *;
      match prim
      case SetStr(value) => var ok := this.SetStr(key, value); answer := Flag(ok);
      case Del => var ok := this.Del(key); answer := Flag(ok);
      case HSet(field, value) => var ok := this.HSet(key, field, value); answer := Flag(ok);
      case HDel(field) => var ok := this.HDel(key, field); answer := Flag(ok);
      case Push(value, left) => var n := this.Push(key, value, left); answer := Number(n);
      case Pop(left) => var text := this.Pop(key, left); answer := Text(text);
      case LSet(id, value) => var ok := this.LSet(key, id, value); answer := Flag(ok);
      case LRem(count, value) => var n := this.LRem(key, count, value); answer := Number(n);
      case SAdd(member) => var ok := this.SAdd(key, member); answer := Flag(ok);
      case SRem(member) => var ok := this.SRem(key, member); answer := Flag(ok);
    }

    // ----- reading

    /** The kind of item under a key, if any. */
    method TypeOf(key: string) returns (kind: Option<Kind>)
      requires Valid()
      ensures kind == match Get<Val>(Abs(), key) case None => None case Some(v) => Some(KindOf(v))
    {
      hide Layout, Abs, StoreInv, HashTable.Valid;
      Lookup(key);
      var item := table.Search(key);
      if item.None? {
        return None;
      }
      match table.items[item.value].value
      case Str(_) => return Some(StrKind);
      case HashRef(_) => return Some(HashKind);
      case ListRef(_) => return Some(ListKind);
      case SetRef(_) => return Some(SetKind);
    }

    method GetStr(key: string) returns (r: Option<string>)
      requires Valid() && Allows(Abs(), key, StrKind)
      ensures match Get<Val>(Abs(), key)
              case Some(StrVal(value)) => r == Some(value)
              case _ => r == None
    {
      hide Layout, Abs, StoreInv, HashTable.Valid, Contents;
      Lookup(key);
      var item := table.Search(key);
      if item.None? {
        return None;
      }
      return Some(table.items[item.value].value.s);
    }

    /** A field of the hash under a key. */
    method HGet(key: string, field: string) returns (r: Option<string>)
      requires Valid() && Allows(Abs(), key, HashKind)
      ensures match Get<Val>(Abs(), key)
              case Some(HashVal(t)) => r == if field in Contents(t.slots) then Some(Contents(t.slots)[field]) else None
              case _ => r == None
    {
      hide Layout, Abs, StoreInv, HashTable.Valid, Contents;
      Lookup(key);
      var item := table.Search(key);
      if item.None? {
        return None;
      }
      r := table.items[item.value].value.h.Get(field);
    }

    /** All fields and values in turn; nothing when the count of the hash is not the number of its live slots. */
    method HGetAll(key: string) returns (r: Option<seq<string>>)
      requires Valid() && Allows(Abs(), key, HashKind)
      ensures match Get<Val>(Abs(), key)
              case Some(HashVal(t)) => r == if Counted(t) then Some(Flat(Listed(t.slots))) else None
              case _ => r == None
    {
      hide Layout, Abs, StoreInv, HashTable.Valid, Contents;
      Lookup(key);
      var item := table.Search(key);
      if item.None? {
        return None;
      }
      r := Pairs(table.items[item.value].value.h);
    }

    /** All fields, or all values, under the same condition. */
    method HKeyVals(key: string, ky: bool) returns (r: Option<seq<string>>)
      requires Valid() && Allows(Abs(), key, HashKind)
      ensures match Get<Val>(Abs(), key)
              case Some(HashVal(t)) => r == if Counted(t) then Some(Column(Listed(t.slots), ky)) else None
              case _ => r == None
    {
      hide Layout, Abs, StoreInv, HashTable.Valid, Contents;
      Lookup(key);
      var item := table.Search(key);
      if item.None? {
        return None;
      }
      r := KeysOrValues(table.items[item.value].value.h, ky);
    }

    method SMembers(key: string) returns (r: Option<seq<string>>)
      requires Valid() && Allows(Abs(), key, SetKind)
      ensures match Get<Val>(Abs(), key)
              case Some(SetVal(t)) => r == Some(Firsts(Listed(t.slots)))
              case _ => r == None
    {
      hide Layout, Abs, StoreInv, HashTable.Valid, Contents;
      Lookup(key);
      var item := table.Search(key);
      if item.None? {
        return None;
      }
      var members := table.items[item.value].value.m.Members();
      return Some(members);
    }

    method SIsMember(key: string, member: string) returns (r: bool)
      requires Valid() && Allows(Abs(), key, SetKind)
      ensures match Get<Val>(Abs(), key)
              case Some(SetVal(t)) => r <==> member in Keys(t.slots)
              case _ => !r
    {
      hide Layout, Abs, StoreInv, HashTable.Valid, Contents;
      Lookup(key);
      var item := table.Search(key);
      if item.None? {
        return false;
      }
      r := table.items[item.value].value.m.IsMember(member);
    }

    /** -1 for a missing key, otherwise whether the index, counted from the end if negative, is in the list. */
    method CheckId(key: string, id: int) returns (code: int, at: int)
      requires Valid() && Allows(Abs(), key, ListKind)
      ensures match Get<Val>(Abs(), key)
              case Some(ListVal(items)) =>
                && at == (if id >= 0 then id else |items| + id)
                && code == (if 0 <= at < |items| then 1 else 0)
              case _ => code == -1 && at == id
    {
      hide Layout, Abs, StoreInv, HashTable.Valid, Contents;
      Lookup(key);
      var item := table.Search(key);
      if item.None? {
        return -1, id;
      }
      var l := table.items[item.value].value.l;
      at := if id < 0 then l.len + id else id;
      code := if at >= 0 && at < l.len then 1 else 0;
    }

    method CheckIds(key: string, begin: int, end: int) returns (code: int, from: int, to: int)
      requires Valid() && Allows(Abs(), key, ListKind)
      ensures match Get<Val>(Abs(), key)
              case Some(ListVal(items)) =>
                && from == (if begin >= 0 then begin else |items| + begin)
                && to == (if end >= 0 then end else |items| + end)
                && code == (if 0 <= from <= to < |items| then 1 else 0)
              case _ => code == -1
    {
      hide Layout, Abs, StoreInv, HashTable.Valid, Contents;
      Lookup(key);
      var item := table.Search(key);
      if item.None? {
        return -1, begin, end;
      }
      var l := table.items[item.value].value.l;
      from := if begin < 0 then l.len + begin else begin;
      to := if end < 0 then l.len + end else end;
      code := if from <= to && from >= 0 && from < l.len && to >= 0 && to < l.len then 1 else 0;
    }

    /** The value at an index, the first for a negative one, null beyond the end. */
    method LIndex(key: string, id: int) returns (r: Option<string>)
      requires Valid() && Allows(Abs(), key, ListKind)
      ensures match Get<Val>(Abs(), key)
              case Some(ListVal(items)) =>
                var at := if id < 0 then 0 else id;
                r == if at < |items| then Some(items[at]) else None
              case _ => r == None
    {
      hide Layout, Abs, StoreInv, HashTable.Valid, Contents;
      Lookup(key);
      var item := table.Search(key);
      if item.None? {
        return None;
      }
      var node := table.items[item.value].value.l.Index(id);
      return if node == null then None else Some(node.value);
    }

    method LRange(key: string, begin: int, end: int) returns (r: seq<string>)
      requires Valid() && Get(Abs(), key).Some? && Get(Abs(), key).value.ListVal?
      requires 0 <= begin <= end < |Get(Abs(), key).value.items|
      ensures r == Get(Abs(), key).value.items[begin..end + 1]
    {
      hide Layout, Abs, StoreInv, HashTable.Valid, Contents;
      Lookup(key);
      var item := table.Search(key);
      r := table.items[item.value].value.l.Range(begin, end);
    }

    /** The index of the first occurrence, or -1. */
    method LPos(key: string, value: string) returns (r: int)
      requires Valid() && Allows(Abs(), key, ListKind)
      ensures match Get<Val>(Abs(), key)
              case Some(ListVal(items)) =>
                && (r == -1 <==> value !in items)
                && (r != -1 ==> 0 <= r < |items| && items[r] == value && value !in items[..r])
              case _ => r == -1
    {
      hide Layout, Abs, StoreInv, HashTable.Valid, Contents;
      Lookup(key);
      var item := table.Search(key);
      if item.None? {
        return -1;
      }
      r := table.items[item.value].value.l.Pos(value);
    }
  }

  lemma HashFacts(h: HashTable<string>)
    requires h.Valid()
    ensures 0 < h.size == h.items.Length
    ensures |LivePositions(h.items[..])| <= h.used
    ensures |Listed(h.items[..])| == |LivePositions(h.items[..])|
    ensures Counted(h.State()) <==> |LivePositions(h.items[..])| == h.used
    ensures Listing(h.items[..], 0) == []
    ensures Listed(h.items[..]) == Listing(h.items[..], h.items.Length)
  {
    AllListed(h.items[..]);
  }

  /** The array has room for `used` pairs; the loop stops as soon as that many were copied. */
  method Pairs(h: HashTable<string>) returns (r: Option<seq<string>>)
    requires h.Valid()
    ensures r == if Counted(h.State()) then Some(Flat(Listed(h.items[..]))) else None
  {
    hide HashTable.Valid, Listing, LivePositions, Counted, Flat;
    HashFacts(h);
    ghost var slots, t := h.items[..], h.State();
    EmptyFlat();
    var res := new string[h.used * 2 + 1](_ => "");
    var id := 0;
    var i := 0;
    while i < h.size
      invariant 0 <= i <= h.size && h.items[..] == slots && h.State() == t
      invariant id == 2 * |Listing(slots, i)| <= h.used * 2
      invariant res[..id] == Flat(Listing(slots, i))
      invariant i > 0 ==> id < h.used * 2
    {
      ListingBound(slots, i + 1);
      ListingStep(slots, i);
      if h.items[i].Live? {
        FlatGrows(Listing(slots, i), (h.items[i].key, h.items[i].value));
        res[id] := h.items[i].key;
        id := id + 1;
        res[id] := h.items[i].value;
        id := id + 1;
      }
      assert res[..id] == Flat(Listing(slots, i + 1));
      if id == h.used * 2 {
        assert |slots| == h.items.Length;
        FullListing(slots, i + 1, h.used);
        return Some(res[..id]);
      }
      i := i + 1;
    }
    return None;
  }

  method KeysOrValues(h: HashTable<string>, ky: bool) returns (r: Option<seq<string>>)
    requires h.Valid()
    ensures r == if Counted(h.State()) then Some(Column(Listed(h.items[..]), ky)) else None
  {
    hide HashTable.Valid, Listing, LivePositions, Counted, Column;
    HashFacts(h);
    ghost var slots, t := h.items[..], h.State();
    EmptyColumn(ky);
    var res := new string[h.used + 1](_ => "");
    var id := 0;
    var i := 0;
    while i < h.size
      invariant 0 <= i <= h.size && h.items[..] == slots && h.State() == t
      invariant id == |Listing(slots, i)| <= h.used
      invariant res[..id] == Column(Listing(slots, i), ky)
      invariant i > 0 ==> id < h.used
    {
      ListingBound(slots, i + 1);
      ListingStep(slots, i);
      if h.items[i].Live? {
        ColumnGrows(Listing(slots, i), (h.items[i].key, h.items[i].value), ky);
        res[id] := if ky then h.items[i].key else h.items[i].value;
        id := id + 1;
      }
      assert res[..id] == Column(Listing(slots, i + 1), ky);
      if id == h.used {
        assert |slots| == h.items.Length;
        FullListing(slots, i + 1, h.used);
        return Some(res[..id]);
      }
      i := i + 1;
    }
    return None;
  }

  method PushTo(l: List, value: string, left: bool)
    requires l.Valid()
    modifies l, l.nodes
    ensures l.Valid() && l.Values() == Pushed(old(l.Values()), value, left)
    ensures forall o :: o in Foot(ListRef(l)) ==> o in old(Foot(ListRef(l))) || fresh(o)
  {
    hide ValuesOf, List.Linked;
    ListFoot(l);
    if left {
      l.LPush(value);
    } else {
      l.RPush(value);
    }
  }

  method RemFrom(l: List, count: int, value: string) returns (removed: int)
    requires l.Valid()
    modifies l, l.nodes
    ensures l.Valid() && l.Values() == ListSpec.Rem(old(l.Values()), count, value)
    ensures removed == ListSpec.RemCount(old(l.Values()), count, value)
    ensures forall o :: o in Foot(ListRef(l)) ==> o in old(Foot(ListRef(l)))
  {
    hide ValuesOf, List.Linked;
    ListFoot(l);
    removed := l.Rem(count, value);
  }

  method ListOfOne(value: string, left: bool) returns (l: List)
    ensures l.Valid() && Deref(ListRef(l)) == ListVal([value])
    ensures fresh(Foot(ListRef(l))) && l in Foot(ListRef(l))
  {
    l := new List();
    PushTo(l, value, left);
    PushedAlone(value, left);
  }

  lemma PushedAlone(value: string, left: bool)
    ensures Pushed([], value, left) == [value]
  {
  }

  lemma ListFoot(l: List)
    ensures forall n: ListNode :: n in l.nodes ==> n in Foot(ListRef(l))
  {
  }

  lemma StrIsPlain(value: string)
    ensures Sound(Str(value)) && Deref(Str(value)) == StrVal(value)
  {
  }
}
