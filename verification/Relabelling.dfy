/**
 Table operations do not look at the values they move: replacing every value by another, chosen
 by key, before an operation or after it makes no difference.
 */
module Relabelling {
  import Primes
  import opened Options
  import opened Slots
  import opened Tables
  import opened TableProperties
  import opened StoreSpec

  ghost function RelabelSlot<V, W>(g: string -> W, s: Slot<V>): Slot<W> {
    match s
    case Empty => Empty
    case Deleted => Deleted
    case Live(key, _) => Live(key, g(key))
  }

  ghost function Relabel<V, W>(g: string -> W, slots: seq<Slot<V>>): (r: seq<Slot<W>>)
    ensures |r| == |slots| && forall i :: 0 <= i < |slots| ==> r[i] == RelabelSlot(g, slots[i])
  {
    seq(|slots|, i requires 0 <= i < |slots| => RelabelSlot(g, slots[i]))
  }

  ghost function RelabelTab<V, W>(g: string -> W, t: Tab<V>): Tab<W> {
    Tab(Relabel(g, t.slots), t.used)
  }

  lemma RelabelUpdate<V, W>(g: string -> W, slots: seq<Slot<V>>, p: nat, s: Slot<V>)
    requires p < |slots|
    ensures Relabel(g, slots[p := s]) == Relabel(g, slots)[p := RelabelSlot(g, s)]
  {
  }

  lemma {:induction false} RelabelFind<V, W>(g: string -> W, slots: seq<Slot<V>>, key: string, i: nat)
    requires i <= |slots|
    ensures Find(Relabel(g, slots), key, i) == Find(slots, key, i)
    decreases |slots| - i
  {
    if i < |slots| {
      RelabelFind(g, slots, key, i + 1);
    }
  }

  lemma {:induction false} RelabelFirstFree<V, W>(g: string -> W, slots: seq<Slot<V>>, key: string, i: nat)
    requires i <= |slots|
    ensures FirstFree(Relabel(g, slots), key, i) == FirstFree(slots, key, i)
    decreases |slots| - i
  {
    if i < |slots| {
      RelabelFirstFree(g, slots, key, i + 1);
    }
  }

  lemma RelabelPlace<V, W>(g: string -> W, slots: seq<Slot<V>>, key: string, value: V)
    ensures Relabel(g, Place(slots, key, value)) == Place(Relabel(g, slots), key, g(key))
  {
    RelabelFirstFree(g, slots, key, 0);
  }

  lemma {:induction false} RelabelMoved<V, W>(g: string -> W, src: seq<Slot<V>>, n: nat, size: nat)
    requires n <= |src|
    ensures Relabel(g, Moved(src, n, Fresh(size))) == Moved(Relabel(g, src), n, Fresh(size))
  {
    if n == 0 {
      assert Relabel(g, Fresh<V>(size)) == Fresh<W>(size);
    } else {
      RelabelMoved(g, src, n - 1, size);
      if src[n - 1].Live? {
        RelabelPlace(g, Moved(src, n - 1, Fresh(size)), src[n - 1].key, src[n - 1].value);
      }
    }
  }

  lemma RelabelResize<V, W>(g: string -> W, t: Tab<V>, newSize: int)
    ensures RelabelTab(g, Resize(t, newSize)) == Resize(RelabelTab(g, t), newSize)
  {
    if newSize >= BASE_SIZE {
      RelabelMoved(g, t.slots, |t.slots|, Primes.NextPrimeOf(newSize));
    }
  }

  lemma RelabelInsert<V, W>(g: string -> W, t: Tab<V>, key: string, value: V)
    ensures RelabelTab(g, Insert(t, key, value)) == Insert(RelabelTab(g, t), key, g(key))
  {
    RelabelFirstFree(g, t.slots, key, 0);
    if FirstFree(t.slots, key, 0).Some? {
      var p := FirstFree(t.slots, key, 0).value;
      var u := Tab(t.slots[p := Live(key, value)], t.used + 1);
      RelabelUpdate(g, t.slots, p, Live(key, value));
      RelabelResize(g, u, |u.slots| * 2);
    }
  }

  lemma RelabelDelete<V, W>(g: string -> W, t: Tab<V>, key: string)
    ensures Delete(RelabelTab(g, t), key) == (RelabelTab(g, Delete(t, key).0), Delete(t, key).1)
  {
    RelabelFind(g, t.slots, key, 0);
    if Find(t.slots, key, 0).Some? {
      var p := Find(t.slots, key, 0).value;
      var u := Tab(t.slots[p := Deleted], t.used - 1);
      RelabelUpdate(g, t.slots, p, Deleted);
      RelabelResize(g, u, |u.slots| / 2);
    }
  }

  /** Labels that agree on the live keys named alike. */
  lemma RelabelAgree<V, W>(g: string -> W, h: string -> W, slots: seq<Slot<V>>)
    requires forall key :: key in Keys(slots) ==> g(key) == h(key)
    ensures Relabel(g, slots) == Relabel(h, slots)
  {
    forall i | 0 <= i < |slots|
      ensures RelabelSlot(g, slots[i]) == RelabelSlot(h, slots[i])
    {
      if slots[i].Live? {
        assert slots[i].key in Keys(slots);
      }
    }
  }

  lemma InsertRelabelled<V, W>(g: string -> W, h: string -> W, t: Tab<V>, key: string, value: V, named: W)
    requires key !in Keys(t.slots)
    requires forall k :: k in Keys(Insert(t, key, value).slots) ==> h(k) == if k == key then named else g(k)
    ensures RelabelTab(h, Insert(t, key, value)) == Insert(RelabelTab(g, t), key, named)
  {
    var f := (k: string) => if k == key then named else g(k);
    RelabelAgree(g, f, t.slots);
    RelabelInsert(f, t, key, value);
    RelabelAgree(f, h, Insert(t, key, value).slots);
  }

  lemma DeleteShrinks<V>(t: Tab<V>, key: string, v: V)
    requires Valid(t)
    ensures SubMap(Contents(Delete(t, key).0.slots), Contents(t.slots)[key := v])
    ensures key !in Contents(Delete(t, key).0.slots)
  {
    DeleteProperties(t, key);
  }

  lemma DeleteRelabelled<V, W>(g: string -> W, h: string -> W, t: Tab<V>, key: string)
    requires forall k :: k in Keys(Delete(t, key).0.slots) ==> h(k) == g(k)
    ensures Delete(RelabelTab(g, t), key) == (RelabelTab(h, Delete(t, key).0), Delete(t, key).1)
  {
    RelabelDelete(g, t, key);
    RelabelAgree(g, h, Delete(t, key).0.slots);
  }

  /** Changing the label of one key changes its slot. */
  lemma RelabelReplace<V, W>(g: string -> W, h: string -> W, t: Tab<V>, p: nat)
    requires UniqueKeys(t.slots) && p < |t.slots| && t.slots[p].Live?
    requires forall key :: key in Keys(t.slots) && key != t.slots[p].key ==> g(key) == h(key)
    ensures RelabelTab(h, t) == Replace(RelabelTab(g, t), p, h(t.slots[p].key))
  {
    assert HoldsKey(t.slots, p, t.slots[p].key);
    forall i: nat | i < |t.slots|
      ensures Relabel(h, t.slots)[i] == Relabel(g, t.slots)[p := Live(t.slots[p].key, h(t.slots[p].key))][i]
    {
      if t.slots[i].Live? {
        assert t.slots[i].key in Keys(t.slots);
        assert HoldsKey(t.slots, i, t.slots[i].key);
      }
    }
  }

  /** Overwriting a slot changes its label. */
  lemma OverwriteRelabelled<V, W>(g: string -> W, h: string -> W, t: Tab<V>, p: nat, value: V)
    requires UniqueKeys(t.slots) && p < |t.slots| && t.slots[p].Live?
    requires forall key :: key in Keys(t.slots) && key != t.slots[p].key ==> g(key) == h(key)
    ensures RelabelTab(h, t.(slots := t.slots[p := Live(t.slots[p].key, value)])) ==
            Replace(RelabelTab(g, t), p, h(t.slots[p].key))
  {
    RelabelUpdate(h, t.slots, p, Live(t.slots[p].key, value));
    RelabelReplace(g, h, t, p);
    assert Relabel(h, t.slots)[p] == Live(t.slots[p].key, h(t.slots[p].key));
    assert Relabel(h, t.slots)[p := Live(t.slots[p].key, h(t.slots[p].key))] == Relabel(h, t.slots);
  }
}
