/** Enumerating the live slots in slot order (src/htable.c, src/set.c). */
module Listings {
  import opened Slots
  import opened Tables

  /** The live items among the first `n` slots, in slot order. */
  function Listing<V>(slots: seq<Slot<V>>, n: nat): seq<(string, V)>
    requires n <= |slots|
  {
    if n == 0 then []
    else
      var s := slots[n - 1];
      Listing(slots, n - 1) + if s.Live? then [(s.key, s.value)] else []
  }

  /** All live items in slot order. */
  function Listed<V>(slots: seq<Slot<V>>): seq<(string, V)> {
    Listing(slots, |slots|)
  }

  lemma {:induction false} ListingLength<V>(slots: seq<Slot<V>>, n: nat)
    requires n <= |slots|
    ensures |Listing(slots, n)| == |LiveBelow(slots, n)| <= |LivePositions(slots)|
  {
    if n == 0 {
      assert LiveBelow(slots, 0) == {};
    } else {
      ListingLength(slots, n - 1);
      LiveBelowStep(slots, n);
    }
  }

  lemma {:induction false} ListingMembers<V>(slots: seq<Slot<V>>, n: nat, key: string, value: V)
    requires n <= |slots|
    ensures (key, value) in Listing(slots, n) <==> exists p: nat :: p < n && slots[p] == Live(key, value)
  {
    if n > 0 {
      ListingMembers(slots, n - 1, key, value);
    }
  }

  /** The item in slot `p` is listed after those in the slots before it and before all others. */
  lemma {:induction false} ListingInOrder<V>(slots: seq<Slot<V>>, n: nat, p: nat)
    requires p < n <= |slots| && slots[p].Live?
    ensures var i := |LiveBelow(slots, p)|;
            i < |Listing(slots, n)| && Listing(slots, n)[i] == (slots[p].key, slots[p].value)
    decreases n
  {
    ListingLength(slots, n - 1);
    if p < n - 1 {
      ListingInOrder(slots, n - 1, p);
    }
  }

  ghost predicate DistinctKeys<V>(items: seq<(string, V)>) {
    forall i, j :: 0 <= i < j < |items| ==> items[i].0 != items[j].0
  }

  lemma {:induction false} ListingDistinct<V>(slots: seq<Slot<V>>, n: nat)
    requires n <= |slots| && UniqueKeys(slots)
    ensures DistinctKeys(Listing(slots, n))
  {
    if n > 0 {
      ListingDistinct(slots, n - 1);
      var before, s := Listing(slots, n - 1), slots[n - 1];
      if s.Live? {
        assert HoldsKey(slots, n - 1, s.key);
        forall i | 0 <= i < |before|
          ensures before[i].0 != s.key
        {
          ListingMembers(slots, n - 1, before[i].0, before[i].1);
          assert before[i] in before;
          var p: nat :| p < n - 1 && slots[p] == Live(before[i].0, before[i].1);
          assert HoldsKey(slots, p, before[i].0);
        }
      }
    }
  }

  /** `items` enumerates the map: every entry once, nothing else. */
  ghost predicate Enumerates<V(!new)>(items: seq<(string, V)>, m: map<string, V>) {
    && DistinctKeys(items)
    && |items| == |m|
    && forall key, value :: (key, value) in items <==> key in m && m[key] == value
  }

  lemma ListingEnumerates<V(!new)>(slots: seq<Slot<V>>)
    requires UniqueKeys(slots)
    ensures Enumerates(Listed(slots), Contents(slots))
  {
    ListingDistinct(slots, |slots|);
    ListingLength(slots, |slots|);
    KeysCounted(slots);
    assert LiveBelow(slots, |slots|) == LivePositions(slots);
    assert |Contents(slots)| == |Contents(slots).Keys|;
    forall key, value
      ensures (key, value) in Listed(slots) <==> key in Contents(slots) && Contents(slots)[key] == value
    {
      ListingMembers(slots, |slots|, key, value);
      if key in Keys(slots) {
        var p := KeyHeld(slots, key);
        ContentsAt(slots, p);
        if Contents(slots)[key] == value {
          assert slots[p] == Live(key, value);
        }
      }
      if (key, value) in Listed(slots) {
        var p: nat :| p < |slots| && slots[p] == Live(key, value);
        ContentsAt(slots, p);
      }
    }
  }

  function Firsts<V>(items: seq<(string, V)>): (r: seq<string>)
    ensures |r| == |items| && forall i :: 0 <= i < |items| ==> r[i] == items[i].0
  {
    seq(|items|, i requires 0 <= i < |items| => items[i].0)
  }

  function Seconds(items: seq<(string, string)>): (r: seq<string>)
    ensures |r| == |items| && forall i :: 0 <= i < |items| ==> r[i] == items[i].1
  {
    seq(|items|, i requires 0 <= i < |items| => items[i].1)
  }

  function Column(items: seq<(string, string)>, ky: bool): (r: seq<string>)
    ensures |r| == |items|
  {
    if ky then Firsts(items) else Seconds(items)
  }

  lemma EmptyColumn(ky: bool)
    ensures Column([], ky) == []
  {
  }

  lemma ColumnGrows(items: seq<(string, string)>, item: (string, string), ky: bool)
    ensures Column(items + [item], ky) == Column(items, ky) + [if ky then item.0 else item.1]
  {
  }

  /** Keys and values in turn. */
  function Flat(items: seq<(string, string)>): (r: seq<string>)
    ensures |r| == 2 * |items|
  {
    if items == [] then [] else Flat(items[..|items| - 1]) + [items[|items| - 1].0, items[|items| - 1].1]
  }

  /** HKEYS zipped with HVALS gives the pairs of HGETALL. */
  lemma {:induction false} FlatIsZip(items: seq<(string, string)>, i: nat)
    requires i < |items|
    ensures Flat(items)[2 * i] == Column(items, true)[i] && Flat(items)[2 * i + 1] == Column(items, false)[i]
  {
    if i < |items| - 1 {
      FlatIsZip(items[..|items| - 1], i);
    }
  }

  /** Entry `i` of the arrays HGETALL, HKEYS and HVALS return: the same field, with its value. */
  ghost predicate SameEntry(all: seq<string>, keys: seq<string>, values: seq<string>, m: map<string, string>, i: nat) {
    && 2 * i + 1 < |all| && i < |keys| && i < |values|
    && all[2 * i] == keys[i] && all[2 * i + 1] == values[i]
    && keys[i] in m && m[keys[i]] == values[i]
  }

  /**
   HGETALL, HKEYS and HVALS of a hash: as many entries as the hash has fields, entry for entry the
   same field with the value it holds, every field once and none left out.
   */
  lemma HashListings(slots: seq<Slot<string>>)
    requires UniqueKeys(slots)
    ensures var items, m := Listed(slots), Contents(slots);
            var all, keys, values := Flat(items), Column(items, true), Column(items, false);
            && |all| == 2 * |m| && |keys| == |values| == |m|
            && (forall i :: 0 <= i < |m| ==> SameEntry(all, keys, values, m, i))
            && (forall i, j :: 0 <= i < j < |m| ==> keys[i] != keys[j])
            && (forall field :: field in m <==> field in keys)
  {
    var items, m := Listed(slots), Contents(slots);
    ListingEnumerates(slots);
    hide Listed, Contents;
    var all, keys, values := Flat(items), Column(items, true), Column(items, false);
    forall i | 0 <= i < |m|
      ensures SameEntry(all, keys, values, m, i)
    {
      FlatIsZip(items, i);
      assert (items[i].0, items[i].1) in items;
    }
    forall field
      ensures field in m <==> field in keys
    {
      if field in m {
        assert (field, m[field]) in items;
        var i :| 0 <= i < |items| && items[i] == (field, m[field]);
        assert keys[i] == field;
      }
      if field in keys {
        var i :| 0 <= i < |keys| && keys[i] == field;
        assert SameEntry(all, keys, values, m, i);
      }
    }
  }

  /** Listing the members of a set names every member once exactly when no member is stored twice. */
  lemma SetListing(slots: seq<Slot<()>>)
    ensures forall key :: key in Firsts(Listed(slots)) <==> key in Keys(slots)
    ensures |Firsts(Listed(slots))| == |LivePositions(slots)|
    ensures UniqueKeys(slots) <==> |Firsts(Listed(slots))| == |Keys(slots)|
  {
    var items := Listed(slots);
    ListingLength(slots, |slots|);
    assert LiveBelow(slots, |slots|) == LivePositions(slots);
    forall key
      ensures key in Firsts(items) <==> key in Keys(slots)
    {
      if key in Firsts(items) {
        var i :| 0 <= i < |items| && Firsts(items)[i] == key;
        ListingMembers(slots, |slots|, key, items[i].1);
        assert items[i] in items;
        var p: nat :| p < |slots| && slots[p] == Live(key, items[i].1);
        assert slots[p].key in Keys(slots);
      }
      if key in Keys(slots) {
        var p := KeyHeld(slots, key);
        ListingMembers(slots, |slots|, key, slots[p].value);
        assert slots[p] == Live(key, slots[p].value);
        var i :| 0 <= i < |items| && items[i] == (key, slots[p].value);
        assert Firsts(items)[i] == key;
      }
    }
    if UniqueKeys(slots) {
      KeysCounted(slots);
    } else {
      DuplicateCounted(slots);
    }
  }

  // ----- early ends

  lemma AllListed<V>(slots: seq<Slot<V>>)
    ensures |Listed(slots)| == |LivePositions(slots)|
  {
    ListingLength(slots, |slots|);
    assert LiveBelow(slots, |slots|) == LivePositions(slots);
  }

  lemma ListingBound<V>(slots: seq<Slot<V>>, n: nat)
    requires n <= |slots|
    ensures |Listing(slots, n)| <= |LivePositions(slots)|
  {
    ListingLength(slots, n);
  }

  lemma {:induction false} ListingGrows<V>(slots: seq<Slot<V>>, n: nat, m: nat)
    requires n <= m <= |slots|
    ensures Listing(slots, n) <= Listing(slots, m)
    decreases m
  {
    if n < m {
      ListingGrows(slots, n, m - 1);
    }
  }

  /** A listing that has reached the count of a valid table is complete, and the count is exact. */
  lemma FullListing<V>(slots: seq<Slot<V>>, n: nat, used: int)
    requires n <= |slots| && |Listing(slots, n)| == used && |LivePositions(slots)| <= used
    ensures Listing(slots, n) == Listed(slots) && |LivePositions(slots)| == used
  {
    ListingGrows(slots, n, |slots|);
    AllListed(slots);
  }

  lemma ListingStep<V>(slots: seq<Slot<V>>, n: nat)
    requires n < |slots|
    ensures Listing(slots, n + 1) ==
            if slots[n].Live? then Listing(slots, n) + [(slots[n].key, slots[n].value)] else Listing(slots, n)
  {
  }

  lemma EmptyFlat()
    ensures Flat([]) == []
  {
  }

  lemma FlatGrows(items: seq<(string, string)>, item: (string, string))
    ensures Flat(items + [item]) == Flat(items) + [item.0, item.1]
  {
    assert (items + [item])[..|items|] == items;
  }
}
