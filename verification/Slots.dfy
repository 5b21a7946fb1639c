/**
 The slot arrays of the open-addressing tables, as values: what a probe loop finds,
 where it stores, and the probe-chain invariant that both rely on (src/htable.c, src/set.c).
 */
module Slots {
  import opened Primes
  import opened Hashing
  import opened Options

  /** `Empty` is a null pointer, `Deleted` the tombstone sentinel. */
  datatype Slot<V> = Empty | Deleted | Live(key: string, value: V)

  function Fresh<V>(size: nat): (slots: seq<Slot<V>>) {
    seq(size, _ => Empty)
  }

  /** The slot a bounded probe loop starting at probe `i` finds `key` in; it stops at an empty slot. */
  function Find<V>(slots: seq<Slot<V>>, key: string, i: nat): (r: Option<nat>)
    requires i <= |slots|
    ensures r.Some? ==> r.value < |slots| && slots[r.value].Live? && slots[r.value].key == key
    decreases |slots| - i
  {
    if i == |slots| then None
    else
      var p := Probe(key, |slots|, i);
      if slots[p].Empty? then None
      else if slots[p].Live? && slots[p].key == key then Some(p)
      else Find(slots, key, i + 1)
  }

  /** The slot a bounded probe loop starting at probe `i` stores into: the first that is empty or a tombstone. */
  function FirstFree<V>(slots: seq<Slot<V>>, key: string, i: nat): (r: Option<nat>)
    requires i <= |slots|
    ensures r.Some? ==> r.value < |slots| && !slots[r.value].Live?
    decreases |slots| - i
  {
    if i == |slots| then None
    else
      var p := Probe(key, |slots|, i);
      if slots[p].Live? then FirstFree(slots, key, i + 1) else Some(p)
  }

  // ----- the invariants

  ghost predicate HoldsKey<V>(slots: seq<Slot<V>>, p: nat, key: string) {
    p < |slots| && slots[p].Live? && slots[p].key == key
  }

  /** Probe `j` of `key` is slot `p`, and no earlier probe meets an empty slot. */
  ghost predicate ReachedBy<V>(slots: seq<Slot<V>>, key: string, p: nat, j: nat) {
    j < |slots| && Probe(key, |slots|, j) == p &&
    forall i: nat :: i < j ==> !slots[Probe(key, |slots|, i)].Empty?
  }

  ghost predicate Chained<V>(slots: seq<Slot<V>>, p: nat)
    requires p < |slots|
  {
    slots[p].Live? ==> exists j :: ReachedBy(slots, slots[p].key, p, j)
  }

  /** The probe-chain invariant: a search reaches every live slot. */
  ghost predicate ChainInv<V>(slots: seq<Slot<V>>) {
    forall p: nat :: p < |slots| ==> Chained(slots, p)
  }

  ghost predicate UniqueKeys<V>(slots: seq<Slot<V>>) {
    forall p: nat, q: nat, key ::
      HoldsKey(slots, p, key) && HoldsKey(slots, q, key) ==> p == q
  }

  ghost function LivePositions<V>(slots: seq<Slot<V>>): set<nat> {
    set p: nat | p < |slots| && slots[p].Live?
  }

  ghost function Keys<V>(slots: seq<Slot<V>>): set<string> {
    set p: nat | p < |slots| && slots[p].Live? :: slots[p].key
  }

  lemma KeyHeld<V>(slots: seq<Slot<V>>, key: string) returns (p: nat)
    requires key in Keys(slots)
    ensures HoldsKey(slots, p, key)
  {
    p :| p < |slots| && slots[p].Live? && slots[p].key == key;
  }

  ghost function PositionOf<V>(slots: seq<Slot<V>>, key: string): (p: nat)
    requires key in Keys(slots)
    ensures HoldsKey(slots, p, key)
  {
    var p: nat :| p < |slots| && slots[p].Live? && slots[p].key == key;
    p
  }

  /** The finite map a slot array stands for. */
  ghost function Contents<V>(slots: seq<Slot<V>>): (m: map<string, V>)
    ensures m.Keys == Keys(slots)
  {
    map key | key in Keys(slots) :: slots[PositionOf(slots, key)].value
  }

  lemma ContentsAt<V>(slots: seq<Slot<V>>, p: nat)
    requires UniqueKeys(slots) && p < |slots| && slots[p].Live?
    ensures slots[p].key in Contents(slots) && Contents(slots)[slots[p].key] == slots[p].value
  {
    assert HoldsKey(slots, p, slots[p].key);
    assert slots[p].key in Keys(slots);
    assert HoldsKey(slots, PositionOf(slots, slots[p].key), slots[p].key);
  }

  lemma FreshProperties<V>(size: nat)
    ensures ChainInv<V>(Fresh(size)) && UniqueKeys<V>(Fresh(size))
    ensures LivePositions<V>(Fresh(size)) == {} && Keys<V>(Fresh(size)) == {} && Contents<V>(Fresh(size)) == map[]
  {
    assert Keys<V>(Fresh(size)) == {};
  }

  lemma LiveAtMostSize<V>(slots: seq<Slot<V>>)
    ensures |LivePositions(slots)| <= |slots|
    ensures |LivePositions(slots)| < |slots| ==> exists p: nat :: p < |slots| && !slots[p].Live?
  {
    assert LivePositions(slots) <= Below(|slots|);
    SubsetSize(LivePositions(slots), Below(|slots|));
    if forall p: nat :: p < |slots| ==> slots[p].Live? {
      assert LivePositions(slots) == Below(|slots|);
    }
  }

  lemma {:induction false} SubsetSize<T>(a: set<T>, b: set<T>)
    requires a <= b
    ensures |a| <= |b|
  {
    assert b == a + (b - a);
  }

  // ----- searching

  lemma {:induction false} FindFrom<V>(slots: seq<Slot<V>>, key: string, i: nat, p: nat, j: nat)
    requires HoldsKey(slots, p, key) && ReachedBy(slots, key, p, j) && i <= j
    ensures Find(slots, key, i).Some?
    decreases j - i
  {
    hide Probe;
    var q := Probe(key, |slots|, i);
    if i < j {
      assert !slots[q].Empty?;
      if !HoldsKey(slots, q, key) {
        FindFrom(slots, key, i + 1, p, j);
      }
    }
  }

  /** A search succeeds exactly on the live keys, whatever the tombstones and the steps. */
  lemma FindIffLive<V>(slots: seq<Slot<V>>, key: string)
    requires ChainInv(slots)
    ensures Find(slots, key, 0).Some? <==> key in Keys(slots)
  {
    if key in Keys(slots) {
      var p := KeyHeld(slots, key);
      assert Chained(slots, p);
      var j :| ReachedBy(slots, key, p, j);
      FindFrom(slots, key, 0, p, j);
    }
  }

  lemma FindValue<V>(slots: seq<Slot<V>>, key: string)
    requires ChainInv(slots) && UniqueKeys(slots)
    ensures match Find(slots, key, 0)
            case None => key !in Contents(slots)
            case Some(p) => HoldsKey(slots, p, key) && key in Contents(slots) && Contents(slots)[key] == slots[p].value
  {
    FindIffLive(slots, key);
    if Find(slots, key, 0).Some? {
      ContentsAt(slots, Find(slots, key, 0).value);
    }
  }

  // ----- storing

  lemma {:induction false} FirstFreeFrom<V>(slots: seq<Slot<V>>, key: string, i: nat) returns (j: nat)
    requires i <= |slots|
    ensures i <= j <= |slots|
    ensures forall k: nat :: i <= k < j ==> slots[Probe(key, |slots|, k)].Live?
    ensures match FirstFree(slots, key, i)
            case None => j == |slots|
            case Some(p) => j < |slots| && Probe(key, |slots|, j) == p
    decreases |slots| - i
  {
    if i == |slots| || !slots[Probe(key, |slots|, i)].Live? {
      j := i;
    } else {
      j := FirstFreeFrom(slots, key, i + 1);
    }
  }

  /**
   The exact outcome of a store: with a free slot left, it fails just when the step is 0 and the home slot is
   live.
   */
  lemma StoreFailsIff<V>(slots: seq<Slot<V>>, key: string)
    requires Prime(|slots|) && |LivePositions(slots)| < |slots|
    ensures FirstFree(slots, key, 0) == None
       <==> Step(key, |slots|) == 0 && slots[Home(key, |slots|)].Live?
  {
    var size := |slots|;
    var j := FirstFreeFrom(slots, key, 0);
    ProbeZero(key, size);
    if Step(key, size) == 0 {
      if j < size {
        ZeroStepStaysHome(key, size, j);
      }
    } else {
      LiveAtMostSize(slots);
      var p: nat :| p < size && !slots[p].Live?;
      var i := ProbeReaches(key, size, p);
      assert j <= i;
    }
  }

  lemma StillReached<V>(slots: seq<Slot<V>>, p: nat, s: Slot<V>, key: string, q: nat, j: nat)
    requires p < |slots| && !s.Empty? && ReachedBy(slots, key, q, j)
    ensures ReachedBy(slots[p := s], key, q, j)
  {
  }

  /** Writing a non-empty slot breaks no chain but, possibly, that of the slot written. */
  lemma WriteKeepsChains<V>(slots: seq<Slot<V>>, p: nat, s: Slot<V>)
    requires ChainInv(slots) && p < |slots| && !s.Empty?
    ensures var after := slots[p := s];
            forall q: nat :: q < |after| && q != p ==> Chained(after, q)
  {
    var after := slots[p := s];
    forall q: nat | q < |after| && q != p
      ensures Chained(after, q)
    {
      if slots[q].Live? {
        assert Chained(slots, q);
        var j :| ReachedBy(slots, slots[q].key, q, j);
        StillReached(slots, p, s, slots[q].key, q, j);
      }
    }
  }

  /** Storing at the first free slot keeps the chain invariant. */
  lemma StoreKeepsChains<V>(slots: seq<Slot<V>>, key: string, value: V)
    requires ChainInv(slots) && FirstFree(slots, key, 0).Some?
    ensures ChainInv(slots[FirstFree(slots, key, 0).value := Live(key, value)])
  {
    var p := FirstFree(slots, key, 0).value;
    var s := Live(key, value);
    WriteKeepsChains(slots, p, s);
    var j := FirstFreeFrom(slots, key, 0);
    assert ReachedBy(slots[p := s], key, p, j);
  }

  lemma OverwriteKeepsChains<V>(slots: seq<Slot<V>>, p: nat, s: Slot<V>)
    requires ChainInv(slots) && p < |slots| && slots[p].Live?
    requires s.Deleted? || (s.Live? && s.key == slots[p].key)
    ensures ChainInv(slots[p := s])
  {
    WriteKeepsChains(slots, p, s);
    assert Chained(slots, p);
    var j :| ReachedBy(slots, slots[p].key, p, j);
    StillReached(slots, p, s, slots[p].key, p, j);
  }

  /** What a store of an absent key does to the contents. */
  lemma StoreContents<V>(slots: seq<Slot<V>>, p: nat, key: string, value: V)
    requires UniqueKeys(slots) && key !in Keys(slots)
    requires p < |slots| && !slots[p].Live?
    ensures var after := slots[p := Live(key, value)];
            && UniqueKeys(after)
            && Contents(after) == Contents(slots)[key := value]
            && LivePositions(after) == LivePositions(slots) + {p}
            && |LivePositions(after)| == |LivePositions(slots)| + 1
  {
    var after := slots[p := Live(key, value)];
    assert forall q: nat, k :: HoldsKey(after, q, k) ==> if q == p then k == key else HoldsKey(slots, q, k);
    assert forall q: nat :: HoldsKey(slots, q, key) ==> key in Keys(slots);
    assert UniqueKeys(after);
    ContentsByEntries(after, Contents(slots)[key := value], slots, p);
    assert LivePositions(after) == LivePositions(slots) + {p};
  }

  lemma ContentsByEntries<V>(after: seq<Slot<V>>, m: map<string, V>, slots: seq<Slot<V>>, p: nat)
    requires UniqueKeys(slots) && UniqueKeys(after)
    requires p < |slots| == |after| && !slots[p].Live? && after == slots[p := after[p]] && after[p].Live?
    requires m == Contents(slots)[after[p].key := after[p].value]
    ensures Contents(after) == m
  {
    forall key | key in Keys(after)
      ensures key in m && Contents(after)[key] == m[key]
    {
      var q := KeyHeld(after, key);
      ContentsAt(after, q);
      if q != p {
        ContentsAt(slots, q);
        assert HoldsKey(after, p, after[p].key);
      }
    }
    forall key | key in m
      ensures key in Keys(after)
    {
      if key in Keys(slots) {
        var q := KeyHeld(slots, key);
        assert after[q].key == key;
      } else {
        assert after[p].key == key;
      }
    }
  }

  lemma RemoveContents<V>(slots: seq<Slot<V>>, p: nat)
    requires UniqueKeys(slots) && p < |slots| && slots[p].Live?
    ensures var after := slots[p := Deleted];
            && UniqueKeys(after)
            && Contents(after) == Contents(slots) - {slots[p].key}
            && LivePositions(after) == LivePositions(slots) - {p}
            && |LivePositions(after)| == |LivePositions(slots)| - 1
  {
    var after := slots[p := Deleted];
    assert forall q: nat, k :: HoldsKey(after, q, k) ==> q != p && HoldsKey(slots, q, k);
    assert HoldsKey(slots, p, slots[p].key);
    forall key
      ensures key in Keys(after) <==> key in Keys(slots) && key != slots[p].key
    {
      if key in Keys(after) {
        var q := KeyHeld(after, key);
        assert HoldsKey(slots, q, key);
      }
      if key in Keys(slots) && key != slots[p].key {
        var q := KeyHeld(slots, key);
        assert after[q].key == key;
      }
    }
    forall key | key in Keys(after)
      ensures Contents(after)[key] == Contents(slots)[key]
    {
      var q := KeyHeld(after, key);
      ContentsAt(after, q);
      ContentsAt(slots, q);
    }
    assert LivePositions(after) == LivePositions(slots) - {p};
  }

  lemma ReplaceContents<V>(slots: seq<Slot<V>>, p: nat, value: V)
    requires UniqueKeys(slots) && p < |slots| && slots[p].Live?
    ensures var after := slots[p := Live(slots[p].key, value)];
            && UniqueKeys(after)
            && Contents(after) == Contents(slots)[slots[p].key := value]
            && LivePositions(after) == LivePositions(slots)
  {
    var after := slots[p := Live(slots[p].key, value)];
    RemoveContents(slots, p);
    var gap := slots[p := Deleted];
    assert slots[p].key !in Keys(gap);
    StoreContents(gap, p, slots[p].key, value);
    assert after == gap[p := Live(slots[p].key, value)];
    assert LivePositions(after) == LivePositions(slots);
  }

  /** With unique keys there are as many live slots as keys. */
  lemma {:induction false} KeysCounted<V>(slots: seq<Slot<V>>)
    requires UniqueKeys(slots)
    ensures |Keys(slots)| == |LivePositions(slots)|
    decreases |LivePositions(slots)|
  {
    if LivePositions(slots) == {} {
      assert forall p: nat :: p < |slots| && slots[p].Live? ==> p in LivePositions(slots);
      assert Keys(slots) == {};
    } else {
      var p :| p in LivePositions(slots);
      RemoveContents(slots, p);
      KeysCounted(slots[p := Deleted]);
      assert Keys(slots[p := Deleted]) == Keys(slots) - {slots[p].key};
    }
  }

  /** A key held twice is counted once. */
  lemma DuplicateCounted<V>(slots: seq<Slot<V>>)
    requires !UniqueKeys(slots)
    ensures |Keys(slots)| < |LivePositions(slots)|
  {
    var p: nat, q: nat, key :| HoldsKey(slots, p, key) && HoldsKey(slots, q, key) && p != q;
    var gap := slots[p := Deleted];
    assert LivePositions(gap) == LivePositions(slots) - {p};
    forall k | k in Keys(slots)
      ensures k in Keys(gap)
    {
      var r := KeyHeld(slots, k);
      assert HoldsKey(gap, if k == key then q else r, k);
    }
    assert Keys(slots) == Keys(gap) by {
      forall k | k in Keys(gap)
        ensures k in Keys(slots)
      {
        var r := KeyHeld(gap, k);
        assert slots[r].key == k;
      }
    }
    KeysAtMostLive(gap);
  }

  lemma {:induction false} KeysAtMostLive<V>(slots: seq<Slot<V>>)
    ensures |Keys(slots)| <= |LivePositions(slots)|
    decreases |LivePositions(slots)|
  {
    if LivePositions(slots) == {} {
      assert forall p: nat :: p < |slots| && slots[p].Live? ==> p in LivePositions(slots);
      assert Keys(slots) == {};
    } else {
      var p :| p in LivePositions(slots);
      var gap := slots[p := Deleted];
      assert LivePositions(gap) == LivePositions(slots) - {p};
      KeysAtMostLive(gap);
      forall k | k in Keys(slots)
        ensures k in Keys(gap) + {slots[p].key}
      {
        var r := KeyHeld(slots, k);
        if r != p {
          assert gap[r].key == k;
        }
      }
      SubsetSize(Keys(slots), Keys(gap) + {slots[p].key});
    }
  }
}
