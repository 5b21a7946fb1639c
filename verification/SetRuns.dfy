/**
 Whole runs of the string set: the exact condition under which a run is the run of a
 mathematical set, and concrete runs that are not.
 */
module SetRuns {
  import opened Primes
  import opened Hashing
  import opened Options
  import opened Slots
  import opened Tables
  import opened TableProperties
  import opened Sets

  datatype SetOp = Add(key: string) | Rem(key: string) | IsMember(key: string)

  ghost function Apply(t: SetTab, op: SetOp): (SetTab, bool) {
    match op
    case Add(key) => SetAdd(t, key)
    case Rem(key) => SetRem(t, key)
    case IsMember(key) => (t, Find(t.slots, key, 0).Some?)
  }

  /**
   The same operation on a mathematical set: an add answers whether the key is new, the others whether it is
   there.
   */
  function MathApply(s: set<string>, op: SetOp): (set<string>, bool) {
    match op
    case Add(key) => (s + {key}, key !in s)
    case Rem(key) => (s - {key}, key in s)
    case IsMember(key) => (s, key in s)
  }

  ghost function Run(t: SetTab, ops: seq<SetOp>): SetTab
    decreases |ops|
  {
    if ops == [] then t else Run(Apply(t, ops[0]).0, ops[1..])
  }

  function MathRun(s: set<string>, ops: seq<SetOp>): set<string>
    decreases |ops|
  {
    if ops == [] then s else MathRun(MathApply(s, ops[0]).0, ops[1..])
  }

  /** No member is dropped and an added key is absent, or met before any free slot. */
  ghost predicate Faithful(t: SetTab, op: SetOp)
    requires |t.slots| > 0
  {
    match op
    case Add(key) => AddAnswersRight(t, key) && (key in Keys(t.slots) || !AddGrowthDrops(t, key))
    case Rem(key) => !RemDrops(t, key)
    case IsMember(_) => true
  }

  lemma FoundIffMember(t: SetTab, key: string)
    requires SetValid(t)
    ensures Find(t.slots, key, 0).Some? <==> key in Keys(t.slots)
  {
    FindIffLive(t.slots, key);
  }

  /** The operation answers, and changes the members, as on a mathematical set exactly when it is faithful. */
  ghost predicate Exact(t: SetTab, op: SetOp)
    requires |t.slots| > 0
  {
    var ((t', answer), (s', right)) := (Apply(t, op), MathApply(Keys(t.slots), op));
    && SetValid(t')
    && (Keys(t'.slots) == s' && answer == right <==> Faithful(t, op))
    && (Faithful(t, op) ==> UniqueKeys(t'.slots))
    && (Faithful(t, op) && Counted(t) ==> Counted(t'))
  }

  lemma AddExact(t: SetTab, key: string)
    requires SetValid(t) && UniqueKeys(t.slots)
    ensures Exact(t, Add(key))
  {
    assert |t.slots| > 0;
    hide FreeBeforeKey, StoreFails, SetAdd, SetValid, Counted, UniqueKeys, Keys, AddLosesSlots, AddGrowthDrops;
    SetAddProperties(t, key);
    if AddAnswersRight(t, key) {
      SetAddKeepsUnique(t, key);
    }
    if key in Keys(t.slots) {
      assert Keys(t.slots) + {key} == Keys(t.slots);
    }
  }

  lemma RemExact(t: SetTab, key: string)
    requires SetValid(t) && UniqueKeys(t.slots)
    ensures Exact(t, Rem(key))
  {
    hide SetRem, SetValid, Counted, UniqueKeys, Keys, RemLosesSlots, RemDrops, Remaining, RemDropsKey;
    SetRemProperties(t, key);
  }

  lemma MemberExact(t: SetTab, key: string)
    requires SetValid(t) && UniqueKeys(t.slots)
    ensures Exact(t, IsMember(key))
  {
    FindIffLive(t.slots, key);
  }

  /** With distinct members, one operation is the set operation, members and answer, exactly when it is faithful. */
  lemma ApplyExact(t: SetTab, op: SetOp)
    requires SetValid(t) && UniqueKeys(t.slots)
    ensures Exact(t, op)
  {
    hide Exact;
    match op
    case Add(key) => AddExact(t, key);
    case Rem(key) => RemExact(t, key);
    case IsMember(key) => MemberExact(t, key);
  }

  /** Whatever the run, the set stays valid: its load stays at most 70 and every live slot can be reached. */
  lemma {:induction false} RunValid(t: SetTab, ops: seq<SetOp>)
    requires SetValid(t)
    ensures SetValid(Run(t, ops))
    decreases |ops|
  {
    if ops != [] {
      match ops[0] {
        case Add(key) => SetAddProperties(t, key);
        case Rem(key) => SetRemProperties(t, key);
        case IsMember(key) =>
      }
      RunValid(Apply(t, ops[0]).0, ops[1..]);
    }
  }

  ghost predicate AllFaithful(t: SetTab, ops: seq<SetOp>)
    decreases |ops|
  {
    ops == [] || (|t.slots| > 0 && Faithful(t, ops[0]) && AllFaithful(Apply(t, ops[0]).0, ops[1..]))
  }

  /** At every step of the run the members are those of `s` and the answer is the right one. */
  ghost predicate Tracks(t: SetTab, s: set<string>, ops: seq<SetOp>)
    decreases |ops|
  {
    && Keys(t.slots) == s
    && (ops == [] ||
        (Apply(t, ops[0]).1 == MathApply(s, ops[0]).1 && Tracks(Apply(t, ops[0]).0, MathApply(s, ops[0]).0, ops[1..])))
  }

  /** A run is the run of a mathematical set if and only if every operation of it is faithful. */
  lemma {:induction false} RunExact(t: SetTab, ops: seq<SetOp>)
    requires SetValid(t) && UniqueKeys(t.slots)
    ensures Tracks(t, Keys(t.slots), ops) <==> AllFaithful(t, ops)
    ensures AllFaithful(t, ops) ==> Keys(Run(t, ops).slots) == MathRun(Keys(t.slots), ops)
    ensures AllFaithful(t, ops) ==> UniqueKeys(Run(t, ops).slots)
    ensures AllFaithful(t, ops) && Counted(t) ==> Run(t, ops).used == |MathRun(Keys(t.slots), ops)|
    decreases |ops|
  {
    if ops == [] {
      KeysCounted(t.slots);
    } else {
      var t', s' := Apply(t, ops[0]).0, MathApply(Keys(t.slots), ops[0]).0;
      ApplyExact(t, ops[0]);
      if Faithful(t, ops[0]) {
        RunExact(t', ops[1..]);
      } else {
        assert Keys(t'.slots) != s' ==> !Tracks(t', s', ops[1..]);
      }
    }
  }

  // ----- sizes

  /** The size after one operation, as in the hash table. */
  lemma SizeAfter(t: SetTab, key: string)
    requires SetValid(t)
    ensures |SetAdd(t, key).0.slots| ==
            if SetAdd(t, key).1 && (t.used + 1) * 100 / |t.slots| > 70 then NextPrimeOf(2 * |t.slots|) else |t.slots|
    ensures |SetRem(t, key).0.slots| ==
            if SetRem(t, key).1 && (t.used - 1) * 100 / |t.slots| < 10 && |t.slots| >= 4
            then NextPrimeOf(|t.slots| / 2) else |t.slots|
  {
  }

  // ----- the counter

  /** The rehash that the operation starts drops a member or merges two copies of one. */
  ghost predicate LosesSlots(t: SetTab, op: SetOp)
    requires |t.slots| > 0
  {
    match op
    case Add(key) => AddLosesSlots(t, key)
    case Rem(key) => RemLosesSlots(t, key)
    case IsMember(_) => false
  }

  ghost predicate NoSlotsLost(t: SetTab, ops: seq<SetOp>)
    decreases |ops|
  {
    ops == [] || (|t.slots| > 0 && !LosesSlots(t, ops[0]) && NoSlotsLost(Apply(t, ops[0]).0, ops[1..]))
  }

  /**
   After any run `used` counts the live slots if and only if it did before and no rehash of the run
   dropped a member or merged two copies of one.
   */
  lemma {:induction false} CounterExact(t: SetTab, ops: seq<SetOp>)
    requires SetValid(t)
    ensures Counted(Run(t, ops)) <==> Counted(t) && NoSlotsLost(t, ops)
    decreases |ops|
  {
    if ops != [] {
      match ops[0] {
        case Add(key) => SetAddProperties(t, key);
        case Rem(key) => SetRemProperties(t, key);
        case IsMember(_) =>
      }
      CounterExact(Apply(t, ops[0]).0, ops[1..]);
    }
  }

  /** A counter that is too high stays above 0: the last member removed leaves it behind. */
  lemma RemLeavesCount(t: SetTab, key: string)
    requires SetValid(t) && !Counted(t)
    ensures t.used > 0 && SetRem(t, key).0.used > 0 && !Counted(SetRem(t, key).0)
  {
    SetRemProperties(t, key);
    if Find(t.slots, key, 0).Some? {
      assert Find(t.slots, key, 0).value in LivePositions(t.slots);
    }
  }

  lemma SetInitValid(size: int)
    ensures var t: SetTab := Init(size);
            SetValid(t) && UniqueKeys(t.slots) && NoTombstones(t.slots) && Counted(t) && Keys(t.slots) == {}
  {
    InitValid<()>(size);
    FreshProperties<()>(NextPrimeOf(size));
  }

  // ----- runs without zero steps

  /** No key of `keys` has step 0 at any size the set has during the run. */
  ghost predicate NoZeroStep(t: SetTab, ops: seq<SetOp>, keys: set<string>)
    decreases |ops|
  {
    && |t.slots| > 0
    && StepsNonZero(keys, |t.slots|)
    && (ops == [] || NoZeroStep(Apply(t, ops[0]).0, ops[1..], keys))
  }

  /** Every added key is absent, or met before any free slot. */
  ghost predicate NoFreeFirst(t: SetTab, ops: seq<SetOp>)
    decreases |ops|
  {
    ops == [] ||
    ((ops[0].Add? && ops[0].key in Keys(t.slots) ==> !FreeBeforeKey(t.slots, ops[0].key)) &&
     NoFreeFirst(Apply(t, ops[0]).0, ops[1..]))
  }

  lemma NoZeroStepNoDrop(slots: SetSlots, size: nat, keys: set<string>)
    requires size > 0 && Keys(slots) <= keys && StepsNonZero(keys, size)
    ensures !SetRehashDrops(slots, size)
  {
    forall i: nat
      ensures !SetDropped(slots, size, i)
    {
      if i < |slots| && slots[i].Live? {
        assert slots[i].key in Keys(slots);
      }
    }
  }

  lemma AddWithNonZeroStep(t: SetTab, key: string, keys: set<string>)
    requires SetValid(t) && Keys(t.slots) + {key} <= keys && StepsNonZero(keys, |t.slots|)
    requires |SetAdd(t, key).0.slots| > 0 && StepsNonZero(keys, |SetAdd(t, key).0.slots|)
    ensures Faithful(t, Add(key)) <==> (key in Keys(t.slots) ==> !FreeBeforeKey(t.slots, key))
    ensures Keys(SetAdd(t, key).0.slots) <= keys
  {
    SetAddProperties(t, key);
    RoomLeft(t.used, |t.slots|);
    ScanOutcome(t.slots, key);
    if key !in Keys(t.slots) && Grows(t.used + 1, |t.slots|) {
      AddKeys(t.slots, AddScan(t.slots, key, 0).p, key);
      NoZeroStepNoDrop(AddPlace(t.slots, key), NextPrimeOf(|t.slots| * 2), keys);
    }
  }

  lemma RemWithNonZeroStep(t: SetTab, key: string, keys: set<string>)
    requires SetValid(t) && Keys(t.slots) <= keys
    requires |SetRem(t, key).0.slots| > 0 && StepsNonZero(keys, |SetRem(t, key).0.slots|)
    ensures !RemDrops(t, key) && Keys(SetRem(t, key).0.slots) <= keys
  {
    SetRemProperties(t, key);
    if Find(t.slots, key, 0).Some? && Shrinks(t.used - 1, |t.slots|) {
      var p := Find(t.slots, key, 0).value;
      RemKeys(t.slots, p, key);
      NoZeroStepNoDrop(t.slots[p := Deleted], NextPrimeOf(|t.slots| / 2), keys);
    }
  }

  /** Without zero steps a run is faithful if and only if no add meets a free slot before the key it adds again. */
  lemma {:induction false} NoZeroStepFaithful(t: SetTab, ops: seq<SetOp>, keys: set<string>)
    requires SetValid(t) && Keys(t.slots) <= keys && forall op :: op in ops ==> op.key in keys
    requires NoZeroStep(t, ops, keys)
    ensures AllFaithful(t, ops) <==> NoFreeFirst(t, ops)
    decreases |ops|
  {
    if ops != [] {
      var t' := Apply(t, ops[0]).0;
      assert ops[0] in ops && NoZeroStep(t', ops[1..], keys);
      match ops[0] {
        case Add(key) => AddWithNonZeroStep(t, key, keys); SetAddProperties(t, key);
        case Rem(key) => RemWithNonZeroStep(t, key, keys); SetRemProperties(t, key);
        case IsMember(_) =>
      }
      NoZeroStepFaithful(t', ops[1..], keys);
    }
  }

  // ----- runs without removals

  /** Adds alone never leave a tombstone, so such a run only goes wrong when a key is dropped. */
  lemma AddWithoutTombstones(t: SetTab, key: string)
    requires SetValid(t) && NoTombstones(t.slots)
    ensures NoTombstones(SetAdd(t, key).0.slots)
    ensures Faithful(t, Add(key)) <==>
            key in Keys(t.slots) || (!StoreFails(t.slots, key) && !AddGrowthDrops(t, key))
  {
    RoomLeft(t.used, |t.slots|);
    NoTombstoneBeforeKey(t.slots, key);
    if AddScan(t.slots, key, 0).Stored? {
      var p := AddScan(t.slots, key, 0).p;
      var u := Tab(t.slots[p := Live(key, ())], t.used + 1);
      AddStructured(t, key, p);
      if Grows(u.used, |u.slots|) {
        GrowthTarget(u.used, |u.slots|);
        SetResizeProperties(u, |u.slots| * 2);
      }
    }
  }

  // ----- a counter that is wrong

  lemma AddEmptyThenG()
    ensures SetAdd(Init(BASE_SIZE), "").0 == Tab([Empty, Live("", ())], 1)
    ensures SetAdd(Tab([Empty, Live("", ())], 1), "g").0 == SetResizeUp(Tab([Live("g", ()), Live("", ())], 2))
  {
    TwoIsPrime();
    NextPrimeUnique(2, 2, NextPrimeOf(2));
    OneCharHash("g", 2);
    assert Home("", 2) == 1 && Home("g", 2) == 0;
    ProbeZero("", 2);
    ProbeZero("g", 2);
    var none: SetSlots, one: SetSlots := [Empty, Empty], [Empty, Live("", ())];
    assert Init<()>(BASE_SIZE) == Tab(none, 0);
    hide Home, Step, Probe;
    AddToHome(none, "", 1);
    assert none[1 := Live("", ())] == one;
    LoadBound(1, 2, 70);
    AddToHome(one, "g", 0);
    assert one[0 := Live("g", ())] == [Live("g", ()), Live("", ())];
  }

  lemma DropEmptyMember()
    ensures SetRehash([Live("g", ()), Live("", ())], 5) == [Empty, Live("g", ()), Empty, Empty, Empty]
  {
    FiveIsPrime();
    OneCharHash("g", 5);
    assert Home("", 5) == 1 && Home("g", 5) == 1 && Step("", 5) == 0;
    ProbeZero("g", 5);
    var src: SetSlots := [Live("g", ()), Live("", ())];
    var none: SetSlots := Fresh(5);
    var one: SetSlots := [Empty, Live("g", ()), Empty, Empty, Empty];
    hide Home, Step, Probe;
    AddToHome(none, "g", 1);
    assert none[1 := Live("g", ())] == one;
    assert AddMoved(src, 0, none) == none;
    assert AddMoved(src, 1, none) == one;
    assert LivePositions(one) == {1};
    StoreFailsIff(one, "");
    ScanStoresFirstFree(one, "");
    assert "" !in Keys(one);
    assert AddMoved(src, 2, none) == one;
  }

  /** Adding "" and "g" to a new set: the growth drops the empty member, and the counter stays at 2 over one slot. */
  lemma CounterTooHigh()
    ensures var t := SetAdd(SetAdd(Init(BASE_SIZE), "").0, "g").0;
            && t == Tab([Empty, Live("g", ()), Empty, Empty, Empty], 2)
            && SetValid(t) && !Counted(t)
  {
    AddEmptyThenG();
    DropEmptyMember();
    FiveIsPrime();
    var t: SetTab := Tab([Empty, Live("g", ()), Empty, Empty, Empty], 2);
    assert LivePositions(t.slots) == {1};
    SetInitValid(BASE_SIZE);
    SetAddProperties(Init(BASE_SIZE), "");
    SetAddProperties(Tab([Empty, Live("", ())], 1), "g");
  }

  /** Removing the one member left empties that set and leaves its counter at 1. */
  lemma EmptyButCounted()
    ensures var t := SetAdd(SetAdd(Init(BASE_SIZE), "").0, "g").0;
            var (t', removed) := SetRem(t, "g");
            removed && Keys(t'.slots) == {} && t'.used == 1
  {
    CounterTooHigh();
    var t: SetTab := Tab([Empty, Live("g", ()), Empty, Empty, Empty], 2);
    assert HoldsKey(t.slots, 1, "g");
    assert Keys(t.slots) == {"g"};
    SetRemProperties(t, "g");
    assert !Duplicated(t.slots, "g");
  }

  // ----- a run with a duplicate

  /** Two keys with home slot 0 of five; `f` goes on to slot 2. In a table of two slots they do not meet. */
  ghost predicate Collide(a: string, f: string) {
    && a != f
    && Probe(a, 2, 0) == 0 && Probe(f, 2, 0) == 1
    && Probe(a, 5, 0) == 0 && Probe(f, 5, 0) == 0 && Probe(f, 5, 1) == 2
  }

  lemma AAndFCollide()
    ensures Collide("a", "f")
  {
    var a, f := "a", "f";
    assert CharValue(a[0]) == 97 && CharValue(f[0]) == 102;
    OneCharHash(a, 2);
    OneCharHash(f, 2);
    OneCharHash(a, 5);
    OneCharHash(f, 5);
    hide Home, Step, Poly;
    ProbeZero(a, 2);
    ProbeZero(f, 2);
    ProbeZero(a, 5);
    ProbeZero(f, 5);
  }

  /** After both were added and the set grew: no tombstone, `f` one probe away from its home. */
  ghost function BothAdded(a: string, f: string): SetTab {
    Tab([Live(a, ()), Empty, Live(f, ()), Empty, Empty], 2)
  }

  lemma AddToHome(slots: SetSlots, key: string, p: nat)
    requires p < |slots| && Probe(key, |slots|, 0) == p && !slots[p].Live?
    ensures AddScan(slots, key, 0) == Stored(p)
    ensures AddPlace(slots, key) == slots[p := Live(key, ())]
  {
  }

  lemma AddToSecond(slots: SetSlots, key: string, p: nat)
    requires p < |slots| && 1 < |slots| && Probe(key, |slots|, 1) == p && !slots[p].Live?
    requires slots[Probe(key, |slots|, 0)].Live? && slots[Probe(key, |slots|, 0)].key != key
    ensures AddPlace(slots, key) == slots[p := Live(key, ())]
  {
    assert AddScan(slots, key, 0) == AddScan(slots, key, 1) == Stored(p);
  }

  lemma MoveBoth(a: string, f: string)
    requires Collide(a, f)
    ensures SetRehash([Live(a, ()), Live(f, ())], 5) == BothAdded(a, f).slots
  {
    var src: SetSlots := [Live(a, ()), Live(f, ())];
    var target: SetSlots := Fresh(5);
    var one: SetSlots := [Live(a, ()), Empty, Empty, Empty, Empty];
    AddToHome(target, a, 0);
    assert AddMoved(src, 0, target) == target;
    assert AddMoved(src, 1, target) == one;
    AddToSecond(one, f, 2);
  }

  /** Adding both to a fresh set grows it to five slots. */
  lemma AddBoth(a: string, f: string)
    requires Collide(a, f)
    ensures var first := SetAdd(Init<()>(BASE_SIZE), a).0; SetAdd(first, f) == (BothAdded(a, f), true)
  {
    TwoIsPrime();
    NextPrimeUnique(2, 2, NextPrimeOf(2));
    FiveIsPrime();
    MoveBoth(a, f);
    var none: SetSlots, one: SetSlots := [Empty, Empty], [Live(a, ()), Empty];
    assert Init<()>(BASE_SIZE) == Tab(none, 0);
    AddToHome(none, a, 0);
    assert SetAdd(Tab(none, 0), a).0 == Tab(one, 1);
    AddToHome(one, f, 1);
    assert one[1 := Live(f, ())] == [Live(a, ()), Live(f, ())];
  }

  lemma FindAtHome(slots: SetSlots, key: string, p: nat)
    requires HoldsKey(slots, p, key) && Probe(key, |slots|, 0) == p
    ensures Find(slots, key, 0) == Some(p)
  {
  }

  ghost function RemovedFirst(f: string): SetSlots {
    [Deleted, Empty, Live(f, ()), Empty, Empty]
  }

  ghost function AddedTwice(f: string): SetSlots {
    [Live(f, ()), Empty, Live(f, ()), Empty, Empty]
  }

  lemma RemoveA(a: string, f: string)
    requires Collide(a, f)
    ensures SetRem(BothAdded(a, f), a).0 == Tab(RemovedFirst(f), 1)
  {
    var slots := BothAdded(a, f).slots;
    FindAtHome(slots, a, 0);
    assert slots[0 := Deleted] == RemovedFirst(f);
    LoadBound(1, 5, 9);
  }

  lemma AddFAgain(f: string)
    requires Probe(f, 5, 0) == 0
    ensures SetAdd(Tab(RemovedFirst(f), 1), f) == (Tab(AddedTwice(f), 2), true)
  {
    AddToHome(RemovedFirst(f), f, 0);
    assert RemovedFirst(f)[0 := Live(f, ())] == AddedTwice(f);
    LoadBound(2, 5, 70);
  }

  lemma RemoveFAgain(f: string)
    requires Probe(f, 5, 0) == 0
    ensures SetRem(Tab(AddedTwice(f), 2), f) == (Tab(RemovedFirst(f), 1), true)
  {
    FindAtHome(AddedTwice(f), f, 0);
    assert AddedTwice(f)[0 := Deleted] == RemovedFirst(f);
    LoadBound(1, 5, 9);
  }

  /**
   Removing `a` and adding `f` again answers true and stores a duplicate in the tombstone;
   after `f` is removed it is still a member.
   */
  lemma DuplicateRemains(a: string, f: string)
    requires Collide(a, f)
    ensures var removed := SetRem(BothAdded(a, f), a).0;
            var again := SetAdd(removed, f);
            var rest := SetRem(again.0, f);
            && f in Keys(removed.slots) && again.1
            && Duplicated(again.0.slots, f)
            && rest.1 && f in Keys(rest.0.slots)
  {
    RemoveA(a, f);
    AddFAgain(f);
    RemoveFAgain(f);
    assert RemovedFirst(f)[2].key in Keys(RemovedFirst(f));
    assert HoldsKey(AddedTwice(f), 0, f) && HoldsKey(AddedTwice(f), 2, f);
  }

  /** SADD a, SADD f, SREM a, SADD f, SREM f on a fresh set: every call answers true and "f" is a member at the end. */
  lemma RemovedMemberRemains()
    ensures var added := SetAdd(SetAdd(Init<()>(BASE_SIZE), "a").0, "f").0;
            var again := SetAdd(SetRem(added, "a").0, "f");
            var rest := SetRem(again.0, "f");
            again.1 && rest.1 && "f" in Keys(rest.0.slots)
  {
    AAndFCollide();
    AddBoth("a", "f");
    DuplicateRemains("a", "f");
  }
}
