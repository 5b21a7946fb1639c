/**
 Whole runs of a hash table: safety of every run, the exact condition under which a run is
 the run of a finite map, and the amortised cost of growth.
 */
module TableRuns {
  import opened Primes
  import opened Hashing
  import opened Options
  import opened Slots
  import opened Tables
  import opened TableProperties

  datatype Op<V> = PutOp(key: string, value: V) | DelOp(key: string) | GetOp(key: string) | ExistsOp(key: string)

  datatype Reply<V> = Flag(ok: bool) | Found(value: Option<V>)

  ghost function Apply<V>(t: Tab<V>, op: Op<V>): (Tab<V>, Reply<V>) {
    match op
    case PutOp(key, value) => (Put(t, key, value), Flag(true))
    case DelOp(key) => var (t', ok) := Delete(t, key); (t', Flag(ok))
    case GetOp(key) => (t, Found(Get(t, key)))
    case ExistsOp(key) => (t, Flag(Find(t.slots, key, 0).Some?))
  }

  /** The same operation on a finite map. */
  function MapApply<V>(m: map<string, V>, op: Op<V>): (map<string, V>, Reply<V>) {
    match op
    case PutOp(key, value) => (m[key := value], Flag(true))
    case DelOp(key) => (m - {key}, Flag(key in m))
    case GetOp(key) => (m, Found(if key in m then Some(m[key]) else None))
    case ExistsOp(key) => (m, Flag(key in m))
  }

  ghost function Run<V>(t: Tab<V>, ops: seq<Op<V>>): Tab<V>
    decreases |ops|
  {
    if ops == [] then t else Run(Apply(t, ops[0]).0, ops[1..])
  }

  ghost function Replies<V>(t: Tab<V>, ops: seq<Op<V>>): seq<Reply<V>>
    decreases |ops|
  {
    if ops == [] then [] else [Apply(t, ops[0]).1] + Replies(Apply(t, ops[0]).0, ops[1..])
  }

  function MapRun<V>(m: map<string, V>, ops: seq<Op<V>>): map<string, V>
    decreases |ops|
  {
    if ops == [] then m else MapRun(MapApply(m, ops[0]).0, ops[1..])
  }

  function MapReplies<V>(m: map<string, V>, ops: seq<Op<V>>): seq<Reply<V>>
    decreases |ops|
  {
    if ops == [] then [] else [MapApply(m, ops[0]).1] + MapReplies(MapApply(m, ops[0]).0, ops[1..])
  }

  /** The operation drops a key: its own, or another one in the rehash it starts. */
  ghost predicate Loses<V>(t: Tab<V>, op: Op<V>)
    requires |t.slots| > 0
  {
    match op
    case PutOp(key, value) => PutLoses(t, key, value)
    case DelOp(key) => DeleteLoses(t, key)
    case _ => false
  }

  /** The rehash that the operation starts drops a key. */
  ghost predicate DropsInRehash<V>(t: Tab<V>, op: Op<V>)
    requires |t.slots| > 0
  {
    match op
    case PutOp(key, value) => PutRehashDrops(t, key, value)
    case DelOp(key) => DeleteLoses(t, key)
    case _ => false
  }

  /** One operation: always valid, and the map operation exactly when nothing is lost. */
  lemma ApplyProperties<V>(t: Tab<V>, op: Op<V>)
    requires Valid(t)
    ensures var m, t' := Contents(t.slots), Apply(t, op).0;
            && Valid(t')
            && SubMap(Contents(t'.slots), MapApply(m, op).0)
            && (Contents(t'.slots) == MapApply(m, op).0 <==> !Loses(t, op))
            && Apply(t, op).1 == MapApply(m, op).1
            && (Counted(t') <==> Counted(t) && !DropsInRehash(t, op))
  {
    match op
    case PutOp(key, value) => PutProperties(t, key, value);
    case DelOp(key) => DeleteProperties(t, key);
    case GetOp(key) => GetValue(t, key);
    case ExistsOp(key) => FindIffLive(t.slots, key);
  }

  // ----- every run

  /** What a lossy run may answer where the map answers `right`: a found value is the right one. */
  ghost predicate NeverStale<V>(given: Reply<V>, right: Reply<V>) {
    given.Found? && given.value.Some? ==> given == right
  }

  lemma MapApplyMonotone<V>(m: map<string, V>, n: map<string, V>, op: Op<V>)
    requires SubMap(m, n)
    ensures SubMap(MapApply(m, op).0, MapApply(n, op).0)
    ensures NeverStale(MapApply(m, op).1, MapApply(n, op).1)
  {
  }

  /**
   Safety of every run, lossy or not: the table stays valid (so its load stays at most 70 and a
   slot stays free), holds no entry the map does not hold, and never answers with a stale value.
   */
  lemma {:induction false} RunSafe<V>(t: Tab<V>, ops: seq<Op<V>>, m: map<string, V>)
    requires Valid(t) && SubMap(Contents(t.slots), m)
    ensures Valid(Run(t, ops)) && SubMap(Contents(Run(t, ops).slots), MapRun(m, ops))
    ensures |Replies(t, ops)| == |MapReplies(m, ops)| == |ops|
    ensures forall i :: 0 <= i < |ops| ==> NeverStale(Replies(t, ops)[i], MapReplies(m, ops)[i])
    decreases |ops|
  {
    if ops != [] {
      var t', m' := Apply(t, ops[0]).0, MapApply(m, ops[0]).0;
      ApplyProperties(t, ops[0]);
      MapApplyMonotone(Contents(t.slots), m, ops[0]);
      RunSafe(t', ops[1..], m');
    }
  }

  ghost predicate Lossless<V>(t: Tab<V>, ops: seq<Op<V>>)
    decreases |ops|
  {
    ops == [] || (|t.slots| > 0 && !Loses(t, ops[0]) && Lossless(Apply(t, ops[0]).0, ops[1..]))
  }

  /** After every operation of the run the table holds what the map run from its contents holds. */
  ghost predicate Tracks<V>(t: Tab<V>, m: map<string, V>, ops: seq<Op<V>>)
    decreases |ops|
  {
    && Contents(t.slots) == m
    && (ops == [] || Tracks(Apply(t, ops[0]).0, MapApply(m, ops[0]).0, ops[1..]))
  }

  /** A run is the run of a finite map, at every step, if and only if no operation of it drops a key. */
  lemma {:induction false} RunExact<V>(t: Tab<V>, ops: seq<Op<V>>)
    requires Valid(t)
    ensures Tracks(t, Contents(t.slots), ops) <==> Lossless(t, ops)
    ensures Lossless(t, ops) ==> Contents(Run(t, ops).slots) == MapRun(Contents(t.slots), ops)
    ensures Lossless(t, ops) ==> Replies(t, ops) == MapReplies(Contents(t.slots), ops)
    ensures Lossless(t, ops) && Counted(t) ==> Run(t, ops).used == |MapRun(Contents(t.slots), ops)|
    decreases |ops|
  {
    if ops == [] {
      ValidBounds(t);
    } else {
      var t' := Apply(t, ops[0]).0;
      ApplyProperties(t, ops[0]);
      RunExact(t', ops[1..]);
      var m' := MapApply(Contents(t.slots), ops[0]).0;
      if Contents(t'.slots) != m' {
        assert !Tracks(t', m', ops[1..]);
      }
    }
  }

  /** From a fresh table: the run is that of the empty map exactly when it is lossless; then `used` is its size. */
  lemma FreshRunExact<V>(size: int, ops: seq<Op<V>>)
    ensures Tracks(Init<V>(size), map[], ops) <==> Lossless(Init<V>(size), ops)
    ensures var t := Init<V>(size);
            Lossless(t, ops) ==>
              && Contents(Run(t, ops).slots) == MapRun(map[], ops)
              && Replies(t, ops) == MapReplies(map[], ops)
              && Run(t, ops).used == |MapRun(map[], ops)|
  {
    InitValid<V>(size);
    RunExact(Init<V>(size), ops);
  }

  // ----- the counter

  /** A longer run. */
  lemma {:induction false} RunOneMore<V>(t: Tab<V>, ops: seq<Op<V>>, op: Op<V>)
    ensures Run(t, ops + [op]) == Apply(Run(t, ops), op).0
    decreases |ops|
  {
    if ops == [] {
      assert [] + [op] == [op];
    } else {
      assert (ops + [op])[1..] == ops[1..] + [op];
      RunOneMore(Apply(t, ops[0]).0, ops[1..], op);
    }
  }

  ghost predicate NoRehashDrops<V>(t: Tab<V>, ops: seq<Op<V>>)
    decreases |ops|
  {
    ops == [] || (|t.slots| > 0 && !DropsInRehash(t, ops[0]) && NoRehashDrops(Apply(t, ops[0]).0, ops[1..]))
  }

  /**
   After any run `used` counts the live slots if and only if it did before and no rehash of the run
   dropped a key; a key that finds no place when it is stored leaves the counter right.
   */
  lemma {:induction false} CounterExact<V>(t: Tab<V>, ops: seq<Op<V>>)
    requires Valid(t)
    ensures Counted(Run(t, ops)) <==> Counted(t) && NoRehashDrops(t, ops)
    decreases |ops|
  {
    if ops != [] {
      ApplyProperties(t, ops[0]);
      CounterExact(Apply(t, ops[0]).0, ops[1..]);
    }
  }

  /** From a fresh table, and a counter once wrong never recovers. */
  lemma FreshCounterExact<V>(size: int, ops: seq<Op<V>>, more: seq<Op<V>>)
    ensures Counted(Run(Init<V>(size), ops)) <==> NoRehashDrops(Init<V>(size), ops)
    ensures !Counted(Run(Init<V>(size), ops)) ==> !Counted(Run(Run(Init<V>(size), ops), more))
  {
    InitValid<V>(size);
    CounterExact(Init<V>(size), ops);
    RunSafe(Init<V>(size), ops, Contents(Init<V>(size).slots));
    CounterExact(Run(Init<V>(size), ops), more);
  }

  // ----- zero steps are the only cause of loss

  /** No key of `keys` has step 0 at any size the table has during the run. */
  ghost predicate NoZeroStep<V>(t: Tab<V>, ops: seq<Op<V>>, keys: set<string>)
    decreases |ops|
  {
    && |t.slots| > 0
    && StepsNonZero(keys, |t.slots|)
    && (ops == [] || NoZeroStep(Apply(t, ops[0]).0, ops[1..], keys))
  }

  lemma NoZeroStepNoDrop<V>(slots: seq<Slot<V>>, size: nat, keys: set<string>)
    requires size > 0 && Contents(slots).Keys <= keys && StepsNonZero(keys, size)
    ensures !RehashDrops(slots, size)
  {
    forall i: nat
      ensures !Dropped(slots, size, i)
    {
      if i < |slots| && slots[i].Live? {
        assert slots[i].key in Keys(slots);
      }
    }
  }

  lemma PutLossNeedsZeroStep<V>(t: Tab<V>, key: string, value: V, keys: set<string>)
    requires Valid(t) && key !in Keys(t.slots) && Keys(t.slots) + {key} <= keys
    requires StepsNonZero(keys, |t.slots|) && StepsNonZero(keys, |Insert(t, key, value).slots|)
    ensures !InsertLoses(t, key, value)
  {
    RoomLeft(t.used, |t.slots|);
    StoreFailsIff(t.slots, key);
    StoreContents(t.slots, FirstFree(t.slots, key, 0).value, key, value);
    if Grows(t.used + 1, |t.slots|) {
      NoZeroStepNoDrop(Place(t.slots, key, value), NextPrimeOf(|t.slots| * 2), keys);
    }
  }

  lemma DeleteLossNeedsZeroStep<V>(t: Tab<V>, key: string, keys: set<string>)
    requires Valid(t) && Keys(t.slots) <= keys
    requires |Delete(t, key).0.slots| > 0 && StepsNonZero(keys, |Delete(t, key).0.slots|)
    ensures !DeleteLoses(t, key)
  {
    if Find(t.slots, key, 0).Some? && Shrinks(t.used - 1, |t.slots|) {
      var p := Find(t.slots, key, 0).value;
      RemoveContents(t.slots, p);
      NoZeroStepNoDrop(t.slots[p := Deleted], NextPrimeOf(|t.slots| / 2), keys);
    }
  }

  lemma LossNeedsZeroStep<V>(t: Tab<V>, op: Op<V>, keys: set<string>)
    requires Valid(t) && Keys(t.slots) <= keys && op.key in keys
    requires StepsNonZero(keys, |t.slots|) && |Apply(t, op).0.slots| > 0
    requires StepsNonZero(keys, |Apply(t, op).0.slots|)
    ensures !Loses(t, op)
  {
    match op
    case PutOp(key, value) =>
      FindIffLive(t.slots, key);
      if key !in Keys(t.slots) {
        PutLossNeedsZeroStep(t, key, value, keys);
      }
    case DelOp(key) => DeleteLossNeedsZeroStep(t, key, keys);
    case _ =>
  }

  lemma KeysOfApply<V>(t: Tab<V>, op: Op<V>)
    requires Valid(t)
    ensures Keys(Apply(t, op).0.slots) <= Keys(t.slots) + {op.key}
  {
    ApplyProperties(t, op);
    var m', n := Contents(Apply(t, op).0.slots), MapApply(Contents(t.slots), op).0;
    forall key | key in Keys(Apply(t, op).0.slots)
      ensures key in Keys(t.slots) + {op.key}
    {
      assert key in m' && key in n;
    }
  }

  /** Sufficient for a lossless run: no key in play has step 0 at a size the table takes. */
  lemma {:induction false} NoZeroStepIsLossless<V>(t: Tab<V>, ops: seq<Op<V>>, keys: set<string>)
    requires Valid(t) && Keys(t.slots) <= keys && forall op :: op in ops ==> op.key in keys
    requires NoZeroStep(t, ops, keys)
    ensures Lossless(t, ops)
    decreases |ops|
  {
    if ops != [] {
      var t' := Apply(t, ops[0]).0;
      assert NoZeroStep(t', ops[1..], keys);
      ApplyProperties(t, ops[0]);
      KeysOfApply(t, ops[0]);
      LossNeedsZeroStep(t, ops[0], keys);
      NoZeroStepIsLossless(t', ops[1..], keys);
    }
  }

  // ----- a key that is lost

  /** The empty key has step 0 at every size, so it is only ever stored in its home slot. */
  lemma EmptyKeyStaysHome(size: int)
    requires size > 0
    ensures Step("", size) == 0
  {
  }

  /** SET of an absent empty key answers true and stores nothing exactly when the home slot is live. */
  lemma EmptyKeyLost<V>(t: Tab<V>, value: V)
    requires Valid(t) && "" !in Contents(t.slots)
    ensures Apply(t, PutOp("", value)).1 == Flag(true)
    ensures Put(t, "", value) == t <==> t.slots[Home("", |t.slots|)].Live?
  {
    EmptyKeyStaysHome(|t.slots|);
    InsertProperties(t, "", value);
    FindValue(t.slots, "");
  }

  lemma FirstPutOfB<V>(x: V)
    ensures Init<V>(BASE_SIZE) == Tab([Empty, Empty], 0) && Find(Init<V>(BASE_SIZE).slots, "b", 0) == None
    ensures Put(Init(BASE_SIZE), "b", x) == Tab([Empty, Live("b", x)], 1)
  {
    TwoIsPrime();
    NextPrimeUnique(2, 2, NextPrimeOf(2));
    var t := Init<V>(BASE_SIZE);
    assert t == Tab([Empty, Empty], 0);
    assert Home("b", 2) == 1;
    ProbeZero("b", 2);
    assert FirstFree(t.slots, "b", 0) == Some(1);
    assert Find(t.slots, "b", 0) == None;
    assert t.slots[1 := Live("b", x)] == [Empty, Live("b", x)];
  }

  /** A concrete lossy run: both SETs answer true, the map run ends with two keys, the table with one. */
  lemma LossyRun<V>(x: V, y: V)
    ensures var t := Init<V>(BASE_SIZE);
            var u := Put(t, "b", x);
            && Apply(u, PutOp("", y)) == (u, Flag(true))
            && Contents(u.slots) == map["b" := x]
            && PutLoses(u, "", y)
  {
    FirstPutOfB(x);
    InitValid<V>(BASE_SIZE);
    var u := Tab([Empty, Live("b", x)], 1);
    PutProperties(Init<V>(BASE_SIZE), "b", x);
    assert HoldsKey(u.slots, 1, "b");
    assert Keys(u.slots) == {"b"};
    ContentsAt(u.slots, 1);
    assert Home("", 2) == 1;
    EmptyKeyLost(u, y);
    EmptyKeyStaysHome(2);
  }

  // ----- a counter that is wrong

  lemma PutEmptyThenG()
    ensures Put(Init<string>(BASE_SIZE), "", "x") == Tab([Empty, Live("", "x")], 1)
    ensures Put(Tab([Empty, Live("", "x")], 1), "g", "y") == ResizeUp(Tab([Live("g", "y"), Live("", "x")], 2))
  {
    TwoIsPrime();
    NextPrimeUnique(2, 2, NextPrimeOf(2));
    OneCharHash("g", 2);
    assert Home("", 2) == 1 && Home("g", 2) == 0;
    ProbeZero("", 2);
    ProbeZero("g", 2);
    var none: seq<Slot<string>>, one: seq<Slot<string>> := [Empty, Empty], [Empty, Live("", "x")];
    assert Init<string>(BASE_SIZE).slots == none;
    hide Home, Step, Probe;
    assert FirstFree(none, "", 0) == Some(1) && Find(none, "", 0) == None;
    assert none[1 := Live("", "x")] == one;
    assert FirstFree(one, "g", 0) == Some(0) && Find(one, "g", 0) == None;
    assert one[0 := Live("g", "y")] == [Live("g", "y"), Live("", "x")];
  }

  lemma DropEmptyKey()
    ensures Rehash([Live("g", "y"), Live("", "x")], 5) == [Empty, Live("g", "y"), Empty, Empty, Empty]
  {
    FiveIsPrime();
    OneCharHash("g", 5);
    assert Home("", 5) == 1 && Home("g", 5) == 1;
    EmptyKeyStaysHome(5);
    ProbeZero("g", 5);
    var src: seq<Slot<string>> := [Live("g", "y"), Live("", "x")];
    var none: seq<Slot<string>> := Fresh(5);
    var one: seq<Slot<string>> := [Empty, Live("g", "y"), Empty, Empty, Empty];
    hide Home, Step, Probe;
    assert FirstFree(none, "g", 0) == Some(1);
    assert none[1 := Live("g", "y")] == one;
    assert Moved(src, 0, none) == none;
    assert Moved(src, 1, none) == one;
    assert LivePositions(one) == {1};
    StoreFailsIff(one, "");
    assert Moved(src, 2, none) == one;
  }

  /** Two puts on a fresh table: the growth drops the empty key, and the counter stays at 2 with one live slot. */
  lemma CounterTooHigh()
    ensures var t := Put(Put(Init<string>(BASE_SIZE), "", "x"), "g", "y");
            && t == Tab([Empty, Live("g", "y"), Empty, Empty, Empty], 2)
            && Valid(t) && !Counted(t)
  {
    PutEmptyThenG();
    DropEmptyKey();
    FiveIsPrime();
    var t: Tab<string> := Tab([Empty, Live("g", "y"), Empty, Empty, Empty], 2);
    assert LivePositions(t.slots) == {1};
    InitValid<string>(BASE_SIZE);
    PutProperties(Init<string>(BASE_SIZE), "", "x");
    PutProperties(Tab([Empty, Live("", "x")], 1), "g", "y");
  }

  /** Deleting the one key left empties that table and leaves its counter at 1. */
  lemma EmptyButCounted()
    ensures var t := Put(Put(Init<string>(BASE_SIZE), "", "x"), "g", "y");
            var (t', deleted) := Delete(t, "g");
            deleted && Contents(t'.slots) == map[] && t'.used == 1
  {
    CounterTooHigh();
    var t: Tab<string> := Tab([Empty, Live("g", "y"), Empty, Empty, Empty], 2);
    assert HoldsKey(t.slots, 1, "g");
    assert Keys(t.slots) == {"g"};
    DeleteProperties(t, "g");
    var t' := Delete(t, "g").0;
    assert Contents(t'.slots).Keys <= (Contents(t.slots) - {"g"}).Keys;
    assert (Contents(t.slots) - {"g"}).Keys == {};
  }

  // ----- amortised cost

  /** The put stores a new key. */
  ghost predicate StoresKey<V>(t: Tab<V>, op: Op<V>) {
    op.PutOp? && Find(t.slots, op.key, 0).None? && FirstFree(t.slots, op.key, 0).Some?
  }

  /** The items moved by the growth that `op` starts, if any. */
  ghost function GrowthMoves<V>(t: Tab<V>, op: Op<V>): nat
    requires |t.slots| > 0
  {
    if StoresKey(t, op) && Grows(t.used + 1, |t.slots|) then |LivePositions(Place(t.slots, op.key, op.value))|
    else 0
  }

  /** The items moved by the shrinkage that `op` starts, if any. */
  ghost function ShrinkMoves<V>(t: Tab<V>, op: Op<V>): nat
    requires |t.slots| > 0
  {
    if op.DelOp? && Find(t.slots, op.key, 0).Some? && Shrinks(t.used - 1, |t.slots|)
    then |LivePositions(t.slots[Find(t.slots, op.key, 0).value := Deleted])|
    else 0
  }

  /** The items moved by the rehash that `op` starts, if any. */
  ghost function Moves<V>(t: Tab<V>, op: Op<V>): nat
    requires |t.slots| > 0
  {
    GrowthMoves(t, op) + ShrinkMoves(t, op)
  }

  /** A put that changes the size moves every item, the new one included, and no other put moves any. */
  lemma PutMoves<V>(t: Tab<V>, key: string, value: V)
    requires Valid(t)
    ensures var op, t' := PutOp(key, value), Put(t, key, value);
            && (StoresKey(t, op) <==> t'.used == t.used + 1)
            && Moves(t, op) == if |t'.slots| != |t.slots| then |Contents(t.slots)| + 1 else 0
  {
    hide ChainInv, NextPrimeOf, Load;
    FindIffLive(t.slots, key);
    KeysCounted(t.slots);
    assert |Contents(t.slots)| == |Contents(t.slots).Keys|;
    if StoresKey(t, PutOp(key, value)) {
      StoreContents(t.slots, FirstFree(t.slots, key, 0).value, key, value);
      SizeAfterStore(t, key, value);
    }
  }

  lemma SizeAfterStore<V>(t: Tab<V>, key: string, value: V)
    requires Valid(t) && StoresKey(t, PutOp(key, value))
    ensures var t' := Insert(t, key, value);
            t'.used == t.used + 1 && (|t'.slots| != |t.slots| <==> Grows(t.used + 1, |t.slots|))
  {
    hide ChainInv;
    FindIffLive(t.slots, key);
    if Grows(t.used + 1, |t.slots|) {
      GrowingInsert(t, key, value);
    }
  }

  /** A deletion that empties the table below 10 percent moves what is left, if half its size is at least 2. */
  lemma DeleteMoves<V>(t: Tab<V>, key: string)
    requires Valid(t)
    ensures Moves(t, DelOp(key)) ==
            if key in Keys(t.slots) && (t.used - 1) * 100 / |t.slots| < 10 && |t.slots| >= 4
            then |Contents(t.slots)| - 1 else 0
  {
    hide ChainInv;
    FindIffLive(t.slots, key);
    KeysCounted(t.slots);
    assert |Contents(t.slots)| == |Contents(t.slots).Keys|;
    if key in Keys(t.slots) {
      RemoveContents(t.slots, Find(t.slots, key, 0).value);
    }
  }

  ghost function TotalMoves<V>(t: Tab<V>, ops: seq<Op<V>>): nat
    decreases |ops|
  {
    if ops == [] || |t.slots| == 0 then 0
    else Moves(t, ops[0]) + TotalMoves(Apply(t, ops[0]).0, ops[1..])
  }

  ghost predicate PutsOnly<V>(ops: seq<Op<V>>) {
    forall op :: op in ops ==> op.PutOp?
  }

  lemma GrowingInsert<V>(t: Tab<V>, key: string, value: V)
    requires Valid(t) && key !in Keys(t.slots)
    requires FirstFree(t.slots, key, 0).Some? && Grows(t.used + 1, |t.slots|)
    ensures var t' := Insert(t, key, value);
            && |t'.slots| >= |t.slots| * 2
            && t'.used == t.used + 1
            && |LivePositions(Place(t.slots, key, value))| <= t'.used <= |t.slots|
            && 71 * |t.slots| <= 100 * t'.used
  {
    RoomLeft(t.used, |t.slots|);
    LoadBound(t.used + 1, |t.slots|, 70);
    StoreContents(t.slots, FirstFree(t.slots, key, 0).value, key, value);
  }

  lemma MovesOnePut<V>(t: Tab<V>, op: Op<V>, moved: int)
    requires Valid(t) && op.PutOp?
    requires moved <= |t.slots| && 71 * moved <= 171 * t.used
    ensures var t', moved' := Apply(t, op).0, moved + Moves(t, op);
            moved' <= |t'.slots| && 71 * moved' <= 171 * t'.used
  {
    FindIffLive(t.slots, op.key);
    if Find(t.slots, op.key, 0).None? && FirstFree(t.slots, op.key, 0).Some? && Grows(t.used + 1, |t.slots|) {
      GrowingInsert(t, op.key, op.value);
    }
  }

  /**
   Amortised growth: in a run of puts from a fresh table all rehashes together move fewer than 2.5 items per
   stored one.
   */
  lemma {:induction false} AmortisedFrom<V>(t: Tab<V>, ops: seq<Op<V>>, moved: int)
    requires Valid(t) && PutsOnly(ops)
    requires moved <= |t.slots| && 71 * moved <= 171 * t.used
    ensures 71 * (moved + TotalMoves(t, ops)) <= 171 * Run(t, ops).used
    decreases |ops|
  {
    if ops != [] {
      assert ops[0] in ops;
      ApplyProperties(t, ops[0]);
      MovesOnePut(t, ops[0], moved);
      AmortisedFrom(Apply(t, ops[0]).0, ops[1..], moved + Moves(t, ops[0]));
    }
  }

  lemma AmortisedGrowth<V>(size: int, ops: seq<Op<V>>)
    requires PutsOnly(ops)
    ensures 71 * TotalMoves(Init<V>(size), ops) <= 171 * Run(Init<V>(size), ops).used
  {
    InitValid<V>(size);
    AmortisedFrom(Init<V>(size), ops, 0);
  }

  // ----- the cost of growth in any run

  ghost function TotalGrowth<V>(t: Tab<V>, ops: seq<Op<V>>): nat
    decreases |ops|
  {
    if ops == [] || |t.slots| == 0 then 0
    else GrowthMoves(t, ops[0]) + TotalGrowth(Apply(t, ops[0]).0, ops[1..])
  }

  /** How many puts of the run store a new key. */
  ghost function KeysStored<V>(t: Tab<V>, ops: seq<Op<V>>): (n: nat)
    ensures n <= |ops|
    decreases |ops|
  {
    if ops == [] then 0
    else (if StoresKey(t, ops[0]) then 1 else 0) + KeysStored(Apply(t, ops[0]).0, ops[1..])
  }

  /** How far the table is above half full, counted twice. */
  function Phi<V>(t: Tab<V>): nat {
    if 2 * t.used > |t.slots| then 2 * t.used - |t.slots| else 0
  }

  lemma PutPhi<V>(t: Tab<V>, key: string, value: V)
    requires Valid(t)
    ensures var op, t' := PutOp(key, value), Put(t, key, value);
            42 * GrowthMoves(t, op) + 71 * Phi(t') <= 71 * Phi(t) + if StoresKey(t, op) then 142 else 0
  {
    RoomLeft(t.used, |t.slots|);
    FindIffLive(t.slots, key);
    if StoresKey(t, PutOp(key, value)) && Grows(t.used + 1, |t.slots|) {
      GrowingInsert(t, key, value);
    }
  }

  lemma DeletePhi<V>(t: Tab<V>, key: string)
    requires Valid(t)
    ensures Phi(Delete(t, key).0) <= Phi(t)
    ensures 10 * ShrinkMoves(t, DelOp(key)) < |t.slots|
  {
    hide Valid, Find, NextPrimeOf, LivePositions, Load;
    ValidBounds(t);
    if Find(t.slots, key, 0).Some? {
      RemovalLive(t, Find(t.slots, key, 0).value);
      if Shrinks(t.used - 1, |t.slots|) {
        ShrunkIsLight(t.used - 1, |t.slots|);
      }
    }
  }

  lemma RemovalLive<V>(t: Tab<V>, p: nat)
    requires Valid(t) && p < |t.slots| && t.slots[p].Live?
    ensures |LivePositions(t.slots[p := Deleted])| <= t.used - 1
  {
    RemoveContents(t.slots, p);
  }

  /** The table and its rehash target hold few items for their sizes. */
  lemma ShrunkIsLight(used: int, size: int)
    requires size > 0 && 0 <= used && Shrinks(used, size)
    ensures 10 * used < size && 2 * used <= NextPrimeOf(size / 2)
  {
    LoadBound(used, size, 9);
    ShrinkageTarget(used, size);
    LoadBound(used, NextPrimeOf(size / 2), 20);
  }

  /**
   In every run on a valid table, deletions included, growth moves at most 142/42 items per new key
   stored, and what the fill of the table at the start is worth.
   */
  lemma {:induction false} AmortisedAnyRun<V>(t: Tab<V>, ops: seq<Op<V>>)
    requires Valid(t)
    ensures 42 * TotalGrowth(t, ops) + 71 * Phi(Run(t, ops)) <= 71 * Phi(t) + 142 * KeysStored(t, ops)
    decreases |ops|
  {
    if ops != [] {
      ApplyProperties(t, ops[0]);
      match ops[0] {
        case PutOp(key, value) => PutPhi(t, key, value);
        case DelOp(key) => DeletePhi(t, key);
        case _ =>
      }
      AmortisedAnyRun(Apply(t, ops[0]).0, ops[1..]);
    }
  }

  /** On a new table the fill is worth nothing; and a deletion moves fewer items than a tenth of the slots. */
  lemma FreshAmortised<V>(size: int, ops: seq<Op<V>>, key: string)
    ensures 42 * TotalGrowth(Init<V>(size), ops) <= 142 * KeysStored(Init<V>(size), ops)
    ensures var t := Run(Init<V>(size), ops);
            |t.slots| > 0 && 10 * ShrinkMoves(t, DelOp(key)) < |t.slots|
  {
    InitValid<V>(size);
    AmortisedAnyRun(Init<V>(size), ops);
    RunSafe(Init<V>(size), ops, Contents(Init<V>(size).slots));
    DeletePhi(Run(Init<V>(size), ops), key);
  }
}
