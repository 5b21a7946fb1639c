/**
 What the typed store means: a finite map from keys to strings, finite maps, sequences and
 sets. Operations that drop no key and store no duplicate are the operations of that map.
 */
module StoreMeaning {
  import opened Options
  import opened Primes
  import opened Slots
  import opened Tables
  import opened TableProperties
  import opened Sets
  import SetRuns
  import TableRuns
  import ListSpec
  import opened StoreSpec
  import opened StoreProperties

  datatype Meaning =
    | AStr(s: string)
    | AHash(fields: map<string, string>)
    | AList(items: seq<string>)
    | ASet(members: set<string>)

  ghost function MeaningOf(v: Val): Meaning {
    match v
    case StrVal(s) => AStr(s)
    case HashVal(t) => AHash(Contents(t.slots))
    case ListVal(items) => AList(items)
    case SetVal(t) => ASet(Keys(t.slots))
  }

  datatype MeaningEffect = AKeep | AWrite(v: Meaning) | ARemove

  ghost predicate Matches(item: Option<Meaning>, prim: Prim) {
    item.Some? ==>
      match KindFor(prim)
      case None => true
      case Some(HashKind) => item.value.AHash?
      case Some(ListKind) => item.value.AList? && (prim.Pop? ==> item.value.items != [])
      case Some(SetKind) => item.value.ASet?
      case Some(StrKind) => item.value.AStr?
  }

  /** The operations on meanings: a hash, list or set that becomes empty takes its key with it. */
  ghost function MeaningEffectOf(item: Option<Meaning>, prim: Prim): (MeaningEffect, Answer)
    requires Matches(item, prim)
  {
    match prim
    case SetStr(value) =>
      if item.Some? && !item.value.AStr? then (AKeep, Flag(false)) else (AWrite(AStr(value)), Flag(true))
    case Del => if item.Some? then (ARemove, Flag(true)) else (AKeep, Flag(false))
    case HSet(field, value) =>
      var fields := if item.Some? then item.value.fields else map[];
      (AWrite(AHash(fields[field := value])), Flag(true))
    case HDel(field) =>
      if item.None? then (AKeep, Flag(false))
      else
        var fields := item.value.fields - {field};
        (if fields == map[] then ARemove else AWrite(AHash(fields)), Flag(field in item.value.fields))
    case Push(value, left) =>
      var before := if item.Some? then item.value.items else [];
      var items := if left then [value] + before else before + [value];
      (AWrite(AList(items)), Number(|before| + 1))
    case Pop(left) =>
      if item.None? then (AKeep, Text(None))
      else
        var before := item.value.items;
        var last := |before| - 1;
        var items := if left then before[1..] else before[..last];
        (if |before| == 1 then ARemove else AWrite(AList(items)), Text(Some(before[if left then 0 else last])))
    case LSet(id, value) =>
      if item.None? then (AKeep, Flag(false))
      else
        var before := item.value.items;
        if 0 < |before| && id < 0 then (AWrite(AList([value] + before[1..])), Flag(true))
        else if 0 <= id < |before| then (AWrite(AList(before[..id] + [value] + before[id + 1..])), Flag(true))
        else (AWrite(AList(before)), Flag(false))
    case LRem(count, value) =>
      if item.None? then (AKeep, Number(0))
      else
        var items := ListSpec.Rem(item.value.items, count, value);
        (if items == [] then ARemove else AWrite(AList(items)),
         Number(ListSpec.RemCount(item.value.items, count, value)))
    case SAdd(member) =>
      var members := if item.Some? then item.value.members else {};
      (AWrite(ASet(members + {member})), Flag(member !in members))
    case SRem(member) =>
      if item.None? then (AKeep, Flag(false))
      else
        var members := item.value.members - {member};
        (if members == {} then ARemove else AWrite(ASet(members)), Flag(member in item.value.members))
  }

  /** `used` counts the entries of a hash, and of a set whose members are distinct. */
  ghost predicate Clean(v: Val) {
    match v
    case HashVal(t) => Counted(t)
    case SetVal(t) => Counted(t) && UniqueKeys(t.slots)
    case _ => true
  }

  /** What an operation works on is clean; SET and DEL look into no item. */
  ghost predicate CleanFor(item: Option<Val>, prim: Prim) {
    KindFor(prim).Some? && item.Some? ==> Clean(item.value)
  }

  /** No field is dropped from the hash, no member dropped from the set or stored twice. */
  ghost predicate InnerFaithful(item: Option<Val>, prim: Prim)
    requires Defined(item, prim) && (item.Some? ==> ValOk(item.value))
  {
    item.Some? ==>
      match prim
      case HSet(field, value) => !PutLoses(item.value.fields, field, value)
      case HDel(field) => !DeleteLoses(item.value.fields, field)
      case SAdd(member) => SetRuns.Faithful(item.value.members, SetRuns.Add(member))
      case SRem(member) => SetRuns.Faithful(item.value.members, SetRuns.Rem(member))
      case _ => true
  }

  ghost function EffectMeaning(e: Effect): MeaningEffect {
    match e
    case Keep => AKeep
    case Write(v) => AWrite(MeaningOf(v))
    case Remove(_) => ARemove
  }

  ghost function ItemMeaning(item: Option<Val>): Option<Meaning> {
    match item
    case None => None
    case Some(v) => Some(MeaningOf(v))
  }

  lemma HSetMeans(t: Tab<string>, field: string, value: string)
    requires ValOk(HashVal(t)) && Counted(t)
    ensures var t', lossless := Put(t, field, value), !PutLoses(t, field, value);
            && (Contents(t'.slots) == Contents(t.slots)[field := value] <==> lossless)
            && (lossless ==> Counted(t'))
  {
    PutProperties(t, field, value);
  }

  lemma HDelMeans(t: Tab<string>, field: string)
    requires ValOk(HashVal(t)) && Counted(t)
    ensures var (t', ok) := Delete(t, field);
            var lossless := !DeleteLoses(t, field);
            && (ok <==> field in Contents(t.slots))
            && (Contents(t'.slots) == Contents(t.slots) - {field} <==> lossless)
            && (lossless ==> Counted(t') && (t'.used == 0 <==> Contents(t'.slots) == map[]))
            && (!lossless ==> t'.used > 0)
  {
    DeleteProperties(t, field);
    var t' := Delete(t, field).0;
    hide *;
    ValidBounds(t');
    assert |Contents(t'.slots)| == 0 <==> Contents(t'.slots) == map[];
  }

  lemma SAddMeans(t: SetTab, member: string)
    requires ValOk(SetVal(t)) && Clean(SetVal(t))
    ensures var (t', ok) := SetAdd(t, member);
            var faithful := SetRuns.Faithful(t, SetRuns.Add(member));
            && (Keys(t'.slots) == Keys(t.slots) + {member} && (ok <==> member !in Keys(t.slots)) <==> faithful)
            && (faithful ==> Clean(SetVal(t')))
  {
    SetRuns.ApplyExact(t, SetRuns.Add(member));
  }

  lemma SRemMeans(t: SetTab, member: string)
    requires ValOk(SetVal(t)) && Clean(SetVal(t))
    ensures var (t', ok) := SetRem(t, member);
            var faithful := SetRuns.Faithful(t, SetRuns.Rem(member));
            && (ok <==> member in Keys(t.slots))
            && (Keys(t'.slots) == Keys(t.slots) - {member} <==> faithful)
            && (faithful ==> Clean(SetVal(t')) && (t'.used == 0 <==> Keys(t'.slots) == {}))
            && (!faithful ==> t'.used > 0)
  {
    SetRuns.ApplyExact(t, SetRuns.Rem(member));
    SetRemProperties(t, member);
    var t' := SetRem(t, member).0;
    if RemDrops(t, member) {
      var p := Find(t.slots, member, 0).value;
      RemKeys(t.slots, p, member);
      DropsSome(t.slots[p := Deleted], NextPrimeOf(|t.slots| / 2));
    } else {
      KeysCounted(t'.slots);
      assert |Keys(t'.slots)| == 0 <==> Keys(t'.slots) == {};
    }
  }

  /** There was something to drop. */
  lemma DropsSome(slots: SetSlots, size: nat)
    requires size > 0 && SetRehashDrops(slots, size)
    ensures |LivePositions(slots)| > 0
  {
    var i: nat :| SetDropped(slots, size, i);
    assert i in LivePositions(slots);
  }

  /** The operation reads nothing it must not, and what it works on is valid and clean. */
  ghost predicate Comparable(item: Option<Val>, prim: Prim) {
    Defined(item, prim) && (item.Some? ==> ValOk(item.value)) && CleanFor(item, prim)
  }

  lemma HashEffectMeans(item: Option<Val>, prim: Prim)
    requires Comparable(item, prim) && (prim.HSet? || prim.HDel?)
    ensures MeansExactly(item, prim)
  {
    hide Put, Delete, PutLoses, DeleteLoses, Valid;
    if prim.HSet? && item.None? {
      FreshHashOk(prim.field, prim.value);
    } else if prim.HSet? {
      HSetMeans(item.value.fields, prim.field, prim.value);
    } else if item.Some? {
      HDelMeans(item.value.fields, prim.field);
    }
  }

  lemma AddEffectMeans(item: Option<Val>, member: string)
    requires Comparable(item, SAdd(member))
    ensures MeansExactly(item, SAdd(member))
  {
    hide SetAdd, SetRuns.Faithful, SetValid, UniqueKeys, LivePositions, Counted, Keys;
    if item.None? {
      FreshSetOk(member);
      var none: set<string> := {};
      assert none + {member} == {member};
    } else {
      SAddMeans(item.value.members, member);
    }
  }

  lemma RemEffectMeans(item: Option<Val>, member: string)
    requires Comparable(item, SRem(member))
    ensures MeansExactly(item, SRem(member))
  {
    hide SetRem, SetRuns.Faithful, SetValid, UniqueKeys, LivePositions, Counted, Keys;
    if item.Some? {
      SRemMeans(item.value.members, member);
    }
  }

  lemma PushEffectMeans(item: Option<Val>, value: string, left: bool)
    requires Comparable(item, Push(value, left))
    ensures MeansExactly(item, Push(value, left))
  {
    hide Valid, SetValid;
    var before: seq<string> := if item.Some? then item.value.items else [];
    assert [value] + [] == [] + [value] == [value];
    assert Pushed(before, value, left) == if left then [value] + before else before + [value];
  }

  lemma PopEffectMeans(item: Option<Val>, left: bool)
    requires Comparable(item, Pop(left))
    ensures MeansExactly(item, Pop(left))
  {
    hide Valid, SetValid;
  }

  lemma LSetEffectMeans(item: Option<Val>, id: int, value: string)
    requires Comparable(item, LSet(id, value))
    ensures MeansExactly(item, LSet(id, value))
  {
    hide Valid, SetValid, ListSet;
    if item.Some? {
      SetIsSplice(item.value.items, id, value);
    }
  }

  lemma SetIsSplice(items: seq<string>, id: int, value: string)
    ensures ListSet(items, id, value) ==
            if 0 < |items| && id < 0 then ([value] + items[1..], true)
            else if 0 <= id < |items| then (items[..id] + [value] + items[id + 1..], true)
            else (items, false)
  {
    if 0 < |items| && id < 0 {
      assert items[0 := value] == [value] + items[1..];
    } else if 0 <= id < |items| {
      assert items[id := value] == items[..id] + [value] + items[id + 1..];
    }
  }

  lemma OtherEffectMeans(item: Option<Val>, prim: Prim)
    requires Comparable(item, prim) && (prim.SetStr? || prim.Del? || prim.LRem?)
    ensures MeansExactly(item, prim)
  {
    hide Valid, SetValid;
  }

  /**
   The operation is the operation on the meaning of the item, with the same answer, exactly when it is
   faithful, and then what it writes is clean if the item was. An unfaithful one writes an item where
   the operation on meanings writes another or removes it.
   */
  ghost predicate MeansExactly(item: Option<Val>, prim: Prim)
    requires Comparable(item, prim)
  {
    && Matches(ItemMeaning(item), prim)
    && var ((e, answer), right) := (EffectOf(item, prim), MeaningEffectOf(ItemMeaning(item), prim));
       && ((EffectMeaning(e), answer) == right <==> InnerFaithful(item, prim))
       && (InnerFaithful(item, prim) && e.Write? && (item.Some? ==> Clean(item.value)) ==> Clean(e.v))
       && (!InnerFaithful(item, prim) ==> item.Some? && e.Write? && !right.0.AKeep?)
  }

  lemma EffectMeans(item: Option<Val>, prim: Prim)
    requires Comparable(item, prim)
    ensures MeansExactly(item, prim)
  {
    hide Comparable, MeansExactly;
    match prim
    case HSet(_, _) => HashEffectMeans(item, prim);
    case HDel(_) => HashEffectMeans(item, prim);
    case SAdd(member) => AddEffectMeans(item, member);
    case SRem(member) => RemEffectMeans(item, member);
    case Push(value, left) => PushEffectMeans(item, value, left);
    case Pop(left) => PopEffectMeans(item, left);
    case LSet(id, value) => LSetEffectMeans(item, id, value);
    case _ => OtherEffectMeans(item, prim);
  }

  // ----- the store

  ghost function Meanings(m: map<string, Val>): (r: map<string, Meaning>)
    ensures r.Keys == m.Keys
  {
    map key | key in m :: MeaningOf(m[key])
  }

  ghost function View(st: Store): (m: map<string, Meaning>)
    ensures m.Keys == Contents(st.slots).Keys
  {
    Meanings(Contents(st.slots))
  }

  /** The item under the key, if any, is clean. */
  ghost predicate CleanAt(st: Store, key: string) {
    key in Contents(st.slots) ==> Clean(Contents(st.slots)[key])
  }

  ghost function ViewItem(m: map<string, Meaning>, key: string): Option<Meaning> {
    if key in m then Some(m[key]) else None
  }

  ghost function ViewEffect(m: map<string, Meaning>, key: string, e: MeaningEffect): map<string, Meaning> {
    match e
    case AKeep => m
    case AWrite(v) => m[key := v]
    case ARemove => m - {key}
  }

  /** The operation drops no key of the store, and none of the item it works on. */
  ghost predicate StepFaithful(st: Store, key: string, prim: Prim) {
    && StoreInv(st)
    && Defined(Get(st, key), prim)
    && !DoLoses(st, key, prim)
    && (Get(st, key).Some? ==> ValOk(Get(st, key).value))
    && InnerFaithful(Get(st, key), prim)
  }

  lemma ViewOfEffect(m: map<string, Val>, key: string, e: Effect)
    ensures Meanings(MapEffect(m, key, e)) == ViewEffect(Meanings(m), key, EffectMeaning(e))
  {
  }

  lemma MeaningsOfPart(m: map<string, Val>, n: map<string, Val>)
    requires SubMap(m, n)
    ensures Meanings(m) == Meanings(n) <==> m == n
  {
    if Meanings(m) == Meanings(n) {
      assert m.Keys == n.Keys;
    }
  }

  lemma WriteDetermined(m: map<string, Meaning>, key: string, v: Meaning, e: MeaningEffect)
    requires !e.AKeep? && ViewEffect(m, key, AWrite(v)) == ViewEffect(m, key, e)
    ensures e == AWrite(v)
  {
    assert key in ViewEffect(m, key, e) && ViewEffect(m, key, e)[key] == v;
  }

  lemma ItemOfView(st: Store, key: string)
    requires StoreInv(st)
    ensures Get(st, key).Some? <==> key in Contents(st.slots)
    ensures Get(st, key).Some? ==> ValOk(Get(st, key).value) && Contents(st.slots)[key] == Get(st, key).value
    ensures ViewItem(View(st), key) == ItemMeaning(Get(st, key))
  {
    GetValue(st, key);
  }

  /** An operation on the store is the operation on its meaning, answer and effect, if and only if it is faithful. */
  lemma DoMeans(st: Store, key: string, prim: Prim)
    requires StoreInv(st) && Defined(Get(st, key), prim) && CleanFor(Get(st, key), prim)
    ensures Matches(ViewItem(View(st), key), prim)
    ensures var ((st', answer), (e, right)) := (Do(st, key, prim), MeaningEffectOf(ViewItem(View(st), key), prim));
            View(st') == ViewEffect(View(st), key, e) && answer == right <==> StepFaithful(st, key, prim)
  {
    hide EffectOf, MeaningEffectOf, Matches, InnerFaithful, Valid, CarryLoses, Carry, ValOk, Clean, CleanFor, Defined,
         Get, Meanings, DoLoses, StoreInv, KindsKept;
    ItemOfView(st, key);
    var item, m, m' := Get(st, key), Contents(st.slots), Contents(Do(st, key, prim).0.slots);
    EffectMeans(item, prim);
    var e, right := EffectOf(item, prim).0, MeaningEffectOf(ItemMeaning(item), prim);
    DoProperties(st, key, prim);
    ViewOfEffect(m, key, e);
    MeaningsOfPart(m', MapEffect(m, key, e));
    if !InnerFaithful(item, prim) {
      WriteLosesNothing(st, key, prim);
      if ViewEffect(Meanings(m), key, EffectMeaning(e)) == ViewEffect(Meanings(m), key, right.0) {
        WriteDetermined(Meanings(m), key, MeaningOf(e.v), right.0);
      }
    }
  }

  /** A faithful operation leaves clean every item that was. */
  lemma CleanStays(st: Store, key: string, prim: Prim, other: string)
    requires CleanFor(Get(st, key), prim) && StepFaithful(st, key, prim) && CleanAt(st, other)
    ensures StoreInv(Do(st, key, prim).0) && CleanAt(Do(st, key, prim).0, other)
  {
    hide EffectOf, Matches, InnerFaithful, Valid, CarryLoses, Carry, ValOk, Clean, Defined, Get, KindsKept;
    ItemOfView(st, key);
    EffectMeans(Get(st, key), prim);
    DoProperties(st, key, prim);
  }

  // ----- runs

  ghost predicate FaithfulRun(st: Store, steps: seq<Step>)
    decreases |steps|
  {
    steps == [] ||
    (StepFaithful(st, steps[0].key, steps[0].prim) && FaithfulRun(Do(st, steps[0].key, steps[0].prim).0, steps[1..]))
  }

  /** What the operations of the run work on is clean at its start. */
  ghost predicate CleanStart(st: Store, steps: seq<Step>) {
    forall i :: 0 <= i < |steps| && KindFor(steps[i].prim).Some? ==> CleanAt(st, steps[i].key)
  }

  /** The run on meanings; it ends early at an operation on an item of another kind. */
  ghost function ViewRun(m: map<string, Meaning>, steps: seq<Step>): (map<string, Meaning>, seq<Answer>)
    decreases |steps|
  {
    if steps == [] || !Matches(ViewItem(m, steps[0].key), steps[0].prim) then (m, [])
    else
      var (e, answer) := MeaningEffectOf(ViewItem(m, steps[0].key), steps[0].prim);
      var (end, answers) := ViewRun(ViewEffect(m, steps[0].key, e), steps[1..]);
      (end, [answer] + answers)
  }

  /** At every step of the run the store means what the run on meanings made of `m`, and the answers agree. */
  ghost predicate Tracks(st: Store, m: map<string, Meaning>, steps: seq<Step>)
    decreases |steps|
  {
    && View(st) == m
    && (steps == [] || StepTracks(st, m, steps))
  }

  ghost predicate StepTracks(st: Store, m: map<string, Meaning>, steps: seq<Step>)
    requires steps != []
    decreases |steps|, 0
  {
    var step := steps[0];
    && Defined(Get(st, step.key), step.prim)
    && Matches(ViewItem(m, step.key), step.prim)
    && var (st', answer) := Do(st, step.key, step.prim);
       var (e, right) := MeaningEffectOf(ViewItem(m, step.key), step.prim);
       answer == right && |steps| > 0 && Tracks(st', ViewEffect(m, step.key, e), steps[1..])
  }

  lemma FaithfulIsDefined(st: Store, key: string, prim: Prim)
    requires StepFaithful(st, key, prim)
    ensures StoreInv(st) && Defined(Get(st, key), prim)
  {
  }

  lemma CleanItem(st: Store, key: string, prim: Prim)
    requires StoreInv(st) && (KindFor(prim).Some? ==> CleanAt(st, key))
    ensures CleanFor(Get(st, key), prim)
  {
    ItemOfView(st, key);
  }

  lemma CleanRest(st: Store, steps: seq<Step>)
    requires steps != [] && CleanStart(st, steps) && StepFaithful(st, steps[0].key, steps[0].prim)
    ensures StoreInv(Do(st, steps[0].key, steps[0].prim).0)
    ensures CleanStart(Do(st, steps[0].key, steps[0].prim).0, steps[1..])
  {
    hide StepFaithful, Do, StoreInv, Get, Clean, CleanAt, CleanFor, KindFor, Defined;
    var key, prim := steps[0].key, steps[0].prim;
    FaithfulIsDefined(st, key, prim);
    CleanItem(st, key, prim);
    var st' := Do(st, key, prim).0;
    FaithfulKeepsInv(st, key, prim);
    forall i | 0 <= i < |steps[1..]| && KindFor(steps[1..][i].prim).Some?
      ensures CleanAt(st', steps[1..][i].key)
    {
      CleanStays(st, key, prim, steps[i + 1].key);
    }
  }

  lemma FaithfulKeepsInv(st: Store, key: string, prim: Prim)
    requires StepFaithful(st, key, prim)
    ensures StoreInv(Do(st, key, prim).0)
  {
    DoProperties(st, key, prim);
  }

  lemma TracksOneStep(st: Store, steps: seq<Step>)
    requires steps != [] && StepTracks(st, View(st), steps)
    ensures var key, prim := steps[0].key, steps[0].prim;
            && Defined(Get(st, key), prim) && Matches(ViewItem(View(st), key), prim)
            && var ((st', answer), (e, right)) := (Do(st, key, prim), MeaningEffectOf(ViewItem(View(st), key), prim));
               View(st') == ViewEffect(View(st), key, e) && answer == right
  {
    hide Do, StoreInv, Get, Defined, Matches, MeaningEffectOf, ViewEffect, View;
  }

  /** A run is step by step the run on meanings if and only if every operation of it is faithful. */
  lemma {:induction false} RunExact(st: Store, steps: seq<Step>)
    requires StoreInv(st) && CleanStart(st, steps)
    ensures Tracks(st, View(st), steps) <==> FaithfulRun(st, steps)
    decreases |steps|
  {
    hide StepFaithful, Do, StoreInv, Get, CleanAt, CleanFor, KindFor, Defined, Matches, MeaningEffectOf, ViewEffect,
         View;
    if steps != [] {
      var key, prim := steps[0].key, steps[0].prim;
      if StepFaithful(st, key, prim) {
        FaithfulIsDefined(st, key, prim);
        CleanItem(st, key, prim);
        DoMeans(st, key, prim);
        CleanRest(st, steps);
        RunExact(Do(st, key, prim).0, steps[1..]);
      } else if StepTracks(st, View(st), steps) {
        TracksOneStep(st, steps);
        CleanItem(st, key, prim);
        DoMeans(st, key, prim);
      }
    }
  }

  /** A run of faithful operations answers, and ends, as the run on meanings does. */
  lemma {:induction false} RunMeans(st: Store, steps: seq<Step>)
    requires StoreInv(st) && CleanStart(st, steps) && FaithfulRun(st, steps)
    ensures Safe(st, steps)
    ensures var (end, answers) := DoAll(st, steps);
            ViewRun(View(st), steps) == (View(end), answers) && StoreInv(end)
    decreases |steps|
  {
    hide StepFaithful, Do, StoreInv, Get, CleanAt, CleanFor, KindFor, Defined, Matches, MeaningEffectOf, ViewEffect,
         View;
    if steps != [] {
      var key, prim := steps[0].key, steps[0].prim;
      FaithfulIsDefined(st, key, prim);
      CleanItem(st, key, prim);
      DoMeans(st, key, prim);
      CleanRest(st, steps);
      RunMeans(Do(st, key, prim).0, steps[1..]);
    }
  }

  /** A new store means the empty map, and every item it will have starts clean. */
  lemma InitMeans(size: int, steps: seq<Step>)
    ensures StoreInv(Init<Val>(size)) && CleanStart(Init(size), steps) && View(Init<Val>(size)) == map[]
  {
    InitStoreInv(size);
    InitValid<Val>(size);
  }

  /** Every run from a new store is, step by step, the run on meanings if and only if its operations are faithful. */
  lemma FreshRunExact(size: int, steps: seq<Step>)
    ensures Tracks(Init(size), map[], steps) <==> FaithfulRun(Init(size), steps)
  {
    InitMeans(size, steps);
    RunExact(Init(size), steps);
  }

  /** A run that is not: the SET of the empty key on a new store, after that of `b`, stores nothing. */
  lemma UnfaithfulRun()
    ensures !Tracks(Init(BASE_SIZE), map[], [Step("b", SetStr("x")), Step("", SetStr("y"))])
  {
    var st: Store, steps := Init(BASE_SIZE), [Step("b", SetStr("x")), Step("", SetStr("y"))];
    InitMeans(BASE_SIZE, steps);
    TableRuns.FirstPutOfB(StrVal("x"));
    TableRuns.LossyRun(StrVal("x"), StrVal("y"));
    DoSetStr(st, "b", "x");
    var st1 := Do(st, "b", SetStr("x")).0;
    FindIffLive(st1.slots, "");
    assert DoLoses(st1, "", SetStr("y"));
    assert steps[1..] == [Step("", SetStr("y"))];
    FreshRunExact(BASE_SIZE, steps);
  }
}
