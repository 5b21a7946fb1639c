/**
 The typed store over whole runs: its invariant, the stability of kinds, the safety of commands
 with many arguments, and the exact condition under which the store is a map.
 */
module StoreProperties {
  import opened Options
  import opened Slots
  import opened Tables
  import opened TableProperties
  import opened Sets
  import ListSpec
  import SetRuns
  import TableRuns
  import opened StoreSpec

  // ----- carrying one item out

  /** Writing or removing the item drops a key: its own or another. */
  ghost predicate CarryLoses(st: Store, key: string, e: Effect)
    requires |st.slots| > 0
  {
    match Find(st.slots, key, 0)
    case None => e.Write? && InsertLoses(st, key, e.v)
    case Some(p) => e.Remove? && DeleteLoses(Replace(st, p, e.last), key)
  }

  lemma ReplaceProperties<V>(t: Tab<V>, key: string, p: nat, v: V)
    requires Valid(t) && Find(t.slots, key, 0) == Some(p)
    ensures Valid(Replace(t, p, v))
    ensures Contents(Replace(t, p, v).slots) == Contents(t.slots)[key := v]
    ensures Replace(t, p, v).used == t.used
    ensures Counted(Replace(t, p, v)) <==> Counted(t)
  {
    OverwriteProperties(t, key, p, v);
  }

  lemma OverwriteFacts<V>(t: Tab<V>, key: string, p: nat, v: V)
    requires Valid(t) && Find(t.slots, key, 0) == Some(p)
    ensures UniqueKeys(t.slots) && t.slots[p].Live? && t.slots[p].key == key
    ensures var after := t.slots[p := Live(key, v)];
            && Contents(after) == Contents(t.slots)[key := v]
            && Keys(after) == Keys(t.slots) && key in Keys(after)
            && Valid(t.(slots := after))
  {
    OverwriteProperties(t, key, p, v);
    assert key in Contents(t.slots) by { FindValue(t.slots, key); }
    assert Contents(t.slots)[key := v].Keys == Contents(t.slots).Keys;
  }

  /** A replaced item is found where it was, and replacing it again is replacing it once. */
  lemma ReplacedIsFound<V>(t: Tab<V>, key: string, p: nat, v: V, w: V)
    requires Valid(t) && Find(t.slots, key, 0) == Some(p)
    ensures Find(Replace(t, p, v).slots, key, 0) == Some(p)
    ensures Replace(Replace(t, p, v), p, w) == Replace(t, p, w)
  {
    ReplaceProperties(t, key, p, v);
    FindValue(Replace(t, p, v).slots, key);
    assert HoldsKey(Replace(t, p, v).slots, p, key);
    assert key in Contents(Replace(t, p, v).slots);
  }

  /**
   The effect on one item: valid again, other items untouched or dropped, and the effect on the map of items exactly
   when none is.
   */
  lemma CarryProperties(st: Store, key: string, e: Effect)
    requires Valid(st) && (e.Remove? ==> Find(st.slots, key, 0).Some?)
    ensures var st', m := Carry(st, key, e), MapEffect(Contents(st.slots), key, e);
            && Valid(st')
            && SubMap(Contents(st'.slots), m)
            && (Contents(st'.slots) == m <==> !CarryLoses(st, key, e))
            && (Counted(st) && !CarryLoses(st, key, e) ==> Counted(st'))
  {
    FindIffLive(st.slots, key);
    match e
    case Keep =>
    case Write(v) =>
      if Find(st.slots, key, 0).None? {
        InsertProperties(st, key, v);
      } else {
        ReplaceProperties(st, key, Find(st.slots, key, 0).value, v);
      }
    case Remove(last) =>
      var p := Find(st.slots, key, 0).value;
      var u := Replace(st, p, last);
      ReplaceProperties(st, key, p, last);
      DeleteProperties(u, key);
      assert Contents(u.slots) - {key} == Contents(st.slots) - {key};
  }

  // ----- one operation

  lemma EffectOk(item: Option<Val>, prim: Prim)
    requires Defined(item, prim) && (item.Some? ==> ValOk(item.value))
    ensures var e := EffectOf(item, prim).0;
            && (e.Write? ==> ValOk(e.v) && (item.Some? ==> KindOf(e.v) == KindOf(item.value)))
            && (e.Write? && KindFor(prim).Some? ==> KindOf(e.v) == KindFor(prim).value)
            && (e.Remove? ==> item.Some?)
  {
    match prim
    case HSet(field, value) =>
      if item.None? {
        FreshHashOk(field, value);
      } else {
        PutProperties(item.value.fields, field, value);
      }
    case HDel(field) =>
      if item.Some? {
        DeleteProperties(item.value.fields, field);
      }
    case SAdd(member) =>
      if item.None? {
        FreshSetOk(member);
      } else {
        SetAddProperties(item.value.members, member);
      }
    case SRem(member) =>
      if item.Some? {
        SetRemProperties(item.value.members, member);
      }
    case _ =>
  }

  ghost predicate DoLoses(st: Store, key: string, prim: Prim)
    requires |st.slots| > 0 && Defined(Get(st, key), prim)
  {
    var e := EffectOf(Get(st, key), prim).0;
    CarryLoses(st, key, e)
  }

  /** A key that is there before and after names the same kind of item. */
  ghost predicate KindsKept(m: map<string, Val>, n: map<string, Val>) {
    forall key :: key in m && key in n ==> KindOf(m[key]) == KindOf(n[key])
  }

  /**
   One operation on a valid store: it stays valid, no kind changes, at most keys are dropped
   beyond the effect on the map of items, and none is exactly under `!DoLoses`.
   */
  lemma DoProperties(st: Store, key: string, prim: Prim)
    requires StoreInv(st) && Defined(Get(st, key), prim)
    ensures var st', m, e := Do(st, key, prim).0, Contents(st.slots), EffectOf(Get(st, key), prim).0;
            && StoreInv(st')
            && SubMap(Contents(st'.slots), MapEffect(m, key, e))
            && (Contents(st'.slots) == MapEffect(m, key, e) <==> !DoLoses(st, key, prim))
            && KindsKept(m, Contents(st'.slots))
            && (Counted(st) && !DoLoses(st, key, prim) ==> Counted(st'))
  {
    hide EffectOf, Carry, CarryLoses, Valid, ValOk, KindOf, Defined;
    GetValue(st, key);
    var item := Get(st, key);
    var e := EffectOf(item, prim).0;
    EffectOk(item, prim);
    CarryProperties(st, key, e);
  }

  /** The operation is defined, leaves `after` and answers `answer`. */
  ghost predicate Does(st: Store, key: string, prim: Prim, after: Store, answer: Answer) {
    Defined(Get(st, key), prim) && (after, answer) == Do(st, key, prim)
  }

  // ----- what one operation makes of the table, by what it finds

  lemma DoSetStr(st: Store, key: string, value: string)
    requires StoreInv(st)
    ensures StoreInv(Do(st, key, SetStr(value)).0)
    ensures Do(st, key, SetStr(value)) ==
            match Find(st.slots, key, 0)
            case None => (Insert(st, key, StrVal(value)), Flag(true))
            case Some(p) =>
              if st.slots[p].value.StrVal? then (Replace(st, p, StrVal(value)), Flag(true)) else (st, Flag(false))
  {
    DoProperties(st, key, SetStr(value));
  }

  lemma DoDel(st: Store, key: string)
    requires StoreInv(st)
    ensures StoreInv(Do(st, key, Del).0)
    ensures Do(st, key, Del) == (Delete(st, key).0, Flag(Delete(st, key).1))
  {
    DoProperties(st, key, Del);
    if Find(st.slots, key, 0).Some? {
      var p := Find(st.slots, key, 0).value;
      assert st.slots[p := Live(st.slots[p].key, st.slots[p].value)] == st.slots;
    }
  }

  lemma DoHSet(st: Store, key: string, field: string, value: string)
    requires StoreInv(st) && Defined(Get(st, key), HSet(field, value))
    ensures StoreInv(Do(st, key, HSet(field, value)).0)
    ensures Do(st, key, HSet(field, value)) ==
            match Find(st.slots, key, 0)
            case None => (Insert(st, key, HashVal(Put(Init(BASE_SIZE), field, value))), Flag(true))
            case Some(p) => (Replace(st, p, HashVal(Put(st.slots[p].value.fields, field, value))), Flag(true))
  {
    DoProperties(st, key, HSet(field, value));
  }

  lemma DoHDel(st: Store, key: string, field: string)
    requires StoreInv(st) && Defined(Get(st, key), HDel(field))
    ensures StoreInv(Do(st, key, HDel(field)).0)
    ensures Do(st, key, HDel(field)) ==
            match Find(st.slots, key, 0)
            case None => (st, Flag(false))
            case Some(p) =>
              var (t, ok) := Delete(st.slots[p].value.fields, field);
              var u := Replace(st, p, HashVal(t));
              (if t.used == 0 then Delete(u, key).0 else u, Flag(ok))
  {
    DoProperties(st, key, HDel(field));
  }

  lemma DoPush(st: Store, key: string, value: string, left: bool)
    requires StoreInv(st) && Defined(Get(st, key), Push(value, left))
    ensures StoreInv(Do(st, key, Push(value, left)).0)
    ensures Do(st, key, Push(value, left)) ==
            match Find(st.slots, key, 0)
            case None => (Insert(st, key, ListVal([value])), Number(1))
            case Some(p) =>
              var items := Pushed(st.slots[p].value.items, value, left);
              (Replace(st, p, ListVal(items)), Number(|items|))
  {
    DoProperties(st, key, Push(value, left));
  }

  lemma DoPop(st: Store, key: string, left: bool)
    requires StoreInv(st) && Defined(Get(st, key), Pop(left))
    ensures StoreInv(Do(st, key, Pop(left)).0)
    ensures Do(st, key, Pop(left)) ==
            match Find(st.slots, key, 0)
            case None => (st, Text(None))
            case Some(p) =>
              var (items, text) := Popped(st.slots[p].value.items, left);
              var u := Replace(st, p, ListVal(items));
              (if items == [] then Delete(u, key).0 else u, Text(Some(text)))
  {
    DoProperties(st, key, Pop(left));
  }

  lemma DoLSet(st: Store, key: string, id: int, value: string)
    requires StoreInv(st) && Defined(Get(st, key), LSet(id, value))
    ensures StoreInv(Do(st, key, LSet(id, value)).0)
    ensures Do(st, key, LSet(id, value)) ==
            match Find(st.slots, key, 0)
            case None => (st, Flag(false))
            case Some(p) =>
              var (items, ok) := ListSet(st.slots[p].value.items, id, value);
              (Replace(st, p, ListVal(items)), Flag(ok))
  {
    DoProperties(st, key, LSet(id, value));
  }

  lemma DoLRem(st: Store, key: string, count: int, value: string)
    requires StoreInv(st) && Defined(Get(st, key), LRem(count, value))
    ensures StoreInv(Do(st, key, LRem(count, value)).0)
    ensures Do(st, key, LRem(count, value)) ==
            match Find(st.slots, key, 0)
            case None => (st, Number(0))
            case Some(p) =>
              var items := ListSpec.Rem(st.slots[p].value.items, count, value);
              var u := Replace(st, p, ListVal(items));
              (if items == [] then Delete(u, key).0 else u,
               Number(ListSpec.RemCount(st.slots[p].value.items, count, value)))
  {
    DoProperties(st, key, LRem(count, value));
  }

  lemma DoSAdd(st: Store, key: string, member: string)
    requires StoreInv(st) && Defined(Get(st, key), SAdd(member))
    ensures StoreInv(Do(st, key, SAdd(member)).0)
    ensures Do(st, key, SAdd(member)) ==
            match Find(st.slots, key, 0)
            case None => (Insert(st, key, SetVal(SetAdd(Init(BASE_SIZE), member).0)), Flag(true))
            case Some(p) =>
              var (t, ok) := SetAdd(st.slots[p].value.members, member);
              (Replace(st, p, SetVal(t)), Flag(ok))
  {
    DoProperties(st, key, SAdd(member));
  }

  lemma DoSRem(st: Store, key: string, member: string)
    requires StoreInv(st) && Defined(Get(st, key), SRem(member))
    ensures StoreInv(Do(st, key, SRem(member)).0)
    ensures Do(st, key, SRem(member)) ==
            match Find(st.slots, key, 0)
            case None => (st, Flag(false))
            case Some(p) =>
              var (t, ok) := SetRem(st.slots[p].value.members, member);
              var u := Replace(st, p, SetVal(t));
              (if t.used == 0 then Delete(u, key).0 else u, Flag(ok))
  {
    DoProperties(st, key, SRem(member));
  }

  // ----- commands with many arguments

  datatype Step = Step(key: string, prim: Prim)

  predicate OfKind(prims: seq<Prim>, kind: Kind) {
    forall i :: 0 <= i < |prims| ==> KindFor(prims[i]) == Some(kind)
  }

  /** The operations of a command on one key. */
  function Steps(key: string, prims: seq<Prim>): (r: seq<Step>)
    ensures |r| == |prims| && forall i :: 0 <= i < |r| ==> r[i] == Step(key, prims[i])
  {
    seq(|prims|, i requires 0 <= i < |prims| => Step(key, prims[i]))
  }

  /** Every operation of the sequence is defined in the store the ones before it leave. */
  ghost predicate Safe(st: Store, steps: seq<Step>)
    decreases |steps|
  {
    steps == [] ||
    (Defined(Get(st, steps[0].key), steps[0].prim) && Safe(Do(st, steps[0].key, steps[0].prim).0, steps[1..]))
  }

  ghost function DoAll(st: Store, steps: seq<Step>): (Store, seq<Answer>)
    requires Safe(st, steps)
    decreases |steps|
  {
    if steps == [] then (st, [])
    else
      var (st1, answer) := Do(st, steps[0].key, steps[0].prim);
      var (st2, answers) := DoAll(st1, steps[1..]);
      (st2, [answer] + answers)
  }

  /** The type check of a command: the key is missing or names an item of this kind. */
  ghost predicate Allows(st: Store, key: string, kind: Kind) {
    match Get(st, key)
    case None => true
    case Some(v) => KindOf(v) == kind
  }

  /** The type check, on the finite map of items. */
  lemma AllowsMeans(st: Store, key: string, kind: Kind)
    requires Valid(st)
    ensures Allows(st, key, kind) <==>
            (key in Contents(st.slots) ==>
               match Contents(st.slots)[key]
               case StrVal(_) => kind == StrKind
               case HashVal(_) => kind == HashKind
               case ListVal(_) => kind == ListKind
               case SetVal(_) => kind == SetKind)
  {
    GetValue(st, key);
  }

  ghost predicate Untyped(steps: seq<Step>) {
    forall i :: 0 <= i < |steps| ==> KindFor(steps[i].prim) == None
  }

  ghost predicate OnKey(steps: seq<Step>, key: string, kind: Kind) {
    forall i :: 0 <= i < |steps| ==> steps[i].key == key && KindFor(steps[i].prim) == Some(kind)
  }

  lemma AllowedIsDefined(st: Store, key: string, kind: Kind, prim: Prim)
    requires StoreInv(st) && Allows(st, key, kind) && KindFor(prim) == Some(kind)
    ensures Defined(Get(st, key), prim)
  {
    GetValue(st, key);
  }

  /** The type check survives an operation of that kind, also one that empties and removes the key. */
  lemma AllowedStays(st: Store, key: string, kind: Kind, prim: Prim)
    requires StoreInv(st) && Allows(st, key, kind) && KindFor(prim) == Some(kind)
    requires Defined(Get(st, key), prim)
    ensures Allows(Do(st, key, prim).0, key, kind)
  {
    var st' := Do(st, key, prim).0;
    DoProperties(st, key, prim);
    GetValue(st, key);
    GetValue(st', key);
    EffectOk(Get(st, key), prim);
  }

  /**
   A command checks the type of its key once and then runs one operation per argument: none of
   them reads what it must not, even after the key was emptied and removed on the way, and the
   store is valid afterwards.
   */
  lemma {:induction false} CommandSafe(st: Store, steps: seq<Step>, key: string, kind: Kind)
    requires StoreInv(st) && Allows(st, key, kind) && OnKey(steps, key, kind)
    ensures Safe(st, steps) && StoreInv(DoAll(st, steps).0)
    ensures KindsKept(Contents(st.slots), Contents(DoAll(st, steps).0.slots))
    decreases |steps|
  {
    if steps != [] {
      assert steps[0].key == key;
      AllowedIsDefined(st, key, kind, steps[0].prim);
      AllowedStays(st, key, kind, steps[0].prim);
      DoProperties(st, key, steps[0].prim);
      var st1 := Do(st, key, steps[0].prim).0;
      CommandSafe(st1, steps[1..], key, kind);
      KindsKeptOnKey(st, st1, DoAll(st1, steps[1..]).0, key, kind, steps);
    }
  }

  /** Only `key` can reappear, and only as an item of its kind. */
  lemma KindsKeptOnKey(st: Store, st1: Store, st2: Store, key: string, kind: Kind, steps: seq<Step>)
    requires StoreInv(st) && Allows(st, key, kind) && steps != [] && OnKey(steps, key, kind) && Safe(st, steps)
    requires st1 == Do(st, key, steps[0].prim).0 && st2 == DoAll(st1, steps[1..]).0 && StoreInv(st2)
    requires KindsKept(Contents(st.slots), Contents(st1.slots)) && KindsKept(Contents(st1.slots), Contents(st2.slots))
    requires SubMap(Contents(st1.slots), MapEffect(Contents(st.slots), key, EffectOf(Get(st, key), steps[0].prim).0))
    ensures KindsKept(Contents(st.slots), Contents(st2.slots))
  {
    assert StoreInv(st1) by { DoProperties(st, key, steps[0].prim); }
    AllowedStays(st, key, kind, steps[0].prim);
    KeysFromSteps(st1, steps[1..], key, kind);
    var m, m1, m2 := Contents(st.slots), Contents(st1.slots), Contents(st2.slots);
    GetValue(st, key);
    GetValue(st2, key);
    forall k | k in m && k in m2
      ensures KindOf(m[k]) == KindOf(m2[k])
    {
      if k != key {
        assert k in m1;
      }
    }
  }

  /** Operations on one key bring no other key in and leave that one of their kind. */
  lemma {:induction false} KeysFromSteps(st: Store, steps: seq<Step>, key: string, kind: Kind)
    requires StoreInv(st) && Allows(st, key, kind) && OnKey(steps, key, kind) && Safe(st, steps)
    ensures Contents(DoAll(st, steps).0.slots).Keys <= Contents(st.slots).Keys + {key}
    ensures Allows(DoAll(st, steps).0, key, kind)
    decreases |steps|
  {
    if steps != [] {
      assert steps[0].key == key;
      var st1 := Do(st, key, steps[0].prim).0;
      DoProperties(st, key, steps[0].prim);
      AllowedStays(st, key, kind, steps[0].prim);
      KeysFromSteps(st1, steps[1..], key, kind);
    }
  }

  /** SET, MSET and DEL take keys of any kind. */
  lemma {:induction false} UntypedSafe(st: Store, steps: seq<Step>)
    requires StoreInv(st) && Untyped(steps)
    ensures Safe(st, steps) && StoreInv(DoAll(st, steps).0)
    decreases |steps|
  {
    if steps != [] {
      assert KindFor(steps[0].prim) == None;
      DoProperties(st, steps[0].key, steps[0].prim);
      UntypedSafe(Do(st, steps[0].key, steps[0].prim).0, steps[1..]);
    }
  }

  lemma InitStoreInv(size: int)
    ensures StoreInv(Init<Val>(size)) && Counted(Init<Val>(size))
  {
    InitValid<Val>(size);
  }

  // ----- runs of commands

  /** The operations of one command, after its type check if it has one. */
  datatype Command = Typed(key: string, kind: Kind, prims: seq<Prim>) | Free(steps: seq<Step>)

  ghost predicate WellFormed(c: Command) {
    match c
    case Typed(key, kind, prims) => OfKind(prims, kind)
    case Free(steps) => Untyped(steps)
  }

  function StepsOf(c: Command): (r: seq<Step>) {
    match c
    case Typed(key, _, prims) => Steps(key, prims)
    case Free(steps) => steps
  }

  /** A command on a key of another kind answers an error and changes nothing. */
  ghost predicate Rejected(st: Store, c: Command) {
    c.Typed? && !Allows(st, c.key, c.kind)
  }

  lemma CommandDefined(st: Store, c: Command)
    requires StoreInv(st) && WellFormed(c)
    ensures !Rejected(st, c) ==> Safe(st, StepsOf(c)) && StoreInv(DoAll(st, StepsOf(c)).0)
  {
    if !Rejected(st, c) {
      match c
      case Typed(key, kind, _) => CommandSafe(st, StepsOf(c), key, kind);
      case Free(steps) => UntypedSafe(st, steps);
    }
  }

  /** The store after one command. */
  ghost function RunCommand(st: Store, c: Command): Store
    requires StoreInv(st) && WellFormed(c)
  {
    CommandDefined(st, c);
    if Rejected(st, c) then st else DoAll(st, StepsOf(c)).0
  }

  ghost function RunCommands(st: Store, cs: seq<Command>): Store
    requires StoreInv(st) && forall i :: 0 <= i < |cs| ==> WellFormed(cs[i])
    decreases |cs|
  {
    if cs == [] then st
    else
      CommandDefined(st, cs[0]);
      RunCommands(RunCommand(st, cs[0]), cs[1..])
  }

  /** Over every run of commands no list is empty, no hash or set has a zero counter, and no operation is undefined. */
  lemma {:induction false} EveryRunKeepsInv(st: Store, cs: seq<Command>)
    requires StoreInv(st) && forall i :: 0 <= i < |cs| ==> WellFormed(cs[i])
    ensures StoreInv(RunCommands(st, cs))
    decreases |cs|
  {
    if cs != [] {
      CommandDefined(st, cs[0]);
      EveryRunKeepsInv(RunCommand(st, cs[0]), cs[1..]);
    }
  }

  // ----- kinds over whole runs

  /** The key names an item before the first operation and after every one. */
  ghost predicate NeverGone(st: Store, steps: seq<Step>, key: string)
    requires Safe(st, steps)
    decreases |steps|
  {
    && key in Contents(st.slots)
    && (steps == [] || NeverGone(Do(st, steps[0].key, steps[0].prim).0, steps[1..], key))
  }

  /** A key that is never gone in between keeps the kind of its item, whatever the operations are. */
  lemma {:induction false} KindStays(st: Store, steps: seq<Step>, key: string)
    requires StoreInv(st) && Safe(st, steps) && NeverGone(st, steps, key)
    ensures var after := DoAll(st, steps).0;
            key in Contents(after.slots) && KindOf(Contents(after.slots)[key]) == KindOf(Contents(st.slots)[key])
    decreases |steps|
  {
    if steps != [] {
      DoProperties(st, steps[0].key, steps[0].prim);
      KindStays(Do(st, steps[0].key, steps[0].prim).0, steps[1..], key);
    }
  }

  ghost predicate PresentThroughout(st: Store, cs: seq<Command>, key: string)
    requires StoreInv(st) && forall i :: 0 <= i < |cs| ==> WellFormed(cs[i])
    decreases |cs|
  {
    && key in Contents(st.slots)
    && (cs == [] ||
        (CommandDefined(st, cs[0]);
         && (Rejected(st, cs[0]) || NeverGone(st, StepsOf(cs[0]), key))
         && PresentThroughout(RunCommand(st, cs[0]), cs[1..], key)))
  }

  /** Over every run of commands the kind of a key only changes through its deletion. */
  lemma {:induction false} KindNeverChanges(st: Store, cs: seq<Command>, key: string)
    requires StoreInv(st) && forall i :: 0 <= i < |cs| ==> WellFormed(cs[i])
    requires PresentThroughout(st, cs, key)
    ensures var after := RunCommands(st, cs);
            key in Contents(after.slots) && KindOf(Contents(after.slots)[key]) == KindOf(Contents(st.slots)[key])
    decreases |cs|
  {
    if cs != [] {
      CommandDefined(st, cs[0]);
      if !Rejected(st, cs[0]) {
        KindStays(st, StepsOf(cs[0]), key);
      }
      KindNeverChanges(RunCommand(st, cs[0]), cs[1..], key);
    }
  }

  // ----- hashes and their runs

  type HashOp = TableRuns.Op<string>

  /**
   The operations on the hash under `key` once one more operation was done: a HSET on a missing key
   starts a new hash, and with it a new list.
   */
  ghost function NextOps(st: Store, at: string, prim: Prim, key: string, sofar: seq<HashOp>): seq<HashOp> {
    if at != key then sofar
    else
      match prim
      case HSet(field, value) =>
        (if Get(st, key).None? then [] else sofar) + [TableRuns.PutOp(field, value)]
      case HDel(field) => sofar + [TableRuns.DelOp(field)]
      case _ => sofar
  }

  /** The HSETs and HDELs on `key` among `steps` since it was last created, after those of `sofar`. */
  ghost function HashOps(st: Store, steps: seq<Step>, key: string, sofar: seq<HashOp>): seq<HashOp>
    requires Safe(st, steps)
    decreases |steps|
  {
    if steps == [] then sofar
    else
      var at, prim := steps[0].key, steps[0].prim;
      HashOps(Do(st, at, prim).0, steps[1..], key, NextOps(st, at, prim, key, sofar))
  }

  /** The hash under the key, if there is one, is what these operations make of a new table. */
  ghost predicate BuiltBy(st: Store, key: string, ops: seq<HashOp>) {
    key in Contents(st.slots) && Contents(st.slots)[key].HashVal? ==>
      Contents(st.slots)[key].fields == TableRuns.Run(Init(BASE_SIZE), ops)
  }

  lemma EffectBuilds(st: Store, key: string, prim: Prim, sofar: seq<HashOp>)
    requires StoreInv(st) && Defined(Get(st, key), prim) && BuiltBy(st, key, sofar)
    ensures var e := EffectOf(Get(st, key), prim).0;
            e.Write? && e.v.HashVal? ==>
              e.v.fields == TableRuns.Run(Init(BASE_SIZE), NextOps(st, key, prim, key, sofar))
  {
    GetValue(st, key);
    match prim
    case HSet(field, value) =>
      TableRuns.RunOneMore(Init(BASE_SIZE), if Get(st, key).None? then [] else sofar, TableRuns.PutOp(field, value));
    case HDel(field) => TableRuns.RunOneMore(Init(BASE_SIZE), sofar, TableRuns.DelOp(field));
    case _ =>
  }

  lemma BuiltStays(st: Store, at: string, prim: Prim, key: string, sofar: seq<HashOp>)
    requires StoreInv(st) && Defined(Get(st, at), prim) && BuiltBy(st, key, sofar)
    ensures BuiltBy(Do(st, at, prim).0, key, NextOps(st, at, prim, key, sofar))
  {
    hide Do, EffectOf, Defined, NextOps, Get;
    DoProperties(st, at, prim);
    GetValue(st, at);
    if at == key {
      EffectBuilds(st, key, prim, sofar);
      if EffectOf(Get(st, key), prim).0.Keep? {
        KeptIsBuilt(st, key, prim, sofar);
      }
    } else {
      OtherOps(st, at, prim, key, sofar);
    }
  }

  lemma OtherOps(st: Store, at: string, prim: Prim, key: string, sofar: seq<HashOp>)
    requires at != key
    ensures NextOps(st, at, prim, key, sofar) == sofar
  {
  }

  /** An operation that leaves a hash as it is, is none on its fields. */
  lemma KeptIsBuilt(st: Store, key: string, prim: Prim, sofar: seq<HashOp>)
    requires StoreInv(st) && Defined(Get(st, key), prim) && EffectOf(Get(st, key), prim).0.Keep?
    ensures Get(st, key).Some? ==> NextOps(st, key, prim, key, sofar) == sofar
  {
  }

  lemma {:induction false} HashIsBuilt(st: Store, steps: seq<Step>, key: string, sofar: seq<HashOp>)
    requires StoreInv(st) && Safe(st, steps) && BuiltBy(st, key, sofar)
    ensures BuiltBy(DoAll(st, steps).0, key, HashOps(st, steps, key, sofar))
    decreases |steps|
  {
    if steps != [] {
      var at, prim := steps[0].key, steps[0].prim;
      DoProperties(st, at, prim);
      BuiltStays(st, at, prim, key, sofar);
      HashIsBuilt(Do(st, at, prim).0, steps[1..], key, NextOps(st, at, prim, key, sofar));
    }
  }

  /**
   After every run of operations on a new store the hash under a key is what the HSETs and HDELs on it
   since it was last created make of a new table, and its counter is right if and only if no rehash among
   these drops a field.
   */
  lemma StoredCounterExact(size: int, steps: seq<Step>, key: string)
    requires Safe(Init(size), steps)
    ensures var m := Contents(DoAll(Init(size), steps).0.slots);
            var ops := HashOps(Init(size), steps, key, []);
            key in m && m[key].HashVal? ==>
              && m[key].fields == TableRuns.Run(Init(BASE_SIZE), ops)
              && (Counted(m[key].fields) <==> TableRuns.NoRehashDrops(Init(BASE_SIZE), ops))
  {
    InitStoreInv(size);
    InitValid<Val>(size);
    HashIsBuilt(Init(size), steps, key, []);
    TableRuns.FreshCounterExact(BASE_SIZE, HashOps(Init(size), steps, key, []), []);
  }

  // ----- wrong counters

  /** The counter of a hash or set is the number of its live slots. */
  ghost predicate CountRight(v: Val) {
    match v
    case HashVal(t) => Counted(t)
    case SetVal(t) => Counted(t)
    case _ => true
  }

  /** The hash or set under the key has a counter that is too high; HGETALL answers nothing for such a hash. */
  ghost predicate Miscounted(st: Store, key: string) {
    key in Contents(st.slots) && !CountRight(Contents(st.slots)[key])
  }

  lemma EffectMiscounts(item: Option<Val>, prim: Prim)
    requires Defined(item, prim) && item.Some? && ValOk(item.value) && !CountRight(item.value)
    ensures var e := EffectOf(item, prim).0;
            && (e.Write? ==> !CountRight(e.v))
            && (prim.HDel? || prim.SRem? ==> e.Write?)
  {
    hide Put, Delete, SetAdd, SetRem, Counted;
    match prim
    case HSet(field, value) => PutProperties(item.value.fields, field, value);
    case HDel(field) => DeleteLeavesCount(item.value.fields, field);
    case SAdd(member) => SetAddProperties(item.value.members, member);
    case SRem(member) => SetRuns.RemLeavesCount(item.value.members, member);
    case _ =>
  }

  lemma MiscountKept(st: Store, at: string, prim: Prim, key: string)
    requires StoreInv(st) && Defined(Get(st, at), prim) && Miscounted(st, key)
    requires key in Contents(Do(st, at, prim).0.slots)
    ensures Miscounted(Do(st, at, prim).0, key)
  {
    hide EffectOf, Do, Defined, CountRight, Get;
    DoProperties(st, at, prim);
    GetValue(st, at);
    if at == key {
      EffectMiscounts(Get(st, at), prim);
    }
  }

  /** A wrong counter never recovers: it stays wrong as long as its key is not gone, whatever the operations are. */
  lemma {:induction false} MiscountStays(st: Store, steps: seq<Step>, key: string)
    requires StoreInv(st) && Safe(st, steps) && NeverGone(st, steps, key) && Miscounted(st, key)
    ensures Miscounted(DoAll(st, steps).0, key)
    decreases |steps|
  {
    if steps != [] {
      DoProperties(st, steps[0].key, steps[0].prim);
      MiscountKept(st, steps[0].key, steps[0].prim, key);
      MiscountStays(Do(st, steps[0].key, steps[0].prim).0, steps[1..], key);
    }
  }

  /** Writing an item that is there drops no key of the store. */
  lemma WriteLosesNothing(st: Store, key: string, prim: Prim)
    requires StoreInv(st) && Defined(Get(st, key), prim)
    requires Get(st, key).Some? && EffectOf(Get(st, key), prim).0.Write?
    ensures !DoLoses(st, key, prim)
  {
  }

  /** An item that is there and written is found as written. */
  lemma WrittenIsFound(st: Store, key: string, prim: Prim)
    requires StoreInv(st) && Defined(Get(st, key), prim)
    requires Get(st, key).Some? && EffectOf(Get(st, key), prim).0.Write?
    ensures StoreInv(Do(st, key, prim).0)
    ensures Get(Do(st, key, prim).0, key) == Some(EffectOf(Get(st, key), prim).0.v)
  {
    hide EffectOf, Defined, Do, DoLoses, StoreInv;
    DoProperties(st, key, prim);
    WriteLosesNothing(st, key, prim);
    StoreIsValid(Do(st, key, prim).0);
    GetValue(Do(st, key, prim).0, key);
  }

  lemma StoreIsValid(st: Store)
    requires StoreInv(st)
    ensures Valid(st)
  {
  }

  /** The first item of a new store is found as written. */
  lemma CreatedIsFound(size: int, key: string, prim: Prim)
    requires Defined(None, prim) && EffectOf(None, prim).0.Write?
    ensures Get(Init<Val>(size), key) == None
    ensures StoreInv(Do(Init(size), key, prim).0)
    ensures Get(Do(Init(size), key, prim).0, key) == Some(EffectOf(None, prim).0.v)
  {
    hide EffectOf, Defined, InsertLosesKey, Insert;
    var v := EffectOf(None, prim).0.v;
    InitStoreInv(size);
    InitValid<Val>(size);
    NothingInFresh<Val>(size, key, v);
    DoProperties(Init(size), key, prim);
    InsertedIsFound(Init(size), key, v);
  }

  /** Neither HDEL nor SREM removes such a hash or set, even when it takes out the last field or member. */
  lemma {:induction false} RemovalsLeaveMiscounted(st: Store, key: string, kind: Kind, steps: seq<Step>)
    requires StoreInv(st) && Miscounted(st, key) && Allows(st, key, kind) && OnKey(steps, key, kind)
    requires forall i :: 0 <= i < |steps| ==> steps[i].prim.HDel? || steps[i].prim.SRem?
    ensures Safe(st, steps) && Miscounted(DoAll(st, steps).0, key)
    decreases |steps|
  {
    hide EffectOf, CountRight;
    if steps != [] {
      var prim := steps[0].prim;
      assert steps[0].key == key && KindFor(prim) == Some(kind);
      AllowedIsDefined(st, key, kind, prim);
      GetValue(st, key);
      EffectMiscounts(Get(st, key), prim);
      WrittenIsFound(st, key, prim);
      AllowedStays(st, key, kind, prim);
      var st1 := Do(st, key, prim).0;
      GetValue(st1, key);
      MiscountKept(st, key, prim, key);
      RemovalsLeaveMiscounted(st1, key, kind, steps[1..]);
    }
  }

  // ----- wrong counters are reached

  function EmptyThenG(key: string): seq<Step> {
    [Step(key, HSet("", "x")), Step(key, HSet("g", "y"))]
  }

  lemma OneStep(st: Store, a: Step)
    requires Defined(Get(st, a.key), a.prim)
    ensures Safe(st, [a]) && DoAll(st, [a]).0 == Do(st, a.key, a.prim).0
  {
    hide Do, Get, Defined;
    assert [a][1..] == [];
  }

  lemma TwoSteps(st: Store, a: Step, b: Step)
    requires Defined(Get(st, a.key), a.prim) && Defined(Get(Do(st, a.key, a.prim).0, b.key), b.prim)
    ensures Safe(st, [a, b]) && DoAll(st, [a, b]).0 == Do(Do(st, a.key, a.prim).0, b.key, b.prim).0
  {
    hide Do, Get, Defined;
    var st1 := Do(st, a.key, a.prim).0;
    OneStep(st1, b);
    assert [a, b][1..] == [b];
  }

  lemma HSetWrites(t: Tab<string>, field: string, value: string)
    ensures Defined(Some(HashVal(t)), HSet(field, value)) && Defined(None, HSet(field, value))
    ensures EffectOf(Some(HashVal(t)), HSet(field, value)).0 == Write(HashVal(Put(t, field, value)))
    ensures EffectOf(None, HSet(field, value)).0 == Write(HashVal(FreshHash(field, value)))
  {
  }

  lemma HDelWrites(t: Tab<string>, field: string)
    ensures Defined(Some(HashVal(t)), HDel(field))
    ensures Delete(t, field).0.used != 0 ==>
              EffectOf(Some(HashVal(t)), HDel(field)).0 == Write(HashVal(Delete(t, field).0))
  {
  }

  /** On a new store, HSET of the empty field and then of "g" leaves a hash with a counter that is too high. */
  lemma MiscountedHashReached(size: int, key: string)
    ensures Safe(Init(size), EmptyThenG(key))
    ensures var st := DoAll(Init(size), EmptyThenG(key)).0;
            && StoreInv(st) && Miscounted(st, key)
            && Get(st, key) == Some(HashVal(Put(Put(Init(BASE_SIZE), "", "x"), "g", "y")))
  {
    hide Do, Defined, EffectOf, Get, StoreInv, Put, Counted, Safe, DoAll;
    var first, second := HSet("", "x"), HSet("g", "y");
    HSetWrites(FreshHash("", "x"), "", "x");
    HSetWrites(FreshHash("", "x"), "g", "y");
    CreatedIsFound(size, key, first);
    var st1 := Do(Init(size), key, first).0;
    WrittenIsFound(st1, key, second);
    var st := Do(st1, key, second).0;
    TwoSteps(Init(size), Step(key, first), Step(key, second));
    TableRuns.CounterTooHigh();
    StoreIsValid(st);
    GetValue(st, key);
  }

  /** HDEL of its one field leaves that hash under its key, without a field. */
  lemma EmptyHashReached(size: int, key: string)
    ensures Safe(Init(size), EmptyThenG(key))
    ensures var st := DoAll(Init(size), EmptyThenG(key)).0;
            && Defined(Get(st, key), HDel("g"))
            && var item := Get(Do(st, key, HDel("g")).0, key);
               item.Some? && item.value.HashVal? && Contents(item.value.fields.slots) == map[]
  {
    hide Do, Defined, EffectOf, Get, StoreInv, Put, Delete, Safe, DoAll, Contents;
    MiscountedHashReached(size, key);
    TableRuns.EmptyButCounted();
    HDelWrites(Put(Put(Init(BASE_SIZE), "", "x"), "g", "y"), "g");
    WrittenIsFound(DoAll(Init(size), EmptyThenG(key)).0, key, HDel("g"));
  }

  function EmptyThenGMembers(key: string): seq<Step> {
    [Step(key, SAdd("")), Step(key, SAdd("g"))]
  }

  lemma SAddWrites(t: SetTab, member: string)
    ensures Defined(Some(SetVal(t)), SAdd(member)) && Defined(None, SAdd(member))
    ensures EffectOf(Some(SetVal(t)), SAdd(member)).0 == Write(SetVal(SetAdd(t, member).0))
    ensures EffectOf(None, SAdd(member)).0 == Write(SetVal(FreshSet(member)))
  {
  }

  lemma SRemWrites(t: SetTab, member: string)
    ensures Defined(Some(SetVal(t)), SRem(member))
    ensures SetRem(t, member).0.used != 0 ==>
              EffectOf(Some(SetVal(t)), SRem(member)).0 == Write(SetVal(SetRem(t, member).0))
  {
  }

  /** The same for a set: SADD of the empty member and then of "g". */
  lemma MiscountedSetReached(size: int, key: string)
    ensures Safe(Init(size), EmptyThenGMembers(key))
    ensures var st := DoAll(Init(size), EmptyThenGMembers(key)).0;
            && StoreInv(st) && Miscounted(st, key)
            && Get(st, key) == Some(SetVal(SetAdd(SetAdd(Init(BASE_SIZE), "").0, "g").0))
  {
    hide Do, Defined, EffectOf, Get, StoreInv, SetAdd, Counted, Safe, DoAll;
    var first, second := SAdd(""), SAdd("g");
    SAddWrites(FreshSet(""), "");
    SAddWrites(FreshSet(""), "g");
    CreatedIsFound(size, key, first);
    var st1 := Do(Init(size), key, first).0;
    WrittenIsFound(st1, key, second);
    var st := Do(st1, key, second).0;
    TwoSteps(Init(size), Step(key, first), Step(key, second));
    SetRuns.CounterTooHigh();
    StoreIsValid(st);
    GetValue(st, key);
  }

  /** SREM of its one member leaves that set under its key, without a member. */
  lemma EmptySetReached(size: int, key: string)
    ensures Safe(Init(size), EmptyThenGMembers(key))
    ensures var st := DoAll(Init(size), EmptyThenGMembers(key)).0;
            && Defined(Get(st, key), SRem("g"))
            && var item := Get(Do(st, key, SRem("g")).0, key);
               item.Some? && item.value.SetVal? && Keys(item.value.members.slots) == {}
  {
    hide Do, Defined, EffectOf, Get, StoreInv, SetAdd, SetRem, Safe, DoAll, Keys;
    MiscountedSetReached(size, key);
    SetRuns.EmptyButCounted();
    SRemWrites(SetAdd(SetAdd(Init(BASE_SIZE), "").0, "g").0, "g");
    WrittenIsFound(DoAll(Init(size), EmptyThenGMembers(key)).0, key, SRem("g"));
  }
}
