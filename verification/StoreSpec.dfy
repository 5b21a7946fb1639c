/**
 The typed store of src/htable.c as a value: a table whose items are strings, hashes, lists
 and sets. Every operation that changes the store looks one key up, turns what it finds into
 an effect, and writes or removes that one item.
 */
module StoreSpec {
  import opened Options
  import opened Slots
  import opened Tables
  import opened TableProperties
  import opened Sets
  import SetRuns
  import ListSpec

  datatype Val =
    | StrVal(s: string)
    | HashVal(fields: Tab<string>)
    | ListVal(items: seq<string>)
    | SetVal(members: SetTab)

  datatype Kind = StrKind | HashKind | ListKind | SetKind

  type Store = Tab<Val>

  function KindOf(v: Val): Kind {
    match v
    case StrVal(_) => StrKind
    case HashVal(_) => HashKind
    case ListVal(_) => ListKind
    case SetVal(_) => SetKind
  }

  /** The operations on one key, without their key. */
  datatype Prim =
    | SetStr(value: string)
    | Del
    | HSet(field: string, value: string)
    | HDel(field: string)
    | Push(value: string, left: bool)
    | Pop(left: bool)
    | LSet(id: int, value: string)
    | LRem(count: int, value: string)
    | SAdd(member: string)
    | SRem(member: string)

  datatype Answer = Flag(ok: bool) | Number(n: int) | Text(text: Option<string>)

  /** What becomes of the item; a removed one is first left as `last`. */
  datatype Effect = Keep | Write(v: Val) | Remove(last: Val)

  /** The kind of item an operation works on; the two others work on any. */
  function KindFor(prim: Prim): Option<Kind> {
    match prim
    case SetStr(_) => None
    case Del => None
    case HSet(_, _) => Some(HashKind)
    case HDel(_) => Some(HashKind)
    case SAdd(_) => Some(SetKind)
    case SRem(_) => Some(SetKind)
    case _ => Some(ListKind)
  }

  /**
   The operation reads no memory it must not: an item it finds has the kind it casts to, and a
   list it pops from has a node.
   */
  predicate Defined(item: Option<Val>, prim: Prim) {
    item.Some? ==>
      && (KindFor(prim).Some? ==> KindOf(item.value) == KindFor(prim).value)
      && (prim.Pop? ==> item.value.items != [])
  }

  function Popped(items: seq<string>, left: bool): (seq<string>, string)
    requires items != []
  {
    if left then (items[1..], items[0]) else (items[..|items| - 1], items[|items| - 1])
  }

  function Pushed(items: seq<string>, value: string, left: bool): seq<string> {
    if left then [value] + items else items + [value]
  }

  /** A negative index sets the head, as the walk then takes no step. */
  function ListSet(items: seq<string>, id: int, value: string): (seq<string>, bool) {
    if items == [] || id >= |items| then (items, false)
    else (items[if id < 0 then 0 else id := value], true)
  }

  ghost function FreshHash(field: string, value: string): Tab<string> {
    Put(Init(BASE_SIZE), field, value)
  }

  ghost function FreshSet(member: string): SetTab {
    SetAdd(Init(BASE_SIZE), member).0
  }

  ghost function EffectOf(item: Option<Val>, prim: Prim): (Effect, Answer)
    requires Defined(item, prim)
  {
    match prim
    case SetStr(value) =>
      if item.Some? && !item.value.StrVal? then (Keep, Flag(false)) else (Write(StrVal(value)), Flag(true))
    case Del => if item.Some? then (Remove(item.value), Flag(true)) else (Keep, Flag(false))
    case HSet(field, value) =>
      if item.None? then (Write(HashVal(FreshHash(field, value))), Flag(true))
      else (Write(HashVal(Put(item.value.fields, field, value))), Flag(true))
    case HDel(field) =>
      if item.None? then (Keep, Flag(false))
      else
        var (t, ok) := Delete(item.value.fields, field);
        (if t.used == 0 then Remove(HashVal(t)) else Write(HashVal(t)), Flag(ok))
    case Push(value, left) =>
      if item.None? then (Write(ListVal([value])), Number(1))
      else var items := Pushed(item.value.items, value, left); (Write(ListVal(items)), Number(|items|))
    case Pop(left) =>
      if item.None? then (Keep, Text(None))
      else
        var (items, text) := Popped(item.value.items, left);
        (if items == [] then Remove(ListVal(items)) else Write(ListVal(items)), Text(Some(text)))
    case LSet(id, value) =>
      if item.None? then (Keep, Flag(false))
      else var (items, ok) := ListSet(item.value.items, id, value); (Write(ListVal(items)), Flag(ok))
    case LRem(count, value) =>
      if item.None? then (Keep, Number(0))
      else
        var items := ListSpec.Rem(item.value.items, count, value);
        (if items == [] then Remove(ListVal(items)) else Write(ListVal(items)),
         Number(ListSpec.RemCount(item.value.items, count, value)))
    case SAdd(member) =>
      if item.None? then (Write(SetVal(FreshSet(member))), Flag(true))
      else var (t, ok) := SetAdd(item.value.members, member); (Write(SetVal(t)), Flag(ok))
    case SRem(member) =>
      if item.None? then (Keep, Flag(false))
      else
        var (t, ok) := SetRem(item.value.members, member);
        (if t.used == 0 then Remove(SetVal(t)) else Write(SetVal(t)), Flag(ok))
  }

  ghost function Replace<V>(t: Tab<V>, p: nat, v: V): Tab<V>
    requires p < |t.slots| && t.slots[p].Live?
  {
    t.(slots := t.slots[p := Live(t.slots[p].key, v)])
  }

  /** A live item changes in its slot, an absent one is inserted, a removed one is deleted through its key. */
  ghost function Carry(st: Store, key: string, e: Effect): Store {
    match (e, Find(st.slots, key, 0))
    case (Keep, _) => st
    case (Write(v), None) => Insert(st, key, v)
    case (Write(v), Some(p)) => Replace(st, p, v)
    case (Remove(_), None) => st
    case (Remove(last), Some(p)) => Delete(Replace(st, p, last), key).0
  }

  ghost function Do(st: Store, key: string, prim: Prim): (Store, Answer)
    requires Defined(Get(st, key), prim)
  {
    var (e, answer) := EffectOf(Get(st, key), prim);
    (Carry(st, key, e), answer)
  }

  // ----- the invariant of the store

  ghost predicate ValOk(v: Val) {
    match v
    case StrVal(_) => true
    case HashVal(t) => Valid(t) && t.used > 0
    case ListVal(items) => items != []
    case SetVal(t) => SetValid(t) && t.used > 0
  }

  ghost predicate AllOk(m: map<string, Val>) {
    forall key :: key in m ==> ValOk(m[key])
  }

  /** No stored list is empty, no stored hash or set has a zero counter, and every container is valid. */
  ghost predicate StoreInv(st: Store) {
    Valid(st) && AllOk(Contents(st.slots))
  }

  /** The effect on the map of contents. */
  function MapEffect(m: map<string, Val>, key: string, e: Effect): map<string, Val> {
    match e
    case Keep => m
    case Write(v) => m[key := v]
    case Remove(_) => m - {key}
  }

  lemma FreshHashOk(field: string, value: string)
    ensures ValOk(HashVal(FreshHash(field, value))) && Counted(FreshHash(field, value))
    ensures Contents(FreshHash(field, value).slots) == map[field := value]
  {
    var t := Init<string>(BASE_SIZE);
    InitValid<string>(BASE_SIZE);
    FreshProperties<string>(|t.slots|);
    PutProperties(t, field, value);
    LoadBound(1, |t.slots|, 70);
    InsertProperties(t, field, value);
    FindIffLive(t.slots, field);
    assert !StoreFails(t.slots, field);
    FreshHashRoom();
  }

  lemma FreshHashRoom()
    ensures !Grows(1, |Init<string>(BASE_SIZE).slots|)
  {
    LoadBound(1, |Init<string>(BASE_SIZE).slots|, 70);
  }

  lemma FreshSetOk(member: string)
    ensures ValOk(SetVal(FreshSet(member))) && Counted(FreshSet(member)) && UniqueKeys(FreshSet(member).slots)
    ensures Keys(FreshSet(member).slots) == {member}
  {
    var t: SetTab := Init(BASE_SIZE);
    SetRuns.SetInitValid(BASE_SIZE);
    LoadBound(1, |t.slots|, 70);
    SetAddProperties(t, member);
    assert !StoreFails(t.slots, member);
    assert AddAnswersRight(t, member);
    SetAddKeepsUnique(t, member);
    assert Keys(t.slots) + {member} == {member};
  }
}
