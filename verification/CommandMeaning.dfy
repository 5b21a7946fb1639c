/**
 What whole commands mean: the effect of all their arguments together on the map of strings,
 maps, sequences and sets, and the number in the reply.
 */
module CommandMeaning {
  import opened Options
  import opened Integers
  import opened Resp
  import opened Slots
  import opened Tables
  import opened TableProperties
  import opened Listings
  import ListSpec
  import opened StoreSpec
  import opened StoreProperties
  import opened StoreMeaning
  import opened Interpreter

  function Elements(s: seq<string>): set<string> {
    set x | x in s
  }

  /** Keys and values in turn as a map; a later value replaces an earlier one. */
  function PairsMap(argv: seq<string>): map<string, string> {
    if |argv| < 2 then map[] else map[argv[0] := argv[1]] + PairsMap(argv[2..])
  }

  // ----- one argument at a time

  lemma {:induction false} OksFront(a: Answer, answers: seq<Answer>)
    ensures Oks([a] + answers) == (if a == Flag(true) then 1 else 0) + Oks(answers)
  {
    var all := [a] + answers;
    if answers == [] {
      assert all[..0] == [];
    } else {
      var front := answers[..|answers| - 1];
      OksFront(a, front);
      assert all[..|all| - 1] == [a] + front;
    }
  }

  lemma NoAnswers()
    ensures Oks([]) == 0
  {
  }

  lemma NoSteps(m: map<string, Meaning>, steps: seq<Step>)
    requires steps == []
    ensures ViewRun(m, steps) == (m, [])
  {
  }

  /** The first operation of a command, then the others. */
  lemma FirstStep(m: map<string, Meaning>, key: string, prims: seq<Prim>)
    requires prims != [] && Matches(ViewItem(m, key), prims[0])
    ensures var (e, a) := MeaningEffectOf(ViewItem(m, key), prims[0]);
            var (end, answers) := ViewRun(ViewEffect(m, key, e), Steps(key, prims[1..]));
            ViewRun(m, Steps(key, prims)) == (end, [a] + answers)
  {
    hide Matches, MeaningEffectOf, ViewEffect;
    assert Steps(key, prims)[1..] == Steps(key, prims[1..]);
  }

  // ----- SADD and SREM

  ghost function SetUnder(m: map<string, Meaning>, key: string): set<string>
    requires key in m ==> m[key].ASet?
  {
    if key in m then m[key].members else {}
  }

  predicate IsNew(s: set<string>, x: string) {
    x !in s
  }

  /** The meaning of the store with the set `s` under `key`. */
  ghost function SetGrown(m: map<string, Meaning>, key: string, s: set<string>): map<string, Meaning> {
    m[key := ASet(s)]
  }

  lemma SetGrownTwice(m: map<string, Meaning>, key: string, s: set<string>, t: set<string>)
    ensures key in SetGrown(m, key, s) && SetGrown(m, key, s)[key].ASet?
    ensures SetUnder(SetGrown(m, key, s), key) == s
    ensures SetGrown(SetGrown(m, key, s), key, t) == SetGrown(m, key, t)
  {
  }

  lemma FirstAdded(m: map<string, Meaning>, key: string, members: seq<string>)
    requires members != [] && (key in m ==> m[key].ASet?)
    ensures var (end, answers) :=
              ViewRun(SetGrown(m, key, SetUnder(m, key) + {members[0]}), Steps(key, SAddPrims(members[1..])));
            ViewRun(m, Steps(key, SAddPrims(members))) == (end, [Flag(IsNew(SetUnder(m, key), members[0]))] + answers)
  {
    hide ViewRun;
    assert SAddPrims(members)[0] == SAdd(members[0]);
    assert SAddPrims(members)[1..] == SAddPrims(members[1..]);
    FirstStep(m, key, SAddPrims(members));
  }

  lemma {:induction false} SAddCombined(s: set<string>, members: seq<string>, answers: seq<Answer>)
    requires members != [] && |s + {members[0]}| + Oks(answers) == |s + {members[0]} + Elements(members[1..])|
    ensures s + {members[0]} + Elements(members[1..]) == s + Elements(members)
    ensures |s| + Oks([Flag(IsNew(s, members[0]))] + answers) == |s + Elements(members)|
  {
    hide Oks, Elements;
    OksFront(Flag(IsNew(s, members[0])), answers);
    ElementsFront(members);
    assert s + {members[0]} + Elements(members[1..]) == s + Elements(members);
    if members[0] in s {
      assert s + {members[0]} == s;
    }
  }

  lemma {:induction false} SAddRun(m: map<string, Meaning>, key: string, members: seq<string>)
    requires key in m ==> m[key].ASet?
    ensures var (end, answers) := ViewRun(m, Steps(key, SAddPrims(members)));
            var s := SetUnder(m, key);
            && end == (if members == [] then m else SetGrown(m, key, s + Elements(members)))
            && |s| + Oks(answers) == |s + Elements(members)|
    decreases |members|
  {
    hide *;
    var s := SetUnder(m, key);
    NoElements();
    if members == [] {
      assert s + {} == s;
      NoSteps(m, Steps(key, SAddPrims([])));
      NoAnswers();
    } else {
      var more := s + {members[0]};
      assert more + {} == more;
      SetGrownTwice(m, key, more, more + Elements(members[1..]));
      FirstAdded(m, key, members);
      SAddRun(SetGrown(m, key, more), key, members[1..]);
      SAddCombined(s, members, ViewRun(SetGrown(m, key, more), Steps(key, SAddPrims(members[1..]))).1);
    }
  }

  lemma NoElements()
    ensures Elements([]) == {}
  {
  }

  lemma ElementsFront(s: seq<string>)
    requires s != []
    ensures Elements(s) == {s[0]} + Elements(s[1..])
  {
  }

  /** The meaning of the store after the set under `key` was cut down to `rest`. */
  ghost function SetLeft(m: map<string, Meaning>, key: string, rest: set<string>): map<string, Meaning> {
    if rest == {} then m - {key} else m[key := ASet(rest)]
  }

  lemma SetWhole(m: map<string, Meaning>, key: string)
    requires key in m ==> m[key].ASet? && m[key].members != {}
    ensures SetLeft(m, key, SetUnder(m, key)) == m
  {
    assert key !in m ==> m - {key} == m;
  }

  lemma SetLeftTwice(m: map<string, Meaning>, key: string, rest: set<string>, less: set<string>)
    requires less <= rest
    ensures var next := SetLeft(m, key, rest);
            && (key in next ==> next[key].ASet? && next[key].members != {})
            && SetUnder(next, key) == rest
            && SetLeft(next, key, less) == SetLeft(m, key, less)
  {
    assert m - {key} - {key} == m - {key};
  }

  lemma FirstRemoved(m: map<string, Meaning>, key: string, members: seq<string>)
    requires members != [] && (key in m ==> m[key].ASet?)
    ensures var s := SetUnder(m, key);
            var (end, answers) := ViewRun(SetLeft(m, key, s - {members[0]}), Steps(key, SRemPrims(members[1..])));
            ViewRun(m, Steps(key, SRemPrims(members))) == (end, [Flag(members[0] in s)] + answers)
  {
    hide ViewRun;
    assert SRemPrims(members)[0] == SRem(members[0]);
    assert SRemPrims(members)[1..] == SRemPrims(members[1..]);
    FirstStep(m, key, SRemPrims(members));
    assert key !in m ==> m - {key} == m;
  }

  lemma {:induction false} SRemCombined(s: set<string>, members: seq<string>, answers: seq<Answer>)
    requires members != [] && |s - {members[0]}| == |s - {members[0]} - Elements(members[1..])| + Oks(answers)
    ensures s - {members[0]} - Elements(members[1..]) == s - Elements(members)
    ensures |s| == |s - Elements(members)| + Oks([Flag(members[0] in s)] + answers)
  {
    hide Oks, Elements;
    OksFront(Flag(members[0] in s), answers);
    ElementsFront(members);
    assert s - {members[0]} - Elements(members[1..]) == s - Elements(members);
    if members[0] !in s {
      assert s - {members[0]} == s;
    }
  }

  lemma {:induction false} SRemRun(m: map<string, Meaning>, key: string, members: seq<string>)
    requires key in m ==> m[key].ASet? && m[key].members != {}
    ensures var (end, answers) := ViewRun(m, Steps(key, SRemPrims(members)));
            var s := SetUnder(m, key);
            && end == SetLeft(m, key, s - Elements(members))
            && |s| == |s - Elements(members)| + Oks(answers)
    decreases |members|
  {
    hide *;
    var s := SetUnder(m, key);
    if members == [] {
      NoElements();
      assert s - {} == s;
      NoSteps(m, Steps(key, SRemPrims([])));
      NoAnswers();
      SetWhole(m, key);
    } else {
      var rest := s - {members[0]};
      var next := SetLeft(m, key, rest);
      FirstRemoved(m, key, members);
      SetLeftTwice(m, key, rest, rest - Elements(members[1..]));
      SRemRun(next, key, members[1..]);
      SRemCombined(s, members, ViewRun(next, Steps(key, SRemPrims(members[1..]))).1);
    }
  }

  // ----- HSET and HDEL

  ghost function HashUnder(m: map<string, Meaning>, key: string): map<string, string>
    requires key in m ==> m[key].AHash?
  {
    if key in m then m[key].fields else map[]
  }

  lemma FirstFieldSet(m: map<string, Meaning>, key: string, argv: seq<string>)
    requires |argv| % 2 == 1 && |argv| > 1 && (key in m ==> m[key].AHash?)
    ensures var next := m[key := AHash(HashUnder(m, key)[argv[1] := argv[2]])];
            var (end, answers) := ViewRun(next, Steps(key, HSetPrims(argv[2..])));
            ViewRun(m, Steps(key, HSetPrims(argv))) == (end, [Flag(true)] + answers)
  {
    hide ViewRun;
    assert HSetPrims(argv)[0] == HSet(argv[1], argv[2]);
    assert HSetPrims(argv)[1..] == HSetPrims(argv[2..]);
    FirstStep(m, key, HSetPrims(argv));
  }

  lemma NoPairs(argv: seq<string>)
    requires argv == []
    ensures PairsMap(argv) == map[]
  {
  }

  lemma PairsFront(fields: map<string, string>, argv: seq<string>)
    requires |argv| > 2
    ensures fields[argv[1] := argv[2]] + PairsMap(argv[2..][1..]) == fields + PairsMap(argv[1..])
  {
    assert argv[1..][2..] == argv[2..][1..];
  }

  lemma {:induction false} HSetCombined(m: map<string, Meaning>, key: string, fields: map<string, string>,
                                           argv: seq<string>)
    requires |argv| > 2
    ensures var first := fields[argv[1] := argv[2]];
            var all := AHash(fields + PairsMap(argv[1..]));
            && m[key := AHash(first)][key := AHash(first + PairsMap(argv[2..][1..]))] == m[key := all]
            && (|argv| == 3 ==> m[key := AHash(first)] == m[key := all])
  {
    hide PairsMap;
    PairsFront(fields, argv);
    if |argv| == 3 {
      NoPairs(argv[2..][1..]);
      assert fields[argv[1] := argv[2]] + map[] == fields[argv[1] := argv[2]];
    }
  }

  lemma {:induction false} HSetRun(m: map<string, Meaning>, key: string, argv: seq<string>)
    requires |argv| % 2 == 1 && (key in m ==> m[key].AHash?)
    ensures var (end, answers) := ViewRun(m, Steps(key, HSetPrims(argv)));
            && end == (if |argv| == 1 then m else m[key := AHash(HashUnder(m, key) + PairsMap(argv[1..]))])
            && Oks(answers) == |argv| / 2
    decreases |argv|
  {
    var fields := HashUnder(m, key);
    hide ViewRun, Oks, PairsMap, Steps, HSetPrims;
    if |argv| == 1 {
      NoSteps(m, Steps(key, HSetPrims(argv)));
      NoAnswers();
    } else {
      var next := m[key := AHash(fields[argv[1] := argv[2]])];
      FirstFieldSet(m, key, argv);
      HSetRun(next, key, argv[2..]);
      HSetCombined(m, key, fields, argv);
      OksFront(Flag(true), ViewRun(next, Steps(key, HSetPrims(argv[2..]))).1);
    }
  }

  ghost function HashLeft(m: map<string, Meaning>, key: string, rest: map<string, string>): map<string, Meaning> {
    if rest == map[] then m - {key} else m[key := AHash(rest)]
  }

  lemma HashWhole(m: map<string, Meaning>, key: string)
    requires key in m ==> m[key].AHash? && m[key].fields != map[]
    ensures HashLeft(m, key, HashUnder(m, key)) == m
  {
    assert key !in m ==> m - {key} == m;
  }

  lemma HashLeftTwice(m: map<string, Meaning>, key: string, rest: map<string, string>, less: map<string, string>)
    requires rest == map[] ==> less == map[]
    ensures var next := HashLeft(m, key, rest);
            && (key in next ==> next[key].AHash? && next[key].fields != map[])
            && HashUnder(next, key) == rest
            && HashLeft(next, key, less) == HashLeft(m, key, less)
  {
    assert m - {key} - {key} == m - {key};
  }

  lemma MinusElements<V>(m: map<string, V>, keys: seq<string>)
    requires keys != []
    ensures m - {keys[0]} - Elements(keys[1..]) == m - Elements(keys)
    ensures m - {keys[0]} == map[] ==> m - Elements(keys) == map[]
  {
    ElementsFront(keys);
    assert m - {keys[0]} - Elements(keys[1..]) == m - Elements(keys);
    assert m - {keys[0]} == map[] ==> m - {keys[0]} - Elements(keys[1..]) == map[];
  }

  lemma FirstFieldDeleted(m: map<string, Meaning>, key: string, fields: seq<string>)
    requires fields != [] && (key in m ==> m[key].AHash?)
    ensures var h := HashUnder(m, key);
            var (end, answers) := ViewRun(HashLeft(m, key, h - {fields[0]}), Steps(key, HDelPrims(fields[1..])));
            ViewRun(m, Steps(key, HDelPrims(fields))) == (end, [Flag(fields[0] in h)] + answers)
  {
    hide ViewRun;
    assert HDelPrims(fields)[0] == HDel(fields[0]);
    assert HDelPrims(fields)[1..] == HDelPrims(fields[1..]);
    FirstStep(m, key, HDelPrims(fields));
    assert key !in m ==> m - {key} == m;
  }

  lemma {:induction false} HDelRun(m: map<string, Meaning>, key: string, fields: seq<string>)
    requires key in m ==> m[key].AHash? && m[key].fields != map[]
    ensures var (end, answers) := ViewRun(m, Steps(key, HDelPrims(fields)));
            var h := HashUnder(m, key);
            && end == HashLeft(m, key, h - Elements(fields))
            && |h| == |h - Elements(fields)| + Oks(answers)
    decreases |fields|
  {
    var h := HashUnder(m, key);
    hide ViewRun, Oks, HashLeft, HashUnder, Elements;
    if fields == [] {
      NoElements();
      assert h - {} == h;
      NoSteps(m, Steps(key, HDelPrims([])));
      NoAnswers();
      HashWhole(m, key);
    } else {
      var rest := h - {fields[0]};
      var next := HashLeft(m, key, rest);
      FirstFieldDeleted(m, key, fields);
      MinusElements(h, fields);
      HashLeftTwice(m, key, rest, h - Elements(fields));
      HDelRun(next, key, fields[1..]);
      OksFront(Flag(fields[0] in h), ViewRun(next, Steps(key, HDelPrims(fields[1..]))).1);
      OneLess(h, fields[0]);
    }
  }

  lemma OneLess<V>(m: map<string, V>, x: string)
    ensures |m| == |m - {x}| + if x in m then 1 else 0
  {
    if x in m {
      assert m == (m - {x})[x := m[x]];
    } else {
      assert m == m - {x};
    }
  }

  // ----- LPUSH and RPUSH

  ghost function ListUnder(m: map<string, Meaning>, key: string): seq<string>
    requires key in m ==> m[key].AList?
  {
    if key in m then m[key].items else []
  }

  /** All values pushed: from the left they end up in reverse order. */
  function PushedAll(items: seq<string>, values: seq<string>, left: bool): seq<string> {
    if left then ListSpec.Reverse(values) + items else items + values
  }

  lemma PushedNext(items: seq<string>, values: seq<string>, left: bool)
    requires values != []
    ensures PushedAll(Pushed(items, values[0], left), values[1..], left) == PushedAll(items, values, left)
  {
  }

  lemma FirstPushed(m: map<string, Meaning>, key: string, values: seq<string>, left: bool)
    requires values != [] && (key in m ==> m[key].AList?)
    ensures var items := Pushed(ListUnder(m, key), values[0], left);
            var (end, answers) := ViewRun(m[key := AList(items)], Steps(key, PushPrims(values[1..], left)));
            ViewRun(m, Steps(key, PushPrims(values, left))) == (end, [Number(|items|)] + answers)
  {
    hide ViewRun;
    assert PushPrims(values, left)[0] == Push(values[0], left);
    assert PushPrims(values, left)[1..] == PushPrims(values[1..], left);
    FirstStep(m, key, PushPrims(values, left));
  }

  lemma {:induction false} PushRun(m: map<string, Meaning>, key: string, values: seq<string>, left: bool)
    requires key in m ==> m[key].AList?
    ensures var (end, answers) := ViewRun(m, Steps(key, PushPrims(values, left)));
            var items := PushedAll(ListUnder(m, key), values, left);
            && end == (if values == [] then m else m[key := AList(items)])
            && |answers| == |values|
            && (values != [] ==> answers[|answers| - 1] == Number(|items|))
    decreases |values|
  {
    hide ViewRun, PushedAll;
    if values == [] {
      NoSteps(m, Steps(key, PushPrims([], left)));
    } else {
      var items := Pushed(ListUnder(m, key), values[0], left);
      FirstPushed(m, key, values, left);
      PushRun(m[key := AList(items)], key, values[1..], left);
      PushedNext(ListUnder(m, key), values, left);
      PushedNone(items, left);
    }
  }

  lemma PushedNone(items: seq<string>, left: bool)
    ensures PushedAll(items, [], left) == items
  {
  }

  // ----- LPOP, RPOP, LREM and LSET

  lemma SingleRun(m: map<string, Meaning>, key: string, prim: Prim)
    requires Matches(ViewItem(m, key), prim)
    ensures var (e, a) := MeaningEffectOf(ViewItem(m, key), prim);
            ViewRun(m, Steps(key, [prim])) == (ViewEffect(m, key, e), [a])
  {
    hide ViewRun, Matches, MeaningEffectOf, ViewEffect;
    FirstStep(m, key, [prim]);
    var (e, a) := MeaningEffectOf(ViewItem(m, key), prim);
    NoSteps(ViewEffect(m, key, e), Steps(key, [prim][1..]));
    assert [a] + [] == [a];
  }

  // ----- DEL and MSET

  lemma FirstOf(m: map<string, Meaning>, steps: seq<Step>)
    requires steps != [] && Matches(ViewItem(m, steps[0].key), steps[0].prim)
    ensures var (e, a) := MeaningEffectOf(ViewItem(m, steps[0].key), steps[0].prim);
            var (end, answers) := ViewRun(ViewEffect(m, steps[0].key, e), steps[1..]);
            ViewRun(m, steps) == (end, [a] + answers)
  {
    hide Matches, MeaningEffectOf, ViewEffect;
  }

  lemma FirstDeleted(m: map<string, Meaning>, keys: seq<string>)
    requires keys != []
    ensures var (end, answers) := ViewRun(m - {keys[0]}, DelSteps(keys[1..]));
            ViewRun(m, DelSteps(keys)) == (end, [Flag(keys[0] in m)] + answers)
  {
    hide ViewRun;
    assert DelSteps(keys)[0] == Step(keys[0], Del);
    assert DelSteps(keys)[1..] == DelSteps(keys[1..]);
    FirstOf(m, DelSteps(keys));
    assert keys[0] !in m ==> m - {keys[0]} == m;
  }

  lemma {:induction false} DelCombined(m: map<string, Meaning>, keys: seq<string>,
                                          end: map<string, Meaning>, answers: seq<Answer>)
    requires keys != []
    requires end == m - {keys[0]} - Elements(keys[1..]) && |m - {keys[0]}| == |end| + Oks(answers)
    ensures end == m - Elements(keys) && |m| == |end| + Oks([Flag(keys[0] in m)] + answers)
  {
    hide *;
    MinusElements(m, keys);
    OneLess(m, keys[0]);
    OksFront(Flag(keys[0] in m), answers);
  }

  lemma {:induction false} DelRun(m: map<string, Meaning>, keys: seq<string>)
    ensures var (end, answers) := ViewRun(m, DelSteps(keys));
            && end == m - Elements(keys)
            && |m| == |end| + Oks(answers)
    decreases |keys|
  {
    hide *;
    if keys == [] {
      NoElements();
      assert m - {} == m;
      NoSteps(m, DelSteps([]));
      NoAnswers();
    } else {
      FirstDeleted(m, keys);
      DelRun(m - {keys[0]}, keys[1..]);
      var (end, answers) := ViewRun(m - {keys[0]}, DelSteps(keys[1..]));
      DelCombined(m, keys, end, answers);
    }
  }

  /** SET and MSET change the missing keys and those that name strings. */
  ghost function SetStrings(m: map<string, Meaning>, pairs: map<string, string>): map<string, Meaning> {
    m + map key | key in pairs && (key in m ==> m[key].AStr?) :: AStr(pairs[key])
  }

  lemma NoStrings(m: map<string, Meaning>)
    ensures SetStrings(m, map[]) == m
  {
  }

  lemma PairsStep(argv: seq<string>)
    requires |argv| >= 2
    ensures PairsMap(argv) == map[argv[0] := argv[1]] + PairsMap(argv[2..])
  {
  }

  lemma StringsFront(m: map<string, Meaning>, key: string, value: string, pairs: map<string, string>)
    ensures var next := if key in m && !m[key].AStr? then m else m[key := AStr(value)];
            SetStrings(next, pairs) == SetStrings(m, map[key := value] + pairs)
  {
  }

  lemma FirstStringSet(m: map<string, Meaning>, argv: seq<string>)
    requires |argv| % 2 == 0 && |argv| > 0
    ensures var next := if argv[0] in m && !m[argv[0]].AStr? then m else m[argv[0] := AStr(argv[1])];
            ViewRun(m, SetSteps(argv)).0 == ViewRun(next, SetSteps(argv[2..])).0
  {
    hide ViewRun;
    assert SetSteps(argv)[0] == Step(argv[0], SetStr(argv[1]));
    assert SetSteps(argv)[1..] == SetSteps(argv[2..]);
    FirstOf(m, SetSteps(argv));
  }

  lemma {:induction false} MSetRun(m: map<string, Meaning>, argv: seq<string>)
    requires |argv| % 2 == 0
    ensures ViewRun(m, SetSteps(argv)).0 == SetStrings(m, PairsMap(argv))
    decreases |argv|
  {
    hide ViewRun, SetStrings, PairsMap;
    if argv == [] {
      NoSteps(m, SetSteps([]));
      NoPairs([]);
      NoStrings(m);
    } else {
      var next := if argv[0] in m && !m[argv[0]].AStr? then m else m[argv[0] := AStr(argv[1])];
      FirstStringSet(m, argv);
      MSetRun(next, argv[2..]);
      PairsStep(argv);
      StringsFront(m, argv[0], argv[1], PairsMap(argv[2..]));
    }
  }

  // ----- the commands

  /** A key that passes the type check and names a clean item, if any, and a run that drops and duplicates nothing. */
  ghost predicate CleanCommand(st: Store, key: string, kind: Kind, prims: seq<Prim>) {
    && StoreInv(st) && CleanAt(st, key) && Allows(st, key, kind) && OfKind(prims, kind)
    && FaithfulRun(st, Steps(key, prims))
  }

  /** Such a command is its run on the meaning of the store. */
  lemma CommandRuns(st: Store, key: string, kind: Kind, prims: seq<Prim>, e: Encoding)
    requires CleanCommand(st, key, kind, prims)
    ensures var (after, reply) := TypedCommand(st, key, kind, prims, e);
            var (end, answers) := ViewRun(View(st), Steps(key, prims));
            && View(after) == end && reply == Encode(e, answers)
            && StoreInv(after)
  {
    hide View, Encode, StoreInv, CleanAt, FaithfulRun;
    RunMeans(st, Steps(key, prims));
  }

  /** What the invariant and the type check say about the meaning of an item. */
  lemma MeaningUnder(st: Store, key: string, kind: Kind)
    requires StoreInv(st) && CleanAt(st, key) && Allows(st, key, kind)
    ensures key in View(st) ==>
              match kind
              case StrKind => View(st)[key].AStr?
              case HashKind => View(st)[key].AHash? && View(st)[key].fields != map[]
              case ListKind => View(st)[key].AList? && View(st)[key].items != []
              case SetKind => View(st)[key].ASet? && View(st)[key].members != {}
  {
    GetValue(st, key);
    if key in View(st) {
      match Contents(st.slots)[key]
      case HashVal(t) => ValidBounds(t); assert |Contents(t.slots)| > 0;
      case SetVal(t) => KeysCounted(t.slots); assert |Keys(t.slots)| > 0;
      case _ =>
    }
  }

  /** The reply states `n`, and the client reads it if it is an `int`. */
  ghost predicate Answers(reply: string, n: int) {
    HasLine(reply) && LineValue(reply) == n && (IntOf(reply) == n <==> FitsInt(n))
  }

  lemma ReplyAnswers(n: int)
    ensures Answers(ReplyInteger(n), n)
  {
    IntegerRoundTrip(n, "");
    assert ReplyInteger(n) + "" == ReplyInteger(n);
  }

  /** SADD adds all members at once; the reply states how many were new. */
  lemma SAddMeaning(st: Store, key: string, members: seq<string>)
    requires members != [] && CleanCommand(st, key, SetKind, SAddPrims(members))
    ensures key in View(st) ==> View(st)[key].ASet?
    ensures var (after, reply) := TypedCommand(st, key, SetKind, SAddPrims(members), TrueCount);
            var s := SetUnder(View(st), key);
            && View(after) == SetGrown(View(st), key, s + Elements(members))
            && Answers(reply, |s + Elements(members)| - |s|)
  {
    hide View, StoreInv, CleanAt, FaithfulRun, Allows, TypedCommand, ViewRun, Answers;
    MeaningUnder(st, key, SetKind);
    CommandRuns(st, key, SetKind, SAddPrims(members), TrueCount);
    SAddRun(View(st), key, members);
    var s := SetUnder(View(st), key);
    ReplyAnswers(|s + Elements(members)| - |s|);
  }

  /** SREM removes all members at once, and the key with the last one; the reply states how many were there. */
  lemma SRemMeaning(st: Store, key: string, members: seq<string>)
    requires CleanCommand(st, key, SetKind, SRemPrims(members))
    ensures key in View(st) ==> View(st)[key].ASet?
    ensures var (after, reply) := TypedCommand(st, key, SetKind, SRemPrims(members), TrueCount);
            var s := SetUnder(View(st), key);
            && View(after) == SetLeft(View(st), key, s - Elements(members))
            && Answers(reply, |s| - |s - Elements(members)|)
  {
    hide View, StoreInv, CleanAt, FaithfulRun, Allows, TypedCommand, ViewRun, Answers;
    MeaningUnder(st, key, SetKind);
    CommandRuns(st, key, SetKind, SRemPrims(members), TrueCount);
    SRemRun(View(st), key, members);
    var s := SetUnder(View(st), key);
    ReplyAnswers(|s| - |s - Elements(members)|);
  }

  /** HSET sets all fields at once, the last value of each; the reply states the number of pairs, new or not. */
  lemma HSetMeaning(st: Store, argv: seq<string>)
    requires |argv| >= 3 && |argv| % 2 == 1 && CleanCommand(st, argv[0], HashKind, HSetPrims(argv))
    ensures argv[0] in View(st) ==> View(st)[argv[0]].AHash?
    ensures var (after, reply) := TypedCommand(st, argv[0], HashKind, HSetPrims(argv), TrueCount);
            && View(after) == View(st)[argv[0] := AHash(HashUnder(View(st), argv[0]) + PairsMap(argv[1..]))]
            && Answers(reply, |argv| / 2)
  {
    hide View, StoreInv, CleanAt, FaithfulRun, Allows, TypedCommand, ViewRun, Answers;
    MeaningUnder(st, argv[0], HashKind);
    CommandRuns(st, argv[0], HashKind, HSetPrims(argv), TrueCount);
    HSetRun(View(st), argv[0], argv);
    ReplyAnswers(|argv| / 2);
  }

  /** HDEL deletes all fields at once, and the key with the last one; the reply states how many were there. */
  lemma HDelMeaning(st: Store, key: string, fields: seq<string>)
    requires CleanCommand(st, key, HashKind, HDelPrims(fields))
    ensures key in View(st) ==> View(st)[key].AHash?
    ensures var (after, reply) := TypedCommand(st, key, HashKind, HDelPrims(fields), TrueCount);
            var h := HashUnder(View(st), key);
            && View(after) == HashLeft(View(st), key, h - Elements(fields))
            && Answers(reply, |h| - |h - Elements(fields)|)
  {
    hide View, StoreInv, CleanAt, FaithfulRun, Allows, TypedCommand, ViewRun, Answers;
    MeaningUnder(st, key, HashKind);
    CommandRuns(st, key, HashKind, HDelPrims(fields), TrueCount);
    HDelRun(View(st), key, fields);
    var h := HashUnder(View(st), key);
    ReplyAnswers(|h| - |h - Elements(fields)|);
  }

  /** LPUSH puts the values in reverse order before the list, RPUSH in order after it; the reply states the length. */
  lemma PushMeaning(st: Store, key: string, values: seq<string>, left: bool)
    requires values != [] && CleanCommand(st, key, ListKind, PushPrims(values, left))
    ensures key in View(st) ==> View(st)[key].AList?
    ensures var (after, reply) := TypedCommand(st, key, ListKind, PushPrims(values, left), LastNumber);
            var before := ListUnder(View(st), key);
            var items := if left then ListSpec.Reverse(values) + before else before + values;
            && View(after) == View(st)[key := AList(items)]
            && Answers(reply, |items|)
  {
    hide View, StoreInv, CleanAt, FaithfulRun, Allows, TypedCommand, ViewRun, Answers;
    MeaningUnder(st, key, ListKind);
    CommandRuns(st, key, ListKind, PushPrims(values, left), LastNumber);
    PushRun(View(st), key, values, left);
    ReplyAnswers(|PushedAll(ListUnder(View(st), key), values, left)|);
  }

  /** The reply holds the text, or null, for the client and for a strict decoder, if its length is an `int`. */
  ghost predicate Holds(reply: string, text: Option<string>) {
    && HasBody(reply)
    && (StrOf(reply) == text <==> text.None? || |text.value| <= INT_MAX)
    && (DecodeItem(reply) == Some((if text.None? then Nil else Bulk(text.value), "")) <==>
        text.None? || |text.value| <= INT_MAX)
  }

  lemma ReplyHolds(text: Option<string>)
    ensures Holds(ReplyString(text), text)
  {
    hide StrOf, HasBody, DecodeItem;
    StringRoundTrip(text, "");
    NullDecodes("");
    if text.Some? {
      BulkDecodes(text.value, "");
    }
    hide ReplyString;
    assert ReplyString(text) + "" == ReplyString(text);
  }

  /** One pop on the meaning of the store: the value taken, and what is left. */
  lemma {:induction false} PopRun(m: map<string, Meaning>, key: string, left: bool)
    requires key in m ==> m[key].AList? && m[key].items != []
    ensures var (end, answers) := ViewRun(m, Steps(key, [Pop(left)]));
            if key !in m then end == m && answers == [Text(None)]
            else
              var items := m[key].items;
              var last := |items| - 1;
              && end == (if last == 0 then m - {key}
                         else m[key := AList(if left then items[1..] else items[..last])])
              && answers == [Text(Some(if left then items[0] else items[last]))]
  {
    hide ViewRun;
    SingleRun(m, key, Pop(left));
  }

  /**
   LPOP takes the first value and RPOP the last one; the key goes with the only one. The reply holds the
   value, or null for a missing key.
   */
  lemma PopMeaning(st: Store, key: string, left: bool)
    requires CleanCommand(st, key, ListKind, [Pop(left)])
    ensures key in View(st) ==> View(st)[key].AList? && View(st)[key].items != []
    ensures var (after, reply) := TypedCommand(st, key, ListKind, [Pop(left)], LastText);
            if key !in View(st) then View(after) == View(st) && Holds(reply, None)
            else
              var items := View(st)[key].items;
              var last := |items| - 1;
              && View(after) == (if last == 0 then View(st) - {key}
                                 else View(st)[key := AList(if left then items[1..] else items[..last])])
              && Holds(reply, Some(if left then items[0] else items[last]))
  {
    hide View, StoreInv, CleanAt, FaithfulRun, Allows, TypedCommand, ViewRun, Holds, ReplyString;
    MeaningUnder(st, key, ListKind);
    CommandRuns(st, key, ListKind, [Pop(left)], LastText);
    PopRun(View(st), key, left);
    ReplyHolds(ViewRun(View(st), Steps(key, [Pop(left)])).1[0].text);
  }

  lemma {:induction false} LRemRun(m: map<string, Meaning>, key: string, count: int, value: string)
    requires key in m ==> m[key].AList?
    ensures var (end, answers) := ViewRun(m, Steps(key, [LRem(count, value)]));
            var before := ListUnder(m, key);
            var items := ListSpec.Rem(before, count, value);
            && end == (if key !in m then m else if items == [] then m - {key} else m[key := AList(items)])
            && answers == [Number(if key in m then ListSpec.RemCount(before, count, value) else 0)]
  {
    hide ViewRun, ListSpec.Rem, ListSpec.RemCount;
    SingleRun(m, key, LRem(count, value));
  }

  /** LREM leaves what removal by value leaves, and the key goes with the last value; the reply states the number. */
  lemma LRemMeaning(st: Store, key: string, count: int, value: string)
    requires CleanCommand(st, key, ListKind, [LRem(count, value)])
    ensures key in View(st) ==> View(st)[key].AList?
    ensures var (after, reply) := TypedCommand(st, key, ListKind, [LRem(count, value)], LastNumber);
            var before := ListUnder(View(st), key);
            var items := ListSpec.Rem(before, count, value);
            && View(after) == (if key !in View(st) then View(st)
                               else if items == [] then View(st) - {key}
                               else View(st)[key := AList(items)])
            && Answers(reply, if key in View(st) then ListSpec.RemCount(before, count, value) else 0)
  {
    hide View, StoreInv, CleanAt, FaithfulRun, Allows, TypedCommand, ViewRun, Answers, ListSpec.Rem, ListSpec.RemCount;
    MeaningUnder(st, key, ListKind);
    CommandRuns(st, key, ListKind, [LRem(count, value)], LastNumber);
    LRemRun(View(st), key, count, value);
    ReplyAnswers(ViewRun(View(st), Steps(key, [LRem(count, value)])).1[0].n);
  }

  /** LSET replaces the value at the index and nothing else, on every store. */
  lemma LSetMeaning(st: Store, key: string, id: int, value: string, after: Store, answer: Answer)
    requires StoreInv(st) && key in View(st) && View(st)[key].AList? && 0 <= id < |View(st)[key].items|
    requires Does(st, key, LSet(id, value), after, answer)
    ensures View(after) == View(st)[key := AList(View(st)[key].items[id := value])] && answer == Flag(true)
  {
    hide Do, StoreInv, View, StepFaithful;
    LSetFaithful(st, key, id, value);
    DoMeans(st, key, LSet(id, value));
    var items := View(st)[key].items;
    assert items[..id] + [value] + items[id + 1..] == items[id := value];
  }

  lemma LSetFaithful(st: Store, key: string, id: int, value: string)
    requires StoreInv(st) && key in View(st) && View(st)[key].AList?
    ensures Defined(Get(st, key), LSet(id, value)) && CleanFor(Get(st, key), LSet(id, value))
    ensures StepFaithful(st, key, LSet(id, value))
  {
    hide StoreInv;
    ItemOfView(st, key);
    WriteLosesNothing(st, key, LSet(id, value));
  }

  // ----- reading a hash

  /** HGET reads the field of the map under the key. */
  lemma HGetMeaning(st: Store, key: string, field: string)
    requires StoreInv(st)
    ensures match Get<Val>(st, key)
            case None => key !in View(st)
            case Some(HashVal(t)) =>
              && key in View(st) && View(st)[key].AHash?
              && var fields := View(st)[key].fields;
                 Get(t, field) == if field in fields then Some(fields[field]) else None
            case Some(_) => key in View(st) && !View(st)[key].AHash?
  {
    hide StoreInv, Find;
    ItemOfView(st, key);
    match Get<Val>(st, key)
    case Some(HashVal(t)) => GetValue(t, field);
    case _ =>
  }

  /** What the other commands that only read find under a key: its string, its values in order, its members. */
  lemma ReadMeaning(st: Store, key: string)
    requires StoreInv(st)
    ensures match Get<Val>(st, key)
            case None => key !in View(st)
            case Some(StrVal(s)) => key in View(st) && View(st)[key] == AStr(s)
            case Some(ListVal(items)) => key in View(st) && View(st)[key] == AList(items) && items != []
            case Some(SetVal(t)) =>
              && key in View(st) && View(st)[key] == ASet(Keys(t.slots))
              && forall member :: member in Firsts(Listed(t.slots)) <==> member in Keys(t.slots)
            case Some(HashVal(t)) => key in View(st) && View(st)[key].AHash?
  {
    hide StoreInv, Find;
    ItemOfView(st, key);
    match Get<Val>(st, key)
    case Some(SetVal(t)) => SetListing(t.slots);
    case _ =>
  }

  /** All keys of the map, each once. */
  ghost predicate KeysInOrder(names: seq<string>, m: map<string, string>) {
    && |names| == |m|
    && (forall i, j :: 0 <= i < j < |names| ==> names[i] != names[j])
    && (forall name :: name in names <==> name in m)
  }

  /** What a decoder finds in the replies to HGETALL, HKEYS and HVALS: every field once, each with its value. */
  ghost predicate Lists(all: string, keys: string, values: string, m: map<string, string>, names: seq<string>) {
    && KeysInOrder(names, m)
    && var (pairs, fields, texts) := (DecodeArray(all), DecodeArray(keys), DecodeArray(values));
       && pairs.Some? && fields.Some? && texts.Some?
       && pairs.value.1 == fields.value.1 == texts.value.1 == ""
       && |pairs.value.0| == 2 * |names| && |fields.value.0| == |texts.value.0| == |names|
       && forall i :: 0 <= i < |names| ==> EntrySent(pairs.value.0, fields.value.0, texts.value.0, m, names[i], i)
  }

  ghost predicate EntrySent(pairs: seq<Reply>, fields: seq<Reply>, texts: seq<Reply>, m: map<string, string>,
                            name: string, i: nat)
  {
    && name in m && 2 * i + 1 < |pairs| && i < |fields| && i < |texts|
    && pairs[2 * i] == fields[i] == Sent(Some(name))
    && pairs[2 * i + 1] == texts[i] == Sent(Some(m[name]))
  }

  lemma ArrayDecodes(items: seq<string>)
    requires |items| <= INT_MAX && AllAnnounced(Present(items))
    ensures DecodeArray(ArrayOf(Some(items))) == Some((SentItems(Present(items)), ""))
  {
    hide DecodeArray, ReplyItems, ArrayHeader;
    ArrayRoundTrip(Present(items), "");
    var reply := ArrayHeader(|items|) + ReplyItems(Present(items));
    assert reply + "" == reply;
  }

  lemma EmptyArrayDecodes()
    ensures DecodeArray(ArrayOf(None)) == Some(([], ""))
  {
    hide DecodeArray, ReplyItems, ArrayHeader;
    ArrayRoundTrip([], "");
    ReplyItemsNone();
    assert ArrayHeader(0) + "" + "" == ArrayHeader(0);
  }

  /** The lengths of the fields and values, and the number of both, are those a reply can state. */
  ghost predicate Statable(m: map<string, string>) {
    && 2 * |m| <= INT_MAX
    && forall name :: name in m ==> Announced(Some(name)) && Announced(Some(m[name]))
  }

  lemma {:induction false} ListingsDecode(slots: seq<Slot<string>>)
    requires UniqueKeys(slots) && Statable(Contents(slots))
    ensures var items := Listed(slots);
            Lists(ArrayOf(Some(Flat(items))), ArrayOf(Some(Column(items, true))), ArrayOf(Some(Column(items, false))),
                  Contents(slots), Column(items, true))
  {
    HashListings(slots);
    hide Lists, ArrayOf, Contents, Listed, Flat, Column, UniqueKeys, Statable, SameEntry;
    var items := Listed(slots);
    EntriesDecode(Flat(items), Column(items, true), Column(items, false), Contents(slots));
  }

  lemma {:induction false} EntriesDecode(all: seq<string>, keys: seq<string>, values: seq<string>,
                                            m: map<string, string>)
    requires |all| == 2 * |m| && |keys| == |values| == |m|
    requires forall i :: 0 <= i < |m| ==> SameEntry(all, keys, values, m, i)
    requires forall i, j :: 0 <= i < j < |m| ==> keys[i] != keys[j]
    requires forall name :: name in m <==> name in keys
    requires Statable(m)
    ensures Lists(ArrayOf(Some(all)), ArrayOf(Some(keys)), ArrayOf(Some(values)), m, keys)
  {
    hide DecodeArray, ArrayOf, SameEntry, EntrySent, EntryAnnounced, Statable, AllAnnounced;
    forall i | 0 <= i < |m|
      ensures EntryAnnounced(all, keys, values, i)
      ensures EntrySent(SentItems(Present(all)), SentItems(Present(keys)), SentItems(Present(values)), m, keys[i], i)
    {
      EntryIsAnnounced(all, keys, values, m, i);
      EntryIsSent(all, keys, values, m, i);
    }
    ColumnsAnnounced(all, keys, values, |m|);
    StatableSize(m);
    ArrayDecodes(all);
    ArrayDecodes(keys);
    ArrayDecodes(values);
  }

  lemma StatableSize(m: map<string, string>)
    requires Statable(m)
    ensures 2 * |m| <= INT_MAX
  {
  }

  lemma EntryIsAnnounced(all: seq<string>, keys: seq<string>, values: seq<string>, m: map<string, string>, i: nat)
    requires SameEntry(all, keys, values, m, i) && Statable(m)
    ensures EntryAnnounced(all, keys, values, i)
  {
    hide Announced;
  }

  lemma EntryIsSent(all: seq<string>, keys: seq<string>, values: seq<string>, m: map<string, string>, i: nat)
    requires SameEntry(all, keys, values, m, i)
    ensures EntrySent(SentItems(Present(all)), SentItems(Present(keys)), SentItems(Present(values)), m, keys[i], i)
  {
    hide Sent;
  }

  ghost predicate EntryAnnounced(all: seq<string>, keys: seq<string>, values: seq<string>, i: nat) {
    && 2 * i + 1 < |all| && i < |keys| && i < |values|
    && Announced(Some(all[2 * i])) && Announced(Some(all[2 * i + 1]))
    && Announced(Some(keys[i])) && Announced(Some(values[i]))
  }

  lemma ColumnsAnnounced(all: seq<string>, keys: seq<string>, values: seq<string>, n: nat)
    requires |all| == 2 * n && |keys| == |values| == n
    requires forall i :: 0 <= i < n ==> EntryAnnounced(all, keys, values, i)
    ensures AllAnnounced(Present(all)) && AllAnnounced(Present(keys)) && AllAnnounced(Present(values))
  {
    hide Announced;
    forall j | 0 <= j < |all|
      ensures Announced(Present(all)[j])
    {
      assert EntryAnnounced(all, keys, values, j / 2);
    }
    forall i | 0 <= i < n
      ensures Announced(Present(keys)[i]) && Announced(Present(values)[i])
    {
      assert EntryAnnounced(all, keys, values, i);
    }
  }

  /**
   HGETALL, HKEYS and HVALS, as their replies are decoded: of a hash that counts its fields, all of them once
   each and with their values, in the same order; an empty array of any other hash, and of a missing key.
   */
  lemma HGetAllMeaning(st: Store, key: string)
    requires StoreInv(st)
    ensures DecodeArray(ArrayOf(None)) == Some(([], ""))
    ensures match Get<Val>(st, key)
            case None => key !in View(st)
            case Some(HashVal(t)) =>
              && key in View(st) && View(st)[key].AHash?
              && (Counted(t) && Statable(View(st)[key].fields) ==>
                    var items := Listed(t.slots);
                    exists names :: Lists(ArrayOf(Some(Flat(items))), ArrayOf(Some(Column(items, true))),
                                          ArrayOf(Some(Column(items, false))), View(st)[key].fields, names))
            case Some(_) => key in View(st) && !View(st)[key].AHash?
  {
    hide Listed, Flat, Column, ArrayOf, Lists, Statable, StoreInv, Contents;
    EmptyArrayDecodes();
    ItemOfView(st, key);
    match Get<Val>(st, key)
    case Some(HashVal(t)) =>
      HashIsUnique(t);
      if Statable(Contents(t.slots)) {
        ListingsDecode(t.slots);
      }
    case _ =>
  }

  lemma HashIsUnique(t: Tab<string>)
    requires ValOk(HashVal(t))
    ensures UniqueKeys(t.slots)
  {
  }

  /** DEL removes all keys at once and counts those that were there. */
  lemma DelMeaning(st: Store, keys: seq<string>)
    requires StoreInv(st) && FaithfulRun(st, DelSteps(keys))
    ensures Safe(st, DelSteps(keys))
    ensures var (after, answers) := DoAll(st, DelSteps(keys));
            && View(after) == View(st) - Elements(keys)
            && Oks(answers) == |View(st)| - |View(after)|
  {
    hide View, StoreInv, CleanAt, FaithfulRun;
    RunMeans(st, DelSteps(keys));
    DelRun(View(st), keys);
  }

  /** MSET sets all keys at once, the last value of each, but leaves a hash, list or set as it is. */
  lemma MSetMeaning(st: Store, argv: seq<string>)
    requires |argv| % 2 == 0 && StoreInv(st) && FaithfulRun(st, SetSteps(argv))
    ensures Safe(st, SetSteps(argv))
    ensures View(DoAll(st, SetSteps(argv)).0) == SetStrings(View(st), PairsMap(argv))
  {
    hide View, StoreInv, CleanAt, FaithfulRun;
    RunMeans(st, SetSteps(argv));
    MSetRun(View(st), argv);
  }
}
