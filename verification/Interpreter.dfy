/**
 The commands of src/interpreter.c: an argument count check, a type check of the key, a loop of
 store operations over the arguments, and a reply.
 */
module Interpreter {
  import opened Options
  import opened Integers
  import opened Decimals
  import opened Resp
  import opened Slots
  import opened Tables
  import opened TableProperties
  import opened Listings
  import opened StoreSpec
  import opened StoreProperties
  import opened Stores

  const OK_REPLY := "$2\r\nOK\r\n"
  const ERR_TYPE := ReplyError("ERR wrongtype operation")
  const ERR_INT := ReplyError("ERR value is not an integer or out of range")

  // ----- running the operations of one command

  /** How many operations answered true. */
  function Oks(answers: seq<Answer>): nat {
    if answers == [] then 0
    else Oks(answers[..|answers| - 1]) + if answers[|answers| - 1] == Flag(true) then 1 else 0
  }

  /** The answers of a prefix, then those of the rest. */
  ghost predicate RunsTo(st: StoreSpec.Store, steps: seq<Step>, i: nat, now: StoreSpec.Store, answers: seq<Answer>) {
    && i <= |steps| && Safe(st, steps) && Safe(now, steps[i..])
    && DoAll(st, steps) == (DoAll(now, steps[i..]).0, answers + DoAll(now, steps[i..]).1)
  }

  lemma RunStart(st: StoreSpec.Store, steps: seq<Step>)
    requires Safe(st, steps)
    ensures RunsTo(st, steps, 0, st, [])
  {
    assert steps[0..] == steps;
    assert [] + DoAll(st, steps).1 == DoAll(st, steps).1;
  }

  lemma RunStep(st: StoreSpec.Store, steps: seq<Step>, i: nat, now: StoreSpec.Store, answers: seq<Answer>,
                after: StoreSpec.Store, answer: Answer)
    requires RunsTo(st, steps, i, now, answers) && i < |steps|
    requires Does(now, steps[i].key, steps[i].prim, after, answer)
    ensures RunsTo(st, steps, i + 1, after, answers + [answer])
  {
    hide Do, Defined, Get;
    assert steps[i..][1..] == steps[i + 1..];
    var rest := DoAll(after, steps[i + 1..]).1;
    assert answers + ([answer] + rest) == (answers + [answer]) + rest;
  }

  lemma RunDefined(st: StoreSpec.Store, steps: seq<Step>, i: nat, now: StoreSpec.Store, answers: seq<Answer>)
    requires RunsTo(st, steps, i, now, answers) && i < |steps|
    ensures Defined(Get(now, steps[i].key), steps[i].prim)
  {
  }

  lemma RunEnd(st: StoreSpec.Store, steps: seq<Step>, now: StoreSpec.Store, answers: seq<Answer>)
    requires RunsTo(st, steps, |steps|, now, answers)
    ensures DoAll(st, steps) == (now, answers)
  {
    assert steps[|steps|..] == [];
    assert answers + [] == answers;
  }

  /** The loop of a command over its arguments. */
  method RunSteps(s: TypedStore, steps: seq<Step>) returns (answers: seq<Answer>)
    requires s.Valid() && Safe(s.Abs(), steps)
    modifies s.Repr
    ensures s.Valid() && fresh(s.Repr - old(s.Repr))
    ensures (s.Abs(), answers) == DoAll(old(s.Abs()), steps)
  {
    hide *;
    ghost var st := s.Abs();
    RunStart(st, steps);
    answers := [];
    var i := 0;
    while i < |steps|
      invariant 0 <= i <= |steps|
      invariant s.Valid() && fresh(s.Repr - old(s.Repr))
      invariant RunsTo(st, steps, i, s.Abs(), answers)
    {
      RunDefined(st, steps, i, s.Abs(), answers);
      ghost var now := s.Abs();
      var answer := s.Perform(steps[i].key, steps[i].prim);
      RunStep(st, steps, i, now, answers, s.Abs(), answer);
      answers := answers + [answer];
      i := i + 1;
    }
    RunEnd(st, steps, s.Abs(), answers);
  }

  /** The type check: the key is missing or names an item of the kind. */
  method IsType(s: TypedStore, key: string, kind: Kind) returns (r: bool)
    requires s.Valid()
    ensures r <==> Allows(s.Abs(), key, kind)
  {
    hide TypedStore.Valid, TypedStore.Layout, StoreInv, Get;
    var found := s.TypeOf(key);
    return found.None? || found.value == kind;
  }

  /** How a command makes its reply of the answers. */
  datatype Encoding = TrueCount | LastNumber | LastText

  function Encode(e: Encoding, answers: seq<Answer>): string {
    match e
    case TrueCount => ReplyInteger(Oks(answers))
    case LastNumber =>
      if answers != [] && answers[|answers| - 1].Number? then ReplyInteger(answers[|answers| - 1].n)
      else ReplyInteger(0)
    case LastText =>
      if answers != [] && answers[|answers| - 1].Text? then ReplyString(answers[|answers| - 1].text)
      else ReplyString(None)
  }

  /** A command on one key: a type error that changes nothing, or the operations one after the other. */
  ghost function TypedCommand(st: StoreSpec.Store, key: string, kind: Kind, prims: seq<Prim>,
                              e: Encoding): (StoreSpec.Store, string)
    requires StoreInv(st) && OfKind(prims, kind)
  {
    if !Allows(st, key, kind) then (st, ERR_TYPE)
    else
      CommandSafe(st, Steps(key, prims), key, kind);
      var (after, answers) := DoAll(st, Steps(key, prims));
      (after, Encode(e, answers))
  }

  /** The commands of a run are the commands of one call each. */
  lemma RunsAreCommands(st: StoreSpec.Store, key: string, kind: Kind, prims: seq<Prim>, e: Encoding, steps: seq<Step>)
    requires StoreInv(st) && OfKind(prims, kind) && Untyped(steps)
    ensures RunCommand(st, Typed(key, kind, prims)) == TypedCommand(st, key, kind, prims, e).0
    ensures Safe(st, steps) && RunCommand(st, Free(steps)) == DoAll(st, steps).0
  {
    hide DoAll, Safe, Allows, StoreInv;
    CommandDefined(st, Typed(key, kind, prims));
    CommandDefined(st, Free(steps));
  }

  lemma TypeRejected(st: StoreSpec.Store, key: string, kind: Kind, prims: seq<Prim>, e: Encoding)
    requires StoreInv(st) && OfKind(prims, kind) && !Allows(st, key, kind)
    ensures TypedCommand(st, key, kind, prims, e) == (st, ERR_TYPE)
  {
  }

  /** The type check of a command on one key, its loop and its reply. */
  method RunTyped(s: TypedStore, key: string, kind: Kind, prims: seq<Prim>, e: Encoding) returns (reply: string)
    requires s.Valid() && OfKind(prims, kind)
    modifies s.Repr
    ensures s.Valid() && fresh(s.Repr - old(s.Repr))
    ensures (s.Abs(), reply) == TypedCommand(old(s.Abs()), key, kind, prims, e)
  {
    ghost var st := s.Abs();
    hide TypedStore.Valid, TypedStore.Layout, StoreInv, DoAll, Safe, Get, Encode;
    var allowed := IsType(s, key, kind);
    if !allowed {
      return ERR_TYPE;
    }
    CommandSafe(st, Steps(key, prims), key, kind);
    var answers := RunSteps(s, Steps(key, prims));
    return Encode(e, answers);
  }

  // ----- commands that change the store

  function DelSteps(keys: seq<string>): (r: seq<Step>)
    ensures Untyped(r) && |r| == |keys|
  {
    seq(|keys|, i requires 0 <= i < |keys| => Step(keys[i], Del))
  }

  method ExecDel(s: TypedStore, argv: seq<string>) returns (reply: string)
    requires s.Valid()
    modifies s.Repr
    ensures s.Valid() && fresh(s.Repr - old(s.Repr))
    ensures |argv| == 0 ==> s.Abs() == old(s.Abs()) && reply == ErrArgc(0, "1+")
    ensures |argv| > 0 ==>
              && Safe(old(s.Abs()), DelSteps(argv))
              && s.Abs() == DoAll(old(s.Abs()), DelSteps(argv)).0
              && reply == ReplyInteger(Oks(DoAll(old(s.Abs()), DelSteps(argv)).1))
  {
    hide TypedStore.Valid, TypedStore.Layout, StoreInv, DoAll, Safe;
    if |argv| < 1 {
      return ErrArgc(|argv|, "1+");
    }
    UntypedSafe(s.Abs(), DelSteps(argv));
    var answers := RunSteps(s, DelSteps(argv));
    return ReplyInteger(Oks(answers));
  }

  /** Keys and values alternate. */
  function SetSteps(argv: seq<string>): (r: seq<Step>)
    requires |argv| % 2 == 0
    ensures Untyped(r) && |r| == |argv| / 2
  {
    seq(|argv| / 2, i requires 0 <= i < |argv| / 2 => Step(argv[2 * i], SetStr(argv[2 * i + 1])))
  }

  /** SET without a value sets the empty string, SET without a key does nothing, and both answer OK. */
  method ExecSet(s: TypedStore, argv: seq<string>) returns (reply: string)
    requires s.Valid()
    modifies s.Repr
    ensures s.Valid() && fresh(s.Repr - old(s.Repr))
    ensures |argv| > 2 || |argv| == 0 ==> s.Abs() == old(s.Abs())
    ensures reply == if |argv| > 2 then ErrArgc(|argv|, "0..2") else OK_REPLY
    ensures 1 <= |argv| <= 2 ==>
              s.Abs() == Do(old(s.Abs()), argv[0], SetStr(if |argv| == 2 then argv[1] else "")).0
  {
    hide TypedStore.Valid, TypedStore.Layout, StoreInv, Do;
    if |argv| > 2 {
      return ErrArgc(|argv|, "0..2");
    }
    if |argv| == 1 {
      var ok := s.SetStr(argv[0], "");
    }
    if |argv| == 2 {
      var ok := s.SetStr(argv[0], argv[1]);
    }
    return OK_REPLY;
  }

  method ExecMSet(s: TypedStore, argv: seq<string>) returns (reply: string)
    requires s.Valid()
    modifies s.Repr
    ensures s.Valid() && fresh(s.Repr - old(s.Repr))
    ensures |argv| < 2 || |argv| % 2 == 1 ==> s.Abs() == old(s.Abs()) && reply == ErrArgc(|argv|, "2+")
    ensures |argv| >= 2 && |argv| % 2 == 0 ==>
              && Safe(old(s.Abs()), SetSteps(argv))
              && s.Abs() == DoAll(old(s.Abs()), SetSteps(argv)).0
              && reply == OK_REPLY
  {
    hide TypedStore.Valid, TypedStore.Layout, StoreInv, DoAll, Safe;
    if |argv| < 2 || |argv| % 2 != 0 {
      return ErrArgc(|argv|, "2+");
    }
    UntypedSafe(s.Abs(), SetSteps(argv));
    var answers := RunSteps(s, SetSteps(argv));
    return OK_REPLY;
  }

  function HSetPrims(argv: seq<string>): (r: seq<Prim>)
    requires |argv| % 2 == 1
    ensures OfKind(r, HashKind) && |r| == |argv| / 2
  {
    seq(|argv| / 2, i requires 0 <= i < |argv| / 2 => HSet(argv[2 * i + 1], argv[2 * i + 2]))
  }

  function HDelPrims(fields: seq<string>): (r: seq<Prim>)
    ensures OfKind(r, HashKind) && |r| == |fields|
  {
    seq(|fields|, i requires 0 <= i < |fields| => HDel(fields[i]))
  }

  function PushPrims(values: seq<string>, left: bool): (r: seq<Prim>)
    ensures OfKind(r, ListKind) && |r| == |values|
  {
    seq(|values|, i requires 0 <= i < |values| => Push(values[i], left))
  }

  function SAddPrims(members: seq<string>): (r: seq<Prim>)
    ensures OfKind(r, SetKind) && |r| == |members|
  {
    seq(|members|, i requires 0 <= i < |members| => SAdd(members[i]))
  }

  function SRemPrims(members: seq<string>): (r: seq<Prim>)
    ensures OfKind(r, SetKind) && |r| == |members|
  {
    seq(|members|, i requires 0 <= i < |members| => SRem(members[i]))
  }

  method ExecHSet(s: TypedStore, argv: seq<string>) returns (reply: string)
    requires s.Valid()
    modifies s.Repr
    ensures s.Valid() && fresh(s.Repr - old(s.Repr))
    ensures !(|argv| >= 3 && |argv| % 2 == 1) ==> s.Abs() == old(s.Abs()) && reply == ErrArgc(|argv|, "3+")
    ensures |argv| >= 3 && |argv| % 2 == 1 ==>
              (s.Abs(), reply) == TypedCommand(old(s.Abs()), argv[0], HashKind, HSetPrims(argv), TrueCount)
  {
    hide TypedStore.Valid, TypedStore.Layout, StoreInv, TypedCommand;
    if !(|argv| >= 3 && |argv| % 2 == 1) {
      return ErrArgc(|argv|, "3+");
    }
    reply := RunTyped(s, argv[0], HashKind, HSetPrims(argv), TrueCount);
  }

  /** Fields after the one that empties the hash find no hash and answer false. */
  method ExecHDel(s: TypedStore, argv: seq<string>) returns (reply: string)
    requires s.Valid()
    modifies s.Repr
    ensures s.Valid() && fresh(s.Repr - old(s.Repr))
    ensures !(|argv| >= 2) ==> s.Abs() == old(s.Abs()) && reply == ErrArgc(|argv|, "2+")
    ensures |argv| >= 2 ==>
              (s.Abs(), reply) == TypedCommand(old(s.Abs()), argv[0], HashKind, HDelPrims(argv[1..]), TrueCount)
  {
    hide TypedStore.Valid, TypedStore.Layout, StoreInv, TypedCommand;
    if !(|argv| >= 2) {
      return ErrArgc(|argv|, "2+");
    }
    reply := RunTyped(s, argv[0], HashKind, HDelPrims(argv[1..]), TrueCount);
  }

  /** Replies with the length after the last push. */
  method ExecPush(s: TypedStore, argv: seq<string>, left: bool) returns (reply: string)
    requires s.Valid()
    modifies s.Repr
    ensures s.Valid() && fresh(s.Repr - old(s.Repr))
    ensures !(|argv| >= 2) ==> s.Abs() == old(s.Abs()) && reply == ErrArgc(|argv|, "2+")
    ensures |argv| >= 2 ==>
              (s.Abs(), reply) == TypedCommand(old(s.Abs()), argv[0], ListKind, PushPrims(argv[1..], left), LastNumber)
  {
    hide TypedStore.Valid, TypedStore.Layout, StoreInv, TypedCommand;
    if !(|argv| >= 2) {
      return ErrArgc(|argv|, "2+");
    }
    reply := RunTyped(s, argv[0], ListKind, PushPrims(argv[1..], left), LastNumber);
  }

  method ExecPop(s: TypedStore, argv: seq<string>, left: bool) returns (reply: string)
    requires s.Valid()
    modifies s.Repr
    ensures s.Valid() && fresh(s.Repr - old(s.Repr))
    ensures !(|argv| == 1) ==> s.Abs() == old(s.Abs()) && reply == ErrArgc(|argv|, "1")
    ensures |argv| == 1 ==>
              (s.Abs(), reply) == TypedCommand(old(s.Abs()), argv[0], ListKind, [Pop(left)], LastText)
  {
    hide TypedStore.Valid, TypedStore.Layout, StoreInv, TypedCommand;
    if !(|argv| == 1) {
      return ErrArgc(|argv|, "1");
    }
    reply := RunTyped(s, argv[0], ListKind, [Pop(left)], LastText);
  }

  method ExecSAdd(s: TypedStore, argv: seq<string>) returns (reply: string)
    requires s.Valid()
    modifies s.Repr
    ensures s.Valid() && fresh(s.Repr - old(s.Repr))
    ensures !(|argv| >= 2) ==> s.Abs() == old(s.Abs()) && reply == ErrArgc(|argv|, "2+")
    ensures |argv| >= 2 ==>
              (s.Abs(), reply) == TypedCommand(old(s.Abs()), argv[0], SetKind, SAddPrims(argv[1..]), TrueCount)
  {
    hide TypedStore.Valid, TypedStore.Layout, StoreInv, TypedCommand;
    if !(|argv| >= 2) {
      return ErrArgc(|argv|, "2+");
    }
    reply := RunTyped(s, argv[0], SetKind, SAddPrims(argv[1..]), TrueCount);
  }

  method ExecSRem(s: TypedStore, argv: seq<string>) returns (reply: string)
    requires s.Valid()
    modifies s.Repr
    ensures s.Valid() && fresh(s.Repr - old(s.Repr))
    ensures !(|argv| >= 2) ==> s.Abs() == old(s.Abs()) && reply == ErrArgc(|argv|, "2+")
    ensures |argv| >= 2 ==>
              (s.Abs(), reply) == TypedCommand(old(s.Abs()), argv[0], SetKind, SRemPrims(argv[1..]), TrueCount)
  {
    hide TypedStore.Valid, TypedStore.Layout, StoreInv, TypedCommand;
    if !(|argv| >= 2) {
      return ErrArgc(|argv|, "2+");
    }
    reply := RunTyped(s, argv[0], SetKind, SRemPrims(argv[1..]), TrueCount);
  }

  /** LREM reads its count after the type check. */
  method ExecLRem(s: TypedStore, argv: seq<string>) returns (reply: string)
    requires s.Valid()
    modifies s.Repr
    ensures s.Valid() && fresh(s.Repr - old(s.Repr))
    ensures |argv| != 3 ==> s.Abs() == old(s.Abs()) && reply == ErrArgc(|argv|, "3")
    ensures |argv| == 3 && Allows(old(s.Abs()), argv[0], ListKind) && !Numeric(argv[1]) ==>
              s.Abs() == old(s.Abs()) && reply == ERR_INT
    ensures |argv| == 3 && (Allows(old(s.Abs()), argv[0], ListKind) ==> Numeric(argv[1])) ==>
              (s.Abs(), reply) ==
              TypedCommand(old(s.Abs()), argv[0], ListKind, [LRem(IntValue(argv[1]), argv[2])], LastNumber)
  {
    hide TypedStore.Valid, TypedStore.Layout, TypedStore.Abs, StoreInv, TypedCommand, Allows, Get, IntValue, Numeric;
    if |argv| != 3 {
      return ErrArgc(|argv|, "3");
    }
    var allowed := IsType(s, argv[0], ListKind);
    if !allowed {
      TypeRejected(s.Abs(), argv[0], ListKind, [LRem(IntValue(argv[1]), argv[2])], LastNumber);
      return ERR_TYPE;
    }
    var number := IsNumber(argv[1]);
    if !number {
      return ERR_INT;
    }
    var count := StrToI(argv[1]);
    reply := RunTyped(s, argv[0], ListKind, [LRem(count, argv[2])], LastNumber);
  }

  // ----- counters

  /**
   What an increment by `delta` does: a missing key takes `first`, a number changes by `delta` in an
   `int`, and any other text or kind is an error that changes nothing.
   */
  ghost predicate Counts(st: StoreSpec.Store, key: string, delta: int, first: int32, after: StoreSpec.Store,
                         reply: string)
  {
    match Get<Val>(st, key)
    case None => CountsTo(st, key, first, after, reply)
    case Some(StrVal(v)) =>
      if Numeric(v) then CountsTo(st, key, Wrap(IntValue(v) + delta), after, reply)
      else after == st && reply == ERR_INT
    case Some(_) => after == st && reply == ERR_TYPE
  }

  /** The number is stored as text and replied. */
  ghost predicate CountsTo(st: StoreSpec.Store, key: string, n: int32, after: StoreSpec.Store, reply: string) {
    Does(st, key, SetStr(Decimal(n)), after, Flag(true)) && reply == ReplyInteger(n)
  }

  lemma SetAnswers(st: StoreSpec.Store, key: string, value: string)
    requires Allows(st, key, StrKind)
    ensures Do(st, key, SetStr(value)).1 == Flag(true)
  {
  }

  /** INCR and DECR; `step` is 1 or -1. */
  method ExecIncr(s: TypedStore, argv: seq<string>, step: int32) returns (reply: string)
    requires s.Valid()
    modifies s.Repr
    ensures s.Valid() && fresh(s.Repr - old(s.Repr))
    ensures |argv| != 1 ==> s.Abs() == old(s.Abs()) && reply == ErrArgc(|argv|, "1")
    ensures |argv| == 1 ==> Counts(old(s.Abs()), argv[0], step, step, s.Abs(), reply)
  {
    hide TypedStore.Valid, TypedStore.Layout, TypedStore.Abs, StoreInv, Find, Do, Get, Decimal, IntValue;
    if |argv| != 1 {
      return ErrArgc(|argv|, "1");
    }
    var allowed := IsType(s, argv[0], StrKind);
    if !allowed {
      return ERR_TYPE;
    }
    var res := s.GetStr(argv[0]);
    var n: int32 := step;
    if res.Some? {
      var number := IsNumber(res.value);
      if !number {
        return ERR_INT;
      }
      var x := StrToI(res.value);
      n := Wrap(x + step);
    }
    SetAnswers(s.Abs(), argv[0], Decimal(n));
    var ok := s.SetStr(argv[0], Decimal(n));
    return ReplyInteger(n);
  }

  /**
   INCRBY and DECRBY; `sign` is 1 or -1. A missing key takes the operand as it is, for DECRBY too.
   With a missing key the operand must be a number: the code goes on to read a null value otherwise.
   */
  method ExecIncrBy(s: TypedStore, argv: seq<string>, sign: int) returns (reply: string)
    requires s.Valid()
    requires |argv| == 2 && Get(s.Abs(), argv[0]).None? ==> Numeric(argv[1])
    modifies s.Repr
    ensures s.Valid() && fresh(s.Repr - old(s.Repr))
    ensures |argv| != 2 ==> s.Abs() == old(s.Abs()) && reply == ErrArgc(|argv|, "2")
    ensures |argv| == 2 && Numeric(argv[1]) ==>
              Counts(old(s.Abs()), argv[0], sign * IntValue(argv[1]), IntValue(argv[1]), s.Abs(), reply)
    ensures |argv| == 2 && !Numeric(argv[1]) ==>
              && s.Abs() == old(s.Abs())
              && match Get<Val>(old(s.Abs()), argv[0])
                 case Some(StrVal(_)) => reply == ERR_INT
                 case _ => reply == ERR_TYPE
  {
    hide TypedStore.Valid, TypedStore.Layout, TypedStore.Abs, StoreInv, Find, Do, Get, Decimal, IntValue;
    if |argv| != 2 {
      return ErrArgc(|argv|, "2");
    }
    var allowed := IsType(s, argv[0], StrKind);
    if !allowed {
      return ERR_TYPE;
    }
    var res := s.GetStr(argv[0]);
    var operand := IsNumber(argv[1]);
    if !operand {
      return ERR_INT;
    }
    var y := StrToI(argv[1]);
    var n: int32 := y;
    if res.Some? {
      var number := IsNumber(res.value);
      if !number {
        return ERR_INT;
      }
      var x := StrToI(res.value);
      n := Wrap(x + sign * y);
    }
    SetAnswers(s.Abs(), argv[0], Decimal(n));
    var ok := s.SetStr(argv[0], Decimal(n));
    return ReplyInteger(n);
  }

  // ----- commands that read

  method ExecGet(s: TypedStore, argv: seq<string>) returns (reply: string)
    requires s.Valid()
    ensures |argv| != 1 ==> reply == ErrArgc(|argv|, "1")
    ensures |argv| == 1 ==>
              match Get<Val>(s.Abs(), argv[0])
              case None => reply == ReplyString(None)
              case Some(StrVal(value)) => reply == ReplyString(Some(value))
              case Some(_) => reply == ERR_TYPE
  {
    hide TypedStore.Valid, TypedStore.Layout, TypedStore.Abs, StoreInv, Find, Get, ReplyString;
    if |argv| != 1 {
      return ErrArgc(|argv|, "1");
    }
    var allowed := IsType(s, argv[0], StrKind);
    if !allowed {
      return ERR_TYPE;
    }
    var res := s.GetStr(argv[0]);
    return ReplyString(res);
  }

  /** What an array reply holds: nothing for a missing array. */
  function ArrayOf(items: Option<seq<string>>): string {
    match items
    case None => ArrayHeader(0)
    case Some(v) => ArrayHeader(|v|) + ReplyItems(Present(v))
  }

  /** HGETALL lists fields and values in turn when the hash counts its live slots, and an empty array otherwise. */
  method ExecHGetAll(s: TypedStore, argv: seq<string>) returns (reply: string)
    requires s.Valid()
    ensures |argv| != 1 ==> reply == ErrArgc(|argv|, "1")
    ensures |argv| == 1 ==>
              match Get<Val>(s.Abs(), argv[0])
              case None => reply == ArrayOf(None)
              case Some(HashVal(t)) => reply == ArrayOf(if Counted(t) then Some(Flat(Listed(t.slots))) else None)
              case Some(_) => reply == ERR_TYPE
  {
    hide TypedStore.Valid, TypedStore.Layout, TypedStore.Abs, StoreInv, Find, Get, ReplyItems, ArrayHeader, Flat,
         Listed, Counted;
    if |argv| != 1 {
      return ErrArgc(|argv|, "1");
    }
    var allowed := IsType(s, argv[0], HashKind);
    if !allowed {
      return ERR_TYPE;
    }
    var res := s.HGetAll(argv[0]);
    reply := ReplyArray(res);
  }

  /** HKEYS and HVALS, under the same condition. */
  method ExecHKeyVals(s: TypedStore, argv: seq<string>, key: bool) returns (reply: string)
    requires s.Valid()
    ensures |argv| != 1 ==> reply == ErrArgc(|argv|, "1")
    ensures |argv| == 1 ==>
              match Get<Val>(s.Abs(), argv[0])
              case None => reply == ArrayOf(None)
              case Some(HashVal(t)) => reply == ArrayOf(if Counted(t) then Some(Column(Listed(t.slots), key)) else None)
              case Some(_) => reply == ERR_TYPE
  {
    hide TypedStore.Valid, TypedStore.Layout, TypedStore.Abs, StoreInv, Find, Get, ReplyItems, ArrayHeader, Column,
         Listed, Counted;
    if |argv| != 1 {
      return ErrArgc(|argv|, "1");
    }
    var allowed := IsType(s, argv[0], HashKind);
    if !allowed {
      return ERR_TYPE;
    }
    var res := s.HKeyVals(argv[0], key);
    reply := ReplyArray(res);
  }

  /**
   LINDEX: the value at the index, counted from the end if negative; null for a missing key, an error out of
   range.
   */
  method ExecLIndex(s: TypedStore, argv: seq<string>) returns (reply: string)
    requires s.Valid()
    ensures |argv| != 2 ==> reply == ErrArgc(|argv|, "2")
    ensures |argv| == 2 ==>
              match Get<Val>(s.Abs(), argv[0])
              case None => reply == if Numeric(argv[1]) then ReplyString(None) else ERR_INT
              case Some(ListVal(items)) =>
                var id := IntValue(argv[1]);
                reply ==
                if !Numeric(argv[1]) then ERR_INT
                else if 0 <= id < |items| then ReplyString(Some(items[id]))
                else if -|items| <= id < 0 then ReplyString(Some(items[|items| + id]))
                else ERR_INT
              case Some(_) => reply == ERR_TYPE
  {
    hide TypedStore.Valid, TypedStore.Layout, TypedStore.Abs, StoreInv, Find, Get, IntValue, ReplyString;
    if |argv| != 2 {
      return ErrArgc(|argv|, "2");
    }
    var allowed := IsType(s, argv[0], ListKind);
    if !allowed {
      return ERR_TYPE;
    }
    var number := IsNumber(argv[1]);
    if !number {
      return ERR_INT;
    }
    var id := StrToI(argv[1]);
    var code, at := s.CheckId(argv[0], id);
    if code == 0 {
      return ERR_INT;
    }
    var res: Option<string> := None;
    if code > 0 {
      res := s.LIndex(argv[0], at);
    }
    return ReplyString(res);
  }

  /** LRANGE: both ends included, counted from the end if negative, and both in the list in order. */
  method ExecLRange(s: TypedStore, argv: seq<string>) returns (reply: string)
    requires s.Valid()
    ensures |argv| != 3 ==> reply == ErrArgc(|argv|, "3")
    ensures |argv| == 3 ==>
              match Get<Val>(s.Abs(), argv[0])
              case None => reply == if Numeric(argv[1]) && Numeric(argv[2]) then ArrayOf(None) else ERR_INT
              case Some(ListVal(items)) =>
                var begin, end := IntValue(argv[1]), IntValue(argv[2]);
                var from, to := if begin >= 0 then begin else |items| + begin, if end >= 0 then end else |items| + end;
                reply ==
                if !Numeric(argv[1]) || !Numeric(argv[2]) then ERR_INT
                else if 0 <= from <= to < |items| then ArrayOf(Some(items[from..to + 1]))
                else ERR_INT
              case Some(_) => reply == ERR_TYPE
  {
    hide TypedStore.Valid, TypedStore.Layout, TypedStore.Abs, StoreInv, Find, Get, IntValue, ReplyItems, ArrayHeader;
    if |argv| != 3 {
      return ErrArgc(|argv|, "3");
    }
    var allowed := IsType(s, argv[0], ListKind);
    if !allowed {
      return ERR_TYPE;
    }
    var first := IsNumber(argv[1]);
    var second := IsNumber(argv[2]);
    if !first || !second {
      return ERR_INT;
    }
    var begin := StrToI(argv[1]);
    var end := StrToI(argv[2]);
    var code, from, to := s.CheckIds(argv[0], begin, end);
    if code == 0 {
      return ERR_INT;
    }
    var res: Option<seq<string>> := None;
    if code > 0 {
      var values := s.LRange(argv[0], from, to);
      res := Some(values);
    }
    reply := ReplyArray(res);
  }

  lemma LSetOutcome(st: StoreSpec.Store, key: string, id: int, value: string)
    requires StoreInv(st) && Allows(st, key, ListKind)
    ensures Defined(Get(st, key), LSet(id, value))
    ensures match Get<Val>(st, key)
            case Some(ListVal(items)) => 0 <= id < |items| ==> Do(st, key, LSet(id, value)).1 == Flag(true)
            case _ => Do(st, key, LSet(id, value)) == (st, Flag(false))
  {
    AllowedIsDefined(st, key, ListKind, LSet(id, value));
  }

  /** LSET replies OK only to an index in the list; a missing key is a null reply. */
  method ExecLSet(s: TypedStore, argv: seq<string>) returns (reply: string)
    requires s.Valid()
    modifies s.Repr
    ensures s.Valid() && fresh(s.Repr - old(s.Repr))
    ensures |argv| != 3 ==> s.Abs() == old(s.Abs()) && reply == ErrArgc(|argv|, "3")
    ensures |argv| == 3 ==>
              match Get<Val>(old(s.Abs()), argv[0])
              case None =>
                && s.Abs() == old(s.Abs())
                && reply == (if Numeric(argv[1]) then ReplyString(None) else ERR_INT)
              case Some(ListVal(items)) =>
                var id := IntValue(argv[1]);
                var at := if id >= 0 then id else |items| + id;
                if Numeric(argv[1]) && 0 <= at < |items|
                then Does(old(s.Abs()), argv[0], LSet(at, argv[2]), s.Abs(), Flag(true)) && reply == OK_REPLY
                else s.Abs() == old(s.Abs()) && reply == ERR_INT
              case Some(_) => s.Abs() == old(s.Abs()) && reply == ERR_TYPE
  {
    hide TypedStore.Valid, TypedStore.Layout, TypedStore.Abs, StoreInv, Find, IntValue, ReplyString, Do, Get;
    if |argv| != 3 {
      return ErrArgc(|argv|, "3");
    }
    var allowed := IsType(s, argv[0], ListKind);
    if !allowed {
      return ERR_TYPE;
    }
    var number := IsNumber(argv[1]);
    if !number {
      return ERR_INT;
    }
    var id := StrToI(argv[1]);
    var code, at := s.CheckId(argv[0], id);
    if code == 0 {
      return ERR_INT;
    }
    LSetOutcome(s.Abs(), argv[0], at, argv[2]);
    var ok := s.LSet(argv[0], at, argv[2]);
    return if code > 0 then OK_REPLY else ReplyString(None);
  }

  // ----- commands together

  /** The key is new and is dropped, by the store or by the growth it starts. */
  ghost predicate SetLosesKey(st: StoreSpec.Store, key: string, value: string)
    requires |st.slots| > 0
  {
    Find(st.slots, key, 0).None? && InsertLosesKey(st, key, StrVal(value))
  }

  /**
   SET and then GET: the reply holds the value, or null exactly when the key was dropped, and never a
   value set before. The client reads it back, whatever bytes it holds, if its length is an `int`.
   */
  lemma SetThenGet(st: StoreSpec.Store, key: string, value: string)
    requires StoreInv(st) && Allows(st, key, StrKind)
    ensures var (after, answer) := Do(st, key, SetStr(value));
            var found := if SetLosesKey(st, key, value) then None else Some(value);
            && answer == Flag(true)
            && Get(after, key) == (if found.None? then None else Some(StrVal(value)))
            && HasBody(ReplyString(found))
            && (StrOf(ReplyString(found)) == found <==> found.None? || |value| <= INT_MAX)
            && (DecodeItem(ReplyString(found)) == Some((if found.None? then Nil else Bulk(value), "")) <==>
                found.None? || |value| <= INT_MAX)
  {
    var after := Do(st, key, SetStr(value)).0;
    DoSetStr(st, key, value);
    FindIffLive(st.slots, key);
    if Find(st.slots, key, 0).None? {
      InsertedIsFound(st, key, StrVal(value));
    } else {
      OverwriteProperties(st, key, Find(st.slots, key, 0).value, StrVal(value));
      GetValue(after, key);
    }
    var found := if SetLosesKey(st, key, value) then None else Some(value);
    StringRoundTrip(found, "");
    NullDecodes("");
    BulkDecodes(value, "");
    assert ReplyString(found) + "" == ReplyString(found);
  }

  /** Overwriting a string twice is overwriting it once. */
  lemma SetTwice(st: StoreSpec.Store, key: string, x: string, y: string)
    requires StoreInv(st) && Get(st, key).Some? && Get(st, key).value.StrVal?
    ensures var mid := Do(st, key, SetStr(x)).0;
            && StoreInv(mid) && Get(mid, key) == Some(StrVal(x))
            && Do(mid, key, SetStr(y)) == Do(st, key, SetStr(y))
  {
    hide Do, StoreInv, Find, EffectOf;
    StoreIsValid(st);
    var p := Find(st.slots, key, 0).value;
    DoSetStr(st, key, x);
    DoSetStr(st, key, y);
    ReplacedIsFound(st, key, p, StrVal(x), StrVal(y));
    DoSetStr(Replace(st, p, StrVal(x)), key, y);
  }

  /** Two increments of a counter are one increment by the sum, wrap-around included. */
  lemma CountsAdd(st: StoreSpec.Store, key: string, a: int, b: int, first: int32, second: int32,
                  mid: StoreSpec.Store, end: StoreSpec.Store, reply: string, last: string)
    requires StoreInv(st) && Get(st, key).Some? && Get(st, key).value.StrVal? && Numeric(Get(st, key).value.s)
    requires Counts(st, key, a, first, mid, reply) && Counts(mid, key, b, second, end, last)
    ensures Counts(st, key, a + b, first, end, last)
  {
    hide Do, Get, Decimal, IntValue, Numeric, StoreInv, ReplyInteger, Wrap;
    var x := IntValue(Get(st, key).value.s);
    var n := Wrap(x + a);
    ReadBackDecimal(n);
    WrapStep(x + a, 1, b);
    SetTwice(st, key, Decimal(n), Decimal(Wrap(n + b)));
  }

  /**
   What an increment leaves on the finite map of items, and what a decoder reads in its reply: on a
   missing key the first value, on a number the sum as an `int`, which the text stored reads as.
   */
  lemma CounterMeaning(st: StoreSpec.Store, key: string, delta: int, first: int32, after: StoreSpec.Store,
                       reply: string)
    requires StoreInv(st) && Counts(st, key, delta, first, after, reply)
    ensures var m, m' := Contents(st.slots), Contents(after.slots);
            if key !in m then
              && DecodeItem(reply) == Some((Int(first), "")) && HasLine(reply) && IntOf(reply) == first
              && (if SetLosesKey(st, key, Decimal(first)) then key !in m'
                  else key in m' && m'[key] == StrVal(Decimal(first)))
            else
              match m[key]
              case StrVal(v) =>
                if Numeric(v) then
                  var n := Wrap(Value(v) + delta);
                  && DecodeItem(reply) == Some((Int(n), "")) && HasLine(reply) && IntOf(reply) == n
                  && key in m' && m'[key] == StrVal(Decimal(n)) && Value(Decimal(n)) == n
                else after == st && DecodeItem(reply).Some? && DecodeItem(reply).value.0.Error?
              case _ => after == st && DecodeItem(reply).Some? && DecodeItem(reply).value.0.Error?
  {
    hide Do, Decimal, Value, Numeric, StoreInv, DecodeItem, IntOf, HasLine, SetLosesKey, Contents, Wrap;
    StoreIsValid(st);
    GetValue(st, key);
    FixedReplies();
    match Get<Val>(st, key)
    case None => CountedTo(st, key, first, after, reply);
    case Some(StrVal(v)) =>
      if Numeric(v) {
        WrapStep(Value(v), 1, delta);
        CountedTo(st, key, Wrap(Value(v) + delta), after, reply);
      }
    case Some(_) =>
  }

  lemma CountedTo(st: StoreSpec.Store, key: string, n: int32, after: StoreSpec.Store, reply: string)
    requires StoreInv(st) && Allows(st, key, StrKind) && CountsTo(st, key, n, after, reply)
    ensures DecodeItem(reply) == Some((Int(n), "")) && HasLine(reply) && IntOf(reply) == n
    ensures Value(Decimal(n)) == n
    ensures var m' := Contents(after.slots);
            if SetLosesKey(st, key, Decimal(n)) then key !in m' else key in m' && m'[key] == StrVal(Decimal(n))
    ensures Get(st, key).Some? ==> !SetLosesKey(st, key, Decimal(n))
  {
    hide Decimal, Value, DecodeItem, IntOf, HasLine, ReplyInteger, Contents, InsertLosesKey, StoreInv;
    DoProperties(st, key, SetStr(Decimal(n)));
    SetThenGet(st, key, Decimal(n));
    StoreIsValid(after);
    GetValue(after, key);
    IntegerRoundTrip(n, "");
    IntegerDecodes(n, "");
    ReadBackDecimal(n);
    assert ReplyInteger(n) + "" == ReplyInteger(n);
  }

  lemma OneDigit()
    ensures Decimal(1) == "1" && Decimal(-1) == "-1" && Decimal(2) == "2"
  {
    assert Digits(1) == Digits(0) + [DigitChar(1)];
    assert Digits(2) == Digits(0) + [DigitChar(2)];
  }

  /** INCR of a missing key leaves "1" and DECR of one leaves "-1", and so they reply, unless the new key is dropped. */
  lemma FirstIncrement(st: StoreSpec.Store, key: string, step: int32, after: StoreSpec.Store, reply: string)
    requires StoreInv(st) && key !in Contents(st.slots) && (step == 1 || step == -1)
    requires Counts(st, key, step, step, after, reply)
    ensures reply == if step == 1 then ":1\r\n" else ":-1\r\n"
    ensures var text, m' := if step == 1 then "1" else "-1", Contents(after.slots);
            if SetLosesKey(st, key, text) then key !in m' else key in m' && m'[key] == StrVal(text)
  {
    hide Do, Decimal, Contents, StoreInv, SetLosesKey, DecodeItem, HasLine, IntOf, Value;
    OneDigit();
    CounterMeaning(st, key, step, step, after, reply);
    StoreIsValid(st);
    GetValue(st, key);
  }

  /** The fixed replies, as a decoder reads them. */
  lemma FixedReplies()
    ensures DecodeItem(OK_REPLY) == Some((Bulk("OK"), ""))
    ensures DecodeItem(ERR_TYPE) == Some((Error("ERR wrongtype operation"), ""))
    ensures DecodeItem(ERR_INT) == Some((Error("ERR value is not an integer or out of range"), ""))
  {
    hide DecodeItem, Decimal, ReplyError;
    OneDigit();
    BulkDecodes("OK", "");
    assert ReplyString(Some("OK")) + "" == OK_REPLY;
    ErrorAlone("ERR wrongtype operation");
    ErrorAlone("ERR value is not an integer or out of range");
  }

  lemma ErrorAlone(message: string)
    requires '\r' !in message
    ensures DecodeItem(ReplyError(message)) == Some((Error(message), ""))
  {
    hide DecodeItem;
    ErrorDecodes(message, "");
    assert ReplyError(message) + "" == ReplyError(message);
  }

  lemma ArgcReply(given: int, expected: string)
    requires '\r' !in expected
    ensures var message := ARGC_FRONT + Decimal(given) + ", expected " + expected + ")";
            DecodeItem(ErrArgc(given, expected)) == Some((Error(message), ""))
  {
    hide Decimal, DecodeItem, ReplyError;
    DigitsNoControl(given);
    assert '\r' !in ARGC_FRONT;
    ErrorAlone(ARGC_FRONT + Decimal(given) + ", expected " + expected + ")");
  }

  // ----- the least int

  lemma LeastPlusOne()
    ensures Numeric("-2147483647") && Value("-2147483647") == -INT_MAX
  {
    LongNumeral();
    DigitAdded("214748364", '7', "2147483647");
    DigitAdded("214748364", '8', "2147483648");
    assert "-2147483647"[1..] == "2147483647";
  }

  /**
   DECR of a counter at -2147483647 leaves the least `int`, with no overflow on the way, but neither
   the buffer of the new value nor that of the reply has room for it.
   */
  lemma DecrOverrunsBuffers(st: StoreSpec.Store, key: string, after: StoreSpec.Store, reply: string)
    requires StoreInv(st) && Get(st, key) == Some(StrVal("-2147483647"))
    requires Counts(st, key, -1, -1, after, reply)
    ensures Value("-2147483647") - 1 == INT_MIN && reply == ReplyInteger(INT_MIN)
    ensures |Decimal(INT_MIN)| + 1 > DigitCount(INT_MIN) + 2 && |reply| + 1 > DigitCount(INT_MIN) + 5
  {
    hide Do, Get, Decimal, Value, Numeric, StoreInv, DigitCount;
    LeastPlusOne();
    BuffersSuffice(INT_MIN, "", 0, "", "");
  }

  /** SET stores that value in a new store. */
  lemma LeastPlusOneIsStored(size: int, key: string)
    ensures var st := Do(Init(size), key, SetStr("-2147483647")).0;
            StoreInv(st) && Get(st, key) == Some(StrVal("-2147483647"))
  {
    hide Do, Get, StoreInv, Find, InsertLosesKey;
    var st: StoreSpec.Store := Init(size);
    InitStoreInv(size);
    NothingInFresh<Val>(size, key, StrVal("-2147483647"));
    SetThenGet(st, key, "-2147483647");
    DoSetStr(st, key, "-2147483647");
  }
}
