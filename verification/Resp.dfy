/**
 Replies in the Redis serialization protocol (RESP2): the encoders of src/interpreter.c and
 the decoders of src/client.c.
 */
module Resp {
  import opened Integers
  import opened Decimals
  import opened Options

  const CRLF := "\r\n"

  // ----- encoding ("Integers", "Bulk strings" and "Arrays" of RESP2)

  function ReplyInteger(x: int): string {
    ":" + Decimal(x) + CRLF
  }

  function ReplyString(s: Option<string>): string {
    match s
    case None => "$-1\r\n"
    case Some(v) => "$" + Decimal(Wrap(|v|)) + CRLF + v + CRLF
  }

  function ReplyError(message: string): string {
    "-" + message + CRLF
  }

  const ARGC_FRONT := "ERR wrong number of arguments (given "

  function ErrArgc(given: int, expected: string): string {
    ReplyError(ARGC_FRONT + Decimal(given) + ", expected " + expected + ")")
  }

  /** An array element that reads as a number is sent as an integer. */
  function ReplyItem(item: Option<string>): string {
    if item.Some? && Numeric(item.value) then ReplyInteger(IntValue(item.value)) else ReplyString(item)
  }

  function ReplyItems(items: seq<Option<string>>): string {
    if items == [] then "" else ReplyItems(items[..|items| - 1]) + ReplyItem(items[|items| - 1])
  }

  function ArrayHeader(n: nat): string {
    "*" + Decimal(Wrap(n)) + CRLF
  }

  function Present(items: seq<string>): (r: seq<Option<string>>)
    ensures |r| == |items| && forall i :: 0 <= i < |items| ==> r[i] == Some(items[i])
  {
    seq(|items|, i requires 0 <= i < |items| => Some(items[i]))
  }

  lemma ReplyItemsNone()
    ensures ReplyItems([]) == ""
  {
  }

  lemma ReplyItemsGrow(items: seq<Option<string>>, i: nat)
    requires i < |items|
    ensures ReplyItems(items[..i + 1]) == ReplyItems(items[..i]) + ReplyItem(items[i])
  {
    assert items[..i + 1][..i] == items[..i];
  }

  /** The header is written first and the items are appended. */
  method ReplyArrayN(arr: seq<Option<string>>) returns (res: string)
    ensures res == ArrayHeader(|arr|) + ReplyItems(arr)
  {
    hide ReplyItems, ArrayHeader, ReplyInteger, ReplyString;
    assert arr[..0] == [];
    ReplyItemsNone();
    res := ArrayHeader(|arr|);
    var i := 0;
    while i < |arr|
      invariant 0 <= i <= |arr|
      invariant res == ArrayHeader(|arr|) + ReplyItems(arr[..i])
    {
      ReplyItemsGrow(arr, i);
      var tmp;
      if arr[i].None? {
        tmp := ReplyString(None);
      } else {
        var number := IsNumber(arr[i].value);
        if number {
          var x := StrToI(arr[i].value);
          tmp := ReplyInteger(x);
        } else {
          tmp := ReplyString(arr[i]);
        }
      }
      assert tmp == ReplyItem(arr[i]);
      assert ArrayHeader(|arr|) + ReplyItems(arr[..i]) + tmp == ArrayHeader(|arr|) + (ReplyItems(arr[..i]) + tmp);
      res := res + tmp;
      i := i + 1;
    }
    assert arr[..i] == arr;
  }

  /** The items are written first, counted, and the header is put before them; no array is an empty one. */
  method ReplyArray(arr: Option<seq<string>>) returns (res: string)
    ensures arr.None? ==> res == ArrayHeader(0)
    ensures arr.Some? ==> res == ArrayHeader(|arr.value|) + ReplyItems(Present(arr.value))
  {
    if arr.None? {
      return "*0\r\n";
    }
    var items := arr.value;
    res := "";
    var n := 0;
    while n < |items|
      invariant 0 <= n <= |items|
      invariant res == ReplyItems(Present(items)[..n])
    {
      ReplyItemsGrow(Present(items), n);
      var tmp;
      var number := IsNumber(items[n]);
      if number {
        var x := StrToI(items[n]);
        tmp := ReplyInteger(x);
      } else {
        tmp := ReplyString(Some(items[n]));
      }
      res := res + tmp;
      n := n + 1;
    }
    assert Present(items)[..n] == Present(items);
    res := ArrayHeader(n) + res;
  }

  // ----- buffer sizes

  /**
   The bytes allocated before each print are computed from what `ndigits` answers. With the final NUL
   they are enough for every `int` but the least one, and for every string for which that sum, itself
   an `int`, does not overflow.
   */
  lemma BuffersSuffice(x: int32, s: string, n: nat, body: string, expected: string)
    ensures |ReplyInteger(x)| + 1 <= DigitCount(x) + 5 <==> x != INT_MIN
    ensures |Decimal(x)| + 1 <= DigitCount(x) + 2 <==> x != INT_MIN
    ensures |ErrArgc(x, expected)| + 1 <= DigitCount(x) + |expected| + 54 <==> x != INT_MIN
    ensures |ReplyString(Some(s))| + 1 <= StringBuffer(|s|) <==> |s| <= INT_MAX - 17
    ensures |ArrayHeader(n) + body| + 1 <= |body| + DigitCount(Wrap(n)) + 5 <==> Wrap(n) != INT_MIN
  {
    hide Decimal, DigitCount, Wrap;
    DecimalLength(x);
    StringBufferSuffices(|s|);
    DecimalLength(Wrap(n));
    ErrArgcLength(x, expected);
  }

  /** The bytes for a bulk string of length `n`, as an `int`. */
  function StringBuffer(n: nat): int32 {
    Wrap(Wrap(n) + DigitCount(Wrap(n)) + 7)
  }

  lemma StringBufferSuffices(n: nat)
    ensures |Decimal(Wrap(n))| + n + 6 <= StringBuffer(n) <==> n <= INT_MAX - 17
  {
    var w := Wrap(n);
    DecimalLength(w);
    if w >= 0 {
      DigitsAtMost(w, 10);
      if w >= 1000000000 {
        DigitsAtLeast(w, 9);
      }
    }
    hide Decimal, DigitCount;
  }

  lemma ErrArgcLength(given: int, expected: string)
    ensures |ErrArgc(given, expected)| == |Decimal(given)| + |expected| + 52
  {
    hide Decimal;
    assert |ARGC_FRONT| == 37 && |", expected "| == 11;
  }

  // ----- decoding

  /** The first index of `c` at or after `from`, or the length. */
  function FirstIndex(s: string, c: char, from: nat): (r: nat)
    requires from <= |s|
    ensures from <= r <= |s|
    ensures r < |s| ==> s[r] == c
    decreases |s| - from
  {
    if from == |s| || s[from] == c then from else FirstIndex(s, c, from + 1)
  }

  /** What the client reads past the end of if it is missing: a line end after the type byte. */
  predicate HasLine(resp: string) {
    |resp| > 0 && FirstIndex(resp, '\r', 1) < |resp|
  }

  /** The number a reply states in its first line. */
  function LineValue(resp: string): int
    requires HasLine(resp)
  {
    Value(resp[1..FirstIndex(resp, '\r', 1)])
  }

  /** The number the client makes of it, in an `int`. */
  function IntOf(resp: string): int32
    requires HasLine(resp)
  {
    Wrap(LineValue(resp))
  }

  predicate HasBody(resp: string) {
    && HasLine(resp)
    && (IntOf(resp) >= 0 ==> FirstIndex(resp, '\n', 0) + 1 + IntOf(resp) <= |resp|)
  }

  function StrOf(resp: string): Option<string>
    requires HasBody(resp)
  {
    var n := IntOf(resp);
    if n < 0 then None
    else
      var start := FirstIndex(resp, '\n', 0) + 1;
      Some(resp[start..start + n])
  }

  method ParseInt(resp: string) returns (r: int32)
    requires HasLine(resp)
    ensures r == IntOf(resp)
  {
    hide NatValue, Wrap;
    NoDigits();
    ghost var end := FirstIndex(resp, '\r', 1);
    var i := 1;
    var n: int32, min := 0, 0;
    if resp[i] == '-' {
      i := i + 1;
      min := min + 1;
    }
    assert resp[1 + min..i] == "";
    while resp[i] != '\r'
      invariant 1 + min <= i <= end
      invariant FirstIndex(resp, '\r', i) == end
      invariant n == Wrap(NatValue(resp[1 + min..i]))
      decreases end - i
    {
      DigitRead(resp, 1 + min, i);
      n := Wrap(n * 10 + (resp[i] as int - '0' as int));
      i := i + 1;
    }
    assert resp[1..end][min..] == resp[1 + min..i];
    assert SignLength(resp[1..end]) == min;
    SignRead(NatValue(resp[1 + min..i]));
    return if min != 0 then Wrap(n * -1) else n;
  }

  /** Copies the announced number of bytes after the first line, whatever bytes they are. */
  method ParseStr(resp: string) returns (r: Option<string>)
    requires HasBody(resp)
    ensures r == StrOf(resp)
  {
    var n := ParseInt(resp);
    if n < 0 {
      return None;
    }
    var p := 0;
    while resp[p] != '\n'
      invariant 0 <= p < |resp|
      invariant FirstIndex(resp, '\n', p) == FirstIndex(resp, '\n', 0) < |resp|
      decreases |resp| - p
    {
      p := p + 1;
    }
    p := p + 1;
    var result := "";
    var i := 0;
    while i < n
      invariant 0 <= i <= n
      invariant result == resp[p..p + i]
    {
      result := result + [resp[p + i]];
      i := i + 1;
    }
    return Some(result);
  }

  // ----- round trips

  lemma {:induction false} FirstIndexIs(s: string, c: char, from: nat, r: nat)
    requires from <= r < |s| && s[r] == c
    requires forall i :: from <= i < r ==> s[i] != c
    ensures FirstIndex(s, c, from) == r
    decreases r - from
  {
    if from < r {
      FirstIndexIs(s, c, from + 1, r);
    }
  }

  lemma IntLine(tag: char, x: int, rest: string)
    requires tag != '\r' && tag != '\n'
    ensures var resp := [tag] + Decimal(x) + CRLF + rest;
            && HasLine(resp) && LineValue(resp) == x
            && FirstIndex(resp, '\n', 0) == |Decimal(x)| + 2
  {
    var resp := [tag] + Decimal(x) + CRLF + rest;
    var end := |Decimal(x)| + 1;
    DigitsNoControl(x);
    forall i | 0 <= i < end + 1
      ensures resp[i] != '\n' && (i < end ==> resp[i] != '\r')
    {
      if 0 < i < end {
        assert resp[i] == Decimal(x)[i - 1];
      }
    }
    FirstIndexIs(resp, '\r', 1, end);
    FirstIndexIs(resp, '\n', 0, end + 1);
    assert resp[1..end] == Decimal(x);
    ReadBackDecimal(x);
  }

  /** The client reads the integer reply of every `int` back, whatever follows it. */
  lemma IntegerRoundTrip(x: int, rest: string)
    ensures HasLine(ReplyInteger(x) + rest) && LineValue(ReplyInteger(x) + rest) == x
    ensures IntOf(ReplyInteger(x) + rest) == x <==> FitsInt(x)
  {
    IntLine(':', x, rest);
    assert [':'] + Decimal(x) + CRLF + rest == ReplyInteger(x) + rest;
  }

  /**
   The client reads a string reply back, the null reply and strings holding CR LF included, whatever
   follows it, exactly when the length is an `int`.
   */
  lemma StringRoundTrip(s: Option<string>, rest: string)
    ensures HasBody(ReplyString(s) + rest)
    ensures StrOf(ReplyString(s) + rest) == s <==> s.None? || |s.value| <= INT_MAX
  {
    hide LineValue, FirstIndex, Decimal, HasLine, Wrap;
    match s
    case None =>
      IntLine('$', -1, rest);
      MinusOne();
      assert ['$'] + "-1" + CRLF + rest == ReplyString(None) + rest;
    case Some(v) =>
      var resp := ReplyString(s) + rest;
      var n := Wrap(|v|);
      IntLine('$', n, v + CRLF + rest);
      assert ['$'] + Decimal(n) + CRLF + (v + CRLF + rest) == resp;
      var start := |Decimal(n)| + 3;
      assert resp[start..start + |v|] == v;
  }

  lemma MinusOne()
    ensures Decimal(-1) == "-1"
  {
    assert Digits(1) == Digits(0) + [DigitChar(1)];
  }

  // ----- an independent decoder, as strict as RESP2

  /** `Error` is a reply that starts with a minus sign. */
  datatype Reply = Int(n: int) | Bulk(text: string) | Nil | Error(message: string)

  /** The line after the type byte, which must end in CR LF, and the bytes after it. */
  function Line(s: string): Option<(string, string)> {
    if s == "" then None
    else
      var end := FirstIndex(s, '\r', 1);
      if end + 1 < |s| && s[end + 1] == '\n' then Some((s[1..end], s[end + 2..])) else None
  }

  /** An optional minus sign and at least one digit. */
  predicate IsInteger(text: string) {
    Numeric(text) && text != "" && text != "-"
  }

  /**
   One integer, bulk string, null or error reply at the front of `s`, and the bytes after it. The
   bytes of a bulk string must be followed by CR LF, and only the length -1 stands for null.
   */
  function DecodeItem(s: string): Option<(Reply, string)> {
    match Line(s)
    case None => None
    case Some((text, rest)) =>
      if s[0] == '-' then Some((Error(text), rest))
      else if s[0] == ':' && IsInteger(text) then Some((Int(Value(text)), rest))
      else if s[0] == '$' && IsInteger(text) then DecodeBody(Value(text), rest)
      else None
  }

  function DecodeBody(n: int, rest: string): Option<(Reply, string)> {
    if n == -1 then Some((Nil, rest))
    else if 0 <= n && n + 2 <= |rest| && rest[n] == '\r' && rest[n + 1] == '\n'
    then Some((Bulk(rest[..n]), rest[n + 2..]))
    else None
  }

  function DecodeItems(s: string, n: nat): Option<(seq<Reply>, string)> {
    if n == 0 then Some(([], s))
    else
      match DecodeItem(s)
      case None => None
      case Some((item, rest)) =>
        match DecodeItems(rest, n - 1)
        case None => None
        case Some((items, end)) => Some(([item] + items, end))
  }

  function DecodeArray(s: string): Option<(seq<Reply>, string)> {
    match Line(s)
    case None => None
    case Some((text, rest)) =>
      if s[0] == '*' && IsInteger(text) && Value(text) >= 0 then DecodeItems(rest, Value(text)) else None
  }

  function Sent(item: Option<string>): Reply {
    match item
    case None => Nil
    case Some(v) => if Numeric(v) then Int(IntValue(v)) else Bulk(v)
  }

  /** The length a bulk string is announced with is an `int`. */
  predicate Announced(item: Option<string>) {
    item.Some? && !Numeric(item.value) ==> |item.value| <= INT_MAX
  }

  predicate AllAnnounced(items: seq<Option<string>>) {
    forall i :: 0 <= i < |items| ==> Announced(items[i])
  }

  function SentItems(items: seq<Option<string>>): (r: seq<Reply>)
    ensures |r| == |items| && forall i :: 0 <= i < |items| ==> r[i] == Sent(items[i])
  {
    seq(|items|, i requires 0 <= i < |items| => Sent(items[i]))
  }

  lemma LineOf(tag: char, text: string, rest: string)
    requires '\r' !in text
    ensures Line([tag] + text + CRLF + rest) == Some((text, rest))
  {
    var s := [tag] + text + CRLF + rest;
    forall i | 1 <= i < |text| + 1
      ensures s[i] != '\r'
    {
      assert s[i] == text[i - 1];
    }
    FirstIndexIs(s, '\r', 1, |text| + 1);
    assert s[1..|text| + 1] == text && s[|text| + 3..] == rest;
  }

  /** The first line of a reply that states a number. */
  lemma NumberLine(tag: char, x: int, rest: string)
    ensures Line([tag] + Decimal(x) + CRLF + rest) == Some((Decimal(x), rest))
    ensures IsInteger(Decimal(x)) && Value(Decimal(x)) == x
  {
    DigitsNoControl(x);
    ReadBackDecimal(x);
    DigitsProperties(Abs(x));
    LineOf(tag, Decimal(x), rest);
  }

  lemma IntegerDecodes(x: int, rest: string)
    ensures DecodeItem(ReplyInteger(x) + rest) == Some((Int(x), rest))
  {
    hide Line, Decimal, IsInteger, Value;
    NumberLine(':', x, rest);
    assert [':'] + Decimal(x) + CRLF + rest == ReplyInteger(x) + rest;
  }

  lemma ErrorDecodes(message: string, rest: string)
    requires '\r' !in message
    ensures DecodeItem(ReplyError(message) + rest) == Some((Error(message), rest))
  {
    hide Line;
    LineOf('-', message, rest);
    assert ['-'] + message + CRLF + rest == ReplyError(message) + rest;
  }

  lemma NullDecodes(rest: string)
    ensures DecodeItem(ReplyString(None) + rest) == Some((Nil, rest))
  {
    hide Line, IsInteger, Value;
    MinusOne();
    NumberLine('$', -1, rest);
    assert ['$'] + "-1" + CRLF + rest == ReplyString(None) + rest;
  }

  /** A bulk string whose length is no `int` is not what a decoder finds. */
  lemma BulkDecodes(v: string, rest: string)
    ensures var found := DecodeItem(ReplyString(Some(v)) + rest);
            if |v| <= INT_MAX then found == Some((Bulk(v), rest))
            else found.Some? ==> found.value.0 != Bulk(v)
  {
    hide Line, Decimal, IsInteger, Value, Wrap;
    var n, body := Wrap(|v|), v + CRLF + rest;
    NumberLine('$', n, body);
    assert ['$'] + Decimal(n) + CRLF + body == ReplyString(Some(v)) + rest;
    assert body[..|v|] == v && body[|v| + 2..] == rest && body[|v|] == '\r' && body[|v| + 1] == '\n';
  }

  lemma ItemDecodes(item: Option<string>, rest: string)
    ensures var found := DecodeItem(ReplyItem(item) + rest);
            if Announced(item) then found == Some((Sent(item), rest))
            else found.Some? ==> found.value.0 != Sent(item)
  {
    if item.Some? && Numeric(item.value) {
      IntegerDecodes(IntValue(item.value), rest);
    } else if item.Some? {
      BulkDecodes(item.value, rest);
    } else {
      NullDecodes(rest);
    }
  }

  lemma {:induction false} ReplyItemsFront(items: seq<Option<string>>)
    requires items != []
    ensures ReplyItems(items) == ReplyItem(items[0]) + ReplyItems(items[1..])
  {
    hide ReplyItem;
    var front, last := items[..|items| - 1], ReplyItem(items[|items| - 1]);
    if |items| == 1 {
      assert front == [] && items[1..] == [];
    } else {
      ReplyItemsFront(front);
      assert front[1..] == items[1..][..|items| - 2];
      var first, middle := ReplyItem(items[0]), ReplyItems(front[1..]);
      assert first + middle + last == first + (middle + last);
    }
  }

  /** A decoder finds the items one for one, and what follows them, exactly when every length is an `int`. */
  lemma {:induction false} ItemsDecode(items: seq<Option<string>>, rest: string)
    ensures DecodeItems(ReplyItems(items) + rest, |items|) == Some((SentItems(items), rest)) <==> AllAnnounced(items)
    decreases |items|
  {
    hide DecodeItem, ReplyItem, ReplyItems, Sent, Announced;
    if items == [] {
      ReplyItemsNone();
      assert "" + rest == rest;
    } else {
      ReplyItemsFront(items);
      var tail := ReplyItems(items[1..]) + rest;
      assert ReplyItems(items) + rest == ReplyItem(items[0]) + tail;
      ItemDecodes(items[0], tail);
      ItemsDecode(items[1..], rest);
      assert SentItems(items) == [Sent(items[0])] + SentItems(items[1..]);
      assert SentItems(items)[1..] == SentItems(items[1..]);
    }
  }

  lemma {:induction false} DecodedLength(s: string, n: nat)
    ensures DecodeItems(s, n).Some? ==> |DecodeItems(s, n).value.0| == n
    decreases n
  {
    hide DecodeItem;
    if n > 0 && DecodeItem(s).Some? {
      DecodedLength(DecodeItem(s).value.1, n - 1);
    }
  }

  /**
   An array reply is framed unambiguously: a decoder finds its items, one for one, and what follows
   the reply, exactly when the number of items and every length is an `int`.
   */
  lemma ArrayRoundTrip(items: seq<Option<string>>, rest: string)
    ensures DecodeArray(ArrayHeader(|items|) + ReplyItems(items) + rest) == Some((SentItems(items), rest))
       <==> |items| <= INT_MAX && AllAnnounced(items)
  {
    hide ReplyItems, DecodeItems, Decimal, Line, IsInteger, Value, AllAnnounced, Wrap;
    var n, tail := Wrap(|items|), ReplyItems(items) + rest;
    assert ArrayHeader(|items|) + ReplyItems(items) + rest == ['*'] + Decimal(n) + CRLF + tail;
    NumberLine('*', n, tail);
    ItemsDecode(items, rest);
    if n >= 0 {
      DecodedLength(tail, n);
    }
  }

  /** The text of a decoded item. */
  function Text(r: Reply): Option<string> {
    match r
    case Int(n) => Some(Decimal(n))
    case Bulk(v) => Some(v)
    case Nil => None
    case Error(_) => None
  }

  /** The buffer of a number is large enough; see `BuffersSuffice`. */
  predicate Printable(r: Reply) {
    r.Int? ==> |ReplyInteger(r.n)| + 1 <= DigitCount(r.n) + 5
  }

  /**
   An array element is sent as stored unless it reads as a number and is not the canonical numeral of
   an `int`; of these, the least one does not fit its buffer.
   */
  lemma ItemPreservedIff(v: string)
    ensures Text(Sent(Some(v))) == Some(v) <==> !Numeric(v) || (Canonical(v) && FitsInt(Value(v)))
    ensures Text(Sent(Some(v))) == Some(v) && Printable(Sent(Some(v))) <==>
            !Numeric(v) || (Canonical(v) && -INT_MAX <= Value(v) <= INT_MAX)
    ensures Sent(Some(v)) == if Numeric(v) then Int(Wrap(Value(v))) else Bulk(v)
  {
    if Numeric(v) {
      PrintBackIffCanonical(v);
      BuffersSuffice(IntValue(v), "", 0, "", "");
    }
  }

  lemma DigitAdded(s: string, c: char, t: string)
    requires t == s + [c]
    ensures NatValue(t) == NatValue(s) * 10 + DigitValue(c)
  {
    assert t[..|t| - 1] == s;
  }

  lemma LongNumeral()
    ensures Numeric("2147483648") && Canonical("2147483648") && Value("2147483648") == INT_MAX + 1
    ensures NatValue("214748364") == 214748364
  {
    DigitAdded("", '2', "2");
    DigitAdded("2", '1', "21");
    DigitAdded("21", '4', "214");
    DigitAdded("214", '7', "2147");
    DigitAdded("2147", '4', "21474");
    DigitAdded("21474", '8', "214748");
    DigitAdded("214748", '3', "2147483");
    DigitAdded("2147483", '6', "21474836");
    DigitAdded("21474836", '4', "214748364");
    DigitAdded("214748364", '8', "2147483648");
    assert "2147483648"[0..] == "2147483648";
  }

  lemma SmallNumerals()
    ensures Numeric("") && Numeric("-") && Numeric("007")
    ensures Value("") == 0 && Value("-") == 0 && Value("007") == 7
    ensures Decimal(0) == "0" && Decimal(7) == "7"
  {
    DigitAdded("", '0', "0");
    DigitAdded("0", '0', "00");
    DigitAdded("00", '7', "007");
    assert "007"[0..] == "007";
    assert Digits(7) == Digits(0) + [DigitChar(7)];
  }

  /** The empty string, a lone minus sign, a padded numeral and a number beyond `int` are altered. */
  lemma AlteredItems()
    ensures ReplyItem(Some("")) == ":0\r\n" && ReplyItem(Some("-")) == ":0\r\n" && ReplyItem(Some("007")) == ":7\r\n"
    ensures ReplyItem(Some("2147483648")) == ReplyInteger(INT_MIN)
    ensures Text(Sent(Some("2147483648"))) != Some("2147483648")
  {
    SmallNumerals();
    LongNumeral();
    hide Numeric, Value, NatValue, Digits;
    ItemPreservedIff("2147483648");
    assert Wrap(INT_MAX + 1) == INT_MIN;
  }
}
