/** What a command line is split into, and which argument lists a line can carry (src/parser.c). */
module Tokens {
  import opened Options

  predicate IsSpace(c: char) {
    c == ' ' || c == '\t' || c == '\n' || c == '\r' || c as int == 0x0B || c as int == 0x0C
  }

  predicate IsQuote(c: char) {
    c == '"' || c == '\''
  }

  datatype Class = Space | NonSpace | NonQuote

  predicate Belongs(c: char, cls: Class) {
    match cls
    case Space => IsSpace(c)
    case NonSpace => !IsSpace(c)
    case NonQuote => !IsQuote(c)
  }

  /** How many characters at the front of `s` belong to the class. */
  function Span(s: string, cls: Class): (n: nat)
    ensures n <= |s|
    ensures forall i :: 0 <= i < n ==> Belongs(s[i], cls)
    ensures n < |s| ==> !Belongs(s[n], cls)
  {
    if s == "" || !Belongs(s[0], cls) then 0 else 1 + Span(s[1..], cls)
  }

  /**
   The token at the front of `t`, which does not start with white space, and what follows it. A
   token that starts with either quote runs to the next quote of either kind, or to the end; any
   other token runs to the next white space.
   */
  function TokenFrom(t: string): (r: Option<(string, string)>)
    requires t != "" ==> !IsSpace(t[0])
    ensures r.Some? ==> |r.value.1| < |t|
  {
    if t == "" then None
    else if IsQuote(t[0]) then
      var n := Span(t[1..], NonQuote);
      Some((t[1..1 + n], if n + 2 <= |t| then t[n + 2..] else ""))
    else
      var n := Span(t, NonSpace);
      Some((t[..n], t[n..]))
  }

  /** White space is skipped before a token. */
  function NextToken(s: string): (r: Option<(string, string)>)
    ensures r.Some? ==> |r.value.1| < |s|
  {
    TokenFrom(s[Span(s, Space)..])
  }

  function TokensOf(s: string): seq<string>
    decreases |s|
  {
    match NextToken(s)
    case None => []
    case Some((token, rest)) => [token] + TokensOf(rest)
  }

  /** The same scan by positions: from `start`, white space ends at `p`. */
  lemma NextTokenAt(s: string, start: nat, p: nat)
    requires start <= |s| && p == start + Span(s[start..], Space)
    ensures p < |s| ==> !IsSpace(s[p])
    ensures NextToken(s[start..]) == TokenFrom(s[p..])
  {
    assert s[start..][p - start..] == s[p..];
    assert p < |s| ==> s[p] == s[start..][p - start];
    hide Span;
  }

  lemma QuotedTokenAt(s: string, p: nat)
    requires p < |s| && !IsSpace(s[p]) && IsQuote(s[p])
    ensures var end := p + 1 + Span(s[p + 1..], NonQuote);
            TokenFrom(s[p..]) == Some((s[p + 1..end], s[if end < |s| then end + 1 else end..]))
  {
    hide Span, IsQuote, IsSpace;
    var t := s[p..];
    var n := Span(t[1..], NonQuote);
    assert t[1..] == s[p + 1..];
    assert t[1..1 + n] == s[p + 1..p + 1 + n];
    assert if n + 2 <= |t| then t[n + 2..] == s[p + n + 2..] else s[|s|..] == "";
  }

  lemma BareTokenAt(s: string, p: nat)
    requires p < |s| && !IsSpace(s[p]) && !IsQuote(s[p])
    ensures var end := p + Span(s[p..], NonSpace);
            TokenFrom(s[p..]) == Some((s[p..end], s[end..]))
  {
    hide Span, IsQuote, IsSpace;
    var t := s[p..];
    var n := Span(t, NonSpace);
    assert t[..n] == s[p..p + n] && t[n..] == s[p + n..];
  }

  predicate NoNul(s: string) {
    forall i :: 0 <= i < |s| ==> s[i] != '\0'
  }

  // ----- printing

  predicate HasSpace(s: string) {
    exists i :: 0 <= i < |s| && IsSpace(s[i])
  }

  predicate HasQuote(s: string) {
    exists i :: 0 <= i < |s| && IsQuote(s[i])
  }

  /** An argument between double quotes if it is empty or holds white space, as it is otherwise. */
  function PrintArg(arg: string): string {
    if arg == "" || HasSpace(arg) then "\"" + arg + "\"" else arg
  }

  function Print(args: seq<string>): string {
    if args == [] then ""
    else if |args| == 1 then PrintArg(args[0])
    else PrintArg(args[0]) + " " + Print(args[1..])
  }

  /**
   The arguments a line can carry: without quotes, or not empty, without white space and not starting with a
   quote.
   */
  predicate Representable(arg: string) {
    NoNul(arg) && (!HasQuote(arg) || (arg != "" && !HasSpace(arg) && !IsQuote(arg[0])))
  }

  lemma {:induction false} SpanIs(s: string, cls: Class, n: nat)
    requires n <= |s|
    requires forall i :: 0 <= i < n ==> Belongs(s[i], cls)
    requires n < |s| ==> !Belongs(s[n], cls)
    ensures Span(s, cls) == n
  {
    if n > 0 {
      SpanIs(s[1..], cls, n - 1);
    }
  }

  lemma QuotedTokenIsRead(arg: string, rest: string)
    requires !HasQuote(arg)
    ensures NextToken("\"" + arg + "\"" + rest) == Some((arg, rest))
  {
    var s := "\"" + arg + "\"" + rest;
    SpanIs(s, Space, 0);
    SpanIs(s[1..], NonQuote, |arg|);
    hide Span;
    assert s[0..] == s;
    assert s[1..1 + |arg|] == arg && s[|arg| + 2..] == rest;
  }

  lemma BareTokenIsRead(arg: string, rest: string)
    requires arg != "" && !HasSpace(arg) && !IsQuote(arg[0])
    requires rest == "" || IsSpace(rest[0])
    ensures NextToken(arg + rest) == Some((arg, rest))
  {
    var s := arg + rest;
    assert s[0] == arg[0];
    SpanIs(s, Space, 0);
    SpanIs(s, NonSpace, |arg|);
    hide Span;
    assert s[0..] == s;
  }

  lemma PrintedArgIsRead(arg: string, rest: string)
    requires Representable(arg) && (rest == "" || IsSpace(rest[0]))
    ensures NextToken(PrintArg(arg) + rest) == Some((arg, rest))
  {
    if arg == "" || HasSpace(arg) {
      QuotedTokenIsRead(arg, rest);
    } else {
      BareTokenIsRead(arg, rest);
    }
  }

  lemma TokensStep(s: string, token: string, rest: string)
    requires NextToken(s) == Some((token, rest))
    ensures TokensOf(s) == [token] + TokensOf(rest)
  {
  }

  lemma SpaceIsSkipped(s: string)
    requires s != "" && IsSpace(s[0])
    ensures TokensOf(s) == TokensOf(s[1..])
  {
    SpanOverSpace(s);
    hide NextToken, TokenFrom, Span, IsSpace, IsQuote;
    var p := Span(s, Space);
    assert s[0..] == s;
    NextTokenAt(s, 0, p);
    NextTokenAt(s, 1, p);
  }

  lemma SpanOverSpace(s: string)
    requires s != "" && IsSpace(s[0])
    ensures Span(s, Space) == 1 + Span(s[1..], Space)
  {
  }

  /** Printing representable arguments and splitting the line gives the same arguments back. */
  lemma {:induction false} PrintRoundTrip(args: seq<string>)
    requires forall i :: 0 <= i < |args| ==> Representable(args[i])
    ensures TokensOf(Print(args)) == args
    decreases |args|
  {
    hide NextToken, PrintArg, Representable;
    if args == [] {
      NoTokens();
    } else if |args| == 1 {
      PrintedArgIsRead(args[0], "");
      TokensStep(PrintArg(args[0]) + "", args[0], "");
      assert PrintArg(args[0]) + "" == Print(args);
      NoTokens();
    } else {
      var rest := " " + Print(args[1..]);
      PrintedArgIsRead(args[0], rest);
      TokensStep(PrintArg(args[0]) + rest, args[0], rest);
      assert PrintArg(args[0]) + rest == Print(args);
      SpaceIsSkipped(rest);
      assert rest[1..] == Print(args[1..]);
      PrintRoundTrip(args[1..]);
      assert args == [args[0]] + args[1..];
    }
  }

  lemma NoTokens()
    ensures NextToken("") == None && TokensOf("") == []
  {
  }

  lemma NextTokenRepresentable(s: string)
    requires NoNul(s)
    ensures match NextToken(s)
            case None => true
            case Some((token, rest)) => Representable(token) && NoNul(rest)
  {
    hide Span;
    var t := s[Span(s, Space)..];
    if t != "" && IsQuote(t[0]) {
      var n := Span(t[1..], NonQuote);
      var token := t[1..1 + n];
      forall i | 0 <= i < |token|
        ensures !IsQuote(token[i]) && token[i] != '\0'
      {
        assert token[i] == t[1..][i];
      }
    } else if t != "" {
      var n := Span(t, NonSpace);
      assert s[Span(s, Space)] == t[0];
      assert n > 0;
    }
  }

  lemma {:induction false} TokensRepresentable(s: string)
    requires NoNul(s)
    ensures forall i :: 0 <= i < |TokensOf(s)| ==> Representable(TokensOf(s)[i])
    decreases |s|
  {
    NextTokenRepresentable(s);
    match NextToken(s)
    case None =>
    case Some((token, rest)) => TokensRepresentable(rest);
  }

  ghost predicate Carries(line: string, args: seq<string>) {
    NoNul(line) && TokensOf(line) == args
  }

  lemma {:induction false} PrintHasNoNul(args: seq<string>)
    requires forall i :: 0 <= i < |args| ==> Representable(args[i])
    ensures NoNul(Print(args))
    decreases |args|
  {
    if |args| >= 1 {
      assert Representable(args[0]);
      assert NoNul(PrintArg(args[0]));
      if |args| > 1 {
        PrintHasNoNul(args[1..]);
        assert NoNul(PrintArg(args[0]) + " ");
      }
    }
  }

  /** Some line carries an argument list if and only if every argument is representable. */
  lemma CarriedIffRepresentable(args: seq<string>)
    ensures (exists line :: Carries(line, args)) <==> forall i :: 0 <= i < |args| ==> Representable(args[i])
  {
    if forall i :: 0 <= i < |args| ==> Representable(args[i]) {
      PrintRoundTrip(args);
      PrintHasNoNul(args);
      assert Carries(Print(args), args);
    }
    if exists line :: Carries(line, args) {
      var line :| Carries(line, args);
      TokensRepresentable(line);
    }
  }

  // ----- separators and quotes, character by character

  /** An argument list, a separator and another argument list on one line. */
  lemma {:induction false} SeparatorSplits(a: seq<string>, c: char, b: seq<string>)
    requires c == ' ' || c == '\t' || c == '\n' || c == '\r' || c as int == 0x0B || c as int == 0x0C
    requires forall i :: 0 <= i < |a| ==> Representable(a[i])
    requires forall i :: 0 <= i < |b| ==> Representable(b[i])
    ensures TokensOf(Print(a) + [c] + Print(b)) == a + b
    decreases |a|
  {
    hide NextToken, PrintArg, Print, TokensOf, Representable;
    if a == [] {
      PrintNone();
      assert "" + [c] + Print(b) == [c] + Print(b);
      SeparatorSkipped(c, Print(b));
      PrintRoundTrip(b);
      assert [] + b == b;
    } else if |a| == 1 {
      PrintOne(a);
      assert PrintArg(a[0]) + [c] + Print(b) == PrintArg(a[0]) + ([c] + Print(b));
      FirstPrinted(a[0], c, Print(b));
      PrintRoundTrip(b);
      assert a + b == [a[0]] + b;
    } else {
      PrintMore(a);
      var line := Print(a[1..]) + [c] + Print(b);
      assert PrintArg(a[0]) + " " + Print(a[1..]) + [c] + Print(b) == PrintArg(a[0]) + ([' '] + line);
      FirstPrinted(a[0], ' ', line);
      SeparatorSplits(a[1..], c, b);
      assert a + b == [a[0]] + (a[1..] + b);
    }
  }

  lemma PrintNone()
    ensures Print([]) == ""
  {
  }

  lemma PrintOne(args: seq<string>)
    requires |args| == 1
    ensures Print(args) == PrintArg(args[0])
  {
  }

  lemma PrintMore(args: seq<string>)
    requires |args| > 1
    ensures Print(args) == PrintArg(args[0]) + " " + Print(args[1..])
  {
  }

  lemma SeparatorSkipped(c: char, line: string)
    requires c == ' ' || c == '\t' || c == '\n' || c == '\r' || c as int == 0x0B || c as int == 0x0C
    ensures TokensOf([c] + line) == TokensOf(line)
  {
    SpaceIsSkipped([c] + line);
    assert ([c] + line)[1..] == line;
  }

  lemma FirstPrinted(arg: string, c: char, line: string)
    requires Representable(arg)
    requires c == ' ' || c == '\t' || c == '\n' || c == '\r' || c as int == 0x0B || c as int == 0x0C
    ensures TokensOf(PrintArg(arg) + ([c] + line)) == [arg] + TokensOf(line)
  {
    hide NextToken, PrintArg, TokensOf, Representable;
    PrintedArgIsRead(arg, [c] + line);
    TokensStep(PrintArg(arg) + ([c] + line), arg, [c] + line);
    SeparatorSkipped(c, line);
  }

  /** A line that ends in a separator, as every line typed at a prompt does. */
  lemma SeparatorEnds(a: seq<string>, c: char)
    requires c == ' ' || c == '\t' || c == '\n' || c == '\r' || c as int == 0x0B || c as int == 0x0C
    requires forall i :: 0 <= i < |a| ==> Representable(a[i])
    ensures TokensOf(Print(a) + [c]) == a
  {
    SeparatorSplits(a, c, []);
    assert Print(a) + [c] + Print([]) == Print(a) + [c] && a + [] == a;
  }

  /** No other character separates: a text without these six that does not start with a quote is one token. */
  lemma OneToken(s: string)
    requires s != "" && s[0] != '"' && s[0] != '\''
    requires forall i :: 0 <= i < |s| ==>
               s[i] != ' ' && s[i] != '\t' && s[i] != '\n' && s[i] != '\r' && s[i] as int != 0x0B && s[i] as int != 0x0C
    ensures TokensOf(s) == [s]
  {
    assert !HasSpace(s) && !IsQuote(s[0]);
    BareTokenIsRead(s, "");
    assert s + "" == s;
    TokensStep(s, s, "");
    NoTokens();
  }

  /** A text between two quotes, alike or not, is a token of its own, whatever follows the second. */
  lemma QuotesEnclose(q: char, text: string, p: char, rest: string)
    requires (q == '"' || q == '\'') && (p == '"' || p == '\'')
    requires forall i :: 0 <= i < |text| ==> text[i] != '"' && text[i] != '\''
    ensures TokensOf([q] + text + [p] + rest) == [text] + TokensOf(rest)
  {
    var s := [q] + text + [p] + rest;
    SpanIs(s, Space, 0);
    SpanIs(s[1..], NonQuote, |text|);
    assert s[0..] == s;
    assert s[1..1 + |text|] == text && s[|text| + 2..] == rest;
    TokensStep(s, text, rest);
  }

  /** Without a second quote the token runs to the end of the line. */
  lemma OpenQuote(q: char, text: string)
    requires q == '"' || q == '\''
    requires forall i :: 0 <= i < |text| ==> text[i] != '"' && text[i] != '\''
    ensures TokensOf([q] + text) == [text]
  {
    OpenQuoteIsRead(q, text);
    hide *;
    TokensStep([q] + text, text, "");
    NoTokens();
  }

  lemma OpenQuoteIsRead(q: char, text: string)
    requires IsQuote(q) && !HasQuote(text)
    ensures NextToken([q] + text) == Some((text, ""))
  {
    var s := [q] + text;
    SpanIs(s, Space, 0);
    SpanIs(text, NonQuote, |text|);
    assert s[1..] == text;
    hide Span, TokensOf, HasQuote;
    NextTokenAt(s, 0, 0);
    QuotedTokenAt(s, 0);
    assert s[0..] == s && s[1..|s|] == text && s[|s|..] == "";
  }
}
