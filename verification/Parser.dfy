/**
 The parser object of src/parser.c: a position and a current character advanced in loops, and
 a message split in two passes, one that counts and one that collects.
 */
module Parsers {
  import opened Options
  import opened Tokens

  datatype Command = Noop | Command(name: string, args: seq<string>)

  /** The byte at `i` of a NUL-terminated string. */
  function ByteAt(s: string, i: nat): char {
    if i < |s| then s[i] else '\0'
  }

  class Parser {
    const str: string
    var pos: nat
    var currentChar: char

    ghost predicate Valid()
      reads this
    {
      NoNul(str) && pos <= |str| && currentChar == ByteAt(str, pos)
    }

    /** What is left to scan. */
    ghost function Rest(): string
      reads this
      requires Valid()
    {
      str[pos..]
    }

    constructor (msg: string)
      requires NoNul(msg)
      ensures Valid() && str == msg && pos == 0
    {
      str := msg;
      pos := 0;
      currentChar := ByteAt(msg, 0);
    }

    method Advance()
      requires Valid()
      modifies this
      ensures Valid() && pos == if old(pos) < |str| then old(pos) + 1 else old(pos)
    {
      if pos < |str| {
        pos := pos + 1;
        currentChar := ByteAt(str, pos);
      }
    }

    lemma SpanShrinks(cls: Class)
      requires Valid() && pos < |str| && Belongs(currentChar, cls)
      ensures Span(str[pos..], cls) == 1 + Span(str[pos + 1..], cls)
    {
      assert str[pos..][1..] == str[pos + 1..];
    }

    method ParseId() returns (token: string)
      requires Valid()
      modifies this
      ensures Valid() && pos == old(pos) + Span(old(Rest()), NonSpace)
      ensures token == str[old(pos)..pos]
    {
      hide Span, IsSpace;
      token := "";
      while !IsSpace(currentChar) && pos < |str|
        invariant Valid() && old(pos) <= pos
        invariant token == str[old(pos)..pos]
        invariant pos + Span(Rest(), NonSpace) == old(pos) + Span(old(Rest()), NonSpace)
        decreases |str| - pos
      {
        SpanShrinks(NonSpace);
        token := token + [currentChar];
        Advance();
      }
      SpanStops(NonSpace);
    }

    method ParseString() returns (token: string)
      requires Valid() && pos < |str|
      modifies this
      ensures Valid()
      ensures var end := old(pos) + 1 + Span(str[old(pos) + 1..], NonQuote);
              token == str[old(pos) + 1..end] && pos == if end < |str| then end + 1 else end
    {
      hide Span, IsQuote;
      token := "";
      Advance();
      ghost var start := pos;
      while !IsQuote(currentChar) && pos < |str|
        invariant Valid() && start <= pos
        invariant token == str[start..pos]
        invariant pos + Span(Rest(), NonQuote) == start + Span(str[start..], NonQuote)
        decreases |str| - pos
      {
        SpanShrinks(NonQuote);
        token := token + [currentChar];
        Advance();
      }
      SpanStops(NonQuote);
      Advance();
    }

    /** The next token, or none at the end of the message; a token always advances the position. */
    method GetNextToken() returns (token: Option<string>)
      requires Valid()
      modifies this
      ensures Valid() && pos <= |str|
      ensures match NextToken(old(Rest()))
              case None => token == None && old(pos) <= pos
              case Some((t, rest)) => token == Some(t) && Rest() == rest && old(pos) < pos
    {
      hide NextToken, TokenFrom, Span, IsSpace, IsQuote;
      if pos < |str| {
        if IsSpace(currentChar) {
          while IsSpace(currentChar)
            invariant Valid() && old(pos) <= pos
            invariant pos + Span(Rest(), Space) == old(pos) + Span(old(Rest()), Space)
            decreases |str| - pos
          {
            NulIsNoSpace();
            SpanShrinks(Space);
            Advance();
          }
        }
        SpanStops(Space);
        NextTokenAt(str, old(pos), pos);
        if currentChar == '\0' {
          NothingLeft();
          return None;
        }
        if IsQuote(currentChar) {
          QuotedTokenAt(str, pos);
          var s := ParseString();
          return Some(s);
        }
        if !IsSpace(currentChar) {
          BareTokenAt(str, pos);
          var s := ParseId();
          return Some(s);
        }
      } else {
        NoTokens();
        assert Rest() == "";
      }
      return None;
    }

    lemma NothingLeft()
      requires Valid() && currentChar == '\0'
      ensures Rest() == "" && TokenFrom(Rest()) == None
    {
    }

    static lemma NulIsNoSpace()
      ensures !IsSpace('\0')
    {
    }

    lemma SpanStops(cls: Class)
      requires Valid() && (pos < |str| ==> !Belongs(currentChar, cls))
      ensures Span(Rest(), cls) == 0
    {
    }

    /** The first pass: counts the tokens of the whole message on a second parser. */
    method GetArgc() returns (argc: int)
      requires Valid()
      ensures argc == |TokensOf(str)| - 1
    {
      hide NextToken;
      var dup := new Parser(str);
      assert dup.Rest() == str;
      argc := 0;
      var token := dup.GetNextToken();
      while token.Some?
        invariant dup.Valid() && fresh(dup) && dup.str == str
        invariant argc + (if token.Some? then 1 + |TokensOf(dup.Rest())| else 0) == |TokensOf(str)|
        decreases |str| - dup.pos, if token.Some? then 1 else 0
      {
        argc := argc + 1;
        token := dup.GetNextToken();
      }
      return argc - 1;
    }
  }

  /** The second pass asks for exactly as many tokens as the first counted, and gets them. */
  method Parse(msg: string) returns (cmd: Command)
    requires NoNul(msg)
    ensures cmd.Noop? <==> TokensOf(msg) == []
    ensures cmd.Command? ==> [cmd.name] + cmd.args == TokensOf(msg)
  {
    hide NextToken;
    var parser := new Parser(msg);
    assert parser.Rest() == msg;
    var token := parser.GetNextToken();
    var argc := parser.GetArgc();
    if argc < 0 {
      return Noop;
    }
    var name := token.value;
    var args: seq<string> := [];
    var i := 0;
    while i < argc
      invariant 0 <= i <= argc == |TokensOf(msg)| - 1
      invariant parser.Valid() && parser.str == msg
      invariant [name] + args + TokensOf(parser.Rest()) == TokensOf(msg)
      invariant |args| == i
    {
      token := parser.GetNextToken();
      args := args + [token.value];
      i := i + 1;
    }
    return Command(name, args);
  }
}
