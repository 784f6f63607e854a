/** The XML tokenizer. Line and column counters, which only feed log messages, are
    not modelled. */
module XmlLexer {
  datatype Token = Open | Slash | Close | Equals | Str(text: string) | EndOfFile

  predicate IsWhitespace(c: char) { c == ' ' || c == '\t' || c == '\r' || c == '\n' }

  predicate IsValidString(c: char) {
    !IsWhitespace(c) && c != '<' && c != '>' && c != '/' && c != '"' && c != '\'' && c != '='
  }

  /** Character k; the text is followed by a terminating zero. */
  function At(s: string, k: nat): char { if k < |s| then s[k] else '\0' }

  function SkipSpace(s: string): (r: string)
    ensures |r| <= |s|
  {
    if s != [] && IsWhitespace(s[0]) then SkipSpace(s[1..]) else s
  }

  /** Length of the text before the first quotation mark. */
  function ToQuote(s: string): (n: nat)
    ensures n <= |s|
    ensures n < |s| ==> s[n] == '"'
  {
    if s == [] || s[0] == '"' then 0 else 1 + ToQuote(s[1..])
  }

  /** Length of the longest prefix of name characters. */
  function NameLength(s: string): (n: nat)
    ensures n <= |s|
    ensures forall i :: 0 <= i < n ==> IsValidString(s[i])
  {
    if s == [] || !IsValidString(s[0]) then 0 else 1 + NameLength(s[1..])
  }

  const BLANKS: set<char> := {' ', '\t', '\r', '\n'}

  const SIGNS: set<char> := {'<', '>', '/', '"', '\'', '='}

  /** Space is skipped up to the first other character. */
  lemma {:induction false} SpaceLaw(s: string)
    ensures var n := |s| - |SkipSpace(s)|;
            && SkipSpace(s) == s[n..] && (forall i :: 0 <= i < n ==> s[i] in BLANKS)
            && (n < |s| ==> s[n] !in BLANKS)
  {
    if s != [] && IsWhitespace(s[0]) { SpaceLaw(s[1..]); }
  }

  /** A name goes up to the first blank or sign. */
  lemma {:induction false} NameLaw(s: string)
    ensures forall i :: 0 <= i < NameLength(s) ==> s[i] !in BLANKS && s[i] !in SIGNS
    ensures NameLength(s) < |s| ==> s[NameLength(s)] in BLANKS || s[NameLength(s)] in SIGNS
  {
    if s != [] && IsValidString(s[0]) { NameLaw(s[1..]); }
  }

  /** Length of the text before the end mark of a `<? ?>` tag, or of the whole text. */
  function ToInstructionEnd(s: string): (n: nat)
    ensures n <= |s|
    ensures n < |s| ==> s[n] == '?' && At(s, n + 1) == '>'
  {
    if s == [] || (s[0] == '?' && At(s, 1) == '>') then 0 else 1 + ToInstructionEnd(s[1..])
  }

  function ToCommentEnd(s: string): (n: nat)
    ensures n <= |s|
    ensures n < |s| ==> s[n] == '-' && At(s, n + 1) == '-' && At(s, n + 2) == '>'
  {
    if s == [] || (s[0] == '-' && At(s, 1) == '-' && At(s, 2) == '>') then 0 else 1 + ToCommentEnd(s[1..])
  }

  predicate IsComment(s: string) { At(s, 0) == '<' && At(s, 1) == '!' && At(s, 2) == '-' && At(s, 3) == '-' }

  /** A token and the text behind it, or no token at all: an unterminated comment
      or instruction, or an apostrophe where a token should start. */
  datatype Lexed = Stuck | Lexed(token: Token, rest: string)

  function Lex(text: string): (r: Lexed)
    ensures r.Lexed? ==> |r.rest| <= |text|
    ensures r.Lexed? && r.token != EndOfFile ==> |r.rest| < |text|
    ensures r.Lexed? && r.token == EndOfFile ==> r.rest == []
    decreases |text|
  {
    var s := SkipSpace(text);
    if s == [] then Lexed(EndOfFile, [])
    else if s[0] == '<' then
      if At(s, 1) == '?' then
        var n := ToInstructionEnd(s);
        if n == |s| then Stuck else Lex(s[n + 2..])
      else if IsComment(s) then
        var n := ToCommentEnd(s[4..]);
        if n == |s| - 4 then Stuck else Lex(s[4 + n + 3..])
      else Lexed(Open, s[1..])
    else if s[0] == '>' then Lexed(Close, s[1..])
    else if s[0] == '=' then Lexed(Equals, s[1..])
    else if s[0] == '/' then Lexed(Slash, s[1..])
    else if s[0] == '"' then
      var n := ToQuote(s[1..]);
      if n == |s| - 1 then Lexed(EndOfFile, []) else Lexed(Str(s[1..1 + n]), s[1 + n + 1..])
    else
      var n := NameLength(s);
      if n == 0 then Stuck else Lexed(Str(s[..n]), s[n..])
  }

  lemma {:induction false} LexSkips(text: string)
    ensures Lex(text) == Lex(SkipSpace(text))
  {
    hide ToInstructionEnd, ToCommentEnd, SkipSpace, ToQuote, NameLength;
    SkipTwice(text);
  }

  /** What a `<` starts. */
  lemma LexTag(s: string)
    requires s != [] && s[0] == '<'
    ensures At(s, 1) == '?' ==>
              Lex(s) == if ToInstructionEnd(s) == |s| then Stuck else Lex(s[ToInstructionEnd(s) + 2..])
    ensures At(s, 1) == '!' && At(s, 2) == '-' && At(s, 3) == '-' ==>
              Lex(s) == if ToCommentEnd(s[4..]) == |s| - 4 then Stuck else Lex(s[4 + ToCommentEnd(s[4..]) + 3..])
    ensures At(s, 1) != '?' && !(At(s, 1) == '!' && At(s, 2) == '-' && At(s, 3) == '-') ==>
              Lex(s) == Lexed(Open, s[1..])
  {
    hide Lex, ToInstructionEnd, ToCommentEnd;
    if At(s, 1) == '?' {
      LexInstruction(s);
    } else if IsComment(s) {
      LexComment(s);
    } else {
      LexOpen(s);
    }
  }

  lemma LexInstruction(s: string)
    requires s != [] && s[0] == '<' && At(s, 1) == '?'
    ensures Lex(s) == if ToInstructionEnd(s) == |s| then Stuck else Lex(s[ToInstructionEnd(s) + 2..])
  {
    hide ToInstructionEnd, ToCommentEnd, SkipSpace, ToQuote, NameLength;
    NoSpace(s);
  }

  lemma LexComment(s: string)
    requires s != [] && s[0] == '<' && At(s, 1) != '?' && IsComment(s)
    ensures Lex(s) == if ToCommentEnd(s[4..]) == |s| - 4 then Stuck else Lex(s[4 + ToCommentEnd(s[4..]) + 3..])
  {
    hide ToInstructionEnd, ToCommentEnd, SkipSpace, ToQuote, NameLength;
    NoSpace(s);
  }

  lemma LexOpen(s: string)
    requires s != [] && s[0] == '<' && At(s, 1) != '?' && !IsComment(s)
    ensures Lex(s) == Lexed(Open, s[1..])
  {
    hide ToInstructionEnd, ToCommentEnd, SkipSpace, ToQuote, NameLength;
    NoSpace(s);
  }

  /** The end of the text, and the tokens of one character. */
  lemma LexSign(s: string)
    requires SkipSpace(s) == s
    ensures s == [] ==> Lex(s) == Lexed(EndOfFile, [])
    ensures s != [] && s[0] == '>' ==> Lex(s) == Lexed(Close, s[1..])
    ensures s != [] && s[0] == '=' ==> Lex(s) == Lexed(Equals, s[1..])
    ensures s != [] && s[0] == '/' ==> Lex(s) == Lexed(Slash, s[1..])
  {
    hide ToInstructionEnd, ToCommentEnd, SkipSpace, ToQuote, NameLength;
  }

  lemma LexName(s: string)
    requires SkipSpace(s) == s && s != [] && s[0] !in {'<', '>', '=', '/', '"'} && Lex(s).Lexed?
    ensures Lex(s) == Lexed(Str(s[..NameLength(s)]), s[NameLength(s)..])
  {
    hide ToInstructionEnd, ToCommentEnd, SkipSpace, ToQuote, NameLength;
  }

  /** An instruction is skipped up to its first end mark. */
  lemma InstructionSkipped(body: string, rest: string)
    requires forall i: nat :: i <= |body| ==> !StartsAt("?" + body, "?>", i)
    ensures Lex("<?" + body + "?>" + rest) == Lex(rest)
  {
    hide ToInstructionEnd, Lex;
    var s := "<?" + body + "?>" + rest;
    LexInstruction(s);
    forall i: nat | i < |body| + 2 ensures !StartsAt(s, "?>", i) {
      Mark(s, '?', '>', i);
      if 0 < i < |body| + 1 {
        Mark("?" + body, '?', '>', i - 1);
        assert s[i] == ("?" + body)[i - 1] && s[i + 1] == ("?" + body)[i];
      }
    }
    Mark(s, '?', '>', |body| + 2);
    InstructionEndsAt(s, |body| + 2);
    assert s[|body| + 4..] == rest;
  }

  predicate StartsAt(s: string, t: string, i: nat) { i + |t| <= |s| && s[i..i + |t|] == t }

  lemma Mark(s: string, c: char, d: char, i: nat)
    ensures StartsAt(s, [c, d], i) <==> i + 2 <= |s| && s[i] == c && s[i + 1] == d
  {}

  lemma {:induction false} InstructionEndsAt(s: string, n: nat)
    requires StartsAt(s, "?>", n) && forall i: nat :: i < n ==> !StartsAt(s, "?>", i)
    ensures ToInstructionEnd(s) == n
    decreases n
  {
    Mark(s, '?', '>', 0);
    if n > 0 {
      assert !StartsAt(s, "?>", 0);
      forall i: nat ensures StartsAt(s[1..], "?>", i) <==> StartsAt(s, "?>", i + 1) {
        Mark(s[1..], '?', '>', i);
        Mark(s, '?', '>', i + 1);
      }
      InstructionEndsAt(s[1..], n - 1);
    }
  }

  /** A comment is skipped up to its first end mark. */
  lemma CommentSkipped(body: string, rest: string)
    requires forall i: nat :: i < |body| ==> !StartsAt(body + "-->", "-->", i)
    ensures Lex("<!--" + body + "-->" + rest) == Lex(rest)
  {
    hide ToCommentEnd, Lex;
    var s, t := "<!--" + body + "-->" + rest, body + "-->" + rest;
    assert s[4..] == t && At(s, 0) == '<' && At(s, 1) == '!' && At(s, 2) == '-' && At(s, 3) == '-';
    LexComment(s);
    forall i: nat | i < |body| ensures !StartsAt(t, "-->", i) {
      assert t[i..i + 3] == (body + "-->")[i..i + 3];
      assert !StartsAt(body + "-->", "-->", i);
    }
    assert t[|body|..|body| + 3] == "-->";
    CommentEndsAt(t, |body|);
    assert s[4 + |body| + 3..] == rest;
  }

  lemma LongMark(s: string, i: nat)
    ensures StartsAt(s, "-->", i) <==> i + 3 <= |s| && s[i] == '-' && s[i + 1] == '-' && s[i + 2] == '>'
  {}

  lemma {:induction false} CommentEndsAt(s: string, n: nat)
    requires StartsAt(s, "-->", n) && forall i: nat :: i < n ==> !StartsAt(s, "-->", i)
    ensures ToCommentEnd(s) == n
    decreases n
  {
    LongMark(s, 0);
    if n > 0 {
      assert !StartsAt(s, "-->", 0);
      forall i: nat ensures StartsAt(s[1..], "-->", i) <==> StartsAt(s, "-->", i + 1) {
        LongMark(s[1..], i);
        LongMark(s, i + 1);
      }
      CommentEndsAt(s[1..], n - 1);
    }
  }

  lemma InstructionStep(s: string)
    ensures ToInstructionEnd(s) ==
            if s == [] || (s[0] == '?' && At(s, 1) == '>') then 0 else 1 + ToInstructionEnd(s[1..])
  {}

  lemma CommentStep(s: string)
    ensures ToCommentEnd(s) ==
            if s == [] || (s[0] == '-' && At(s, 1) == '-' && At(s, 2) == '>') then 0 else 1 + ToCommentEnd(s[1..])
  {}

  lemma NoSpace(s: string)
    requires s != [] && !IsWhitespace(s[0])
    ensures SkipSpace(s) == s
  {}

  lemma {:induction false} SkipTwice(text: string)
    ensures SkipSpace(SkipSpace(text)) == SkipSpace(text)
  {
    if text != [] && IsWhitespace(text[0]) { SkipTwice(text[1..]); }
  }

  /** All tokens are proper ones: the copies of a text with a zero inside would
      stop there. */
  predicate Admissible(text: string)
    decreases |text|
  {
    var l := Lex(text);
    l.Lexed? && (l.token.Str? ==> '\0' !in l.token.text) && (l.token == EndOfFile || Admissible(l.rest))
  }

  /** The tokens of a text before the end of the file. */
  function Tokens(text: string): seq<Token>
    requires Admissible(text)
    decreases |text|
  {
    var l := Lex(text);
    if l.token == EndOfFile then [] else [l.token] + Tokens(l.rest)
  }

  // ----- the code

  class Scanner {
    const file: string
    var index: nat

    ghost predicate Valid()
      reads this
    { index <= |file| && Admissible(file[index..]) }

    /** The tokens that are still to come. */
    ghost function Ahead(): seq<Token>
      requires Valid()
      reads this
    { Tokens(file[index..]) }

    constructor (text: string)
      requires Admissible(text)
      ensures Valid() && Ahead() == Tokens(text) && file == text
    {
      file := text;
      index := 0;
      new;
      assert file[0..] == text;
    }

    /** Character k characters ahead, as the code reads it. */
    function Char(k: nat): char
      reads this
    { At(file, index + k) }

    method SkipSpaces()
      requires index <= |file|
      modifies this
      ensures old(index) <= index <= |file| && file[index..] == SkipSpace(old(file[index..]))
    {
      ghost var text := file[index..];
      while index < |file| && IsWhitespace(file[index])
        invariant old(index) <= index <= |file|
        invariant SkipSpace(text) == SkipSpace(file[index..])
      {
        assert file[index..][1..] == file[index + 1..];
        index := index + 1;
      }
    }

    method SkipInstruction()
      requires index <= |file|
      modifies this
      ensures index == old(index) + ToInstructionEnd(old(file[index..]))
    {
      hide ToInstructionEnd;
      ghost var text := file[index..];
      ghost var start := index;
      while index < |file| && (file[index] != '?' || Char(1) != '>')
        invariant start <= index <= |file|
        invariant ToInstructionEnd(text) == index - start + ToInstructionEnd(file[index..])
      {
        InstructionStep(file[index..]);
        assert file[index..][1..] == file[index + 1..];
        index := index + 1;
      }
      InstructionStep(file[index..]);
    }

    method SkipComment()
      requires index <= |file|
      modifies this
      ensures index == old(index) + ToCommentEnd(old(file[index..]))
    {
      hide ToCommentEnd;
      ghost var text := file[index..];
      ghost var start := index;
      while index < |file| && !(file[index] == '-' && Char(1) == '-' && Char(2) == '>')
        invariant start <= index <= |file|
        invariant ToCommentEnd(text) == index - start + ToCommentEnd(file[index..])
      {
        CommentStep(file[index..]);
        assert file[index..][1..] == file[index + 1..];
        index := index + 1;
      }
      CommentStep(file[index..]);
    }

    method SkipToQuote()
      requires index <= |file|
      modifies this
      ensures index == old(index) + ToQuote(old(file[index..]))
    {
      ghost var text := file[index..];
      ghost var start := index;
      while index < |file| && file[index] != '"'
        invariant start <= index <= |file|
        invariant ToQuote(text) == index - start + ToQuote(file[index..])
      {
        assert file[index..][1..] == file[index + 1..];
        index := index + 1;
      }
    }

    method SkipName()
      requires index <= |file|
      modifies this
      ensures index == old(index) + NameLength(old(file[index..]))
    {
      ghost var text := file[index..];
      ghost var start := index;
      while index < |file| && IsValidString(file[index])
        invariant start <= index <= |file|
        invariant NameLength(text) == index - start + NameLength(file[index..])
      {
        assert file[index..][1..] == file[index + 1..];
        index := index + 1;
      }
    }

    /** `XmlTok`: returns the next token and moves behind it. */
    method Tok() returns (token: Token)
      requires index <= |file| && Lex(file[index..]).Lexed?
      modifies this
      ensures old(index) <= index <= |file| && Lex(old(file[index..])) == Lexed(token, file[index..])
      decreases |file| - index, 2
    {
      hide Lex, SkipSpace, NameLength;
      ghost var text := file[index..];
      LexSkips(text);
      SkipTwice(text);
      SkipSpaces();
      ghost var s := file[index..];
      LexSign(s);
      if index == |file| { return EndOfFile; }
      match file[index]
      case '<' => token := TokTag();
      case '>' =>
        index := index + 1;
        token := Close;
      case '=' =>
        index := index + 1;
        token := Equals;
      case '/' =>
        index := index + 1;
        token := Slash;
      case '"' => token := TokQuoted();
      case _ =>
        var start := index;
        LexName(s);
        SkipName();
        token := Str(file[start..index]);
        assert file[index..] == s[index - start..];
    }

    /** A `<`: instructions and comments are skipped. */
    method TokTag() returns (token: Token)
      requires index < |file| && file[index] == '<' && Lex(file[index..]).Lexed?
      modifies this
      ensures old(index) <= index <= |file| && Lex(old(file[index..])) == Lexed(token, file[index..])
      decreases |file| - index, 1
    {
      hide ToInstructionEnd, ToCommentEnd, Lex;
      LexTag(file[index..]);
      if Char(1) == '?' {
        token := TokInstruction();
      } else if Char(1) == '!' && Char(2) == '-' && Char(3) == '-' {
        token := TokComment();
      } else {
        index := index + 1;
        token := Open;
      }
    }

    method TokInstruction() returns (token: Token)
      requires index <= |file| && ToInstructionEnd(file[index..]) < |file[index..]|
      requires Lex(file[index..][ToInstructionEnd(file[index..]) + 2..]).Lexed?
      modifies this
      ensures old(index) <= index <= |file|
      ensures Lex(old(file[index..][ToInstructionEnd(file[index..]) + 2..])) == Lexed(token, file[index..])
      decreases |file| - index, 0
    {
      hide ToInstructionEnd, Lex;
      ghost var s := file[index..];
      var start := index;
      SkipInstruction();
      index := index + 2;
      assert file[index..] == s[index - start..];
      token := Tok();
    }

    method TokComment() returns (token: Token)
      requires index + 4 <= |file| && ToCommentEnd(file[index..][4..]) < |file[index..]| - 4
      requires Lex(file[index..][4 + ToCommentEnd(file[index..][4..]) + 3..]).Lexed?
      modifies this
      ensures old(index) <= index <= |file|
      ensures Lex(old(file[index..][4 + ToCommentEnd(file[index..][4..]) + 3..])) == Lexed(token, file[index..])
      decreases |file| - index, 0
    {
      hide ToCommentEnd, Lex;
      ghost var s := file[index..];
      var start := index;
      index := index + 4;
      assert file[index..] == s[4..];
      SkipComment();
      index := index + 3;
      assert file[index..] == s[index - start..];
      token := Tok();
    }

    method TokQuoted() returns (token: Token)
      requires index < |file| && file[index] == '"'
      modifies this
      ensures old(index) <= index <= |file| && Lex(old(file[index..])) == Lexed(token, file[index..])
    {
      hide ToInstructionEnd, ToCommentEnd, ToQuote, NameLength;
      ghost var s := file[index..];
      var start := index;
      index := index + 1;
      assert file[index..] == s[1..];
      SkipToQuote();
      if index == |file| { return EndOfFile; }
      token := Str(file[start + 1..index]);
      index := index + 1;
      assert file[index..] == s[index - start..];
    }

    /** Reading tokens one after the other gives the token list of the text, and
        every token but the last one moves on. */
    method Next() returns (token: Token)
      requires Valid()
      modifies this
      ensures Valid()
      ensures old(Ahead()) == (if token == EndOfFile then [] else [token]) + Ahead()
      ensures if token == EndOfFile then index == |file| && Ahead() == [] else index > old(index)
    {
      ghost var text := file[index..];
      token := Tok();
      if token == EndOfFile { assert file[index..] == []; }
    }
  }
}
