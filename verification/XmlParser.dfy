/** The XML parser, and the printer that it undoes. */
module XmlParser {
  import opened Options
  import opened XmlLexer

  type Attributes = seq<(string, string)>

  /** An element: its tag name, attributes in order of insertion, and children. */
  datatype Node = Node(tag: string, attributes: Attributes, children: seq<Node>)

  /** `vectormap::insert`: replaces the value of a known name, or appends. */
  function Put(attributes: Attributes, name: string, value: string): Attributes {
    if attributes == [] then [(name, value)]
    else if attributes[0].0 == name then [(name, value)] + attributes[1..]
    else [attributes[0]] + Put(attributes[1..], name, value)
  }

  /** An unknown name goes to the end; the first entry of a known one is overwritten. */
  lemma {:induction false} PutUnknown(attributes: Attributes, name: string, value: string)
    requires forall i :: 0 <= i < |attributes| ==> attributes[i].0 != name
    ensures Put(attributes, name, value) == attributes + [(name, value)]
  {
    if attributes != [] { PutUnknown(attributes[1..], name, value); }
  }

  lemma {:induction false} PutKnown(attributes: Attributes, name: string, value: string, k: nat)
    requires k < |attributes| && attributes[k].0 == name && forall i :: 0 <= i < k ==> attributes[i].0 != name
    ensures Put(attributes, name, value) == attributes[k := (name, value)]
  {
    if k > 0 { PutKnown(attributes[1..], name, value, k - 1); }
  }

  /** A string as the C library sees it. */
  function CText(s: string): string {
    if s == [] || s[0] == '\0' then [] else [s[0]] + CText(s[1..])
  }

  // ----- the grammar

  function Head(ts: seq<Token>): Token { if ts == [] then EndOfFile else ts[0] }

  function Tail(ts: seq<Token>): seq<Token> { if ts == [] then [] else ts[1..] }

  /** NAME [= STRING] ... */
  function ParseAttributes(ts: seq<Token>, attributes: Attributes): (r: Option<(Attributes, seq<Token>)>)
    ensures r.Some? ==> |r.value.1| <= |ts|
    decreases |ts|
  {
    if !Head(ts).Str? then Some((attributes, ts))
    else if Head(Tail(ts)) == Equals then
      var value := Tail(Tail(ts));
      if Head(value).Str? then ParseAttributes(Tail(value), Put(attributes, Head(ts).text, Head(value).text)) else None
    else ParseAttributes(Tail(ts), Put(attributes, Head(ts).text, "true"))
  }

  /** A name without a value means the same as the name with the value "true". */
  lemma BareName(name: string, rest: seq<Token>, attributes: Attributes)
    requires Head(rest) != Equals
    ensures ParseAttributes([Str(name)] + rest, attributes) ==
            ParseAttributes([Str(name), Equals, Str("true")] + rest, attributes)
  {
    var bare, full := [Str(name)] + rest, [Str(name), Equals, Str("true")] + rest;
    assert Tail(bare) == rest && Tail(full) == [Equals, Str("true")] + rest;
    assert Tail(Tail(full)) == [Str("true")] + rest && Tail(Tail(Tail(full))) == rest;
  }

  /** `> <`, behind every element but the root. */
  function ParseEnd(ts: seq<Token>): Option<seq<Token>> {
    if Head(ts) == Close && Head(Tail(ts)) == Open then Some(Tail(Tail(ts))) else None
  }

  /** An element behind its `<`. */
  function ParseElement(ts: seq<Token>): (r: Option<(Node, seq<Token>)>)
    ensures r.Some? ==> |r.value.1| < |ts|
    decreases |ts|, 0
  {
    if !Head(ts).Str? then None
    else
      match ParseAttributes(Tail(ts), [])
      case None => None
      case Some((attributes, body)) =>
        if Head(body) == Slash then
          match ParseEnd(Tail(body))
          case None => None
          case Some(rest) => Some((Node(Head(ts).text, attributes, []), rest))
        else
          match ParseContent(body, Head(ts).text)
          case None => None
          case Some((children, end)) =>
            match ParseEnd(end)
            case None => None
            case Some(rest) => Some((Node(Head(ts).text, attributes, children), rest))
  }

  /** `> <`, children, `/ NAME` with the right name. */
  function ParseContent(ts: seq<Token>, tag: string): (r: Option<(seq<Node>, seq<Token>)>)
    ensures r.Some? ==> |r.value.1| < |ts|
    decreases |ts|, 2
  {
    if Head(ts) != Close || Head(Tail(ts)) != Open then None
    else
      match ParseChildren(Tail(Tail(ts)), [])
      case None => None
      case Some((children, end)) =>
        if Head(Tail(end)).Str? && CText(Head(Tail(end)).text) == CText(tag) then Some((children, Tail(Tail(end))))
        else None
  }

  /** Elements up to a slash. */
  function ParseChildren(ts: seq<Token>, children: seq<Node>): (r: Option<(seq<Node>, seq<Token>)>)
    ensures r.Some? ==> |r.value.1| <= |ts|
    ensures r.Some? ==> Head(r.value.1) == Slash
    decreases |ts|, 1
  {
    if Head(ts) == Slash then Some((children, ts))
    else
      match ParseElement(ts)
      case None => None
      case Some((child, rest)) => ParseChildren(rest, children + [child])
  }

  // ----- what is accepted

  /** The last tokens of ts. */
  predicate Suffix(ts: seq<Token>, rest: seq<Token>) {
    |rest| <= |ts| && rest == ts[|ts| - |rest|..]
  }

  lemma SuffixOf(ts: seq<Token>, mid: seq<Token>, rest: seq<Token>)
    requires Suffix(ts, mid) && Suffix(mid, rest)
    ensures Suffix(ts, rest)
  {}

  lemma TailSuffix(ts: seq<Token>)
    ensures Suffix(ts, Tail(ts)) && Suffix(ts, Tail(Tail(ts)))
  {}

  lemma WholeSuffix(ts: seq<Token>)
    ensures Suffix(ts, ts)
  {}

  /** Where two tokens have been read. */
  lemma TwoRead(ts: seq<Token>, mid: seq<Token>, rest: seq<Token>)
    requires Suffix(ts, mid) && rest == Tail(Tail(mid)) && |mid| >= 2
    ensures Suffix(ts, rest) && |rest| + 2 <= |ts|
    ensures ts[|ts| - |rest| - 2] == mid[0] && ts[|ts| - |rest| - 1] == mid[1]
  {}

  /** Attributes end before a token that is no name. */
  lemma {:induction false} AttributesShape(ts: seq<Token>, attributes: Attributes)
    requires ParseAttributes(ts, attributes).Some?
    ensures Suffix(ts, ParseAttributes(ts, attributes).value.1) && !Head(ParseAttributes(ts, attributes).value.1).Str?
    decreases |ts|
  {
    hide Suffix, Put;
    var rest := ParseAttributes(ts, attributes).value.1;
    TailSuffix(ts);
    if !Head(ts).Str? {
      WholeSuffix(ts);
    } else if Head(Tail(ts)) == Equals {
      var value := Tail(Tail(ts));
      AttributesShape(Tail(value), Put(attributes, Head(ts).text, Head(value).text));
      TailSuffix(value);
      SuffixOf(ts, value, Tail(value));
      SuffixOf(ts, Tail(value), rest);
    } else {
      AttributesShape(Tail(ts), Put(attributes, Head(ts).text, "true"));
      SuffixOf(ts, Tail(ts), rest);
    }
  }

  /** An accepted element begins with its tag name and ends with `> <`. */
  lemma {:induction false} ElementShape(ts: seq<Token>)
    requires ParseElement(ts).Some?
    ensures var (node, rest) := ParseElement(ts).value;
            && Suffix(ts, rest) && |rest| + 4 <= |ts| && ts[0] == Str(node.tag)
            && ts[|ts| - |rest| - 2] == Close && ts[|ts| - |rest| - 1] == Open
    decreases |ts|, 0
  {
    hide Suffix, ParseAttributes, ParseContent;
    var rest := ParseElement(ts).value.1;
    var body := ParseAttributes(Tail(ts), []).value.1;
    TailSuffix(ts);
    AttributesShape(Tail(ts), []);
    SuffixOf(ts, Tail(ts), body);
    SuffixShorter(Tail(ts), body);
    if Head(body) == Slash {
      TailSuffix(body);
      SuffixOf(ts, body, Tail(body));
      TwoRead(ts, Tail(body), rest);
      SuffixShorter(ts, Tail(body));
    } else {
      var end := ParseContent(body, Head(ts).text).value.1;
      ContentShape(body, Head(ts).text);
      SuffixOf(ts, body, end);
      TwoRead(ts, end, rest);
    }
  }

  lemma SuffixShorter(ts: seq<Token>, rest: seq<Token>)
    requires Suffix(ts, rest)
    ensures |rest| <= |ts|
  {}

  /** Accepted content stands between `> <` and a slash with the tag's name. */
  lemma {:induction false} ContentShape(ts: seq<Token>, tag: string)
    requires ParseContent(ts, tag).Some?
    ensures var (children, rest) := ParseContent(ts, tag).value;
            var n := |ts| - |rest|;
            && Suffix(ts, rest) && n >= 4 && ts[0] == Close && ts[1] == Open
            && ts[n - 2] == Slash && ts[n - 1].Str? && CText(ts[n - 1].text) == CText(tag)
    decreases |ts|, 2
  {
    hide Suffix, ParseChildren;
    TailSuffix(ts);
    ChildrenShape(Tail(Tail(ts)), []);
    var end := ParseChildren(Tail(Tail(ts)), []).value.1;
    SuffixOf(ts, Tail(Tail(ts)), end);
    SuffixShorter(Tail(Tail(ts)), end);
    TwoRead(ts, end, ParseContent(ts, tag).value.1);
  }

  lemma {:induction false} ChildrenShape(ts: seq<Token>, children: seq<Node>)
    requires ParseChildren(ts, children).Some?
    ensures Suffix(ts, ParseChildren(ts, children).value.1) && Head(ParseChildren(ts, children).value.1) == Slash
    decreases |ts|, 1
  {
    if Head(ts) != Slash {
      ElementShape(ts);
      var (child, rest) := ParseElement(ts).value;
      ChildrenShape(rest, children + [child]);
      SuffixOf(ts, rest, ParseChildren(rest, children + [child]).value.1);
    }
  }

  /** `< NAME ... > < ... / NAME >`, the two names equal as far as the C library sees them. */
  predicate Enclosed(ts: seq<Token>, tag: string) {
    var n := |ts|;
    && n >= 7 && ts[0] == Open && ts[1] == Str(tag)
    && ts[n - 3] == Slash && ts[n - 2].Str? && CText(ts[n - 2].text) == CText(tag) && ts[n - 1] == Close
  }

  /** An accepted document is enclosed in its tags. */
  lemma DocumentShape(ts: seq<Token>)
    requires ParseDocument(ts).Some? && EndOfFile !in ts
    ensures Enclosed(ts, ParseDocument(ts).value.tag)
  {
    hide Suffix, ParseAttributes, ParseContent;
    var body := ParseAttributes(Tail(Tail(ts)), []).value.1;
    TailSuffix(ts);
    AttributesShape(Tail(Tail(ts)), []);
    SuffixOf(ts, Tail(Tail(ts)), body);
    SuffixShorter(Tail(Tail(ts)), body);
    ContentShape(body, ts[1].text);
    var end := ParseContent(body, ts[1].text).value.1;
    EndOfDocument(ts, body, end);
  }

  lemma NoEndInside(ts: seq<Token>, rest: seq<Token>)
    requires Suffix(ts, rest) && EndOfFile !in ts
    ensures Head(Tail(rest)) == EndOfFile ==> |rest| <= 1
  {
    if |rest| >= 2 { assert rest[1] == ts[|ts| - |rest| + 1]; }
  }

  /** What stands before the end of the document stands before the end of its content. */
  lemma EndOfDocument(ts: seq<Token>, body: seq<Token>, end: seq<Token>)
    requires Suffix(ts, body) && Suffix(body, end) && EndOfFile !in ts && |end| + 2 <= |body|
    requires Head(end) == Close && Head(Tail(end)) == EndOfFile
    ensures |end| == 1 && ts[|ts| - 1] == Close
    ensures ts[|ts| - 3] == body[|body| - 3] && ts[|ts| - 2] == body[|body| - 2]
  {
    SuffixOf(ts, body, end);
    NoEndInside(ts, end);
  }

  lemma {:induction false} EndNotInside(text: string)
    requires Admissible(text)
    ensures EndOfFile !in Tokens(text)
    decreases |text|
  {
    hide Lex;
    if Lex(text).token != EndOfFile { EndNotInside(Lex(text).rest); }
  }

  /** The C library sees a string up to its first zero. */
  lemma {:induction false} CTextLaw(s: string)
    ensures CText(s) <= s && '\0' !in CText(s)
    ensures |CText(s)| < |s| ==> s[|CText(s)|] == '\0'
  {
    if s != [] && s[0] != '\0' { CTextLaw(s[1..]); }
  }

  /** A document: the root has an opening and a closing tag. */
  function ParseDocument(ts: seq<Token>): Option<Node> {
    if Head(ts) != Open || !Head(Tail(ts)).Str? then None
    else
      var tag := Head(Tail(ts)).text;
      match ParseAttributes(Tail(Tail(ts)), [])
      case None => None
      case Some((attributes, body)) =>
        match ParseContent(body, tag)
        case None => None
        case Some((children, end)) =>
          if Head(end) == Close && Head(Tail(end)) == EndOfFile then Some(Node(tag, attributes, children)) else None
  }

  // ----- the code

  /** The current token and the tokens behind it. */
  function Cons(token: Token, ahead: seq<Token>): seq<Token> {
    if token == EndOfFile then [] else [token] + ahead
  }

  /** The attribute loop. */
  method ReadAttributes(sc: Scanner) returns (ok: bool, token: Token, attributes: Attributes)
    requires sc.Valid()
    modifies sc
    ensures sc.Valid() && (token == EndOfFile ==> sc.Ahead() == [])
    ensures ParseAttributes(old(sc.Ahead()), []) == if ok then Some((attributes, Cons(token, sc.Ahead()))) else None
  {
    hide Scanner.Valid, Scanner.Ahead;
    ghost var ts := sc.Ahead();
    attributes := [];
    token := sc.Next();
    while token.Str?
      invariant sc.Valid() && (token == EndOfFile ==> sc.Ahead() == [])
      invariant ParseAttributes(ts, []) == ParseAttributes(Cons(token, sc.Ahead()), attributes)
      decreases |Cons(token, sc.Ahead())|
    {
      var name := token.text;
      token := sc.Next();
      if token == Equals {
        token := sc.Next();
        if !token.Str? { return false, token, attributes; }
        attributes := Insert(attributes, name, token.text);
        token := sc.Next();
      } else {
        attributes := Insert(attributes, name, "true");
      }
    }
    ok := true;
  }

  /** `vectormap::insert` by its search loop. */
  method Insert(attributes: Attributes, name: string, value: string) returns (r: Attributes)
    ensures r == Put(attributes, name, value)
  {
    var i := 0;
    while i < |attributes|
      invariant 0 <= i <= |attributes|
      invariant Put(attributes, name, value) == attributes[..i] + Put(attributes[i..], name, value)
    {
      if attributes[i].0 == name {
        return attributes[i := (name, value)];
      }
      assert attributes[..i] + [attributes[i]] == attributes[..i + 1] && attributes[i..][1..] == attributes[i + 1..];
      i := i + 1;
    }
    r := attributes + [(name, value)];
  }

  /** `XmlParse`: the element that starts with the token tok, read through the `<`
      that must follow it. */
  method XmlParse(sc: Scanner, tok: Token) returns (node: Option<Node>)
    requires sc.Valid() && (tok == EndOfFile ==> sc.Ahead() == [])
    modifies sc
    ensures sc.Valid()
    ensures ParseElement(Cons(tok, old(sc.Ahead()))) == if node.Some? then Some((node.value, sc.Ahead())) else None
    decreases |Cons(tok, sc.Ahead())|
  {
    hide ParseAttributes, ParseContent, Scanner.Valid, Scanner.Ahead;
    if !tok.Str? { return None; }
    var ok, token, attributes := ReadAttributes(sc);
    if !ok { return None; }
    var children := [];
    if token != Slash {
      ok, children := ReadContent(sc, token, tok.text);
      if !ok { return None; }
    }
    ok := ReadEnd(sc);
    if !ok { return None; }
    node := Some(Node(tok.text, attributes, children));
  }

  method ReadEnd(sc: Scanner) returns (ok: bool)
    requires sc.Valid()
    modifies sc
    ensures sc.Valid()
    ensures ParseEnd(old(sc.Ahead())) == if ok then Some(sc.Ahead()) else None
  {
    var token := sc.Next();
    if token != Close { return false; }
    token := sc.Next();
    ok := token == Open;
  }

  /** The children and the closing tag up to its name. */
  method ReadContent(sc: Scanner, first: Token, tag: string) returns (ok: bool, children: seq<Node>)
    requires sc.Valid() && (first == EndOfFile ==> sc.Ahead() == [])
    modifies sc
    ensures sc.Valid()
    ensures ParseContent(Cons(first, old(sc.Ahead())), tag) == if ok then Some((children, sc.Ahead())) else None
    decreases |Cons(first, sc.Ahead())|
  {
    hide ParseElement, Scanner.Valid, Scanner.Ahead;
    children := [];
    if first != Close { return false, []; }
    var token := sc.Next();
    if token != Open { return false, []; }
    ghost var ts := sc.Ahead();
    token := sc.Next();
    while token != Slash
      invariant sc.Valid() && (token == EndOfFile ==> sc.Ahead() == [])
      invariant ParseChildren(ts, []) == ParseChildren(Cons(token, sc.Ahead()), children)
      decreases |Cons(token, sc.Ahead())|
    {
      var child := XmlParse(sc, token);
      if child == None { return false, []; }
      children := children + [child.value];
      token := sc.Next();
    }
    token := sc.Next();
    if !token.Str? { return false, []; }
    ok := CText(token.text) == CText(tag);
  }

  /** `XmlRead`: a whole document. */
  method XmlRead(file: string) returns (node: Option<Node>)
    requires Admissible(file)
    ensures node == ParseDocument(Tokens(file))
    ensures node.Some? ==> Enclosed(Tokens(file), node.value.tag)
  {
    hide ParseAttributes, ParseContent, Enclosed;
    EndNotInside(file);
    if ParseDocument(Tokens(file)).Some? { DocumentShape(Tokens(file)); }
    var sc := new Scanner(file);
    var token := sc.Next();
    if token != Open { return None; }
    var name := sc.Next();
    if !name.Str? { return None; }
    var ok, attributes, children;
    ok, token, attributes := ReadAttributes(sc);
    if !ok { return None; }
    ok, children := ReadContent(sc, token, name.text);
    if !ok { return None; }
    token := sc.Next();
    if token != Close { return None; }
    token := sc.Next();
    if token != EndOfFile { return None; }
    node := Some(Node(name.text, attributes, children));
  }
}
