/** Printing a tree, and parsing it back. */
module XmlPrinter {
  import opened Options
  import opened XmlLexer
  import opened XmlParser

  // ----- the printed format

  function Spaces(depth: nat): string {
    if depth == 0 then "" else " " + Spaces(depth - 1)
  }

  function PrintAttributes(attributes: Attributes): string {
    if attributes == [] then ""
    else " " + attributes[0].0 + "=\"" + attributes[0].1 + "\"" + PrintAttributes(attributes[1..])
  }

  /** `XmlNode::write`. */
  function Print(node: Node, depth: nat): string
    decreases node, |node.children| + 1
  {
    var open := Spaces(depth) + "<" + node.tag + PrintAttributes(node.attributes);
    if node.children == [] then open + " />\n"
    else open + ">\n" + PrintAll(node, node.children, depth + 1) + Spaces(depth) + "</" + node.tag + ">\n"
  }

  function PrintAll(parent: Node, children: seq<Node>, depth: nat): string
    requires forall i :: 0 <= i < |children| ==> children[i] < parent
    decreases parent, |children|
  {
    if children == [] then "" else Print(children[0], depth) + PrintAll(parent, children[1..], depth)
  }

  // ----- trees that can be printed

  predicate ValidName(s: string) {
    s != "" && forall i :: 0 <= i < |s| ==> IsValidString(s[i]) && s[i] != '\0'
  }

  /** A tag name must not look like an instruction or a comment. */
  predicate ValidTag(s: string) {
    ValidName(s) && s[0] != '?' && !(s[0] == '!' && At(s, 1) == '-' && At(s, 2) == '-')
  }

  predicate ValidValue(s: string) { forall i :: 0 <= i < |s| ==> s[i] != '"' && s[i] != '\0' }

  predicate ValidAttributes(attributes: Attributes) {
    && (forall i :: 0 <= i < |attributes| ==> ValidName(attributes[i].0) && ValidValue(attributes[i].1))
    && (forall i, j :: 0 <= i < j < |attributes| ==> attributes[i].0 != attributes[j].0)
  }

  predicate ValidNode(node: Node) {
    && ValidTag(node.tag) && ValidAttributes(node.attributes)
    && forall i :: 0 <= i < |node.children| ==> ValidNode(node.children[i])
  }

  // ----- tokens of a tree

  function AttributeTokens(attributes: Attributes): seq<Token> {
    if attributes == [] then []
    else [Str(attributes[0].0), Equals, Str(attributes[0].1)] + AttributeTokens(attributes[1..])
  }

  /** The tokens of an element behind its `<`. */
  function ElementTokens(node: Node): seq<Token>
    decreases node, |node.children| + 1
  {
    [Str(node.tag)] + AttributeTokens(node.attributes) +
    if node.children == [] then [Slash, Close]
    else [Close] + ChildTokens(node, node.children) + [Open, Slash, Str(node.tag), Close]
  }

  function ChildTokens(parent: Node, children: seq<Node>): seq<Token>
    requires forall i :: 0 <= i < |children| ==> children[i] < parent
    decreases parent, |children|
  {
    if children == [] then [] else [Open] + ElementTokens(children[0]) + ChildTokens(parent, children[1..])
  }

  // ----- printing produces these tokens

  /** The tokens of t, when t is read as text. */
  ghost predicate Reads(t: string, ts: seq<Token>) { Admissible(t) && Tokens(t) == ts }

  lemma ReadSpace(c: char, t: string, ts: seq<Token>)
    requires IsWhitespace(c) && Reads(t, ts)
    ensures Reads([c] + t, ts)
  {
    assert ([c] + t)[1..] == t;
    assert SkipSpace([c] + t) == SkipSpace(t);
    LexSkips([c] + t);
    LexSkips(t);
  }

  lemma {:induction false} ReadSpaces(depth: nat, t: string, ts: seq<Token>)
    requires Reads(t, ts)
    ensures Reads(Spaces(depth) + t, ts)
    decreases depth
  {
    if depth == 0 {
      assert Spaces(depth) + t == t;
    } else {
      ReadSpaces(depth - 1, t, ts);
      ReadSpace(' ', Spaces(depth - 1) + t, ts);
      assert Spaces(depth) + t == [' '] + (Spaces(depth - 1) + t);
    }
  }

  /** Text that lexes to a token and a rest. */
  lemma ReadToken(s: string, token: Token, t: string, ts: seq<Token>)
    requires Lex(s) == Lexed(token, t) && token != EndOfFile && Reads(t, ts)
    requires token.Str? ==> '\0' !in token.text
    ensures Reads(s, [token] + ts)
  {}

  lemma {:induction false} NameEnds(name: string, t: string)
    requires forall i :: 0 <= i < |name| ==> IsValidString(name[i])
    requires t != "" && !IsValidString(t[0])
    ensures NameLength(name + t) == |name|
    decreases |name|
  {
    if name == "" {
      assert name + t == t;
    } else {
      NameEnds(name[1..], t);
      assert (name + t)[1..] == name[1..] + t;
    }
  }

  lemma ReadName(name: string, t: string, ts: seq<Token>)
    requires ValidName(name) && t != "" && !IsValidString(t[0]) && Reads(t, ts)
    ensures Reads(name + t, [Str(name)] + ts)
  {
    NameEnds(name, t);
    var s := name + t;
    assert s[..|name|] == name && s[|name|..] == t;
    assert SkipSpace(s) == s;
    ReadToken(s, Str(name), t, ts);
  }

  lemma {:induction false} QuoteEnds(value: string, t: string)
    requires ValidValue(value) && t != "" && t[0] == '"'
    ensures ToQuote(value + t) == |value|
    decreases |value|
  {
    if value == "" {
      assert value + t == t;
    } else {
      QuoteEnds(value[1..], t);
      assert (value + t)[1..] == value[1..] + t;
    }
  }

  lemma ReadQuoted(value: string, t: string, ts: seq<Token>)
    requires ValidValue(value) && Reads(t, ts)
    ensures Reads("\"" + value + "\"" + t, [Str(value)] + ts)
  {
    var s := "\"" + value + "\"" + t;
    var q := "\"" + t;
    QuoteEnds(value, q);
    assert s[1..] == value + q;
    assert s[1..1 + |value|] == value && s[1 + |value| + 1..] == t;
    ReadToken(s, Str(value), t, ts);
  }

  /** A single-character token. */
  lemma ReadMark(c: char, token: Token, t: string, ts: seq<Token>)
    requires Reads(t, ts)
    requires (c == '>' && token == Close) || (c == '=' && token == Equals) || (c == '/' && token == Slash)
    ensures Reads([c] + t, [token] + ts)
  {
    var s := [c] + t;
    assert s[1..] == t;
    ReadToken(s, token, t, ts);
  }

  lemma ReadOpen(t: string, ts: seq<Token>)
    requires Reads(t, ts) && At(t, 0) != '?' && !(At(t, 0) == '!' && At(t, 1) == '-' && At(t, 2) == '-')
    ensures Reads("<" + t, [Open] + ts)
  {
    var s := "<" + t;
    assert s[1..] == t;
    LexTag(s);
    ReadToken(s, Open, t, ts);
  }

  lemma {:induction false} ReadAttributes(attributes: Attributes, t: string, ts: seq<Token>)
    requires ValidAttributes(attributes) && t != "" && Reads(t, ts)
    ensures Reads(PrintAttributes(attributes) + t, AttributeTokens(attributes) + ts)
    decreases |attributes|
  {
    hide Reads, ValidName, ValidValue, PrintAttributes, AttributeTokens;
    AttributesAre(attributes, t, ts);
    if attributes != [] {
      ReadAttributes(attributes[1..], t, ts);
      ReadAttribute(attributes[0].0, attributes[0].1, PrintAttributes(attributes[1..]) + t,
                    AttributeTokens(attributes[1..]) + ts);
    }
  }

  lemma AttributesAre(attributes: Attributes, t: string, ts: seq<Token>)
    ensures attributes == [] ==> PrintAttributes(attributes) + t == t && AttributeTokens(attributes) + ts == ts
    ensures attributes != [] ==>
              var (name, value) := attributes[0];
              PrintAttributes(attributes) + t ==
              " " + (name + "=\"" + value + "\"" + (PrintAttributes(attributes[1..]) + t))
    ensures attributes != [] ==>
              var (name, value) := attributes[0];
              AttributeTokens(attributes) + ts ==
              [Str(name), Equals, Str(value)] + (AttributeTokens(attributes[1..]) + ts)
  {}

  lemma ReadAttribute(name: string, value: string, t: string, ts: seq<Token>)
    requires ValidName(name) && ValidValue(value) && Reads(t, ts)
    ensures Reads(" " + (name + "=\"" + value + "\"" + t), [Str(name), Equals, Str(value)] + ts)
  {
    hide Reads, ValidName, ValidValue;
    var quoted := "\"" + value + "\"" + t;
    ReadQuoted(value, t, ts);
    ReadMark('=', Equals, quoted, [Str(value)] + ts);
    assert [Equals] + ([Str(value)] + ts) == [Equals, Str(value)] + ts;
    ReadName(name, "=" + quoted, [Equals, Str(value)] + ts);
    assert name + ("=" + quoted) == name + "=\"" + value + "\"" + t;
    assert [Str(name)] + ([Equals, Str(value)] + ts) == [Str(name), Equals, Str(value)] + ts;
    ReadSpace(' ', name + "=\"" + value + "\"" + t, [Str(name), Equals, Str(value)] + ts);
  }

  lemma {:induction false} ReadNode(node: Node, depth: nat, t: string, ts: seq<Token>)
    requires ValidNode(node) && Reads(t, ts)
    ensures Reads(Print(node, depth) + t, [Open] + ElementTokens(node) + ts)
    decreases node, |node.children| + 1
  {
    hide Reads, ValidTag, ValidAttributes, Print, PrintAll, PrintAttributes, Spaces, ElementTokens, ChildTokens,
         AttributeTokens;
    var body, bodyTs;
    if node.children == [] {
      body, bodyTs := " />\n" + t, [Slash, Close] + ts;
      ReadLeafEnd(t, ts);
    } else {
      var end, endTs := Spaces(depth) + "</" + node.tag + ">\n" + t, [Open, Slash, Str(node.tag), Close] + ts;
      ReadEndTag(node.tag, depth, t, ts);
      ReadChildren(node, node.children, depth + 1, end, endTs);
      var inner, innerTs := PrintAll(node, node.children, depth + 1) + end, ChildTokens(node, node.children) + endTs;
      body, bodyTs := ">\n" + inner, [Close] + innerTs;
      ReadSpace('\n', inner, innerTs);
      ReadMark('>', Close, "\n" + inner, innerTs);
      assert ">" + ("\n" + inner) == body;
    }
    ReadStart(node.tag, node.attributes, depth, body, bodyTs);
    PrintedIs(node, depth, t, body);
    TokensAre(node, ts, bodyTs);
  }

  lemma TokensAre(node: Node, ts: seq<Token>, bodyTs: seq<Token>)
    requires bodyTs == if node.children == [] then [Slash, Close] + ts
                       else [Close] + (ChildTokens(node, node.children) + ([Open, Slash, Str(node.tag), Close] + ts))
    ensures [Open] + ElementTokens(node) + ts == [Open, Str(node.tag)] + AttributeTokens(node.attributes) + bodyTs
  {
    hide ChildTokens, AttributeTokens;
  }

  lemma PrintedIs(node: Node, depth: nat, t: string, body: string)
    requires body == if node.children == [] then " />\n" + t
                     else ">\n" + (PrintAll(node, node.children, depth + 1) +
                                   (Spaces(depth) + "</" + node.tag + ">\n" + t))
    ensures Print(node, depth) + t == Spaces(depth) + ("<" + (node.tag + (PrintAttributes(node.attributes) + body)))
  {
    hide PrintAll, PrintAttributes, Spaces;
  }

  lemma {:induction false} ReadChildren(parent: Node, children: seq<Node>, depth: nat, t: string, ts: seq<Token>)
    requires forall i :: 0 <= i < |children| ==> children[i] < parent && ValidNode(children[i])
    requires Reads(t, ts)
    ensures Reads(PrintAll(parent, children, depth) + t, ChildTokens(parent, children) + ts)
    decreases parent, |children|
  {
    hide Reads, ValidNode;
    if children == [] {
      assert PrintAll(parent, children, depth) + t == t && ChildTokens(parent, children) + ts == ts;
    } else {
      var rest, restTs := PrintAll(parent, children[1..], depth) + t, ChildTokens(parent, children[1..]) + ts;
      ReadChildren(parent, children[1..], depth, t, ts);
      ReadNode(children[0], depth, rest, restTs);
      assert PrintAll(parent, children, depth) + t == Print(children[0], depth) + rest;
      assert ChildTokens(parent, children) + ts == [Open] + ElementTokens(children[0]) + restTs;
    }
  }

  /** Indentation, `<`, tag and attributes. */
  lemma ReadStart(tag: string, attributes: Attributes, depth: nat, t: string, ts: seq<Token>)
    requires ValidTag(tag) && ValidAttributes(attributes) && t != "" && !IsValidString(t[0]) && Reads(t, ts)
    ensures Reads(Spaces(depth) + ("<" + (tag + (PrintAttributes(attributes) + t))),
                  [Open, Str(tag)] + AttributeTokens(attributes) + ts)
  {
    hide Reads, ValidAttributes, Spaces;
    var list, listTs := PrintAttributes(attributes) + t, AttributeTokens(attributes) + ts;
    ReadAttributes(attributes, t, ts);
    AttributesStart(attributes, t);
    ReadName(tag, list, listTs);
    TagStart(tag, list);
    ReadOpen(tag + list, [Str(tag)] + listTs);
    ReadSpaces(depth, "<" + (tag + list), [Open] + ([Str(tag)] + listTs));
    assert [Open] + ([Str(tag)] + listTs) == [Open, Str(tag)] + AttributeTokens(attributes) + ts;
  }

  lemma AttributesStart(attributes: Attributes, t: string)
    requires t != "" && !IsValidString(t[0])
    ensures PrintAttributes(attributes) + t != "" && !IsValidString((PrintAttributes(attributes) + t)[0])
  {}

  /** A tag name keeps its `<` from starting an instruction or a comment. */
  lemma TagStart(tag: string, t: string)
    requires ValidTag(tag) && t != "" && !IsValidString(t[0])
    ensures var s := tag + t; At(s, 0) != '?' && !(At(s, 0) == '!' && At(s, 1) == '-' && At(s, 2) == '-')
  {}

  lemma ReadLeafEnd(t: string, ts: seq<Token>)
    requires Reads(t, ts)
    ensures Reads(" />\n" + t, [Slash, Close] + ts)
  {
    hide Reads;
    ReadSpace('\n', t, ts);
    ReadMark('>', Close, "\n" + t, ts);
    ReadMark('/', Slash, ">" + ("\n" + t), [Close] + ts);
    ReadSpace(' ', "/" + (">" + ("\n" + t)), [Slash] + ([Close] + ts));
    assert " " + ("/" + (">" + ("\n" + t))) == " />\n" + t && [Slash] + ([Close] + ts) == [Slash, Close] + ts;
  }

  lemma ReadEndTag(tag: string, depth: nat, t: string, ts: seq<Token>)
    requires ValidTag(tag) && Reads(t, ts)
    ensures Reads(Spaces(depth) + "</" + tag + ">\n" + t, [Open, Slash, Str(tag), Close] + ts)
  {
    hide Reads, Spaces;
    ReadSpace('\n', t, ts);
    ReadMark('>', Close, "\n" + t, ts);
    var a := ">" + ("\n" + t);
    ReadName(tag, a, [Close] + ts);
    ReadMark('/', Slash, tag + a, [Str(tag)] + ([Close] + ts));
    ReadOpen("/" + (tag + a), [Slash] + ([Str(tag)] + ([Close] + ts)));
    ReadSpaces(depth, "<" + ("/" + (tag + a)), [Open] + ([Slash] + ([Str(tag)] + ([Close] + ts))));
    assert Spaces(depth) + ("<" + ("/" + (tag + a))) == Spaces(depth) + "</" + tag + ">\n" + t;
    assert [Open] + ([Slash] + ([Str(tag)] + ([Close] + ts))) == [Open, Slash, Str(tag), Close] + ts;
  }

  // ----- parsing these tokens gives the tree back

  lemma {:induction false} PutNew(attributes: Attributes, name: string, value: string)
    requires forall i :: 0 <= i < |attributes| ==> attributes[i].0 != name
    ensures Put(attributes, name, value) == attributes + [(name, value)]
    decreases |attributes|
  {
    if attributes != [] {
      PutNew(attributes[1..], name, value);
    }
  }

  lemma AttributeBack(name: string, value: string, next: seq<Token>, before: Attributes)
    ensures ParseAttributes([Str(name), Equals, Str(value)] + next, before) ==
            ParseAttributes(next, Put(before, name, value))
  {
    hide Put;
    var ts := [Str(name), Equals, Str(value)] + next;
    assert Tail(ts) == [Equals, Str(value)] + next;
    assert Tail(Tail(ts)) == [Str(value)] + next;
    assert Tail(Tail(Tail(ts))) == next;
  }

  lemma NoAttributes(rest: seq<Token>, before: Attributes)
    requires !Head(rest).Str?
    ensures ParseAttributes(rest, before) == Some((before, rest))
  {}

  lemma {:induction false} AttributesBack(attributes: Attributes, before: Attributes, rest: seq<Token>)
    requires ValidAttributes(before + attributes) && !Head(rest).Str?
    ensures ParseAttributes(AttributeTokens(attributes) + rest, before) == Some((before + attributes, rest))
    decreases |attributes|
  {
    hide ValidName, ValidValue, ParseAttributes;
    if attributes == [] { NoAttributes(rest, before); }
    if attributes == [] {
      assert AttributeTokens(attributes) + rest == rest && before + attributes == before;
    } else {
      var (name, value) := attributes[0];
      var next := AttributeTokens(attributes[1..]) + rest;
      assert AttributeTokens(attributes) + rest == [Str(name), Equals, Str(value)] + next;
      AttributeBack(name, value, next, before);
      assert before + attributes == (before + [attributes[0]]) + attributes[1..];
      forall i | 0 <= i < |before| ensures before[i].0 != name {
        assert (before + attributes)[i].0 != (before + attributes)[|before|].0;
      }
      PutNew(before, name, value);
      AttributesBack(attributes[1..], before + [(name, value)], rest);
    }
  }

  lemma {:induction false} ElementBack(node: Node, rest: seq<Token>)
    requires ValidNode(node)
    ensures ParseElement(ElementTokens(node) + ([Open] + rest)) == Some((node, rest))
    decreases node, |node.children| + 1
  {
    hide ParseAttributes, AttributeTokens, ValidAttributes, ValidTag, ParseChildren, ParseContent;
    var after := [Close, Open] + rest;
    if node.children == [] {
      var body := [Slash] + after;
      var ts := ElementTokens(node) + ([Open] + rest);
      assert ts == [Str(node.tag)] + (AttributeTokens(node.attributes) + body);
      assert [] + node.attributes == node.attributes;
      AttributesBack(node.attributes, [], body);
      assert Tail(body) == after && Tail(Tail(after)) == rest;
    } else {
      var body := [Close] + (ChildTokens(node, node.children) + ([Open, Slash] + ([Str(node.tag)] + after)));
      var ts := ElementTokens(node) + ([Open] + rest);
      assert ts == [Str(node.tag)] + (AttributeTokens(node.attributes) + body);
      assert [] + node.attributes == node.attributes;
      AttributesBack(node.attributes, [], body);
      ContentBack(node, after);
      assert Tail(Tail(after)) == rest;
    }
  }

  lemma {:induction false} ContentBack(node: Node, after: seq<Token>)
    requires node.children != [] && ValidNode(node)
    ensures ParseContent([Close] + (ChildTokens(node, node.children) + ([Open, Slash] + ([Str(node.tag)] + after))),
                         node.tag) ==
            Some((node.children, after))
    decreases node, |node.children|, 1
  {
    hide ParseElement, ParseChildren, ElementTokens;
    var rest := [Str(node.tag)] + after;
    var inner := ChildTokens(node, node.children) + ([Open, Slash] + rest);
    ChildrenBack(node, node.children, [], rest);
    assert [] + node.children == node.children;
    assert Tail([Close] + inner) == inner;
    assert Tail([Slash] + rest) == rest && Tail(rest) == after;
  }

  lemma {:induction false} ChildrenBack(parent: Node, children: seq<Node>, before: seq<Node>, rest: seq<Token>)
    requires forall i :: 0 <= i < |children| ==> children[i] < parent && ValidNode(children[i])
    ensures ParseChildren(Tail(ChildTokens(parent, children) + ([Open, Slash] + rest)), before) ==
            Some((before + children, [Slash] + rest))
    decreases parent, |children|, 0
  {
    hide ParseElement, ElementTokens, ValidNode;
    var next := ([Open, Slash] + rest);
    if children == [] {
      assert ChildTokens(parent, children) + next == next && Tail(next) == [Slash] + rest &&
             before + children == before;
    } else {
      var tail := ChildTokens(parent, children[1..]) + next;
      assert tail == [Open] + Tail(tail) by { OpenFirst(parent, children[1..], rest); }
      assert Tail(ChildTokens(parent, children) + next) == ElementTokens(children[0]) + tail;
      ElementFirst(children[0], tail);
      ElementBack(children[0], Tail(tail));
      ChildrenBack(parent, children[1..], before + [children[0]], rest);
      assert before + [children[0]] + children[1..] == before + children;
    }
  }

  lemma OpenFirst(parent: Node, children: seq<Node>, rest: seq<Token>)
    requires forall i :: 0 <= i < |children| ==> children[i] < parent
    ensures var tail := ChildTokens(parent, children) + ([Open, Slash] + rest); tail == [Open] + Tail(tail)
  {
    hide ElementTokens;
  }

  lemma ElementFirst(node: Node, rest: seq<Token>)
    ensures Head(ElementTokens(node) + rest) == Str(node.tag)
  {
    hide ChildTokens, AttributeTokens;
  }

  /** Parsing a printed document gives the same tree, for every tree with valid and
      unique names, exactly when its root has a child: a root without children is
      printed as an empty-element tag, which the parser does not accept there. */
  lemma {:induction false} ParseUndoesPrint(root: Node)
    requires ValidNode(root)
    ensures Admissible(Print(root, 0))
    ensures ParseDocument(Tokens(Print(root, 0))) == if root.children != [] then Some(root) else None
  {
    hide ParseAttributes, AttributeTokens, ParseContent, Print, ValidAttributes, ValidTag, Tokens, Admissible,
         ChildTokens;
    var text := Print(root, 0);
    assert Reads("", []) by { NothingReads(); }
    ReadNode(root, 0, "", []);
    assert text + "" == text;
    var after := [Close];
    var body := if root.children == [] then [Slash, Close]
                else [Close] + (ChildTokens(root, root.children) + ([Open, Slash] + ([Str(root.tag)] + after)));
    var ts := [Open] + ElementTokens(root) + [];
    assert ts == [Open] + ([Str(root.tag)] + (AttributeTokens(root.attributes) + body));
    assert Tail(ts) == [Str(root.tag)] + (AttributeTokens(root.attributes) + body);
    assert [] + root.attributes == root.attributes;
    AttributesBack(root.attributes, [], body);
    if root.children != [] { ContentBack(root, after); } else { NoContent(body, root.tag); }
  }

  lemma NoContent(ts: seq<Token>, tag: string)
    requires Head(ts) != Close
    ensures ParseContent(ts, tag) == None
  {}

  lemma NothingReads()
    ensures Reads("", [])
  {}
}
