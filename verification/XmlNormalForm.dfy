/** The normal form is tight: a document comes back from its printed text exactly if it is normal. */
module XmlNormalForm {
  import opened Options
  import opened Sequences
  import opened XmlChars
  import opened XmlCondense
  import opened XmlGrammar
  import opened XmlPrint
  import opened XmlReferences
  import opened XmlRoundTrip

  // ---------------------------------------------------------------------------------------------
  // What the parser can return

  /** An element's value after its children were read: each data text replaces an empty value and one that
      starts with NUL. */
  function LatestValue(children: seq<Node>): string {
    if children == [] then ""
    else
      var v, c := LatestValue(children[..|children| - 1]), children[|children| - 1];
      if c.kind == Data && !(v != "" && v[0] != NUL) then c.value else v
  }

  /** A node as the parser returns it, normal or not. References can put NUL into values and whitespace into
      data, skipped nodes can leave data texts side by side, a declaration can lack attributes, and an
      instruction called "xml" can be none when "/", ">" or "?" follows its name. */
  predicate Parsed(n: Node, f: Flags)
    decreases n
  {
    match n.kind
    case Document => false
    case Element =>
      && IsName(n.name, NodeName) && n.name[0] != '!'
      && (forall a | a in n.attributes :: IsName(a.name, AttributeName))
      && n.value == (if f.noElementValues then "" else LatestValue(n.children))
      && forall c | c in n.children :: Parsed(c, f)
    case Data => n == Leaf(Data, "", n.value)
    case Cdata => n == Leaf(Cdata, "", n.value) && Free(n.value, "]]>")
    case Comment => n == Leaf(Comment, "", n.value) && Free(n.value, "-->") && f.commentNodes
    case Doctype => n == Leaf(Doctype, "", n.value) && DoctypeBody(n.value, 0) && f.doctypeNode
    case Declaration =>
      && n == Node(Declaration, "", "", n.attributes, []) && f.declarationNode
      && forall a | a in n.attributes :: IsName(a.name, AttributeName)
    case Pi =>
      && n == Leaf(Pi, n.name, n.value) && IsName(n.name, NodeName) && f.piNodes
      && Free(n.value, "?>") && (n.value != "" ==> !IsWhitespace(n.value[0]))
      && (SpellsXml(n.name) && n.value != "" ==> !NodeName.Test(n.value[0]))
  }

  lemma {:induction false} AttributesAreParsed(s: seq<char>, i: nat, done: seq<Attribute>, f: Flags)
    requires Terminated(s) && i < |s| && forall a | a in done :: IsName(a.name, AttributeName)
    requires ParseAttributes(s, i, done, f).Ok?
    ensures forall a | a in ParseAttributes(s, i, done, f).value :: IsName(a.name, AttributeName)
    decreases |s| - i
  {
    hide Skip, Expand, ParseOneAttribute;
    if AttributeName.Test(s[i]) {
      var a := ParseOneAttribute(s, i, f);
      OneAttributeIsNamed(s, i, f);
      AttributesAreParsed(s, a.text, done + [a.value], f);
    }
  }

  lemma OneAttributeIsNamed(s: seq<char>, i: nat, f: Flags)
    requires Terminated(s) && i < |s| && AttributeName.Test(s[i]) && ParseOneAttribute(s, i, f).Ok?
    ensures IsName(ParseOneAttribute(s, i, f).value.name, AttributeName)
  {
    hide Skip, Expand, AttributeTail;
    SkippedIsName(s, i, Skip(s, i + 1, AttributeName), AttributeName);
  }

  lemma SkippedIsName(s: seq<char>, i: nat, end: nat, cc: CharClass)
    requires i < end <= |s| && forall k | i <= k < end :: cc.Test(s[k])
    ensures IsName(s[i..end], cc)
  {
  }

  /** What a search for a closing mark passes over is free of it. */
  lemma FoundIsFree(s: seq<char>, i: nat, close: string)
    requires Terminated(s) && i < |s| && |close| > 0 && NUL !in close && FindClose(s, i, close).Ok?
    ensures Free(s[i..FindClose(s, i, close).text], close)
  {
    hide FindClose;
    var end := FindClose(s, i, close).text;
    var v := s[i..end];
    forall k | 0 <= k < |v| ensures !Matches(v, k, close) {
      assert !Matches(s, i + k, close);
      if k + |close| <= |v| { SliceOfSlice(s, i, end, k, k + |close|); }
    }
  }

  lemma {:induction false} DoctypeIsBody(s: seq<char>, i: nat, depth: nat)
    requires Terminated(s) && i < |s| && DoctypeEnd(s, i, depth).Ok?
    ensures DoctypeBody(s[i..DoctypeEnd(s, i, depth).text], depth)
    decreases |s| - i
  {
    var end := DoctypeEnd(s, i, depth).text;
    if !(depth == 0 && s[i] == '>') {
      var next := if s[i] == '[' then depth + 1 else if s[i] == ']' && depth > 0 then depth - 1 else depth;
      DoctypeIsBody(s, i + 1, next);
      assert s[i..end][1..] == s[i + 1..end];
    } else {
      assert s[i..end] == "";
    }
  }

  lemma PiIsParsed(s: seq<char>, i: nat, f: Flags)
    requires Terminated(s) && i < |s| && !OpensDeclaration(s, i)
    requires ParsePi(s, i, f).Ok? && ParsePi(s, i, f).value.Some?
    ensures Parsed(ParsePi(s, i, f).value.value, f)
  {
    hide FindClose, Skip, Free, CharClass.Test;
    var nameEnd := Skip(s, i, NodeName);
    var value := Skip(s, nameEnd, Whitespace);
    var close := FindClose(s, value, "?>");
    FoundIsFree(s, value, "?>");
    SkippedIsName(s, i, nameEnd, NodeName);
    assert value < close.text ==> s[value..close.text][0] == s[value];
    assert SpellsXml(s[i..nameEnd]) ==> value == nameEnd by { NotSpelled(s, i, nameEnd, value); }
    assert !Whitespace.Test(s[value]) && !NodeName.Test(s[nameEnd]);
    WhitespaceTest(s[value]);
  }

  lemma WhitespaceTest(c: char)
    ensures Whitespace.Test(c) == IsWhitespace(c)
  {
  }

  lemma NotSpelled(s: seq<char>, i: nat, nameEnd: nat, value: nat)
    requires Terminated(s) && i < nameEnd <= value < |s| && !OpensDeclaration(s, i)
    requires value == Skip(s, nameEnd, Whitespace)
    ensures SpellsXml(s[i..nameEnd]) ==> value == nameEnd
  {
    if SpellsXml(s[i..nameEnd]) {
      assert s[i] == s[i..nameEnd][0] && s[i + 1] == s[i..nameEnd][1] && s[i + 2] == s[i..nameEnd][2];
    }
  }

  lemma DeclarationIsParsed(s: seq<char>, i: nat, f: Flags)
    requires Terminated(s) && i < |s| && ParseDeclaration(s, i, f).Ok? && ParseDeclaration(s, i, f).value.Some?
    ensures Parsed(ParseDeclaration(s, i, f).value.value, f)
  {
    hide ParseAttributes, Skip, FindClose;
    AttributesAreParsed(s, Skip(s, i, Whitespace), [], f);
  }

  /** The parser returns such nodes only, from any text. */
  lemma {:induction false} NodeIsParsed(s: seq<char>, i: nat, f: Flags)
    requires Terminated(s) && i < |s| && Faithful(f)
    requires ParseNode(s, i, f).Ok? && ParseNode(s, i, f).value.Some?
    ensures ParseNode(s, i, f).value.value.kind != Data && Parsed(ParseNode(s, i, f).value.value, f)
    decreases |s| - i, 2
  {
    hide ParseElement, Matches, FindClose, DoctypeEnd, ParsePi, ParseDeclaration, Free, DoctypeBody;
    if s[i] == '?' {
      if OpensDeclaration(s, i + 1) {
        DeclarationIsParsed(s, i + 5, f);
        DeclarationKind(s, i + 5, f);
      } else {
        PiIsParsed(s, i + 1, f);
        PiKind(s, i + 1, f);
      }
    } else if s[i] == '!' {
      if Matches(s, i, "!--") && i + 3 < |s| {
        FoundIsFree(s, i + 3, "-->");
      } else if Matches(s, i, "![CDATA[") && i + 8 < |s| {
        FoundIsFree(s, i + 8, "]]>");
      } else if OpensDoctype(s, i) {
        DoctypeIsBody(s, i + 9, 0);
      }
    } else {
      ElementIsParsed(s, i, f);
    }
  }

  lemma DeclarationKind(s: seq<char>, i: nat, f: Flags)
    requires Terminated(s) && i < |s| && ParseDeclaration(s, i, f).Ok? && ParseDeclaration(s, i, f).value.Some?
    ensures ParseDeclaration(s, i, f).value.value.kind == Declaration
  {
  }

  lemma PiKind(s: seq<char>, i: nat, f: Flags)
    requires Terminated(s) && i < |s| && ParsePi(s, i, f).Ok? && ParsePi(s, i, f).value.Some?
    ensures ParsePi(s, i, f).value.value.kind == Pi
  {
  }

  lemma {:induction false} ElementIsParsed(s: seq<char>, i: nat, f: Flags)
    requires Terminated(s) && i < |s| && Faithful(f) && s[i] != '!' && ParseElement(s, i, f).Ok?
    ensures ParseElement(s, i, f).value.kind == Element && Parsed(ParseElement(s, i, f).value, f)
    decreases |s| - i, 1
  {
    hide ParseAttributes, ParseContents, Skip;
    var nameEnd := Skip(s, i, NodeName);
    var a := ParseAttributes(s, Skip(s, nameEnd, Whitespace), [], f);
    AttributesAreParsed(s, Skip(s, nameEnd, Whitespace), [], f);
    SkippedIsName(s, i, nameEnd, NodeName);
    var element := Node(Element, s[i..nameEnd], "", a.value, []);
    assert s[i..nameEnd][0] == s[i];
    assert Parsed(element, f);
    if s[a.text] == '>' { ContentsAreParsed(s, a.text + 1, element, false, f); }
  }

  lemma Snoc(children: seq<Node>, c: Node)
    ensures LatestValue(children + [c]) == var v := LatestValue(children);
      if c.kind == Data && !(v != "" && v[0] != NUL) then c.value else v
  {
    assert (children + [c])[..|children|] == children;
  }

  lemma AddedIsParsed(element: Node, child: Option<Node>, value: string, f: Flags)
    requires Faithful(f) && element.kind == Element && Parsed(element, f)
    requires child.Some? ==> child.value.kind != Data && Parsed(child.value, f)
    ensures AddChild(element, child).kind == Element && Parsed(AddChild(element, child), f)
    ensures AddData(element, value, f).kind == Element && Parsed(AddData(element, value, f), f)
  {
    hide IsName, LatestValue;
    Snoc(element.children, Leaf(Data, "", value));
    if child.Some? { Snoc(element.children, child.value); }
  }

  lemma {:induction false} ContentsAreParsed(s: seq<char>, i: nat, element: Node, afterData: bool, f: Flags)
    requires Terminated(s) && i < |s| && Faithful(f) && (afterData ==> !Text.Test(s[i]))
    requires element.kind == Element && Parsed(element, f) && ParseContents(s, i, element, afterData, f).Ok?
    ensures var r := ParseContents(s, i, element, afterData, f); r.value.kind == Element && Parsed(r.value, f)
    decreases |s| - i, 0
  {
    hide Parsed, ParseNode, ParseClosing, Skip, Expand, AddChild, AddData;
    var next := if afterData then i else Skip(s, i, Whitespace);
    if s[next] == '<' {
      if s[next + 1] != '/' {
        var child := ParseNode(s, next + 1, f);
        if child.value.Some? { NodeIsParsed(s, next + 1, f); }
        AddedIsParsed(element, child.value, "", f);
        ContentsAreParsed(s, child.text, AddChild(element, child.value), false, f);
      }
    } else {
      assert Text.Test(s[i]) by { if i < next { assert Whitespace.Test(s[i]); } }
      var data := Expand(s, i, i, Text, f, f.normalizeWhitespace);
      AddedIsParsed(element, None, data.value, f);
      ContentsAreParsed(s, data.text, AddData(element, data.value, f), true, f);
    }
  }

  lemma {:induction false} NodesAreParsed(s: seq<char>, i: nat, document: Node, f: Flags)
    requires Terminated(s) && i < |s| && Faithful(f) && ParseNodes(s, i, document, f).Ok?
    requires forall c | c in document.children :: c.kind != Data && Parsed(c, f)
    ensures var d := ParseNodes(s, i, document, f).value;
      && d == document.(children := d.children)
      && forall c | c in d.children :: c.kind != Data && Parsed(c, f)
    decreases |s| - i
  {
    hide Parsed, ParseNode, Skip;
    var next := Skip(s, i, Whitespace);
    if s[next] == '<' {
      var child := ParseNode(s, next + 1, f);
      if child.value.Some? { NodeIsParsed(s, next + 1, f); }
      NodesAreParsed(s, child.text, AddChild(document, child.value), f);
    }
  }

  // ---------------------------------------------------------------------------------------------
  // Reading printed nodes that are not normal

  lemma {:induction false} EscapeConcat(a: string, b: string, noexpand: char)
    ensures Escape(a + b, noexpand) == Escape(a, noexpand) + Escape(b, noexpand)
  {
    hide EscapeChar;
    if a == "" {
      assert a + b == b;
    } else {
      EscapeConcat(a[1..], b, noexpand);
      assert (a + b)[1..] == a[1..] + b;
    }
  }

  /** The text before the first NUL, and the rest. */
  lemma {:induction false} NulSplits(v: string) returns (x: string, y: string)
    requires NUL in v
    ensures v == x + ([NUL] + y) && NUL !in x
  {
    if v[0] == NUL {
      x, y := "", v[1..];
    } else {
      x, y := NulSplits(v[1..]);
      x := [v[0]] + x;
    }
  }

  lemma EscapedNul(x: string, y: string, noexpand: char)
    requires noexpand == NUL || noexpand == '"' || noexpand == '\''
    ensures Escape(x + ([NUL] + y), noexpand) == Escape(x, noexpand) + ([NUL] + Escape(y, noexpand))
  {
    EscapeConcat(x, [NUL] + y, noexpand);
    assert ([NUL] + y)[1..] == y;
  }

  /** A printed attribute whose value holds a NUL is an error. */
  lemma StuckAttribute(s: seq<char>, i: nat, a: Attribute, f: Flags)
    requires Terminated(s) && IsName(a.name, AttributeName) && NUL in a.value && !f.noEntityTranslation
    requires Matches(s, i, PrintAttribute(a)) && i + |PrintAttribute(a)| < |s|
    ensures s[i] == ' ' && Skip(s, i, Whitespace) == i + 1
    ensures AttributeName.Test(s[i + 1]) && ParseOneAttribute(s, i + 1, f).Error?
  {
    hide Escape, Expand, Matches, Skip, CharClass.Test, QuoteFor, KeptIn, EscapesFor, IsName, ParseOneAttribute;
    var quote := QuoteFor(a.value);
    var kept := KeptIn(quote);
    QuoteEscapes(a.value);
    KeptQuote(quote);
    var text := Escape(a.value, kept);
    var nameEnd := i + 1 + |a.name|;
    SplitAttribute(s, i, a.name, quote, text);
    AttributePieces(s, i, a.name, nameEnd, quote, nameEnd + 2 + |text|);
    var x, y := NulSplits(a.value);
    EscapedNul(x, y, kept);
    var stop := nameEnd + 2 + |Escape(x, kept)|;
    MatchesConcat(s, nameEnd + 2, Escape(x, kept), [NUL] + Escape(y, kept));
    MatchesConcat(s, stop, [NUL], Escape(y, kept));
    MatchesAt(s, stop, [NUL], 0);
    NulStops(QuoteClass(quote));
    ExpandEscape(s, nameEnd + 2, nameEnd + 2, x, QuoteClass(quote), kept, f);
    NoQuoteStep(s, i + 1, nameEnd, quote, x, stop, f);
  }

  /** A value that stops before its closing quote is an error. */
  lemma NoQuoteStep(s: seq<char>, i: nat, nameEnd: nat, quote: char, value: string, stop: nat, f: Flags)
    requires Terminated(s) && i + 1 <= nameEnd && nameEnd + 2 < |s| && stop < |s|
    requires AttributeName.Test(s[i]) && Skip(s, i + 1, AttributeName) == nameEnd
    requires s[nameEnd] == '=' && Skip(s, nameEnd, Whitespace) == nameEnd
    requires s[nameEnd + 1] == quote && Skip(s, nameEnd + 1, Whitespace) == nameEnd + 1
    requires (quote == '"' || quote == '\'') && s[stop] != quote
    requires Expand(s, nameEnd + 2, nameEnd + 2, QuoteClass(quote), f, false) == Ok(value, stop)
    ensures ParseOneAttribute(s, i, f).Error?
  {
    hide Skip, Expand, CharClass.Test;
  }

  lemma KeptQuote(quote: char)
    ensures KeptIn(quote) == '"' || KeptIn(quote) == '\''
  {
  }

  lemma NulStops(cc: CharClass)
    ensures !cc.Test(NUL)
  {
  }

  ghost predicate AllNormal(attributes: seq<Attribute>) {
    forall a | a in attributes :: NormalAttribute(a)
  }

  lemma {:induction false} StuckAttributes(s: seq<char>, i: nat, rest: seq<Attribute>, done: seq<Attribute>, f: Flags)
    requires Terminated(s) && !f.noEntityTranslation && (forall a | a in rest :: IsName(a.name, AttributeName))
    requires !AllNormal(rest) && Matches(s, i, PrintAttributes(rest)) && i + |PrintAttributes(rest)| < |s|
    ensures s[i] == ' ' && ParseAttributes(s, Skip(s, i, Whitespace), done, f).Error?
    decreases |rest|
  {
    hide PrintAttribute, ParseOneAttribute, Matches, Skip, CharClass.Test, IsName;
    var a := rest[0];
    MatchesConcat(s, i, PrintAttribute(a), PrintAttributes(rest[1..]));
    if NormalAttribute(a) {
      ParsePrintedAttribute(s, i, a, f);
      assert !AllNormal(rest[1..]) by {
        var b :| b in rest && !NormalAttribute(b);
        assert b in rest[1..];
      }
      StuckAttributes(s, i + |PrintAttribute(a)|, rest[1..], done + [a], f);
    } else {
      StuckAttribute(s, i, a, f);
    }
  }

  /** Whitespace is printed as it is, and skipped. */
  lemma {:induction false} BlankSkipped(s: seq<char>, i: nat, v: string)
    requires Terminated(s) && NUL !in v && !Visible(v)
    requires Matches(s, i, Escape(v, NUL)) && i + |Escape(v, NUL)| < |s|
    ensures Skip(s, i, Whitespace) == Skip(s, i + |Escape(v, NUL)|, Whitespace)
    decreases |v|
  {
    hide EscapeChar, Matches;
    if v != "" {
      assert IsWhitespace(v[0]);
      MatchesConcat(s, i, EscapeChar(v[0], NUL), Escape(v[1..], NUL));
      BlankIsPrinted(s, i, v[0]);
      forall k | 0 <= k < |v[1..]| ensures IsWhitespace(v[1..][k]) {
        assert v[1..][k] == v[k + 1];
      }
      BlankSkipped(s, i + 1, v[1..]);
    }
  }

  /** A printed data text with a NUL is an error. */
  lemma StuckData(s: seq<char>, i: nat, element: Node, v: string, f: Flags)
    requires Terminated(s) && Faithful(f) && NUL in v
    requires Matches(s, i, Escape(v, NUL)) && i + |Escape(v, NUL)| < |s|
    ensures ParseContents(s, i, element, false, f).Error?
  {
    hide Escape, Expand, AddData, Skip, Matches;
    var x, y := NulSplits(v);
    EscapedNul(x, y, NUL);
    var stop := i + |Escape(x, NUL)|;
    MatchesConcat(s, i, Escape(x, NUL), [NUL] + Escape(y, NUL));
    MatchesConcat(s, stop, [NUL], Escape(y, NUL));
    MatchesAt(s, stop, [NUL], 0);
    if Visible(x) {
      DataShows(s, i, x);
      ExpandPrinted(s, i, i, x, f);
    } else {
      BlankSkipped(s, i, x);
      SkipNone(s, stop, Whitespace);
    }
  }

  /** A printed data text of whitespace before markup is passed over. */
  lemma BlankData(s: seq<char>, i: nat, element: Node, v: string, f: Flags)
    requires Terminated(s) && NUL !in v && !Visible(v)
    requires Matches(s, i, Escape(v, NUL)) && i + |Escape(v, NUL)| < |s| && s[i + |Escape(v, NUL)|] == '<'
    ensures ParseContents(s, i, element, false, f) == ParseContents(s, i + |Escape(v, NUL)|, element, false, f)
  {
    hide Escape, Expand, AddData, AddChild, Skip, Matches, ParseNode, ParseClosing;
    BlankSkipped(s, i, v);
    SkipNone(s, i + |Escape(v, NUL)|, Whitespace);
  }

  /** A printed node that is no data starts with '<' and a character that opens no closing tag. */
  lemma ParsedOpens(n: Node, f: Flags)
    requires Parsed(n, f) && n.kind != Data
    ensures |PrintNode(n)| >= 2 && PrintNode(n)[0] == '<' && PrintNode(n)[1] != '/'
  {
    hide PrintAttributes, PrintInner, PrintChildren, LatestValue;
  }

  /** Before the next child that is no data, or the closing tag, stands a '<'. */
  lemma MarkupFollows(s: seq<char>, i: nat, rest: seq<Node>, name: string, f: Flags)
    requires Matches(s, i, PrintChildren(rest)) && Matches(s, i + |PrintChildren(rest)|, Tag(name))
    requires rest != [] ==> rest[0].kind != Data && Parsed(rest[0], f)
    ensures i < |s| && s[i] == '<'
  {
    hide Parsed, PrintNode;
    if rest == [] {
      MatchesAt(s, i, Tag(name), 0);
    } else {
      ParsedOpens(rest[0], f);
      MatchesConcat(s, i, PrintNode(rest[0]), PrintChildren(rest[1..]));
      MatchesAt(s, i, PrintNode(rest[0]), 0);
    }
  }

  /** How the contents loop goes on after a child node, or not. */
  lemma MarkupStep(s: seq<char>, i: nat, element: Node, afterData: bool, f: Flags)
    requires Terminated(s) && i + 1 < |s| && s[i] == '<' && s[i + 1] != '/'
    ensures var child := ParseNode(s, i + 1, f);
      ParseContents(s, i, element, afterData, f) ==
      if child.Error? then Error(child.error, child.at)
      else ParseContents(s, child.text, AddChild(element, child.value), false, f)
  {
    hide ParseNode, ParseClosing, AddChild, AddData, Expand, Skip;
    SkipNone(s, i, Whitespace);
  }

  function Size(n: Node): nat
    decreases n, 1
  {
    1 + SizeAll(n.children)
  }

  function SizeAll(nodes: seq<Node>): nat
    decreases nodes, 0
  {
    if nodes == [] then 0 else Size(nodes[0]) + SizeAll(nodes[1..])
  }

  /** What reading printed children leaves, if it succeeds: the text is at the end of the closing tag, there are
      at most as many new children as were printed, and if they are the ones printed these were normal. */
  ghost predicate ReadSoundly(r: Outcome<Node>, element: Node, rest: seq<Node>, end: nat, f: Flags) {
    r.Ok? ==>
      && r.text == end && r.value == element.(children := r.value.children, value := r.value.value)
      && element.children <= r.value.children && |r.value.children| <= |element.children| + |rest|
      && (r.value.children == element.children + rest ==> (forall c | c in rest :: Normal(c, f)) && NoAdjacentData(rest))
  }

  lemma {:induction false} ReadChildren(s: seq<char>, i: nat, element: Node, rest: seq<Node>, afterData: bool, f: Flags)
    requires Terminated(s) && Faithful(f) && IsName(element.name, NodeName)
    requires forall c | c in rest :: Parsed(c, f)
    requires afterData ==> rest == [] || rest[0].kind != Data
    requires Matches(s, i, PrintChildren(rest)) && Matches(s, i + |PrintChildren(rest)|, Tag(element.name))
    requires i + |PrintChildren(rest)| + |Tag(element.name)| < |s|
    ensures afterData ==> s[i] == '<'
    ensures ReadSoundly(ParseContents(s, i, element, afterData, f), element, rest,
                        i + |PrintChildren(rest)| + |Tag(element.name)|, f)
    decreases SizeAll(rest), 5
  {
    hide Parsed, Normal, Tag, ParseNode, ParseContents, PrintNode, Matches, IsName, Faithful;
    if rest == [] {
      ParsePrintedClosing(s, i, element, afterData, f);
    } else if rest[0].kind == Data {
      ReadDataFirst(s, i, element, rest, f);
    } else {
      ReadNodeFirst(s, i, element, rest, afterData, f);
    }
  }

  lemma {:induction false} ReadDataFirst(s: seq<char>, i: nat, element: Node, rest: seq<Node>, f: Flags)
    requires Terminated(s) && Faithful(f) && IsName(element.name, NodeName)
    requires rest != [] && rest[0].kind == Data && forall c | c in rest :: Parsed(c, f)
    requires Matches(s, i, PrintChildren(rest)) && Matches(s, i + |PrintChildren(rest)|, Tag(element.name))
    requires i + |PrintChildren(rest)| + |Tag(element.name)| < |s|
    ensures ReadSoundly(ParseContents(s, i, element, false, f), element, rest,
                        i + |PrintChildren(rest)| + |Tag(element.name)|, f)
    decreases SizeAll(rest), 4
  {
    hide Parsed, Normal, Tag, ParseContents, PrintNode, PrintChildren, Matches, IsName, Faithful, ReadSoundly, SizeAll, Merged;
    if |rest| > 1 && rest[1].kind == Data {
      var merged := Merged(rest);
      MergedData(rest, f);
      ReadDataFirst(s, i, element, merged, f);
      Dropped(ParseContents(s, i, element, false, f), element, merged, rest, i + |PrintChildren(rest)| + |Tag(element.name)|, f);
    } else {
      assert rest == [rest[0]] + rest[1..];
      ReadLoneData(s, i, element, rest[0], rest[1..], f);
    }
  }

  /** A data child before markup: an error, passed over, or read in. */
  lemma {:induction false} ReadLoneData(s: seq<char>, i: nat, element: Node, c: Node, tail: seq<Node>, f: Flags)
    requires Terminated(s) && Faithful(f) && IsName(element.name, NodeName)
    requires c.kind == Data && Parsed(c, f) && forall d | d in tail :: Parsed(d, f)
    requires tail == [] || tail[0].kind != Data
    requires Matches(s, i, PrintChildren([c] + tail)) && Matches(s, i + |PrintChildren([c] + tail)|, Tag(element.name))
    requires i + |PrintChildren([c] + tail)| + |Tag(element.name)| < |s|
    ensures ReadSoundly(ParseContents(s, i, element, false, f), element, [c] + tail,
                        i + |PrintChildren([c] + tail)| + |Tag(element.name)|, f)
    decreases SizeAll([c] + tail), 3
  {
    hide Parsed, Normal, Tag, ParseContents, PrintNode, Matches, IsName, Faithful, AddData, Visible, SizeAll, Escape, ReadAs;
    var v, p, rest := c.value, PrintNode(c), [c] + tail;
    assert rest[1..] == tail;
    var end := i + |PrintChildren(rest)| + |Tag(element.name)|;
    SizeTail(rest);
    ParsedData(c, f);
    MatchesConcat(s, i, p, PrintChildren(tail));
    MarkupFollows(s, i + |p|, tail, element.name, f);
    if NUL in v {
      StuckData(s, i, element, v, f);
    } else if Visible(v) {
      hide ReadSoundly;
      ParsePrintedData(s, i, element, v, f);
      var child := Leaf(Data, "", ReadAs(v, f));
      ReadChildren(s, i + |p|, AddData(element, child.value, f), tail, true, f);
      NormalData(c, f);
      DataAdded(element, child.value, f);
      Added(ParseContents(s, i, element, false, f), element, AddData(element, child.value, f), child, c, tail, end, f);
    } else {
      hide ReadSoundly;
      BlankData(s, i, element, v, f);
      ReadChildren(s, i + |p|, element, tail, false, f);
      Dropped(ParseContents(s, i, element, false, f), element, tail, rest, end, f);
    }
  }

  lemma SizeTail(rest: seq<Node>)
    requires rest != []
    ensures SizeAll(rest[1..]) < SizeAll(rest) && Size(rest[0]) <= SizeAll(rest)
  {
  }

  lemma ParsedData(c: Node, f: Flags)
    requires c.kind == Data && Parsed(c, f)
    ensures c == Leaf(Data, "", c.value) && PrintNode(c) == Escape(c.value, NUL) && Size(c) == 1
  {
    assert SizeAll([]) == 0;
  }

  lemma NormalData(c: Node, f: Flags)
    requires c == Leaf(Data, "", c.value) && Visible(c.value)
    ensures ReadAs(c.value, f) == c.value ==> Normal(c, f)
  {
    hide Condense;
    CondenseStays(c.value);
  }

  lemma DataAdded(element: Node, v: string, f: Flags)
    requires Faithful(f)
    ensures AddData(element, v, f) == element.(children := element.children + [Leaf(Data, "", v)], value := AddData(element, v, f).value)
  {
  }

  /** Data texts side by side print as one. */
  lemma MergedData(rest: seq<Node>, f: Flags)
    requires |rest| > 1 && rest[0].kind == Data && rest[1].kind == Data && forall c | c in rest :: Parsed(c, f)
    ensures var merged := Merged(rest);
      && PrintChildren(merged) == PrintChildren(rest) && SizeAll(merged) < SizeAll(rest) && |merged| < |rest|
      && merged != [] && merged[0].kind == Data && forall c | c in merged :: Parsed(c, f)
  {
    hide Escape, Parsed;
    var a, b, tail := rest[0], rest[1], rest[2..];
    var ab := Merged(rest)[0];
    assert Parsed(ab, f) by { LeafParsed(ab.value, f); }
    ParsedData(a, f);
    ParsedData(b, f);
    ParsedData(ab, f);
    EscapeConcat(a.value, b.value, NUL);
    assert rest[1..][1..] == tail && Merged(rest)[1..] == tail;
    assert PrintChildren(rest) == PrintNode(a) + (PrintNode(b) + PrintChildren(tail));
  }

  function Merged(rest: seq<Node>): seq<Node>
    requires |rest| > 1
  {
    [Leaf(Data, "", rest[0].value + rest[1].value)] + rest[2..]
  }

  lemma LeafParsed(v: string, f: Flags)
    ensures Parsed(Leaf(Data, "", v), f)
  {
  }

  /** Fewer children than printed were read in. */
  lemma Dropped(r: Outcome<Node>, element: Node, fewer: seq<Node>, rest: seq<Node>, end: nat, f: Flags)
    requires ReadSoundly(r, element, fewer, end, f) && |fewer| < |rest|
    ensures ReadSoundly(r, element, rest, end, f)
  {
  }

  /** A child was read in, the printed one or another. */
  lemma Added(r: Outcome<Node>, element: Node, next: Node, child: Node, c: Node, tail: seq<Node>, end: nat, f: Flags)
    requires next == element.(children := element.children + [child], value := next.value)
    requires ReadSoundly(r, next, tail, end, f) && (child == c ==> Normal(c, f))
    requires c.kind == Data ==> tail == [] || tail[0].kind != Data
    ensures forall rest: seq<Node> | rest != [] && rest[0] == c && rest[1..] == tail :: ReadSoundly(r, element, rest, end, f)
  {
    hide Normal;
    forall rest: seq<Node> | rest != [] && rest[0] == c && rest[1..] == tail ensures ReadSoundly(r, element, rest, end, f) {
      assert rest == [c] + tail;
      if r.Ok? && r.value.children == element.children + rest {
        assert r.value.children[|element.children|] == c;
        assert next.children[|element.children|] == child;
        assert r.value.children == next.children + tail;
        forall d | d in rest ensures Normal(d, f) { assert d == c || d in tail; }
        AdjacentHead(c, tail);
      }
    }
  }

  lemma AdjacentHead(c: Node, tail: seq<Node>)
    requires NoAdjacentData(tail) && (c.kind == Data ==> tail == [] || tail[0].kind != Data)
    ensures NoAdjacentData([c] + tail)
  {
    var all := [c] + tail;
    forall k | 0 < k < |all| ensures !(all[k - 1].kind == Data && all[k].kind == Data) {
      assert all[k] == tail[k - 1];
      if k > 1 { assert all[k - 1] == tail[k - 2]; }
    }
  }

  lemma {:induction false} ReadNodeFirst(s: seq<char>, i: nat, element: Node, rest: seq<Node>, afterData: bool, f: Flags)
    requires Terminated(s) && Faithful(f) && IsName(element.name, NodeName)
    requires rest != [] && rest[0].kind != Data && forall c | c in rest :: Parsed(c, f)
    requires Matches(s, i, PrintChildren(rest)) && Matches(s, i + |PrintChildren(rest)|, Tag(element.name))
    requires i + |PrintChildren(rest)| + |Tag(element.name)| < |s|
    ensures i + 1 < |s| && s[i] == '<'
    ensures ReadSoundly(ParseContents(s, i, element, afterData, f), element, rest,
                        i + |PrintChildren(rest)| + |Tag(element.name)|, f)
    decreases SizeAll(rest), 4
  {
    hide Parsed, Normal, Tag, ParseNode, ParseContents, PrintNode, Matches, IsName, Faithful, NoAdjacentData;
    var c, tail := rest[0], rest[1..];
    var p := PrintNode(c);
    MatchesConcat(s, i, p, PrintChildren(tail));
    SizeTail(rest);
    ParsedOpens(c, f);
    MatchesAt(s, i, p, 0);
    MatchesAt(s, i, p, 1);
    ReadNode(s, i, c, f);
    MarkupStep(s, i, element, afterData, f);
    var child := ParseNode(s, i + 1, f);
    if child.Ok? {
      var end := i + |PrintChildren(rest)| + |Tag(element.name)|;
      ReadChildren(s, i + |p|, AddChild(element, child.value), tail, false, f);
      if child.value.None? {
        Dropped(ParseContents(s, i, element, afterData, f), element, tail, rest, end, f);
      } else {
        Added(ParseContents(s, i, element, afterData, f), element, AddChild(element, child.value), child.value.value, c, tail, end, f);
      }
    }
  }

  /** Reading a printed node ends where it was printed to end, if it succeeds, and gives it back only if it is
      normal. */
  lemma {:induction false} ReadNode(s: seq<char>, i: nat, n: Node, f: Flags)
    requires Terminated(s) && Faithful(f) && n.kind != Data && Parsed(n, f)
    requires Matches(s, i, PrintNode(n)) && i + |PrintNode(n)| < |s|
    ensures i + 1 < |s|
    ensures var r := ParseNode(s, i + 1, f);
      r.Ok? ==> r.text == i + |PrintNode(n)| && (r.value == Some(n) ==> Normal(n, f))
    decreases Size(n), 2
  {
    hide Matches, PrintAttributes, Free, PrintElement, ParseElement, Normal, ParsePi, ParseDeclaration, OpensDeclaration;
    PrintedLength(n, f);
    if n.kind == Element {
      ReadElement(s, i, n, f);
      ParsedElementOpens(s, i, n, f);
    } else if n.kind == Declaration {
      ReadDeclaration(s, i, n, f);
    } else if n.kind == Pi {
      ReadPi(s, i, n, f);
    } else {
      NormalOtherwise(n, f);
      ParsePrintedNode(s, i, n, f);
    }
  }

  lemma PrintedLength(n: Node, f: Flags)
    requires Parsed(n, f) && n.kind != Data
    ensures |PrintNode(n)| >= 2
  {
    ParsedOpens(n, f);
  }

  lemma NormalOtherwise(n: Node, f: Flags)
    requires Parsed(n, f) && (n.kind == Cdata || n.kind == Comment || n.kind == Doctype)
    ensures Normal(n, f)
  {
  }

  lemma ParsedElement(n: Node, f: Flags)
    requires n.kind == Element && Parsed(n, f)
    ensures IsName(n.name, NodeName) && n.name[0] != '!'
    ensures forall a | a in n.attributes :: IsName(a.name, AttributeName)
    ensures n.value == (if f.noElementValues then "" else LatestValue(n.children))
    ensures forall c | c in n.children :: Parsed(c, f)
    ensures n.children == [] ==> n.value == ""
  {
  }

  lemma ParsedElementOpens(s: seq<char>, i: nat, n: Node, f: Flags)
    requires n.kind == Element && Parsed(n, f) && Matches(s, i, PrintElement(n))
    ensures s[i + 1] != '?' && s[i + 1] != '!'
  {
    ParsedElement(n, f);
    hide PrintAttributes, PrintInner, Parsed;
    MatchesAt(s, i, PrintElement(n), 1);
    assert PrintElement(n)[1] == n.name[0];
  }

  lemma ParsedInner(n: Node, f: Flags)
    requires n.kind == Element && Parsed(n, f)
    ensures PrintInner(n) == PrintChildren(n.children)
  {
    hide Escape;
    ParsedElement(n, f);
    EscapeEmpty();
    if |n.children| == 1 && n.children[0].kind == Data {
      assert n.children[1..] == [];
      assert PrintChildren(n.children[1..]) == "";
    }
  }

  lemma {:induction false} FirstDataSnoc(children: seq<Node>, c: Node)
    requires forall d | d in children && d.kind == Data :: d.value != ""
    ensures FirstData(children + [c]) ==
            if FirstData(children) != "" then FirstData(children) else if c.kind == Data then c.value else ""
  {
    if children != [] {
      FirstDataSnoc(children[1..], c);
      assert (children + [c])[1..] == children[1..] + [c];
    } else {
      assert FirstData([]) == "";
    }
  }

  /** For normal children the value kept is the first data text. */
  lemma {:induction false} LatestIsFirst(children: seq<Node>, f: Flags)
    requires forall c | c in children :: Normal(c, f)
    ensures LatestValue(children) == FirstData(children)
    ensures FirstData(children) != "" ==> FirstData(children)[0] != NUL
    decreases |children|
  {
    hide Normal;
    if children != [] {
      var init, c := children[..|children| - 1], children[|children| - 1];
      LatestIsFirst(init, f);
      forall d | d in children && d.kind == Data ensures d.value != "" && d.value[0] != NUL { NormalDataShows(d, f); }
      assert children == init + [c];
      FirstDataSnoc(init, c);
    }
  }

  lemma NormalDataShows(d: Node, f: Flags)
    requires d.kind == Data && Normal(d, f)
    ensures d.value != "" && d.value[0] != NUL
  {
  }

  lemma NormalFromParts(n: Node, f: Flags)
    requires n.kind == Element && Parsed(n, f) && AllNormal(n.attributes)
    requires (forall c | c in n.children :: Normal(c, f)) && NoAdjacentData(n.children)
    ensures Normal(n, f)
  {
    ParsedElement(n, f);
    LatestIsFirst(n.children, f);
  }

  lemma ElementStuck(s: seq<char>, i: nat, nameEnd: nat, f: Flags)
    requires Terminated(s) && i < nameEnd < |s| && Skip(s, i, NodeName) == nameEnd
    requires ParseAttributes(s, Skip(s, nameEnd, Whitespace), [], f).Error?
    ensures ParseElement(s, i, f).Error?
  {
    hide ParseAttributes, Skip;
  }

  lemma {:induction false} ReadElement(s: seq<char>, i: nat, n: Node, f: Flags)
    requires Terminated(s) && Faithful(f) && n.kind == Element && Parsed(n, f)
    requires Matches(s, i, PrintElement(n)) && i + |PrintElement(n)| < |s|
    ensures var r := ParseElement(s, i + 1, f);
      r.Ok? ==> r.text == i + |PrintElement(n)| && (r.value == n ==> Normal(n, f))
    decreases Size(n), 1
  {
    hide Normal, Parsed, CharClass.Test, EndsAttributes, PrintElement, PrintInner, PrintAttributes, PrintChildren;
    hide ParseElement, ParseAttributes, ParseContents, Matches, Skip, Tag, NoAdjacentData, AllNormal;
    ParsedElement(n, f);
    SplitElement(s, i, n);
    var nameEnd := i + 1 + |n.name|;
    var a := nameEnd + |PrintAttributes(n.attributes)|;
    MatchesAt(s, a, if Childless(n) then "/>" else ">", 0);
    NameStops(s, nameEnd, n.attributes);
    SkipName(s, i + 1, n.name, NodeName);
    MatchesSlice(s, i + 1, n.name);
    if AllNormal(n.attributes) {
      NormalAttributes(n.attributes);
      ParsePrintedAttributes(s, nameEnd, n.attributes, [], f);
      assert [] + n.attributes == n.attributes;
      ReadElementRest(s, i, n, nameEnd, a, f);
    } else {
      StuckAttributes(s, nameEnd, n.attributes, [], f);
      ElementStuck(s, i + 1, nameEnd, f);
    }
  }

  /** An element from the end of its attributes, which were read back. */
  lemma {:induction false} ReadElementRest(s: seq<char>, i: nat, n: Node, nameEnd: nat, a: nat, f: Flags)
    requires Terminated(s) && Faithful(f) && n.kind == Element && Parsed(n, f) && AllNormal(n.attributes)
    requires Matches(s, i, PrintElement(n)) && i + |PrintElement(n)| < |s|
    requires nameEnd == i + 1 + |n.name| && a == nameEnd + |PrintAttributes(n.attributes)| && s[i + 1..nameEnd] == n.name
    requires Skip(s, i + 1, NodeName) == nameEnd && i + 1 < nameEnd
    requires ParseAttributes(s, Skip(s, nameEnd, Whitespace), [], f) == Ok(n.attributes, a)
    ensures var r := ParseElement(s, i + 1, f);
      r.Ok? ==> r.text == i + |PrintElement(n)| && (r.value == n ==> Normal(n, f))
    decreases Size(n), 0
  {
    hide Normal, Parsed, CharClass.Test, PrintElement, PrintInner, PrintAttributes, PrintChildren;
    hide ParseElement, ParseAttributes, ParseContents, Matches, Skip, Tag, NoAdjacentData, AllNormal;
    ParsedElement(n, f);
    ParsedInner(n, f);
    SplitElement(s, i, n);
    MatchesAt(s, a, if Childless(n) then "/>" else ">", 0);
    ElementStep(s, i + 1, nameEnd, n.attributes, a, f);
    if Childless(n) {
      MatchesAt(s, a, "/>", 1);
      NothingAdjacent();
      NormalFromParts(n, f);
    } else {
      ReadChildren(s, a + 1, Node(Element, n.name, "", n.attributes, []), n.children, false, f);
      assert [] + n.children == n.children;
      if ParseElement(s, i + 1, f) == Ok(n, i + |PrintElement(n)|) { NormalFromParts(n, f); }
    }
  }

  lemma NormalAttributes(attributes: seq<Attribute>)
    requires AllNormal(attributes)
    ensures forall a | a in attributes :: NormalAttribute(a)
  {
  }

  lemma NothingAdjacent()
    ensures NoAdjacentData([])
  {
  }

  lemma ReadDeclaration(s: seq<char>, i: nat, n: Node, f: Flags)
    requires Terminated(s) && Faithful(f) && n.kind == Declaration && Parsed(n, f)
    requires Matches(s, i, PrintNode(n)) && i + |PrintNode(n)| < |s|
    ensures var r := ParseNode(s, i + 1, f);
      r.Ok? ==> r.text == i + |PrintNode(n)| && (r.value == Some(n) ==> Normal(n, f))
  {
    hide PrintAttributes, Matches, ParseAttributes, Skip, FindClose, ParseElement, OpensDeclaration, AllNormal, ParsePi;
    if n.attributes == [] {
      assert PrintNode(n) == "<?xml?>" by { assert PrintAttributes([]) == "" by { NoAttributes(); } assert "<?xml" + ("" + "?>") == "<?xml?>"; }
      EmptyDeclarationAsPi(s, i, f);
    } else if AllNormal(n.attributes) {
      NormalAttributes(n.attributes);
      ParsePrintedDeclaration(s, i, n, f);
    } else {
      var attributes := PrintAttributes(n.attributes);
      MatchesConcat(s, i, "<?xml", attributes + "?>");
      MatchesConcat(s, i + 5, attributes, "?>");
      StuckAttributes(s, i + 5, n.attributes, [], f);
      DeclarationOpens(s, i);
    }
  }

  lemma NoAttributes()
    ensures PrintAttributes([]) == ""
  {
  }

  lemma ReadPi(s: seq<char>, i: nat, n: Node, f: Flags)
    requires Terminated(s) && n.kind == Pi && Parsed(n, f)
    requires Matches(s, i, PrintNode(n)) && i + |PrintNode(n)| < |s|
    ensures var r := ParseNode(s, i + 1, f);
      r.Ok? ==> r.text == i + |PrintNode(n)| && (r.value == Some(n) ==> Normal(n, f))
  {
    hide Matches, ParseAttributes, Skip, FindClose, ParseElement, Free, IsName;
    if !SpellsXml(n.name) {
      ParsePrintedPi(s, i, n, f);
    } else {
      MatchesConcat(s, i, "<?", n.name + (" " + (n.value + "?>")));
      MatchesConcat(s, i + 2, n.name, " " + (n.value + "?>"));
      MatchesConcat(s, i + 5, " ", n.value + "?>");
      MatchesConcat(s, i + 6, n.value, "?>");
      MatchesAt(s, i, "<?", 1);
      MatchesAt(s, i + 2, n.name, 0);
      MatchesAt(s, i + 2, n.name, 1);
      MatchesAt(s, i + 2, n.name, 2);
      MatchesAt(s, i + 5, " ", 0);
      FindPrintedClose(s, i + 6, n.value, "?>");
      NoAttributeHere(s, i + 6, n.value, f);
    }
  }

  /** At the value of an instruction called "xml" there are no attributes, and no end unless it is empty. */
  lemma NoAttributeHere(s: seq<char>, i: nat, v: string, f: Flags)
    requires Terminated(s) && Free(v, "?>") && (v != "" ==> !IsWhitespace(v[0]) && !NodeName.Test(v[0]))
    requires Matches(s, i, v) && Matches(s, i + |v|, "?>")
    ensures i < |s| && ParseAttributes(s, Skip(s, i, Whitespace), [], f) == Ok([], i)
    ensures Matches(s, i, "?>") <==> v == ""
  {
    hide Matches;
    MatchesSlice(s, i + |v|, "?>");
    MatchesAt(s, i + |v|, "?>", 0);
    if v != "" {
      MatchesAt(s, i, v, 0);
      FreeTail(v, "?>");
      NoEarlyClose(s, i, v, "?>");
    }
    SkipNone(s, i, Whitespace);
  }

  // ---------------------------------------------------------------------------------------------
  // Documents

  lemma {:induction false} ReadNodes(s: seq<char>, i: nat, document: Node, rest: seq<Node>, f: Flags)
    requires Terminated(s) && Faithful(f) && forall c | c in rest :: c.kind != Data && Parsed(c, f)
    requires Matches(s, i, PrintChildren(rest)) && i + |PrintChildren(rest)| == |s| - 1
    ensures var r := ParseNodes(s, i, document, f);
      r.Ok? ==> document.children <= r.value.children && |r.value.children| <= |document.children| + |rest|
                && (r.value.children == document.children + rest ==> forall c | c in rest :: Normal(c, f))
    decreases |rest|
  {
    hide Parsed, Normal, PrintNode, ParseNode, Matches;
    if rest == [] {
      assert ParseNodes(s, i, document, f) == Ok(document, i);
    } else {
      var c, p := rest[0], PrintNode(rest[0]);
      MatchesConcat(s, i, p, PrintChildren(rest[1..]));
      ParsedOpens(c, f);
      MatchesSlice(s, i, p);
      MatchesAt(s, i, p, 0);
      SkipNone(s, i, Whitespace);
      ReadNode(s, i, c, f);
      var child := ParseNode(s, i + 1, f);
      if child.Ok? {
        var next := AddChild(document, child.value);
        ReadNodes(s, i + |p|, next, rest[1..], f);
        var r := ParseNodes(s, i, document, f);
        assert r == ParseNodes(s, i + |p|, next, f);
        if r.Ok? && r.value.children == document.children + rest {
          assert child.value.Some?;
          assert next.children[|document.children|] == child.value.value;
          assert r.value.children[|document.children|] == c;
          assert r.value.children == next.children + rest[1..];
        }
      }
    }
  }

  /** Under every option that keeps data nodes and translates references, parsing what was printed gives a
      document back exactly if it is normal; whatever other tree is printed, something else comes back. */
  lemma ComesBackExactly(d: Node, f: Flags)
    requires Faithful(f)
    ensures var s := PrintNode(d) + [NUL];
      Parse(s, f) == Ok(d, |s| - 1) <==> NormalDocument(d, f)
  {
    hide Normal, Parsed, ParseNodes;
    var p := PrintNode(d);
    var s := p + [NUL];
    if NormalDocument(d, f) {
      ParsePrint(d, f);
    }
    if Parse(s, f) == Ok(d, |s| - 1) {
      NodesAreParsed(s, AfterBom(s), Leaf(Document, "", ""), f);
      assert p == PrintChildren(d.children);
      assert s[0..|p|] == p;
      if d.children != [] {
        hide PrintNode;
        ParsedOpens(d.children[0], f);
        assert s[0] == '<';
      }
      ReadNodes(s, 0, Leaf(Document, "", ""), d.children, f);
      assert [] + d.children == d.children;
    }
  }
}
