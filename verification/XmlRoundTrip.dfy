/** Parsing what the printer wrote gives the tree back. */
module XmlRoundTrip {
  import opened Options
  import opened XmlChars
  import opened XmlCondense
  import opened XmlGrammar
  import opened XmlPrint
  import opened XmlReferences

  // ---------------------------------------------------------------------------------------------
  // Normal form

  predicate IsName(name: string, cc: CharClass) {
    name != "" && forall k | 0 <= k < |name| :: cc.Test(name[k])
  }

  predicate NormalAttribute(a: Attribute) {
    IsName(a.name, AttributeName) && NUL !in a.value
  }

  /** No NUL and no occurrence of the mark. */
  predicate Free(v: string, mark: string) {
    NUL !in v && forall k | 0 <= k < |v| :: !Matches(v, k, mark)
  }

  /** NUL-free text whose brackets close, with no '>' outside brackets. */
  predicate DoctypeBody(v: string, depth: nat) {
    if v == "" then depth == 0
    else
      && v[0] != NUL
      && (v[0] == '>' ==> depth > 0)
      && DoctypeBody(v[1..], if v[0] == '[' then depth + 1 else if v[0] == ']' && depth > 0 then depth - 1 else depth)
  }

  predicate SpellsXml(name: string) {
    |name| == 3 && IsLetter(name[0], 'x', 'X') && IsLetter(name[1], 'm', 'M') && IsLetter(name[2], 'l', 'L')
  }

  /** The text of the first data child; an element's own value after a parse. */
  function FirstData(children: seq<Node>): string {
    if children == [] then ""
    else if children[0].kind == Data then children[0].value
    else FirstData(children[1..])
  }

  predicate NoAdjacentData(children: seq<Node>) {
    forall k | 0 < k < |children| :: !(children[k - 1].kind == Data && children[k].kind == Data)
  }

  predicate Visible(v: string) {
    NUL !in v && exists k | 0 <= k < |v| :: !IsWhitespace(v[k])
  }

  predicate Normal(n: Node, f: Flags)
    decreases n
  {
    match n.kind
    case Document => false
    case Element =>
      && IsName(n.name, NodeName) && n.name[0] != '!'
      && (forall a | a in n.attributes :: NormalAttribute(a))
      && n.value == (if f.noElementValues then "" else FirstData(n.children))
      && (forall c | c in n.children :: Normal(c, f))
      && NoAdjacentData(n.children)
    case Data => n == Leaf(Data, "", n.value) && Visible(n.value) && (f.normalizeWhitespace ==> Condensed(n.value))
    case Cdata => n == Leaf(Cdata, "", n.value) && Free(n.value, "]]>")
    case Comment => n == Leaf(Comment, "", n.value) && Free(n.value, "-->") && f.commentNodes
    case Doctype => n == Leaf(Doctype, "", n.value) && DoctypeBody(n.value, 0) && f.doctypeNode
    case Declaration =>
      && n == Node(Declaration, "", "", n.attributes, []) && n.attributes != [] && f.declarationNode
      && forall a | a in n.attributes :: NormalAttribute(a)
    case Pi =>
      && n == Leaf(Pi, n.name, n.value) && IsName(n.name, NodeName) && !SpellsXml(n.name) && f.piNodes
      && Free(n.value, "?>") && (n.value != "" ==> !IsWhitespace(n.value[0]))
  }

  predicate NormalDocument(d: Node, f: Flags) {
    && d == Node(Document, "", "", [], d.children)
    && forall c | c in d.children :: c.kind != Data && Normal(c, f)
  }

  /** Options under which text is kept as data nodes and references are translated. */
  predicate Faithful(f: Flags) {
    !f.noDataNodes && !f.noEntityTranslation
  }

  // ---------------------------------------------------------------------------------------------
  // Scanning what was printed

  lemma MatchesAt(s: seq<char>, i: nat, p: string, k: nat)
    requires Matches(s, i, p) && k < |p|
    ensures s[i + k] == p[k]
  {
    assert s[i..i + |p|][k] == s[i + k];
  }

  /** Skipping a name that is followed by a character outside its class. */
  lemma SkipName(s: seq<char>, i: nat, name: string, cc: CharClass)
    requires Terminated(s) && Matches(s, i, name) && i + |name| < |s| && !cc.Test(s[i + |name|])
    requires forall k | 0 <= k < |name| :: cc.Test(name[k])
    ensures Skip(s, i, cc) == i + |name|
  {
    forall k | i <= k < i + |name| ensures cc.Test(s[k]) {
      MatchesAt(s, i, name, k - i);
    }
    SkipIs(s, i, cc, i + |name|);
  }

  predicate Closing(close: string) {
    |close| > 0 && NUL !in close && close[|close| - 1] !in close[..|close| - 1]
  }

  lemma DiffersAt(s: seq<char>, i: nat, p: string, k: nat)
    requires k < |p| && i + k < |s| && s[i + k] != p[k]
    ensures !Matches(s, i, p)
  {
    assert i + |p| <= |s| ==> s[i..i + |p|][k] == s[i + k];
  }

  lemma MatchesWithin(s: seq<char>, i: nat, v: string, p: string)
    requires Matches(s, i, v) && |p| <= |v|
    ensures Matches(v, 0, p) <==> Matches(s, i, p)
  {
    assert v[0..|p|] == s[i..i + |v|][0..|p|] == s[i..i + |p|];
  }

  lemma MatchesTail(v: string, k: nat, p: string)
    requires v != ""
    ensures Matches(v[1..], k, p) <==> Matches(v, k + 1, p)
  {
    assert k + 1 + |p| <= |v| ==> v[k + 1..k + 1 + |p|] == v[1..][k..k + |p|];
  }

  lemma FreeTail(v: string, mark: string)
    requires v != "" && Free(v, mark)
    ensures Free(v[1..], mark) && !Matches(v, 0, mark)
  {
    forall k | 0 <= k < |v[1..]| ensures !Matches(v[1..], k, mark) {
      MatchesTail(v, k, mark);
    }
  }

  /** A closing mark does not start inside the text before the printed one. */
  lemma NoEarlyClose(s: seq<char>, i: nat, v: string, close: string)
    requires Closing(close) && v != "" && !Matches(v, 0, close)
    requires Matches(s, i, v) && Matches(s, i + |v|, close)
    ensures !Matches(s, i, close)
  {
    if |close| <= |v| {
      MatchesWithin(s, i, v, close);
    } else {
      var last := |close| - 1;
      MatchesAt(s, i + |v|, close, last - |v|);
      assert close[last - |v|] in close[..last];
      DiffersAt(s, i, close, last);
    }
  }

  /** The first closing mark is the printed one. */
  lemma {:induction false} FindPrintedClose(s: seq<char>, i: nat, v: string, close: string)
    requires Terminated(s) && Closing(close) && Free(v, close)
    requires Matches(s, i, v) && Matches(s, i + |v|, close) && i + |v| + |close| < |s|
    ensures FindClose(s, i, close) == Ok((), i + |v|)
    decreases |v|
  {
    hide Matches, Closing;
    assert |close| > 0 && NUL !in close by { ClosingMark(close); }
    if v != "" {
      FreeTail(v, close);
      NoEarlyClose(s, i, v, close);
      MatchesAt(s, i, v, 0);
      assert v == [v[0]] + v[1..];
      MatchesConcat(s, i, [v[0]], v[1..]);
      FindPrintedClose(s, i + 1, v[1..], close);
    }
  }

  lemma ClosingMark(close: string)
    requires Closing(close)
    ensures |close| > 0 && NUL !in close
  {
  }

  lemma {:induction false} DoctypeEndPrinted(s: seq<char>, i: nat, v: string, depth: nat)
    requires Terminated(s) && DoctypeBody(v, depth)
    requires Matches(s, i, v) && i + |v| < |s| && s[i + |v|] == '>'
    ensures DoctypeEnd(s, i, depth) == Ok((), i + |v|)
    decreases |v|
  {
    if v != "" {
      MatchesAt(s, i, v, 0);
      assert v == [v[0]] + v[1..];
      MatchesConcat(s, i, [v[0]], v[1..]);
      DoctypeEndPrinted(s, i + 1, v[1..],
        if v[0] == '[' then depth + 1 else if v[0] == ']' && depth > 0 then depth - 1 else depth);
    }
  }

  lemma QuoteEscapes(value: string)
    ensures EscapesFor(QuoteClass(QuoteFor(value)), KeptIn(QuoteFor(value)))
    ensures QuoteFor(value) == '"' || QuoteFor(value) == '\''
  {
  }

  /** Where the pieces of a printed attribute lie. */
  lemma SplitAttribute(s: seq<char>, i: nat, name: string, quote: char, text: string)
    requires Matches(s, i, " " + (name + ("=" + ([quote] + (text + [quote])))))
    ensures Matches(s, i, " ") && Matches(s, i + 1, name) && Matches(s, i + 1 + |name|, "=")
    ensures Matches(s, i + 2 + |name|, [quote]) && Matches(s, i + 3 + |name|, text)
    ensures Matches(s, i + 3 + |name| + |text|, [quote])
  {
    hide Matches;
    var rest2 := text + [quote];
    var rest1 := [quote] + rest2;
    var rest0 := "=" + rest1;
    MatchesConcat(s, i, " ", name + rest0);
    MatchesConcat(s, i + 1, name, rest0);
    MatchesConcat(s, i + 1 + |name|, "=", rest1);
    MatchesConcat(s, i + 2 + |name|, [quote], rest2);
    MatchesConcat(s, i + 3 + |name|, text, [quote]);
  }

  /** The fixed characters around an attribute's name and value. */
  lemma AttributePieces(s: seq<char>, i: nat, name: string, nameEnd: nat, quote: char, valueEnd: nat)
    requires Terminated(s) && IsName(name, AttributeName) && (quote == '"' || quote == '\'')
    requires nameEnd == i + 1 + |name| && nameEnd + 2 <= valueEnd && valueEnd + 1 < |s|
    requires Matches(s, i, " ") && Matches(s, i + 1, name) && Matches(s, nameEnd, "=")
    requires Matches(s, nameEnd + 1, [quote]) && Matches(s, valueEnd, [quote])
    ensures s[i] == ' ' && Skip(s, i, Whitespace) == i + 1
    ensures AttributeName.Test(s[i + 1]) && Skip(s, i + 2, AttributeName) == nameEnd
    ensures s[i + 1..nameEnd] == name
    ensures s[nameEnd] == '=' && Skip(s, nameEnd, Whitespace) == nameEnd
    ensures s[nameEnd + 1] == quote && Skip(s, nameEnd + 1, Whitespace) == nameEnd + 1
    ensures s[valueEnd] == quote && !QuoteClass(quote).Test(s[valueEnd])
  {
    MatchesAt(s, i, " ", 0);
    MatchesAt(s, i + 1, name, 0);
    MatchesAt(s, nameEnd, "=", 0);
    MatchesAt(s, nameEnd + 1, [quote], 0);
    MatchesAt(s, valueEnd, [quote], 0);
    SkipName(s, i + 1, name, AttributeName);
  }

  /** How an attribute is read, given where its pieces lie. */
  lemma AttributeStep(s: seq<char>, i: nat, nameEnd: nat, quote: char, value: string, valueEnd: nat, f: Flags)
    requires Terminated(s) && i + 1 <= nameEnd && nameEnd + 2 < |s| && valueEnd + 1 < |s|
    requires AttributeName.Test(s[i]) && Skip(s, i + 1, AttributeName) == nameEnd
    requires s[nameEnd] == '=' && Skip(s, nameEnd, Whitespace) == nameEnd
    requires s[nameEnd + 1] == quote && Skip(s, nameEnd + 1, Whitespace) == nameEnd + 1
    requires (quote == '"' || quote == '\'') && s[valueEnd] == quote
    requires Expand(s, nameEnd + 2, nameEnd + 2, QuoteClass(quote), f, false) == Ok(value, valueEnd)
    ensures ParseOneAttribute(s, i, f)
         == Ok(Attribute(s[i..nameEnd], value), Skip(s, valueEnd + 1, Whitespace))
  {
    hide Skip, Expand, CharClass.Test;
  }

  /** One printed attribute, read from its name. */
  lemma ParsePrintedAttribute(s: seq<char>, i: nat, a: Attribute, f: Flags)
    requires Terminated(s) && NormalAttribute(a) && !f.noEntityTranslation
    requires Matches(s, i, PrintAttribute(a)) && i + |PrintAttribute(a)| < |s|
    ensures s[i] == ' ' && Skip(s, i, Whitespace) == i + 1
    ensures AttributeName.Test(s[i + 1])
    ensures ParseOneAttribute(s, i + 1, f) == Ok(a, Skip(s, i + |PrintAttribute(a)|, Whitespace))
  {
    hide Escape, Expand, Matches, ParseOneAttribute, Skip, CharClass.Test, QuoteFor, KeptIn, EscapesFor, IsName;
    var quote := QuoteFor(a.value);
    QuoteEscapes(a.value);
    var text := Escape(a.value, KeptIn(quote));
    var nameEnd := i + 1 + |a.name|;
    var valueEnd := nameEnd + 2 + |text|;
    SplitAttribute(s, i, a.name, quote, text);
    AttributePieces(s, i, a.name, nameEnd, quote, valueEnd);
    ExpandEscape(s, nameEnd + 2, nameEnd + 2, a.value, QuoteClass(quote), KeptIn(quote), f);
    AttributeStep(s, i + 1, nameEnd, quote, a.value, valueEnd, f);
  }

  /** A character that can follow an attribute list. */
  predicate EndsAttributes(c: char) { !IsWhitespace(c) && !AttributeName.Test(c) }

  lemma AttributesEnd(s: seq<char>, i: nat, done: seq<Attribute>, f: Flags)
    requires Terminated(s) && i < |s| && EndsAttributes(s[i])
    ensures ParseAttributes(s, Skip(s, i, Whitespace), done, f) == Ok(done, i)
  {
  }

  lemma {:induction false} ParsePrintedAttributes(s: seq<char>, i: nat, rest: seq<Attribute>, done: seq<Attribute>, f: Flags)
    requires Terminated(s) && !f.noEntityTranslation && forall a | a in rest :: NormalAttribute(a)
    requires Matches(s, i, PrintAttributes(rest)) && i + |PrintAttributes(rest)| < |s|
    requires EndsAttributes(s[i + |PrintAttributes(rest)|])
    ensures ParseAttributes(s, Skip(s, i, Whitespace), done, f) == Ok(done + rest, i + |PrintAttributes(rest)|)
    decreases |rest|
  {
    hide PrintAttribute, ParseOneAttribute, NormalAttribute, Matches, Skip, EndsAttributes, CharClass.Test;
    if rest == [] {
      AttributesEnd(s, i, done, f);
      assert done + rest == done;
    } else {
      var p := PrintAttribute(rest[0]);
      MatchesConcat(s, i, p, PrintAttributes(rest[1..]));
      ParsePrintedAttribute(s, i, rest[0], f);
      ParsePrintedAttributes(s, i + |p|, rest[1..], done + [rest[0]], f);
      assert done + [rest[0]] + rest[1..] == done + rest;
    }
  }

  // ---------------------------------------------------------------------------------------------
  // Elements

  /** The element after the parser has read the given children into it. */
  function Absorb(element: Node, children: seq<Node>, f: Flags): Node
    decreases children
  {
    if children == [] then element
    else Absorb(if children[0].kind == Data then AddData(element, children[0].value, f)
                else AddChild(element, Some(children[0])), children[1..], f)
  }

  /** Reading children in one by one leaves them in order, with the first data text as value. */
  lemma {:induction false} AbsorbAll(element: Node, children: seq<Node>, f: Flags)
    requires !f.noDataNodes
    requires forall c | c in children && c.kind == Data :: c == Leaf(Data, "", c.value) && Visible(c.value)
    ensures Absorb(element, children, f) == element.(
              children := element.children + children,
              value := if f.noElementValues || (element.value != "" && element.value[0] != NUL) then element.value
                       else if FirstData(children) == "" then element.value
                       else FirstData(children))
    decreases |children|
  {
    if children == [] {
      assert element.children + children == element.children;
    } else {
      var c := children[0];
      var next := if c.kind == Data then AddData(element, c.value, f) else AddChild(element, Some(c));
      AbsorbAll(next, children[1..], f);
      assert element.children + [c] + children[1..] == element.children + children;
    }
  }

  lemma InnerIsChildren(n: Node, f: Flags)
    requires n.kind == Element && Normal(n, f)
    ensures PrintInner(n) == PrintChildren(n.children)
    ensures n.children == [] ==> n.value == "" && PrintInner(n) == ""
  {
    hide Normal, Escape;
    assert n.value == (if f.noElementValues then "" else FirstData(n.children)) by { NormalElement(n, f); }
    EscapeEmpty();
    if |n.children| == 1 && n.children[0].kind == Data {
      assert n.children[1..] == [];
      assert PrintChildren(n.children[1..]) == "";
    }
  }

  lemma EscapeEmpty()
    ensures Escape("", NUL) == ""
  {
  }

  lemma NormalElement(n: Node, f: Flags)
    requires n.kind == Element && Normal(n, f)
    ensures IsName(n.name, NodeName) && n.name[0] != '!'
    ensures forall a | a in n.attributes :: NormalAttribute(a)
    ensures n.value == (if f.noElementValues then "" else FirstData(n.children))
    ensures forall c | c in n.children :: Normal(c, f)
    ensures NoAdjacentData(n.children)
  {
  }

  /** A printed data run starts a data node: its first character outside the leading whitespace is text. */
  lemma {:induction false} DataShows(s: seq<char>, i: nat, v: string)
    requires Terminated(s) && Visible(v)
    requires Matches(s, i, Escape(v, NUL)) && i + |Escape(v, NUL)| < |s|
    ensures Text.Test(s[Skip(s, i, Whitespace)])
    decreases |v|
  {
    var e, rest := EscapeChar(v[0], NUL), Escape(v[1..], NUL);
    MatchesConcat(s, i, e, rest);
    MatchesAt(s, i, e, 0);
    if IsWhitespace(v[0]) {
      assert Visible(v[1..]) by {
        var k :| 0 <= k < |v| && !IsWhitespace(v[k]);
        assert v[1..][k - 1] == v[k];
      }
      DataShows(s, i + 1, v[1..]);
    }
  }

  /** One data child, read from where its text starts. */
  lemma ParsePrintedData(s: seq<char>, i: nat, element: Node, v: string, f: Flags)
    requires Terminated(s) && Faithful(f) && Visible(v)
    requires Matches(s, i, Escape(v, NUL)) && i + |Escape(v, NUL)| < |s| && s[i + |Escape(v, NUL)|] == '<'
    ensures ParseContents(s, i, element, false, f)
         == ParseContents(s, i + |Escape(v, NUL)|, AddData(element, ReadAs(v, f), f), true, f)
  {
    hide Escape, Expand, AddData, ReadAs;
    DataShows(s, i, v);
    ExpandPrinted(s, i, i, v, f);
  }

  /** What follows the remaining children: the closing tag. */
  function Tag(name: string): string { "</" + (name + ">") }

  lemma ParsePrintedClosing(s: seq<char>, i: nat, element: Node, afterData: bool, f: Flags)
    requires Terminated(s) && IsName(element.name, NodeName)
    requires Matches(s, i, Tag(element.name)) && i + |Tag(element.name)| < |s|
    ensures s[i] == '<'
    ensures ParseContents(s, i, element, afterData, f) == Ok(element, i + |Tag(element.name)|)
  {
    hide Matches, ParseContents, Skip;
    var nameEnd := i + 2 + |element.name|;
    MatchesConcat(s, i, "</", element.name + ">");
    MatchesConcat(s, i + 2, element.name, ">");
    MatchesAt(s, i, "</", 0);
    MatchesAt(s, i, "</", 1);
    MatchesAt(s, nameEnd, ">", 0);
    SkipName(s, i + 2, element.name, NodeName);
    MatchesSlice(s, i + 2, element.name);
    ClosingStep(s, i, nameEnd, element, afterData, f);
  }

  /** A printed node that is no data starts with '<' and a character that opens no closing tag. */
  lemma PrintedOpens(n: Node, f: Flags)
    requires Normal(n, f) && n.kind != Data
    ensures |PrintNode(n)| >= 2 && PrintNode(n)[0] == '<' && PrintNode(n)[1] != '/'
  {
    hide PrintAttributes, PrintInner, PrintChildren;
  }

  /** How the contents loop goes on after a child node. */
  lemma ChildStep(s: seq<char>, i: nat, element: Node, child: Node, j: nat, afterData: bool, f: Flags)
    requires Terminated(s) && i + 1 < |s| && s[i] == '<' && s[i + 1] != '/'
    requires ParseNode(s, i + 1, f) == Ok(Some(child), j)
    ensures ParseContents(s, i, element, afterData, f) == ParseContents(s, j, AddChild(element, Some(child)), false, f)
  {
    hide ParseNode, ParseClosing, AddChild, AddData, Expand, Skip;
    SkipNone(s, i, Whitespace);
  }

  lemma SkipNone(s: seq<char>, i: nat, cc: CharClass)
    requires Terminated(s) && i < |s| && !cc.Test(s[i])
    ensures Skip(s, i, cc) == i
  {
  }

  /** How the contents loop ends at a closing tag. */
  lemma ClosingStep(s: seq<char>, i: nat, nameEnd: nat, element: Node, afterData: bool, f: Flags)
    requires Terminated(s) && i + 2 <= nameEnd && nameEnd + 1 < |s| && s[i] == '<' && s[i + 1] == '/'
    requires Skip(s, i + 2, NodeName) == nameEnd && s[i + 2..nameEnd] == element.name && s[nameEnd] == '>'
    ensures ParseContents(s, i, element, afterData, f) == Ok(element, nameEnd + 1)
  {
    hide ParseNode, AddChild, AddData, Expand, Skip;
    SkipNone(s, i, Whitespace);
    SkipNone(s, nameEnd, Whitespace);
  }

  lemma NoAdjacentTail(children: seq<Node>)
    requires children != [] && NoAdjacentData(children)
    ensures NoAdjacentData(children[1..])
    ensures children[0].kind == Data ==> children[1..] == [] || children[1..][0].kind != Data
  {
    forall k | 0 < k < |children[1..]|
      ensures !(children[1..][k - 1].kind == Data && children[1..][k].kind == Data)
    {
      assert children[k + 1] == children[1..][k] && children[k] == children[1..][k - 1];
    }
    if |children| > 1 { assert children[1..][0] == children[1]; }
  }

  lemma {:induction false} ParsePrintedChildren(s: seq<char>, i: nat, element: Node, rest: seq<Node>, afterData: bool, f: Flags)
    requires Terminated(s) && Faithful(f) && IsName(element.name, NodeName)
    requires (forall c | c in rest :: Normal(c, f)) && NoAdjacentData(rest)
    requires afterData ==> rest == [] || rest[0].kind != Data
    requires Matches(s, i, PrintChildren(rest)) && Matches(s, i + |PrintChildren(rest)|, Tag(element.name))
    requires i + |PrintChildren(rest)| + |Tag(element.name)| < |s|
    ensures Absorb(element, rest, f).name == element.name
    ensures afterData ==> s[i] == '<'
    ensures ParseContents(s, i, element, afterData, f)
         == Ok(Absorb(element, rest, f), i + |PrintChildren(rest)| + |Tag(element.name)|)
    decreases rest, 0
  {
    hide Normal, Tag, ParseNode, ParseContents, PrintNode, Matches, Skip, IsName, NoAdjacentData, Faithful;
    if rest == [] {
      ParsePrintedClosing(s, i, element, afterData, f);
    } else {
      var c := rest[0];
      var p := PrintNode(c);
      MatchesConcat(s, i, p, PrintChildren(rest[1..]));
      NoAdjacentTail(rest);
      if c.kind == Data {
        DataChild(c, f);
        ParsePrintedChildren(s, i + |p|, AddData(element, c.value, f), rest[1..], true, f);
        ParsePrintedData(s, i, element, c.value, f);
      } else {
        PrintedOpens(c, f);
        MatchesAt(s, i, p, 0);
        MatchesAt(s, i, p, 1);
        ParsePrintedNode(s, i, c, f);
        ParsePrintedChildren(s, i + |p|, AddChild(element, Some(c)), rest[1..], false, f);
        ChildStep(s, i, element, c, i + |p|, afterData, f);
      }
    }
  }

  lemma DataChild(c: Node, f: Flags)
    requires c.kind == Data && Normal(c, f)
    ensures c == Leaf(Data, "", c.value) && Visible(c.value) && PrintNode(c) == Escape(c.value, NUL)
    ensures ReadAs(c.value, f) == c.value
  {
    hide Condense;
    CondenseStays(c.value);
  }

  function ElementEnd(n: Node): string {
    if Childless(n) then "/>" else ">" + (PrintInner(n) + Tag(n.name))
  }

  /** Where the pieces of a printed element lie. */
  lemma SplitElement(s: seq<char>, i: nat, n: Node)
    requires Matches(s, i, PrintElement(n))
    ensures var a := i + 1 + |n.name| + |PrintAttributes(n.attributes)|;
      && |PrintElement(n)| == a - i + |ElementEnd(n)|
      && Matches(s, i + 1, n.name)
      && Matches(s, i + 1 + |n.name|, PrintAttributes(n.attributes))
      && (Childless(n) ==> Matches(s, a, "/>"))
      && (!Childless(n) ==>
           Matches(s, a, ">") && Matches(s, a + 1, PrintInner(n))
           && Matches(s, a + 1 + |PrintInner(n)|, Tag(n.name)))
  {
    hide PrintAttributes, PrintInner, Matches, Childless;
    var name, attributes := n.name, PrintAttributes(n.attributes);
    var end := ElementEnd(n);
    MatchesConcat(s, i, "<", name + (attributes + end));
    MatchesConcat(s, i + 1, name, attributes + end);
    MatchesConcat(s, i + 1 + |name|, attributes, end);
    if !Childless(n) {
      var a := i + 1 + |name| + |attributes|;
      MatchesConcat(s, a, ">", PrintInner(n) + Tag(name));
      MatchesConcat(s, a + 1, PrintInner(n), Tag(name));
    }
  }

  /** How an element is read, given its name and attributes. */
  lemma ElementStep(s: seq<char>, i: nat, nameEnd: nat, attributes: seq<Attribute>, a: nat, f: Flags)
    requires Terminated(s) && i < nameEnd <= a && a + 1 < |s| && Skip(s, i, NodeName) == nameEnd
    requires ParseAttributes(s, Skip(s, nameEnd, Whitespace), [], f) == Ok(attributes, a)
    ensures var element := Node(Element, s[i..nameEnd], "", attributes, []);
      && (s[a] == '>' ==> ParseElement(s, i, f) == ParseContents(s, a + 1, element, false, f))
      && (s[a] == '/' && s[a + 1] == '>' ==> ParseElement(s, i, f) == Ok(element, a + 2))
  {
    hide ParseAttributes, ParseContents;
  }

  lemma {:induction false} ParsePrintedElement(s: seq<char>, i: nat, n: Node, f: Flags)
    requires Terminated(s) && Faithful(f) && n.kind == Element && Normal(n, f)
    requires Matches(s, i, PrintElement(n)) && i + |PrintElement(n)| < |s|
    ensures ParseElement(s, i + 1, f) == Ok(n, i + |PrintElement(n)|)
    decreases n, 1
  {
    hide Normal, CharClass.Test, EndsAttributes, PrintElement, PrintInner, PrintAttributes, PrintChildren;
    hide ParseElement, ParseAttributes, ParseContents, Absorb, Matches, Skip, Tag, NoAdjacentData;
    NormalElement(n, f);
    InnerIsChildren(n, f);
    SplitElement(s, i, n);
    var nameEnd := i + 1 + |n.name|;
    var a := nameEnd + |PrintAttributes(n.attributes)|;
    MatchesAt(s, a, if Childless(n) then "/>" else ">", 0);
    NameStops(s, nameEnd, n.attributes);
    SkipName(s, i + 1, n.name, NodeName);
    MatchesSlice(s, i + 1, n.name);
    ParsePrintedAttributes(s, nameEnd, n.attributes, [], f);
    assert [] + n.attributes == n.attributes;
    ElementStep(s, i + 1, nameEnd, n.attributes, a, f);
    var element := Node(Element, n.name, "", n.attributes, []);
    if Childless(n) {
      MatchesAt(s, a, "/>", 1);
      assert n == element;
    } else {
      ParsePrintedChildren(s, a + 1, element, n.children, false, f);
      AbsorbNormal(n, f);
    }
  }

  lemma MatchesSlice(s: seq<char>, i: nat, p: string)
    requires Matches(s, i, p)
    ensures i + |p| <= |s| && s[i..i + |p|] == p
  {
  }

  lemma AbsorbNormal(n: Node, f: Flags)
    requires n.kind == Element && Normal(n, f) && Faithful(f)
    ensures Absorb(Node(Element, n.name, "", n.attributes, []), n.children, f) == n
  {
    var element := Node(Element, n.name, "", n.attributes, []);
    forall c | c in n.children && c.kind == Data ensures c == Leaf(Data, "", c.value) && Visible(c.value) {
      assert Normal(c, f);
    }
    AbsorbAll(element, n.children, f);
    assert [] + n.children == n.children;
  }

  /** After a name comes the space of an attribute, or what ends the list. */
  lemma NameStops(s: seq<char>, i: nat, attributes: seq<Attribute>)
    requires Matches(s, i, PrintAttributes(attributes)) && i + |PrintAttributes(attributes)| < |s|
    requires s[i + |PrintAttributes(attributes)|] == '/' || s[i + |PrintAttributes(attributes)|] == '>'
    ensures !NodeName.Test(s[i]) && EndsAttributes(s[i + |PrintAttributes(attributes)|])
  {
    if attributes != [] {
      MatchesConcat(s, i, PrintAttribute(attributes[0]), PrintAttributes(attributes[1..]));
      MatchesAt(s, i, PrintAttribute(attributes[0]), 0);
    }
  }

  /** Any printed node but data, read from the character after its '<'. */
  lemma {:induction false} ParsePrintedNode(s: seq<char>, i: nat, n: Node, f: Flags)
    requires Terminated(s) && Faithful(f) && n.kind != Data && Normal(n, f)
    requires Matches(s, i, PrintNode(n)) && i + |PrintNode(n)| < |s|
    ensures i + 1 < |s| && ParseNode(s, i + 1, f) == Ok(Some(n), i + |PrintNode(n)|)
    decreases n, 2
  {
    match n.kind
    case Document =>
    case Data =>
    case Element =>
      PrintedOpens(n, f);
      ParsePrintedElement(s, i, n, f);
      ElementOpens(s, i, n, f);
    case Cdata => ParsePrintedCdata(s, i, n, f);
    case Comment => ParsePrintedComment(s, i, n, f);
    case Declaration => ParsePrintedDeclaration(s, i, n, f);
    case Doctype => ParsePrintedDoctype(s, i, n, f);
    case Pi => ParsePrintedPi(s, i, n, f);
  }

  lemma ElementOpens(s: seq<char>, i: nat, n: Node, f: Flags)
    requires n.kind == Element && Normal(n, f) && Matches(s, i, PrintElement(n))
    ensures s[i + 1] != '?' && s[i + 1] != '!'
  {
    NormalElement(n, f);
    hide PrintAttributes, PrintInner, Normal;
    MatchesAt(s, i, PrintElement(n), 1);
    assert PrintElement(n)[1] == n.name[0];
  }

  lemma ParsePrintedCdata(s: seq<char>, i: nat, n: Node, f: Flags)
    requires Terminated(s) && Faithful(f) && n.kind == Cdata && Normal(n, f)
    requires Matches(s, i, PrintNode(n)) && i + |PrintNode(n)| < |s|
    ensures ParseNode(s, i + 1, f) == Ok(Some(n), i + |PrintNode(n)|)
  {
    hide Matches, FindClose, ParseElement;
    MatchesConcat(s, i, "<![CDATA[", n.value + "]]>");
    MatchesConcat(s, i + 9, n.value, "]]>");
    MatchesSlice(s, i + 9, n.value);
    assert "<![CDATA[" == "<" + "![CDATA[";
    MatchesConcat(s, i, "<", "![CDATA[");
    MatchesAt(s, i + 1, "![CDATA[", 0);
    MatchesAt(s, i + 1, "![CDATA[", 1);
    DiffersAt(s, i + 1, "!--", 1);
    FindPrintedClose(s, i + 9, n.value, "]]>");
  }

  lemma ParsePrintedComment(s: seq<char>, i: nat, n: Node, f: Flags)
    requires Terminated(s) && n.kind == Comment && Normal(n, f)
    requires Matches(s, i, PrintNode(n)) && i + |PrintNode(n)| < |s|
    ensures ParseNode(s, i + 1, f) == Ok(Some(n), i + |PrintNode(n)|)
  {
    hide Matches, FindClose, ParseElement;
    MatchesConcat(s, i, "<!--", n.value + "-->");
    MatchesConcat(s, i + 4, n.value, "-->");
    MatchesSlice(s, i + 4, n.value);
    assert "<!--" == "<" + "!--";
    MatchesConcat(s, i, "<", "!--");
    MatchesAt(s, i + 1, "!--", 0);
    FindPrintedClose(s, i + 4, n.value, "-->");
  }

  lemma ParsePrintedDoctype(s: seq<char>, i: nat, n: Node, f: Flags)
    requires Terminated(s) && n.kind == Doctype && Normal(n, f)
    requires Matches(s, i, PrintNode(n)) && i + |PrintNode(n)| < |s|
    ensures ParseNode(s, i + 1, f) == Ok(Some(n), i + |PrintNode(n)|)
  {
    hide Matches, FindClose, ParseElement, DoctypeEnd;
    MatchesConcat(s, i, "<!DOCTYPE ", n.value + ">");
    MatchesConcat(s, i + 10, n.value, ">");
    MatchesAt(s, i + 10 + |n.value|, ">", 0);
    MatchesSlice(s, i + 10, n.value);
    assert "<!DOCTYPE " == "<" + ("!DOCTYPE" + " ");
    MatchesConcat(s, i, "<", "!DOCTYPE" + " ");
    MatchesConcat(s, i + 1, "!DOCTYPE", " ");
    MatchesAt(s, i + 9, " ", 0);
    MatchesAt(s, i + 1, "!DOCTYPE", 0);
    MatchesAt(s, i + 1, "!DOCTYPE", 1);
    DiffersAt(s, i + 1, "!--", 1);
    DiffersAt(s, i + 1, "![CDATA[", 1);
    DoctypeEndPrinted(s, i + 10, n.value, 0);
  }

  lemma ParsePrintedDeclaration(s: seq<char>, i: nat, n: Node, f: Flags)
    requires Terminated(s) && n.kind == Declaration && Normal(n, f) && !f.noEntityTranslation
    requires Matches(s, i, PrintNode(n)) && i + |PrintNode(n)| < |s|
    ensures ParseNode(s, i + 1, f) == Ok(Some(n), i + |PrintNode(n)|)
  {
    hide PrintAttributes, ParseAttributes, Matches, Skip, OpensDeclaration, FindClose, ParseElement, NormalAttribute;
    var attributes := PrintAttributes(n.attributes);
    MatchesConcat(s, i, "<?xml", attributes + "?>");
    MatchesConcat(s, i + 5, attributes, "?>");
    var close := i + 5 + |attributes|;
    FirstAttributeSpace(s, i + 5, n.attributes);
    DeclarationOpens(s, i);
    MatchesAt(s, close, "?>", 0);
    ParsePrintedAttributes(s, i + 5, n.attributes, [], f);
    assert [] + n.attributes == n.attributes;
  }

  lemma FirstAttributeSpace(s: seq<char>, i: nat, attributes: seq<Attribute>)
    requires attributes != [] && Matches(s, i, PrintAttributes(attributes))
    ensures i < |s| && s[i] == ' '
  {
    MatchesConcat(s, i, PrintAttribute(attributes[0]), PrintAttributes(attributes[1..]));
    MatchesAt(s, i, PrintAttribute(attributes[0]), 0);
  }

  lemma DeclarationOpens(s: seq<char>, i: nat)
    requires Terminated(s) && Matches(s, i, "<?xml") && i + 5 < |s| && s[i + 5] == ' '
    ensures s[i + 1] == '?' && OpensDeclaration(s, i + 2)
    ensures Skip(s, i + 6, Whitespace) == Skip(s, i + 5, Whitespace)
  {
    MatchesAt(s, i, "<?xml", 1);
    MatchesAt(s, i, "<?xml", 2);
    MatchesAt(s, i, "<?xml", 3);
    MatchesAt(s, i, "<?xml", 4);
  }

  /** A target name that does not spell "xml" opens no declaration. */
  lemma TargetOpensNoDeclaration(s: seq<char>, i: nat, name: string)
    requires Terminated(s) && Matches(s, i, name) && i + |name| < |s| && s[i + |name|] == ' '
    requires IsName(name, NodeName) && !SpellsXml(name)
    ensures !OpensDeclaration(s, i)
  {
    hide Matches, Skip;
    MatchesAt(s, i, name, 0);
    if |name| > 1 { MatchesAt(s, i, name, 1); }
    if |name| > 2 { MatchesAt(s, i, name, 2); }
    if |name| > 3 { MatchesAt(s, i, name, 3); }
  }

  lemma ParsePrintedPi(s: seq<char>, i: nat, n: Node, f: Flags)
    requires Terminated(s) && n.kind == Pi && Normal(n, f)
    requires Matches(s, i, PrintNode(n)) && i + |PrintNode(n)| < |s|
    ensures ParseNode(s, i + 1, f) == Ok(Some(n), i + |PrintNode(n)|)
  {
    hide CharClass.Test, Free, Matches, FindClose, ParseElement, OpensDeclaration, Skip, IsName, SpellsXml;
    hide ParseDeclaration, ParseDoctype, ParseDelimited, OpensDoctype, PrintAttributes, PrintElement, PrintChildren;
    MatchesConcat(s, i, "<?", n.name + (" " + (n.value + "?>")));
    MatchesConcat(s, i + 2, n.name, " " + (n.value + "?>"));
    var nameEnd := i + 2 + |n.name|;
    MatchesConcat(s, nameEnd, " ", n.value + "?>");
    MatchesConcat(s, nameEnd + 1, n.value, "?>");
    MatchesAt(s, i, "<?", 1);
    MatchesAt(s, nameEnd, " ", 0);
    MatchesSlice(s, i + 2, n.name);
    MatchesSlice(s, nameEnd + 1, n.value);
    TargetOpensNoDeclaration(s, i + 2, n.name);
    assert IsName(n.name, NodeName);
    NameEnds(s, i + 2, n.name);
    ValueStarts(s, nameEnd, n.value);
    FindPrintedClose(s, nameEnd + 1, n.value, "?>");
  }

  lemma NameEnds(s: seq<char>, i: nat, name: string)
    requires Terminated(s) && IsName(name, NodeName) && Matches(s, i, name)
    requires i + |name| < |s| && s[i + |name|] == ' '
    ensures Skip(s, i, NodeName) == i + |name| && |name| > 0
    ensures s[i] != '?' && s[i] != NUL
  {
    SkipName(s, i, name, NodeName);
    MatchesAt(s, i, name, 0);
  }

  lemma ValueStarts(s: seq<char>, nameEnd: nat, value: string)
    requires Terminated(s) && nameEnd + 1 < |s| && s[nameEnd] == ' '
    requires Matches(s, nameEnd + 1, value) && Matches(s, nameEnd + 1 + |value|, "?>")
    requires value != "" ==> !IsWhitespace(value[0])
    ensures Skip(s, nameEnd, Whitespace) == nameEnd + 1
  {
    MatchesAt(s, nameEnd + 1 + |value|, "?>", 0);
    if value != "" { MatchesAt(s, nameEnd + 1, value, 0); }
  }

  // ---------------------------------------------------------------------------------------------
  // The theorem

  lemma {:induction false} ParsePrintedNodes(s: seq<char>, i: nat, document: Node, rest: seq<Node>, f: Flags)
    requires Terminated(s) && Faithful(f)
    requires forall c | c in rest :: c.kind != Data && Normal(c, f)
    requires Matches(s, i, PrintChildren(rest)) && i + |PrintChildren(rest)| == |s| - 1
    ensures ParseNodes(s, i, document, f)
         == Ok(document.(children := document.children + rest), |s| - 1)
    decreases |rest|
  {
    hide Normal, PrintNode, ParseNode, Matches;
    if rest == [] {
      assert document.children + rest == document.children;
    } else {
      var p := PrintNode(rest[0]);
      MatchesConcat(s, i, p, PrintChildren(rest[1..]));
      PrintedOpens(rest[0], f);
      MatchesAt(s, i, p, 0);
      ParsePrintedNode(s, i, rest[0], f);
      ParsePrintedNodes(s, i + |p|, AddChild(document, Some(rest[0])), rest[1..], f);
      assert document.children + [rest[0]] + rest[1..] == document.children + rest;
    }
  }

  /** Printing a normal document and parsing the text gives the same document, under every option
      that keeps data nodes and translates references. */
  lemma ParsePrint(d: Node, f: Flags)
    requires Faithful(f) && NormalDocument(d, f)
    ensures var s := PrintNode(d) + [NUL]; Parse(s, f) == Ok(d, |s| - 1)
  {
    hide Normal;
    var p := PrintChildren(d.children);
    var s := p + [NUL];
    assert s[0..|p|] == p;
    if d.children != [] {
      hide PrintNode;
      PrintedOpens(d.children[0], f);
      assert s[0] == '<';
    }
    ParsePrintedNodes(s, 0, Leaf(Document, "", ""), d.children, f);
    assert [] + d.children == d.children;
  }

  /** The tag "<?xml?>" anywhere in a text is read as a processing instruction, or skipped. */
  lemma EmptyDeclarationAsPi(s: seq<char>, i: nat, f: Flags)
    requires Terminated(s) && Matches(s, i, "<?xml?>") && i + 7 < |s|
    ensures ParseNode(s, i + 1, f) == Ok(if f.piNodes then Some(Leaf(Pi, "xml", "")) else None, i + 7)
  {
    hide Matches, FindClose, ParseDeclaration, ParseElement, ParseDoctype, ParseDelimited, Skip;
    assert "<?" + ("xml" + "?>") == "<?xml?>";
    MatchesConcat(s, i, "<?", "xml" + "?>");
    MatchesConcat(s, i + 2, "xml", "?>");
    XmlIsFree();
    MatchesAt(s, i, "<?", 1);
    MatchesAt(s, i + 5, "?>", 0);
    SkipName(s, i + 2, "xml", NodeName);
    SkipNone(s, i + 5, Whitespace);
    FindPrintedClose(s, i + 2, "xml", "?>");
    NothingMatches(s, i + 5);
    FindPrintedClose(s, i + 5, "", "?>");
    MatchesSlice(s, i + 2, "xml");
    assert s[i + 5..i + 5] == "";
  }

  lemma XmlIsFree()
    ensures Free("xml", "?>") && Free("", "?>")
  {
    forall k | 0 <= k < 3 ensures !Matches("xml", k, "?>") {
      MatchesTwo("xml", k, "?>");
    }
  }

  lemma NothingMatches(s: seq<char>, i: nat)
    requires i <= |s|
    ensures Matches(s, i, "")
  {
  }

  /** With declarations kept and references translated, a printed declaration with proper attributes comes back,
      wherever it stands, exactly if it has any attribute. */
  lemma DeclarationComesBack(s: seq<char>, i: nat, n: Node, f: Flags)
    requires Terminated(s) && n == Node(Declaration, "", "", n.attributes, [])
    requires forall a | a in n.attributes :: NormalAttribute(a)
    requires f.declarationNode && !f.noEntityTranslation
    requires Matches(s, i, PrintNode(n)) && i + |PrintNode(n)| < |s|
    ensures ParseNode(s, i + 1, f) == Ok(Some(n), i + |PrintNode(n)|) <==> n.attributes != []
  {
    hide ParseNode, Matches, NormalAttribute;
    if n.attributes != [] {
      ParsePrintedDeclaration(s, i, n, f);
    } else {
      assert PrintNode(n) == "<?xml?>" by { assert "<?xml" + ("" + "?>") == "<?xml?>"; }
      EmptyDeclarationAsPi(s, i, f);
    }
  }

  /** A document of just a declaration without attributes comes back as a processing instruction, or empty. */
  lemma EmptyDeclarationIsLost(f: Flags)
    ensures var d := Node(Declaration, "", "", [], []);
      var s := PrintNode(d) + [NUL];
      Parse(s, f) == Ok(Leaf(Document, "", "").(children := if f.piNodes then [Leaf(Pi, "xml", "")] else []), |s| - 1)
  {
    var s := "<?xml?>" + [NUL];
    assert PrintNode(Node(Declaration, "", "", [], [])) + [NUL] == s by {
      assert PrintAttributes([]) == "";
      assert "<?xml" + ("" + "?>") == "<?xml?>";
    }
    assert s[..7] == "<?xml?>";
    EmptyDeclarationAsPi(s, 0, f);
    hide PrintNode, ParseNode, Skip;
    SkipNone(s, 0, Whitespace);
    SkipNone(s, 7, Whitespace);
    var document := Leaf(Document, "", "");
    assert [] + [Leaf(Pi, "xml", "")] == [Leaf(Pi, "xml", "")];
    var after := AddChild(document, if f.piNodes then Some(Leaf(Pi, "xml", "")) else None);
    assert ParseNodes(s, 7, after, f) == Ok(after, 7);
    assert ParseNodes(s, 0, document, f) == Ok(after, 7);
  }
}
