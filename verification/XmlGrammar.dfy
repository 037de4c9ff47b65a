/** The reference parser: what a NUL-terminated text means, as a function of the untouched text. */
module XmlGrammar {
  import opened Options
  import opened XmlChars
  import opened XmlReferences

  /** A mark without NUL ends before the terminator. */
  lemma MatchEnds(s: seq<char>, i: nat, p: string)
    requires Terminated(s) && |p| > 0 && NUL !in p && Matches(s, i, p)
    ensures i + |p| < |s|
  {
    var last := |p| - 1;
    assert s[i..i + |p|][last] == s[i + last] && p[last] in p;
  }

  /** First position at or after i where the closing mark starts; an error if the text ends first. */
  function FindClose(s: seq<char>, i: nat, close: string): (r: Outcome<()>)
    requires Terminated(s) && i < |s| && |close| > 0 && NUL !in close
    ensures r.Ok? ==> i <= r.text && Matches(s, r.text, close) && r.text + |close| < |s|
    ensures r.Ok? ==> forall k | i <= k < r.text :: !Matches(s, k, close) && s[k] != NUL
    ensures r.Error? ==> r.error == UnexpectedEnd && i <= r.at < |s| && s[r.at] == NUL
    decreases |s| - i
  {
    if Matches(s, i, close) then
      MatchEnds(s, i, close);
      Ok((), i)
    else if s[i] == NUL then Error(UnexpectedEnd, i)
    else FindClose(s, i + 1, close)
  }

  function QuoteClass(quote: char): CharClass { AttributeData(quote) }

  /** An attribute's name, up to its opening quote. */
  function AttributeHead(s: seq<char>, i: nat): (r: Outcome<string>)
    requires Terminated(s) && i < |s| && AttributeName.Test(s[i])
    ensures r.Ok? ==> i < r.text && r.text + 1 < |s| && (s[r.text] == '\'' || s[r.text] == '"')
  {
    var nameEnd := Skip(s, i + 1, AttributeName);
    var equals := Skip(s, nameEnd, Whitespace);
    if s[equals] != '=' then Error(ExpectedEquals, equals)
    else
      var open := Skip(s, equals + 1, Whitespace);
      if s[open] != '\'' && s[open] != '"' then Error(ExpectedQuote, open)
      else Ok(s[i..nameEnd], open)
  }

  /** An attribute's value from its opening quote, and the whitespace after it. */
  function AttributeTail(s: seq<char>, open: nat, f: Flags): (r: Outcome<string>)
    requires Terminated(s) && open + 1 < |s| && (s[open] == '\'' || s[open] == '"')
    ensures r.Ok? ==> open < r.text < |s|
  {
    var v := Expand(s, open + 1, open + 1, QuoteClass(s[open]), f, false);
    if v.Error? then v
    else if s[v.text] != s[open] then Error(ExpectedQuote, v.text)
    else Ok(v.value, Skip(s, v.text + 1, Whitespace))
  }

  /** One round of the attribute loop. */
  function ParseOneAttribute(s: seq<char>, i: nat, f: Flags): (r: Outcome<Attribute>)
    requires Terminated(s) && i < |s| && AttributeName.Test(s[i])
    ensures r.Ok? ==> i < r.text < |s|
  {
    var name := AttributeHead(s, i);
    if name.Error? then Error(name.error, name.at)
    else
      var value := AttributeTail(s, name.text, f);
      if value.Error? then Error(value.error, value.at)
      else Ok(Attribute(name.value, value.value), value.text)
  }

  /** Attributes from i on, appended to those already read. */
  function ParseAttributes(s: seq<char>, i: nat, attributes: seq<Attribute>, f: Flags): (r: Outcome<seq<Attribute>>)
    requires Terminated(s) && i < |s|
    ensures r.Ok? ==> i <= r.text < |s|
    decreases |s| - i
  {
    if !AttributeName.Test(s[i]) then Ok(attributes, i)
    else
      var a := ParseOneAttribute(s, i, f);
      if a.Error? then Error(a.error, a.at)
      else ParseAttributes(s, a.text, attributes + [a.value], f)
  }

  function Leaf(kind: NodeKind, name: string, value: string): Node {
    Node(kind, name, value, [], [])
  }

  function ParseDeclaration(s: seq<char>, i: nat, f: Flags): (r: Outcome<Option<Node>>)
    requires Terminated(s) && i < |s|
    ensures r.Ok? ==> i < r.text < |s|
  {
    if !f.declarationNode then
      var close := FindClose(s, i, "?>");
      if close.Error? then Error(close.error, close.at) else Ok(None, close.text + 2)
    else
      var attributes := ParseAttributes(s, Skip(s, i, Whitespace), [], f);
      if attributes.Error? then Error(attributes.error, attributes.at)
      else if !Matches(s, attributes.text, "?>") then Error(ExpectedDeclarationEnd, attributes.text)
      else
        MatchEnds(s, attributes.text, "?>");
        Ok(Some(Node(Declaration, "", "", attributes.value, [])), attributes.text + 2)
  }

  /** A comment or CDATA section from its first content character; a node only when kept. */
  function ParseDelimited(s: seq<char>, i: nat, kind: NodeKind, close: string, keep: bool): (r: Outcome<Option<Node>>)
    requires Terminated(s) && i < |s| && |close| > 0 && NUL !in close
    ensures r.Ok? ==> i < r.text < |s|
  {
    var end := FindClose(s, i, close);
    if end.Error? then Error(end.error, end.at)
    else Ok(if keep then Some(Leaf(kind, "", s[i..end.text])) else None, end.text + |close|)
  }

  /** Position of the '>' that closes a DOCTYPE; brackets nest, depth is how many are open. */
  function DoctypeEnd(s: seq<char>, i: nat, depth: nat): (r: Outcome<()>)
    requires Terminated(s) && i < |s|
    ensures r.Ok? ==> i <= r.text < |s| && s[r.text] == '>'
    decreases |s| - i
  {
    if depth == 0 && s[i] == '>' then Ok((), i)
    else if s[i] == NUL then Error(UnexpectedEnd, i)
    else if s[i] == '[' then DoctypeEnd(s, i + 1, depth + 1)
    else if s[i] == ']' && depth > 0 then DoctypeEnd(s, i + 1, depth - 1)
    else DoctypeEnd(s, i + 1, depth)
  }

  function ParseDoctype(s: seq<char>, i: nat, f: Flags): (r: Outcome<Option<Node>>)
    requires Terminated(s) && i < |s|
    ensures r.Ok? ==> i < r.text < |s|
  {
    var end := DoctypeEnd(s, i, 0);
    if end.Error? then Error(end.error, end.at)
    else Ok(if f.doctypeNode then Some(Leaf(Doctype, "", s[i..end.text])) else None, end.text + 1)
  }

  function ParsePi(s: seq<char>, i: nat, f: Flags): (r: Outcome<Option<Node>>)
    requires Terminated(s) && i < |s|
    ensures r.Ok? ==> i < r.text < |s|
  {
    if !f.piNodes then
      var close := FindClose(s, i, "?>");
      if close.Error? then Error(close.error, close.at) else Ok(None, close.text + 2)
    else
      var nameEnd := Skip(s, i, NodeName);
      if nameEnd == i then Error(ExpectedPiTarget, i)
      else
        var value := Skip(s, nameEnd, Whitespace);
        var close := FindClose(s, value, "?>");
        if close.Error? then Error(close.error, close.at)
        else Ok(Some(Leaf(Pi, s[i..nameEnd], s[value..close.text])), close.text + 2)
  }

  predicate IsLetter(c: char, lower: char, upper: char) { c == lower || c == upper }

  /** "xml" in any case and a whitespace character. */
  predicate OpensDeclaration(s: seq<char>, i: nat)
    requires Terminated(s) && i < |s|
  {
    && IsLetter(s[i], 'x', 'X')
    && IsLetter(s[i + 1], 'm', 'M')
    && IsLetter(s[i + 2], 'l', 'L')
    && IsWhitespace(s[i + 3])
  }

  predicate OpensDoctype(s: seq<char>, i: nat)
    requires Terminated(s) && i < |s|
  {
    && Matches(s, i, "!DOCTYPE")
    && i + 8 < |s|
    && IsWhitespace(s[i + 8])
  }

  /** A node, from the character after its '<'; None when nothing is recorded for it. */
  function ParseNode(s: seq<char>, i: nat, f: Flags): (r: Outcome<Option<Node>>)
    requires Terminated(s) && i < |s|
    ensures r.Ok? ==> i < r.text < |s|
    decreases |s| - i, 2
  {
    if s[i] == '?' then
      if OpensDeclaration(s, i + 1) then ParseDeclaration(s, i + 5, f) else ParsePi(s, i + 1, f)
    else if s[i] == '!' then
      if Matches(s, i, "!--") && i + 3 < |s| then
        ParseDelimited(s, i + 3, Comment, "-->", f.commentNodes)
      else if Matches(s, i, "![CDATA[") && i + 8 < |s| then
        ParseDelimited(s, i + 8, Cdata, "]]>", !f.noDataNodes)
      else if OpensDoctype(s, i) then ParseDoctype(s, i + 9, f)
      else
        var close := FindClose(s, i + 1, ">");
        if close.Error? then Error(close.error, close.at) else Ok(None, close.text + 1)
    else
      var e := ParseElement(s, i, f);
      if e.Error? then Error(e.error, e.at) else Ok(Some(e.value), e.text)
  }

  function ParseElement(s: seq<char>, i: nat, f: Flags): (r: Outcome<Node>)
    requires Terminated(s) && i < |s|
    ensures r.Ok? ==> i < r.text < |s|
    decreases |s| - i, 1
  {
    var nameEnd := Skip(s, i, NodeName);
    if nameEnd == i then Error(ExpectedElementName, i)
    else
      var a := ParseAttributes(s, Skip(s, nameEnd, Whitespace), [], f);
      if a.Error? then Error(a.error, a.at)
      else
        var element := Node(Element, s[i..nameEnd], "", a.value, []);
        if s[a.text] == '>' then ParseContents(s, a.text + 1, element, false, f)
        else if s[a.text] != '/' then Error(ExpectedGreater, a.text)
        else if s[a.text + 1] != '>' then Error(ExpectedGreater, a.text + 1)
        else Ok(element, a.text + 2)
  }

  /** The element with a data run added: a data node, and the value of an element that has none yet. */
  function AddData(element: Node, value: string, f: Flags): (r: Node)
    ensures r.kind == element.kind && r.name == element.name && r.attributes == element.attributes
  {
    var hasValue := element.value != "" && element.value[0] != NUL;
    element.(children := if f.noDataNodes then element.children else element.children + [Leaf(Data, "", value)],
             value := if f.noElementValues || hasValue then element.value else value)
  }

  function AddChild(element: Node, child: Option<Node>): (r: Node)
    ensures r.kind == element.kind && r.name == element.name && r.attributes == element.attributes
  {
    match child
    case None => element
    case Some(n) => element.(children := element.children + [n])
  }

  /** Contents of an element from i on, added to what was read already; right after a data run no
      whitespace is skipped and the next character is '<' or NUL. */
  function ParseContents(s: seq<char>, i: nat, element: Node, afterData: bool, f: Flags): (r: Outcome<Node>)
    requires Terminated(s) && i < |s|
    requires afterData ==> !Text.Test(s[i])
    ensures r.Ok? ==> i < r.text < |s|
    decreases |s| - i, 0
  {
    var next := if afterData then i else Skip(s, i, Whitespace);
    if s[next] == '<' then
      if s[next + 1] == '/' then ParseClosing(s, next + 2, element, f)
      else
        var child := ParseNode(s, next + 1, f);
        if child.Error? then Error(child.error, child.at)
        else ParseContents(s, child.text, AddChild(element, child.value), false, f)
    else if s[next] == NUL then Error(UnexpectedEnd, next)
    else
      assert Text.Test(s[i]) by { if i < next { assert Whitespace.Test(s[i]); } }
      var data := Expand(s, i, i, Text, f, f.normalizeWhitespace);
      if data.Error? then Error(data.error, data.at)
      else ParseContents(s, data.text, AddData(element, data.value, f), true, f)
  }

  /** A closing tag from its name on. */
  function ParseClosing(s: seq<char>, i: nat, element: Node, f: Flags): (r: Outcome<Node>)
    requires Terminated(s) && i < |s|
    ensures r.Ok? ==> i < r.text < |s| && r.value == element
  {
    var nameEnd := Skip(s, i, NodeName);
    if f.validateClosingTags && s[i..nameEnd] != element.name then Error(InvalidClosingTag, nameEnd)
    else
      var close := Skip(s, nameEnd, Whitespace);
      if s[close] != '>' then Error(ExpectedGreater, close) else Ok(element, close + 1)
  }

  function AfterBom(s: seq<char>): (i: nat)
    requires Terminated(s)
    ensures i < |s|
  {
    if s[0] as int == 0xEF && s[1] as int == 0xBB && s[2] as int == 0xBF then 3 else 0
  }

  /** The document's nodes from i on. */
  function ParseNodes(s: seq<char>, i: nat, document: Node, f: Flags): (r: Outcome<Node>)
    requires Terminated(s) && i < |s|
    ensures r.Ok? ==> i <= r.text < |s|
    decreases |s| - i
  {
    var next := Skip(s, i, Whitespace);
    if s[next] == NUL then Ok(document, next)
    else if s[next] != '<' then Error(ExpectedLess, next)
    else
      var child := ParseNode(s, next + 1, f);
      if child.Error? then Error(child.error, child.at)
      else ParseNodes(s, child.text, AddChild(document, child.value), f)
  }

  function Parse(s: seq<char>, f: Flags): (r: Outcome<Node>)
    requires Terminated(s)
  {
    ParseNodes(s, AfterBom(s), Leaf(Document, "", ""), f)
  }
}
