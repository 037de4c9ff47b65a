/** Texts: the parser accepts exactly the documents of the concrete syntax, skips what is not kept to just behind
    its end, and reports errors where something is missing. */
module XmlTexts {
  import opened Options
  import opened XmlAccepted
  import opened XmlChars
  import opened XmlGrammar
  import opened XmlPieces
  import opened XmlRoundTrip
  import opened XmlSyntax

  // ---------------------------------------------------------------------------------------------
  // Documents

  /** A byte order mark or none, nodes with blanks before them, and blanks. */
  datatype DocumentSyntax = DocumentSyntax(marked: bool, nodes: seq<Item>, space: string)

  function ByteOrderMark(): string { [0xEF as char, 0xBB as char, 0xBF as char] }

  function DocumentText(d: DocumentSyntax): string {
    (if d.marked then ByteOrderMark() else "") + (ItemsText(d.nodes) + d.space)
  }

  predicate DocumentWell(d: DocumentSyntax, f: Flags) {
    (forall item | item in d.nodes :: item.NodeItem?) && ItemsWell(d.nodes, false, f) && Blank(d.space)
  }

  function DocumentMeaning(d: DocumentSyntax, f: Flags): Node {
    Node(Document, "", "", [], ItemsMeaning(d.nodes, f))
  }

  lemma {:induction false} NodesRead(s: seq<char>, i: nat, document: Node, nodes: seq<Item>, space: string, f: Flags)
    requires Terminated(s) && (forall item | item in nodes :: item.NodeItem?) && ItemsWell(nodes, false, f) && Blank(space)
    requires Matches(s, i, ItemsText(nodes) + (space + [NUL]))
    ensures i + |ItemsText(nodes) + space| < |s|
    ensures ParseNodes(s, i, document, f) == Ok(AbsorbItems(document, nodes, f), i + |ItemsText(nodes) + space|)
    decreases |nodes|
  {
    hide Matches, ParseNode, NodeText, NodeMeaning, Well, Blank, AddChild, Skip;
    if nodes == [] {
      assert ItemsText(nodes) + (space + [NUL]) == space + [NUL];
      MatchesConcat(s, i, space, [NUL]);
      FirstOf(s, i, space, NUL);
      SkipBlank(s, i, space);
    } else {
      var item, rest := nodes[0], nodes[1..];
      assert item in nodes && item.NodeItem?;
      var text := ItemText(item);
      assert ItemsText(nodes) + (space + [NUL]) == text + (ItemsText(rest) + (space + [NUL]));
      MatchesConcat(s, i, text, ItemsText(rest) + (space + [NUL]));
      NodesRead(s, i + |text|, AbsorbItem(document, item, f), rest, space, f);
      MatchesConcat(s, i, item.space, NodeText(item.node));
      NodeRead(s, i + |item.space|, item.node, f);
      NodesStep(s, i, item.space, item.node, document, f);
    }
  }

  /** How the document loop reads blanks and a node. */
  lemma NodesStep(s: seq<char>, i: nat, space: string, node: NodeSyntax, document: Node, f: Flags)
    requires Terminated(s) && Blank(space) && Well(node, f) && Matches(s, i, space) && Matches(s, i + |space|, NodeText(node))
    requires i + |space| + |NodeText(node)| < |s|
    requires ParseNode(s, i + |space| + 1, f) == Ok(NodeMeaning(node, f), i + |space| + |NodeText(node)|)
    ensures ParseNodes(s, i, document, f)
         == ParseNodes(s, i + |space| + |NodeText(node)|, AddChild(document, NodeMeaning(node, f)), f)
  {
    hide ParseNode, AddChild, Matches, NodeText, Well, NodeMeaning, Skip, Blank;
    NodeOpens(node, f);
    CharAt(s, i + |space|, NodeText(node), 0);
    assert !IsWhitespace('<');
    SkipBlank(s, i, space);
  }

  lemma {:induction false} NodesOf(s: seq<char>, i: nat, document: Node, f: Flags) returns (nodes: seq<Item>, space: string)
    requires Terminated(s) && i < |s| && ParseNodes(s, i, document, f).Ok?
    ensures var r := ParseNodes(s, i, document, f);
      && (forall item | item in nodes :: item.NodeItem?) && ItemsWell(nodes, false, f) && Blank(space)
      && r.text < |s| && s[r.text] == NUL && ItemsText(nodes) + space == s[i..r.text] && r.value == AbsorbItems(document, nodes, f)
    decreases |s| - i
  {
    hide ParseNode, NodeText, NodeMeaning, Well, AddChild, Skip, Blank;
    var r := ParseNodes(s, i, document, f);
    var next := Skip(s, i, Whitespace);
    SkippedBlank(s, i);
    if s[next] == NUL {
      nodes, space := [], s[i..next];
      assert ItemsText(nodes) + space == space;
    } else {
      var child := ParseNode(s, next + 1, f);
      var node := NodeOf(s, next + 1, f);
      OneChar(s, next, child.text);
      Joined(s, i, next, child.text);
      var rest;
      rest, space := NodesOf(s, child.text, AddChild(document, child.value), f);
      var item := NodeItem(s[i..next], node);
      nodes := [item] + rest;
      assert nodes[1..] == rest;
      Joined(s, i, child.text, r.text);
      assert ItemsText(nodes) + space == ItemText(item) + (ItemsText(rest) + space);
    }
  }

  /** The text up to its first NUL is a document's, and this is what it means. */
  ghost predicate SpellsDocument(d: DocumentSyntax, s: seq<char>, f: Flags, meaning: Node, end: nat) {
    && DocumentWell(d, f) && Matches(s, 0, DocumentText(d) + [NUL]) && end == |DocumentText(d)|
    && meaning == DocumentMeaning(d, f)
  }

  lemma DocumentMeans(nodes: seq<Item>, f: Flags)
    requires forall item | item in nodes :: item.NodeItem?
    ensures AbsorbItems(Leaf(Document, "", ""), nodes, f) == Node(Document, "", "", [], ItemsMeaning(nodes, f))
  {
    hide NodeMeaning;
    AbsorbIs(Leaf(Document, "", ""), nodes, f);
    NoTexts(nodes, f);
    assert [] + ItemsMeaning(nodes, f) == ItemsMeaning(nodes, f);
  }

  lemma {:induction false} NoTexts(nodes: seq<Item>, f: Flags)
    requires forall item | item in nodes :: item.NodeItem?
    ensures DataTexts(nodes, f) == []
  {
    if nodes != [] {
      assert nodes[0] in nodes;
      NoTexts(nodes[1..], f);
    }
  }

  /** Markup, blanks and NUL are no byte order mark. */
  lemma MarkOrNot(s: seq<char>, d: DocumentSyntax, f: Flags)
    requires Terminated(s) && DocumentWell(d, f) && Matches(s, 0, DocumentText(d) + [NUL])
    ensures AfterBom(s) == if d.marked then 3 else 0
    ensures Matches(s, AfterBom(s), ItemsText(d.nodes) + (d.space + [NUL]))
  {
    hide Matches, NodeText, Well;
    var mark, rest := if d.marked then ByteOrderMark() else "", ItemsText(d.nodes) + (d.space + [NUL]);
    assert DocumentText(d) + [NUL] == mark + rest;
    MatchesConcat(s, 0, mark, rest);
    if d.marked {
      CharAt(s, 0, mark, 0);
      CharAt(s, 0, mark, 1);
      CharAt(s, 0, mark, 2);
    } else {
      CharAt(s, 0, rest, 0);
      FirstIsNoMark(d, f);
    }
  }

  lemma FirstIsNoMark(d: DocumentSyntax, f: Flags)
    requires DocumentWell(d, f)
    ensures (ItemsText(d.nodes) + (d.space + [NUL]))[0] != 0xEF as char
  {
    hide Well, NodeText;
    assert d.space == "" || IsWhitespace(d.space[0]);
    if d.nodes == [] {
      assert ItemsText(d.nodes) + (d.space + [NUL]) == d.space + [NUL];
    } else {
      var item := d.nodes[0];
      assert item in d.nodes && item.NodeItem? && ItemWell(item, false, f);
      NodeOpens(item.node, f);
      assert item.space == "" || IsWhitespace(item.space[0]);
      assert ItemText(item)[0] == if item.space == "" then '<' else item.space[0];
      assert ItemsText(d.nodes)[0] == ItemText(item)[0];
    }
  }

  /** The parser accepts exactly the texts that spell a document up to their first NUL, as what it means. */
  lemma AcceptedExactly(s: seq<char>, f: Flags, meaning: Node, end: nat)
    requires Terminated(s)
    ensures Parse(s, f) == Ok(meaning, end) <==> exists d :: SpellsDocument(d, s, f, meaning, end)
  {
    hide ParseNodes, ItemsText, ItemsWell, ItemsMeaning, AbsorbItems, Matches, Blank;
    if d :| SpellsDocument(d, s, f, meaning, end) {
      MarkOrNot(s, d, f);
      NodesRead(s, AfterBom(s), Leaf(Document, "", ""), d.nodes, d.space, f);
      DocumentMeans(d.nodes, f);
    }
    if Parse(s, f) == Ok(meaning, end) {
      var i := AfterBom(s);
      var nodes, space := NodesOf(s, i, Leaf(Document, "", ""), f);
      DocumentMeans(nodes, f);
      var d := DocumentSyntax(i == 3, nodes, space);
      TextBefore(s, i, end, d);
      assert SpellsDocument(d, s, f, meaning, end);
    }
  }

  lemma TextBefore(s: seq<char>, i: nat, end: nat, d: DocumentSyntax)
    requires Terminated(s) && i == AfterBom(s) && d.marked == (i == 3) && i <= end < |s| && s[end] == NUL
    requires ItemsText(d.nodes) + d.space == s[i..end]
    ensures Matches(s, 0, DocumentText(d) + [NUL]) && |DocumentText(d)| == end
  {
    hide ItemsText;
    if d.marked { assert s[0..3] == ByteOrderMark(); } else { assert s[0..0] == ""; }
    Joined(s, 0, i, end);
    assert s[0..end + 1] == s[0..end] + [NUL];
  }

  /** The same of a single node. */
  ghost predicate SpellsNode(n: NodeSyntax, s: seq<char>, i: nat, f: Flags, meaning: Option<Node>, end: nat) {
    Well(n, f) && Matches(s, i, NodeText(n)) && end == i + |NodeText(n)| && meaning == NodeMeaning(n, f)
  }

  lemma NodeAcceptedExactly(s: seq<char>, i: nat, f: Flags, meaning: Option<Node>, end: nat)
    requires Terminated(s) && i + 1 < |s| && s[i] == '<'
    ensures ParseNode(s, i + 1, f) == Ok(meaning, end) <==> exists n :: SpellsNode(n, s, i, f, meaning, end)
  {
    hide ParseNode, Well, NodeText, NodeMeaning;
    if n :| SpellsNode(n, s, i, f, meaning, end) { NodeRead(s, i, n, f); }
    if ParseNode(s, i + 1, f) == Ok(meaning, end) {
      var n := NodeOf(s, i + 1, f);
      OneChar(s, i, end);
      assert s[i..i + |NodeText(n)|] == NodeText(n);
      assert SpellsNode(n, s, i, f, meaning, end);
    }
  }

  // ---------------------------------------------------------------------------------------------
  // What is not kept

  /** A construct that is not kept is passed over to just behind its end, in contents and between nodes. */
  lemma PassedOver(s: seq<char>, i: nat, n: NodeSyntax, element: Node, afterData: bool, document: Node, f: Flags)
    requires Terminated(s) && Well(n, f) && NodeMeaning(n, f) == None && Matches(s, i, NodeText(n))
    ensures i + |NodeText(n)| < |s| && s[i] == '<'
    ensures ParseContents(s, i, element, afterData, f) == ParseContents(s, i + |NodeText(n)|, element, false, f)
    ensures ParseNodes(s, i, document, f) == ParseNodes(s, i + |NodeText(n)|, document, f)
  {
    hide ParseNode, ParseContents, ParseNodes, Well, NodeText, NodeMeaning, Matches;
    NodeRead(s, i, n, f);
    NodeOpens(n, f);
    CharAt(s, i, NodeText(n), 0);
    assert Matches(s, i, "") by { NothingStands(s, i); }
    NodeItemRead(s, i, element, "", n, afterData, f);
    NodesStep(s, i, "", n, document, f);
  }

  lemma NothingStands(s: seq<char>, i: nat)
    requires i < |s|
    ensures Matches(s, i, "")
  {
  }

  /** Comments, character data and document types that are not kept, instructions and declarations that are not,
      and other marks: each ends just behind its own closing mark, wherever it stands. */
  lemma EachPassedOver(s: seq<char>, i: nat, v: string, element: Node, afterData: bool, f: Flags)
    requires Terminated(s)
    ensures !f.commentNodes && Free(v, "-->") && Matches(s, i, "<!--" + (v + "-->")) ==>
              i + 7 + |v| < |s| && s[i] == '<'
              && ParseContents(s, i, element, afterData, f) == ParseContents(s, i + 7 + |v|, element, false, f)
    ensures f.noDataNodes && Free(v, "]]>") && Matches(s, i, "<![CDATA[" + (v + "]]>")) ==>
              i + 12 + |v| < |s| && s[i] == '<'
              && ParseContents(s, i, element, afterData, f) == ParseContents(s, i + 12 + |v|, element, false, f)
    ensures !f.doctypeNode && DoctypeBody(v, 0) && Matches(s, i, "<!DOCTYPE" + ([' '] + (v + ">"))) ==>
              i + 11 + |v| < |s| && s[i] == '<'
              && ParseContents(s, i, element, afterData, f) == ParseContents(s, i + 11 + |v|, element, false, f)
    ensures !f.piNodes && Free(v, "?>") && !OpensXml(v) && Matches(s, i, "<?" + (v + "?>")) ==>
              i + 4 + |v| < |s| && s[i] == '<'
              && ParseContents(s, i, element, afterData, f) == ParseContents(s, i + 4 + |v|, element, false, f)
    ensures !f.declarationNode && Free(v, "?>") && Matches(s, i, "<?" + ("xml" + ([' '] + (v + "?>")))) ==>
              i + 8 + |v| < |s| && s[i] == '<'
              && ParseContents(s, i, element, afterData, f) == ParseContents(s, i + 8 + |v|, element, false, f)
  {
    hide ParseContents, ParseNodes, Free, DoctypeBody, OpensXml, Matches;
    var d := Leaf(Document, "", "");
    if !f.commentNodes && Free(v, "-->") && Matches(s, i, "<!--" + (v + "-->")) {
      PassedOver(s, i, CommentSyntax(v), element, afterData, d, f);
    }
    if f.noDataNodes && Free(v, "]]>") && Matches(s, i, "<![CDATA[" + (v + "]]>")) {
      PassedOver(s, i, CdataSyntax(v), element, afterData, d, f);
    }
    if !f.doctypeNode && DoctypeBody(v, 0) && Matches(s, i, "<!DOCTYPE" + ([' '] + (v + ">"))) {
      PassedOver(s, i, DoctypeSyntax(' ', v), element, afterData, d, f);
    }
    if !f.piNodes && Free(v, "?>") && !OpensXml(v) && Matches(s, i, "<?" + (v + "?>")) {
      PassedOver(s, i, SkippedPi(v), element, afterData, d, f);
    }
    if !f.declarationNode && Free(v, "?>") && Matches(s, i, "<?" + ("xml" + ([' '] + (v + "?>")))) {
      PassedOver(s, i, SkippedDeclaration("xml", ' ', v), element, afterData, d, f);
    }
  }

  // ---------------------------------------------------------------------------------------------
  // Errors

  /** With validation on a closing tag is invalid exactly if its name is not the element's. */
  lemma InvalidExactly(s: seq<char>, i: nat, element: Node, name: string, f: Flags)
    requires Terminated(s) && OnlyNameChars(name) && Matches(s, i, name) && i + |name| < |s| && !NodeName.Test(s[i + |name|])
    ensures var r := ParseClosing(s, i, element, f);
      r.Error? && r.error == InvalidClosingTag <==> f.validateClosingTags && name != element.name
  {
    hide Matches, Skip;
    SkipName(s, i, name, NodeName);
    MatchesSlice(s, i, name);
  }
}
