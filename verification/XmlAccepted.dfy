/** Every text the parser accepts is spelled in the concrete syntax, and was read as what it means. */
module XmlAccepted {
  import opened Options
  import opened XmlChars
  import opened XmlGrammar
  import opened XmlNormalForm
  import opened XmlPieces
  import opened XmlReferences
  import opened XmlRoundTrip
  import opened XmlSyntax

  lemma Joined(s: seq<char>, i: nat, j: nat, k: nat)
    requires i <= j <= k <= |s|
    ensures s[i..j] + s[j..k] == s[i..k]
  {
  }

  lemma OneChar(s: seq<char>, i: nat, k: nat)
    requires i < k <= |s|
    ensures [s[i]] + s[i + 1..k] == s[i..k]
  {
  }

  lemma SkippedBlank(s: seq<char>, i: nat)
    requires Terminated(s) && i < |s|
    ensures Blank(s[i..Skip(s, i, Whitespace)])
  {
    var end := Skip(s, i, Whitespace);
    forall k | 0 <= k < end - i ensures IsWhitespace(s[i..end][k]) {
      assert Whitespace.Test(s[i + k]);
    }
  }

  lemma AttributeOf(s: seq<char>, i: nat, f: Flags) returns (a: AttributeSyntax)
    requires Terminated(s) && i < |s| && AttributeName.Test(s[i]) && ParseOneAttribute(s, i, f).Ok?
    ensures var r := ParseOneAttribute(s, i, f);
      && AttributeWell(a, f) && AttributeText(a) == s[i..r.text] && r.value == Attribute(a.name, MeanAll(a.value, f))
  {
    hide Skip, Expand, WellSpelled, SpellAll, MeanAll, CharClass.Test, Blank, IsName, ParseOneAttribute, AttributeWell, AttributeText;
    assert i + 1 < |s| by { StopsAtEnd(AttributeName); }
    var nameEnd := Skip(s, i + 1, AttributeName);
    var equals := Skip(s, nameEnd, Whitespace);
    AttributeIs(s, i, nameEnd, equals, f);
    var open := Skip(s, equals + 1, Whitespace);
    var q := s[open];
    QuoteStops(q);
    var ps := PiecesOf(s, open + 1, open + 1, AttributeData(q), f, false);
    var close := Expand(s, open + 1, open + 1, AttributeData(q), f, false).text;
    var end := Skip(s, close + 1, Whitespace);
    a := AttributeSyntax(s[i..nameEnd], s[nameEnd..equals], s[equals + 1..open], q, ps, s[close + 1..end]);
    SkippedBlank(s, nameEnd);
    SkippedBlank(s, equals + 1);
    SkippedBlank(s, close + 1);
    SkippedName(s, i, nameEnd);
    AttributeSpelled(a, f);
    AttributeJoined(s, i, nameEnd, equals, open, close, end);
  }

  lemma SkippedName(s: seq<char>, i: nat, end: nat)
    requires Terminated(s) && i + 1 < |s| && AttributeName.Test(s[i]) && end == Skip(s, i + 1, AttributeName)
    ensures IsName(s[i..end], AttributeName)
  {
    SkippedIsName(s, i, end, AttributeName);
  }

  lemma AttributeIs(s: seq<char>, i: nat, nameEnd: nat, equals: nat, f: Flags)
    requires Terminated(s) && i + 1 < |s| && AttributeName.Test(s[i]) && ParseOneAttribute(s, i, f).Ok?
    requires nameEnd == Skip(s, i + 1, AttributeName) && equals == Skip(s, nameEnd, Whitespace)
    ensures equals + 1 < |s| && s[equals] == '='
    ensures var open := Skip(s, equals + 1, Whitespace);
      && open + 1 < |s| && (s[open] == '\'' || s[open] == '"')
      && var v := Expand(s, open + 1, open + 1, AttributeData(s[open]), f, false);
      && v.Ok? && v.text + 1 < |s| && s[v.text] == s[open]
      && ParseOneAttribute(s, i, f) == Ok(Attribute(s[i..nameEnd], v.value), Skip(s, v.text + 1, Whitespace))
  {
    hide Skip, Expand, CharClass.Test;
  }

  lemma AttributeSpelled(a: AttributeSyntax, f: Flags)
    requires IsName(a.name, AttributeName) && Blank(a.before) && Blank(a.after) && Blank(a.space)
    requires (a.quote == '\'' || a.quote == '"') && WellSpelled(a.value, AttributeData(a.quote), f, false)
    ensures AttributeWell(a, f)
    ensures AttributeText(a) == a.name + (a.before + ("=" + (a.after + ([a.quote] + (SpellAll(a.value) + ([a.quote] + a.space))))))
  {
    hide IsName, Blank, WellSpelled, SpellAll;
  }

  lemma AttributeJoined(s: seq<char>, i: nat, n: nat, e: nat, o: nat, c: nat, end: nat)
    requires i <= n <= e < o < c < end <= |s| && s[e] == '=' && s[c] == s[o]
    ensures s[i..end] == s[i..n] + (s[n..e] + ("=" + (s[e + 1..o] + ([s[o]] + (s[o + 1..c] + ([s[o]] + s[c + 1..end]))))))
  {
    OneChar(s, c, end);
    Joined(s, o + 1, c, end);
    OneChar(s, o, end);
    Joined(s, e + 1, o, end);
    OneChar(s, e, end);
    Joined(s, n, e, end);
    Joined(s, i, n, end);
  }

  lemma {:induction false} AttributesOf(s: seq<char>, i: nat, done: seq<Attribute>, f: Flags) returns (attributes: seq<AttributeSyntax>)
    requires Terminated(s) && i < |s| && ParseAttributes(s, i, done, f).Ok?
    ensures var r := ParseAttributes(s, i, done, f);
      && AttributesWell(attributes, f) && AttributesText(attributes) == s[i..r.text]
      && r.value == done + AttributesMeaning(attributes, f) && !AttributeName.Test(s[r.text])
      && (attributes == [] ==> r.text == i)
    decreases |s| - i
  {
    hide ParseOneAttribute, AttributeWell, AttributeText, MeanAll, CharClass.Test;
    if !AttributeName.Test(s[i]) {
      attributes := [];
      assert s[i..i] == "" && done + [] == done;
    } else {
      var one := ParseOneAttribute(s, i, f);
      var a := AttributeOf(s, i, f);
      var rest := AttributesOf(s, one.text, done + [one.value], f);
      attributes := [a] + rest;
      assert attributes[1..] == rest;
      Joined(s, i, one.text, ParseAttributes(s, i, done, f).text);
      assert done + [one.value] + AttributesMeaning(rest, f) == done + ([one.value] + AttributesMeaning(rest, f));
    }
  }

  // ---------------------------------------------------------------------------------------------
  // Contents

  lemma ClosingOf(s: seq<char>, i: nat, element: Node, f: Flags) returns (name: string, after: string)
    requires Terminated(s) && i + 2 < |s| && s[i] == '<' && s[i + 1] == '/' && ParseClosing(s, i + 2, element, f).Ok?
    ensures OnlyNameChars(name) && Blank(after) && (f.validateClosingTags ==> name == element.name)
    ensures ClosingText(name, after) == s[i..ParseClosing(s, i + 2, element, f).text]
  {
    hide Skip, CharClass.Test;
    var nameEnd := Skip(s, i + 2, NodeName);
    var close := Skip(s, nameEnd, Whitespace);
    name, after := s[i + 2..nameEnd], s[nameEnd..close];
    SkippedBlank(s, nameEnd);
    OneChar(s, close, close + 1);
    Joined(s, nameEnd, close, close + 1);
    Joined(s, i + 2, nameEnd, close + 1);
    assert s[i..i + 2] == "</";
    Joined(s, i, i + 2, close + 1);
    assert s[close + 1..close + 1] == "";
  }

  lemma DataOf(s: seq<char>, i: nat, f: Flags) returns (pieces: seq<Piece>)
    requires Terminated(s) && i < |s| && Text.Test(s[i]) && Text.Test(s[Skip(s, i, Whitespace)])
    requires Expand(s, i, i, Text, f, f.normalizeWhitespace).Ok?
    ensures var r := Expand(s, i, i, Text, f, f.normalizeWhitespace);
      && WellSpelled(pieces, Text, f, f.normalizeWhitespace) && SpellAll(pieces) == s[i..r.text]
      && MeanAll(pieces, f) == r.value && Shows(SpellAll(pieces))
  {
    hide Expand, WellSpelled, SpellAll, MeanAll;
    var r := Expand(s, i, i, Text, f, f.normalizeWhitespace);
    var next := Skip(s, i, Whitespace);
    pieces := PiecesOf(s, i, i, Text, f, f.normalizeWhitespace);
    assert !Text.Test(s[r.text]);
    forall k | i <= k <= next ensures Text.Test(s[k]) {
      assert k < next ==> Whitespace.Test(s[k]);
    }
    assert !Whitespace.Test(s[next]);
    assert s[i..r.text][next - i] == s[next];
  }

  /** What the contents loop accepted. */
  ghost predicate SpellsContents(s: seq<char>, i: nat, items: seq<Item>, space: string, name: string, after: string,
                                 element: Node, afterData: bool, f: Flags, r: Outcome<Node>)
  {
    && ItemsWell(items, afterData, f) && Blank(space) && (EndsInData(items, afterData) ==> space == "")
    && OnlyNameChars(name) && Blank(after) && (f.validateClosingTags ==> name == element.name)
    && r.Ok? && i <= r.text <= |s| && ItemsText(items) + (space + ClosingText(name, after)) == s[i..r.text]
    && r.value == AbsorbItems(element, items, f)
  }

  lemma OneMoreItem(s: seq<char>, i: nat, j: nat, item: Item, items: seq<Item>, space: string, name: string, after: string,
                    element: Node, afterData: bool, f: Flags, r: Outcome<Node>)
    requires i <= j && ItemWell(item, afterData, f) && j <= |s| && ItemText(item) == s[i..j]
    requires SpellsContents(s, j, items, space, name, after, AbsorbItem(element, item, f), item.DataItem?, f, r)
    ensures SpellsContents(s, i, [item] + items, space, name, after, element, afterData, f, r)
  {
    hide ItemWell, ItemText, ClosingText, AbsorbItem;
    var all, end := [item] + items, space + ClosingText(name, after);
    assert all[1..] == items;
    EndsTail(all, afterData);
    Joined(s, i, j, r.text);
    assert ItemsText(all) + end == ItemText(item) + (ItemsText(items) + end);
  }

  lemma {:induction false} ContentsOf(s: seq<char>, i: nat, element: Node, afterData: bool, f: Flags)
    returns (items: seq<Item>, space: string, name: string, after: string)
    requires Terminated(s) && i < |s| && (afterData ==> !Text.Test(s[i])) && ParseContents(s, i, element, afterData, f).Ok?
    ensures SpellsContents(s, i, items, space, name, after, element, afterData, f, ParseContents(s, i, element, afterData, f))
    decreases |s| - i, 0
  {
    hide ParseNode, ParseClosing, Skip, Expand, AddData, AddChild, SpellsContents, NodeText, NodeMeaning, Well, WellSpelled, SpellAll, MeanAll;
    var r := ParseContents(s, i, element, afterData, f);
    var next := if afterData then i else Skip(s, i, Whitespace);
    var blanks := s[i..next];
    if !afterData { SkippedBlank(s, i); } else { assert blanks == ""; }
    if s[next] == '<' {
      if s[next + 1] == '/' {
        name, after := ClosingOf(s, next, element, f);
        items, space := [], blanks;
        ClosingSpelled(s, i, next, blanks, name, after, element, afterData, f, r);
      } else {
        var child := ParseNode(s, next + 1, f);
        var node := NodeOf(s, next + 1, f);
        OneChar(s, next, child.text);
        Joined(s, i, next, child.text);
        items, space, name, after := ContentsOf(s, child.text, AddChild(element, child.value), false, f);
        OneMoreItem(s, i, child.text, NodeItem(blanks, node), items, space, name, after, element, afterData, f, r);
        items := [NodeItem(blanks, node)] + items;
      }
    } else {
      assert Text.Test(s[i]) by { if i < next { assert Whitespace.Test(s[i]); } }
      var data := Expand(s, i, i, Text, f, f.normalizeWhitespace);
      var pieces := DataOf(s, i, f);
      items, space, name, after := ContentsOf(s, data.text, AddData(element, data.value, f), true, f);
      OneMoreItem(s, i, data.text, DataItem(pieces), items, space, name, after, element, afterData, f, r);
      items := [DataItem(pieces)] + items;
    }
  }

  lemma ClosingSpelled(s: seq<char>, i: nat, next: nat, blanks: string, name: string, after: string, element: Node,
                       afterData: bool, f: Flags, r: Outcome<Node>)
    requires i <= next <= |s| && blanks == s[i..next] && Blank(blanks) && (afterData ==> blanks == "")
    requires OnlyNameChars(name) && Blank(after) && (f.validateClosingTags ==> name == element.name)
    requires r.Ok? && r.value == element && next <= r.text <= |s| && ClosingText(name, after) == s[next..r.text]
    ensures SpellsContents(s, i, [], blanks, name, after, element, afterData, f, r)
  {
    hide ClosingText;
    Joined(s, i, next, r.text);
    assert ItemsText([]) + (blanks + ClosingText(name, after)) == s[i..r.text];
  }

  // ---------------------------------------------------------------------------------------------
  // Nodes

  lemma {:induction false} ElementOf(s: seq<char>, i: nat, f: Flags) returns (n: NodeSyntax)
    requires Terminated(s) && i < |s| && s[i] != '!' && ParseElement(s, i, f).Ok?
    ensures var r := ParseElement(s, i, f);
      Well(n, f) && NodeText(n) == "<" + s[i..r.text] && NodeMeaning(n, f) == Some(r.value)
    decreases |s| - i, 1
  {
    hide ParseAttributes, ParseContents, Skip, AttributesWell, AttributesText, AttributesMeaning, NodeMeaning;
    hide CharClass.Test, ContentsWell, ContentsText, IsName, Blank;
    var r := ParseElement(s, i, f);
    var nameEnd := Skip(s, i, NodeName);
    var t := Skip(s, nameEnd, Whitespace);
    var a := ParseAttributes(s, t, [], f);
    var attributes := AttributesOf(s, t, [], f);
    assert [] + AttributesMeaning(attributes, f) == AttributesMeaning(attributes, f);
    var name, space := s[i..nameEnd], s[nameEnd..t];
    SkippedBlank(s, nameEnd);
    SkippedIsName(s, i, nameEnd, NodeName);
    if attributes != [] { SpaceBefore(s, nameEnd, t, attributes, a.text, f); }
    var c := TagOf(s, a.text, Node(Element, name, "", a.value, []), f);
    n := ElementSyntax(name, space, attributes, c);
    Joined(s, t, a.text, r.text);
    Joined(s, nameEnd, t, r.text);
    Joined(s, i, nameEnd, r.text);
    ElementMeans(name, space, attributes, c, f);
    assert name[0] == s[i] && name != "" by { NameStarts(s, i, nameEnd); }
  }

  lemma NameStarts(s: seq<char>, i: nat, end: nat)
    requires i < end <= |s|
    ensures s[i..end] != "" && s[i..end][0] == s[i]
  {
  }

  /** What follows the attributes of an element. */
  lemma {:induction false} TagOf(s: seq<char>, i: nat, element: Node, f: Flags) returns (c: Contents)
    requires Terminated(s) && i < |s|
    requires (s[i] == '>' && ParseContents(s, i + 1, element, false, f).Ok?) || (s[i] == '/' && s[i + 1] == '>')
    ensures ContentsWell(c, element.name, f) && (c.Open? <==> s[i] == '>')
    ensures c.Open? ==> var r := ParseContents(s, i + 1, element, false, f);
      ContentsText(c) == s[i..r.text] && r.value == AbsorbItems(element, c.items, f)
    ensures c.Closed? ==> ContentsText(c) == s[i..i + 2]
    decreases |s| - i, 0
  {
    hide ParseContents, ItemsText, ItemsWell, ClosingText, AbsorbItems;
    if s[i] == '>' {
      var items, blanks, closing, after := ContentsOf(s, i + 1, element, false, f);
      OneChar(s, i, ParseContents(s, i + 1, element, false, f).text);
      c := Open(items, blanks, closing, after);
    } else {
      c := Closed;
      assert s[i..i + 2] == "/>";
    }
  }

  /** Attributes do not follow a name without blanks. */
  lemma SpaceBefore(s: seq<char>, nameEnd: nat, t: nat, attributes: seq<AttributeSyntax>, end: nat, f: Flags)
    requires nameEnd <= t <= end <= |s| && nameEnd < |s| && !NodeName.Test(s[nameEnd]) && attributes != [] && AttributesWell(attributes, f)
    requires AttributesText(attributes) == s[t..end]
    ensures s[nameEnd..t] != ""
  {
    var a := attributes[0];
    assert AttributeWell(a, f);
    NameCharsAreNoBlanks(a.name[0]);
    assert AttributesText(attributes)[0] == a.name[0];
    assert s[t..end][0] == s[t];
    assert NodeName.Test(s[t]);
  }

  lemma {:induction false} NodeOf(s: seq<char>, i: nat, f: Flags) returns (n: NodeSyntax)
    requires Terminated(s) && i < |s| && ParseNode(s, i, f).Ok?
    ensures var r := ParseNode(s, i, f);
      Well(n, f) && NodeText(n) == "<" + s[i..r.text] && NodeMeaning(n, f) == r.value
    decreases |s| - i, 2
  {
    hide ParseElement, ParseDeclaration, ParsePi, FindClose, DoctypeEnd, Matches, OpensDeclaration;
    var r := ParseNode(s, i, f);
    if s[i] == '?' {
      if OpensDeclaration(s, i + 1) {
        n := DeclarationOf(s, i, f);
      } else {
        n := PiOf(s, i, f);
      }
    } else if s[i] == '!' {
      n := MarkOf(s, i, f);
    } else {
      n := ElementOf(s, i, f);
    }
  }

  lemma DeclarationOf(s: seq<char>, i: nat, f: Flags) returns (n: NodeSyntax)
    requires Terminated(s) && i < |s| && s[i] == '?' && OpensDeclaration(s, i + 1) && ParseDeclaration(s, i + 5, f).Ok?
    ensures var r := ParseDeclaration(s, i + 5, f);
      Well(n, f) && NodeText(n) == "<" + s[i..r.text] && NodeMeaning(n, f) == r.value
  {
    hide ParseDeclaration, Well, NodeText, NodeMeaning;
    if f.declarationNode { n := KeptDeclarationOf(s, i, f); } else { n := SkippedDeclarationOf(s, i, f); }
  }

  lemma XmlAt(s: seq<char>, i: nat)
    requires Terminated(s) && i < |s| && OpensDeclaration(s, i)
    ensures i + 4 < |s| && SpellsXml(s[i..i + 3]) && IsWhitespace(s[i + 3])
  {
    var xml := s[i..i + 3];
    assert xml[0] == s[i] && xml[1] == s[i + 1] && xml[2] == s[i + 2];
  }

  lemma QuestionJoined(s: seq<char>, i: nat, a: nat, b: nat, c: nat, end: nat)
    requires i + 1 <= a <= b <= c <= end <= |s| && s[i] == '?'
    ensures "<" + s[i..end] == "<?" + (s[i + 1..a] + (s[a..b] + (s[b..c] + s[c..end])))
  {
    Joined(s, b, c, end);
    Joined(s, a, b, end);
    Joined(s, i + 1, a, end);
    OneChar(s, i, end);
    assert "<?" == "<" + "?";
  }

  lemma SkippedDeclarationOf(s: seq<char>, i: nat, f: Flags) returns (n: NodeSyntax)
    requires Terminated(s) && i < |s| && s[i] == '?' && OpensDeclaration(s, i + 1) && !f.declarationNode
    requires ParseDeclaration(s, i + 5, f).Ok?
    ensures var r := ParseDeclaration(s, i + 5, f);
      Well(n, f) && NodeText(n) == "<" + s[i..r.text] && NodeMeaning(n, f) == r.value
  {
    hide Skip, FindClose, Free, Matches, SpellsXml, OpensDeclaration, Well, NodeText, NodeMeaning;
    XmlAt(s, i + 1);
    var end := FindClose(s, i + 5, "?>").text;
    FoundIsFree(s, i + 5, "?>");
    EndsWith(s, end, "?>");
    n := SkippedDeclaration(s[i + 1..i + 4], s[i + 4], s[i + 5..end]);
    SkippedSpelled(n.xml, n.blank, n.text, f);
    QuestionJoined(s, i, i + 4, i + 5, end, end + 2);
    assert s[i + 4..i + 5] == [s[i + 4]];
  }

  lemma SkippedSpelled(xml: string, blank: char, text: string, f: Flags)
    requires !f.declarationNode && SpellsXml(xml) && IsWhitespace(blank) && Free(text, "?>")
    ensures var n := SkippedDeclaration(xml, blank, text);
      Well(n, f) && NodeText(n) == "<?" + (xml + ([blank] + (text + "?>"))) && NodeMeaning(n, f) == None
  {
    hide Free;
  }

  lemma KeptDeclarationOf(s: seq<char>, i: nat, f: Flags) returns (n: NodeSyntax)
    requires Terminated(s) && i < |s| && s[i] == '?' && OpensDeclaration(s, i + 1) && f.declarationNode
    requires ParseDeclaration(s, i + 5, f).Ok?
    ensures var r := ParseDeclaration(s, i + 5, f);
      Well(n, f) && NodeText(n) == "<" + s[i..r.text] && NodeMeaning(n, f) == r.value
  {
    hide ParseAttributes, ParseDeclaration, Skip, AttributesWell, AttributesText, AttributesMeaning, Matches;
    hide SpellsXml, OpensDeclaration, Blank, Well, NodeText, NodeMeaning;
    XmlAt(s, i + 1);
    var t := Skip(s, i + 5, Whitespace);
    DeclarationIs(s, i + 5, f);
    var a := ParseAttributes(s, t, [], f);
    var attributes := AttributesOf(s, t, [], f);
    assert [] + AttributesMeaning(attributes, f) == AttributesMeaning(attributes, f);
    BlankFrom(s, i + 4, t);
    n := DeclarationSyntax(s[i + 1..i + 4], s[i + 4..t], attributes);
    DeclarationSpelled(n.xml, n.space, attributes, f);
    QuestionJoined(s, i, i + 4, t, a.text, a.text + 2);
  }

  lemma DeclarationIs(s: seq<char>, i: nat, f: Flags)
    requires Terminated(s) && i < |s| && f.declarationNode && ParseDeclaration(s, i, f).Ok?
    ensures var a := ParseAttributes(s, Skip(s, i, Whitespace), [], f);
      && a.Ok? && a.text + 2 <= |s| && s[a.text..a.text + 2] == "?>"
      && ParseDeclaration(s, i, f) == Ok(Some(Node(Declaration, "", "", a.value, [])), a.text + 2)
  {
    hide ParseAttributes, Skip;
  }

  lemma DeclarationSpelled(xml: string, space: string, attributes: seq<AttributeSyntax>, f: Flags)
    requires f.declarationNode && SpellsXml(xml) && Blank(space) && space != "" && AttributesWell(attributes, f)
    ensures var n := DeclarationSyntax(xml, space, attributes);
      && Well(n, f) && NodeText(n) == "<?" + (xml + (space + (AttributesText(attributes) + "?>")))
      && NodeMeaning(n, f) == Some(Node(Declaration, "", "", AttributesMeaning(attributes, f), []))
  {
  }

  lemma BlankFrom(s: seq<char>, i: nat, t: nat)
    requires Terminated(s) && i + 1 < |s| && IsWhitespace(s[i]) && t == Skip(s, i + 1, Whitespace)
    ensures Blank(s[i..t]) && s[i..t] != ""
  {
    SkippedBlank(s, i + 1);
    OneChar(s, i, t);
    forall k | 0 <= k < t - i ensures IsWhitespace(s[i..t][k]) {
      if k > 0 { assert s[i..t][k] == s[i + 1..t][k - 1]; }
    }
  }

  lemma EndsWith(s: seq<char>, i: nat, mark: string)
    requires Matches(s, i, mark)
    ensures i + |mark| <= |s| && s[i..i + |mark|] == mark
  {
  }

  lemma PiOf(s: seq<char>, i: nat, f: Flags) returns (n: NodeSyntax)
    requires Terminated(s) && i < |s| && s[i] == '?' && !OpensDeclaration(s, i + 1) && ParsePi(s, i + 1, f).Ok?
    ensures var r := ParsePi(s, i + 1, f);
      Well(n, f) && NodeText(n) == "<" + s[i..r.text] && NodeMeaning(n, f) == r.value
  {
    hide ParsePi, Well, NodeText, NodeMeaning;
    if f.piNodes { n := KeptPiOf(s, i, f); } else { n := SkippedPiOf(s, i, f); }
  }

  lemma SkippedPiOf(s: seq<char>, i: nat, f: Flags) returns (n: NodeSyntax)
    requires Terminated(s) && i < |s| && s[i] == '?' && !OpensDeclaration(s, i + 1) && !f.piNodes && ParsePi(s, i + 1, f).Ok?
    ensures var r := ParsePi(s, i + 1, f);
      Well(n, f) && NodeText(n) == "<" + s[i..r.text] && NodeMeaning(n, f) == r.value
  {
    hide FindClose, Free, Matches, OpensDeclaration, OpensXml, Well, NodeText, NodeMeaning;
    var end := FindClose(s, i + 1, "?>").text;
    FoundIsFree(s, i + 1, "?>");
    EndsWith(s, end, "?>");
    n := SkippedPi(s[i + 1..end]);
    RestMatches(s, i + 1, end);
    CharAt(s, end, "?>", 0);
    NotXml(s, i + 1, n.text);
    SkippedPiSpelled(n.text, f);
    OneChar(s, i, end + 2);
    Joined(s, i + 1, end, end + 2);
    assert "<?" == "<" + "?";
  }

  lemma SkippedPiSpelled(text: string, f: Flags)
    requires !f.piNodes && Free(text, "?>") && !OpensXml(text)
    ensures var n := SkippedPi(text); Well(n, f) && NodeText(n) == "<?" + (text + "?>") && NodeMeaning(n, f) == None
  {
    hide Free, OpensXml;
  }

  lemma KeptPiOf(s: seq<char>, i: nat, f: Flags) returns (n: NodeSyntax)
    requires Terminated(s) && i < |s| && s[i] == '?' && !OpensDeclaration(s, i + 1) && f.piNodes && ParsePi(s, i + 1, f).Ok?
    ensures var r := ParsePi(s, i + 1, f);
      Well(n, f) && NodeText(n) == "<" + s[i..r.text] && NodeMeaning(n, f) == r.value
  {
    hide Skip, FindClose, ParsePi, Free, Matches, OpensDeclaration, CharClass.Test, SpellsXml, Blank, IsName;
    hide Well, NodeText, NodeMeaning;
    PiIs(s, i + 1, f);
    var nameEnd := Skip(s, i + 1, NodeName);
    var v := Skip(s, nameEnd, Whitespace);
    var end := FindClose(s, v, "?>").text;
    FoundIsFree(s, v, "?>");
    SkippedBlank(s, nameEnd);
    SkippedIsName(s, i + 1, nameEnd, NodeName);
    NotSpelled(s, i + 1, nameEnd, v);
    WhitespaceTest(s[v]);
    n := PiSyntax(s[i + 1..nameEnd], s[nameEnd..v], s[v..end]);
    if v < end { NameStarts(s, v, end); }
    PiSpelled(n.target, n.space, n.text, f);
    QuestionJoined(s, i, nameEnd, v, end, end + 2);
  }

  lemma PiIs(s: seq<char>, i: nat, f: Flags)
    requires Terminated(s) && i < |s| && f.piNodes && ParsePi(s, i, f).Ok?
    ensures var nameEnd := Skip(s, i, NodeName);
      var v := Skip(s, nameEnd, Whitespace);
      var close := FindClose(s, v, "?>");
      && i < nameEnd && close.Ok? && close.text + 2 < |s| && s[close.text..close.text + 2] == "?>"
      && ParsePi(s, i, f) == Ok(Some(Leaf(Pi, s[i..nameEnd], s[v..close.text])), close.text + 2)
  {
    hide FindClose, Skip;
  }

  lemma PiSpelled(target: string, space: string, text: string, f: Flags)
    requires f.piNodes && IsName(target, NodeName) && Blank(space) && Free(text, "?>") && (SpellsXml(target) ==> space == "")
    requires text != "" ==> !IsWhitespace(text[0]) && (space == "" ==> !NodeName.Test(text[0]))
    ensures var n := PiSyntax(target, space, text);
      && Well(n, f) && NodeText(n) == "<?" + (target + (space + (text + "?>"))) && NodeMeaning(n, f) == Some(Leaf(Pi, target, text))
  {
    hide Free, IsName, Blank, SpellsXml, CharClass.Test;
  }

  /** What stands after "<!". */
  lemma MarkOf(s: seq<char>, i: nat, f: Flags) returns (n: NodeSyntax)
    requires Terminated(s) && i < |s| && s[i] == '!' && ParseNode(s, i, f).Ok?
    ensures var r := ParseNode(s, i, f);
      Well(n, f) && NodeText(n) == "<" + s[i..r.text] && NodeMeaning(n, f) == r.value
  {
    hide ParseDelimited, ParseDoctype, Well, NodeText, NodeMeaning, Matches;
    if Matches(s, i, "!--") {
      BangEnds(s, i, "!--");
      n := CommentOf(s, i, f);
    } else if Matches(s, i, "![CDATA[") {
      BangEnds(s, i, "![CDATA[");
      n := CdataOf(s, i, f);
    } else if OpensDoctype(s, i) {
      n := DoctypeOf(s, i, f);
    } else {
      n := OtherOf(s, i, f);
    }
  }

  lemma CommentOf(s: seq<char>, i: nat, f: Flags) returns (n: NodeSyntax)
    requires Terminated(s) && i + 3 < |s| && Matches(s, i, "!--") && ParseDelimited(s, i + 3, Comment, "-->", f.commentNodes).Ok?
    ensures var r := ParseDelimited(s, i + 3, Comment, "-->", f.commentNodes);
      Well(n, f) && NodeText(n) == "<" + s[i..r.text] && NodeMeaning(n, f) == r.value
  {
    hide FindClose, Free, Matches, Well, NodeText, NodeMeaning;
    var end := FindClose(s, i + 3, "-->").text;
    FoundIsFree(s, i + 3, "-->");
    MarkedText(s, i, "!--", end, "-->");
    n := CommentSyntax(s[i + 3..end]);
    DelimitedSpelled(n.text, f);
    assert "<!--" == "<" + "!--";
  }

  lemma CdataOf(s: seq<char>, i: nat, f: Flags) returns (n: NodeSyntax)
    requires Terminated(s) && i + 8 < |s| && Matches(s, i, "![CDATA[") && ParseDelimited(s, i + 8, Cdata, "]]>", !f.noDataNodes).Ok?
    ensures var r := ParseDelimited(s, i + 8, Cdata, "]]>", !f.noDataNodes);
      Well(n, f) && NodeText(n) == "<" + s[i..r.text] && NodeMeaning(n, f) == r.value
  {
    hide FindClose, Free, Matches, Well, NodeText, NodeMeaning;
    var end := FindClose(s, i + 8, "]]>").text;
    FoundIsFree(s, i + 8, "]]>");
    MarkedText(s, i, "![CDATA[", end, "]]>");
    n := CdataSyntax(s[i + 8..end]);
    DelimitedSpelled(n.text, f);
    assert "<![CDATA[" == "<" + "![CDATA[";
  }

  lemma DelimitedSpelled(text: string, f: Flags)
    ensures var n := CommentSyntax(text);
      && (Well(n, f) <==> Free(text, "-->")) && NodeText(n) == "<!--" + (text + "-->")
      && NodeMeaning(n, f) == if f.commentNodes then Some(Leaf(Comment, "", text)) else None
    ensures var n := CdataSyntax(text);
      && (Well(n, f) <==> Free(text, "]]>")) && NodeText(n) == "<![CDATA[" + (text + "]]>")
      && NodeMeaning(n, f) == if f.noDataNodes then None else Some(Leaf(Cdata, "", text))
  {
    hide Free;
  }

  lemma DoctypeOf(s: seq<char>, i: nat, f: Flags) returns (n: NodeSyntax)
    requires Terminated(s) && i + 9 < |s| && OpensDoctype(s, i) && ParseDoctype(s, i + 9, f).Ok?
    ensures var r := ParseDoctype(s, i + 9, f);
      Well(n, f) && NodeText(n) == "<" + s[i..r.text] && NodeMeaning(n, f) == r.value
  {
    hide DoctypeEnd, DoctypeBody, Matches, Well, NodeText, NodeMeaning;
    var end := DoctypeEnd(s, i + 9, 0).text;
    DoctypeIsBody(s, i + 9, 0);
    n := DoctypeSyntax(s[i + 8], s[i + 9..end]);
    DoctypeSpelled(n.blank, n.text, f);
    EndsWith(s, i, "!DOCTYPE");
    DoctypeJoined(s, i, end);
  }

  lemma DoctypeJoined(s: seq<char>, i: nat, end: nat)
    requires i + 9 <= end < |s| && s[i..i + 8] == "!DOCTYPE" && s[end] == '>'
    ensures "<" + s[i..end + 1] == "<!DOCTYPE" + ([s[i + 8]] + (s[i + 9..end] + ">"))
  {
    assert s[i + 9..end + 1] == s[i + 9..end] + ">";
    OneChar(s, i + 8, end + 1);
    Joined(s, i, i + 8, end + 1);
    assert "<!DOCTYPE" == "<" + "!DOCTYPE";
  }

  lemma DoctypeSpelled(blank: char, text: string, f: Flags)
    requires IsWhitespace(blank) && DoctypeBody(text, 0)
    ensures var n := DoctypeSyntax(blank, text);
      && Well(n, f) && NodeText(n) == "<!DOCTYPE" + ([blank] + (text + ">"))
      && NodeMeaning(n, f) == if f.doctypeNode then Some(Leaf(Doctype, "", text)) else None
  {
    hide DoctypeBody;
  }

  lemma BangEnds(s: seq<char>, i: nat, mark: string)
    requires Terminated(s) && |mark| > 0 && NUL !in mark && Matches(s, i, mark)
    ensures i + |mark| < |s|
  {
    MatchEnds(s, i, mark);
  }

  lemma MarkedText(s: seq<char>, i: nat, mark: string, end: nat, close: string)
    requires Matches(s, i, mark) && i + |mark| <= end && Matches(s, end, close)
    ensures s[i..end + |close|] == mark + (s[i + |mark|..end] + close)
  {
    Joined(s, i + |mark|, end, end + |close|);
    Joined(s, i, i + |mark|, end + |close|);
  }

  lemma OtherOf(s: seq<char>, i: nat, f: Flags) returns (n: NodeSyntax)
    requires Terminated(s) && i < |s| && s[i] == '!' && ParseNode(s, i, f).Ok?
    requires !Matches(s, i, "!--") && !Matches(s, i, "![CDATA[") && !OpensDoctype(s, i)
    ensures var r := ParseNode(s, i, f);
      Well(n, f) && NodeText(n) == "<" + s[i..r.text] && NodeMeaning(n, f) == r.value
  {
    hide FindClose, Free, Matches, ParseNode, OpensDoctype, Well, NodeText, NodeMeaning;
    NodeIsOther(s, i, f);
    var end := FindClose(s, i + 1, ">").text;
    var text := s[i + 1..end];
    FoundIsFree(s, i + 1, ">");
    EndsWith(s, end, ">");
    RestMatches(s, i + 1, end);
    NothingOpened(s, i, text);
    n := OtherSyntax(text);
    OtherSpelled(text, f);
    OneChar(s, i, end + 1);
    Joined(s, i + 1, end, end + 1);
    assert "<!" == "<" + "!";
  }

  lemma OtherSpelled(text: string, f: Flags)
    requires Free(text, ">") && !Matches(text, 0, "--") && !Matches(text, 0, "[CDATA[")
    requires !(Matches(text, 0, "DOCTYPE") && BlankAt(text, 7))
    ensures var n := OtherSyntax(text); Well(n, f) && NodeText(n) == "<!" + (text + ">") && NodeMeaning(n, f) == None
  {
    hide Free, Matches;
  }

  lemma NothingOpened(s: seq<char>, i: nat, text: string)
    requires Terminated(s) && Matches(s, i + 1, text) && i + 1 + |text| < |s| && s[i] == '!' && s[i + 1 + |text|] == '>'
    requires !Matches(s, i, "!--") && !Matches(s, i, "![CDATA[") && !OpensDoctype(s, i)
    ensures !Matches(text, 0, "--") && !Matches(text, 0, "[CDATA[") && !(Matches(text, 0, "DOCTYPE") && BlankAt(text, 7))
  {
    hide Matches;
    NotOpened(s, i, text, "--");
    NotOpened(s, i, text, "[CDATA[");
    NotOpened(s, i, text, "DOCTYPE");
    assert "!--" == "!" + "--" && "![CDATA[" == "!" + "[CDATA[" && "!DOCTYPE" == "!" + "DOCTYPE";
    if |text| > 7 { CharAt(s, i + 1, text, 7); }
  }
}
