/** The concrete syntax the parser accepts: every way to spell a document, with blanks, either quote, references
    and skipped constructs, and what it means under any options. */
module XmlSyntax {
  import opened Options
  import opened XmlChars
  import opened XmlGrammar
  import opened XmlPieces
  import opened XmlReferences
  import opened XmlRoundTrip
  import opened XmlValues

  // ---------------------------------------------------------------------------------------------
  // Spelling

  /** name, blanks, '=', blanks, the quoted value, blanks. */
  datatype AttributeSyntax = AttributeSyntax(
    name: string, before: string, after: string, quote: char, value: seq<Piece>, space: string)

  datatype NodeSyntax =
    | ElementSyntax(name: string, space: string, attributes: seq<AttributeSyntax>, contents: Contents)
    | CommentSyntax(text: string)
    | CdataSyntax(text: string)
    | DoctypeSyntax(blank: char, text: string)
    | DeclarationSyntax(xml: string, space: string, attributes: seq<AttributeSyntax>)
    | SkippedDeclaration(xml: string, blank: char, text: string)
    | PiSyntax(target: string, space: string, text: string)
    | SkippedPi(text: string)
    | OtherSyntax(text: string)

  /** Closed at once, or items, blanks, and a closing tag with its name and blanks. */
  datatype Contents = Closed | Open(items: seq<Item>, space: string, name: string, after: string)

  datatype Item = DataItem(pieces: seq<Piece>) | NodeItem(space: string, node: NodeSyntax)

  function AttributeText(a: AttributeSyntax): string {
    a.name + (a.before + ("=" + (a.after + ([a.quote] + (SpellAll(a.value) + ([a.quote] + a.space))))))
  }

  function AttributesText(attributes: seq<AttributeSyntax>): string {
    if attributes == [] then "" else AttributeText(attributes[0]) + AttributesText(attributes[1..])
  }

  function ClosingText(name: string, after: string): string { "</" + (name + (after + ">")) }

  function NodeText(n: NodeSyntax): string
    decreases n, 2
  {
    match n
    case ElementSyntax(name, space, attributes, contents) =>
      "<" + (name + (space + (AttributesText(attributes) + ContentsText(contents))))
    case CommentSyntax(text) => "<!--" + (text + "-->")
    case CdataSyntax(text) => "<![CDATA[" + (text + "]]>")
    case DoctypeSyntax(blank, text) => "<!DOCTYPE" + ([blank] + (text + ">"))
    case DeclarationSyntax(xml, space, attributes) => "<?" + (xml + (space + (AttributesText(attributes) + "?>")))
    case SkippedDeclaration(xml, blank, text) => "<?" + (xml + ([blank] + (text + "?>")))
    case PiSyntax(target, space, text) => "<?" + (target + (space + (text + "?>")))
    case SkippedPi(text) => "<?" + (text + "?>")
    case OtherSyntax(text) => "<!" + (text + ">")
  }

  function ContentsText(c: Contents): string
    decreases c, 1
  {
    match c
    case Closed => "/>"
    case Open(items, space, name, after) => ">" + (ItemsText(items) + (space + ClosingText(name, after)))
  }

  function ItemText(item: Item): string
    decreases item, 0
  {
    match item
    case DataItem(pieces) => SpellAll(pieces)
    case NodeItem(space, node) => space + NodeText(node)
  }

  function ItemsText(items: seq<Item>): string
    decreases items, 0
  {
    if items == [] then "" else ItemText(items[0]) + ItemsText(items[1..])
  }

  // ---------------------------------------------------------------------------------------------
  // What may be spelled

  predicate AttributeWell(a: AttributeSyntax, f: Flags) {
    && IsName(a.name, AttributeName) && Blank(a.before) && Blank(a.after) && Blank(a.space)
    && (a.quote == '\'' || a.quote == '"') && WellSpelled(a.value, AttributeData(a.quote), f, false)
  }

  predicate AttributesWell(attributes: seq<AttributeSyntax>, f: Flags) {
    forall a | a in attributes :: AttributeWell(a, f)
  }

  predicate OnlyNameChars(name: string) { forall k | 0 <= k < |name| :: NodeName.Test(name[k]) }

  predicate Shows(text: string) { exists k | 0 <= k < |text| :: !IsWhitespace(text[k]) }

  predicate BlankAt(text: string, k: nat) { k < |text| && IsWhitespace(text[k]) }

  /** A target spelled "xml" before a blank would open a declaration. */
  predicate OpensXml(text: string) { |text| > 3 && SpellsXml(text[..3]) && IsWhitespace(text[3]) }

  predicate Well(n: NodeSyntax, f: Flags)
    decreases n, 2
  {
    match n
    case ElementSyntax(name, space, attributes, contents) =>
      && IsName(name, NodeName) && name[0] != '!' && Blank(space) && (attributes != [] ==> space != "")
      && AttributesWell(attributes, f) && ContentsWell(contents, name, f)
    case CommentSyntax(text) => Free(text, "-->")
    case CdataSyntax(text) => Free(text, "]]>")
    case DoctypeSyntax(blank, text) => IsWhitespace(blank) && DoctypeBody(text, 0)
    case DeclarationSyntax(xml, space, attributes) =>
      f.declarationNode && SpellsXml(xml) && Blank(space) && space != "" && AttributesWell(attributes, f)
    case SkippedDeclaration(xml, blank, text) =>
      !f.declarationNode && SpellsXml(xml) && IsWhitespace(blank) && Free(text, "?>")
    case PiSyntax(target, space, text) =>
      && f.piNodes && IsName(target, NodeName) && Blank(space) && Free(text, "?>") && !(SpellsXml(target) && space != "")
      && (text != "" ==> !IsWhitespace(text[0]) && (space == "" ==> !NodeName.Test(text[0])))
    case SkippedPi(text) => !f.piNodes && Free(text, "?>") && !OpensXml(text)
    case OtherSyntax(text) =>
      && Free(text, ">") && !Matches(text, 0, "--") && !Matches(text, 0, "[CDATA[")
      && !(Matches(text, 0, "DOCTYPE") && BlankAt(text, 7))
  }

  predicate ContentsWell(c: Contents, element: string, f: Flags)
    decreases c, 1
  {
    match c
    case Closed => true
    case Open(items, space, name, after) =>
      && ItemsWell(items, false, f) && Blank(space) && (EndsInData(items, false) ==> space == "")
      && OnlyNameChars(name) && Blank(after) && (f.validateClosingTags ==> name == element)
  }

  /** A data run takes all blanks around it, and does not follow another. */
  predicate ItemsWell(items: seq<Item>, afterData: bool, f: Flags)
    decreases items, 0
  {
    items != [] ==> ItemWell(items[0], afterData, f) && ItemsWell(items[1..], items[0].DataItem?, f)
  }

  predicate ItemWell(item: Item, afterData: bool, f: Flags)
    decreases item, 0
  {
    match item
    case DataItem(pieces) => !afterData && WellSpelled(pieces, Text, f, f.normalizeWhitespace) && Shows(SpellAll(pieces))
    case NodeItem(space, node) => Blank(space) && (afterData ==> space == "") && Well(node, f)
  }

  predicate EndsInData(items: seq<Item>, afterData: bool) {
    if items == [] then afterData else items[|items| - 1].DataItem?
  }

  // ---------------------------------------------------------------------------------------------
  // Meaning

  function AttributesMeaning(attributes: seq<AttributeSyntax>, f: Flags): seq<Attribute> {
    if attributes == [] then []
    else [Attribute(attributes[0].name, MeanAll(attributes[0].value, f))] + AttributesMeaning(attributes[1..], f)
  }

  /** The text that stays an element's value: the first that does not start with NUL, or the last. */
  function KeptText(texts: seq<string>): string {
    if texts == [] then ""
    else if |texts| == 1 || (texts[0] != "" && texts[0][0] != NUL) then texts[0]
    else KeptText(texts[1..])
  }

  function DataTexts(items: seq<Item>, f: Flags): seq<string> {
    if items == [] then []
    else (if items[0].DataItem? then [MeanAll(items[0].pieces, f)] else []) + DataTexts(items[1..], f)
  }

  /** What is recorded of a node. */
  function NodeMeaning(n: NodeSyntax, f: Flags): Option<Node>
    decreases n, 2
  {
    match n
    case ElementSyntax(name, space, attributes, contents) =>
      var items := if contents.Open? then contents.items else [];
      Some(Node(Element, name, if f.noElementValues then "" else KeptText(DataTexts(items, f)),
                AttributesMeaning(attributes, f), if contents.Open? then ItemsMeaning(contents.items, f) else []))
    case CommentSyntax(text) => if f.commentNodes then Some(Leaf(Comment, "", text)) else None
    case CdataSyntax(text) => if f.noDataNodes then None else Some(Leaf(Cdata, "", text))
    case DoctypeSyntax(blank, text) => if f.doctypeNode then Some(Leaf(Doctype, "", text)) else None
    case DeclarationSyntax(xml, space, attributes) =>
      Some(Node(Declaration, "", "", AttributesMeaning(attributes, f), []))
    case SkippedDeclaration(xml, blank, text) => None
    case PiSyntax(target, space, text) => Some(Leaf(Pi, target, text))
    case SkippedPi(text) => None
    case OtherSyntax(text) => None
  }

  function ItemMeaning(item: Item, f: Flags): seq<Node>
    decreases item, 0
  {
    match item
    case DataItem(pieces) => if f.noDataNodes then [] else [Leaf(Data, "", MeanAll(pieces, f))]
    case NodeItem(space, node) =>
      var meaning := NodeMeaning(node, f);
      if meaning.None? then [] else [meaning.value]
  }

  function ItemsMeaning(items: seq<Item>, f: Flags): seq<Node>
    decreases items, 0
  {
    if items == [] then [] else ItemMeaning(items[0], f) + ItemsMeaning(items[1..], f)
  }

  // ---------------------------------------------------------------------------------------------
  // Reading attributes

  lemma BlankTest(w: string)
    ensures Blank(w) <==> forall k | 0 <= k < |w| :: Whitespace.Test(w[k])
  {
    assert forall c :: Whitespace.Test(c) == IsWhitespace(c);
  }

  lemma SkipBlank(s: seq<char>, i: nat, w: string)
    requires Terminated(s) && Blank(w) && Matches(s, i, w) && i + |w| < |s| && !IsWhitespace(s[i + |w|])
    ensures Skip(s, i, Whitespace) == i + |w|
  {
    BlankTest(w);
    SkipName(s, i, w, Whitespace);
  }

  /** What comes first in blanks and a character after them. */
  lemma FirstOf(s: seq<char>, i: nat, w: string, c: char)
    requires Matches(s, i, w + [c])
    ensures i + |w| < |s| && s[i + |w|] == c
    ensures s[i] == if w == "" then c else w[0]
  {
    MatchesConcat(s, i, w, [c]);
    CharAt(s, i + |w|, [c], 0);
    if w != "" { CharAt(s, i, w, 0); }
  }

  lemma AttributeRead(s: seq<char>, i: nat, a: AttributeSyntax, f: Flags)
    requires Terminated(s) && AttributeWell(a, f) && Matches(s, i, AttributeText(a)) && i + |AttributeText(a)| < |s|
    requires !IsWhitespace(s[i + |AttributeText(a)|])
    ensures i < |s| && AttributeName.Test(s[i])
    ensures ParseOneAttribute(s, i, f) == Ok(Attribute(a.name, MeanAll(a.value, f)), i + |AttributeText(a)|)
  {
    hide Matches, Skip, Expand, CharClass.Test, SpellAll, MeanAll, WellSpelled;
    var q := [a.quote];
    var rest := SpellAll(a.value) + (q + a.space);
    var n := i + |a.name|;
    var e := n + |a.before|;
    var o := e + 1 + |a.after|;
    var v := o + 1 + |SpellAll(a.value)|;
    MatchesConcat(s, i, a.name, a.before + ("=" + (a.after + (q + rest))));
    MatchesConcat(s, n, a.before, "=" + (a.after + (q + rest)));
    MatchesConcat(s, e, "=", a.after + (q + rest));
    MatchesConcat(s, e + 1, a.after, q + rest);
    MatchesConcat(s, o, q, rest);
    MatchesConcat(s, o + 1, SpellAll(a.value), q + a.space);
    MatchesConcat(s, v, q, a.space);
    HeadRead(s, i, a.name, a.before, a.after, a.quote);
    CharAt(s, v, q, 0);
    QuoteStops(a.quote);
    PiecesRead(s, o + 1, o + 1, a.value, AttributeData(a.quote), f, false);
    SkipBlank(s, v + 1, a.space);
  }

  lemma QuoteStops(q: char)
    ensures !AttributeData(q).Test(q)
    ensures q == '\'' || q == '"' ==> ValueClass(AttributeData(q))
  {
  }

  lemma HeadRead(s: seq<char>, i: nat, name: string, before: string, after: string, quote: char)
    requires Terminated(s) && IsName(name, AttributeName) && Blank(before) && Blank(after) && (quote == '\'' || quote == '"')
    requires Matches(s, i, name) && Matches(s, i + |name|, before) && Matches(s, i + |name| + |before|, "=")
    requires Matches(s, i + |name| + |before| + 1, after) && Matches(s, i + |name| + |before| + 1 + |after|, [quote])
    requires i + |name| + |before| + 2 + |after| < |s|
    ensures i < |s| && AttributeName.Test(s[i])
    ensures AttributeHead(s, i) == Ok(name, i + |name| + |before| + 1 + |after|)
    ensures s[i + |name| + |before| + 1 + |after|] == quote
  {
    hide Matches, Skip;
    var n := i + |name|;
    var e := n + |before|;
    CharAt(s, i, name, 0);
    CharAt(s, e, "=", 0);
    CharAt(s, e + 1 + |after|, [quote], 0);
    if before != "" { CharAt(s, n, before, 0); }
    SkipName(s, i, name, AttributeName);
    SkipTail(s, i, AttributeName);
    SkipBlank(s, n, before);
    SkipBlank(s, e + 1, after);
    MatchesSlice(s, i, name);
  }

  lemma SkipTail(s: seq<char>, i: nat, cc: CharClass)
    requires Terminated(s) && i < |s| && cc.Test(s[i])
    ensures i + 1 < |s| && Skip(s, i, cc) == Skip(s, i + 1, cc)
  {
    StopsAtEnd(cc);
  }

  /** A list of attributes, up to a character that is no blank and starts no other. */
  lemma {:induction false} AttributesRead(s: seq<char>, i: nat, attributes: seq<AttributeSyntax>, done: seq<Attribute>, f: Flags)
    requires Terminated(s) && AttributesWell(attributes, f) && Matches(s, i, AttributesText(attributes))
    requires i + |AttributesText(attributes)| < |s| && EndsAttributes(s[i + |AttributesText(attributes)|])
    ensures i < |s| && !IsWhitespace(s[i])
    ensures ParseAttributes(s, i, done, f) == Ok(done + AttributesMeaning(attributes, f), i + |AttributesText(attributes)|)
    decreases |attributes|
  {
    hide AttributeWell, AttributeText, ParseOneAttribute, Matches, MeanAll;
    if attributes == [] {
      assert done + [] == done;
    } else {
      var a, rest := attributes[0], attributes[1..];
      MatchesConcat(s, i, AttributeText(a), AttributesText(rest));
      var meaning := Attribute(a.name, MeanAll(a.value, f));
      AttributesRead(s, i + |AttributeText(a)|, rest, done + [meaning], f);
      AttributeRead(s, i, a, f);
      NameCharsAreNoBlanks(s[i]);
      assert done + [meaning] + AttributesMeaning(rest, f) == done + ([meaning] + AttributesMeaning(rest, f));
    }
  }

  lemma NameCharsAreNoBlanks(c: char)
    ensures AttributeName.Test(c) ==> NodeName.Test(c)
    ensures NodeName.Test(c) ==> !IsWhitespace(c) && c != NUL && c != '?' && c != '/' && c != '>'
  {
  }

  /** Blanks and a list of attributes after a name or an opening mark. */
  lemma AttributesAfter(s: seq<char>, i: nat, space: string, attributes: seq<AttributeSyntax>, f: Flags)
    requires Terminated(s) && AttributesWell(attributes, f) && Blank(space)
    requires Matches(s, i, space) && Matches(s, i + |space|, AttributesText(attributes))
    requires i + |space| + |AttributesText(attributes)| < |s| && EndsAttributes(s[i + |space| + |AttributesText(attributes)|])
    ensures i < |s|
    ensures ParseAttributes(s, Skip(s, i, Whitespace), [], f)
         == Ok(AttributesMeaning(attributes, f), i + |space| + |AttributesText(attributes)|)
  {
    hide Matches, AttributesWell, AttributesText, AttributesMeaning, ParseAttributes, Skip;
    AttributesRead(s, i + |space|, attributes, [], f);
    assert [] + AttributesMeaning(attributes, f) == AttributesMeaning(attributes, f);
    SkipBlank(s, i, space);
  }

  // ---------------------------------------------------------------------------------------------
  // Reading contents

  function AbsorbItem(element: Node, item: Item, f: Flags): (r: Node)
    ensures r.kind == element.kind && r.name == element.name && r.attributes == element.attributes
  {
    match item
    case DataItem(pieces) => AddData(element, MeanAll(pieces, f), f)
    case NodeItem(space, node) => AddChild(element, NodeMeaning(node, f))
  }

  /** The element after the parser has read the items into it. */
  function AbsorbItems(element: Node, items: seq<Item>, f: Flags): (r: Node)
    ensures r.kind == element.kind && r.name == element.name && r.attributes == element.attributes
    decreases |items|
  {
    if items == [] then element else AbsorbItems(AbsorbItem(element, items[0], f), items[1..], f)
  }

  lemma {:induction false} SpelledIsText(ps: seq<Piece>, f: Flags, normalize: bool)
    requires WellSpelled(ps, Text, f, normalize)
    ensures forall k | 0 <= k < |SpellAll(ps)| :: Text.Test(SpellAll(ps)[k])
    decreases |ps|
  {
    hide Spelling, Fits;
    if ps != [] {
      PieceIsText(ps[0], SpellAll(ps[1..]), f, normalize);
      SpelledIsText(ps[1..], f, normalize);
    }
  }

  lemma PieceIsText(p: Piece, rest: string, f: Flags, normalize: bool)
    requires Fits(p, rest, Text, f, normalize)
    ensures forall k | 0 <= k < |Spelling(p)| :: Text.Test(Spelling(p)[k])
  {
    if p.Number? {
      assert forall k | 0 <= k < |p.digits| :: Text.Test(p.digits[k]) by {
        assert Digit('<') == 255 && Digit(NUL) == 255;
      }
    }
  }

  /** How the contents loop reads a data run. */
  lemma DataRead(s: seq<char>, i: nat, element: Node, pieces: seq<Piece>, f: Flags)
    requires Terminated(s) && WellSpelled(pieces, Text, f, f.normalizeWhitespace) && Shows(SpellAll(pieces))
    requires Matches(s, i, SpellAll(pieces)) && i + |SpellAll(pieces)| < |s| && s[i + |SpellAll(pieces)|] == '<'
    ensures ParseContents(s, i, element, false, f)
         == ParseContents(s, i + |SpellAll(pieces)|, AddData(element, MeanAll(pieces, f), f), true, f)
  {
    hide SpellAll, MeanAll, WellSpelled, AddData, Expand, ParseNode, ParseClosing;
    var v := SpellAll(pieces);
    SpelledIsText(pieces, f, f.normalizeWhitespace);
    PiecesRead(s, i, i, pieces, Text, f, f.normalizeWhitespace);
    TextShows(s, i, v);
  }

  lemma TextShows(s: seq<char>, i: nat, v: string)
    requires Terminated(s) && Matches(s, i, v) && i + |v| < |s| && Shows(v) && forall k | 0 <= k < |v| :: Text.Test(v[k])
    ensures i < |s| && Text.Test(s[i]) && Text.Test(s[Skip(s, i, Whitespace)])
  {
    hide Matches;
    var k :| 0 <= k < |v| && !IsWhitespace(v[k]);
    var next := Skip(s, i, Whitespace);
    CharAt(s, i, v, k);
    CharAt(s, i, v, 0);
    assert !Whitespace.Test(s[i + k]);
    assert !(i <= i + k < next);
    CharAt(s, i, v, next - i);
  }

  /** How the contents loop reads blanks and a node. */
  lemma MarkupRead(s: seq<char>, i: nat, space: string, element: Node, afterData: bool, f: Flags)
    requires Terminated(s) && Blank(space) && Matches(s, i, space) && (afterData ==> space == "")
    requires i + |space| + 1 < |s| && s[i + |space|] == '<' && s[i + |space| + 1] != '/'
    ensures afterData ==> s[i] == '<'
    ensures var child := ParseNode(s, i + |space| + 1, f);
      ParseContents(s, i, element, afterData, f) ==
      if child.Error? then Error(child.error, child.at)
      else ParseContents(s, child.text, AddChild(element, child.value), false, f)
  {
    hide ParseNode, ParseClosing, AddChild, AddData, Expand, Skip;
    SkipBlank(s, i, space);
  }

  /** How the contents loop reads blanks and the closing tag. */
  lemma ClosingRead(s: seq<char>, i: nat, element: Node, space: string, name: string, after: string, afterData: bool, f: Flags)
    requires Terminated(s) && Blank(space) && (afterData ==> space == "") && OnlyNameChars(name) && Blank(after)
    requires Matches(s, i, space + ClosingText(name, after))
    ensures i + |space + ClosingText(name, after)| < |s|
    ensures afterData ==> s[i] == '<'
    ensures ParseContents(s, i, element, afterData, f) ==
            if f.validateClosingTags && name != element.name then Error(InvalidClosingTag, i + |space| + 2 + |name|)
            else Ok(element, i + |space + ClosingText(name, after)|)
  {
    hide Matches, ParseNode, ParseClosing, AddChild, AddData, Expand, Skip, ClosingText;
    var t := i + |space|;
    MatchesConcat(s, i, space, ClosingText(name, after));
    TagRead(s, t, element, name, after, f);
    SkipBlank(s, i, space);
  }

  lemma TagRead(s: seq<char>, t: nat, element: Node, name: string, after: string, f: Flags)
    requires Terminated(s) && OnlyNameChars(name) && Blank(after) && Matches(s, t, ClosingText(name, after))
    ensures t + 2 < t + |ClosingText(name, after)| < |s| && s[t] == '<' && s[t + 1] == '/'
    ensures ParseClosing(s, t + 2, element, f) ==
            if f.validateClosingTags && name != element.name then Error(InvalidClosingTag, t + 2 + |name|)
            else Ok(element, t + |ClosingText(name, after)|)
  {
    hide Matches, Skip;
    var e := t + 2 + |name|;
    MatchesConcat(s, t, "</", name + (after + ">"));
    MatchesConcat(s, t + 2, name, after + ">");
    MatchesConcat(s, e, after, ">");
    CharAt(s, t, "</", 0);
    CharAt(s, t, "</", 1);
    FirstOf(s, e, after, '>');
    LastIsNul(s, e + |after|);
    SkipName(s, t + 2, name, NodeName);
    MatchesSlice(s, t + 2, name);
    SkipBlank(s, e, after);
  }

  /** A node's text starts with '<' and a character that opens no closing tag. */
  lemma NodeOpens(n: NodeSyntax, f: Flags)
    requires Well(n, f)
    ensures |NodeText(n)| >= 2 && NodeText(n)[0] == '<' && NodeText(n)[1] != '/'
  {
    hide AttributesText, ContentsText, ContentsWell;
  }

  lemma {:induction false} ItemsRead(s: seq<char>, i: nat, element: Node, items: seq<Item>, space: string, name: string,
                                     after: string, afterData: bool, f: Flags)
    requires Terminated(s) && ItemsWell(items, afterData, f) && Blank(space) && (EndsInData(items, afterData) ==> space == "")
    requires OnlyNameChars(name) && Blank(after) && (f.validateClosingTags ==> name == element.name)
    requires Matches(s, i, ItemsText(items) + (space + ClosingText(name, after)))
    ensures i + |ItemsText(items) + (space + ClosingText(name, after))| < |s|
    ensures afterData ==> s[i] == '<'
    ensures ParseContents(s, i, element, afterData, f)
         == Ok(AbsorbItems(element, items, f), i + |ItemsText(items) + (space + ClosingText(name, after))|)
    decreases items, 0
  {
    hide Matches, ParseNode, ParseContents, ItemText, ClosingText, ItemWell, AbsorbItem, NodeMeaning;
    var end := space + ClosingText(name, after);
    if items == [] {
      assert ItemsText(items) + end == end;
      ClosingRead(s, i, element, space, name, after, afterData, f);
    } else {
      var item, rest := items[0], items[1..];
      var text := ItemText(item);
      assert ItemsText(items) + end == text + (ItemsText(rest) + end);
      MatchesConcat(s, i, text, ItemsText(rest) + end);
      EndsTail(items, afterData);
      ItemsRead(s, i + |text|, AbsorbItem(element, item, f), rest, space, name, after, item.DataItem?, f);
      ItemRead(s, i, element, item, afterData, f);
    }
  }

  /** How the contents loop reads one item; after a data run comes markup. */
  lemma {:induction false} ItemRead(s: seq<char>, i: nat, element: Node, item: Item, afterData: bool, f: Flags)
    requires Terminated(s) && ItemWell(item, afterData, f) && Matches(s, i, ItemText(item)) && i + |ItemText(item)| < |s|
    requires item.DataItem? ==> s[i + |ItemText(item)|] == '<'
    ensures afterData ==> s[i] == '<'
    ensures ParseContents(s, i, element, afterData, f)
         == ParseContents(s, i + |ItemText(item)|, AbsorbItem(element, item, f), item.DataItem?, f)
    decreases item, 0
  {
    hide Matches, ParseContents, NodeText, Well, WellSpelled, SpellAll, MeanAll, NodeMeaning, Shows, AddData, AddChild, Blank, CharClass.Test;
    if item.DataItem? {
      DataRead(s, i, element, item.pieces, f);
    } else {
      MatchesConcat(s, i, item.space, NodeText(item.node));
      NodeRead(s, i + |item.space|, item.node, f);
      NodeItemRead(s, i, element, item.space, item.node, afterData, f);
    }
  }

  lemma NodeItemRead(s: seq<char>, i: nat, element: Node, space: string, node: NodeSyntax, afterData: bool, f: Flags)
    requires Terminated(s) && Blank(space) && (afterData ==> space == "") && Well(node, f)
    requires Matches(s, i, space) && Matches(s, i + |space|, NodeText(node))
    requires i + |space| + |NodeText(node)| < |s|
    requires ParseNode(s, i + |space| + 1, f) == Ok(NodeMeaning(node, f), i + |space| + |NodeText(node)|)
    ensures afterData ==> s[i] == '<'
    ensures ParseContents(s, i, element, afterData, f)
         == ParseContents(s, i + |space| + |NodeText(node)|, AddChild(element, NodeMeaning(node, f)), false, f)
  {
    hide ParseContents, ParseNode, AddChild, Matches, NodeText, Well, NodeMeaning;
    NodeOpens(node, f);
    CharAt(s, i + |space|, NodeText(node), 0);
    CharAt(s, i + |space|, NodeText(node), 1);
    MarkupRead(s, i, space, element, afterData, f);
  }

  lemma EndsTail(items: seq<Item>, afterData: bool)
    requires items != []
    ensures EndsInData(items, afterData) == EndsInData(items[1..], items[0].DataItem?)
  {
  }

  // ---------------------------------------------------------------------------------------------
  // Reading nodes

  /** The value an element keeps while texts come in. */
  function LatestText(v: string, texts: seq<string>): string
    decreases |texts|
  {
    if texts == [] then v else LatestText(if v != "" && v[0] != NUL then v else texts[0], texts[1..])
  }

  lemma {:induction false} LatestIsKept(v: string, texts: seq<string>)
    ensures LatestText(v, texts) == if texts == [] || (v != "" && v[0] != NUL) then v else KeptText(texts)
    decreases |texts|
  {
    if texts != [] {
      LatestIsKept(if v != "" && v[0] != NUL then v else texts[0], texts[1..]);
      assert |texts| == 1 ==> texts[1..] == [];
    }
  }

  lemma {:induction false} AbsorbIs(element: Node, items: seq<Item>, f: Flags)
    ensures AbsorbItems(element, items, f) == element.(
              children := element.children + ItemsMeaning(items, f),
              value := if f.noElementValues then element.value else LatestText(element.value, DataTexts(items, f)))
    decreases |items|
  {
    hide MeanAll, NodeMeaning;
    if items == [] {
      assert element.children + [] == element.children;
    } else {
      var next := AbsorbItem(element, items[0], f);
      AbsorbIs(next, items[1..], f);
      assert next.children == element.children + ItemMeaning(items[0], f);
      assert element.children + ItemMeaning(items[0], f) + ItemsMeaning(items[1..], f) == element.children + ItemsMeaning(items, f);
      if items[0].DataItem? {
        var t := MeanAll(items[0].pieces, f);
        assert DataTexts(items, f)[0] == t && DataTexts(items, f)[1..] == DataTexts(items[1..], f);
      } else {
        assert DataTexts(items, f) == DataTexts(items[1..], f);
      }
    }
  }

  lemma ElementMeans(name: string, space: string, attributes: seq<AttributeSyntax>, c: Contents, f: Flags)
    ensures c.Open? ==>
      Some(AbsorbItems(Node(Element, name, "", AttributesMeaning(attributes, f), []), c.items, f))
      == NodeMeaning(ElementSyntax(name, space, attributes, c), f)
    ensures c.Closed? ==>
      Some(Node(Element, name, "", AttributesMeaning(attributes, f), [])) == NodeMeaning(ElementSyntax(name, space, attributes, c), f)
  {
    hide AttributesMeaning;
    if c.Open? {
      var e := Node(Element, name, "", AttributesMeaning(attributes, f), []);
      AbsorbIs(e, c.items, f);
      LatestIsKept("", DataTexts(c.items, f));
      assert [] + ItemsMeaning(c.items, f) == ItemsMeaning(c.items, f);
    }
  }

  lemma ContentsOpen(c: Contents)
    ensures ContentsText(c) != "" && (ContentsText(c)[0] == if c.Closed? then '/' else '>')
  {
    hide ItemsText, ClosingText;
  }

  /** A name ends where blanks or something that is no part of names begins. */
  lemma NameRead(s: seq<char>, i: nat, name: string, space: string)
    requires Terminated(s) && IsName(name, NodeName) && Blank(space) && Matches(s, i, name)
    requires Matches(s, i + |name|, space) && i + |name| + |space| < |s|
    requires space == "" ==> !NodeName.Test(s[i + |name|])
    ensures Skip(s, i, NodeName) == i + |name| && s[i..i + |name|] == name && s[i] == name[0]
  {
    hide Matches, Skip;
    CharAt(s, i, name, 0);
    if space != "" {
      CharAt(s, i + |name|, space, 0);
      NameCharsAreNoBlanks(space[0]);
    }
    SkipName(s, i, name, NodeName);
    MatchesSlice(s, i, name);
  }

  lemma {:induction false} ElementRead(s: seq<char>, i: nat, n: NodeSyntax, f: Flags)
    requires Terminated(s) && n.ElementSyntax? && Well(n, f) && Matches(s, i, NodeText(n))
    ensures i + 1 < i + |NodeText(n)| < |s| && s[i + 1] != '?' && s[i + 1] != '!'
    ensures NodeMeaning(n, f).Some? && ParseElement(s, i + 1, f) == Ok(NodeMeaning(n, f).value, i + |NodeText(n)|)
    decreases n, 2, 0
  {
    hide Matches, AttributesText, AttributesMeaning, AttributeWell, ParseElement, ParseAttributes, ParseContents, Skip, ItemsText, ClosingText;
    hide NodeMeaning, ContentsWell, ContentsText, AttributesWell, CharClass.Test, Blank, EndsAttributes;
    var c := n.contents;
    var e := i + 1 + |n.name|;
    var t := e + |n.space|;
    var a := t + |AttributesText(n.attributes)|;
    MatchesConcat(s, i, "<", n.name + (n.space + (AttributesText(n.attributes) + ContentsText(c))));
    MatchesConcat(s, i + 1, n.name, n.space + (AttributesText(n.attributes) + ContentsText(c)));
    MatchesConcat(s, e, n.space, AttributesText(n.attributes) + ContentsText(c));
    MatchesConcat(s, t, AttributesText(n.attributes), ContentsText(c));
    ContentsOpen(c);
    CharAt(s, a, ContentsText(c), 0);
    assert EndsAttributes(s[a]) && !NodeName.Test(s[a]) by { TagEnds(); }
    NoAttributesText();
    ContentsEnd(s, a, c);
    NameRead(s, i + 1, n.name, n.space);
    NameCharsAreNoBlanks(n.name[0]);
    AttributesAfter(s, e, n.space, n.attributes, f);
    ElementStep(s, i + 1, e, AttributesMeaning(n.attributes, f), a, f);
    ElementMeans(n.name, n.space, n.attributes, c, f);
    TagBodyRead(s, a, c, Node(Element, n.name, "", AttributesMeaning(n.attributes, f), []), f);
  }

  /** What follows the attributes. */
  lemma {:induction false} TagBodyRead(s: seq<char>, a: nat, c: Contents, element: Node, f: Flags)
    requires Terminated(s) && ContentsWell(c, element.name, f) && Matches(s, a, ContentsText(c))
    ensures c.Closed? ==> |ContentsText(c)| == 2 && a + 2 < |s| && s[a] == '/' && s[a + 1] == '>'
    ensures c.Open? ==> a + |ContentsText(c)| < |s| && s[a] == '>'
    ensures c.Open? ==> ParseContents(s, a + 1, element, false, f) == Ok(AbsorbItems(element, c.items, f), a + |ContentsText(c)|)
    decreases c, 1
  {
    hide Matches, ParseContents, ItemsText, ItemsWell, ClosingText, AbsorbItems, Blank;
    ContentsEnd(s, a, c);
    match c
    case Closed => CharAt(s, a, "/>", 0); CharAt(s, a, "/>", 1);
    case Open(items, space, name, after) =>
      var rest := ItemsText(items) + (space + ClosingText(name, after));
      MatchesConcat(s, a, ">", rest);
      CharAt(s, a, ">", 0);
      ItemsRead(s, a + 1, element, items, space, name, after, false, f);
  }

  lemma TagEnds()
    ensures EndsAttributes('/') && EndsAttributes('>') && EndsAttributes('?')
    ensures !NodeName.Test('/') && !NodeName.Test('>') && !NodeName.Test('?')
  {
  }

  lemma NoAttributesText()
    ensures AttributesText([]) == ""
  {
  }

  /** The contents of an element end in '>'. */
  lemma ContentsEnd(s: seq<char>, a: nat, c: Contents)
    requires Terminated(s) && Matches(s, a, ContentsText(c))
    ensures a + 1 < |s| && a + |ContentsText(c)| < |s|
  {
    hide ItemsText;
    var t := ContentsText(c);
    EndsInMark(c);
    CharAt(s, a, t, |t| - 1);
    LastIsNul(s, a + |t| - 1);
  }

  lemma EndsInMark(c: Contents)
    ensures |ContentsText(c)| >= 2 && ContentsText(c)[|ContentsText(c)| - 1] == '>'
  {
    hide ItemsText;
  }

  lemma CommentRead(s: seq<char>, i: nat, text: string, f: Flags)
    requires Terminated(s) && Free(text, "-->") && Matches(s, i, NodeText(CommentSyntax(text)))
    ensures i + 7 + |text| < |s|
    ensures ParseNode(s, i + 1, f) == Ok(NodeMeaning(CommentSyntax(text), f), i + 7 + |text|)
  {
    hide Matches, FindClose, ParseElement;
    MatchesConcat(s, i, "<!--", text + "-->");
    MatchesConcat(s, i + 4, text, "-->");
    MatchEnds(s, i + 4 + |text|, "-->");
    MatchesSlice(s, i + 4, text);
    assert "<!--" == "<" + "!--";
    MatchesConcat(s, i, "<", "!--");
    CharAt(s, i + 1, "!--", 0);
    FindPrintedClose(s, i + 4, text, "-->");
  }

  lemma CdataRead(s: seq<char>, i: nat, text: string, f: Flags)
    requires Terminated(s) && Free(text, "]]>") && Matches(s, i, NodeText(CdataSyntax(text)))
    ensures i + 12 + |text| < |s|
    ensures ParseNode(s, i + 1, f) == Ok(NodeMeaning(CdataSyntax(text), f), i + 12 + |text|)
  {
    hide Matches, FindClose, ParseElement;
    MatchesConcat(s, i, "<![CDATA[", text + "]]>");
    MatchesConcat(s, i + 9, text, "]]>");
    MatchEnds(s, i + 9 + |text|, "]]>");
    MatchesSlice(s, i + 9, text);
    assert "<![CDATA[" == "<" + "![CDATA[";
    MatchesConcat(s, i, "<", "![CDATA[");
    CharAt(s, i + 1, "![CDATA[", 0);
    CharAt(s, i + 1, "![CDATA[", 1);
    DiffersAt(s, i + 1, "!--", 1);
    FindPrintedClose(s, i + 9, text, "]]>");
  }

  lemma DoctypeRead(s: seq<char>, i: nat, blank: char, text: string, f: Flags)
    requires Terminated(s) && IsWhitespace(blank) && DoctypeBody(text, 0) && Matches(s, i, NodeText(DoctypeSyntax(blank, text)))
    ensures i + 11 + |text| < |s|
    ensures ParseNode(s, i + 1, f) == Ok(NodeMeaning(DoctypeSyntax(blank, text), f), i + 11 + |text|)
  {
    hide Matches, FindClose, ParseElement, DoctypeEnd, DoctypeBody;
    MatchesConcat(s, i, "<!DOCTYPE", [blank] + (text + ">"));
    MatchesConcat(s, i + 9, [blank], text + ">");
    MatchesConcat(s, i + 10, text, ">");
    MatchEnds(s, i + 10 + |text|, ">");
    CharAt(s, i + 10 + |text|, ">", 0);
    MatchesSlice(s, i + 10, text);
    assert "<!DOCTYPE" == "<" + "!DOCTYPE";
    MatchesConcat(s, i, "<", "!DOCTYPE");
    CharAt(s, i + 9, [blank], 0);
    CharAt(s, i + 1, "!DOCTYPE", 0);
    CharAt(s, i + 1, "!DOCTYPE", 1);
    DiffersAt(s, i + 1, "!--", 1);
    DiffersAt(s, i + 1, "![CDATA[", 1);
    DoctypeEndPrinted(s, i + 10, text, 0);
  }

  lemma OtherRead(s: seq<char>, i: nat, text: string, f: Flags)
    requires Terminated(s) && Well(OtherSyntax(text), f) && Matches(s, i, NodeText(OtherSyntax(text)))
    ensures i + 3 + |text| < |s|
    ensures ParseNode(s, i + 1, f) == Ok(None, i + 3 + |text|)
  {
    hide FindClose, ParseNode, Free, Matches;
    MatchesConcat(s, i, "<!", text + ">");
    MatchesConcat(s, i + 2, text, ">");
    MatchEnds(s, i + 2 + |text|, ">");
    CharAt(s, i, "<!", 1);
    CharAt(s, i + 2 + |text|, ">", 0);
    NotOpened(s, i + 1, text, "--");
    NotOpened(s, i + 1, text, "[CDATA[");
    NotOpened(s, i + 1, text, "DOCTYPE");
    assert "!--" == "!" + "--" && "![CDATA[" == "!" + "[CDATA[" && "!DOCTYPE" == "!" + "DOCTYPE";
    if |text| > 7 { CharAt(s, i + 2, text, 7); }
    if Matches(text, 0, "DOCTYPE") { MatchesSlice(text, 0, "DOCTYPE"); }
    FindPrintedClose(s, i + 2, text, ">");
    NodeIsOther(s, i + 1, f);
  }

  lemma NodeIsOther(s: seq<char>, i: nat, f: Flags)
    requires Terminated(s) && i < |s| && s[i] == '!'
    requires !Matches(s, i, "!--") && !Matches(s, i, "![CDATA[") && !OpensDoctype(s, i)
    ensures i + 1 < |s|
    ensures var close := FindClose(s, i + 1, ">");
      ParseNode(s, i, f) == if close.Error? then Error(close.error, close.at) else Ok(None, close.text + 1)
  {
    hide FindClose, Matches;
  }

  /** What follows "<!" opens a construct exactly if the text up to the '>' does. */
  lemma NotOpened(s: seq<char>, i: nat, text: string, word: string)
    requires Matches(s, i + 1, text) && i + 1 + |text| < |s| && s[i + 1 + |text|] == '>' && '>' !in word && s[i] == '!'
    ensures Matches(s, i, "!" + word) <==> Matches(text, 0, word)
  {
    forall k | 0 <= k < |word| ensures word[k] != '>' { assert word[k] in word; }
    NameInValue(s, i + 1, text, word);
    MatchesConcat(s, i, "!", word);
    assert s[i..i + 1] == "!";
  }

  lemma DeclarationRead(s: seq<char>, i: nat, n: NodeSyntax, f: Flags)
    requires Terminated(s) && n.DeclarationSyntax? && Well(n, f) && Matches(s, i, NodeText(n))
    ensures i + |NodeText(n)| < |s| && ParseNode(s, i + 1, f) == Ok(NodeMeaning(n, f), i + |NodeText(n)|)
  {
    hide Matches, AttributesText, AttributesMeaning, AttributeWell, ParseAttributes, Skip, FindClose, ParseElement, Blank;
    var t := i + 5 + |n.space|;
    var a := t + |AttributesText(n.attributes)|;
    MatchesConcat(s, i, "<?", n.xml + (n.space + (AttributesText(n.attributes) + "?>")));
    MatchesConcat(s, i + 2, n.xml, n.space + (AttributesText(n.attributes) + "?>"));
    MatchesConcat(s, i + 5, n.space, AttributesText(n.attributes) + "?>");
    MatchesConcat(s, t, AttributesText(n.attributes), "?>");
    MatchEnds(s, a, "?>");
    CharAt(s, a, "?>", 0);
    CharAt(s, i, "<?", 1);
    XmlOpens(s, i + 2, n.xml, n.space);
    TagEnds();
    AttributesAfter(s, i + 5, n.space, n.attributes, f);
    SkipTail(s, i + 5, Whitespace);
  }

  lemma XmlOpens(s: seq<char>, i: nat, xml: string, space: string)
    requires Terminated(s) && SpellsXml(xml) && Matches(s, i, xml) && Matches(s, i + 3, space) && space != ""
    requires IsWhitespace(space[0]) || Blank(space)
    ensures i + 3 < |s| && OpensDeclaration(s, i) && Whitespace.Test(s[i + 3])
  {
    CharAt(s, i, xml, 0);
    CharAt(s, i, xml, 1);
    CharAt(s, i, xml, 2);
    CharAt(s, i + 3, space, 0);
  }

  lemma SkippedDeclarationRead(s: seq<char>, i: nat, n: NodeSyntax, f: Flags)
    requires Terminated(s) && n.SkippedDeclaration? && Well(n, f) && Matches(s, i, NodeText(n))
    ensures i + |NodeText(n)| < |s| && ParseNode(s, i + 1, f) == Ok(None, i + |NodeText(n)|)
  {
    hide Matches, Skip, FindClose, ParseElement, ParseAttributes, Free;
    MatchesConcat(s, i, "<?", n.xml + ([n.blank] + (n.text + "?>")));
    MatchesConcat(s, i + 2, n.xml, [n.blank] + (n.text + "?>"));
    MatchesConcat(s, i + 5, [n.blank], n.text + "?>");
    MatchesConcat(s, i + 6, n.text, "?>");
    MatchEnds(s, i + 6 + |n.text|, "?>");
    CharAt(s, i, "<?", 1);
    XmlOpens(s, i + 2, n.xml, [n.blank]);
    FindPrintedClose(s, i + 6, n.text, "?>");
  }

  lemma PiRead(s: seq<char>, i: nat, n: NodeSyntax, f: Flags)
    requires Terminated(s) && n.PiSyntax? && Well(n, f) && Matches(s, i, NodeText(n))
    ensures i + |NodeText(n)| < |s| && ParseNode(s, i + 1, f) == Ok(NodeMeaning(n, f), i + |NodeText(n)|)
  {
    hide Matches, Free, IsName, SpellsXml, OpensDeclaration, Blank, NodeName.Test, ParseNode, ParsePi;
    var e := i + 2 + |n.target|;
    MatchesConcat(s, i, "<?", n.target + (n.space + (n.text + "?>")));
    MatchesConcat(s, i + 2, n.target, n.space + (n.text + "?>"));
    MatchesConcat(s, e, n.space, n.text + "?>");
    CharAt(s, i, "<?", 1);
    NameIsNotEmpty(n.target);
    TargetRead(s, i + 2, n.target, n.space, n.text, f);
    NodeIsPi(s, i + 1, f);
  }

  /** An instruction from its target. */
  lemma TargetRead(s: seq<char>, i: nat, target: string, space: string, text: string, f: Flags)
    requires Terminated(s) && f.piNodes && IsName(target, NodeName) && Blank(space) && Free(text, "?>")
    requires SpellsXml(target) ==> space == ""
    requires text != "" ==> !IsWhitespace(text[0]) && (space == "" ==> !NodeName.Test(text[0]))
    requires Matches(s, i, target) && Matches(s, i + |target|, space) && Matches(s, i + |target| + |space|, text + "?>")
    ensures var end := i + |target| + |space| + |text + "?>"|;
      end < |s| && !OpensDeclaration(s, i) && ParsePi(s, i, f) == Ok(Some(Leaf(Pi, target, text)), end)
  {
    hide Matches, Skip, FindClose, Free, IsName, SpellsXml, OpensDeclaration, Blank, NodeName.Test;
    var e := i + |target|;
    var v := e + |space|;
    MatchesConcat(s, v, text, "?>");
    MatchEnds(s, v + |text|, "?>");
    CharAt(s, v + |text|, "?>", 0);
    if text != "" { CharAt(s, v, text, 0); }
    TagEnds();
    NameRead(s, i, target, space);
    SkipBlank(s, e, space);
    NoDeclaration(s, i, target, space);
    MatchesSlice(s, v, text);
    FindPrintedClose(s, v, text, "?>");
    NameIsNotEmpty(target);
  }

  lemma NodeIsPi(s: seq<char>, i: nat, f: Flags)
    requires Terminated(s) && i + 1 < |s| && s[i] == '?' && !OpensDeclaration(s, i + 1)
    ensures ParseNode(s, i, f) == ParsePi(s, i + 1, f)
  {
    hide ParsePi, OpensDeclaration;
  }

  lemma NameIsNotEmpty(name: string)
    requires IsName(name, NodeName)
    ensures |name| > 0
  {
  }

  /** A target opens a declaration only if it spells "xml" and blanks follow. */
  lemma NoDeclaration(s: seq<char>, i: nat, target: string, space: string)
    requires Terminated(s) && IsName(target, NodeName) && Blank(space) && Matches(s, i, target) && Matches(s, i + |target|, space)
    requires !(SpellsXml(target) && space != "") && i + |target| + |space| < |s|
    requires space == "" ==> !IsWhitespace(s[i + |target|])
    requires !NodeName.Test(s[i + |target|])
    ensures i < |s| && !OpensDeclaration(s, i)
  {
    hide Matches;
    CharAt(s, i, target, 0);
    if |target| > 1 { CharAt(s, i, target, 1); }
    if |target| > 2 { CharAt(s, i, target, 2); }
    if |target| > 3 { CharAt(s, i, target, 3); }
    assert !NodeName.Test(s[i + |target|]);
  }

  lemma SkippedPiRead(s: seq<char>, i: nat, n: NodeSyntax, f: Flags)
    requires Terminated(s) && n.SkippedPi? && Well(n, f) && Matches(s, i, NodeText(n))
    ensures i + |NodeText(n)| < |s| && ParseNode(s, i + 1, f) == Ok(None, i + |NodeText(n)|)
  {
    hide Skip, FindClose, ParseElement, Free;
    MatchesConcat(s, i, "<?", n.text + "?>");
    MatchesConcat(s, i + 2, n.text, "?>");
    MatchEnds(s, i + 2 + |n.text|, "?>");
    CharAt(s, i, "<?", 1);
    CharAt(s, i + 2 + |n.text|, "?>", 0);
    NotXml(s, i + 2, n.text);
    FindPrintedClose(s, i + 2, n.text, "?>");
  }

  /** Text up to a '?' opens a declaration exactly if it starts like one. */
  lemma NotXml(s: seq<char>, i: nat, text: string)
    requires Terminated(s) && Matches(s, i, text) && i + |text| < |s| && s[i + |text|] == '?'
    ensures OpensDeclaration(s, i) <==> OpensXml(text)
  {
    hide Matches;
    if |text| > 0 { CharAt(s, i, text, 0); }
    if |text| > 1 { CharAt(s, i, text, 1); }
    if |text| > 2 { CharAt(s, i, text, 2); }
    if |text| > 3 { CharAt(s, i, text, 3); }
  }

  /** A well-spelled node is read as what it means, up to its end, at any place in any text. */
  lemma {:induction false} NodeRead(s: seq<char>, i: nat, n: NodeSyntax, f: Flags)
    requires Terminated(s) && Well(n, f) && Matches(s, i, NodeText(n))
    ensures i + 1 < i + |NodeText(n)| < |s|
    ensures ParseNode(s, i + 1, f) == Ok(NodeMeaning(n, f), i + |NodeText(n)|)
    decreases n, 2, 1
  {
    NodeOpens(n, f);
    match n
    case ElementSyntax(_, _, _, _) =>
      hide NodeText, ParseElement, Well;
      ElementRead(s, i, n, f);
      NodeIsElement(s, i + 1, f);
    case CommentSyntax(text) => hide ParseNode, Free; CommentRead(s, i, text, f);
    case CdataSyntax(text) => hide ParseNode, Free; CdataRead(s, i, text, f);
    case DoctypeSyntax(blank, text) => hide ParseNode, DoctypeBody; DoctypeRead(s, i, blank, text, f);
    case DeclarationSyntax(_, _, _) => hide ParseNode, NodeText, Well; DeclarationRead(s, i, n, f);
    case SkippedDeclaration(_, _, _) => hide ParseNode, NodeText, Well; SkippedDeclarationRead(s, i, n, f);
    case PiSyntax(_, _, _) => hide ParseNode, NodeText, Well; PiRead(s, i, n, f);
    case SkippedPi(_) => hide ParseNode, NodeText, Well; SkippedPiRead(s, i, n, f);
    case OtherSyntax(text) => hide ParseNode, Free; OtherRead(s, i, text, f);
  }

  lemma NodeIsElement(s: seq<char>, i: nat, f: Flags)
    requires Terminated(s) && i < |s| && s[i] != '?' && s[i] != '!'
    ensures ParseNode(s, i, f) ==
            var e := ParseElement(s, i, f); if e.Error? then Error(e.error, e.at) else Ok(Some(e.value), e.text)
  {
    hide ParseElement;
  }
}
