/** Every error the parser reports stands where what it names is missing. */
module XmlErrors {
  import opened XmlChars
  import opened XmlGrammar
  import opened XmlReferences

  /** What the text must look like where an error is reported. */
  predicate Tells(s: seq<char>, error: ParseError, at: nat) {
    match error
    case ExpectedLess => at < |s| && s[at] != '<' && s[at] != NUL && !IsWhitespace(s[at])
    case ExpectedGreater => at < |s| && s[at] != '>'
    case ExpectedElementName => 0 < at < |s| && s[at - 1] == '<' && !NodeName.Test(s[at])
    case ExpectedEquals => at < |s| && s[at] != '=' && !IsWhitespace(s[at])
    case ExpectedQuote => at < |s| && s[at] != '\'' && s[at] != '"' && !IsWhitespace(s[at])
    case ExpectedSemicolon => at < |s| && s[at] != ';' && Digit(s[at]) == 255
    case ExpectedDeclarationEnd => at < |s| && !Matches(s, at, "?>")
    case ExpectedPiTarget => 0 < at < |s| && s[at - 1] == '?' && !NodeName.Test(s[at])
    case InvalidClosingTag => at < |s| && !NodeName.Test(s[at])
    case InvalidNumericEntity => true
    case UnexpectedEnd => at < |s| && s[at] == NUL
  }

  predicate ErrorTells<T>(s: seq<char>, r: Outcome<T>) { r.Error? ==> Tells(s, r.error, r.at) }

  lemma {:induction false} DigitsEnd(s: seq<char>, i: nat, radix: nat, code: nat, f: Flags)
    requires Terminated(s) && i < |s| && code < CodeRange(f)
    ensures Digit(s[ScanDigits(s, i, radix, code, f).1]) == 255
    decreases |s| - i
  {
    hide Digit;
    if Digit(s[i]) != 255 { DigitsEnd(s, i + 1, radix, (code * radix + Digit(s[i])) % CodeRange(f), f); }
  }

  lemma UnitTells(s: seq<char>, i: nat, dest: nat, f: Flags, normalize: bool)
    requires Terminated(s) && i + 1 < |s|
    ensures ErrorTells(s, Unit(s, i, dest, f, normalize))
  {
    hide ScanDigits, Coded, Digit, NamedReference, Skip;
    if s[i] == '&' && s[i + 1] == '#' {
      var hex := s[i + 2] == 'x';
      DigitsEnd(s, if hex then i + 3 else i + 2, if hex then 16 else 10, 0, f);
    }
  }

  lemma {:induction false} ExpandTells(s: seq<char>, i: nat, dest: nat, stop: CharClass, f: Flags, normalize: bool)
    requires Terminated(s) && i < |s|
    ensures ErrorTells(s, Expand(s, i, dest, stop, f, normalize))
    decreases |s| - i
  {
    hide Unit, CharClass.Test;
    StopsAtEnd(stop);
    if stop.Test(s[i]) {
      UnitTells(s, i, dest, f, normalize);
      var u := Unit(s, i, dest, f, normalize);
      if u.Ok? { ExpandTells(s, u.text, dest + |u.value|, stop, f, normalize); }
    }
  }

  lemma {:induction false} AttributesTell(s: seq<char>, i: nat, done: seq<Attribute>, f: Flags)
    requires Terminated(s) && i < |s|
    ensures ErrorTells(s, ParseAttributes(s, i, done, f))
    decreases |s| - i
  {
    hide ParseOneAttribute;
    if AttributeName.Test(s[i]) {
      AttributeTells(s, i, f);
      var a := ParseOneAttribute(s, i, f);
      if a.Ok? { AttributesTell(s, a.text, done + [a.value], f); }
    }
  }

  lemma AttributeTells(s: seq<char>, i: nat, f: Flags)
    requires Terminated(s) && i < |s| && AttributeName.Test(s[i])
    ensures ErrorTells(s, ParseOneAttribute(s, i, f))
  {
    hide Expand, Skip, AttributeHead, AttributeTail;
    HeadTells(s, i);
    var name := AttributeHead(s, i);
    if name.Ok? { ValueTells(s, name.text, f); }
  }

  lemma HeadTells(s: seq<char>, i: nat)
    requires Terminated(s) && i < |s| && AttributeName.Test(s[i])
    ensures ErrorTells(s, AttributeHead(s, i))
  {
    hide Skip;
    assert forall c :: Whitespace.Test(c) == IsWhitespace(c);
  }

  lemma ValueTells(s: seq<char>, open: nat, f: Flags)
    requires Terminated(s) && open + 1 < |s| && (s[open] == '\'' || s[open] == '"')
    ensures ErrorTells(s, AttributeTail(s, open, f))
  {
    hide Skip, Expand;
    ExpandTells(s, open + 1, open + 1, QuoteClass(s[open]), f, false);
  }

  lemma {:induction false} DoctypeTells(s: seq<char>, i: nat, depth: nat)
    requires Terminated(s) && i < |s|
    ensures ErrorTells(s, DoctypeEnd(s, i, depth))
    decreases |s| - i
  {
    if !(depth == 0 && s[i] == '>') && s[i] != NUL {
      DoctypeTells(s, i + 1, if s[i] == '[' then depth + 1 else if s[i] == ']' && depth > 0 then depth - 1 else depth);
    }
  }

  lemma DeclarationTells(s: seq<char>, i: nat, f: Flags)
    requires Terminated(s) && i < |s|
    ensures ErrorTells(s, ParseDeclaration(s, i, f))
  {
    hide ParseAttributes, Skip, FindClose, Matches;
    AttributesTell(s, Skip(s, i, Whitespace), [], f);
  }

  lemma PiTells(s: seq<char>, i: nat, f: Flags)
    requires Terminated(s) && 0 < i < |s| && s[i - 1] == '?'
    ensures ErrorTells(s, ParsePi(s, i, f))
  {
    hide Skip, FindClose;
  }

  lemma {:induction false} NodeTells(s: seq<char>, i: nat, f: Flags)
    requires Terminated(s) && 0 < i < |s| && s[i - 1] == '<'
    ensures ErrorTells(s, ParseNode(s, i, f))
    decreases |s| - i, 2
  {
    hide ParseElement, ParseDeclaration, ParsePi, FindClose, DoctypeEnd, Matches;
    if s[i] == '?' {
      if OpensDeclaration(s, i + 1) { DeclarationTells(s, i + 5, f); } else { PiTells(s, i + 1, f); }
    } else if s[i] == '!' {
      if OpensDoctype(s, i) { DoctypeTells(s, i + 9, 0); }
    } else {
      ElementTells(s, i, f);
    }
  }

  lemma {:induction false} ElementTells(s: seq<char>, i: nat, f: Flags)
    requires Terminated(s) && 0 < i < |s| && s[i - 1] == '<'
    ensures ErrorTells(s, ParseElement(s, i, f))
    decreases |s| - i, 1
  {
    hide ParseAttributes, ParseContents, Skip;
    var nameEnd := Skip(s, i, NodeName);
    var t := Skip(s, nameEnd, Whitespace);
    AttributesTell(s, t, [], f);
    var a := ParseAttributes(s, t, [], f);
    if nameEnd > i && a.Ok? && s[a.text] == '>' {
      ContentsTell(s, a.text + 1, Node(Element, s[i..nameEnd], "", a.value, []), false, f);
    }
  }

  lemma {:induction false} ContentsTell(s: seq<char>, i: nat, element: Node, afterData: bool, f: Flags)
    requires Terminated(s) && i < |s| && (afterData ==> !Text.Test(s[i]))
    ensures ErrorTells(s, ParseContents(s, i, element, afterData, f))
    decreases |s| - i, 0
  {
    hide ParseNode, ParseClosing, Skip, Expand, AddChild, AddData;
    var next := if afterData then i else Skip(s, i, Whitespace);
    if s[next] == '<' {
      if s[next + 1] == '/' {
        ClosingTells(s, next + 2, element, f);
      } else {
        NodeTells(s, next + 1, f);
        var child := ParseNode(s, next + 1, f);
        if child.Ok? { ContentsTell(s, child.text, AddChild(element, child.value), false, f); }
      }
    } else if s[next] != NUL {
      assert Text.Test(s[i]) by { if i < next { assert Whitespace.Test(s[i]); } }
      ExpandTells(s, i, i, Text, f, f.normalizeWhitespace);
      var data := Expand(s, i, i, Text, f, f.normalizeWhitespace);
      if data.Ok? { ContentsTell(s, data.text, AddData(element, data.value, f), true, f); }
    }
  }

  lemma ClosingTells(s: seq<char>, i: nat, element: Node, f: Flags)
    requires Terminated(s) && i < |s|
    ensures ErrorTells(s, ParseClosing(s, i, element, f))
  {
    hide Skip;
  }

  lemma {:induction false} NodesTell(s: seq<char>, i: nat, document: Node, f: Flags)
    requires Terminated(s) && i < |s|
    ensures ErrorTells(s, ParseNodes(s, i, document, f))
    decreases |s| - i
  {
    hide ParseNode, AddChild, Skip;
    var next := Skip(s, i, Whitespace);
    if s[next] == '<' {
      NodeTells(s, next + 1, f);
      var child := ParseNode(s, next + 1, f);
      if child.Ok? { NodesTell(s, child.text, AddChild(document, child.value), f); }
    }
  }

  /** For every text. */
  lemma ParseTells(s: seq<char>, f: Flags)
    requires Terminated(s)
    ensures ErrorTells(s, Parse(s, f))
  {
    NodesTell(s, AfterBom(s), Leaf(Document, "", ""), f);
  }
}
