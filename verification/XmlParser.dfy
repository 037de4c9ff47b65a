/** The parser that works inside the caller's buffer. Names and values are spans of that buffer; the
    buffer is decoded and NUL-terminated in place. Each method's outcome is the reference parser's on
    the untouched text s, of which the buffer still holds the unread part. */
module XmlParser {
  import opened Options
  import opened XmlChars
  import opened XmlGrammar
  import opened XmlReferences

  // ---------------------------------------------------------------------------------------------
  // Trees of spans

  /** A name or value pointer with its size, or the null pointer. */
  datatype Span = NoText | Span(at: nat, size: nat)

  datatype SpanAttribute = SpanAttribute(name: Span, value: Span)

  datatype SpanNode = SpanNode(
    kind: NodeKind,
    name: Span,
    value: Span,
    attributes: seq<SpanAttribute>,
    children: seq<SpanNode>)

  /** The span reads as x in b, lies in [lo, hi) together with the cell after it, and that cell is
      NUL when strings are terminated. */
  ghost predicate Holds(p: Span, x: string, b: seq<char>, lo: nat, hi: nat, terminate: bool) {
    match p
    case NoText => x == ""
    case Span(at, size) =>
      && lo <= at && at + size < hi <= |b|
      && b[at..at + size] == x
      && (terminate ==> b[at + size] == NUL)
  }

  /** A processing instruction's value starting right where its terminated name ends lost its first
      character to the name's terminator. */
  predicate Abuts(name: Span, value: Span) {
    name.Span? && value.Span? && value.size > 0 && name.at + name.size == value.at
  }

  function Clobbered(x: string): string {
    if x == "" then "" else [NUL] + x[1..]
  }

  ghost predicate HoldsValue(p: SpanNode, n: Node, b: seq<char>, lo: nat, hi: nat, terminate: bool) {
    var lost := n.kind == Pi && terminate && Abuts(p.name, p.value);
    && Holds(p.value, if lost then Clobbered(n.value) else n.value, b, lo, hi, terminate)
    // an element's value is never an empty span
    && (n.kind == Element && p.value.Span? ==> p.value.size > 0)
  }

  ghost predicate HoldsAttributes(p: seq<SpanAttribute>, a: seq<Attribute>, b: seq<char>, lo: nat, hi: nat, terminate: bool) {
    && |p| == |a|
    && forall k | 0 <= k < |p| ::
         && Holds(p[k].name, a[k].name, b, lo, hi, terminate)
         && Holds(p[k].value, a[k].value, b, lo, hi, terminate)
  }

  ghost predicate HoldsChildren(p: seq<SpanNode>, n: seq<Node>, b: seq<char>, lo: nat, hi: nat, terminate: bool)
    decreases p
  {
    && |p| == |n|
    && forall k | 0 <= k < |p| :: HoldsNode(p[k], n[k], b, lo, hi, terminate)
  }

  /** Everything of the node but its name. */
  ghost predicate HoldsBody(p: SpanNode, n: Node, b: seq<char>, lo: nat, hi: nat, terminate: bool)
    decreases p, 0
  {
    && p.kind == n.kind
    && HoldsValue(p, n, b, lo, hi, terminate)
    && HoldsAttributes(p.attributes, n.attributes, b, lo, hi, terminate)
    && HoldsChildren(p.children, n.children, b, lo, hi, terminate)
  }

  /** The tree of spans reads as the tree n in b, all within [lo, hi). */
  ghost predicate HoldsNode(p: SpanNode, n: Node, b: seq<char>, lo: nat, hi: nat, terminate: bool)
    decreases p, 1
  {
    && Holds(p.name, n.name, b, lo, hi, terminate)
    && HoldsBody(p, n, b, lo, hi, terminate)
  }

  lemma HoldsFrame(p: Span, x: string, b: seq<char>, c: seq<char>, lo: nat, hi: nat, lo': nat, hi': nat, terminate: bool)
    requires Holds(p, x, b, lo, hi, terminate) && AgreesOn(c, b, lo, hi) && lo' <= lo && hi <= hi' <= |c|
    ensures Holds(p, x, c, lo', hi', terminate)
  {
    if p.Span? { assert c[p.at..p.at + p.size] == b[p.at..p.at + p.size]; }
  }

  lemma AttributesFrame(p: seq<SpanAttribute>, a: seq<Attribute>, b: seq<char>, c: seq<char>,
                        lo: nat, hi: nat, lo': nat, hi': nat, terminate: bool)
    requires HoldsAttributes(p, a, b, lo, hi, terminate) && AgreesOn(c, b, lo, hi) && lo' <= lo && hi <= hi' <= |c|
    ensures HoldsAttributes(p, a, c, lo', hi', terminate)
  {
    hide Holds, AgreesOn;
    forall k | 0 <= k < |p|
      ensures Holds(p[k].name, a[k].name, c, lo', hi', terminate) && Holds(p[k].value, a[k].value, c, lo', hi', terminate)
    {
      HoldsFrame(p[k].name, a[k].name, b, c, lo, hi, lo', hi', terminate);
      HoldsFrame(p[k].value, a[k].value, b, c, lo, hi, lo', hi', terminate);
    }
  }

  /** Changes outside its region, and a wider region, leave a tree as it reads. */
  lemma {:induction false} BodyFrame(p: SpanNode, n: Node, b: seq<char>, c: seq<char>,
                                     lo: nat, hi: nat, lo': nat, hi': nat, terminate: bool)
    requires HoldsBody(p, n, b, lo, hi, terminate) && AgreesOn(c, b, lo, hi) && lo' <= lo && hi <= hi' <= |c|
    ensures HoldsBody(p, n, c, lo', hi', terminate)
    decreases p, 0
  {
    hide Holds, AgreesOn, HoldsAttributes;
    var lost := n.kind == Pi && terminate && Abuts(p.name, p.value);
    HoldsFrame(p.value, if lost then Clobbered(n.value) else n.value, b, c, lo, hi, lo', hi', terminate);
    AttributesFrame(p.attributes, n.attributes, b, c, lo, hi, lo', hi', terminate);
    forall k | 0 <= k < |p.children| ensures HoldsNode(p.children[k], n.children[k], c, lo', hi', terminate) {
      NodeFrame(p.children[k], n.children[k], b, c, lo, hi, lo', hi', terminate);
    }
  }

  lemma {:induction false} NodeFrame(p: SpanNode, n: Node, b: seq<char>, c: seq<char>,
                                     lo: nat, hi: nat, lo': nat, hi': nat, terminate: bool)
    requires HoldsNode(p, n, b, lo, hi, terminate) && AgreesOn(c, b, lo, hi) && lo' <= lo && hi <= hi' <= |c|
    ensures HoldsNode(p, n, c, lo', hi', terminate)
    decreases p, 1
  {
    hide Holds, AgreesOn, HoldsBody;
    HoldsFrame(p.name, n.name, b, c, lo, hi, lo', hi', terminate);
    BodyFrame(p, n, b, c, lo, hi, lo', hi', terminate);
  }

  /** Adding one more child to an element read so far. */
  lemma BodyWithChild(p: SpanNode, n: Node, q: SpanNode, m: Node, b: seq<char>, lo: nat, hi: nat, terminate: bool)
    requires HoldsBody(p, n, b, lo, hi, terminate) && HoldsNode(q, m, b, lo, hi, terminate) && n.kind != Pi
    ensures HoldsBody(p.(children := p.children + [q]), n.(children := n.children + [m]), b, lo, hi, terminate)
  {
    hide Holds, HoldsAttributes;
    var ps, ns := p.children + [q], n.children + [m];
    forall k | 0 <= k < |ps| ensures HoldsNode(ps[k], ns[k], b, lo, hi, terminate) {
      if k < |p.children| { assert HoldsNode(p.children[k], n.children[k], b, lo, hi, terminate); }
    }
  }

  // ---------------------------------------------------------------------------------------------
  // What every step leaves

  /** The modes in which the buffer must stay as it is. */
  predicate NonDestructive(f: Flags, terminate: bool) {
    !terminate && f.noEntityTranslation && !f.normalizeWhitespace
  }

  /** Nothing before text0 changed; nothing at all in the non-destructive modes. */
  ghost predicate Untouched(before: seq<char>, after: seq<char>, text0: nat, f: Flags, terminate: bool) {
    && |before| == |after|
    && AgreesOn(after, before, 0, text0)
    && (NonDestructive(f, terminate) ==> after == before)
  }

  /** A step's outcome against the reference parser's: the same error, or the same text position with
      the unread text intact and a tree of spans that reads as the reference tree. */
  ghost predicate NodeDone(after: seq<char>, s: seq<char>, lo: nat, spec: Outcome<Option<Node>>,
                           r: Outcome<Option<SpanNode>>, terminate: bool)
  {
    if spec.Error? then r == Error(spec.error, spec.at)
    else
      && r.Ok? && r.text == spec.text && AgreesFrom(after, s, spec.text)
      && (spec.value.None? ==> r.value == None)
      && (spec.value.Some? ==>
           r.value.Some? && HoldsNode(r.value.value, spec.value.value, after, lo, spec.text, terminate))
  }

  ghost predicate BodyDone(after: seq<char>, s: seq<char>, lo: nat, spec: Outcome<Node>,
                           r: Outcome<SpanNode>, name: Span, terminate: bool)
  {
    if spec.Error? then r == Error(spec.error, spec.at)
    else
      && r.Ok? && r.text == spec.text && AgreesFrom(after, s, spec.text)
      && r.value.name == name && HoldsBody(r.value, spec.value, after, lo, spec.text, terminate)
  }

  // ---------------------------------------------------------------------------------------------
  // Attributes

  ghost predicate AttributesDone(after: seq<char>, s: seq<char>, lo: nat, spec: Outcome<seq<Attribute>>,
                                 r: Outcome<seq<SpanAttribute>>, terminate: bool)
  {
    if spec.Error? then r == Error(spec.error, spec.at)
    else
      && r.Ok? && r.text == spec.text && AgreesFrom(after, s, spec.text)
      && HoldsAttributes(r.value, spec.value, after, lo, spec.text, terminate)
  }

  /** A string was read: its span reads as the string and lies between lo and the advanced text. */
  ghost predicate SpanDone(after: seq<char>, s: seq<char>, lo: nat, spec: Outcome<string>,
                           r: Outcome<Span>, terminate: bool)
  {
    if spec.Error? then r == Error(spec.error, spec.at)
    else
      && r.Ok? && r.text == spec.text && AgreesFrom(after, s, spec.text)
      && Holds(r.value, spec.value, after, lo, spec.text, terminate)
  }

  method ParseAttributeName(buf: array<char>, text0: nat, f: Flags, terminate: bool, ghost s: seq<char>)
    returns (r: Outcome<Span>)
    requires Terminated(s) && text0 < |s| && AgreesFrom(buf[..], s, text0) && AttributeName.Test(s[text0])
    modifies buf
    ensures Untouched(old(buf[..]), buf[..], text0, f, terminate)
    ensures SpanDone(buf[..], s, text0, AttributeHead(s, text0), r, terminate)
  {
    assert text0 + 1 < |s|;
    hide Skip, CharClass.Test, SpanDone;
    var nameEnd := SkipInPlace(buf, text0 + 1, AttributeName, s);
    var text := SkipInPlace(buf, nameEnd, Whitespace, s);
    if buf[text] != '=' {
      NoName(buf[..], s, text0, ExpectedEquals, text, terminate);
      return Error(ExpectedEquals, text);
    }
    r := ParseOpeningQuote(buf, text0, nameEnd, text + 1, f, terminate, s);
  }

  lemma NoName(after: seq<char>, s: seq<char>, lo: nat, error: ParseError, at: nat, terminate: bool)
    ensures SpanDone(after, s, lo, Error(error, at), Error(error, at), terminate)
  {
  }

  /** From the '=' after an attribute's name [text0, nameEnd) to the quote; the terminator lands on or before
      the '='. */
  method ParseOpeningQuote(buf: array<char>, text0: nat, nameEnd: nat, text1: nat, f: Flags, terminate: bool,
                           ghost s: seq<char>) returns (r: Outcome<Span>)
    requires Terminated(s) && text0 < nameEnd < text1 < |s| && AgreesFrom(buf[..], s, text0)
    modifies buf
    ensures Untouched(old(buf[..]), buf[..], text0, f, terminate)
    ensures var open := Skip(s, text1, Whitespace);
      var spec := if s[open] != '\'' && s[open] != '"' then Error(ExpectedQuote, open) else Ok(s[text0..nameEnd], open);
      SpanDone(buf[..], s, text0, spec, r, terminate)
  {
    hide Skip, CharClass.Test, Holds;
    if terminate { buf[nameEnd] := NUL; }
    var text := SkipInPlace(buf, text1, Whitespace, s);
    if buf[text] != '\'' && buf[text] != '"' { return Error(ExpectedQuote, text); }
    HoldsSlice(buf[..], s, text0, nameEnd, text0, text, terminate);
    return Ok(Span(text0, nameEnd - text0), text);
  }

  method ParseAttributeValue(buf: array<char>, open: nat, f: Flags, terminate: bool, ghost s: seq<char>)
    returns (r: Outcome<Span>)
    requires Terminated(s) && open + 1 < |s| && AgreesFrom(buf[..], s, open) && (s[open] == '\'' || s[open] == '"')
    modifies buf
    ensures Untouched(old(buf[..]), buf[..], open + 1, f, terminate)
    ensures SpanDone(buf[..], s, open + 1, AttributeTail(s, open, f), r, terminate)
  {
    hide Expand, Skip, CharClass.Test;
    var quote := buf[open];
    var value := open + 1;
    var end := ExpandAttributeValue(buf, value, quote, f, s);
    if end.Error? { return Error(end.error, end.at); }
    var text := end.text;
    if buf[text] != quote { return Error(ExpectedQuote, text); }
    text := text + 1;
    ghost var decoded := buf[value..end.value];
    if terminate {
      buf[end.value] := NUL;
      assert buf[value..end.value] == decoded;
    }
    text := SkipInPlace(buf, text, Whitespace, s);
    return Ok(Span(value, end.value - value), text);
  }

  ghost predicate AttributeDone(after: seq<char>, s: seq<char>, lo: nat, spec: Outcome<Attribute>,
                                r: Outcome<SpanAttribute>, terminate: bool)
  {
    if spec.Error? then r == Error(spec.error, spec.at)
    else
      && r.Ok? && r.text == spec.text && AgreesFrom(after, s, spec.text)
      && Holds(r.value.name, spec.value.name, after, lo, spec.text, terminate)
      && Holds(r.value.value, spec.value.value, after, lo, spec.text, terminate)
  }

  /** One attribute; its spans and both terminators lie between text0 and the advanced text. */
  method ParseAttributeInPlace(buf: array<char>, text0: nat, f: Flags, terminate: bool, ghost s: seq<char>)
    returns (r: Outcome<SpanAttribute>)
    requires Terminated(s) && text0 < |s| && AgreesFrom(buf[..], s, text0) && AttributeName.Test(s[text0])
    modifies buf
    ensures Untouched(old(buf[..]), buf[..], text0, f, terminate)
    ensures AttributeDone(buf[..], s, text0, ParseOneAttribute(s, text0, f), r, terminate)
  {
    hide Holds, AttributeHead, AttributeTail, CharClass.Test;
    var name := ParseAttributeName(buf, text0, f, terminate, s);
    if name.Error? { return Error(name.error, name.at); }
    ghost var named, head := buf[..], AttributeHead(s, text0);
    var value := ParseAttributeValue(buf, name.text, f, terminate, s);
    if value.Error? { return Error(value.error, value.at); }
    HoldsFrame(name.value, head.value, named, buf[..], text0, name.text, text0, value.text, terminate);
    HoldsFrame(value.value, AttributeTail(s, name.text, f).value, buf[..], buf[..],
               name.text + 1, value.text, text0, value.text, terminate);
    return Ok(SpanAttribute(name.value, value.value), value.text);
  }

  /** The value between quotes: decoded in place, never normalized. */
  method ExpandAttributeValue(buf: array<char>, text: nat, quote: char, f: Flags, ghost s: seq<char>)
    returns (r: Outcome<nat>)
    requires Terminated(s) && text < |s| && AgreesFrom(buf[..], s, text)
    modifies buf
    ensures f.noEntityTranslation ==> buf[..] == old(buf[..])
    ensures StepDone(old(buf[..]), buf[..], s, text, Expand(s, text, text, QuoteClass(quote), f, false), r)
  {
    r := SkipAndExpandCharacterRefs(buf, text, AttributeData(quote), AttributeDataPure(quote), f, false, s);
  }

  method ParseNodeAttributes(buf: array<char>, text0: nat, f: Flags, terminate: bool, ghost s: seq<char>)
    returns (r: Outcome<seq<SpanAttribute>>)
    requires Terminated(s) && text0 < |s| && AgreesFrom(buf[..], s, text0)
    modifies buf
    ensures Untouched(old(buf[..]), buf[..], text0, f, terminate)
    ensures AttributesDone(buf[..], s, text0, ParseAttributes(s, text0, [], f), r, terminate)
    ensures r.Ok? && !AttributeName.Test(s[text0]) ==> r.value == []
  {
    hide Holds, ParseOneAttribute;
    var text := text0;
    var attributes: seq<SpanAttribute> := [];
    ghost var done: seq<Attribute> := [];
    while AttributeName.Test(buf[text])
      invariant text0 <= text < |s| == buf.Length && AgreesFrom(buf[..], s, text)
      invariant Untouched(old(buf[..]), buf[..], text0, f, terminate)
      invariant ParseAttributes(s, text0, [], f) == ParseAttributes(s, text, done, f)
      invariant HoldsAttributes(attributes, done, buf[..], text0, text, terminate)
      invariant !AttributeName.Test(s[text0]) ==> text == text0 && attributes == []
      decreases |s| - text
    {
      ghost var before, text1 := buf[..], text;
      var a := ParseAttributeInPlace(buf, text, f, terminate, s);
      if a.Error? { return Error(a.error, a.at); }
      text := a.text;
      AttributesFrame(attributes, done, before, buf[..], text0, text1, text0, text, terminate);
      ghost var x := ParseOneAttribute(s, text1, f).value;
      HoldsFrame(a.value.name, x.name, buf[..], buf[..], text1, text, text0, text, terminate);
      HoldsFrame(a.value.value, x.value, buf[..], buf[..], text1, text, text0, text, terminate);
      attributes, done := attributes + [a.value], done + [x];
    }
    return Ok(attributes, text);
  }

  // ---------------------------------------------------------------------------------------------
  // Nodes that hold no nodes

  /** Advances text to a two-character mark. */
  method SkipToTwo(buf: array<char>, text0: nat, c0: char, c1: char, ghost s: seq<char>) returns (r: Outcome<()>)
    requires Terminated(s) && text0 < |s| && AgreesFrom(buf[..], s, text0) && c0 != NUL && c1 != NUL
    ensures r == FindClose(s, text0, [c0, c1])
  {
    hide Matches;
    var text := text0;
    while buf[text] != c0 || buf[text + 1] != c1
      invariant text0 <= text < |s| && FindClose(s, text0, [c0, c1]) == FindClose(s, text, [c0, c1])
      decreases |s| - text
    {
      MatchesTwo(s, text, [c0, c1]);
      if buf[text] == NUL { return Error(UnexpectedEnd, text); }
      text := text + 1;
    }
    MatchesTwo(s, text, [c0, c1]);
    return Ok((), text);
  }

  /** Advances text to a three-character mark. */
  method SkipToThree(buf: array<char>, text0: nat, c0: char, c1: char, c2: char, ghost s: seq<char>)
    returns (r: Outcome<()>)
    requires Terminated(s) && text0 < |s| && AgreesFrom(buf[..], s, text0) && c0 != NUL && c1 != NUL && c2 != NUL
    ensures r == FindClose(s, text0, [c0, c1, c2])
  {
    hide Matches;
    var text := text0;
    while buf[text] != c0 || buf[text + 1] != c1 || buf[text + 2] != c2
      invariant text0 <= text < |s| && FindClose(s, text0, [c0, c1, c2]) == FindClose(s, text, [c0, c1, c2])
      decreases |s| - text
    {
      MatchesThree(s, text, [c0, c1, c2]);
      if buf[text] == NUL { return Error(UnexpectedEnd, text); }
      text := text + 1;
    }
    MatchesThree(s, text, [c0, c1, c2]);
    return Ok((), text);
  }

  function SpanLeaf(kind: NodeKind, name: Span, value: Span): SpanNode {
    SpanNode(kind, name, value, [], [])
  }

  /** A string just passed over: its span reads as the original text, also once it is terminated. */
  lemma HoldsSlice(b: seq<char>, s: seq<char>, at: nat, end: nat, lo: nat, hi: nat, terminate: bool)
    requires lo <= at <= end < hi <= |b| == |s|
    requires forall k | at <= k < end :: b[k] == s[k]
    requires terminate ==> b[end] == NUL
    ensures Holds(Span(at, end - at), s[at..end], b, lo, hi, terminate)
  {
    assert b[at..end] == s[at..end];
  }

  method ParseXmlDeclaration(buf: array<char>, text0: nat, f: Flags, terminate: bool, ghost s: seq<char>)
    returns (r: Outcome<Option<SpanNode>>)
    requires Terminated(s) && text0 < |s| && AgreesFrom(buf[..], s, text0)
    modifies buf
    ensures Untouched(old(buf[..]), buf[..], text0, f, terminate)
    ensures NodeDone(buf[..], s, text0, ParseDeclaration(s, text0, f), r, terminate)
  {
    hide Holds, FindClose, ParseAttributes, Skip;
    if !f.declarationNode {
      var close := SkipToTwo(buf, text0, '?', '>', s);
      if close.Error? { return Error(close.error, close.at); }
      return Ok(None, close.text + 2);
    }
    var text := SkipInPlace(buf, text0, Whitespace, s);
    var a := ParseNodeAttributes(buf, text, f, terminate, s);
    if a.Error? { return Error(a.error, a.at); }
    ghost var done, from := ParseAttributes(s, text, [], f).value, text;
    text := a.text;
    MatchesTwo(s, text, "?>");
    if buf[text] != '?' || buf[text + 1] != '>' { return Error(ExpectedDeclarationEnd, text); }
    text := text + 2;
    AttributesFrame(a.value, done, buf[..], buf[..], from, a.text, text0, text, terminate);
    EmptyHolds(buf[..], text0, text, terminate);
    ChildlessHolds(SpanNode(Declaration, NoText, NoText, a.value, []), Node(Declaration, "", "", done, []),
                   buf[..], text0, text, terminate);
    return Ok(Some(SpanNode(Declaration, NoText, NoText, a.value, [])), text);
  }

  /** A node without children holds when its name, value and attributes do. */
  lemma ChildlessHolds(p: SpanNode, n: Node, b: seq<char>, lo: nat, hi: nat, terminate: bool)
    requires p.kind == n.kind && p.children == [] && n.children == []
    requires Holds(p.name, n.name, b, lo, hi, terminate) && HoldsValue(p, n, b, lo, hi, terminate)
    requires HoldsAttributes(p.attributes, n.attributes, b, lo, hi, terminate)
    ensures HoldsNode(p, n, b, lo, hi, terminate)
  {
    hide Holds, HoldsValue, HoldsAttributes;
    assert HoldsChildren(p.children, n.children, b, lo, hi, terminate);
    assert HoldsBody(p, n, b, lo, hi, terminate);
  }

  /** A nameless leaf that is no element and no processing instruction. */
  lemma LeafHolds(kind: NodeKind, p: Span, v: string, b: seq<char>, lo: nat, hi: nat, terminate: bool)
    requires kind != Pi && kind != Element && Holds(p, v, b, lo, hi, terminate)
    ensures HoldsNode(SpanLeaf(kind, NoText, p), Leaf(kind, "", v), b, lo, hi, terminate)
  {
    ChildlessHolds(SpanLeaf(kind, NoText, p), Leaf(kind, "", v), b, lo, hi, terminate);
  }

  lemma EmptyHolds(b: seq<char>, lo: nat, hi: nat, terminate: bool)
    ensures Holds(NoText, "", b, lo, hi, terminate)
  {
  }

  method ParseComment(buf: array<char>, text0: nat, f: Flags, terminate: bool, ghost s: seq<char>)
    returns (r: Outcome<Option<SpanNode>>)
    requires Terminated(s) && text0 < |s| && AgreesFrom(buf[..], s, text0)
    modifies buf
    ensures Untouched(old(buf[..]), buf[..], text0, f, terminate)
    ensures NodeDone(buf[..], s, text0, ParseDelimited(s, text0, Comment, "-->", f.commentNodes), r, terminate)
  {
    hide FindClose;
    var close := SkipToThree(buf, text0, '-', '-', '>', s);
    if close.Error? { return Error(close.error, close.at); }
    var text := close.text;
    if !f.commentNodes { return Ok(None, text + 3); }
    var value := text0;
    if terminate { buf[text] := NUL; }
    HoldsSlice(buf[..], s, value, text, text0, text + 3, terminate);
    LeafHolds(Comment, Span(value, text - value), s[value..text], buf[..], text0, text + 3, terminate);
    return Ok(Some(SpanLeaf(Comment, NoText, Span(value, text - value))), text + 3);
  }

  method ParseCdata(buf: array<char>, text0: nat, f: Flags, terminate: bool, ghost s: seq<char>)
    returns (r: Outcome<Option<SpanNode>>)
    requires Terminated(s) && text0 < |s| && AgreesFrom(buf[..], s, text0)
    modifies buf
    ensures Untouched(old(buf[..]), buf[..], text0, f, terminate)
    ensures NodeDone(buf[..], s, text0, ParseDelimited(s, text0, Cdata, "]]>", !f.noDataNodes), r, terminate)
  {
    hide FindClose;
    var close := SkipToThree(buf, text0, ']', ']', '>', s);
    if close.Error? { return Error(close.error, close.at); }
    var text := close.text;
    if f.noDataNodes { return Ok(None, text + 3); }
    var value := text0;
    if terminate { buf[text] := NUL; }
    HoldsSlice(buf[..], s, value, text, text0, text + 3, terminate);
    LeafHolds(Cdata, Span(value, text - value), s[value..text], buf[..], text0, text + 3, terminate);
    return Ok(Some(SpanLeaf(Cdata, NoText, Span(value, text - value))), text + 3);
  }

  /** Advances to the '>' of a DOCTYPE, with the inner loop that matches brackets. */
  method SkipDoctype(buf: array<char>, text0: nat, ghost s: seq<char>) returns (r: Outcome<()>)
    requires Terminated(s) && text0 < |s| && AgreesFrom(buf[..], s, text0)
    ensures r == DoctypeEnd(s, text0, 0)
  {
    var text := text0;
    while buf[text] != '>'
      invariant text0 <= text < |s| && DoctypeEnd(s, text0, 0) == DoctypeEnd(s, text, 0)
      decreases |s| - text
    {
      if buf[text] == '[' {
        text := text + 1;
        var depth := 1;
        while depth > 0
          invariant text0 <= text < |s| && depth >= 0
          invariant DoctypeEnd(s, text0, 0) == DoctypeEnd(s, text, depth)
          decreases |s| - text
        {
          if buf[text] == '[' { depth := depth + 1; }
          else if buf[text] == ']' { depth := depth - 1; }
          else if buf[text] == NUL { return Error(UnexpectedEnd, text); }
          text := text + 1;
        }
      } else if buf[text] == NUL {
        return Error(UnexpectedEnd, text);
      } else {
        text := text + 1;
      }
    }
    return Ok((), text);
  }

  method ParseDoctypeInPlace(buf: array<char>, text0: nat, f: Flags, terminate: bool, ghost s: seq<char>)
    returns (r: Outcome<Option<SpanNode>>)
    requires Terminated(s) && text0 < |s| && AgreesFrom(buf[..], s, text0)
    modifies buf
    ensures Untouched(old(buf[..]), buf[..], text0, f, terminate)
    ensures NodeDone(buf[..], s, text0, ParseDoctype(s, text0, f), r, terminate)
  {
    hide DoctypeEnd;
    var value := text0;
    var end := SkipDoctype(buf, text0, s);
    if end.Error? { return Error(end.error, end.at); }
    var text := end.text;
    if f.doctypeNode {
      if terminate { buf[text] := NUL; }
      HoldsSlice(buf[..], s, value, text, text0, text + 1, terminate);
      LeafHolds(Doctype, Span(value, text - value), s[value..text], buf[..], text0, text + 1, terminate);
      return Ok(Some(SpanLeaf(Doctype, NoText, Span(value, text - value))), text + 1);
    } else {
      return Ok(None, text + 1);
    }
  }

  /** A processing instruction; both terminators are written after the value is known, so a value that
      starts right where the name ends loses its first character. */
  method ParsePiInPlace(buf: array<char>, text0: nat, f: Flags, terminate: bool, ghost s: seq<char>)
    returns (r: Outcome<Option<SpanNode>>)
    requires Terminated(s) && text0 < |s| && AgreesFrom(buf[..], s, text0)
    modifies buf
    ensures Untouched(old(buf[..]), buf[..], text0, f, terminate)
    ensures NodeDone(buf[..], s, text0, ParsePi(s, text0, f), r, terminate)
  {
    hide FindClose, Skip, CharClass.Test, HoldsNode;
    if !f.piNodes {
      var close := SkipToTwo(buf, text0, '?', '>', s);
      if close.Error? { return Error(close.error, close.at); }
      return Ok(None, close.text + 2);
    }
    var nameEnd := SkipInPlace(buf, text0, NodeName, s);
    if nameEnd == text0 { return Error(ExpectedPiTarget, nameEnd); }
    var value := SkipInPlace(buf, nameEnd, Whitespace, s);
    var close := SkipToTwo(buf, value, '?', '>', s);
    if close.Error? { return Error(close.error, close.at); }
    var text := close.text;
    TerminatePi(buf, text0, nameEnd, value, text, terminate, s);
    return Ok(Some(SpanLeaf(Pi, Span(text0, nameEnd - text0), Span(value, text - value))), text + 2);
  }

  /** Writes the terminators after the name [text0, nameEnd) and the value [value, text). */
  method TerminatePi(buf: array<char>, text0: nat, nameEnd: nat, value: nat, text: nat, terminate: bool, ghost s: seq<char>)
    requires text0 < nameEnd <= value <= text && text + 2 < |s| && AgreesFrom(buf[..], s, text0)
    modifies buf
    ensures |buf[..]| == |old(buf[..])| && AgreesOn(buf[..], old(buf[..]), 0, text0)
    ensures !terminate ==> buf[..] == old(buf[..])
    ensures AgreesFrom(buf[..], s, text + 2)
    ensures HoldsNode(SpanLeaf(Pi, Span(text0, nameEnd - text0), Span(value, text - value)),
                      Leaf(Pi, s[text0..nameEnd], s[value..text]), buf[..], text0, text + 2, terminate)
  {
    hide HoldsNode, Clobbered;
    if terminate {
      buf[nameEnd] := NUL;
      buf[text] := NUL;
    }
    HoldsSlice(buf[..], s, text0, nameEnd, text0, text + 2, terminate);
    PiValueHolds(buf[..], s, nameEnd, value, text, text0, terminate);
    hide Holds;
    PiHolds(SpanLeaf(Pi, Span(text0, nameEnd - text0), Span(value, text - value)),
            s[text0..nameEnd], s[value..text], buf[..], text0, text + 2, terminate);
  }

  /** With terminated strings the value of a processing instruction reads as parsed exactly when whitespace
      follows its name, or the value is empty; otherwise its first character is lost. */
  lemma PiValueSurvives(s: seq<char>, i: nat, f: Flags)
    requires Terminated(s) && i < |s| && f.piNodes && ParsePi(s, i, f).Ok?
    ensures var n, nameEnd := ParsePi(s, i, f).value.value, Skip(s, i, NodeName);
      var name, value := Span(i, nameEnd - i), Span(Skip(s, nameEnd, Whitespace), |n.value|);
      (if Abuts(name, value) then Clobbered(n.value) else n.value) == n.value
      <==> IsWhitespace(s[nameEnd]) || n.value == ""
  {
    hide FindClose, Skip, Clobbered;
    var nameEnd := Skip(s, i, NodeName);
    var value := Skip(s, nameEnd, Whitespace);
    var close := FindClose(s, value, "?>");
    assert value == nameEnd <==> !IsWhitespace(s[nameEnd]);
    if value < close.text { ClobberedDiffers(s[value..close.text]); }
  }

  /** "a/b?>" is such: its value "/b" is left as a NUL and "b". */
  lemma PiLosesFirstCharacter(f: Flags)
    requires f.piNodes
    ensures var s := "a/b?>" + [NUL];
      var nameEnd := Skip(s, 0, NodeName);
      var value := Skip(s, nameEnd, Whitespace);
      && ParsePi(s, 0, f) == Ok(Some(Leaf(Pi, "a", "/b")), 5)
      && Abuts(Span(0, nameEnd), Span(value, |"/b"|)) && Clobbered("/b") == [NUL, 'b']
  {
    var s := "a/b?>" + [NUL];
    SkipIs(s, 0, NodeName, 1);
    SkipIs(s, 1, Whitespace, 1);
    MatchesTwo(s, 1, "?>");
    MatchesTwo(s, 2, "?>");
    MatchesTwo(s, 3, "?>");
    assert FindClose(s, 3, "?>") == Ok((), 3);
    assert FindClose(s, 2, "?>") == Ok((), 3);
    assert s[0..1] == "a" && s[1..3] == "/b";
  }

  lemma ClobberedDiffers(x: string)
    requires x != "" && x[0] != NUL
    ensures Clobbered(x) != x
  {
  }

  lemma PiHolds(p: SpanNode, name: string, x: string, b: seq<char>, lo: nat, hi: nat, terminate: bool)
    requires p == SpanLeaf(Pi, p.name, p.value) && Holds(p.name, name, b, lo, hi, terminate)
    requires Holds(p.value, if terminate && Abuts(p.name, p.value) then Clobbered(x) else x, b, lo, hi, terminate)
    ensures HoldsNode(p, Leaf(Pi, name, x), b, lo, hi, terminate)
  {
    ChildlessHolds(p, Leaf(Pi, name, x), b, lo, hi, terminate);
  }

  lemma PiValueHolds(b: seq<char>, s: seq<char>, nameEnd: nat, value: nat, text: nat, lo: nat, terminate: bool)
    requires lo <= nameEnd <= value <= text && text + 2 <= |b| == |s|
    requires forall k | value <= k < text :: b[k] == if terminate && k == nameEnd then NUL else s[k]
    requires terminate ==> b[text] == NUL
    ensures var x := s[value..text];
            Holds(Span(value, text - value), if terminate && value < text && nameEnd == value then Clobbered(x) else x,
                  b, lo, text + 2, terminate)
  {
    var x := s[value..text];
    if terminate && value < text && nameEnd == value {
      assert b[value..text] == Clobbered(x);
    } else {
      assert b[value..text] == x;
    }
  }

  // ---------------------------------------------------------------------------------------------
  // Elements

  ghost predicate DataDone(after: seq<char>, s: seq<char>, lo: nat, e: Node, spec: Outcome<string>, f: Flags,
                           r: Outcome<SpanNode>, next: char, name: Span, terminate: bool)
  {
    if spec.Error? then r == Error(spec.error, spec.at)
    else
      && r.Ok? && r.text == spec.text < |s| && next == s[spec.text] && AgreesFrom(after, s, spec.text + 1)
      && r.value.name == name && HoldsBody(r.value, AddData(e, spec.value, f), after, lo, spec.text + 1, terminate)
  }

  /** What adding a data run does to the element's spans. */
  lemma BodyWithData(p: SpanNode, e: Node, q: Span, v: string, b: seq<char>, lo: nat, hi: nat, f: Flags, terminate: bool)
    requires e.kind == Element && HoldsBody(p, e, b, lo, hi, terminate)
    requires Holds(q, v, b, lo, hi, terminate) && q.Span? && q.size > 0
    ensures var hasValue := p.value.Span? && b[p.value.at] != NUL;
      HoldsBody(p.(children := if f.noDataNodes then p.children else p.children + [SpanLeaf(Data, NoText, q)],
                   value := if f.noElementValues || hasValue then p.value else q),
                AddData(e, v, f), b, lo, hi, terminate)
  {
    if p.value.Span? { assert b[p.value.at..p.value.at + p.value.size][0] == b[p.value.at]; }
    hide Holds, HoldsAttributes;
    var p1 := p.(value := if f.noElementValues || (p.value.Span? && b[p.value.at] != NUL) then p.value else q);
    var e1 := AddData(e, v, f).(children := e.children);
    assert HoldsBody(p1, e1, b, lo, hi, terminate);
    EmptyHolds(b, lo, hi, terminate);
    var d := SpanLeaf(Data, NoText, q);
    LeafHolds(Data, q, v, b, lo, hi, terminate);
    BodyWithChild(p1, e1, d, Leaf(Data, "", v), b, lo, hi, terminate);
  }

  /** A data run from the start of the contents; also returns the character the terminator may have
      overwritten. */
  method ParseAndAppendData(buf: array<char>, element: SpanNode, contentsStart: nat, f: Flags, terminate: bool,
                            ghost s: seq<char>, ghost e: Node, ghost lo: nat)
    returns (r: Outcome<SpanNode>, next: char)
    requires Terminated(s) && lo <= contentsStart < |s| && AgreesFrom(buf[..], s, contentsStart)
    requires Text.Test(s[contentsStart]) && e.kind == Element
    requires HoldsBody(element, e, buf[..], lo, contentsStart, terminate)
    modifies buf
    ensures Untouched(old(buf[..]), buf[..], contentsStart, f, terminate)
    ensures DataDone(buf[..], s, lo, e, Expand(s, contentsStart, contentsStart, Text, f, f.normalizeWhitespace), f,
                     r, next, element.name, terminate)
  {
    hide Expand, HoldsBody, CharClass.Test, AddData;
    next := NUL;
    var value := contentsStart;
    ghost var before := buf[..];
    var end := ExpandText(buf, contentsStart, f, s);
    if end.Error? { return Error(end.error, end.at), next; }
    var text := end.text;
    BodyFrame(element, e, before, buf[..], lo, contentsStart, lo, contentsStart, terminate);
    next := buf[text];
    ghost var v := Expand(s, contentsStart, contentsStart, Text, f, f.normalizeWhitespace).value;
    var grown := AppendData(buf, element, value, end.value, text, f, terminate, s, e, lo, v);
    return Ok(grown, text), next;
  }

  /** Records the decoded run [value, end) and terminates it. */
  method AppendData(buf: array<char>, element: SpanNode, value: nat, end: nat, text: nat, f: Flags, terminate: bool,
                    ghost s: seq<char>, ghost e: Node, ghost lo: nat, ghost v: string)
    returns (grown: SpanNode)
    requires lo <= value < end <= text < |s| && AgreesFrom(buf[..], s, text) && e.kind == Element
    requires HoldsBody(element, e, buf[..], lo, value, terminate) && buf[value..end] == v
    modifies buf
    ensures |buf[..]| == |old(buf[..])| && AgreesOn(buf[..], old(buf[..]), 0, value)
    ensures !terminate ==> buf[..] == old(buf[..])
    ensures AgreesFrom(buf[..], s, text + 1)
    ensures grown.name == element.name
    ensures HoldsBody(grown, AddData(e, v, f), buf[..], lo, text + 1, terminate)
  {
    hide HoldsBody, AddData;
    var hasValue := false;
    if element.value.Span? {
      ValueInside(element, e, buf[..], lo, value, terminate);
      hasValue := buf[element.value.at] != NUL;
    }
    ghost var read := buf[..];
    if terminate {
      buf[end] := NUL;
      assert buf[value..end] == read[value..end];
    }
    BodyFrame(element, e, read, buf[..], lo, value, lo, text + 1, terminate);
    var span := Span(value, end - value);
    BodyWithData(element, e, span, v, buf[..], lo, text + 1, f, terminate);
    grown := element.(children := if f.noDataNodes then element.children
                                  else element.children + [SpanLeaf(Data, NoText, span)],
                      value := if f.noElementValues || hasValue then element.value else span);
  }

  lemma ValueInside(p: SpanNode, e: Node, b: seq<char>, lo: nat, hi: nat, terminate: bool)
    requires HoldsBody(p, e, b, lo, hi, terminate) && p.value.Span?
    ensures lo <= p.value.at < hi <= |b|
  {
  }

  method ExpandText(buf: array<char>, text: nat, f: Flags, ghost s: seq<char>) returns (r: Outcome<nat>)
    requires Terminated(s) && text < |s| && AgreesFrom(buf[..], s, text)
    modifies buf
    ensures f.noEntityTranslation && !f.normalizeWhitespace ==> buf[..] == old(buf[..])
    ensures StepDone(old(buf[..]), buf[..], s, text, Expand(s, text, text, Text, f, f.normalizeWhitespace), r)
  {
    if f.normalizeWhitespace {
      r := SkipAndExpandCharacterRefs(buf, text, Text, TextPureWithWs, f, true, s);
    } else {
      r := SkipAndExpandCharacterRefs(buf, text, Text, TextPureNoWs, f, false, s);
    }
  }

  lemma MatchesEight(s: seq<char>, i: nat, p: string)
    requires |p| == 8
    ensures Matches(s, i, p) <==>
            i + 8 <= |s| && s[i] == p[0] && s[i + 1] == p[1] && s[i + 2] == p[2] && s[i + 3] == p[3]
            && s[i + 4] == p[4] && s[i + 5] == p[5] && s[i + 6] == p[6] && s[i + 7] == p[7]
  {
    if i + 8 <= |s| {
      assert s[i..i + 8] == [s[i], s[i + 1], s[i + 2], s[i + 3], s[i + 4], s[i + 5], s[i + 6], s[i + 7]];
      assert p == [p[0], p[1], p[2], p[3], p[4], p[5], p[6], p[7]];
    }
  }

  /** Skips an unrecognized node that starts with "<!". */
  method SkipUnrecognized(buf: array<char>, text0: nat, ghost s: seq<char>) returns (r: Outcome<()>)
    requires Terminated(s) && text0 < |s| && AgreesFrom(buf[..], s, text0)
    ensures r == FindClose(s, text0, ">")
  {
    var text := text0;
    while buf[text] != '>'
      invariant text0 <= text < |s| && FindClose(s, text0, ">") == FindClose(s, text, ">")
      decreases |s| - text
    {
      assert !Matches(s, text, ">") by { assert s[text..text + 1][0] == s[text]; }
      if buf[text] == NUL { return Error(UnexpectedEnd, text); }
      text := text + 1;
    }
    assert s[text..text + 1] == ">";
    return Ok((), text);
  }

  /** Which kind of node the character after '<' starts. */
  datatype Opener = OpensDecl | OpensPi | OpensComment | OpensCdata | OpensDoctypeNode | OpensOther | OpensElement

  function OpenerOf(s: seq<char>, i: nat): Opener
    requires Terminated(s) && i < |s|
  {
    if s[i] == '?' then (if OpensDeclaration(s, i + 1) then OpensDecl else OpensPi)
    else if s[i] == '!' then
      if Matches(s, i, "!--") && i + 3 < |s| then OpensComment
      else if Matches(s, i, "![CDATA[") && i + 8 < |s| then OpensCdata
      else if OpensDoctype(s, i) then OpensDoctypeNode
      else OpensOther
    else OpensElement
  }

  /** The parser's switch over the characters after '<'. */
  method ReadOpener(buf: array<char>, text: nat, ghost s: seq<char>) returns (r: Opener)
    requires Terminated(s) && text < |s| && AgreesFrom(buf[..], s, text)
    ensures r == OpenerOf(s, text)
  {
    MatchesThree(s, text, "!--");
    MatchesEight(s, text, "![CDATA[");
    MatchesEight(s, text, "!DOCTYPE");
    hide Matches;
    if buf[text] == '?' {
      if (buf[text + 1] == 'x' || buf[text + 1] == 'X') && (buf[text + 2] == 'm' || buf[text + 2] == 'M')
         && (buf[text + 3] == 'l' || buf[text + 3] == 'L') && IsWhitespace(buf[text + 4]) {
        return OpensDecl;
      }
      return OpensPi;
    }
    if buf[text] == '!' {
      if buf[text + 1] == '-' {
        if buf[text + 2] == '-' { return OpensComment; }
      } else if buf[text + 1] == '[' {
        if buf[text + 2] == 'C' && buf[text + 3] == 'D' && buf[text + 4] == 'A'
           && buf[text + 5] == 'T' && buf[text + 6] == 'A' && buf[text + 7] == '[' {
          return OpensCdata;
        }
      } else if buf[text + 1] == 'D' {
        if buf[text + 2] == 'O' && buf[text + 3] == 'C' && buf[text + 4] == 'T' && buf[text + 5] == 'Y'
           && buf[text + 6] == 'P' && buf[text + 7] == 'E' && IsWhitespace(buf[text + 8]) {
          return OpensDoctypeNode;
        }
      }
      return OpensOther;
    }
    return OpensElement;
  }

  lemma ParseNodeBy(s: seq<char>, i: nat, f: Flags)
    requires Terminated(s) && i < |s|
    ensures var p := ParseNode(s, i, f);
      match OpenerOf(s, i)
      case OpensDecl => i + 5 < |s| && p == ParseDeclaration(s, i + 5, f)
      case OpensPi => i + 1 < |s| && p == ParsePi(s, i + 1, f)
      case OpensComment => i + 3 < |s| && p == ParseDelimited(s, i + 3, Comment, "-->", f.commentNodes)
      case OpensCdata => i + 8 < |s| && p == ParseDelimited(s, i + 8, Cdata, "]]>", !f.noDataNodes)
      case OpensDoctypeNode => i + 9 < |s| && p == ParseDoctype(s, i + 9, f)
      case OpensOther =>
        && i + 1 < |s|
        && var close := FindClose(s, i + 1, ">");
           p == if close.Error? then Error(close.error, close.at) else Ok(None, close.text + 1)
      case OpensElement =>
        var e := ParseElement(s, i, f);
        p == if e.Error? then Error(e.error, e.at) else Ok(Some(e.value), e.text)
  {
    hide Matches, ParseElement, ParseDeclaration, ParsePi, ParseDelimited, ParseDoctype, FindClose;
  }

  /** A finished step in a narrower region is one in a wider region. */
  lemma WidenNode(after: seq<char>, s: seq<char>, lo: nat, lo': nat, spec: Outcome<Option<Node>>,
                  r: Outcome<Option<SpanNode>>, terminate: bool)
    requires NodeDone(after, s, lo, spec, r, terminate) && lo' <= lo && (spec.Ok? ==> spec.text <= |after|)
    ensures NodeDone(after, s, lo', spec, r, terminate)
  {
    if spec.Ok? && spec.value.Some? {
      hide HoldsNode;
      NodeFrame(r.value.value, spec.value.value, after, after, lo, spec.text, lo', spec.text, terminate);
    }
  }

  /** Any node, from the character after its '<'. */
  method ParseNodeInPlace(buf: array<char>, text0: nat, f: Flags, terminate: bool, ghost s: seq<char>)
    returns (r: Outcome<Option<SpanNode>>)
    requires Terminated(s) && text0 < |s| && AgreesFrom(buf[..], s, text0)
    modifies buf
    ensures Untouched(old(buf[..]), buf[..], text0, f, terminate)
    ensures NodeDone(buf[..], s, text0, ParseNode(s, text0, f), r, terminate)
    decreases |s| - text0, 2
  {
    hide ParseNode, ParseElement, ParseDeclaration, ParsePi, ParseDelimited, ParseDoctype, FindClose, OpenerOf, HoldsNode;
    var opener := ReadOpener(buf, text0, s);
    ParseNodeBy(s, text0, f);
    ghost var spec := ParseNode(s, text0, f);
    match opener {
      case OpensDecl =>
        r := ParseXmlDeclaration(buf, text0 + 5, f, terminate, s);
        WidenNode(buf[..], s, text0 + 5, text0, spec, r, terminate);
      case OpensPi =>
        r := ParsePiInPlace(buf, text0 + 1, f, terminate, s);
        WidenNode(buf[..], s, text0 + 1, text0, spec, r, terminate);
      case OpensComment =>
        r := ParseComment(buf, text0 + 3, f, terminate, s);
        WidenNode(buf[..], s, text0 + 3, text0, spec, r, terminate);
      case OpensCdata =>
        r := ParseCdata(buf, text0 + 8, f, terminate, s);
        WidenNode(buf[..], s, text0 + 8, text0, spec, r, terminate);
      case OpensDoctypeNode =>
        r := ParseDoctypeInPlace(buf, text0 + 9, f, terminate, s);
        WidenNode(buf[..], s, text0 + 9, text0, spec, r, terminate);
      case OpensOther =>
        var close := SkipUnrecognized(buf, text0 + 1, s);
        if close.Error? { return Error(close.error, close.at); }
        return Ok(None, close.text + 1);
      case OpensElement =>
        var e := ParseElementInPlace(buf, text0, f, terminate, s);
        if e.Error? { return Error(e.error, e.at); }
        return Ok(Some(e.value), e.text);
    }
  }

  ghost predicate ElementDone(after: seq<char>, s: seq<char>, lo: nat, spec: Outcome<Node>,
                              r: Outcome<SpanNode>, terminate: bool)
  {
    if spec.Error? then r == Error(spec.error, spec.at)
    else
      && r.Ok? && r.text == spec.text && AgreesFrom(after, s, spec.text)
      && HoldsNode(r.value, spec.value, after, lo, spec.text, terminate)
  }

  /** What is read of an element before its contents. */
  function ElementHead(s: seq<char>, i: nat, f: Flags): (r: Outcome<Node>)
    requires Terminated(s) && i < |s|
    ensures r.Ok? ==> i < r.text < |s| && r.value.kind == Element
  {
    var nameEnd := Skip(s, i, NodeName);
    if nameEnd == i then Error(ExpectedElementName, i)
    else
      var a := ParseAttributes(s, Skip(s, nameEnd, Whitespace), [], f);
      if a.Error? then Error(a.error, a.at)
      else Ok(Node(Element, s[i..nameEnd], "", a.value, []), a.text)
  }

  lemma ParseElementBy(s: seq<char>, i: nat, f: Flags)
    requires Terminated(s) && i < |s|
    ensures var h := ElementHead(s, i, f);
      ParseElement(s, i, f) ==
        if h.Error? then Error(h.error, h.at)
        else if s[h.text] == '>' then ParseContents(s, h.text + 1, h.value, false, f)
        else if s[h.text] != '/' then Error(ExpectedGreater, h.text)
        else if s[h.text + 1] != '>' then Error(ExpectedGreater, h.text + 1)
        else Ok(h.value, h.text + 2)
  {
    hide ParseContents, ParseAttributes;
  }

  /** An element before its contents: the name is a span not yet terminated, the attributes hold. */
  ghost predicate HeadDone(after: seq<char>, s: seq<char>, i: nat, spec: Outcome<Node>, r: Outcome<SpanNode>, terminate: bool) {
    if spec.Error? then r == Error(spec.error, spec.at)
    else
      && r.Ok? && r.text == spec.text && AgreesFrom(after, s, spec.text)
      && r.value.name == Span(i, |spec.value.name|)
      && i + |spec.value.name| <= spec.text && spec.text < |after|
      && after[i..i + |spec.value.name|] == spec.value.name
      && HoldsBody(r.value, spec.value, after, i + |spec.value.name| + 1, spec.text + 1, terminate)
  }

  /** What ends a node name without whitespace starts no attribute. */
  lemma NameThenAttribute(s: seq<char>, i: nat)
    requires Terminated(s) && i < |s|
    ensures var nameEnd := Skip(s, i, NodeName); var text := Skip(s, nameEnd, Whitespace);
      text == nameEnd ==> !AttributeName.Test(s[text])
  {
  }

  method ParseElementHead(buf: array<char>, text0: nat, f: Flags, terminate: bool, ghost s: seq<char>)
    returns (r: Outcome<SpanNode>)
    requires Terminated(s) && text0 < |s| && AgreesFrom(buf[..], s, text0)
    modifies buf
    ensures Untouched(old(buf[..]), buf[..], text0, f, terminate)
    ensures HeadDone(buf[..], s, text0, ElementHead(s, text0, f), r, terminate)
  {
    hide Skip, CharClass.Test, HoldsAttributes, HoldsBody, ParseAttributes;
    NameThenAttribute(s, text0);
    var nameEnd := SkipInPlace(buf, text0, NodeName, s);
    if nameEnd == text0 { return Error(ExpectedElementName, nameEnd); }
    var text := SkipInPlace(buf, nameEnd, Whitespace, s);
    var a := ParseNodeAttributes(buf, text, f, terminate, s);
    if a.Error? { return Error(a.error, a.at); }
    ghost var done := ParseAttributes(s, text, [], f).value;
    var element := SpanNode(Element, Span(text0, nameEnd - text0), NoText, a.value, []);
    assert buf[text0..nameEnd] == s[text0..nameEnd];
    HeadHolds(element, Node(Element, s[text0..nameEnd], "", done, []), buf[..], text, a.text, nameEnd + 1, terminate);
    return Ok(element, a.text);
  }

  lemma HeadHolds(p: SpanNode, n: Node, b: seq<char>, from: nat, to: nat, lo: nat, terminate: bool)
    requires p.kind == n.kind == Element && p.value == NoText && n.value == "" && p.children == [] && n.children == []
    requires HoldsAttributes(p.attributes, n.attributes, b, from, to, terminate) && to < |b|
    requires lo <= from || p.attributes == []
    ensures HoldsBody(p, n, b, lo, to + 1, terminate)
  {
    if lo <= from { AttributesFrame(p.attributes, n.attributes, b, b, from, to, lo, to + 1, terminate); }
    assert HoldsChildren(p.children, n.children, b, lo, to + 1, terminate);
  }

  method ParseElementInPlace(buf: array<char>, text0: nat, f: Flags, terminate: bool, ghost s: seq<char>)
    returns (r: Outcome<SpanNode>)
    requires Terminated(s) && text0 < |s| && AgreesFrom(buf[..], s, text0)
    modifies buf
    ensures Untouched(old(buf[..]), buf[..], text0, f, terminate)
    ensures ElementDone(buf[..], s, text0, ParseElement(s, text0, f), r, terminate)
    decreases |s| - text0, 1
  {
    hide ParseElement, ParseContents, ElementHead, HoldsNode, HoldsBody;
    ParseElementBy(s, text0, f);
    var head := ParseElementHead(buf, text0, f, terminate, s);
    if head.Error? { return Error(head.error, head.at); }
    ghost var h := ElementHead(s, text0, f).value;
    var element, text := head.value, head.text;
    var nameEnd := text0 + element.name.size;
    ghost var named := buf[..];
    if buf[text] == '>' {
      text := text + 1;
      r := ParseContentsInPlace(buf, element, text, f, terminate, s, h, nameEnd + 1, text0);
      if r.Error? { return; }
      element, text := r.value, r.text;
    } else if buf[text] == '/' {
      text := text + 1;
      if buf[text] != '>' { return Error(ExpectedGreater, text); }
      text := text + 1;
      BodyFrame(element, h, buf[..], buf[..], nameEnd + 1, text - 1, nameEnd + 1, text, terminate);
    } else {
      return Error(ExpectedGreater, text);
    }
    ghost var e := ParseElement(s, text0, f).value;
    TerminateName(buf, element, text0, nameEnd, text, terminate, s, e);
    return Ok(element, text);
  }

  /** Ends an element's name, once its contents are read. */
  method TerminateName(buf: array<char>, element: SpanNode, text0: nat, nameEnd: nat, text: nat, terminate: bool,
                       ghost s: seq<char>, ghost e: Node)
    requires text0 <= nameEnd < text < |s| && AgreesFrom(buf[..], s, text)
    requires element.name == Span(text0, nameEnd - text0) && buf[text0..nameEnd] == e.name
    requires HoldsBody(element, e, buf[..], nameEnd + 1, text, terminate)
    modifies buf
    ensures |buf[..]| == |old(buf[..])| && AgreesOn(buf[..], old(buf[..]), 0, text0)
    ensures !terminate ==> buf[..] == old(buf[..])
    ensures AgreesFrom(buf[..], s, text) && HoldsNode(element, e, buf[..], text0, text, terminate)
  {
    hide HoldsBody;
    ghost var read := buf[..];
    if terminate {
      buf[nameEnd] := NUL;
      assert buf[text0..nameEnd] == read[text0..nameEnd];
    }
    BodyFrame(element, e, read, buf[..], nameEnd + 1, text, text0, text, terminate);
  }

  /** The contents of an element; its name is the span [nameAt, lo - 1), not yet terminated. */
  method ParseContentsInPlace(buf: array<char>, element0: SpanNode, text0: nat, f: Flags, terminate: bool,
                              ghost s: seq<char>, ghost e0: Node, ghost lo: nat, ghost nameAt: nat)
    returns (r: Outcome<SpanNode>)
    requires Terminated(s) && text0 < |s| && AgreesFrom(buf[..], s, text0)
    requires nameAt < lo <= text0 && element0.name == Span(nameAt, lo - 1 - nameAt) && buf[nameAt..lo - 1] == e0.name
    requires e0.kind == Element && HoldsBody(element0, e0, buf[..], lo, text0, terminate)
    modifies buf
    ensures Untouched(old(buf[..]), buf[..], text0, f, terminate)
    ensures BodyDone(buf[..], s, lo, ParseContents(s, text0, e0, false, f), r, element0.name, terminate)
    ensures r.Ok? ==> ParseContents(s, text0, e0, false, f).value.name == e0.name
    decreases |s| - text0, 1
  {
    hide HoldsBody, HoldsNode, ParseNode, Expand, ParseContents, ParseClosing, AddData, AddChild, Skip, CharClass.Test, NonDestructive;
    var element, text := element0, text0;
    var afterData, next := false, NUL;
    // [.., hi) is read: one more than text right after a data run, whose terminator may lie on text
    ghost var e, hi := e0, text0;
    while true
      invariant text0 <= text < |s| == buf.Length && text <= hi <= text + 1
      invariant if afterData then hi == text + 1 && next == s[text] && !Text.Test(s[text]) else hi == text
      invariant ParseContents(s, text0, e0, false, f) == ParseContents(s, text, e, afterData, f)
      invariant AgreesFrom(buf[..], s, hi)
      invariant Untouched(old(buf[..]), buf[..], text0, f, terminate)
      invariant element.name == element0.name && e.name == e0.name && e.kind == Element
      invariant HoldsBody(element, e, buf[..], lo, hi, terminate)
      decreases |s| - text
    {
      ContentsStep(s, text, e, afterData, f);
      var contentsStart := text;
      if !afterData {
        text := SkipInPlace(buf, text, Whitespace, s);
        next := buf[text];
      }
      if next == '<' {
        if buf[text + 1] == '/' {
          r := CloseElement(buf, element, text + 2, f, terminate, s, e, nameAt, lo, hi);
          return;
        }
      } else if next == NUL {
        return Error(UnexpectedEnd, text);
      }
      r, next, afterData, e, hi := ParseItem(buf, element, contentsStart, text, next == '<', f, terminate, s, e, afterData, lo, hi);
      if r.Error? { return; }
      element, text := r.value, r.text;
    }
  }

  /** A child node at text, or the data run that starts at contentsStart; hi is the end of what is read. */
  method ParseItem(buf: array<char>, element: SpanNode, contentsStart: nat, text: nat, opens: bool, f: Flags,
                   terminate: bool, ghost s: seq<char>, ghost e0: Node, ghost afterData0: bool, ghost lo: nat,
                   ghost hi0: nat)
    returns (r: Outcome<SpanNode>, next: char, afterData: bool, ghost e: Node, ghost hi: nat)
    requires Terminated(s) && lo <= contentsStart <= text < |s| && contentsStart <= hi0 <= text + 1
    requires AgreesFrom(buf[..], s, hi0) && (afterData0 ==> !Text.Test(s[contentsStart])) && (hi0 > contentsStart ==> afterData0)
    requires text == (if afterData0 then contentsStart else Skip(s, contentsStart, Whitespace)) && s[text] != NUL
    requires opens == (s[text] == '<') && (opens ==> s[text + 1] != '/')
    requires e0.kind == Element && HoldsBody(element, e0, buf[..], lo, hi0, terminate)
    modifies buf
    ensures Untouched(old(buf[..]), buf[..], contentsStart, f, terminate)
    ensures r.Error? ==> ParseContents(s, contentsStart, e0, afterData0, f) == Error(r.error, r.at)
    ensures r.Ok? ==>
      && contentsStart < r.text < |s| == buf.Length
      && (if afterData then hi == r.text + 1 && next == s[r.text] && !Text.Test(s[r.text]) else hi == r.text)
      && ParseContents(s, contentsStart, e0, afterData0, f) == ParseContents(s, r.text, e, afterData, f)
      && AgreesFrom(buf[..], s, hi) && HoldsBody(r.value, e, buf[..], lo, hi, terminate)
      && r.value.name == element.name && e.name == e0.name && e.kind == Element
    decreases |s| - contentsStart, 0
  {
    hide HoldsBody, HoldsNode, ParseNode, Expand, ParseContents, ParseClosing, AddData, AddChild, Skip, CharClass.Test;
    ContentsStep(s, contentsStart, e0, afterData0, f);
    next, afterData, e, hi := NUL, false, e0, hi0;
    if opens {
      r := ParseAndAppendChild(buf, element, text + 1, f, terminate, s, e0, lo, hi0);
      if r.Ok? { e, hi := AddChild(e0, ParseNode(s, text + 1, f).value), r.text; }
    } else {
      r, next := ParseAndAppendData(buf, element, contentsStart, f, terminate, s, e0, lo);
      afterData := true;
      if r.Ok? { e, hi := AddData(e0, Expand(s, contentsStart, contentsStart, Text, f, f.normalizeWhitespace).value, f), r.text + 1; }
    }
  }

  /** The closing tag ends the element; nothing is written. */
  method CloseElement(buf: array<char>, element: SpanNode, text0: nat, f: Flags, terminate: bool,
                      ghost s: seq<char>, ghost e: Node, ghost nameAt: nat, ghost lo: nat, ghost hi: nat)
    returns (r: Outcome<SpanNode>)
    requires Terminated(s) && text0 < |s| && AgreesFrom(buf[..], s, text0)
    requires nameAt < lo <= hi <= text0 && element.name == Span(nameAt, lo - 1 - nameAt) && buf[nameAt..lo - 1] == e.name
    requires HoldsBody(element, e, buf[..], lo, hi, terminate)
    ensures BodyDone(buf[..], s, lo, ParseClosing(s, text0, e, f), r, element.name, terminate)
  {
    hide HoldsBody, ParseClosing;
    var close := ParseClosingInPlace(buf, element, text0, f, s, e, nameAt, lo);
    if close.Error? { return Error(close.error, close.at); }
    BodyFrame(element, e, buf[..], buf[..], lo, hi, lo, close.text, terminate);
    return Ok(element, close.text);
  }

  /** A child node, read and appended to the element whose spans so far lie in [lo, hi). */
  method ParseAndAppendChild(buf: array<char>, element: SpanNode, text0: nat, f: Flags, terminate: bool,
                             ghost s: seq<char>, ghost e: Node, ghost lo: nat, ghost hi: nat)
    returns (r: Outcome<SpanNode>)
    requires Terminated(s) && text0 < |s| && AgreesFrom(buf[..], s, text0)
    requires e.kind == Element && lo <= hi <= text0 && HoldsBody(element, e, buf[..], lo, hi, terminate)
    modifies buf
    ensures Untouched(old(buf[..]), buf[..], text0, f, terminate)
    ensures var child := ParseNode(s, text0, f);
      && (child.Error? ==> r == Error(child.error, child.at))
      && (child.Ok? ==>
           && r.Ok? && r.text == child.text && AgreesFrom(buf[..], s, r.text) && r.value.name == element.name
           && HoldsBody(r.value, AddChild(e, child.value), buf[..], lo, r.text, terminate))
    decreases |s| - text0, 3
  {
    hide HoldsBody, HoldsNode, ParseNode, AddChild;
    ghost var before := buf[..];
    var child := ParseNodeInPlace(buf, text0, f, terminate, s);
    if child.Error? { return Error(child.error, child.at); }
    ghost var c := ParseNode(s, text0, f).value;
    BodyFrame(element, e, before, buf[..], lo, hi, lo, child.text, terminate);
    AppendHolds(element, e, child.value, c, buf[..], text0, lo, child.text, terminate);
    match child.value {
      case None => return Ok(element, child.text);
      case Some(n) => return Ok(element.(children := element.children + [n]), child.text);
    }
  }

  /** The contents loop, case by case. */
  lemma ContentsStep(s: seq<char>, i: nat, e: Node, afterData: bool, f: Flags)
    requires Terminated(s) && i < |s|
    requires afterData ==> !Text.Test(s[i])
    ensures var next := if afterData then i else Skip(s, i, Whitespace);
      && next < |s|
      && (s[next] == '<' ==> next + 1 < |s|)
      && (s[next] == '<' && s[next + 1] == '/' ==>
            next + 2 < |s| && ParseContents(s, i, e, afterData, f) == ParseClosing(s, next + 2, e, f))
      && (s[next] == '<' && s[next + 1] != '/' ==>
            var child := ParseNode(s, next + 1, f);
            ParseContents(s, i, e, afterData, f) ==
              if child.Error? then Error(child.error, child.at)
              else ParseContents(s, child.text, AddChild(e, child.value), false, f))
      && (s[next] == NUL ==> ParseContents(s, i, e, afterData, f) == Error(UnexpectedEnd, next))
      && (s[next] != '<' && s[next] != NUL ==>
           && !afterData && Text.Test(s[i])
           && var data := Expand(s, i, i, Text, f, f.normalizeWhitespace);
              ParseContents(s, i, e, afterData, f) ==
                if data.Error? then Error(data.error, data.at)
                else ParseContents(s, data.text, AddData(e, data.value, f), true, f))
  {
    hide ParseNode, Expand, ParseClosing, AddChild, AddData;
    var next := if afterData then i else Skip(s, i, Whitespace);
    if i < next { assert Whitespace.Test(s[i]); }
  }

  lemma AppendHolds(p: SpanNode, e: Node, q: Option<SpanNode>, c: Option<Node>, b: seq<char>, from: nat, lo: nat, hi: nat,
                    terminate: bool)
    requires e.kind == Element && HoldsBody(p, e, b, lo, hi, terminate) && lo <= from
    requires c.None? ==> q == None
    requires c.Some? ==> q.Some? && HoldsNode(q.value, c.value, b, from, hi, terminate)
    requires hi <= |b|
    ensures HoldsBody(if q.Some? then p.(children := p.children + [q.value]) else p, AddChild(e, c), b, lo, hi, terminate)
  {
    hide HoldsBody, HoldsNode;
    if c.Some? {
      NodeFrame(q.value, c.value, b, b, from, hi, lo, hi, terminate);
      BodyWithChild(p, e, q.value, c.value, b, lo, hi, terminate);
    }
  }

  /** A closing tag from its name on; the element's name is compared in the buffer. */
  method ParseClosingInPlace(buf: array<char>, element: SpanNode, text0: nat, f: Flags,
                             ghost s: seq<char>, ghost e: Node, ghost nameAt: nat, ghost lo: nat)
    returns (r: Outcome<()>)
    requires Terminated(s) && text0 < |s| && AgreesFrom(buf[..], s, text0)
    requires nameAt < lo <= text0 && element.name == Span(nameAt, lo - 1 - nameAt) && buf[nameAt..lo - 1] == e.name
    ensures var spec := ParseClosing(s, text0, e, f);
            r == if spec.Error? then Error(spec.error, spec.at) else Ok((), spec.text)
  {
    var text := SkipInPlace(buf, text0, NodeName, s);
    if f.validateClosingTags {
      var same := Compare(buf, element.name.at, element.name.size, text0, text - text0);
      assert buf[text0..text] == s[text0..text];
      if !same { return Error(InvalidClosingTag, text); }
    }
    text := SkipInPlace(buf, text, Whitespace, s);
    if buf[text] != '>' { return Error(ExpectedGreater, text); }
    return Ok((), text + 1);
  }

  /** Case-sensitive comparison of two stretches of the buffer. */
  method Compare(buf: array<char>, p1: nat, size1: nat, p2: nat, size2: nat) returns (same: bool)
    requires p1 + size1 <= buf.Length && p2 + size2 <= buf.Length
    ensures same <==> buf[p1..p1 + size1] == buf[p2..p2 + size2]
  {
    if size1 != size2 { return false; }
    var k := 0;
    while k < size1
      invariant 0 <= k <= size1
      invariant buf[p1..p1 + k] == buf[p2..p2 + k]
    {
      if buf[p1 + k] != buf[p2 + k] {
        assert buf[p1..p1 + size1][k] != buf[p2..p2 + size2][k];
        return false;
      }
      k := k + 1;
    }
    return true;
  }

  // ---------------------------------------------------------------------------------------------
  // The document

  method ParseBom(buf: array<char>, ghost s: seq<char>) returns (text: nat)
    requires Terminated(s) && AgreesFrom(buf[..], s, 0)
    ensures text == AfterBom(s)
  {
    text := 0;
    if buf[0] as int == 0xEF && buf[1] as int == 0xBB && buf[2] as int == 0xBF { text := 3; }
  }

  /** Parses the buffer. On every buffer ending in NUL this terminates, reads no cell past the NUL, and
      yields what the reference parser yields on the original text: the same error at the same place, or
      a tree of spans that reads as the reference tree in the final buffer, each string ended by a NUL
      when strings are terminated. In the non-destructive modes the buffer is as it was. */
  method Parse(buf: array<char>, f: Flags, terminate: bool) returns (r: Outcome<SpanNode>)
    requires Terminated(buf[..])
    modifies buf
    ensures NonDestructive(f, terminate) ==> buf[..] == old(buf[..])
    ensures match XmlGrammar.Parse(old(buf[..]), f)
            case Error(e, at) => r == Error(e, at)
            case Ok(document, text) =>
              r.Ok? && r.text == text && HoldsNode(r.value, document, buf[..], 0, buf.Length, terminate)
  {
    hide HoldsNode, ParseNode, ParseNodes;
    ghost var s := buf[..];
    var text := ParseBom(buf, s);
    var document := SpanLeaf(Document, NoText, NoText);
    ghost var d := Leaf(Document, "", "");
    EmptyHolds(buf[..], 0, text, terminate);
    LeafHolds(Document, NoText, "", buf[..], 0, text, terminate);
    while true
      invariant text < |s| == buf.Length && AgreesFrom(buf[..], s, text)
      invariant NonDestructive(f, terminate) ==> buf[..] == s
      invariant XmlGrammar.Parse(s, f) == ParseNodes(s, text, d, f)
      invariant d.kind == Document && HoldsNode(document, d, buf[..], 0, text, terminate)
      decreases |s| - text
    {
      NodesStep(s, text, d, f);
      ghost var start := text;
      text := SkipInPlace(buf, text, Whitespace, s);
      if buf[text] == NUL {
        NodeFrame(document, d, buf[..], buf[..], 0, start, 0, buf.Length, terminate);
        return Ok(document, text);
      }
      if buf[text] != '<' { return Error(ExpectedLess, text); }
      ghost var before := buf[..];
      var child := ParseNodeInPlace(buf, text + 1, f, terminate, s);
      if child.Error? { return Error(child.error, child.at); }
      ghost var c := ParseNode(s, text + 1, f).value;
      NodeFrame(document, d, before, buf[..], 0, start, 0, child.text, terminate);
      if child.value.Some? {
        NodeFrame(child.value.value, c.value, buf[..], buf[..], text + 1, child.text, 0, child.text, terminate);
        NodeWithChild(document, d, child.value.value, c.value, buf[..], 0, child.text, terminate);
        document := document.(children := document.children + [child.value.value]);
      }
      d := AddChild(d, c);
      text := child.text;
    }
  }

  lemma NodeWithChild(p: SpanNode, n: Node, q: SpanNode, m: Node, b: seq<char>, lo: nat, hi: nat, terminate: bool)
    requires HoldsNode(p, n, b, lo, hi, terminate) && HoldsNode(q, m, b, lo, hi, terminate) && n.kind != Pi
    ensures HoldsNode(p.(children := p.children + [q]), n.(children := n.children + [m]), b, lo, hi, terminate)
  {
    BodyWithChild(p, n, q, m, b, lo, hi, terminate);
  }

  lemma NodesStep(s: seq<char>, i: nat, d: Node, f: Flags)
    requires Terminated(s) && i < |s|
    ensures var next := Skip(s, i, Whitespace);
      && next < |s|
      && (s[next] == NUL ==> ParseNodes(s, i, d, f) == Ok(d, next))
      && (s[next] != NUL && s[next] != '<' ==> ParseNodes(s, i, d, f) == Error(ExpectedLess, next))
      && (s[next] == '<' ==> next + 1 < |s|)
      && (s[next] == '<' ==>
           var child := ParseNode(s, next + 1, f);
           ParseNodes(s, i, d, f) ==
             if child.Error? then Error(child.error, child.at)
             else ParseNodes(s, child.text, AddChild(d, child.value), f))
  {
    hide ParseNode;
  }
}
