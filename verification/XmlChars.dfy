/** Characters, parse flags, DOM values and parse outcomes shared by the XML modules. */
module XmlChars {
  const NUL := '\0'

  predicate IsWhitespace(c: char) {
    c == ' ' || c == '\n' || c == '\r' || c == '\t'
  }

  /** The character classes the parser is instantiated with; each is one lookup table.
      No class contains NUL, so every skip stops at the terminator. */
  datatype CharClass =
    | Whitespace
    | NodeName
    | AttributeName
    | Text
    | TextPureNoWs
    | TextPureWithWs
    | AttributeData(quote: char)
    | AttributeDataPure(quote: char)
  {
    predicate Test(c: char) {
      match this
      case Whitespace => IsWhitespace(c)
      case NodeName => !IsWhitespace(c) && c != '/' && c != '>' && c != '?' && c != NUL
      case AttributeName =>
        && !IsWhitespace(c) && c != '/' && c != '<' && c != '>'
        && c != '=' && c != '?' && c != '!' && c != NUL
      case Text => c != '<' && c != NUL
      case TextPureNoWs => c != '<' && c != NUL && c != '&'
      case TextPureWithWs => c != '<' && c != NUL && c != '&' && !IsWhitespace(c)
      case AttributeData(q) => c != q && c != NUL
      case AttributeDataPure(q) => c != q && c != NUL && c != '&'
    }
  }

  /** Parse flags the meaning of a text depends on, and whether unsigned long has 64 bits (else 32);
      parse_no_string_terminators is a separate parameter of the in-place parser, and parse_trim_whitespace
      is not modelled. */
  datatype Flags = Flags(
    noDataNodes: bool,
    noElementValues: bool,
    noEntityTranslation: bool,
    noUtf8: bool,
    declarationNode: bool,
    commentNodes: bool,
    doctypeNode: bool,
    piNodes: bool,
    validateClosingTags: bool,
    normalizeWhitespace: bool,
    wideLong: bool)

  datatype NodeKind = Document | Element | Data | Cdata | Comment | Declaration | Doctype | Pi

  datatype Attribute = Attribute(name: string, value: string)

  datatype Node = Node(
    kind: NodeKind,
    name: string,
    value: string,
    attributes: seq<Attribute>,
    children: seq<Node>)

  datatype ParseError =
    | ExpectedLess
    | ExpectedGreater
    | ExpectedElementName
    | ExpectedEquals
    | ExpectedQuote
    | ExpectedSemicolon
    | ExpectedDeclarationEnd
    | ExpectedPiTarget
    | InvalidClosingTag
    | InvalidNumericEntity
    | UnexpectedEnd

  /** What a parsing step yields: a value and the advanced text position, or the error and where it was raised. */
  datatype Outcome<+T> = Ok(value: T, text: nat) | Error(error: ParseError, at: nat)

  /** A buffer whose last cell holds the terminating NUL. */
  ghost predicate Terminated(s: seq<char>) {
    |s| > 0 && s[|s| - 1] == NUL
  }

  /** The text starting at i begins with p. */
  predicate Matches(s: seq<char>, i: nat, p: string) {
    i + |p| <= |s| && s[i..i + |p|] == p
  }

  /** First position at or after i whose character is outside the class. */
  function Skip(s: seq<char>, i: nat, cc: CharClass): (r: nat)
    requires Terminated(s) && i < |s|
    ensures i <= r < |s| && !cc.Test(s[r])
    ensures forall k | i <= k < r :: cc.Test(s[k])
    decreases |s| - i
  {
    if cc.Test(s[i]) then Skip(s, i + 1, cc) else i
  }

  /** Skip is the only position with its two properties. */
  lemma {:induction false} SkipIs(s: seq<char>, i: nat, cc: CharClass, r: nat)
    requires Terminated(s) && i <= r < |s| && !cc.Test(s[r])
    requires forall k | i <= k < r :: cc.Test(s[k])
    ensures Skip(s, i, cc) == r
  {
    var q := Skip(s, i, cc);
  }

  lemma MatchesTwo(s: seq<char>, i: nat, p: string)
    requires |p| == 2
    ensures Matches(s, i, p) <==> i + 2 <= |s| && s[i] == p[0] && s[i + 1] == p[1]
  {
    if i + 2 <= |s| {
      assert s[i..i + 2] == [s[i], s[i + 1]];
      assert p == [p[0], p[1]];
    }
  }

  lemma MatchesThree(s: seq<char>, i: nat, p: string)
    requires |p| == 3
    ensures Matches(s, i, p) <==> i + 3 <= |s| && s[i] == p[0] && s[i + 1] == p[1] && s[i + 2] == p[2]
  {
    if i + 3 <= |s| {
      assert s[i..i + 3] == [s[i], s[i + 1], s[i + 2]];
      assert p == [p[0], p[1], p[2]];
    }
  }

  lemma MatchesConcat(s: seq<char>, i: nat, a: string, b: string)
    ensures Matches(s, i, a + b) <==> Matches(s, i, a) && Matches(s, i + |a|, b)
  {
    if i + |a| + |b| <= |s| {
      assert s[i..i + |a + b|] == s[i..i + |a|] + s[i + |a|..i + |a| + |b|];
      if s[i..i + |a + b|] == a + b {
        assert s[i..i + |a|] == s[i..i + |a + b|][..|a|];
        assert s[i + |a|..i + |a| + |b|] == s[i..i + |a + b|][|a|..];
      }
    }
  }
}
