/** Values piece by piece: every way to spell a text, and that the decoder reads just those, as what they mean. */
module XmlPieces {
  import opened XmlChars
  import opened XmlReferences
  import opened XmlValues

  /** A character that stands for itself, a run of blanks that stands for one space, and the two kinds of
      references. */
  datatype Piece = Char(c: char) | Blanks(w: string) | Named(c: char) | Number(hex: bool, digits: string)

  predicate Predefined(c: char) { c == '<' || c == '>' || c == '&' || c == '\'' || c == '"' }

  function EntityName(c: char): string
    requires Predefined(c)
  {
    if c == '<' then "lt;" else if c == '>' then "gt;" else if c == '&' then "amp;" else if c == '\'' then "apos;" else "quot;"
  }

  predicate Blank(w: string) { forall k | 0 <= k < |w| :: IsWhitespace(w[k]) }

  function Spelling(p: Piece): string {
    match p
    case Char(c) => [c]
    case Blanks(w) => w
    case Named(c) => if Predefined(c) then "&" + EntityName(c) else ""
    case Number(hex, digits) => Reference(hex, digits)
  }

  predicate Codable(code: nat, f: Flags) { f.noUtf8 || code < CODE_LIMIT }

  function Meaning(p: Piece, f: Flags): string {
    match p
    case Char(c) => [c]
    case Blanks(w) => " "
    case Named(c) => [c]
    case Number(hex, digits) =>
      var code := Value(digits, Radix(hex)) % CodeRange(f);
      if Codable(code, f) then Coded(code, f) else ""
  }

  function SpellAll(ps: seq<Piece>): string { if ps == [] then "" else Spelling(ps[0]) + SpellAll(ps[1..]) }

  function MeanAll(ps: seq<Piece>, f: Flags): string { if ps == [] then "" else Meaning(ps[0], f) + MeanAll(ps[1..], f) }

  /** Text that would make a reference of an ampersand before it. */
  predicate NamesReference(rest: string) {
    || Matches(rest, 0, "#") || Matches(rest, 0, "lt;") || Matches(rest, 0, "gt;") || Matches(rest, 0, "amp;")
    || Matches(rest, 0, "apos;") || Matches(rest, 0, "quot;")
  }

  /** Where references are translated and blanks condensed a piece means what it says only before the right text. */
  predicate Fits(p: Piece, rest: string, cc: CharClass, f: Flags, normalize: bool) {
    match p
    case Char(c) =>
      && cc.Test(c) && (normalize ==> !IsWhitespace(c))
      && (c == '&' && !f.noEntityTranslation ==> !NamesReference(rest))
    case Blanks(w) => normalize && w != "" && Blank(w) && (rest != "" ==> !IsWhitespace(rest[0]))
    case Named(c) => !f.noEntityTranslation && Predefined(c)
    case Number(hex, digits) =>
      !f.noEntityTranslation && AllDigits(digits) && Codable(Value(digits, Radix(hex)) % CodeRange(f), f)
  }

  predicate WellSpelled(ps: seq<Piece>, cc: CharClass, f: Flags, normalize: bool) {
    ps != [] ==> Fits(ps[0], SpellAll(ps[1..]), cc, f, normalize) && WellSpelled(ps[1..], cc, f, normalize)
  }

  /** The classes values are read with. */
  predicate ValueClass(cc: CharClass) { cc == Text || cc == AttributeData('\'') || cc == AttributeData('"') }

  // ---------------------------------------------------------------------------------------------
  // Named references

  lemma NamedIs(s: seq<char>, i: nat)
    requires Terminated(s) && i + 1 < |s| && s[i] == '&'
    ensures var (c, length) := NamedReference(s, i);
      && (length > 0 ==> Predefined(c) && length == 1 + |EntityName(c)| && Matches(s, i + 1, EntityName(c)))
      && (forall d | Predefined(d) && Matches(s, i + 1, EntityName(d)) :: length > 0 && c == d)
  {
    hide NamedReference, Matches;
    NamesAt(s, i);
    assert EntityName('<') == "lt;" && EntityName('>') == "gt;" && EntityName('&') == "amp;";
    assert EntityName('\'') == "apos;" && EntityName('"') == "quot;";
  }

  /** Which name stands there, if any. */
  lemma NamesAt(s: seq<char>, i: nat)
    requires Terminated(s) && i + 1 < |s| && s[i] == '&'
    ensures NamedReference(s, i) ==
            if Matches(s, i + 1, "lt;") then ('<', 4)
            else if Matches(s, i + 1, "gt;") then ('>', 4)
            else if Matches(s, i + 1, "amp;") then ('&', 5)
            else if Matches(s, i + 1, "apos;") then ('\'', 6)
            else if Matches(s, i + 1, "quot;") then ('"', 6)
            else (NUL, 0)
    ensures Matches(s, i + 1, "lt;") ==> s[i + 1] == 'l'
    ensures Matches(s, i + 1, "gt;") ==> s[i + 1] == 'g'
    ensures Matches(s, i + 1, "amp;") ==> s[i + 1] == 'a' && i + 2 < |s| && s[i + 2] == 'm'
    ensures Matches(s, i + 1, "apos;") ==> s[i + 1] == 'a' && i + 2 < |s| && s[i + 2] == 'p'
    ensures Matches(s, i + 1, "quot;") ==> s[i + 1] == 'q'
  {
    hide Matches;
    NameAt(s, i + 1, "lt;");
    NameAt(s, i + 1, "gt;");
    NameAt(s, i + 1, "amp;");
    NameAt(s, i + 1, "apos;");
    NameAt(s, i + 1, "quot;");
  }

  lemma NameAt(s: seq<char>, i: nat, name: string)
    requires 3 <= |name| <= 5
    ensures Matches(s, i, name) <==>
            && i + |name| <= |s| && s[i] == name[0] && s[i + 1] == name[1] && s[i + 2] == name[2]
            && (|name| > 3 ==> s[i + 3] == name[3]) && (|name| > 4 ==> s[i + 4] == name[4])
  {
    if i + |name| <= |s| {
      var t := s[i..i + |name|];
      assert t[0] == s[i] && t[1] == s[i + 1] && t[2] == s[i + 2];
      assert |name| > 3 ==> t[3] == s[i + 3];
      assert |name| > 4 ==> t[4] == s[i + 4];
      assert |t| == |name|;
      if t[0] == name[0] && t[1] == name[1] && t[2] == name[2] && (|name| > 3 ==> t[3] == name[3]) && (|name| > 4 ==> t[4] == name[4]) {
        assert forall k | 0 <= k < |name| :: t[k] == name[k];
        assert t == name;
      }
    }
  }

  /** A name in the text after an ampersand lies within the value. */
  lemma NameInValue(s: seq<char>, i: nat, rest: string, name: string)
    requires Matches(s, i, rest) && i + |rest| < |s| && forall k | 0 <= k < |name| :: s[i + |rest|] != name[k]
    ensures Matches(s, i, name) <==> Matches(rest, 0, name)
  {
    if |name| <= |rest| {
      assert rest[0..|name|] == s[i..i + |rest|][0..|name|] == s[i..i + |name|];
    } else if i + |name| <= |s| {
      assert s[i..i + |name|][|rest|] == s[i + |rest|];
    }
  }

  /** The decoder takes an ampersand for a reference exactly if the rest of the value names one. */
  lemma Ampersand(s: seq<char>, i: nat, rest: string, cc: CharClass)
    requires Terminated(s) && ValueClass(cc) && i + 1 < |s| && s[i] == '&'
    requires Matches(s, i + 1, rest) && i + 1 + |rest| < |s| && !cc.Test(s[i + 1 + |rest|])
    ensures NamesReference(rest) <==> NamedReference(s, i).1 > 0 || s[i + 1] == '#'
  {
    hide NamedReference, Matches;
    NamedIs(s, i);
    NameInValue(s, i + 1, rest, "lt;");
    NameInValue(s, i + 1, rest, "gt;");
    NameInValue(s, i + 1, rest, "amp;");
    NameInValue(s, i + 1, rest, "apos;");
    NameInValue(s, i + 1, rest, "quot;");
    NameInValue(s, i + 1, rest, "#");
    HashAt(s, i + 1);
    assert EntityName('<') == "lt;" && EntityName('>') == "gt;" && EntityName('&') == "amp;";
    assert EntityName('\'') == "apos;" && EntityName('"') == "quot;";
  }

  lemma HashAt(s: seq<char>, i: nat)
    requires i < |s|
    ensures Matches(s, i, "#") <==> s[i] == '#'
  {
    assert s[i..i + 1] == [s[i]];
  }

  // ---------------------------------------------------------------------------------------------
  // Reading what is spelled

  lemma CharUnit(s: seq<char>, i: nat, dest: nat, c: char, rest: string, cc: CharClass, f: Flags, normalize: bool)
    requires Terminated(s) && ValueClass(cc) && Fits(Char(c), rest, cc, f, normalize)
    requires Matches(s, i, [c] + rest) && i + 1 + |rest| < |s| && !cc.Test(s[i + 1 + |rest|])
    ensures cc.Test(s[i]) && Unit(s, i, dest, f, normalize) == Ok([c], i + 1)
  {
    hide NamedReference, NumericReference, Skip, NamesReference;
    MatchesConcat(s, i, [c], rest);
    FirstIs(s, i, c);
    if c == '&' { Ampersand(s, i, rest, cc); }
  }

  lemma BlanksUnit(s: seq<char>, i: nat, dest: nat, w: string, rest: string, cc: CharClass, f: Flags)
    requires Terminated(s) && ValueClass(cc) && Fits(Blanks(w), rest, cc, f, true)
    requires Matches(s, i, w + rest) && i + |w| + |rest| < |s| && !cc.Test(s[i + |w| + |rest|])
    ensures cc.Test(s[i]) && Unit(s, i, dest, f, true) == Ok(" ", i + |w|)
  {
    hide NamedReference, NumericReference, Matches;
    MatchesConcat(s, i, w, rest);
    forall k | i <= k < i + |w| ensures IsWhitespace(s[k]) {
      CharAt(s, i, w, k - i);
    }
    if rest != "" { CharAt(s, i + |w|, rest, 0); }
    SkipIs(s, i + 1, Whitespace, i + |w|);
  }

  lemma CharAt(s: seq<char>, i: nat, p: string, k: nat)
    requires Matches(s, i, p) && k < |p|
    ensures i + k < |s| && s[i + k] == p[k]
  {
    assert s[i..i + |p|][k] == s[i + k];
  }

  lemma NamedUnit(s: seq<char>, i: nat, dest: nat, c: char, f: Flags, normalize: bool)
    requires Terminated(s) && Predefined(c) && !f.noEntityTranslation && Matches(s, i, "&" + EntityName(c))
    ensures i + 1 < |s| && s[i] == '&' && Unit(s, i, dest, f, normalize) == Ok([c], i + 1 + |EntityName(c)|)
  {
    hide NamedReference, NumericReference, Matches;
    MatchesConcat(s, i, "&", EntityName(c));
    FirstIs(s, i, '&');
    LastIsNul(s, i);
    NamedIs(s, i);
  }

  lemma NumberUnit(s: seq<char>, i: nat, dest: nat, hex: bool, digits: string, f: Flags, normalize: bool)
    requires Terminated(s) && Fits(Number(hex, digits), "", Text, f, normalize) && Matches(s, i, Reference(hex, digits))
    ensures i + 1 < |s| && s[i] == '&'
    ensures Unit(s, i, dest, f, normalize) == Ok(Meaning(Number(hex, digits), f), i + |Reference(hex, digits)|)
  {
    hide NamedReference, NumericReference, Matches, Value, Reference;
    ReferenceRead(s, i, hex, digits, dest, f);
    NoNameAtHash(s, i);
  }

  lemma NoNameAtHash(s: seq<char>, i: nat)
    requires Terminated(s) && i + 1 < |s| && s[i] == '&' && s[i + 1] == '#'
    ensures NamedReference(s, i).1 == 0
  {
  }

  /** One piece is one step of the decoder. */
  lemma PieceUnit(s: seq<char>, i: nat, dest: nat, p: Piece, rest: string, cc: CharClass, f: Flags, normalize: bool)
    requires Terminated(s) && ValueClass(cc) && Fits(p, rest, cc, f, normalize)
    requires Matches(s, i, Spelling(p) + rest) && i + |Spelling(p)| + |rest| < |s|
    requires !cc.Test(s[i + |Spelling(p)| + |rest|])
    ensures i < |s| && cc.Test(s[i])
    ensures i + 1 < |s| && Unit(s, i, dest, f, normalize) == Ok(Meaning(p, f), i + |Spelling(p)|)
  {
    hide Unit, Matches, Value;
    MatchesConcat(s, i, Spelling(p), rest);
    match p
    case Char(c) => CharUnit(s, i, dest, c, rest, cc, f, normalize);
    case Blanks(w) => BlanksUnit(s, i, dest, w, rest, cc, f);
    case Named(c) => NamedUnit(s, i, dest, c, f, normalize);
    case Number(hex, digits) => NumberUnit(s, i, dest, hex, digits, f, normalize);
  }

  /** The decoder reads a well-spelled value as what it means. */
  lemma {:induction false} PiecesRead(s: seq<char>, i: nat, dest: nat, ps: seq<Piece>, cc: CharClass, f: Flags, normalize: bool)
    requires Terminated(s) && ValueClass(cc) && WellSpelled(ps, cc, f, normalize)
    requires Matches(s, i, SpellAll(ps)) && i + |SpellAll(ps)| < |s| && !cc.Test(s[i + |SpellAll(ps)|])
    ensures Expand(s, i, dest, cc, f, normalize) == Ok(MeanAll(ps, f), i + |SpellAll(ps)|)
    decreases |ps|
  {
    hide Unit, Expand, Fits, Spelling, Meaning, Matches, CharClass.Test;
    if ps == [] {
      ExpandStops(s, i, dest, cc, f, normalize);
    } else {
      var p, rest := ps[0], SpellAll(ps[1..]);
      PieceUnit(s, i, dest, p, rest, cc, f, normalize);
      MatchesConcat(s, i, Spelling(p), rest);
      var j := i + |Spelling(p)|;
      ExpandStep(s, i, dest, cc, f, normalize, Meaning(p, f), j);
      PiecesRead(s, j, dest + |Meaning(p, f)|, ps[1..], cc, f, normalize);
    }
  }

  // ---------------------------------------------------------------------------------------------
  // Spelling what was read

  /** The piece a step of the decoder read, before the rest of the value. */
  lemma UnitPiece(s: seq<char>, i: nat, dest: nat, end: nat, cc: CharClass, f: Flags, normalize: bool) returns (p: Piece)
    requires Terminated(s) && ValueClass(cc) && i + 1 < |s| && cc.Test(s[i]) && Unit(s, i, dest, f, normalize).Ok?
    requires var j := Unit(s, i, dest, f, normalize).text; j <= end < |s| && !cc.Test(s[end])
    ensures var u := Unit(s, i, dest, f, normalize);
      && Spelling(p) == s[i..u.text] && Meaning(p, f) == u.value && Fits(p, s[u.text..end], cc, f, normalize)
  {
    hide NamedReference, NumericReference, Matches, NamesReference;
    var u := Unit(s, i, dest, f, normalize);
    if f.noEntityTranslation || s[i] != '&' {
      p := PlainPiece(s, i, end, cc, f, normalize);
    } else {
      NamedIs(s, i);
      if NamedReference(s, i).1 > 0 {
        p := Named(NamedReference(s, i).0);
        SliceIs(s, i, '&', EntityName(p.c));
      } else if s[i + 1] == '#' {
        p := NumberPiece(s, i, dest, f);
      } else {
        RestMatches(s, i + 1, end);
        Ampersand(s, i, s[i + 1..end], cc);
        p := PlainPiece(s, i, end, cc, f, normalize);
      }
    }
  }

  lemma RestMatches(s: seq<char>, i: nat, end: nat)
    requires i <= end <= |s|
    ensures Matches(s, i, s[i..end])
  {
  }

  lemma SliceIs(s: seq<char>, i: nat, c: char, p: string)
    requires i < |s| && s[i] == c && Matches(s, i + 1, p)
    ensures s[i..i + 1 + |p|] == [c] + p
  {
    assert s[i..i + 1 + |p|] == [s[i]] + s[i + 1..i + 1 + |p|];
  }

  lemma PlainPiece(s: seq<char>, i: nat, end: nat, cc: CharClass, f: Flags, normalize: bool) returns (p: Piece)
    requires Terminated(s) && ValueClass(cc) && i + 1 < |s| && cc.Test(s[i])
    requires Plain(s, i, normalize).text <= end < |s| && !cc.Test(s[end])
    requires s[i] == '&' && !f.noEntityTranslation ==> !NamesReference(s[i + 1..end])
    ensures var u := Plain(s, i, normalize);
      && Spelling(p) == s[i..u.text] && Meaning(p, f) == u.value && Fits(p, s[u.text..end], cc, f, normalize)
  {
    hide NamesReference;
    var u := Plain(s, i, normalize);
    if normalize && IsWhitespace(s[i]) {
      p := Blanks(s[i..u.text]);
      assert s[i..u.text][0] == s[i];
      forall k | 0 <= k < |s[i..u.text]| ensures IsWhitespace(s[i..u.text][k]) {
        assert s[i..u.text][k] == s[i + k];
        assert k > 0 ==> Whitespace.Test(s[i + k]);
      }
      assert !Whitespace.Test(s[u.text]);
    } else {
      p := Char(s[i]);
    }
  }

  lemma NumberPiece(s: seq<char>, i: nat, dest: nat, f: Flags) returns (p: Piece)
    requires Terminated(s) && i + 2 < |s| && s[i] == '&' && s[i + 1] == '#' && !f.noEntityTranslation
    requires NumericReference(s, i, dest, f).Ok?
    ensures var u := NumericReference(s, i, dest, f);
      && Spelling(p) == s[i..u.text] && Meaning(p, f) == u.value && forall rest, cc, normalize :: Fits(p, rest, cc, f, normalize)
  {
    hide NumericReference, ScanDigits, Value, Coded, Digit, Matches, Codable, Reference;
    var hex := s[i + 2] == 'x';
    var start := if hex then i + 3 else i + 2;
    NumberIs(s, i, dest, f);
    var end := ScanDigits(s, start, Radix(hex), 0, f).1;
    ScanStops(s, start, Radix(hex), 0, f);
    var digits := s[start..end];
    p := Number(hex, digits);
    NoDigits(Radix(hex));
    assert "" + digits == digits;
    RestMatches(s, start, end);
    DigitsScanned(s, start, end);
    ScanIsValue(s, start, "", digits, Radix(hex), f);
    ReferenceJoined(s, i, hex, start, end);
  }

  lemma NumberIs(s: seq<char>, i: nat, dest: nat, f: Flags)
    requires Terminated(s) && i + 2 < |s| && NumericReference(s, i, dest, f).Ok?
    ensures var hex := s[i + 2] == 'x';
      var start := if hex then i + 3 else i + 2;
      && start < |s|
      && var (code, end) := ScanDigits(s, start, Radix(hex), 0, f);
      && s[end] == ';' && Codable(code, f) && NumericReference(s, i, dest, f) == Ok(Coded(code, f), end + 1)
  {
    hide ScanDigits, Coded;
  }

  lemma ReferenceJoined(s: seq<char>, i: nat, hex: bool, start: nat, end: nat)
    requires i + 2 < |s| && s[i] == '&' && s[i + 1] == '#' && (hex <==> s[i + 2] == 'x') && start == (if hex then i + 3 else i + 2)
    requires start <= end < |s| && s[end] == ';'
    ensures s[i..end + 1] == Reference(hex, s[start..end])
  {
    var mark := if hex then "x" else "";
    assert s[i..i + 2] == "&#" && s[i + 2..start] == mark;
    assert s[start..end + 1] == s[start..end] + ";";
    assert s[i + 2..end + 1] == s[i + 2..start] + s[start..end + 1];
    assert s[i..end + 1] == s[i..i + 2] + s[i + 2..end + 1];
  }

  lemma {:induction false} ScanStops(s: seq<char>, i: nat, radix: nat, code: nat, f: Flags)
    requires Terminated(s) && i < |s| && code < CodeRange(f)
    ensures var end := ScanDigits(s, i, radix, code, f).1;
      i <= end < |s| && Digit(s[end]) == 255 && forall k | i <= k < end :: Digit(s[k]) != 255
    decreases |s| - i
  {
    hide Digit;
    if Digit(s[i]) != 255 { ScanStops(s, i + 1, radix, (code * radix + Digit(s[i])) % CodeRange(f), f); }
  }

  lemma DigitsScanned(s: seq<char>, i: nat, end: nat)
    requires i <= end < |s| && forall k | i <= k < end :: Digit(s[k]) != 255
    ensures AllDigits(s[i..end])
  {
    hide Digit;
  }

  /** Whatever the decoder reads is well spelled, and means what it was read as. */
  lemma {:induction false} PiecesOf(s: seq<char>, i: nat, dest: nat, cc: CharClass, f: Flags, normalize: bool) returns (ps: seq<Piece>)
    requires Terminated(s) && ValueClass(cc) && i < |s| && Expand(s, i, dest, cc, f, normalize).Ok?
    ensures var r := Expand(s, i, dest, cc, f, normalize);
      WellSpelled(ps, cc, f, normalize) && SpellAll(ps) == s[i..r.text] && MeanAll(ps, f) == r.value
    decreases |s| - i
  {
    hide Unit, Fits, Spelling, Meaning, Matches;
    if !cc.Test(s[i]) {
      ps := [];
      assert s[i..i] == "";
    } else {
      var r := Expand(s, i, dest, cc, f, normalize);
      var u := Unit(s, i, dest, f, normalize);
      var tail := PiecesOf(s, u.text, dest + |u.value|, cc, f, normalize);
      var p := UnitPiece(s, i, dest, r.text, cc, f, normalize);
      ps := [p] + tail;
      assert ps[1..] == tail;
      assert s[i..u.text] + s[u.text..r.text] == s[i..r.text];
    }
  }
}
