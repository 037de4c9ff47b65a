/** Condensing whitespace: what printed text is read as when runs of whitespace are normalized. */
module XmlCondense {
  import opened XmlChars
  import opened XmlReferences

  function AfterBlank(v: string): (r: string)
    ensures |r| <= |v| && (r != "" ==> !IsWhitespace(r[0]))
    ensures NUL !in v ==> NUL !in r
  {
    if v != "" && IsWhitespace(v[0]) then AfterBlank(v[1..]) else v
  }

  /** Every run of whitespace as one space. */
  function Condense(v: string): (r: string)
    ensures |r| <= |v|
    decreases |v|
  {
    if v == "" then ""
    else if IsWhitespace(v[0]) then " " + Condense(AfterBlank(v[1..]))
    else [v[0]] + Condense(v[1..])
  }

  /** All whitespace is single spaces. */
  predicate Condensed(v: string) {
    forall k | 0 <= k < |v| && IsWhitespace(v[k]) :: v[k] == ' ' && (k + 1 < |v| ==> !IsWhitespace(v[k + 1]))
  }

  /** Condensing leaves just such text as it is. */
  lemma {:induction false} CondenseStays(v: string)
    ensures Condense(v) == v <==> Condensed(v)
    decreases |v|
  {
    if v != "" {
      var tail := v[1..];
      assert v == [v[0]] + tail;
      CondensedTail(v);
      if IsWhitespace(v[0]) && tail != "" && IsWhitespace(tail[0]) {
        assert |Condense(v)| <= 1 + |AfterBlank(tail)| < |v|;
      } else {
        CondenseStays(tail);
      }
    }
  }

  lemma CondensedTail(v: string)
    requires v != ""
    ensures Condensed(v) <==>
            Condensed(v[1..]) && (IsWhitespace(v[0]) ==> v[0] == ' ' && (|v| > 1 ==> !IsWhitespace(v[1])))
  {
    if Condensed(v[1..]) {
      forall k | 0 < k < |v| && IsWhitespace(v[k]) ensures v[k] == ' ' && (k + 1 < |v| ==> !IsWhitespace(v[k + 1])) {
        assert v[k] == v[1..][k - 1];
        assert k + 1 < |v| ==> v[k + 1] == v[1..][k];
      }
    }
    if Condensed(v) {
      forall k | 0 <= k < |v[1..]| && IsWhitespace(v[1..][k])
        ensures v[1..][k] == ' ' && (k + 1 < |v[1..]| ==> !IsWhitespace(v[1..][k + 1]))
      {
        assert v[k + 1] == v[1..][k];
      }
    }
  }

  /** Skipping whitespace in printed text that is followed by none. */
  lemma {:induction false} SkipToText(s: seq<char>, i: nat, v: string)
    requires Terminated(s) && Matches(s, i, Escape(v, NUL))
    requires i + |Escape(v, NUL)| < |s| && !IsWhitespace(s[i + |Escape(v, NUL)|])
    ensures |Escape(AfterBlank(v), NUL)| <= |Escape(v, NUL)|
    ensures Skip(s, i, Whitespace) == i + |Escape(v, NUL)| - |Escape(AfterBlank(v), NUL)|
    ensures Matches(s, Skip(s, i, Whitespace), Escape(AfterBlank(v), NUL))
    decreases |v|
  {
    hide EscapeChar, Matches;
    if v != "" {
      var h, t := EscapeChar(v[0], NUL), Escape(v[1..], NUL);
      MatchesConcat(s, i, h, t);
      if IsWhitespace(v[0]) {
        BlankIsPrinted(s, i, v[0]);
        SkipToText(s, i + 1, v[1..]);
      } else {
        TextIsPrinted(s, i, v[0]);
      }
    }
  }

  lemma TextIsPrinted(s: seq<char>, i: nat, c: char)
    requires !IsWhitespace(c) && Matches(s, i, EscapeChar(c, NUL))
    ensures i < |s| && !IsWhitespace(s[i])
  {
    var e := EscapeChar(c, NUL);
    assert s[i..i + |e|][0] == s[i];
  }

  /** Decoding escaped text while condensing whitespace condenses it. */
  lemma {:induction false} ExpandCondenses(s: seq<char>, i: nat, dest: nat, v: string, f: Flags)
    requires NUL !in v && !f.noEntityTranslation && Terminated(s) && Matches(s, i, Escape(v, NUL))
    requires i + |Escape(v, NUL)| < |s| && !Text.Test(s[i + |Escape(v, NUL)|])
    ensures Expand(s, i, dest, Text, f, true) == Ok(Condense(v), i + |Escape(v, NUL)|)
    decreases |v|
  {
    hide Expand, EscapeChar, Matches, Skip, Unit;
    if v == "" {
      ExpandStops(s, i, dest, Text, f, true);
    } else {
      var h, t := EscapeChar(v[0], NUL), Escape(v[1..], NUL);
      MatchesConcat(s, i, h, t);
      if IsWhitespace(v[0]) {
        BlankIsPrinted(s, i, v[0]);
        SkipToText(s, i + 1, v[1..]);
        var next := Skip(s, i + 1, Whitespace);
        BlankUnit(s, i, dest, f);
        ExpandStep(s, i, dest, Text, f, true, " ", next);
        ExpandCondenses(s, next, dest + 1, AfterBlank(v[1..]), f);
      } else {
        EscapedStep(s, i, dest, v[0], Text, NUL, f, true);
        ExpandCondenses(s, i + |h|, dest + 1, v[1..], f);
      }
    }
  }

  lemma BlankIsPrinted(s: seq<char>, i: nat, c: char)
    requires IsWhitespace(c) && Matches(s, i, EscapeChar(c, NUL))
    ensures |EscapeChar(c, NUL)| == 1 && i < |s| && s[i] == c
  {
  }

  lemma BlankUnit(s: seq<char>, i: nat, dest: nat, f: Flags)
    requires Terminated(s) && i + 1 < |s| && IsWhitespace(s[i])
    ensures Unit(s, i, dest, f, true) == Ok(" ", Skip(s, i + 1, Whitespace))
  {
  }

  /** What printed data text is read as. */
  function ReadAs(v: string, f: Flags): string { if f.normalizeWhitespace then Condense(v) else v }

  lemma ExpandPrinted(s: seq<char>, i: nat, dest: nat, v: string, f: Flags)
    requires NUL !in v && !f.noEntityTranslation && Terminated(s) && Matches(s, i, Escape(v, NUL))
    requires i + |Escape(v, NUL)| < |s| && !Text.Test(s[i + |Escape(v, NUL)|])
    ensures Expand(s, i, dest, Text, f, f.normalizeWhitespace) == Ok(ReadAs(v, f), i + |Escape(v, NUL)|)
  {
    hide Expand, Escape, Condense, Matches;
    if f.normalizeWhitespace { ExpandCondenses(s, i, dest, v, f); } else { ExpandEscape(s, i, dest, v, Text, NUL, f); }
  }
}
