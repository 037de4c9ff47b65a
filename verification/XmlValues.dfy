/** Values as they are spelled: characters, blanks and references, and what reading them gives. Numbers are
    spelled by quotient and remainder, apart from how the decoder scans them. */
module XmlValues {
  import opened Arithmetic
  import opened Options
  import opened XmlChars
  import opened XmlReferences

  // ---------------------------------------------------------------------------------------------
  // Numbers

  /** The character for a digit below 16. */
  function DigitChar(n: nat, upper: bool): char
    requires n < 16
  {
    if n < 10 then ('0' as int + n) as char
    else if upper then ('A' as int + n - 10) as char else ('a' as int + n - 10) as char
  }

  /** The decoder gives each digit its value, and takes nothing else for a digit. */
  lemma DigitIs(c: char)
    ensures forall n: nat, upper | n < 16 && c == DigitChar(n, upper) :: Digit(c) == n
    ensures (forall n: nat, upper | n < 16 :: c != DigitChar(n, upper)) ==> Digit(c) == 255
  {
    if Digit(c) != 255 {
      var n := Digit(c);
      assert c == DigitChar(n, false) || c == DigitChar(n, true);
    }
  }

  predicate AllDigits(digits: string) { forall k | 0 <= k < |digits| :: Digit(digits[k]) != 255 }

  /** The number the digits stand for. */
  function Value(digits: string, radix: nat): nat {
    if digits == "" then 0 else Value(digits[..|digits| - 1], radix) * radix + Digit(digits[|digits| - 1])
  }

  /** The text of a number. */
  function Spelled(n: nat, radix: nat, upper: bool): (r: string)
    requires 2 <= radix <= 16
    ensures |r| > 0
    decreases n
  {
    if n < radix then [DigitChar(n, upper)]
    else Smaller(n, radix); Spelled(n / radix, radix, upper) + [DigitChar(n % radix, upper)]
  }

  lemma Smaller(n: nat, radix: nat)
    requires 2 <= radix <= n
    ensures 0 <= n / radix < n && 0 <= n % radix < radix && n == n / radix * radix + n % radix
  {
    var q, r := n / radix, n % radix;
    assert n == q * radix + r;
    if q >= n { Scale(n, q, radix); Scale(2, radix, n); }
    if q < 0 { Scale(q, -1, radix); }
  }

  lemma ValueSnoc(head: string, c: char, radix: nat)
    ensures Value(head + [c], radix) == Value(head, radix) * radix + Digit(c)
  {
    assert (head + [c])[..|head|] == head;
  }

  /** The text of a number stands for it. */
  lemma {:induction false} SpelledValue(n: nat, radix: nat, upper: bool)
    requires 2 <= radix <= 16
    ensures AllDigits(Spelled(n, radix, upper)) && Value(Spelled(n, radix, upper), radix) == n
    decreases n
  {
    hide Digit, Value;
    if n < radix {
      DigitIs(DigitChar(n, upper));
      ValueSnoc("", DigitChar(n, upper), radix);
      NoDigits(radix);
      assert "" + [DigitChar(n, upper)] == [DigitChar(n, upper)];
    } else {
      Smaller(n, radix);
      SpelledValue(n / radix, radix, upper);
      DigitIs(DigitChar(n % radix, upper));
      ValueSnoc(Spelled(n / radix, radix, upper), DigitChar(n % radix, upper), radix);
    }
  }

  lemma NoDigits(radix: nat)
    ensures Value("", radix) == 0 && 0 * radix == 0
  {
  }

  // ---------------------------------------------------------------------------------------------
  // Numeric references

  /** Scanning digits computes their number, wrapped. */
  lemma {:induction false} ScanIsValue(s: seq<char>, i: nat, done: string, digits: string, radix: nat, f: Flags)
    requires Terminated(s) && AllDigits(digits) && Matches(s, i, digits) && i + |digits| < |s|
    requires Digit(s[i + |digits|]) == 255
    ensures ScanDigits(s, i, radix, Value(done, radix) % CodeRange(f), f)
         == (Value(done + digits, radix) % CodeRange(f), i + |digits|)
    decreases |digits|
  {
    hide Digit, Value, Matches;
    if digits == "" {
      assert done + digits == done;
    } else {
      var c, rest := digits[0], digits[1..];
      assert digits == [c] + rest;
      MatchesConcat(s, i, [c], rest);
      FirstIs(s, i, c);
      ScanIsValue(s, i + 1, done + [c], rest, radix, f);
      assert done + [c] + rest == done + digits;
      ValueSnoc(done, c, radix);
      WrapOnce(Value(done, radix), radix, Digit(c), CodeRange(f));
    }
  }

  lemma FirstIs(s: seq<char>, i: nat, c: char)
    requires Matches(s, i, [c])
    ensures i < |s| && s[i] == c
  {
    assert s[i..i + 1][0] == s[i];
  }

  lemma WrapOnce(n: nat, radix: nat, d: nat, range: nat)
    requires range > 0
    ensures (n % range * radix + d) % range == (n * radix + d) % range
  {
    var q, r := n / range, n % range;
    assert n == q * range + r;
    assert n * radix + d == r * radix + d + (q * radix) * range by {
      assert (q * range + r) * radix == (q * range) * radix + r * radix;
      assert (q * range) * radix == (q * radix) * range;
    }
    AddMultiple(r * radix + d, q * radix, range);
  }

  /** The text of a reference to a number. */
  function Reference(hex: bool, digits: string): string { "&#" + ((if hex then "x" else "") + (digits + ";")) }

  function Radix(hex: bool): nat { if hex then 16 else 10 }

  /** A reference with any digits is read as the number they stand for, wrapped. */
  lemma ReferenceRead(s: seq<char>, i: nat, hex: bool, digits: string, dest: nat, f: Flags)
    requires Terminated(s) && AllDigits(digits) && Matches(s, i, Reference(hex, digits))
    ensures i + |Reference(hex, digits)| < |s|
    ensures s[i] == '&' && s[i + 1] == '#'
    ensures var code := Value(digits, Radix(hex)) % CodeRange(f);
      NumericReference(s, i, dest, f) ==
      if !f.noUtf8 && code >= CODE_LIMIT then Error(InvalidNumericEntity, dest)
      else Ok(Coded(code, f), i + |Reference(hex, digits)|)
  {
    hide Value, Digit, Matches, ScanDigits, Coded;
    var mark, start := if hex then "x" else "", if hex then i + 3 else i + 2;
    MatchesConcat(s, i, "&#", mark + (digits + ";"));
    MatchesConcat(s, i + 2, mark, digits + ";");
    MatchesConcat(s, start, digits, ";");
    MarkIs(s, i, "&#");
    FirstIs(s, start + |digits|, ';');
    LastIsNul(s, start + |digits|);
    NoDigits(Radix(hex));
    assert "" + digits == digits;
    assert Digit(';') == 255 by { DigitOfSemicolon(); }
    ScanIsValue(s, start, "", digits, Radix(hex), f);
    if hex { FirstIs(s, i + 2, 'x'); } else { NotMarked(s, i + 2, digits); }
  }

  lemma DigitOfSemicolon()
    ensures Digit(';') == 255 && Digit('x') == 255
  {
  }

  lemma MarkIs(s: seq<char>, i: nat, mark: string)
    requires Matches(s, i, mark) && |mark| == 2
    ensures i + 1 < |s| && s[i] == mark[0] && s[i + 1] == mark[1]
  {
    MatchesTwo(s, i, mark);
  }

  lemma LastIsNul(s: seq<char>, i: nat)
    requires Terminated(s) && i < |s| && s[i] != NUL
    ensures i + 1 < |s|
  {
  }

  /** Decimal digits never look like the mark of a hexadecimal number. */
  lemma NotMarked(s: seq<char>, i: nat, digits: string)
    requires AllDigits(digits) && Matches(s, i, digits) && Matches(s, i + |digits|, ";")
    ensures i < |s| && s[i] != 'x'
  {
    DigitOfSemicolon();
    if digits == "" {
      FirstIs(s, i, ';');
    } else {
      assert s[i..i + |digits|][0] == s[i];
    }
  }

  /** A number spelled in decimal or hexadecimal digits, in either case, and read back: for every code of Unicode
      but the surrogates the bytes are its UTF-8. */
  lemma SpelledReference(s: seq<char>, i: nat, code: nat, hex: bool, upper: bool, dest: nat, f: Flags)
    requires Terminated(s) && code < CODE_LIMIT && !f.noUtf8
    requires Matches(s, i, Reference(hex, Spelled(code, Radix(hex), upper)))
    ensures i + |Reference(hex, Spelled(code, Radix(hex), upper))| < |s|
    ensures var r := NumericReference(s, i, dest, f);
      && r.Ok? && r.text == i + |Reference(hex, Spelled(code, Radix(hex), upper))|
      && (Rfc3629Decode(r.value) == Some(code) <==> !Surrogate(code))
  {
    hide Spelled, Utf8, Reference, Matches, Rfc3629Decode;
    SpelledValue(code, Radix(hex), upper);
    ReferenceRead(s, i, hex, Spelled(code, Radix(hex), upper), dest, f);
    Utf8DecodesBack(code);
  }

  /** Numbers beyond Unicode are refused, up to the 64 or 32 bits of a long; from there on they count again from 0.
      Without UTF-8 the low eight bits are left of any number. */
  lemma LargeReference(s: seq<char>, i: nat, n: nat, hex: bool, upper: bool, dest: nat, f: Flags)
    requires Terminated(s) && Matches(s, i, Reference(hex, Spelled(n, Radix(hex), upper)))
    ensures s[i] == '&' && i + |Reference(hex, Spelled(n, Radix(hex), upper))| < |s|
    ensures !f.noUtf8 ==>
      var code := n % if f.wideLong then 0x1_0000_0000_0000_0000 else 0x1_0000_0000;
      var r := NumericReference(s, i, dest, f);
      && (r == Error(InvalidNumericEntity, dest) <==> code >= 0x110000)
      && (code < 0x110000 && !Surrogate(code) ==> r.Ok? && Rfc3629Decode(r.value) == Some(code))
    ensures f.noUtf8 ==>
      var r := NumericReference(s, i, dest, f); r.Ok? && |r.value| == 1 && r.value[0] as int == n % 256
  {
    hide Spelled, Utf8, Reference, Matches, Rfc3629Decode;
    SpelledValue(n, Radix(hex), upper);
    ReferenceRead(s, i, hex, Spelled(n, Radix(hex), upper), dest, f);
    var code := n % CodeRange(f);
    if code < CODE_LIMIT { Utf8DecodesBack(code); }
    LowByte(n, f);
  }

  lemma LowByte(n: nat, f: Flags)
    ensures n % CodeRange(f) % 256 == n % 256
  {
    var range := CodeRange(f);
    var q := n / range;
    assert n == n % range + q * range;
    assert q * range == (q * (range / 256)) * 256;
    AddMultiple(n % range, q * (range / 256), 256);
  }
}
