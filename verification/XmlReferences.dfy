/** Character references: the pure decoder of references and whitespace runs, its in-place form,
    and the escaping the printer applies. */
module XmlReferences {
  import opened Options
  import opened XmlChars

  // ---------------------------------------------------------------------------------------------
  // Coded characters

  /** How many codes the decoder's unsigned long tells apart: it has 64 bits on Linux and 32 on Windows. */
  function CodeRange(f: Flags): nat { if f.wideLong then 0x1_0000_0000_0000_0000 else 0x1_0000_0000 }

  const CODE_LIMIT: nat := 0x110000

  function Byte(n: nat): (c: char)
    requires n < 256
    ensures c as int == n
  {
    n as char
  }

  /** UTF-8 form of a code; (code | 0x80) & 0xBF keeps the low six bits under 0x80. */
  function Utf8(code: nat): (bytes: string)
    requires code < CODE_LIMIT
    ensures 1 <= |bytes| <= 4
    ensures forall k | 0 <= k < |bytes| :: bytes[k] as int < 256
  {
    if code < 0x80 then
      [Byte(code)]
    else if code < 0x800 then
      [Byte(0xC0 + code / 64), Byte(0x80 + code % 64)]
    else if code < 0x10000 then
      [Byte(0xE0 + code / 64 / 64), Byte(0x80 + code / 64 % 64), Byte(0x80 + code % 64)]
    else
      [Byte(0xF0 + code / 64 / 64 / 64), Byte(0x80 + code / 64 / 64 % 64),
       Byte(0x80 + code / 64 % 64), Byte(0x80 + code % 64)]
  }

  /** What insert_coded_character leaves for a code it accepts. */
  function Coded(code: nat, f: Flags): (bytes: string)
    requires f.noUtf8 || code < CODE_LIMIT
    ensures 1 <= |bytes| <= 4
    ensures code < 0x80 ==> bytes == [Byte(code)]
  {
    if f.noUtf8 then [Byte(code % 256)] else Utf8(code)
  }

  predicate Tail(c: char) { 0x80 <= c as int <= 0xBF }

  /** Decoder for one character by the syntax of section 4 and the bit layout of section 3 of RFC 3629. */
  function Rfc3629Decode(b: string): (code: Option<nat>) {
    if |b| == 1 && b[0] as int <= 0x7F then
      Some(b[0] as int)
    else if |b| == 2 && 0xC2 <= b[0] as int <= 0xDF && Tail(b[1]) then
      Some((b[0] as int - 0xC0) * 64 + (b[1] as int - 0x80))
    else if |b| == 3 && 0xE0 <= b[0] as int <= 0xEF && Tail(b[1]) && Tail(b[2])
      && (b[0] as int == 0xE0 ==> b[1] as int >= 0xA0)
      && (b[0] as int == 0xED ==> b[1] as int <= 0x9F) then
      Some((b[0] as int - 0xE0) * 4096 + (b[1] as int - 0x80) * 64 + (b[2] as int - 0x80))
    else if |b| == 4 && 0xF0 <= b[0] as int <= 0xF4 && Tail(b[1]) && Tail(b[2]) && Tail(b[3])
      && (b[0] as int == 0xF0 ==> b[1] as int >= 0x90)
      && (b[0] as int == 0xF4 ==> b[1] as int <= 0x8F) then
      Some((b[0] as int - 0xF0) * 262144 + (b[1] as int - 0x80) * 4096
           + (b[2] as int - 0x80) * 64 + (b[3] as int - 0x80))
    else
      None
  }

  predicate Surrogate(code: nat) { 0xD800 <= code <= 0xDFFF }

  /** The emitted bytes are RFC 3629 UTF-8 for the code exactly when the code is no surrogate;
      the library does not reject surrogates. */
  lemma Utf8DecodesBack(code: nat)
    requires code < CODE_LIMIT
    ensures Rfc3629Decode(Utf8(code)) == Some(code) <==> !Surrogate(code)
    ensures Surrogate(code) ==> Rfc3629Decode(Utf8(code)) == None
  {
    var low, mid, high := code % 64, code / 64 % 64, code / 64 / 64 % 64;
    assert code == code / 64 * 64 + low;
    assert code / 64 == code / 64 / 64 * 64 + mid;
    assert code / 64 / 64 == code / 64 / 64 / 64 * 64 + high;
  }

  // ---------------------------------------------------------------------------------------------
  // The pure decoder

  /** Value of a digit character, in either radix; 255 for anything else. */
  function Digit(c: char): (d: nat)
    ensures d < 16 || d == 255
    ensures c == NUL || c == ';' ==> d == 255
  {
    if '0' <= c <= '9' then c as int - '0' as int
    else if 'A' <= c <= 'F' then c as int - 'A' as int + 10
    else if 'a' <= c <= 'f' then c as int - 'a' as int + 10
    else 255
  }

  /** Reads digits of the radix from i on; the code wraps like the accumulator does. */
  function ScanDigits(s: seq<char>, i: nat, radix: nat, code: nat, f: Flags): (r: (nat, nat))
    requires Terminated(s) && i < |s|
    requires code < CodeRange(f)
    ensures i <= r.1 < |s| && r.0 < CodeRange(f)
    ensures r.1 == i ==> r.0 == code
    ensures code == 0 && r.1 == i + 1 ==> r.0 < 16
    decreases |s| - i
  {
    if Digit(s[i]) == 255 then (code, i)
    else ScanDigits(s, i + 1, radix, (code * radix + Digit(s[i])) % CodeRange(f), f)
  }

  /** One numeric reference at src; dest is only the reported place of a bad code. */
  function NumericReference(s: seq<char>, src: nat, dest: nat, f: Flags): (r: Outcome<string>)
    requires Terminated(s) && src + 2 < |s|
    ensures r.Ok? ==> src + 3 <= r.text < |s|
    // a reference never emits more than it consumes before its semicolon
    ensures r.Ok? ==> 1 <= |r.value| <= r.text - 1 - src
  {
    var hex := s[src + 2] == 'x';
    var start := if hex then src + 3 else src + 2;
    assert hex ==> s[src + 2] != NUL;
    var (code, end) := ScanDigits(s, start, if hex then 16 else 10, 0, f);
    if !f.noUtf8 && code >= CODE_LIMIT then Error(InvalidNumericEntity, dest)
    else if s[end] != ';' then Error(ExpectedSemicolon, end)
    else Ok(Coded(code, f), end + 1)
  }

  /** A character that starts no reference: copied, or with its whole run condensed to one space. */
  function Plain(s: seq<char>, src: nat, normalize: bool): (r: Outcome<string>)
    requires Terminated(s) && src + 1 < |s|
    ensures r.Ok? && src < r.text < |s| && |r.value| == 1
  {
    if normalize && IsWhitespace(s[src]) then Ok(" ", Skip(s, src + 1, Whitespace))
    else Ok([s[src]], src + 1)
  }

  /** The predefined entity at src, with the length of its reference; length 0 when there is none. */
  function NamedReference(s: seq<char>, src: nat): (r: (char, nat))
    requires Terminated(s) && src + 1 < |s|
    ensures r.1 == 0 || (4 <= r.1 <= 6 && src + r.1 < |s|)
  {
    if s[src] != '&' then (NUL, 0)
    else if s[src + 1] == 'a' then
      if s[src + 2] == 'm' && s[src + 3] == 'p' && s[src + 4] == ';' then ('&', 5)
      else if s[src + 2] == 'p' && s[src + 3] == 'o' && s[src + 4] == 's' && s[src + 5] == ';' then ('\'', 6)
      else (NUL, 0)
    else if s[src + 1] == 'q' && s[src + 2] == 'u' && s[src + 3] == 'o' && s[src + 4] == 't' && s[src + 5] == ';' then ('"', 6)
    else if s[src + 1] == 'g' && s[src + 2] == 't' && s[src + 3] == ';' then ('>', 4)
    else if s[src + 1] == 'l' && s[src + 2] == 't' && s[src + 3] == ';' then ('<', 4)
    else (NUL, 0)
  }

  /** One decoding step at src: the characters it emits and where reading goes on. */
  function Unit(s: seq<char>, src: nat, dest: nat, f: Flags, normalize: bool): (r: Outcome<string>)
    requires Terminated(s) && src + 1 < |s|
    ensures r.Ok? ==> src < r.text < |s| && 1 <= |r.value| <= r.text - src
  {
    if f.noEntityTranslation || s[src] != '&' then Plain(s, src, normalize)
    else
      var (c, length) := NamedReference(s, src);
      if length > 0 then Ok([c], src + length)
      else if s[src + 1] == '#' then NumericReference(s, src, dest, f)
      else Plain(s, src, normalize)
  }

  function Prepend(head: string, r: Outcome<string>): Outcome<string> {
    match r
    case Ok(chars, text) => Ok(head + chars, text)
    case Error(e, at) => Error(e, at)
  }

  /** Decodes from src to the first character outside the class. */
  function Expand(s: seq<char>, src: nat, dest: nat, stop: CharClass, f: Flags, normalize: bool): (r: Outcome<string>)
    requires Terminated(s) && src < |s|
    ensures r.Ok? ==> src <= r.text < |s| && |r.value| <= r.text - src && !stop.Test(s[r.text])
    ensures r.Ok? && stop.Test(s[src]) ==> |r.value| > 0 && r.text > src
    decreases |s| - src
  {
    if !stop.Test(s[src]) then Ok("", src)
    else
      var u := Unit(s, src, dest, f, normalize);
      if u.Error? then u
      else Prepend(u.value, Expand(s, u.text, dest + |u.value|, stop, f, normalize))
  }

  lemma PrependPrepend(a: string, b: string, r: Outcome<string>)
    ensures Prepend(a, Prepend(b, r)) == Prepend(a + b, r)
  {
    if r.Ok? { assert a + (b + r.value) == a + b + r.value; }
  }

  /** With nothing to translate or condense, decoding is a plain skip. */
  lemma {:induction false} ExpandIsSkip(s: seq<char>, src: nat, dest: nat, stop: CharClass, f: Flags)
    requires Terminated(s) && src < |s|
    requires f.noEntityTranslation
    ensures Expand(s, src, dest, stop, f, false) == Ok(s[src..Skip(s, src, stop)], Skip(s, src, stop))
    decreases |s| - src
  {
    hide CharClass.Test;
    StopsAtEnd(stop);
    if stop.Test(s[src]) {
      ExpandIsSkip(s, src + 1, dest + 1, stop, f);
      var end := Skip(s, src, stop);
      assert s[src..end] == [s[src]] + s[src + 1..end];
    } else {
      assert s[src..src] == "";
    }
  }

  // ---------------------------------------------------------------------------------------------
  // The in-place decoder

  /** The buffer still holds s from position i on. */
  ghost predicate AgreesFrom(b: seq<char>, s: seq<char>, i: nat) {
    |b| == |s| && forall k | i <= k < |s| :: b[k] == s[k]
  }

  /** The two buffers hold the same characters in [lo, hi). */
  ghost predicate AgreesOn(b: seq<char>, c: seq<char>, lo: nat, hi: nat) {
    hi <= |b| && hi <= |c| && forall k | lo <= k < hi :: b[k] == c[k]
  }

  /** Advances text past the class. */
  method SkipInPlace(buf: array<char>, text: nat, cc: CharClass, ghost s: seq<char>) returns (r: nat)
    requires Terminated(s) && AgreesFrom(buf[..], s, text) && text < |s|
    ensures r == Skip(s, text, cc)
  {
    r := text;
    while cc.Test(buf[r])
      invariant text <= r < |s|
      invariant Skip(s, text, cc) == Skip(s, r, cc)
      decreases |s| - r
    {
      r := r + 1;
    }
  }

  /** Writes a code at dest; fails only for codes beyond Unicode, and then writes nothing. */
  method InsertCodedCharacter(buf: array<char>, dest: nat, code: nat, f: Flags) returns (r: Outcome<()>)
    requires dest <= buf.Length && (f.noUtf8 || code < CODE_LIMIT ==> dest + |Coded(code, f)| <= buf.Length)
    modifies buf
    ensures r == if !f.noUtf8 && code >= CODE_LIMIT then Error(InvalidNumericEntity, dest)
                 else Ok((), dest + |Coded(code, f)|)
    ensures AgreesOn(buf[..], old(buf[..]), 0, if r.Ok? then dest else buf.Length)
    ensures r.Ok? ==> buf[dest..r.text] == Coded(code, f) && AgreesOn(buf[..], old(buf[..]), r.text, buf.Length)
  {
    if f.noUtf8 {
      buf[dest] := Byte(code % 256);
      return Ok((), dest + 1);
    }
    if code < 0x80 {
      buf[dest] := Byte(code);
      return Ok((), dest + 1);
    } else if code < 0x800 {
      buf[dest + 1] := Byte(0x80 + code % 64);
      buf[dest] := Byte(0xC0 + code / 64);
      return Ok((), dest + 2);
    } else if code < 0x10000 {
      buf[dest + 2] := Byte(0x80 + code % 64);
      buf[dest + 1] := Byte(0x80 + code / 64 % 64);
      buf[dest] := Byte(0xE0 + code / 64 / 64);
      return Ok((), dest + 3);
    } else if code < 0x110000 {
      buf[dest + 3] := Byte(0x80 + code % 64);
      buf[dest + 2] := Byte(0x80 + code / 64 % 64);
      buf[dest + 1] := Byte(0x80 + code / 64 / 64 % 64);
      buf[dest] := Byte(0xF0 + code / 64 / 64 / 64);
      return Ok((), dest + 4);
    } else {
      return Error(InvalidNumericEntity, dest);
    }
  }

  /** Reads digits of the radix in place. */
  method ScanDigitsInPlace(buf: array<char>, start: nat, radix: nat, f: Flags, ghost s: seq<char>) returns (code: nat, src: nat)
    requires Terminated(s) && AgreesFrom(buf[..], s, start) && start < |s|
    ensures (code, src) == ScanDigits(s, start, radix, 0, f)
    ensures start <= src < |s| && code < CodeRange(f)
    ensures src <= start + 1 ==> code < 16
  {
    src, code := start, 0;
    while true
      invariant start <= src < |s| && code < CodeRange(f)
      invariant ScanDigits(s, start, radix, 0, f) == ScanDigits(s, src, radix, code, f)
      decreases |s| - src
    {
      var digit := Digit(buf[src]);
      if digit == 255 { break; }
      code := (code * radix + digit) % CodeRange(f);
      src := src + 1;
    }
  }

  /** What one in-place step must leave: the emitted characters at dest, the unread text untouched,
      and the outcome of the pure step. */
  ghost predicate StepDone(before: seq<char>, after: seq<char>, s: seq<char>, dest: nat,
                           u: Outcome<string>, r: Outcome<nat>)
  {
    && |before| == |after|
    && AgreesOn(after, before, 0, dest)
    && match u
       case Error(e, at) => r == Error(e, at)
       case Ok(chars, end) =>
         && r == Ok(dest + |chars|, end)
         && dest + |chars| <= end <= |after|
         && after[dest..dest + |chars|] == chars
         && AgreesFrom(after, s, end)
  }

  /** One in-place numeric reference: src is at the '&', the character goes to dest. */
  method ReferenceInPlace(buf: array<char>, src0: nat, dest: nat, f: Flags, ghost s: seq<char>)
    returns (r: Outcome<nat>)
    requires Terminated(s) && AgreesFrom(buf[..], s, src0) && dest <= src0 && src0 + 2 < |s|
    modifies buf
    ensures StepDone(old(buf[..]), buf[..], s, dest, NumericReference(s, src0, dest, f), r)
  {
    hide Coded, ScanDigits;
    var code, src;
    if buf[src0 + 2] == 'x' {
      assert s[src0 + 2] == 'x';
      code, src := ScanDigitsInPlace(buf, src0 + 3, 16, f, s);
    } else {
      assert s[src0 + 2] != 'x';
      code, src := ScanDigitsInPlace(buf, src0 + 2, 10, f, s);
    }
    // the emitted bytes end at or before the first unread character
    var w := InsertCodedCharacter(buf, dest, code, f);
    if w.Error? { return Error(w.error, w.at); }
    assert buf[src] == s[src];
    if buf[src] == ';' {
      src := src + 1;
    } else {
      return Error(ExpectedSemicolon, src);
    }
    return Ok(w.text, src);
  }

  /** Puts one decoded character and skips what stood for it. */
  method Replace(buf: array<char>, src: nat, dest: nat, c: char, length: nat, ghost s: seq<char>)
    returns (r: Outcome<nat>)
    requires AgreesFrom(buf[..], s, src) && dest <= src && 0 < length && src + length <= |s|
    modifies buf
    ensures StepDone(old(buf[..]), buf[..], s, dest, Ok([c], src + length), r)
  {
    buf[dest] := c;
    return Ok(dest + 1, src + length);
  }

  /** A whitespace run becomes one space. */
  method CondenseInPlace(buf: array<char>, src0: nat, dest: nat, ghost s: seq<char>) returns (r: Outcome<nat>)
    requires Terminated(s) && AgreesFrom(buf[..], s, src0) && dest <= src0 && src0 + 1 < |s|
    modifies buf
    ensures StepDone(old(buf[..]), buf[..], s, dest, Ok(" ", Skip(s, src0 + 1, Whitespace)), r)
  {
    buf[dest] := ' ';
    var src := src0 + 1;
    while IsWhitespace(buf[src])
      invariant src0 < src < |s| && AgreesFrom(buf[..], s, src)
      invariant Skip(s, src, Whitespace) == Skip(s, src0 + 1, Whitespace)
      decreases |s| - src
    {
      src := src + 1;
    }
    return Ok(dest + 1, src);
  }

  /** One round of the translation loop. */
  method UnitInPlace(buf: array<char>, src: nat, dest: nat, f: Flags, normalize: bool, ghost s: seq<char>)
    returns (r: Outcome<nat>)
    requires Terminated(s) && AgreesFrom(buf[..], s, src) && dest <= src && src + 1 < |s|
    modifies buf
    ensures StepDone(old(buf[..]), buf[..], s, dest, Unit(s, src, dest, f, normalize), r)
  {
    hide NumericReference, Skip;
    if !f.noEntityTranslation {
      if buf[src] == '&' {
        if buf[src + 1] == 'a' {
          if buf[src + 2] == 'm' && buf[src + 3] == 'p' && buf[src + 4] == ';' {
            r := Replace(buf, src, dest, '&', 5, s);
            return;
          }
          if buf[src + 2] == 'p' && buf[src + 3] == 'o' && buf[src + 4] == 's' && buf[src + 5] == ';' {
            r := Replace(buf, src, dest, '\'', 6, s);
            return;
          }
        } else if buf[src + 1] == 'q' {
          if buf[src + 2] == 'u' && buf[src + 3] == 'o' && buf[src + 4] == 't' && buf[src + 5] == ';' {
            r := Replace(buf, src, dest, '"', 6, s);
            return;
          }
        } else if buf[src + 1] == 'g' {
          if buf[src + 2] == 't' && buf[src + 3] == ';' {
            r := Replace(buf, src, dest, '>', 4, s);
            return;
          }
        } else if buf[src + 1] == 'l' {
          if buf[src + 2] == 't' && buf[src + 3] == ';' {
            r := Replace(buf, src, dest, '<', 4, s);
            return;
          }
        } else if buf[src + 1] == '#' {
          r := ReferenceInPlace(buf, src, dest, f, s);
          return;
        }
      }
    }
    if normalize {
      if IsWhitespace(buf[src]) {
        r := CondenseInPlace(buf, src, dest, s);
        return;
      }
    }
    r := Replace(buf, src, dest, buf[src], 1, s);
  }

  /** Decodes in place: the decoded characters lie at text, nothing before text or from the stop
      position on changes, and the outcome is that of the pure decoder on the original characters. */
  method SkipAndExpandCharacterRefs(buf: array<char>, text0: nat, stop: CharClass, pure: CharClass,
                                    f: Flags, normalize: bool, ghost s: seq<char>)
    returns (r: Outcome<nat>)
    requires Terminated(s) && AgreesFrom(buf[..], s, text0) && text0 < |s|
    requires PureFor(pure, stop, normalize)
    modifies buf
    ensures StepDone(old(buf[..]), buf[..], s, text0, Expand(s, text0, text0, stop, f, normalize), r)
    ensures f.noEntityTranslation && !normalize ==> buf[..] == old(buf[..])
  {
    hide Unit, Expand, Prepend, Skip, PureFor, CharClass.Test;
    var text;
    if f.noEntityTranslation && !normalize {
      text := SkipInPlace(buf, text0, stop, s);
      ExpandIsSkip(s, text0, text0, stop, f);
      assert buf[text0..text] == s[text0..text];
      return Ok(text, text);
    }
    text := SkipInPlace(buf, text0, pure, s);
    assert buf[text0..text] == s[text0..text];
    PureRunIsCopied(s, text0, text0, text, stop, pure, f, normalize);

    var src := text;
    var dest := src;
    ghost var whole := Expand(s, text0, text0, stop, f, normalize);
    while stop.Test(buf[src])
      invariant text0 <= dest <= src < |s|
      invariant AgreesFrom(buf[..], s, src) && AgreesOn(buf[..], old(buf[..]), 0, text0)
      invariant whole == Prepend(buf[text0..dest], Expand(s, src, dest, stop, f, normalize))
      decreases |s| - src
    {
      assert src + 1 < |s| by { StopsAtEnd(stop); }
      ghost var done, before, dest0 := buf[text0..dest], buf[..], dest;
      ExpandOn(s, src, dest, stop, f, normalize, done);
      r := UnitInPlace(buf, src, dest, f, normalize, s);
      if r.Error? { return; }
      dest, src := r.value, r.text;
      Appended(before, buf[..], text0, dest0, dest);
    }
    ExpandStops(s, src, dest, stop, f, normalize);
    return Ok(dest, src);
  }

  /** What was done stays, and the emitted characters follow it. */
  lemma Appended(before: seq<char>, after: seq<char>, lo: nat, mid: nat, hi: nat)
    requires lo <= mid <= hi <= |before| == |after| && AgreesOn(after, before, 0, mid)
    ensures after[lo..hi] == before[lo..mid] + after[mid..hi]
  {
  }

  lemma ExpandStops(s: seq<char>, i: nat, dest: nat, stop: CharClass, f: Flags, normalize: bool)
    requires Terminated(s) && i < |s| && !stop.Test(s[i])
    ensures Expand(s, i, dest, stop, f, normalize) == Ok("", i)
    ensures forall done :: Prepend(done, Expand(s, i, dest, stop, f, normalize)) == Ok(done, i)
  {
    assert forall done: string :: done + "" == done;
  }

  /** No class lets a skip pass the terminator. */
  lemma StopsAtEnd(cc: CharClass)
    ensures !cc.Test(NUL)
  {
  }

  /** Characters the quick skip may pass: inside the class and never changed by the decoder. */
  ghost predicate PureFor(pure: CharClass, stop: CharClass, normalize: bool) {
    forall c :: pure.Test(c) ==> stop.Test(c) && c != '&' && (normalize ==> !IsWhitespace(c))
  }

  /** How the decoder goes on after what is already done. */
  lemma ExpandOn(s: seq<char>, i: nat, dest: nat, stop: CharClass, f: Flags, normalize: bool, done: string)
    requires Terminated(s) && i + 1 < |s| && stop.Test(s[i])
    ensures match Unit(s, i, dest, f, normalize)
            case Error(e, at) => Prepend(done, Expand(s, i, dest, stop, f, normalize)) == Error(e, at)
            case Ok(h, j) =>
              Prepend(done, Expand(s, i, dest, stop, f, normalize))
              == Prepend(done + h, Expand(s, j, dest + |h|, stop, f, normalize))
  {
    hide Unit, CharClass.Test;
    StopsAtEnd(stop);
    var u := Unit(s, i, dest, f, normalize);
    if u.Ok? {
      ExpandStep(s, i, dest, stop, f, normalize, u.value, u.text);
      PrependPrepend(done, u.value, Expand(s, u.text, dest + |u.value|, stop, f, normalize));
    }
  }

  /** One step of the decoder, given what its unit does. */
  lemma ExpandStep(s: seq<char>, i: nat, dest: nat, stop: CharClass, f: Flags, normalize: bool, h: string, j: nat)
    requires Terminated(s) && i < |s| && stop.Test(s[i])
    requires Unit(s, i, dest, f, normalize) == Ok(h, j)
    ensures Expand(s, i, dest, stop, f, normalize) == Prepend(h, Expand(s, j, dest + |h|, stop, f, normalize))
  {
    hide Unit, CharClass.Test;
  }

  lemma PrependNothing(r: Outcome<string>)
    ensures Prepend("", r) == r
  {
    if r.Ok? { assert "" + r.value == r.value; }
  }

  lemma PureUnit(s: seq<char>, i: nat, dest: nat, stop: CharClass, pure: CharClass, f: Flags, normalize: bool)
    requires Terminated(s) && i + 1 < |s| && pure.Test(s[i]) && PureFor(pure, stop, normalize)
    ensures stop.Test(s[i]) && Unit(s, i, dest, f, normalize) == Ok([s[i]], i + 1)
  {
    hide CharClass.Test, NumericReference, NamedReference, Skip;
  }

  /** The leading run that needs no processing is copied as it stands. */
  lemma {:induction false} PureRunIsCopied(s: seq<char>, i: nat, dest: nat, end: nat, stop: CharClass,
                                           pure: CharClass, f: Flags, normalize: bool)
    requires Terminated(s) && i <= end < |s|
    requires forall k | i <= k < end :: pure.Test(s[k])
    requires PureFor(pure, stop, normalize)
    ensures Expand(s, i, dest, stop, f, normalize)
         == Prepend(s[i..end], Expand(s, end, dest + (end - i), stop, f, normalize))
    decreases end - i
  {
    hide Expand, Prepend, Unit, PureFor, CharClass.Test;
    var r := Expand(s, end, dest + (end - i), stop, f, normalize);
    if i == end {
      PrependNothing(r);
      assert s[i..i] == "";
    } else {
      PureRunIsCopied(s, i + 1, dest + 1, end, stop, pure, f, normalize);
      PureUnit(s, i, dest, stop, pure, f, normalize);
      ExpandStep(s, i, dest, stop, f, normalize, [s[i]], i + 1);
      PrependPrepend([s[i]], s[i + 1..end], r);
      assert [s[i]] + s[i + 1..end] == s[i..end];
    }
  }

  // ---------------------------------------------------------------------------------------------
  // Escaping

  /** What the printer writes for one character. */
  function EscapeChar(c: char, noexpand: char): (r: string)
    ensures |r| > 0
  {
    if c == noexpand then [c]
    else match c
      case '<' => "&lt;"
      case '>' => "&gt;"
      case '\'' => "&apos;"
      case '"' => "&quot;"
      case '&' => "&amp;"
      case _ => [c]
  }

  function Escape(v: string, noexpand: char): string {
    if v == "" then "" else EscapeChar(v[0], noexpand) + Escape(v[1..], noexpand)
  }

  /** The three ways the printer escapes: data, and attribute values in either quote. */
  predicate EscapesFor(stop: CharClass, noexpand: char) {
    || (stop == Text && noexpand == NUL)
    || (stop == AttributeData('\'') && noexpand == '"')
    || (stop == AttributeData('"') && noexpand == '\'')
  }

  /** Escaped text never holds the character that would end it, when the value holds no NUL and,
      in an attribute, not the kept quote's counterpart unescaped. */
  lemma {:induction false} EscapeNeverEnds(v: string, stop: CharClass, noexpand: char)
    requires EscapesFor(stop, noexpand) && NUL !in v
    ensures forall k | 0 <= k < |Escape(v, noexpand)| :: stop.Test(Escape(v, noexpand)[k])
  {
    if v != "" {
      EscapeNeverEnds(v[1..], stop, noexpand);
      var h := EscapeChar(v[0], noexpand);
      assert v[0] != NUL && forall k | 0 <= k < |h| :: stop.Test(h[k]);
    }
  }

  /** An escaped character is one unit of the decoder. */
  lemma EscapedUnit(s: seq<char>, i: nat, dest: nat, c: char, noexpand: char, f: Flags, normalize: bool)
    requires c != NUL && noexpand != '&' && !f.noEntityTranslation && (normalize ==> !IsWhitespace(c))
    requires Terminated(s) && i + 1 < |s| && Matches(s, i, EscapeChar(c, noexpand))
    ensures Unit(s, i, dest, f, normalize) == Ok([c], i + |EscapeChar(c, noexpand)|)
  {
    hide NumericReference, Skip;
    var e := EscapeChar(c, noexpand);
    assert s[i..i + |e|][0] == s[i];
    if |e| > 1 {
      assert s[i..i + |e|][1] == s[i + 1] && s[i..i + |e|][2] == s[i + 2] && s[i..i + |e|][3] == s[i + 3];
      assert |e| > 4 ==> s[i..i + |e|][4] == s[i + 4];
      assert |e| > 5 ==> s[i..i + |e|][5] == s[i + 5];
    }
  }

  lemma EscapedStep(s: seq<char>, i: nat, dest: nat, c: char, stop: CharClass, noexpand: char, f: Flags, normalize: bool)
    requires EscapesFor(stop, noexpand) && c != NUL && !f.noEntityTranslation && (normalize ==> !IsWhitespace(c))
    requires Terminated(s) && i + 1 < |s| && Matches(s, i, EscapeChar(c, noexpand))
    ensures Expand(s, i, dest, stop, f, normalize)
         == Prepend([c], Expand(s, i + |EscapeChar(c, noexpand)|, dest + 1, stop, f, normalize))
  {
    hide Unit, Expand;
    var e := EscapeChar(c, noexpand);
    assert s[i..i + |e|][0] == s[i];
    EscapedUnit(s, i, dest, c, noexpand, f, normalize);
    ExpandStep(s, i, dest, stop, f, normalize, [c], i + |e|);
  }

  /** Decoding undoes escaping, whatever follows. */
  lemma {:induction false} ExpandEscape(s: seq<char>, i: nat, dest: nat, v: string, stop: CharClass, noexpand: char, f: Flags)
    requires EscapesFor(stop, noexpand) && NUL !in v && !f.noEntityTranslation
    requires Terminated(s) && Matches(s, i, Escape(v, noexpand))
    requires i + |Escape(v, noexpand)| < |s| && !stop.Test(s[i + |Escape(v, noexpand)|])
    ensures Expand(s, i, dest, stop, f, false) == Ok(v, i + |Escape(v, noexpand)|)
    decreases |v|
  {
    hide Expand, EscapeChar, EscapesFor, Matches, CharClass.Test;
    if v == "" {
      ExpandStops(s, i, dest, stop, f, false);
    } else {
      var h, t := EscapeChar(v[0], noexpand), Escape(v[1..], noexpand);
      MatchesConcat(s, i, h, t);
      EscapedStep(s, i, dest, v[0], stop, noexpand, f, false);
      ExpandEscape(s, i + |h|, dest + 1, v[1..], stop, noexpand, f);
      assert [v[0]] + v[1..] == v;
    }
  }
}
