/** What the escape codec writes and reads, character by character. */
module EscapeLaws {
  import opened Options
  import opened StringEscape

  // ---------- adding escapes ----------

  lemma {:induction false} EscapedConcat(a: Bytes, b: Bytes)
    ensures Escaped(a + b) == Escaped(a) + Escaped(b)
  {
    if a == [] {
      assert a + b == b;
    } else {
      assert (a + b)[1..] == a[1..] + b;
      EscapedConcat(a[1..], b);
    }
  }

  lemma EscapedSingle(c: Byte)
    ensures Escaped([c]) == EscapeOne(c)
  {
    assert [c][1..] == [];
  }

  /** Seven characters have a short form. */
  lemma ShortForms()
    ensures Escaped(['\U{8}']) == ['\\', 'b'] && Escaped(['\t']) == ['\\', 't'] && Escaped(['\n']) == ['\\', 'n']
    ensures Escaped(['\U{c}']) == ['\\', 'f'] && Escaped(['\r']) == ['\\', 'r']
    ensures Escaped(['\"']) == ['\\', '\"'] && Escaped(['\\']) == ['\\', '\\']
  {
    hide Escaped, EscapeOne;
    Places(ESCAPED_CHARS);
    forall k | 0 <= k < 7 ensures Escaped([ESCAPED_CHARS[k]]) == ['\\', ESCAPED_CHARS_CODE[k]] {
      EscapedSingle(ESCAPED_CHARS[k]);
      EscapeOneAt(k);
    }
    assert Escaped([ESCAPED_CHARS[0]]) == ['\\', 'b'] && Escaped([ESCAPED_CHARS[1]]) == ['\\', 't'];
    assert Escaped([ESCAPED_CHARS[2]]) == ['\\', 'n'] && Escaped([ESCAPED_CHARS[3]]) == ['\\', 'f'];
    assert Escaped([ESCAPED_CHARS[4]]) == ['\\', 'r'] && Escaped([ESCAPED_CHARS[5]]) == ['\\', '\"'];
    assert Escaped([ESCAPED_CHARS[6]]) == ['\\', '\\'];
  }

  lemma EscapeOneAt(k: nat)
    requires k < 7 && Position(ESCAPED_CHARS, ESCAPED_CHARS[k]) == k
    ensures EscapeOne(ESCAPED_CHARS[k]) == ['\\', ESCAPED_CHARS_CODE[k]]
  {
    hide Position;
  }

  /** Every other character is copied. */
  lemma OtherCharacters(c: Byte)
    requires c != '\U{8}' && c != '\t' && c != '\n' && c != '\U{c}' && c != '\r' && c != '\"' && c != '\\'
    ensures Escaped([c]) == [c]
  {
    hide Position;
    EscapedSingle(c);
  }

  /** In a list without repetition every member's position is its index. */
  lemma Places(s: Bytes)
    requires forall i, j | 0 <= i < j < |s| :: s[i] != s[j]
    ensures forall i | 0 <= i < |s| :: Position(s, s[i]) == i
  {
    hide Position;
    forall i | 0 <= i < |s| ensures Position(s, s[i]) == i { assert s[i] in s; }
  }

  // ---------- removing escapes ----------

  /** Wherever it occurs, `sequence` stands for `meant`. */
  ghost predicate StandsFor(sequence: Bytes, meant: Bytes)
  {
    forall rest: Bytes :: Unescaped(sequence + rest) == Prefixed(meant, Unescaped(rest))
  }

  ghost predicate IsError(sequence: Bytes) { forall rest: Bytes :: Unescaped(sequence + rest) == None }

  lemma UnescapedSequence(s: Bytes)
    requires s != [] && s[0] == '\\'
    ensures Unescaped(s) ==
      if Sequence(s) == None then None else Prefixed(Sequence(s).value.bytes, Unescaped(s[Sequence(s).value.length..]))
  {}

  /** Anything but a backslash stands for itself. */
  lemma PlainCharacters(c: Byte)
    requires c != '\\'
    ensures StandsFor([c], [c]) && Unescaped([]) == Some([])
  {
    forall rest: Bytes ensures Unescaped([c] + rest) == Prefixed([c], Unescaped(rest)) {
      assert ([c] + rest)[1..] == rest;
    }
  }

  /** What two characters stand for, if one character. */
  function Short(c: Byte): Option<Byte>
  {
    var k := Position(ESCAPED_CHARS_CODE, c);
    if k < 7 then Some(ESCAPED_CHARS[k]) else if c == '0' then Some(NUL) else None
  }

  lemma ShortStandsFor(c: Byte)
    requires Short(c) != None
    ensures StandsFor(['\\', c], [Short(c).value])
  {
    hide Unescaped, Position;
    forall rest: Bytes ensures Unescaped(['\\', c] + rest) == Prefixed([Short(c).value], Unescaped(rest)) {
      var s := ['\\', c] + rest;
      assert s[2..] == rest;
      UnescapedSequence(s);
    }
  }

  lemma ShortsAre()
    ensures Short('b') == Some('\U{8}') && Short('t') == Some('\t') && Short('n') == Some('\n')
    ensures Short('f') == Some('\U{c}') && Short('r') == Some('\r') && Short('\"') == Some('\"')
    ensures Short('\\') == Some('\\') && Short('0') == Some('\0')
  {
    hide Position;
    Places(ESCAPED_CHARS_CODE);
  }

  /** Seven two-character sequences stand for one character each, and so does a backslash with a zero. */
  lemma ShortSequences()
    ensures StandsFor(['\\', 'b'], ['\U{8}']) && StandsFor(['\\', 't'], ['\t']) && StandsFor(['\\', 'n'], ['\n'])
    ensures StandsFor(['\\', 'f'], ['\U{c}']) && StandsFor(['\\', 'r'], ['\r'])
    ensures StandsFor(['\\', '\"'], ['\"']) && StandsFor(['\\', '\\'], ['\\']) && StandsFor(['\\', '0'], ['\0'])
  {
    hide StandsFor, Short;
    ShortsAre();
    ShortStandsFor('b'); ShortStandsFor('t'); ShortStandsFor('n'); ShortStandsFor('f');
    ShortStandsFor('r'); ShortStandsFor('\"'); ShortStandsFor('\\'); ShortStandsFor('0');
  }

  /** Everything else after a backslash is an error, and so is nothing. */
  lemma OtherSequences(c: Byte)
    requires c != 'b' && c != 't' && c != 'n' && c != 'f' && c != 'r' && c != '\"' && c != '\\'
    requires c != '0' && c != 'u' && c != 'U'
    ensures IsError(['\\', c]) && Unescaped(['\\']) == None
  {
    hide Unescaped, Position;
    forall rest: Bytes ensures Unescaped(['\\', c] + rest) == None { UnescapedSequence(['\\', c] + rest); }
    UnescapedSequence(['\\']);
  }

  // ---------- code points ----------

  const LOWER: Bytes := ['0', '1', '2', '3', '4', '5', '6', '7', '8', '9', 'a', 'b', 'c', 'd', 'e', 'f']
  const UPPER: Bytes := ['0', '1', '2', '3', '4', '5', '6', '7', '8', '9', 'A', 'B', 'C', 'D', 'E', 'F']

  /** A digit's value is its place among the sixteen, in either case; nothing else is a digit. */
  lemma HexDigits(c: Byte)
    ensures forall i | 0 <= i < 16 :: HexConvert(LOWER[i]) == i && HexConvert(UPPER[i]) == i
    ensures IsHex(c) <==> c in LOWER || c in UPPER
  {
    if IsHex(c) {
      if '0' <= c <= '9' { assert c == LOWER[c as int - '0' as int]; }
      else if 'A' <= c <= 'F' { assert c == UPPER[c as int - 'A' as int + 10]; }
      else { assert c == LOWER[c as int - 'a' as int + 10]; }
    }
  }

  /** A list of digits in positional notation: the first digit weighs most. */
  lemma {:induction false} HexPositional(d: Byte, rest: Bytes)
    requires IsHex(d) && forall e | e in rest :: IsHex(e)
    ensures forall e | e in [d] + rest :: IsHex(e)
    ensures HexValue([d] + rest) == HexConvert(d) * Pow16(|rest|) + HexValue(rest) && Pow16(|rest|) > HexValue(rest)
    decreases |rest|
  {
    hide HexConvert, IsHex;
    var s := [d] + rest;
    HexConvertSmall(d);
    if rest == [] {
      assert s[..0] == [];
    } else {
      var n := |rest| - 1;
      HexPositional(d, rest[..n]);
      assert s[..|s| - 1] == [d] + rest[..n];
      HexConvertSmall(rest[n]);
      assert rest[n] in rest && s[|s| - 1] == rest[n];
      Scaled(HexConvert(d), Pow16(n), HexValue(rest[..n]), HexConvert(rest[n]));
    }
  }

  lemma HexConvertSmall(d: Byte)
    requires IsHex(d)
    ensures HexConvert(d) < 16
  {}

  lemma Scaled(d: nat, p: nat, v: nat, e: nat)
    requires v < p && e < 16
    ensures 16 * (d * p + v) + e == d * (16 * p) + (16 * v + e) && 16 * v + e < 16 * p
  {}

  /** Four digits after a small u and eight after a capital one stand for the bytes of a code point. */
  lemma UnicodeSequences(u: Byte, digits: Bytes)
    requires (u == 'u' && |digits| == 4) || (u == 'U' && |digits| == 8)
    requires forall d | d in digits :: IsHex(d)
    ensures var written := Codepoint(HexValue(digits));
      if written == None then IsError(['\\', u] + digits) else StandsFor(['\\', u] + digits, written.value)
  {
    hide Unescaped, HexValue, Codepoint, HexConvert, Position;
    forall rest: Bytes
      ensures var written := Codepoint(HexValue(digits));
        Unescaped(['\\', u] + digits + rest) ==
          if written == None then None else Prefixed(written.value, Unescaped(rest))
    {
      var s, n := ['\\', u] + digits + rest, |digits|;
      assert s[2..2 + n] == digits && s[2 + n..] == rest;
      UnescapedSequence(s);
      assert Sequence(s) == Unicode(s, n);
    }
  }

  /** With fewer digits, or with something else among them, it is an error. */
  lemma BrokenUnicode(u: Byte, rest: Bytes)
    requires u == 'u' || u == 'U'
    requires var n := if u == 'u' then 4 else 8; |rest| < n || exists d :: d in rest[..n] && !IsHex(d)
    ensures Unescaped(['\\', u] + rest) == None
  {
    hide Unescaped, HexValue, Codepoint, HexConvert, Position;
    var s, n := ['\\', u] + rest, if u == 'u' then 4 else 8;
    if |rest| >= n { assert s[2..2 + n] == rest[..n]; }
    UnescapedSequence(s);
    assert Sequence(s) == Unicode(s, n);
  }

  predicate Continues(b: Byte) { 0x80 <= b as int < 0xC0 }

  /** A UTF-8 decoder for one code point, as in section 3 of RFC 3629: the shortest form only, no
      surrogates, nothing above 0x10FFFF. */
  function Utf8(b: Bytes): Option<nat>
  {
    if |b| == 1 && b[0] as int < 0x80 then Some(b[0] as int)
    else if |b| == 2 && 0xC2 <= b[0] as int < 0xE0 && Continues(b[1]) then
      Some((b[0] as int - 0xC0) * 0x40 + (b[1] as int - 0x80))
    else if |b| == 3 && 0xE0 <= b[0] as int < 0xF0 && Continues(b[1]) && Continues(b[2]) then
      var v := ((b[0] as int - 0xE0) * 0x40 + (b[1] as int - 0x80)) * 0x40 + (b[2] as int - 0x80);
      if v < 0x800 || 0xD800 <= v <= 0xDFFF then None else Some(v)
    else if |b| == 4 && 0xF0 <= b[0] as int < 0xF5 && Continues(b[1]) && Continues(b[2]) && Continues(b[3]) then
      var top := (b[0] as int - 0xF0) * 0x40 + (b[1] as int - 0x80);
      var v := (top * 0x40 + (b[2] as int - 0x80)) * 0x40 + (b[3] as int - 0x80);
      if v < 0x10000 || v > 0x10FFFF then None else Some(v)
    else None
  }

  /** Surrogates are refused, numbers beyond the last code point write nothing, and any other number is
      written so that a UTF-8 decoder reads it back. */
  lemma CodepointIsUtf8(code: nat)
    ensures Codepoint(code) == None <==> 0xD800 <= code <= 0xDFFF
    ensures code > 0x10FFFF ==> Codepoint(code) == Some([])
    ensures code <= 0x10FFFF && !(0xD800 <= code <= 0xDFFF) ==> Utf8(Codepoint(code).value) == Some(code)
  {
    hide Utf8;
    if code < 0x80 { OneByte(code); }
    else if code < 0x800 { TwoBytes(code); }
    else if code < 0x10000 && !(0xD800 <= code <= 0xDFFF) { ThreeBytes(code); }
    else if 0x10000 <= code <= 0x10FFFF { FourBytes(code); }
  }

  lemma OneByte(code: nat)
    requires code < 0x80
    ensures Utf8(Codepoint(code).value) == Some(code)
  {}

  lemma TwoBytes(code: nat)
    requires 0x80 <= code < 0x800
    ensures Utf8(Codepoint(code).value) == Some(code)
  {
    var hi, lo := code / 0x40, code % 0x40;
    assert code == hi * 0x40 + lo && 2 <= hi < 0x20;
    TwoRead(0xC0 + hi, 0x80 + lo);
  }

  lemma TwoRead(a: nat, b: nat)
    requires 0xC2 <= a < 0xE0 && 0x80 <= b < 0xC0
    ensures Utf8([MakeChar(a), MakeChar(b)]) == Some((a - 0xC0) * 0x40 + (b - 0x80))
  {}

  lemma ThreeBytes(code: nat)
    requires 0x800 <= code < 0x10000 && !(0xD800 <= code <= 0xDFFF)
    ensures Utf8(Codepoint(code).value) == Some(code)
  {
    hide Utf8;
    var top, mid, lo := code / 0x1000, code / 0x40 % 0x40, code % 0x40;
    Split(code);
    ThreeRead(0xE0 + top, 0x80 + mid, 0x80 + lo);
  }

  lemma Split(code: nat)
    ensures code / 0x1000 == code / 0x40 / 0x40 && code / 0x40000 == code / 0x1000 / 0x40
    ensures code == (code / 0x1000 * 0x40 + code / 0x40 % 0x40) * 0x40 + code % 0x40
    ensures code == ((code / 0x40000 * 0x40 + code / 0x1000 % 0x40) * 0x40 + code / 0x40 % 0x40) * 0x40 + code % 0x40
  {}

  lemma ThreeRead(a: nat, b: nat, c: nat)
    requires 0xE0 <= a < 0xF0 && 0x80 <= b < 0xC0 && 0x80 <= c < 0xC0
    ensures var v := ((a - 0xE0) * 0x40 + (b - 0x80)) * 0x40 + (c - 0x80);
      Utf8([MakeChar(a), MakeChar(b), MakeChar(c)]) == if v < 0x800 || 0xD800 <= v <= 0xDFFF then None else Some(v)
  {}

  lemma FourBytes(code: nat)
    requires 0x10000 <= code <= 0x10FFFF
    ensures Utf8(Codepoint(code).value) == Some(code)
  {
    hide Utf8;
    Split(code);
    FourRead(0xF0 + code / 0x40000, 0x80 + code / 0x1000 % 0x40, 0x80 + code / 0x40 % 0x40, 0x80 + code % 0x40);
  }

  lemma FourRead(a: nat, b: nat, c: nat, d: nat)
    requires 0xF0 <= a < 0xF5 && 0x80 <= b < 0xC0 && 0x80 <= c < 0xC0 && 0x80 <= d < 0xC0
    ensures var v := (((a - 0xF0) * 0x40 + (b - 0x80)) * 0x40 + (c - 0x80)) * 0x40 + (d - 0x80);
      Utf8([MakeChar(a), MakeChar(b), MakeChar(c), MakeChar(d)]) ==
        if v < 0x10000 || v > 0x10FFFF then None else Some(v)
  {}
}
