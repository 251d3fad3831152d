/** The escape codec for quoted strings: adding escapes, and removing them with their error cases. */
module StringEscape {
  import opened Options

  /** A character of the source: one byte. */
  type Byte = c: char | c as int < 256

  type Bytes = seq<Byte>

  const BACKSLASH: Byte := '\\'
  const NUL: Byte := '\0'
  const QUOTE: Byte := '\"'

  const ESCAPED_CHARS: Bytes := ['\U{8}', '\t', '\n', '\U{c}', '\r', '\"', '\\']
  const ESCAPED_CHARS_CODE: Bytes := ['b', 't', 'n', 'f', 'r', '\"', '\\']

  /** The position of `c` in `s`, or the length of `s`. */
  function Position(s: Bytes, c: Byte): (i: nat)
    ensures i <= |s|
    ensures i < |s| ==> s[i] == c
    ensures c in s <==> i < |s|
  {
    if s == [] then 0 else if s[0] == c then 0 else 1 + Position(s[1..], c)
  }

  // ---------- adding escapes ----------

  function EscapeOne(c: Byte): Bytes
  {
    var k := Position(ESCAPED_CHARS, c);
    if k < |ESCAPED_CHARS| then [BACKSLASH, ESCAPED_CHARS_CODE[k]] else [c]
  }

  function Escaped(s: Bytes): Bytes { if s == [] then [] else EscapeOne(s[0]) + Escaped(s[1..]) }

  method AddEscapedCharacters(str: Bytes) returns (out: Bytes)
    ensures out == Escaped(str)
  {
    out := [];
    for i := 0 to |str|
      invariant out + Escaped(str[i..]) == Escaped(str)
    {
      var s := str[i];
      var sloc := Position(ESCAPED_CHARS, s);
      assert str[i..][0] == s && str[i..][1..] == str[i + 1..];
      assert out + (EscapeOne(s) + Escaped(str[i + 1..])) == (out + EscapeOne(s)) + Escaped(str[i + 1..]);
      if sloc < |ESCAPED_CHARS| {
        out := out + [BACKSLASH, ESCAPED_CHARS_CODE[sloc]];
      } else {
        out := out + [s];
      }
    }
  }

  // ---------- hexadecimal digits ----------

  /** The value of a hexadecimal digit; the source answers all ones for anything else. */
  function HexConvert(c: Byte): nat
  {
    if '0' <= c <= '9' then c as int - '0' as int
    else if 'A' <= c <= 'F' then c as int - 'A' as int + 10
    else if 'a' <= c <= 'f' then c as int - 'a' as int + 10
    else 0xFFFF_FFFF
  }

  predicate IsHex(c: Byte) { HexConvert(c) <= 0x0F }

  /** The number written by a list of hexadecimal digits. */
  function HexValue(digits: Bytes): nat
    requires forall d | d in digits :: IsHex(d)
  {
    if digits == [] then 0 else 16 * HexValue(digits[..|digits| - 1]) + HexConvert(digits[|digits| - 1])
  }

  function Pow16(n: nat): (p: nat)
    ensures p > 0
  {
    if n == 0 then 1 else 16 * Pow16(n - 1)
  }

  /** The loop over the digits of a code point, most significant first. */
  method HexSequence(digits: Bytes, topWeight: nat) returns (code: Option<nat>)
    requires digits != [] && topWeight == Pow16(|digits| - 1)
    ensures code == if (forall d | d in digits :: IsHex(d)) then Some(HexValue(digits)) else None
  {
    var sum, mplier := 0, topWeight;
    for i := 0 to |digits|
      invariant forall d | d in digits[..i] :: IsHex(d)
      invariant i < |digits| ==> mplier == Pow16(|digits| - 1 - i)
      invariant sum == HexValue(digits[..i]) * Pow16(|digits| - i)
    {
      var res := HexConvert(digits[i]);
      if res > 0x0F {
        assert digits[i] in digits;
        return None;
      }
      assert digits[..i + 1][..i] == digits[..i];
      assert HexValue(digits[..i + 1]) == 16 * HexValue(digits[..i]) + res;
      NextDigit(HexValue(digits[..i]), res, Pow16(|digits| - 1 - i));
      sum := sum + res * mplier;
      mplier := mplier / 16;
    }
    assert digits[..|digits|] == digits;
    return Some(sum);
  }

  lemma NextDigit(v: nat, d: nat, p: nat)
    ensures v * (16 * p) + d * p == (16 * v + d) * p
  {}

  // ---------- code points ----------

  function MakeChar(code: nat): Byte { (code % 256) as char }

  /** The UTF-8 bytes of a code point: none above 0x10FFFF, an error for surrogates. */
  function Codepoint(code: nat): Option<Bytes>
  {
    if code < 0x80 then Some([MakeChar(code)])
    else if code < 0x800 then Some([MakeChar(0xC0 + code / 0x40), MakeChar(0x80 + code % 0x40)])
    else if code < 0x10000 then
      if 0xD800 <= code <= 0xDFFF then None
      else Some([MakeChar(0xE0 + code / 0x1000), MakeChar(0x80 + code / 0x40 % 0x40), MakeChar(0x80 + code % 0x40)])
    else if code < 0x110000 then
      Some([MakeChar(0xF0 + code / 0x40000), MakeChar(0x80 + code / 0x1000 % 0x40),
        MakeChar(0x80 + code / 0x40 % 0x40), MakeChar(0x80 + code % 0x40)])
    else Some([])
  }

  // ---------- removing escapes ----------

  /** The bytes an escape sequence stands for, and its length. */
  datatype Meaning = Meaning(bytes: Bytes, length: nat)

  /** What the escape sequence at the front of `s` stands for, and how long it is; no value is an error. */
  function Sequence(s: Bytes): (r: Option<Meaning>)
    requires s != [] && s[0] == BACKSLASH
    ensures r != None ==> 2 <= r.value.length <= |s|
  {
    if |s| < 2 then None
    else
      var k := Position(ESCAPED_CHARS_CODE, s[1]);
      if k < |ESCAPED_CHARS_CODE| then Some(Meaning([ESCAPED_CHARS[k]], 2))
      else if s[1] == 'u' then Unicode(s, 4)
      else if s[1] == 'U' then Unicode(s, 8)
      else if s[1] == '0' then Some(Meaning([NUL], 2))
      else None
  }

  function Unicode(s: Bytes, digits: nat): (r: Option<Meaning>)
    ensures r != None ==> 2 <= r.value.length <= |s|
  {
    if |s| < 2 + digits then None
    else if !(forall d | d in s[2..2 + digits] :: IsHex(d)) then None
    else
      var c := Codepoint(HexValue(s[2..2 + digits]));
      if c == None then None else Some(Meaning(c.value, 2 + digits))
  }

  function Prefixed(out: Bytes, rest: Option<Bytes>): Option<Bytes>
  {
    if rest == None then None else Some(out + rest.value)
  }

  function Unescaped(s: Bytes): Option<Bytes>
    decreases |s|
  {
    if s == [] then Some([])
    else if s[0] != BACKSLASH then Prefixed([s[0]], Unescaped(s[1..]))
    else
      var q := Sequence(s);
      if q == None then None else Prefixed(q.value.bytes, Unescaped(s[q.value.length..]))
  }

  lemma PrefixedTwice(a: Bytes, b: Bytes, rest: Option<Bytes>)
    ensures Prefixed(a, Prefixed(b, rest)) == Prefixed(a + b, rest)
  {
    if rest != None { assert a + (b + rest.value) == (a + b) + rest.value; }
  }

  /** Reads the sequence whose backslash is at `loc`; every thrown exception is the same missing value. */
  method ReadSequence(str: Bytes, loc: nat) returns (r: Option<Meaning>)
    requires loc < |str| && str[loc] == BACKSLASH
    ensures r == Sequence(str[loc..])
  {
    hide Codepoint, HexConvert, HexValue, Pow16;
    ghost var rest := str[loc..];
    if |str| - loc < 2 { return None; }
    var ecloc := Position(ESCAPED_CHARS_CODE, str[loc + 1]);
    if ecloc < |ESCAPED_CHARS_CODE| {
      return Some(Meaning([ESCAPED_CHARS[ecloc]], 2));
    } else if str[loc + 1] == 'u' || str[loc + 1] == 'U' {
      var digits := if str[loc + 1] == 'u' then 4 else 8;
      if |str| - loc < 2 + digits { return None; }
      assert rest[2..2 + digits] == str[loc + 2..loc + 2 + digits];
      WeightsAre();
      var code := HexSequence(str[loc + 2..loc + 2 + digits], if digits == 4 then 0x1000 else 0x1000_0000);
      if code == None { return None; }
      var c := Codepoint(code.value);
      if c == None { return None; }
      return Some(Meaning(c.value, 2 + digits));
    } else if str[loc + 1] == '0' {
      return Some(Meaning([NUL], 2));
    }
    return None;
  }

  method RemoveEscapedCharacters(str: Bytes) returns (r: Option<Bytes>)
    ensures r == Unescaped(str)
  {
    hide Sequence;
    var out: Bytes := [];
    var loc := 0;
    assert str[0..] == str && forall o: Option<Bytes> :: o != None ==> [] + o.value == o.value;
    while loc < |str|
      invariant loc <= |str|
      invariant Unescaped(str) == Prefixed(out, Unescaped(str[loc..]))
    {
      ghost var rest := str[loc..];
      if str[loc] == BACKSLASH {
        var q := ReadSequence(str, loc);
        if q == None { return None; }
        PrefixedTwice(out, q.value.bytes, Unescaped(rest[q.value.length..]));
        assert rest[q.value.length..] == str[loc + q.value.length..];
        out, loc := out + q.value.bytes, loc + q.value.length;
      } else {
        PrefixedTwice(out, [str[loc]], Unescaped(rest[1..]));
        assert rest[1..] == str[loc + 1..];
        out, loc := out + [str[loc]], loc + 1;
      }
    }
    assert str[loc..] == [] && out + [] == out;
    return Some(out);
  }

  lemma WeightsAre()
    ensures Pow16(3) == 0x1000 && Pow16(7) == 0x1000_0000
  {}

  // ---------- the round trip ----------

  lemma EscapeOneUndone(c: Byte, rest: Bytes)
    ensures Unescaped(EscapeOne(c) + rest) == Prefixed([c], Unescaped(rest))
  {
    var k, s := Position(ESCAPED_CHARS, c), EscapeOne(c) + rest;
    if k < |ESCAPED_CHARS| {
      CodesAreDistinct(k);
      assert s[1] == ESCAPED_CHARS_CODE[k] && s[2..] == rest;
    } else {
      assert s[0] != BACKSLASH by { assert ESCAPED_CHARS[6] == BACKSLASH; }
      assert s[1..] == rest;
    }
  }

  lemma CodesAreDistinct(k: nat)
    requires k < |ESCAPED_CHARS_CODE|
    ensures Position(ESCAPED_CHARS_CODE, ESCAPED_CHARS_CODE[k]) == k
  {
    hide Position;
    var j := Position(ESCAPED_CHARS_CODE, ESCAPED_CHARS_CODE[k]);
    assert ESCAPED_CHARS_CODE[k] in ESCAPED_CHARS_CODE;
  }

  /** Removing escapes undoes adding them, for every string. */
  lemma {:induction false} UnescapeEscaped(s: Bytes)
    ensures Unescaped(Escaped(s)) == Some(s)
  {
    if s != [] {
      EscapeOneUndone(s[0], Escaped(s[1..]));
      UnescapeEscaped(s[1..]);
      assert [s[0]] + s[1..] == s;
    }
  }

  /** An escaped form without a backslash is the string itself. */
  lemma {:induction false} NoBackslashNoEscape(s: Bytes)
    requires BACKSLASH !in Escaped(s)
    ensures Escaped(s) == s
  {
    if s != [] {
      assert Escaped(s)[0] == EscapeOne(s[0])[0];
      assert EscapeOne(s[0]) == [s[0]];
      assert Escaped(s) == [s[0]] + Escaped(s[1..]);
      NoBackslashNoEscape(s[1..]);
    }
  }
}
