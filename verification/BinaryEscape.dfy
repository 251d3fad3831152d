/** The escape codec for arbitrary bytes, which makes its output printable and free of single quotes. */
module BinaryEscape {
  import opened Options
  import opened StringEscape

  const SINGLE: Byte := '\''
  const OPENING: Bytes := ['\'', 'B', '\"', '(']
  const CLOSING: Bytes := [')', '\"', '\'']
  const SHORT_OPENING: Bytes := ['B', '\"', '(']
  const SHORT_CLOSING: Bytes := [')', '\"']

  // ---------- escaping ----------

  predicate IsPrint(c: Byte) { 0x20 <= c as int <= 0x7E }

  function HexDigit(n: nat): Byte
    requires n < 16
  {
    if n < 10 then ('0' as int + n) as char else ('a' as int + n - 10) as char
  }

  /** A number below 256 in hexadecimal, as the standard stream writes it. */
  function HexString(n: nat): Bytes
    requires n < 256
  {
    if n < 16 then [HexDigit(n)] else [HexDigit(n / 16), HexDigit(n % 16)]
  }

  /** The four characters that stand for an arbitrary byte. */
  function HexEscape(c: Byte): Bytes
  {
    var code := HexString(c as int);
    [BACKSLASH, 'x'] + (if |code| < 2 then ['0'] else []) + code
  }

  predicate EndsWithBackslash(s: Bytes) { s != [] && s[|s| - 1] == BACKSLASH }

  predicate IsX(c: Byte) { c == 'x' || c == 'X' }

  function BinaryOne(sofar: Bytes, c: Byte): Bytes
  {
    if !IsPrint(c) then HexEscape(c)
    else if IsX(c) && EndsWithBackslash(sofar) then [BACKSLASH, 'x'] + (if c == 'x' then ['7', '8'] else ['5', '8'])
    else [c]
  }

  /** The first pass: unprintable bytes, and an x that would complete a sequence by accident. */
  function FirstPass(s: Bytes): Bytes
  {
    if s == [] then []
    else
      var sofar := FirstPass(s[..|s| - 1]);
      sofar + BinaryOne(sofar, s[|s| - 1])
  }

  /** The second pass: every single quote becomes its hexadecimal escape. */
  function Unquoted(s: Bytes): Bytes
  {
    if s == [] then []
    else
      var last := s[|s| - 1];
      Unquoted(s[..|s| - 1]) + (if last == SINGLE then [BACKSLASH, 'x', '2', '7'] else [last])
  }

  function Wrapped(s: Bytes): Bytes { OPENING + s + CLOSING }

  function BinaryEscaped(s: Bytes, force: bool): Bytes
  {
    var e := FirstPass(s);
    if e != s || force then Wrapped(Unquoted(e)) else e
  }

  lemma {:induction false} UnquotedConcat(a: Bytes, b: Bytes)
    ensures Unquoted(a + b) == Unquoted(a) + Unquoted(b)
  {
    if b == [] {
      assert a + b == a;
    } else {
      assert (a + b)[..|a + b| - 1] == a + b[..|b| - 1];
      UnquotedConcat(a, b[..|b| - 1]);
    }
  }

  lemma {:induction false} UnquotedWithout(s: Bytes)
    requires SINGLE !in s
    ensures Unquoted(s) == s
  {
    if s != [] {
      UnquotedWithout(s[..|s| - 1]);
      assert s[|s| - 1] in s;
    }
  }

  function Quotes(s: Bytes): nat { if s == [] then 0 else Quotes(s[1..]) + if s[0] == SINGLE then 1 else 0 }

  lemma {:induction false} QuotesConcat(a: Bytes, b: Bytes)
    ensures Quotes(a + b) == Quotes(a) + Quotes(b)
  {
    if a == [] {
      assert a + b == b;
    } else {
      assert (a + b)[1..] == a[1..] + b;
      QuotesConcat(a[1..], b);
    }
  }

  lemma {:induction false} QuotesWithout(s: Bytes)
    ensures Quotes(s) == 0 <==> SINGLE !in s
  {
    if s != [] {
      assert s == [s[0]] + s[1..];
      QuotesWithout(s[1..]);
    }
  }

  /** Replacing one quote leaves one quote fewer and the same final text. */
  lemma ReplaceOne(s: Bytes, k: nat)
    requires k < |s| && s[k] == SINGLE
    ensures var r := s[..k] + [BACKSLASH, 'x', '2', '7'] + s[k + 1..];
      Quotes(r) < Quotes(s) && Unquoted(r) == Unquoted(s)
  {
    var a, b := s[..k], s[k + 1..];
    var code: Bytes := [BACKSLASH, 'x', '2', '7'];
    assert s == a + [SINGLE] + b;
    QuotesConcat(a, [SINGLE]); QuotesConcat(a + [SINGLE], b);
    QuotesConcat(a, code); QuotesConcat(a + code, b);
    UnquotedConcat(a, [SINGLE]); UnquotedConcat(a + [SINGLE], b);
    UnquotedConcat(a, code); UnquotedConcat(a + code, b);
    UnquotedWithout(code);
    assert Unquoted([SINGLE]) == Unquoted([]) + code;
    QuotesWithout(code);
    QuotesWithout([SINGLE]);
  }

  lemma FirstPassMore(s: Bytes, i: nat)
    requires i < |s|
    ensures FirstPass(s[..i + 1]) == FirstPass(s[..i]) + BinaryOne(FirstPass(s[..i]), s[i])
  {
    assert s[..i + 1][..i] == s[..i];
  }

  method BinaryEscapeString(s: Bytes, force: bool) returns (escaped: Bytes)
    ensures escaped == BinaryEscaped(s, force)
  {
    hide HexString, IsPrint, Unquoted, FirstPass;
    escaped := [];
    assert FirstPass(s[..0]) == [] by { FirstPassNone(); }
    for i := 0 to |s|
      invariant escaped == FirstPass(s[..i])
    {
      var c := s[i];
      FirstPassMore(s, i);
      if !IsPrint(c) {
        var code := HexString(c as int);
        escaped := escaped + ([BACKSLASH, 'x'] + (if |code| < 2 then ['0'] else []) + code);
      } else if c == 'x' || c == 'X' {
        if escaped != [] && escaped[|escaped| - 1] == BACKSLASH {
          escaped := escaped + ([BACKSLASH, 'x'] + (if c == 'x' then ['7', '8'] else ['5', '8']));
        } else {
          escaped := escaped + [c];
        }
      } else {
        escaped := escaped + [c];
      }
    }
    assert s[..|s|] == s;
    if escaped != s || force {
      escaped := ReplaceQuotes(escaped);
      escaped := OPENING + escaped;
      escaped := escaped + CLOSING;
    }
  }

  lemma FirstPassNone()
    ensures FirstPass([]) == []
  {}

  /** The loop that looks for a single quote from the start again after each replacement. */
  method ReplaceQuotes(s: Bytes) returns (escaped: Bytes)
    ensures escaped == Unquoted(s)
  {
    escaped := s;
    var sqLoc := Position(escaped, SINGLE);
    while sqLoc < |escaped|
      invariant sqLoc == Position(escaped, SINGLE)
      invariant Unquoted(escaped) == Unquoted(s)
      decreases Quotes(escaped)
    {
      ReplaceOne(escaped, sqLoc);
      escaped := escaped[..sqLoc] + [BACKSLASH, 'x', '2', '7'] + escaped[sqLoc + 1..];
      sqLoc := Position(escaped, SINGLE);
    }
    UnquotedWithout(escaped);
  }

  // ---------- extracting ----------

  predicate StartsWith(s: Bytes, p: Bytes) { |p| <= |s| && forall i | 0 <= i < |p| :: s[i] == p[i] }

  predicate EndsWith(s: Bytes, p: Bytes) { |p| <= |s| && forall i | 0 <= i < |p| :: s[|s| - |p| + i] == p[i] }

  predicate IsBinaryEscaped(s: Bytes)
  {
    (StartsWith(s, SHORT_OPENING) && EndsWith(s, SHORT_CLOSING)) || (StartsWith(s, OPENING) && EndsWith(s, CLOSING))
  }

  /** A complete hexadecimal escape at the front. */
  predicate AtEscape(s: Bytes) { |s| >= 4 && s[0] == BACKSLASH && IsX(s[1]) && IsHex(s[2]) && IsHex(s[3]) }

  function Decoded(s: Bytes): Bytes
    decreases |s|
  {
    if s == [] then []
    else if AtEscape(s) then [MakeChar(HexConvert(s[2]) * 16 + HexConvert(s[3]))] + Decoded(s[4..])
    else [s[0]] + Decoded(s[1..])
  }

  lemma InClosing(s: Bytes, closing: Bytes, j: nat)
    requires EndsWith(s, closing) && |s| - |closing| <= j < |s|
    ensures s[j] in closing
  {
    assert s[|s| - |closing| + (j - (|s| - |closing|))] == closing[j - (|s| - |closing|)];
  }

  /** Opening and closing cannot overlap: the last character of the one is not in the other. */
  lemma OpeningFits(s: Bytes, opening: Bytes, closing: Bytes)
    requires StartsWith(s, opening) && EndsWith(s, closing) && opening != [] && closing != []
    requires opening[|opening| - 1] !in closing
    ensures |s| >= |opening| + |closing| && s[|s| - |closing|] == closing[0]
  {
    if |s| < |opening| + |closing| {
      InClosing(s, closing, |opening| - 1);
      assert false;
    }
    assert s[|s| - |closing| + 0] == closing[0];
  }

  /** What lies between the opening and the closing of an escaped string. */
  function Inner(s: Bytes): (r: Bytes)
    requires IsBinaryEscaped(s)
    ensures |r| < |s|
  {
    if StartsWith(s, SHORT_OPENING) && EndsWith(s, SHORT_CLOSING) then
      OpeningFits(s, SHORT_OPENING, SHORT_CLOSING);
      s[3..|s| - 2]
    else
      OpeningFits(s, OPENING, CLOSING);
      s[4..|s| - 3]
  }

  function Extracted(s: Bytes): Bytes { if IsBinaryEscaped(s) then Decoded(Inner(s)) else s }

  /** Reading one position past the end yields a null character, as it does in the source. */
  function CharAt(s: Bytes, i: nat): Byte { if i < |s| then s[i] else NUL }

  method ExtractBinaryString(s: Bytes) returns (out: Bytes)
    ensures out == Extracted(s)
  {
    var start, tail := 0, 0;
    if StartsWith(s, SHORT_OPENING) && EndsWith(s, SHORT_CLOSING) {
      OpeningFits(s, SHORT_OPENING, SHORT_CLOSING);
      start, tail := 3, 2;
    } else if StartsWith(s, OPENING) && EndsWith(s, CLOSING) {
      OpeningFits(s, OPENING, CLOSING);
      start, tail := 4, 3;
    }
    if start == 0 { return s; }
    out := DecodeBetween(s, start, |s| - tail);
  }

  /** The loop over the characters between the opening and the closing. */
  method DecodeBetween(s: Bytes, start: nat, end: nat) returns (out: Bytes)
    requires start <= end < |s| && s[end] == ')'
    ensures out == Decoded(s[start..end])
  {
    hide HexConvert, Decoded, AtEscape, MakeChar;
    out := [];
    var loc := start;
    while loc < end
      invariant start <= loc <= end
      invariant out + Decoded(s[loc..end]) == Decoded(s[start..end])
    {
      EscapeTest(s, loc, end);
      if s[loc] == BACKSLASH && IsX(CharAt(s, loc + 1)) {
        var res1, res2 := HexConvert(CharAt(s, loc + 2)), HexConvert(CharAt(s, loc + 3));
        if res1 <= 0x0F && res2 <= 0x0F {
          DecodeEscape(s, loc, end, out);
          out, loc := out + [MakeChar(res1 * 16 + res2)], loc + 4;
          continue;
        }
      }
      DecodePlain(s, loc, end, out);
      out, loc := out + [s[loc]], loc + 1;
    }
    NothingLeft(s, end, out);
  }

  lemma NothingLeft(s: Bytes, end: nat, out: Bytes)
    requires end <= |s|
    ensures out + Decoded(s[end..end]) == out
  {}

  /** A sequence cannot run into the closing, whose first character is no digit, so testing the
      whole string at `loc` tests the part before the closing. */
  lemma EscapeTest(s: Bytes, loc: nat, end: nat)
    requires loc < end < |s| && s[end] == ')'
    ensures AtEscape(s[loc..end]) <==>
      s[loc] == BACKSLASH && IsX(CharAt(s, loc + 1)) && IsHex(CharAt(s, loc + 2)) && IsHex(CharAt(s, loc + 3))
    ensures AtEscape(s[loc..end]) ==> loc + 4 <= end
  {}

  lemma DecodeEscape(s: Bytes, loc: nat, end: nat, out: Bytes)
    requires loc + 4 <= end < |s| && AtEscape(s[loc..end])
    ensures out + Decoded(s[loc..end]) ==
      (out + [MakeChar(HexConvert(s[loc + 2]) * 16 + HexConvert(s[loc + 3]))]) + Decoded(s[loc + 4..end])
  {
    hide HexConvert;
    assert s[loc..end][4..] == s[loc + 4..end];
  }

  lemma DecodePlain(s: Bytes, loc: nat, end: nat, out: Bytes)
    requires loc < end < |s| && !AtEscape(s[loc..end])
    ensures out + Decoded(s[loc..end]) == (out + [s[loc]]) + Decoded(s[loc + 1..end])
  {
    hide HexConvert;
    assert s[loc..end][1..] == s[loc + 1..end];
  }

  // ---------- the round trip ----------

  /** Every backslash followed by an x starts a complete escape. */
  predicate Complete(s: Bytes)
  {
    forall i | 0 <= i < |s| - 1 && s[i] == BACKSLASH && IsX(s[i + 1]) :: AtEscape(s[i..])
  }

  lemma {:induction false} DecodedConcat(a: Bytes, b: Bytes)
    requires Complete(a) && !(EndsWithBackslash(a) && b != [] && IsX(b[0]))
    ensures Decoded(a + b) == Decoded(a) + Decoded(b)
    decreases |a|
  {
    hide HexConvert, MakeChar, Complete, Decoded, AtEscape, IsX, EndsWithBackslash, Used, DecodedOne;
    if a == [] {
      DecodedNone(b);
    } else {
      var n := Used(a);
      SameFront(a, b);
      CompleteTail(a, n);
      if n == |a| { DecodedNone(b); } else { DecodedConcat(a[n..], b); }
      DecodedStep(a);
      DecodedStep(a + b);
      FrontOfConcat(a, b, n);
    }
  }

  lemma DecodedNone(b: Bytes)
    ensures Decoded([]) == [] && [] + b == b && [] + Decoded(b) == Decoded(b)
  {}

  lemma FrontOfConcat(a: Bytes, b: Bytes, n: nat)
    requires n <= |a|
    ensures (a + b)[n..] == a[n..] + b && (a + b)[..n] == a[..n]
  {}

  /** How many characters the front of `s` takes to decode to one. */
  function Used(s: Bytes): (n: nat)
    requires s != []
    ensures 1 <= n <= |s|
  {
    if AtEscape(s) then 4 else 1
  }

  function DecodedOne(front: Bytes): Byte
    requires |front| == 1 || |front| == 4
  {
    if |front| == 4 then MakeChar(HexConvert(front[2]) * 16 + HexConvert(front[3])) else front[0]
  }

  lemma DecodedStep(s: Bytes)
    requires s != []
    ensures var n := Used(s); (n == 1 || n == 4) && Decoded(s) == [DecodedOne(s[..n])] + Decoded(s[n..])
  {
    hide HexConvert, MakeChar;
  }

  lemma SameFront(a: Bytes, b: Bytes)
    requires a != [] && Complete(a) && !(EndsWithBackslash(a) && b != [] && IsX(b[0]))
    ensures Used(a + b) == Used(a)
  {
    assert a[0..] == a;
    if |a| == 1 && b != [] { assert (a + b)[1] == b[0]; }
  }

  lemma CompleteTail(a: Bytes, n: nat)
    requires Complete(a) && n <= |a|
    ensures Complete(a[n..])
    ensures n < |a| ==> EndsWithBackslash(a[n..]) == EndsWithBackslash(a)
  {
    var t := a[n..];
    forall i | 0 <= i < |t| - 1 && t[i] == BACKSLASH && IsX(t[i + 1]) ensures AtEscape(t[i..]) {
      assert a[n + i] == t[i] && a[n + i + 1] == t[i + 1] && a[n + i..] == t[i..];
    }
  }

  lemma CompleteAppendEscape(a: Bytes, b: Bytes)
    requires Complete(a) && |b| == 4 && AtEscape(b)
    ensures Complete(a + b)
  {
    var s := a + b;
    forall i | 0 <= i < |s| - 1 && s[i] == BACKSLASH && IsX(s[i + 1]) ensures AtEscape(s[i..]) {
      if i < |a| - 1 { assert AtEscape(a[i..]); assert s[i..][..4] == a[i..][..4]; }
      else if i >= |a| { assert i == |a|; assert s[i..] == b; }
    }
  }

  lemma CompleteAppendOne(a: Bytes, c: Byte)
    requires Complete(a) && !(EndsWithBackslash(a) && IsX(c))
    ensures Complete(a + [c])
  {
    var s := a + [c];
    forall i | 0 <= i < |s| - 1 && s[i] == BACKSLASH && IsX(s[i + 1]) ensures AtEscape(s[i..]) {
      if i < |a| - 1 { assert AtEscape(a[i..]); assert s[i..][..4] == a[i..][..4]; }
    }
  }

  lemma EndsAfterUnquoting(s: Bytes)
    ensures EndsWithBackslash(Unquoted(s)) == EndsWithBackslash(s)
  {
    if s != [] {
      var last, n := s[|s| - 1], |s| - 1;
      assert Unquoted(s) == Unquoted(s[..n]) + (if last == SINGLE then [BACKSLASH, 'x', '2', '7'] else [last]);
    }
  }

  lemma HexEscapeDecodes(c: Byte)
    ensures |HexEscape(c)| == 4 && AtEscape(HexEscape(c)) && SINGLE !in HexEscape(c)
    ensures Decoded(HexEscape(c)) == [c]
  {
    HexDigitConverts(c as int / 16);
    HexDigitConverts(c as int % 16);
    DecodedFour(HexEscape(c), c);
  }

  lemma HexDigitConverts(n: nat)
    requires n < 16
    ensures HexConvert(HexDigit(n)) == n && HexDigit(n) != SINGLE
  {}

  lemma DecodedFour(s: Bytes, c: Byte)
    requires |s| == 4 && AtEscape(s) && HexConvert(s[2]) * 16 + HexConvert(s[3]) == c as int
    ensures Decoded(s) == [c]
  {
    hide HexConvert;
    assert s[4..] == [];
  }

  /** The invariant of the two passes together, one input byte at a time. */
  lemma {:induction false} PassesDecode(s: Bytes)
    ensures Complete(Unquoted(FirstPass(s))) && Decoded(Unquoted(FirstPass(s))) == s
    decreases |s|
  {
    hide FirstPass, Unquoted, Complete, Decoded, BinaryOne;
    if s == [] {
      PassesDecodeNone();
    } else {
      var n := |s| - 1;
      var sofar, c := FirstPass(s[..n]), s[n];
      PassesDecode(s[..n]);
      FirstPassMore(s, n);
      assert s[..n + 1] == s;
      UnquotedConcat(sofar, BinaryOne(sofar, c));
      EndsAfterUnquoting(sofar);
      assert s == s[..n] + [c];
      PieceDecodes(sofar, c);
    }
  }

  lemma PassesDecodeNone()
    ensures FirstPass([]) == [] && Unquoted([]) == [] && Complete([]) && Decoded([]) == []
  {}

  lemma PieceDecodes(sofar: Bytes, c: Byte)
    requires Complete(Unquoted(sofar)) && EndsWithBackslash(Unquoted(sofar)) == EndsWithBackslash(sofar)
    ensures var piece, e := Unquoted(BinaryOne(sofar, c)), Unquoted(sofar);
      Complete(e + piece) && Decoded(e + piece) == Decoded(e) + [c]
  {
    hide HexConvert, Complete, Decoded, AtEscape, HexEscape;
    var e, one := Unquoted(sofar), BinaryOne(sofar, c);
    if IsPrint(c) && c != SINGLE && one == [c] {
      UnquotedWithout([c]);
      CompleteAppendOne(e, c);
      DecodedConcat(e, [c]);
      DecodedSingle(c);
    } else {
      EscapePiece(sofar, c);
      var piece := Unquoted(one);
      CompleteAppendEscape(e, piece);
      DecodedConcat(e, piece);
    }
  }

  lemma DecodedSingle(c: Byte)
    ensures Decoded([c]) == [c]
  {
    assert [c][1..] == [];
  }

  /** Whatever is not copied is written as the escape of its own byte. */
  lemma EscapePiece(sofar: Bytes, c: Byte)
    requires !(IsPrint(c) && c != SINGLE && BinaryOne(sofar, c) == [c])
    ensures var piece := Unquoted(BinaryOne(sofar, c));
      |piece| == 4 && AtEscape(piece) && Decoded(piece) == [c]
  {
    var one := BinaryOne(sofar, c);
    if c == SINGLE {
      assert Unquoted([SINGLE]) == Unquoted([]) + [BACKSLASH, 'x', '2', '7'];
      DecodedFour([BACKSLASH, 'x', '2', '7'], c);
    } else if !IsPrint(c) {
      HexEscapeDecodes(c);
      UnquotedWithout(one);
    } else {
      UnquotedWithout(one);
      DecodedFour(one, c);
    }
  }

  lemma WrappedExtracts(b: Bytes)
    ensures IsBinaryEscaped(Wrapped(b)) && Extracted(Wrapped(b)) == Decoded(b)
  {
    hide Decoded;
    var w := Wrapped(b);
    assert w[0] == SINGLE;
    assert forall i | 0 <= i < 4 :: w[i] == OPENING[i];
    assert forall i | 0 <= i < 3 :: w[|w| - 3 + i] == CLOSING[i];
    assert Inner(w) == b;
  }

  lemma {:induction false} DecodedNoLonger(s: Bytes)
    ensures |Decoded(s)| <= |s|
    decreases |s|
  {
    if s != [] {
      DecodedStep(s);
      DecodedNoLonger(s[Used(s)..]);
    }
  }

  /** Nothing to escape, and yet it looks escaped. */
  predicate LooksEscaped(s: Bytes) { FirstPass(s) == s && IsBinaryEscaped(s) }

  predicate ExtractsTo(e: Bytes, s: Bytes) { Extracted(e) == s }

  /** Extraction undoes escaping, for every byte string, exactly when the escape was forced, or found
      something to escape, or the string does not itself look like an escaped one. */
  lemma BinaryRoundTripIff(s: Bytes, force: bool)
    ensures ExtractsTo(BinaryEscaped(s, force), s) <==> force || !LooksEscaped(s)
  {
    PassesDecode(s);
    WrappedExtracts(Unquoted(FirstPass(s)));
    if !force && FirstPass(s) == s && IsBinaryEscaped(s) {
      DecodedNoLonger(Inner(s));
    }
  }

  lemma {:induction false} NothingToEscape(s: Bytes, i: nat)
    requires i <= |s| && forall c | c in s :: IsPrint(c) && !IsX(c)
    ensures FirstPass(s[..i]) == s[..i]
  {
    hide FirstPass;
    if i == 0 {
      FirstPassNone();
    } else {
      NothingToEscape(s, i - 1);
      FirstPassMore(s, i - 1);
      assert s[i - 1] in s && s[..i] == s[..i - 1] + [s[i - 1]];
    }
  }

  lemma DecodedNothing()
    ensures Decoded([]) == []
  {}

  lemma BracketsAroundNothing()
    ensures var s: Bytes := ['B', '\"', '(', ')', '\"']; IsBinaryEscaped(s) && Inner(s) == []
  {
    var s: Bytes := ['B', '\"', '(', ')', '\"'];
    assert StartsWith(s, SHORT_OPENING) && EndsWith(s, SHORT_CLOSING);
  }

  /** Such a string: quotation marks and brackets around nothing. It is escaped to itself, and extraction
      leaves nothing of it. */
  lemma LooksEscapedExample()
    ensures var s: Bytes := ['B', '\"', '(', ')', '\"'];
      LooksEscaped(s) && BinaryEscaped(s, false) == s && Extracted(s) == []
  {
    var s: Bytes := ['B', '\"', '(', ')', '\"'];
    hide FirstPass, Unquoted, Decoded, IsBinaryEscaped, Inner;
    NothingToEscape(s, 5);
    DecodedNothing();
    BracketsAroundNothing();
    assert s[..5] == s;
  }
}
