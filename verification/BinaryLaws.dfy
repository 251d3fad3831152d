/** What the binary escape writes and reads, byte by byte. */
module BinaryLaws {
  import opened StringEscape
  import opened BinaryEscape
  import opened EscapeLaws

  /** What stands between the opening and the closing of an escaped string. */
  function Body(s: Bytes): Bytes { Unquoted(FirstPass(s)) }

  lemma EmptyBody()
    ensures Body([]) == []
  {}

  /** A byte is copied if it is printable, no single quote, and no x after a backslash; any other is
      written as a backslash, a small x and two lower-case digits. */
  lemma BodyMore(s: Bytes, c: Byte)
    ensures Body(s + [c]) == Body(s) +
      if 0x20 <= c as int < 0x7F && c != '\'' && !((c == 'x' || c == 'X') && s != [] && s[|s| - 1] == '\\')
      then [c] else ['\\', 'x', LOWER[c as int / 16], LOWER[c as int % 16]]
  {
    hide FirstPass, Unquoted;
    var t := s + [c];
    FirstPassMore(t, |s|);
    assert t[..|s|] == s && t[..|s| + 1] == t;
    FirstPassEnds(s);
    UnquotedConcat(FirstPass(s), BinaryOne(FirstPass(s), c));
    PieceIs(FirstPass(s), c);
  }

  lemma HexEscapeIs(c: Byte)
    ensures HexEscape(c) == ['\\', 'x', LOWER[c as int / 16], LOWER[c as int % 16]]
  {
    HexDigitIs(c as int / 16);
    HexDigitIs(c as int % 16);
  }

  lemma HexDigitIs(n: nat)
    requires n < 16
    ensures HexDigit(n) == LOWER[n] && HexDigit(n) != '\'' && HexDigit(n) != '\\' && 0x20 <= HexDigit(n) as int < 0x7F
  {}

  lemma PieceIs(sofar: Bytes, c: Byte)
    ensures Unquoted(BinaryOne(sofar, c)) ==
      if 0x20 <= c as int < 0x7F && c != '\'' && !((c == 'x' || c == 'X') && EndsWithBackslash(sofar))
      then [c] else ['\\', 'x', LOWER[c as int / 16], LOWER[c as int % 16]]
  {
    hide Unquoted, HexEscape, HexString;
    HexEscapeIs(c);
    HexDigitIs(c as int / 16);
    HexDigitIs(c as int % 16);
    UnquotedQuote();
    if c != '\'' { UnquotedWithout(BinaryOne(sofar, c)); }
  }

  lemma UnquotedQuote()
    ensures Unquoted(['\'']) == ['\\', 'x', '2', '7']
  {
    assert [SINGLE][..0] == [];
    assert Unquoted([]) == [];
  }

  /** The first pass ends with a backslash exactly where the string does. */
  lemma FirstPassEnds(s: Bytes)
    ensures EndsWithBackslash(FirstPass(s)) <==> s != [] && s[|s| - 1] == '\\'
  {
    hide FirstPass, BinaryOne;
    if s == [] {
      FirstPassNone();
    } else {
      var n := |s| - 1;
      FirstPassMore(s, n);
      assert s[..n + 1] == s;
      OnePiece(FirstPass(s[..n]), s[n]);
    }
  }

  /** One byte becomes itself or more, and ends with a backslash only if it is one. */
  lemma OnePiece(sofar: Bytes, c: Byte)
    ensures var one := BinaryOne(sofar, c);
      && |one| >= 1
      && (one[|one| - 1] == '\\' <==> c == '\\')
      && (|one| == 1 <==> 0x20 <= c as int < 0x7F && !((c == 'x' || c == 'X') && EndsWithBackslash(sofar)))
      && (|one| == 1 ==> one == [c])
  {
    hide HexEscape;
    HexEscapeIs(c);
    HexDigitIs(c as int % 16);
  }

  /** The escaped form is printable and, between opening and closing, free of single quotes. */
  lemma {:induction false} BodyPrintable(s: Bytes)
    ensures forall b | b in Body(s) :: 0x20 <= b as int < 0x7F && b != '\''
  {
    hide Body;
    if s == [] {
      EmptyBody();
    } else {
      var n := |s| - 1;
      assert s == s[..n] + [s[n]];
      BodyPrintable(s[..n]);
      BodyMore(s[..n], s[n]);
      HexDigitIs(s[n] as int / 16);
      HexDigitIs(s[n] as int % 16);
    }
  }

  // ---------- when anything is escaped at all ----------

  /** Nothing in `s` needs escaping: it is printable, and no backslash comes before an x. */
  predicate NeedsNothing(s: Bytes)
  {
    && (forall i | 0 <= i < |s| :: 0x20 <= s[i] as int < 0x7F)
    && (forall i | 0 < i < |s| && (s[i] == 'x' || s[i] == 'X') :: s[i - 1] != '\\')
  }

  lemma {:induction false} FirstPassUnchangedIff(s: Bytes)
    ensures |FirstPass(s)| >= |s| && (FirstPass(s) == s <==> NeedsNothing(s))
  {
    hide FirstPass, BinaryOne;
    if s == [] {
      FirstPassNone();
    } else {
      var n := |s| - 1;
      var p, c := s[..n], s[n];
      var e := FirstPass(p);
      FirstPassUnchangedIff(p);
      FirstPassMore(s, n);
      assert s[..n + 1] == s && s == p + [c];
      FirstPassEnds(p);
      OnePiece(e, c);
      var one := BinaryOne(e, c);
      if FirstPass(s) == s {
        assert |e| == n;
        assert (e + one)[..n] == e;
        assert NeedsNothing(p);
      }
      if NeedsNothing(s) {
        assert forall i | 0 <= i < |p| :: p[i] == s[i];
        assert NeedsNothing(p);
      }
    }
  }

  /** Escaping wraps the body unless nothing needs escaping and it was not forced. */
  lemma EscapedIs(s: Bytes, force: bool)
    ensures BinaryEscaped(s, force) ==
      if force || !NeedsNothing(s) then ['\'', 'B', '\"', '('] + Body(s) + [')', '\"', '\''] else s
  {
    hide FirstPass, Unquoted;
    FirstPassUnchangedIff(s);
  }

  // ---------- reading ----------

  lemma Enclosed(opening: Bytes, b: Bytes, closing: Bytes)
    ensures StartsWith(opening + b + closing, opening) && EndsWith(opening + b + closing, closing)
  {}

  lemma Opened(s: Bytes, opening: Bytes, closing: Bytes) returns (b: Bytes)
    requires StartsWith(s, opening) && EndsWith(s, closing) && opening != [] && closing != []
    requires opening[|opening| - 1] !in closing
    ensures s == opening + b + closing
  {
    OpeningFits(s, opening, closing);
    b := s[|opening|..|s| - |closing|];
    assert s[..|opening|] == opening && s[|s| - |closing|..] == closing;
  }

  /** What looks escaped: something in round brackets and quotation marks after a B, with or without
      single quotes around it. */
  lemma LooksEscapedIff(s: Bytes)
    ensures IsBinaryEscaped(s) <==> exists b: Bytes ::
      s == ['B', '\"', '('] + b + [')', '\"'] || s == ['\'', 'B', '\"', '('] + b + [')', '\"', '\'']
  {
    hide StartsWith, EndsWith;
    if StartsWith(s, SHORT_OPENING) && EndsWith(s, SHORT_CLOSING) {
      var b := Opened(s, SHORT_OPENING, SHORT_CLOSING);
    } else if StartsWith(s, OPENING) && EndsWith(s, CLOSING) {
      var b := Opened(s, OPENING, CLOSING);
    }
    if b: Bytes :| s == ['B', '\"', '('] + b + [')', '\"'] || s == ['\'', 'B', '\"', '('] + b + [')', '\"', '\''] {
      Enclosed(SHORT_OPENING, b, SHORT_CLOSING);
      Enclosed(OPENING, b, CLOSING);
    }
  }

  /** Extraction decodes what is enclosed and leaves any other string alone. */
  lemma ExtractedIs(s: Bytes, b: Bytes)
    ensures s == ['B', '\"', '('] + b + [')', '\"'] ==> Extracted(s) == Decoded(b)
    ensures s == ['\'', 'B', '\"', '('] + b + [')', '\"', '\''] ==> Extracted(s) == Decoded(b)
    ensures !IsBinaryEscaped(s) ==> Extracted(s) == s
  {
    hide Decoded;
    if s == ['B', '\"', '('] + b + [')', '\"'] {
      Enclosed(SHORT_OPENING, b, SHORT_CLOSING);
      assert s[3..|s| - 2] == b;
    }
    if s == ['\'', 'B', '\"', '('] + b + [')', '\"', '\''] {
      Enclosed(OPENING, b, CLOSING);
      assert s[0] != SHORT_OPENING[0];
      assert s[4..|s| - 3] == b;
    }
  }

  /** A backslash, an x of either case and two digits of either case are read as one byte. */
  lemma DecodedPair(x: Byte, hi: Byte, lo: Byte, b: Byte, rest: Bytes)
    requires (x == 'x' || x == 'X') && (hi == LOWER[b as int / 16] || hi == UPPER[b as int / 16])
    requires lo == LOWER[b as int % 16] || lo == UPPER[b as int % 16]
    ensures Decoded(['\\', x, hi, lo] + rest) == [b] + Decoded(rest)
  {
    hide HexConvert, IsHex, Decoded;
    PlaceIsValue(hi, b as int / 16);
    PlaceIsValue(lo, b as int % 16);
    DecodedEscape(['\\', x, hi, lo], b, rest);
  }

  lemma PlaceIsValue(c: Byte, n: nat)
    requires n < 16 && (c == LOWER[n] || c == UPPER[n])
    ensures IsHex(c) && HexConvert(c) == n
  {
    HexDigits(c);
  }

  lemma DecodedEscape(e: Bytes, b: Byte, rest: Bytes)
    requires |e| == 4 && AtEscape(e) && HexConvert(e[2]) * 16 + HexConvert(e[3]) == b as int
    ensures Decoded(e + rest) == [b] + Decoded(rest)
  {
    hide HexConvert, IsHex;
    assert (e + rest)[4..] == rest;
  }

  /** Anything else at the front is copied. */
  lemma DecodedOther(s: Bytes)
    requires s != []
    requires !(|s| >= 4 && s[0] == '\\' && (s[1] == 'x' || s[1] == 'X')
      && (s[2] in LOWER || s[2] in UPPER) && (s[3] in LOWER || s[3] in UPPER))
    ensures Decoded(s) == [s[0]] + Decoded(s[1..]) && Decoded([]) == []
  {
    hide HexConvert, IsHex;
    forall c: Byte ensures IsHex(c) <==> c in LOWER || c in UPPER { HexDigits(c); }
  }
}
