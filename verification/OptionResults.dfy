/** How an option takes a quoted string apart, and why printing and parsing undo each other. */
module OptionResults {
  import opened Options
  import opened StringEscape
  import opened BinaryEscape

  const OPEN: Byte := '['
  const CLOSE: Byte := ']'
  const BACKTICK: Byte := '`'

  function Last(s: Bytes): Byte
    requires s != []
  {
    s[|s| - 1]
  }

  /** A string that would be read as an array. */
  predicate Bracketed(s: Bytes) { |s| >= 2 && s[0] == OPEN && Last(s) == CLOSE }

  function RemoveOuter(s: Bytes, key: Byte): Bytes
  {
    if |s| > 1 && s[0] == key && s[0] == Last(s) then s[1..|s| - 1] else s
  }

  function Doubled(s: Bytes): Bytes { if s == [] then [] else Doubled(s[..|s| - 1]) + [Last(s), Last(s)] }

  function SecondaryArray(s: Bytes): Bytes { if Bracketed(s) then [OPEN, OPEN] + Doubled(s[1..]) else s }

  method HandleSecondaryArray(str: Bytes) returns (r: Bytes)
    ensures r == SecondaryArray(str)
  {
    r := str;
    if |str| >= 2 && str[0] == OPEN && str[|str| - 1] == CLOSE {
      var tstr: Bytes := [OPEN, OPEN];
      for ii := 1 to |str|
        invariant tstr == [OPEN, OPEN] + Doubled(str[1..ii])
      {
        assert str[1..ii + 1][..ii - 1] == str[1..ii] && Last(str[1..ii + 1]) == str[ii];
        assert [OPEN, OPEN] + (Doubled(str[1..ii]) + [str[ii], str[ii]]) ==
          ([OPEN, OPEN] + Doubled(str[1..ii])) + [str[ii]] + [str[ii]];
        tstr := tstr + [str[ii]];
        tstr := tstr + [str[ii]];
      }
      assert str[1..|str|] == str[1..];
      r := tstr;
    }
  }

  /** Whether the string was quoted, and what it becomes. */
  datatype Processed = Processed(quoted: bool, str: Bytes)

  function Protected(s: Bytes, disable: bool): Processed { Processed(true, if disable then s else SecondaryArray(s)) }

  /** No value is an exception thrown while removing escapes. */
  function ProcessQuoted(s: Bytes, stringChar: Byte, literalChar: Byte, disable: bool): Option<Processed>
  {
    if |s| <= 1 then Some(Processed(false, s))
    else if IsBinaryEscaped(s) then Some(Protected(Extracted(s), disable))
    else if s[0] == stringChar && Last(s) == stringChar then
      var inner := RemoveOuter(s, stringChar);
      if BACKSLASH in inner then
        var u := Unescaped(inner);
        if u == None then None else Some(Protected(u.value, disable))
      else Some(Protected(inner, disable))
    else if (s[0] == literalChar || s[0] == BACKTICK) && Last(s) == s[0] then
      Some(Protected(RemoveOuter(s, s[0]), disable))
    else Some(Processed(false, s))
  }

  method ProcessQuotedString(s: Bytes, stringChar: Byte, literalChar: Byte, disable: bool)
    returns (r: Option<Processed>)
    ensures r == ProcessQuoted(s, stringChar, literalChar, disable)
  {
    hide Unescaped, Extracted, SecondaryArray, IsBinaryEscaped;
    if |s| <= 1 { return Some(Processed(false, s)); }
    var str := s;
    if IsBinaryEscaped(str) {
      str := ExtractBinaryString(str);
    } else if str[0] == stringChar && Last(str) == stringChar {
      str := RemoveOuter(str, stringChar);
      if Position(str, BACKSLASH) < |str| {
        var u := RemoveEscapedCharacters(str);
        if u == None { return None; }
        str := u.value;
      }
    } else if (str[0] == literalChar || str[0] == BACKTICK) && Last(str) == str[0] {
      str := RemoveOuter(str, str[0]);
    } else {
      return Some(Processed(false, s));
    }
    if !disable { str := HandleSecondaryArray(str); }
    return Some(Processed(true, str));
  }

  // ---------- adding a result to an option ----------

  /** The fields of an option that matter here, and the splitter of bracketed lists. */
  datatype Settings = Settings(
    allowExtraArgs: bool, expectedMax: int, typeSize: int, delimiter: Byte, splitUp: Bytes -> seq<Bytes>)
  {
    predicate TakesVector() { allowExtraArgs || expectedMax > 1 || typeSize > 1 }

    /** The splitter only cuts its argument into pieces. */
    ghost predicate Cuts() { forall s, v | v in splitUp(s) :: |v| <= |s| }
  }

  /** The string whose characters come in equal pairs, if they do. What follows it is a closing
      bracket, which an odd last character is compared with. */
  function Undoubled(s: Bytes): Option<Bytes>
  {
    if s == [] then Some([])
    else if s[0] != (if |s| > 1 then s[1] else CLOSE) then None
    else Prefixed([s[0]], Undoubled(s[if |s| > 1 then 2 else 1..]))
  }

  predicate DoublyBracketed(s: Bytes)
  {
    |s| >= 4 && s[0] == OPEN && s[1] == OPEN && s[|s| - 1] == CLOSE && s[|s| - 2] == CLOSE
  }

  /** The non-empty pieces between delimiters. */
  function Pieces(s: Bytes, d: Byte): seq<Bytes>
    decreases |s|
  {
    var i := Position(s, d);
    var after := if i < |s| then Pieces(s[i + 1..], d) else [];
    if i > 0 then [s[..i]] + after else after
  }

  function AddResult(o: Settings, result: Bytes): seq<Bytes>
    requires o.Cuts()
    decreases |result|, 1
  {
    if DoublyBracketed(result) && Undoubled(result[2..|result| - 2]) != None then
      [[OPEN] + Undoubled(result[2..|result| - 2]).value + [CLOSE]]
    else if o.TakesVector() && Bracketed(result) then
      var inner := result[1..|result| - 1];
      AddAll(o, o.splitUp(inner), |inner|)
    else if o.delimiter == NUL || o.delimiter !in result then [result]
    else Pieces(result, o.delimiter)
  }

  /** The results of the non-empty members of `vars`, none of them longer than `bound`. */
  function AddAll(o: Settings, vars: seq<Bytes>, bound: nat): seq<Bytes>
    requires o.Cuts() && forall v | v in vars :: |v| <= bound
    decreases bound, 2, |vars|
  {
    if vars == [] then []
    else
      var v := vars[|vars| - 1];
      AddAll(o, vars[..|vars| - 1], bound) + if v == [] then [] else assert v in vars; AddResult(o, v)
  }

  /** The loop over the pairs between the doubled brackets. */
  method Undouble(result: Bytes) returns (nstrs: Option<Bytes>)
    requires DoublyBracketed(result)
    ensures nstrs == Undoubled(result[2..|result| - 2])
  {
    var out: Bytes := [];
    var ii := 2;
    ghost var n := |result| - 2;
    assert forall o: Option<Bytes> :: o != None ==> [] + o.value == o.value;
    while ii < |result| - 2
      invariant 2 <= ii <= n + 1
      invariant ii <= n ==> Undoubled(result[2..n]) == Prefixed(out, Undoubled(result[ii..n]))
      invariant ii == n + 1 ==> Undoubled(result[2..n]) == Some(out)
    {
      if result[ii] != result[ii + 1] { return None; }
      PairRead(result, ii, n, out);
      out := out + [result[ii]];
      ii := ii + 2;
    }
    if ii == n { assert result[n..n] == [] && out + [] == out; }
    return Some(out);
  }

  lemma PairRead(result: Bytes, ii: nat, n: nat, out: Bytes)
    requires ii < n < |result| && result[n] == CLOSE && result[ii] == result[ii + 1]
    ensures Prefixed(out, Undoubled(result[ii..n])) ==
      if ii + 2 <= n then Prefixed(out + [result[ii]], Undoubled(result[ii + 2..n])) else Some(out + [result[ii]])
  {
    var s, c := result[ii..n], result[ii];
    if ii + 2 <= n {
      assert s[2..] == result[ii + 2..n];
      PrefixedTwice(out, [c], Undoubled(result[ii + 2..n]));
    } else {
      assert s == [c] && s[1..] == [] && [c] + [] == [c];
    }
  }

  method AddResultTo(o: Settings, result: Bytes, res: seq<Bytes>) returns (count: nat, res': seq<Bytes>)
    requires o.Cuts()
    ensures res' == res + AddResult(o, result) && count == |AddResult(o, result)|
    decreases |result|, 1
  {
    hide Undoubled, AddAll, Pieces;
    if DoublyBracketed(result) {
      var nstrs := Undouble(result);
      if nstrs != None {
        return 1, res + [[OPEN] + nstrs.value + [CLOSE]];
      }
    }
    if o.TakesVector() && result != [] && result[0] == OPEN && result[|result| - 1] == CLOSE {
      var inner := result[1..|result| - 1];
      count, res' := AddVector(o, o.splitUp(inner), |inner|, res);
      return;
    }
    if o.delimiter == NUL {
      return 1, res + [result];
    }
    if Position(result, o.delimiter) < |result| {
      count, res' := AddPieces(result, o.delimiter, res);
    } else {
      return 1, res + [result];
    }
  }

  method AddVector(o: Settings, vars: seq<Bytes>, ghost bound: nat, res: seq<Bytes>)
    returns (count: nat, res': seq<Bytes>)
    requires o.Cuts() && forall v | v in vars :: |v| <= bound
    ensures res' == res + AddAll(o, vars, bound) && count == |AddAll(o, vars, bound)|
    decreases bound, 2
  {
    hide AddResult, AddAll;
    res' := res;
    AddAllNone(o, bound, res);
    for k := 0 to |vars|
      invariant res' == res + AddAll(o, vars[..k], bound)
    {
      AddAllMore(o, vars, k, bound, res);
      if vars[k] != [] {
        var more;
        more, res' := AddResultTo(o, vars[k], res');
      }
    }
    assert vars[..|vars|] == vars;
    count := |res'| - |res|;
  }

  lemma AddAllNone(o: Settings, bound: nat, res: seq<Bytes>)
    requires o.Cuts()
    ensures res + AddAll(o, [], bound) == res
  {}

  lemma AddAllMore(o: Settings, vars: seq<Bytes>, k: nat, bound: nat, res: seq<Bytes>)
    requires o.Cuts() && (forall v | v in vars :: |v| <= bound) && k < |vars|
    ensures |vars[k]| <= bound
    ensures res + AddAll(o, vars[..k + 1], bound) ==
      if vars[k] == [] then res + AddAll(o, vars[..k], bound)
      else (res + AddAll(o, vars[..k], bound)) + AddResult(o, vars[k])
  {
    hide AddAll, AddResult;
    AddAllStep(o, vars, k, bound);
    var before := AddAll(o, vars[..k], bound);
    if vars[k] == [] {
      assert before + [] == before;
    } else {
      assert res + (before + AddResult(o, vars[k])) == (res + before) + AddResult(o, vars[k]);
    }
  }

  lemma AddAllStep(o: Settings, vars: seq<Bytes>, k: nat, bound: nat)
    requires o.Cuts() && (forall v | v in vars :: |v| <= bound) && k < |vars|
    ensures |vars[k]| <= bound
    ensures AddAll(o, vars[..k + 1], bound) ==
      AddAll(o, vars[..k], bound) + if vars[k] == [] then [] else AddResult(o, vars[k])
  {
    hide AddResult;
    assert vars[k] in vars && vars[..k + 1][..k] == vars[..k];
  }

  method AddPieces(s: Bytes, d: Byte, res: seq<Bytes>) returns (count: nat, res': seq<Bytes>)
    ensures res' == res + Pieces(s, d) && count == |Pieces(s, d)|
  {
    hide Pieces;
    res' := res;
    var rest, more := s, true;
    while more
      invariant res' + (if more then Pieces(rest, d) else []) == res + Pieces(s, d)
      decreases more, |rest|
    {
      var i := Position(rest, d);
      OnePiece(rest, d, res');
      if i > 0 { res' := res' + [rest[..i]]; }
      if i < |rest| { rest := rest[i + 1..]; } else { more := false; }
    }
    count := |res'| - |res|;
  }

  lemma OnePiece(s: Bytes, d: Byte, res: seq<Bytes>)
    ensures var i := Position(s, d);
      res + Pieces(s, d) == (if i > 0 then res + [s[..i]] else res) + if i < |s| then Pieces(s[i + 1..], d) else []
  {
    hide Position;
    var i := Position(s, d);
    if i > 0 { Regroup(res, [s[..i]], if i < |s| then Pieces(s[i + 1..], d) else []); }
  }

  lemma Regroup(a: seq<Bytes>, b: seq<Bytes>, c: seq<Bytes>)
    ensures a + (b + c) == (a + b) + c
  {}

  // ---------- the round trips ----------

  lemma {:induction false} UndoubleDoubled(s: Bytes)
    ensures Undoubled(Doubled(s)) == Some(s) && |Doubled(s)| == 2 * |s|
  {
    if s != [] {
      DoubledFront(s);
      UndoubleDoubled(s[1..]);
      var d := Doubled(s);
      assert d[2..] == Doubled(s[1..]);
      assert s == [s[0]] + s[1..];
    }
  }

  lemma {:induction false} DoubledFront(s: Bytes)
    requires s != []
    ensures Doubled(s) == [s[0], s[0]] + Doubled(s[1..])
  {
    if |s| == 1 {
      assert Doubled(s) == Doubled([]) + [s[0], s[0]];
    } else {
      var n := |s| - 1;
      DoubledFront(s[..n]);
      assert s[..n][1..] == s[1..][..n - 1];
    }
  }

  /** Protecting a string that looks like an array makes the option take it whole. */
  lemma ProtectedIsOneResult(o: Settings, s: Bytes)
    requires o.Cuts() && Bracketed(s)
    ensures AddResult(o, SecondaryArray(s)) == [s]
  {
    hide Doubled, AddResult, Undoubled, SecondaryArray, DoublyBracketed;
    var middle := s[1..|s| - 1];
    ProtectedShape(s);
    UndoubleDoubled(middle);
    MiddleOfBrackets(Doubled(middle));
    assert [OPEN] + middle + [CLOSE] == s;
    DoublyBracketedResult(o, SecondaryArray(s), middle);
  }

  lemma MiddleOfBrackets(d: Bytes)
    ensures var p := [OPEN, OPEN] + d + [CLOSE, CLOSE]; DoublyBracketed(p) && p[2..|p| - 2] == d
  {}

  lemma DoublyBracketedResult(o: Settings, p: Bytes, u: Bytes)
    requires o.Cuts() && DoublyBracketed(p) && Undoubled(p[2..|p| - 2]) == Some(u)
    ensures AddResult(o, p) == [[OPEN] + u + [CLOSE]]
  {}

  lemma ProtectedShape(s: Bytes)
    requires Bracketed(s)
    ensures SecondaryArray(s) == [OPEN, OPEN] + Doubled(s[1..|s| - 1]) + [CLOSE, CLOSE]
  {
    assert s[1..][..|s| - 2] == s[1..|s| - 1] && Last(s[1..]) == CLOSE;
    assert [OPEN, OPEN] + (Doubled(s[1..|s| - 1]) + [CLOSE, CLOSE]) ==
      [OPEN, OPEN] + Doubled(s[1..|s| - 1]) + [CLOSE, CLOSE];
  }

  lemma {:induction false} PiecesLackDelimiter(s: Bytes, d: Byte)
    ensures forall p | p in Pieces(s, d) :: d !in p
    decreases |s|
  {
    var i := Position(s, d);
    BeforePosition(s, d);
    if i < |s| { PiecesLackDelimiter(s[i + 1..], d); }
  }

  lemma {:induction false} BeforePosition(s: Bytes, d: Byte)
    ensures d !in s[..Position(s, d)]
  {
    if s != [] && s[0] != d {
      BeforePosition(s[1..], d);
      assert s[..Position(s, d)] == [s[0]] + s[1..][..Position(s[1..], d)];
    }
  }

  /** A protected string becomes exactly the one result it came from unless it holds the delimiter,
      unbracketed. */
  lemma ProtectedResultIff(o: Settings, s: Bytes)
    requires o.Cuts()
    ensures AddResult(o, SecondaryArray(s)) == [s] <==> Bracketed(s) || o.delimiter == NUL || o.delimiter !in s
  {
    if Bracketed(s) {
      ProtectedIsOneResult(o, s);
    } else if o.delimiter != NUL && o.delimiter in s {
      PiecesLackDelimiter(s, o.delimiter);
      assert s in [s];
    }
  }

  /** Quoting the escaped form of a string and processing it gives back the string, protected. */
  lemma QuotedIsProcessed(s: Bytes)
    ensures ProcessQuoted([QUOTE] + Escaped(s) + [QUOTE], QUOTE, SINGLE, false) ==
      Some(Processed(true, SecondaryArray(s)))
  {
    hide Escaped, Unescaped, SecondaryArray;
    var q := [QUOTE] + Escaped(s) + [QUOTE];
    assert q[0] == QUOTE && Last(q) == QUOTE && q[1..|q| - 1] == Escaped(s);
    assert !IsBinaryEscaped(q) by { assert q[0] != SHORT_OPENING[0] && q[0] != OPENING[0]; }
    UnescapeEscaped(s);
    if BACKSLASH !in Escaped(s) { NoBackslashNoEscape(s); }
  }

  /** The whole way through, for every string: quote its escaped form, process it with the array
      protection on, add it to an option. It arrives as exactly one result, itself, if and only if
      the option has no delimiter, or the string lacks it, or is bracketed. */
  lemma QuotedRoundTripIff(o: Settings, s: Bytes)
    requires o.Cuts()
    ensures var p := ProcessQuoted([QUOTE] + Escaped(s) + [QUOTE], QUOTE, SINGLE, false);
      && p != None && p.value.quoted
      && (AddResult(o, p.value.str) == [s] <==> Bracketed(s) || o.delimiter == NUL || o.delimiter !in s)
  {
    hide ProcessQuoted, AddResult, SecondaryArray;
    QuotedIsProcessed(s);
    ProtectedResultIff(o, s);
  }

  /** The same for the binary form, which takes another path through the processing. */
  lemma BinaryRoundTripThroughOption(o: Settings, s: Bytes)
    requires o.Cuts() && o.delimiter == NUL
    ensures var p := ProcessQuoted(BinaryEscaped(s, true), QUOTE, SINGLE, false);
      && p != None && p.value.quoted && AddResult(o, p.value.str) == [s]
  {
    hide AddResult, SecondaryArray, Extracted, IsBinaryEscaped, Unquoted, FirstPass;
    BinaryRoundTripIff(s, true);
    WrappedExtracts(Unquoted(FirstPass(s)));
    ProtectedResultIff(o, s);
  }
}
