/** What an option makes of delimiters, brackets and quotes. */
module OptionLaws {
  import opened Options
  import opened StringEscape
  import opened BinaryEscape
  import opened OptionResults

  // ---------- delimiters ----------

  function Join(words: seq<Bytes>, d: Byte): Bytes
    requires words != []
  {
    if |words| == 1 then words[0] else words[0] + [d] + Join(words[1..], d)
  }

  function NonEmpty(words: seq<Bytes>): seq<Bytes>
  {
    if words == [] then [] else (if words[0] == [] then [] else [words[0]]) + NonEmpty(words[1..])
  }

  /** Without empty words there is nothing to leave out. */
  lemma {:induction false} NonEmptyOfAll(words: seq<Bytes>)
    requires [] !in words
    ensures NonEmpty(words) == words
  {
    if words != [] {
      assert words == [words[0]] + words[1..];
      NonEmptyOfAll(words[1..]);
    }
  }

  lemma PositionOfFirst(a: Bytes, d: Byte, b: Bytes)
    requires d !in a
    ensures Position(a + [d] + b, d) == |a| && Position(a, d) == |a|
  {
    hide Position;
    var s := a + [d] + b;
    BeforePosition(s, d);
    assert s[|a|] == d;
    assert d in s;
    assert forall k | 0 <= k < |a| :: s[k] == a[k] && a[k] in a;
    assert forall k | |a| < k <= |s| :: d in s[..k] by {
      forall k | |a| < k <= |s| ensures d in s[..k] { assert s[..k][|a|] == d; }
    }
  }

  lemma PiecesOfWord(w: Bytes, d: Byte)
    requires d !in w
    ensures Pieces(w, d) == if w == [] then [] else [w]
  {
    hide Position;
    PositionOfFirst(w, d, []);
    assert w[..|w|] == w;
  }

  lemma PiecesAfterWord(w: Bytes, d: Byte, rest: Bytes)
    requires d !in w
    ensures Pieces(w + [d] + rest, d) == (if w == [] then [] else [w]) + Pieces(rest, d)
  {
    hide Position;
    PositionOfFirst(w, d, rest);
    var s := w + [d] + rest;
    assert s[..|w|] == w && s[|w| + 1..] == rest;
  }

  lemma {:induction false} PiecesOfJoin(words: seq<Bytes>, d: Byte)
    requires words != [] && forall w | w in words :: d !in w
    ensures Pieces(Join(words, d), d) == NonEmpty(words)
  {
    hide Pieces;
    if |words| == 1 {
      PiecesOfWord(words[0], d);
      assert NonEmpty(words[1..]) == [];
    } else {
      PiecesOfJoin(words[1..], d);
      PiecesAfterWord(words[0], d, Join(words[1..], d));
    }
  }

  /** The option reads the brackets around `s`: as an array, or as a protected string. */
  predicate ReadsBrackets(o: Settings, s: Bytes)
  {
    && |s| >= 2 && s[0] == '[' && s[|s| - 1] == ']'
    && (o.allowExtraArgs || o.expectedMax > 1 || o.typeSize > 1 ||
         (|s| >= 4 && s[1] == '[' && s[|s| - 2] == ']' && Undoubled(s[2..|s| - 2]) != None))
  }

  /** Words joined by the delimiter come back as exactly those words, in order; empty ones, between
      delimiters that follow each other or at an end, add nothing. */
  lemma JoinedResults(o: Settings, words: seq<Bytes>)
    requires o.Cuts() && o.delimiter != '\0' && |words| >= 2 && forall w | w in words :: o.delimiter !in w
    requires !ReadsBrackets(o, Join(words, o.delimiter))
    ensures AddResult(o, Join(words, o.delimiter)) == NonEmpty(words)
    ensures [] !in words ==> AddResult(o, Join(words, o.delimiter)) == words
  {
    hide Pieces, AddResult, ReadsBrackets, Join, NonEmpty;
    PiecesOfJoin(words, o.delimiter);
    if [] !in words { NonEmptyOfAll(words); }
    JoinHasDelimiter(words, o.delimiter);
    SplitResult(o, Join(words, o.delimiter));
  }

  lemma SplitResult(o: Settings, s: Bytes)
    requires o.Cuts() && o.delimiter != '\0' && o.delimiter in s && !ReadsBrackets(o, s)
    ensures AddResult(o, s) == Pieces(s, o.delimiter)
  {
    hide Pieces, Undoubled, AddAll, Position;
  }

  lemma JoinHasDelimiter(words: seq<Bytes>, d: Byte)
    requires |words| >= 2
    ensures d in Join(words, d)
  {
    assert d in words[0] + [d] + Join(words[1..], d);
  }

  /** A string that holds no delimiter is one result, even if it is empty. */
  lemma SingleResult(o: Settings, s: Bytes)
    requires o.Cuts() && (o.delimiter == '\0' || o.delimiter !in s) && !ReadsBrackets(o, s)
    ensures AddResult(o, s) == [s]
  {
    hide Undoubled, AddAll, Pieces, Position;
  }

  // ---------- brackets ----------

  function Concat(rss: seq<seq<Bytes>>): seq<Bytes>
  {
    if rss == [] then [] else Concat(rss[..|rss| - 1]) + rss[|rss| - 1]
  }

  lemma {:induction false} AllInTurn(o: Settings, words: seq<Bytes>, bound: nat, rss: seq<seq<Bytes>>)
    requires o.Cuts() && (forall w | w in words :: |w| <= bound) && |rss| == |words|
    requires forall k | 0 <= k < |words| :: rss[k] == if words[k] == [] then [] else AddResult(o, words[k])
    ensures AddAll(o, words, bound) == Concat(rss)
    decreases |words|
  {
    hide AddResult, AddAll;
    if words == [] {
      AddAllNone(o, bound, []);
    } else {
      var n := |words| - 1;
      AllInTurn(o, words[..n], bound, rss[..n]);
      AddAllStep(o, words, n, bound);
      assert words[..n + 1] == words;
    }
  }

  /** An array is the results of its non-empty elements, one after the other. */
  lemma ArrayResults(o: Settings, inner: Bytes, rss: seq<seq<Bytes>>)
    requires o.Cuts() && (o.allowExtraArgs || o.expectedMax > 1 || o.typeSize > 1)
    requires |inner| >= 2 && inner[0] == '[' && inner[|inner| - 1] == ']' ==> Undoubled(inner[1..|inner| - 1]) == None
    requires |rss| == |o.splitUp(inner)|
    requires forall k | 0 <= k < |rss| ::
      rss[k] == if o.splitUp(inner)[k] == [] then [] else AddResult(o, o.splitUp(inner)[k])
    ensures AddResult(o, ['['] + inner + [']']) == Concat(rss)
  {
    hide AddResult, AddAll, Concat;
    AllInTurn(o, o.splitUp(inner), |inner|, rss);
    ArrayIsAll(o, inner);
  }

  lemma ArrayIsAll(o: Settings, inner: Bytes)
    requires o.Cuts() && (o.allowExtraArgs || o.expectedMax > 1 || o.typeSize > 1)
    requires |inner| >= 2 && inner[0] == '[' && inner[|inner| - 1] == ']' ==> Undoubled(inner[1..|inner| - 1]) == None
    ensures AddResult(o, ['['] + inner + [']']) == AddAll(o, o.splitUp(inner), |inner|)
  {
    hide Undoubled, AddAll, Pieces, Position, DoublyBracketed;
    InsideBrackets(inner);
  }

  lemma InsideBrackets(inner: Bytes)
    ensures var s := ['['] + inner + [']'];
      && Bracketed(s) && s[1..|s| - 1] == inner
      && (DoublyBracketed(s) ==>
           |inner| >= 2 && inner[0] == '[' && inner[|inner| - 1] == ']' && s[2..|s| - 2] == inner[1..|inner| - 1])
  {
    var s := ['['] + inner + [']'];
    assert forall i | 0 <= i < |inner| :: s[1 + i] == inner[i];
    if DoublyBracketed(s) { assert s[2..|s| - 2] == inner[1..|inner| - 1]; }
  }

  /** So an array of plain words is those words. */
  lemma ArrayOfWords(o: Settings, inner: Bytes)
    requires o.Cuts() && (o.allowExtraArgs || o.expectedMax > 1 || o.typeSize > 1)
    requires |inner| >= 2 && inner[0] == '[' && inner[|inner| - 1] == ']' ==> Undoubled(inner[1..|inner| - 1]) == None
    requires forall w | w in o.splitUp(inner) ::
      w != [] && !ReadsBrackets(o, w) && (o.delimiter == '\0' || o.delimiter !in w)
    ensures AddResult(o, ['['] + inner + [']']) == o.splitUp(inner)
  {
    hide AddResult, ReadsBrackets;
    var words := o.splitUp(inner);
    var rss := seq(|words|, k requires 0 <= k < |words| => [words[k]]);
    forall k | 0 <= k < |words| ensures rss[k] == AddResult(o, words[k]) && words[k] != [] {
      assert words[k] in words;
      SingleResult(o, words[k]);
    }
    ArrayResults(o, inner, rss);
    ConcatSingles(words, rss);
  }

  lemma {:induction false} ConcatSingles(words: seq<Bytes>, rss: seq<seq<Bytes>>)
    requires |rss| == |words| && forall k | 0 <= k < |words| :: rss[k] == [words[k]]
    ensures Concat(rss) == words
  {
    if words != [] {
      var n := |words| - 1;
      ConcatSingles(words[..n], rss[..n]);
      assert words == words[..n] + [words[n]];
    }
  }

  /** Doubling writes every character twice. */
  lemma {:induction false} DoubledAt(s: Bytes, k: nat)
    requires k < |s|
    ensures |Doubled(s)| == 2 * |s| && Doubled(s)[2 * k] == Doubled(s)[2 * k + 1] == s[k]
  {
    var n := |s| - 1;
    UndoubleDoubled(s[..n]);
    if k < n { DoubledAt(s[..n], k); }
  }

  /** What is undoubled is what was doubled, or would have been with one more closing bracket. */
  lemma {:induction false} UndoubledIff(d: Bytes, u: Bytes)
    ensures Undoubled(d) == Some(u) <==> d == Doubled(u) || (u != [] && d + [']'] == Doubled(u))
    decreases |d|
  {
    hide Doubled;
    DoubledNothing();
    if u != [] { DoubledFront(u); }
    if |d| >= 2 {
      if u != [] {
        UndoubledIff(d[2..], u[1..]);
        assert u == [u[0]] + u[1..];
        assert d == [d[0], d[1]] + d[2..] && d + [']'] == [d[0], d[1]] + (d[2..] + [']']);
        if d == Doubled(u) { assert d[2..] == Doubled(u[1..]); }
        if d + [']'] == Doubled(u) {
          assert (d + [']'])[2..] == d[2..] + [']'] && (d + [']'])[2..] == Doubled(u[1..]);
          assert u[1..] != [];
        }
      }
    } else if |d| == 1 {
      assert d[1..] == [] && [d[0]] + [] == [d[0]];
      if u != [] {
        UndoubleDoubled(u);
        if d + [']'] == Doubled(u) { assert u == [u[0]]; }
        if u == [d[0]] && d[0] == ']' { assert u[1..] == []; }
      }
    } else if u != [] {
      UndoubleDoubled(u);
    }
  }

  lemma DoubledNothing()
    ensures Doubled([]) == []
  {}

  /** A doubly bracketed string whose middle undoubles is one result, whatever the option takes. */
  lemma DoubleBracketsResult(o: Settings, d: Bytes, u: Bytes)
    requires o.Cuts() && (d == Doubled(u) || (u != [] && d + [']'] == Doubled(u)))
    ensures AddResult(o, ['[', '['] + d + [']', ']']) == [['['] + u + [']']]
  {
    hide AddResult, Undoubled, Doubled, DoublyBracketed;
    UndoubledIff(d, u);
    MiddleOfBrackets(d);
    DoublyBracketedResult(o, ['[', '['] + d + [']', ']'], u);
  }

  // ---------- quotes ----------

  /** Protection doubles a bracketed string and leaves any other alone. */
  lemma SecondaryArrayIs(m: Bytes, s: Bytes)
    ensures SecondaryArray(['['] + m + [']']) == ['[', '['] + Doubled(m) + [']', ']']
    ensures !(|s| >= 2 && s[0] == '[' && s[|s| - 1] == ']') ==> SecondaryArray(s) == s
  {
    hide Doubled, SecondaryArray;
    var q := ['['] + m + [']'];
    assert q[1..|q| - 1] == m;
    ProtectedShape(q);
    OnlyBracketed(s);
  }

  lemma OnlyBracketed(s: Bytes)
    ensures !Bracketed(s) ==> SecondaryArray(s) == s
  {}

  /** A string counts as quoted exactly if it looks escaped, or begins and ends with the same one of the
      three quote characters; any other comes back as it is. */
  lemma NotQuotedIff(s: Bytes, stringChar: Byte, literalChar: Byte, disable: bool)
    ensures var p := ProcessQuoted(s, stringChar, literalChar, disable);
      && ((p != None && !p.value.quoted) <==> (|s| <= 1 || !(IsBinaryEscaped(s) ||
           (s[0] == s[|s| - 1] && (s[0] == stringChar || s[0] == literalChar || s[0] == '`')))))
      && (p != None && !p.value.quoted ==> p.value.str == s)
  {
    hide IsBinaryEscaped, Extracted, SecondaryArray, Unescaped, RemoveOuter;
  }

  /** Between two string quotes escapes are removed, if there is any; a broken one is an error. */
  lemma StringQuoted(s: Bytes, stringChar: Byte, literalChar: Byte, disable: bool)
    requires !IsBinaryEscaped([stringChar] + s + [stringChar])
    ensures ProcessQuoted([stringChar] + s + [stringChar], stringChar, literalChar, disable) ==
      if '\\' !in s then Some(Processed(true, if disable then s else SecondaryArray(s)))
      else if Unescaped(s) == None then None
      else Some(Processed(true, if disable then Unescaped(s).value else SecondaryArray(Unescaped(s).value)))
  {
    hide IsBinaryEscaped, Extracted, SecondaryArray, Unescaped;
    var q := [stringChar] + s + [stringChar];
    assert q[1..|q| - 1] == s;
  }

  /** Between two literal quotes or two backticks everything is taken as it is. */
  lemma LiteralQuoted(s: Bytes, quote: Byte, stringChar: Byte, literalChar: Byte, disable: bool)
    requires (quote == literalChar || quote == '`') && quote != stringChar && !IsBinaryEscaped([quote] + s + [quote])
    ensures ProcessQuoted([quote] + s + [quote], stringChar, literalChar, disable) ==
      Some(Processed(true, if disable then s else SecondaryArray(s)))
  {
    hide IsBinaryEscaped, Extracted, SecondaryArray, Unescaped;
    var q := [quote] + s + [quote];
    assert q[1..|q| - 1] == s;
  }

  /** An escaped string is decoded first, whatever the quote characters are. */
  lemma BinaryQuoted(s: Bytes, stringChar: Byte, literalChar: Byte, disable: bool)
    ensures ProcessQuoted(BinaryEscaped(s, true), stringChar, literalChar, disable) ==
      Some(Processed(true, if disable then s else SecondaryArray(s)))
  {
    hide IsBinaryEscaped, Extracted, SecondaryArray, Unescaped, Unquoted, FirstPass;
    BinaryRoundTripIff(s, true);
    WrappedExtracts(Unquoted(FirstPass(s)));
  }
}
