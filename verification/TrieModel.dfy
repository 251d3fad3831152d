/** A parameter trie as a value: parameters keyed by slash-separated names. What the operations
    answer is stated on the lists of segments that names stand for. */
module TrieModel {
  import opened Options

  /** A stored parameter; an unset one has no value yet. */
  datatype Param<!V> = Param(val: V, hasValue: bool, validator: Option<V -> bool>) {
    function Validate(): bool { hasValue && (validator == None || validator.value(val)) }

    /** A copy keeps the value; it counts as set, and the validator is gone. */
    function Clone(): Param<V> { Param(val, true, None) }
  }

  datatype Trie<!V> = Trie(value: Option<Param<V>>, children: map<string, Trie<V>>)

  // ---------- names ----------

  const SEPARATOR: char := '/'

  /** The position of the first separator, or the length of the name. */
  function FirstSeparator(name: string): (i: nat)
    ensures i <= |name|
    ensures SEPARATOR !in name[..i]
    ensures i < |name| ==> name[i] == SEPARATOR
  {
    if name == "" || name[0] == SEPARATOR then 0
    else
      var i := FirstSeparator(name[1..]);
      assert name[..i + 1] == [name[0]] + name[1..][..i];
      i + 1
  }

  /** The first segment and what follows the first separator. */
  function SplitName(name: string): (r: (string, string))
    ensures name != "" ==> |r.1| < |name|
  {
    var i := FirstSeparator(name);
    (name[..i], if i == |name| then "" else name[i + 1..])
  }

  function Segments(name: string): seq<string>
    decreases |name|
  {
    if name == "" then [] else [SplitName(name).0] + Segments(SplitName(name).1)
  }

  // ---------- the operations, by name ----------

  function Empty<V>(): Trie<V> { Trie(None, map[]) }

  function Child<V>(t: Trie<V>, c: string): Trie<V> { if c in t.children then t.children[c] else Empty() }

  function Find<V>(t: Trie<V>, name: string): Option<Param<V>>
    decreases |name|
  {
    if name == "" then t.value
    else
      var (c, rest) := SplitName(name);
      if c !in t.children then None else Find(t.children[c], rest)
  }

  function GetSubtrie<V>(t: Trie<V>, name: string): Option<Trie<V>>
    decreases |name|
  {
    if name == "" then Some(t)
    else
      var (c, rest) := SplitName(name);
      if c !in t.children then None else GetSubtrie(t.children[c], rest)
  }

  function Add<V>(t: Trie<V>, name: string, p: Param<V>): Trie<V>
    decreases |name|
  {
    if name == "" then t.(value := Some(p))
    else
      var (c, rest) := SplitName(name);
      t.(children := t.children[c := Add(Child(t, c), rest, p)])
  }

  /** Assignment lays a copy of `src` over `t`. */
  function Overlay<V>(t: Trie<V>, src: Trie<V>): Trie<V>
    decreases src
  {
    Trie(
      if src.value == None then t.value else Some(src.value.value.Clone()),
      map c | c in t.children.Keys + src.children.Keys ::
        if c in src.children then Overlay(Child(t, c), src.children[c]) else t.children[c])
  }

  // ---------- the same trie as a flat map from segment lists ----------

  function Lookup<V>(t: Trie<V>, segs: seq<string>): Option<Param<V>>
    decreases |segs|
  {
    if segs == [] then t.value
    else if segs[0] !in t.children then None
    else Lookup(t.children[segs[0]], segs[1..])
  }

  /** Finding a name is looking its segments up. */
  lemma {:induction false} FindIsLookup<V>(t: Trie<V>, name: string)
    ensures Find(t, name) == Lookup(t, Segments(name))
    decreases |name|
  {
    if name != "" {
      var (c, rest) := SplitName(name);
      if c in t.children { FindIsLookup(t.children[c], rest); }
    }
  }

  lemma {:induction false} AddThenLookup<V>(t: Trie<V>, name: string, p: Param<V>, segs: seq<string>)
    ensures Lookup(Add(t, name, p), segs) == if segs == Segments(name) then Some(p) else Lookup(t, segs)
    decreases |name|
  {
    hide SplitName, FirstSeparator;
    if name != "" {
      var (c, rest) := SplitName(name);
      if segs != [] && segs[0] == c {
        AddThenLookup(Child(t, c), rest, p, segs[1..]);
        assert segs == [c] + segs[1..];
      }
    } else if segs != [] {
    }
  }

  /** Adding at `name` changes what is found exactly at the names with the same segments. */
  lemma AddThenFind<V>(t: Trie<V>, name: string, p: Param<V>, other: string)
    ensures Find(Add(t, name, p), other) == if Segments(other) == Segments(name) then Some(p) else Find(t, other)
  {
    FindIsLookup(t, other);
    FindIsLookup(Add(t, name, p), other);
    AddThenLookup(t, name, p, Segments(other));
  }

  lemma {:induction false} OverlayLookup<V>(t: Trie<V>, src: Trie<V>, segs: seq<string>)
    ensures Lookup(Overlay(t, src), segs) ==
      if Lookup(src, segs) == None then Lookup(t, segs) else Some(Lookup(src, segs).value.Clone())
    decreases |segs|
  {
    if segs != [] {
      var c, rest := segs[0], segs[1..];
      if c in src.children {
        OverlayLookup(Child(t, c), src.children[c], rest);
        if c !in t.children { EmptyLookup<V>(rest); }
      }
    }
  }

  lemma EmptyLookup<V>(segs: seq<string>)
    ensures Lookup(Empty<V>(), segs) == None
  {}

  /** Assignment takes the source where it has a parameter and the old target elsewhere. */
  lemma OverlayFind<V>(t: Trie<V>, src: Trie<V>, name: string)
    ensures Find(Overlay(t, src), name) ==
      if Find(src, name) == None then Find(t, name) else Some(Param(Find(src, name).value.val, true, None))
  {
    FindIsLookup(Overlay(t, src), name);
    FindIsLookup(src, name);
    FindIsLookup(t, name);
    OverlayLookup(t, src, Segments(name));
  }

  /** A copied trie finds what the original finds exactly where nothing is found, or what is found is
      set and has no validator. */
  lemma CopyFindIff<V>(t: Trie<V>, name: string)
    ensures Find(Overlay(Empty(), t), name) == Find(t, name) <==>
      (Find(t, name) != None ==> Find(t, name).value.hasValue && Find(t, name).value.validator == None)
  {
    OverlayFind(Empty(), t, name);
    FindIsLookup(Empty<V>(), name);
    EmptyLookup<V>(Segments(name));
  }

  /** Every parameter of a copy is set and has no validator, so it passes validation, whatever the
      original holds. */
  lemma {:induction false} CopyValidates<V>(t: Trie<V>)
    ensures All(Overlay(Empty(), t), (p: Param<V>) => p.hasValue && p.validator == None)
    ensures All(Overlay(Empty(), t), (p: Param<V>) => p.Validate())
    decreases t
  {
    forall c | c in t.children
      ensures All(Overlay(Empty(), t.children[c]), (p: Param<V>) => p.hasValue && p.validator == None)
      ensures All(Overlay(Empty(), t.children[c]), (p: Param<V>) => p.Validate())
    {
      CopyValidates(t.children[c]);
    }
  }

  /** One unset parameter: the trie does not pass validation, and its copy does. */
  lemma CopyOfUnset()
    ensures var t := Add(Empty(), "end", Param(0, false, None));
      && !All(t, (p: Param<int>) => p.Validate()) && All(Overlay(Empty(), t), (p: Param<int>) => p.Validate())
      && Find(t, "end") != Find(Overlay(Empty(), t), "end")
  {
    var t := Add(Empty(), "end", Param(0, false, None));
    CopyValidates(t);
    AddThenFind(Empty(), "end", Param(0, false, None), "end");
    CopyFindIff(t, "end");
    FindIsLookup(t, "end");
    if All(t, (p: Param<int>) => p.Validate()) {
      AllThenLookup(t, (p: Param<int>) => p.Validate(), Segments("end"));
      assert false;
    }
  }

  // ---------- concatenating names ----------

  /** All the pieces between separators, empty ones included. */
  function Parts(name: string): (r: seq<string>)
    ensures r != []
    decreases |name|
  {
    var i := FirstSeparator(name);
    if i == |name| then [name] else [name[..i]] + Parts(name[i + 1..])
  }

  function Trimmed(parts: seq<string>): seq<string>
    requires parts != []
  {
    if parts[|parts| - 1] == "" then parts[..|parts| - 1] else parts
  }

  /** The segments of a name are its parts without one trailing empty part. */
  lemma {:induction false} SegmentsAreTrimmedParts(name: string)
    ensures Segments(name) == Trimmed(Parts(name))
    decreases |name|
  {
    hide FirstSeparator, Trimmed;
    var i := FirstSeparator(name);
    if i == |name| {
      assert name[..i] == name;
      assert Segments("") == [];
      TrimmedOne(name);
    } else {
      SegmentsAreTrimmedParts(name[i + 1..]);
      TrimmedCons(name[..i], Parts(name[i + 1..]));
    }
  }

  lemma TrimmedOne(part: string)
    ensures Trimmed([part]) == if part == "" then [] else [part]
  {}

  lemma TrimmedCons(part: string, parts: seq<string>)
    requires parts != []
    ensures Trimmed([part] + parts) == [part] + Trimmed(parts)
  {
    assert ([part] + parts)[..|parts|] == [part] + parts[..|parts| - 1];
  }

  lemma {:induction false} FirstSeparatorOfJoin(a: string, b: string)
    ensures FirstSeparator(a + [SEPARATOR] + b) == if FirstSeparator(a) < |a| then FirstSeparator(a) else |a|
  {
    if a != "" && a[0] != SEPARATOR {
      assert (a + [SEPARATOR] + b)[1..] == a[1..] + [SEPARATOR] + b;
      FirstSeparatorOfJoin(a[1..], b);
    }
  }

  lemma {:induction false} PartsOfJoin(a: string, b: string)
    ensures Parts(a + [SEPARATOR] + b) == Parts(a) + Parts(b)
    decreases |a|
  {
    hide FirstSeparator;
    var i, whole := FirstSeparator(a), a + [SEPARATOR] + b;
    FirstSeparatorOfJoin(a, b);
    if i == |a| {
      assert whole[..i] == a && whole[i + 1..] == b;
    } else {
      assert whole[..i] == a[..i] && whole[i + 1..] == a[i + 1..] + [SEPARATOR] + b;
      PartsOfJoin(a[i + 1..], b);
    }
  }

  lemma SegmentsOfJoin(a: string, b: string)
    ensures Segments(a + [SEPARATOR] + b) == Parts(a) + Segments(b)
  {
    hide Segments, Parts, Trimmed;
    SegmentsAreTrimmedParts(a + [SEPARATOR] + b);
    SegmentsAreTrimmedParts(b);
    PartsOfJoin(a, b);
    TrimmedConcat(Parts(a), Parts(b));
  }

  lemma TrimmedConcat(p: seq<string>, q: seq<string>)
    requires q != []
    ensures Trimmed(p + q) == p + Trimmed(q)
  {
    assert (p + q)[..|p + q| - 1] == p + q[..|q| - 1];
  }

  lemma {:induction false} LastPartEmptyIff(name: string)
    ensures Parts(name)[|Parts(name)| - 1] == "" <==> name == "" || name[|name| - 1] == SEPARATOR
    decreases |name|
  {
    hide FirstSeparator;
    var i := FirstSeparator(name);
    if i < |name| {
      var rest := name[i + 1..];
      LastPartEmptyIff(rest);
      LastOfConcat([name[..i]], Parts(rest));
      assert rest != "" ==> rest[|rest| - 1] == name[|name| - 1];
    } else if name != "" {
      assert name[..i] == name && name[|name| - 1] in name;
    }
  }

  lemma LastOfConcat(a: seq<string>, b: seq<string>)
    requires b != []
    ensures (a + b)[|a + b| - 1] == b[|b| - 1]
  {}

  /** A name that a subtree can be taken at: not empty, not ending in a separator. */
  predicate Composable(name: string) { name != "" && name[|name| - 1] != SEPARATOR }

  lemma JoinSegmentsIff(a: string, b: string)
    ensures Segments(a + [SEPARATOR] + b) == Segments(a) + Segments(b) <==> Composable(a)
  {
    SegmentsOfJoin(a, b);
    SegmentsAreTrimmedParts(a);
    LastPartEmptyIff(a);
    if !Composable(a) { assert |Parts(a) + Segments(b)| == |Segments(a) + Segments(b)| + 1; }
  }

  function FindIn<V>(t: Option<Trie<V>>, name: string): Option<Param<V>>
  {
    if t == None then None else Find(t.value, name)
  }

  lemma {:induction false} FindInSubtrie<V>(t: Trie<V>, name: string, rest: string)
    ensures FindIn(GetSubtrie(t, name), rest) == Lookup(t, Segments(name) + Segments(rest))
    decreases |name|
  {
    hide FirstSeparator, SplitName, Find, Segments, Lookup;
    var tail := Segments(rest);
    SegmentsUnfold(name);
    if name == "" {
      FindIsLookup(t, rest);
      assert [] + tail == tail;
    } else {
      var (c, more) := SplitName(name);
      assert [c] + Segments(more) + tail == [c] + (Segments(more) + tail);
      LookupUnfolds(t, c, Segments(more) + tail);
      if c in t.children { FindInSubtrie(t.children[c], more, rest); }
    }
  }

  lemma SegmentsUnfold(name: string)
    ensures Segments(name) == if name == "" then [] else [SplitName(name).0] + Segments(SplitName(name).1)
  {}

  lemma LookupUnfolds<V>(t: Trie<V>, c: string, rest: seq<string>)
    ensures Lookup(t, [c] + rest) == if c in t.children then Lookup(t.children[c], rest) else None
  {
    assert ([c] + rest)[1..] == rest;
  }

  /** Finding `b` below the subtree at `a` is finding the joined name, in every trie and for every `b`. */
  ghost predicate LookupsCompose<V(!new)>(a: string)
  {
    forall t: Trie<V>, b: string :: FindIn(GetSubtrie(t, a), b) == Find(t, a + [SEPARATOR] + b)
  }

  /** Lookups compose exactly when `a` is not empty and does not end in a separator. Any parameter
      `p` serves as the witness that they otherwise do not. */
  lemma SubtrieFindIff<V(!new)>(a: string, p: Param<V>)
    ensures LookupsCompose<V>(a) <==> Composable(a)
  {
    if Composable(a) {
      forall t: Trie<V>, b: string ensures FindIn(GetSubtrie(t, a), b) == Find(t, a + [SEPARATOR] + b) {
        FindInSubtrie(t, a, b);
        FindIsLookup(t, a + [SEPARATOR] + b);
        JoinSegmentsIff(a, b);
      }
    } else {
      var name := a + [SEPARATOR] + "";
      var t := Add(Empty(), name, p);
      FindInSubtrie(t, a, "");
      JoinSegmentsIff(a, "");
      AddThenLookup(Empty(), name, p, Segments(a) + Segments(""));
      EmptyLookup<V>(Segments(a) + Segments(""));
      AddThenFind(Empty(), name, p, name);
      assert FindIn(GetSubtrie(t, a), "") != Find(t, a + [SEPARATOR] + "");
    }
  }

  // ---------- every stored parameter has a name ----------

  /** No segment contains the separator; splitting names never makes one that does. */
  ghost predicate Clean<V>(t: Trie<V>)
    decreases t
  {
    forall c | c in t.children :: SEPARATOR !in c && Clean(t.children[c])
  }

  predicate CleanSegments(segs: seq<string>) { forall s | s in segs :: SEPARATOR !in s }

  lemma EmptyIsClean<V>()
    ensures Clean(Empty<V>())
  {}

  lemma {:induction false} AddKeepsClean<V>(t: Trie<V>, name: string, p: Param<V>)
    requires Clean(t)
    ensures Clean(Add(t, name, p))
    decreases |name|
  {
    if name != "" {
      var (c, rest) := SplitName(name);
      AddKeepsClean(Child(t, c), rest, p);
    }
  }

  lemma {:induction false} OverlayKeepsClean<V>(t: Trie<V>, src: Trie<V>)
    requires Clean(t) && Clean(src)
    ensures Clean(Overlay(t, src))
    decreases src
  {
    var r := Overlay(t, src);
    forall c | c in r.children ensures SEPARATOR !in c && Clean(r.children[c]) {
      if c in src.children { OverlayKeepsClean(Child(t, c), src.children[c]); }
    }
  }

  lemma {:induction false} StoredIsClean<V>(t: Trie<V>, segs: seq<string>)
    requires Clean(t) && Lookup(t, segs) != None
    ensures CleanSegments(segs)
    decreases |segs|
  {
    if segs != [] {
      StoredIsClean(t.children[segs[0]], segs[1..]);
      assert segs == [segs[0]] + segs[1..];
    }
  }

  /** A name for a list of segments, whatever they are: each followed by a separator. */
  function NameFor(segs: seq<string>): string
  {
    if segs == [] then "" else segs[0] + [SEPARATOR] + NameFor(segs[1..])
  }

  lemma {:induction false} NameForNames(segs: seq<string>)
    requires CleanSegments(segs)
    ensures Segments(NameFor(segs)) == segs
    decreases |segs|
  {
    if segs != [] {
      assert segs == [segs[0]] + segs[1..];
      NameForNames(segs[1..]);
      SegmentsOfJoin(segs[0], NameFor(segs[1..]));
      CleanIsOnePart(segs[0]);
    } else {
      assert Segments("") == [];
    }
  }

  lemma CleanIsOnePart(s: string)
    requires SEPARATOR !in s
    ensures Parts(s) == [s]
  {
    assert forall k | 0 <= k < |s| :: s[k] in s && s[k] != SEPARATOR;
  }

  predicate All<V>(t: Trie<V>, f: Param<V> -> bool)
    decreases t
  {
    (t.value != None ==> f(t.value.value)) && forall c | c in t.children :: All(t.children[c], f)
  }

  predicate Holds<V>(f: Param<V> -> bool, p: Option<Param<V>>) { p != None ==> f(p.value) }

  lemma {:induction false} AllThenLookup<V>(t: Trie<V>, f: Param<V> -> bool, segs: seq<string>)
    requires All(t, f)
    ensures Holds(f, Lookup(t, segs))
    decreases |segs|
  {
    if segs != [] && segs[0] in t.children {
      AllThenLookup(t.children[segs[0]], f, segs[1..]);
    }
  }

  lemma {:induction false} LookupsThenAll<V>(t: Trie<V>, f: Param<V> -> bool)
    requires forall segs :: Holds(f, Lookup(t, segs))
    ensures All(t, f)
    decreases t
  {
    assert Holds(f, Lookup(t, []));
    forall c | c in t.children ensures All(t.children[c], f) {
      forall rest ensures Holds(f, Lookup(t.children[c], rest)) {
        assert ([c] + rest)[1..] == rest;
        assert Holds(f, Lookup(t, [c] + rest));
      }
      LookupsThenAll(t.children[c], f);
    }
  }

  ghost predicate EveryFound<V>(t: Trie<V>, f: Param<V> -> bool) { forall name: string :: Holds(f, Find(t, name)) }

  lemma FoundThenAll<V>(t: Trie<V>, f: Param<V> -> bool)
    requires Clean(t) && EveryFound(t, f)
    ensures All(t, f)
  {
    forall segs ensures Holds(f, Lookup(t, segs)) {
      if Lookup(t, segs) != None {
        StoredIsClean(t, segs);
        NameForNames(segs);
        FindIsLookup(t, NameFor(segs));
        assert Holds(f, Find(t, NameFor(segs)));
      }
    }
    LookupsThenAll(t, f);
  }

  /** The check of all parameters holds exactly when it holds of every parameter some name finds. */
  lemma AllIsEveryFind<V>(t: Trie<V>, f: Param<V> -> bool)
    requires Clean(t)
    ensures All(t, f) <==> EveryFound(t, f)
  {
    if All(t, f) {
      forall name: string ensures Holds(f, Find(t, name)) {
        FindIsLookup(t, name);
        AllThenLookup(t, f, Segments(name));
      }
    }
    if EveryFound(t, f) { FoundThenAll(t, f); }
  }

  /** Nothing, or a parameter that is set and accepted by its validator if it has one. */
  predicate Passes<V>(p: Option<Param<V>>)
  {
    match p
    case None => true
    case Some(Param(val, hasValue, None)) => hasValue
    case Some(Param(val, hasValue, Some(accepts))) => hasValue && accepts(val)
  }

  ghost predicate EveryFoundPasses<V>(t: Trie<V>) { forall name: string :: Passes(Find(t, name)) }

  /** The check of a whole trie passes exactly when every parameter some name finds is set and is
      accepted by its validator whenever it has one. */
  lemma CheckIff<V>(t: Trie<V>)
    requires Clean(t)
    ensures All(t, (p: Param<V>) => p.Validate()) <==> EveryFoundPasses(t)
  {
    var f := (p: Param<V>) => p.Validate();
    AllIsEveryFind(t, f);
    assert forall o: Option<Param<V>> :: Holds(f, o) <==> Passes(o);
    if EveryFound(t, f) {
      forall name: string ensures Passes(Find(t, name)) { assert Holds(f, Find(t, name)); }
    }
    if EveryFoundPasses(t) {
      forall name: string ensures Holds(f, Find(t, name)) { assert Passes(Find(t, name)); }
    }
  }

  /** A parameter that is set and that its validator rejects: the check fails. */
  lemma RejectedByValidator()
    ensures var t := Add(Empty(), "period", Param(1, true, Some((v: int) => v > 1)));
      !All(t, (p: Param<int>) => p.Validate())
  {
    var t := Add(Empty(), "period", Param(1, true, Some((v: int) => v > 1)));
    EmptyIsClean<int>();
    AddKeepsClean(Empty(), "period", Param(1, true, Some((v: int) => v > 1)));
    AddThenFind(Empty(), "period", Param(1, true, Some((v: int) => v > 1)), "period");
    AllIsEveryFind(t, (p: Param<int>) => p.Validate());
    if All(t, (p: Param<int>) => p.Validate()) {
      assert Holds((p: Param<int>) => p.Validate(), Find(t, "period"));
    }
  }

  // ---------- the names a visit reports ----------

  function ChildName(name: string, c: string): string { (if name == "" then "" else name + [SEPARATOR]) + c }

  /** The name a visit that has reached `name` gives to the parameter at `segs` below. */
  function VisitName(name: string, segs: seq<string>): string
    decreases |segs|
  {
    if segs == [] then name else VisitName(ChildName(name, segs[0]), segs[1..])
  }

  lemma {:induction false} PartsOfVisitName(name: string, segs: seq<string>)
    requires name != "" && CleanSegments(segs)
    ensures Parts(VisitName(name, segs)) == Parts(name) + segs
    decreases |segs|
  {
    if segs == [] {
      assert Parts(name) + [] == Parts(name);
    } else {
      var s, rest := segs[0], segs[1..];
      assert segs == [s] + rest;
      PartsOfVisitName(name + [SEPARATOR] + s, rest);
      PartsOfJoin(name, s);
      CleanIsOnePart(s);
      assert Parts(name) + [s] + rest == Parts(name) + segs;
    }
  }

  lemma {:induction false} VisitNameShort(segs: seq<string>)
    requires CleanSegments(segs)
    ensures |Segments(VisitName("", segs))| <= |segs|
    decreases |segs|
  {
    var name := VisitName("", segs);
    SegmentsAreTrimmedParts(name);
    if segs == [] {
      assert Segments("") == [];
    } else {
      var s, rest := segs[0], segs[1..];
      assert segs == [s] + rest;
      assert ChildName("", s) == s;
      if s == "" {
        VisitNameShort(rest);
      } else {
        PartsOfVisitName(s, rest);
        CleanIsOnePart(s);
      }
    }
  }

  predicate LeadsBack(name: string, segs: seq<string>) { Segments(name) == segs }

  /** A visit names a parameter by a name that leads back to it exactly when the parameter is at the
      root, or neither its first nor its last segment is empty. */
  lemma VisitNameIff(segs: seq<string>)
    requires CleanSegments(segs)
    ensures LeadsBack(VisitName("", segs), segs) <==> segs == [] || (segs[0] != "" && segs[|segs| - 1] != "")
  {
    hide Parts, FirstSeparator, SplitName;
    var name := VisitName("", segs);
    SegmentsAreTrimmedParts(name);
    if segs == [] {
      assert Segments("") == [];
    } else {
      var s, rest := segs[0], segs[1..];
      assert segs == [s] + rest && ChildName("", s) == s;
      if s == "" {
        VisitNameShort(rest);
      } else {
        PartsOfVisitName(s, rest);
        CleanIsOnePart(s);
        assert Parts(name) == segs;
      }
    }
  }

  /** Where a visit gives a usable name, finding that name gives the visited parameter. */
  lemma VisitedNameFinds<V>(t: Trie<V>, segs: seq<string>)
    requires Clean(t) && Lookup(t, segs) != None
    requires segs == [] || (segs[0] != "" && segs[|segs| - 1] != "")
    ensures Find(t, VisitName("", segs)) == Lookup(t, segs)
  {
    StoredIsClean(t, segs);
    VisitNameIff(segs);
    FindIsLookup(t, VisitName("", segs));
  }

  /** The segment lists under which something is stored. */
  ghost function Paths<V>(t: Trie<V>): set<seq<string>>
    decreases t
  {
    (if t.value == None then {} else {[]}) + set c, rest | c in t.children && rest in Paths(t.children[c]) :: [c] + rest
  }

  lemma {:induction false} PathsAreLookups<V>(t: Trie<V>, segs: seq<string>)
    ensures segs in Paths(t) <==> Lookup(t, segs) != None
    decreases t
  {
    if segs != [] {
      var c, rest := segs[0], segs[1..];
      assert segs == [c] + rest;
      if c in t.children { PathsAreLookups(t.children[c], rest); }
      if segs in Paths(t) {
        var d, more :| d in t.children && more in Paths(t.children[d]) && segs == [d] + more;
        assert d == c && more == rest;
      }
    }
  }

  /** What a visit hands over: a name, and the parameter unless it is unset. */
  datatype Report<!V> = Report(name: string, shown: Option<Param<V>>)

  /** `out` reports each of `paths` once, under the name a visit from `name` gives it. */
  ghost predicate Reports<V>(t: Trie<V>, name: string, out: seq<Report<V>>, paths: seq<seq<string>>)
  {
    && |out| == |paths|
    && (forall i, j | 0 <= i < j < |paths| :: paths[i] != paths[j])
    && (forall i | 0 <= i < |paths| :: paths[i] in Paths(t))
    && (forall i | 0 <= i < |paths| && Lookup(t, paths[i]) != None ::
          && out[i].name == VisitName(name, paths[i])
          && out[i].shown == if Lookup(t, paths[i]).value.hasValue then Lookup(t, paths[i]) else None)
  }

  /** `out` reports every stored parameter exactly once, in some order. */
  ghost predicate ReportsAll<V>(t: Trie<V>, name: string, out: seq<Report<V>>)
  {
    exists paths :: Reports(t, name, out, paths) && forall p :: p in Paths(t) <==> p in paths
  }

  /** A visit reports every stored parameter whose name leads back to it under that name, and shows it
      unless it is unset. */
  lemma VisitFinds<V>(t: Trie<V>, out: seq<Report<V>>, segs: seq<string>) returns (i: nat)
    requires ReportsAll(t, "", out) && Clean(t) && Lookup(t, segs) != None
    requires segs == [] || (segs[0] != "" && segs[|segs| - 1] != "")
    ensures i < |out| && Segments(out[i].name) == segs && Find(t, out[i].name) == Lookup(t, segs)
    ensures out[i].shown == None <==> !Find(t, out[i].name).value.hasValue
    ensures out[i].shown != None ==> out[i].shown == Find(t, out[i].name)
  {
    hide Paths;
    var paths :| Reports(t, "", out, paths) && forall p :: p in Paths(t) <==> p in paths;
    PathsAreLookups(t, segs);
    i :| 0 <= i < |paths| && paths[i] == segs;
    StoredIsClean(t, segs);
    VisitNameIff(segs);
    VisitedNameFinds(t, segs);
  }

  /** It makes one report for each stored parameter. */
  lemma VisitCounts<V>(t: Trie<V>, out: seq<Report<V>>)
    requires ReportsAll(t, "", out)
    ensures |out| == |Paths(t)|
  {
    hide Paths;
    var paths :| Reports(t, "", out, paths) && forall p :: p in Paths(t) <==> p in paths;
    DistinctCount(paths, Paths(t));
  }

  lemma {:induction false} DistinctCount(paths: seq<seq<string>>, all: set<seq<string>>)
    requires forall i, j | 0 <= i < j < |paths| :: paths[i] != paths[j]
    requires forall p :: p in all <==> p in paths
    ensures |paths| == |all|
  {
    if paths != [] {
      var n := |paths| - 1;
      forall p ensures p in all - {paths[n]} <==> p in paths[..n] {
        if p in paths[..n] { assert p in paths; }
      }
      DistinctCount(paths[..n], all - {paths[n]});
    } else {
      assert forall p :: p !in all;
      assert all == {};
    }
  }

  /** Segments are what lies between slashes; an empty one at the end does not count. */
  lemma SegmentsExample()
    ensures Segments("a/b//c/") == ["a", "b", "", "c"]
  {
    hide Parts, FirstSeparator, SplitName, Segments;
    CleanIsOnePart("");
    PartsOfJoin("c", "");
    PartsOfJoin("", "c/");
    PartsOfJoin("b", "/c/");
    PartsOfJoin("a", "b//c/");
    assert "a/b//c/" == "a" + [SEPARATOR] + "b//c/" && "b//c/" == "b" + [SEPARATOR] + "/c/";
    assert "/c/" == "" + [SEPARATOR] + "c/" && "c/" == "c" + [SEPARATOR] + "";
    CleanIsOnePart("a");
    CleanIsOnePart("b");
    CleanIsOnePart("c");
    SegmentsAreTrimmedParts("a/b//c/");
  }
}
