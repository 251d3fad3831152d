/** The parameter trie as the source has it: nodes that own their children and are changed in place. */
module ParameterTries {
  import opened Options
  import opened TrieModel

  class ParameterTrie<V> {
    var value: Option<Param<V>>
    var children: map<string, ParameterTrie<V>>
    ghost var Repr: set<object>
    /** The value this node stands for. */
    ghost var model: Trie<V>

    /** The children are trees of their own, apart from this node and from each other. */
    ghost predicate Valid()
      reads this, Repr
      decreases Repr
    {
      && this in Repr
      && (forall c | c in children ::
        children[c] in Repr && children[c].Repr <= Repr && this !in children[c].Repr && children[c].Valid())
      && (forall c, d | c in children && d in children && c != d :: children[c].Repr !! children[d].Repr)
      && model.value == value && model.children.Keys == children.Keys
      && (forall c | c in children :: model.children[c] == children[c].model)
    }

    constructor ()
      ensures Valid() && fresh(Repr) && model == Empty() && Clean(model)
    {
      value, children, Repr, model := None, map[], {this}, Empty();
    }

    method AddGeneric(name: string, p: Param<V>)
      requires Valid()
      modifies Repr
      ensures Valid() && fresh(Repr - old(Repr)) && old(Repr) <= Repr
      ensures model == Add(old(model), name, p) && (old(Clean(model)) ==> Clean(model))
      decreases |name|, 1
    {
      hide SplitName, FirstSeparator, Add, Valid, Clean;
      AddUnfolds(model, name, p);
      if Clean(model) { AddKeepsClean(model, name, p); }
      ModelChild(SplitName(name).0);
      if name == "" {
        SetValue(Some(p));
        return;
      }
      var (c, rest) := SplitName(name);
      if c !in children { AddChild(c); }
      AddBelow(c, rest, p);
    }

    lemma ModelChild(c: string)
      requires Valid()
      ensures this in Repr && (c in children <==> c in model.children)
      ensures c in children ==>
        children[c].Valid() && children[c].Repr <= Repr && model.children[c] == children[c].model
      ensures model.value == value && model.children.Keys == children.Keys
    {}

    /** What `Valid` says, one level down. */
    lemma Parts()
      requires Valid()
      ensures this in Repr
      ensures forall c | c in children :: children[c] in Repr && children[c] in children[c].Repr
      ensures forall c | c in children :: children[c].Repr <= Repr && this !in children[c].Repr && children[c].Valid()
      ensures forall c, d | c in children && d in children && c != d :: children[c].Repr !! children[d].Repr
      ensures model.value == value && model.children.Keys == children.Keys
      ensures forall c | c in children :: model.children[c] == children[c].model
    {}

    /** As `Valid`, except that the model may not yet know what the child at `c` has become. */
    ghost predicate ValidBut(c: string)
      reads this, Repr
    {
      && this in Repr
      && (forall d | d in children ::
        children[d] in Repr && children[d].Repr <= Repr && this !in children[d].Repr && children[d].Valid())
      && (forall d, e | d in children && e in children && d != e :: children[d].Repr !! children[e].Repr)
      && model.value == value && model.children.Keys == children.Keys
      && (forall d | d in children && d != c :: model.children[d] == children[d].model)
    }

    lemma OtherNodes()
      requires forall d | d in children :: this !in children[d].Repr && children[d].Valid()
      ensures forall d | d in children :: children[d] != this
    {}

    lemma Assemble(c: string)
      requires ValidBut(c) && (c in children ==> model.children[c] == children[c].model)
      ensures Valid()
    {}

    method SetValue(v: Option<Param<V>>)
      requires Valid()
      modifies this`value, this`model
      ensures Valid() && model == old(model).(value := v)
    {
      hide Valid;
      Parts();
      value := v;
      model := model.(value := v);
      assert forall d | d in children :: children[d] != this && children[d].Valid();
      Assemble("");
    }

    method AddBelow(c: string, rest: string, p: Param<V>)
      requires Valid() && c in children
      modifies Repr
      ensures Valid() && fresh(Repr - old(Repr)) && old(Repr) <= Repr
      ensures model == old(model).(children := old(model).children[c := Add(old(model).children[c], rest, p)])
      decreases |rest|, 2
    {
      hide Add, Valid;
      ghost var child := children[c];
      Parts();
      children[c].AddGeneric(rest, p);
      assert child == children[c] && fresh(child.Repr - old(child.Repr));
      AbsorbRepr(c);
      AbsorbModel(c);
    }

    /** Takes a changed child's footprint over into this node's. */
    ghost method AbsorbRepr(c: string)
      requires c in children && this in Repr
      requires forall d | d in children :: children[d] in Repr && this !in children[d].Repr && children[d].Valid()
      requires forall d | d in children && d != c :: children[d].Repr <= Repr && children[d].Repr !! children[c].Repr
      requires forall d, e | d in children && e in children && d != e && d != c && e != c ::
        children[d].Repr !! children[e].Repr
      requires model.value == value && model.children.Keys == children.Keys
      requires forall d | d in children && d != c :: model.children[d] == children[d].model
      modifies this`Repr
      ensures ValidBut(c) && Repr == old(Repr) + children[c].Repr
    {
      ghost var r := children[c].Repr;
      assert forall d | d in children :: children[d] != this;
      Repr := Repr + r;
      assert children[c].Repr == r;
    }

    /** Takes a changed child's value over into this node's. */
    ghost method AbsorbModel(c: string)
      requires ValidBut(c) && c in children
      modifies this`model
      ensures Valid() && model == old(model).(children := old(model).children[c := children[c].model])
    {
      hide Valid;
      ghost var m := children[c].model;
      assert forall d | d in children :: children[d] != this by { OtherNodes(); }
      model := model.(children := model.children[c := m]);
      assert children[c].model == m && forall d | d in children :: children[d].Valid();
      Assemble(c);
    }

    /** A default child, as looking a missing key up in the map creates it. */
    method AddChild(c: string)
      requires Valid() && c !in children
      modifies this
      ensures Valid() && fresh(Repr - old(Repr)) && old(Repr) <= Repr
      ensures c in children && children == old(children)[c := children[c]] && value == old(value)
      ensures children[c].Repr !! old(Repr)
      ensures model == old(model).(children := old(model).children[c := Empty()])
    {
      hide Valid;
      Parts();
      var child := new ParameterTrie<V>();
      child.Parts();
      ghost var siblings := children;
      children := children[c := child];
      Repr := Repr + child.Repr;
      model := model.(children := model.children[c := Empty()]);
      assert child.Valid() && this !in child.Repr;
      assert forall d | d in siblings :: siblings[d] != this && siblings[d].Valid() && siblings[d].Repr !! child.Repr;
      Assemble(c);
    }

    function Find(name: string): (r: Option<Param<V>>)
      requires Valid()
      reads this, Repr
      ensures r == TrieModel.Find(model, name)
      decreases |name|
    {
      if name == "" then value
      else
        var (c, rest) := SplitName(name);
        if c !in children then None else children[c].Find(rest)
    }

    method GetSubtrie(name: string) returns (t: ParameterTrie?<V>)
      requires Valid()
      ensures t == null <==> TrieModel.GetSubtrie(model, name) == None
      ensures t != null ==> t.Valid() && t.Repr <= Repr && Some(t.model) == TrieModel.GetSubtrie(model, name)
      decreases |name|
    {
      if name == "" { return this; }
      var (c, rest) := SplitName(name);
      if c !in children { return null; }
      t := children[c].GetSubtrie(rest);
    }

    /** Stops at the first parameter that fails. */
    method All(f: Param<V> -> bool) returns (b: bool)
      requires Valid()
      ensures b == TrieModel.All(model, f)
      decreases model
    {
      hide Valid;
      ModelChild("");
      if value != None && !f(value.value) { return false; }
      var rest := children.Keys;
      while rest != {}
        invariant rest <= children.Keys
        invariant forall c | c in children && c !in rest :: TrieModel.All(model.children[c], f)
        decreases |rest|
      {
        var c :| c in rest;
        rest := rest - {c};
        ModelChild(c);
        var ok := children[c].All(f);
        if !ok { return false; }
      }
      return true;
    }

    /** Reports every stored parameter; the children come in whatever order the map yields them. */
    method VisitImpl(name: string) returns (out: seq<Report<V>>)
      requires Valid()
      ensures ReportsAll(model, name, out)
      decreases model
    {
      hide Reports, Paths, Visited, Valid;
      ModelChild("");
      out := [];
      ghost var paths := [];
      if value != None {
        if !value.value.hasValue {
          out := [Report(name, None)];
        } else {
          out := [Report(name, value)];
        }
        paths := [[]];
      }
      var rest := children.Keys;
      VisitStarts(model, name);
      while rest != {}
        invariant rest <= children.Keys && Visited(model, name, out, paths, rest)
        decreases |rest|
      {
        var c :| c in rest;
        ModelChild(c);
        var below := children[c].VisitImpl(ChildName(name, c));
        ghost var belowPaths :| Reports(children[c].model, ChildName(name, c), below, belowPaths)
          && forall p :: p in Paths(children[c].model) <==> p in belowPaths;
        VisitGoesOn(model, name, c, out, paths, rest, below, belowPaths);
        rest := rest - {c};
        out, paths := out + below, paths + Under(c, belowPaths);
      }
      VisitEnds(model, name, out, paths);
    }

    method Visit() returns (out: seq<Report<V>>)
      requires Valid()
      ensures ReportsAll(model, "", out) && |out| == |Paths(model)|
    {
      out := VisitImpl("");
      VisitCounts(model, out);
    }

    /** Whether every parameter passes validation. */
    method Check() returns (b: bool)
      requires Valid()
      ensures Clean(model) ==> (b <==> EveryFoundPasses(model))
    {
      b := All((p: Param<V>) => p.Validate());
      if Clean(model) { CheckIff(model); }
    }

    constructor Copy(other: ParameterTrie<V>)
      requires other.Valid()
      ensures Valid() && fresh(Repr) && model == Overlay(Empty(), other.model)
      ensures Clean(other.model) ==> Clean(model)
    {
      value, children, Repr, model := None, map[], {this}, Empty();
      new;
      hide Overlay, Clean, Valid;
      EmptyIsClean<V>();
      other.Parts();
      Assemble("");
      Assign(other);
    }

    /** Lays a copy of `other` over this trie; what this trie has and `other` lacks stays. */
    method Assign(other: ParameterTrie<V>)
      requires Valid() && other.Valid() && Repr !! other.Repr
      modifies Repr
      ensures Valid() && fresh(Repr - old(Repr)) && old(Repr) <= Repr
      ensures model == Overlay(old(model), other.model)
      ensures old(Clean(model)) && Clean(other.model) ==> Clean(model)
      decreases other.model, 1
    {
      hide Overlay, OverlayBut, Valid, Clean;
      ghost var m0 := model;
      if Clean(m0) && Clean(other.model) { OverlayKeepsClean(m0, other.model); }
      OverlayStarts(m0, other.model);
      ModelChild("");
      other.ModelChild("");
      if other.value != None { SetValue(Some(other.value.value.Clone())); }
      var rest := other.children.Keys;
      while rest != {}
        invariant rest <= other.children.Keys
        invariant Valid() && other.Valid() && fresh(Repr - old(Repr)) && old(Repr) <= Repr && Repr !! other.Repr
        invariant model == OverlayBut(m0, other.model, rest)
        decreases |rest|
      {
        var c :| c in rest;
        OverlayGoesOn(m0, other.model, rest, c);
        rest := rest - {c};
        other.ModelChild(c);
        AssignChild(c, other.children[c]);
      }
      OverlayEnds(m0, other.model);
    }

    /** The same assignment with this trie as its own source: every parameter becomes a copy of itself. */
    method AssignSelf()
      requires Valid()
      modifies Repr
      ensures Valid() && fresh(Repr - old(Repr)) && old(Repr) <= Repr
      ensures model == Overlay(old(model), old(model))
      decreases model, 1
    {
      hide Overlay, OverlayBut, Valid;
      ghost var m0 := model;
      OverlayStarts(m0, m0);
      ModelChild("");
      if value != None { SetValue(Some(value.value.Clone())); }
      var rest := children.Keys;
      while rest != {}
        invariant rest <= m0.children.Keys
        invariant Valid() && fresh(Repr - old(Repr)) && old(Repr) <= Repr
        invariant model == OverlayBut(m0, m0, rest)
        decreases |rest|
      {
        var c :| c in rest;
        OverlayGoesOn(m0, m0, rest, c);
        OverlayToCome(m0, rest, c);
        rest := rest - {c};
        ModelChild(c);
        AssignSelfBelow(c);
      }
      OverlayEnds(m0, m0);
    }

    method AssignSelfBelow(c: string)
      requires Valid() && c in children
      modifies Repr
      ensures Valid() && fresh(Repr - old(Repr)) && old(Repr) <= Repr
      ensures model == old(model).(children :=
        old(model).children[c := Overlay(old(model).children[c], old(model).children[c])])
      decreases if c in children then children[c].model else model, 2
    {
      hide Overlay, Valid;
      var child := children[c];
      Parts();
      child.AssignSelf();
      assert fresh(child.Repr - old(child.Repr));
      AbsorbRepr(c);
      AbsorbModel(c);
    }

    method AssignChild(c: string, src: ParameterTrie<V>)
      requires Valid() && src.Valid() && Repr !! src.Repr
      modifies Repr
      ensures Valid() && fresh(Repr - old(Repr)) && old(Repr) <= Repr
      ensures model == old(model).(children := old(model).children[c := Overlay(Child(old(model), c), src.model)])
      decreases src.model, 3
    {
      hide Overlay, Valid;
      ModelChild(c);
      if c !in children { AddChild(c); }
      AssignBelow(c, src);
    }

    method AssignBelow(c: string, src: ParameterTrie<V>)
      requires Valid() && c in children && src.Valid() && Repr !! src.Repr
      modifies Repr
      ensures Valid() && fresh(Repr - old(Repr)) && old(Repr) <= Repr
      ensures model == old(model).(children := old(model).children[c := Overlay(old(model).children[c], src.model)])
      decreases src.model, 2
    {
      hide Overlay, Valid;
      var child := children[c];
      Parts();
      src.ModelChild("");
      ghost var srcModel := src.model;
      child.Assign(src);
      assert src.model == srcModel && fresh(child.Repr - old(child.Repr));
      AbsorbRepr(c);
      AbsorbModel(c);
    }
  }

  lemma AddUnfolds<V>(t: Trie<V>, name: string, p: Param<V>)
    ensures Add(t, name, p) ==
      if name == "" then t.(value := Some(p))
      else t.(children := t.children[SplitName(name).0 := Add(Child(t, SplitName(name).0), SplitName(name).1, p)])
    ensures name != "" ==> |SplitName(name).1| < |name|
  {}

  // ---------- visiting ----------

  /** Everything but what lies below the children in `rest` has been reported. */
  ghost predicate Visited<V>(t: Trie<V>, name: string, out: seq<Report<V>>, paths: seq<seq<string>>, rest: set<string>)
  {
    Reports(t, name, out, paths) && forall p :: p in paths <==> p in Paths(t) && (p == [] || p[0] !in rest)
  }

  ghost function Under(c: string, paths: seq<seq<string>>): (r: seq<seq<string>>)
    ensures |r| == |paths|
  {
    seq(|paths|, i requires 0 <= i < |paths| => [c] + paths[i])
  }

  lemma VisitStarts<V>(t: Trie<V>, name: string)
    ensures t.value == None ==> Visited(t, name, [], [], t.children.Keys)
    ensures t.value != None ==>
      Visited(t, name, [Report(name, if t.value.value.hasValue then t.value else None)], [[]], t.children.Keys)
  {
    forall p | p in Paths(t) && p != [] ensures p[0] in t.children { PathsAreLookups(t, p); }
  }

  lemma VisitEnds<V>(t: Trie<V>, name: string, out: seq<Report<V>>, paths: seq<seq<string>>)
    requires Visited(t, name, out, paths, {})
    ensures Reports(t, name, out, paths) && forall p :: p in Paths(t) <==> p in paths
  {}

  /** The paths below one child are that child's, prefixed. */
  lemma PathsUnder<V>(t: Trie<V>, c: string, below: seq<seq<string>>, p: seq<string>)
    requires c in t.children && forall q :: q in Paths(t.children[c]) <==> q in below
    ensures p in Under(c, below) <==> p in Paths(t) && p != [] && p[0] == c
  {
    hide Paths;
    var more := Under(c, below);
    PathsAreLookups(t, p);
    if p != [] && p[0] == c {
      assert p == [c] + p[1..];
      PathsAreLookups(t.children[c], p[1..]);
      if p in Paths(t) {
        var i :| 0 <= i < |below| && below[i] == p[1..];
        assert more[i] == p;
      }
    }
    if i :| 0 <= i < |more| && more[i] == p {
      assert below[i] == p[1..] && below[i] in below;
      PathsAreLookups(t.children[c], below[i]);
    }
  }

  /** The reports of one child join the reports made so far. */
  lemma VisitGoesOn<V>(
    t: Trie<V>, name: string, c: string, out: seq<Report<V>>, paths: seq<seq<string>>, rest: set<string>,
    below: seq<Report<V>>, belowPaths: seq<seq<string>>)
    requires c in t.children && c in rest && Visited(t, name, out, paths, rest)
    requires Reports(t.children[c], ChildName(name, c), below, belowPaths)
    requires forall p :: p in Paths(t.children[c]) <==> p in belowPaths
    ensures Visited(t, name, out + below, paths + Under(c, belowPaths), rest - {c})
  {
    hide Paths, Lookup, Reports, VisitName;
    var more := Under(c, belowPaths);
    forall p ensures p in more <==> p in Paths(t) && p != [] && p[0] == c { PathsUnder(t, c, belowPaths, p); }
    forall p | p in belowPaths ensures [c] + p in Paths(t) {
      var i :| 0 <= i < |belowPaths| && belowPaths[i] == p;
      assert more[i] in more;
    }
    ReportsUnder(t, name, c, below, belowPaths);
    assert forall p | p in paths :: p !in more;
    ReportsJoin(t, name, out, paths, below, more);
  }

  lemma ReportsUnder<V>(t: Trie<V>, name: string, c: string, below: seq<Report<V>>, belowPaths: seq<seq<string>>)
    requires c in t.children && Reports(t.children[c], ChildName(name, c), below, belowPaths)
    requires forall p | p in belowPaths :: [c] + p in Paths(t)
    ensures Reports(t, name, below, Under(c, belowPaths))
  {
    hide Paths, Lookup;
    var more := Under(c, belowPaths);
    forall i | 0 <= i < |more|
      ensures more[i][1..] == belowPaths[i] && more[i] in Paths(t)
      ensures Lookup(t, more[i]) == Lookup(t.children[c], belowPaths[i])
      ensures VisitName(name, more[i]) == VisitName(ChildName(name, c), belowPaths[i])
    {
      assert more[i] == [c] + belowPaths[i] && belowPaths[i] in belowPaths;
      LookupUnder(t, c, belowPaths[i]);
    }
  }

  lemma ReportsJoin<V>(
    t: Trie<V>, name: string, out: seq<Report<V>>, paths: seq<seq<string>>,
    below: seq<Report<V>>, more: seq<seq<string>>)
    requires Reports(t, name, out, paths) && Reports(t, name, below, more)
    requires forall p | p in paths :: p !in more
    ensures Reports(t, name, out + below, paths + more)
  {
    hide Paths, Lookup, VisitName;
    var all := paths + more;
    assert forall i | 0 <= i < |paths| :: all[i] in paths;
    assert forall i | |paths| <= i < |all| :: all[i] == more[i - |paths|] && all[i] in more;
  }

  lemma LookupUnder<V>(t: Trie<V>, c: string, rest: seq<string>)
    requires c in t.children
    ensures Lookup(t, [c] + rest) == Lookup(t.children[c], rest)
  {
    assert ([c] + rest)[1..] == rest;
  }

  // ---------- assigning ----------

  /** The overlay in which the children of `src` in `rest` are still to come. */
  ghost function OverlayBut<V>(t: Trie<V>, src: Trie<V>, rest: set<string>): Trie<V>
  {
    Trie(
      Overlay(t, src).value,
      map c | c in t.children.Keys + (src.children.Keys - rest) ::
        if c in src.children && c !in rest then Overlay(Child(t, c), src.children[c]) else t.children[c])
  }

  lemma OverlayStarts<V>(t: Trie<V>, src: Trie<V>)
    ensures OverlayBut(t, src, src.children.Keys) ==
      if src.value == None then t else t.(value := Some(src.value.value.Clone()))
  {
    assert OverlayBut(t, src, src.children.Keys).children == t.children;
  }

  lemma OverlayToCome<V>(t: Trie<V>, rest: set<string>, c: string)
    requires c in rest && rest <= t.children.Keys
    ensures c in OverlayBut(t, t, rest).children && OverlayBut(t, t, rest).children[c] == t.children[c]
  {}

  lemma OverlayGoesOn<V>(t: Trie<V>, src: Trie<V>, rest: set<string>, c: string)
    requires c in rest && rest <= src.children.Keys
    ensures var p := OverlayBut(t, src, rest);
      OverlayBut(t, src, rest - {c}) == p.(children := p.children[c := Overlay(Child(p, c), src.children[c])])
  {
    hide Overlay;
    var p, q := OverlayBut(t, src, rest), OverlayBut(t, src, rest - {c});
    assert Child(p, c) == Child(t, c);
    assert q.children == p.children[c := Overlay(Child(p, c), src.children[c])];
  }

  lemma OverlayEnds<V>(t: Trie<V>, src: Trie<V>)
    ensures OverlayBut(t, src, {}) == Overlay(t, src)
  {
    assert OverlayBut(t, src, {}).children == Overlay(t, src).children;
  }
}
