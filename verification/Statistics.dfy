/** Counters and the mapper that remembers a previous value of each of them. */
module Statistics {

  /** What a counter reads: its name and its value. */
  datatype Reading = Reading(name: string, val: int)

  class Count {
    var name: string
    var val: int

    constructor (name: string, initialValue: int)
      ensures Read() == Reading(name, initialValue)
    {
      this.name, val := name, initialValue;
    }

    function Read(): Reading
      reads this
    {
      Reading(name, val)
    }

    method Increase(delta: int)
      modifies this`val
      ensures val == old(val) + delta
    {
      val := val + delta;
    }

    method Decrease(delta: int)
      modifies this`val
      ensures val == old(val) - delta
    {
      val := val - delta;
    }

    /** The postfix increment hands back a copy of the counter as it was. */
    method PostIncrement() returns (before: Count)
      modifies this`val
      ensures fresh(before) && before.Read() == old(Read()) && val == old(val) + 1
    {
      before := new Count(name, val);
      val := val + 1;
    }

    method Clone() returns (c: Count)
      ensures fresh(c) && c.Read() == Read()
    {
      c := new Count(name, val);
    }

    method ComputeDelta(other: Count) returns (d: Count)
      ensures fresh(d) && d.Read() == Reading(name, val - other.val)
    {
      d := new Count(name, val - other.val);
    }

    method AssignFrom(other: Count)
      modifies this
      ensures Read() == old(other.Read())
    {
      name, val := other.name, other.val;
    }
  }

  function Readings(cs: seq<Count>): (r: seq<Reading>)
    reads cs
    ensures |r| == |cs|
  {
    seq(|cs|, i requires 0 <= i < |cs| reads cs => cs[i].Read())
  }

  function Values(cs: seq<Count>): (r: seq<int>)
    reads cs
    ensures |r| == |cs|
  {
    seq(|cs|, i requires 0 <= i < |cs| reads cs => cs[i].val)
  }

  lemma ReadingsGiveValues(a: seq<Count>, b: seq<Count>)
    requires Readings(a) == Readings(b)
    ensures Values(a) == Values(b)
  {
    assert |a| == |Readings(a)| == |Readings(b)| == |b|;
    assert forall i | 0 <= i < |a| :: a[i].Read() == Readings(a)[i] && b[i].Read() == Readings(b)[i];
  }

  /** Counter by counter, what changed between two snapshots. */
  function Delta(now: seq<Reading>, before: seq<Reading>): (r: seq<Reading>)
    requires |now| == |before|
    ensures |r| == |now|
  {
    seq(|now|, i requires 0 <= i < |now| => Reading(now[i].name, now[i].val - before[i].val))
  }

  class StatMapper {
    var saved: seq<Count>
    var live: seq<Count>
    /** The mapper's own counters. */
    ghost var copies: set<Count>

    /** The saved copies are the mapper's own: distinct from each other and from every live counter. */
    ghost predicate Valid()
      reads this
    {
      && |saved| == |live|
      && (forall i, j | 0 <= i < j < |saved| :: saved[i] != saved[j])
      && (forall i | 0 <= i < |saved| :: saved[i] in copies)
      && (forall i | 0 <= i < |live| :: live[i] !in copies)
    }

    constructor ()
      ensures Valid() && saved == [] && live == [] && copies == {}
    {
      saved, live, copies := [], [], {};
    }

    method Add(stat: Count)
      requires Valid() && stat !in copies
      modifies this
      ensures Valid() && live == old(live) + [stat] && fresh(copies - old(copies))
      ensures Readings(saved) == old(Readings(saved)) + [stat.Read()]
    {
      var c := stat.Clone();
      saved, live, copies := saved + [c], live + [stat], copies + {c};
      assert Readings(saved) == old(Readings(saved)) + [stat.Read()];
    }

    /** Every saved copy takes the present value; the live counters keep theirs. */
    method Assign()
      requires Valid()
      modifies copies
      ensures Readings(saved) == Readings(live) == old(Readings(live))
    {
      for k := 0 to |saved|
        invariant forall i | 0 <= i < k :: saved[i].Read() == live[i].Read()
        invariant forall i | 0 <= i < |live| :: live[i].Read() == old(live[i].Read())
      {
        saved[k].AssignFrom(live[k]);
      }
      assert Readings(saved) == Readings(live) == old(Readings(live));
    }

    method ComputeDiff() returns (out: seq<Count>)
      requires Valid()
      ensures fresh(out) && |out| == |live| && Readings(out) == Delta(Readings(live), Readings(saved))
      ensures forall i, j | 0 <= i < j < |out| :: out[i] != out[j]
    {
      out := [];
      for k := 0 to |live|
        invariant |out| == k && fresh(out)
        invariant forall i, j | 0 <= i < j < |out| :: out[i] != out[j]
        invariant forall i | 0 <= i < k :: out[i].Read() == Reading(live[i].name, live[i].val - saved[i].val)
      {
        var d := live[k].ComputeDelta(saved[k]);
        out := out + [d];
      }
      assert Readings(out) == Delta(Readings(live), Readings(saved));
    }
  }

  // ---------- consecutive windows ----------

  /** One increment made by a module: which of the mapper's counters, and by how much. */
  datatype Change = Change(counter: nat, delta: int)

  predicate Fits(changes: seq<Change>, n: nat) { forall s | s in changes :: s.counter < n }

  /** What `changes` add to the counter registered at `c`, which may be registered at other places too. */
  ghost function Net(live: seq<Count>, changes: seq<Change>, c: nat): int
    requires c < |live|
  {
    if changes == [] then 0
    else
      var last := changes[|changes| - 1];
      var hits := last.counter < |live| && live[last.counter] == live[c];
      Net(live, changes[..|changes| - 1], c) + if hits then last.delta else 0
  }

  method Apply(live: seq<Count>, changes: seq<Change>)
    requires Fits(changes, |live|)
    modifies live
    ensures forall c | 0 <= c < |live| :: live[c].val == old(live[c].val) + Net(live, changes, c)
  {
    for k := 0 to |changes|
      invariant forall c | 0 <= c < |live| :: live[c].val == old(live[c].val) + Net(live, changes[..k], c)
    {
      assert changes[k] in changes;
      assert changes[..k + 1][..k] == changes[..k];
      live[changes[k].counter].Increase(changes[k].delta);
    }
    assert changes[..|changes|] == changes;
  }

  /** What the reports of windows `i` up to `j` say of counter `c`, added up. */
  function Reported(reports: seq<seq<Reading>>, i: nat, j: nat, c: nat): int
    requires i <= j <= |reports| && forall r | r in reports :: c < |r|
  {
    if i == j then 0 else Reported(reports, i, j - 1, c) + reports[j - 1][c].val
  }

  lemma {:induction false} ReportedMore(reports: seq<seq<Reading>>, r: seq<Reading>, j: nat, c: nat)
    requires j <= |reports| && c < |r| && forall q | q in reports :: c < |q|
    ensures forall q | q in reports + [r] :: c < |q|
    ensures Reported(reports + [r], 0, j, c) == Reported(reports, 0, j, c)
  {
    if j > 0 { ReportedMore(reports, r, j - 1, c); }
  }

  /** `report` holds exactly what changed in its window. */
  ghost predicate Covers(live: seq<Count>, window: seq<Change>, report: seq<Reading>)
  {
    |report| == |live| && forall c | 0 <= c < |live| :: report[c].val == Net(live, window, c)
  }

  /** Every report after the first holds exactly what changed in its own window. */
  ghost predicate EachItsWindow(live: seq<Count>, windows: seq<seq<Change>>, reports: seq<seq<Reading>>)
  {
    |reports| <= |windows| && forall k | 0 < k < |reports| :: Covers(live, windows[k], reports[k])
  }

  /** The reports of any counter add up to its value in `now` less that in `base`. */
  ghost predicate AddUp(reports: seq<seq<Reading>>, base: seq<Reading>, now: seq<Reading>)
  {
    && |base| == |now| && (forall r | r in reports :: |r| == |base|)
    && forall c | 0 <= c < |base| :: Reported(reports, 0, |reports|, c) == now[c].val - base[c].val
  }

  lemma AddUpMore(
    reports: seq<seq<Reading>>, base: seq<Reading>, now: seq<Reading>, report: seq<Reading>, next: seq<Reading>)
    requires AddUp(reports, base, now) && |report| == |base| == |next|
    requires forall c | 0 <= c < |base| :: report[c].val == next[c].val - now[c].val
    ensures AddUp(reports + [report], base, next)
  {
    var more := reports + [report];
    forall c | 0 <= c < |base| ensures Reported(more, 0, |more|, c) == next[c].val - base[c].val {
      ReportedMore(reports, report, |reports|, c);
    }
  }

  /** Windows that share their borders: in each, counters change, the difference is reported and the
      present values are saved. */
  method ReportWindows(mapper: StatMapper, windows: seq<seq<Change>>) returns (reports: seq<seq<Reading>>)
    requires mapper.Valid() && forall w | w in windows :: Fits(w, |mapper.live|)
    modifies mapper.live, mapper.copies
    ensures |reports| == |windows| && EachItsWindow(mapper.live, windows, reports)
    ensures AddUp(reports, old(Readings(mapper.saved)), Readings(mapper.saved))
    ensures windows != [] ==> Values(mapper.saved) == Values(mapper.live)
  {
    hide Covers, AddUp, Net, Fits;
    reports := [];
    AddUpNone(Readings(mapper.saved));
    for k := 0 to |windows|
      invariant mapper.Valid() && |reports| == k && EachItsWindow(mapper.live, windows, reports)
      invariant AddUp(reports, old(Readings(mapper.saved)), Readings(mapper.saved))
      invariant k > 0 ==> Values(mapper.saved) == Values(mapper.live)
    {
      assert windows[k] in windows;
      ghost var before := Readings(mapper.saved);
      var report := ReportWindow(mapper, windows[k]);
      AddUpMore(reports, old(Readings(mapper.saved)), before, report, Readings(mapper.saved));
      reports := reports + [report];
    }
  }

  lemma AddUpNone(base: seq<Reading>)
    ensures AddUp([], base, base)
  {}

  method ReportWindow(mapper: StatMapper, changes: seq<Change>) returns (report: seq<Reading>)
    requires mapper.Valid() && Fits(changes, |mapper.live|)
    modifies mapper.live, mapper.copies
    ensures mapper.Valid() && |report| == |mapper.live| == |mapper.saved|
    ensures Values(mapper.saved) == Values(mapper.live)
    ensures forall c | 0 <= c < |report| ::
      report[c].val == Readings(mapper.saved)[c].val - old(Readings(mapper.saved))[c].val
    ensures old(Values(mapper.saved) == Values(mapper.live)) ==> Covers(mapper.live, changes, report)
  {
    hide Net;
    ghost var before, was := Readings(mapper.saved), Values(mapper.live);
    assert forall c | 0 <= c < |mapper.live| :: mapper.saved[c] !in mapper.live;
    Apply(mapper.live, changes);
    assert Readings(mapper.saved) == before;
    var out := mapper.ComputeDiff();
    report := Readings(out);
    ghost var now := Readings(mapper.live);
    forall c | 0 <= c < |report|
      ensures report[c].val == now[c].val - before[c].val && now[c].val == was[c] + Net(mapper.live, changes, c)
    {
      assert Values(mapper.live)[c] == mapper.live[c].val == now[c].val;
    }
    assert old(Values(mapper.saved) == Values(mapper.live)) ==>
      forall c | 0 <= c < |report| :: before[c].val == was[c] by {
      assert forall c | 0 <= c < |mapper.saved| :: old(Values(mapper.saved))[c] == old(Readings(mapper.saved))[c].val;
    }
    mapper.Assign();
    ReadingsGiveValues(mapper.saved, mapper.live);
  }
}
