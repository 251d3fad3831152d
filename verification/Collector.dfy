/** The statistics collector: a window opened by one scheduled task and closed by another. */
module Collector {
  import opened Statistics

  /** A module's name and the statistics it records. */
  datatype ModuleStats = ModuleStats(name: string, stats: seq<Count>)

  function Flat(ms: seq<ModuleStats>): seq<Count>
  {
    if ms == [] then [] else Flat(ms[..|ms| - 1]) + ms[|ms| - 1].stats
  }

  /** For each statistic, the name of the module that records it. */
  function Owners(ms: seq<ModuleStats>): (r: seq<string>)
    ensures |r| == |Flat(ms)|
  {
    if ms == [] then []
    else
      var last := ms[|ms| - 1];
      Owners(ms[..|ms| - 1]) + seq(|last.stats|, _ => last.name)
  }

  /** How many statistics come before those of module `k`. */
  function Before(ms: seq<ModuleStats>, k: nat): nat
    requires k <= |ms|
  {
    if k == 0 then 0 else Before(ms, k - 1) + |ms[k - 1].stats|
  }

  function Minus(a: seq<int>, b: seq<int>): (r: seq<int>)
    requires |a| == |b|
    ensures |r| == |a|
  {
    seq(|a|, i requires 0 <= i < |a| => a[i] - b[i])
  }

  /** Whether the statistics have been searched, and the values saved for them. */
  datatype Window = Window(searched: bool, saved: seq<int>)

  function Opened(now: seq<int>): Window { Window(true, now) }

  /** The first of the two calls to find the statistics also saves their values. */
  function Collected(w: Window, now: seq<int>): Window { if w.searched then w else Window(true, now) }

  /** The report on statistic `j` of module `k` comes after those on the modules before it, is named
      after both, and holds the statistic's value now less the one saved. */
  ghost predicate ReportAt(ms: seq<ModuleStats>, k: nat, j: nat, out: seq<Count>, saved: seq<int>)
    requires k < |ms| && j < |ms[k].stats|
    reads out, ms[k].stats[j]
  {
    var i := Before(ms, k) + j;
    && i < |out| == |saved|
    && out[i].name == ms[k].name + "/" + ms[k].stats[j].name
    && out[i].val == ms[k].stats[j].val - saved[i]
  }

  ghost predicate InModuleOrder(ms: seq<ModuleStats>, out: seq<Count>, saved: seq<int>)
    reads out, set k, j | 0 <= k < |ms| && 0 <= j < |ms[k].stats| :: ms[k].stats[j]
  {
    && |out| == Before(ms, |ms|)
    && forall k, j | 0 <= k < |ms| && 0 <= j < |ms[k].stats| :: ReportAt(ms, k, j, out, saved)
  }

  class Collector {
    var modules: seq<ModuleStats>
    var searchedStatistics: bool
    const mapper: StatMapper

    ghost predicate Valid()
      reads this, mapper
    {
      && mapper.Valid()
      && mapper.live == (if searchedStatistics then Flat(modules) else [])
      && (forall c | c in Flat(modules) :: c !in mapper.copies)
    }

    ghost function View(): Window
      reads this, mapper, mapper.saved
    {
      Window(searchedStatistics, Values(mapper.saved))
    }

    constructor (modules: seq<ModuleStats>)
      ensures Valid() && fresh(mapper) && mapper.saved == [] && mapper.copies == {}
      ensures this.modules == modules && !searchedStatistics
    {
      this.modules := modules;
      searchedStatistics := false;
      mapper := new StatMapper();
    }

    /** The first call registers every statistic of every module; later calls do nothing. */
    method Collect()
      requires Valid()
      modifies this`searchedStatistics, mapper
      ensures Valid() && searchedStatistics && mapper.live == Flat(modules)
      ensures View() == Collected(old(View()), Values(mapper.live))
      ensures fresh(mapper.copies - old(mapper.copies))
    {
      if searchedStatistics { return; }
      ghost var all := Flat(modules);
      for m := 0 to |modules|
        invariant mapper.Valid() && mapper.live == Flat(modules[..m])
        invariant Readings(mapper.saved) == Readings(mapper.live)
        invariant fresh(mapper.copies - old(mapper.copies))
        invariant forall c | c in all :: c !in mapper.copies
      {
        assert modules[..m + 1][..m] == modules[..m];
        StatsInFlat(modules, m);
        ghost var before := mapper.copies;
        RecordStatistics(modules[m].stats);
        forall c | c in all ensures c !in mapper.copies {
          FlatFrom(modules, c);
          var k :| 0 <= k < |modules| && c in modules[k].stats;
          assert c !in mapper.copies - before;
        }
      }
      assert modules[..|modules|] == modules;
      searchedStatistics := true;
      ReadingsGiveValues(mapper.saved, mapper.live);
    }

    method RecordStatistics(stats: seq<Count>)
      requires mapper.Valid() && forall c | c in stats :: c !in mapper.copies
      modifies mapper
      ensures mapper.Valid() && mapper.live == old(mapper.live) + stats
      ensures old(Readings(mapper.saved) == Readings(mapper.live)) ==> Readings(mapper.saved) == Readings(mapper.live)
      ensures fresh(mapper.copies - old(mapper.copies))
    {
      for i := 0 to |stats|
        invariant mapper.Valid() && mapper.live == old(mapper.live) + stats[..i]
        invariant old(Readings(mapper.saved) == Readings(mapper.live)) ==>
          Readings(mapper.saved) == Readings(mapper.live)
        invariant fresh(mapper.copies - old(mapper.copies))
        invariant forall c | c in stats :: c !in mapper.copies
      {
        assert stats[i] in stats;
        mapper.Add(stats[i]);
      }
    }

    method OpenWindow()
      requires Valid()
      modifies this`searchedStatistics, mapper, mapper.copies
      ensures Valid() && searchedStatistics && View() == Opened(Values(Flat(modules)))
      ensures Values(Flat(modules)) == old(Values(Flat(modules))) && fresh(mapper.copies - old(mapper.copies))
    {
      hide Flat;
      ghost var now := Values(Flat(modules));
      Collect();
      ghost var live := Readings(mapper.live);
      assert forall i | 0 <= i < |now| :: now[i] == live[i].val;
      mapper.Assign();
      ReadingsGiveValues(mapper.saved, mapper.live);
      assert forall i | 0 <= i < |now| :: Values(mapper.live)[i] == Readings(mapper.live)[i].val;
      assert Values(mapper.live) == now;
    }

    /** What the window reports: for each counter its value now less the value saved for it, under the
        name of its module and its own. */
    method CloseWindow() returns (out: seq<Count>)
      requires Valid()
      modifies this`searchedStatistics, mapper
      ensures Valid() && searchedStatistics && View() == Collected(old(View()), Values(Flat(modules)))
      ensures |out| == |Flat(modules)| == |View().saved|
      ensures Values(out) == Minus(Values(Flat(modules)), View().saved)
      ensures InModuleOrder(modules, out, View().saved)
      ensures if old(searchedStatistics) then View() == old(View()) else forall c | c in out :: c.val == 0
      ensures Values(Flat(modules)) == old(Values(Flat(modules))) && fresh(mapper.copies - old(mapper.copies))
    {
      hide Flat, InModuleOrder;
      ghost var now := Values(Flat(modules));
      Collect();
      assert forall i | 0 <= i < |now| :: mapper.live[i].val == now[i];
      assert Values(Flat(modules)) == now;
      out := NamedDifferences();
      assert forall i | 0 <= i < |out| :: out[i].val == Values(out)[i];
    }

    /** Counter by counter what changed, under the module's name. */
    method NamedDifferences() returns (out: seq<Count>)
      requires Valid() && searchedStatistics
      ensures fresh(out) && |out| == |Flat(modules)| == |View().saved|
      ensures Values(out) == Minus(Values(Flat(modules)), View().saved)
      ensures InModuleOrder(modules, out, View().saved)
    {
      hide Flat, Owners, Values, Minus, InModuleOrder;
      out := Differences();
      NameAfterModules(out);
      Arranged(modules, out, View().saved);
    }

    method Differences() returns (out: seq<Count>)
      requires Valid() && searchedStatistics
      ensures fresh(out) && |out| == |Flat(modules)| && forall i, j | 0 <= i < j < |out| :: out[i] != out[j]
      ensures |out| == |View().saved| && Values(out) == Minus(Values(Flat(modules)), View().saved)
      ensures forall i | 0 <= i < |out| :: out[i].name == Flat(modules)[i].name
    {
      hide Flat;
      out := mapper.ComputeDiff();
      DiffGivesValues(out, mapper.live, mapper.saved);
      assert forall i | 0 <= i < |out| :: Readings(out)[i].name == out[i].name;
    }

    /** Each reported name gets the name of its module in front. */
    method NameAfterModules(out: seq<Count>)
      requires |out| == |Flat(modules)| && forall i, j | 0 <= i < j < |out| :: out[i] != out[j]
      modifies out
      ensures Values(out) == old(Values(out))
      ensures forall i | 0 <= i < |out| :: out[i].name == Owners(modules)[i] + "/" + old(out[i].name)
    {
      var owners := Owners(modules);
      for i := 0 to |out|
        invariant forall k | 0 <= k < |out| :: out[k].val == old(out[k].val)
        invariant forall k | 0 <= k < |out| ::
          out[k].name == if k < i then owners[k] + "/" + old(out[k].name) else old(out[k].name)
      {
        out[i].name := owners[i] + "/" + out[i].name;
      }
      assert Values(out) == old(Values(out));
    }
  }

  lemma DiffGivesValues(out: seq<Count>, live: seq<Count>, saved: seq<Count>)
    requires |out| == |live| == |saved| && Readings(out) == Delta(Readings(live), Readings(saved))
    ensures Values(out) == Minus(Values(live), Values(saved))
    ensures forall i | 0 <= i < |out| :: Readings(out)[i].name == live[i].name
  {
    forall i | 0 <= i < |out|
      ensures Values(out)[i] == live[i].val - saved[i].val && Readings(out)[i].name == live[i].name
    {
      assert out[i].Read() == Readings(out)[i] == Delta(Readings(live), Readings(saved))[i];
    }
    assert Values(out) == Minus(Values(live), Values(saved));
  }

  lemma Arranged(ms: seq<ModuleStats>, out: seq<Count>, saved: seq<int>)
    requires |out| == |Flat(ms)| == |saved| && Values(out) == Minus(Values(Flat(ms)), saved)
    requires forall i | 0 <= i < |out| :: out[i].name == Owners(ms)[i] + "/" + Flat(ms)[i].name
    ensures InModuleOrder(ms, out, saved)
  {
    hide Flat, Owners;
    FlatSize(ms);
    forall k, j | 0 <= k < |ms| && 0 <= j < |ms[k].stats| ensures ReportAt(ms, k, j, out, saved) {
      FlatAt(ms, k, j);
      var i := Before(ms, k) + j;
      assert out[i].val == Values(out)[i] && out[i].name == Owners(ms)[i] + "/" + Flat(ms)[i].name;
    }
  }

  lemma {:induction false} FlatSize(ms: seq<ModuleStats>)
    ensures |Flat(ms)| == Before(ms, |ms|)
  {
    if ms != [] {
      FlatSize(ms[..|ms| - 1]);
      BeforePrefix(ms, |ms| - 1, |ms| - 1);
    }
  }

  lemma {:induction false} BeforePrefix(ms: seq<ModuleStats>, n: nat, k: nat)
    requires k <= n <= |ms|
    ensures Before(ms[..n], k) == Before(ms, k)
  {
    if k > 0 { BeforePrefix(ms, n, k - 1); }
  }

  /** Statistics and owners are in the order of the modules, and within a module in its own order. */
  lemma {:induction false} FlatAt(ms: seq<ModuleStats>, k: nat, j: nat)
    requires k < |ms| && j < |ms[k].stats|
    ensures Before(ms, k) + j < |Flat(ms)|
    ensures Flat(ms)[Before(ms, k) + j] == ms[k].stats[j] && Owners(ms)[Before(ms, k) + j] == ms[k].name
  {
    var n := |ms| - 1;
    FlatSize(ms[..n]);
    BeforePrefix(ms, n, k);
    BeforePrefix(ms, n, n);
    if k < n {
      FlatAt(ms[..n], k, j);
    }
  }

  lemma {:induction false} FlatFrom(ms: seq<ModuleStats>, c: Count)
    requires c in Flat(ms)
    ensures exists k :: 0 <= k < |ms| && c in ms[k].stats
  {
    var n := |ms| - 1;
    if c !in ms[n].stats {
      FlatFrom(ms[..n], c);
      var k :| 0 <= k < n && c in ms[..n][k].stats;
      assert c in ms[k].stats;
    }
  }

  lemma {:induction false} StatsInFlat(ms: seq<ModuleStats>, m: nat)
    requires m < |ms|
    ensures forall c | c in ms[m].stats :: c in Flat(ms)
  {
    var n := |ms| - 1;
    if m < n {
      assert ms[..n][m] == ms[m];
      StatsInFlat(ms[..n], m);
    }
  }
}
