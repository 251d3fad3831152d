/** The collector inside a run of the scheduler: what it reports is what was counted between its two tasks. */
module CollectorRuns {
  import opened BucketIndex
  import opened Agendas
  import opened AgendaRuns
  import opened Statistics
  import opened Collector
  import C = Contexts

  datatype Task<T> = App(task: T) | Open | Close

  /** What an application task does: its own state, its net change to each counter, and what it schedules. */
  datatype AppEffect<T, A> = AppEffect(app: A, change: nat -> int, requests: seq<Event<T>>)

  type AppBehaviour<!T, !A> = (T, Time, A) -> AppEffect<T, A>

  datatype Bench<A> = Bench(app: A, counters: seq<int>, window: Window, reports: seq<seq<int>>)

  function Changed(counters: seq<int>, change: nat -> int): (r: seq<int>)
    ensures |r| == |counters|
  {
    seq(|counters|, i requires 0 <= i < |counters| => counters[i] + change(i))
  }

  function Lift<T>(rs: seq<Event<T>>): (r: seq<Event<Task<T>>>)
    ensures |r| == |rs| && forall i | 0 <= i < |rs| :: r[i].at == rs[i].at && r[i].task == App(rs[i].task)
  {
    seq(|rs|, i requires 0 <= i < |rs| => Event(rs[i].at, App(rs[i].task)))
  }

  function OpenWindow<A>(s: Bench<A>): Bench<A> { s.(window := Opened(s.counters)) }

  function CloseWindow<A>(s: Bench<A>): Bench<A>
  {
    var w := Collected(s.window, s.counters);
    if |w.saved| == |s.counters| then s.(window := w, reports := s.reports + [Minus(s.counters, w.saved)]) else s
  }

  /** Application tasks as they come; the collector's two tasks open and close its window. */
  function Perform<T, A>(app: AppBehaviour<T, A>, task: Task<T>, t: Time, s: Bench<A>): Effect<Task<T>, Bench<A>>
  {
    match task {
      case App(x) =>
        var e := app(x, t, s.app);
        Effect(s.(app := e.app, counters := Changed(s.counters, e.change)), Lift(e.requests))
      case Open => Effect(OpenWindow(s), [])
      case Close => Effect(CloseWindow(s), [])
    }
  }

  function Behave<T, A>(app: AppBehaviour<T, A>): Behaviour<Task<T>, Bench<A>>
  {
    (task: Task<T>, t: Time, s: Bench<A>) => Perform(app, task, t, s)
  }

  // ---------- only the initial requests open and close windows ----------

  ghost predicate OnlyApps<T>(es: seq<Event<Task<T>>>) { forall e | e in es :: e.task.App? }

  lemma {:induction false} ExecuteAllAddsApps<T, A>(
    app: AppBehaviour<T, A>, w: World<Task<T>, Bench<A>>, tasks: seq<Task<T>>)
    ensures var r := ExecuteAll(Behave(app), w, tasks);
      w.log <= r.log && OnlyApps(r.log[|w.log|..])
  {
    if tasks != [] {
      var n := |tasks| - 1;
      ExecuteAllAddsApps(app, w, tasks[..n]);
      var p := ExecuteAll(Behave(app), w, tasks[..n]);
      var e := Behave(app)(tasks[n], p.now, p.user);
      PostAllLaws(p.(user := e.user, trace := p.trace + [Event(p.now, tasks[n])]), e.requests);
      assert e == Perform(app, tasks[n], p.now, p.user);
      assert forall r | r in e.requests :: r.task.App?;
      assert (p.log + e.requests)[|w.log|..] == p.log[|w.log|..] + e.requests;
    }
  }

  lemma TickAddsApps<T, A>(app: AppBehaviour<T, A>, w: World<Task<T>, Bench<A>>, t: Time)
    requires t in w.agenda
    ensures var r := Tick(Behave(app), w, t); w.log <= r.log && OnlyApps(r.log[|w.log|..])
  {
    ExecuteAllAddsApps(app, w.(now := t, agenda := w.agenda - {t}), w.agenda[t]);
  }

  lemma {:induction false} RunAddsApps<T(!new), A(!new)>(
    app: AppBehaviour<T, A>, w: World<Task<T>, Bench<A>>, final: Time)
    requires Admissible(Behave(app), final)
    ensures var r := Run(Behave(app), w, final).world;
      w.log <= r.log && OnlyApps(r.log[|w.log|..])
    decreases Fuel(w.agenda, final)
  {
    hide Behave, Tick, Admissible;
    if w.agenda != map[] && Next(w.agenda) <= final {
      var v := Tick(Behave(app), w, Next(w.agenda));
      TickAddsApps(app, w, Next(w.agenda));
      TickLaws(Behave(app), w, final);
      RunAddsApps(app, v, final);
      var r := Run(Behave(app), w, final).world;
      assert r.log[|w.log|..] == v.log[|w.log|..] + r.log[|v.log|..];
    }
  }

  // ---------- the state along a trace ----------

  function StateAt<T, A>(app: AppBehaviour<T, A>, u: Bench<A>, trace: seq<Event<Task<T>>>, k: nat): Bench<A>
    requires k <= |trace|
  {
    Replay(Behave(app), u, trace[..k])
  }

  lemma StateStep<T, A>(app: AppBehaviour<T, A>, u: Bench<A>, trace: seq<Event<Task<T>>>, k: nat)
    requires k < |trace|
    ensures StateAt(app, u, trace, k + 1) == Perform(app, trace[k].task, trace[k].at, StateAt(app, u, trace, k)).user
  {
    assert trace[..k + 1][..k] == trace[..k];
  }

  /** The net change the `k`-th executed task makes to counter `c`. */
  function ChangeAt<T, A>(app: AppBehaviour<T, A>, u: Bench<A>, trace: seq<Event<Task<T>>>, k: nat, c: nat): int
    requires k < |trace|
  {
    if trace[k].task.App? then app(trace[k].task.task, trace[k].at, StateAt(app, u, trace, k).app).change(c) else 0
  }

  /** The net change to counter `c` by the tasks executed from position `i` up to `j`. */
  function Total<T, A>(app: AppBehaviour<T, A>, u: Bench<A>, trace: seq<Event<Task<T>>>, i: nat, j: nat, c: nat): int
    requires i <= j <= |trace|
  {
    if i == j then 0 else Total(app, u, trace, i, j - 1, c) + ChangeAt(app, u, trace, j - 1, c)
  }

  /** One executed task changes each counter by its own net change; the collector's tasks change none. */
  lemma CountersStep<T, A>(app: AppBehaviour<T, A>, u: Bench<A>, trace: seq<Event<Task<T>>>, k: nat)
    requires k < |trace|
    ensures var s, s' := StateAt(app, u, trace, k), StateAt(app, u, trace, k + 1);
      && s'.app == (if trace[k].task.App? then app(trace[k].task.task, trace[k].at, s.app).app else s.app)
      && |s'.counters| == |s.counters|
      && forall c: nat | c < |s.counters| :: s'.counters[c] == s.counters[c] + ChangeAt(app, u, trace, k, c)
  {
    StateStep(app, u, trace, k);
    match trace[k].task {
      case App(x) =>
      case Open =>
      case Close =>
    }
  }

  lemma {:induction false} CountersKept<T, A>(app: AppBehaviour<T, A>, u: Bench<A>, trace: seq<Event<Task<T>>>, k: nat)
    requires k <= |trace|
    ensures |StateAt(app, u, trace, k).counters| == |u.counters|
  {
    if k > 0 {
      CountersKept(app, u, trace, k - 1);
      CountersStep(app, u, trace, k - 1);
    }
  }

  lemma {:induction false} CountersAddUp<T, A>(
    app: AppBehaviour<T, A>, u: Bench<A>, trace: seq<Event<Task<T>>>, i: nat, j: nat, c: nat)
    requires i <= j <= |trace| && c < |u.counters|
    ensures |StateAt(app, u, trace, i).counters| == |StateAt(app, u, trace, j).counters| == |u.counters|
    ensures StateAt(app, u, trace, j).counters[c] ==
      StateAt(app, u, trace, i).counters[c] + Total(app, u, trace, i, j, c)
    decreases j - i
  {
    hide StateAt, ChangeAt;
    CountersKept(app, u, trace, i);
    CountersKept(app, u, trace, j);
    if i < j {
      CountersAddUp(app, u, trace, i, j - 1, c);
      CountersStep(app, u, trace, j - 1);
    }
  }

  /** Between the collector's own tasks nothing touches the window or the reports. */
  lemma {:induction false} WindowKept<T, A>(
    app: AppBehaviour<T, A>, u: Bench<A>, trace: seq<Event<Task<T>>>, i: nat, j: nat)
    requires i <= j <= |trace| && OnlyApps(trace[i..j])
    ensures StateAt(app, u, trace, j).window == StateAt(app, u, trace, i).window
    ensures StateAt(app, u, trace, j).reports == StateAt(app, u, trace, i).reports
    decreases j
  {
    if i < j {
      assert trace[i..j][j - 1 - i] == trace[j - 1];
      assert trace[i..j - 1] == trace[i..j][..j - 1 - i];
      WindowKept(app, u, trace, i, j - 1);
      StateStep(app, u, trace, j - 1);
    }
  }

  // ---------- the window of a whole run ----------

  /** The initial requests open one window at `start` and close it at `end`; everything else is the application's. */
  ghost predicate OneWindow<T>(log: seq<Event<Task<T>>>, start: Time, end: Time)
  {
    && multiset(log)[Event(start, Open)] == 1 && multiset(log)[Event(end, Close)] == 1
    && forall e | e in log :: e.task.App? || e == Event(start, Open) || e == Event(end, Close)
  }

  lemma {:induction false} OnceAt<E>(es: seq<E>, e: E) returns (i: nat)
    requires multiset(es)[e] == 1
    ensures i < |es| && es[i] == e && e !in es[..i] && e !in es[i + 1..]
  {
    var n := |es| - 1;
    assert es == es[..n] + [es[n]];
    if es[n] == e {
      i := n;
    } else {
      i := OnceAt(es[..n], e);
      assert es[..n][..i] == es[..i];
      assert es[i + 1..] == es[..n][i + 1..] + [es[n]];
    }
  }

  lemma {:induction false} AppsAddNone<T>(es: seq<Event<Task<T>>>, e: Event<Task<T>>)
    requires OnlyApps(es) && !e.task.App?
    ensures multiset(es)[e] == 0
  {
    if e in es {}
  }

  /** After a run past `end`, the trace holds exactly one opening and one closing, in that order. */
  lemma WindowInTrace<T(!new), A(!new)>(
    app: AppBehaviour<T, A>, w: World<Task<T>, Bench<A>>, start: Time, end: Time, final: Time)
    returns (i: nat, j: nat)
    requires Admissible(Behave(app), final) && WellFormed(w) && w.now <= final
    requires OneWindow(w.log, start, end) && start < end <= final
    ensures var trace := Run(Behave(app), w, final).world.trace;
      && i < j < |trace| && trace[i] == Event(start, Open) && trace[j] == Event(end, Close)
      && OnlyApps(trace[..i]) && OnlyApps(trace[i + 1..j]) && OnlyApps(trace[j + 1..])
  {
    hide Run, Admissible, WellFormed, InTimeOrder;
    var r := Run(Behave(app), w, final).world;
    RunKeeps(Behave(app), w, final);
    RunAddsApps(app, w, final);
    OneWindowKept(w.log, r.log, start, end);
    var a, b := Event(start, Open), Event(end, Close);
    DueCount(Behave(app), w, final, a);
    DueCount(Behave(app), w, final, b);
    i := OnceAt(r.trace, a);
    j := OnceAt(r.trace, b);
    forall e | e in r.trace ensures e in r.log { TasksConserved(r, e); }
    InOrderOfTime(r, i, j);
    OnlyTwo(r.trace, i, j, a, b);
  }

  lemma InOrderOfTime<T, U>(w: World<T, U>, i: nat, j: nat)
    requires WellFormed(w) && i < |w.trace| && j < |w.trace| && w.trace[i].at < w.trace[j].at
    ensures i < j
  {
    hide Balanced, Proper;
  }

  /** Requests of the application leave the one window alone. */
  lemma OneWindowKept<T>(log: seq<Event<Task<T>>>, more: seq<Event<Task<T>>>, start: Time, end: Time)
    requires OneWindow(log, start, end) && log <= more && OnlyApps(more[|log|..])
    ensures OneWindow(more, start, end)
    ensures OneOfTwo(more, Event(start, Open), Event(end, Close))
  {
    var apps := more[|log|..];
    assert more == log + apps;
    AppsAddNone(apps, Event(start, Open));
    AppsAddNone(apps, Event(end, Close));
  }

  ghost predicate OneOfTwo<T>(es: seq<Event<Task<T>>>, a: Event<Task<T>>, b: Event<Task<T>>)
  {
    forall e | e in es :: e.task.App? || e == a || e == b
  }

  lemma OnlyTwo<T>(trace: seq<Event<Task<T>>>, i: nat, j: nat, a: Event<Task<T>>, b: Event<Task<T>>)
    requires i < |trace| && trace[i] == a && a !in trace[..i] && a !in trace[i + 1..]
    requires j < |trace| && trace[j] == b && b !in trace[..j] && b !in trace[j + 1..]
    requires i < j && OneOfTwo(trace, a, b)
    ensures OnlyApps(trace[..i]) && OnlyApps(trace[i + 1..j]) && OnlyApps(trace[j + 1..])
  {
    forall k | 0 <= k < |trace| && k != i && k != j ensures trace[k].task.App? {
      var e := trace[k];
      assert e in trace;
      if k < i { assert e in trace[..i]; } else { assert e in trace[i + 1..]; }
      if k < j { assert e in trace[..j]; } else { assert e in trace[j + 1..]; }
    }
  }

  /** A request due by `final` is executed as often as it was made. */
  lemma DueCount<T(!new), U(!new)>(behave: Behaviour<T, U>, w: World<T, U>, final: Time, e: Event<T>)
    requires Admissible(behave, final) && WellFormed(w) && w.now <= final && e.at <= final
    ensures var r := Run(behave, w, final).world; multiset(r.trace)[e] == multiset(r.log)[e]
  {
    var r := Run(behave, w, final).world;
    RunDoesWhatIsDue(behave, w, final, e.at);
    OfCounts(r.log, e);
    OfCounts(r.trace, e);
  }

  /** The collector reports once, and for each counter it reports the net change made by the tasks
      that ran between the opening and the closing of the window. */
  lemma CollectorReportsTheWindow<T(!new), A(!new)>(
    app: AppBehaviour<T, A>, w: World<Task<T>, Bench<A>>, start: Time, end: Time, final: Time)
    returns (i: nat, j: nat)
    requires Admissible(Behave(app), final) && WellFormed(w) && w.now <= final && w.trace == []
    requires OneWindow(w.log, start, end) && start < end <= final
    requires w.user.reports == []
    ensures var r := Run(Behave(app), w, final).world;
      && i < j < |r.trace| && r.trace[i] == Event(start, Open) && r.trace[j] == Event(end, Close)
      && |r.user.reports| == 1 && |r.user.reports[0]| == |w.user.counters|
      && forall c: nat | c < |w.user.counters| :: r.user.reports[0][c] == Total(app, w.user, r.trace, i + 1, j, c)
  {
    hide Run, Admissible, WellFormed, Total;
    i, j := WindowInTrace(app, w, start, end, final);
    RunReplays(Behave(app), w, final, w.user);
    var r := Run(Behave(app), w, final).world;
    var u, trace := w.user, r.trace;
    assert trace[..|trace|] == trace;
    ReportOfTrace(app, u, trace, i, j);
  }

  lemma ReportOfTrace<T, A>(app: AppBehaviour<T, A>, u: Bench<A>, trace: seq<Event<Task<T>>>, i: nat, j: nat)
    requires i < j < |trace| && trace[i].task == Open && trace[j].task == Close && u.reports == []
    requires OnlyApps(trace[..i]) && OnlyApps(trace[i + 1..j]) && OnlyApps(trace[j + 1..])
    ensures var rs := StateAt(app, u, trace, |trace|).reports;
      && |rs| == 1 && |rs[0]| == |u.counters|
      && forall c: nat | c < |u.counters| :: rs[0][c] == Total(app, u, trace, i + 1, j, c)
  {
    hide StateAt, Total, ChangeAt, OnlyApps;
    var n := |trace|;
    assert trace[0..i] == trace[..i] && trace[j + 1..n] == trace[j + 1..];
    assert StateAt(app, u, trace, 0) == u by { StartState(app, u, trace); }
    WindowKept(app, u, trace, 0, i);
    StateStep(app, u, trace, i);
    WindowKept(app, u, trace, i + 1, j);
    StateStep(app, u, trace, j);
    WindowKept(app, u, trace, j + 1, n);
    CountersKept(app, u, trace, i);
    CountersKept(app, u, trace, j);
    forall c: nat | c < |u.counters|
      ensures StateAt(app, u, trace, n).reports[0][c] == Total(app, u, trace, i + 1, j, c)
    {
      CountersAddUp(app, u, trace, i + 1, j, c);
    }
  }

  lemma StartState<T, A>(app: AppBehaviour<T, A>, u: Bench<A>, trace: seq<Event<Task<T>>>)
    ensures StateAt(app, u, trace, 0) == u
  {}

  // ---------- the collector object along a trace ----------

  ghost predicate Distinct(cs: seq<Count>) { forall i, j | 0 <= i < j < |cs| :: cs[i] != cs[j] }

  /** The bench that a collector and the counters of its modules stand for. */
  ghost function BenchOf<A>(app: A, c: Collector, reports: seq<seq<int>>): Bench<A>
    reads c, c.mapper, c.mapper.saved, Flat(c.modules)
  {
    Bench(app, Values(Flat(c.modules)), c.View(), reports)
  }

  method ApplyChange(counters: seq<Count>, change: nat -> int)
    requires Distinct(counters)
    modifies counters
    ensures Values(counters) == Changed(old(Values(counters)), change)
  {
    for k := 0 to |counters|
      invariant forall i | 0 <= i < |counters| ::
        counters[i].val == if i < k then old(counters[i].val) + change(i) else old(counters[i].val)
    {
      counters[k].Increase(change(k));
    }
    assert Values(counters) == Changed(old(Values(counters)), change);
  }

  /** Handing one scheduled task to the collector object or to the application does what `Perform` says. */
  method PerformTask<T, A>(app: AppBehaviour<T, A>, task: Task<T>, t: Time, a: A, c: Collector, reports: seq<seq<int>>)
    returns (next: A, made: seq<seq<int>>, requests: seq<Event<Task<T>>>)
    requires c.Valid() && Distinct(Flat(c.modules))
    modifies c`searchedStatistics, c.mapper, c.mapper.copies, Flat(c.modules)
    ensures c.Valid() && fresh(c.mapper.copies - old(c.mapper.copies))
    ensures Effect(BenchOf(next, c, made), requests) == Perform(app, task, t, old(BenchOf(a, c, reports)))
  {
    hide Flat, Values;
    ghost var before := BenchOf(a, c, reports);
    next, made, requests := a, reports, [];
    match task {
      case App(x) =>
        var e := app(x, t, a);
        next, requests := e.app, Lift(e.requests);
        assert forall i | 0 <= i < |c.mapper.saved| ::
          c.mapper.saved[i] in c.mapper.copies && c.mapper.saved[i] !in Flat(c.modules);
        ghost var view := c.View();
        ApplyChange(Flat(c.modules), e.change);
        assert c.View() == view;
        assert BenchOf(next, c, made) == Perform(app, task, t, before).user;
      case Open =>
        c.OpenWindow();
        assert BenchOf(next, c, made) == OpenWindow(before);
      case Close =>
        var out := c.CloseWindow();
        made := reports + [Values(out)];
        assert BenchOf(next, c, made) == CloseWindow(before);
    }
  }

  method Play<T, A>(app: AppBehaviour<T, A>, trace: seq<Event<Task<T>>>, a: A, c: Collector)
    returns (last: A, reports: seq<seq<int>>)
    requires c.Valid() && Distinct(Flat(c.modules))
    modifies c`searchedStatistics, c.mapper, c.mapper.copies, Flat(c.modules)
    ensures c.Valid()
    ensures BenchOf(last, c, reports) == Replay(Behave(app), old(BenchOf(a, c, [])), trace)
  {
    hide Flat, Values, Perform, Collector.Valid, Collector.View;
    last, reports := a, [];
    ghost var u := BenchOf(a, c, []);
    for k := 0 to |trace|
      invariant c.Valid() && fresh(c.mapper.copies - old(c.mapper.copies))
      invariant BenchOf(last, c, reports) == Replay(Behave(app), u, trace[..k])
    {
      assert trace[..k + 1][..k] == trace[..k];
      var requests;
      last, reports, requests := PerformTask(app, trace[k].task, trace[k].at, last, c, reports);
    }
    assert trace[..|trace|] == trace;
  }

  /** A new collector, handed the tasks of a run in its order, reports once, and for each counter what
      the tasks between its two changed. */
  method ReportedByCollector<T(!new), A(!new)>(
    app: AppBehaviour<T, A>, w: World<Task<T>, Bench<A>>, start: Time, end: Time, final: Time,
    trace: seq<Event<Task<T>>>, a: A, c: Collector)
    returns (reports: seq<seq<int>>, ghost i: nat, ghost j: nat)
    requires c.Valid() && Distinct(Flat(c.modules)) && w.user == BenchOf(a, c, [])
    requires Admissible(Behave(app), final) && WellFormed(w) && w.now <= final && w.trace == []
    requires OneWindow(w.log, start, end) && start < end <= final
    requires trace == Run(Behave(app), w, final).world.trace
    modifies c`searchedStatistics, c.mapper, c.mapper.copies, Flat(c.modules)
    ensures i < j < |trace| && trace[i] == Event(start, Open) && trace[j] == Event(end, Close)
    ensures |reports| == 1 && |reports[0]| == |w.user.counters|
    ensures forall k: nat | k < |reports[0]| :: reports[0][k] == Total(app, w.user, trace, i + 1, j, k)
  {
    hide Run, Admissible, WellFormed, Total, OneWindow, Flat, Perform;
    i, j := CollectorReportsTheWindow(app, w, start, end, final);
    RunReplays(Behave(app), w, final, w.user);
    var last;
    last, reports := Play(app, trace, a, c);
  }

  // ---------- where the one window comes from ----------

  /** What the initialize of a collector schedules. */
  function CollectorSetup<T, A>(start: Time, end: Time): C.Module<Task<T>, Bench<A>>
  {
    (s: Bench<A>) => C.Setup(s, [Event(start, Open), Event(end, Close)], true)
  }

  ghost predicate OnlyAppSetup<T, A(!new)>(m: C.Module<Task<T>, Bench<A>>) { forall s :: OnlyApps(m(s).requests) }

  lemma SetUpAdds<T, A>(w: World<Task<T>, Bench<A>>, m: C.Module<Task<T>, Bench<A>>)
    ensures C.SetUp(w, m).log == w.log + m(w.user).requests
  {
    PostAllLaws(w.(user := m(w.user).user), m(w.user).requests);
  }

  /** Initializing one collector among application modules requests exactly one window. */
  lemma {:induction false} OneWindowFromSetup<T, A(!new)>(
    w: World<Task<T>, Bench<A>>, ms: seq<C.Module<Task<T>, Bench<A>>>, k: nat, start: Time, end: Time)
    requires w.log == [] && k < |ms| && ms[k] == CollectorSetup(start, end)
    requires forall i | 0 <= i < |ms| && i != k :: OnlyAppSetup(ms[i])
    ensures OneWindow(C.SetUpAll(w, ms).log, start, end)
    decreases |ms|
  {
    hide OneWindow, OnlyApps, C.SetUp;
    var n := |ms| - 1;
    var p := C.SetUpAll(w, ms[..n]);
    SetUpAdds(p, ms[n]);
    if n == k {
      AppsFromSetup(w, ms[..n]);
      WindowAdded(p.log, start, end);
    } else {
      OneWindowFromSetup(w, ms[..n], k, start, end);
      assert OnlyAppSetup(ms[n]);
      var rs := ms[n](p.user).requests;
      assert (p.log + rs)[|p.log|..] == rs;
      OneWindowKept(p.log, p.log + rs, start, end);
    }
  }

  lemma WindowAdded<T>(apps: seq<Event<Task<T>>>, start: Time, end: Time)
    requires OnlyApps(apps)
    ensures OneWindow(apps + [Event(start, Open), Event(end, Close)], start, end)
  {
    AppsAddNone(apps, Event(start, Open));
    AppsAddNone(apps, Event(end, Close));
  }

  lemma {:induction false} AppsFromSetup<T, A(!new)>(w: World<Task<T>, Bench<A>>, ms: seq<C.Module<Task<T>, Bench<A>>>)
    requires w.log == [] && forall i | 0 <= i < |ms| :: OnlyAppSetup(ms[i])
    ensures OnlyApps(C.SetUpAll(w, ms).log)
    decreases |ms|
  {
    if ms != [] {
      var n := |ms| - 1;
      AppsFromSetup(w, ms[..n]);
      SetUpAdds(C.SetUpAll(w, ms[..n]), ms[n]);
      assert OnlyAppSetup(ms[n]);
    }
  }
}
