/** What whole runs of the reference scheduler do. */
module AgendaRuns {
  import opened BucketIndex
  import opened Agendas

  // ---------- how a run ends ----------

  lemma TickLast<T, U>(behave: Behaviour<T, U>, w: World<T, U>)
    requires WellFormed(w) && w.agenda != map[]
    ensures var t, r := Next(w.agenda), Tick(behave, w, Next(w.agenda)).trace;
      |r| > |w.trace| && r[|r| - 1].at == t
  {
    var t := Next(w.agenda);
    ExecuteAllTrace(behave, w.(now := t, agenda := w.agenda - {t}), w.agenda[t]);
  }

  /** A tick at any pending time executes at least one task, at that time. */
  lemma TickFirst<T(!new), U(!new)>(behave: Behaviour<T, U>, w: World<T, U>, t: Time, final: Time)
    requires Proper(w.agenda) && t in w.agenda && t <= final && Admissible(behave, final)
    ensures var r := Tick(behave, w, t);
      && w.trace <= r.trace && |w.trace| < |r.trace| && r.trace[|w.trace|].at == t
      && Proper(r.agenda)
  {
    var v := w.(now := t, agenda := w.agenda - {t});
    ExecuteAllTrace(behave, v, w.agenda[t]);
    ExecuteAllLaws(behave, v, w.agenda[t], final);
  }

  /** The first task of a run is one of the earliest pending time, if that is due. */
  lemma {:induction false} RunStartsAtNext<T(!new), U(!new)>(behave: Behaviour<T, U>, w: World<T, U>, final: Time)
    requires Admissible(behave, final) && Proper(w.agenda)
    ensures var r := Run(behave, w, final).world.trace;
      && w.trace <= r
      && (w.agenda != map[] && Next(w.agenda) <= final ==> |w.trace| < |r| && r[|w.trace|].at == Next(w.agenda))
    decreases Fuel(w.agenda, final)
  {
    hide Tick, Admissible, Proper;
    if w.agenda != map[] && Next(w.agenda) <= final {
      TickFirst(behave, w, Next(w.agenda), final);
      TickLaws(behave, w, final);
      RunStartsAtNext(behave, Tick(behave, w, Next(w.agenda)), final);
    }
  }

  /** A run reports events in the queue exactly when something is still pending; all of it then lies
      beyond `final`, and the clock stands at `final`. Otherwise the clock stands at the last tick. */
  lemma {:induction false} RunEnds<T(!new), U(!new)>(behave: Behaviour<T, U>, w: World<T, U>, final: Time)
    requires Admissible(behave, final) && WellFormed(w) && w.now <= final
    ensures var r := Run(behave, w, final);
      && (r.status == EVENTS_IN_QUEUE <==> exists t :: t in r.world.agenda && t > final)
      && (r.status == STOPPED <==> r.world.agenda == map[])
      && (r.status == EVENTS_IN_QUEUE ==> r.world.now == final && forall t | t in r.world.agenda :: t > final)
      && (r.status == STOPPED ==>
        r.world.now == if |r.world.trace| > |w.trace| then r.world.trace[|r.world.trace| - 1].at else w.now)
    decreases Fuel(w.agenda, final)
  {
    hide WellFormed, Tick;
    if w.agenda != map[] {
      var t := Next(w.agenda);
      if t <= final {
        TickLaws(behave, w, final);
        TickKeeps(behave, w, final);
        TickLast(behave, w);
        NextNotOverdue(w);
        RunKeeps(behave, Tick(behave, w, t), final);
        RunEnds(behave, Tick(behave, w, t), final);
      } else {
        assert t in w.agenda && t > final;
      }
    }
  }

  /** After a run to `final`, every request due by then has run, in the order of the requests, and nothing else has. */
  lemma RunDoesWhatIsDue<T(!new), U(!new)>(behave: Behaviour<T, U>, w: World<T, U>, final: Time, t: Time)
    requires Admissible(behave, final) && WellFormed(w) && w.now <= final
    ensures var r := Run(behave, w, final).world;
      Of(r.trace, t) == if t <= final then Of(r.log, t) else []
  {
    RunKeeps(behave, w, final);
    RunEnds(behave, w, final);
    var r := Run(behave, w, final).world;
    OfMember(r.trace, t);
    assert Of(r.log, t) == Of(r.trace, t) + (if t == r.now then [] else []) + At(r.agenda, t);
  }

  /** The clock stands at `final` after a run exactly when something is left for later or something was
      requested for `final` itself; otherwise the run ends earlier. */
  lemma ClockAfterRun<T(!new), U(!new)>(behave: Behaviour<T, U>, w: World<T, U>, final: Time)
    requires Admissible(behave, final) && WellFormed(w) && w.now < final
    ensures var r := Run(behave, w, final).world;
      r.now == final <==> r.agenda != map[] || Of(r.log, final) != []
  {
    hide Run, Admissible;
    RunKeeps(behave, w, final);
    RunEnds(behave, w, final);
    RunDoesWhatIsDue(behave, w, final, final);
    var r := Run(behave, w, final).world;
    OfMember(r.trace, final);
    if |r.trace| > |w.trace| {
      assert r.trace[|r.trace| - 1] in r.trace;
    } else {
      assert r.trace == w.trace;
    }
  }

  function Idling<T(!new), U(!new)>(): Behaviour<T, U> { (task: T, t: Time, u: U) => Effect(u, []) }

  lemma {:induction false} IdleRequestsNothing<T(!new), U(!new)>(w: World<T, U>, tasks: seq<T>)
    ensures ExecuteAll(Idling(), w, tasks).log == w.log
  {
    if tasks != [] {
      IdleRequestsNothing(w, tasks[..|tasks| - 1]);
      var p := ExecuteAll(Idling(), w, tasks[..|tasks| - 1]);
      PostAllLaws(p.(trace := p.trace + [Event(p.now, tasks[|tasks| - 1])]), []);
    }
  }

  lemma {:induction false} IdleRun<T(!new), U(!new)>(w: World<T, U>, final: Time)
    ensures Admissible(Idling<T, U>(), final) && Run(Idling(), w, final).world.log == w.log
    decreases Fuel(w.agenda, final)
  {
    hide Tick;
    assert Admissible(Idling<T, U>(), final);
    if w.agenda != map[] && Next(w.agenda) <= final {
      var t := Next(w.agenda);
      TickLaws(Idling(), w, final);
      TickOfIdle(w, t);
      IdleRun(Tick(Idling(), w, t), final);
    }
  }

  lemma TickOfIdle<T(!new), U(!new)>(w: World<T, U>, t: Time)
    requires t in w.agenda
    ensures Tick(Idling(), w, t).log == w.log
  {
    IdleRequestsNothing(w.(now := t, agenda := w.agenda - {t}), w.agenda[t]);
  }

  /** What is pending at `final` or later when a run starts brings the clock to `final`. */
  lemma LateTaskHoldsClock<T(!new), U(!new)>(behave: Behaviour<T, U>, w: World<T, U>, final: Time, t: Time)
    requires WellFormed(w) && w.now < final && Admissible(behave, final) && t in w.agenda && final <= t
    ensures Run(behave, w, final).world.now == final
  {
    hide Run, Admissible, Of;
    var r := Run(behave, w, final).world;
    ClockAfterRun(behave, w, final);
    RunKeeps(behave, w, final);
    RunDoesWhatIsDue(behave, w, final, t);
    assert Of(w.log, t) == Of(w.trace, t) + (if t == w.now then [] else []) + At(w.agenda, t);
    assert Of(r.log, t) == Of(r.trace, t) + (if t == r.now then [] else []) + At(r.agenda, t);
    assert r.log == w.log + r.log[|w.log|..];
    OfConcat(w.log, r.log[|w.log|..], t);
  }

  /** Without such a task, a run whose tasks schedule nothing stops the clock early. */
  lemma ClockStopsWithLastTask<T(!new), U(!new)>(w: World<T, U>, final: Time)
    requires WellFormed(w) && w.now < final && forall t | t in w.agenda :: t < final
    ensures Admissible(Idling<T, U>(), final) && Run(Idling(), w, final).world.now < final
  {
    hide Run, Admissible, Of, Idling;
    IdleRun(w, final);
    var r := Run(Idling(), w, final).world;
    ClockAfterRun(Idling(), w, final);
    RunKeeps(Idling(), w, final);
    RunEnds(Idling(), w, final);
    forall t: Time | final <= t ensures Of(w.log, t) == [] {
      assert Of(w.log, t) == Of(w.trace, t) + (if t == w.now then [] else []) + At(w.agenda, t);
      OfMember(w.trace, t);
    }
    if t :| t in r.agenda {
      assert Of(r.log, t) == Of(r.trace, t) + (if t == r.now then [] else []) + At(r.agenda, t);
    }
  }

  /** Whatever the tasks do, the clock stands at `final` after a run exactly when something is pending,
      before the run, for `final` or later. The documentation of `run` promises it without condition. */
  lemma ClockAtHorizonIff<T(!new), U(!new)>(w: World<T, U>, final: Time)
    requires WellFormed(w) && w.now < final
    ensures (forall behave: Behaviour<T, U> | Admissible(behave, final) :: Run(behave, w, final).world.now == final)
      <==> exists t :: t in w.agenda && final <= t
  {
    hide Run, Admissible, WellFormed;
    if t :| t in w.agenda && final <= t {
      forall behave: Behaviour<T, U> | Admissible(behave, final) ensures Run(behave, w, final).world.now == final {
        LateTaskHoldsClock(behave, w, final, t);
      }
    } else {
      ClockStopsWithLastTask(w, final);
    }
  }

  /** One task at 3, which schedules nothing, run to 10: the clock stays at 3. */
  lemma OneTaskAtThree()
    ensures var w := World(0, map[3 := [1]], 0, [], [Event(3, 1)]);
      WellFormed(w) && Admissible(Idling<int, int>(), 10) &&
        Run(Idling<int, int>(), w, 10) == Outcome(World(3, map[], 0, [Event(3, 1)], [Event(3, 1)]), STOPPED)
  {
    var log := [Event(3, 1)];
    var w := World(0, map[3 := [1]], 0, [], log);
    forall t: Time ensures Of(w.log, t) == Of(w.trace, t) + (if t == w.now then [] else []) + At(w.agenda, t) {
      assert log[..0] == [];
    }
    assert 3 in w.agenda && Next(w.agenda) == 3;
    var v := w.(now := 3, agenda := w.agenda - {3});
    assert [1][..0] == [] && w.agenda[3] == [1];
    var done := v.(trace := [Event(3, 1)]);
    assert ExecuteAll(Idling(), v, []) == v;
    assert PostAll(done, []) == done && Execute(Idling(), v, 1) == done;
    assert Tick(Idling(), w, 3) == done && done.agenda == map[];
    RunUnfolds(Idling(), w, 10);
    RunUnfolds(Idling(), done, 10);
  }

  /** Only one time-ordered list of events has a given list of tasks at each time. */
  lemma {:induction false} OrderDetermines<T>(a: seq<Event<T>>, b: seq<Event<T>>)
    requires InTimeOrder(a) && InTimeOrder(b) && forall t: Time :: Of(a, t) == Of(b, t)
    ensures a == b
    decreases |a|
  {
    if a == [] || b == [] {
      if a != [] { OfMember(a, a[0].at); }
      if b != [] { OfMember(b, b[0].at); }
    } else {
      var i, j := |a| - 1, |b| - 1;
      var x, y := a[i], b[j];
      OfMember(a, x.at); OfMember(b, x.at);
      OfMember(a, y.at); OfMember(b, y.at);
      assert x in a && y in b;
      assert x.at == y.at;
      assert Of(a, x.at) == Of(a[..i], x.at) + [x.task];
      assert Of(b, x.at) == Of(b[..j], x.at) + [y.task];
      forall t: Time ensures Of(a[..i], t) == Of(b[..j], t) {
        assert Of(a, t) == Of(b, t);
        assert Of(a, t) == Of(a[..i], t) + if x.at == t then [x.task] else [];
        assert Of(b, t) == Of(b[..j], t) + if y.at == t then [y.task] else [];
        if t == x.at {
          DropLast(Of(a[..i], t), Of(b[..j], t), x.task, y.task);
        } else {
          assert Of(a[..i], t) + [] == Of(a[..i], t) && Of(b[..j], t) + [] == Of(b[..j], t);
        }
      }
      OrderDetermines(a[..i], b[..j]);
      DropLast(Of(a[..i], x.at), Of(b[..j], x.at), x.task, y.task);
    }
  }

  lemma DropLast<T>(p: seq<T>, q: seq<T>, x: T, y: T)
    requires p + [x] == q + [y]
    ensures p == q && x == y
  {
    assert (p + [x])[..|p|] == p && (q + [y])[..|q|] == q;
    assert (p + [x])[|p|] == x && (q + [y])[|q|] == y;
  }

  /** `es` lists the requests in `log` due by `final`, ordered by time and, at each time, by request. */
  ghost predicate IsDueOrdering<T>(es: seq<Event<T>>, log: seq<Event<T>>, final: Time)
  {
    InTimeOrder(es) && forall t: Time :: Of(es, t) == if t <= final then Of(log, t) else []
  }

  /** The trace of a run is that ordering of everything requested up to its end, and the only one. */
  lemma TraceIsTheOrdering<T(!new), U(!new)>(behave: Behaviour<T, U>, w: World<T, U>, final: Time, es: seq<Event<T>>)
    requires Admissible(behave, final) && WellFormed(w) && w.now <= final
    ensures var r := Run(behave, w, final).world;
      es == r.trace <==> IsDueOrdering(es, r.log, final)
  {
    var r := Run(behave, w, final).world;
    RunKeeps(behave, w, final);
    forall t: Time ensures Of(r.trace, t) == if t <= final then Of(r.log, t) else [] {
      RunDoesWhatIsDue(behave, w, final, t);
    }
    assert IsDueOrdering(r.trace, r.log, final);
    if IsDueOrdering(es, r.log, final) {
      forall t: Time ensures Of(es, t) == Of(r.trace, t) {}
      OrderDetermines(es, r.trace);
    }
  }

  // ---------- conservation as a count ----------

  lemma {:induction false} OfCounts<T>(es: seq<Event<T>>, e: Event<T>)
    ensures multiset(Of(es, e.at))[e.task] == multiset(es)[e]
  {
    if es != [] {
      var n := |es| - 1;
      OfCounts(es[..n], e);
      assert es == es[..n] + [es[n]];
      assert es[n] == Event(es[n].at, es[n].task);
    }
  }

  /** Requests ever made are the disjoint union of those executed and those pending. */
  lemma TasksConserved<T, U>(w: World<T, U>, e: Event<T>)
    requires WellFormed(w)
    ensures multiset(w.log)[e] == multiset(w.trace)[e] + multiset(At(w.agenda, e.at))[e.task]
  {
    OfCounts(w.log, e);
    OfCounts(w.trace, e);
    assert Of(w.log, e.at) == Of(w.trace, e.at) + (if e.at == w.now then [] else []) + At(w.agenda, e.at);
  }

  // ---------- splitting a run ----------

  lemma NowIsOverwritten<T(!new), U(!new)>(behave: Behaviour<T, U>, w: World<T, U>, now: Time, final: Time)
    requires Admissible(behave, final) && w.agenda != map[]
    ensures Run(behave, w.(now := now), final) == Run(behave, w, final)
  {}

  /** Running to `t1` and then to `t2` is running to `t2`. */
  lemma {:induction false} RunSplits<T(!new), U(!new)>(behave: Behaviour<T, U>, w: World<T, U>, t1: Time, t2: Time)
    requires t1 <= t2 && Admissible(behave, t2)
    ensures Admissible(behave, t1)
    ensures Run(behave, Run(behave, w, t1).world, t2) == Run(behave, w, t2)
    decreases Fuel(w.agenda, t1)
  {
    hide Tick;
    if w.agenda != map[] {
      if Next(w.agenda) > t1 {
        NowIsOverwritten(behave, w, t1, t2);
      } else {
        TickLaws(behave, w, t1);
        RunSplits(behave, Tick(behave, w, Next(w.agenda)), t1, t2);
      }
    }
  }

  // ---------- the user state is a function of the trace ----------

  /** The user state after executing `es` in order. */
  function Replay<T, U>(behave: Behaviour<T, U>, u: U, es: seq<Event<T>>): U
  {
    if es == [] then u
    else behave(es[|es| - 1].task, es[|es| - 1].at, Replay(behave, u, es[..|es| - 1])).user
  }

  lemma {:induction false} ReplayConcat<T, U>(behave: Behaviour<T, U>, u: U, a: seq<Event<T>>, b: seq<Event<T>>)
    ensures Replay(behave, u, a + b) == Replay(behave, Replay(behave, u, a), b)
  {
    if b == [] {
      assert a + b == a;
    } else {
      var n := |b| - 1;
      assert (a + b)[..|a + b| - 1] == a + b[..n];
      ReplayConcat(behave, u, a, b[..n]);
    }
  }

  lemma {:induction false} ExecuteAllReplays<T, U>(behave: Behaviour<T, U>, w: World<T, U>, tasks: seq<T>, u: U)
    requires w.user == Replay(behave, u, w.trace)
    ensures var r := ExecuteAll(behave, w, tasks); r.user == Replay(behave, u, r.trace) && r.now == w.now
  {
    if tasks != [] {
      var n := |tasks| - 1;
      ExecuteAllReplays(behave, w, tasks[..n], u);
      var p := ExecuteAll(behave, w, tasks[..n]);
      var e := behave(tasks[n], p.now, p.user);
      var trace := p.trace + [Event(p.now, tasks[n])];
      PostAllLaws(p.(user := e.user, trace := trace), e.requests);
      assert trace[..|trace| - 1] == p.trace;
    }
  }

  /** Everything that the events in `es` request when executed in order. */
  function Requested<T, U>(behave: Behaviour<T, U>, u: U, es: seq<Event<T>>): seq<Event<T>>
  {
    if es == [] then []
    else
      var before, last := es[..|es| - 1], es[|es| - 1];
      Requested(behave, u, before) + behave(last.task, last.at, Replay(behave, u, before)).requests
  }

  /** The log is what was requested to begin with, and then all that the trace requests. */
  ghost predicate Logged<T, U>(behave: Behaviour<T, U>, w: World<T, U>, u: U, first: seq<Event<T>>)
  {
    w.user == Replay(behave, u, w.trace) && w.log == first + Requested(behave, u, w.trace)
  }

  lemma ExecuteLogs<T, U>(behave: Behaviour<T, U>, w: World<T, U>, task: T, u: U, first: seq<Event<T>>)
    requires Logged(behave, w, u, first)
    ensures Logged(behave, Execute(behave, w, task), u, first)
  {
    var e := behave(task, w.now, w.user);
    var trace := w.trace + [Event(w.now, task)];
    PostAllLaws(w.(user := e.user, trace := trace), e.requests);
    assert trace[..|trace| - 1] == w.trace;
    assert first + (Requested(behave, u, w.trace) + e.requests) == first + Requested(behave, u, w.trace) + e.requests;
  }

  lemma {:induction false} ExecuteAllLogs<T, U>(
    behave: Behaviour<T, U>, w: World<T, U>, tasks: seq<T>, u: U, first: seq<Event<T>>)
    requires Logged(behave, w, u, first)
    ensures Logged(behave, ExecuteAll(behave, w, tasks), u, first)
  {
    hide Logged, Execute;
    if tasks != [] {
      ExecuteAllLogs(behave, w, tasks[..|tasks| - 1], u, first);
      ExecuteLogs(behave, ExecuteAll(behave, w, tasks[..|tasks| - 1]), tasks[|tasks| - 1], u, first);
    }
  }

  /** A run loses no request of the tasks it executes and makes none of its own. */
  lemma {:induction false} RunLogs<T(!new), U(!new)>(
    behave: Behaviour<T, U>, w: World<T, U>, final: Time, u: U, first: seq<Event<T>>)
    requires Admissible(behave, final) && Logged(behave, w, u, first)
    ensures Logged(behave, Run(behave, w, final).world, u, first)
    decreases Fuel(w.agenda, final)
  {
    hide Logged, Admissible;
    NowIsNotLogged(behave, w, final, u, first);
    if w.agenda != map[] && Next(w.agenda) <= final {
      var t := Next(w.agenda);
      AgendaIsNotLogged(behave, w, t, u, first);
      ExecuteAllLogs(behave, w.(now := t, agenda := w.agenda - {t}), w.agenda[t], u, first);
      TickLaws(behave, w, final);
      RunLogs(behave, Tick(behave, w, t), final, u, first);
    }
  }

  lemma NowIsNotLogged<T, U>(behave: Behaviour<T, U>, w: World<T, U>, now: Time, u: U, first: seq<Event<T>>)
    requires Logged(behave, w, u, first)
    ensures Logged(behave, w.(now := now), u, first)
  {}

  lemma AgendaIsNotLogged<T, U>(behave: Behaviour<T, U>, w: World<T, U>, t: Time, u: U, first: seq<Event<T>>)
    requires Logged(behave, w, u, first)
    ensures Logged(behave, w.(now := t, agenda := w.agenda - {t}), u, first)
  {}

  /** The user state a run ends in is what executing the trace, event by event, makes of the first one. */
  lemma {:induction false} RunReplays<T(!new), U(!new)>(behave: Behaviour<T, U>, w: World<T, U>, final: Time, u: U)
    requires Admissible(behave, final) && w.user == Replay(behave, u, w.trace)
    ensures var r := Run(behave, w, final).world; r.user == Replay(behave, u, r.trace)
    decreases Fuel(w.agenda, final)
  {
    if w.agenda != map[] && Next(w.agenda) <= final {
      var t := Next(w.agenda);
      ExecuteAllReplays(behave, w.(now := t, agenda := w.agenda - {t}), w.agenda[t], u);
      TickLaws(behave, w, final);
      RunReplays(behave, Tick(behave, w, t), final, u);
    }
  }
}
