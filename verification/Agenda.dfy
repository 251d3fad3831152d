/** The reference scheduler: pending tasks kept by time, the smallest time found by looking at all
    of them, its tasks run first-in first-out. Nothing here knows about heaps. */
module Agendas {
  import opened BucketIndex

  /** Simulated time in picoseconds. */
  type Time = uint64

  /** Addition of times, on the underlying 64-bit representation. */
  function Plus(a: Time, b: Time): Time { (a + b) % TWO_TO_THE_64 }

  datatype Event<T> = Event(at: Time, task: T)

  /** What running one task does: a new user state and, in order, the calls to `schedule_at` it makes. */
  datatype Effect<T, U> = Effect(user: U, requests: seq<Event<T>>)

  type Behaviour<!T, !U> = (T, Time, U) -> Effect<T, U>

  type Agenda<T> = map<Time, seq<T>>

  /** The scheduler's state, with everything executed so far and every request ever made. */
  datatype World<T, U> = World(now: Time, agenda: Agenda<T>, user: U, trace: seq<Event<T>>, log: seq<Event<T>>)

  datatype RunStatus = EVENTS_IN_QUEUE | STOPPED

  datatype Outcome<T, U> = Outcome(world: World<T, U>, status: RunStatus)

  // ---------- the reference scheduler ----------

  function At<T>(agenda: Agenda<T>, t: Time): seq<T> { if t in agenda then agenda[t] else [] }

  function Post<T, U>(w: World<T, U>, r: Event<T>): World<T, U>
  {
    w.(agenda := w.agenda[r.at := At(w.agenda, r.at) + [r.task]], log := w.log + [r])
  }

  function PostAll<T, U>(w: World<T, U>, rs: seq<Event<T>>): World<T, U>
  {
    if rs == [] then w else Post(PostAll(w, rs[..|rs| - 1]), rs[|rs| - 1])
  }

  function Execute<T, U>(behave: Behaviour<T, U>, w: World<T, U>, task: T): World<T, U>
  {
    var e := behave(task, w.now, w.user);
    PostAll(w.(user := e.user, trace := w.trace + [Event(w.now, task)]), e.requests)
  }

  function ExecuteAll<T, U>(behave: Behaviour<T, U>, w: World<T, U>, tasks: seq<T>): World<T, U>
  {
    if tasks == [] then w else Execute(behave, ExecuteAll(behave, w, tasks[..|tasks| - 1]), tasks[|tasks| - 1])
  }

  function Tick<T, U>(behave: Behaviour<T, U>, w: World<T, U>, t: Time): World<T, U>
    requires t in w.agenda
  {
    ExecuteAll(behave, w.(now := t, agenda := w.agenda - {t}), w.agenda[t])
  }

  /** No time is pending without a task. */
  ghost predicate Proper<T>(agenda: Agenda<T>) { forall t | t in agenda :: agenda[t] != [] }

  /** Tasks that run no later than `final` only schedule strictly later events. */
  ghost predicate Admissible<T(!new), U(!new)>(behave: Behaviour<T, U>, final: Time)
  {
    forall task, t: Time, u | t <= final :: Later(behave(task, t, u).requests, t)
  }

  ghost predicate Later<T>(rs: seq<Event<T>>, t: Time) { forall r | r in rs :: t < r.at }

  ghost predicate IsFirst(t: Time, keys: set<Time>) { t in keys && forall x | x in keys :: t <= x }

  lemma {:induction false} FirstExists(keys: set<Time>)
    requires keys != {}
    ensures exists t :: IsFirst(t, keys)
  {
    var k :| k in keys;
    var rest := keys - {k};
    assert forall x | x in keys :: x == k || x in rest;
    if rest == {} {
      assert IsFirst(k, keys);
    } else {
      FirstExists(rest);
      var r :| IsFirst(r, rest);
      assert IsFirst(Min(k, r), keys);
    }
  }

  /** The smallest pending time. */
  ghost function Next<T>(agenda: Agenda<T>): (t: Time)
    requires agenda != map[]
    ensures t in agenda && forall x | x in agenda :: t <= x
  {
    FirstExists(agenda.Keys);
    var t :| IsFirst(t, agenda.Keys); t
  }

  ghost function Fuel<T>(agenda: Agenda<T>, final: Time): nat
  {
    if agenda != map[] && Next(agenda) <= final then final + 1 - Next(agenda) else 0
  }

  /** Run until nothing is pending or everything pending lies beyond `final`. */
  ghost function Run<T(!new), U(!new)>(behave: Behaviour<T, U>, w: World<T, U>, final: Time): Outcome<T, U>
    requires Admissible(behave, final)
    decreases Fuel(w.agenda, final)
  {
    if w.agenda == map[] then Outcome(w, STOPPED)
    else if Next(w.agenda) > final then Outcome(w.(now := final), EVENTS_IN_QUEUE)
    else
      TickLaws(behave, w, final);
      Run(behave, Tick(behave, w, Next(w.agenda)), final)
  }

  // ---------- what posting and executing keep ----------

  lemma {:induction false} PostAllLaws<T, U>(w: World<T, U>, rs: seq<Event<T>>)
    ensures var r := PostAll(w, rs);
      && r.now == w.now && r.user == w.user && r.trace == w.trace && r.log == w.log + rs
      && (forall t :: t in r.agenda <==> t in w.agenda || exists e :: e in rs && e.at == t)
      && (Proper(w.agenda) ==> Proper(r.agenda))
  {
    if rs != [] {
      var n := |rs| - 1;
      PostAllLaws(w, rs[..n]);
      assert rs == rs[..n] + [rs[n]];
      var r, p := PostAll(w, rs), PostAll(w, rs[..n]);
      forall t ensures t in r.agenda <==> t in w.agenda || exists e :: e in rs && e.at == t {
        if t in r.agenda && t !in w.agenda {
          if t == rs[n].at { assert rs[n] in rs; }
          else { var e :| e in rs[..n] && e.at == t; assert e in rs; }
        }
        if e :| e in rs && e.at == t { assert e == rs[n] || e in rs[..n]; }
      }
    }
  }

  lemma {:induction false} ExecuteAllLaws<T(!new), U(!new)>(
    behave: Behaviour<T, U>, w: World<T, U>, tasks: seq<T>, final: Time)
    requires Admissible(behave, final) && w.now <= final
    ensures var r := ExecuteAll(behave, w, tasks);
      && r.now == w.now
      && (forall t | t in r.agenda :: t in w.agenda || w.now < t)
      && (forall t | t in w.agenda :: t in r.agenda)
      && (Proper(w.agenda) ==> Proper(r.agenda))
  {
    if tasks != [] {
      var n := |tasks| - 1;
      ExecuteAllLaws(behave, w, tasks[..n], final);
      var p := ExecuteAll(behave, w, tasks[..n]);
      var e := behave(tasks[n], p.now, p.user);
      assert Later(e.requests, p.now);
      PostAllLaws(p.(user := e.user, trace := p.trace + [Event(p.now, tasks[n])]), e.requests);
    }
  }

  /** One tick leaves only strictly later times pending. */
  lemma TickLaws<T(!new), U(!new)>(behave: Behaviour<T, U>, w: World<T, U>, final: Time)
    requires Admissible(behave, final) && w.agenda != map[] && Next(w.agenda) <= final
    ensures var t, r := Next(w.agenda), Tick(behave, w, Next(w.agenda));
      && r.now == t
      && (forall x | x in r.agenda :: t < x)
      && (Proper(w.agenda) ==> Proper(r.agenda))
      && Fuel(r.agenda, final) < Fuel(w.agenda, final)
  {
    var t := Next(w.agenda);
    ExecuteAllLaws(behave, w.(now := t, agenda := w.agenda - {t}), w.agenda[t], final);
  }

  lemma RunUnfolds<T(!new), U(!new)>(behave: Behaviour<T, U>, w: World<T, U>, final: Time)
    requires Admissible(behave, final)
    ensures Run(behave, w, final) ==
      if w.agenda == map[] then Outcome(w, STOPPED)
      else if Next(w.agenda) > final then Outcome(w.(now := final), EVENTS_IN_QUEUE)
      else Run(behave, Tick(behave, w, Next(w.agenda)), final)
  {}

  // ---------- leaving the running tick's own list in place ----------

  function Without<T, U>(w: World<T, U>, t: Time): World<T, U> { w.(agenda := w.agenda - {t}) }

  lemma {:induction false} PostAllWithout<T, U>(w: World<T, U>, rs: seq<Event<T>>, t: Time)
    requires Later(rs, t)
    ensures PostAll(Without(w, t), rs) == Without(PostAll(w, rs), t)
    ensures At(PostAll(w, rs).agenda, t) == At(w.agenda, t)
  {
    if rs != [] {
      var n := |rs| - 1;
      assert rs[n] in rs;
      PostAllWithout(w, rs[..n], t);
      var p, r := PostAll(w, rs[..n]), rs[n];
      assert p.agenda[r.at := At(p.agenda, r.at) + [r.task]] - {t} ==
        (p.agenda - {t})[r.at := At(p.agenda, r.at) + [r.task]];
    }
  }

  /** Tasks never touch the list of the tick they run in, so it may stay in the map until they are done. */
  lemma {:induction false} ExecuteAllWithout<T(!new), U(!new)>(
    behave: Behaviour<T, U>, w: World<T, U>, tasks: seq<T>, final: Time)
    requires Admissible(behave, final) && w.now <= final
    ensures var r := ExecuteAll(behave, w, tasks);
      && r.now == w.now && At(r.agenda, w.now) == At(w.agenda, w.now)
      && ExecuteAll(behave, Without(w, w.now), tasks) == Without(r, w.now)
  {
    if tasks != [] {
      var n := |tasks| - 1;
      ExecuteAllWithout(behave, w, tasks[..n], final);
      var p := ExecuteAll(behave, w, tasks[..n]);
      var e := behave(tasks[n], p.now, p.user);
      assert Later(e.requests, p.now);
      var q := p.(user := e.user, trace := p.trace + [Event(p.now, tasks[n])]);
      PostAllLaws(q, e.requests);
      PostAllWithout(q, e.requests, w.now);
    }
  }

  // ---------- conservation ----------

  /** The tasks of the events at time `t`, in order. */
  function Of<T>(es: seq<Event<T>>, t: Time): seq<T>
  {
    if es == [] then []
    else Of(es[..|es| - 1], t) + if es[|es| - 1].at == t then [es[|es| - 1].task] else []
  }

  lemma {:induction false} OfConcat<T>(a: seq<Event<T>>, b: seq<Event<T>>, t: Time)
    ensures Of(a + b, t) == Of(a, t) + Of(b, t)
  {
    if b == [] {
      assert a + b == a;
    } else {
      var n := |b| - 1;
      assert (a + b)[..|a + b| - 1] == a + b[..n];
      OfConcat(a, b[..n], t);
    }
  }

  lemma {:induction false} OfMember<T>(es: seq<Event<T>>, t: Time)
    ensures Of(es, t) != [] <==> exists e :: e in es && e.at == t
  {
    if es != [] {
      var n := |es| - 1;
      OfMember(es[..n], t);
      assert es == es[..n] + [es[n]];
      if e :| e in es && e.at == t { assert e == es[n] || e in es[..n]; }
      if e :| e in es[..n] && e.at == t { assert e in es; }
      if es[n].at == t { assert es[n] in es; }
    }
  }

  /** Everything ever requested for a time is, in order, what ran at that time, then what is still
      to run in the current tick (`rest`), then what is pending. */
  ghost predicate Balanced<T, U>(w: World<T, U>, rest: seq<T>)
  {
    forall t: Time :: Of(w.log, t) == Of(w.trace, t) + (if t == w.now then rest else []) + At(w.agenda, t)
  }

  lemma {:induction false} PostAllAppends<T, U>(w: World<T, U>, rs: seq<Event<T>>, t: Time)
    ensures At(PostAll(w, rs).agenda, t) == At(w.agenda, t) + Of(rs, t)
  {
    if rs != [] { PostAllAppends(w, rs[..|rs| - 1], t); }
  }

  /** What executing one task adds, time by time. */
  lemma ExecuteAt<T, U>(behave: Behaviour<T, U>, w: World<T, U>, task: T, t: Time)
    ensures var r, posted := Execute(behave, w, task), Of(behave(task, w.now, w.user).requests, t);
      && r.now == w.now
      && Of(r.log, t) == Of(w.log, t) + posted
      && Of(r.trace, t) == Of(w.trace, t) + (if t == w.now then [task] else [])
      && At(r.agenda, t) == At(w.agenda, t) + posted
  {
    var e := behave(task, w.now, w.user);
    var ran := [Event(w.now, task)];
    var w1 := w.(user := e.user, trace := w.trace + ran);
    PostAllLaws(w1, e.requests);
    PostAllAppends(w1, e.requests, t);
    OfConcat(w.log, e.requests, t);
    OfConcat(w.trace, ran, t);
    assert Of(ran, t) == Of([], t) + if t == w.now then [task] else [];
  }

  lemma ExecuteBalances<T(!new), U(!new)>(
    behave: Behaviour<T, U>, w: World<T, U>, task: T, rest: seq<T>, final: Time, t: Time)
    requires Admissible(behave, final) && w.now <= final && At(w.agenda, w.now) == []
    requires Of(w.log, t) == Of(w.trace, t) + (if t == w.now then [task] + rest else []) + At(w.agenda, t)
    ensures var r := Execute(behave, w, task);
      Of(r.log, t) == Of(r.trace, t) + (if t == r.now then rest else []) + At(r.agenda, t)
  {
    hide Execute, Of, At;
    var rs := behave(task, w.now, w.user).requests;
    assert Later(rs, w.now);
    ExecuteAt(behave, w, task, t);
    OfMember(rs, t);
    var log, done, pending, posted := Of(w.log, t), Of(w.trace, t), At(w.agenda, t), Of(rs, t);
    if t == w.now {
      assert log + [] == done + [task] + rest + ([] + []);
    } else {
      assert log + posted == done + [] + [] + (pending + posted);
    }
  }

  lemma {:induction false} ExecuteAllBalances<T(!new), U(!new)>(
    behave: Behaviour<T, U>, w: World<T, U>, tasks: seq<T>, rest: seq<T>, final: Time)
    requires Admissible(behave, final) && w.now <= final && At(w.agenda, w.now) == []
    requires Balanced(w, tasks + rest)
    ensures var r := ExecuteAll(behave, w, tasks);
      Balanced(r, rest) && r.now == w.now && At(r.agenda, r.now) == []
  {
    if tasks == [] {
      assert tasks + rest == rest;
    } else {
      var n := |tasks| - 1;
      assert tasks[..n] + ([tasks[n]] + rest) == tasks + rest;
      ExecuteAllBalances(behave, w, tasks[..n], [tasks[n]] + rest, final);
      ExecuteAllLaws(behave, w, tasks, final);
      var p, r := ExecuteAll(behave, w, tasks[..n]), ExecuteAll(behave, w, tasks);
      forall t: Time ensures Of(r.log, t) == Of(r.trace, t) + (if t == r.now then rest else []) + At(r.agenda, t) {
        ExecuteBalances(behave, p, tasks[n], rest, final, t);
      }
      var e := behave(tasks[n], p.now, p.user);
      assert Later(e.requests, p.now);
      PostAllAppends(p.(user := e.user, trace := p.trace + [Event(p.now, tasks[n])]), e.requests, p.now);
      OfMember(e.requests, p.now);
    }
  }

  // ---------- time order ----------

  ghost predicate InTimeOrder<T>(es: seq<Event<T>>)
  {
    forall i, j | 0 <= i < j < |es| :: es[i].at <= es[j].at
  }

  /** Nothing that ran is later than now, or as late as anything pending, and nothing pending is overdue. */
  ghost predicate Past<T, U>(w: World<T, U>)
  {
    && InTimeOrder(w.trace)
    && (forall e | e in w.trace :: e.at <= w.now)
    && (forall e, t | e in w.trace && t in w.agenda :: e.at < t)
    && (forall t | t in w.agenda :: w.now <= t)
  }

  /** What every reachable state between ticks satisfies. */
  ghost predicate WellFormed<T, U>(w: World<T, U>) { Proper(w.agenda) && Balanced(w, []) && Past(w) }

  /** Executing appends exactly one event per task, at the current time, and only adds to the log. */
  lemma {:induction false} ExecuteAllTrace<T, U>(behave: Behaviour<T, U>, w: World<T, U>, tasks: seq<T>)
    ensures var r := ExecuteAll(behave, w, tasks);
      && r.now == w.now
      && r.trace == w.trace + seq(|tasks|, i requires 0 <= i < |tasks| => Event(w.now, tasks[i]))
      && w.log <= r.log
  {
    if tasks != [] {
      var n := |tasks| - 1;
      ExecuteAllTrace(behave, w, tasks[..n]);
      var p := ExecuteAll(behave, w, tasks[..n]);
      var e := behave(tasks[n], p.now, p.user);
      PostAllLaws(p.(user := e.user, trace := p.trace + [Event(p.now, tasks[n])]), e.requests);
      var all := seq(|tasks|, i requires 0 <= i < |tasks| => Event(w.now, tasks[i]));
      assert all == seq(n, i requires 0 <= i < n => Event(w.now, tasks[..n][i])) + [Event(w.now, tasks[n])];
    }
  }

  lemma TickKeeps<T(!new), U(!new)>(behave: Behaviour<T, U>, w: World<T, U>, final: Time)
    requires Admissible(behave, final) && w.agenda != map[] && Next(w.agenda) <= final && WellFormed(w)
    ensures var r := Tick(behave, w, Next(w.agenda));
      && WellFormed(r)
      && w.trace <= r.trace && w.log <= r.log
      && (forall e | e in r.trace :: e in w.trace || e.at == Next(w.agenda))
  {
    hide Of, ExecuteAll, Admissible;
    var t := Next(w.agenda);
    var w0, tasks := w.(now := t, agenda := w.agenda - {t}), w.agenda[t];
    TickLaws(behave, w, final);
    forall x: Time ensures Of(w0.log, x) == Of(w0.trace, x) + (if x == t then tasks + [] else []) + At(w0.agenda, x) {
      assert Of(w.log, x) == Of(w.trace, x) + [] + At(w.agenda, x);
      if x == w.now { assert Of(w.log, x) == Of(w.trace, x) + [] + At(w.agenda, x); }
    }
    ExecuteAllBalances(behave, w0, tasks, [], final);
    ExecuteAllTrace(behave, w0, tasks);
  }

  lemma AdvanceKeeps<T, U>(w: World<T, U>, final: Time)
    requires WellFormed(w) && w.now <= final && (w.agenda != map[] ==> final < Next(w.agenda))
    ensures WellFormed(w.(now := final))
  {
    var r := w.(now := final);
    forall t: Time ensures Of(r.log, t) == Of(r.trace, t) + (if t == final then [] else []) + At(r.agenda, t) {
      assert Of(w.log, t) == Of(w.trace, t) + (if t == w.now then [] else []) + At(w.agenda, t);
    }
  }

  lemma NextNotOverdue<T, U>(w: World<T, U>)
    requires WellFormed(w) && w.agenda != map[]
    ensures w.now <= Next(w.agenda)
  {}

  /** A run keeps every state well formed: tasks are conserved, time by time and in order, and the
      trace never goes back in time. It only ever extends the trace and the log. */
  lemma {:induction false} RunKeeps<T(!new), U(!new)>(behave: Behaviour<T, U>, w: World<T, U>, final: Time)
    requires Admissible(behave, final) && WellFormed(w) && w.now <= final
    ensures var r := Run(behave, w, final).world;
      && WellFormed(r) && w.now <= r.now <= final
      && w.trace <= r.trace && w.log <= r.log
      && (forall e | e in r.trace :: e in w.trace || e.at <= final)
    decreases Fuel(w.agenda, final)
  {
    hide WellFormed, Tick;
    if w.agenda == map[] {
    } else if Next(w.agenda) > final {
      AdvanceKeeps(w, final);
    } else {
      NextNotOverdue(w);
      TickLaws(behave, w, final);
      TickKeeps(behave, w, final);
      RunKeeps(behave, Tick(behave, w, Next(w.agenda)), final);
    }
  }
}
