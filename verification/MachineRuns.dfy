/** Whole runs of the event loop: when a run is that of the reference scheduler, what a request between
    two runs changes about that, and what every state reached by requests and runs satisfies. */
module MachineRuns {
  import opened BucketIndex
  import opened Agendas
  import opened AgendaRuns
  import opened Machines
  import HeapModel

  // ---------- a run of the loop against the reference run ----------

  ghost predicate Follows<T(!new), U(!new)>(behave: Behaviour<T, U>, m: Machine<T, U>, final: Time)
    requires Agrees(m) && Admissible(behave, final)
  {
    var r := Loop(behave, m, final);
    Outcome(r.machine.world, r.status) == Run(behave, m.world, final)
  }

  lemma {:induction false} OrderedFollows<T(!new), U(!new)>(behave: Behaviour<T, U>, m: Machine<T, U>, final: Time)
    requires Agrees(m) && InOrder(m) && Admissible(behave, final)
    ensures Follows(behave, m, final) && InOrder(Loop(behave, m, final).machine)
    decreases Progress(m, final).0, Progress(m, final).1
  {
    hide Agree, InOrder, Head, Progress, RunTick, Tick, Loop, Run, Admissible;
    LoopUnfolds(behave, m, final);
    RunUnfolds(behave, m.world, final);
    if !Idle(m) {
      HeadLaws(m);
      if Head(m) <= final {
        RunTickLaws(behave, m, final);
        OrderedFollows(behave, RunTick(behave, m, final), final);
      } else {
        SameHeap(m, Advanced(m, final));
      }
    }
  }

  /** A loop starts with a task at the head of the heap when that is due. */
  lemma {:induction false} LoopStartsAtHead<T(!new), U(!new)>(behave: Behaviour<T, U>, m: Machine<T, U>, final: Time)
    requires Agrees(m) && Admissible(behave, final) && Proper(m.world.agenda)
    ensures var r := Loop(behave, m, final).machine.world.trace;
      && m.world.trace <= r
      && (!Idle(m) && Head(m) <= final ==> |m.world.trace| < |r| && r[|m.world.trace|].at == Head(m))
    decreases Progress(m, final).0, Progress(m, final).1
  {
    hide Agree, Head, Progress, RunTick, Loop, Admissible;
    LoopUnfolds(behave, m, final);
    if !Idle(m) && Head(m) <= final {
      var n := RunTick(behave, m, final);
      RunTickLaws(behave, m, final);
      TickFirst(behave, m.world, Head(m), final);
      LoopStartsAtHead(behave, n, final);
    }
  }

  ghost predicate Due<T, U>(m: Machine<T, U>, final: Time) { exists t :: t in m.world.agenda && t <= final }

  lemma DueIff<T, U>(m: Machine<T, U>, final: Time)
    ensures Due(m, final) <==> !Idle(m) && Next(m.world.agenda) <= final
  {
    if !Idle(m) { assert Next(m.world.agenda) in m.world.agenda; }
  }

  /** A run, whatever order the heap is in, is that of the reference scheduler exactly when the heap is
      in order, or nothing at all is due. */
  lemma FollowsIff<T(!new), U(!new)>(behave: Behaviour<T, U>, m: Machine<T, U>, final: Time)
    requires Agrees(m) && Admissible(behave, final) && Proper(m.world.agenda)
    ensures Follows(behave, m, final) <==> InOrder(m) || !Due(m, final)
  {
    hide Agree, InOrder, Head, Progress, RunTick, Tick, Loop, Run, Admissible, Due;
    DueIff(m, final);
    LoopUnfolds(behave, m, final);
    RunUnfolds(behave, m.world, final);
    if InOrder(m) {
      OrderedFollows(behave, m, final);
    } else if !Idle(m) {
      HeadLaws(m);
      if Next(m.world.agenda) <= final {
        LoopStartsAtHead(behave, m, final);
        RunStartsAtNext(behave, m.world, final);
      }
    } else {
      IdleIsInOrder(m);
    }
  }

  lemma IdleIsInOrder<T, U>(m: Machine<T, U>)
    requires Agrees(m) && Idle(m)
    ensures InOrder(m)
  {
    AgreeOnEmpty(m.heap, m.world.agenda);
  }

  /** A request keeps the heap in order exactly when nothing is pending or its target is no earlier than
      the earliest pending time. */
  lemma ScheduleKeepsOrderIff<T, U>(m: Machine<T, U>, r: Event<T>)
    requires Agrees(m)
    ensures InOrder(Schedule(m, r)) <==> InOrder(m) && (Idle(m) || Next(m.world.agenda) <= r.at)
  {
    hide Agree, HeapModel.InOrder, Head, Schedule;
    ScheduleLaws(m, r);
    if !Idle(m) { HeadLaws(m); }
  }

  // ---------- scheduling between two runs ----------

  /** After a request between two runs, the next run does what the reference scheduler does exactly
      when nothing was pending, or the target is no earlier than the earliest pending time, or it lies
      beyond the horizon. The documentation only asks for a target in the future. */
  lemma BetweenRunsOnce<T(!new), U(!new)>(behave: Behaviour<T, U>, m: Machine<T, U>, r: Event<T>, final: Time)
    requires Agrees(m) && InOrder(m) && Proper(m.world.agenda) && Admissible(behave, final)
    ensures Follows(behave, Schedule(m, r), final) <==>
      Idle(m) || Next(m.world.agenda) <= r.at || final < r.at
  {
    hide Agree, InOrder, Head, Schedule, Loop, Follows, Admissible, Due;
    var n := Schedule(m, r);
    DueIff(n, final);
    ScheduleLaws(m, r);
    FollowsIff(behave, n, final);
    HeadLaws(n);
    if !Idle(m) {
      HeadLaws(m);
      if r.at < Next(m.world.agenda) { assert Next(n.world.agenda) == r.at; }
    }
  }

  /** No horizon tells the loop from the reference scheduler exactly when nothing was pending or the
      target is no earlier than the earliest pending time. */
  lemma BetweenRunsIff<T(!new), U(!new)>(behave: Behaviour<T, U>, m: Machine<T, U>, r: Event<T>)
    requires Agrees(m) && InOrder(m) && Proper(m.world.agenda) && m.world.now < r.at && Admissible(behave, r.at)
    ensures (forall final: Time | m.world.now < final && Admissible(behave, final) ::
      Follows(behave, Schedule(m, r), final))
      <==> Idle(m) || Next(m.world.agenda) <= r.at
  {
    hide Agree, InOrder, Schedule, Follows, Admissible;
    forall final: Time | m.world.now < final && Admissible(behave, final)
      ensures Follows(behave, Schedule(m, r), final) <==> Idle(m) || Next(m.world.agenda) <= r.at || final < r.at
    {
      BetweenRunsOnce(behave, m, r, final);
    }
  }

  // ---------- what requests keep ----------

  /** A request strictly after everything that ran, and not before now, keeps a state well formed. */
  lemma PostKeeps<T, U>(w: World<T, U>, r: Event<T>)
    requires WellFormed(w) && w.now <= r.at && forall e | e in w.trace :: e.at < r.at
    ensures WellFormed(Post(w, r))
  {
    hide Of;
    var p := Post(w, r);
    forall t: Time ensures Of(p.log, t) == Of(p.trace, t) + (if t == p.now then [] else []) + At(p.agenda, t) {
      OfConcat(w.log, [r], t);
      OfOne(r, t);
      assert Of(w.log, t) == Of(w.trace, t) + (if t == w.now then [] else []) + At(w.agenda, t);
      var done, pending := Of(w.trace, t), At(w.agenda, t);
      assert done + [] + pending + [r.task] == done + [] + (pending + [r.task]);
    }
  }

  lemma OfOne<T>(r: Event<T>, t: Time)
    ensures Of([r], t) == if r.at == t then [r.task] else []
  {
    assert [r][..0] == [];
  }

  lemma {:induction false} PostAllKeeps<T, U>(w: World<T, U>, rs: seq<Event<T>>)
    requires WellFormed(w) && w.trace == [] && w.now == 0
    ensures var r := PostAll(w, rs); WellFormed(r) && r.trace == [] && r.now == 0
  {
    hide WellFormed;
    if rs != [] {
      PostAllKeeps(w, rs[..|rs| - 1]);
      PostKeeps(PostAll(w, rs[..|rs| - 1]), rs[|rs| - 1]);
    }
  }

  // ---------- every reachable state ----------

  /** What an owner of a running context may do between two runs. */
  datatype Call<T> = Request(event: Event<T>) | RunTo(final: Time)

  /** `call` takes the context from `m` to `n`; its guards are those the source asserts. */
  ghost predicate Serves<T(!new), U(!new)>(behave: Behaviour<T, U>, m: Machine<T, U>, call: Call<T>, n: Machine<T, U>)
  {
    Agrees(m) && match call
      case Request(e) => m.world.now < e.at && n == Schedule(m, e)
      case RunTo(final) => m.world.now < final && Admissible(behave, final) && n == Loop(behave, m, final).machine
  }

  /** The same by the reference scheduler. */
  ghost predicate ServesByReference<T(!new), U(!new)>(
    behave: Behaviour<T, U>, w: World<T, U>, call: Call<T>, v: World<T, U>)
  {
    match call
    case Request(e) => v == Post(w, e)
    case RunTo(final) => Admissible(behave, final) && v == Run(behave, w, final).world
  }

  /** The bound the source does not assert. */
  ghost predicate Bounded<T, U>(m: Machine<T, U>, call: Call<T>)
  {
    call.Request? ==> Idle(m) || Next(m.world.agenda) <= call.event.at
  }

  ghost predicate Sound<T, U>(m: Machine<T, U>) { Agrees(m) && InOrder(m) && WellFormed(m.world) }

  lemma CallKeeps<T(!new), U(!new)>(behave: Behaviour<T, U>, m: Machine<T, U>, call: Call<T>, n: Machine<T, U>)
    requires Sound(m) && Serves(behave, m, call, n)
    ensures Agrees(n)
    ensures Bounded(m, call) ==> Sound(n) && ServesByReference(behave, m.world, call, n.world)
    ensures !Bounded(m, call) ==> !Sound(n)
  {
    hide Agree, InOrder, Head, Schedule, Loop, Admissible, Run;
    match call
    case Request(e) =>
      ScheduleLaws(m, e);
      if !Idle(m) { HeadLaws(m); }
      PostKeeps(m.world, e);
    case RunTo(final) =>
      OrderedFollows(behave, m, final);
      RunKeeps(behave, m.world, final);
  }

  lemma {:induction false} BoundedIsSound<T(!new), U(!new)>(
    behave: Behaviour<T, U>, ms: seq<Machine<T, U>>, calls: seq<Call<T>>, i: nat)
    requires |ms| == |calls| + 1 && Sound(ms[0]) && i <= |calls|
    requires forall k | 0 <= k < |calls| :: Serves(behave, ms[k], calls[k], ms[k + 1])
    requires forall k | 0 <= k < i :: Bounded(ms[k], calls[k])
    ensures Sound(ms[i])
  {
    hide Sound, Serves, Bounded;
    if i > 0 {
      BoundedIsSound(behave, ms, calls, i - 1);
      CallKeeps(behave, ms[i - 1], calls[i - 1], ms[i]);
    }
  }

  /** Over any sequence of requests and runs, every state is sound exactly when every request meets the
      bound, and then each call does what the reference scheduler does. */
  lemma EveryReachableState<T(!new), U(!new)>(behave: Behaviour<T, U>, ms: seq<Machine<T, U>>, calls: seq<Call<T>>)
    requires |ms| == |calls| + 1 && Sound(ms[0])
    requires forall k | 0 <= k < |calls| :: Serves(behave, ms[k], calls[k], ms[k + 1])
    ensures (forall k | 0 <= k < |ms| :: Sound(ms[k])) <==> forall k | 0 <= k < |calls| :: Bounded(ms[k], calls[k])
    ensures (forall k | 0 <= k < |ms| :: Sound(ms[k])) ==>
      forall k | 0 <= k < |calls| :: ServesByReference(behave, ms[k].world, calls[k], ms[k + 1].world)
  {
    hide Sound, Serves, Bounded, ServesByReference;
    if forall k | 0 <= k < |calls| :: Bounded(ms[k], calls[k]) {
      forall k | 0 <= k < |ms| ensures Sound(ms[k]) { BoundedIsSound(behave, ms, calls, k); }
    }
    if forall k | 0 <= k < |ms| :: Sound(ms[k]) {
      forall k | 0 <= k < |calls|
        ensures Bounded(ms[k], calls[k]) && ServesByReference(behave, ms[k].world, calls[k], ms[k + 1].world)
      {
        CallKeeps(behave, ms[k], calls[k], ms[k + 1]);
      }
    }
  }
}
