/** The heap of times and the reference state side by side, and the event loop on the two as a value:
    what it does whatever was scheduled when, and when that is what the reference scheduler does. */
module Machines {
  import opened BucketIndex
  import opened Agendas
  import HeapModel

  // ---------- a heap of times that agrees with an agenda ----------

  /** The heap holds each pending time exactly once and nothing else. */
  ghost predicate Agree<T>(h: HeapModel.Heap, agenda: Agenda<T>)
  {
    HeapModel.Valid(h) && HeapModel.Contents(h) == multiset(agenda.Keys)
  }

  ghost predicate HeadIs(h: HeapModel.Heap, t: Time) { h.Shaped() && h.buckets[0] != [] && h.Head() == t }

  lemma AgreeOnEmpty<T>(h: HeapModel.Heap, agenda: Agenda<T>)
    requires Agree(h, agenda)
    ensures h.size == 0 <==> agenda == map[]
  {
    assert |multiset(agenda.Keys)| == |agenda.Keys|;
  }

  lemma PushAgrees<T>(h: HeapModel.Heap, agenda: Agenda<T>, t: Time, tasks: seq<T>)
    requires Agree(h, agenda)
    ensures var h' := if t in agenda then h else HeapModel.Push(h, t);
      && Agree(h', agenda[t := tasks])
      && (HeapModel.InOrder(h') <==> HeapModel.InOrder(h) && (t in agenda || agenda == map[] || h.Head() <= t))
      && HeadIs(h', if agenda != map[] then h.Head() else t)
  {
    hide HeapModel.Push, HeapModel.InOrder;
    AgreeOnEmpty(h, agenda);
    if t in agenda {
      assert agenda[t := tasks].Keys == agenda.Keys;
    } else {
      HeapModel.PushLaws(h, t);
      HeapModel.PushKeepsOrderIff(h, t);
      assert agenda[t := tasks].Keys == agenda.Keys + {t};
    }
  }

  lemma HeadIsPending<T>(h: HeapModel.Heap, agenda: Agenda<T>)
    requires Agree(h, agenda) && agenda != map[]
    ensures h.size > 0 && HeadIs(h, h.Head()) && h.Head() in agenda
    ensures HeapModel.InOrder(h) <==> h.Head() == Next(agenda)
  {
    AgreeOnEmpty(h, agenda);
    HeapModel.DropHeadLaws(h);
    assert Next(agenda) in HeapModel.Contents(h);
    forall v ensures v in HeapModel.Contents(h) <==> v in agenda {}
  }

  lemma PopAgrees<T>(h: HeapModel.Heap, agenda: Agenda<T>, t: Time)
    requires Agree(h, agenda) && agenda != map[] && HeadIs(h, t)
    ensures h.size > 0 && Agree(HeapModel.Pop(h), agenda - {t})
    ensures HeapModel.InOrder(h) ==> HeapModel.InOrder(HeapModel.Pop(h))
  {
    hide HeapModel.InOrder, HeapModel.Pop;
    AgreeOnEmpty(h, agenda);
    HeadIsPending(h, agenda);
    HeapModel.PopLaws(h);
    if HeapModel.InOrder(h) { HeapModel.PopKeepsOrder(h); }
    assert (agenda - {t}).Keys == agenda.Keys - {t};
    assert multiset(agenda.Keys - {t}) == multiset(agenda.Keys) - multiset{t};
  }

  // ---------- why the loop ends even when the heap is out of order ----------

  /** The pending times below the head: none when the heap is in order. */
  ghost function Below<T>(h: HeapModel.Heap, agenda: Agenda<T>): set<Time>
    requires Agree(h, agenda)
  {
    if agenda == map[] then {} else AgreeOnEmpty(h, agenda); set t | t in agenda && t < h.Head()
  }

  ghost function Remaining<T>(h: HeapModel.Heap, agenda: Agenda<T>, final: Time): nat
    requires Agree(h, agenda)
  {
    if agenda == map[] then 0 else AgreeOnEmpty(h, agenda); if h.Head() > final then 0 else final + 1 - h.Head()
  }

  /** Lexicographic order. */
  predicate Precedes(a: (nat, nat), b: (nat, nat)) { a.0 < b.0 || (a.0 == b.0 && a.1 < b.1) }

  lemma SubsetSize(a: set<Time>, b: set<Time>)
    requires a <= b
    ensures |a| <= |b| && (|a| == |b| ==> a == b)
  {
    assert |b - a| == |b| - |a|;
    assert b == a + (b - a);
  }

  lemma BelowKept<T>(h: HeapModel.Heap, agenda: Agenda<T>, h': HeapModel.Heap, agenda': Agenda<T>, t: Time)
    requires Agree(h, agenda) && Agree(h', agenda') && agenda != map[] && agenda' != map[]
    requires HeadIs(h, t) && HeadIs(h', t)
    requires forall x | x <= t :: x in agenda <==> x in agenda'
    ensures Below(h, agenda) == Below(h', agenda')
  {
    hide HeapModel.Valid, HeapModel.Contents;
    forall x: Time ensures x in Below(h, agenda) <==> x in Below(h', agenda') {}
  }

  /** Popping never uncovers a new time below the head; if the head goes back, it was such a time itself. */
  lemma PopProgress<T>(h: HeapModel.Heap, agenda: Agenda<T>, t: Time, final: Time)
    requires Agree(h, agenda) && agenda != map[] && HeadIs(h, t) && t <= final
    ensures h.size > 0 && Agree(HeapModel.Pop(h), agenda - {t})
    ensures var b, b' := |Below(h, agenda)|, |Below(HeapModel.Pop(h), agenda - {t})|;
      b' < b || (b' == b && Remaining(HeapModel.Pop(h), agenda - {t}, final) < Remaining(h, agenda, final))
  {
    hide HeapModel.Pop;
    AgreeOnEmpty(h, agenda);
    PopAgrees(h, agenda, t);
    HeapModel.PopLaws(h);
    var h', agenda' := HeapModel.Pop(h), agenda - {t};
    var s, s' := Below(h, agenda), Below(h', agenda');
    if agenda' != map[] {
      AgreeOnEmpty(h', agenda');
      HeadIsPending(h', agenda');
      forall x | x in s' ensures x in s {
        if t <= x { HeapModel.PopHeadBelow(h, x); }
      }
      SubsetSize(s', s);
      assert h'.Head() !in s';
      if h'.Head() < t { assert h'.Head() in s; }
    } else {
      SubsetSize(s', s);
    }
  }

  // ---------- the loop, step by step ----------

  datatype Machine<T, U> = Machine(heap: HeapModel.Heap, world: World<T, U>)

  datatype Halt<T, U> = Halt(machine: Machine<T, U>, status: RunStatus)

  ghost predicate Agrees<T, U>(m: Machine<T, U>) { Agree(m.heap, m.world.agenda) }

  ghost predicate InOrder<T, U>(m: Machine<T, U>)
    requires Agrees(m)
  {
    HeapModel.InOrder(m.heap)
  }

  ghost predicate Idle<T, U>(m: Machine<T, U>) { m.world.agenda == map[] }

  ghost function Head<T, U>(m: Machine<T, U>): (t: Time)
    requires Agrees(m) && !Idle(m)
    ensures t in m.world.agenda
  {
    HeadIsPending(m.heap, m.world.agenda);
    m.heap.Head()
  }

  /** A time enters the heap with its first task. */
  ghost function Schedule<T, U>(m: Machine<T, U>, r: Event<T>): (n: Machine<T, U>)
    requires Agrees(m)
    ensures Agrees(n) && n.world == Post(m.world, r)
  {
    PushAgrees(m.heap, m.world.agenda, r.at, At(m.world.agenda, r.at) + [r.task]);
    Machine(if r.at in m.world.agenda then m.heap else HeapModel.Push(m.heap, r.at), Post(m.world, r))
  }

  ghost function ScheduleAll<T, U>(m: Machine<T, U>, rs: seq<Event<T>>): (n: Machine<T, U>)
    requires Agrees(m)
    ensures Agrees(n) && n.world == PostAll(m.world, rs)
  {
    if rs == [] then m else Schedule(ScheduleAll(m, rs[..|rs| - 1]), rs[|rs| - 1])
  }

  /** The machine as a task leaves it before its requests are filed. */
  function Changed<T, U>(behave: Behaviour<T, U>, m: Machine<T, U>, task: T): Machine<T, U>
  {
    var w := m.world;
    m.(world := w.(user := behave(task, w.now, w.user).user, trace := w.trace + [Event(w.now, task)]))
  }

  ghost function RunTask<T, U>(behave: Behaviour<T, U>, m: Machine<T, U>, task: T): (n: Machine<T, U>)
    requires Agrees(m)
    ensures Agrees(n) && n.world == Execute(behave, m.world, task)
  {
    ScheduleAll(Changed(behave, m, task), behave(task, m.world.now, m.world.user).requests)
  }

  ghost function RunTasks<T, U>(behave: Behaviour<T, U>, m: Machine<T, U>, tasks: seq<T>): (n: Machine<T, U>)
    requires Agrees(m)
    ensures Agrees(n) && n.world == ExecuteAll(behave, m.world, tasks)
  {
    if tasks == [] then m else RunTask(behave, RunTasks(behave, m, tasks[..|tasks| - 1]), tasks[|tasks| - 1])
  }

  function Advanced<T, U>(m: Machine<T, U>, t: Time): Machine<T, U> { m.(world := m.world.(now := t)) }

  /** The time at the head leaves heap and agenda. */
  ghost function Retire<T, U>(m: Machine<T, U>): (n: Machine<T, U>)
    requires Agrees(m) && !Idle(m)
    ensures Agrees(n)
  {
    HeadIsPending(m.heap, m.world.agenda);
    PopAgrees(m.heap, m.world.agenda, Head(m));
    Machine(HeapModel.Pop(m.heap), Without(m.world, Head(m)))
  }

  /** The tasks at the head run while their time is still in the heap. */
  ghost function RunTick<T(!new), U(!new)>(behave: Behaviour<T, U>, m: Machine<T, U>, final: Time): (n: Machine<T, U>)
    requires Agrees(m) && !Idle(m) && Head(m) <= final && Admissible(behave, final)
    ensures Agrees(n)
  {
    TasksKeepHead(behave, Advanced(m, Head(m)), m.world.agenda[Head(m)], final);
    Retire(RunTasks(behave, Advanced(m, Head(m)), m.world.agenda[Head(m)]))
  }

  ghost function Progress<T, U>(m: Machine<T, U>, final: Time): (nat, nat)
    requires Agrees(m)
  {
    (|Below(m.heap, m.world.agenda)|, Remaining(m.heap, m.world.agenda, final))
  }

  /** The loop follows the head of the heap, whether or not that is the earliest pending time. */
  ghost function Loop<T(!new), U(!new)>(behave: Behaviour<T, U>, m: Machine<T, U>, final: Time): (r: Halt<T, U>)
    requires Agrees(m) && Admissible(behave, final)
    ensures Agrees(r.machine)
    decreases Progress(m, final).0, Progress(m, final).1
  {
    if Idle(m) then Halt(m, STOPPED)
    else if Head(m) > final then Halt(Advanced(m, final), EVENTS_IN_QUEUE)
    else
      TickProgress(behave, m, final);
      Loop(behave, RunTick(behave, m, final), final)
  }

  lemma LoopUnfolds<T(!new), U(!new)>(behave: Behaviour<T, U>, m: Machine<T, U>, final: Time)
    requires Agrees(m) && Admissible(behave, final)
    ensures Loop(behave, m, final) ==
      if Idle(m) then Halt(m, STOPPED)
      else if Head(m) > final then Halt(Advanced(m, final), EVENTS_IN_QUEUE)
      else Loop(behave, RunTick(behave, m, final), final)
  {}

  // ---------- what the steps do to order and head ----------

  lemma ScheduleLaws<T, U>(m: Machine<T, U>, r: Event<T>)
    requires Agrees(m)
    ensures var n := Schedule(m, r);
      && !Idle(n) && Head(n) == (if Idle(m) then r.at else Head(m))
      && (InOrder(n) <==> InOrder(m) && (r.at in m.world.agenda || Idle(m) || Head(m) <= r.at))
  {
    hide HeapModel.Push, HeapModel.InOrder, HeapModel.Valid, HeapModel.Contents;
    PushAgrees(m.heap, m.world.agenda, r.at, At(m.world.agenda, r.at) + [r.task]);
    assert r.at in Schedule(m, r).world.agenda;
  }

  /** In the middle of the tick at the head. */
  ghost predicate Ticking<T, U>(m: Machine<T, U>) { Agrees(m) && !Idle(m) && Head(m) == m.world.now }

  lemma {:induction false} RequestsKeepHead<T, U>(m: Machine<T, U>, rs: seq<Event<T>>)
    requires Ticking(m) && Later(rs, m.world.now)
    ensures var n := ScheduleAll(m, rs);
      Ticking(n) && n.world.now == m.world.now && (InOrder(n) <==> InOrder(m))
  {
    hide Schedule, InOrder, Agrees, Head;
    if rs != [] {
      var p, r := rs[..|rs| - 1], rs[|rs| - 1];
      RequestsKeepHead(m, p);
      assert r in rs;
      ScheduleLaws(ScheduleAll(m, p), r);
    }
  }

  /** A running task's own time stays at the head, so its requests, all later, keep the heap's order. */
  lemma {:induction false} TasksKeepHead<T(!new), U(!new)>(
    behave: Behaviour<T, U>, m: Machine<T, U>, tasks: seq<T>, final: Time)
    requires Ticking(m) && m.world.now <= final && Admissible(behave, final)
    ensures var n := RunTasks(behave, m, tasks);
      Ticking(n) && n.world.now == m.world.now && (InOrder(n) <==> InOrder(m))
  {
    hide ScheduleAll, InOrder, Agree, Head;
    if tasks != [] {
      var task := tasks[|tasks| - 1];
      TasksKeepHead(behave, m, tasks[..|tasks| - 1], final);
      var p := RunTasks(behave, m, tasks[..|tasks| - 1]);
      var rs := behave(task, p.world.now, p.world.user).requests;
      assert Later(rs, p.world.now);
      SameHeap(p, Changed(behave, p, task));
      RequestsKeepHead(Changed(behave, p, task), rs);
    }
  }

  /** Order and head depend on the heap alone. */
  lemma SameHeap<T, U>(m: Machine<T, U>, n: Machine<T, U>)
    requires Agrees(m) && n.heap == m.heap && n.world.agenda == m.world.agenda
    ensures Agrees(n) && (InOrder(n) <==> InOrder(m)) && (!Idle(m) ==> Head(n) == Head(m))
  {}

  lemma HeadLaws<T, U>(m: Machine<T, U>)
    requires Agrees(m) && !Idle(m)
    ensures Next(m.world.agenda) <= Head(m)
    ensures InOrder(m) <==> Head(m) == Next(m.world.agenda)
  {
    HeadIsPending(m.heap, m.world.agenda);
  }

  lemma RetireLaws<T, U>(m: Machine<T, U>, final: Time)
    requires Agrees(m) && !Idle(m) && Head(m) <= final
    ensures var n := Retire(m);
      && n.world == Without(m.world, Head(m))
      && (InOrder(m) ==> InOrder(n))
      && Precedes(Progress(n, final), Progress(m, final))
  {
    hide HeapModel.Valid, HeapModel.InOrder, HeapModel.Contents, HeapModel.Pop, Below, Remaining;
    HeadIsPending(m.heap, m.world.agenda);
    PopAgrees(m.heap, m.world.agenda, Head(m));
    PopProgress(m.heap, m.world.agenda, Head(m), final);
  }

  /** The machine after the tasks of the tick and before their time is retired. */
  ghost function Worked<T, U>(behave: Behaviour<T, U>, m: Machine<T, U>): Machine<T, U>
    requires Agrees(m) && !Idle(m)
  {
    RunTasks(behave, Advanced(m, Head(m)), m.world.agenda[Head(m)])
  }

  lemma WorkedTicks<T(!new), U(!new)>(behave: Behaviour<T, U>, m: Machine<T, U>, final: Time)
    requires Agrees(m) && !Idle(m) && Head(m) <= final && Admissible(behave, final)
    ensures var n := Worked(behave, m);
      && Ticking(n) && n.world.now == Head(m) && (InOrder(n) <==> InOrder(m))
      && RunTick(behave, m, final) == Retire(n)
  {
    hide Agree, HeapModel.InOrder, Head, RunTasks, Admissible;
    var a := Advanced(m, Head(m));
    SameHeap(m, a);
    TasksKeepHead(behave, a, m.world.agenda[Head(m)], final);
  }

  lemma WorkedIsTick<T(!new), U(!new)>(behave: Behaviour<T, U>, m: Machine<T, U>, final: Time)
    requires Agrees(m) && !Idle(m) && Head(m) <= final && Admissible(behave, final)
    ensures var n := Worked(behave, m).world;
      && Without(n, Head(m)) == Tick(behave, m.world, Head(m))
      && forall t | t <= Head(m) :: t in n.agenda <==> t in m.world.agenda
  {
    hide Agree, Head, ExecuteAll, Admissible;
    var w := Advanced(m, Head(m)).world;
    ExecuteAllWithout(behave, w, m.world.agenda[Head(m)], final);
    ExecuteAllLaws(behave, w, m.world.agenda[Head(m)], final);
  }

  lemma SameProgress<T, U>(m: Machine<T, U>, n: Machine<T, U>, final: Time)
    requires Agrees(m) && Agrees(n) && !Idle(m) && !Idle(n) && Head(m) == Head(n)
    requires forall t | t <= Head(m) :: t in n.world.agenda <==> t in m.world.agenda
    ensures Progress(n, final) == Progress(m, final)
  {
    hide HeapModel.Valid, HeapModel.InOrder, HeapModel.Contents, Below;
    HeadIsPending(m.heap, m.world.agenda);
    HeadIsPending(n.heap, n.world.agenda);
    BelowKept(m.heap, m.world.agenda, n.heap, n.world.agenda, Head(m));
  }

  /** One iteration is a tick of the reference scheduler at the head of the heap. */
  lemma RunTickLaws<T(!new), U(!new)>(behave: Behaviour<T, U>, m: Machine<T, U>, final: Time)
    requires Agrees(m) && !Idle(m) && Head(m) <= final && Admissible(behave, final)
    ensures var n := RunTick(behave, m, final);
      && n.world == Tick(behave, m.world, Head(m))
      && (InOrder(m) ==> InOrder(n))
      && Precedes(Progress(n, final), Progress(m, final))
  {
    hide Agree, HeapModel.InOrder, Head, Retire, Worked, Progress, RunTick, Tick, Admissible;
    WorkedTicks(behave, m, final);
    WorkedIsTick(behave, m, final);
    SameProgress(m, Worked(behave, m), final);
    RetireLaws(Worked(behave, m), final);
  }

  /** Fewer times lie below the head, or the head has moved up towards `final`. */
  lemma TickProgress<T(!new), U(!new)>(behave: Behaviour<T, U>, m: Machine<T, U>, final: Time)
    requires Agrees(m) && !Idle(m) && Head(m) <= final && Admissible(behave, final)
    ensures Precedes(Progress(RunTick(behave, m, final), final), Progress(m, final))
  {
    RunTickLaws(behave, m, final);
  }
}
