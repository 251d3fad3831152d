/** Two concrete runs of the context that its documentation rules out. */
module ContextExamples {
  import opened BucketIndex
  import opened Agendas
  import opened AgendaRuns
  import opened Machines
  import opened MachineRuns
  import opened Contexts
  import HeapModel

  /** With a task pending at 10, run to 1, schedule for 5 and run to 7: the clock reaches 7 and the task
      at 5 has not run. */
  method MissedEvent() returns (ctx: Context<int, int>)
    ensures ctx.currentTime == 7 && ctx.trace == [] && ctx.Pending() == map[5 := [2], 10 := [1]]
  {
    hide HeapModel.Valid, HeapModel.InOrder, HeapModel.Contents, Agendas.Run, Agree, WellFormed;
    ctx := PendingAtTen();
    ghost var m := ctx.Machine();
    ctx.ScheduleAt(5, 2);
    assert [] + [2] == [2] && ctx.Pending() == map[5 := [2], 10 := [1]];
    ScheduleLaws(m, Event(5, 2));
    LoopUnfolds(ctx.behave, ctx.Machine(), 7);
    var r := ctx.RunAt(7);
  }

  method PendingAtTen() returns (ctx: Context<int, int>)
    ensures fresh(ctx.Repr()) && ctx.Valid() && ctx.state == RUNNING && ctx.behave == Idling<int, int>()
    ensures ctx.currentTime == 1 && ctx.trace == [] && ctx.Pending() == map[10 := [1]] && Head(ctx.Machine()) == 10
  {
    hide HeapModel.Valid, HeapModel.InOrder, HeapModel.Contents, Agendas.Run, Agree, WellFormed;
    ctx := new Context(Idling<int, int>(), 0);
    ctx.ScheduleAt(10, 1);
    assert [] + [1] == [1] && ctx.Pending() == map[10 := [1]];
    assert SetUpAll(ctx.World(), []) == ctx.World();
    RunUnfolds(Idling<int, int>(), ctx.World(), 1);
    assert 10 in ctx.World().agenda;
    var r := ctx.RunAt(1);
    assert Head(ctx.Machine()) in ctx.Pending();
  }

  /** The reference scheduler runs that task. */
  lemma MissedByReference()
    ensures Admissible(Idling<int, int>(), 7)
    ensures Agendas.Run(Idling<int, int>(), World(1, map[5 := [2], 10 := [1]], 0, [], []), 7).world.trace ==
      [Event(5, 2)]
  {
    var behave := Idling<int, int>();
    var w := Agendas.World(1, map[5 := [2], 10 := [1]], 0, [], []);
    assert 5 in w.agenda;
    assert Next(w.agenda) == 5;
    var v := Tick(behave, w, 5);
    ExecuteAllTrace(behave, w.(now := 5, agenda := w.agenda - {5}), [2]);
    RunUnfolds(behave, w, 7);
    RunUnfolds(behave, v, 7);
  }

  /** With one task, at 3, a run of 10 ends at 3. */
  method ClockStaysAtThree() returns (ctx: Context<int, int>)
    ensures ctx.currentTime == 3 && ctx.trace == [Event(3, 1)]
  {
    hide HeapModel.Valid, HeapModel.InOrder, HeapModel.Contents, Agendas.Run, Agree, WellFormed;
    ctx := new Context(Idling<int, int>(), 0);
    ctx.ScheduleAt(3, 1);
    assert [] + [1] == [1] && ctx.World() == World(0, map[3 := [1]], 0, [], [Event(3, 1)]);
    assert SetUpAll(ctx.World(), []) == ctx.World();
    OneTaskAtThree();
    var r := ctx.Run(10);
  }
}
