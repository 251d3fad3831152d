/** The simulation context: a map from times to task lists and a radix heap of times, kept in step
    while the loop drives simulated time forward. Each method is proved to do what the machine in
    Machine.dfy does, and whole runs are compared with the reference scheduler in Agenda.dfy. */
module Contexts {
  import opened BucketIndex
  import opened Agendas
  import opened Machines
  import opened MachineRuns
  import HeapModel
  import opened RadixHeaps

  datatype State = INITIALIZATION | PORT_CONNECTION | RUNNING | STOPPED | ERROR

  /** What initializing one module does: a user state, the events it schedules, and whether it succeeded. */
  datatype Setup<T, U> = Setup(user: U, requests: seq<Event<T>>, success: bool)

  type Module<!T, !U> = U -> Setup<T, U>

  datatype RunResult = Ran(status: RunStatus) | InitializationFailed

  // ---------- what initialization does to the reference state ----------

  function SetUp<T, U>(w: World<T, U>, m: Module<T, U>): World<T, U>
  {
    var s := m(w.user);
    PostAll(w.(user := s.user), s.requests)
  }

  function SetUpAll<T, U>(w: World<T, U>, ms: seq<Module<T, U>>): World<T, U>
  {
    if ms == [] then w else SetUp(SetUpAll(w, ms[..|ms| - 1]), ms[|ms| - 1])
  }

  /** Setting the modules up one after the other: the user states they hand on, and the requests so far. */
  ghost predicate SetsUp<T, U>(
    ms: seq<Module<T, U>>, user: U, log: seq<Event<T>>, users: seq<U>, logs: seq<seq<Event<T>>>)
  {
    && |users| == |logs| == |ms| + 1 && users[0] == user && logs[0] == log
    && forall k | 0 <= k < |ms| ::
         users[k + 1] == ms[k](users[k]).user && logs[k + 1] == logs[k] + ms[k](users[k]).requests
  }

  /** Every module is set up with what the one before it left, even after a failure, and all their
      requests are made. */
  lemma SetUpAllIsInTurn<T, U>(
    w: World<T, U>, ms: seq<Module<T, U>>, users: seq<U>, logs: seq<seq<Event<T>>>, k: nat)
    requires SetsUp(ms, w.user, w.log, users, logs) && k <= |ms|
    ensures var r := SetUpAll(w, ms[..k]);
      r.user == users[k] && r.log == logs[k] && r.now == w.now && r.trace == w.trace
  {
    if k > 0 {
      SetUpAllIsInTurn(w, ms, users, logs, k - 1);
      assert ms[..k][..k - 1] == ms[..k - 1];
      var p := SetUpAll(w, ms[..k - 1]);
      var s := ms[k - 1](p.user);
      PostAllLaws(p.(user := s.user), s.requests);
    }
  }

  lemma SetUpExists<T, U>(ms: seq<Module<T, U>>, user: U, log: seq<Event<T>>)
    returns (users: seq<U>, logs: seq<seq<Event<T>>>)
    ensures SetsUp(ms, user, log, users, logs)
  {
    if ms == [] {
      users, logs := [user], [log];
    } else {
      var n := |ms| - 1;
      users, logs := SetUpExists(ms[..n], user, log);
      var s := ms[n](users[n]);
      users, logs := users + [s.user], logs + [logs[n] + s.requests];
    }
  }

  lemma SetUpNone<T, U>(w: World<T, U>, ms: seq<Module<T, U>>)
    ensures SetUpAll(w, ms[..0]) == w
  {}

  lemma SetUpOneMore<T, U>(w: World<T, U>, ms: seq<Module<T, U>>, k: nat)
    requires k < |ms|
    ensures SetUpAll(w, ms[..k + 1]) == SetUp(SetUpAll(w, ms[..k]), ms[k])
  {
    assert ms[..k + 1][..k] == ms[..k];
  }

  /** Initialization may schedule for any time, zero included, and leaves a well-formed state. */
  lemma {:induction false} SetUpAllKeeps<T, U>(w: World<T, U>, ms: seq<Module<T, U>>)
    requires WellFormed(w) && w.trace == [] && w.now == 0
    ensures var r := SetUpAll(w, ms); WellFormed(r) && r.trace == [] && r.now == 0
  {
    hide WellFormed;
    if ms != [] {
      SetUpAllKeeps(w, ms[..|ms| - 1]);
      var p := SetUpAll(w, ms[..|ms| - 1]);
      var s := ms[|ms| - 1](p.user);
      UserIsFree(p, s.user);
      PostAllKeeps(p.(user := s.user), s.requests);
    }
  }

  lemma UserIsFree<T, U>(w: World<T, U>, user: U)
    requires WellFormed(w)
    ensures WellFormed(w.(user := user))
  {
    hide Of, At;
    var v := w.(user := user);
    forall t: Time ensures Of(v.log, t) == Of(v.trace, t) + (if t == v.now then [] else []) + At(v.agenda, t) {
      assert Of(w.log, t) == Of(w.trace, t) + (if t == w.now then [] else []) + At(w.agenda, t);
    }
  }

  lemma RequestKeeps<T, U>(w: World<T, U>, r: Event<T>)
    requires WellFormed(w) && (w.now < r.at || (w.now == 0 && w.trace == []))
    ensures WellFormed(Post(w, r))
  {
    PostKeeps(w, r);
  }

  // ---------- sorting, as the standard library does ----------

  predicate Ascending(s: seq<Time>) { forall i, j | 0 <= i < j < |s| :: s[i] < s[j] }

  lemma AscendingCons(a: Time, rest: seq<Time>)
    requires Ascending(rest) && forall y | y in rest :: a < y
    ensures Ascending([a] + rest)
  {
    assert forall j | 0 <= j < |rest| :: rest[j] in rest;
  }

  function Insert(s: seq<Time>, x: Time): (r: seq<Time>)
    requires Ascending(s) && x !in s
    ensures Ascending(r) && |r| == |s| + 1 && forall y :: y in r <==> y in s || y == x
  {
    if s == [] || x < s[0] then [x] + s
    else
      var rest := Insert(s[1..], x);
      assert s == [s[0]] + s[1..];
      AscendingCons(s[0], rest);
      [s[0]] + rest
  }

  class Context<T(!new), U(!new)> {
    const behave: Behaviour<T, U>
    const nextTickHeap: RadixHeap
    var state: State
    var currentTime: Time
    var scheduledTasks: map<Time, seq<T>>
    var modules: seq<Module<T, U>>
    var user: U
    ghost var trace: seq<Event<T>>
    ghost var log: seq<Event<T>>

    ghost function Repr(): set<object> { {this} + nextTickHeap.Repr() }

    /** The times that have tasks; the map also keeps the times whose list has been cleared. */
    ghost function Pending(): Agenda<T>
      reads this
    {
      map t | t in scheduledTasks && scheduledTasks[t] != [] :: scheduledTasks[t]
    }

    ghost function World(): World<T, U>
      reads this
    {
      Agendas.World(currentTime, Pending(), user, trace, log)
    }

    ghost function Machine(): Machine<T, U>
      reads Repr()
    {
      Machines.Machine(nextTickHeap.State(), World())
    }

    /** Before initialization the heap is empty; from then on it holds each pending time exactly once. */
    ghost predicate Valid()
      reads Repr()
    {
      && nextTickHeap.Valid()
      && (state == INITIALIZATION ==> Pending() == scheduledTasks && nextTickHeap.State() == HeapModel.EMPTY)
      && (state != INITIALIZATION ==> Agrees(Machine()))
    }

    /** The head of the heap is the earliest pending time. */
    ghost predicate Ordered()
      requires Valid()
      reads Repr()
    {
      state != INITIALIZATION ==> InOrder(Machine())
    }

    /** A request for `target` keeps the heap in order: the bound that the source does not assert. */
    ghost predicate Admits(target: Time)
      requires Valid()
      reads Repr()
    {
      state == INITIALIZATION || (Ordered() && (Pending() == map[] || Next(Pending()) <= target))
    }

    /** What every reachable state satisfies, as long as requests between runs meet the bound. */
    ghost predicate Reachable()
      reads Repr()
    {
      && Valid() && Ordered() && WellFormed(World())
      && (state == INITIALIZATION ==> currentTime == 0 && trace == [])
    }

    constructor (behave: Behaviour<T, U>, user: U)
      ensures Reachable() && fresh(Repr())
      ensures state == INITIALIZATION && modules == [] && this.behave == behave
      ensures World() == Agendas.World(0, map[], user, [], [])
    {
      this.behave := behave;
      nextTickHeap := new RadixHeap();
      state, currentTime, scheduledTasks, modules := INITIALIZATION, 0, map[], [];
      this.user, trace, log := user, [], [];
    }

    method Add(m: Module<T, U>)
      modifies `modules
      ensures modules == old(modules) + [m]
    {
      modules := modules + [m];
    }

    /** The heap stays in order exactly when, once running, it was in order and the target is no earlier
        than the earliest pending time. The guard of the source does not ask for that. */
    method ScheduleAt(target: Time, task: T)
      requires Valid()
      requires state == INITIALIZATION || target > currentTime
      modifies this`scheduledTasks, this`log, nextTickHeap.Repr()
      ensures Valid() && World() == Post(old(World()), Event(target, task))
      ensures state != INITIALIZATION ==> Machine() == Schedule(old(Machine()), Event(target, task))
      ensures Ordered() <==> old(Admits(target))
      ensures old(Reachable()) && Ordered() ==> Reachable()
    {
      hide HeapModel.Push, HeapModel.Valid, HeapModel.InOrder, Agree, WellFormed;
      ghost var m, w, before := Machine(), World(), Pending();
      var tasks := (if target in scheduledTasks then scheduledTasks[target] else []) + [task];
      scheduledTasks := scheduledTasks[target := tasks];
      log := log + [Event(target, task)];
      assert tasks == At(before, target) + [task];
      assert Pending() == before[target := tasks];
      if old(Reachable()) { RequestKeeps(w, Event(target, task)); }
      if state == INITIALIZATION { return; }
      ScheduleKeepsOrderIff(m, Event(target, task));
      if |scheduledTasks[target]| == 1 {
        nextTickHeap.Push(target);
      }
    }

    method ScheduleIn(delta: Time, task: T)
      requires Valid()
      requires state == INITIALIZATION || Plus(currentTime, delta) > currentTime
      modifies this`scheduledTasks, this`log, nextTickHeap.Repr()
      ensures Valid() && World() == Post(old(World()), Event(Plus(currentTime, delta), task))
      ensures state != INITIALIZATION ==> Machine() == Schedule(old(Machine()), Event(Plus(currentTime, delta), task))
      ensures Ordered() <==> old(Admits(Plus(currentTime, delta)))
      ensures old(Reachable()) && Ordered() ==> Reachable()
    {
      ScheduleAt(Plus(currentTime, delta), task);
    }

    /** One entry of the list of the current tick: the task runs, changes the user state and schedules. */
    method ExecuteTask(task: T)
      requires Valid() && state != INITIALIZATION
      requires Later(behave(task, currentTime, user).requests, currentTime)
      modifies this`user, this`trace, this`scheduledTasks, this`log, nextTickHeap.Repr()
      ensures Valid() && Machine() == RunTask(behave, old(Machine()), task)
    {
      hide Agree, Schedule, WellFormed, Post, Context.Ordered, Context.Admits, Context.Reachable;
      var effect := behave(task, currentTime, user);
      user := effect.user;
      trace := trace + [Event(currentTime, task)];
      ghost var m := Machine();
      var rs := effect.requests;
      for i := 0 to |rs|
        invariant Valid() && Machine() == ScheduleAll(m, rs[..i])
      {
        assert rs[i] in rs;
        assert rs[..i + 1][..i] == rs[..i];
        ScheduleAt(rs[i].at, rs[i].task);
      }
      assert rs[..|rs|] == rs;
    }

    /** Set every module up, then load the heap with the pending times in ascending order. */
    method Initialize() returns (success: bool)
      requires Valid() && state == INITIALIZATION
      modifies this`user, this`scheduledTasks, this`log, this`state, nextTickHeap.Repr()
      ensures Valid() && Ordered() && World() == SetUpAll(old(World()), modules)
      ensures success <==>
        forall k | 0 <= k < |modules| :: modules[k](SetUpAll(old(World()), modules[..k]).user).success
      ensures state == if success then RUNNING else ERROR
      ensures old(Reachable()) ==> Reachable()
    {
      hide HeapModel.Valid, HeapModel.InOrder, HeapModel.Contents, Agree, SetUpAll, WellFormed;
      if Reachable() { SetUpAllKeeps(World(), modules); }
      success := SetUpModules();
      var allTimes := SortedTimes();
      LoadHeap(allTimes);
      state := if success then RUNNING else ERROR;
    }

    /** The loop over the modules; a failure does not end it. */
    method SetUpModules() returns (success: bool)
      requires Valid() && state == INITIALIZATION
      modifies this`user, this`scheduledTasks, this`log, nextTickHeap.Repr()
      ensures Valid() && World() == SetUpAll(old(World()), modules)
      ensures success <==>
        forall k | 0 <= k < |modules| :: modules[k](SetUpAll(old(World()), modules[..k]).user).success
    {
      hide HeapModel.Valid, Agree, SetUp, SetUpAll, WellFormed, Context.Ordered, Context.Reachable;
      success := true;
      ghost var w := World();
      SetUpNone(w, modules);
      for k := 0 to |modules|
        invariant Valid() && state == INITIALIZATION
        invariant World() == SetUpAll(w, modules[..k])
        invariant success <==> forall j | 0 <= j < k :: modules[j](SetUpAll(w, modules[..j]).user).success
      {
        SetUpOneMore(w, modules, k);
        var ok := SetUpModule(modules[k]);
        success := success && ok;
      }
      assert modules[..|modules|] == modules;
    }

    method SetUpModule(m: Module<T, U>) returns (ok: bool)
      requires Valid() && state == INITIALIZATION
      modifies this`user, this`scheduledTasks, this`log, nextTickHeap.Repr()
      ensures Valid() && World() == SetUp(old(World()), m) && ok == m(old(user)).success
    {
      hide HeapModel.Valid, Agree, WellFormed, Schedule, Post, Context.Ordered, Context.Admits, Context.Reachable;
      var s := m(user);
      ok := s.success;
      user := s.user;
      ghost var w := World();
      for i := 0 to |s.requests|
        invariant Valid() && state == INITIALIZATION
        invariant World() == PostAll(w, s.requests[..i])
      {
        assert s.requests[..i + 1][..i] == s.requests[..i];
        ScheduleAt(s.requests[i].at, s.requests[i].task);
      }
      assert s.requests[..|s.requests|] == s.requests;
    }

    /** The keys of the task map, gathered in whatever order the map yields them, then sorted. */
    method SortedTimes() returns (times: seq<Time>)
      ensures Ascending(times) && forall t :: t in times <==> t in scheduledTasks
    {
      var keys := scheduledTasks.Keys;
      times := [];
      while keys != {}
        invariant Ascending(times) && keys <= scheduledTasks.Keys
        invariant forall t :: t in times <==> t in scheduledTasks && t !in keys
        decreases |keys|
      {
        var t :| t in keys;
        keys := keys - {t};
        times := Insert(times, t);
      }
    }

    /** Ascending pushes meet the order the heap asks for. */
    method LoadHeap(times: seq<Time>)
      requires Valid() && state == INITIALIZATION
      requires Ascending(times) && forall t :: t in times <==> t in scheduledTasks
      modifies nextTickHeap.Repr()
      ensures nextTickHeap.Valid() && Agree(nextTickHeap.State(), Pending()) && HeapModel.InOrder(nextTickHeap.State())
    {
      hide HeapModel.Valid, HeapModel.InOrder, HeapModel.Contents, Agree, HeadIs, Loaded;
      LoadedNone<T>(times);
      for i := 0 to |times|
        invariant nextTickHeap.Valid() && Loaded<T>(nextTickHeap.State(), times, i)
      {
        LoadedOneMore<T>(nextTickHeap.State(), times, i);
        nextTickHeap.Push(times[i]);
      }
      LoadedAll(nextTickHeap.State(), times, Pending());
    }

    /** The reference state a run starts from: initialization comes first when it has not happened yet. */
    ghost function Start(): World<T, U>
      reads this
    {
      if state == INITIALIZATION then SetUpAll(World(), modules) else World()
    }

    /** Where the loop takes a context that is running. */
    ghost function Looped(final: Time): Halt<T, U>
      requires Valid() && state != INITIALIZATION && Admissible(behave, final)
      reads Repr()
    {
      Loop(behave, Machine(), final)
    }

    /** A run to `final` is that of the reference scheduler: the heap is in order, or nothing is due. */
    ghost predicate Reliable(final: Time)
      requires Valid()
      reads Repr()
    {
      Ordered() || !Due(Machine(), final)
    }

    /** The loop over the task list of the current time. */
    method RunTasksOfTick(final: Time)
      requires Valid() && state != INITIALIZATION && Admissible(behave, final)
      requires Ticking(Machine()) && currentTime <= final
      modifies this`user, this`trace, this`scheduledTasks, this`log, nextTickHeap.Repr()
      ensures Valid() && Machine() == RunTasks(behave, old(Machine()), old(Pending())[currentTime])
    {
      hide Agree, RunTask, WellFormed, Execute, Context.Ordered, Context.Reachable;
      var tasks := scheduledTasks[currentTime];
      for i := 0 to |tasks|
        invariant Valid() && Machine() == RunTasks(behave, old(Machine()), tasks[..i])
      {
        assert tasks[..i + 1][..i] == tasks[..i];
        ExecuteTask(tasks[i]);
      }
      assert tasks[..|tasks|] == tasks;
    }

    /** The current time's list is cleared and its entry leaves the heap. */
    method RetireTick()
      requires Valid() && state != INITIALIZATION && Ticking(Machine())
      modifies this`scheduledTasks, nextTickHeap.Repr()
      ensures Valid() && Machine() == Retire(old(Machine()))
    {
      hide HeapModel.Valid, HeapModel.InOrder, HeapModel.Contents, HeapModel.Pop;
      ghost var h, agenda, t := nextTickHeap.State(), Pending(), currentTime;
      HeadIsPending(h, agenda);
      PopAgrees(h, agenda, t);
      scheduledTasks := scheduledTasks[currentTime := []];
      assert Pending() == agenda - {t};
      nextTickHeap.Pop();
    }

    /** Run the tasks of the time at the head of the heap, then retire that time. */
    method RunTickAtHead(final: Time)
      requires Valid() && state != INITIALIZATION && Admissible(behave, final)
      requires !Idle(Machine()) && Head(Machine()) <= final
      modifies this`currentTime, this`user, this`trace, this`scheduledTasks, this`log, nextTickHeap.Repr()
      ensures Valid() && Machine() == RunTick(behave, old(Machine()), final)
    {
      hide HeapModel.Valid, HeapModel.InOrder, HeapModel.Contents, Admissible, Retire, RunTasks;
      ghost var m := Machine();
      HeadIsPending(m.heap, m.world.agenda);
      WorkedTicks(behave, m, final);
      currentTime := nextTickHeap.Peek();
      RunTasksOfTick(final);
      RetireTick();
    }

    /** Run until `final`, by the order of the heap. The run is that of the reference scheduler exactly
        when the heap is in order or nothing is due. */
    method RunAt(final: Time) returns (r: RunResult)
      requires Valid() && Admissible(behave, final) && currentTime < final
      modifies this`currentTime, this`user, this`trace, this`scheduledTasks, this`log, this`state, nextTickHeap.Repr()
      ensures Valid()
      ensures r.InitializationFailed? <==> (old(state) == INITIALIZATION &&
        exists k :: 0 <= k < |modules| && !modules[k](SetUpAll(old(World()), modules[..k]).user).success)
      ensures r.InitializationFailed? ==> World() == old(Start()) && state == ERROR
      ensures r.Ran? ==> state == if r.status == RunStatus.STOPPED then State.STOPPED else RUNNING
      ensures r.Ran? && old(state != INITIALIZATION) ==> Halt(Machine(), r.status) == old(Looped(final))
      ensures r.Ran? ==>
        (Outcome(World(), r.status) == Agendas.Run(behave, old(Start()), final) <==> old(Reliable(final)))
      ensures old(Ordered()) ==> Ordered()
      ensures old(Reachable()) ==> Reachable()
    {
      hide HeapModel.Valid, HeapModel.InOrder, HeapModel.Contents, Agree, Loop, Agendas.Run, SetUpAll,
        WellFormed;
      if state == INITIALIZATION {
        var success := Initialize();
        if !success { return InitializationFailed; }
      }
      ghost var m := Machine();
      FollowsIff(behave, m, final);
      if InOrder(m) { OrderedFollows(behave, m, final); }
      if WellFormed(m.world) && InOrder(m) { RunKeeps(behave, m.world, final); }
      state := RUNNING;
      var status := MainLoop(final);
      return Ran(status);
    }

    method MainLoop(final: Time) returns (status: RunStatus)
      requires Valid() && Admissible(behave, final) && state == RUNNING
      modifies this`currentTime, this`user, this`trace, this`scheduledTasks, this`log, this`state, nextTickHeap.Repr()
      ensures Valid() && state == if status == RunStatus.STOPPED then State.STOPPED else RUNNING
      ensures Halt(Machine(), status) == old(Looped(final))
    {
      hide HeapModel.Valid, HeapModel.InOrder, HeapModel.Contents, RunTick, Loop, Admissible, Agree, Below,
        Remaining, WellFormed;
      ghost var start := Machine();
      while nextTickHeap.sizeVal != 0
        invariant Valid() && state == RUNNING
        invariant Loop(behave, Machine(), final) == Loop(behave, start, final)
        decreases Progress(Machine(), final).0, Progress(Machine(), final).1
      {
        HeadIsPending(nextTickHeap.State(), Pending()) by { AgreeOnEmpty(nextTickHeap.State(), Pending()); }
        LoopUnfolds(behave, Machine(), final);
        var nextTick := nextTickHeap.Peek();
        if nextTick > final {
          currentTime := final;
          return EVENTS_IN_QUEUE;
        }
        TickProgress(behave, Machine(), final);
        RunTickAtHead(final);
      }
      AgreeOnEmpty(nextTickHeap.State(), Pending());
      LoopUnfolds(behave, Machine(), final);
      state := State.STOPPED;
      return RunStatus.STOPPED;
    }

    method Run(delta: Time) returns (r: RunResult)
      requires Valid() && currentTime < Plus(currentTime, delta) && Admissible(behave, Plus(currentTime, delta))
      modifies this`currentTime, this`user, this`trace, this`scheduledTasks, this`log, this`state, nextTickHeap.Repr()
      ensures Valid()
      ensures r.InitializationFailed? <==> (old(state) == INITIALIZATION &&
        exists k :: 0 <= k < |modules| && !modules[k](SetUpAll(old(World()), modules[..k]).user).success)
      ensures r.InitializationFailed? ==> World() == old(Start()) && state == ERROR
      ensures r.Ran? ==> state == if r.status == RunStatus.STOPPED then State.STOPPED else RUNNING
      ensures r.Ran? && old(state != INITIALIZATION) ==>
        Halt(Machine(), r.status) == old(Looped(Plus(currentTime, delta)))
      ensures r.Ran? ==>
        (Outcome(World(), r.status) == Agendas.Run(behave, old(Start()), old(Plus(currentTime, delta))) <==>
          old(Reliable(Plus(currentTime, delta))))
      ensures old(Ordered()) ==> Ordered()
      ensures old(Reachable()) ==> Reachable()
    {
      r := RunAt(Plus(currentTime, delta));
    }
  }

  // ---------- the ascending load ----------

  function Listed<T>(times: seq<Time>): Agenda<T> { map t | t in times :: [] }

  /** The heap holds the first `i` times, and they went in in order. */
  ghost predicate Loaded<T>(h: HeapModel.Heap, times: seq<Time>, i: nat)
    requires i <= |times|
  {
    && Agree(h, Listed<T>(times[..i]))
    && HeapModel.InOrder(h)
    && (i > 0 ==> HeadIs(h, times[0]))
  }

  lemma LoadedNone<T>(times: seq<Time>)
    ensures Loaded<T>(HeapModel.EMPTY, times, 0)
  {
    HeapModel.EmptyIsValid();
  }

  lemma LoadedOneMore<T>(h: HeapModel.Heap, times: seq<Time>, i: nat)
    requires Ascending(times) && i < |times| && Loaded<T>(h, times, i)
    ensures Loaded<T>(HeapModel.Push(h, times[i]), times, i + 1)
  {
    hide HeapModel.Valid, HeapModel.InOrder, HeapModel.Contents, HeapModel.Push;
    var before := Listed<T>(times[..i]);
    assert times[i] !in times[..i];
    assert Listed<T>(times[..i + 1]) == before[times[i] := []];
    assert if i == 0 then before == map[] else times[0] == times[..i][0] && times[0] in before;
    PushAgrees(h, before, times[i], []);
  }

  lemma LoadedAll<T>(h: HeapModel.Heap, times: seq<Time>, agenda: Agenda<T>)
    requires Loaded<T>(h, times, |times|) && forall t :: t in times <==> t in agenda
    ensures Agree(h, agenda) && HeapModel.InOrder(h)
  {
    assert times[..|times|] == times;
    assert Listed<T>(times).Keys == agenda.Keys;
  }
}
