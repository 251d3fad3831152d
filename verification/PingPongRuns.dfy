/** Whole runs of the ping and pong modules on the scheduler. */
module PingPongRuns {
  import opened Options
  import opened BucketIndex
  import opened Agendas
  import opened AgendaRuns
  import opened Ports
  import opened PingPong
  import C = Contexts
  import M = Machines
  import HeapModel

  function Updates(pingFirst: bool): seq<Task>
  {
    if pingFirst then [PingUpdate, PongUpdate] else [PongUpdate, PingUpdate]
  }

  function Sends(pingFirst: bool): seq<Task>
  {
    if pingFirst then [PingTrySend, PongTrySend] else [PongTrySend, PingTrySend]
  }

  // ---------- the state around the k-th update and the k-th send ----------

  function BeforeSend(k: nat): System
  {
    if k % 2 == 0 then System(true, k == 0, k / 2, false, k / 2, true, None, None)
    else System(false, false, (k + 1) / 2, true, (k - 1) / 2, true, None, None)
  }

  function AfterSend(k: nat): System
  {
    var s := BeforeSend(k);
    if k % 2 == 0 then s.(pingOut := Some(PING), pingSent := s.pingSent + 1, pingStart := false)
    else s.(pongOut := Some(PONG), pongSent := s.pongSent + 1)
  }

  function BeforeUpdate(k: nat): System { if k == 0 then FRESH.(connected := true) else AfterSend(k - 1) }

  function InFlight(s: System): nat { (if s.pingOut == None then 0 else 1) + (if s.pongOut == None then 0 else 1) }

  lemma UpdatesStep(k: nat, pingFirst: bool)
    ensures var u, a := Updates(pingFirst), BeforeUpdate(k);
      Step(u[1], Step(u[0], a)) == BeforeSend(k) && InFlight(a) <= 1 && InFlight(Step(u[0], a)) <= 1 &&
        InFlight(BeforeSend(k)) <= 1
  {}

  lemma SendsStep(k: nat, pingFirst: bool)
    ensures var u, a := Sends(pingFirst), BeforeSend(k);
      Step(u[1], Step(u[0], a)) == BeforeUpdate(k + 1) && InFlight(Step(u[0], a)) <= 1 &&
        InFlight(BeforeUpdate(k + 1)) <= 1
  {}

  // ---------- a tick of two tasks ----------

  lemma TwoTasks(period: Time, w: World<Task, System>, a: Task, b: Task)
    requires w.now + period < TWO_TO_THE_64
    ensures var r := ExecuteAll(Behave(period), w, [a, b]);
      && r.now == w.now
      && r.user == Step(b, Step(a, w.user))
      && r.agenda == w.agenda[w.now + period := At(w.agenda, w.now + period) + [a, b]]
      && r.trace == w.trace + [Event(w.now, a), Event(w.now, b)]
  {
    hide Step, Execute, ExecuteAll, PostAll, Behave;
    var next := w.now + period;
    ExecuteTwo(Behave(period), w, a, b);
    var w1 := Execute(Behave(period), w, a);
    OneTask(period, w, a);
    OneTask(period, w1, b);
    assert At(w.agenda, next) + [a, b] == (At(w.agenda, next) + [a]) + [b];
  }

  lemma ExecuteTwo(behave: Behaviour<Task, System>, w: World<Task, System>, a: Task, b: Task)
    ensures ExecuteAll(behave, w, [a, b]) == Execute(behave, Execute(behave, w, a), b)
  {
    hide Execute;
    assert [a, b][..1] == [a] && [a][..0] == [];
    assert ExecuteAll(behave, w, []) == w;
    assert ExecuteAll(behave, w, [a]) == Execute(behave, w, a);
  }

  lemma OneTask(period: Time, w: World<Task, System>, a: Task)
    requires w.now + period < TWO_TO_THE_64
    ensures var r := Execute(Behave(period), w, a);
      && r.now == w.now
      && r.user == Step(a, w.user)
      && r.agenda == w.agenda[w.now + period := At(w.agenda, w.now + period) + [a]]
      && r.trace == w.trace + [Event(w.now, a)]
  {
    hide Step;
    var e := Behave(period)(a, w.now, w.user);
    assert e.requests[..0] == [];
    var v := w.(user := e.user, trace := w.trace + [Event(w.now, a)]);
    assert PostAll(v, []) == v;
  }

  // ---------- at most one message in flight ----------

  /** After every prefix of the trace at most one slot is full. */
  ghost predicate OneInFlight(period: Time, trace: seq<Event<Task>>)
  {
    forall i | 0 <= i <= |trace| :: InFlight(Replay(Behave(period), FRESH.(connected := true), trace[..i])) <= 1
  }

  lemma OneInFlightGrows(period: Time, trace: seq<Event<Task>>, now: Time, a: Task, b: Task, s: System)
    requires OneInFlight(period, trace)
    requires Replay(Behave(period), FRESH.(connected := true), trace) == s
    requires InFlight(Step(a, s)) <= 1 && InFlight(Step(b, Step(a, s))) <= 1
    ensures OneInFlight(period, trace + [Event(now, a), Event(now, b)])
    ensures Replay(Behave(period), FRESH.(connected := true), trace + [Event(now, a), Event(now, b)]) ==
      Step(b, Step(a, s))
  {
    hide Step, InFlight, Behave;
    var u, t1 := FRESH.(connected := true), trace + [Event(now, a)];
    var t2 := trace + [Event(now, a), Event(now, b)];
    ReplayOneMore(period, u, trace, Event(now, a));
    ReplayOneMore(period, u, t1, Event(now, b));
    assert t2 == t1 + [Event(now, b)];
    forall i | 0 <= i <= |t2| ensures InFlight(Replay(Behave(period), u, t2[..i])) <= 1 {
      if i <= |trace| { assert t2[..i] == trace[..i]; }
      else if i == |t1| { assert t2[..i] == t1; }
      else { assert t2[..i] == t2; }
    }
  }

  lemma ReplayOneMore(period: Time, u: System, trace: seq<Event<Task>>, e: Event<Task>)
    ensures Replay(Behave(period), u, trace + [e]) == Step(e.task, Replay(Behave(period), u, trace))
  {
    hide Step;
    assert (trace + [e])[..|trace|] == trace;
  }

  // ---------- counting the send ticks ----------

  /** How many of `first`, `first + period`, `first + 2 * period` and so on are at most `final`. */
  function SendTicks(period: nat, first: nat, final: nat): nat
    requires period > 0
    decreases if first <= final then final + 1 - first else 0
  {
    if first > final then 0 else 1 + SendTicks(period, first + period, final)
  }

  lemma {:induction false} SendTicksCounts(period: nat, first: nat, final: nat, k: nat)
    requires period > 0
    ensures k < SendTicks(period, first, final) <==> first + k * period <= final
    decreases if first <= final then final + 1 - first else 0
  {
    if first <= final && k > 0 {
      SendTicksCounts(period, first + period, final, k - 1);
      assert (k - 1) * period + period == k * period;
    } else if first > final {
      assert k * period >= 0;
    }
  }

  // ---------- the run ----------

  /** Before the k-th update tick, at time `t`, with the k-th send tick half a period later. */
  ghost predicate AtUpdate(w: World<Task, System>, period: Time, pingFirst: bool, k: nat, t: nat)
  {
    && t + period / 2 < TWO_TO_THE_64
    && w.agenda == map[t := Updates(pingFirst), t + period / 2 := Sends(pingFirst)]
    && w.user == BeforeUpdate(k) == Replay(Behave(period), FRESH.(connected := true), w.trace)
    && OneInFlight(period, w.trace)
  }

  ghost predicate AtSend(w: World<Task, System>, period: Time, pingFirst: bool, k: nat, t: nat)
  {
    && t + period < TWO_TO_THE_64
    && w.agenda == map[t + period / 2 := Sends(pingFirst), t + period := Updates(pingFirst)]
    && w.user == BeforeSend(k) == Replay(Behave(period), FRESH.(connected := true), w.trace)
    && OneInFlight(period, w.trace)
  }

  lemma UpdateTick(w: World<Task, System>, period: Time, pingFirst: bool, k: nat, t: nat)
    requires period >= 2 && AtUpdate(w, period, pingFirst, k, t) && t + period < TWO_TO_THE_64
    ensures t in w.agenda && AtSend(Tick(Behave(period), w, t), period, pingFirst, k, t)
  {
    hide Step, InFlight, ExecuteAll, OneInFlight, Replay, BeforeUpdate, BeforeSend, AfterSend;
    var u := Updates(pingFirst);
    var w0 := w.(now := t, agenda := w.agenda - {t});
    assert t in w.agenda;
    TwoTasks(period, w0, u[0], u[1]);
    assert u == [u[0], u[1]] && w.agenda[t] == u && [] + u == u;
    UpdatesStep(k, pingFirst);
    OneInFlightGrows(period, w.trace, t, u[0], u[1], w.user);
  }

  lemma SendTick(w: World<Task, System>, period: Time, pingFirst: bool, k: nat, t: nat)
    requires period >= 2 && AtSend(w, period, pingFirst, k, t) && t + period / 2 + period < TWO_TO_THE_64
    ensures t + period / 2 in w.agenda
    ensures AtUpdate(Tick(Behave(period), w, t + period / 2), period, pingFirst, k + 1, t + period)
  {
    hide Step, InFlight, ExecuteAll, OneInFlight, Replay, BeforeUpdate, BeforeSend, AfterSend;
    var u, now := Sends(pingFirst), t + period / 2;
    var w0 := w.(now := now, agenda := w.agenda - {now});
    assert now in w.agenda;
    TwoTasks(period, w0, u[0], u[1]);
    assert u == [u[0], u[1]] && w.agenda[now] == u && [] + u == u;
    SendsStep(k, pingFirst);
    OneInFlightGrows(period, w.trace, now, u[0], u[1], w.user);
  }

  ghost predicate Result(r: World<Task, System>, period: Time, sends: nat)
  {
    r.user.pingSent == (sends + 1) / 2 && r.user.pongSent == sends / 2 && OneInFlight(period, r.trace)
  }

  lemma PeriodicIsAdmissible(period: Time, final: Time)
    requires period > 0 && final + period < TWO_TO_THE_64
    ensures Admissible(Behave(period), final)
  {}

  lemma NextUpdate(w: World<Task, System>, period: Time, pingFirst: bool, k: nat, t: nat)
    requires period >= 2 && AtUpdate(w, period, pingFirst, k, t)
    ensures w.agenda != map[] && Next(w.agenda) == t
    ensures OneInFlight(period, w.trace) && w.user.pingSent == (k + 1) / 2 && w.user.pongSent == k / 2
  {
    assert t in w.agenda;
  }

  lemma NextSend(w: World<Task, System>, period: Time, pingFirst: bool, k: nat, t: nat)
    requires period >= 2 && AtSend(w, period, pingFirst, k, t)
    ensures w.agenda != map[] && Next(w.agenda) == t + period / 2
    ensures OneInFlight(period, w.trace) && w.user.pingSent == (k + 1) / 2 && w.user.pongSent == k / 2
  {
    assert t + period / 2 in w.agenda;
  }

  lemma {:induction false} RunFromUpdate(
    w: World<Task, System>, period: Time, pingFirst: bool, k: nat, t: nat, final: Time)
    requires period >= 2 && final + period < TWO_TO_THE_64 && AtUpdate(w, period, pingFirst, k, t)
    ensures Admissible(Behave(period), final)
    ensures Result(Run(Behave(period), w, final).world, period, k + SendTicks(period, t + period / 2, final))
    decreases if t <= final then final + 1 - t else 0, 1
  {
    hide AtUpdate, AtSend, OneInFlight, Tick, Run, Admissible;
    PeriodicIsAdmissible(period, final);
    NextUpdate(w, period, pingFirst, k, t);
    RunUnfolds(Behave(period), w, final);
    if t <= final {
      UpdateTick(w, period, pingFirst, k, t);
      RunFromSend(Tick(Behave(period), w, t), period, pingFirst, k, t, final);
    }
  }

  lemma {:induction false} RunFromSend(
    w: World<Task, System>, period: Time, pingFirst: bool, k: nat, t: nat, final: Time)
    requires period >= 2 && final + period < TWO_TO_THE_64 && AtSend(w, period, pingFirst, k, t)
    ensures Admissible(Behave(period), final)
    ensures Result(Run(Behave(period), w, final).world, period, k + SendTicks(period, t + period / 2, final))
    decreases if t <= final then final + 1 - t else 0, 0
  {
    hide AtUpdate, AtSend, OneInFlight, Tick, Run, Admissible;
    PeriodicIsAdmissible(period, final);
    NextSend(w, period, pingFirst, k, t);
    RunUnfolds(Behave(period), w, final);
    if t + period / 2 <= final {
      SendTick(w, period, pingFirst, k, t);
      RunFromUpdate(Tick(Behave(period), w, t + period / 2), period, pingFirst, k + 1, t + period, final);
    }
  }

  // ---------- end to end, through the context and its heap ----------

  /** What the initialize of a module does: create its parts and schedule its two periodic callbacks. */
  function ModuleSetup(period: Time, update: Task, send: Task): C.Module<Task, System>
  {
    (s: System) => C.Setup(s, [Event(0, update), Event(period / 2, send)], true)
  }

  function Modules(period: Time, pingFirst: bool): seq<C.Module<Task, System>>
  {
    var ping, pong := ModuleSetup(period, PingUpdate, PingTrySend), ModuleSetup(period, PongUpdate, PongTrySend);
    if pingFirst then [ping, pong] else [pong, ping]
  }

  lemma SetUpBoth(w: World<Task, System>, period: Time, pingFirst: bool)
    requires period >= 2 && w.agenda == map[]
    ensures var r := C.SetUpAll(w, Modules(period, pingFirst));
      && r.agenda == map[0 := Updates(pingFirst), period / 2 := Sends(pingFirst)]
      && r.user == w.user && r.now == w.now && r.trace == w.trace
      && forall k, u | 0 <= k < 2 :: Modules(period, pingFirst)[k](u).success
  {
    var ms, u, s := Modules(period, pingFirst), Updates(pingFirst), Sends(pingFirst);
    assert ms[..1] == [ms[0]] && ms[..0] == [] && ms[..2] == ms && [ms[0]][..0] == [];
    assert C.SetUpAll(w, ms[..0]) == w;
    SetUpOne(w, period, u[0], s[0]);
    var w1 := C.SetUpAll(w, ms[..1]);
    assert w1 == C.SetUp(w, ms[0]);
    SetUpOne(w1, period, u[1], s[1]);
    assert [] + [u[0]] + [u[1]] == u && [] + [s[0]] + [s[1]] == s;
  }

  lemma SetUpOne(w: World<Task, System>, period: Time, update: Task, send: Task)
    requires period >= 2
    ensures var r, h := C.SetUp(w, ModuleSetup(period, update, send)), period / 2;
      && r.agenda == w.agenda[0 := At(w.agenda, 0) + [update]][h := At(w.agenda, h) + [send]]
      && r.user == w.user && r.now == w.now && r.trace == w.trace
  {
    var a, b := Event(0, update), Event(period / 2, send);
    assert [a, b][..1] == [a] && [a][..0] == [];
    var v := w.(user := w.user);
    assert PostAll(v, []) == v;
    assert PostAll(v, [a]) == Post(v, a);
    assert PostAll(v, [a, b]) == Post(Post(v, a), b);
  }

  /** Two connected modules, in either order, with any period of at least two and any horizon,
      run on the real scheduler: `sends` send ticks fall within the horizon, ping has sent half of
      that rounded up, pong half of it rounded down, and no two messages were ever in flight together. */
  method Simulate(period: Time, pingFirst: bool, final: Time)
    returns (ctx: C.Context<Task, System>, ghost sends: nat, ghost start: World<Task, System>)
    requires period >= 2 && 0 < final && final + period < TWO_TO_THE_64
    ensures forall k: nat :: k < sends <==> period / 2 + k * period <= final
    ensures ctx.user.pingSent == (sends + 1) / 2 && ctx.user.pongSent == sends / 2
    ensures OneInFlight(period, ctx.trace)
    ensures start.trace == [] && AtUpdate(start, period, pingFirst, 0, 0)
    ensures Admissible(Behave(period), final) && ctx.trace == Run(Behave(period), start, final).world.trace
  {
    hide M.Agree, HeapModel.Valid, HeapModel.InOrder, HeapModel.Contents, C.SetUpAll, M.Loop,
      WellFormed, Run, OneInFlight, Admissible;
    ctx := Prepared(period, pingFirst);
    start := ctx.World();
    PeriodicIsAdmissible(period, final);
    RunFromUpdate(start, period, pingFirst, 0, 0, final);
    sends := SendTicks(period, period / 2, final);
    forall k: nat ensures k < sends <==> period / 2 + k * period <= final {
      SendTicksCounts(period, period / 2, final, k);
    }
    var r := ctx.RunAt(final);
  }

  lemma AtStart(w: World<Task, System>, period: Time, pingFirst: bool)
    requires period >= 2 && w.trace == [] && w.user == FRESH.(connected := true)
    requires w.agenda == map[0 := Updates(pingFirst), period / 2 := Sends(pingFirst)]
    ensures AtUpdate(w, period, pingFirst, 0, 0)
  {
    hide Updates, Sends;
  }

  /** Initialize first, then connect the ports, as an owner of the two modules does. */
  method Prepared(period: Time, pingFirst: bool) returns (ctx: C.Context<Task, System>)
    requires period >= 2
    ensures fresh(ctx.Repr()) && ctx.Valid() && ctx.Ordered() && ctx.state == C.RUNNING && ctx.behave == Behave(period)
    ensures ctx.currentTime == 0 && ctx.trace == [] && AtUpdate(ctx.World(), period, pingFirst, 0, 0)
  {
    hide M.Agree, HeapModel.Valid, HeapModel.InOrder, HeapModel.Contents, C.SetUpAll, M.Loop,
      WellFormed, Run, OneInFlight, Admissible;
    ctx := new C.Context(Behave(period), FRESH);
    var ms := Modules(period, pingFirst);
    ctx.Add(ms[0]);
    ctx.Add(ms[1]);
    assert ctx.modules == ms;
    SetUpBoth(ctx.World(), period, pingFirst);
    var ok := ctx.Initialize();
    ctx.user := ctx.user.(connected := true);
    AtStart(ctx.World(), period, pingFirst);
  }

  // ---------- the module objects along the trace ----------

  /** Handing a trace's tasks to the two modules, one after the other, takes them where the trace says. */
  method Play(ping: PingModule, pong: PongModule, trace: seq<Event<Task>>)
    requires Joined(ping, pong) && ping.period == pong.period
    modifies ping, pong, ping.port.outPort, pong.port.outPort
    ensures Joined(ping, pong)
    ensures View(ping, pong) == Replay(Behave(ping.period), old(View(ping, pong)), trace)
  {
    hide Step;
    for i := 0 to |trace|
      invariant Joined(ping, pong)
      invariant View(ping, pong) == Replay(Behave(ping.period), old(View(ping, pong)), trace[..i])
    {
      assert trace[..i + 1][..i] == trace[..i];
      var request := RunTask(trace[i].task, trace[i].at, ping, pong);
    }
    assert trace[..|trace|] == trace;
  }

  /** Two new modules, connected and given the tasks of a run in its order, have counted half of the
      send ticks rounded up and half rounded down. */
  method CountedByModules(period: Time, pingFirst: bool, final: Time, w: World<Task, System>, trace: seq<Event<Task>>)
    returns (ping: PingModule, pong: PongModule)
    requires period >= 2 && final + period < TWO_TO_THE_64 && w.trace == [] && AtUpdate(w, period, pingFirst, 0, 0)
    requires Admissible(Behave(period), final) && trace == Run(Behave(period), w, final).world.trace
    ensures ping.numMsgSent == (SendTicks(period, period / 2, final) + 1) / 2
    ensures pong.numMsgSent == SendTicks(period, period / 2, final) / 2
  {
    hide Run, Admissible, OneInFlight, Step;
    var pingPort := new BidirectionalPort<Message>();
    var pongPort := new BidirectionalPort<Message>();
    ping := new PingModule(period, pingPort);
    pong := new PongModule(period, pongPort);
    ConnectModules(ping, pong);
    RunReplays(Behave(period), w, final, w.user);
    RunFromUpdate(w, period, pingFirst, 0, 0, final);
    Play(ping, pong, trace);
  }
}
