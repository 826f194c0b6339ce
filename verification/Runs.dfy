/** Whole runs of the daemon: requests, timers, exits and re-activations. The process comes and
    goes; the file, the clock and the outside world remain. */
module Runs {
  import opened CStrings
  import opened SlicePath
  import opened State
  import opened Effects
  import opened CgManager
  import opened CGroupUnit
  import opened PowerUnit
  import opened Daemon
  import opened ObjectPath

  datatype System = System(
    file: Option<KeyFile>, process: Option<Process>,
    now: nat, log: seq<Effect>, signedChar: bool)

  datatype Event =
    | Serves(req: Request, env: Env)
    | Fires(id: nat, at: nat)
    | Activates(at: nat, connects: bool, agent: Option<CString>)

  predicate Enabled(s: System, e: Event) {
    match e
    case Serves(req, env) => s.process.Some? && s.now <= env.begin && WellTimed(env)
    case Fires(id, at) =>
      s.process.Some? && id in s.process.value.sources && s.process.value.sources[id] <= at && s.now <= at
    case Activates(at, _, _) => s.process.None? && s.now <= at
  }

  function Step(s: System, e: Event): System
    requires Enabled(s, e)
  {
    match e
    case Serves(req, env) =>
      var o := Serve(s.process.value, req, env, s.signedChar);
      s.(file := if o.synced && env.saved then Some(o.process.image) else s.file,
         process := Some(o.process), now := env.done, log := s.log + o.effects)
    case Fires(id, at) =>
      var p := s.process.value;
      s.(process := if p.power.inShutdown then Some(p.(sources := p.sources - {id})) else None, now := at)
    case Activates(at, connects, agent) =>
      s.(process := Some(Fresh(s.file, connects)), now := at, log := s.log + Wire(connects, Startup(agent)))
  }

  predicate ValidRun(s: System, es: seq<Event>)
    decreases |es|, 0
  {
    es == [] || (ValidRun(s, es[..|es| - 1]) && Enabled(Run(s, es[..|es| - 1]), es[|es| - 1]))
  }

  function Run(s: System, es: seq<Event>): System
    requires ValidRun(s, es)
    decreases |es|, 1
  {
    if es == [] then s else Step(Run(s, es[..|es| - 1]), es[|es| - 1])
  }

  lemma RunThen(s: System, es: seq<Event>, e: Event)
    requires ValidRun(s, es) && Enabled(Run(s, es), e)
    ensures ValidRun(s, es + [e]) && Run(s, es + [e]) == Step(Run(s, es), e)
  {
    assert (es + [e])[..|es|] == es;
  }

  lemma {:induction false} RunConcat(s: System, a: seq<Event>, b: seq<Event>)
    requires ValidRun(s, a + b)
    ensures ValidRun(s, a) && ValidRun(Run(s, a), b) && Run(Run(s, a), b) == Run(s, a + b)
  {
    if b == [] {
      assert a + b == a;
    } else {
      assert (a + b)[..|a + b| - 1] == a + b[..|b| - 1];
      RunConcat(s, a, b[..|b| - 1]);
    }
  }

  // ---- The timer ----

  /** What every process keeps: at most one live timer, which is due ten seconds or more after the
      last suspend, and no memory of a failed detection. */
  ghost predicate ProcessKept(p: Process, now: nat) {
    && (p.virt.Some? ==> p.virt.value.r >= 0)
    && 1 <= p.nextId && p.timeout < p.nextId
    && (forall id :: id in p.sources ==> id == p.timeout != 0 && p.sources[id] >= p.power.lastSuspend + INACTIVITY)
    && p.power.lastSuspend <= now
  }

  ghost predicate Kept(s: System) {
    s.process.Some? ==> ProcessKept(s.process.value, s.now)
  }

  /** A request changes nothing but the table and the power state, and the former only with a
      write-through. */
  lemma ActOnKeeps(p: Process, req: Request, unit: Option<Unit>, env: Env, signedChar: bool)
    ensures var o := ActOn(p, req, unit, env, signedChar);
            && o.process == p.(image := o.process.image, power := o.process.power, virt := o.process.virt)
            && (p.virt.Some? && p.virt.value.r >= 0 ==> o.process.virt == p.virt)
            && (o.process.virt.Some? && p.virt.None? ==> o.process.virt.value.r >= 0)
            && (!o.synced ==> o.process.image == p.image)
            && (p.power.inShutdown ==> o.process.power.inShutdown)
            && (o.process.power.lastSuspend == p.power.lastSuspend
                || (IsManagerCall(req) && o.process.power.lastSuspend == env.attempt.stamp))
  {
  }

  lemma ServeArms(p: Process, req: Request, env: Env, signedChar: bool)
    requires forall id :: id in p.sources ==> id == p.timeout != 0
    ensures var q := Serve(p, req, env, signedChar).process;
            && q.sources == map[q.timeout := ActivityTime(req, env) + INACTIVITY]
            && q.timeout == p.nextId < q.nextId
  {
    ActOnKeeps(p, req, LookupUnit(Subject(req), env.ntpAvailable), env, signedChar);
  }

  lemma StepKeeps(s: System, e: Event)
    requires Kept(s) && Enabled(s, e)
    ensures Kept(Step(s, e))
  {
    if e.Serves? {
      var p := s.process.value;
      ActOnKeeps(p, e.req, LookupUnit(Subject(e.req), e.env.ntpAvailable), e.env, s.signedChar);
    }
  }

  lemma {:induction false} RunKeeps(s: System, es: seq<Event>)
    requires Kept(s) && ValidRun(s, es)
    ensures Kept(Run(s, es))
  {
    if es != [] {
      RunKeeps(s, es[..|es| - 1]);
      StepKeeps(Run(s, es[..|es| - 1]), es[|es| - 1]);
    }
  }

  /** When the present process was last active; None before its first request. */
  function LastActivity(es: seq<Event>): Option<nat> {
    if es == [] then None
    else
      match es[|es| - 1]
      case Serves(req, env) => Some(ActivityTime(req, env))
      case Fires(_, _) => LastActivity(es[..|es| - 1])
      case Activates(_, _, _) => None
  }

  /** Whether its timer has fired since then. */
  function Fired(es: seq<Event>): bool {
    es != [] && es[|es| - 1].Fires?
  }

  /** There is exactly one timer, due ten seconds after the last activity, if there has been any
      and the timer has not fired since; a process that outlives its timer is shutting down. */
  ghost predicate TimerIs(s: System, activity: Option<nat>, fired: bool) {
    s.process.Some? ==>
      var p := s.process.value;
      && p.timeout < p.nextId && (p.timeout == 0 ==> activity == None)
      && (fired ==> p.power.inShutdown)
      && p.sources == if activity.Some? && !fired then map[p.timeout := activity.value + INACTIVITY] else map[]
  }

  lemma StepTimer(s: System, activity: Option<nat>, fired: bool, e: Event)
    requires Enabled(s, e) && TimerIs(s, activity, fired)
    ensures var last := match e
                        case Serves(req, env) => Some(ActivityTime(req, env))
                        case Fires(_, _) => activity
                        case Activates(_, _, _) => None;
            TimerIs(Step(s, e), last, e.Fires?)
  {
    match e
    case Serves(req, env) => ServeArms(s.process.value, req, env, s.signedChar);
    case Fires(id, _) =>
      var p := s.process.value;
      assert p.sources - {id} == map[];
    case Activates(_, _, _) =>
  }

  lemma {:induction false} TimerExactly(s: System, es: seq<Event>)
    requires s.process.None? && ValidRun(s, es)
    ensures TimerIs(Run(s, es), LastActivity(es), Fired(es))
  {
    if es != [] {
      var init := es[..|es| - 1];
      TimerExactly(s, init);
      StepTimer(Run(s, init), LastActivity(init), Fired(init), es[|es| - 1]);
    }
  }

  /** The timer `id` fires at `at` and the process leaves. */
  ghost predicate LeavesBy(s: System, id: nat, at: nat) {
    Enabled(s, Fires(id, at)) && Step(s, Fires(id, at)).process.None?
  }

  /** NEWS, version 4, counts inactivity from the end of a request. A process can leave earlier
      than ten seconds after one exactly when the request is not a call on the Manager interface,
      took any time at all, and found no shutdown under way. */
  lemma LeavesEarlyExactly(s: System, req: Request, env: Env)
    requires Kept(s) && Enabled(s, Serves(req, env))
    ensures (exists id: nat, at: nat :: at < env.done + INACTIVITY && LeavesBy(Step(s, Serves(req, env)), id, at))
      <==> !IsManagerCall(req) && env.begin < env.done && !s.process.value.power.inShutdown
  {
    var p, q := s.process.value, Step(s, Serves(req, env));
    ServeArms(p, req, env, s.signedChar);
    ServePower(p, req, env, s.signedChar);
    if !IsManagerCall(req) && env.begin < env.done && !p.power.inShutdown {
      var due := env.begin + INACTIVITY;
      var at := if env.done < due then due else env.done;
      assert LeavesBy(q, q.process.value.timeout, at);
    }
  }

  /** A process that is connected, not shutting down and has this table. */
  function Holding(image: KeyFile, now: nat, signedChar: bool): System {
    System(Some(image), Some(Fresh(Some(image), true)), now, [], signedChar)
  }

  lemma NodeStandsFor(name: CString, ntpAvailable: bool, signedChar: bool)
    requires IsUnitName(name) && AllGraph(name)
    ensures LookupUnit(Unescape(Escape(name, signedChar)), ntpAvailable) == Some(CGroup(name))
  {
    UnescapeEscape(name, signedChar);
    GraphOnlyIsGraph(name);
    LookupCGroup(name, ntpAvailable, name);
  }

  lemma AbandonPrunesRecorded(p: Process, name: CString)
    requires p.connected && Lookup(p.image, name).Some?
    ensures var o := AbandonOutcome(p, CGroup(name));
            && o.effects == [Sent(CgCall.Prune(Lookup(p.image, name).value)), WroteState, Replied(Done)]
            && o.process.power == p.power
  {
  }

  /** Abandoning any recorded unit with a graphic name sends a Prune; if the answer to it takes
      ten seconds, the process can leave as soon as the request is done. */
  lemma SlowPrune(image: KeyFile, name: CString, env: Env, signedChar: bool)
    requires IsUnitName(name) && AllGraph(name) && Lookup(image, name).Some?
    requires WellTimed(env) && env.done == env.begin + INACTIVITY
    ensures var s, e := Holding(image, env.begin, signedChar), Serves(Abandon(Escape(name, signedChar)), env);
            && Kept(s) && Enabled(s, e)
            && Step(s, e).log == [Sent(CgCall.Prune(Lookup(image, name).value)), WroteState, Replied(Done)]
            && exists id: nat :: LeavesBy(Step(s, e), id, env.done)
  {
    var s, e := Holding(image, env.begin, signedChar), Serves(Abandon(Escape(name, signedChar)), env);
    NodeStandsFor(name, env.ntpAvailable, signedChar);
    AbandonPrunesRecorded(s.process.value, name);
    assert LeavesBy(Step(s, e), Step(s, e).process.value.timeout, env.done);
  }

  lemma StartRecords(name: CString)
    requires IsSlice(name) && ValidGroupName(name) && forall k :: 0 <= k < |name| ==> name[k] != '-'
    ensures Lookup(StartChange([], true, name).image, name) == Some(name)
  {
    NoDashPath(name);
  }

  lemma SliceA(name: CString)
    requires name == "a.slice"
    ensures IsSlice(name) && ValidGroupName(name) && AllGraph(name)
    ensures forall k :: 0 <= k < |name| ==> name[k] != '-'
  {
  }

  /** Such a unit is "a.slice", once it has been started. */
  lemma SlowAbandonLeavesAtOnce(name: CString, image: KeyFile, env: Env, signedChar: bool)
    requires name == "a.slice" && image == StartChange([], true, name).image
    requires WellTimed(env) && env.done == env.begin + INACTIVITY
    ensures var s, e := Holding(image, env.begin, signedChar), Serves(Abandon(Escape(name, signedChar)), env);
            && Kept(s) && Enabled(s, e)
            && Step(s, e).log == [Sent(CgCall.Prune(name)), WroteState, Replied(Done)]
            && exists id: nat :: LeavesBy(Step(s, e), id, env.done)
  {
    SliceA(name);
    StartRecords(name);
    SlowPrune(image, name, env, signedChar);
  }

  // ---- Power actions ----

  ghost predicate NoPower(effects: seq<Effect>) {
    forall i :: 0 <= i < |effects| ==> !effects[i].Performed?
  }

  /** Calls to cgmanager, kills and writes, and nothing that acts on the machine or answers. */
  ghost predicate OnlyCalls(effects: seq<Effect>) {
    forall i :: 0 <= i < |effects| ==> effects[i].Sent? || effects[i].Killed? || effects[i].WroteState?
  }

  lemma CreationOnlyCalls(path: CString, uid: int, pids: seq<Pid>)
    ensures OnlyCalls(Creation(path, uid, pids))
  {
  }

  lemma {:induction false} StopOnlyCalls(path: CString, rounds: seq<Round>, tries: nat)
    ensures OnlyCalls(StopRounds(path, rounds, tries))
  {
    var r := RoundAt(rounds, 0);
    assert OnlyCalls(Killing(path, r.tasks));
    assert OnlyCalls(RoundEffects(path, r));
    if tries > 0 && !r.removed {
      StopOnlyCalls(path, Tail(rounds), tries - 1);
    }
  }

  /** The power action a request asks to start, if it asks for one. */
  function Asked(req: Request, env: Env): Option<PowerAction> {
    if req.StartUnit? then
      match LookupUnit(req.name, env.ntpAvailable)
      case Some(Power(action)) => Some(action)
      case _ => None
    else None
  }

  lemma StartOnlyCalls(image: KeyFile, connected: bool, name: CString)
    ensures OnlyCalls(StartChange(image, connected, name).Effects())
  {
    CreationOnlyCalls(Relative(PathOf(name)), SliceUid(name), []);
  }

  lemma StartTransientOnlyCalls(image: KeyFile, connected: bool, name: CString, props: seq<Property>)
    ensures OnlyCalls(StartTransientChange(image, connected, name, props).Effects())
  {
    if LastSlice(props).Some? {
      var slice := LastSlice(props).value;
      CreationOnlyCalls(Relative(UnitPath(slice, Some(name))), SliceUid(slice), AllPids(props));
    }
  }

  lemma RemovalsOnlyCall(image: KeyFile, connected: bool, name: CString, rounds: seq<Round>)
    ensures OnlyCalls(StopChange(image, connected, name, rounds).Effects())
    ensures OnlyCalls(AbandonChange(image, connected, name).Effects())
  {
    if Lookup(image, name).Some? {
      StopOnlyCalls(Lookup(image, name).value, rounds, TRIES);
    }
  }

  ghost predicate DoesNotAct(p: Process, o: Outcome) {
    o.process.power == p.power && NoPower(o.effects)
  }

  /** What is done for a slice or scope: calls and a write at most, then the answer. */
  lemma UnitCallsThenAnswers(p: Process, req: Request, name: CString, env: Env, signedChar: bool)
    returns (calls: seq<Effect>, reply: Reply)
    ensures var o := ActOn(p, req, Some(CGroup(name)), env, signedChar);
            o.effects == calls + [Replied(reply)] && o.process.power == p.power
    ensures OnlyCalls(calls) && !reply.UnknownUnit?
  {
    var image, connected := p.image, p.connected;
    calls, reply := [], Done;
    match req
    case StartUnit(_) =>
      StartOnlyCalls(image, connected, name);
      calls := StartChange(image, connected, name).Effects();
    case StopUnit(_) =>
      RemovalsOnlyCall(image, connected, name, env.rounds);
      calls := StopChange(image, connected, name, env.rounds).Effects();
    case StartTransientUnit(_, props) =>
      StartTransientOnlyCalls(image, connected, name, props);
      calls := StartTransientChange(image, connected, name, props).Effects();
    case Abandon(_) =>
      RemovalsOnlyCall(image, connected, name, env.rounds);
      calls := AbandonChange(image, connected, name).Effects();
    case _ =>
      reply := ActOn(p, req, Some(CGroup(name)), env, signedChar).effects[0].reply;
  }

  lemma OthersDoNotAct(p: Process, req: Request, unit: Option<Unit>, env: Env, signedChar: bool)
    requires !req.StartUnit?
    ensures DoesNotAct(p, ActOn(p, req, unit, env, signedChar))
  {
    if unit.Some? && unit.value.CGroup? {
      var calls, reply := UnitCallsThenAnswers(p, req, unit.value.name, env, signedChar);
    }
  }

  lemma StartActs(p: Process, req: Request, unit: Option<Unit>, env: Env, signedChar: bool)
    requires req.StartUnit?
    ensures var o := ActOn(p, req, unit, env, signedChar);
      match unit
      case Some(Power(action)) =>
        && o.process.power == StartState(p.power, action, env.attempt)
        && o.effects == StartEffects(p.power, action, env.attempt) + [Replied(Done)]
      case _ => DoesNotAct(p, o)
  {
    if unit.Some? && unit.value.CGroup? {
      var calls, reply := UnitCallsThenAnswers(p, req, unit.value.name, env, signedChar);
    }
  }

  /** Only a request to start a power unit touches the power state or acts on the machine. */
  lemma OnlyStartActs(p: Process, req: Request, env: Env, signedChar: bool)
    ensures var o := Act(p, req, env, signedChar);
      match Asked(req, env)
      case Some(action) =>
        && o.process.power == StartState(p.power, action, env.attempt)
        && o.effects == StartEffects(p.power, action, env.attempt) + [Replied(Done)]
      case None => DoesNotAct(p, o)
  {
    var unit := LookupUnit(Subject(req), env.ntpAvailable);
    if req.StartUnit? {
      StartActs(p, req, unit, env, signedChar);
    } else {
      OthersDoNotAct(p, req, unit, env, signedChar);
    }
  }

  lemma ServePower(p: Process, req: Request, env: Env, signedChar: bool)
    ensures var o := Serve(p, req, env, signedChar);
      match Asked(req, env)
      case Some(action) =>
        && o.process.power == StartState(p.power, action, env.attempt)
        && o.effects == StartEffects(p.power, action, env.attempt) + [Replied(Done)]
      case None => DoesNotAct(p, o)
  {
    OnlyStartActs(p, req, env, signedChar);
  }

  /** What one step adds to the log. */
  lemma StepLog(s: System, e: Event) returns (more: seq<Effect>)
    requires Enabled(s, e)
    ensures Step(s, e).log == s.log + more
    ensures e.Serves? ==> more == Serve(s.process.value, e.req, e.env, s.signedChar).effects
    ensures !e.Serves? ==> NoPower(more)
  {
    match e
    case Serves(req, env) => more := Serve(s.process.value, req, env, s.signedChar).effects;
    case Fires(_, _) => more := [];
    case Activates(_, connects, agent) => more := Wire(connects, Startup(agent));
  }

  predicate IsSleep(e: Effect) {
    e.Performed? && !IsShutdown(e.action)
  }

  ghost predicate Latched(s: System) {
    s.process.Some? && s.process.value.power.inShutdown
  }

  /** Nothing from position `n` on puts the machine to sleep. */
  ghost predicate StaysAwake(log: seq<Effect>, n: nat) {
    n <= |log| && forall i :: n <= i < |log| ==> !IsSleep(log[i])
  }

  lemma StepLatched(s: System, e: Event, n: nat)
    requires Enabled(s, e) && Latched(s) && StaysAwake(s.log, n)
    ensures Latched(Step(s, e)) && StaysAwake(Step(s, e).log, n)
  {
    if e.Serves? {
      ServePower(s.process.value, e.req, e.env, s.signedChar);
    }
    var more := StepLog(s, e);
    assert StaysAwake(more, 0);
  }

  lemma {:induction false} LatchHolds(s: System, es: seq<Event>, n: nat)
    requires Latched(s) && ValidRun(s, es) && StaysAwake(s.log, n)
    ensures Latched(Run(s, es)) && StaysAwake(Run(s, es).log, n)
  {
    if es != [] {
      LatchHolds(s, es[..|es| - 1], n);
      StepLatched(Run(s, es[..|es| - 1]), es[|es| - 1], n);
    }
  }

  predicate StartsShutdown(e: Event) {
    e.Serves? && e.req.StartUnit? && e.req.name in ["reboot.target", "shutdown.target", "poweroff.target"]
  }

  /** Once a shutdown has been started, whatever is requested and however much time passes, the
      process never leaves, so that it never forgets, and never suspends or hibernates. As every
      part `after` may be the end of a run, the process is there at every moment. */
  lemma ShutdownIsFinal(s: System, before: seq<Event>, e: Event, after: seq<Event>)
    requires StartsShutdown(e) && ValidRun(s, before + [e] + after)
    ensures ValidRun(s, before)
    ensures var end := Run(s, before + [e] + after);
            Latched(end) && StaysAwake(end.log, |Run(s, before).log|)
  {
    RunConcat(s, before + [e], after);
    assert (before + [e])[..|before|] == before;
    StartLatches(Run(s, before), e);
    LatchHolds(Run(s, before + [e]), after, |Run(s, before).log|);
  }

  lemma StartLatches(s: System, e: Event)
    requires StartsShutdown(e) && Enabled(s, e)
    ensures Latched(Step(s, e)) && StaysAwake(Step(s, e).log, |s.log|)
  {
    ServePower(s.process.value, e.req, e.env, s.signedChar);
    var more := StepLog(s, e);
  }

  // ---- The suspend limiter ----

  predicate IsSuspend(e: Effect) {
    e.Performed? && e.action == Suspend
  }

  /** Any two suspends are a second apart, from the end of one to the start of the next. */
  ghost predicate Spaced(log: seq<Effect>) {
    forall i, j :: 0 <= i < j < |log| && IsSuspend(log[i]) && IsSuspend(log[j]) ==>
      log[i].end + SECOND <= log[j].start
  }

  /** Every suspend so far is remembered by the process or a second in the past. */
  ghost predicate Remembered(s: System) {
    forall i :: 0 <= i < |s.log| && IsSuspend(s.log[i]) ==>
      || (s.process.Some? && s.log[i].end <= s.process.value.power.lastSuspend)
      || s.log[i].end + SECOND <= s.now
  }

  /** A step adds at most one suspend, which starts a second or more after every earlier one and
      ends no later than the process remembers. */
  lemma StepSuspends(s: System, e: Event) returns (more: seq<Effect>)
    requires Kept(s) && Remembered(s) && Enabled(s, e)
    ensures Step(s, e).log == s.log + more
    ensures forall j :: 0 <= j < |more| && IsSuspend(more[j]) ==>
      && j == 0
      && (forall i :: 0 <= i < |s.log| && IsSuspend(s.log[i]) ==> s.log[i].end + SECOND <= more[j].start)
      && Step(s, e).process.Some? && more[j].end <= Step(s, e).process.value.power.lastSuspend
  {
    if e.Serves? {
      ServePower(s.process.value, e.req, e.env, s.signedChar);
    }
    more := StepLog(s, e);
  }

  lemma StepRemembers(s: System, e: Event, i: nat)
    requires Kept(s) && Remembered(s) && Enabled(s, e)
    requires i < |s.log| && IsSuspend(s.log[i])
    ensures (Step(s, e).process.Some? && s.log[i].end <= Step(s, e).process.value.power.lastSuspend)
            || s.log[i].end + SECOND <= Step(s, e).now
  {
    if e.Serves? {
      ServePower(s.process.value, e.req, e.env, s.signedChar);
    }
  }

  lemma StepSpaced(s: System, e: Event)
    requires Kept(s) && Spaced(s.log) && Remembered(s) && Enabled(s, e)
    ensures Spaced(Step(s, e).log) && Remembered(Step(s, e))
  {
    var more := StepSuspends(s, e);
    forall i | 0 <= i < |s.log| && IsSuspend(s.log[i])
      ensures (Step(s, e).process.Some? && s.log[i].end <= Step(s, e).process.value.power.lastSuspend)
              || s.log[i].end + SECOND <= Step(s, e).now
    {
      StepRemembers(s, e, i);
    }
  }

  /** From a first activation on, across any number of exits and re-activations, which all
      forget when the last suspend was. */
  lemma {:induction false} SuspendsAreSpaced(s: System, es: seq<Event>)
    requires s.process.None? && NoPower(s.log) && ValidRun(s, es)
    ensures Spaced(Run(s, es).log) && Remembered(Run(s, es))
  {
    if es != [] {
      SuspendsAreSpaced(s, es[..|es| - 1]);
      RunKeeps(s, es[..|es| - 1]);
      StepSpaced(Run(s, es[..|es| - 1]), es[|es| - 1]);
    }
  }
}
