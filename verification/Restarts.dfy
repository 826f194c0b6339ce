/** What leaving after ten idle seconds costs: nothing, as long as the table reaches the disk. */
module Restarts {
  import opened CStrings
  import opened SlicePath
  import opened ObjectPath
  import opened State
  import opened Effects
  import opened CgManager
  import opened CGroupUnit
  import opened PowerUnit
  import opened Daemon
  import opened Virt
  import opened Runs

  // ---- The file ----

  predicate Saves(s: System, e: Event)
    requires Enabled(s, e)
  {
    e.Serves? && e.env.saved && Serve(s.process.value, e.req, e.env, s.signedChar).synced
  }

  /** The table as it was when it was last written out in the run, if it ever was. */
  function LastSaved(s: System, es: seq<Event>): Option<KeyFile>
    requires ValidRun(s, es)
  {
    if es == [] then s.file
    else
      var before, e := Run(s, es[..|es| - 1]), es[|es| - 1];
      if Saves(before, e) then Some(Step(before, e).process.value.image) else LastSaved(s, es[..|es| - 1])
  }

  lemma {:induction false} FileIsLastSaved(s: System, es: seq<Event>)
    requires ValidRun(s, es)
    ensures Run(s, es).file == LastSaved(s, es)
  {
    if es != [] {
      FileIsLastSaved(s, es[..|es| - 1]);
    }
  }

  /** Whatever saves failed, a restarted process has exactly the table of the last one that
      succeeded. */
  lemma RestartLoadsLastSaved(s: System, es: seq<Event>, id: nat, at: nat,
                              again: nat, connects: bool, agent: Option<CString>)
    requires ValidRun(s, es) && Run(s, es).process.Some? && !Run(s, es).process.value.power.inShutdown
    requires Enabled(Run(s, es), Fires(id, at)) && at <= again
    ensures ValidRun(s, es + [Fires(id, at)] + [Activates(again, connects, agent)])
    ensures Run(s, es + [Fires(id, at)] + [Activates(again, connects, agent)]).process
              == Some(Fresh(LastSaved(s, es), connects))
  {
    RunThen(s, es, Fires(id, at));
    RunThen(s, es + [Fires(id, at)], Activates(again, connects, agent));
    FileIsLastSaved(s, es);
  }

  // ---- What a request sees ----

  /** Two processes act alike: they differ at most in their timers, in what they remember of the
      virtualization, and in when they believe the last suspend to have been, by now too long ago
      to matter. */
  ghost predicate Alike(p: Process, q: Process, now: nat) {
    p.image == q.image && p.connected == q.connected && PowerAlike(p.power, q.power, now)
  }

  ghost predicate PowerAlike(p: PowerState, q: PowerState, now: nat) {
    && p.inShutdown == q.inShutdown
    && (p.lastSuspend == q.lastSuspend || (p.lastSuspend + SECOND <= now && q.lastSuspend + SECOND <= now))
  }

  lemma PowerStaysAlike(p: PowerState, q: PowerState, action: PowerAction, a: Attempt, now: nat, done: nat)
    requires PowerAlike(p, q, now) && now <= a.check && now <= done
    ensures StartEffects(p, action, a) == StartEffects(q, action, a)
    ensures PowerAlike(StartState(p, action, a), StartState(q, action, a), done)
  {
  }

  /** The answer to a question for the virtualization; all other requests get none. */
  function Answer(p: Process, req: Request, env: Env): CString {
    if req.GetVirtualization? then Told(Detection(p.virt, env.machine)) else []
  }

  lemma ActOnAlike(p: Process, q: Process, req: Request, unit: Option<Unit>, env: Env, signedChar: bool, now: nat)
    requires Alike(p, q, now) && now <= env.attempt.check && now <= env.done
    ensures var o, o' := ActOn(p, req, unit, env, signedChar), ActOn(q, req, unit, env, signedChar);
            && o.synced == o'.synced && Alike(o.process, o'.process, env.done)
            && if req.GetVirtualization? then
                 && o.effects == [Replied(Virtualization(Answer(p, req, env)))]
                 && o'.effects == [Replied(Virtualization(Answer(q, req, env)))]
               else o.effects == o'.effects
  {
    if req.StartUnit? && unit.Some? {
      StartAlike(p, q, unit.value, env, now);
    }
  }

  lemma StartAlike(p: Process, q: Process, unit: Unit, env: Env, now: nat)
    requires Alike(p, q, now) && now <= env.attempt.check && now <= env.done
    ensures var o, o' := StartOutcome(p, unit, env), StartOutcome(q, unit, env);
            && o.synced == o'.synced && o.effects == o'.effects && Alike(o.process, o'.process, env.done)
  {
    if unit.Power? {
      PowerStaysAlike(p.power, q.power, unit.action, env.attempt, now, env.done);
    }
  }

  lemma ServeAlike(p: Process, q: Process, req: Request, env: Env, signedChar: bool, now: nat)
    requires Alike(p, q, now) && now <= env.begin && WellTimed(env)
    ensures var o, o' := Serve(p, req, env, signedChar), Serve(q, req, env, signedChar);
            var fx, fx' := WithoutStartup(o.effects), WithoutStartup(o'.effects);
            && o.synced == o'.synced && Alike(o.process, o'.process, env.done)
            && |fx| == |fx'| && (fx == fx' <==> Answer(p, req, env) == Answer(q, req, env))
  {
    ActOnAlike(p, q, req, LookupUnit(Subject(req), env.ntpAvailable), env, signedChar, now);
    if req.GetVirtualization? {
      OneReply(Virtualization(Answer(p, req, env)));
      OneReply(Virtualization(Answer(q, req, env)));
    }
  }

  lemma OneReply(reply: Reply)
    ensures WithoutStartup([Replied(reply)]) == [Replied(reply)]
  {
    assert [Replied(reply)][..0] == [];
  }

  // ---- Restarts are invisible ----

  function RequestsOf(es: seq<Event>): seq<Event> {
    if es == [] then []
    else
      var last := es[|es| - 1];
      RequestsOf(es[..|es| - 1]) + (if last.Serves? then [last] else [])
  }

  /** Everything that happened except the calls every process makes when it starts. */
  function WithoutStartup(log: seq<Effect>): seq<Effect> {
    if log == [] then []
    else
      var last := log[|log| - 1];
      WithoutStartup(log[..|log| - 1])
      + (if last in [Sent(MoveSelf), Sent(GetReleaseAgent), Sent(SetReleaseAgent)] then [] else [last])
  }

  lemma {:induction false} WithoutStartupConcat(a: seq<Effect>, b: seq<Effect>)
    ensures WithoutStartup(a + b) == WithoutStartup(a) + WithoutStartup(b)
  {
    if b == [] {
      assert a + b == a;
    } else {
      assert (a + b)[..|a + b| - 1] == a + b[..|b| - 1];
      WithoutStartupConcat(a, b[..|b| - 1]);
    }
  }

  lemma StartupVanishes(connects: bool, agent: Option<CString>)
    ensures WithoutStartup(Wire(connects, Startup(agent))) == []
  {
    var two := [Sent(MoveSelf), Sent(GetReleaseAgent)];
    assert two[..1] == [Sent(MoveSelf)] && [Sent(MoveSelf)][..0] == [];
    assert WithoutStartup(two) == [];
    assert Startup(agent) != two ==> Startup(agent)[..2] == two;
  }

  predicate Leaves(s: System, e: Event)
    requires Enabled(s, e)
  {
    e.Fires? && !s.process.value.power.inShutdown
  }

  /** Whenever the process leaves, the file holds its table, whatever saves failed before; and
      every process is as connected to cgmanager as the first. */
  predicate Undisturbed(s: System, es: seq<Event>, connected: bool)
    requires ValidRun(s, es)
  {
    es == [] || (
      var before, e := Run(s, es[..|es| - 1]), es[|es| - 1];
      && Undisturbed(s, es[..|es| - 1], connected)
      && (Leaves(before, e) ==> Loaded(before.file) == before.process.value.image)
      && (e.Activates? ==> e.connects == connected))
  }

  // ---- What is remembered of the virtualization ----

  function Learnt(memory: Option<Detected>, e: Event): Option<Detected> {
    if e.Serves? && e.req.GetVirtualization? then Cached(Detection(memory, e.env.machine)) else memory
  }

  /** What the present process remembers; the first one began with `start`. */
  function OwnMemory(start: Option<Detected>, es: seq<Event>): Option<Detected> {
    if es == [] then start
    else if es[|es| - 1].Activates? then None
    else Learnt(OwnMemory(start, es[..|es| - 1]), es[|es| - 1])
  }

  /** What a process that had served every request would remember. */
  function FirstMemory(start: Option<Detected>, es: seq<Event>): Option<Detected> {
    if es == [] then start else Learnt(FirstMemory(start, es[..|es| - 1]), es[|es| - 1])
  }

  /** Whenever a process has to detect the virtualization although one before it knew, it is told
      the same again. */
  predicate DetectsAgain(start: Option<Detected>, es: seq<Event>) {
    es == [] || (
      var init, e := es[..|es| - 1], es[|es| - 1];
      && DetectsAgain(start, init)
      && (e.Serves? && e.req.GetVirtualization?
          && OwnMemory(start, init).None? && FirstMemory(start, init).Some?
          ==> Told(Scratch(e.env.machine)) == Told(FirstMemory(start, init).value)))
  }

  predicate NoError(memory: Option<Detected>) {
    memory.Some? ==> memory.value.r >= 0
  }

  lemma {:induction false} MemoriesAgree(start: Option<Detected>, es: seq<Event>)
    requires NoError(start)
    ensures NoError(OwnMemory(start, es)) && NoError(FirstMemory(start, es))
    ensures DetectsAgain(start, es) && OwnMemory(start, es).Some? ==>
      FirstMemory(start, es).Some? && Told(OwnMemory(start, es).value) == Told(FirstMemory(start, es).value)
  {
    if es != [] {
      MemoriesAgree(start, es[..|es| - 1]);
    }
  }

  // ---- The two runs ----

  /** `s` comes and goes; `t` has served the same requests and never left. */
  ghost predicate Matches(s: System, t: System, connected: bool) {
    && t.process.Some? && t.process.value.connected == connected
    && Alike(if s.process.Some? then s.process.value else Fresh(s.file, connected), t.process.value, s.now)
    && t.now <= s.now && s.signedChar == t.signedChar
    && |WithoutStartup(s.log)| == |WithoutStartup(t.log)|
  }

  ghost predicate SameLog(s: System, t: System) {
    WithoutStartup(s.log) == WithoutStartup(t.log)
  }

  lemma ServeMatches(s: System, t: System, e: Event, connected: bool)
    requires Matches(s, t, connected) && Enabled(s, e) && e.Serves?
    ensures Enabled(t, e) && Matches(Step(s, e), Step(t, e), connected)
    ensures SameLog(Step(s, e), Step(t, e)) <==>
      SameLog(s, t) && Answer(s.process.value, e.req, e.env) == Answer(t.process.value, e.req, e.env)
  {
    var p, q := s.process.value, t.process.value;
    ServeAlike(p, q, e.req, e.env, s.signedChar, s.now);
    ActOnKeeps(q, e.req, LookupUnit(Subject(e.req), e.env.ntpAvailable), e.env, s.signedChar);
    var fx, fx' := Serve(p, e.req, e.env, s.signedChar).effects, Serve(q, e.req, e.env, s.signedChar).effects;
    WithoutStartupConcat(s.log, fx);
    WithoutStartupConcat(t.log, fx');
    SameConcat(WithoutStartup(s.log), WithoutStartup(fx), WithoutStartup(t.log), WithoutStartup(fx'));
  }

  lemma SameConcat(a: seq<Effect>, x: seq<Effect>, b: seq<Effect>, y: seq<Effect>)
    requires |a| == |b|
    ensures a + x == b + y <==> a == b && x == y
  {
    assert a == (a + x)[..|a|] && x == (a + x)[|a|..];
    assert b == (b + y)[..|b|] && y == (b + y)[|b|..];
  }

  lemma RestartMatches(s: System, t: System, e: Event, connected: bool)
    requires Matches(s, t, connected) && Kept(s) && Enabled(s, e) && !e.Serves?
    requires Leaves(s, e) ==> Loaded(s.file) == s.process.value.image
    requires e.Activates? ==> e.connects == connected
    ensures Matches(Step(s, e), t, connected)
    ensures SameLog(Step(s, e), t) <==> SameLog(s, t)
  {
    if e.Activates? {
      WithoutStartupConcat(s.log, Wire(e.connects, Startup(e.agent)));
      StartupVanishes(e.connects, e.agent);
    }
  }

  /** What both systems remember of the virtualization. */
  ghost predicate MemoriesAre(s: System, t: System, start: Option<Detected>, es: seq<Event>) {
    && (s.process.Some? ==> s.process.value.virt == OwnMemory(start, es))
    && t.process.Some? && t.process.value.virt == FirstMemory(start, es)
  }

  lemma VirtAfter(p: Process, e: Event, signedChar: bool)
    requires e.Serves?
    ensures Serve(p, e.req, e.env, signedChar).process.virt == Learnt(p.virt, e)
  {
    var unit := LookupUnit(Subject(e.req), e.env.ntpAvailable);
    OnlyDetectionLearns(p, e.req, unit, e.env, signedChar);
  }

  lemma OnlyDetectionLearns(p: Process, req: Request, unit: Option<Unit>, env: Env, signedChar: bool)
    ensures ActOn(p, req, unit, env, signedChar).process.virt
              == if req.GetVirtualization? then Cached(Detection(p.virt, env.machine)) else p.virt
  {
  }

  /** The answers of the two differ exactly when the present process is told anew, and otherwise. */
  lemma AnswersAgree(p: Process, q: Process, start: Option<Detected>, init: seq<Event>, e: Event)
    requires NoError(start) && e.Serves? && DetectsAgain(start, init)
    requires p.virt == OwnMemory(start, init) && q.virt == FirstMemory(start, init)
    ensures Answer(p, e.req, e.env) == Answer(q, e.req, e.env) <==> DetectsAgain(start, init + [e])
  {
    MemoriesAgree(start, init);
    assert (init + [e])[..|init|] == init;
  }

  /** `s` after `es` and `t` after the requests in it: alike, and with the same log exactly when
      the virtualization was detected alike. */
  ghost predicate Paired(s: System, t: System, start: Option<Detected>, es: seq<Event>, connected: bool) {
    && Matches(s, t, connected) && MemoriesAre(s, t, start, es)
    && (SameLog(s, t) <==> DetectsAgain(start, es))
  }

  lemma ServePaired(s: System, t: System, start: Option<Detected>, init: seq<Event>, e: Event, connected: bool)
    requires Paired(s, t, start, init, connected) && NoError(start) && Enabled(s, e) && e.Serves?
    ensures Enabled(t, e) && Paired(Step(s, e), Step(t, e), start, init + [e], connected)
  {
    var p, q := s.process.value, t.process.value;
    assert (init + [e])[..|init|] == init;
    ServeMatches(s, t, e, connected);
    VirtAfter(p, e, s.signedChar);
    VirtAfter(q, e, s.signedChar);
    if DetectsAgain(start, init) {
      AnswersAgree(p, q, start, init, e);
    }
  }

  lemma RestartPaired(s: System, t: System, start: Option<Detected>, init: seq<Event>, e: Event, connected: bool)
    requires Paired(s, t, start, init, connected) && Kept(s) && Enabled(s, e) && !e.Serves?
    requires Leaves(s, e) ==> Loaded(s.file) == s.process.value.image
    requires e.Activates? ==> e.connects == connected
    ensures Paired(Step(s, e), t, start, init + [e], connected)
  {
    assert (init + [e])[..|init|] == init;
    RestartMatches(s, t, e, connected);
  }

  lemma {:induction false} RunsArePaired(s: System, es: seq<Event>, start: Option<Detected>, connected: bool)
    requires Kept(s) && ValidRun(s, es) && Undisturbed(s, es, connected) && NoError(start)
    requires Paired(s, s, start, [], connected)
    ensures ValidRun(s, RequestsOf(es)) && Paired(Run(s, es), Run(s, RequestsOf(es)), start, es, connected)
  {
    if es != [] {
      var init := es[..|es| - 1];
      RunsArePaired(s, init, start, connected);
      RunKeeps(s, init);
      PairedNext(s, Run(s, init), RequestsOf(init), es, start, connected);
    }
  }

  lemma PairedNext(s: System, now: System, reqs: seq<Event>, es: seq<Event>, start: Option<Detected>, connected: bool)
    requires ValidRun(s, reqs) && Kept(now) && es != [] && NoError(start)
    requires Paired(now, Run(s, reqs), start, es[..|es| - 1], connected)
    requires var e := es[|es| - 1];
             && Enabled(now, e)
             && (Leaves(now, e) ==> Loaded(now.file) == now.process.value.image)
             && (e.Activates? ==> e.connects == connected)
    ensures var e := es[|es| - 1];
            var next := reqs + (if e.Serves? then [e] else []);
            ValidRun(s, next) && Paired(Step(now, e), Run(s, next), start, es, connected)
  {
    var init, e := es[..|es| - 1], es[|es| - 1];
    assert es == init + [e];
    if e.Serves? {
      ServePaired(now, Run(s, reqs), start, init, e, connected);
      RunThen(s, reqs, e);
    } else {
      RestartPaired(now, Run(s, reqs), start, init, e, connected);
      assert reqs + [] == reqs;
    }
  }

  /** Any run, with any number of inactivity exits and re-activations, makes the same calls,
      performs the same actions and gives the same answers as the same requests would without
      them, apart from the startup calls of each process, exactly when every process that has to
      detect the virtualization anew is told the same. The suspend limiter forgets nothing that
      still matters, because a process only leaves ten seconds after its last suspend. */
  lemma RestartsAreInvisible(s: System, es: seq<Event>)
    requires s.process.Some? && Kept(s)
    requires ValidRun(s, es) && Undisturbed(s, es, s.process.value.connected)
    ensures ValidRun(s, RequestsOf(es))
    ensures SameLog(Run(s, es), Run(s, RequestsOf(es))) <==> DetectsAgain(s.process.value.virt, es)
  {
    RunsArePaired(s, es, s.process.value.virt, s.process.value.connected);
  }

  // ---- The power state as history ----

  /** What one process that had served every request so far would remember. */
  function PowerHistory(es: seq<Event>): PowerState {
    if es == [] then PowerState(false, 0)
    else
      var before, e := PowerHistory(es[..|es| - 1]), es[|es| - 1];
      if e.Serves? && Asked(e.req, e.env).Some? then StartState(before, Asked(e.req, e.env).value, e.env.attempt)
      else before
  }

  ghost predicate RemembersHistory(s: System, history: PowerState) {
    PowerAlike(if s.process.Some? then s.process.value.power else PowerState(false, 0), history, s.now)
  }

  lemma StepRemembersHistory(s: System, e: Event, history: PowerState)
    requires Kept(s) && Enabled(s, e) && RemembersHistory(s, history)
    ensures RemembersHistory(Step(s, e),
              if e.Serves? && Asked(e.req, e.env).Some?
              then StartState(history, Asked(e.req, e.env).value, e.env.attempt)
              else history)
  {
  }

  lemma {:induction false} RunRemembersHistory(s: System, es: seq<Event>)
    requires s.process.None? && ValidRun(s, es)
    ensures RemembersHistory(Run(s, es), PowerHistory(es))
  {
    if es != [] {
      RunRemembersHistory(s, es[..|es| - 1]);
      RunKeeps(s, es[..|es| - 1]);
      StepRemembersHistory(Run(s, es[..|es| - 1]), es[|es| - 1], PowerHistory(es[..|es| - 1]));
    }
  }

  /** Some request so far was for a shutdown or a reboot. */
  predicate ShutdownRequested(es: seq<Event>) {
    es != [] && (StartsShutdown(es[|es| - 1]) || ShutdownRequested(es[..|es| - 1]))
  }

  lemma {:induction false} RequestedSomewhere(es: seq<Event>)
    ensures ShutdownRequested(es) <==> exists i :: 0 <= i < |es| && StartsShutdown(es[i])
  {
    if es != [] {
      RequestedSomewhere(es[..|es| - 1]);
      assert forall i :: 0 <= i < |es| - 1 ==> es[..|es| - 1][i] == es[i];
    }
  }

  predicate IsSuspendRequest(e: Event) {
    e.Serves? && e.req == StartUnit("suspend.target")
  }

  /** The request can be carried out: there is a way to sleep, and no shutdown was asked for. */
  predicate MaySleep(es: seq<Event>, a: Attempt) {
    !ShutdownRequested(es) && (a.executable || a.writable)
  }

  /** When the last request to suspend that was carried out was over; 0 if there was none. A
      second has to pass before the next can be. */
  function LastSuspend(es: seq<Event>): nat {
    if es == [] then 0
    else
      var init, e := es[..|es| - 1], es[|es| - 1];
      if IsSuspendRequest(e) && MaySleep(init, e.env.attempt) && LastSuspend(init) + 1_000_000 <= e.env.attempt.check
      then e.env.attempt.stamp
      else LastSuspend(init)
  }

  lemma AskedIs(e: Event)
    requires e.Serves?
    ensures Asked(e.req, e.env) == Some(Suspend) <==> IsSuspendRequest(e)
    ensures (Asked(e.req, e.env) == Some(Off) || Asked(e.req, e.env) == Some(Reboot)) <==> StartsShutdown(e)
  {
  }

  lemma {:induction false} HistoryIs(es: seq<Event>)
    ensures PowerHistory(es) == PowerState(ShutdownRequested(es), LastSuspend(es))
  {
    if es != [] {
      HistoryIs(es[..|es| - 1]);
      if es[|es| - 1].Serves? {
        AskedIs(es[|es| - 1]);
      }
    }
  }

  function Starts(name: CString, env: Env): Event {
    Serves(StartUnit(name), env)
  }

  lemma SleepsByHistory(s: System, es: seq<Event>, name: CString, action: PowerAction, env: Env)
    requires s.process.None? && ValidRun(s, es) && Enabled(Run(s, es), Starts(name, env))
    requires Asked(StartUnit(name), env) == Some(action)
    ensures Step(Run(s, es), Starts(name, env)).log
              == Run(s, es).log + (StartEffects(PowerHistory(es), action, env.attempt) + [Replied(Done)])
  {
    RunRemembersHistory(s, es);
    var now := Run(s, es);
    PowerStaysAlike(now.process.value.power, PowerHistory(es), action, env.attempt, now.now, env.done);
    ServePower(now.process.value, StartUnit(name), env, s.signedChar);
  }

  /** A request to suspend is carried out exactly when no shutdown has ever been started, there
      is a way to suspend, and a second has passed since the last suspend of any process. */
  lemma SuspendsExactly(s: System, es: seq<Event>, env: Env)
    requires s.process.None? && ValidRun(s, es) && Enabled(Run(s, es), Starts("suspend.target", env))
    ensures var a := env.attempt;
            Step(Run(s, es), Starts("suspend.target", env)).log == Run(s, es).log
              + ((if MaySleep(es, a) && LastSuspend(es) + 1_000_000 <= a.check
                  then [Performed(Suspend, a.start, a.end)] else [])
                 + [Replied(Done)])
  {
    SleepsByHistory(s, es, "suspend.target", Suspend, env);
    HistoryIs(es);
  }

  /** Hibernating is not limited. */
  lemma HibernatesExactly(s: System, es: seq<Event>, env: Env)
    requires s.process.None? && ValidRun(s, es) && Enabled(Run(s, es), Starts("hibernate.target", env))
    ensures var a := env.attempt;
            Step(Run(s, es), Starts("hibernate.target", env)).log == Run(s, es).log
              + ((if MaySleep(es, a) then [Performed(Hibernate, a.start, a.end)] else []) + [Replied(Done)])
  {
    SleepsByHistory(s, es, "hibernate.target", Hibernate, env);
    HistoryIs(es);
  }

  // ---- The conditions are needed ----

  /** What stopping a unit shows of its entry: its path to cgmanager, or just a write. */
  ghost predicate ShowsSame(p: Process, table: KeyFile, name: CString) {
    if p.connected then Lookup(p.image, name) == Lookup(table, name)
    else Lookup(p.image, name).Some? == Lookup(table, name).Some?
  }

  lemma StopShows(p: Process, name: CString, env: Env)
    ensures var path := Lookup(p.image, name);
            StopOutcome(p, CGroup(name), env).effects[0] ==
              if path.None? then Replied(Done) else if p.connected then Sent(GetTasks(path.value)) else WroteState
  {
  }

  /** A unit that two tables record differently shows as soon as it is stopped. */
  lemma DifferenceShows(p: Process, table: KeyFile, name: CString, env: Env, signedChar: bool)
    requires IsUnitName(name) && !ShowsSame(p, table, name)
    ensures Act(p, StopUnit(name), env, signedChar).effects
              != Act(p.(image := table), StopUnit(name), env, signedChar).effects
  {
    LookupCGroup(name, env.ntpAvailable, name);
    StopShows(p, name, env);
    StopShows(p.(image := table), name, env);
  }

  /** The two tables list the same nodes and record every unit alike, as far as it shows. */
  ghost predicate LooksSame(p: Process, table: KeyFile, signedChar: bool) {
    && NodesOf(p.image, signedChar) == NodesOf(table, signedChar)
    && forall name :: IsUnitName(name) ==> ShowsSame(p, table, name)
  }

  /** No request that can come from now on has other effects with the other table. */
  ghost predicate ActsSame(p: Process, table: KeyFile, now: nat, signedChar: bool) {
    forall req: Request, env: Env :: now <= env.begin && WellTimed(env) ==>
      Act(p, req, env, signedChar).effects == Act(p.(image := table), req, env, signedChar).effects
  }

  /** Nothing happens in no time. */
  function Quiet(now: nat): (env: Env)
    ensures env.begin == now && WellTimed(env)
  {
    Env(now, now, [], true, Attempt(now, now, now, now, false, false),
        Machine(0, 0, false, false, None, None, []), false, false)
  }

  /** What is done to one unit shows its own entry at most. */
  lemma UnitActsSame(p: Process, table: KeyFile, name: CString, rounds: seq<Round>, props: seq<Property>)
    requires ShowsSame(p, table, name)
    ensures var image, c := p.image, p.connected;
            && StartChange(image, c, name).Effects() == StartChange(table, c, name).Effects()
            && StartTransientChange(image, c, name, props).Effects()
                 == StartTransientChange(table, c, name, props).Effects()
            && StopChange(image, c, name, rounds).Effects() == StopChange(table, c, name, rounds).Effects()
            && AbandonChange(image, c, name).Effects() == AbandonChange(table, c, name).Effects()
  {
  }

  lemma ActOnSame(p: Process, table: KeyFile, req: Request, unit: Option<Unit>, env: Env, signedChar: bool)
    requires NodesOf(p.image, signedChar) == NodesOf(table, signedChar)
    requires unit.Some? && unit.value.CGroup? ==> ShowsSame(p, table, unit.value.name)
    ensures ActOn(p, req, unit, env, signedChar).effects
              == ActOn(p.(image := table), req, unit, env, signedChar).effects
  {
    if unit.Some? && unit.value.CGroup? {
      UnitActsSame(p, table, unit.value.name, env.rounds, if req.StartTransientUnit? then req.props else []);
    }
  }

  lemma LooksSameActsSame(p: Process, table: KeyFile, req: Request, env: Env, signedChar: bool)
    requires LooksSame(p, table, signedChar)
    ensures Act(p, req, env, signedChar).effects == Act(p.(image := table), req, env, signedChar).effects
  {
    var unit := LookupUnit(Subject(req), env.ntpAvailable);
    if unit.Some? && unit.value.CGroup? {
      LookupCGroup(Subject(req), env.ntpAvailable, unit.value.name);
    }
    ActOnSame(p, table, req, unit, env, signedChar);
  }

  /** A restart that swaps the table `p.image` for `table` goes unnoticed by the next request,
      whatever it is, exactly when both list the same nodes and record every unit alike, for
      either signedness of `char` and with or without a connection. */
  lemma UnnoticedExactly(p: Process, table: KeyFile, now: nat, signedChar: bool)
    ensures ActsSame(p, table, now, signedChar) <==> LooksSame(p, table, signedChar)
  {
    var q := p.(image := table);
    if LooksSame(p, table, signedChar) {
      forall req, env ensures Act(p, req, env, signedChar).effects == Act(q, req, env, signedChar).effects {
        LooksSameActsSame(p, table, req, env, signedChar);
      }
    }
    if ActsSame(p, table, now, signedChar) {
      var env := Quiet(now);
      forall name | IsUnitName(name) ensures ShowsSame(p, table, name) {
        assert Act(p, StopUnit(name), env, signedChar).effects == Act(q, StopUnit(name), env, signedChar).effects;
        if !ShowsSame(p, table, name) {
          DifferenceShows(p, table, name, env, signedChar);
        }
      }
      assert Act(p, Enumerate, env, signedChar).effects == Act(q, Enumerate, env, signedChar).effects;
      assert Act(p, Enumerate, env, signedChar).effects[0] == Replied(Nodes(NodesOf(p.image, signedChar)));
      assert Act(q, Enumerate, env, signedChar).effects[0] == Replied(Nodes(NodesOf(table, signedChar)));
    }
  }

  /** Tables that list the same names in the same order with the same paths are the same. */
  lemma SameListSameTable(a: KeyFile, b: KeyFile)
    requires Recorded(a) && Recorded(b) && NodesOf(a, false) == NodesOf(b, false)
    requires forall name :: IsUnitName(name) ==> Lookup(a, name) == Lookup(b, name)
    ensures a == b
  {
    assert |a| == |NodesOf(a, false)| == |b|;
    forall i | 0 <= i < |a| ensures a[i] == b[i] {
      assert NodesOf(a, false)[i] == NodesOf(b, false)[i];
      NodeCollisions(a[i].name, b[i].name);
      assert a[i] in a && b[i] in b;
      LookupIsMembership(a, a[i].name);
      LookupIsMembership(b, b[i].name);
      assert FromStart(a[i]);
    }
  }

  /** With an unsigned `char` and a connection, that is when nothing was lost, and then nothing
      ever shows. */
  lemma UnnoticedUnsigned(p: Process, table: KeyFile, now: nat)
    requires p.connected && Recorded(p.image) && Recorded(table)
    ensures ActsSame(p, table, now, false) <==> p.image == table
  {
    UnnoticedExactly(p, table, now, false);
    if LooksSame(p, table, false) {
      assert forall name :: IsUnitName(name) ==> ShowsSame(p, table, name);
      SameListSameTable(p.image, table);
    }
  }

  lemma StartShows(p: Process, name: CString, env: Env)
    requires IsSlice(name)
    ensures StartOutcome(p, CGroup(name), env).effects[0] ==
      if p.connected then Sent(CgCall.Create(Relative(PathOf(name)))) else WroteState
  {
  }

  /** A process that finds cgmanager where another did not sends what the other kept to itself. */
  lemma ConnectionIsVisible(p: Process, q: Process, name: CString, env: Env, signedChar: bool)
    requires p.connected && !q.connected && IsSlice(name)
    ensures Act(p, StartUnit(name), env, signedChar).effects != Act(q, StartUnit(name), env, signedChar).effects
  {
    LookupCGroup(name, env.ntpAvailable, name);
    StartShows(p, name, env);
    StartShows(q, name, env);
  }
}
