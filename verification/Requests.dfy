/** What every request does, in terms of the names, properties and bytes that come with it and of
    nothing else. */
module Requests {
  import opened CStrings
  import opened SlicePath
  import opened ObjectPath
  import opened State
  import opened Effects
  import opened CgManager
  import opened Addresses
  import opened CGroupUnit
  import opened PowerUnit
  import opened Daemon
  import opened Virt
  import opened Runs

  /** The request is answered and nothing else happens. */
  function Only(p: Process, reply: Reply): Outcome {
    Outcome(p, false, [Replied(reply)])
  }

  // ---- Which names are units ----

  ghost predicate IsPowerTarget(name: CString) {
    name in ["suspend.target", "hibernate.target", "reboot.target", "shutdown.target", "poweroff.target"]
  }

  ghost predicate IsTimeService(name: CString) {
    name in ["ntpd.service", "systemd-timesyncd.service"]
  }

  ghost predicate IsKnown(name: CString, ntpAvailable: bool) {
    || IsPowerTarget(name)
    || HasSuffix(name, ".slice") || HasSuffix(name, ".scope")
    || (ntpAvailable && IsTimeService(name))
  }

  ghost predicate IsAbout(req: Request, name: CString) {
    || req == GetUnitFileState(name) || req == StartUnit(name) || req == StopUnit(name)
    || (req.StartTransientUnit? && req.name == name)
    || (req.Abandon? && Unescape(req.node) == name)
  }

  lemma KnownResolves(name: CString, ntpAvailable: bool)
    ensures LookupUnit(name, ntpAvailable).Some? <==> IsKnown(name, ntpAvailable)
  {
  }

  /** Every request is answered once, when everything else has been done. */
  ghost predicate AnsweredLast(effects: seq<Effect>) {
    effects != [] && forall i :: 0 <= i < |effects| ==> (effects[i].Replied? <==> i == |effects| - 1)
  }

  lemma UnitIsAnswered(p: Process, req: Request, name: CString, env: Env, signedChar: bool)
    ensures var fx := ActOn(p, req, Some(CGroup(name)), env, signedChar).effects;
            AnsweredLast(fx) && !fx[|fx| - 1].reply.UnknownUnit?
  {
    var calls, reply := UnitCallsThenAnswers(p, req, name, env, signedChar);
  }

  lemma EveryRequestIsAnswered(p: Process, req: Request, env: Env, signedChar: bool)
    ensures AnsweredLast(Act(p, req, env, signedChar).effects)
  {
    var unit := LookupUnit(Subject(req), env.ntpAvailable);
    if unit.Some? && unit.value.CGroup? {
      UnitIsAnswered(p, req, unit.value.name, env, signedChar);
    }
  }

  ghost predicate Refuses(effects: seq<Effect>, name: CString) {
    Replied(UnknownUnit(name)) in effects
  }

  /** A request about a name that is no unit is refused with that name and does nothing else; a
      request about a unit is not refused. */
  lemma RefusedExactly(p: Process, req: Request, name: CString, env: Env, signedChar: bool)
    requires IsAbout(req, name)
    ensures var o := Act(p, req, env, signedChar);
            if IsKnown(name, env.ntpAvailable) then forall other :: !Refuses(o.effects, other)
            else o == Only(p, UnknownUnit(name))
  {
    KnownResolves(name, env.ntpAvailable);
    if IsKnown(name, env.ntpAvailable) {
      UnitIsNotRefused(p, req, LookupUnit(name, env.ntpAvailable).value, env, signedChar);
    }
  }

  lemma UnitIsNotRefused(p: Process, req: Request, unit: Unit, env: Env, signedChar: bool)
    ensures forall other :: !Refuses(ActOn(p, req, Some(unit), env, signedChar).effects, other)
  {
    if unit.CGroup? {
      UnitIsAnswered(p, req, unit.name, env, signedChar);
    }
  }

  // ---- Power ----

  /** Latches, keeps the process from being killed, and performs the action named. */
  lemma StartShutdown(p: Process, env: Env, signedChar: bool)
    ensures var down, a := p.(power := p.power.(inShutdown := true)), env.attempt;
            && Act(p, StartUnit("poweroff.target"), env, signedChar)
                 == Outcome(down, false, [OmittedFromKill, Performed(Off, a.start, a.end), Replied(Done)])
            && Act(p, StartUnit("shutdown.target"), env, signedChar)
                 == Outcome(down, false, [OmittedFromKill, Performed(Off, a.start, a.end), Replied(Done)])
            && Act(p, StartUnit("reboot.target"), env, signedChar)
                 == Outcome(down, false, [OmittedFromKill, Performed(Reboot, a.start, a.end), Replied(Done)])
  {
  }

  /** A suspend needs a way to do it, no shutdown under way and a second since the last one ended,
      which it then is itself; hibernating needs the first two and leaves the limiter alone. */
  lemma StartSleep(p: Process, env: Env, signedChar: bool)
    ensures var a := env.attempt;
            var able := !p.power.inShutdown && (a.executable || a.writable);
            && Act(p, StartUnit("suspend.target"), env, signedChar) == (
                 if able && p.power.lastSuspend + 1_000_000 <= a.check
                 then Outcome(p.(power := p.power.(lastSuspend := a.stamp)), false,
                              [Performed(Suspend, a.start, a.end), Replied(Done)])
                 else Only(p, Done))
            && Act(p, StartUnit("hibernate.target"), env, signedChar) == (
                 if able then Outcome(p, false, [Performed(Hibernate, a.start, a.end), Replied(Done)])
                 else Only(p, Done))
  {
  }

  /** Nothing but a start means anything to a power unit. */
  lemma PowerIsOnlyStarted(p: Process, req: Request, name: CString, env: Env, signedChar: bool)
    requires IsAbout(req, name) && IsPowerTarget(name) && !req.StartUnit?
    ensures Act(p, req, env, signedChar)
              == Only(p, if req.GetUnitFileState? then UnitState("static") else Done)
  {
  }

  // ---- The time service ----

  function TimeState(enabled: bool): CString {
    if enabled then "enabled" else "disabled"
  }

  /** Starting switches it on and stopping switches it off; its state is as it is used; nothing
      else means anything to it. */
  lemma TimeService(p: Process, req: Request, name: CString, env: Env, signedChar: bool)
    requires IsAbout(req, name) && IsTimeService(name) && env.ntpAvailable
    ensures Act(p, req, env, signedChar) ==
      if req.StartUnit? then Outcome(p, false, [SwitchedNtp(true), Replied(Done)])
      else if req.StopUnit? then Outcome(p, false, [SwitchedNtp(false), Replied(Done)])
      else if req.GetUnitFileState? then
        Only(p, UnitState(TimeState(env.ntpEnabled)))
      else Only(p, Done)
  {
    LookupTimeService(name, true);
  }

  // ---- Slices and scopes ----

  /** The table with `path` for `name`, if the key file can hold the name. */
  ghost predicate Records(before: KeyFile, after: KeyFile, name: CString, path: CString) {
    forall other :: Lookup(after, other) ==
      if other == name && ValidGroupName(name) then Some(path) else Lookup(before, other)
  }

  /** Everything a successful start does, in order: calls if there is a connection, the write, the
      answer. */
  ghost predicate Starts(p: Process, o: Outcome, name: CString, path: CString, address: CString,
                         uid: int, pids: seq<Pid>)
  {
    && o.process == p.(image := o.process.image) && o.synced
    && Records(p.image, o.process.image, name, path)
    && var n := |o.effects| - 2;
       && n >= 0 && o.effects[n..] == [WroteState, Replied(Done)]
       && if p.connected then CreationTrace(o.effects[..n], address, uid, pids) else n == 0
  }

  lemma PutRecords(image: KeyFile, name: CString, path: CString)
    ensures Records(image, SetPath(image, name, path), name, path)
  {
    PutIs(image, name, path);
  }

  lemma ChangeStarts(p: Process, name: CString, path: CString, uid: int, pids: seq<Pid>)
    ensures var calls := Wire(p.connected, Creation(Relative(path), uid, pids));
            Starts(p, Changed(p, Change(SetPath(p.image, name, path), true, calls), Done),
                   name, path, Relative(path), uid, pids)
  {
    var calls := Wire(p.connected, Creation(Relative(path), uid, pids));
    var fx := Changed(p, Change(SetPath(p.image, name, path), true, calls), Done).effects;
    assert fx == calls + [WroteState, Replied(Done)];
    assert fx[..|fx| - 2] == calls;
    PutRecords(p.image, name, path);
    CreationIsTraced(Relative(path), uid, pids);
  }

  /** Starting a slice, and nothing but a slice. */
  lemma StartCGroup(p: Process, name: CString, env: Env, signedChar: bool)
    requires IsUnitName(name)
    ensures var o := Act(p, StartUnit(name), env, signedChar);
            if HasSuffix(name, ".slice")
            then Starts(p, o, name, PathOf(name), Address(name, None), SliceUid(name), [])
            else o == Only(p, Done)
  {
    LookupCGroup(name, env.ntpAvailable, name);
    if IsSlice(name) {
      ChangeStarts(p, name, PathOf(name), SliceUid(name), []);
    }
  }

  /** Starting a scope transiently in the last of the slices that the properties name, with all the
      processes that they list. */
  lemma StartTransientCGroup(p: Process, name: CString, props: seq<Property>, env: Env, signedChar: bool)
    requires IsUnitName(name)
    ensures var o := Act(p, StartTransientUnit(name, props), env, signedChar);
            && (forall i: nat :: IsScope(name) && LastSliceAt(props, i) && IsSlice(props[i].value.s) ==>
                  var slice := props[i].value.s;
                  Starts(p, o, name, UnitPath(slice, Some(name)), Address(slice, Some(name)),
                         SliceUid(slice), AllPids(props)))
            && (!IsScope(name) || (forall i: nat :: LastSliceAt(props, i) ==> !IsSlice(props[i].value.s))
                ==> o == Only(p, Done))
  {
    LookupCGroup(name, env.ntpAvailable, name);
    StartTransientRefused(p.image, p.connected, name, props);
    forall i: nat | IsScope(name) && LastSliceAt(props, i) && IsSlice(props[i].value.s)
      ensures var slice := props[i].value.s;
              Starts(p, Act(p, StartTransientUnit(name, props), env, signedChar), name,
                     UnitPath(slice, Some(name)), Address(slice, Some(name)), SliceUid(slice), AllPids(props))
    {
      LastSliceWins(props, i);
      ChangeStarts(p, name, UnitPath(props[i].value.s, Some(name)), SliceUid(props[i].value.s), AllPids(props));
    }
  }

  /** The table without `name`. */
  ghost predicate Forgets(before: KeyFile, after: KeyFile, name: CString) {
    forall other :: Lookup(after, other) == if other == name then None else Lookup(before, other)
  }

  /** Stopping a recorded unit: one to six rounds as the answers decide, the write, the answer. */
  lemma StopCGroup(p: Process, name: CString, env: Env, signedChar: bool) returns (n: nat)
    requires IsUnitName(name) && Distinct(p.image)
    ensures var o, path := Act(p, StopUnit(name), env, signedChar), Lookup(p.image, name);
            if path.None? then o == Only(p, Done)
            else
              && o.process == p.(image := o.process.image) && o.synced && Forgets(p.image, o.process.image, name)
              && 1 <= n <= 6
              && (forall k: nat :: k < n - 1 ==> !RoundAt(env.rounds, k).removed)
              && (n < 6 ==> RoundAt(env.rounds, n - 1).removed)
              && o.effects == Wire(p.connected, FirstRounds(path.value, env.rounds, n)) + [WroteState] + [Replied(Done)]
  {
    LookupCGroup(name, env.ntpAvailable, name);
    n := 0;
    if Lookup(p.image, name).Some? {
      n := StopExactly(p.image, p.connected, name, env.rounds);
    }
  }

  /** Abandoning a recorded unit through any node that decodes to it. */
  lemma AbandonCGroup(p: Process, node: CString, env: Env, signedChar: bool)
    requires IsUnitName(Unescape(node)) && Distinct(p.image)
    ensures var o, name := Act(p, Abandon(node), env, signedChar), Unescape(node);
            match Lookup(p.image, name)
            case None => o == Only(p, Done)
            case Some(path) =>
              && o.process == p.(image := o.process.image) && o.synced && Forgets(p.image, o.process.image, name)
              && o.effects == (if p.connected then [Sent(CgCall.Prune(path))] else []) + [WroteState] + [Replied(Done)]
  {
    var name := Unescape(node);
    LookupCGroup(name, env.ntpAvailable, name);
    RemoveGroupIs(p.image, name);
    forall other
      ensures Lookup(RemoveGroup(p.image, name), other) == if other == name then None else Lookup(p.image, other)
    {
      WithoutLookup(p.image, {name}, other);
    }
  }

  // ---- The others ----

  /** The state of a slice or scope is its name. */
  lemma StateOfCGroup(p: Process, name: CString, env: Env, signedChar: bool)
    requires IsUnitName(name)
    ensures Act(p, GetUnitFileState(name), env, signedChar) == Only(p, UnitState(name))
  {
    LookupCGroup(name, env.ntpAvailable, name);
  }

  lemma ListUnits(p: Process, env: Env, signedChar: bool) returns (nodes: seq<CString>)
    ensures Act(p, Enumerate, env, signedChar) == Only(p, Nodes(nodes))
    ensures |nodes| == |p.image|
    ensures forall i :: 0 <= i < |nodes| ==> nodes[i] == Escape(p.image[i].name, signedChar)
  {
    nodes := NodesOf(p.image, signedChar);
  }

  lemma FixedReplies(p: Process, env: Env, signedChar: bool)
    ensures Act(p, OtherManagerCall, env, signedChar) == Only(p, Done) == Act(p, OtherProperty, env, signedChar)
  {
  }

  /** What a process that has detected nothing yet says of the machine, and remembers. */
  lemma FirstVirtualization(p: Process, env: Env, signedChar: bool)
    requires p.virt.None?
    ensures var o, m := Act(p, GetVirtualization, env, signedChar), env.machine;
            && o == Outcome(p.(virt := o.process.virt), false, o.effects)
            && (forall id :: m.euid == 0 && (ContainerNamed(m, id) || (!InContainer(m) && VmNamed(m, id))) ==>
                  o.effects == [Replied(Virtualization(id))] && o.process.virt.Some?)
            && (forall errno: Errno :: (if m.euid != 0 then errno == 1 else !InContainer(m) && VmFails(m, errno)) ==>
                  o.effects == [Replied(Virtualization([]))] && o.process.virt.None?)
            && (FindsNothing(m) ==>
                  o.effects == [Replied(Virtualization([]))] && o.process.virt == Some(Detected(0, None)))
  {
    var m := env.machine;
    VirtualizationExactly(m);
    forall id | m.euid == 0 && (ContainerNamed(m, id) || (!InContainer(m) && VmNamed(m, id)))
      ensures Scratch(m).id == Some(id) && Scratch(m).r > 0
    {
      assert Scratch(m) == Detected(2, Some(id)) || Scratch(m) == Detected(1, Some(id));
    }
    forall errno: Errno | if m.euid != 0 then errno == 1 else !InContainer(m) && VmFails(m, errno)
      ensures Scratch(m) == Detected(0 - errno, None)
    {
    }
  }

  /** What has been detected once is said ever after. */
  lemma LaterVirtualization(p: Process, env: Env, signedChar: bool)
    requires p.virt.Some? && p.virt.value.r >= 0
    ensures Act(p, GetVirtualization, env, signedChar)
              == Only(p, Virtualization(if p.virt.value.id.Some? then p.virt.value.id.value else []))
  {
  }

  // ---- When the process may leave ----

  /** The calls that count as activity when they are done. */
  ghost predicate CountsWhenDone(req: Request) {
    match req
    case GetUnitFileState(_) => true
    case StartUnit(_) => true
    case StopUnit(_) => true
    case StartTransientUnit(_, _) => true
    case OtherManagerCall => true
    case GetVirtualization => false
    case OtherProperty => false
    case Abandon(_) => false
    case Enumerate => false
  }

  /** Serving does what acting does and sets the one timer to ten seconds, in microseconds, after
      the request was done or had begun. */
  lemma ServingActs(p: Process, req: Request, env: Env, signedChar: bool)
    requires forall id :: id in p.sources ==> id == p.timeout != 0
    ensures var o := Act(p, req, env, signedChar);
            var due := (if CountsWhenDone(req) then env.done else env.begin) + 10_000_000;
            Serve(p, req, env, signedChar) == o.(process := WithTimer(o.process, p.nextId, due))
  {
    ActKeepsTimers(p, req, env, signedChar);
    RearmedIs(Act(p, req, env, signedChar).process, ActivityTime(req, env));
    CountedWhen(req, env);
  }

  /** The process with `id`, due at `due`, as its one timer. */
  function WithTimer(p: Process, id: nat, due: nat): Process {
    p.(sources := map[id := due], timeout := id, nextId := id + 1)
  }

  lemma ActKeepsTimers(p: Process, req: Request, env: Env, signedChar: bool)
    ensures var q := Act(p, req, env, signedChar).process;
            q.sources == p.sources && q.timeout == p.timeout && q.nextId == p.nextId
  {
    ActOnKeeps(p, req, LookupUnit(Subject(req), env.ntpAvailable), env, signedChar);
  }

  lemma RearmedIs(p: Process, now: nat)
    requires forall id :: id in p.sources ==> id == p.timeout != 0
    ensures Rearmed(p, now) == WithTimer(p, p.nextId, now + 10_000_000)
  {
  }

  lemma CountedWhen(req: Request, env: Env)
    ensures ActivityTime(req, env) == if CountsWhenDone(req) then env.done else env.begin
  {
  }

  /** A process that starts moves itself out of the way, asks for the release agent, and sets it
      exactly when there is none; it has what the file holds and nothing else. */
  lemma Activation(s: System, at: nat, connects: bool, agent: Option<CString>)
    requires Enabled(s, Activates(at, connects, agent))
    ensures var q := Step(s, Activates(at, connects, agent));
            && q.log == s.log + (if !connects then []
                                 else if agent == None || agent == Some([])
                                 then [Sent(MoveSelf), Sent(GetReleaseAgent), Sent(SetReleaseAgent)]
                                 else [Sent(MoveSelf), Sent(GetReleaseAgent)])
            && q.process == Some(Process(if s.file.Some? then s.file.value else [], connects,
                                         PowerState(false, 0), None, map[], 1, 0))
            && q.now == at && q.file == s.file
  {
  }
}
