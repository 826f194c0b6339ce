/** src/unit.c and src/systemd-shim.c: resolving unit names, serving requests and leaving after
    ten seconds without one. */
module Daemon {
  import opened CStrings
  import opened SlicePath
  import opened ObjectPath
  import opened State
  import opened Effects
  import opened CgManager
  import opened CGroupUnit
  import opened PowerUnit
  import opened Virt

  // ---- Units ----

  datatype Unit = Ntp | Power(action: PowerAction) | CGroup(name: CString)

  /** `ntpAvailable` is whether any time-keeping service is installed. */
  function LookupUnit(name: CString, ntpAvailable: bool): Option<Unit> {
    var ntp := if name == "ntpd.service" || name == "systemd-timesyncd.service"
               then (if ntpAvailable then Some(Ntp) else None) else None;
    if name == "suspend.target" then Some(Power(Suspend))
    else if name == "hibernate.target" then Some(Power(Hibernate))
    else if name == "reboot.target" then Some(Power(Reboot))
    else if name == "shutdown.target" || name == "poweroff.target" then Some(Power(Off))
    else if HasSuffix(name, SLICE) || HasSuffix(name, SCOPE) then Some(CGroup(name))
    else ntp
  }

  /** Slices and scopes resolve to themselves, and nothing else resolves to a cgroup unit. */
  lemma LookupCGroup(name: CString, ntpAvailable: bool, unit: CString)
    ensures LookupUnit(name, ntpAvailable) == Some(CGroup(unit)) <==> unit == name && IsUnitName(name)
  {
  }

  /** Every power action has its own targets. */
  lemma LookupPower(name: CString, ntpAvailable: bool, action: PowerAction)
    ensures LookupUnit(name, ntpAvailable) == Some(Power(action)) <==> name in TargetsOf(action)
  {
  }

  function TargetsOf(action: PowerAction): seq<CString> {
    match action
    case Off => ["shutdown.target", "poweroff.target"]
    case Reboot => ["reboot.target"]
    case Suspend => ["suspend.target"]
    case Hibernate => ["hibernate.target"]
  }

  /** Only the two time services depend on what is installed. */
  lemma LookupTimeService(name: CString, ntpAvailable: bool)
    ensures LookupUnit(name, ntpAvailable) == Some(Ntp) <==>
      ntpAvailable && (name == "ntpd.service" || name == "systemd-timesyncd.service")
  {
    TimeServicesAreNoUnits();
  }

  lemma TimeServicesAreNoUnits()
    ensures !IsUnitName("ntpd.service") && !IsUnitName("systemd-timesyncd.service")
  {
    var a: CString := "ntpd.service";
    var b: CString := "systemd-timesyncd.service";
    assert a[|a| - 6..][0] == 'e' && b[|b| - 6..][0] == 'e';
  }

  // ---- Requests ----

  datatype Request =
    | GetUnitFileState(name: CString)
    | StartUnit(name: CString)
    | StopUnit(name: CString)
    | StartTransientUnit(name: CString, props: seq<Property>)
    | OtherManagerCall
    | GetVirtualization
    | OtherProperty
    | Abandon(node: CString)
    | Enumerate

  predicate IsManagerCall(req: Request) {
    !req.GetVirtualization? && !req.OtherProperty? && !req.Abandon? && !req.Enumerate?
  }

  /** What the rest of the system contributes to one request. */
  datatype Env = Env(
    begin: nat, done: nat,
    rounds: seq<Round>, saved: bool,
    attempt: Attempt, machine: Machine,
    ntpAvailable: bool, ntpEnabled: bool)

  predicate WellTimed(env: Env) {
    env.begin <= env.attempt.check <= env.attempt.start <= env.attempt.end <= env.attempt.stamp <= env.done
  }

  /** The statics of one process: its table, its connection to cgmanager, its power state, the
      virtualization it has detected, and the live timers of its main loop. */
  datatype Process = Process(
    image: KeyFile, connected: bool,
    power: PowerState, virt: Option<Detected>,
    sources: map<nat, nat>, nextId: nat, timeout: nat)

  datatype Outcome = Outcome(process: Process, synced: bool, effects: seq<Effect>)

  const INACTIVITY: nat := 10 * SECOND

  /** had_activity: the old timer goes, a new one is due in ten seconds. */
  function Rearmed(p: Process, now: nat): Process {
    var kept := if p.timeout != 0 then p.sources - {p.timeout} else p.sources;
    p.(sources := kept[p.nextId := now + INACTIVITY], timeout := p.nextId, nextId := p.nextId + 1)
  }

  function Answered(p: Process, reply: Reply): Outcome {
    Outcome(p, false, [Replied(reply)])
  }

  function Changed(p: Process, c: Change, reply: Reply): Outcome {
    Outcome(p.(image := c.image), c.synced, c.Effects() + [Replied(reply)])
  }

  function DetectOutcome(p: Process, env: Env): Outcome {
    var d := Detection(p.virt, env.machine);
    Outcome(p.(virt := Cached(d)), false, [Replied(Virtualization(Told(d)))])
  }

  function StartOutcome(p: Process, unit: Unit, env: Env): Outcome {
    match unit
    case Ntp => Outcome(p, false, [SwitchedNtp(true), Replied(Done)])
    case Power(action) =>
      Outcome(p.(power := StartState(p.power, action, env.attempt)), false,
              StartEffects(p.power, action, env.attempt) + [Replied(Done)])
    case CGroup(name) => Changed(p, StartChange(p.image, p.connected, name), Done)
  }

  function StopOutcome(p: Process, unit: Unit, env: Env): Outcome {
    match unit
    case Ntp => Outcome(p, false, [SwitchedNtp(false), Replied(Done)])
    case Power(_) => Answered(p, Done)
    case CGroup(name) => Changed(p, StopChange(p.image, p.connected, name, env.rounds), Done)
  }

  /** Only cgroup units can be started transiently or abandoned. */
  function StartTransientOutcome(p: Process, unit: Unit, props: seq<Property>): Outcome {
    if unit.CGroup? then Changed(p, StartTransientChange(p.image, p.connected, unit.name, props), Done)
    else Answered(p, Done)
  }

  function AbandonOutcome(p: Process, unit: Unit): Outcome {
    if unit.CGroup? then Changed(p, AbandonChange(p.image, p.connected, unit.name), Done)
    else Answered(p, Done)
  }

  function FileState(unit: Unit, env: Env): CString {
    match unit
    case Ntp => if env.ntpEnabled then "enabled" else "disabled"
    case Power(_) => "static"
    case CGroup(name) => name
  }

  /** The D-Bus nodes under which the recorded units are listed. */
  function NodesOf(image: KeyFile, signedChar: bool): seq<CString> {
    seq(|image|, i requires 0 <= i < |image| => Escape(image[i].name, signedChar))
  }

  /** The unit name a request is about; empty if it is about none. */
  function Subject(req: Request): CString {
    match req
    case GetUnitFileState(name) => name
    case StartUnit(name) => name
    case StopUnit(name) => name
    case StartTransientUnit(name, _) => name
    case Abandon(node) => Unescape(node)
    case _ => []
  }

  /** What a request for `unit` does and leaves, without regard to the timer. */
  function ActOn(p: Process, req: Request, unit: Option<Unit>, env: Env, signedChar: bool): Outcome {
    if req.OtherManagerCall? || req.OtherProperty? then Answered(p, Done)
    else if req.GetVirtualization? then DetectOutcome(p, env)
    else if req.Enumerate? then Answered(p, Nodes(NodesOf(p.image, signedChar)))
    else if unit.None? then Answered(p, UnknownUnit(Subject(req)))
    else
      match req
      case GetUnitFileState(_) => Answered(p, UnitState(FileState(unit.value, env)))
      case StartUnit(_) => StartOutcome(p, unit.value, env)
      case StopUnit(_) => StopOutcome(p, unit.value, env)
      case StartTransientUnit(_, props) => StartTransientOutcome(p, unit.value, props)
      case Abandon(_) => AbandonOutcome(p, unit.value)
  }

  function Act(p: Process, req: Request, env: Env, signedChar: bool): Outcome {
    ActOn(p, req, LookupUnit(Subject(req), env.ntpAvailable), env, signedChar)
  }

  /** Manager calls count as activity when they are done, all others when they begin. */
  function ActivityTime(req: Request, env: Env): nat {
    if IsManagerCall(req) then env.done else env.begin
  }

  function Serve(p: Process, req: Request, env: Env, signedChar: bool): Outcome {
    var o := Act(p, req, env, signedChar);
    o.(process := Rearmed(o.process, ActivityTime(req, env)))
  }

  /** Whether the timer is set before or after a unit is abandoned makes no difference. */
  lemma AbandonKeepsTimer(p: Process, node: CString, env: Env, signedChar: bool, now: nat)
    ensures var o := Act(p, Abandon(node), env, signedChar);
            Act(Rearmed(p, now), Abandon(node), env, signedChar) == o.(process := Rearmed(o.process, now))
  {
  }

  /** A process that has just been started. */
  function Fresh(file: Option<KeyFile>, connected: bool): Process {
    Process(Loaded(file), connected, PowerState(false, 0), None, map[], 1, 0)
  }

  // ---- The process ----

  class Shim {
    const signedChar: bool
    const journal: Journal
    const store: StateFile
    const cg: CgManager
    const power: PowerUnits
    const detector: Detector
    var sources: map<nat, nat>
    var nextId: nat
    var timeout: nat

    ghost predicate Valid()
      reads this, cg
    {
      store.journal == journal && cg.journal == journal && power.journal == journal && cg.initialised
    }

    ghost function Snapshot(): Process
      reads this, store, store.disk, cg, power, detector
    {
      Process(store.Image(), cg.connected, power.State(), detector.Memory(), sources, nextId, timeout)
    }

    /** main() up to the loop: the system bus is ours and we have left our own cgroup. */
    constructor (disk: Disk, journal: Journal, connects: bool, agent: Option<CString>, signedChar: bool)
      modifies journal
      ensures Valid() && fresh(this) && fresh(store) && fresh(cg) && fresh(power) && fresh(detector)
      ensures store.disk == disk && this.journal == journal && this.signedChar == signedChar
      ensures Snapshot() == Fresh(disk.file, connects) && disk.file == old(disk.file)
      ensures journal.log == old(journal.log) + Wire(connects, Startup(agent))
    {
      this.signedChar := signedChar;
      this.journal := journal;
      store := new StateFile(disk, journal);
      cg := new CgManager(journal);
      power := new PowerUnits(journal);
      detector := new Detector();
      sources, nextId, timeout := map[], 1, 0;
      new;
      cg.MoveSelf(connects, agent);
    }

    method HadActivity(now: nat)
      modifies this
      ensures Valid() == old(Valid())
      ensures Snapshot() == Rearmed(old(Snapshot()), now)
    {
      if timeout != 0 {
        sources := sources - {timeout};
      }
      sources := sources[nextId := now + INACTIVITY];
      timeout, nextId := nextId, nextId + 1;
    }

    /** The timer `id` fires; a process that stays drops it. */
    method ExitOnInactivity(id: nat) returns (exits: bool)
      requires Valid() && id in sources
      modifies this
      ensures exits == !old(Snapshot()).power.inShutdown
      ensures Valid()
      ensures Snapshot() == if exits then old(Snapshot()) else old(Snapshot()).(sources := old(sources) - {id})
    {
      if !power.inShutdown {
        return true;
      }
      sources := sources - {id};
      exits := false;
    }

    /** `o` is what came of a process whose file held `file` and whose journal held `log`. */
    ghost predicate Came(o: Outcome, saved: bool, file: Option<KeyFile>, log: seq<Effect>)
      reads this, store, store.disk, cg, power, detector, journal
    {
      && Valid()
      && Snapshot() == o.process
      && store.disk.file == (if o.synced && saved then Some(o.process.image) else file)
      && journal.log == log + o.effects
    }

    method Reply(reply: Reply)
      requires Valid()
      modifies journal
      ensures journal.log == old(journal.log) + [Replied(reply)]
    {
      journal.log := journal.log + [Replied(reply)];
    }

    /** `o` is what came, apart from the answer `reply` that is still to be given. */
    ghost predicate Unanswered(o: Outcome, reply: Reply, saved: bool, file: Option<KeyFile>, log: seq<Effect>)
      reads this, store, store.disk, cg, power, detector, journal
    {
      && Valid()
      && Snapshot() == o.process
      && store.disk.file == (if o.synced && saved then Some(o.process.image) else file)
      && journal.log + [Replied(reply)] == log + o.effects
    }

    method ManagerCall(req: Request, env: Env)
      requires Valid() && IsManagerCall(req)
      modifies this, store`keyFile, store.disk, cg, power, journal
      ensures Came(Serve(old(Snapshot()), req, env, signedChar), env.saved, old(store.disk.file), old(journal.log))
    {
      match req {
        case GetUnitFileState(name) => FileStateCall(name, env);
        case StartUnit(name) => StartCall(name, env);
        case StopUnit(name) => StopCall(name, env);
        case StartTransientUnit(name, props) => StartTransientCall(name, props, env);
        case OtherManagerCall => Reply(Done);
      }
      HadActivity(env.done);
    }

    method FileStateCall(name: CString, env: Env)
      requires Valid()
      modifies journal
      ensures Came(Act(old(Snapshot()), GetUnitFileState(name), env, signedChar), env.saved,
                   old(store.disk.file), old(journal.log))
    {
      var unit := LookupUnit(name, env.ntpAvailable);
      Reply(if unit.Some? then UnitState(FileState(unit.value, env)) else UnknownUnit(name));
    }

    method StartCall(name: CString, env: Env)
      requires Valid()
      modifies store`keyFile, store.disk, cg, power, journal
      ensures Came(Act(old(Snapshot()), StartUnit(name), env, signedChar), env.saved,
                   old(store.disk.file), old(journal.log))
    {
      var unit := LookupUnit(name, env.ntpAvailable);
      if unit.Some? {
        Start(unit.value, env);
      }
      Reply(if unit.Some? then Done else UnknownUnit(name));
    }

    method StopCall(name: CString, env: Env)
      requires Valid()
      modifies store`keyFile, store.disk, cg, power, journal
      ensures Came(Act(old(Snapshot()), StopUnit(name), env, signedChar), env.saved,
                   old(store.disk.file), old(journal.log))
    {
      var unit := LookupUnit(name, env.ntpAvailable);
      if unit.Some? {
        Stop(unit.value, env);
      }
      Reply(if unit.Some? then Done else UnknownUnit(name));
    }

    method StartTransientCall(name: CString, props: seq<Property>, env: Env)
      requires Valid()
      modifies store`keyFile, store.disk, cg, power, journal
      ensures Came(Act(old(Snapshot()), StartTransientUnit(name, props), env, signedChar), env.saved,
                   old(store.disk.file), old(journal.log))
    {
      var unit := LookupUnit(name, env.ntpAvailable);
      if unit.Some? {
        StartTransient(unit.value, props, env);
      }
      Reply(if unit.Some? then Done else UnknownUnit(name));
    }

    method StartTransient(unit: Unit, props: seq<Property>, env: Env)
      requires Valid()
      modifies store`keyFile, store.disk, cg, power, journal
      ensures Unanswered(StartTransientOutcome(old(Snapshot()), unit, props), Done, env.saved,
                         old(store.disk.file), old(journal.log))
    {
      if unit.CGroup? {
        var cgroup := new CGroupUnit(unit.name, store, cg);
        cgroup.StartTransient(props, env.saved);
      }
    }

    method Start(unit: Unit, env: Env)
      requires Valid()
      modifies store`keyFile, store.disk, cg, power, journal
      ensures Unanswered(StartOutcome(old(Snapshot()), unit, env), Done, env.saved,
                         old(store.disk.file), old(journal.log))
    {
      match unit {
        case Ntp =>
          journal.log := journal.log + [SwitchedNtp(true)];
        case Power(action) =>
          power.Start(action, env.attempt);
        case CGroup(name) =>
          var cgroup := new CGroupUnit(name, store, cg);
          cgroup.Start(env.saved);
      }
    }

    method Stop(unit: Unit, env: Env)
      requires Valid()
      modifies store`keyFile, store.disk, cg, power, journal
      ensures Unanswered(StopOutcome(old(Snapshot()), unit, env), Done, env.saved,
                         old(store.disk.file), old(journal.log))
    {
      match unit {
        case Ntp =>
          journal.log := journal.log + [SwitchedNtp(false)];
        case Power(_) =>
        case CGroup(name) =>
          var cgroup := new CGroupUnit(name, store, cg);
          cgroup.Stop(env.rounds, env.saved);
      }
    }

    method GetProperty(req: Request, env: Env)
      requires Valid() && (req.GetVirtualization? || req.OtherProperty?)
      modifies this, detector, journal
      ensures Came(Serve(old(Snapshot()), req, env, signedChar), env.saved, old(store.disk.file), old(journal.log))
    {
      HadActivity(env.begin);
      if req.GetVirtualization? {
        var d := detector.DetectVirtualization(env.machine);
        Reply(Virtualization(Told(d)));
      } else {
        Reply(Done);
      }
    }

    method UnitMethodCall(node: CString, env: Env)
      requires Valid()
      modifies this, store`keyFile, store.disk, cg, power, journal
      ensures Came(Serve(old(Snapshot()), Abandon(node), env, signedChar), env.saved,
                   old(store.disk.file), old(journal.log))
    {
      AbandonKeepsTimer(Snapshot(), node, env, signedChar, env.begin);
      HadActivity(env.begin);
      AbandonCall(node, env);
    }

    method AbandonCall(node: CString, env: Env)
      requires Valid()
      modifies store`keyFile, store.disk, cg, power, journal
      ensures Came(Act(old(Snapshot()), Abandon(node), env, signedChar), env.saved,
                   old(store.disk.file), old(journal.log))
    {
      var buffer := UnescapeObjectPath(node);
      var name := ReadString(buffer, Unescape(node));
      assert name == Subject(Abandon(node));
      var unit := LookupUnit(name, env.ntpAvailable);
      if unit.Some? {
        AbandonUnit(unit.value, env);
      }
      Reply(if unit.Some? then Done else UnknownUnit(name));
    }

    method AbandonUnit(unit: Unit, env: Env)
      requires Valid()
      modifies store`keyFile, store.disk, cg, power, journal
      ensures Unanswered(AbandonOutcome(old(Snapshot()), unit), Done, env.saved, old(store.disk.file), old(journal.log))
    {
      if unit.CGroup? {
        var cgroup := new CGroupUnit(unit.name, store, cg);
        cgroup.Abandon(env.saved);
      }
    }

    method UnitsEnumerate(env: Env) returns (cgroups: array<CString>)
      requires Valid()
      modifies this, store`keyFile, journal
      ensures Came(Serve(old(Snapshot()), Enumerate, env, signedChar), env.saved,
                   old(store.disk.file), old(journal.log))
      ensures fresh(cgroups) && cgroups[..] == NodesOf(old(Snapshot()).image, signedChar)
    {
      HadActivity(env.begin);
      cgroups := store.ListUnits();
      EscapeAll(cgroups, signedChar);
      Reply(Nodes(cgroups[..]));
      assert cgroups[..] == NodesOf(old(Snapshot()).image, signedChar);
    }
  }

  /** Replaces every name by its node, in place. */
  method EscapeAll(cgroups: array<CString>, signedChar: bool)
    modifies cgroups
    ensures forall i :: 0 <= i < cgroups.Length ==> cgroups[i] == Escape(old(cgroups[i]), signedChar)
  {
    for i := 0 to cgroups.Length
      invariant forall k :: 0 <= k < i ==> cgroups[k] == Escape(old(cgroups[k]), signedChar)
      invariant forall k :: i <= k < cgroups.Length ==> cgroups[k] == old(cgroups[k])
    {
      var buffer := EscapeObjectPath(cgroups[i], signedChar);
      cgroups[i] := ReadString(buffer, Escape(cgroups[i], signedChar));
    }
  }

  /** The string a buffer holds: everything before its first NUL. */
  method ReadString(buffer: array<Byte>, ghost s: CString) returns (t: CString)
    requires Holds(buffer, s)
    ensures t == s
  {
    t := [];
    assert forall i :: 0 <= i < |s| ==> buffer[i] == buffer[..|s|][i] == s[i];
    while buffer[|t|] != NUL
      invariant t <= s
      decreases |s| - |t|
    {
      t := t + [buffer[|t|]];
    }
  }
}
