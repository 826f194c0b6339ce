/** What the daemon does to the outside world, in the order in which it happens. */
module Effects {
  import opened CStrings

  /** A method call to cgmanager; every one names the controllers it applies to itself. */
  datatype CgCall =
    | Create(path: CString)
    | Chown(path: CString, uid: int)
    | MovePid(path: CString, pid: int)
    | NotifyOnRelease(path: CString)
    | Remove(path: CString)
    | Prune(path: CString)
    | GetTasks(path: CString)
    | MoveSelf
    | GetReleaseAgent
    | SetReleaseAgent

  datatype PowerAction = Off | Reboot | Suspend | Hibernate

  datatype Reply =
    | Done
    | UnitState(state: CString)
    | UnknownUnit(name: CString)
    | Nodes(nodes: seq<CString>)
    | Virtualization(id: CString)

  /** `WroteState` is an attempt to replace the state file, whether or not it succeeds. */
  datatype Effect =
    | Sent(call: CgCall)
    | Killed(pid: int)
    | OmittedFromKill
    | Performed(action: PowerAction, start: nat, end: nat)
    | SwitchedNtp(on: bool)
    | WroteState
    | Replied(reply: Reply)

  class Journal {
    var log: seq<Effect>
  }
}

/** src/cgmanager.c: the calls that create, empty and remove cgroups. */
module CgManager {
  import opened CStrings
  import opened Effects

  /** A `guint` process id. */
  type Pid = p: int | 0 <= p < 0x1_0000_0000

  /** A `guint` passed where D-Bus wants an int32. */
  function ToInt32(p: Pid): (v: int)
    ensures -0x8000_0000 <= v < 0x8000_0000 && (p - v) % 0x1_0000_0000 == 0
  {
    if p < 0x8000_0000 then p else p - 0x1_0000_0000
  }

  /** What create and remove, but not kill and prune, do to a path. */
  function Relative(path: CString): CString {
    if path != [] && path[0] == '/' then path[1..] else path
  }

  /** Nothing goes out without a connection. */
  function Wire(connected: bool, effects: seq<Effect>): seq<Effect> {
    if connected then effects else []
  }

  function Moves(path: CString, pids: seq<Pid>): seq<Effect> {
    seq(|pids|, i requires 0 <= i < |pids| => Sent(MovePid(path, ToInt32(pids[i]))))
  }

  function Making(path: CString, uid: int): seq<Effect> {
    [Sent(CgCall.Create(path))] + (if uid != -1 then [Sent(Chown(path, uid))] else [])
  }

  function Creation(path: CString, uid: int, pids: seq<Pid>): seq<Effect> {
    Making(path, uid) + Moves(path, pids) + [Sent(NotifyOnRelease(path))]
  }

  function Kills(pids: seq<int>): seq<Effect> {
    seq(|pids|, i requires 0 <= i < |pids| => Killed(pids[i]))
  }

  /** A failed reply lists no tasks. */
  function Killing(path: CString, tasks: Option<seq<int>>): seq<Effect> {
    [Sent(GetTasks(path))] + (if tasks.Some? then Kills(tasks.value) else [])
  }

  /** The calls of a starting process. `agent` is the release agent already installed. */
  function Startup(agent: Option<CString>): seq<Effect> {
    [Sent(CgCall.MoveSelf), Sent(GetReleaseAgent)]
    + (if agent == None || |agent.value| < 1 then [Sent(SetReleaseAgent)] else [])
  }

  lemma WireThree(log: seq<Effect>, connected: bool, a: seq<Effect>, b: seq<Effect>, c: seq<Effect>)
    ensures log + Wire(connected, a) + Wire(connected, b) + Wire(connected, c) == log + Wire(connected, a + b + c)
  {
  }

  class CgManager {
    const journal: Journal
    var initialised: bool
    var connected: bool

    constructor (journal: Journal)
      ensures this.journal == journal && !initialised
    {
      this.journal := journal;
      initialised, connected := false, false;
    }

    /** `connects` is the outcome of connecting, which is attempted once only; `reply` is
        whether the call succeeds once sent. */
    method Call(call: CgCall, connects: bool, reply: bool) returns (ok: bool)
      modifies this, journal
      ensures initialised && connected == if old(initialised) then old(connected) else connects
      ensures journal.log == old(journal.log) + Wire(connected, [Sent(call)])
      ensures ok == (connected && reply)
    {
      if !initialised {
        connected := connects;
        initialised := true;
      }
      if !connected {
        return false;
      }
      journal.log := journal.log + [Sent(call)];
      ok := reply;
    }

    /** `agent` is the reply to the question which release agent is installed. */
    method MoveSelf(connects: bool, agent: Option<CString>)
      requires !initialised
      modifies this, journal
      ensures initialised && connected == connects
      ensures journal.log == old(journal.log) + Wire(connects, Startup(agent))
    {
      var _ := Call(CgCall.MoveSelf, connects, true);
      var known := Call(GetReleaseAgent, connects, agent.Some?);
      var needAgent := true;
      if known {
        needAgent := |agent.value| < 1;
      }
      if needAgent {
        var _ := Call(SetReleaseAgent, connects, true);
      }
    }

    method Create(path: CString, uid: int, pids: seq<Pid>)
      requires initialised
      modifies this, journal
      ensures initialised && connected == old(connected)
      ensures journal.log == old(journal.log) + Wire(connected, Creation(Relative(path), uid, pids))
    {
      var p := if path != [] && path[0] == '/' then path[1..] else path;
      MakeAndChown(p, uid);
      MovePids(p, pids);
      var _ := Call(NotifyOnRelease(p), false, true);
      WireThree(old(journal.log), connected, Making(p, uid), Moves(p, pids), [Sent(NotifyOnRelease(p))]);
    }

    method MakeAndChown(path: CString, uid: int)
      requires initialised
      modifies this, journal
      ensures initialised && connected == old(connected)
      ensures journal.log == old(journal.log) + Wire(connected, Making(path, uid))
    {
      var _ := Call(CgCall.Create(path), false, true);
      if uid != -1 {
        var _ := Call(Chown(path, uid), false, true);
      }
    }

    method MovePids(path: CString, pids: seq<Pid>)
      requires initialised
      modifies this, journal
      ensures initialised && connected == old(connected)
      ensures journal.log == old(journal.log) + Wire(connected, Moves(path, pids))
    {
      for i := 0 to |pids|
        invariant initialised && connected == old(connected)
        invariant journal.log == old(journal.log) + Wire(connected, Moves(path, pids[..i]))
      {
        var _ := Call(MovePid(path, ToInt32(pids[i])), false, true);
        assert Moves(path, pids[..i + 1]) == Moves(path, pids[..i]) + [Sent(MovePid(path, ToInt32(pids[i])))];
      }
      assert pids[..|pids|] == pids;
    }

    method Remove(path: CString, reply: bool) returns (ok: bool)
      requires initialised
      modifies this, journal
      ensures initialised && connected == old(connected)
      ensures journal.log == old(journal.log) + Wire(connected, [Sent(CgCall.Remove(Relative(path)))])
      ensures ok == (connected && reply)
    {
      ok := Call(CgCall.Remove(if path != [] && path[0] == '/' then path[1..] else path), false, reply);
    }

    method Prune(path: CString)
      requires initialised
      modifies this, journal
      ensures initialised && connected == old(connected)
      ensures journal.log == old(journal.log) + Wire(connected, [Sent(CgCall.Prune(path))])
    {
      var _ := Call(CgCall.Prune(path), false, true);
    }

    method Kill(path: CString, tasks: Option<seq<int>>)
      requires initialised
      modifies this, journal
      ensures initialised && connected == old(connected)
      ensures journal.log == old(journal.log) + Wire(connected, Killing(path, tasks))
    {
      var listed := Call(GetTasks(path), false, tasks.Some?);
      if listed {
        var pids := tasks.value;
        ghost var sent := journal.log;
        for i := 0 to |pids|
          invariant initialised && connected == old(connected)
          invariant journal.log == sent + Kills(pids[..i])
        {
          journal.log := journal.log + [Killed(pids[i])];
          assert Kills(pids[..i + 1]) == Kills(pids[..i]) + [Killed(pids[i])];
        }
        assert pids[..|pids|] == pids;
      }
    }
  }
}
