/** src/power-unit.c: the shutdown latch and the suspend limiter. Times are microseconds of the
    monotonic clock. */
module PowerUnit {
  import opened Effects

  const SECOND: nat := 1_000_000

  /** How one attempt to act goes: when the clock is read, when the action starts and ends, when
      the clock is read again, and which of the two ways to act are available. */
  datatype Attempt = Attempt(check: nat, start: nat, end: nat, stamp: nat, executable: bool, writable: bool)

  datatype PowerState = PowerState(inShutdown: bool, lastSuspend: nat)

  predicate IsShutdown(action: PowerAction) {
    action == Off || action == Reboot
  }

  function StartState(s: PowerState, action: PowerAction, a: Attempt): PowerState {
    if IsShutdown(action) then s.(inShutdown := true)
    else if StartEffects(s, action, a) != [] && action == Suspend then s.(lastSuspend := a.stamp)
    else s
  }

  function StartEffects(s: PowerState, action: PowerAction, a: Attempt): seq<Effect> {
    if IsShutdown(action) then [OmittedFromKill, Performed(action, a.start, a.end)]
    else if s.inShutdown || (action == Suspend && s.lastSuspend + SECOND > a.check) then []
    else if a.executable || a.writable then [Performed(action, a.start, a.end)]
    else []
  }

  class PowerUnits {
    const journal: Journal
    var inShutdown: bool
    var lastSuspend: nat

    constructor (journal: Journal)
      ensures this.journal == journal && State() == PowerState(false, 0)
    {
      this.journal := journal;
      inShutdown, lastSuspend := false, 0;
    }

    ghost function State(): PowerState
      reads this
    {
      PowerState(inShutdown, lastSuspend)
    }

    method Start(action: PowerAction, a: Attempt)
      modifies this, journal
      ensures State() == StartState(old(State()), action, a)
      ensures journal.log == old(journal.log) + StartEffects(old(State()), action, a)
    {
      if action == Off || action == Reboot {
        inShutdown := true;
        journal.log := journal.log + [OmittedFromKill];
        journal.log := journal.log + [Performed(action, a.start, a.end)];
      } else {
        if inShutdown {
          return;
        }
        if action == Suspend && lastSuspend + SECOND > a.check {
          return;
        }
        if !a.executable && !a.writable {
          return;
        }
        journal.log := journal.log + [Performed(action, a.start, a.end)];
        if action == Suspend {
          lastSuspend := a.stamp;
        }
      }
    }
  }
}
