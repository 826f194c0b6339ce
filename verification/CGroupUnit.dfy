/** src/cgroup-unit.c: starting, stopping and abandoning slices and scopes. Each operation is
    specified by the change it makes to the table of started units and by its effects. */
module CGroupUnit {
  import opened CStrings
  import opened SlicePath
  import opened State
  import opened Effects
  import opened CgManager
  import opened Addresses

  /** A D-Bus property value: a string, an array of uint32, or anything else. */
  datatype Variant = Str(s: CString) | UInts(us: seq<Pid>) | Other

  datatype Property = Property(key: CString, value: Variant)

  /** cgmanager's answers in one round of stopping: the tasks it lists, if it answers, and
      whether it removes the cgroup. */
  datatype Round = Round(tasks: Option<seq<int>>, removed: bool)

  /** A new table, whether it was written through, and what went out to cgmanager before. */
  datatype Change = Change(image: KeyFile, synced: bool, calls: seq<Effect>) {
    /** Everything that happened: the write comes last. */
    function Effects(): seq<Effect> {
      calls + (if synced then [WroteState] else [])
    }
  }

  function Unchanged(image: KeyFile): Change {
    Change(image, false, [])
  }

  // ---- StartTransient ----

  predicate IsSliceProperty(p: Property) {
    p.key == "Slice" && p.value.Str?
  }

  predicate IsPidsProperty(p: Property) {
    p.key == "PIDs" && p.value.UInts?
  }

  /** The last string-typed "Slice". */
  function LastSlice(props: seq<Property>): Option<CString> {
    if props == [] then None
    else
      var last := props[|props| - 1];
      if IsSliceProperty(last) then Some(last.value.s) else LastSlice(props[..|props| - 1])
  }

  /** The "PIDs" arrays, one after the other. */
  function AllPids(props: seq<Property>): seq<Pid> {
    if props == [] then []
    else
      var last := props[|props| - 1];
      AllPids(props[..|props| - 1]) + (if IsPidsProperty(last) then last.value.us else [])
  }

  function StartTransientChange(image: KeyFile, connected: bool, name: CString, props: seq<Property>): Change {
    var slice := LastSlice(props);
    if IsScope(name) && slice.Some? && IsSlice(slice.value) then
      var path := UnitPath(slice.value, Some(name));
      Change(SetPath(image, name, path), true,
             Wire(connected, Creation(Relative(path), SliceUid(slice.value), AllPids(props))))
    else Unchanged(image)
  }

  // ---- Start ----

  function StartChange(image: KeyFile, connected: bool, name: CString): Change {
    if IsSlice(name) then
      Change(SetPath(image, name, PathOf(name)), true,
             Wire(connected, Creation(Relative(PathOf(name)), SliceUid(name), [])))
    else Unchanged(image)
  }

  // ---- Stop and Abandon ----

  /** Answers that never come are failures. */
  function RoundAt(rounds: seq<Round>, k: nat): Round {
    if k < |rounds| then rounds[k] else Round(None, false)
  }

  function Tail(rounds: seq<Round>): (t: seq<Round>)
    ensures forall k: nat :: RoundAt(t, k) == RoundAt(rounds, k + 1)
  {
    if rounds == [] then [] else rounds[1..]
  }

  function RoundEffects(path: CString, r: Round): seq<Effect> {
    Killing(path, r.tasks) + [Sent(CgCall.Remove(Relative(path)))]
  }

  /** One round, and then as many more as the remaining `tries` and the answers allow. */
  function StopRounds(path: CString, rounds: seq<Round>, tries: nat): seq<Effect> {
    var r := RoundAt(rounds, 0);
    RoundEffects(path, r)
    + (if tries > 0 && !r.removed then StopRounds(path, Tail(rounds), tries - 1) else [])
  }

  const TRIES: nat := 5

  function StopChange(image: KeyFile, connected: bool, name: CString, rounds: seq<Round>): Change {
    match Lookup(image, name)
    case None => Unchanged(image)
    case Some(path) => Change(RemoveGroup(image, name), true, Wire(connected, StopRounds(path, rounds, TRIES)))
  }

  function AbandonChange(image: KeyFile, connected: bool, name: CString): Change {
    match Lookup(image, name)
    case None => Unchanged(image)
    case Some(path) => Change(RemoveGroup(image, name), true, Wire(connected, [Sent(CgCall.Prune(path))]))
  }

  /** One turn of the stop loop; without a connection no turn succeeds and none shows. */
  lemma StopTurn(log: seq<Effect>, connected: bool, path: CString, rest: seq<Round>, tries: nat)
    ensures var r := RoundAt(rest, 0);
            log + Wire(connected, StopRounds(path, rest, tries)) ==
              log + Wire(connected, Killing(path, r.tasks)) + Wire(connected, [Sent(CgCall.Remove(Relative(path)))])
              + (if tries > 0 && !(connected && r.removed)
                 then Wire(connected, StopRounds(path, Tail(rest), tries - 1)) else [])
  {
  }

  // ---- The operations ----

  class CGroupUnit {
    const name: CString
    const store: StateFile
    const cg: CgManager

    constructor (name: CString, store: StateFile, cg: CgManager)
      ensures this.name == name && this.store == store && this.cg == cg
    {
      this.name := name;
      this.store := store;
      this.cg := cg;
    }

    ghost predicate Valid()
      reads cg
    {
      cg.initialised && store.journal == cg.journal
    }

    /** `change` was made to a table that read `image`, a file that held `file` and a journal
        that held `log`. */
    ghost predicate Made(change: Change, saved: bool, file: Option<KeyFile>, log: seq<Effect>)
      reads store, store.disk, cg, cg.journal
    {
      && Valid()
      && store.Image() == change.image
      && store.disk.file == (if change.synced && saved then Some(change.image) else file)
      && cg.journal.log == log + change.Effects()
    }

    method StartTransient(props: seq<Property>, saved: bool)
      requires Valid()
      modifies store`keyFile, store.disk, cg, cg.journal
      ensures cg.connected == old(cg.connected)
      ensures Made(StartTransientChange(old(store.Image()), cg.connected, name, props), saved,
                   old(store.disk.file), old(cg.journal.log))
    {
      if !HasSuffix(name, SCOPE) {
        return;
      }
      var pids: seq<Pid> := [];
      var slice: Option<CString> := None;
      for i := 0 to |props|
        invariant slice == LastSlice(props[..i]) && pids == AllPids(props[..i])
      {
        assert props[..i + 1][..i] == props[..i];
        if props[i].key == "Slice" && props[i].value.Str? {
          slice := Some(props[i].value.s);
        } else if props[i].key == "PIDs" && props[i].value.UInts? {
          pids := pids + props[i].value.us;
        }
      }
      assert props[..|props|] == props;
      if slice.Some? && HasSuffix(slice.value, SLICE) {
        var path, uid := GetPathAndUid(slice.value, Some(name));
        Record(path, uid, pids, saved);
      }
    }

    /** The cgroup is created and the unit recorded. */
    method Record(path: CString, uid: int, pids: seq<Pid>, saved: bool)
      requires Valid()
      modifies store`keyFile, store.disk, cg, cg.journal
      ensures cg.connected == old(cg.connected)
      ensures var calls := Wire(cg.connected, Creation(Relative(path), uid, pids));
              Made(Change(SetPath(old(store.Image()), name, path), true, calls), saved,
                   old(store.disk.file), old(cg.journal.log))
    {
      cg.Create(path, uid, pids);
      store.SetString(name, path, saved);
    }

    method Start(saved: bool)
      requires Valid()
      modifies store`keyFile, store.disk, cg, cg.journal
      ensures cg.connected == old(cg.connected)
      ensures Made(StartChange(old(store.Image()), cg.connected, name), saved,
                   old(store.disk.file), old(cg.journal.log))
    {
      if !HasSuffix(name, SLICE) {
        return;
      }
      var path, uid := GetPathAndUid(name, None);
      Record(path, uid, [], saved);
    }

    method Stop(rounds: seq<Round>, saved: bool)
      requires Valid()
      modifies store`keyFile, store.disk, cg, cg.journal
      ensures cg.connected == old(cg.connected)
      ensures Made(StopChange(old(store.Image()), cg.connected, name, rounds), saved,
                   old(store.disk.file), old(cg.journal.log))
    {
      var path := store.GetString(name);
      if path.None? {
        return;
      }
      KillAndRemove(path.value, rounds);
      store.RemoveUnit(name, saved);
      ghost var calls := Wire(cg.connected, StopRounds(path.value, rounds, TRIES));
      ghost var log := old(cg.journal.log);
      assert cg.journal.log == log + calls + [WroteState] == log + (calls + [WroteState]);
    }

    method KillAndRemove(path: CString, rounds: seq<Round>)
      requires Valid()
      modifies cg, cg.journal
      ensures Valid() && cg.connected == old(cg.connected)
      ensures cg.journal.log == old(cg.journal.log) + Wire(cg.connected, StopRounds(path, rounds, TRIES))
    {
      var tries := TRIES;
      var rest, more := rounds, true;
      ghost var all := old(cg.journal.log) + Wire(cg.connected, StopRounds(path, rounds, TRIES));
      while more
        invariant Valid() && cg.connected == old(cg.connected)
        invariant cg.journal.log + (if more then Wire(cg.connected, StopRounds(path, rest, tries)) else []) == all
        decreases more, tries
      {
        StopTurn(cg.journal.log, cg.connected, path, rest, tries);
        var r := RoundAt(rest, 0);
        cg.Kill(path, r.tasks);
        var successful := cg.Remove(path, r.removed);
        more := tries != 0 && !successful;
        if more {
          tries, rest := tries - 1, Tail(rest);
        }
      }
    }

    method Abandon(saved: bool)
      requires Valid()
      modifies store`keyFile, store.disk, cg, cg.journal
      ensures cg.connected == old(cg.connected)
      ensures Made(AbandonChange(old(store.Image()), cg.connected, name), saved,
                   old(store.disk.file), old(cg.journal.log))
    {
      var path := store.GetString(name);
      if path.None? {
        return;
      }
      cg.Prune(path.value);
      store.RemoveUnit(name, saved);
    }
  }

  // ---- StartTransient is an exact fold ----

  /** Position `i` holds a string-typed "Slice" and none follows it. */
  ghost predicate LastSliceAt(props: seq<Property>, i: nat) {
    i < |props| && IsSliceProperty(props[i]) && forall j :: i < j < |props| ==> !IsSliceProperty(props[j])
  }

  /** The last string-typed "Slice" wins, whatever comes after it under that or another key. */
  lemma {:induction false} LastSliceWins(props: seq<Property>, i: nat)
    requires LastSliceAt(props, i)
    ensures LastSlice(props) == Some(props[i].value.s)
  {
    var n := |props| - 1;
    if i < n {
      LastSliceWins(props[..n], i);
    }
  }

  lemma {:induction false} NoSlice(props: seq<Property>)
    ensures LastSlice(props) == None <==> forall i :: 0 <= i < |props| ==> !IsSliceProperty(props[i])
  {
    if props != [] {
      var init := props[..|props| - 1];
      NoSlice(init);
      assert forall i :: 0 <= i < |init| ==> init[i] == props[i];
    }
  }

  /** Property lists are read left to right, without regard to what stands between. */
  lemma {:induction false} PidsConcat(a: seq<Property>, b: seq<Property>)
    ensures AllPids(a + b) == AllPids(a) + AllPids(b)
  {
    if b == [] {
      assert a + b == a;
    } else {
      assert (a + b)[..|a + b| - 1] == a + b[..|b| - 1];
      PidsConcat(a, b[..|b| - 1]);
    }
  }

  /** A property contributes all its values if it is an array of uint32 named "PIDs", and nothing
      otherwise. */
  lemma PidsOfOne(p: Property)
    ensures AllPids([p]) == match p.value
                            case UInts(us) => if p.key == "PIDs" then us else []
                            case _ => []
  {
    assert [p][..0] == [];
  }

  /** The cgroup is created and, for a user's slice, given away; then every pid is moved, in
      order; then release notification is switched on; and nothing else. */
  ghost predicate CreationTrace(effects: seq<Effect>, path: CString, uid: int, pids: seq<Pid>) {
    var first := if uid == -1 then 1 else 2;
    && |effects| == first + |pids| + 1
    && effects[0] == Sent(CgCall.Create(path))
    && (uid != -1 ==> effects[1] == Sent(Chown(path, uid)))
    && (forall i :: 0 <= i < |pids| ==> effects[first + i] == Sent(MovePid(path, ToInt32(pids[i]))))
    && effects[first + |pids|] == Sent(NotifyOnRelease(path))
  }

  lemma CreationIsTraced(path: CString, uid: int, pids: seq<Pid>)
    ensures CreationTrace(Creation(path, uid, pids), path, uid, pids)
  {
  }

  /** A transient start in a valid slice: the whole trace, the write after it, and the path that
      is recorded. */
  lemma StartTransientTrace(image: KeyFile, name: CString, props: seq<Property>, i: nat)
    requires IsScope(name) && LastSliceAt(props, i) && IsSlice(props[i].value.s)
    ensures var c, slice := StartTransientChange(image, true, name, props), props[i].value.s;
            var path := UnitPath(slice, Some(name));
            && CreationTrace(c.calls, Relative(path), SliceUid(slice), AllPids(props))
            && c.Effects() == c.calls + [WroteState] && (ValidGroupName(name) ==> Lookup(c.image, name) == Some(path))
  {
    LastSliceWins(props, i);
    var slice := props[i].value.s;
    CreationIsTraced(Relative(UnitPath(slice, Some(name))), SliceUid(slice), AllPids(props));
    PutIs(image, name, UnitPath(slice, Some(name)));
  }

  /** Anything else leaves the table and cgmanager alone. */
  lemma StartTransientRefused(image: KeyFile, connected: bool, name: CString, props: seq<Property>)
    ensures StartTransientChange(image, connected, name, props) == Unchanged(image) <==>
      !IsScope(name) || forall i: nat :: LastSliceAt(props, i) ==> !IsSlice(props[i].value.s)
  {
    if LastSlice(props).Some? {
      var i := LastSlicePosition(props);
    } else {
      NoSlice(props);
    }
  }

  lemma {:induction false} LastSlicePosition(props: seq<Property>) returns (i: nat)
    requires LastSlice(props).Some?
    ensures LastSliceAt(props, i) && LastSlice(props) == Some(props[i].value.s)
    ensures forall j: nat :: LastSliceAt(props, j) ==> j == i
  {
    var n := |props| - 1;
    if IsSliceProperty(props[n]) {
      i := n;
    } else {
      i := LastSlicePosition(props[..n]);
    }
  }

  // ---- The stop loop ----

  /** One round asks for the tasks of the recorded path, kills every one that is listed, in order,
      and only then removes the cgroup. */
  lemma RoundInOrder(path: CString, r: Round)
    ensures var tasks := if r.tasks.Some? then r.tasks.value else [];
            var effects := RoundEffects(path, r);
            && |effects| == |tasks| + 2
            && effects[0] == Sent(GetTasks(path))
            && (forall i :: 0 <= i < |tasks| ==> effects[i + 1] == Killed(tasks[i]))
            && effects[|tasks| + 1] == Sent(CgCall.Remove(Relative(path)))
  {
  }

  function FirstRounds(path: CString, rounds: seq<Round>, n: nat): seq<Effect> {
    if n == 0 then [] else FirstRounds(path, rounds, n - 1) + RoundEffects(path, RoundAt(rounds, n - 1))
  }

  lemma {:induction false} FirstRoundsShift(path: CString, rounds: seq<Round>, n: nat)
    ensures FirstRounds(path, rounds, n + 1)
              == RoundEffects(path, RoundAt(rounds, 0)) + FirstRounds(path, Tail(rounds), n)
  {
    if n > 0 {
      FirstRoundsShift(path, rounds, n - 1);
      var first, last := RoundEffects(path, RoundAt(rounds, 0)), RoundEffects(path, RoundAt(rounds, n));
      var middle := FirstRounds(path, Tail(rounds), n - 1);
      assert first + (middle + last) == first + middle + last;
    }
  }

  lemma {:induction false} StopRoundsAre(path: CString, rounds: seq<Round>, tries: nat) returns (n: nat)
    ensures 1 <= n <= tries + 1
    ensures StopRounds(path, rounds, tries) == FirstRounds(path, rounds, n)
    ensures forall k: nat :: k < n - 1 ==> !RoundAt(rounds, k).removed
    ensures n <= tries ==> RoundAt(rounds, n - 1).removed
  {
    if tries > 0 && !RoundAt(rounds, 0).removed {
      var m := StopRoundsAre(path, Tail(rounds), tries - 1);
      n := m + 1;
      FirstRoundsShift(path, rounds, m);
      assert forall k: nat :: k > 0 ==> RoundAt(rounds, k) == RoundAt(Tail(rounds), k - 1);
    } else {
      n := 1;
      assert FirstRounds(path, rounds, 0) == [];
    }
  }

  /** Whatever cgmanager answers, a recorded unit is killed and removed between one and six
      times under its recorded path, never again after a success and fewer than six times only
      because of one; then it is gone from the table and every other unit is as before. */
  lemma StopExactly(image: KeyFile, connected: bool, name: CString, rounds: seq<Round>) returns (n: nat)
    requires Distinct(image) && Lookup(image, name).Some?
    ensures 1 <= n <= 6
    ensures forall k: nat :: k < n - 1 ==> !RoundAt(rounds, k).removed
    ensures n < 6 ==> RoundAt(rounds, n - 1).removed
    ensures var c := StopChange(image, connected, name, rounds);
            && c.Effects() == Wire(connected, FirstRounds(Lookup(image, name).value, rounds, n)) + [WroteState]
            && (forall other :: Lookup(c.image, other) == if other == name then None else Lookup(image, other))
  {
    n := StopRoundsAre(Lookup(image, name).value, rounds, TRIES);
    RemoveGroupIs(image, name);
    forall other
      ensures Lookup(RemoveGroup(image, name), other) == if other == name then None else Lookup(image, other)
    {
      WithoutLookup(image, {name}, other);
    }
  }

  // ---- What a table can hold ----

  /** The group is what starting some unit would have recorded. */
  ghost predicate FromStart(g: Group) {
    && ValidGroupName(g.name)
    && if IsSlice(g.name) then g.path == PathOf(g.name)
       else IsScope(g.name) && exists slice :: IsSlice(slice) && g.path == UnitPath(slice, Some(g.name))
  }

  ghost predicate Recorded(image: KeyFile) {
    Distinct(image) && forall g :: g in image ==> FromStart(g)
  }

  lemma NotBoth(name: CString)
    ensures !(IsSlice(name) && IsScope(name))
  {
  }

  lemma StartKeepsRecorded(image: KeyFile, connected: bool, name: CString)
    requires Recorded(image)
    ensures Recorded(StartChange(image, connected, name).image)
  {
    PutIs(image, name, PathOf(name));
  }

  lemma StartTransientKeepsRecorded(image: KeyFile, connected: bool, name: CString, props: seq<Property>)
    requires Recorded(image)
    ensures Recorded(StartTransientChange(image, connected, name, props).image)
  {
    NotBoth(name);
    if LastSlice(props).Some? {
      PutIs(image, name, UnitPath(LastSlice(props).value, Some(name)));
    }
  }

  /** The cgroup is created in any case, but the unit is recorded, so that it can be stopped
      later, exactly when the key file can hold its name. */
  lemma StartedIsRecorded(image: KeyFile, connected: bool, name: CString)
    requires Recorded(image) && IsSlice(name)
    ensures Lookup(StartChange(image, connected, name).image, name) == Some(PathOf(name)) <==> ValidGroupName(name)
  {
    PutIs(image, name, PathOf(name));
    LookupIsMembership(image, name);
  }

  lemma StartedTransientIsRecorded(image: KeyFile, connected: bool, name: CString, props: seq<Property>)
    requires Recorded(image) && IsScope(name)
    requires LastSlice(props).Some? && IsSlice(LastSlice(props).value)
    ensures var path := UnitPath(LastSlice(props).value, Some(name));
            var c := StartTransientChange(image, connected, name, props);
            Lookup(c.image, name) == Some(path) <==> ValidGroupName(name)
  {
    PutIs(image, name, UnitPath(LastSlice(props).value, Some(name)));
    LookupIsMembership(image, name);
  }

  /** The cgroup of "[.slice" is created and then forgotten. */
  lemma CreatedButNotRecorded()
    ensures var c := StartChange([], true, "[.slice");
            Sent(CgCall.Create("[.slice")) in c.calls && Lookup(c.image, "[.slice").None?
  {
    var name: CString := "[.slice";
    NoDashPath(name);
    assert name[0] == '[';
    CreationIsTraced(name, SliceUid(name), []);
    assert StartChange([], true, name).calls[0] == Sent(CgCall.Create(name));
  }

  lemma RemovalKeepsRecorded(image: KeyFile, name: CString)
    requires Recorded(image)
    ensures Recorded(RemoveGroup(image, name))
  {
    RemoveGroupIs(image, name);
    WithoutMembers(image, {name});
    WithoutDistinct(image, {name});
  }

  /** The agent, given the path recorded for a unit or the same path under the root, stops that
      very unit exactly when its name is free of slashes. */
  lemma AgentStopsTheOwner(image: KeyFile, g: Group)
    requires Recorded(image) && g in image
    ensures Basename(g.path) == g.name <==> SlashFree(g.name)
    ensures Basename("/" + g.path) == g.name <==> SlashFree(g.name)
    ensures SlashFree(g.name) ==> Lookup(image, Basename(g.path)) == Some(g.path)
  {
    LookupIsMembership(image, g.name);
    if IsSlice(g.name) {
      AgentNamesTheUnit(g.name, None);
    } else {
      var slice :| IsSlice(slice) && g.path == UnitPath(slice, Some(g.name));
      AgentNamesTheUnit(slice, Some(g.name));
    }
  }

  /** Create and remove strip a leading slash, kill and prune do not: all four address the same
      cgroup exactly when the slice's name does not begin with one. */
  lemma OneAddress(slice: CString, scope: Option<CString>)
    requires IsSlice(slice)
    ensures Relative(UnitPath(slice, scope)) == UnitPath(slice, scope) <==> slice[0] != '/'
  {
    LeadingSlash(slice, scope);
    assert UnitPath(slice, scope) != [];
  }

  function ScopeOf(g: Group): Option<CString> {
    if IsSlice(g.name) then None else Some(g.name)
  }

  /** The unit was recorded when it was started in `slice`, a slice in itself. */
  ghost predicate StartedIn(g: Group, slice: CString) {
    && IsSlice(slice) && g.path == UnitPath(slice, ScopeOf(g))
    && (IsSlice(g.name) ==> slice == g.name)
  }

  lemma StartedSomewhere(g: Group) returns (slice: CString)
    requires FromStart(g)
    ensures StartedIn(g, slice)
  {
    if IsSlice(g.name) {
      slice := g.name;
    } else {
      slice :| IsSlice(slice) && g.path == UnitPath(slice, Some(g.name));
    }
  }

  /** Exactly which recorded units share a path: only scopes, of which one spells out the way to
      the other. */
  lemma RecordedPathsShared(image: KeyFile, g: Group, s: CString, h: Group, t: CString)
    requires Recorded(image) && g in image && h in image && StartedIn(g, s) && StartedIn(h, t)
    ensures g.path == h.path <==>
      || g == h
      || (IsScope(g.name) && IsScope(h.name) && (SpellsOut(s, g.name, t, h.name) || SpellsOut(t, h.name, s, g.name)))
  {
    assert FromStart(g) && FromStart(h);
    NotBoth(g.name);
    NotBoth(h.name);
    UnitsShareExactly(s, ScopeOf(g), t, ScopeOf(h));
  }

  /** Units whose scopes have no slashes never share a path. */
  lemma RecordedPathsDistinct(image: KeyFile, g: Group, h: Group)
    requires Recorded(image) && g in image && h in image
    requires (IsScope(g.name) ==> SlashFree(g.name)) && (IsScope(h.name) ==> SlashFree(h.name))
    ensures g.path == h.path <==> g == h
  {
    var s := StartedSomewhere(g);
    var t := StartedSomewhere(h);
    assert FromStart(g) && FromStart(h);
    UnitsShareExactly(s, ScopeOf(g), t, ScopeOf(h));
    SlashFreeShares(s, ScopeOf(g), t, ScopeOf(h));
  }

  /** Exactly which recorded units are created and removed at one address. */
  lemma RecordedAddressesShared(image: KeyFile, g: Group, s: CString, h: Group, t: CString)
    requires Recorded(image) && g in image && h in image && StartedIn(g, s) && StartedIn(h, t)
    ensures var c, d := ScopeOf(g), ScopeOf(h);
            Relative(g.path) == Relative(h.path) <==>
              Shares(s, c, t, d) || TwinShares(s, c, t, d) || TwinShares(t, d, s, c)
  {
    assert FromStart(g) && FromStart(h);
    UnitsAtOneAddress(s, ScopeOf(g), t, ScopeOf(h));
  }

  lemma OneRecordPerName(image: KeyFile, g: Group, h: Group)
    requires Recorded(image) && g in image && h in image
    ensures g == h <==> g.name == h.name
  {
    LookupIsMembership(image, g.name);
    LookupIsMembership(image, h.name);
  }

  /** If the scopes have no slashes, only two slices can be, one of which is the other behind a
      slash and has no dash. */
  lemma RecordedAddressesDistinct(image: KeyFile, g: Group, h: Group)
    requires Recorded(image) && g in image && h in image
    requires (IsScope(g.name) ==> SlashFree(g.name)) && (IsScope(h.name) ==> SlashFree(h.name))
    ensures Relative(g.path) == Relative(h.path) <==>
      g == h || (IsSlice(g.name) && HasTwin(g.name) && h.name == Twin(g.name))
  {
    var s := StartedSomewhere(g);
    var t := StartedSomewhere(h);
    assert FromStart(g) && FromStart(h);
    RecordedAddressesShared(image, g, s, h, t);
    OneRecordPerName(image, g, h);
    SlashFreeShares(s, ScopeOf(g), t, ScopeOf(h));
    TwinsOnly(s, ScopeOf(g), t, ScopeOf(h));
    TwinsOnly(t, ScopeOf(h), s, ScopeOf(g));
    if IsSlice(g.name) && HasTwin(g.name) {
      TwinIsSlice(g.name);
    }
    if IsSlice(h.name) && HasTwin(h.name) {
      TwinIsSlice(h.name);
    }
  }

  lemma TwinsOnly(s: CString, c: Option<CString>, t: CString, d: Option<CString>)
    requires IsSlice(s) && IsSlice(t)
    requires (c.Some? ==> SlashFree(c.value)) && (d.Some? ==> SlashFree(d.value))
    ensures TwinShares(s, c, t, d) <==> HasTwin(s) && t == Twin(s) && c == d
  {
    if HasTwin(s) {
      TwinIsSlice(s);
      SlashFreeShares(Twin(s), c, t, d);
    }
  }

  /** A slice and its twin, started one after the other, are recorded with two paths and created
      at one address. */
  lemma TwinsAreRecorded(name: CString, connected: bool)
    requires IsSlice(name) && HasTwin(name) && ValidGroupName(name) && ValidGroupName(Twin(name))
    ensures var twin := Twin(name);
            var first := StartChange([], connected, name);
            var second := StartChange(first.image, connected, twin);
            && name != twin && Address(name, None) == Address(twin, None)
            && Lookup(second.image, name) == Some(name) && Lookup(second.image, twin) == Some(twin)
  {
    var twin := Twin(name);
    TwinIsSlice(name);
    NoDashPath(name);
    NoDashPath(twin);
    SlicesAtOneAddress(name, twin);
    RecordTwo(name, name, twin, twin);
  }

  lemma RecordTwo(name: CString, path: CString, other: CString, otherPath: CString)
    requires name != other
    ensures var image := Put(Put([], name, path), other, otherPath);
            Lookup(image, name) == Some(path) && Lookup(image, other) == Some(otherPath)
  {
    PutIs([], name, path);
    PutIs(Put([], name, path), other, otherPath);
  }

  /** "/a.slice" and "a.slice" are such a pair, and what is started in "a-b.slice" is created
      below both, although its name is below one of them only. */
  lemma TwoSlicesOneAddress(connected: bool)
    ensures var s: CString := "/a.slice"; var t: CString := "a.slice"; var below: CString := "a-b.slice";
            var first := StartChange([], connected, s);
            var second := StartChange(first.image, connected, t);
            && Lookup(second.image, s) == Some(s) && Lookup(second.image, t) == Some(t)
            && Address(s, None) == Address(t, None)
            && !NamedBelow(s, below) && Address(s, None) + "/" <= Address(below, None)
  {
    var s: CString := "/a.slice";
    assert HasTwin(s) && s[1..] == "a.slice";
    TwinsAreRecorded(s, connected);
    BelowBothTwins();
  }

  lemma BelowBothTwins()
    ensures var s: CString := "/a.slice"; var below: CString := "a-b.slice";
            !NamedBelow(s, below) && Address(s, None) + "/" <= Address(below, None)
  {
    var s: CString := "/a.slice";
    var below: CString := "a-b.slice";
    assert s == "/" + "a.slice" && HasTwin(s);
    assert below[..2] == "a-" == Stem("a.slice") + "-";
    AddressOrderExactly(s, below);
    if NamedBelow(s, below) {
      NamedBelowKeepsSlash(s, below);
    }
  }

  /** Two scopes, started one after the other in the slash-free slices "a.slice" and "a-b.slice",
      are recorded with one path. */
  lemma TwoUnitsOneCgroup(c: CString, d: CString, connected: bool)
    requires c == "a-b.slice/y.scope" && d == "y.scope"
    ensures var first := StartTransientChange([], connected, c, [Property("Slice", Str("a.slice"))]);
            var second := StartTransientChange(first.image, connected, d, [Property("Slice", Str("a-b.slice"))]);
            && c != d && Recorded(second.image)
            && Lookup(second.image, c).Some? && Lookup(second.image, c) == Lookup(second.image, d)
  {
    ScopeSpelledOut();
    var inA, inB: CString := "a.slice", "a-b.slice";
    StartScope([], connected, c, inA);
    StartScope(StartTransientChange([], connected, c, [Property("Slice", Str(inA))]).image, connected, d, inB);
  }

  lemma StartScope(image: KeyFile, connected: bool, name: CString, slice: CString)
    requires Recorded(image) && IsScope(name) && ValidGroupName(name) && IsSlice(slice)
    ensures var after := StartTransientChange(image, connected, name, [Property("Slice", Str(slice))]).image;
            && Recorded(after)
            && Lookup(after, name) == Some(UnitPath(slice, Some(name)))
            && (forall other :: other != name ==> Lookup(after, other) == Lookup(image, other))
  {
    var props := [Property("Slice", Str(slice))];
    LastSliceWins(props, 0);
    StartTransientKeepsRecorded(image, connected, name, props);
    PutIs(image, name, UnitPath(slice, Some(name)));
  }

  lemma ScopeSpelledOut()
    ensures var c: CString := "a-b.slice/y.scope"; var d: CString := "y.scope";
            && IsSlice("a.slice") && IsSlice("a-b.slice") && IsScope(c) && IsScope(d)
            && ValidGroupName(c) && ValidGroupName(d)
            && UnitPath("a.slice", Some(c)) == UnitPath("a-b.slice", Some(d))
  {
    PathOfTwo();
    SpelledOut("a.slice", "a-b.slice", "a-b.slice/y.scope", "y.scope");
  }

  lemma SpelledOut(s: CString, t: CString, c: CString, d: CString)
    requires PathOf(s) == s && PathOf(t) == s + "/" + t && c == t + "/" + d
    ensures UnitPath(s, Some(c)) == UnitPath(t, Some(d))
  {
    PathOfThree(s + "/", t, d);
  }

  lemma PathOfThree(above: CString, below: CString, scope: CString)
    ensures above + (below + "/" + scope) == above + below + "/" + scope
  {
  }

  lemma PathOfTwo()
    ensures PathOf("a.slice") == "a.slice" && PathOf("a-b.slice") == "a.slice" + "/" + "a-b.slice"
  {
    var b: CString := "a-b.slice";
    assert b[..1] == "a" && Piece("a") == "a.slice/";
    AncestorsAtDash(b, 1);
    AncestorsGrow(b, 2, |b|);
    NoDashPath("a.slice");
  }

  /** The name of a scope in `slice` continues the way from there to `below`. */
  ghost predicate LeadsTo(slice: CString, scope: CString, below: CString)
    requires IsSlice(slice)
  {
    && NamedBelow(slice, below) && |PathOf(slice)| < |PathOf(below)|
    && PathOf(below)[|PathOf(slice)| + 1..] + "/" <= scope
  }

  /** A scope's path lies below a slice's exactly when the scope was started in that slice or in
      one below it, or spells out a way past it. */
  lemma ScopeInSubtree(slice: CString, inSlice: CString, scope: CString)
    requires IsSlice(slice) && IsSlice(inSlice)
    ensures PathOf(slice) + "/" <= UnitPath(inSlice, Some(scope)) <==>
      slice == inSlice || NamedBelow(slice, inSlice) || LeadsTo(inSlice, scope, slice)
  {
    var p, a := PathOf(slice), PathOf(inSlice);
    TreeOrderExactly(slice, inSlice);
    TreeOrderExactly(inSlice, slice);
    PrefixWithin(p, a, scope);
    if p == a {
      PathInjective(slice, inSlice);
    }
  }

  /** Where a directory that encloses `a`/`b` may end. */
  lemma PrefixWithin(p: CString, a: CString, b: CString)
    ensures p + "/" <= a + "/" + b <==>
      || p == a || p + "/" <= a
      || (a + "/" <= p && p[|a| + 1..] + "/" <= b)
  {
    var whole := a + "/" + b;
    if |p| < |a| {
      assert whole[..|p| + 1] == a[..|p| + 1];
    } else if |p| == |a| {
      assert whole[..|p| + 1] == a + "/";
      assert p == (p + "/")[..|p|] && a == (a + "/")[..|p|];
    } else {
      var n := |a| + 1;
      assert whole[..n] == a + "/" && whole[n..] == b;
      if p + "/" <= whole {
        assert p[..n] == (p + "/")[..n] == whole[..n];
        assert p[n..] + "/" == (p + "/")[n..] == whole[..|p| + 1][n..] == b[..|p| + 1 - n];
      }
      if a + "/" <= p && p[n..] + "/" <= b {
        assert p + "/" == (a + "/") + (p[n..] + "/");
        assert whole[..|p| + 1] == (a + "/") + b[..|p| + 1 - n];
      }
    }
  }
}
