/** The recorded units over whole runs, and the nodes under which they are listed. */
module Enumeration {
  import opened CStrings
  import opened SlicePath
  import opened ObjectPath
  import opened State
  import opened Effects
  import opened CgManager
  import opened CGroupUnit
  import opened Daemon
  import opened Runs

  // ---- The state invariant ----

  ghost predicate AllRecorded(s: System) {
    Recorded(Loaded(s.file)) && (s.process.Some? ==> Recorded(s.process.value.image))
  }

  lemma ActOnRecorded(p: Process, req: Request, unit: Option<Unit>, env: Env, signedChar: bool)
    requires Recorded(p.image)
    ensures Recorded(ActOn(p, req, unit, env, signedChar).process.image)
  {
    if unit.Some? && unit.value.CGroup? {
      var name := unit.value.name;
      StartKeepsRecorded(p.image, p.connected, name);
      RemovalKeepsRecorded(p.image, name);
      if req.StartTransientUnit? {
        StartTransientKeepsRecorded(p.image, p.connected, name, req.props);
      }
    }
  }

  lemma StepRecorded(s: System, e: Event)
    requires AllRecorded(s) && Enabled(s, e)
    ensures AllRecorded(Step(s, e))
  {
    if e.Serves? {
      ActOnRecorded(s.process.value, e.req, LookupUnit(Subject(e.req), e.env.ntpAvailable), e.env, s.signedChar);
    }
  }

  /** In every run from the empty table, in memory and on disk, names are distinct and end in
      ".slice" or ".scope"; a slice has its own path, a scope a path below some slice's. */
  lemma {:induction false} RunsRecord(s: System, es: seq<Event>)
    requires s.file.None? && s.process.None? && ValidRun(s, es)
    ensures AllRecorded(Run(s, es))
  {
    if es != [] {
      RunsRecord(s, es[..|es| - 1]);
      StepRecorded(Run(s, es[..|es| - 1]), es[|es| - 1]);
    }
  }

  lemma RecordedNames(image: KeyFile, i: nat)
    requires Recorded(image) && i < |image|
    ensures IsUnitName(image[i].name) && Lookup(image, image[i].name) == Some(image[i].path)
  {
    assert image[i] in image && FromStart(image[i]);
    LookupIsMembership(image, image[i].name);
  }

  // ---- One node ----

  lemma GraphOnlyKeepsSuffix(name: CString)
    requires IsUnitName(name)
    ensures IsUnitName(GraphOnly(name))
  {
    var suffix := if IsSlice(name) then SLICE else SCOPE;
    SuffixSurvives(name, suffix);
  }

  lemma SuffixSurvives(name: CString, suffix: CString)
    requires HasSuffix(name, suffix) && AllGraph(suffix)
    ensures HasSuffix(GraphOnly(name), suffix)
  {
    var stem := name[..|name| - |suffix|];
    assert name == stem + suffix;
    GraphOnlyConcat(stem, suffix);
    GraphOnlyIsGraph(suffix);
  }

  /** A unit's node resolves to a cgroup unit, and to the unit itself exactly when its name is
      all ASCII-graph. */
  lemma NodeResolves(image: KeyFile, i: nat, ntpAvailable: bool, signedChar: bool)
    requires Recorded(image) && i < |image|
    ensures var name, node := image[i].name, NodesOf(image, signedChar)[i];
            && LegalElement(node)
            && LookupUnit(Unescape(node), ntpAvailable) == Some(CGroup(GraphOnly(name)))
            && (GraphOnly(name) == name <==> AllGraph(name))
  {
    var name := image[i].name;
    RecordedNames(image, i);
    EscapeIsLegal(name, signedChar);
    UnescapeEscape(name, signedChar);
    GraphOnlyIsGraph(name);
    GraphOnlyKeepsSuffix(name);
    LookupCGroup(GraphOnly(name), ntpAvailable, GraphOnly(name));
  }

  /** Graphic names are listed under different nodes. */
  lemma NodesDistinct(image: KeyFile, i: nat, j: nat, signedChar: bool)
    requires Distinct(image) && i < j < |image|
    requires AllGraph(image[i].name) && AllGraph(image[j].name)
    ensures NodesOf(image, signedChar)[i] != NodesOf(image, signedChar)[j]
  {
    RoundTripExactlyGraph(image[i].name, signedChar);
    RoundTripExactlyGraph(image[j].name, signedChar);
  }

  // ---- Abandoning every node ----

  /** One request after the other to abandon the nodes, each under its own circumstances. */
  ghost predicate AbandonsEach(es: seq<Event>, nodes: seq<CString>) {
    |es| == |nodes| && forall i :: 0 <= i < |es| ==> es[i].Serves? && es[i].req == Abandon(nodes[i])
  }

  /** The names that the first `n` nodes resolve to. */
  function Resolved(image: KeyFile, n: nat): set<CString>
    requires n <= |image|
  {
    set i | 0 <= i < n :: GraphOnly(image[i].name)
  }

  /** Whatever table is in use, the node listed for a unit stands for its graphic name. */
  lemma AbandonResolves(p: Process, image: KeyFile, n: nat, env: Env, signedChar: bool)
    requires Recorded(image) && n < |image|
    ensures Act(p, Abandon(NodesOf(image, signedChar)[n]), env, signedChar)
              == AbandonOutcome(p, CGroup(GraphOnly(image[n].name)))
  {
    NodeResolves(image, n, env.ntpAvailable, signedChar);
    AbandonOf(p, NodesOf(image, signedChar)[n], CGroup(GraphOnly(image[n].name)), env, signedChar);
  }

  lemma AbandonOf(p: Process, node: CString, unit: Unit, env: Env, signedChar: bool)
    requires LookupUnit(Unescape(node), env.ntpAvailable) == Some(unit)
    ensures Act(p, Abandon(node), env, signedChar) == AbandonOutcome(p, unit)
  {
  }

  /** A unit whose node stands for an unrecorded name is not abandoned through it: everything
      stays as it is. */
  lemma StandsForNothing(p: Process, i: nat, env: Env, signedChar: bool)
    requires Recorded(p.image) && i < |p.image| && Lookup(p.image, GraphOnly(p.image[i].name)).None?
    ensures Act(p, Abandon(NodesOf(p.image, signedChar)[i]), env, signedChar) == Outcome(p, false, [Replied(Done)])
  {
    AbandonResolves(p, p.image, i, env, signedChar);
  }

  lemma StartAlone(name: CString, connected: bool)
    requires IsSlice(name) && ValidGroupName(name)
    ensures var image := StartChange([], connected, name).image;
            Recorded(image) && |image| == 1 && image[0].name == name
  {
    StartKeepsRecorded([], connected, name);
  }

  /** Any slice whose name is not all ASCII-graph is such a unit when it is the only one. */
  lemma UngraphicSurvivesAbandon(p: Process, name: CString, env: Env, signedChar: bool)
    requires IsSlice(name) && ValidGroupName(name) && !AllGraph(name)
    requires p.image == StartChange([], p.connected, name).image
    ensures |p.image| == 1 && p.image[0].name == name
    ensures Act(p, Abandon(NodesOf(p.image, signedChar)[0]), env, signedChar) == Outcome(p, false, [Replied(Done)])
  {
    StartAlone(name, p.connected);
    GraphOnlyIsGraph(name);
    StandsForNothing(p, 0, env, signedChar);
  }

  lemma BlankSurvivesAbandon(p: Process, name: CString, env: Env, signedChar: bool)
    requires name == "a b.slice" && p.image == StartChange([], p.connected, name).image
    ensures |p.image| == 1 && p.image[0].name == name
    ensures Act(p, Abandon(NodesOf(p.image, signedChar)[0]), env, signedChar) == Outcome(p, false, [Replied(Done)])
  {
    assert !IsGraph(name[1]);
    UngraphicSurvivesAbandon(p, name, env, signedChar);
  }

  lemma AbsentIsWithout(image: KeyFile, name: CString)
    requires Lookup(image, name).None?
    ensures Without(image, {name}) == image
  {
  }

  /** What abandoning a recorded unit does. */
  function Pruned(path: CString, connected: bool): seq<Effect> {
    Wire(connected, [Sent(CgCall.Prune(path))]) + [WroteState]
  }

  /** Abandoning a node takes the unit it resolves to out of what is left, if it is there. */
  lemma AbandonNode(p: Process, image: KeyFile, gone: set<CString>, n: nat, env: Env, signedChar: bool)
    requires Recorded(image) && n < |image| && p.image == Without(image, gone)
    ensures var o := Act(p, Abandon(NodesOf(image, signedChar)[n]), env, signedChar);
            var name := GraphOnly(image[n].name);
            && o.process == p.(image := Without(image, gone + {name}))
            && o.effects == (if Lookup(p.image, name).Some?
                             then Pruned(Lookup(p.image, name).value, p.connected) else [])
                            + [Replied(Done)]
  {
    var name := GraphOnly(image[n].name);
    AbandonResolves(p, image, n, env, signedChar);
    WithoutDistinct(image, gone);
    RemoveGroupIs(p.image, name);
    WithoutTwice(image, gone, {name});
    if Lookup(p.image, name).None? {
      AbsentIsWithout(p.image, name);
    }
  }

  lemma ResolvedNext(image: KeyFile, n: nat)
    requires n < |image|
    ensures Resolved(image, n + 1) == Resolved(image, n) + {GraphOnly(image[n].name)}
  {
  }

  /** The system has a process with this table and connection. */
  predicate Holds(s: System, image: KeyFile, connected: bool, signedChar: bool) {
    && s.signedChar == signedChar && s.process.Some?
    && s.process.value.image == image && s.process.value.connected == connected
  }

  lemma AbandonStep(s: System, e: Event, image: KeyFile, gone: set<CString>, n: nat, connected: bool)
    requires Recorded(image) && n < |image| && Holds(s, Without(image, gone), connected, s.signedChar)
    requires Enabled(s, e) && e.Serves? && e.req == Abandon(NodesOf(image, s.signedChar)[n])
    ensures var name, left := GraphOnly(image[n].name), Without(image, gone);
            && Holds(Step(s, e), Without(image, gone + {name}), connected, s.signedChar)
            && Step(s, e).log == s.log
                 + ((if Lookup(left, name).Some? then Pruned(Lookup(left, name).value, connected) else [])
                    + [Replied(Done)])
  {
    AbandonNode(s.process.value, image, gone, n, e.env, s.signedChar);
  }

  lemma {:induction false} AbandonFirst(s: System, es: seq<Event>, image: KeyFile, connected: bool)
    requires Recorded(image) && |es| <= |image| && Holds(s, image, connected, s.signedChar)
    requires ValidRun(s, es) && AbandonsEach(es, NodesOf(image, s.signedChar)[..|es|])
    ensures Holds(Run(s, es), Without(image, Resolved(image, |es|)), connected, s.signedChar)
  {
    if es == [] {
      WithoutMembers(image, Resolved(image, 0));
    } else {
      var k := |es| - 1;
      AbandonFirst(s, es[..k], image, connected);
      AbandonStep(Run(s, es[..k]), es[k], image, Resolved(image, k), k, connected);
      ResolvedNext(image, k);
    }
  }

  lemma ResolvedAreGraphic(image: KeyFile, i: nat)
    requires i < |image|
    ensures image[i].name in Resolved(image, |image|) <==> AllGraph(image[i].name)
  {
    GraphOnlyIsGraph(image[i].name);
    assert GraphOnly(image[i].name) in Resolved(image, |image|);
    if image[i].name in Resolved(image, |image|) {
      var k :| 0 <= k < |image| && GraphOnly(image[k].name) == image[i].name;
      GraphOnlyIsGraph(image[k].name);
    }
  }

  /** Listing the units and abandoning every node listed leaves exactly the units whose names
      are not all ASCII-graph, so none exactly when there is no such name. */
  lemma AbandonAllLeaves(s: System, es: seq<Event>)
    requires s.process.Some? && Recorded(s.process.value.image) && ValidRun(s, es)
    requires AbandonsEach(es, NodesOf(s.process.value.image, s.signedChar))
    ensures Run(s, es).process.Some?
    ensures var image, left := s.process.value.image, Run(s, es).process.value.image;
            && (forall g :: g in left <==> g in image && !AllGraph(g.name))
            && (left == [] <==> forall g :: g in image ==> AllGraph(g.name))
  {
    var image := s.process.value.image;
    assert NodesOf(image, s.signedChar)[..|es|] == NodesOf(image, s.signedChar);
    AbandonFirst(s, es, image, s.process.value.connected);
    LeftAreUngraphic(image);
  }

  lemma LeftAreUngraphic(image: KeyFile)
    ensures var left := Without(image, Resolved(image, |image|));
            && (forall g :: g in left <==> g in image && !AllGraph(g.name))
            && (left == [] <==> forall g :: g in image ==> AllGraph(g.name))
  {
    var gone := Resolved(image, |image|);
    WithoutMembers(image, gone);
    forall g | g in image ensures g.name in gone <==> AllGraph(g.name) {
      var i :| 0 <= i < |image| && image[i] == g;
      ResolvedAreGraphic(image, i);
    }
    if Without(image, gone) != [] {
      assert Without(image, gone)[0] in Without(image, gone);
    }
  }

  /** One prune of the recorded path, one write and one answer per unit, in the order of the
      table. */
  function PrunesOf(image: KeyFile, connected: bool, n: nat): seq<Effect>
    requires n <= |image|
  {
    if n == 0 then []
    else PrunesOf(image, connected, n - 1) + (Pruned(image[n - 1].path, connected) + [Replied(Done)])
  }

  lemma {:induction false} AbandonPrunes(s: System, es: seq<Event>, image: KeyFile, connected: bool)
    requires Recorded(image) && |es| <= |image| && Holds(s, image, connected, s.signedChar)
    requires ValidRun(s, es) && AbandonsEach(es, NodesOf(image, s.signedChar)[..|es|])
    requires forall g :: g in image ==> AllGraph(g.name)
    ensures Run(s, es).log == s.log + PrunesOf(image, connected, |es|)
  {
    if es != [] {
      var k := |es| - 1;
      AbandonPrunes(s, es[..k], image, connected);
      AbandonFirst(s, es[..k], image, connected);
      AbandonStep(Run(s, es[..k]), es[k], image, Resolved(image, k), k, connected);
      StillRecorded(image, k);
      LogAssociates(s.log, PrunesOf(image, connected, k), Pruned(image[k].path, connected) + [Replied(Done)]);
    }
  }

  lemma LogAssociates(a: seq<Effect>, b: seq<Effect>, c: seq<Effect>)
    ensures a + b + c == a + (b + c)
  {
  }

  /** The first `k` nodes resolve to the first `k` units, so the next unit is still there. */
  lemma StillRecorded(image: KeyFile, k: nat)
    requires Recorded(image) && k < |image| && forall g :: g in image ==> AllGraph(g.name)
    ensures GraphOnly(image[k].name) == image[k].name
    ensures Lookup(Without(image, Resolved(image, k)), image[k].name) == Some(image[k].path)
  {
    assert image[k] in image;
    GraphOnlyIsGraph(image[k].name);
    RecordedNames(image, k);
    forall i | 0 <= i < k ensures GraphOnly(image[i].name) != image[k].name {
      assert image[i] in image;
      GraphOnlyIsGraph(image[i].name);
    }
    WithoutLookup(image, Resolved(image, k), image[k].name);
  }

  /** With graphic names only, the abandoned units are pruned once each, in order, at the paths
      they were recorded with, and nothing else happens. */
  lemma AbandonAllPrunesEachOnce(s: System, es: seq<Event>)
    requires s.process.Some? && Recorded(s.process.value.image) && ValidRun(s, es)
    requires AbandonsEach(es, NodesOf(s.process.value.image, s.signedChar))
    requires forall g :: g in s.process.value.image ==> AllGraph(g.name)
    ensures var p := s.process.value;
            Run(s, es).log == s.log + PrunesOf(p.image, p.connected, |p.image|)
  {
    var p := s.process.value;
    assert NodesOf(p.image, s.signedChar)[..|es|] == NodesOf(p.image, s.signedChar);
    AbandonPrunes(s, es, p.image, p.connected);
  }

  // ---- The release agent ----

  /** The kernel hands the agent an emptied cgroup's path; the agent's request stops the unit
      recorded with that path and no other, exactly when the unit's name has no slash. */
  lemma AgentRequestStopsOwner(p: Process, i: nat, env: Env, signedChar: bool)
    requires Recorded(p.image) && i < |p.image|
    ensures var g := p.image[i];
            var o := Act(p, StopUnit(Basename("/" + g.path)), env, signedChar);
            && (Lookup(o.process.image, g.name).None? <==> SlashFree(g.name))
            && (SlashFree(g.name) ==>
                 && o.process.image == Without(p.image, {g.name})
                 && o.effects == Wire(p.connected, StopRounds(g.path, env.rounds, TRIES))
                                + [WroteState] + [Replied(Done)])
  {
    var g := p.image[i];
    RecordedNames(p.image, i);
    AgentStopsTheOwner(p.image, g);
    var name := Basename("/" + g.path);
    LookupCGroup(name, env.ntpAvailable, name);
    RemoveGroupIs(p.image, name);
    WithoutLookup(p.image, {name}, g.name);
    if name != g.name {
      StopsOnlyNamed(p, name, g.name, env, signedChar);
    }
  }

  lemma StopsOnlyNamed(p: Process, name: CString, other: CString, env: Env, signedChar: bool)
    requires Distinct(p.image) && name != other
    ensures Lookup(Act(p, StopUnit(name), env, signedChar).process.image, other) == Lookup(p.image, other)
  {
    var unit := LookupUnit(name, env.ntpAvailable);
    if unit.Some? {
      LookupCGroup(name, env.ntpAvailable, if unit.value.CGroup? then unit.value.name else name);
      StopSparesOthers(p, unit.value, env, other);
    }
  }

  lemma StopSparesOthers(p: Process, unit: Unit, env: Env, other: CString)
    requires Distinct(p.image) && unit != CGroup(other)
    ensures Lookup(StopOutcome(p, unit, env).process.image, other) == Lookup(p.image, other)
  {
    if unit.CGroup? {
      RemoveGroupIs(p.image, unit.name);
      WithoutLookup(p.image, {unit.name}, other);
    }
  }
}
