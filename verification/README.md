# systemd-shim: a verified model

systemd-shim is a small D-Bus daemon that stands in for systemd's manager. It starts and stops
cgroup units through cgmanager, carries out power actions, reports virtualization, and leaves
after ten seconds without a request, to be activated again by the next one. This project models
the daemon's logic in Dafny and proves what holds of it over all inputs and all runs.

| file | models |
|---|---|
| `CStrings.dfy` | NUL-terminated byte strings (bytes 1 to 255) and GLib's ASCII classes |
| `ObjectPath.dfy` | the object-path codec of `src/systemd-shim.c` |
| `SlicePath.dfy` | the cgroup path compiler and the uid parser of `src/cgroup-unit.c`; the basename of `src/cgroup-release-agent.c` |
| `State.dfy` | the write-through key file of `src/state.c` |
| `CgManager.dfy` | the calls of `src/cgmanager.c`, recorded in a journal |
| `Addresses.dfy` | the addresses that `src/cgmanager.c` makes of paths |
| `CGroupUnit.dfy` | the four operations of `src/cgroup-unit.c` |
| `PowerUnit.dfy` | the latch and the limiter of `src/power-unit.c` |
| `Daemon.dfy` | name lookup in `src/unit.c`, requests and the timer of `src/systemd-shim.c` |
| `Requests.dfy` | what every request does, by its name, properties and bytes |
| `Runs.dfy`, `Restarts.dfy`, `Enumeration.dfy` | whole runs: timer, latch, limiter, restarts, recorded units |
| `Virt.dfy` | `src/virt.c` and the packed-table iterator of `src/util.h` |
| `Iovec.dfy` | the iovec helpers of `src/macro.h` |

Code that updates state is a class or a method with a loop, proved against a function of the old
state; the theorems are about those functions and about runs built from them. A run is any list
of requests, timer firings and activations with increasing times. What the outside decides
(cgmanager's replies, whether a save succeeds, the clock, which power tools exist) comes with each
event and is arbitrary. Times are microseconds of the monotonic clock.

Five results carry the rest:

* **Restarts are invisible** (`Restarts.RestartsAreInvisible`). If the file holds the table
  whenever a process leaves, whatever saves failed before, and cgmanager is equally reachable each
  time, any run does and answers the same as its requests would without any exit, apart from each
  process's startup calls, exactly when every process that has to detect the virtualization anew
  is told what the first one was (`DetectsAgain`). Otherwise a restarted process has exactly the
  last table that was saved (`RestartLoadsLastSaved`); the next request can tell exactly when the
  two tables list other nodes or record some unit differently, as far as a connection shows it
  (`UnnoticedExactly`); and a different connection shows (`ConnectionIsVisible`).
* **The shutdown latch and the suspend limiter survive restarts**, the first because a process
  that is shutting down never leaves (`Runs.ShutdownIsFinal`), the second because a process that
  leaves has been idle for ten seconds (`Runs.SuspendsAreSpaced`, `Restarts.SuspendsExactly`).
* **Slice paths are a tree isomorphism** up to slashes. Exactly which paths lie below one another
  and which units share one is known for all names, and the same for the addresses under which
  cgroups are created (`SlicePath.TreeOrderExactly`, `TreeIsomorphism`, `UnitsShareExactly`,
  `Addresses.AddressOrderExactly`, `UnitsAtOneAddress`).
* **Enumerated nodes stand for their units** exactly when the names are ASCII-graph
  (`Enumeration.NodeResolves`, `AbandonAllLeaves`).
* **Every request does one thing**, stated for literal names and for all units, tables and machines:
  refused exactly when the name is no unit, performing the power action it names, creating with all
  its processes, stopping, abandoning, or telling the identifier of the first test that holds
  (`Requests`, `Virt.VirtualizationExactly`).

Where the code falls short of what one would expect, the model follows the code; one lemma says
exactly when, and another gives an input:

* A name with a byte that is not ASCII-graph is listed under a node that resolves to another
  name, and can never be abandoned through it (`Enumeration.NodeResolves`,
  `BlankSurvivesAbandon`). With a signed `char`, all bytes from 0x80 are listed alike
  (`ObjectPath.NodeCollisions`, `AccentsCollide`).
* The path of `t` lies below that of the slice `s` although `t` does not extend the stem of `s` by
  a dash exactly when `t` begins with `s` as a directory, or `s` wraps a prefix of `t`
  (`SlicePath.BelowBySlash`, `SlashBreaksTreeOrder`). If `s` has no slashes this means that `t`
  begins with `s` and a slash; if `t` has none it does not happen.
* Two units share a path exactly when they are scopes and the name of one spells out the way from
  its own slice to the other (`SlicePath.SpellsOut`, `CGroupUnit.TwoUnitsOneCgroup`), for which it
  needs a slash. A slash in a scope's name also hides it from the release agent
  (`SlicePath.AgentNamesTheUnit`, `AgentMissesScope`).
* Cgroups are created and removed at the path without a leading slash, but killed and pruned at
  the path itself (`CGroupUnit.OneAddress`). A slice without a dash therefore has a twin, the same
  name behind a slash, that is recorded with another path and created at the same address. Two
  units are created at one address exactly when they share a path or one would with its slice's
  twin, and a slice is created below another exactly when it is named below it or its twin
  (`Addresses.UnitsAtOneAddress`, `AddressOrderExactly`, `CGroupUnit.TwoSlicesOneAddress`).
* `user-.slice` belongs to uid 0 (`SlicePath.UidExactly`), and a minus sign in front of a number
  just below 2^64 yields a small uid (`UidOfNegation`).
* A unit whose name holds a bracket or a control character has its cgroup created but is never
  recorded, because GLib refuses such a group name; it can then be neither stopped nor abandoned
  (`CGroupUnit.StartedIsRecorded`, `CreatedButNotRecorded`).
* An environment entry longer than the reader's buffer can be taken for a container's. The reader
  agrees with the split list exactly when the first entry that decides anything begins
  `container=`, or is a stray whose piece says what the later entries say
  (`Virt.ReaderAgreesExactly`, `StrayFoundInPlainEntry`).
* NEWS, version 4, says that inactivity counts from the end of a request. This holds for calls on
  the Manager interface; reading properties, listing and abandoning units count from their
  beginning. A process can leave less than ten seconds after a request exactly when it is of the
  second kind, took any time, and found no shutdown under way (`Runs.LeavesEarlyExactly`,
  `SlowAbandonLeavesAtOnce`).

## Model

| member | source | states |
|---|---|---|
| ObjectPath.UnescapeObjectPath | src/systemd-shim.c:223-252 | the decoding loop stays inside its buffer of n+1 bytes, looks ahead no further than the terminator and leaves the decoded string NUL-terminated |
| ObjectPath.EscapeObjectPath | src/systemd-shim.c:254-275 | the encoding loop, snprintf's NUL included, stays inside 3n+1 bytes and leaves the encoded string NUL-terminated |
| ObjectPath.EscapedByteIs | src/systemd-shim.c:267 | a byte that is not alphanumeric becomes `_` and two lower-case digits of its code, but `_ff` from 0x80 on when `char` is signed, because the sign-extended number is cut to three characters |
| ObjectPath.UnescapeEscape | src/systemd-shim.c:223-275 | decoding an encoded name gives the name without its non-graph bytes, for either signedness |
| ObjectPath.RoundTripExactlyGraph | src/systemd-shim.c:223-275 | a name survives the round trip exactly when it is all ASCII-graph |
| ObjectPath.CanonicalForm | src/systemd-shim.c:223-275 | re-encoding a decoded node gives it back exactly when it consists of alphanumerics and lower-case pairs of graphic non-alphanumeric bytes |
| ObjectPath.ReescapeStable | src/systemd-shim.c:223-275 | decoding, encoding and decoding again equals decoding once exactly when the node is all graph, as every legal element is |
| ObjectPath.EscapeConcat | src/systemd-shim.c:261-270 | encoding distributes over concatenation |
| ObjectPath.EscapeIsLegal | src/systemd-shim.c:254-275 | a node is one legal element of a D-Bus object path exactly when the name is not empty |
| ObjectPath.NodeCollisions | src/systemd-shim.c:254-275 | two names share a node never with unsigned `char`, and with signed `char` exactly when they differ only in bytes from 0x80 |
| ObjectPath.PairDecodes | src/systemd-shim.c:234-241 | an underscore and two hexadecimal digits of either case decode to the byte they stand for if it is graphic, and to nothing otherwise |
| ObjectPath.LoneUnderscore | src/systemd-shim.c:234-243 | an underscore without two such digits is dropped alone |
| ObjectPath.AnyCaseDecodes | src/systemd-shim.c:223-252 | a node decodes to the graphic bytes of its name whatever the case of its digits |
| ObjectPath.EitherCase | src/systemd-shim.c:234-241 | `a_2Eslice` and `a_2eslice` are both `a.slice` |
| CStrings.HexDigitsAre | src/systemd-shim.c:237 | digits of either case count up from 0 |
| CStrings.ClassesAre | src/systemd-shim.c:239-265 | GLib's classes of blanks, control, graphic and alphanumeric bytes by their codes |
| ObjectPath.AccentsCollide | src/systemd-shim.c:254-275 | with signed `char`, and only then, two slices with accented letters in UTF-8 share a node |
| SlicePath.GetPathAndUid | src/cgroup-unit.c:45-82 | the loop over the slice's name computes the path of the slice, or of the scope in it, and the uid |
| SlicePath.PathInjective | src/cgroup-unit.c:53-61 | the path determines the slice, for every byte string |
| SlicePath.TreeOrderExactly | src/cgroup-unit.c:53-61 | exactly which names have their path strictly below a slice's: those that extend its stem by a dash, begin with it as a directory, or have a prefix that it wraps |
| SlicePath.TreeIsomorphism | src/cgroup-unit.c:53-61 | one slice's path lies strictly below another's exactly when its name extends the other's stem by a dash, for exactly the pairs that no slash relates; any byte strings |
| SlicePath.SlashFreeUpper | src/cgroup-unit.c:53-61 | a slash relates a name to a slash-free slice exactly when the name begins with the slice and a slash |
| SlicePath.SlashFreeLower | src/cgroup-unit.c:53-61 | no slash relates a slash-free name to any slice |
| SlicePath.NameOrderGivesTreeOrder | src/cgroup-unit.c:53-61 | one direction of the isomorphism needs no condition on slashes |
| SlicePath.SlashBreaksTreeOrder | src/cgroup-unit.c:53-61 | one pair of slices for each of the two ways in which slashes break the isomorphism |
| SlicePath.PathComponents | src/cgroup-unit.c:53-61 | a slash-free slice's path has one component per dash and one more, each a slice whose stem and a dash begin the next |
| SlicePath.UnitPathInjective | src/cgroup-unit.c:45-82 | a unit's path determines slice and scope when the scopes have no slashes, whatever slashes the slices have |
| SlicePath.UnitsShareExactly | src/cgroup-unit.c:45-82 | exactly which units share a path, for all names: a unit with itself, and two scopes of which one spells out the way to the other's slice and then the other |
| SlicePath.EveryScopeIsSpelledOut | src/cgroup-unit.c:75-79 | every scope started in a slice below another shares its path with a scope of the other slice, the one whose name spells out the way |
| SlicePath.AgentNamesTheUnit | src/cgroup-release-agent.c:40 | the basename of a unit's path, with or without the root slash, is the unit's name exactly when the name has no slash |
| SlicePath.AgentMissesScope | src/cgroup-release-agent.c:40 | `x/y.scope` goes by another name, in any slice |
| SlicePath.TrailingSlash | src/cgroup-release-agent.c:40 | slashes at the end of the agent's argument make no difference |
| SlicePath.LeadingSlash | src/cgroup-unit.c:53-61 | a path begins with a slash exactly when the slice's name does |
| SlicePath.UidExactly | src/cgroup-unit.c:63-73 | exactly which slices carry which uid: the empty number as 0, otherwise spaces, an optional sign and digits up to `.slice` that stand for a number below G_MAXINT |
| SlicePath.UidOfDigits | src/cgroup-unit.c:63-73 | for digits of any length the bound decides, also beyond 64 bits |
| SlicePath.UidRoundTrip | src/cgroup-unit.c:63-73 | printing a uid into a slice's name and reading it back |
| SlicePath.UserThousand | src/cgroup-unit.c:63-73 | `user-1000.slice` belongs to uid 1000 |
| SlicePath.UidOfNegation | src/cgroup-unit.c:63-73 | every uid above 0 is also reached through a negated number |
| SlicePath.UidOnlyUnderUserSlice | src/cgroup-unit.c:63-73 | only slices with a path strictly below `user.slice` carry a uid |
| State.StateFile.GetKeyFile | src/state.c:24-36 | loading on first use changes nothing that a caller can see |
| State.StateFile.Sync | src/state.c:38-52 | the file becomes the table if the save succeeds and stays as it was otherwise |
| State.StateFile.SetString | src/state.c:71-80 | the new table, in memory and on disk |
| State.StateFile.RemoveUnit | src/state.c:82-89 | the new table, in memory and on disk |
| State.PutIs | src/state.c:78 | setting a path changes that unit only, keeps the order, appends a new name and keeps names distinct |
| State.ValidGroupNameIs | src/state.c:78 | the bytes that a group's name may not hold, by their codes, as GLib documents them |
| State.RemoveGroupIs | src/state.c:87 | removing a unit removes its name and nothing else |
| CgManager.CgManager.Call | src/cgmanager.c:73-130 | connecting is tried once, nothing is sent without a connection, and every call then fails |
| CgManager.CgManager.MoveSelf | src/cgmanager.c:163-189 | the startup calls; the release agent is set exactly when none is known |
| CgManager.ToInt32 | src/cgmanager.c:149 | an unsigned pid is passed as the int32 that is equal modulo 2^32 |
| CgManager.CgManager.Create | src/cgmanager.c:132-152 | the calls of a creation under the path without its leading slash |
| CgManager.CgManager.Remove | src/cgmanager.c:154-161 | one Remove of the path without its leading slash, successful only if sent and answered |
| CgManager.CgManager.Kill | src/cgmanager.c:197-215 | one question for the tasks and one kill per task listed, in order |
| Addresses.BehindSlash | src/cgroup-unit.c:53-61 | a path and a slash in front of it make another path exactly when the name has no dash and the other name is it behind a slash; any byte strings |
| Addresses.SlicesAtOneAddress | src/cgmanager.c:140-141 | two slices are created at one address exactly when they are one or twins |
| Addresses.AddressOrderExactly | src/cgmanager.c:140-141 | a slice is created strictly below another exactly when its name lies below the other's or the other's twin's |
| Addresses.UnitsAtOneAddress | src/cgmanager.c:140-141 | two units are created at one address exactly when they share a path or one would with its slice's twin |
| CGroupUnit.CGroupUnit.StartTransient | src/cgroup-unit.c:84-137 | the loop over the properties and the start meet the specified change of table, file and journal |
| CGroupUnit.CGroupUnit.Start | src/cgroup-unit.c:139-156 | the same for slices |
| CGroupUnit.CGroupUnit.Stop | src/cgroup-unit.c:158-186 | the same for the retry loop, against any replies |
| CGroupUnit.CGroupUnit.Abandon | src/cgroup-unit.c:188-207 | the same for abandoning |
| CGroupUnit.LastSliceWins | src/cgroup-unit.c:105-111 | the last string-typed Slice wins, whatever follows |
| CGroupUnit.PidsConcat | src/cgroup-unit.c:113-120 | PIDs arrays are concatenated in order, without regard to what stands between |
| CGroupUnit.PidsOfOne | src/cgroup-unit.c:113-120 | one property contributes all its values if it is an array of uint32 named PIDs, and nothing otherwise |
| CGroupUnit.StartTransientTrace | src/cgroup-unit.c:123-132 | position by position: Create, Chown for a user's slice, one MovePid per pid in order, SetValue, and after all of them the write of the state file; nothing else; the path is recorded |
| CGroupUnit.StartTransientRefused | src/cgroup-unit.c:95-99 | nothing happens exactly when the unit is no scope or the last Slice is no slice |
| CGroupUnit.StartedIsRecorded | src/cgroup-unit.c:152-154 | a started slice is recorded exactly when the key file can hold its name |
| CGroupUnit.StartedTransientIsRecorded | src/cgroup-unit.c:128-130 | the same for a scope |
| CGroupUnit.CreatedButNotRecorded | src/cgroup-unit.c:152-154 | `[.slice` is created and not recorded |
| CGroupUnit.StopExactly | src/cgroup-unit.c:166-185 | one to six kill-then-remove rounds on the recorded path, none after a success, fewer than six only because of one; then the unit is gone and all others are as before, and the file is written |
| CGroupUnit.RoundInOrder | src/cgroup-unit.c:176-181 | one round asks for the tasks, kills each one listed, in order, and then removes |
| CGroupUnit.OneAddress | src/cgmanager.c:140-141 | create, kill, remove and prune use one address exactly when the slice does not begin with a slash |
| CGroupUnit.AgentStopsTheOwner | src/cgroup-release-agent.c:40 | among the recorded units, the agent finds the owner of a path exactly when its name has no slash |
| CGroupUnit.RecordedPathsShared | src/cgroup-unit.c:128-130 | exactly which recorded units share a path: two scopes of which one spells out the way to the other |
| CGroupUnit.RecordedPathsDistinct | src/cgroup-unit.c:128-130 | among recorded units whose scopes have no slashes, one path means one unit |
| CGroupUnit.RecordedAddressesShared | src/cgmanager.c:140-141 | exactly which recorded units are created and removed at one address |
| CGroupUnit.RecordedAddressesDistinct | src/cgmanager.c:140-141 | if scopes have no slashes, these are a slice and its twin |
| CGroupUnit.TwoSlicesOneAddress | src/cgmanager.c:140-141 | `/a.slice` and `a.slice` are recorded with two paths and created at one address, and `a-b.slice` is created below both |
| CGroupUnit.TwoUnitsOneCgroup | src/cgroup-unit.c:128-130 | two scopes started in two slash-free slices that end up recorded with one path |
| CGroupUnit.ScopeInSubtree | src/cgroup-unit.c:45-82 | exactly when a scope's path lies below a slice's: it was started in that slice or one below it, or its name leads from its own slice to that one and past it |
| PowerUnit.PowerUnits.Start | src/power-unit.c:48-124 | a start meets the specified change of the latch, the limiter and the journal |
| Daemon.LookupCGroup | src/unit.c:56-57 | a name resolves to a cgroup unit exactly when it ends in `.slice` or `.scope`, and then to its own |
| Daemon.LookupPower | src/unit.c:44-54 | exactly which names resolve to which power action |
| Daemon.LookupTimeService | src/unit.c:40-42 | exactly which names resolve to the time service, and only when it is installed |
| Daemon.Shim.constructor | src/systemd-shim.c:448-463 | a new process has the table on the disk, no timer, no latch, and has made the startup calls |
| Daemon.Shim.HadActivity | src/systemd-shim.c:52-61 | the old timer is removed and one due in ten seconds is set |
| Daemon.Shim.ExitOnInactivity | src/systemd-shim.c:33-50 | the process leaves exactly when it is not shutting down; otherwise only the timer goes |
| Daemon.Shim.ManagerCall | src/systemd-shim.c:63-196 | every Manager call meets its specified outcome: process, file, journal and timer |
| Daemon.Shim.GetProperty | src/systemd-shim.c:198-221 | the same for properties: Virtualization is detected at most once without an error and answered from memory then; the request counts when it begins |
| Daemon.Shim.UnitMethodCall | src/systemd-shim.c:277-318 | the same for abandoning a node, decoded through its buffer |
| Daemon.Shim.UnitsEnumerate | src/systemd-shim.c:340-363 | the array of names is replaced in place by the nodes of the recorded units, in order |
| Requests.RefusedExactly | src/unit.c:34-64 | a request about a name is refused, with that name and nothing else, exactly when the name is none of the listed targets and services and ends in neither suffix |
| Requests.EveryRequestIsAnswered | src/systemd-shim.c:63-196 | every request has one answer, after everything else it does |
| Requests.StartShutdown | src/power-unit.c:57-77 | `poweroff.target` and `shutdown.target` latch and power off, `reboot.target` latches and reboots |
| Requests.StartSleep | src/power-unit.c:78-122 | exactly when suspending and hibernating are performed, and what the limiter then holds |
| Requests.PowerIsOnlyStarted | src/power-unit.c:126-135 | no other request means anything to a power unit, whose state is `static` |
| Requests.TimeService | src/ntp-unit.c:90-130 | starting switches the time service on, stopping switches it off, and its state is whether it is on |
| Requests.StartCGroup | src/systemd-shim.c:140-159 | StartUnit of any slice, position by position: Create at its address, Chown for a user's slice, SetValue, the write, the answer; the table; and nothing for a scope |
| Requests.StartTransientCGroup | src/systemd-shim.c:160-182 | the same for StartTransientUnit of any scope in the last slice named, with every process listed; nothing for other names and properties |
| Requests.StopCGroup | src/systemd-shim.c:121-139 | StopUnit of any unit: the rounds that the replies ask for, the write, the answer; the unit is forgotten and no other; nothing if it is not recorded |
| Requests.AbandonCGroup | src/systemd-shim.c:291-314 | the same for Abandon of any node that decodes to a unit |
| Requests.StateOfCGroup | src/cgroup-unit.c:209-214 | the state of a slice or scope is its name |
| Requests.ListUnits | src/systemd-shim.c:340-363 | one encoded name per recorded unit, in order |
| Requests.FixedReplies | src/systemd-shim.c:95-120 | the other calls and properties are answered and do nothing |
| Requests.FirstVirtualization | src/systemd-shim.c:209-212 | a process that has detected nothing yet tells the identifier of the first test that holds and remembers it, and tells nothing and remembers nothing after an error |
| Requests.LaterVirtualization | src/virt.c:250-256 | what was remembered is told again, whatever the machine reports by then |
| Requests.ServingActs | src/systemd-shim.c:52-61 | serving sets the one timer to ten seconds after the request was done or had begun, request by request, and otherwise does what acting does |
| Requests.Activation | src/cgmanager.c:163-189 | a process that starts makes the three calls of a missing or empty release agent, or the two of a known one, or none without a connection, and has what the file holds |
| Runs.TimerExactly | src/systemd-shim.c:52-61 | in every run a process has exactly one timer, due ten seconds after its last activity, unless there has been no activity or the timer has fired since, which a process outlives only during a shutdown; then it has none |
| Runs.LeavesEarlyExactly | src/systemd-shim.c:33-61 | a process can leave less than ten seconds after the end of a request exactly when the request is no Manager call, took any time, and found no shutdown under way |
| Runs.SlowAbandonLeavesAtOnce | src/systemd-shim.c:277-318 | after an Abandon of the recorded `a.slice`, whose Prune takes ten seconds, the process can leave at once |
| Runs.OnlyStartActs | src/power-unit.c:48-124 | no request but the start of a power unit acts on the machine or touches latch and limiter |
| Runs.ShutdownIsFinal | src/power-unit.c:57-82 | after a shutdown or reboot was started the process never leaves and never suspends or hibernates, in any run |
| Runs.SuspendsAreSpaced | src/power-unit.c:92-93 | any two suspends are at least a second apart, end to start, across any exits and activations |
| Restarts.FileIsLastSaved | src/state.c:38-52 | in every run the file holds the table of the last write that succeeded |
| Restarts.RestartLoadsLastSaved | src/state.c:24-36 | a restarted process has exactly that table |
| Restarts.RestartsAreInvisible | src/systemd-shim.c:33-50 | effects and answers of any run equal those of its requests without exits and activations, startup calls aside, exactly when the virtualization is detected alike; saves may fail as long as the file holds the table at each exit |
| Restarts.SuspendsExactly | src/power-unit.c:81-122 | a suspend is carried out exactly when, in the whole history of all processes, no shutdown was requested and the last suspend was over a second ago, and there is a way to do it |
| Restarts.HibernatesExactly | src/power-unit.c:81-122 | the same for hibernating, which the limiter leaves alone |
| Restarts.RequestedSomewhere | src/power-unit.c:57-63 | a shutdown was requested exactly when some request was for one of the three targets |
| Restarts.UnnoticedExactly | src/state.c:24-36 | a change of table at a restart goes unnoticed by the next request, whatever may come from then on, exactly when both tables list the same nodes and record every unit alike as far as it shows; for either signedness, with or without a connection |
| Restarts.UnnoticedUnsigned | src/state.c:24-36 | with an unsigned `char` and a connection, among tables that runs can reach, exactly when nothing was lost |
| Restarts.ConnectionIsVisible | src/cgmanager.c:84-103 | a process that reaches cgmanager and one that does not differ in what they send |
| Enumeration.RunsRecord | src/cgroup-unit.c:128-130 | in every run from the empty table, recorded names are distinct slices and scopes with the path their start computes |
| Enumeration.NodeResolves | src/systemd-shim.c:291-314 | a unit's node is legal, resolves to a cgroup unit, and to the unit itself exactly when its name is all graph |
| Enumeration.UngraphicSurvivesAbandon | src/systemd-shim.c:291-314 | a slice with a non-graph name, recorded alone, is left by abandoning its node, and nothing else happens |
| Enumeration.BlankSurvivesAbandon | src/systemd-shim.c:291-314 | `a b.slice` is one |
| Enumeration.NodesDistinct | src/systemd-shim.c:351-362 | units with graphic names are listed under different nodes |
| Enumeration.AbandonAllLeaves | src/systemd-shim.c:291-314 | any run of requests that abandons every listed node leaves exactly the units with non-graph names, so none exactly when there are none |
| Enumeration.AbandonAllPrunesEachOnce | src/cgroup-unit.c:188-207 | in the run of these requests, with graphic names, each recorded path is pruned once and the file written after it, in order, and nothing else happens |
| Enumeration.AgentRequestStopsOwner | src/cgroup-release-agent.c:45-53 | the agent's request stops the owner of the emptied cgroup, and no other unit, exactly when its name has no slash |
| Virt.ScanEnviron | src/virt.c:183-237 | the chunked reader terminates on every file, fills its buffer within bounds and answers as the first matching chunk |
| Virt.ChunksAreCutEntries | src/virt.c:187-203 | the chunks are the NUL-separated entries, each cut into pieces of at most LINE_MAX - 1 bytes |
| Virt.EntriesJoin | src/virt.c:187-203 | the entries, joined by NULs, are the file |
| Virt.PiecesOfEntry | src/virt.c:187-203 | the pieces make up the entry; all but the last have 2047 bytes, the last fewer |
| Virt.ReaderAgreesExactly | src/virt.c:183-237 | for every file: the reader answers as the first `container=` entry exactly when no entry decides, or the first that does begins `container=`, or its stray piece says what the later entries say |
| Virt.ShortEntriesDecide | src/virt.c:183-237 | with entries of at most LINE_MAX - 1 bytes the answer is that of the split list |
| Virt.StrayFoundInPlainEntry | src/virt.c:191-203 | one longer entry makes a container where there is none |
| Virt.DetectContainer | src/virt.c:155-240 | the order of the tests, the return code and the identifier, for any machine |
| Virt.Visit | src/util.h:493-494 | the pair iterator visits, in order and in bounds, the pairs before the first empty key |
| Virt.DecodesExactly | src/util.h:493-494 | these are all pairs exactly when no key is empty |
| Virt.FindExact | src/virt.c:109-116 | the loop over the packed table finds the first exact match of the list it encodes |
| Virt.FindPrefix | src/virt.c:131-133 | the loop over the packed table finds the last prefix match of the list it encodes |
| Virt.DetectVm | src/virt.c:30-153 | an exact CPUID match first, then the DMI files, then `other` under a hypervisor |
| Virt.DmiDecidedByFirst | src/virt.c:119-142 | the first DMI file that names a vendor or fails otherwise than by absence decides |
| Virt.DmiUndecided | src/virt.c:144-152 | without such a file only the hypervisor bit counts |
| Virt.SilentIs | src/virt.c:124-133 | a file decides nothing exactly when it is absent (ENOENT, 2) or names no vendor |
| Virt.DmiUnambiguous | src/virt.c:42-50 | no vendor string matches two identifiers, so any match would do |
| Virt.VendorIsFound | src/virt.c:131-133 | searching the vendors' table comes down to how the line begins, vendor by vendor |
| Virt.SignatureIsFound | src/virt.c:109-116 | searching the signatures' table comes down to the four signatures |
| Virt.ManagerIsFound | src/virt.c:205-233 | the name after the first `container=` is told if it is `lxc`, `lxc-libvirt` or `systemd-nspawn`, and `other` is told if not |
| Virt.VirtualizationExactly | src/virt.c:243-292 | code and identifier from the bytes of the environment, the processor's signature and the DMI files: exactly when which container, which virtual machine, which error, or none |
| Virt.Detector.DetectVirtualization | src/virt.c:243-292 | the remembered answer, or a detection that is remembered unless it failed |
| Virt.CacheHoldsFirstAnswer | src/virt.c:243-292 | over any run of questions, every answer is the first that was no error, if there was one, and the present one otherwise |
| Iovec.TotalSize | src/macro.h:153-161 | the sum of the lengths modulo 2^64 |
| Iovec.TotalIsBytes | src/macro.h:153-161 | the unlimited sum is the number of bytes the list denotes |
| Iovec.Increment | src/macro.h:163-179 | the loop advances the first n pieces in place, leaves the others, and returns what the list was too short for |
| Iovec.AdvanceDropsBytes | src/macro.h:163-179 | the contents lose exactly the skipped bytes at the front, and every piece stays inside its memory |
| Iovec.AdvanceTotal | src/macro.h:163-179 | the total shrinks by what was skipped |
| Iovec.AdvanceTwice | src/macro.h:163-179 | skipping twice gives the list and the remainder of skipping the sum |

## Left out

- D-Bus connections, introspection, signals, and GObject and GVariant memory: plumbing without decisions. A request is its name and arguments, its answer a value.
- Fixed replies (Reload, Subscribe, Enable/DisableUnitFiles, ActiveState, Version) are two kinds of request, Manager calls and properties, that only count as activity.
- cgmanager itself and the cgroup tree: only the calls are modelled, with arbitrary answers. Addresses are compared as they are sent; what becomes of empty, `.` and `..` components in them is not part of this model. All controllers are addressed together, as in the code. The API version check is part of whether a connection is made.
- GLib: a key file is an ordered table that reads back as it was saved for group names that GLib accepts, replacement of the file is atomic, and g_ascii_strtoull and g_path_get_basename are given by their documented behaviour.
- `src/ntp-unit.c`: starting and stopping it is one effect each, its presence and state are inputs.
- What the processor, stat, access and file reads report is input to the detection; builds for other processors, where detect_vm is constant, are not modelled.
- Power commands are one effect with a start and an end; whether the command reports failure changes nothing in the code either.
- Exits other than by inactivity (losing the bus name, being killed) do not occur in runs.
- Index variables are unbounded; the source's `gint` and `unsigned` indices would need strings of 2^31 bytes to wrap.
- Source ids of the main loop do not wrap around.
- ALIGN_TO in `src/macro.h` is plain arithmetic without a caller.
