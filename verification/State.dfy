/** src/state.c: the table of started units, cached in memory and written through to
    /run/systemd-shim-state on every change. */
module State {
  import opened CStrings
  import opened Effects

  /** One group of the key file; `path` is the only key the daemon uses. */
  datatype Group = Group(name: CString, path: CString)

  /** A GKeyFile is an ordered table: groups keep the order in which they were first set. */
  type KeyFile = seq<Group>

  ghost predicate Distinct(k: KeyFile) {
    forall i, j :: 0 <= i < j < |k| ==> k[i].name != k[j].name
  }

  /** GLib refuses to set a key in a group whose name it could not read back. */
  predicate ValidGroupName(name: CString) {
    name != [] && forall i :: 0 <= i < |name| ==> name[i] != '[' && name[i] != ']' && !IsCntrl(name[i])
  }

  /** No bracket, no code below 32 and no 127; and there must be a name. */
  lemma ValidGroupNameIs(name: CString)
    ensures ValidGroupName(name) <==>
      name != [] && forall i :: 0 <= i < |name| ==> name[i] as int !in {0x5b, 0x5d, 0x7f} && name[i] as int >= 0x20
  {
  }

  function Lookup(k: KeyFile, name: CString): Option<CString> {
    if k == [] then None
    else if k[0].name == name then Some(k[0].path)
    else Lookup(k[1..], name)
  }

  function Put(k: KeyFile, name: CString, path: CString): KeyFile {
    if k == [] then [Group(name, path)]
    else if k[0].name == name then [Group(name, path)] + k[1..]
    else [k[0]] + Put(k[1..], name, path)
  }

  function SetPath(k: KeyFile, name: CString, path: CString): KeyFile {
    if ValidGroupName(name) then Put(k, name, path) else k
  }

  function RemoveGroup(k: KeyFile, name: CString): KeyFile {
    if k == [] then []
    else if k[0].name == name then k[1..]
    else [k[0]] + RemoveGroup(k[1..], name)
  }

  function Names(k: KeyFile): seq<CString> {
    seq(|k|, i requires 0 <= i < |k| => k[i].name)
  }

  /** What a freshly started process finds: a missing file reads as an empty table. */
  function Loaded(file: Option<KeyFile>): KeyFile {
    match file
    case Some(k) => k
    case None => []
  }

  /** The file on the tmpfs, which outlives the process. */
  class Disk {
    var file: Option<KeyFile>
  }

  class StateFile {
    const disk: Disk
    const journal: Journal
    var keyFile: Option<KeyFile>

    /** The table as this process sees it, whether or not it has been loaded yet. */
    ghost function Image(): KeyFile
      reads this, disk
    {
      if keyFile.Some? then keyFile.value else Loaded(disk.file)
    }

    constructor (disk: Disk, journal: Journal)
      ensures this.disk == disk && this.journal == journal && Image() == Loaded(disk.file)
    {
      this.disk := disk;
      this.journal := journal;
      keyFile := None;
    }

    method GetKeyFile() returns (k: KeyFile)
      modifies this`keyFile
      ensures k == Image() == old(Image()) && keyFile == Some(k)
    {
      if keyFile.None? {
        keyFile := Some(Loaded(disk.file));
      }
      k := keyFile.value;
    }

    /** `saved` is whether the atomic replacement of the file succeeded. */
    method Sync(saved: bool)
      modifies this`keyFile, disk, journal
      ensures Image() == old(Image())
      ensures disk.file == if saved then Some(Image()) else old(disk.file)
      ensures journal.log == old(journal.log) + [WroteState]
    {
      var k := GetKeyFile();
      journal.log := journal.log + [WroteState];
      if saved {
        disk.file := Some(k);
      }
    }

    method ListUnits() returns (units: array<CString>)
      modifies this`keyFile
      ensures Image() == old(Image())
      ensures fresh(units) && units[..] == Names(Image())
    {
      var k := GetKeyFile();
      units := new CString[|k|](i requires 0 <= i < |k| => k[i].name);
    }

    method GetString(unit: CString) returns (path: Option<CString>)
      modifies this`keyFile
      ensures Image() == old(Image()) && path == Lookup(Image(), unit)
    {
      var k := GetKeyFile();
      path := Lookup(k, unit);
    }

    method SetString(unit: CString, path: CString, saved: bool)
      modifies this`keyFile, disk, journal
      ensures Image() == SetPath(old(Image()), unit, path)
      ensures disk.file == if saved then Some(Image()) else old(disk.file)
      ensures journal.log == old(journal.log) + [WroteState]
    {
      var k := GetKeyFile();
      keyFile := Some(SetPath(k, unit, path));
      Sync(saved);
    }

    method RemoveUnit(unit: CString, saved: bool)
      modifies this`keyFile, disk, journal
      ensures Image() == RemoveGroup(old(Image()), unit)
      ensures disk.file == if saved then Some(Image()) else old(disk.file)
      ensures journal.log == old(journal.log) + [WroteState]
    {
      var k := GetKeyFile();
      keyFile := Some(RemoveGroup(k, unit));
      Sync(saved);
    }
  }

  // ---- The table ----

  lemma {:induction false} LookupIsMembership(k: KeyFile, name: CString)
    ensures Lookup(k, name).Some? <==> name in Names(k)
    ensures Lookup(k, name).Some? ==> Group(name, Lookup(k, name).value) in k
    ensures Distinct(k) ==> forall g :: g in k && g.name == name ==> Lookup(k, name) == Some(g.path)
  {
    if k != [] {
      assert k == [k[0]] + k[1..];
      assert Names(k) == [k[0].name] + Names(k[1..]);
      assert Distinct(k) ==> Distinct(k[1..]);
      LookupIsMembership(k[1..], name);
    }
  }

  lemma {:induction false} PutLookup(k: KeyFile, name: CString, path: CString, other: CString)
    ensures Lookup(Put(k, name, path), other) == if other == name then Some(path) else Lookup(k, other)
  {
    if k != [] {
      if k[0].name != name {
        PutLookup(k[1..], name, path, other);
        assert Put(k, name, path)[1..] == Put(k[1..], name, path);
      } else {
        assert Put(k, name, path)[1..] == k[1..];
      }
    }
  }

  lemma {:induction false} PutNames(k: KeyFile, name: CString, path: CString)
    ensures Names(Put(k, name, path)) == if name in Names(k) then Names(k) else Names(k) + [name]
    ensures forall g :: g in Put(k, name, path) ==> g == Group(name, path) || g in k
  {
    if k != [] {
      assert Names(k) == [k[0].name] + Names(k[1..]);
      assert k == [k[0]] + k[1..];
      if k[0].name != name {
        PutNames(k[1..], name, path);
        var rest := Put(k[1..], name, path);
        assert Names(Put(k, name, path)) == [k[0].name] + Names(rest);
      } else {
        assert Names(Put(k, name, path)) == Names(k);
      }
    }
  }

  /** Setting a path changes that group only, keeps the order and appends a new name. */
  lemma PutIs(k: KeyFile, name: CString, path: CString)
    ensures forall other :: Lookup(Put(k, name, path), other) == if other == name then Some(path) else Lookup(k, other)
    ensures Names(Put(k, name, path)) == if name in Names(k) then Names(k) else Names(k) + [name]
    ensures forall g :: g in Put(k, name, path) ==> g == Group(name, path) || g in k
    ensures Distinct(k) ==> Distinct(Put(k, name, path))
  {
    forall other
      ensures Lookup(Put(k, name, path), other) == if other == name then Some(path) else Lookup(k, other)
    {
      PutLookup(k, name, path, other);
    }
    PutNames(k, name, path);
    NamesDistinct(k);
    NamesDistinct(Put(k, name, path));
  }

  lemma NamesDistinct(k: KeyFile)
    ensures Distinct(k) <==> forall i, j :: 0 <= i < j < |Names(k)| ==> Names(k)[i] != Names(k)[j]
  {
    assert forall i :: 0 <= i < |k| ==> Names(k)[i] == k[i].name;
  }

  /** The groups whose names are not in `gone`, in order. */
  function Without(k: KeyFile, gone: set<CString>): KeyFile {
    if k == [] then []
    else (if k[0].name in gone then [] else [k[0]]) + Without(k[1..], gone)
  }

  lemma {:induction false} WithoutMembers(k: KeyFile, gone: set<CString>)
    ensures forall g :: g in Without(k, gone) <==> g in k && g.name !in gone
    ensures (forall g :: g in k ==> g.name !in gone) ==> Without(k, gone) == k
  {
    if k != [] {
      WithoutMembers(k[1..], gone);
      assert k == [k[0]] + k[1..];
    }
  }

  lemma {:induction false} WithoutDistinct(k: KeyFile, gone: set<CString>)
    requires Distinct(k)
    ensures Distinct(Without(k, gone))
  {
    if k != [] {
      WithoutDistinct(k[1..], gone);
      WithoutMembers(k[1..], gone);
      var rest := Without(k[1..], gone);
      assert forall j :: 0 <= j < |rest| ==> rest[j] in k[1..];
    }
  }

  lemma {:induction false} WithoutLookup(k: KeyFile, gone: set<CString>, name: CString)
    ensures Lookup(Without(k, gone), name) == if name in gone then None else Lookup(k, name)
  {
    if k != [] {
      WithoutLookup(k[1..], gone, name);
      if k[0].name !in gone {
        assert Without(k, gone)[1..] == Without(k[1..], gone);
      } else {
        assert Without(k, gone) == Without(k[1..], gone);
      }
    }
  }

  lemma {:induction false} WithoutTwice(k: KeyFile, a: set<CString>, b: set<CString>)
    ensures Without(Without(k, a), b) == Without(k, a + b)
  {
    if k != [] {
      WithoutTwice(k[1..], a, b);
      if k[0].name !in a {
        assert Without(k, a)[1..] == Without(k[1..], a);
      } else {
        assert Without(k, a) == Without(k[1..], a);
      }
    }
  }

  /** Removing a group removes its name and nothing else. */
  lemma {:induction false} RemoveGroupIs(k: KeyFile, name: CString)
    requires Distinct(k)
    ensures RemoveGroup(k, name) == Without(k, {name})
  {
    if k != [] {
      if k[0].name == name {
        WithoutMembers(k[1..], {name});
        assert forall g :: g in k[1..] ==> g.name != name;
      } else {
        RemoveGroupIs(k[1..], name);
      }
    }
  }
}
