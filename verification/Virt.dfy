/** src/virt.c with NULSTR_FOREACH_PAIR of src/util.h: which container or virtual machine the
    daemon runs in. What the kernel and the processor report is taken as input. */
module Virt {
  import opened CStrings

  const ENOENT: int := 2
  const EPERM: int := 1

  // ---- /proc/1/environ, read in chunks ----

  const LINE_MAX: nat := 2048
  const LIMIT: nat := LINE_MAX - 1

  /** The length of the string at the start of `f`: up to its first NUL or its end. */
  function StrLen(f: seq<Byte>): (n: nat)
    ensures n <= |f| && (forall i :: 0 <= i < n ==> f[i] != NUL) && (n < |f| ==> f[n] == NUL)
  {
    if f == [] || f[0] == NUL then 0 else 1 + StrLen(f[1..])
  }

  function Head(f: seq<Byte>, n: nat): (s: CString)
    requires n <= |f| && forall i :: 0 <= i < n ==> f[i] != NUL
    ensures s == f[..n]
  {
    assert forall i :: 0 <= i < n ==> 1 <= f[..n][i] as int < 256;
    f[..n]
  }

  /** The environment: entries separated by NULs. */
  function Entries(f: seq<Byte>): seq<CString>
    decreases |f|, 1
  {
    [Head(f, StrLen(f))] + Others(f)
  }

  function Others(f: seq<Byte>): seq<CString>
    decreases |f|, 0
  {
    if StrLen(f) == |f| then [] else Entries(f[StrLen(f) + 1..])
  }

  /** What the reader compares, one after the other: a chunk ends at a NUL, which is consumed,
      at the end of the file, or when the buffer is full. */
  function Chunks(f: seq<Byte>): seq<CString>
    decreases |f|
  {
    var n := StrLen(f);
    if n >= LIMIT then [Head(f, LIMIT)] + Chunks(f[LIMIT..])
    else if n == |f| then [Head(f, n)]
    else [Head(f, n)] + Chunks(f[n + 1..])
  }

  const CONTAINER: CString := "container="

  /** The identifier a line stands for, if it names a container manager. */
  function Kind(line: CString): Option<CString> {
    if line == "container=lxc" then Some("lxc")
    else if line == "container=lxc-libvirt" then Some("lxc-libvirt")
    else if line == "container=systemd-nspawn" then Some("systemd-nspawn")
    else if CONTAINER <= line then Some("other")
    else None
  }

  function FirstKind(lines: seq<CString>): Option<CString> {
    if lines == [] then None
    else if Kind(lines[0]).Some? then Kind(lines[0])
    else FirstKind(lines[1..])
  }

  /** How one pass over the buffer ended decides the chunk and what is left. */
  lemma ChunkIs(f: seq<Byte>, i: nat, done: bool)
    requires i <= LIMIT && i <= |f|
    requires forall k :: 0 <= k < i ==> f[k] != NUL
    requires if done then i == |f| < LIMIT else i == LIMIT || (i < |f| && f[i] == NUL)
    ensures Chunks(f) == if done then [Head(f, i)]
                         else if i == LIMIT then [Head(f, i)] + Chunks(f[i..])
                         else [Head(f, i)] + Chunks(f[i + 1..])
  {
    var n := StrLen(f);
    assert n < |f| ==> f[n] == NUL;
    assert i < LIMIT ==> n == i;
  }

  /** Fills `line` from position `pos` of the file: `i` bytes, up to a NUL, which is consumed, the
      end of the file, or the end of the buffer. */
  method FillLine(f: seq<Byte>, pos: nat, line: array<Byte>) returns (i: nat, next: nat, done: bool)
    requires pos <= |f| && line.Length == LINE_MAX
    modifies line
    ensures i <= LIMIT && pos + i <= next <= |f| && line[i] == NUL
    ensures forall k :: 0 <= k < i ==> line[k] == f[pos..][k] != NUL
    ensures if done then next == pos + i == |f| && i < LIMIT
            else if i == LIMIT then next == pos + i
            else next == pos + i + 1 && f[pos..][i] == NUL
  {
    i, next, done := 0, pos, false;
    while i < LIMIT
      invariant i <= LIMIT && next == pos + i <= |f| && !done
      invariant forall k :: 0 <= k < i ==> line[k] == f[pos..][k] != NUL
      decreases LIMIT - i
    {
      if next == |f| {
        done := true;
        break;
      }
      var c := f[next];
      next := next + 1;
      if c == NUL {
        break;
      }
      line[i] := c;
      i := i + 1;
    }
    line[i] := NUL;
  }

  method ReadChunk(f: seq<Byte>, pos: nat, line: array<Byte>) returns (text: CString, next: nat, done: bool)
    requires pos <= |f| && line.Length == LINE_MAX
    modifies line
    ensures pos <= next <= |f| && (done || pos < next)
    ensures |text| < line.Length && line[..|text|] == text && line[|text|] == NUL
    ensures Chunks(f[pos..]) == [text] + (if done then [] else Chunks(f[next..]))
  {
    var i;
    i, next, done := FillLine(f, pos, line);
    ghost var rest := f[pos..];
    ChunkIs(rest, i, done);
    assert f[next..] == rest[next - pos..];
    assert line[..i] == rest[..i];
    assert forall k :: 0 <= k < i ==> line[..i][k] == line[k];
    text := Head(line[..i], i);
  }

  /** The comparisons of one line. */
  method Classify(line: CString) returns (id: Option<CString>)
    ensures id == Kind(line)
  {
    if line == "container=lxc" {
      id := Some("lxc");
    } else if line == "container=lxc-libvirt" {
      id := Some("lxc-libvirt");
    } else if line == "container=systemd-nspawn" {
      id := Some("systemd-nspawn");
    } else if CONTAINER <= line {
      id := Some("other");
    } else {
      id := None;
    }
  }

  lemma FirstKindOfCons(line: CString, more: seq<CString>)
    ensures FirstKind([line] + more) == if Kind(line).Some? then Kind(line) else FirstKind(more)
  {
    assert ([line] + more)[1..] == more;
  }

  method ScanEnviron(f: seq<Byte>) returns (id: Option<CString>)
    ensures id == FirstKind(Chunks(f))
  {
    var line := new Byte[LINE_MAX](_ => NUL);
    var pos := 0;
    var done := false;
    assert f[0..] == f;
    while !done
      invariant pos <= |f|
      invariant FirstKind(Chunks(f)) == if done then None else FirstKind(Chunks(f[pos..]))
      decreases !done, |f| - pos
    {
      var text, next;
      text, next, done := ReadChunk(f, pos, line);
      id := Classify(text);
      FirstKindOfCons(text, if done then [] else Chunks(f[next..]));
      if id.Some? {
        return;
      }
      pos := next;
    }
    id := None;
  }

  // ---- Chunks against entries ----

  /** An entry in pieces that fit the buffer. */
  function Cut(entry: CString): seq<CString> {
    if |entry| < LIMIT then [entry] else [entry[..LIMIT]] + Cut(entry[LIMIT..])
  }

  function CutAll(entries: seq<CString>): seq<CString> {
    if entries == [] then [] else Cut(entries[0]) + CutAll(entries[1..])
  }

  lemma {:induction false} StrLenFrom(f: seq<Byte>, i: nat)
    requires i <= StrLen(f)
    ensures StrLen(f[i..]) == StrLen(f) - i
  {
    if i > 0 {
      StrLenFrom(f[1..], i - 1);
      assert f[1..][i - 1..] == f[i..];
    } else {
      assert f[0..] == f;
    }
  }

  /** The entries with a NUL between any two. */
  function Join(entries: seq<CString>): seq<Byte>
    requires entries != []
  {
    if |entries| == 1 then entries[0] else entries[0] + [NUL] + Join(entries[1..])
  }

  /** Since no entry holds a NUL, only one list of entries joins to a file. */
  lemma {:induction false} EntriesJoin(f: seq<Byte>)
    ensures Entries(f) != [] && Join(Entries(f)) == f
    decreases |f|
  {
    var n := StrLen(f);
    if n < |f| {
      EntriesJoin(f[n + 1..]);
      assert Entries(f)[1..] == Entries(f[n + 1..]);
      assert f == f[..n] + [NUL] + f[n + 1..];
    } else {
      assert f[..n] == f;
    }
  }

  function Whole(pieces: seq<CString>): CString {
    if pieces == [] then [] else pieces[0] + Whole(pieces[1..])
  }

  /** The pieces of an entry make up the entry, and all but the last have 2047 bytes, the last
      fewer. */
  lemma {:induction false} PiecesOfEntry(entry: CString)
    ensures var pieces := Cut(entry);
            && Whole(pieces) == entry && pieces != [] && |pieces[|pieces| - 1]| < 2047
            && forall i :: 0 <= i < |pieces| - 1 ==> |pieces[i]| == 2047
    decreases |entry|
  {
    if |entry| >= 2047 {
      var rest := entry[2047..];
      PiecesOfEntry(rest);
      assert Cut(entry)[1..] == Cut(rest);
      assert entry == entry[..2047] + rest;
    } else {
      assert [entry][1..] == [];
    }
  }

  /** Reading on inside the first entry leaves the others as they are. */
  lemma OthersFrom(f: seq<Byte>, i: nat)
    requires i <= StrLen(f)
    ensures StrLen(f[i..]) == StrLen(f) - i && Others(f[i..]) == Others(f)
  {
    var n := StrLen(f);
    StrLenFrom(f, i);
    if n < |f| {
      BytesFrom(f, i, n - i + 1);
      assert Others(f) == Entries(f[n + 1..]);
      assert Others(f[i..]) == Entries(f[i..][n - i + 1..]);
    }
  }

  lemma BytesFrom(f: seq<Byte>, i: nat, n: nat)
    requires i + n <= |f|
    ensures f[i..][n..] == f[i + n..]
  {
  }

  lemma HeadSplit(f: seq<Byte>, n: nat, i: nat)
    requires i <= n <= |f| && forall k :: 0 <= k < n ==> f[k] != NUL
    ensures Head(f, n)[..i] == Head(f, i)
    ensures (forall k :: 0 <= k < n - i ==> f[i..][k] != NUL) && Head(f, n)[i..] == Head(f[i..], n - i)
  {
    assert f[..n][..i] == f[..i] && f[..n][i..] == f[i..][..n - i];
  }

  /** The chunks are the entries, each cut into pieces of at most LINE_MAX - 1 bytes. */
  lemma {:induction false} ChunksAreCutEntries(f: seq<Byte>)
    ensures Chunks(f) == CutAll(Entries(f))
    decreases |f|
  {
    var n := StrLen(f);
    if n >= LIMIT {
      ChunksAreCutEntries(f[LIMIT..]);
      LongEntryCut(f);
    } else {
      EntriesCut(f);
      if n < |f| {
        ChunksAreCutEntries(f[n + 1..]);
      }
    }
  }

  /** A first entry that overfills the buffer goes on behind it. */
  lemma LongEntry(f: seq<Byte>)
    requires StrLen(f) >= LIMIT
    ensures var entry, g := Head(f, StrLen(f)), f[LIMIT..];
            entry[..LIMIT] == Head(f, LIMIT) && entry[LIMIT..] == Head(g, StrLen(g)) && Others(g) == Others(f)
  {
    OthersFrom(f, LIMIT);
    HeadSplit(f, StrLen(f), LIMIT);
  }

  lemma LongEntryCut(f: seq<Byte>)
    requires StrLen(f) >= LIMIT
    ensures CutAll(Entries(f)) == [Head(f, LIMIT)] + CutAll(Entries(f[LIMIT..]))
  {
    var g := f[LIMIT..];
    EntriesCut(f);
    EntriesCut(g);
    LongEntry(f);
    CutFirst(Head(f, StrLen(f)));
    LinesAssociate([Head(f, LIMIT)], Cut(Head(g, StrLen(g))), CutAll(Others(f)));
  }

  lemma CutFirst(entry: CString)
    requires |entry| >= LIMIT
    ensures Cut(entry) == [entry[..LIMIT]] + Cut(entry[LIMIT..])
  {
  }

  lemma LinesAssociate(a: seq<CString>, b: seq<CString>, c: seq<CString>)
    ensures a + (b + c) == a + b + c
  {
  }

  lemma EntriesCut(f: seq<Byte>)
    ensures CutAll(Entries(f)) == Cut(Head(f, StrLen(f))) + CutAll(Others(f))
  {
  }

  /** A later piece of a long entry happens to begin like a container's entry. */
  predicate Stray(entry: CString) {
    |entry| >= LIMIT && (CONTAINER <= entry[LIMIT..] || Stray(entry[LIMIT..]))
  }

  lemma KindOfFirstPiece(entry: CString)
    requires |entry| >= LIMIT
    ensures Kind(entry[..LIMIT]) == Kind(entry)
  {
  }

  lemma KindIsPrefix(line: CString)
    ensures Kind(line).Some? <==> CONTAINER <= line
  {
  }

  lemma {:induction false} FirstKindConcat(a: seq<CString>, b: seq<CString>)
    ensures FirstKind(a + b) == if FirstKind(a).Some? then FirstKind(a) else FirstKind(b)
  {
    if a == [] {
      assert a + b == b;
    } else {
      assert (a + b)[1..] == a[1..] + b;
      FirstKindConcat(a[1..], b);
    }
  }

  /** In pieces, an entry answers exactly when it begins "container=", and then as a whole, or
      when it has a stray piece. */
  lemma {:induction false} KindOfCut(entry: CString)
    ensures FirstKind(Cut(entry)).Some? <==> CONTAINER <= entry || Stray(entry)
    ensures CONTAINER <= entry ==> FirstKind(Cut(entry)) == Kind(entry)
    decreases |entry|
  {
    KindIsPrefix(entry);
    if |entry| >= LIMIT {
      KindOfFirstPiece(entry);
      KindOfCut(entry[LIMIT..]);
      FirstKindOfCons(entry[..LIMIT], Cut(entry[LIMIT..]));
    } else {
      FirstKindOfCons(entry, []);
    }
  }

  /** The first entry that decides what the reader finds, if there is one. */
  function Decisive(entries: seq<CString>): (m: nat)
    ensures m <= |entries|
    ensures forall i :: 0 <= i < m ==> !(CONTAINER <= entries[i]) && !Stray(entries[i])
    ensures m < |entries| ==> CONTAINER <= entries[m] || Stray(entries[m])
  {
    if entries == [] || CONTAINER <= entries[0] || Stray(entries[0]) then 0 else 1 + Decisive(entries[1..])
  }

  /** No entry decides, or the first that does begins "container=", or its stray piece happens to
      say what the later entries say. */
  ghost predicate CutIsHarmless(entries: seq<CString>) {
    var m := Decisive(entries);
    || m == |entries|
    || CONTAINER <= entries[m]
    || FirstKind(Cut(entries[m])) == FirstKind(entries[m + 1..])
  }

  lemma HarmlessBehind(entries: seq<CString>)
    requires entries != [] && !(CONTAINER <= entries[0]) && !Stray(entries[0])
    ensures CutIsHarmless(entries) <==> CutIsHarmless(entries[1..])
  {
    var rest := entries[1..];
    var m := Decisive(rest);
    assert Decisive(entries) == m + 1;
    if m < |rest| {
      assert rest[m] == entries[m + 1] && rest[m + 1..] == entries[m + 2..];
    }
  }

  lemma {:induction false} CutAgreesExactly(entries: seq<CString>)
    ensures FirstKind(CutAll(entries)) == FirstKind(entries) <==> CutIsHarmless(entries)
  {
    if entries != [] {
      var entry, more := entries[0], entries[1..];
      KindOfCut(entry);
      KindIsPrefix(entry);
      FirstKindConcat(Cut(entry), CutAll(more));
      if !(CONTAINER <= entry) && !Stray(entry) {
        CutAgreesExactly(more);
        HarmlessBehind(entries);
      }
    }
  }

  /** For every file: the reader finds what the split list says exactly when cutting its entries
      is harmless. */
  lemma ReaderAgreesExactly(f: seq<Byte>)
    ensures FirstKind(Chunks(f)) == FirstKind(Entries(f)) <==> CutIsHarmless(Entries(f))
  {
    ChunksAreCutEntries(f);
    CutAgreesExactly(Entries(f));
  }

  lemma ShortIsNoStray(entry: CString)
    requires |entry| <= LIMIT
    ensures !Stray(entry)
  {
  }

  /** Entries that fit the buffer have no stray pieces. */
  lemma ShortEntriesDecide(f: seq<Byte>)
    requires forall i :: 0 <= i < |Entries(f)| ==> |Entries(f)[i]| <= 2047
    ensures FirstKind(Chunks(f)) == FirstKind(Entries(f))
  {
    var m := Decisive(Entries(f));
    if m < |Entries(f)| {
      ShortIsNoStray(Entries(f)[m]);
    }
    ReaderAgreesExactly(f);
  }

  /** One entry that is too long can make a container where there is none. */
  lemma StrayFoundInPlainEntry()
    ensures var f: CString := seq(2047, _ => 'x') + "container=lxc";
            FirstKind(Entries(f)) == None && FirstKind(Chunks(f)) == Some("lxc")
  {
  }

  // ---- detect_container ----

  /** Error numbers; the code returns them negated. */
  type Errno = n: int | n > 0 witness 1

  /** The outcome of reading the first line of one DMI file. */
  datatype Read = Line(text: CString) | Failed(errno: Errno)

  /** What the kernel and the processor report: the user, the chroot test, which of /proc/vz and
      /proc/bc exist, the bytes of /proc/1/environ, what the processor says of a hypervisor, if
      there is one, and the DMI files. */
  datatype Machine = Machine(
    euid: nat, inChroot: int, vz: bool, bc: bool, environ: Option<seq<Byte>>,
    signature: Option<CString>, files: seq<Read>)

  /** A return code, with the identifier if one is set. */
  datatype Detected = Detected(r: int, id: Option<CString>)

  function ContainerKind(m: Machine): Option<CString> {
    if m.inChroot > 0 then Some("chroot")
    else if m.vz && !m.bc then Some("openvz")
    else if m.environ.Some? then FirstKind(Chunks(m.environ.value))
    else None
  }

  function ContainerAnswer(m: Machine): Detected {
    if m.euid != 0 then Detected(-EPERM, None)
    else Detected(if ContainerKind(m).Some? then 1 else 0, ContainerKind(m))
  }

  method DetectContainer(m: Machine) returns (d: Detected)
    ensures d == ContainerAnswer(m)
  {
    if m.euid != 0 {
      return Detected(-EPERM, None);
    }
    if m.inChroot > 0 {
      return Detected(1, Some("chroot"));
    }
    if m.vz && !m.bc {
      return Detected(1, Some("openvz"));
    }
    if m.environ.Some? {
      var found := ScanEnviron(m.environ.value);
      if found.Some? {
        return Detected(1, found);
      }
    }
    d := Detected(0, None);
  }

  // ---- Packed tables ----

  datatype Pair = Pair(key: CString, id: CString)

  /** Keys and values, each followed by a NUL. */
  function Flatten(pairs: seq<Pair>): seq<Byte> {
    if pairs == [] then [] else pairs[0].key + [NUL] + pairs[0].id + [NUL] + Flatten(pairs[1..])
  }

  /** The array in memory: a string literal adds one NUL of its own. */
  function Packed(pairs: seq<Pair>): seq<Byte> {
    Flatten(pairs) + [NUL]
  }

  /** The pairs before the first empty key, which reads as the end of the table. */
  function BeforeEmptyKey(pairs: seq<Pair>): seq<Pair> {
    if pairs == [] || pairs[0].key == [] then [] else [pairs[0]] + BeforeEmptyKey(pairs[1..])
  }

  /** strchr(table + i, 0) - table. */
  method FindNul(table: seq<Byte>, i: nat) returns (end: nat)
    requires i < |table| && table[|table| - 1] == NUL
    ensures i <= end < |table| && end == i + StrLen(table[i..])
  {
    end := i;
    assert table[i..][0..] == table[i..];
    while table[end] != NUL
      invariant i <= end < |table| && i + StrLen(table[i..]) == end + StrLen(table[end..])
      decreases |table| - end
    {
      assert table[end..][1..] == table[end + 1..];
      end := end + 1;
    }
  }

  lemma StrLenOf(s: CString, rest: seq<Byte>)
    requires rest != [] && rest[0] == NUL
    ensures StrLen(s + rest) == |s|
  {
    var whole := s + rest;
    assert whole[|s|] == NUL;
    assert forall i :: 0 <= i < |s| ==> whole[i] == s[i];
  }

  /** The cursors of the loop stand at the key and the value of the first pair of `rest`. */
  ghost predicate Cursors(table: seq<Byte>, i: nat, j: nat, rest: seq<Pair>) {
    && i < |table|
    && table[i..] == Packed(rest)
    && (table[i] != NUL ==> j == i + StrLen(table[i..]) + 1)
  }

  /** A string reads as itself, and what follows its NUL is what was packed. */
  lemma StringFirst(t: seq<Byte>, s: CString, tail: seq<Byte>)
    requires t == s + ([NUL] + tail)
    ensures StrLen(t) == |s| < |t| && t[..|s|] == s && t[|s| + 1..] == tail
  {
    StrLenOf(s, [NUL] + tail);
  }

  lemma PackedFirst(rest: seq<Pair>)
    requires rest != []
    ensures Packed(rest) == rest[0].key + ([NUL] + (rest[0].id + ([NUL] + Packed(rest[1..]))))
  {
  }

  /** The string that begins at `i` is `s`; `after` is the table behind its NUL. */
  ghost predicate StringAt(table: seq<Byte>, i: nat, s: CString, after: seq<Byte>) {
    i + |s| < |table| && StrLen(table[i..]) == |s| && table[i..][..|s|] == s && table[i + |s| + 1..] == after
  }

  lemma ReadsString(table: seq<Byte>, i: nat, s: CString, tail: seq<Byte>)
    requires i <= |table| && table[i..] == s + ([NUL] + tail)
    ensures StringAt(table, i, s, tail)
  {
    StringFirst(table[i..], s, tail);
    BytesFrom(table, i, |s| + 1);
  }

  /** Where the strings of the first pair lie, and where the next pair begins. */
  lemma FirstPairAt(table: seq<Byte>, i: nat, rest: seq<Pair>)
    requires rest != [] && i <= |table| && table[i..] == Packed(rest)
    ensures var key, id, more := rest[0].key, rest[0].id, Packed(rest[1..]);
            StringAt(table, i, key, id + ([NUL] + more)) && StringAt(table, i + |key| + 1, id, more)
  {
    var key, id, more := rest[0].key, rest[0].id, Packed(rest[1..]);
    PackedFirst(rest);
    ReadsString(table, i, key, id + ([NUL] + more));
    ReadsString(table, i + |key| + 1, id, more);
  }

  /** The loop ends at the end of the list or at an empty key. */
  lemma CursorsEnd(table: seq<Byte>, i: nat, j: nat, rest: seq<Pair>)
    requires Cursors(table, i, j, rest)
    ensures table[i] == NUL <==> BeforeEmptyKey(rest) == []
  {
  }

  /** Where the value of the pair at `i` begins; at the end of the table, `i` itself. */
  method ValueCursor(table: seq<Byte>, i: nat) returns (j: nat)
    requires i < |table| && table[|table| - 1] == NUL
    ensures j <= |table| && (table[i] != NUL ==> j == i + StrLen(table[i..]) + 1)
  {
    if table[i] != NUL {
      var end := FindNul(table, i);
      j := end + 1;
    } else {
      j := i;
    }
  }

  method ReadPair(table: seq<Byte>, i: nat, j: nat, ghost rest: seq<Pair>) returns (pair: Pair, next: nat)
    requires Cursors(table, i, j, rest) && table[|table| - 1] == NUL && table[i] != NUL
    ensures BeforeEmptyKey(rest) == [pair] + BeforeEmptyKey(rest[1..])
    ensures i < next < |table| && table[next..] == Packed(rest[1..])
  {
    CursorsEnd(table, i, j, rest);
    FirstPairAt(table, i, rest);
    var keyEnd := FindNul(table, i);
    var idEnd := FindNul(table, j);
    pair := Pair(Head(table[i..], keyEnd - i), Head(table[j..], idEnd - j));
    next := idEnd + 1;
    assert |table[next..]| == |Packed(rest[1..])| > 0;
  }

  /** NULSTR_FOREACH_PAIR: for any list of pairs, the loop over its packed form visits, in order
      and without leaving the table, the pairs before the first empty key. */
  method Visit(table: seq<Byte>, ghost pairs: seq<Pair>) returns (visited: seq<Pair>)
    requires table == Packed(pairs)
    ensures visited == BeforeEmptyKey(pairs)
  {
    visited := [];
    var i := 0;
    var j := ValueCursor(table, i);
    ghost var rest := pairs;
    assert table[0..] == table;
    while table[i] != NUL
      invariant Cursors(table, i, j, rest)
      invariant visited + BeforeEmptyKey(rest) == BeforeEmptyKey(pairs)
      decreases |table| - i
    {
      var pair, next := ReadPair(table, i, j, rest);
      visited := visited + [pair];
      rest, i := rest[1..], next;
      j := ValueCursor(table, i);
    }
    CursorsEnd(table, i, j, rest);
  }

  /** The first pair whose key is `s`, as cpuid_vendor_table is searched. */
  method FindExact(table: seq<Byte>, ghost pairs: seq<Pair>, s: CString) returns (id: Option<CString>)
    requires table == Packed(pairs)
    ensures id == FirstExact(BeforeEmptyKey(pairs), s)
  {
    var i := 0;
    var j := ValueCursor(table, i);
    ghost var rest := pairs;
    assert table[0..] == table;
    while table[i] != NUL
      invariant Cursors(table, i, j, rest)
      invariant FirstExact(BeforeEmptyKey(rest), s) == FirstExact(BeforeEmptyKey(pairs), s)
      decreases |table| - i
    {
      var pair, next := ReadPair(table, i, j, rest);
      assert BeforeEmptyKey(rest)[1..] == BeforeEmptyKey(rest[1..]);
      if s == pair.key {
        return Some(pair.id);
      }
      rest, i := rest[1..], next;
      j := ValueCursor(table, i);
    }
    CursorsEnd(table, i, j, rest);
    id := None;
  }

  /** The last pair whose key begins `s`, as dmi_vendor_table is searched. */
  method FindPrefix(table: seq<Byte>, ghost pairs: seq<Pair>, s: CString) returns (id: Option<CString>)
    requires table == Packed(pairs)
    ensures id == LastPrefix(BeforeEmptyKey(pairs), s)
  {
    id := None;
    var i := 0;
    var j := ValueCursor(table, i);
    ghost var rest := pairs;
    assert table[0..] == table;
    while table[i] != NUL
      invariant Cursors(table, i, j, rest)
      invariant LastPrefix(BeforeEmptyKey(pairs), s)
                == if LastPrefix(BeforeEmptyKey(rest), s).Some? then LastPrefix(BeforeEmptyKey(rest), s) else id
      decreases |table| - i
    {
      var pair, next := ReadPair(table, i, j, rest);
      assert BeforeEmptyKey(rest)[1..] == BeforeEmptyKey(rest[1..]);
      if pair.key <= s {
        id := Some(pair.id);
      }
      rest, i := rest[1..], next;
      j := ValueCursor(table, i);
    }
    CursorsEnd(table, i, j, rest);
  }

  function FirstExact(pairs: seq<Pair>, s: CString): Option<CString> {
    if pairs == [] then None
    else if pairs[0].key == s then Some(pairs[0].id)
    else FirstExact(pairs[1..], s)
  }

  function LastPrefix(pairs: seq<Pair>, s: CString): Option<CString> {
    if pairs == [] then None
    else if LastPrefix(pairs[1..], s).Some? then LastPrefix(pairs[1..], s)
    else if pairs[0].key <= s then Some(pairs[0].id)
    else None
  }

  /** The packed form decodes to the whole list exactly when no key is empty. */
  lemma {:induction false} DecodesExactly(pairs: seq<Pair>)
    ensures BeforeEmptyKey(pairs) == pairs <==> forall i :: 0 <= i < |pairs| ==> pairs[i].key != []
  {
    if pairs != [] && pairs[0].key != [] {
      DecodesExactly(pairs[1..]);
      assert pairs == [pairs[0]] + pairs[1..];
      assert BeforeEmptyKey(pairs) == pairs <==> BeforeEmptyKey(pairs[1..]) == pairs[1..];
      assert forall i :: 0 < i < |pairs| ==> pairs[i] == pairs[1..][i - 1];
    }
  }

  // ---- detect_vm ----

  const CPUID_PAIRS: seq<Pair> := [
    Pair("XenVMMXenVMM", "xen"),
    Pair("KVMKVMKVM", "kvm"),
    Pair("VMwareVMware", "vmware"),
    Pair("Microsoft Hv", "microsoft")]

  const DMI_PAIRS: seq<Pair> := [
    Pair("QEMU", "qemu"),
    Pair("VMware", "vmware"),
    Pair("VMW", "vmware"),
    Pair("Microsoft Corporation", "microsoft"),
    Pair("innotek GmbH", "oracle"),
    Pair("Xen", "xen"),
    Pair("Bochs", "bochs")]

  lemma CpuidTableDecodes()
    ensures BeforeEmptyKey(CPUID_PAIRS) == CPUID_PAIRS
  {
    DecodesExactly(CPUID_PAIRS);
  }

  lemma DmiTableDecodes()
    ensures BeforeEmptyKey(DMI_PAIRS) == DMI_PAIRS
  {
    DecodesExactly(DMI_PAIRS);
  }

  /** Although the last match wins, any match would do: no vendor matches two identifiers. */
  lemma DmiUnambiguous(text: CString, i: nat)
    requires i < |DMI_PAIRS| && DMI_PAIRS[i].key <= text
    ensures LastPrefix(DMI_PAIRS, text) == Some(DMI_PAIRS[i].id)
  {
    forall j | 0 <= j < |DMI_PAIRS| && DMI_PAIRS[j].key <= text ensures DMI_PAIRS[j].id == DMI_PAIRS[i].id {
      FirstBytes(i, j);
    }
    LastPrefixIsSome(DMI_PAIRS, text, DMI_PAIRS[i].id);
  }

  /** Keys of different identifiers differ in their first byte. */
  lemma FirstBytes(i: nat, j: nat)
    requires i < |DMI_PAIRS| && j < |DMI_PAIRS|
    ensures DMI_PAIRS[i].key != [] && DMI_PAIRS[j].key != []
    ensures DMI_PAIRS[i].key[0] == DMI_PAIRS[j].key[0] ==> DMI_PAIRS[i].id == DMI_PAIRS[j].id
  {
    var pairs := DMI_PAIRS;
    var bytes, ids := "QVVMiXB", ["qemu", "vmware", "vmware", "microsoft", "oracle", "xen", "bochs"];
    assert |pairs| == 7 && forall k :: 0 <= k < 7 ==> pairs[k].key != [] && pairs[k].key[0] == bytes[k];
    assert forall k :: 0 <= k < 7 ==> pairs[k].id == ids[k];
  }

  lemma {:induction false} LastPrefixIsSome(pairs: seq<Pair>, text: CString, id: CString)
    requires forall j :: 0 <= j < |pairs| && pairs[j].key <= text ==> pairs[j].id == id
    ensures LastPrefix(pairs, text) == if exists j :: 0 <= j < |pairs| && pairs[j].key <= text then Some(id) else None
  {
    if pairs != [] {
      LastPrefixIsSome(pairs[1..], text, id);
      assert pairs == [pairs[0]] + pairs[1..];
      assert forall j :: 0 < j < |pairs| ==> pairs[j] == pairs[1..][j - 1];
    }
  }

  /** The files in order: the first that names a vendor decides, and so does the first that
      cannot be read for another reason than its absence. */
  function DmiAnswer(files: seq<Read>, hypervisor: bool): Detected {
    if files == [] then
      if hypervisor then Detected(1, Some("other")) else Detected(0, None)
    else
      match files[0]
      case Failed(errno) =>
        if errno != ENOENT then Detected(0 - errno, None) else DmiAnswer(files[1..], hypervisor)
      case Line(text) =>
        if LastPrefix(DMI_PAIRS, text).Some? then Detected(1, LastPrefix(DMI_PAIRS, text))
        else DmiAnswer(files[1..], hypervisor)
  }

  /** `signature` is what the processor says of the hypervisor, if it reports one. */
  function VmAnswer(signature: Option<CString>, files: seq<Read>): Detected {
    if signature.Some? && FirstExact(CPUID_PAIRS, signature.value).Some?
    then Detected(1, FirstExact(CPUID_PAIRS, signature.value))
    else DmiAnswer(files, signature.Some?)
  }

  method DetectVm(signature: Option<CString>, files: seq<Read>) returns (d: Detected)
    ensures d == VmAnswer(signature, files)
  {
    CpuidTableDecodes();
    DmiTableDecodes();
    var cpuidTable, dmiTable := Packed(CPUID_PAIRS), Packed(DMI_PAIRS);
    if signature.Some? {
      var id := FindExact(cpuidTable, CPUID_PAIRS, signature.value);
      if id.Some? {
        return Detected(1, id);
      }
    }
    assert files[0..] == files;
    for i := 0 to |files|
      invariant DmiAnswer(files, signature.Some?) == DmiAnswer(files[i..], signature.Some?)
    {
      assert files[i..][1..] == files[i + 1..];
      if files[i].Failed? {
        if files[i].errno != ENOENT {
          return Detected(0 - files[i].errno, None);
        }
      } else {
        var found := FindPrefix(dmiTable, DMI_PAIRS, files[i].text);
        if found.Some? {
          return Detected(1, found);
        }
      }
    }
    d := if signature.Some? then Detected(1, Some("other")) else Detected(0, None);
  }

  /** The position of the file that decides: every file before it is absent or names no vendor. */
  ghost predicate Decides(files: seq<Read>, i: nat) {
    && i < |files|
    && (forall k :: 0 <= k < i ==> Silent(files[k]))
    && !Silent(files[i])
  }

  predicate Silent(file: Read) {
    match file
    case Failed(errno) => errno == ENOENT
    case Line(text) => LastPrefix(DMI_PAIRS, text).None?
  }

  lemma {:induction false} DmiDecidedByFirst(files: seq<Read>, hypervisor: bool, i: nat)
    requires Decides(files, i)
    ensures DmiAnswer(files, hypervisor) ==
      if files[i].Failed? then Detected(0 - files[i].errno, None) else Detected(1, LastPrefix(DMI_PAIRS, files[i].text))
  {
    if i > 0 {
      assert Silent(files[0]);
      assert forall k :: 0 <= k < i - 1 ==> files[1..][k] == files[k + 1];
      DmiDecidedByFirst(files[1..], hypervisor, i - 1);
    }
  }

  lemma {:induction false} DmiUndecided(files: seq<Read>, hypervisor: bool)
    requires forall k :: 0 <= k < |files| ==> Silent(files[k])
    ensures DmiAnswer(files, hypervisor) == if hypervisor then Detected(1, Some("other")) else Detected(0, None)
  {
    if files != [] {
      assert Silent(files[0]);
      assert forall k :: 0 <= k < |files| - 1 ==> files[1..][k] == files[k + 1];
      DmiUndecided(files[1..], hypervisor);
    }
  }

  // ---- detect_virtualization ----

  /** What a detection from scratch says: a negative error, 0 for none, 1 for a virtual machine,
      2 for a container. */
  function Scratch(m: Machine): Detected {
    var container, vm := ContainerAnswer(m), VmAnswer(m.signature, m.files);
    if container.r < 0 then Detected(container.r, None)
    else if container.r > 0 then Detected(2, container.id)
    else if vm.r < 0 then Detected(vm.r, None)
    else if vm.r > 0 then Detected(1, vm.id)
    else Detected(0, None)
  }

  // ---- The whole answer ----

  /** At most one file decides, and if none does then all are silent; the search begins at `i`. */
  lemma {:induction false} FirstToDecide(files: seq<Read>, i: nat) returns (first: Option<nat>)
    requires i <= |files| && forall k :: 0 <= k < i ==> Silent(files[k])
    ensures forall k: nat :: Decides(files, k) <==> first == Some(k)
    ensures first.None? ==> forall k :: 0 <= k < |files| ==> Silent(files[k])
    decreases |files| - i
  {
    if i == |files| {
      first := None;
    } else if Silent(files[i]) {
      first := FirstToDecide(files, i + 1);
    } else {
      first := Some(i);
    }
  }

  // ---- The identifiers ----

  /** The identifier of a container manager: its name if it is one of three. */
  function ManagerId(manager: CString): CString {
    if manager in ["lxc", "lxc-libvirt", "systemd-nspawn"] then manager else "other"
  }

  lemma KindOfManager(manager: CString)
    ensures Kind("container=" + manager) == Some(ManagerId(manager))
  {
    var line: CString := "container=" + manager;
    assert manager == line[10..];
    assert "container=lxc"[10..] == "lxc";
    assert "container=lxc-libvirt"[10..] == "lxc-libvirt";
    assert "container=systemd-nspawn"[10..] == "systemd-nspawn";
    assert manager == "lxc" ==> line == "container=lxc";
    assert manager == "lxc-libvirt" ==> line == "container=lxc-libvirt";
    assert manager == "systemd-nspawn" ==> line == "container=systemd-nspawn";
  }

  /** Piece `i` of the environment is the first that begins "container=", and `manager` follows. */
  ghost predicate SaysFirst(environ: seq<Byte>, i: nat, manager: CString) {
    var pieces := CutAll(Entries(environ));
    && i < |pieces| && pieces[i] == "container=" + manager
    && forall k :: 0 <= k < i ==> !("container=" <= pieces[k])
  }

  lemma {:induction false} FirstKindAt(lines: seq<CString>, i: nat)
    requires i < |lines| && Kind(lines[i]).Some? && forall k :: 0 <= k < i ==> Kind(lines[k]).None?
    ensures FirstKind(lines) == Kind(lines[i])
  {
    if i > 0 {
      FirstKindAt(lines[1..], i - 1);
    }
  }

  lemma ManagerIsFound(environ: seq<Byte>, i: nat, manager: CString)
    requires SaysFirst(environ, i, manager)
    ensures FirstKind(Chunks(environ)) == Some(ManagerId(manager))
  {
    var pieces := CutAll(Entries(environ));
    ChunksAreCutEntries(environ);
    KindOfManager(manager);
    forall k | 0 <= k < i ensures Kind(pieces[k]).None? {
      KindIsPrefix(pieces[k]);
    }
    FirstKindAt(pieces, i);
  }

  lemma {:induction false} FirstToSay(lines: seq<CString>, i: nat) returns (first: nat)
    requires i <= |lines| && forall k :: 0 <= k < i ==> !(CONTAINER <= lines[k])
    requires FirstKind(lines[i..]).Some?
    ensures first < |lines| && CONTAINER <= lines[first]
    ensures forall k :: 0 <= k < first ==> !(CONTAINER <= lines[k])
    decreases |lines| - i
  {
    KindIsPrefix(lines[i]);
    if CONTAINER <= lines[i] {
      first := i;
    } else {
      assert lines[i..][1..] == lines[i + 1..];
      first := FirstToSay(lines, i + 1);
    }
  }

  lemma SomethingIsSaid(environ: seq<Byte>) returns (i: nat, manager: CString)
    requires FirstKind(Chunks(environ)).Some?
    ensures SaysFirst(environ, i, manager)
  {
    var pieces := CutAll(Entries(environ));
    ChunksAreCutEntries(environ);
    assert pieces[0..] == pieces;
    i := FirstToSay(pieces, 0);
    manager := pieces[i][|CONTAINER|..];
  }

  /** The first test that holds names the container. */
  ghost predicate ContainerNamed(m: Machine, id: CString) {
    if m.inChroot > 0 then id == "chroot"
    else if m.vz && !m.bc then id == "openvz"
    else m.environ.Some? && exists i: nat, manager :: SaysFirst(m.environ.value, i, manager) && id == ManagerId(manager)
  }

  ghost predicate InContainer(m: Machine) {
    exists id :: ContainerNamed(m, id)
  }

  lemma ContainerIdentifier(m: Machine, id: CString)
    ensures ContainerKind(m) == Some(id) <==> ContainerNamed(m, id)
  {
    if m.environ.Some? {
      if FirstKind(Chunks(m.environ.value)).Some? {
        var i, manager := SomethingIsSaid(m.environ.value);
        ManagerIsFound(m.environ.value, i, manager);
      }
      forall i: nat, manager | SaysFirst(m.environ.value, i, manager)
        ensures FirstKind(Chunks(m.environ.value)) == Some(ManagerId(manager))
      {
        ManagerIsFound(m.environ.value, i, manager);
      }
    }
  }

  /** What a processor's signature says. */
  function HypervisorName(signature: CString): Option<CString> {
    if signature == "XenVMMXenVMM" then Some("xen")
    else if signature == "KVMKVMKVM" then Some("kvm")
    else if signature == "VMwareVMware" then Some("vmware")
    else if signature == "Microsoft Hv" then Some("microsoft")
    else None
  }

  /** What a vendor's line says, by how it begins. */
  function VendorName(text: CString): Option<CString> {
    if "QEMU" <= text then Some("qemu")
    else if "VMware" <= text || "VMW" <= text then Some("vmware")
    else if "Microsoft Corporation" <= text then Some("microsoft")
    else if "innotek GmbH" <= text then Some("oracle")
    else if "Xen" <= text then Some("xen")
    else if "Bochs" <= text then Some("bochs")
    else None
  }

  lemma {:induction false} NoneExact(pairs: seq<Pair>, s: CString)
    ensures FirstExact(pairs, s).None? <==> forall i :: 0 <= i < |pairs| ==> pairs[i].key != s
  {
    if pairs != [] {
      NoneExact(pairs[1..], s);
      assert forall i :: 0 < i < |pairs| ==> pairs[i] == pairs[1..][i - 1];
    }
  }

  lemma {:induction false} FirstExactAt(pairs: seq<Pair>, s: CString, i: nat)
    requires i < |pairs| && pairs[i].key == s && forall k :: 0 <= k < i ==> pairs[k].key != s
    ensures FirstExact(pairs, s) == Some(pairs[i].id)
  {
    if i > 0 {
      FirstExactAt(pairs[1..], s, i - 1);
    }
  }

  /** The searches through the tables come down to that. */
  lemma SignatureIsFound(signature: CString)
    ensures FirstExact(CPUID_PAIRS, signature) == HypervisorName(signature)
  {
    NoneExact(CPUID_PAIRS, signature);
    assert CPUID_PAIRS[0] == Pair("XenVMMXenVMM", "xen") && CPUID_PAIRS[1] == Pair("KVMKVMKVM", "kvm");
    assert CPUID_PAIRS[2] == Pair("VMwareVMware", "vmware") && CPUID_PAIRS[3] == Pair("Microsoft Hv", "microsoft");
    if FirstExact(CPUID_PAIRS, signature).Some? {
      var i :| 0 <= i < |CPUID_PAIRS| && CPUID_PAIRS[i].key == signature;
      FirstExactAt(CPUID_PAIRS, signature, i);
    }
  }

  lemma VendorIsFound(text: CString)
    ensures LastPrefix(DMI_PAIRS, text) == VendorName(text)
  {
    NonePrefix(DMI_PAIRS, text);
    DmiPairs();
    if VendorName(text).Some? {
      var i :| 0 <= i < 7 && DMI_PAIRS[i].key <= text && Some(DMI_PAIRS[i].id) == VendorName(text);
      DmiUnambiguous(text, i);
    }
  }

  lemma DmiPairs()
    ensures |DMI_PAIRS| == 7
    ensures DMI_PAIRS[0] == Pair("QEMU", "qemu") && DMI_PAIRS[1] == Pair("VMware", "vmware")
    ensures DMI_PAIRS[2] == Pair("VMW", "vmware") && DMI_PAIRS[3] == Pair("Microsoft Corporation", "microsoft")
    ensures DMI_PAIRS[4] == Pair("innotek GmbH", "oracle") && DMI_PAIRS[5] == Pair("Xen", "xen")
    ensures DMI_PAIRS[6] == Pair("Bochs", "bochs")
  {
  }

  lemma {:induction false} NonePrefix(pairs: seq<Pair>, text: CString)
    ensures LastPrefix(pairs, text).None? <==> forall i :: 0 <= i < |pairs| ==> !(pairs[i].key <= text)
  {
    if pairs != [] {
      NonePrefix(pairs[1..], text);
      assert forall i :: 0 < i < |pairs| ==> pairs[i] == pairs[1..][i - 1];
    }
  }

  /** A file says nothing if it is absent (ENOENT is 2) or names no vendor. */
  lemma SilentIs(file: Read)
    ensures Silent(file) <==> match file
                              case Failed(errno) => errno == 2
                              case Line(text) => VendorName(text) == None
  {
    if file.Line? {
      VendorIsFound(file.text);
    }
  }

  /** The processor's signature names the hypervisor, or else the one file that decides does, or
      else, if no file decides, any hypervisor is some "other". */
  ghost predicate VmNamed(m: Machine, id: CString) {
    if m.signature.Some? && HypervisorName(m.signature.value).Some? then HypervisorName(m.signature.value) == Some(id)
    else
      || (exists i: nat :: Decides(m.files, i) && m.files[i].Line? && VendorName(m.files[i].text) == Some(id))
      || (m.signature.Some? && id == "other" && forall i: nat :: !Decides(m.files, i))
  }

  lemma VmIdentifier(m: Machine, id: CString)
    ensures VmAnswer(m.signature, m.files) == Detected(1, Some(id)) <==> VmNamed(m, id)
  {
    if m.signature.Some? {
      SignatureIsFound(m.signature.value);
    }
    var first := FirstToDecide(m.files, 0);
    if first.Some? {
      assert Decides(m.files, first.value);
      DmiDecidedByFirst(m.files, m.signature.Some?, first.value);
      if m.files[first.value].Line? {
        VendorIsFound(m.files[first.value].text);
      }
    } else {
      DmiUndecided(m.files, m.signature.Some?);
    }
  }

  /** The file that decides is there but cannot be read, and no known hypervisor is named. */
  ghost predicate VmFails(m: Machine, errno: Errno) {
    && (m.signature.Some? ==> HypervisorName(m.signature.value).None?)
    && exists i: nat :: Decides(m.files, i) && m.files[i] == Failed(errno)
  }

  lemma VmError(m: Machine, errno: Errno)
    ensures VmAnswer(m.signature, m.files).r == 0 - errno <==> VmFails(m, errno)
  {
    if m.signature.Some? {
      SignatureIsFound(m.signature.value);
    }
    var first := FirstToDecide(m.files, 0);
    if first.Some? {
      assert Decides(m.files, first.value);
      DmiDecidedByFirst(m.files, m.signature.Some?, first.value);
    } else {
      DmiUndecided(m.files, m.signature.Some?);
    }
  }

  lemma VmCodes(m: Machine)
    ensures var d := VmAnswer(m.signature, m.files);
            d.r <= 1 && (d.id.Some? <==> d.r == 1)
  {
    var first := FirstToDecide(m.files, 0);
    if first.Some? {
      assert Decides(m.files, first.value);
      DmiDecidedByFirst(m.files, m.signature.Some?, first.value);
    } else {
      DmiUndecided(m.files, m.signature.Some?);
    }
  }

  ghost predicate FindsNothing(m: Machine) {
    && m.euid == 0 && !InContainer(m)
    && (forall id :: !VmNamed(m, id)) && (forall errno: Errno :: !VmFails(m, errno))
  }

  /** detect_virtualization from what the machine reports, code and identifier: a container, if
      root asks and one of the tests says so, named by the first that does; otherwise a virtual
      machine or an error, as the processor and the files say; an error with EPERM, which is 1, if
      root does not ask; and none in all other cases. */
  lemma VirtualizationExactly(m: Machine)
    ensures var d := Scratch(m);
            && (forall id :: d == Detected(2, Some(id)) <==> m.euid == 0 && ContainerNamed(m, id))
            && (forall id :: d == Detected(1, Some(id)) <==> m.euid == 0 && !InContainer(m) && VmNamed(m, id))
            && (forall errno: Errno :: d == Detected(0 - errno, None) <==>
                  if m.euid != 0 then errno == 1 else !InContainer(m) && VmFails(m, errno))
            && (d == Detected(0, None) <==> FindsNothing(m))
  {
    var d := Scratch(m);
    VmCodes(m);
    InContainerIs(m);
    forall id
      ensures d == Detected(2, Some(id)) <==> m.euid == 0 && ContainerNamed(m, id)
      ensures d == Detected(1, Some(id)) <==> m.euid == 0 && !InContainer(m) && VmNamed(m, id)
    {
      ContainerIdentifier(m, id);
      VmIdentifier(m, id);
    }
    forall errno: Errno
      ensures d == Detected(0 - errno, None) <==>
        if m.euid != 0 then errno == 1 else !InContainer(m) && VmFails(m, errno)
    {
      VmError(m, errno);
    }
    if d.r > 0 {
      assert m.euid == 0 && (ContainerNamed(m, d.id.value) || VmNamed(m, d.id.value));
    } else if d.r < 0 && m.euid == 0 {
      var errno: Errno := 0 - d.r;
      assert VmFails(m, errno);
    }
  }

  lemma InContainerIs(m: Machine)
    ensures InContainer(m) <==> ContainerKind(m).Some?
  {
    if ContainerKind(m).Some? {
      ContainerIdentifier(m, ContainerKind(m).value);
    }
    forall id | ContainerNamed(m, id) ensures ContainerKind(m).Some? {
      ContainerIdentifier(m, id);
    }
  }

  // ---- The cache ----

  /** The answer of a process with this memory, and what it remembers then. */
  function Detection(memory: Option<Detected>, m: Machine): Detected {
    if memory.Some? then memory.value else Scratch(m)
  }

  function Cached(d: Detected): Option<Detected> {
    if d.r >= 0 then Some(d) else None
  }

  /** The value of the Virtualization property: empty unless an identifier was set. */
  function Told(d: Detected): CString {
    if d.id.Some? then d.id.value else []
  }

  class Detector {
    var cachedVirt: int
    var cachedId: Option<CString>

    /** What the process remembers: its answer, once it has one. */
    ghost function Memory(): Option<Detected>
      reads this
    {
      if cachedVirt < 0 then None else Some(Detected(cachedVirt, if cachedVirt > 0 then cachedId else None))
    }

    constructor ()
      ensures Memory() == None
    {
      cachedVirt, cachedId := -1, None;
    }

    method DetectVirtualization(m: Machine) returns (d: Detected)
      modifies this
      ensures d == Detection(old(Memory()), m) && Memory() == Cached(d)
    {
      if cachedVirt >= 0 {
        return Detected(cachedVirt, if cachedVirt > 0 then cachedId else None);
      }
      var v, id := 0, None;
      var container := DetectContainer(m);
      if container.r < 0 {
        v := container.r;
      } else if container.r > 0 {
        v, id := 2, container.id;
      } else {
        var vm := DetectVm(m.signature, m.files);
        if vm.r < 0 {
          v := vm.r;
        } else if vm.r > 0 {
          v, id := 1, vm.id;
        }
      }
      if v > 0 {
        cachedId := id;
      }
      if v >= 0 {
        cachedVirt := v;
      }
      d := Detected(v, if v > 0 then id else None);
    }
  }

  /** The answers of one process to a run of questions, each put in its own circumstances. */
  function Answers(memory: Option<Detected>, machines: seq<Machine>): seq<Detected>
    decreases machines
  {
    if machines == [] then []
    else
      var d := Detection(memory, machines[0]);
      [d] + Answers(Cached(d), machines[1..])
  }

  /** Errors are retried and nothing else is: every answer is the first one from scratch that is
      not an error, if there has been one, and the present one otherwise. */
  lemma {:induction false} CacheHoldsFirstAnswer(machines: seq<Machine>, i: nat, k: nat)
    requires i <= k < |machines|
    requires forall j :: 0 <= j < i ==> Scratch(machines[j]).r < 0
    requires i < k ==> Scratch(machines[i]).r >= 0
    ensures |Answers(None, machines)| == |machines| && Answers(None, machines)[k] == Scratch(machines[i])
  {
    var d := Scratch(machines[0]);
    if i > 0 {
      assert forall j :: 0 <= j < i - 1 ==> machines[1..][j] == machines[j + 1];
      assert d.r < 0;
      CacheHoldsFirstAnswer(machines[1..], i - 1, k - 1);
    } else if k > 0 {
      KeptAnswer(d, machines[1..]);
    } else {
      AnswersLength(Cached(d), machines[1..]);
    }
  }

  lemma {:induction false} KeptAnswer(d: Detected, machines: seq<Machine>)
    requires d.r >= 0
    ensures |Answers(Some(d), machines)| == |machines|
    ensures forall k :: 0 <= k < |machines| ==> Answers(Some(d), machines)[k] == d
  {
    if machines != [] {
      KeptAnswer(d, machines[1..]);
    }
  }

  lemma {:induction false} AnswersLength(memory: Option<Detected>, machines: seq<Machine>)
    ensures |Answers(memory, machines)| == |machines|
    decreases machines
  {
    if machines != [] {
      AnswersLength(Cached(Detection(memory, machines[0])), machines[1..]);
    }
  }
}
