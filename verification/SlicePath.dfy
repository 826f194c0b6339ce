/** The cgroup path compiler of src/cgroup-unit.c: a dash-encoded slice name becomes a path in
    the cgroup tree, and a `user-` slice yields the uid that owns it. */
module SlicePath {
  import opened CStrings

  const SLICE: CString := ".slice"
  const SCOPE: CString := ".scope"

  predicate IsSlice(name: CString) {
    HasSuffix(name, SLICE)
  }

  predicate IsScope(name: CString) {
    HasSuffix(name, SCOPE)
  }

  // ---- The path ----

  /** One piece "<prefix>.slice/" for each dash among the first `i` bytes. */
  function Ancestors(slice: CString, i: nat): CString
    requires i <= |slice|
  {
    if i == 0 then []
    else if slice[i - 1] == '-' then Ancestors(slice, i - 1) + Piece(slice[..i - 1])
    else Ancestors(slice, i - 1)
  }

  function Piece(prefix: CString): CString {
    prefix + SLICE + "/"
  }

  function PathOf(slice: CString): CString {
    Ancestors(slice, |slice|) + slice
  }

  function UnitPath(slice: CString, scope: Option<CString>): CString {
    match scope
    case None => PathOf(slice)
    case Some(name) => PathOf(slice) + "/" + name
  }

  function Stem(slice: CString): (stem: CString)
    requires IsSlice(slice)
    ensures stem + SLICE == slice
  {
    slice[..|slice| - |SLICE|]
  }

  // ---- The uid ----

  const G_MAXINT: nat := 0x7fff_ffff
  const TWO_64: nat := 0x1_0000_0000_0000_0000

  function Decimal(d: CString): nat
    requires AllDigits(d)
  {
    if d == [] then 0 else 10 * Decimal(d[..|d| - 1]) + (d[|d| - 1] as int - '0' as int)
  }

  function SpaceRun(s: CString): (n: nat)
    ensures n <= |s| && (forall i :: 0 <= i < n ==> IsSpace(s[i])) && (n < |s| ==> !IsSpace(s[n]))
  {
    if s != [] && IsSpace(s[0]) then 1 + SpaceRun(s[1..]) else 0
  }

  function DigitRun(s: CString): (n: nat)
    ensures n <= |s| && AllDigits(s[..n]) && (n < |s| ==> !IsDigit(s[n]))
  {
    if s != [] && IsDigit(s[0]) then 1 + DigitRun(s[1..]) else 0
  }

  datatype Parsed = Parsed(value: nat, end: CString, overflow: bool)

  /** The digits at the start of `u`, read with a 64-bit limit; None if there are none. */
  function ParseDigits(u: CString, negative: bool): Option<Parsed> {
    var n := DigitRun(u);
    if n == 0 then None
    else
      var v := Decimal(u[..n]);
      Some(if v >= TWO_64 then Parsed(TWO_64 - 1, u[n..], true)
           else Parsed(if negative then (TWO_64 - v) % TWO_64 else v, u[n..], false))
  }

  function ParseSigned(t: CString): Option<Parsed> {
    if t != [] && (t[0] == '-' || t[0] == '+') then ParseDigits(t[1..], t[0] == '-')
    else ParseDigits(t, false)
  }

  /** g_ascii_strtoull in base ten: without digits nothing is consumed and the value is 0; a
      value of 2^64 or more is an error; a minus sign negates modulo 2^64. */
  function StrToULL(s: CString): Parsed {
    match ParseSigned(s[SpaceRun(s)..])
    case Some(parsed) => parsed
    case None => Parsed(0, s, false)
  }

  const USER: CString := "user-"

  function SliceUid(slice: CString): int {
    if USER <= slice then
      var p := StrToULL(slice[|USER|..]);
      if !p.overflow && p.end == SLICE && p.value < G_MAXINT then p.value else -1
    else -1
  }

  // ---- The loop ----

  method GetPathAndUid(slice: CString, scope: Option<CString>) returns (path: CString, uid: int)
    ensures path == UnitPath(slice, scope)
    ensures uid == SliceUid(slice)
  {
    path := [];
    var i := 0;
    while At(slice, i) != NUL
      invariant i <= |slice|
      invariant path == Ancestors(slice, i)
      decreases |slice| - i
    {
      if slice[i] == '-' {
        path := path + slice[..i];
        path := path + (SLICE + "/");
        assert path == Ancestors(slice, i) + Piece(slice[..i]);
      }
      i := i + 1;
    }
    path := path + slice[..i];
    assert slice[..i] == slice;

    uid := -1;
    if USER <= slice {
      var parsed := StrToULL(slice[|USER|..]);
      if !parsed.overflow && parsed.end == SLICE && parsed.value < G_MAXINT {
        uid := parsed.value;
      }
    }

    if scope.Some? {
      path := path + "/";
      path := path + scope.value;
    }
  }

  // ---- Facts about the ancestors ----

  /** Only the bytes before `i` matter. */
  lemma {:induction false} AncestorsLocal(s: CString, t: CString, i: nat)
    requires i <= |s| && i <= |t| && s[..i] == t[..i]
    ensures Ancestors(s, i) == Ancestors(t, i)
  {
    if i > 0 {
      assert s[..i - 1] == s[..i][..i - 1] && t[..i - 1] == t[..i][..i - 1];
      assert s[i - 1] == s[..i][i - 1] && t[i - 1] == t[..i][i - 1];
      AncestorsLocal(s, t, i - 1);
    }
  }

  lemma {:induction false} AncestorsGrow(s: CString, i: nat, j: nat)
    requires i <= j <= |s|
    ensures Ancestors(s, i) <= Ancestors(s, j)
    ensures (forall k :: i <= k < j ==> s[k] != '-') ==> Ancestors(s, i) == Ancestors(s, j)
  {
    if i < j {
      AncestorsGrow(s, i, j - 1);
    }
  }

  lemma NoDashInSuffix(slice: CString)
    requires IsSlice(slice)
    ensures forall k :: |slice| - |SLICE| <= k < |slice| ==> slice[k] != '-'
  {
  }

  /** The ancestors up to and including a dash are the path of the slice named before it. */
  lemma AncestorsAtDash(s: CString, d: nat)
    requires d < |s| && s[d] == '-'
    ensures Ancestors(s, d + 1) == PathOf(s[..d] + SLICE) + "/"
  {
    var parent := s[..d] + SLICE;
    NoDashInSuffix(parent);
    AncestorsGrow(parent, d, |parent|);
    assert parent[..d] == s[..d];
    AncestorsLocal(s, parent, d);
    assert Ancestors(s, d) + Piece(s[..d]) == Ancestors(s, d) + (s[..d] + SLICE) + "/";
  }

  // ---- Injectivity ----

  function Dashes(s: CString): nat {
    if s == [] then 0 else Dashes(s[..|s| - 1]) + (if s[|s| - 1] == '-' then 1 else 0)
  }

  lemma {:induction false} DashesConcat(a: CString, b: CString)
    ensures Dashes(a + b) == Dashes(a) + Dashes(b)
  {
    if b == [] {
      assert a + b == a;
    } else {
      assert (a + b)[..|a + b| - 1] == a + b[..|b| - 1];
      DashesConcat(a, b[..|b| - 1]);
    }
  }

  /** 0 + 1 + ... + (k - 1). */
  function Triangle(k: nat): nat {
    if k == 0 then 0 else Triangle(k - 1) + (k - 1)
  }

  lemma {:induction false} TriangleIncreases(j: nat, k: nat)
    requires j < k
    ensures Triangle(j) + j < Triangle(k) + k
    decreases k
  {
    if j < k - 1 {
      TriangleIncreases(j, k - 1);
    }
  }

  lemma {:induction false} DashesOfAncestors(s: CString, i: nat)
    requires i <= |s|
    ensures Dashes(Ancestors(s, i)) == Triangle(Dashes(s[..i]))
  {
    if i > 0 {
      var before := Ancestors(s, i - 1);
      DashesOfAncestors(s, i - 1);
      DashesNext(s, i - 1);
      if s[i - 1] == '-' {
        DashesConcat(before, Piece(s[..i - 1]));
        DashesOfPiece(s[..i - 1]);
        TriangleNext(Dashes(s[..i - 1]));
      }
    }
  }

  lemma TriangleNext(k: nat)
    ensures Triangle(k + 1) == Triangle(k) + k
  {
  }

  lemma DashesNext(s: CString, i: nat)
    requires i < |s|
    ensures Dashes(s[..i + 1]) == Dashes(s[..i]) + (if s[i] == '-' then 1 else 0)
  {
    assert s[..i + 1][..i] == s[..i];
  }

  lemma DashesOfPiece(prefix: CString)
    ensures Dashes(Piece(prefix)) == Dashes(prefix)
  {
    NoDashes(SLICE + "/");
    DashesConcat(prefix, SLICE + "/");
    assert prefix + SLICE + "/" == prefix + (SLICE + "/");
  }

  lemma {:induction false} NoDashes(s: CString)
    ensures Dashes(s) == 0 <==> forall k :: 0 <= k < |s| ==> s[k] != '-'
  {
    if s != [] {
      NoDashes(s[..|s| - 1]);
      assert s == s[..|s| - 1] + [s[|s| - 1]];
    }
  }

  lemma DashesOfPath(s: CString)
    ensures Dashes(PathOf(s)) == Triangle(Dashes(s)) + Dashes(s)
  {
    DashesOfAncestors(s, |s|);
    assert s[..|s|] == s;
    DashesConcat(Ancestors(s, |s|), s);
  }

  lemma {:induction false} LongerNameLongerAncestors(x: CString, s: CString, i: nat)
    requires i <= |s|
    ensures |Ancestors(x + s, |x| + i)| >= |Ancestors(s, i)|
  {
    if i > 0 {
      LongerNameLongerAncestors(x, s, i - 1);
    }
  }

  /** The path of a slice determines its name, for every byte string, slashes included. */
  lemma PathInjective(s: CString, t: CString)
    requires PathOf(s) == PathOf(t)
    ensures s == t
  {
    DashesOfPath(s);
    DashesOfPath(t);
    if Dashes(s) < Dashes(t) {
      TriangleIncreases(Dashes(s), Dashes(t));
    } else if Dashes(t) < Dashes(s) {
      TriangleIncreases(Dashes(t), Dashes(s));
    }
    if |s| <= |t| {
      SameDashesSameName(s, t);
    } else {
      SameDashesSameName(t, s);
    }
  }

  lemma SameDashesSameName(s: CString, t: CString)
    requires PathOf(s) == PathOf(t) && |s| <= |t|
    ensures s == t
  {
    var p := PathOf(s);
    var x := t[..|t| - |s|];
    assert s == p[|p| - |s|..];
    assert t[|t| - |s|..] == p[|p| - |s|..];
    assert t == x + s;
    LongerNameLongerAncestors(x, s, |s|);
  }

  // ---- Tree order ----

  /** Below in the name order means below in the tree, for every byte string. */
  lemma NameOrderGivesTreeOrder(s: CString, t: CString)
    requires IsSlice(s) && Stem(s) + "-" <= t
    ensures PathOf(s) + "/" <= PathOf(t)
  {
    var d := |Stem(s)|;
    assert t[d] == (Stem(s) + "-")[d];
    assert t[..d] == (Stem(s) + "-")[..d] == Stem(s);
    AncestorsAtDash(t, d);
    AncestorsGrow(t, d + 1, |t|);
  }

  lemma StemOf(stem: CString)
    ensures IsSlice(stem + SLICE) && Stem(stem + SLICE) == stem
  {
  }

  lemma DropLast(a: CString, b: CString, end: CString)
    requires a + end == b + end
    ensures a == b
  {
    assert a == (a + end)[..|a|] && b == (b + end)[..|b|];
  }

  /** `s` is the piece before the dash of `t` at `d`, followed by a dash-free slice that `t`
      begins with as a directory. */
  ghost predicate Wraps(s: CString, t: CString, d: nat) {
    && d < |t| && t[d] == '-' && Piece(t[..d]) <= s
    && var rest := s[|Piece(t[..d])|..];
       IsSlice(rest) && (forall k :: 0 <= k < |rest| ==> rest[k] != '-') && rest + "/" <= t
  }

  /** The two ways in which slashes put a path below one that its name is not below. */
  ghost predicate BelowBySlash(s: CString, t: CString) {
    s + "/" <= t || exists d :: 0 <= d < |t| && Wraps(s, t, d)
  }

  /** The names whose paths lie strictly below that of the slice `s`. */
  ghost predicate NamedBelow(s: CString, t: CString)
    requires IsSlice(s)
  {
    Stem(s) + "-" <= t || BelowBySlash(s, t)
  }

  /** What follows the pieces before `i` begins with the first `i` bytes of the name. */
  lemma PathBeyond(t: CString, i: nat)
    requires i <= |t|
    ensures Ancestors(t, i) + t[..i] <= PathOf(t)
    decreases |t| - i
  {
    if i == |t| {
      assert t[..i] == t;
    } else if t[i] == '-' {
      AncestorsGrow(t, i + 1, |t|);
      assert Ancestors(t, i) + t[..i] <= Ancestors(t, i + 1);
    } else {
      PathBeyond(t, i + 1);
      assert t[..i] <= t[..i + 1];
    }
  }

  lemma WithinPath(t: CString, i: nat, part: CString)
    requires i <= |t| && part <= t[..i]
    ensures Ancestors(t, i) + part <= PathOf(t)
  {
    PathBeyond(t, i);
  }

  lemma DirectoryIsAbove(s: CString, t: CString)
    requires s + "/" <= t
    ensures PathOf(s) + "/" <= PathOf(t)
  {
    var n := |s|;
    assert t[n] == (s + "/")[n] && t[..n] == (s + "/")[..n] == s;
    AncestorsLocal(s, t, n);
    AncestorsGrow(t, n, n + 1);
    assert t[..n + 1] == s + "/";
    WithinPath(t, n + 1, s + "/");
    ConcatAssociates(Ancestors(t, n), s, "/");
  }

  lemma WrapIsAbove(s: CString, t: CString, d: nat)
    requires Wraps(s, t, d)
    ensures PathOf(s) + "/" <= PathOf(t)
  {
    var piece := Piece(t[..d]);
    var rest := s[|piece|..];
    assert s == piece + rest;
    PathOfWrap(t, d, rest);
    RestBeforeDash(t, d, rest);
    WithinPath(t, d + 1, rest + "/");
    ConcatAssociates(Ancestors(t, d + 1), rest, "/");
  }

  lemma RestBeforeDash(t: CString, d: nat, rest: CString)
    requires d < |t| && t[d] == '-' && rest + "/" <= t && forall k :: 0 <= k < |rest| ==> rest[k] != '-'
    ensures rest + "/" <= t[..d + 1]
  {
    assert forall k :: 0 <= k < |rest| ==> t[k] == (rest + "/")[k] == rest[k];
    assert t[|rest|] == (rest + "/")[|rest|] == '/';
  }

  /** A piece and a dash-free rest, read as one slice's name, have the path of the piece's
      ancestors, the piece and the rest. */
  lemma PathOfWrap(t: CString, d: nat, rest: CString)
    requires d < |t| && t[d] == '-' && forall k :: 0 <= k < |rest| ==> rest[k] != '-'
    ensures PathOf(Piece(t[..d]) + rest) == Ancestors(t, d + 1) + rest
  {
    var piece := Piece(t[..d]);
    var s := piece + rest;
    assert s[..d] == t[..d];
    AncestorsLocal(s, t, d);
    NoDashBehindPrefix(t[..d], rest);
    AncestorsGrow(s, d, |s|);
    assert Ancestors(t, d + 1) == Ancestors(t, d) + piece;
    ConcatAssociates(Ancestors(t, d), piece, rest);
  }

  lemma NoDashBehindPrefix(prefix: CString, rest: CString)
    requires forall k :: 0 <= k < |rest| ==> rest[k] != '-'
    ensures forall k :: |prefix| <= k < |Piece(prefix) + rest| ==> (Piece(prefix) + rest)[k] != '-'
  {
    var end: CString := SLICE + "/";
    assert Piece(prefix) + rest == prefix + (end + rest);
    assert forall k :: 0 <= k < |end| ==> end[k] != '-';
  }

  /** Which piece of the path holds position `q`; `|t|` stands for the name at its end. */
  lemma {:induction false} PieceHolding(t: CString, i: nat, q: nat) returns (d: nat)
    requires i <= |t| && q < |Ancestors(t, i)|
    ensures d < i && t[d] == '-' && |Ancestors(t, d)| <= q < |Ancestors(t, d + 1)|
  {
    if q < |Ancestors(t, i - 1)| {
      d := PieceHolding(t, i - 1, q);
    } else {
      d := i - 1;
    }
  }

  /** A directory above a path ends with one of its pieces or inside the prefix that follows the
      pieces before some `i`. */
  lemma EnclosingPlace(above: CString, t: CString) returns (i: nat, r: nat)
    requires above + "/" <= PathOf(t)
    ensures i <= |t|
    ensures (i < |t| && t[i] == '-' && above + "/" == Ancestors(t, i + 1))
         || (r < i && t[r] == '/' && above == Ancestors(t, i) + t[..r])
  {
    var p, q := PathOf(t), |above|;
    assert p[q] == (above + "/")[q] == '/';
    if q < |Ancestors(t, |t|)| {
      i := PieceHolding(t, |t|, q);
      AncestorsGrow(t, i + 1, |t|);
      assert Ancestors(t, i + 1) <= p;
    } else {
      i := |t|;
    }
    PathBeyond(t, i);
    var before := Ancestors(t, i);
    r := q - |before|;
    if r < i {
      assert p[q] == (before + t[..i])[q] == t[r];
      assert above == p[..q] == (before + t[..i])[..q] == before + t[..r];
    } else if i < |t| {
      assert p[q] == Ancestors(t, i + 1)[q] == Piece(t[..i])[r];
      SlashEndsPiece(t[..i], r);
      assert above + "/" == p[..q + 1] == Ancestors(t, i + 1);
    }
  }

  /** Behind the prefix, a piece has its one slash at the end. */
  lemma SlashEndsPiece(prefix: CString, r: nat)
    requires |prefix| <= r < |Piece(prefix)| && Piece(prefix)[r] == '/'
    ensures r + 1 == |Piece(prefix)|
  {
    assert Piece(prefix)[r] == (SLICE + "/")[r - |prefix|];
  }

  /** The last dash of `t` between `r` and `i`. */
  lemma {:induction false} LastDash(t: CString, r: nat, i: nat) returns (d: nat)
    requires r <= i <= |t| && exists k :: r <= k < i && t[k] == '-'
    ensures r <= d < i && t[d] == '-' && forall k :: d < k < i ==> t[k] != '-'
  {
    if t[i - 1] == '-' {
      d := i - 1;
    } else {
      d := LastDash(t, r, i - 1);
    }
  }

  lemma BetweenTriangles(k: nat, n: nat, extra: nat)
    requires Triangle(k) + k == Triangle(n) + n + extra && extra <= n
    ensures extra == 0
  {
    if k < n {
      TriangleIncreases(k, n);
    } else if k > n {
      assert Triangle(n + 1) == Triangle(n) + n;
      if k > n + 1 {
        TriangleIncreases(n + 1, k);
      }
    }
  }

  /** No path has the ancestors of a dash and then a prefix that holds dashes itself: the number
      of its dashes would lie strictly between two triangular ones. */
  lemma NoDashesBehindPieces(above: CString, k: nat, t: CString, d: nat, r: nat)
    requires r <= d < |t| && t[d] == '-' && above == Ancestors(t, d + 1) + t[..r]
    requires Dashes(above) == Triangle(k) + k
    ensures Dashes(t[..r]) == 0
  {
    DashesConcat(Ancestors(t, d + 1), t[..r]);
    DashesOfAncestors(t, d + 1);
    DashesNext(t, d);
    DashesGrow(t, r, d);
    BetweenTriangles(k, Dashes(t[..d]), Dashes(t[..r]));
  }

  lemma DashesGrow(t: CString, r: nat, d: nat)
    requires r <= d <= |t|
    ensures Dashes(t[..r]) <= Dashes(t[..d])
  {
    assert t[..d] == t[..r] + t[r..d];
    DashesConcat(t[..r], t[r..d]);
  }

  /** A slice that ends behind a piece ends in a slice of its own. */
  lemma RestIsSlice(piece: CString, rest: CString)
    requires piece != [] && piece[|piece| - 1] == '/' && IsSlice(piece + rest)
    ensures IsSlice(rest)
  {
    var s := piece + rest;
    var n := |s| - |SLICE|;
    assert forall k :: n <= k < |s| ==> s[k] == s[n..][k - n] == SLICE[k - n];
    assert s[|piece| - 1] == '/';
    assert s[n..] == rest[|rest| - |SLICE|..];
  }

  lemma PieceWraps(s: CString, t: CString, d: nat, r: nat)
    requires IsSlice(s) && r <= d < |t| && t[d] == '-' && t[r] == '/'
    requires PathOf(s) == Ancestors(t, d + 1) + t[..r]
    ensures Wraps(s, t, d)
  {
    var piece, rest := Piece(t[..d]), t[..r];
    DashesOfPath(s);
    NoDashesBehindPieces(PathOf(s), Dashes(s), t, d, r);
    NoDashes(rest);
    PathOfWrap(t, d, rest);
    PathInjective(s, piece + rest);
    RestIsSlice(piece, rest);
    WrapsIs(t, d, rest, r);
  }

  lemma WrapsIs(t: CString, d: nat, rest: CString, r: nat)
    requires d < |t| && t[d] == '-' && r < |t| && t[r] == '/' && rest == t[..r]
    requires IsSlice(rest) && forall k :: 0 <= k < |rest| ==> rest[k] != '-'
    ensures Wraps(Piece(t[..d]) + rest, t, d)
  {
    var piece := Piece(t[..d]);
    assert (piece + rest)[|piece|..] == rest;
    assert rest + "/" == t[..r + 1];
  }

  /** An enclosing path that ends inside a prefix is named by that prefix, or wraps it. */
  lemma InsidePrefix(s: CString, t: CString, i: nat, r: nat)
    requires IsSlice(s) && r < i <= |t| && t[r] == '/' && PathOf(s) == Ancestors(t, i) + t[..r]
    ensures BelowBySlash(s, t)
  {
    if exists k :: r <= k < i && t[k] == '-' {
      var d := LastDash(t, r, i);
      AncestorsGrow(t, d + 1, i);
      PieceWraps(s, t, d, r);
    } else {
      AncestorsGrow(t, r, i);
      NamedByPrefix(s, t, r);
    }
  }

  lemma NamedByPrefix(s: CString, t: CString, r: nat)
    requires r < |t| && t[r] == '/' && PathOf(s) == Ancestors(t, r) + t[..r]
    ensures s + "/" <= t
  {
    var rest := t[..r];
    AncestorsLocal(t, rest, r);
    PathInjective(s, rest);
    assert rest + "/" == t[..r + 1];
  }

  /** An enclosing path that ends with a piece is named by the dash of that piece. */
  lemma AtDash(s: CString, t: CString, i: nat)
    requires IsSlice(s) && i < |t| && t[i] == '-' && PathOf(s) + "/" == Ancestors(t, i + 1)
    ensures Stem(s) + "-" <= t
  {
    AncestorsAtDash(t, i);
    DropLast(PathOf(s), PathOf(t[..i] + SLICE), "/");
    PathInjective(t[..i] + SLICE, s);
    StemOf(t[..i]);
    assert t[..i + 1] == t[..i] + "-";
  }

  lemma TreeOrderGivesNameOrder(s: CString, t: CString)
    requires IsSlice(s) && PathOf(s) + "/" <= PathOf(t)
    ensures NamedBelow(s, t)
  {
    var i, r := EnclosingPlace(PathOf(s), t);
    if i < |t| && t[i] == '-' && PathOf(s) + "/" == Ancestors(t, i + 1) {
      AtDash(s, t, i);
    } else {
      InsidePrefix(s, t, i, r);
    }
  }

  /** A directory above a path is a path itself if its dashes are as many as some path has. */
  lemma EnclosingIsPath(above: CString, k: nat, t: CString) returns (u: CString)
    requires above + "/" <= PathOf(t) && Dashes(above) == Triangle(k) + k
    ensures PathOf(u) == above
  {
    var i, r := EnclosingPlace(above, t);
    if i < |t| && t[i] == '-' && above + "/" == Ancestors(t, i + 1) {
      u := t[..i] + SLICE;
      AncestorsAtDash(t, i);
      DropLast(above, PathOf(u), "/");
    } else if exists j :: r <= j < i && t[j] == '-' {
      var d := LastDash(t, r, i);
      AncestorsGrow(t, d + 1, i);
      NoDashesBehindPieces(above, k, t, d, r);
      NoDashes(t[..r]);
      PathOfWrap(t, d, t[..r]);
      u := Piece(t[..d]) + t[..r];
    } else {
      u := t[..r];
      AncestorsGrow(t, r, i);
      AncestorsLocal(t, u, r);
    }
  }

  /** Which paths lie strictly below that of a slice, for every byte string. */
  lemma TreeOrderExactly(s: CString, t: CString)
    requires IsSlice(s)
    ensures PathOf(s) + "/" <= PathOf(t) <==> NamedBelow(s, t)
  {
    if PathOf(s) + "/" <= PathOf(t) {
      TreeOrderGivesNameOrder(s, t);
    }
    if NamedBelow(s, t) {
      NamedBelowIsBelow(s, t);
    }
  }

  lemma NamedBelowIsBelow(s: CString, t: CString)
    requires IsSlice(s) && NamedBelow(s, t)
    ensures PathOf(s) + "/" <= PathOf(t)
  {
    if Stem(s) + "-" <= t {
      NameOrderGivesTreeOrder(s, t);
    } else if s + "/" <= t {
      DirectoryIsAbove(s, t);
    } else {
      var d :| 0 <= d < |t| && Wraps(s, t, d);
      WrapIsAbove(s, t, d);
    }
  }

  /** A stem extended by a dash and the whole name extended by a slash cannot both begin `t`. */
  lemma DashOrSlash(s: CString, t: CString)
    requires IsSlice(s) && BelowBySlash(s, t)
    ensures !(Stem(s) + "-" <= t)
  {
    if s + "/" <= t {
      var n := |Stem(s)|;
      assert t[n] == (s + "/")[n] == s[n] == SLICE[0];
      assert (Stem(s) + "-")[n] == '-';
    } else {
      var d :| 0 <= d < |t| && Wraps(s, t, d);
      StemDiffersAtDash(s, t, d);
    }
  }

  lemma StemDiffersAtDash(s: CString, t: CString, d: nat)
    requires IsSlice(s) && Wraps(s, t, d)
    ensures !(Stem(s) + "-" <= t)
  {
    var piece := Piece(t[..d]);
    assert d < |piece| && piece[d] == SLICE[0] == '.';
    assert s[d] == piece[d];
    assert d < |Stem(s)|;
    assert (Stem(s) + "-")[d] == s[d];
  }

  /** Slice paths are a tree isomorphism for a pair of names, the path of `t` lying strictly
      below that of `s` exactly when `t` extends the stem of `s` by a dash, exactly when no
      slash puts it there. */
  lemma TreeIsomorphism(s: CString, t: CString)
    requires IsSlice(s)
    ensures (PathOf(s) + "/" <= PathOf(t) <==> Stem(s) + "-" <= t) <==> !BelowBySlash(s, t)
  {
    TreeOrderExactly(s, t);
    if BelowBySlash(s, t) {
      DashOrSlash(s, t);
    }
  }

  lemma WrapHasSlashes(s: CString, t: CString, d: nat)
    requires Wraps(s, t, d)
    ensures !SlashFree(s) && !SlashFree(t)
  {
    var piece := Piece(t[..d]);
    var rest := s[|piece|..];
    assert s[|piece| - 1] == piece[|piece| - 1] == '/';
    assert t[|rest|] == (rest + "/")[|rest|] == '/';
  }

  /** Under a slash-free slice, only the slice itself as a directory does. */
  lemma SlashFreeUpper(s: CString, t: CString)
    requires SlashFree(s)
    ensures BelowBySlash(s, t) <==> s + "/" <= t
  {
    forall d | 0 <= d < |t| ensures !Wraps(s, t, d) {
      if Wraps(s, t, d) {
        WrapHasSlashes(s, t, d);
      }
    }
  }

  lemma DirectoryHasSlash(s: CString, t: CString)
    requires s + "/" <= t
    ensures !SlashFree(t)
  {
    assert t[|s|] == (s + "/")[|s|] == '/';
  }

  /** Above a slash-free name, nothing does. */
  lemma SlashFreeLower(s: CString, t: CString)
    requires SlashFree(t)
    ensures !BelowBySlash(s, t)
  {
    if s + "/" <= t {
      DirectoryHasSlash(s, t);
    }
    forall d | 0 <= d < |t| ensures !Wraps(s, t, d) {
      if Wraps(s, t, d) {
        WrapHasSlashes(s, t, d);
      }
    }
  }

  /** Both ways occur: slices below one that neither of them extends by a dash. */
  lemma SlashBreaksTreeOrder()
    ensures var s: CString := "a.slice"; var t: CString := "a.slice/b.slice";
            PathOf(s) + "/" <= PathOf(t) && !(Stem(s) + "-" <= t)
    ensures var s: CString := "a.slice/b.slice/a.slice"; var t: CString := "a.slice/b-c.slice";
            PathOf(s) + "/" <= PathOf(t) && !(Stem(s) + "-" <= t)
  {
    var s: CString := "a.slice";
    var t: CString := "a.slice/b.slice";
    assert t == (s + "/") + "b.slice";
    DirectoryIsAbove(s, t);
    assert (Stem(s) + "-")[1] == '-' && t[1] == '.';
    WrapExample();
  }

  lemma WrapExample()
    ensures var s: CString := "a.slice/b.slice/a.slice"; var t: CString := "a.slice/b-c.slice";
            PathOf(s) + "/" <= PathOf(t) && !(Stem(s) + "-" <= t)
  {
    WrapOf("a.slice/b.slice/a.slice", "a.slice/b-c.slice");
  }

  lemma WrapOf(s: CString, t: CString)
    requires s == "a.slice/b.slice/a.slice" && t == "a.slice/b-c.slice"
    ensures IsSlice(s) && PathOf(s) + "/" <= PathOf(t) && !(Stem(s) + "-" <= t)
  {
    assert t[..7] == "a.slice" && t[..9] == "a.slice/b" && s == Piece(t[..9]) + t[..7];
    WrapsIs(t, 9, t[..7], 7);
    WrapIsAbove(s, t, 9);
    StemDiffersAtDash(s, t, 9);
  }

  // ---- The path as a list of nested slices ----

  function Parents(s: CString, i: nat): seq<CString>
    requires i <= |s|
  {
    if i == 0 then [] else Parents(s, i - 1) + (if s[i - 1] == '-' then [s[..i - 1] + SLICE] else [])
  }

  function Split(path: CString): (parts: seq<CString>)
    ensures parts != []
  {
    if path == [] then [[]]
    else
      var rest := Split(path[..|path| - 1]);
      if path[|path| - 1] == '/' then rest + [[]]
      else rest[..|rest| - 1] + [rest[|rest| - 1] + [path[|path| - 1]]]
  }

  lemma {:induction false} SplitAfterSlash(path: CString, last: CString)
    requires SlashFree(last)
    ensures Split(path + "/" + last) == Split(path) + [last]
  {
    var whole := path + "/" + last;
    if last == [] {
      assert whole[..|whole| - 1] == path;
    } else {
      var shorter := last[..|last| - 1];
      assert whole[..|whole| - 1] == path + "/" + shorter;
      SplitAfterSlash(path, shorter);
      assert last == shorter + [last[|last| - 1]];
    }
  }

  lemma {:induction false} SplitSlashFree(s: CString)
    requires SlashFree(s)
    ensures Split(s) == [s]
  {
    if s != [] {
      SplitSlashFree(s[..|s| - 1]);
      assert s == s[..|s| - 1] + [s[|s| - 1]];
    }
  }

  lemma ParentSlashFree(s: CString, d: nat)
    requires d <= |s| && SlashFree(s)
    ensures SlashFree(s[..d] + SLICE)
  {
  }

  lemma SplitNoAncestors(s: CString, last: CString)
    requires SlashFree(last)
    ensures Split(Ancestors(s, 0) + last) == Parents(s, 0) + [last]
  {
    assert Ancestors(s, 0) + last == last;
    SplitSlashFree(last);
  }

  lemma {:induction false} SplitAncestors(s: CString, i: nat, last: CString)
    requires i <= |s| && SlashFree(s) && SlashFree(last)
    ensures Split(Ancestors(s, i) + last) == Parents(s, i) + [last]
  {
    if i == 0 {
      SplitNoAncestors(s, last);
    } else if s[i - 1] == '-' {
      ParentSlashFree(s, i - 1);
      SplitAncestors(s, i - 1, s[..i - 1] + SLICE);
      SplitAtDash(s, i - 1, last);
    } else {
      SplitAncestors(s, i - 1, last);
      SplitBetweenDashes(s, i - 1, last);
    }
  }

  lemma SplitBetweenDashes(s: CString, d: nat, last: CString)
    requires d < |s| && s[d] != '-' && Split(Ancestors(s, d) + last) == Parents(s, d) + [last]
    ensures Split(Ancestors(s, d + 1) + last) == Parents(s, d + 1) + [last]
  {
  }

  lemma SplitAtDash(s: CString, d: nat, last: CString)
    requires d < |s| && s[d] == '-' && SlashFree(last)
    requires Split(Ancestors(s, d) + (s[..d] + SLICE)) == Parents(s, d) + [s[..d] + SLICE]
    ensures Split(Ancestors(s, d + 1) + last) == Parents(s, d + 1) + [last]
  {
    SplitPiece(Ancestors(s, d), s[..d], last);
  }

  lemma SplitPiece(above: CString, prefix: CString, last: CString)
    requires SlashFree(last)
    ensures Split(above + Piece(prefix) + last) == Split(above + (prefix + SLICE)) + [last]
  {
    ConcatAssociates(above, prefix + SLICE, "/");
    SplitAfterSlash(above + (prefix + SLICE), last);
  }

  lemma {:induction false} ParentsNest(s: CString, i: nat)
    requires i <= |s|
    ensures |Parents(s, i)| == Dashes(s[..i])
    ensures forall k :: 0 <= k < |Parents(s, i)| ==>
              IsSlice(Parents(s, i)[k]) && Stem(Parents(s, i)[k]) + "-" <= s[..i]
    ensures forall k :: 0 <= k < |Parents(s, i)| - 1 ==>
              IsSlice(Parents(s, i)[k]) && Stem(Parents(s, i)[k]) + "-" <= Parents(s, i)[k + 1]
  {
    if i > 0 {
      ParentsNest(s, i - 1);
      assert s[..i][..i - 1] == s[..i - 1];
      assert s[..i - 1] <= s[..i];
      if s[i - 1] == '-' {
        var parent := s[..i - 1] + SLICE;
        assert Stem(parent) + "-" == s[..i];
        assert s[..i - 1] <= parent;
        assert Parents(s, i) == Parents(s, i - 1) + [parent];
      }
    }
  }

  /** The components of a slash-free slice's path: one per dash and the slice itself, each a
      slice whose stem, extended by a dash, begins the next. */
  lemma PathComponents(s: CString)
    requires SlashFree(s)
    ensures var parts := Split(PathOf(s));
            && |parts| == 1 + Dashes(s)
            && parts[|parts| - 1] == s
            && forall k :: 0 <= k < |parts| - 1 ==>
                 IsSlice(parts[k]) && Stem(parts[k]) + "-" <= parts[k + 1]
  {
    SplitAncestors(s, |s|, s);
    ParentsNest(s, |s|);
    assert s[..|s|] == s;
  }

  // ---- The release agent ----

  /** The part after the last slash. */
  function LastComponent(path: CString): CString {
    if path == [] || path[|path| - 1] == '/' then []
    else LastComponent(path[..|path| - 1]) + [path[|path| - 1]]
  }

  function StripTrailing(path: CString): CString {
    if path != [] && path[|path| - 1] == '/' then StripTrailing(path[..|path| - 1]) else path
  }

  /** g_path_get_basename, which names the unit in src/cgroup-release-agent.c. */
  function Basename(path: CString): CString {
    if path == [] then "."
    else if StripTrailing(path) == [] then "/"
    else LastComponent(StripTrailing(path))
  }

  lemma {:induction false} LastComponentOf(path: CString, name: CString)
    requires path == [] || path[|path| - 1] == '/'
    ensures LastComponent(path + name) == name <==> SlashFree(name)
    ensures |LastComponent(path + name)| <= |name|
  {
    if name == [] {
      assert path + name == path;
    } else {
      var shorter, last := name[..|name| - 1], name[|name| - 1];
      assert (path + name)[..|path + name| - 1] == path + shorter;
      LastComponentOf(path, shorter);
      assert name == shorter + [last];
      assert SlashFree(name) <==> SlashFree(shorter) && last != '/';
    }
  }

  predicate IsUnitName(name: CString) {
    IsSlice(name) || IsScope(name)
  }

  /** Whatever the slashes in `name`, the agent recovers it exactly when there are none. */
  lemma BasenameOf(path: CString, name: CString)
    requires path == [] || path[|path| - 1] == '/'
    requires IsUnitName(name)
    ensures Basename(path + name) == name <==> SlashFree(name)
  {
    var whole := path + name;
    assert whole[|whole| - 1] == name[|name| - 1];
    assert name[|name| - 1] == 'e' by {
      assert IsSlice(name) ==> name[|name| - |SLICE|..][|SLICE| - 1] == 'e';
      assert IsScope(name) ==> name[|name| - |SCOPE|..][|SCOPE| - 1] == 'e';
    }
    LastComponentOf(path, name);
  }

  lemma {:induction false} AncestorsEndInSlash(s: CString, i: nat)
    requires i <= |s|
    ensures Ancestors(s, i) == [] || Ancestors(s, i)[|Ancestors(s, i)| - 1] == '/'
  {
    if i > 0 {
      AncestorsEndInSlash(s, i - 1);
    }
  }

  /** The release agent is given the cgroup path under the hierarchy's root, and stops the
      unit that the path belongs to exactly when that unit's name has no slash. */
  lemma AgentNamesTheUnit(slice: CString, scope: Option<CString>)
    requires IsSlice(slice) && (scope.Some? ==> IsScope(scope.value))
    ensures var name := if scope.Some? then scope.value else slice;
            && (Basename(UnitPath(slice, scope)) == name <==> SlashFree(name))
            && (Basename("/" + UnitPath(slice, scope)) == name <==> SlashFree(name))
  {
    match scope
    case Some(name) =>
      BasenameOf(PathOf(slice) + "/", name);
      BasenameOf("/" + (PathOf(slice) + "/"), name);
      ConcatAssociates("/", PathOf(slice) + "/", name);
    case None =>
      var above := Ancestors(slice, |slice|);
      AncestorsEndInSlash(slice, |slice|);
      BasenameOf(above, slice);
      BasenameOf("/" + above, slice);
      ConcatAssociates("/", above, slice);
  }

  /** Slashes at the end of what the agent is given make no difference. */
  lemma TrailingSlash(path: CString)
    requires path != []
    ensures Basename(path + "/") == Basename(path)
  {
    assert (path + "/")[..|path|] == path;
  }

  /** A scope whose name holds a slash goes by another. */
  lemma AgentMissesScope(slice: CString, name: CString)
    requires IsSlice(slice) && name == "x/y.scope"
    ensures IsScope(name) && Basename("/" + UnitPath(slice, Some(name))) != name
  {
    assert name[1] == '/';
    AgentNamesTheUnit(slice, Some(name));
  }

  // ---- Who shares a path ----

  /** The scope `c` in `s` reads like the scope `d` in `t`: the path of `t` lies below that of
      `s`, and the name `c` itself spells the way from there to `d`. */
  ghost predicate SpellsOut(s: CString, c: CString, t: CString, d: CString)
    requires IsSlice(s)
  {
    NamedBelow(s, t) && |PathOf(s)| < |PathOf(t)| && c == PathOf(t)[|PathOf(s)| + 1..] + "/" + d
  }

  /** A longer slice path under one common path lies below the shorter, and the rest is spelled
      out by the scope. */
  lemma LongerIsBelow(s: CString, c: CString, t: CString, d: CString)
    requires PathOf(s) + "/" + c == PathOf(t) + "/" + d && |PathOf(s)| < |PathOf(t)|
    ensures PathOf(s) + "/" <= PathOf(t) && c == PathOf(t)[|PathOf(s)| + 1..] + "/" + d
  {
    var p, n, m := PathOf(s) + "/" + c, |PathOf(s)|, |PathOf(t)|;
    assert PathOf(s) + "/" == p[..n + 1] && PathOf(t) == p[..m];
    assert c == p[n + 1..] && p[m..] == "/" + d;
    assert p[n + 1..] == p[n + 1..m] + p[m..];
    ConcatAssociates(PathOf(t)[n + 1..], "/", d);
  }

  lemma SpellsOutShares(s: CString, c: CString, t: CString, d: CString)
    requires PathOf(s) + "/" <= PathOf(t) && c == PathOf(t)[|PathOf(s)| + 1..] + "/" + d
    ensures PathOf(s) + "/" + c == PathOf(t) + "/" + d
  {
    var above, way := PathOf(s) + "/", PathOf(t)[|PathOf(s)| + 1..];
    assert PathOf(t) == above + way;
    ConcatAssociates(above, way, "/" + d);
    ConcatAssociates(way, "/", d);
    ConcatAssociates(above + way, "/", d);
  }

  lemma LongerSharesExactly(s: CString, c: CString, t: CString, d: CString)
    requires IsSlice(s) && |PathOf(s)| < |PathOf(t)|
    ensures PathOf(s) + "/" + c == PathOf(t) + "/" + d <==> SpellsOut(s, c, t, d)
  {
    TreeOrderExactly(s, t);
    if PathOf(s) + "/" + c == PathOf(t) + "/" + d {
      LongerIsBelow(s, c, t, d);
    }
    if SpellsOut(s, c, t, d) {
      SpellsOutShares(s, c, t, d);
    }
  }

  /** Exactly which scopes share a path, whatever slashes any of the names may have. */
  lemma ScopesShareExactly(s: CString, c: CString, t: CString, d: CString)
    requires IsSlice(s) && IsSlice(t)
    ensures PathOf(s) + "/" + c == PathOf(t) + "/" + d <==>
      (s == t && c == d) || SpellsOut(s, c, t, d) || SpellsOut(t, d, s, c)
  {
    if |PathOf(s)| < |PathOf(t)| {
      LongerSharesExactly(s, c, t, d);
    } else if |PathOf(t)| < |PathOf(s)| {
      LongerSharesExactly(t, d, s, c);
    } else if PathOf(s) + "/" + c == PathOf(t) + "/" + d {
      var p, n := PathOf(s) + "/" + c, |PathOf(s)|;
      assert PathOf(s) == p[..n] == PathOf(t) && c == p[n + 1..] == d;
      PathInjective(s, t);
    }
  }

  /** The two are one unit, or scopes of which one spells out the other. */
  ghost predicate Shares(s: CString, c: Option<CString>, t: CString, d: Option<CString>)
    requires IsSlice(s) && IsSlice(t)
  {
    || (s == t && c == d)
    || (c.Some? && d.Some? && (SpellsOut(s, c.value, t, d.value) || SpellsOut(t, d.value, s, c.value)))
  }

  /** Exactly which units share a path: only ever scopes, of which one spells out the other. */
  lemma UnitsShareExactly(s: CString, c: Option<CString>, t: CString, d: Option<CString>)
    requires IsSlice(s) && (c.Some? ==> IsScope(c.value))
    requires IsSlice(t) && (d.Some? ==> IsScope(d.value))
    ensures UnitPath(s, c) == UnitPath(t, d) <==> Shares(s, c, t, d)
  {
    LastBytes(s, c);
    LastBytes(t, d);
    assert SLICE[3] != SCOPE[3];
    if c.Some? && d.Some? {
      ScopesShareExactly(s, c.value, t, d.value);
    } else if c == d && UnitPath(s, c) == UnitPath(t, d) {
      PathInjective(s, t);
    }
  }

  lemma SpellingHasSlash(s: CString, c: CString, t: CString, d: CString)
    requires IsSlice(s) && SpellsOut(s, c, t, d)
    ensures !SlashFree(c)
  {
    assert c[|PathOf(t)| - |PathOf(s)| - 1] == '/';
  }

  /** The path determines slice and scope when scopes have no slashes, whatever slashes the slices
      may have. */
  lemma UnitPathInjective(s: CString, c: Option<CString>, t: CString, d: Option<CString>)
    requires IsSlice(s) && (c.Some? ==> IsScope(c.value) && SlashFree(c.value))
    requires IsSlice(t) && (d.Some? ==> IsScope(d.value) && SlashFree(d.value))
    requires UnitPath(s, c) == UnitPath(t, d)
    ensures s == t && c == d
  {
    UnitsShareExactly(s, c, t, d);
    SlashFreeShares(s, c, t, d);
  }

  /** A scope without slashes spells out nothing. */
  lemma SlashFreeShares(s: CString, c: Option<CString>, t: CString, d: Option<CString>)
    requires IsSlice(s) && IsSlice(t)
    requires (c.Some? ==> SlashFree(c.value)) && (d.Some? ==> SlashFree(d.value))
    ensures Shares(s, c, t, d) <==> s == t && c == d
  {
    if c.Some? && d.Some? {
      if SpellsOut(s, c.value, t, d.value) {
        SpellingHasSlash(s, c.value, t, d.value);
      } else if SpellsOut(t, d.value, s, c.value) {
        SpellingHasSlash(t, d.value, s, c.value);
      }
    }
  }

  /** Every scope in a lower slice shares its path with one in each slice above. */
  lemma EveryScopeIsSpelledOut(s: CString, t: CString, d: CString)
    requires IsSlice(s) && NamedBelow(s, t) && IsScope(d)
    ensures |PathOf(s)| < |PathOf(t)|
    ensures var c := PathOf(t)[|PathOf(s)| + 1..] + "/" + d;
            IsScope(c) && UnitPath(s, Some(c)) == UnitPath(t, Some(d))
  {
    TreeOrderExactly(s, t);
    SpellsOutShares(s, PathOf(t)[|PathOf(s)| + 1..] + "/" + d, t, d);
  }

  lemma LastBytes(s: CString, c: Option<CString>)
    requires IsSlice(s) && (c.Some? ==> IsScope(c.value))
    ensures |UnitPath(s, c)| >= 6
    ensures UnitPath(s, c)[|UnitPath(s, c)| - 6..] == if c.Some? then SCOPE else SLICE
  {
  }

  /** A path begins with a slash exactly when the slice's name does. */
  lemma LeadingSlash(slice: CString, scope: Option<CString>)
    requires IsSlice(slice)
    ensures UnitPath(slice, scope)[0] == '/' <==> slice[0] == '/'
  {
    AncestorsFirst(slice, |slice|);
  }

  lemma {:induction false} AncestorsFirst(s: CString, i: nat)
    requires i <= |s|
    ensures Ancestors(s, i) != [] ==> (Ancestors(s, i)[0] == '/' <==> s[0] == '/')
  {
    if i > 0 {
      AncestorsFirst(s, i - 1);
      if Ancestors(s, i - 1) == [] && s[i - 1] == '-' {
        assert i - 1 > 0 ==> Ancestors(s, i)[0] == s[0];
      }
    }
  }

  // ---- Which slices carry a uid ----

  /** `rest` is spaces, an optional sign, at least one digit, and then ".slice". */
  ghost predicate NumberForm(rest: CString, spaces: CString, sign: CString, digits: CString) {
    && rest == spaces + sign + digits + SLICE
    && (forall i :: 0 <= i < |spaces| ==> IsSpace(spaces[i]))
    && (sign == "" || sign == "+" || sign == "-")
    && digits != [] && AllDigits(digits)
  }

  lemma {:induction false} SpaceRunOf(spaces: CString, t: CString)
    requires forall i :: 0 <= i < |spaces| ==> IsSpace(spaces[i])
    requires t != [] && !IsSpace(t[0])
    ensures SpaceRun(spaces + t) == |spaces|
  {
    if spaces == [] {
      assert spaces + t == t;
    } else {
      assert (spaces + t)[1..] == spaces[1..] + t;
      SpaceRunOf(spaces[1..], t);
    }
  }

  /** The value read from `digits` under `sign`. */
  function ReadValue(sign: CString, digits: CString): Parsed
    requires AllDigits(digits)
  {
    var v := Decimal(digits);
    if v >= TWO_64 then Parsed(TWO_64 - 1, SLICE, true)
    else Parsed(if sign == "-" then (TWO_64 - v) % TWO_64 else v, SLICE, false)
  }

  lemma ParseDigitsOf(digits: CString, negative: bool)
    requires digits != [] && AllDigits(digits)
    ensures ParseDigits(digits + SLICE, negative) == Some(ReadValue(if negative then "-" else "", digits))
  {
  }

  lemma ParseSignedOf(sign: CString, digits: CString)
    requires sign == "" || sign == "+" || sign == "-"
    requires digits != [] && AllDigits(digits)
    ensures ParseSigned(sign + (digits + SLICE)) == Some(ReadValue(sign, digits))
  {
    ParseDigitsOf(digits, sign == "-");
    SignSplits(sign, digits + SLICE);
    assert (digits + SLICE)[0] == digits[0];
  }

  lemma SignSplits(sign: CString, u: CString)
    requires sign == "" || |sign| == 1
    ensures sign == "" ==> sign + u == u
    ensures |sign| == 1 ==> (sign + u)[0] == sign[0] && (sign + u)[1..] == u
  {
  }

  lemma ParseNumberForm(rest: CString, spaces: CString, sign: CString, digits: CString)
    requires NumberForm(rest, spaces, sign, digits)
    ensures StrToULL(rest) == ReadValue(sign, digits)
  {
    var t := sign + (digits + SLICE);
    assert rest == spaces + t;
    assert t[0] == if sign == "" then digits[0] else sign[0];
    SpaceRunOf(spaces, t);
    assert rest[|spaces|..] == t;
    ParseSignedOf(sign, digits);
  }

  lemma ParsedDigits(u: CString, negative: bool) returns (digits: CString)
    requires ParseDigits(u, negative).Some? && ParseDigits(u, negative).value.end == SLICE
    ensures digits != [] && AllDigits(digits) && u == digits + SLICE
  {
    digits := u[..DigitRun(u)];
    assert u == digits + u[DigitRun(u)..];
  }

  /** Nothing but a number is read up to ".slice". */
  lemma ParsedSigned(t: CString) returns (sign: CString, digits: CString)
    requires ParseSigned(t).Some? && ParseSigned(t).value.end == SLICE
    ensures sign == "" || sign == "+" || sign == "-"
    ensures digits != [] && AllDigits(digits) && t == sign + (digits + SLICE)
  {
    if t != [] && (t[0] == '-' || t[0] == '+') {
      sign := [t[0]];
      digits := ParsedDigits(t[1..], t[0] == '-');
      assert t == sign + t[1..];
    } else {
      sign := [];
      digits := ParsedDigits(t, false);
      assert t == sign + t;
    }
  }

  lemma ParsedForm(rest: CString) returns (spaces: CString, sign: CString, digits: CString)
    requires StrToULL(rest).end == SLICE && rest != SLICE
    ensures NumberForm(rest, spaces, sign, digits)
  {
    var k := SpaceRun(rest);
    spaces := rest[..k];
    assert rest == spaces + rest[k..];
    sign, digits := ParsedSigned(rest[k..]);
    ConcatFour(spaces, sign, digits, SLICE);
  }

  lemma ConcatFour(a: CString, b: CString, c: CString, d: CString)
    ensures a + (b + (c + d)) == a + b + c + d
  {
  }

  /** No number at all: the value is 0 and reading stops where it began. */
  lemma NoNumber()
    ensures StrToULL(SLICE) == Parsed(0, SLICE, false)
    ensures forall spaces, sign, digits :: !NumberForm(SLICE, spaces, sign, digits)
  {
  }

  /** What `digits` stand for under `sign`: a minus sign negates modulo 2^64. */
  predicate Denotes(sign: CString, digits: CString, uid: nat)
    requires AllDigits(digits)
  {
    if sign == "-" then Decimal(digits) < 0x1_0000_0000_0000_0000
                       && uid == (0x1_0000_0000_0000_0000 - Decimal(digits)) % 0x1_0000_0000_0000_0000
    else Decimal(digits) == uid
  }

  /** The uid a number stands for, if it stands for one. */
  lemma UidOfNumber(slice: CString, uid: nat, spaces: CString, sign: CString, digits: CString)
    requires USER <= slice && NumberForm(slice[|USER|..], spaces, sign, digits)
    ensures SliceUid(slice) == uid <==> Denotes(sign, digits, uid) && uid < G_MAXINT
  {
    ParseNumberForm(slice[|USER|..], spaces, sign, digits);
  }

  /** Exactly which slices carry which uid: "user-.slice" carries 0; otherwise the number
      between "user-" and ".slice" must stand for a uid below G_MAXINT, which is 2147483647. */
  lemma UidExactly(slice: CString, uid: nat)
    ensures SliceUid(slice) == uid <==>
      && USER <= slice
      && (|| (slice[|USER|..] == SLICE && uid == 0)
          || exists spaces, sign, digits ::
               NumberForm(slice[|USER|..], spaces, sign, digits) && Denotes(sign, digits, uid) && uid < 2147483647)
  {
    if USER <= slice {
      var rest := slice[|USER|..];
      NoNumber();
      if rest != SLICE {
        forall spaces, sign, digits | NumberForm(rest, spaces, sign, digits)
          ensures SliceUid(slice) == uid <==> Denotes(sign, digits, uid) && uid < G_MAXINT
        {
          UidOfNumber(slice, uid, spaces, sign, digits);
        }
        if SliceUid(slice) == uid {
          var spaces, sign, digits := ParsedForm(rest);
        }
      }
    }
  }

  /** However long the digit string, the bound decides; nothing wraps around. */
  lemma UidOfDigits(digits: CString)
    requires digits != [] && AllDigits(digits)
    ensures SliceUid("user-" + digits + ".slice") == if Decimal(digits) < 2147483647 then Decimal(digits) else -1
  {
    var slice := USER + digits + SLICE;
    assert slice[|USER|..] == digits + SLICE == [] + [] + digits + SLICE;
    assert USER <= slice;
    ParseNumberForm(slice[|USER|..], [], [], digits);
  }

  function ToDecimal(n: nat): (d: CString)
    ensures d != [] && AllDigits(d) && Decimal(d) == n
  {
    var last := [('0' as int + n % 10) as char];
    if n < 10 then last
    else
      var d := ToDecimal(n / 10) + last;
      assert d[..|d| - 1] == ToDecimal(n / 10);
      d
  }

  /** Printing a uid into a slice name and reading it back. */
  lemma UidRoundTrip(uid: nat)
    requires uid < 2147483647
    ensures SliceUid("user-" + ToDecimal(uid) + ".slice") == uid
  {
    UidOfDigits(ToDecimal(uid));
  }

  /** "user-1000.slice" belongs to uid 1000. */
  lemma UserThousand(slice: CString)
    requires slice == "user-1000.slice"
    ensures SliceUid(slice) == 1000
  {
    var digits: CString := "1000";
    assert digits[..3] == "100" && digits[..3][..2] == "10" && digits[..3][..2][..1] == "1";
    assert Decimal("1") == 1 && Decimal("10") == 10 && Decimal("100") == 100 && Decimal(digits) == 1000;
    assert slice == "user-" + digits + ".slice";
    UidOfDigits(digits);
  }

  /** A minus sign is no protection: the negation of a number just below 2^64 is a uid too. */
  lemma UidOfNegation(uid: nat)
    requires 0 < uid < G_MAXINT
    ensures SliceUid(USER + ("-" + ToDecimal(0x1_0000_0000_0000_0000 - uid) + SLICE)) == uid
  {
    var digits := ToDecimal(TWO_64 - uid);
    NegativeForm(digits);
    AfterUser("-" + digits + SLICE);
    UidOfNegative(USER + ("-" + digits + SLICE), digits, uid);
  }

  lemma UidOfNegative(slice: CString, digits: CString, uid: nat)
    requires USER <= slice && NumberForm(slice[|USER|..], [], "-", digits)
    requires Decimal(digits) + uid == TWO_64 && 0 < uid < G_MAXINT
    ensures SliceUid(slice) == uid
  {
    NegationOf(Decimal(digits), uid);
    UidOfNumber(slice, uid, [], "-", digits);
  }

  lemma NegationOf(v: nat, uid: nat)
    requires v + uid == TWO_64 && 0 < uid < TWO_64
    ensures (TWO_64 - v) % TWO_64 == uid
  {
  }

  lemma NegativeForm(digits: CString)
    requires digits != [] && AllDigits(digits)
    ensures NumberForm("-" + digits + SLICE, [], "-", digits)
  {
    assert [] + "-" + digits == "-" + digits;
  }

  lemma AfterUser(rest: CString)
    ensures USER <= USER + rest && (USER + rest)[|USER|..] == rest
  {
  }

  /** Only cgroups strictly below user.slice are ever given to a user. */
  lemma UidOnlyUnderUserSlice(slice: CString)
    requires SliceUid(slice) != -1
    ensures PathOf("user" + SLICE) == "user" + SLICE
    ensures "user" + SLICE + "/" <= PathOf(slice)
  {
    var user: CString := "user";
    StemOf(user);
    assert USER <= slice && user + "-" == USER;
    NameOrderGivesTreeOrder(user + SLICE, slice);
    UserSliceIsTop();
  }

  lemma UserSliceIsTop()
    ensures PathOf("user" + SLICE) == "user" + SLICE
  {
    NoDashInSuffix("user" + SLICE);
    NoDashPath("user" + SLICE);
  }

  lemma NoDashPath(s: CString)
    requires forall k :: 0 <= k < |s| ==> s[k] != '-'
    ensures PathOf(s) == s
  {
    AncestorsGrow(s, 0, |s|);
  }
}
