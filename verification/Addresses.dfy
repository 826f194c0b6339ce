/** The addresses under which cgroups are created and removed: the paths without a leading slash.
    With it they lose the difference between a slice and its twin, the same name behind a slash. */
module Addresses {
  import opened CStrings
  import opened SlicePath
  import opened CgManager

  function Address(slice: CString, scope: Option<CString>): CString {
    Relative(UnitPath(slice, scope))
  }

  predicate Leading(name: CString) {
    name != [] && name[0] == '/'
  }

  function Twin(slice: CString): CString {
    if Leading(slice) then slice[1..] else "/" + slice
  }

  /** Only a slice without a dash has a twin, and one of the two has no leading slash. */
  ghost predicate HasTwin(slice: CString) {
    !(Leading(slice) && Leading(slice[1..])) && forall k :: 0 <= k < |slice| ==> slice[k] != '-'
  }

  lemma TwinIsSlice(slice: CString)
    requires IsSlice(slice) && HasTwin(slice)
    ensures IsSlice(Twin(slice)) && HasTwin(Twin(slice)) && Twin(Twin(slice)) == slice
    ensures Leading(slice) != Leading(Twin(slice))
  {
    if Leading(slice) {
      Front(slice[1..]);
      assert slice == "/" + slice[1..];
      SliceBehindSlash(slice[1..]);
    } else {
      Front(slice);
      SliceBehindSlash(slice);
    }
  }

  lemma Front(s: CString)
    ensures Leading("/" + s) && ("/" + s)[1..] == s
    ensures forall k :: 0 < k < |"/" + s| ==> ("/" + s)[k] == s[k - 1]
  {
  }

  lemma SliceBehindSlash(slice: CString)
    ensures IsSlice("/" + slice) <==> IsSlice(slice)
  {
    var s := "/" + slice;
    if IsSlice(s) {
      RestIsSlice("/", slice);
    }
    if IsSlice(slice) {
      assert s[|s| - |SLICE|..] == slice[|slice| - |SLICE|..];
    }
  }

  // ---- A path behind a slash ----

  /** Whatever stands in front of a name, every dash adds it to the ancestors once more. */
  lemma {:induction false} AncestorsBehind(x: CString, s: CString, i: nat)
    requires i <= |s|
    ensures Dashes(s[..i]) > 0 ==> |Ancestors(x + s, |x| + i)| >= |Ancestors(s, i)| + |x|
  {
    if i > 0 {
      DashesNext(s, i - 1);
      LengthNext(s, i - 1);
      LengthNext(x + s, |x| + i - 1);
      assert (x + s)[|x| + i - 1] == s[i - 1];
      if s[i - 1] == '-' {
        LongerNameLongerAncestors(x, s, i - 1);
      } else {
        AncestorsBehind(x, s, i - 1);
      }
    }
  }

  lemma LengthNext(s: CString, i: nat)
    requires i < |s|
    ensures |Ancestors(s, i + 1)| == |Ancestors(s, i)| + (if s[i] == '-' then i + |SLICE| + 1 else 0)
  {
  }

  /** A path and a slash in front of it make a path only if the name has no dashes, whose pieces
      would each need the slash as well. */
  lemma BehindSlash(s: CString, u: CString)
    ensures PathOf(s) == "/" + PathOf(u) <==> s == "/" + u && Dashes(u) == 0
  {
    if PathOf(s) == "/" + PathOf(u) {
      OneByteBehindSlash(s, u);
      NoDashes(u);
      NoDashPath(u);
      assert Ancestors(s, |s|) == [];
    }
    if s == "/" + u && Dashes(u) == 0 {
      NoDashes(u);
      Front(u);
      NoDashPath(u);
      NoDashPath(s);
    }
  }

  lemma OneByteBehindSlash(s: CString, u: CString)
    requires PathOf(s) == "/" + PathOf(u)
    ensures |Ancestors(s, |s|)| == |Ancestors(u, |u|)| && Dashes(u) == 0
  {
    LongerBehindSlash(s, u);
    var x := s[..|s| - |u|];
    assert s != u;
    assert |x| > 0 && s == x + u;
    LengthsBehind(x, u);
  }

  lemma LengthsBehind(x: CString, u: CString)
    ensures |Ancestors(x + u, |x + u|)| >= |Ancestors(u, |u|)| + (if Dashes(u) > 0 then |x| else 0)
  {
    LongerNameLongerAncestors(x, u, |u|);
    AncestorsBehind(x, u, |u|);
    assert u[..|u|] == u;
  }

  lemma EndsInName(s: CString)
    ensures |s| <= |PathOf(s)| && s == PathOf(s)[|PathOf(s)| - |s|..]
  {
  }

  lemma LongerBehindSlash(s: CString, u: CString)
    requires PathOf(s) == "/" + PathOf(u)
    ensures |s| >= |u| && s == s[..|s| - |u|] + u
  {
    var p, q := PathOf(s), PathOf(u);
    EndsInName(s);
    EndsInName(u);
    if |s| < |u| {
      CommonEnd(p, q, |s|);
      assert u[|u| - |s|..] == s;
      LongerNameLongerPath(s, u);
    } else {
      CommonEnd(p, q, |u|);
      assert s[|s| - |u|..] == u;
    }
  }

  lemma LongerNameLongerPath(s: CString, u: CString)
    requires |s| < |u| && u[|u| - |s|..] == s
    ensures |PathOf(s)| < |PathOf(u)|
  {
    var x := u[..|u| - |s|];
    assert u == x + s;
    LongerNameLongerAncestors(x, s, |s|);
  }

  lemma CommonEnd(p: CString, q: CString, n: nat)
    requires p == "/" + q && n <= |q|
    ensures p[|p| - n..] == q[|q| - n..]
  {
  }

  // ---- Leading slashes ----

  lemma Leads(slice: CString, scope: Option<CString>)
    requires IsSlice(slice)
    ensures UnitPath(slice, scope) != []
    ensures Leading(UnitPath(slice, scope)) <==> Leading(slice)
    ensures Leading(slice) ==> UnitPath(slice, scope) == "/" + Address(slice, scope)
    ensures !Leading(slice) ==> UnitPath(slice, scope) == Address(slice, scope)
  {
    LeadingSlash(slice, scope);
  }

  lemma AddressOfTwin(slice: CString, scope: Option<CString>)
    requires IsSlice(slice) && HasTwin(slice)
    ensures Address(Twin(slice), scope) == Address(slice, scope)
  {
    TwinIsSlice(slice);
    if Leading(slice) {
      AddressBehindSlash(Twin(slice), scope);
    } else {
      AddressBehindSlash(slice, scope);
    }
  }

  lemma AddressBehindSlash(slice: CString, scope: Option<CString>)
    requires IsSlice(slice) && HasTwin(slice) && !Leading(slice)
    ensures Address("/" + slice, scope) == Address(slice, scope)
  {
    Front(slice);
    NoDashPath(slice);
    NoDashPath("/" + slice);
    SliceBehindSlash(slice);
    Leads(slice, scope);
    Leads("/" + slice, scope);
    match scope
    case Some(name) => ConcatThree("/", slice, "/", name);
    case None =>
  }

  lemma ConcatThree(a: CString, b: CString, c: CString, d: CString)
    ensures a + b + c + d == a + (b + c + d)
  {
  }

  // ---- What lies below ----

  lemma AboveUnslashed(s: CString, t: CString)
    requires IsSlice(s) && IsSlice(t) && Leading(s) && !Leading(t)
    requires Address(s, None) + "/" <= PathOf(t)
    ensures HasTwin(s) && IsSlice(Twin(s)) && PathOf(s) == "/" + PathOf(Twin(s)) && NamedBelow(Twin(s), t)
  {
    var above := Address(s, None);
    Leads(s, None);
    DashesOfPath(s);
    NoDashes("/");
    DashesConcat("/", above);
    var u := EnclosingIsPath(above, Dashes(s), t);
    BehindSlash(s, u);
    NoDashes(u);
    SliceBehindSlash(u);
    Front(u);
    TreeOrderExactly(u, t);
    NamedBelowKeepsSlash(u, t);
  }

  lemma AboveSlashed(s: CString, t: CString)
    requires IsSlice(s) && IsSlice(t) && !Leading(s) && Leading(t)
    requires "/" + PathOf(s) + "/" <= PathOf(t)
    ensures HasTwin(s) && IsSlice(Twin(s)) && PathOf(Twin(s)) == "/" + PathOf(s) && NamedBelow(Twin(s), t)
  {
    DashesOfPath(s);
    NoDashes("/");
    DashesConcat("/", PathOf(s));
    var u := EnclosingIsPath("/" + PathOf(s), Dashes(s), t);
    BehindSlash(u, s);
    NoDashes(s);
    TwinIsSlice(s);
    TreeOrderExactly(u, t);
  }

  lemma AboveKeepsSlash(s: CString, t: CString)
    requires IsSlice(s) && IsSlice(t) && Leading(s) == Leading(t)
    ensures Address(s, None) + "/" <= Address(t, None) <==> PathOf(s) + "/" <= PathOf(t)
  {
    Leads(s, None);
    Leads(t, None);
    if Leading(s) {
      BehindOneSlash(Address(s, None) + "/", Address(t, None));
      ConcatAssociates("/", Address(s, None), "/");
    }
  }

  lemma BehindOneSlash(a: CString, b: CString)
    ensures "/" + a <= "/" + b <==> a <= b
    ensures "/" + a == "/" + b <==> a == b
  {
    assert ("/" + a)[1..] == a && ("/" + b)[1..] == b;
    if "/" + a <= "/" + b {
      assert a == ("/" + b)[..1 + |a|][1..] == b[..|a|];
    }
    if a <= b {
      assert ("/" + b)[..1 + |a|] == "/" + b[..|a|];
    }
  }

  lemma NamedBelowKeepsSlash(s: CString, t: CString)
    requires IsSlice(s) && IsSlice(t) && NamedBelow(s, t)
    ensures Leading(s) == Leading(t)
  {
    TreeOrderExactly(s, t);
    Leads(s, None);
    Leads(t, None);
    assert PathOf(s)[0] == (PathOf(s) + "/")[0] == PathOf(t)[0];
  }

  /** Exactly which slices are created below another: those whose names say so, or say so of its
      twin. */
  lemma AddressOrderExactly(s: CString, t: CString)
    requires IsSlice(s) && IsSlice(t)
    ensures Address(s, None) + "/" <= Address(t, None) <==>
      NamedBelow(s, t) || (HasTwin(s) && IsSlice(Twin(s)) && NamedBelow(Twin(s), t))
  {
    TreeOrderExactly(s, t);
    if Leading(s) == Leading(t) {
      AboveKeepsSlash(s, t);
    } else if Address(s, None) + "/" <= Address(t, None) {
      BelowTwin(s, t);
    }
    if NamedBelow(s, t) {
      NamedBelowKeepsSlash(s, t);
    }
    if HasTwin(s) {
      TwinIsSlice(s);
      if NamedBelow(Twin(s), t) {
        NamedBelowKeepsSlash(Twin(s), t);
        TreeOrderExactly(Twin(s), t);
        AboveKeepsSlash(Twin(s), t);
        AddressOfTwin(s, None);
      }
    }
  }

  lemma BelowTwin(s: CString, t: CString)
    requires IsSlice(s) && IsSlice(t) && Leading(s) != Leading(t)
    requires Address(s, None) + "/" <= Address(t, None)
    ensures HasTwin(s) && IsSlice(Twin(s)) && NamedBelow(Twin(s), t)
  {
    Leads(s, None);
    Leads(t, None);
    if Leading(s) {
      AboveUnslashed(s, t);
    } else {
      BehindOneSlash(PathOf(s) + "/", Address(t, None));
      ConcatAssociates("/", PathOf(s), "/");
      AboveSlashed(s, t);
    }
    TwinIsSlice(s);
  }

  // ---- Who shares an address ----

  /** A name shares its path with another, or its twin does. */
  ghost predicate TwinShares(s: CString, c: Option<CString>, t: CString, d: Option<CString>)
    requires IsSlice(s) && IsSlice(t)
  {
    HasTwin(s) && IsSlice(Twin(s)) && Shares(Twin(s), c, t, d)
  }

  lemma SharersKeepSlash(s: CString, c: Option<CString>, t: CString, d: Option<CString>)
    requires IsSlice(s) && IsSlice(t) && Leading(s) == Leading(t)
    ensures Address(s, c) == Address(t, d) <==> UnitPath(s, c) == UnitPath(t, d)
  {
    Leads(s, c);
    Leads(t, d);
    BehindOneSlash(Address(s, c), Address(t, d));
  }

  lemma SlicesBehindSlash(s: CString, c: Option<CString>, t: CString)
    requires IsSlice(s) && IsSlice(t) && !Leading(t) && PathOf(s) == "/" + PathOf(t)
    ensures TwinShares(s, c, t, c)
  {
    BehindSlash(s, t);
    NoDashes(t);
    Front(t);
    SliceBehindSlash(t);
  }

  /** How a scope behind a slash can have the address of one that is not. */
  lemma ScopesBehindSlash(s: CString, c: CString, t: CString, d: CString)
    requires IsSlice(s) && IsSlice(t) && Leading(s) && !Leading(t) && IsScope(c) && IsScope(d)
    requires UnitPath(s, Some(c)) == "/" + UnitPath(t, Some(d))
    ensures TwinShares(s, Some(c), t, Some(d)) || TwinShares(t, Some(d), s, Some(c))
  {
    var p, q := PathOf(s), "/" + PathOf(t);
    var all := p + "/" + c;
    assert all == q + "/" + d;
    assert p + "/" == all[..|p| + 1] && q + "/" == all[..|q| + 1];
    if |p| == |q| {
      assert p == all[..|p|] == q && c == all[|p| + 1..] == d;
      SlicesBehindSlash(s, Some(c), t);
    } else if |p| < |q| {
      UpperBehindSlash(s, c, t, d);
    } else {
      assert q + "/" == p[..|q| + 1];
      LowerBehindSlash(s, c, t, d);
    }
  }

  lemma LowerBehindSlash(s: CString, c: CString, t: CString, d: CString)
    requires IsSlice(s) && IsSlice(t) && Leading(s) && !Leading(t) && IsScope(c) && IsScope(d)
    requires UnitPath(s, Some(c)) == "/" + UnitPath(t, Some(d)) && "/" + PathOf(t) + "/" <= PathOf(s)
    ensures TwinShares(t, Some(d), s, Some(c))
  {
    AboveSlashed(t, s);
    ConcatThree("/", PathOf(t), "/", d);
    UnitsShareExactly(Twin(t), Some(d), s, Some(c));
  }

  lemma UpperBehindSlash(s: CString, c: CString, t: CString, d: CString)
    requires IsSlice(s) && IsSlice(t) && Leading(s) && !Leading(t) && IsScope(c) && IsScope(d)
    requires UnitPath(s, Some(c)) == "/" + UnitPath(t, Some(d)) && |PathOf(s)| <= |PathOf(t)|
    ensures TwinShares(s, Some(c), t, Some(d))
  {
    var above, all := Address(s, None), UnitPath(t, Some(d));
    Leads(s, None);
    assert all == (above + "/") + c by {
      assert all == UnitPath(s, Some(c))[1..];
    }
    assert above + "/" == all[..|above| + 1] == PathOf(t)[..|above| + 1];
    AboveUnslashed(s, t);
    TwinIsSlice(s);
    BehindOneSlash(above, PathOf(Twin(s)));
    UnitsShareExactly(Twin(s), Some(c), t, Some(d));
  }

  lemma SameKind(s: CString, c: Option<CString>, t: CString, d: Option<CString>)
    requires IsSlice(s) && IsSlice(t) && UnitPath(s, c) == "/" + UnitPath(t, d)
    requires (c.Some? ==> IsScope(c.value)) && (d.Some? ==> IsScope(d.value))
    ensures c.Some? <==> d.Some?
  {
    LastBytes(s, c);
    LastBytes(t, d);
    CommonEnd(UnitPath(s, c), UnitPath(t, d), 6);
    assert SLICE[3] != SCOPE[3];
  }

  lemma UnitsBehindSlash(s: CString, c: Option<CString>, t: CString, d: Option<CString>)
    requires IsSlice(s) && IsSlice(t) && Leading(s) && !Leading(t)
    requires (c.Some? ==> IsScope(c.value)) && (d.Some? ==> IsScope(d.value))
    requires Address(s, c) == Address(t, d)
    ensures TwinShares(s, c, t, d) || TwinShares(t, d, s, c)
  {
    Leads(s, c);
    Leads(t, d);
    SameKind(s, c, t, d);
    if c.Some? {
      ScopesBehindSlash(s, c.value, t, d.value);
    } else {
      SlicesBehindSlash(s, c, t);
    }
  }

  lemma TwinSharesAddress(s: CString, c: Option<CString>, t: CString, d: Option<CString>)
    requires IsSlice(s) && IsSlice(t) && TwinShares(s, c, t, d)
    requires (c.Some? ==> IsScope(c.value)) && (d.Some? ==> IsScope(d.value))
    ensures Address(s, c) == Address(t, d)
  {
    UnitsShareExactly(Twin(s), c, t, d);
    AddressOfTwin(s, c);
  }

  /** Exactly which units are created at one address: those that share a path, or of which one
      would if its slice were replaced by its twin. */
  lemma UnitsAtOneAddress(s: CString, c: Option<CString>, t: CString, d: Option<CString>)
    requires IsSlice(s) && (c.Some? ==> IsScope(c.value))
    requires IsSlice(t) && (d.Some? ==> IsScope(d.value))
    ensures Address(s, c) == Address(t, d) <==>
      Shares(s, c, t, d) || TwinShares(s, c, t, d) || TwinShares(t, d, s, c)
  {
    UnitsShareExactly(s, c, t, d);
    if TwinShares(s, c, t, d) {
      TwinSharesAddress(s, c, t, d);
    }
    if TwinShares(t, d, s, c) {
      TwinSharesAddress(t, d, s, c);
    }
    if Address(s, c) == Address(t, d) {
      if Leading(s) == Leading(t) {
        SharersKeepSlash(s, c, t, d);
      } else if Leading(s) {
        UnitsBehindSlash(s, c, t, d);
      } else {
        UnitsBehindSlash(t, d, s, c);
      }
    }
  }

  /** Exactly which slices are created at one address: a slice and its twin. */
  lemma SlicesAtOneAddress(s: CString, t: CString)
    requires IsSlice(s) && IsSlice(t)
    ensures Address(s, None) == Address(t, None) <==> s == t || (HasTwin(s) && t == Twin(s))
  {
    UnitsAtOneAddress(s, None, t, None);
    if HasTwin(s) {
      TwinIsSlice(s);
    }
    if HasTwin(t) {
      TwinIsSlice(t);
    }
  }
}
