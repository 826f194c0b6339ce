/** The D-Bus object-path codec of src/systemd-shim.c. `signedChar` says whether the
    platform's plain `char` is signed. */
module ObjectPath {
  import opened CStrings

  /** The digits of `v` in lower-case hexadecimal, without padding. */
  function Hex(v: nat): (h: CString)
    ensures |h| >= 1
  {
    if v < 16 then [HexDigit(v)] else Hex(v / 16) + [HexDigit(v % 16)]
  }

  /** A `char` converted to a 32-bit unsigned integer: a negative one wraps around. */
  function ToGuint(c: CChar, signedChar: bool): nat {
    if signedChar && c as int >= 0x80 then 0x1_0000_0000 - 0x100 + c as int else c as int
  }

  /** The three characters that snprintf("_%02x") leaves in a buffer of size four. */
  function EscapedByte(c: CChar, signedChar: bool): (e: CString)
    ensures |e| == 3
  {
    var h := Hex(ToGuint(c, signedChar));
    ("_" + (if |h| < 2 then "0" + h else h))[..3]
  }

  function EscapeUnit(c: CChar, signedChar: bool): (e: CString)
    ensures 1 <= |e| <= 3
  {
    if IsAlnum(c) then [c] else EscapedByte(c, signedChar)
  }

  function Escape(s: CString, signedChar: bool): (e: CString)
    ensures |e| <= 3 * |s|
  {
    if s == [] then [] else EscapeUnit(s[0], signedChar) + Escape(s[1..], signedChar)
  }

  /** A hexadecimal pair, of either case, begins at `p[1]`. */
  predicate HexPair(p: CString) {
    |p| >= 3 && IsXDigit(p[1]) && IsXDigit(p[2])
  }

  function PairValue(p: CString): (v: nat)
    requires HexPair(p)
    ensures v < 256
  {
    XDigitValue(p[1]) * 16 + XDigitValue(p[2])
  }

  function PairChar(p: CString): CString
    requires HexPair(p)
  {
    if IsGraph(PairValue(p) as char) then [PairValue(p) as char] else []
  }

  function Unescape(p: CString): (u: CString)
    ensures |u| <= |p|
  {
    if p == [] then []
    else if p[0] != '_' then [p[0]] + Unescape(p[1..])
    else if HexPair(p) then PairChar(p) + Unescape(p[3..])
    else Unescape(p[1..])
  }

  // ---- The loops over the malloc'd buffers ----

  /** `buffer` holds the NUL-terminated string `s`. */
  ghost predicate Holds(buffer: array<Byte>, s: CString)
    reads buffer
  {
    |s| < buffer.Length && buffer[..|s|] == s && buffer[|s|] == NUL
  }

  /** One turn of the decoding loop: the byte at `i`, or the pair that begins there. */
  method UnescapeInto(buffer: array<Byte>, j: nat, path: CString, i: nat)
    returns (nextJ: nat, nextI: nat, ghost emitted: CString)
    requires i < |path| && j < buffer.Length
    modifies buffer
    ensures i < nextI <= |path| && nextJ == j + |emitted| && |emitted| <= 1
    ensures buffer[..nextJ] == old(buffer[..j]) + emitted
    ensures Unescape(path[i..]) == emitted + Unescape(path[nextI..])
  {
    nextJ, nextI, emitted := j, i + 1, [];
    if path[i] == '_' {
      if IsXDigit(At(path, i + 1)) && IsXDigit(At(path, i + 2)) {
        var val := XDigitValue(At(path, i + 1)) * 16 + XDigitValue(At(path, i + 2));
        if IsGraph(val as char) {
          buffer[j] := val as char;
          nextJ := j + 1;
          emitted := [val as char];
        }
        nextI := i + 3;
      }
    } else {
      buffer[j] := path[i];
      nextJ := j + 1;
      emitted := [path[i]];
    }
    UnescapeStep(path, i, emitted, nextI);
  }

  method UnescapeObjectPath(path: CString) returns (result: array<Byte>)
    ensures fresh(result) && result.Length == |path| + 1
    ensures Holds(result, Unescape(path))
  {
    result := new Byte[|path| + 1](_ => NUL);
    var i, j := 0, 0;
    ghost var out: CString := [];
    while At(path, i) != NUL
      invariant 0 <= j <= i <= |path| && j == |out|
      invariant result[..j] == out
      invariant Unescape(path) == out + Unescape(path[i..])
      decreases |path| - i
    {
      ghost var emitted;
      j, i, emitted := UnescapeInto(result, j, path, i);
      ConcatAssociates(out, emitted, Unescape(path[i..]));
      out := out + emitted;
    }
    assert path[i..] == [];
    result[j] := NUL;
  }

  /** One turn of the encoding loop; snprintf fills four cells, the terminator included. */
  method EscapeInto(buffer: array<Byte>, j: nat, c: CChar, signedChar: bool) returns (next: nat)
    requires j + 4 <= buffer.Length
    modifies buffer
    ensures next == j + |EscapeUnit(c, signedChar)|
    ensures buffer[..next] == old(buffer[..j]) + EscapeUnit(c, signedChar)
  {
    if IsAlnum(c) {
      buffer[j] := c;
      next := j + 1;
    } else {
      var e := EscapedByte(c, signedChar);
      buffer[j], buffer[j + 1], buffer[j + 2], buffer[j + 3] := e[0], e[1], e[2], NUL;
      next := j + 3;
    }
  }

  method EscapeObjectPath(path: CString, signedChar: bool) returns (result: array<Byte>)
    ensures fresh(result) && result.Length == 3 * |path| + 1
    ensures Holds(result, Escape(path, signedChar))
  {
    result := new Byte[3 * |path| + 1](_ => NUL);
    var i, j := 0, 0;
    ghost var out: CString := [];
    while At(path, i) != NUL
      invariant 0 <= i <= |path| && 0 <= j <= 3 * i && j == |out|
      invariant result[..j] == out
      invariant Escape(path, signedChar) == out + Escape(path[i..], signedChar)
      decreases |path| - i
    {
      j := EscapeInto(result, j, path[i], signedChar);
      ghost var emitted := EscapeUnit(path[i], signedChar);
      assert path[i..][1..] == path[i + 1..];
      ConcatAssociates(out, emitted, Escape(path[i + 1..], signedChar));
      out := out + emitted;
      i := i + 1;
    }
    assert path[i..] == [];
    result[j] := NUL;
  }

  /** One turn of the decoding loop, in the terms the loop computes with. */
  lemma UnescapeStep(path: CString, i: nat, emitted: CString, next: nat)
    requires i < next <= |path|
    requires
      if path[i] != '_' then
        emitted == [path[i]] && next == i + 1
      else if IsXDigit(At(path, i + 1)) && IsXDigit(At(path, i + 2)) then
        emitted == PairChar(path[i..]) && next == i + 3
      else
        emitted == [] && next == i + 1
    ensures Unescape(path[i..]) == emitted + Unescape(path[next..])
  {
    assert path[i..][1..] == path[i + 1..];
    if HexPair(path[i..]) {
      assert path[i..][3..] == path[i + 3..];
    }
  }

  // ---- What one escaped byte is ----

  /** Truncation keeps the two most significant digits: a sign-extended byte begins "ff". */
  lemma {:induction false} HexOfSignExtended(v: nat, scale: nat)
    requires scale >= 1
    requires 0xff * scale <= v < 0x100 * scale
    requires PowerOf16(scale)
    ensures |Hex(v)| >= 2 && Hex(v)[..2] == "ff"
    decreases scale
  {
    if scale == 1 {
      assert v == 255 && Hex(15) == ['f'];
    } else {
      HexOfSignExtended(v / 16, scale / 16);
    }
  }

  predicate PowerOf16(n: nat) {
    n == 1 || (n > 1 && n % 16 == 0 && PowerOf16(n / 16))
  }

  /** Two lower-case digits of the byte's code, or "_ff" for every byte from 0x80 when `char`
      is signed. */
  lemma EscapedByteIs(c: CChar, signedChar: bool)
    ensures EscapedByte(c, signedChar) ==
      if signedChar && c as int >= 0x80 then "_ff" else ['_', HexDigit(c as int / 16), HexDigit(c as int % 16)]
  {
    var v := ToGuint(c, signedChar);
    if signedChar && c as int >= 0x80 {
      assert PowerOf16(0x10) && PowerOf16(0x1000) && PowerOf16(0x10_0000);
      HexOfSignExtended(v, 0x100_0000);
      assert ("_" + Hex(v))[..3] == "_" + Hex(v)[..2];
    } else if v >= 16 {
      assert Hex(v) == [HexDigit(v / 16)] + [HexDigit(v % 16)];
    }
  }

  /** Reading one escaped unit back gives the character itself, or nothing. */
  lemma UnescapeUnit(c: CChar, rest: CString, signedChar: bool)
    ensures Unescape(EscapeUnit(c, signedChar) + rest) == (if IsGraph(c) then [c] else []) + Unescape(rest)
  {
    EscapedByteIs(c, signedChar);
    var e := EscapeUnit(c, signedChar);
    var p := e + rest;
    if IsAlnum(c) {
      assert p[1..] == rest;
    } else {
      assert e[0] == '_' && HexPair(p) && p[3..] == rest;
    }
  }

  // ---- Round trips ----

  lemma {:induction false} UnescapeEscape(s: CString, signedChar: bool)
    ensures Unescape(Escape(s, signedChar)) == GraphOnly(s)
  {
    if s != [] {
      UnescapeEscape(s[1..], signedChar);
      UnescapeUnit(s[0], Escape(s[1..], signedChar), signedChar);
    }
  }

  /** A name survives the trip through its node exactly when it is all ASCII-graph. */
  lemma RoundTripExactlyGraph(s: CString, signedChar: bool)
    ensures Unescape(Escape(s, signedChar)) == s <==> AllGraph(s)
  {
    UnescapeEscape(s, signedChar);
    GraphOnlyIsGraph(s);
  }

  lemma {:induction false} EscapeConcat(a: CString, b: CString, signedChar: bool)
    ensures Escape(a + b, signedChar) == Escape(a, signedChar) + Escape(b, signedChar)
  {
    if a == [] {
      assert a + b == b;
    } else {
      assert (a + b)[1..] == a[1..] + b;
      EscapeConcat(a[1..], b, signedChar);
    }
  }

  // ---- Decoding, case by case ----

  /** `c` is the digit of `v` in either case. */
  predicate DigitOf(c: char, v: nat) {
    v < 16 && (c == "0123456789abcdef"[v] || c == "0123456789ABCDEF"[v])
  }

  lemma DigitOfIs(c: CChar, v: nat)
    ensures DigitOf(c, v) <==> IsXDigit(c) && XDigitValue(c) == v
  {
    if v < 16 {
      HexDigitsAre(v);
    }
    if IsXDigit(c) {
      HexDigitsAre(XDigitValue(c));
      if 'A' <= c <= 'F' {
        assert c == "0123456789ABCDEF"[XDigitValue(c)];
      }
    }
  }

  /** What an underscore and two digits of either case decode to. */
  lemma PairDecodes(p: CString, high: nat, low: nat)
    requires |p| >= 3 && p[0] == '_' && DigitOf(p[1], high) && DigitOf(p[2], low)
    ensures Unescape(p) == (if '!' <= (16 * high + low) as char <= '~' then [(16 * high + low) as char] else [])
                           + Unescape(p[3..])
  {
    DigitOfIs(p[1], high);
    DigitOfIs(p[2], low);
  }

  /** Without two such digits behind it an underscore is dropped alone. */
  lemma LoneUnderscore(p: CString)
    requires p != [] && p[0] == '_'
    requires |p| >= 3 ==> !((exists v :: DigitOf(p[1], v)) && (exists v :: DigitOf(p[2], v)))
    ensures Unescape(p) == Unescape(p[1..])
  {
    if HexPair(p) {
      DigitOfIs(p[1], XDigitValue(p[1]));
      DigitOfIs(p[2], XDigitValue(p[2]));
      assert false;
    }
  }

  /** Every other byte stands for itself, legal or not. */
  lemma OthersStay(p: CString)
    requires p != [] && p[0] != '_'
    ensures Unescape(p) == [p[0]] + Unescape(p[1..])
  {
  }

  /** `p` encodes `s` as the daemon does, but with digits in any case. */
  predicate EncodesInAnyCase(p: CString, s: CString)
    decreases s
  {
    if s == [] then p == []
    else if IsAlnum(s[0]) then p != [] && p[0] == s[0] && EncodesInAnyCase(p[1..], s[1..])
    else
      && |p| >= 3 && p[0] == '_'
      && DigitOf(p[1], s[0] as int / 16) && DigitOf(p[2], s[0] as int % 16)
      && EncodesInAnyCase(p[3..], s[1..])
  }

  /** Whatever the case of its digits, a node decodes to the graphic bytes of its name. */
  lemma {:induction false} AnyCaseDecodes(p: CString, s: CString)
    requires EncodesInAnyCase(p, s)
    ensures Unescape(p) == GraphOnly(s)
    decreases s
  {
    if s != [] {
      if IsAlnum(s[0]) {
        AnyCaseDecodes(p[1..], s[1..]);
      } else {
        PairDecodes(p, s[0] as int / 16, s[0] as int % 16);
        AnyCaseDecodes(p[3..], s[1..]);
      }
    }
  }

  lemma {:induction false} PlainDecodes(s: CString)
    requires forall i :: 0 <= i < |s| ==> s[i] != '_'
    ensures Unescape(s) == s
  {
    if s != [] {
      PlainDecodes(s[1..]);
      assert s == [s[0]] + s[1..];
    }
  }

  /** "a_2Eslice" and "a_2eslice" are both "a.slice". */
  lemma EitherCase(p: CString)
    requires p == "a_2Eslice" || p == "a_2eslice"
    ensures Unescape(p) == "a.slice"
  {
    OthersStay(p);
    PairDecodes(p[1..], 2, 14);
    assert p[1..][3..] == p[4..] == "slice";
    PlainDecodes(p[4..]);
  }

  // ---- Canonical nodes ----

  /** Alphanumerics, and `_hh` in lower-case hex of a graphic byte that is not alphanumeric. */
  predicate Canonical(p: CString) {
    p == [] || (
      if p[0] == '_' then
        && HexPair(p)
        && !('A' <= p[1] <= 'Z') && !('A' <= p[2] <= 'Z')
        && IsGraph(PairValue(p) as char) && !IsAlnum(PairValue(p) as char)
        && Canonical(p[3..])
      else
        IsAlnum(p[0]) && Canonical(p[1..]))
  }

  lemma {:induction false} EscapeIsCanonical(s: CString, signedChar: bool)
    requires AllGraph(s)
    ensures Canonical(Escape(s, signedChar))
  {
    if s != [] {
      EscapeIsCanonical(s[1..], signedChar);
      EscapedByteIs(s[0], signedChar);
      var e, rest := EscapeUnit(s[0], signedChar), Escape(s[1..], signedChar);
      if IsAlnum(s[0]) {
        assert (e + rest)[1..] == rest;
      } else {
        assert (e + rest)[3..] == rest;
      }
    }
  }

  lemma EscapeOfCanonicalPair(p: CString, signedChar: bool)
    requires p != [] && p[0] == '_' && Canonical(p)
    ensures EscapeUnit(PairValue(p) as char, signedChar) == p[..3]
  {
    var high, low := XDigitValue(p[1]), XDigitValue(p[2]);
    assert PairValue(p) / 16 == high && PairValue(p) % 16 == low;
    EscapedByteIs(PairValue(p) as char, signedChar);
    DigitOfValue(p[1]);
    DigitOfValue(p[2]);
    assert p[..3] == ['_', p[1], p[2]];
  }

  lemma {:induction false} EscapeUnescapeCanonical(p: CString, signedChar: bool)
    requires Canonical(p)
    ensures Escape(Unescape(p), signedChar) == p
  {
    if p == [] {
    } else if p[0] == '_' {
      EscapeOfCanonicalPair(p, signedChar);
      EscapeUnescapeCanonical(p[3..], signedChar);
      EscapeConcat(PairChar(p), Unescape(p[3..]), signedChar);
      assert p == p[..3] + p[3..];
    } else {
      EscapeUnescapeCanonical(p[1..], signedChar);
      assert p == [p[0]] + p[1..];
    }
  }

  lemma DigitOfValue(c: CChar)
    requires IsXDigit(c) && !('A' <= c <= 'Z')
    ensures HexDigit(XDigitValue(c)) == c
  {
  }

  lemma CanonicalForm(p: CString, signedChar: bool)
    ensures Escape(Unescape(p), signedChar) == p <==> Canonical(p)
  {
    if Canonical(p) {
      EscapeUnescapeCanonical(p, signedChar);
    }
    if Escape(Unescape(p), signedChar) == p {
      RoundTripExactlyGraph(Unescape(p), signedChar);
      EscapeIsCanonical(Unescape(p), signedChar);
    }
  }

  lemma {:induction false} UnescapeGraph(p: CString)
    ensures AllGraph(Unescape(p)) <==> AllGraph(p)
  {
    if p == [] {
    } else if p[0] != '_' {
      UnescapeGraph(p[1..]);
      AllGraphConcat([p[0]], Unescape(p[1..]));
      AllGraphConcat([p[0]], p[1..]);
      assert p == [p[0]] + p[1..];
    } else if HexPair(p) {
      UnescapeGraph(p[3..]);
      AllGraphConcat(PairChar(p), Unescape(p[3..]));
      AllGraphConcat(p[..3], p[3..]);
      assert p == p[..3] + p[3..];
      assert AllGraph(PairChar(p)) && AllGraph(p[..3]);
    } else {
      UnescapeGraph(p[1..]);
      AllGraphConcat([p[0]], p[1..]);
      assert p == [p[0]] + p[1..];
    }
  }

  /** Re-escaping a decoded node decodes to the same name exactly when the node is all graph;
      every legal D-Bus element is. */
  lemma ReescapeStable(p: CString, signedChar: bool)
    ensures Unescape(Escape(Unescape(p), signedChar)) == Unescape(p) <==> AllGraph(p)
  {
    RoundTripExactlyGraph(Unescape(p), signedChar);
    UnescapeGraph(p);
  }

  // ---- Legality and collisions ----

  /** D-Bus Specification, section "Valid Object Paths": one non-empty element of [A-Za-z0-9_]. */
  ghost predicate LegalElement(p: CString) {
    p != [] && forall i :: 0 <= i < |p| ==> IsAlnum(p[i]) || p[i] == '_'
  }

  lemma {:induction false} EscapeIsLegal(s: CString, signedChar: bool)
    ensures LegalElement(Escape(s, signedChar)) <==> s != []
  {
    if s != [] {
      EscapedByteIs(s[0], signedChar);
      EscapeIsLegal(s[1..], signedChar);
    }
  }

  /** Every byte from 0x80 replaced by 0xff: what a signed `char` leaves of a name. */
  function Collapse(s: CString): CString {
    if s == [] then [] else [if s[0] as int >= 0x80 then 255 as char else s[0]] + Collapse(s[1..])
  }

  lemma {:induction false} SignedEscapeCollapses(s: CString)
    ensures Escape(s, true) == Escape(Collapse(s), false)
  {
    if s != [] {
      SignedEscapeCollapses(s[1..]);
      EscapedByteIs(s[0], true);
      EscapedByteIs(Collapse(s)[0], false);
      assert Collapse(s)[1..] == Collapse(s[1..]);
    }
  }

  lemma {:induction false} UnsignedEscapeInjective(a: CString, b: CString)
    requires Escape(a, false) == Escape(b, false)
    ensures a == b
  {
    if a == [] || b == [] {
      EscapeIsLegal(a, false);
      EscapeIsLegal(b, false);
    } else {
      EscapedByteIs(a[0], false);
      EscapedByteIs(b[0], false);
      var ea, eb := EscapeUnit(a[0], false), EscapeUnit(b[0], false);
      var ta, tb := Escape(a[1..], false), Escape(b[1..], false);
      assert (ea + ta)[0] == (eb + tb)[0];
      assert |ea| == |eb|;
      assert ea == (ea + ta)[..|ea|] == eb;
      assert ta == (ea + ta)[|ea|..] == tb;
      if !IsAlnum(a[0]) {
        assert a[0] as int == 16 * XDigitValue(ea[1]) + XDigitValue(ea[2]);
        assert b[0] as int == 16 * XDigitValue(eb[1]) + XDigitValue(eb[2]);
      }
      UnsignedEscapeInjective(a[1..], b[1..]);
      assert a == [a[0]] + a[1..] && b == [b[0]] + b[1..];
    }
  }

  /** Which names share a node: none with unsigned `char`; with signed `char`, exactly those
      that differ only in bytes from 0x80. */
  lemma NodeCollisions(a: CString, b: CString)
    ensures Escape(a, false) == Escape(b, false) <==> a == b
    ensures Escape(a, true) == Escape(b, true) <==> Collapse(a) == Collapse(b)
  {
    if Escape(a, false) == Escape(b, false) {
      UnsignedEscapeInjective(a, b);
    }
    SignedEscapeCollapses(a);
    SignedEscapeCollapses(b);
    if Escape(a, true) == Escape(b, true) {
      UnsignedEscapeInjective(Collapse(a), Collapse(b));
    }
  }

  /** With signed `char` the slices "é" and "è" in UTF-8 share a node. */
  lemma AccentsCollide()
    ensures var a: CString := [0xc3 as char, 0xa9 as char] + ".slice";
            var b: CString := [0xc3 as char, 0xa8 as char] + ".slice";
            a != b && Escape(a, true) == Escape(b, true) && Escape(a, false) != Escape(b, false)
  {
    var a: CString := [0xc3 as char, 0xa9 as char] + ".slice";
    var b: CString := [0xc3 as char, 0xa8 as char] + ".slice";
    assert a[1] != b[1];
    assert a[2..] == ".slice" == b[2..];
    CollapseTwo(a);
    CollapseTwo(b);
    NodeCollisions(a, b);
  }

  lemma CollapseTwo(s: CString)
    requires |s| >= 2 && s[0] as int >= 0x80 && s[1] as int >= 0x80
    ensures Collapse(s) == [255 as char, 255 as char] + Collapse(s[2..])
  {
    assert s[1..][1..] == s[2..];
  }
}
