/** NUL-terminated byte strings and the ASCII classes of GLib that the daemon relies on.
    A byte is a `char` with a code below 256; a string never contains NUL. */
module CStrings {

  datatype Option<+T> = None | Some(value: T)

  const NUL: char := '\0'

  type Byte = c: char | c as int < 256

  type CChar = c: char | 1 <= c as int < 256 witness 'a'

  type CString = seq<CChar>

  /** What reading `s[i]` yields in C: the terminator is readable, nothing past it is. */
  function At(s: CString, i: nat): Byte
    requires i <= |s|
  {
    if i < |s| then s[i] else NUL
  }

  predicate IsDigit(c: char) {
    '0' <= c <= '9'
  }

  predicate IsAlnum(c: char) {
    IsDigit(c) || 'a' <= c <= 'z' || 'A' <= c <= 'Z'
  }

  predicate IsGraph(c: char) {
    '!' <= c <= '~'
  }

  predicate IsSpace(c: char) {
    c == ' ' || 9 <= c as int <= 13
  }

  predicate IsCntrl(c: char) {
    c as int < 32 || c as int == 127
  }

  predicate IsXDigit(c: char) {
    IsDigit(c) || 'a' <= c <= 'f' || 'A' <= c <= 'F'
  }

  function XDigitValue(c: char): (v: nat)
    requires IsXDigit(c)
    ensures v < 16
  {
    if IsDigit(c) then c as int - '0' as int
    else if 'a' <= c <= 'f' then c as int - 'a' as int + 10
    else c as int - 'A' as int + 10
  }

  /** The lower-case hexadecimal digit of `v`. */
  function HexDigit(v: nat): (c: CChar)
    requires v < 16
    ensures IsXDigit(c) && XDigitValue(c) == v && !('A' <= c <= 'Z')
  {
    if v < 10 then (v + '0' as int) as char else (v - 10 + 'a' as int) as char
  }

  /** Digits of either case count up from 0. */
  lemma HexDigitsAre(v: nat)
    requires v < 16
    ensures var lower, upper := "0123456789abcdef"[v], "0123456789ABCDEF"[v];
            && IsXDigit(lower) && IsXDigit(upper)
            && XDigitValue(lower) == v && XDigitValue(upper) == v && HexDigit(v) == lower
  {
  }

  /** The classes as GLib's documentation lists them: the six blanks, the codes below 32 and 127,
      the printing characters of ASCII except the space, and the ten digits and twice 26 letters. */
  lemma ClassesAre(c: Byte)
    ensures IsSpace(c) <==> c in [' ', '\t', '\n', 11 as char, 12 as char, '\r']
    ensures IsCntrl(c) <==> c as int < 32 || c as int == 127
    ensures IsGraph(c) <==> c as int < 128 && c != ' ' && !IsCntrl(c)
    ensures IsAlnum(c) <==> 48 <= c as int < 48 + 10 || 65 <= c as int < 65 + 26 || 97 <= c as int < 97 + 26
  {
  }

  predicate HasSuffix(s: CString, suffix: CString) {
    |suffix| <= |s| && s[|s| - |suffix|..] == suffix
  }

  ghost predicate SlashFree(s: CString) {
    forall i :: 0 <= i < |s| ==> s[i] != '/'
  }

  ghost predicate AllGraph(s: CString) {
    forall i :: 0 <= i < |s| ==> IsGraph(s[i])
  }

  ghost predicate AllDigits(s: CString) {
    forall i :: 0 <= i < |s| ==> IsDigit(s[i])
  }

  lemma ConcatAssociates(a: CString, b: CString, c: CString)
    ensures a + (b + c) == a + b + c
  {
  }

  lemma AllGraphConcat(a: CString, b: CString)
    ensures AllGraph(a + b) <==> AllGraph(a) && AllGraph(b)
  {
    var s := a + b;
    assert forall i :: 0 <= i < |a| ==> s[i] == a[i];
    assert forall i :: 0 <= i < |b| ==> s[|a| + i] == b[i];
  }

  /** The graphic characters of `s`, in order. */
  function GraphOnly(s: CString): CString {
    if s == [] then [] else (if IsGraph(s[0]) then [s[0]] else []) + GraphOnly(s[1..])
  }

  lemma {:induction false} GraphOnlyIsGraph(s: CString)
    ensures AllGraph(GraphOnly(s))
    ensures |GraphOnly(s)| <= |s|
    ensures GraphOnly(s) == s <==> AllGraph(s)
  {
    if s != [] {
      GraphOnlyIsGraph(s[1..]);
      if IsGraph(s[0]) {
        assert s == [s[0]] + s[1..];
        assert AllGraph(s[1..]) ==> AllGraph(s);
        assert GraphOnly(s)[1..] == GraphOnly(s[1..]);
      }
    }
  }

  lemma {:induction false} GraphOnlyConcat(a: CString, b: CString)
    ensures GraphOnly(a + b) == GraphOnly(a) + GraphOnly(b)
  {
    if a == [] {
      assert a + b == b;
    } else {
      assert (a + b)[1..] == a[1..] + b;
      GraphOnlyConcat(a[1..], b);
      var first: CString := if IsGraph(a[0]) then [a[0]] else [];
      ConcatAssociates(first, GraphOnly(a[1..]), GraphOnly(b));
    }
  }
}
