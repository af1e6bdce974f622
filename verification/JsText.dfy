/** The parts of JavaScript string handling that the modelled code uses.  A `string` is a
    sequence of Unicode scalar values, that is, a well-formed JavaScript string. */
module JsText {

  datatype Option<+T> = None | Some(value: T)

  /** White space and line terminators in the sense of `String.prototype.trim`. */
  predicate IsSpace(c: char) {
    var n := c as int;
    0x09 <= n <= 0x0D || n == 0x20 || n == 0xA0 || n == 0x1680 || 0x2000 <= n <= 0x200A
    || n == 0x2028 || n == 0x2029 || n == 0x202F || n == 0x205F || n == 0x3000 || n == 0xFEFF
  }

  function TrimStart(s: string): string {
    if s != [] && IsSpace(s[0]) then TrimStart(s[1..]) else s
  }

  function TrimEnd(s: string): string {
    if s != [] && IsSpace(s[|s| - 1]) then TrimEnd(s[..|s| - 1]) else s
  }

  function Trim(s: string): (r: string)
    ensures |r| <= |s|
    ensures IsTrimmed(r)
  {
    TrimStartTrims(s);
    TrimEndTrims(TrimStart(s));
    TrimEnd(TrimStart(s))
  }

  lemma {:induction false} TrimStartTrims(s: string)
    ensures |TrimStart(s)| <= |s|
    ensures TrimStart(s) == [] || !IsSpace(TrimStart(s)[0])
  {
    if s != [] && IsSpace(s[0]) { TrimStartTrims(s[1..]); }
  }

  lemma {:induction false} TrimEndTrims(s: string)
    ensures TrimEnd(s) <= s
    ensures TrimEnd(s) == [] || !IsSpace(TrimEnd(s)[|TrimEnd(s)| - 1])
  {
    if s != [] && IsSpace(s[|s| - 1]) { TrimEndTrims(s[..|s| - 1]); }
  }

  /** No white space at either end. */
  predicate IsTrimmed(s: string) {
    s == [] || (!IsSpace(s[0]) && !IsSpace(s[|s| - 1]))
  }

  ghost predicate AllSpace(s: string) {
    forall i :: 0 <= i < |s| ==> IsSpace(s[i])
  }

  /** Trimming takes white space off both ends, and nothing else. */
  lemma {:induction false} TrimTakesSpaceOnly(s: string) returns (front: string, back: string)
    ensures s == front + Trim(s) + back && AllSpace(front) && AllSpace(back)
  {
    front := StartTaken(s);
    back := EndTaken(TrimStart(s));
    assert front + (Trim(s) + back) == front + Trim(s) + back;
  }

  /** ... and so it finds what stands between the white space. */
  lemma {:induction false} TrimIsInner(front: string, value: string, back: string)
    requires AllSpace(front) && AllSpace(back) && IsTrimmed(value)
    ensures Trim(front + value + back) == value
  {
    if front != "" {
      assert (front + value + back)[1..] == front[1..] + value + back;
      TrimIsInner(front[1..], value, back);
    } else if back != "" {
      var c, fewer := back[|back| - 1], back[..|back| - 1];
      assert front + value + back == front + value + fewer + [c];
      TrimDropsTrailing(front + value + fewer, c);
      TrimIsInner(front, value, fewer);
    } else {
      assert front + value + back == value;
      TrimFixesTrimmed(value);
    }
  }

  lemma {:induction false} StartTaken(s: string) returns (front: string)
    ensures s == front + TrimStart(s) && AllSpace(front)
  {
    front := "";
    if s != "" && IsSpace(s[0]) {
      var rest := StartTaken(s[1..]);
      front := [s[0]] + rest;
      assert s == [s[0]] + s[1..];
    }
  }

  lemma {:induction false} EndTaken(s: string) returns (back: string)
    ensures s == TrimEnd(s) + back && AllSpace(back)
  {
    back := "";
    if s != "" && IsSpace(s[|s| - 1]) {
      var rest := EndTaken(s[..|s| - 1]);
      back := rest + [s[|s| - 1]];
      assert s == s[..|s| - 1] + [s[|s| - 1]];
      assert TrimEnd(s) + rest + [s[|s| - 1]] == TrimEnd(s) + back;
    }
  }

  lemma {:induction false} TrimFixesTrimmed(s: string)
    requires IsTrimmed(s)
    ensures Trim(s) == s
  {}

  /** Trailing white space does not survive trimming. */
  lemma {:induction false} TrimDropsTrailing(s: string, c: char)
    requires IsSpace(c)
    ensures Trim(s + [c]) == Trim(s)
  {
    if s != [] && IsSpace(s[0]) {
      assert (s + [c])[1..] == s[1..] + [c];
      TrimDropsTrailing(s[1..], c);
    } else if s == [] {
      assert [] + [c] == [c] && [c][1..] == [];
      assert TrimStart([c]) == TrimStart([]) == [];
    } else {
      assert (s + [c])[..|s + [c]| - 1] == s;
    }
  }

  /** Position of the first `c`, or the length when there is none. */
  function IndexOf(s: string, c: char): (i: nat)
    ensures i <= |s|
    ensures c !in s[..i]
    ensures i < |s| ==> s[i] == c
  {
    if s == [] || s[0] == c then 0
    else
      var j := IndexOf(s[1..], c);
      assert s[..1 + j] == [s[0]] + s[1..][..j];
      1 + j
  }

  lemma {:induction false} IndexOfFirst(a: string, c: char, b: string)
    requires c !in a
    ensures IndexOf(a + [c] + b, c) == |a|
    ensures IndexOf(a, c) == |a|
  {
    if a == [] {
      assert ([] + [c] + b)[0] == c;
    } else {
      assert c !in a[1..];
      IndexOfFirst(a[1..], c, b);
      assert (a + [c] + b)[1..] == a[1..] + [c] + b;
    }
  }

  /** A text is what stands before a separator, the separator, and the rest. */
  lemma {:induction false} SplitAtIndex(s: string, c: char)
    requires IndexOf(s, c) < |s|
    ensures s == s[..IndexOf(s, c)] + [c] + s[IndexOf(s, c) + 1..]
  {}

  // ---- alphabets ----

  /** White space and line terminators of ECMA-262, sections 12.2 and 12.3. */
  const SPACES := "\t\n\U{B}\U{C}\r \U{A0}\U{1680}\U{2028}\U{2029}\U{202F}\U{205F}\U{3000}\U{FEFF}"
  const WIDE_SPACES :=
    "\U{2000}\U{2001}\U{2002}\U{2003}\U{2004}\U{2005}\U{2006}\U{2007}\U{2008}\U{2009}\U{200A}"

  lemma {:induction false} SpacesAre(c: char)
    ensures IsSpace(c) <==> c in SPACES || c in WIDE_SPACES
  {
    var s := SPACES;
    assert s[0] == '\t' && s[1] == '\n' && s[2] == '\U{B}' && s[3] == '\U{C}' && s[4] == '\r' && s[5] == ' ';
    assert s[6] == '\U{A0}' && s[7] == '\U{1680}' && s[8] == '\U{2028}' && s[9] == '\U{2029}';
    assert s[10] == '\U{202F}' && s[11] == '\U{205F}' && s[12] == '\U{3000}' && s[13] == '\U{FEFF}';
    WideSpacesAre(c);
  }

  lemma {:induction false} WideSpacesAre(c: char)
    ensures c in WIDE_SPACES <==> 0x2000 <= c as int <= 0x200A
  {
    var s := WIDE_SPACES;
    assert forall i :: 0 <= i < 11 ==> s[i] == (0x2000 + i) as char;
    if 0x2000 <= c as int <= 0x200A { assert s[c as int - 0x2000] == c; }
  }

  const UPPER := "ABCDEFGHIJKLMNOPQRSTUVWXYZ"
  const LOWER := "abcdefghijklmnopqrstuvwxyz"
  const DIGITS := "0123456789"

  lemma {:induction false} UpperAre(c: char)
    ensures 'A' <= c <= 'Z' <==> c in UPPER
  {
    assert forall i :: 0 <= i < 26 ==> UPPER[i] == ('A' as int + i) as char;
    if 'A' <= c <= 'Z' { assert UPPER[c as int - 'A' as int] == c; }
  }

  lemma {:induction false} LowerAre(c: char)
    ensures 'a' <= c <= 'z' <==> c in LOWER
  {
    assert forall i :: 0 <= i < 26 ==> LOWER[i] == ('a' as int + i) as char;
    if 'a' <= c <= 'z' { assert LOWER[c as int - 'a' as int] == c; }
  }

  lemma {:induction false} DigitsAre(c: char)
    ensures '0' <= c <= '9' <==> c in DIGITS
  {
    assert forall i :: 0 <= i < 10 ==> DIGITS[i] == ('0' as int + i) as char;
    if '0' <= c <= '9' { assert DIGITS[c as int - '0' as int] == c; }
  }
}
