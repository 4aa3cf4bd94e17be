/** The few pieces of Python's `str` that the query REPL relies on:
    `strip()` with no argument, `lower()`, `startswith` and `endswith`.
    Strings are sequences of Unicode scalar values, as in Python 3. */
module PyStr {

  /** Python's `str.isspace()` for one character: exactly the characters that
      `str.strip()` with no argument removes. */
  predicate IsSpace(c: char) {
    ('\t' <= c <= '\r') || ('\U{1C}' <= c <= ' ') || c == '\U{85}' || c == '\U{A0}'
    || c == '\U{1680}' || ('\U{2000}' <= c <= '\U{200A}') || c == '\U{2028}' || c == '\U{2029}'
    || c == '\U{202F}' || c == '\U{205F}' || c == '\U{3000}'
  }

  predicate AllSpace(s: string) {
    forall i :: 0 <= i < |s| ==> IsSpace(s[i])
  }

  /** A string that `strip()` leaves alone: empty, or with a non-space
      character at each end. */
  predicate Stripped(s: string) {
    s == [] || (!IsSpace(s[0]) && !IsSpace(s[|s| - 1]))
  }

  /** `str.lstrip()`: drops the leading whitespace and keeps the rest. */
  function TrimStart(s: string): (r: string)
    ensures |r| <= |s|
    ensures r == [] || !IsSpace(r[0])
  {
    if s != [] && IsSpace(s[0]) then TrimStart(s[1..]) else s
  }

  /** `str.rstrip()`: drops the trailing whitespace and keeps the rest. */
  function TrimEnd(s: string): (r: string)
    ensures |r| <= |s|
    ensures r == [] || !IsSpace(r[|r| - 1])
  {
    if s != [] && IsSpace(s[|s| - 1]) then TrimEnd(s[..|s| - 1]) else s
  }

  /** `str.strip()` with no argument. */
  function Strip(s: string): (r: string)
    ensures |r| <= |s|
    ensures Stripped(r)
  {
    var t := TrimStart(s);
    TrimEndSpec(t);
    assert TrimEnd(t) != [] ==> TrimEnd(t)[0] == t[0];
    TrimEnd(t)
  }

  /** `lstrip()` keeps the suffix that starts at the first non-space
      character. */
  lemma {:induction false} TrimStartSpec(s: string)
    ensures TrimStart(s) == s[|s| - |TrimStart(s)|..]
    ensures AllSpace(s[..|s| - |TrimStart(s)|])
  {
    if s != [] && IsSpace(s[0]) {
      TrimStartSpec(s[1..]);
      var k := |s| - |TrimStart(s)|;
      assert s[..k] == [s[0]] + s[1..][..k - 1];
    }
  }

  /** `rstrip()` keeps the prefix that ends at the last non-space
      character. */
  lemma {:induction false} TrimEndSpec(s: string)
    ensures TrimEnd(s) == s[..|TrimEnd(s)|]
    ensures AllSpace(s[|TrimEnd(s)|..])
  {
    if s != [] && IsSpace(s[|s| - 1]) {
      var init := s[..|s| - 1];
      TrimEndSpec(init);
      var k := |TrimEnd(s)|;
      assert s[k..] == init[k..] + [s[|s| - 1]];
    }
  }

  /** `str.lower()` on ASCII letters; every other character is kept. */
  function LowerChar(c: char): char {
    if 'A' <= c <= 'Z' then (c as int + 32) as char else c
  }

  function Lower(s: string): (r: string)
    ensures |r| == |s|
    ensures forall i :: 0 <= i < |s| ==> r[i] == LowerChar(s[i])
    ensures NoUpper(r)
  {
    seq(|s|, i requires 0 <= i < |s| => LowerChar(s[i]))
  }

  /** No ASCII upper-case letter occurs in `s`. */
  predicate NoUpper(s: string) {
    forall i :: 0 <= i < |s| ==> !('A' <= s[i] <= 'Z')
  }

  /** `lower()` leaves a string alone exactly when it has no upper-case
      letter; in particular lower-casing twice is lower-casing once. */
  lemma LowerFixed(s: string)
    ensures Lower(s) == s <==> NoUpper(s)
    ensures Lower(Lower(s)) == Lower(s)
  {
    if NoUpper(s) {
      assert forall i :: 0 <= i < |s| ==> Lower(s)[i] == s[i];
    }
    var l := Lower(s);
    assert forall i :: 0 <= i < |l| ==> Lower(l)[i] == l[i];
  }

  /** `s.startswith(p)`. */
  predicate HasPrefix(s: string, p: string) {
    |p| <= |s| && s[..|p|] == p
  }

  /** `s.endswith(p)`. */
  predicate HasSuffix(s: string, p: string) {
    |p| <= |s| && s[|s| - |p|..] == p
  }

  /** Whitespace in front of a string is invisible to `lstrip()`. */
  lemma {:induction false} TrimStartSkips(w: string, y: string)
    requires AllSpace(w)
    ensures TrimStart(w + y) == TrimStart(y)
  {
    if w != [] {
      var s := w + y;
      assert s[0] == w[0] && s[1..] == w[1..] + y;
      TrimStartSkips(w[1..], y);
    } else {
      assert w + y == y;
    }
  }

  /** Whitespace behind a string is invisible to `rstrip()`. */
  lemma {:induction false} TrimEndSkips(y: string, w: string)
    requires AllSpace(w)
    ensures TrimEnd(y + w) == TrimEnd(y)
  {
    if w != [] {
      var init := w[..|w| - 1];
      var s := y + w;
      assert s[|s| - 1] == w[|w| - 1] && s[..|s| - 1] == y + init;
      TrimEndSkips(y, init);
    } else {
      assert y + w == y;
    }
  }

  lemma AllSpaceAppend(a: string, b: string)
    requires AllSpace(a) && AllSpace(b)
    ensures AllSpace(a + b)
  {
    forall i | 0 <= i < |a + b| ensures IsSpace((a + b)[i]) {
      if i < |a| { assert (a + b)[i] == a[i]; } else { assert (a + b)[i] == b[i - |a|]; }
    }
  }

  /** `strip()` is determined by the decomposition into leading whitespace, a
      stripped core and trailing whitespace. */
  lemma StripUnique(w1: string, x: string, w2: string)
    requires AllSpace(w1) && AllSpace(w2) && Stripped(x)
    ensures Strip(w1 + x + w2) == x
  {
    assert w1 + x + w2 == w1 + (x + w2);
    TrimStartSkips(w1, x + w2);
    if x == [] {
      assert x + w2 == w2;
      assert TrimStart(w2) == [] by {
        TrimStartSkips(w2, []);
        assert w2 + [] == w2;
      }
    } else {
      assert TrimStart(x + w2) == x + w2;
      TrimEndSkips(x, w2);
    }
  }

  /** Every string is leading whitespace, then its stripped form, then
      trailing whitespace. */
  lemma StripSplit(s: string) returns (w1: string, w2: string)
    ensures AllSpace(w1) && AllSpace(w2) && Stripped(Strip(s))
    ensures s == w1 + Strip(s) + w2
  {
    var t := TrimStart(s);
    var r := TrimEnd(t);
    TrimStartSpec(s);
    TrimEndSpec(t);
    w1, w2 := s[..|s| - |t|], t[|r|..];
  }

  lemma StripIdempotent(s: string)
    ensures Strip(Strip(s)) == Strip(s)
  {
    var x := Strip(s);
    StripUnique([], x, []);
    assert [] + x + [] == x;
  }

  /** Surrounding a line with whitespace does not change what `strip()` gives. */
  lemma StripAbsorbs(w1: string, s: string, w2: string)
    requires AllSpace(w1) && AllSpace(w2)
    ensures Strip(w1 + s + w2) == Strip(s)
  {
    var u1, u2 := StripSplit(s);
    var x := Strip(s);
    calc {
      w1 + s + w2;
      w1 + (u1 + x + u2) + w2;
      (w1 + u1) + x + (u2 + w2);
    }
    AllSpaceAppend(w1, u1);
    AllSpaceAppend(u2, w2);
    StripUnique(w1 + u1, x, u2 + w2);
  }

  /** `strip()` yields the empty string exactly for all-whitespace input. */
  lemma StripEmptyIff(s: string)
    ensures Strip(s) == [] <==> AllSpace(s)
  {
    var w1, w2 := StripSplit(s);
    if Strip(s) == [] {
      assert s == w1 + w2;
      assert forall i :: 0 <= i < |s| ==> IsSpace(s[i]) by {
        forall i | 0 <= i < |s| ensures IsSpace(s[i]) {
          if i < |w1| { assert s[i] == w1[i]; } else { assert s[i] == w2[i - |w1|]; }
        }
      }
    } else {
      var x := Strip(s);
      assert s[|w1|] == x[0];
    }
  }

  lemma LowerAppend(a: string, b: string)
    ensures Lower(a + b) == Lower(a) + Lower(b)
  {
    assert forall i :: 0 <= i < |a + b| ==> Lower(a + b)[i] == (Lower(a) + Lower(b))[i];
  }

  /** Lower-casing changes no character into or out of whitespace, so it
      commutes with `strip()`. */
  lemma LowerStripCommute(s: string)
    ensures Lower(Strip(s)) == Strip(Lower(s))
  {
    var w1, w2 := StripSplit(s);
    var x := Strip(s);
    LowerAppend(w1 + x, w2);
    LowerAppend(w1, x);
    assert Lower(s) == Lower(w1) + Lower(x) + Lower(w2);
    StripUnique(Lower(w1), Lower(x), Lower(w2));
  }

  lemma AppendHasSuffix(s: string, p: string)
    ensures HasSuffix(s + p, p)
  {
    assert (s + p)[|s + p| - |p|..] == p;
  }
}
