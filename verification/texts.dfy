// Separators in a text, and the blanks that `str.strip` drops at its ends.

module Texts {

  predicate NoSlash(s: string) {
    forall k | 0 <= k < |s| :: s[k] != '/'
  }

  predicate Lacks(s: string, c: char) {
    forall k | 0 <= k < |s| :: s[k] != c
  }

  // A text is cut in one way at its first separator.
  lemma CutAtFirst(c: char, a: string, x: string, b: string, y: string)
    requires Lacks(a, c) && Lacks(b, c) && a + [c] + x == b + [c] + y
    ensures a == b && x == y
  {
    var s, t := a + [c] + x, b + [c] + y;
    assert s[|a|] == c && t[|b|] == c;
    assert |a| == |b|;
    assert a == s[..|a|] && x == s[|a| + 1..];
    assert b == t[..|b|] && y == t[|b| + 1..];
  }

  // And in one way at its last one.
  lemma CutAtLast(c: char, a: string, x: string, b: string, y: string)
    requires Lacks(x, c) && Lacks(y, c) && a + [c] + x == b + [c] + y
    ensures a == b && x == y
  {
    var s, t := a + [c] + x, b + [c] + y;
    assert s[|a|] == c && t[|b|] == c;
    NoneAfter(c, a, x);
    NoneAfter(c, b, y);
    assert |a| == |b|;
    assert a == s[..|a|] && x == s[|a| + 1..];
    assert b == t[..|b|] && y == t[|b| + 1..];
  }

  lemma NoneAfter(c: char, a: string, x: string)
    requires Lacks(x, c)
    ensures forall k | |a| < k < |a + [c] + x| :: (a + [c] + x)[k] != c
  {
    assert forall k | |a| < k < |a + [c] + x| :: (a + [c] + x)[k] == x[k - |a| - 1];
  }

  predicate IsSpace(c: char) {
    c == ' ' || c == '\t' || c == '\n' || c == '\r' || c as int == 11 || c as int == 12 || 28 <= c as int <= 31
  }

  function StripLeft(s: string): (r: string)
    ensures |r| <= |s|
    ensures r == [] <==> forall k | 0 <= k < |s| :: IsSpace(s[k])
  {
    if s != [] && IsSpace(s[0]) then StripLeft(s[1..]) else s
  }

  function StripRight(s: string): (r: string)
    ensures |r| <= |s|
    ensures r == [] <==> forall k | 0 <= k < |s| :: IsSpace(s[k])
    ensures r <= s
  {
    if s != [] && IsSpace(s[|s| - 1]) then StripRight(s[..|s| - 1]) else s
  }

  function Strip(s: string): string {
    StripRight(StripLeft(s))
  }

  lemma StripTwice(s: string)
    ensures Strip(Strip(s)) == Strip(s) && |Strip(s)| <= |s|
  {
    StripLeftFront(s);
    StripRightEnd(StripLeft(s));
    var r := Strip(s);
    if r != [] {
      assert r[0] == StripLeft(s)[0];
    }
  }

  lemma {:induction false} StripLeftFront(s: string)
    ensures StripLeft(s) != [] ==> !IsSpace(StripLeft(s)[0])
  {
    if s != [] && IsSpace(s[0]) {
      StripLeftFront(s[1..]);
    }
  }

  lemma {:induction false} StripRightEnd(s: string)
    ensures StripRight(s) != [] ==> !IsSpace(StripRight(s)[|StripRight(s)| - 1])
  {
    if s != [] && IsSpace(s[|s| - 1]) {
      StripRightEnd(s[..|s| - 1]);
    }
  }
}
