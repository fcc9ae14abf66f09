/**
 * Python's `str.strip()` with no argument, which Django REST framework's
 * `CharField` applies to every text it accepts.
 */
module PyText {
  /** The characters `str.isspace` accepts. */
  predicate IsPySpace(c: char) {
    ('\t' <= c <= '\r') || ('\U{001C}' <= c <= '\U{001F}') || c == ' ' || c == '\U{0085}'
    || c == '\U{00A0}' || c == '\U{1680}' || ('\U{2000}' <= c <= '\U{200A}')
    || c == '\U{2028}' || c == '\U{2029}' || c == '\U{202F}' || c == '\U{205F}' || c == '\U{3000}'
  }

  function StripStart(s: string): string {
    if s != [] && IsPySpace(s[0]) then StripStart(s[1..]) else s
  }

  function StripEnd(s: string): string {
    if s != [] && IsPySpace(s[|s| - 1]) then StripEnd(s[..|s| - 1]) else s
  }

  /** What `StripStart` leaves is a suffix of its input that does not start with white space. */
  lemma {:induction false} StripStartSuffix(s: string)
    ensures var r := StripStart(s);
            |r| <= |s| && r == s[|s| - |r|..] && (r == [] || !IsPySpace(r[0]))
  {
    if s != [] && IsPySpace(s[0]) {
      StripStartSuffix(s[1..]);
    }
  }

  /** What `StripEnd` leaves is a prefix of its input that does not end with white space. */
  lemma {:induction false} StripEndPrefix(s: string)
    ensures var r := StripEnd(s);
            |r| <= |s| && r == s[..|r|] && (r == [] || !IsPySpace(r[|r| - 1]))
  {
    if s != [] && IsPySpace(s[|s| - 1]) {
      StripEndPrefix(s[..|s| - 1]);
    }
  }

  /** `s.strip()`. */
  function Strip(s: string): string {
    StripEnd(StripStart(s))
  }

  /**
   * Stripping removes white space only, from both ends: what is left is the
   * slice of `s` from `k`, the length of the leading run, and everything
   * around that slice is white space.
   */
  lemma {:induction false} StripRemovesSpaces(s: string)
    ensures var k, r := |s| - |StripStart(s)|, Strip(s);
            && 0 <= k && k + |r| <= |s| && r == s[k..k + |r|]
            && (forall i :: 0 <= i < k ==> IsPySpace(s[i]))
            && (forall i :: k + |r| <= i < |s| ==> IsPySpace(s[i]))
  {
    var t := StripStart(s);
    var k := |s| - |t|;
    StripStartSuffix(s);
    StripEndPrefix(t);
    StripStartRemovesSpaces(s);
    StripEndRemovesSpaces(t);
    var r := StripEnd(t);
    assert r == s[k..k + |r|];
    forall i | k + |r| <= i < |s| ensures IsPySpace(s[i]) {
      assert s[i] == t[i - k];
    }
  }

  lemma {:induction false} StripStartRemovesSpaces(s: string)
    ensures forall i :: 0 <= i < |s| - |StripStart(s)| ==> IsPySpace(s[i])
  {
    if s != [] && IsPySpace(s[0]) {
      StripStartRemovesSpaces(s[1..]);
      StripStartSuffix(s[1..]);
      assert forall i :: 1 <= i < |s| - |StripStart(s)| ==> s[i] == s[1..][i - 1];
    }
  }

  lemma {:induction false} StripEndRemovesSpaces(s: string)
    ensures forall i :: |StripEnd(s)| <= i < |s| ==> IsPySpace(s[i])
  {
    if s != [] && IsPySpace(s[|s| - 1]) {
      StripEndRemovesSpaces(s[..|s| - 1]);
      StripEndPrefix(s[..|s| - 1]);
      assert forall i :: |StripEnd(s)| <= i < |s| - 1 ==> s[i] == s[..|s| - 1][i];
    }
  }

  /** A text that already has no white space at either end is left as it is. */
  lemma StripKeeps(s: string)
    requires s == [] || (!IsPySpace(s[0]) && !IsPySpace(s[|s| - 1]))
    ensures Strip(s) == s
  {
  }

  /** Stripping twice strips nothing more. */
  lemma StripIdempotent(s: string)
    ensures Strip(Strip(s)) == Strip(s)
  {
    var r := Strip(s);
    StripStartSuffix(s);
    StripEndPrefix(StripStart(s));
    if r != [] {
      var t := StripStart(s);
      assert r == t[..|r|];
      assert r[0] == t[0];
    }
    StripKeeps(r);
  }
}
