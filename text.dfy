/**
 * The Python string operations the IRC bot's reply logic relies on:
 * `startswith`, `in`, `strip()`, `replace(pat, '')` and `isalnum()` on one
 * character, written out over `seq<char>`.
 */
module Text {

  /** `s.startswith(p)`. */
  predicate StartsWith(s: string, p: string) {
    |p| <= |s| && s[..|p|] == p
  }

  /** `p` occurs in `s` at index `i`. */
  predicate OccursAt(s: string, p: string, i: int) {
    0 <= i && i + |p| <= |s| && s[i..i + |p|] == p
  }

  /** `p in s`, by scanning the start positions of `s`. */
  predicate Contains(s: string, p: string)
    decreases |s|
  {
    StartsWith(s, p) || (|s| > 0 && Contains(s[1..], p))
  }

  /** The scan finds `p` exactly when it occurs at some index. */
  lemma {:induction false} ContainsIffOccurs(s: string, p: string)
    ensures Contains(s, p) <==> exists i :: OccursAt(s, p, i)
    decreases |s|
  {
    if StartsWith(s, p) {
      assert OccursAt(s, p, 0);
    } else if |s| == 0 {
    } else {
      ContainsIffOccurs(s[1..], p);
      if exists i :: OccursAt(s[1..], p, i) {
        var i :| OccursAt(s[1..], p, i);
        assert s[i + 1..i + 1 + |p|] == s[1..][i..i + |p|];
        assert OccursAt(s, p, i + 1);
      }
      if exists i :: OccursAt(s, p, i) {
        var i :| OccursAt(s, p, i);
        assert i != 0;
        assert s[1..][i - 1..i - 1 + |p|] == s[i..i + |p|];
        assert OccursAt(s[1..], p, i - 1);
      }
    }
  }

  /** A string shorter than the pattern cannot contain it. */
  lemma {:induction false} ShorterNeverContains(s: string, p: string)
    requires |s| < |p|
    ensures !Contains(s, p)
    decreases |s|
  {
    if |s| > 0 {
      ShorterNeverContains(s[1..], p);
    }
  }

  /** `c.isspace()`: the characters Python's `str.isspace` accepts. */
  predicate IsSpace(c: char) {
    ('\t' <= c <= '\r') || ('\U{1c}' <= c <= ' ') || c == '\U{85}' || c == '\U{a0}'
    || c == '\U{1680}' || ('\U{2000}' <= c <= '\U{200a}') || c == '\U{2028}' || c == '\U{2029}'
    || c == '\U{202f}' || c == '\U{205f}' || c == '\U{3000}'
  }

  /** `c.isalnum()` for the characters up to U+00FF: ASCII letters and digits and the Latin-1 letters and numerals. */
  predicate IsAlnum(c: char) {
    ('0' <= c <= '9') || ('A' <= c <= 'Z') || ('a' <= c <= 'z')
    || c == '\U{aa}' || c == '\U{b2}' || c == '\U{b3}' || c == '\U{b5}' || c == '\U{b9}' || c == '\U{ba}'
    || ('\U{bc}' <= c <= '\U{be}') || ('\U{c0}' <= c <= '\U{d6}') || ('\U{d8}' <= c <= '\U{f6}') || ('\U{f8}' <= c <= '\U{ff}')
  }

  predicate AllSpace(s: string) {
    forall k :: 0 <= k < |s| ==> IsSpace(s[k])
  }

  /** `s.lstrip()`: the suffix left after the leading whitespace. */
  function StripStart(s: string): (r: string)
    ensures |r| <= |s| && r == s[|s| - |r|..]
    ensures AllSpace(s[..|s| - |r|])
    ensures r != [] ==> !IsSpace(r[0])
    decreases |s|
  {
    if |s| > 0 && IsSpace(s[0]) then
      var r := StripStart(s[1..]);
      assert s[..|s| - |r|] == [s[0]] + s[1..][..|s| - 1 - |r|];
      AllSpaceCons(s[0], s[1..][..|s| - 1 - |r|]);
      r
    else s
  }

  /** `s.rstrip()`: the prefix left before the trailing whitespace. */
  function StripEnd(s: string): (r: string)
    ensures |r| <= |s| && r == s[..|r|]
    ensures AllSpace(s[|r|..])
    ensures r != [] ==> !IsSpace(r[|r| - 1])
    decreases |s|
  {
    if |s| > 0 && IsSpace(s[|s| - 1]) then
      var r := StripEnd(s[..|s| - 1]);
      assert s[|r|..] == s[..|s| - 1][|r|..] + [s[|s| - 1]];
      AllSpaceSnoc(s[..|s| - 1][|r|..], s[|s| - 1]);
      r
    else s
  }

  lemma AllSpaceCons(c: char, t: string)
    requires IsSpace(c) && AllSpace(t)
    ensures AllSpace([c] + t)
  {
    assert forall k :: 0 < k <= |t| ==> ([c] + t)[k] == t[k - 1];
  }

  lemma AllSpaceSnoc(t: string, c: char)
    requires AllSpace(t) && IsSpace(c)
    ensures AllSpace(t + [c])
  {
    assert forall k :: 0 <= k < |t| ==> (t + [c])[k] == t[k];
  }

  /** `s.strip()`. */
  function Strip(s: string): string {
    StripEnd(StripStart(s))
  }

  /** `s.strip() == '?'` holds exactly when `s` is a question mark with only whitespace around it. */
  lemma StripIsQuestionMark(s: string)
    ensures Strip(s) == "?" <==> exists i :: 0 <= i < |s| && s[i] == '?' && AllSpace(s[..i]) && AllSpace(s[i + 1..])
  {
    if Strip(s) == "?" {
      StripQuestionHasWitness(s);
    }
    if exists i :: 0 <= i < |s| && s[i] == '?' && AllSpace(s[..i]) && AllSpace(s[i + 1..]) {
      var i :| 0 <= i < |s| && s[i] == '?' && AllSpace(s[..i]) && AllSpace(s[i + 1..]);
      QuestionWitnessStrips(s, i);
    }
  }

  /** When the strip is a question mark, the whitespace stripped from the front ends at it. */
  lemma StripQuestionHasWitness(s: string)
    requires Strip(s) == "?"
    ensures var i := |s| - |StripStart(s)|; 0 <= i < |s| && s[i] == '?' && AllSpace(s[..i]) && AllSpace(s[i + 1..])
  {
    var t := StripStart(s);
    var i := |s| - |t|;
    var u := StripEnd(t);
    assert u == t[..1];
    assert t[0] == '?';
    assert s[i + 1..] == t[1..];
  }

  /** A question mark with only whitespace around it strips to itself. */
  lemma QuestionWitnessStrips(s: string, i: nat)
    requires i < |s| && s[i] == '?' && AllSpace(s[..i]) && AllSpace(s[i + 1..])
    ensures Strip(s) == "?"
  {
    StripStartSkipsSpace(s, i);
    var t := s[i..];
    assert t[1..] == s[i + 1..];
    StripEndSkipsSpace(t, 1);
    assert t[..1] == "?";
  }

  /** Stripping the front stops exactly at the first non-space character. */
  lemma {:induction false} StripStartSkipsSpace(s: string, i: nat)
    requires i < |s| && !IsSpace(s[i]) && AllSpace(s[..i])
    ensures StripStart(s) == s[i..]
    decreases i
  {
    if i > 0 {
      assert IsSpace(s[..i][0]);
      assert s[1..][..i - 1] == s[1..i];
      assert forall k :: 0 <= k < i - 1 ==> s[1..i][k] == s[..i][k + 1];
      StripStartSkipsSpace(s[1..], i - 1);
      assert s[1..][i - 1..] == s[i..];
    }
  }

  /** Stripping the back stops exactly after the last non-space character. */
  lemma {:induction false} StripEndSkipsSpace(s: string, n: nat)
    requires 0 < n <= |s| && !IsSpace(s[n - 1]) && AllSpace(s[n..])
    ensures StripEnd(s) == s[..n]
    decreases |s| - n
  {
    if n < |s| {
      assert IsSpace(s[n..][|s| - 1 - n]);
      var s' := s[..|s| - 1];
      assert s'[n..] == s[n..|s| - 1];
      assert forall k :: 0 <= k < |s| - 1 - n ==> s'[n..][k] == s[n..][k];
      StripEndSkipsSpace(s', n);
      assert s'[..n] == s[..n];
    }
  }

  /** `s.replace(pat, '')`: removes every occurrence of `pat`, scanning left to right without overlaps. */
  function RemoveAll(s: string, pat: string): (r: string)
    ensures |r| <= |s|
    ensures pat == [] ==> r == s
    decreases |s|
  {
    if pat == [] || |s| < |pat| then s
    else if s[..|pat|] == pat then RemoveAll(s[|pat|..], pat)
    else [s[0]] + RemoveAll(s[1..], pat)
  }

  /** A string that does not contain the pattern is left as it is. */
  lemma {:induction false} RemoveAllAbsent(s: string, pat: string)
    requires !Contains(s, pat)
    ensures RemoveAll(s, pat) == s
    decreases |s|
  {
    if pat != [] && |s| >= |pat| {
      assert s[..|pat|] != pat;
      RemoveAllAbsent(s[1..], pat);
      assert s == [s[0]] + s[1..];
    }
  }

  /** Removing a leading pattern and then the rest. */
  lemma RemoveAllPrefix(p: string, rest: string)
    requires p != [] && !Contains(rest, p)
    ensures RemoveAll(p + rest, p) == rest
  {
    assert (p + rest)[..|p|] == p;
    assert (p + rest)[|p|..] == rest;
    RemoveAllAbsent(rest, p);
  }
}
