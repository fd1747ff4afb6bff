/**
 Python string primitives the bot relies on: `str.isspace`, `str.strip()`,
 `str.lower()` and `str.endswith`.
 */
module Strings {

  /** Python's `str.isspace()` for one character: the code points Python
      treats as whitespace (bidirectional class WS, B or S, or category Zs). */
  predicate IsSpace(c: char) {
    || ('\t' <= c <= '\r')
    || ('\U{1C}' <= c <= '\U{1F}')
    || c == ' '
    || c == '\U{85}'
    || c == '\U{A0}'
    || c == '\U{1680}'
    || ('\U{2000}' <= c <= '\U{200A}')
    || c == '\U{2028}'
    || c == '\U{2029}'
    || c == '\U{202F}'
    || c == '\U{205F}'
    || c == '\U{3000}'
  }

  predicate AllSpace(s: string) {
    forall i :: 0 <= i < |s| ==> IsSpace(s[i])
  }

  /** Neither end of `s` is whitespace. */
  predicate Trimmed(s: string) {
    s == [] || (!IsSpace(s[0]) && !IsSpace(s[|s| - 1]))
  }

  /** The number of whitespace characters `s` starts with. */
  function LeadingSpace(s: string): (n: nat)
    ensures n <= |s|
    ensures AllSpace(s[..n])
    ensures n < |s| ==> !IsSpace(s[n])
  {
    if s == [] || !IsSpace(s[0]) then 0
    else
      var m := LeadingSpace(s[1..]);
      assert s[..1 + m] == [s[0]] + s[1..][..m];
      1 + m
  }

  /** The number of whitespace characters `s` ends with. */
  function TrailingSpace(s: string): (n: nat)
    ensures n <= |s|
    ensures AllSpace(s[|s| - n..])
    ensures n < |s| ==> !IsSpace(s[|s| - n - 1])
  {
    if s == [] || !IsSpace(s[|s| - 1]) then 0
    else
      var init := s[..|s| - 1];
      var m := TrailingSpace(init);
      assert s[|s| - (1 + m)..] == init[|init| - m..] + [s[|s| - 1]];
      1 + m
  }

  /** Python's `str.strip()` with no argument: `s` without its leading and
      trailing whitespace. The result is the infix of `s` that starts at the
      first non-space character and ends at the last one. */
  function Strip(s: string): (r: string)
    ensures Trimmed(r)
    ensures LeadingSpace(s) + |r| <= |s|
    ensures r == s[LeadingSpace(s)..LeadingSpace(s) + |r|]
    ensures AllSpace(s[..LeadingSpace(s)])
    ensures AllSpace(s[LeadingSpace(s) + |r|..])
  {
    var i := LeadingSpace(s);
    var rest := s[i..];
    var r := TrimEnd(rest);
    assert rest[..|r|] == s[i..i + |r|];
    assert s[i + |r|..] == rest[|r|..];
    if r != [] then
      assert r[0] == rest[0] == s[i];
      r
    else
      r
  }

  /** `str.rstrip()`: `u` without its trailing whitespace, a prefix of `u`
      followed in `u` only by whitespace. */
  function TrimEnd(u: string): (r: string)
    ensures |r| <= |u| && r == u[..|r|]
    ensures AllSpace(u[|r|..])
    ensures r == [] || !IsSpace(r[|r| - 1])
  {
    u[..|u| - TrailingSpace(u)]
  }

  /** Stripping is idempotent. */
  lemma StripIdempotent(s: string)
    ensures Strip(Strip(s)) == Strip(s)
  {
    StripTrimmed(Strip(s));
  }

  /** A string with no whitespace at its ends is left alone by `strip`. */
  lemma StripTrimmed(s: string)
    requires Trimmed(s)
    ensures Strip(s) == s
  {
    if s != [] {
      assert LeadingSpace(s) == 0;
      assert s[0..] == s;
      assert TrailingSpace(s) == 0;
    }
  }

  /** `strip` yields the empty string exactly for all-whitespace input. */
  lemma StripEmptyIff(s: string)
    ensures Strip(s) == [] <==> AllSpace(s)
  {
    if Strip(s) == [] {
      assert s == s[..LeadingSpace(s)] + s[LeadingSpace(s)..];
    }
    if AllSpace(s) {
      assert LeadingSpace(s) == |s|;
    }
  }

  /** Whitespace appended to a string does not survive `strip`. */
  lemma StripIgnoresTrailingSpace(s: string, w: string)
    requires AllSpace(w)
    ensures Strip(s + w) == Strip(s)
  {
    if AllSpace(s) {
      assert AllSpace(s + w);
      StripEmptyIff(s);
      StripEmptyIff(s + w);
    } else {
      StripIgnoresTrailingSpaceAfterText(s, w);
    }
  }

  lemma StripIgnoresTrailingSpaceAfterText(s: string, w: string)
    requires AllSpace(w) && !AllSpace(s)
    ensures Strip(s + w) == Strip(s)
  {
    var i := LeadingSpace(s);
    LeadingSpaceExtends(s, w);
    var u := s[i..];
    assert (s + w)[i..] == u + w;
    assert !IsSpace(u[0]);
    TrimEndIgnoresTrailingSpace(u, w);
  }

  lemma TrimEndIgnoresTrailingSpace(u: string, w: string)
    requires AllSpace(w)
    requires u != [] && !IsSpace(u[0])
    ensures TrimEnd(u + w) == TrimEnd(u)
  {
    TrailingSpaceExtends(u, w);
    assert (u + w)[..|u| - TrailingSpace(u)] == u[..|u| - TrailingSpace(u)];
  }

  /** Whitespace appended to a string that is not all whitespace leaves the
      count of its leading whitespace unchanged. */
  lemma {:induction false} LeadingSpaceExtends(s: string, w: string)
    requires !AllSpace(s)
    ensures LeadingSpace(s + w) == LeadingSpace(s)
  {
    var t := s + w;
    assert t[0] == s[0];
    if IsSpace(s[0]) {
      assert t[1..] == s[1..] + w;
      assert !AllSpace(s[1..]) by {
        var k :| 0 <= k < |s| && !IsSpace(s[k]);
        assert s[1..][k - 1] == s[k];
      }
      LeadingSpaceExtends(s[1..], w);
    }
  }

  /** Appending whitespace to a string that starts with a non-space character adds
      exactly that much trailing whitespace. */
  lemma {:induction false} TrailingSpaceExtends(u: string, w: string)
    requires AllSpace(w)
    requires u != [] && !IsSpace(u[0])
    ensures TrailingSpace(u + w) == TrailingSpace(u) + |w|
  {
    if w == [] {
      assert u + w == u;
    } else {
      var w' := w[..|w| - 1];
      assert (u + w)[..|u + w| - 1] == u + w';
      TrailingSpaceExtends(u, w');
    }
  }

  /** `str.lower()` on one character, restricted to the ASCII letters. */
  function LowerChar(c: char): char {
    if 'A' <= c <= 'Z' then (c as int - 'A' as int + 'a' as int) as char else c
  }

  /** `str.lower()`, character by character. */
  function Lower(s: string): (r: string)
    ensures |r| == |s|
    ensures forall i :: 0 <= i < |s| ==> r[i] == LowerChar(s[i])
  {
    seq(|s|, i requires 0 <= i < |s| => LowerChar(s[i]))
  }

  predicate IsCapital(c: char) {
    'A' <= c <= 'Z'
  }

  /** Lower-casing leaves no capital behind and touches nothing else. */
  lemma LowerRemovesCapitals(s: string)
    ensures forall i :: 0 <= i < |s| ==> !IsCapital(Lower(s)[i])
    ensures forall i :: 0 <= i < |s| && !IsCapital(s[i]) ==> Lower(s)[i] == s[i]
  {
  }

  /** Lower-casing twice is lower-casing once. */
  lemma LowerIdempotent(s: string)
    ensures Lower(Lower(s)) == Lower(s)
  {
    LowerRemovesCapitals(s);
    LowerRemovesCapitals(Lower(s));
  }

  /** Lower-casing works piecewise: the lower-cased concatenation is the
      concatenation of the lower-cased parts. */
  lemma LowerConcat(a: string, b: string)
    ensures Lower(a + b) == Lower(a) + Lower(b)
  {
    var l, r := Lower(a + b), Lower(a) + Lower(b);
    forall i | 0 <= i < |l| ensures l[i] == r[i] {
      if i < |a| {
        assert (a + b)[i] == a[i];
      } else {
        assert (a + b)[i] == b[i - |a|];
      }
    }
  }

  /** The lower-cased suffix of a string is the suffix of the lower-cased
      string. */
  lemma LowerSuffix(s: string, i: nat)
    requires i <= |s|
    ensures Lower(s)[i..] == Lower(s[i..])
  {
    assert s == s[..i] + s[i..];
    LowerConcat(s[..i], s[i..]);
  }

  /** Python's `s.endswith(suffix)`. */
  predicate EndsWith(s: string, suffix: string) {
    |suffix| <= |s| && s[|s| - |suffix|..] == suffix
  }
}
