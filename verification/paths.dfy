/**
 The POSIX flavour of Python's `os.path` operations the bot uses to name and
 classify an uploaded file: `join` and `splitext`, together with the final
 path component (`Basename`) that `splitext` works on.
 */
module Paths {
  import opened Strings

  const Sep: char := '/'
  const ExtSep: char := '.'

  /** `s.rfind(c)` for one character: the last index holding `c`, or -1. */
  function RFind(s: string, c: char): (r: int)
    ensures -1 <= r < |s|
    ensures r >= 0 ==> s[r] == c
    ensures forall k :: r < k < |s| ==> s[k] != c
  {
    if s == [] then -1
    else if s[|s| - 1] == c then |s| - 1
    else RFind(s[..|s| - 1], c)
  }

  /** No character of `s` is `c`. */
  predicate Lacks(s: string, c: char) {
    forall k :: 0 <= k < |s| ==> s[k] != c
  }

  /** `os.path.basename`: the final path component, after the last separator. */
  function Basename(p: string): (b: string)
    ensures Lacks(b, Sep)
  {
    var r := RFind(p, Sep);
    var b := p[r + 1..];
    forall k | 0 <= k < |b| ensures b[k] != Sep { assert b[k] == p[r + 1 + k]; }
    b
  }

  /** The final component is the longest suffix of `p` without a separator:
      it ends `p`, and it is either all of `p` or preceded by a separator. */
  lemma BasenameIsFinalComponent(p: string)
    ensures var b := Basename(p);
            && Lacks(b, Sep)
            && |b| <= |p| && b == p[|p| - |b|..]
            && (|b| < |p| ==> p[|p| - |b| - 1] == Sep)
  {
  }

  /** `os.path.join(a, b)` for two components: an absolute `b` replaces `a`,
      and a separator is inserted unless `a` is empty or already ends in one. */
  function Join(a: string, b: string): string
  {
    if |b| > 0 && b[0] == Sep then b
    else if a == [] || a[|a| - 1] == Sep then a + b
    else a + [Sep] + b
  }

  /** The joined path ends with the name. An absolute name is the whole
      result. Otherwise the result starts with the directory, and a
      separator stands between a non-empty directory and the name; it is
      added only when the directory does not already end in one. */
  lemma JoinAppendsName(a: string, b: string)
    ensures var r := Join(a, b);
            && EndsWith(r, b)
            && (|b| > 0 && b[0] == Sep ==> r == b)
            && (!(|b| > 0 && b[0] == Sep) ==>
                  && |r| == |a| + |b| + (if a == [] || a[|a| - 1] == Sep then 0 else 1)
                  && r[..|a|] == a
                  && (a != [] ==> r[|r| - |b| - 1] == Sep))
  {
    var r := Join(a, b);
    if !(|b| > 0 && b[0] == Sep) && a != [] && a[|a| - 1] != Sep {
      assert r == a + [Sep] + b;
      assert r[..|a|] == a;
      assert r[|r| - |b|..] == b;
    }
  }

  predicate AllDots(s: string) {
    forall i :: 0 <= i < |s| ==> s[i] == ExtSep
  }

  /** `e` is what `splitext` calls the extension of the final path component
      `b`: either empty, when every dot of `b` is preceded only by dots (a run
      of leading dots is not a separator), or the suffix of `b` that starts at
      its last dot, provided some character before that dot is not a dot. */
  predicate IsExtensionOf(e: string, b: string) {
    if e == [] then
      forall i, j :: 0 <= i < j < |b| && b[j] == ExtSep ==> b[i] == ExtSep
    else
      && EndsWith(b, e)
      && e[0] == ExtSep
      && Lacks(e[1..], ExtSep)
      && !AllDots(b[..|b| - |e|])
  }

  /** `os.path.splitext(p)`: the pair (root, ext) with `root + ext == p`,
      where `ext` starts at the last dot of the final component, unless every
      character before that dot in the component is itself a dot. */
  function SplitExt(p: string): (parts: (string, string))
    ensures parts.0 + parts.1 == p
  {
    var sepIndex := RFind(p, Sep);
    var dotIndex := RFind(p, ExtSep);
    if dotIndex > sepIndex && HasStemBefore(p, sepIndex + 1, dotIndex) then
      (p[..dotIndex], p[dotIndex..])
    else
      (p, [])
  }

  /** Some character of `p[lo..hi]` is not a dot. */
  predicate HasStemBefore(p: string, lo: nat, hi: nat)
    requires lo <= hi <= |p|
  {
    !AllDots(p[lo..hi])
  }

  /** What `splitext` computes is the extension of the final component in
      the sense of `IsExtensionOf`. */
  lemma SplitExtYieldsExtension(p: string)
    ensures IsExtensionOf(SplitExt(p).1, Basename(p))
  {
    var sepIndex := RFind(p, Sep);
    var dotIndex := RFind(p, ExtSep);
    if dotIndex > sepIndex && HasStemBefore(p, sepIndex + 1, dotIndex) {
      LastDotStartsExtension(p);
    } else {
      LeadingDotsOnlyMeansNoExtension(p);
    }
  }

  lemma LastDotStartsExtension(p: string)
    requires RFind(p, ExtSep) > RFind(p, Sep)
    requires HasStemBefore(p, RFind(p, Sep) + 1, RFind(p, ExtSep))
    ensures IsExtensionOf(p[RFind(p, ExtSep)..], Basename(p))
  {
    var s, d := RFind(p, Sep), RFind(p, ExtSep);
    ComponentTail(p, s, d);
    var b, n := p[s + 1..], |p| - d;
    assert !AllDots(b[..|b| - n]);
    DotTailIsExtension(b, n);
    assert Basename(p) == p[s + 1..];
    assert IsExtensionOf(b[|b| - n..], b);
    assert b[|b| - n..] == p[d..];
    assert b == Basename(p);
  }

  lemma LeadingDotsOnlyMeansNoExtension(p: string)
    requires !(RFind(p, ExtSep) > RFind(p, Sep) && HasStemBefore(p, RFind(p, Sep) + 1, RFind(p, ExtSep)))
    ensures IsExtensionOf([], Basename(p))
  {
    if RFind(p, ExtSep) > RFind(p, Sep) {
      OnlyDotsBeforeLastDot(p);
    } else {
      NoDotInComponent(p);
    }
  }

  lemma OnlyDotsBeforeLastDot(p: string)
    requires RFind(p, ExtSep) > RFind(p, Sep)
    requires !HasStemBefore(p, RFind(p, Sep) + 1, RFind(p, ExtSep))
    ensures IsExtensionOf([], Basename(p))
  {
    var s, d := RFind(p, Sep), RFind(p, ExtSep);
    ComponentTail(p, s, d);
    DotsBeforeTailMeanNoExtension(p[s + 1..], |p| - d);
  }

  lemma NoDotInComponent(p: string)
    requires RFind(p, ExtSep) <= RFind(p, Sep)
    ensures IsExtensionOf([], Basename(p))
  {
    var s := RFind(p, Sep);
    var b := p[s + 1..];
    forall k | 0 <= k < |b| ensures b[k] != ExtSep {
      assert b[k] == p[s + 1 + k];
    }
    NoDotMeansNoExtension(b);
  }

  /** The component after `s` seen from the dot at `d` after it: a dot, then
      no more dots, and the stem `p[s + 1..d]` before it. */
  lemma ComponentTail(p: string, s: int, d: int)
    requires -1 <= s < d < |p|
    requires p[d] == ExtSep
    requires forall k :: d < k < |p| ==> p[k] != ExtSep
    ensures var b, n := p[s + 1..], |p| - d;
            && 1 <= n <= |b|
            && b[|b| - n] == ExtSep
            && (forall k :: |b| - n < k < |b| ==> b[k] != ExtSep)
            && b[..|b| - n] == p[s + 1..d]
            && b[|b| - n..] == p[d..]
  {
    var b, n := p[s + 1..], |p| - d;
    forall k | |b| - n < k < |b| ensures b[k] != ExtSep {
      assert b[k] == p[s + 1 + k];
    }
  }

  /** A dot followed by non-dots ends a component with a stem: that suffix
      is the component's extension. */
  lemma DotTailIsExtension(b: string, n: nat)
    requires 1 <= n <= |b| && b[|b| - n] == ExtSep
    requires forall k :: |b| - n < k < |b| ==> b[k] != ExtSep
    requires !AllDots(b[..|b| - n])
    ensures IsExtensionOf(b[|b| - n..], b)
  {
    var tail := b[|b| - n..];
    forall k | 0 <= k < |tail| - 1 ensures tail[1..][k] != ExtSep {
      assert tail[1..][k] == b[|b| - n + 1 + k];
    }
  }

  /** Only dots before the last dot: the component has no extension. */
  lemma DotsBeforeTailMeanNoExtension(b: string, n: nat)
    requires 1 <= n <= |b| && b[|b| - n] == ExtSep
    requires forall k :: |b| - n < k < |b| ==> b[k] != ExtSep
    requires AllDots(b[..|b| - n])
    ensures IsExtensionOf([], b)
  {
    forall i, j | 0 <= i < j < |b| && b[j] == ExtSep ensures b[i] == ExtSep {
      assert b[..|b| - n][i] == b[i];
    }
  }

  /** The extension of a component ending in a dot and non-dots: that
      ending when a non-dot comes before it, and nothing otherwise. */
  lemma ComponentTailExtension(b: string, n: nat)
    requires Lacks(b, Sep)
    requires 1 <= n <= |b| && b[|b| - n] == ExtSep
    requires forall k :: |b| - n < k < |b| ==> b[k] != ExtSep
    ensures Extension(b) == if !AllDots(b[..|b| - n]) then b[|b| - n..] else []
  {
    if !AllDots(b[..|b| - n]) {
      DotTailIsExtension(b, n);
      ExtensionCharacterized(b[|b| - n..], b);
    } else {
      DotsBeforeTailMeanNoExtension(b, n);
      ExtensionCharacterized([], b);
    }
  }

  /** A component without dots has no extension. */
  lemma NoDotMeansNoExtension(b: string)
    requires Lacks(b, ExtSep)
    ensures IsExtensionOf([], b)
  {
  }

  /** The extension of `p`: the second half of `splitext`. */
  function Extension(p: string): string {
    SplitExt(p).1
  }

  /** A final component has exactly one extension. */
  lemma ExtensionUnique(e1: string, e2: string, b: string)
    requires IsExtensionOf(e1, b) && IsExtensionOf(e2, b)
    ensures e1 == e2
  {
    if e1 != [] && e2 != [] {
      assert forall k :: 1 <= k < |e1| ==> e1[k] != ExtSep by {
        forall k | 1 <= k < |e1| ensures e1[k] != ExtSep { assert e1[k] == e1[1..][k - 1]; }
      }
      assert forall k :: 1 <= k < |e2| ==> e2[k] != ExtSep by {
        forall k | 1 <= k < |e2| ensures e2[k] != ExtSep { assert e2[k] == e2[1..][k - 1]; }
      }
      assert forall k :: 0 <= k < |e1| ==> b[|b| - |e1| + k] == e1[k];
      assert forall k :: 0 <= k < |e2| ==> b[|b| - |e2| + k] == e2[k];
      assert |e1| == |e2|;
      assert e1 == b[|b| - |e1|..];
    } else {
      if e1 != [] { NonEmptyExtensionFollowsStem(e1, b); }
      if e2 != [] { NonEmptyExtensionFollowsStem(e2, b); }
    }
  }

  /** A non-empty extension starts at a dot that has a non-dot before it. */
  lemma NonEmptyExtensionFollowsStem(e: string, b: string)
    requires e != [] && IsExtensionOf(e, b)
    ensures exists i, j :: 0 <= i < j < |b| && b[j] == ExtSep && b[i] != ExtSep
  {
    var pre := b[..|b| - |e|];
    var i :| 0 <= i < |pre| && pre[i] != ExtSep;
    assert b[i] != ExtSep && b[|b| - |e|] == ExtSep;
  }

  /** A string without separators is its own final component. */
  lemma BasenameOfComponent(b: string)
    requires Lacks(b, Sep)
    ensures Basename(b) == b
  {
    assert RFind(b, Sep) == -1;
  }

  /** Within one component, `IsExtensionOf` pins down what `splitext` yields. */
  lemma ExtensionCharacterized(e: string, b: string)
    requires Lacks(b, Sep)
    requires IsExtensionOf(e, b)
    ensures Extension(b) == e
  {
    BasenameOfComponent(b);
    SplitExtYieldsExtension(b);
    ExtensionUnique(e, Extension(b), b);
  }

  /** The extension of a path is decided by its final component alone. */
  lemma ExtensionOfBasename(p: string)
    ensures Extension(p) == Extension(Basename(p))
  {
    SplitExtYieldsExtension(p);
    ExtensionCharacterized(Extension(p), Basename(p));
  }

  /** The last occurrence in a concatenation lies in the right part if it
      has one, and in the left part otherwise. */
  lemma {:induction false} RFindConcat(x: string, y: string, c: char)
    ensures RFind(x + y, c) == if RFind(y, c) >= 0 then |x| + RFind(y, c) else RFind(x, c)
  {
    if y == [] {
      assert x + y == x;
    } else if y[|y| - 1] != c {
      assert (x + y)[..|x + y| - 1] == x + y[..|y| - 1];
      RFindConcat(x, y[..|y| - 1], c);
    }
  }

  /** Joining a file name onto a directory keeps the file name's final
      component. */
  lemma JoinKeepsBasename(dir: string, name: string)
    ensures Basename(Join(dir, name)) == Basename(name)
  {
    if |name| > 0 && name[0] == Sep {
    } else if dir == [] {
      assert Join(dir, name) == name;
    } else if dir[|dir| - 1] == Sep {
      BasenameAfterSep(dir, name);
    } else {
      assert Join(dir, name) == (dir + [Sep]) + name;
      BasenameAfterSep(dir + [Sep], name);
    }
  }

  lemma BasenameAfterSep(x: string, name: string)
    requires |x| > 0 && x[|x| - 1] == Sep
    ensures Basename(x + name) == Basename(name)
  {
    RFindConcat(x, name, Sep);
    var r := RFind(name, Sep);
    if r >= 0 {
      SliceOfConcat(x, name, |x| + r + 1);
    } else {
      SliceOfConcat(x, name, |x|);
    }
  }

  lemma SliceOfConcat(x: string, y: string, i: nat)
    requires |x| <= i <= |x| + |y|
    ensures (x + y)[i..] == y[i - |x|..]
  {
  }

  /** Lower-casing moves neither separators nor dots. */
  lemma {:induction false} RFindLower(p: string, c: char)
    requires c == Sep || c == ExtSep
    ensures RFind(Lower(p), c) == RFind(p, c)
  {
    if p != [] && p[|p| - 1] != c {
      assert Lower(p)[..|p| - 1] == Lower(p[..|p| - 1]);
      RFindLower(p[..|p| - 1], c);
    }
  }

  lemma BasenameOfLower(p: string)
    ensures Basename(Lower(p)) == Lower(Basename(p))
  {
    RFindLower(p, Sep);
    var r := RFind(p, Sep);
    var a, c := Lower(p)[r + 1..], Lower(p[r + 1..]);
    forall i | 0 <= i < |a| ensures a[i] == c[i] {
      assert a[i] == Lower(p)[r + 1 + i];
    }
    assert a == c;
  }

  /** Lower-casing a final component lower-cases its extension. */
  lemma LowerKeepsExtension(e: string, b: string)
    requires IsExtensionOf(e, b)
    ensures IsExtensionOf(Lower(e), Lower(b))
  {
    var lb, le := Lower(b), Lower(e);
    if e == [] {
      forall i, j | 0 <= i < j < |lb| && lb[j] == ExtSep ensures lb[i] == ExtSep {
        assert b[j] == ExtSep;
      }
    } else {
      assert lb[|lb| - |le|..] == Lower(b[|b| - |e|..]);
      assert lb[..|lb| - |le|] == Lower(b[..|b| - |e|]);
      var pre := b[..|b| - |e|];
      var i :| 0 <= i < |pre| && pre[i] != ExtSep;
      assert Lower(pre)[i] != ExtSep;
      forall k | 0 <= k < |le| - 1 ensures le[1..][k] != ExtSep {
        assert e[1..][k] != ExtSep;
      }
    }
  }

  /** `splitext` commutes with lower-casing: the extension of the lower-cased
      path is the lower-cased extension. */
  lemma ExtensionOfLower(p: string)
    ensures Extension(Lower(p)) == Lower(Extension(p))
  {
    BasenameOfLower(p);
    SplitExtYieldsExtension(p);
    SplitExtYieldsExtension(Lower(p));
    LowerKeepsExtension(Extension(p), Basename(p));
    ExtensionUnique(Lower(Extension(p)), Extension(Lower(p)), Basename(Lower(p)));
  }
}
