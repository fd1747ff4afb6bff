/**
 How the document handler's allow-list (a suffix test on the lower-cased file
 name) relates to the parser's routing (the lower-cased `splitext` extension
 of the joined path). They agree except on names whose final component has
 nothing but dots before the suffix, such as ".pdf": `splitext` gives such a
 name no extension, so the parser raises after the handler has already
 acknowledged the file.
 */
module AllowList {
  import opened Wrappers
  import opened Strings
  import opened Paths
  import opened Parser
  import opened TtlStore
  import opened Bot
  import BotProperties

  /** The suffix an allowed name was accepted for. */
  function AllowedSuffix(name: string): string {
    if EndsWith(Lower(name), ".pdf") then ".pdf" else ".docx"
  }

  /** The final component of `name` has a character other than a dot before
      the accepted suffix. */
  predicate HasStem(name: string) {
    StemBefore(name, |AllowedSuffix(name)|)
  }

  /** The final component of `name` is at least `n` long and has a
      character other than a dot before its last `n`. */
  predicate StemBefore(name: string, n: nat) {
    var b := Basename(name);
    n <= |b| && HasStemBefore(b, 0, |b| - n)
  }

  /** The allow-list looks only at the end of the name: a name is allowed
      exactly when its last four characters lower-case to ".pdf" or its last
      five to ".docx". */
  lemma AllowedByTail(name: string)
    ensures Allowed(name) <==>
              || (|name| >= 4 && Lower(name[|name| - 4..]) == ".pdf")
              || (|name| >= 5 && Lower(name[|name| - 5..]) == ".docx")
  {
    if |name| >= 4 {
      LowerSuffix(name, |name| - 4);
    }
    if |name| >= 5 {
      LowerSuffix(name, |name| - 5);
    }
  }

  /** The last characters of an allowed name lower-case to the accepted
      suffix. */
  lemma AllowedTailLowers(name: string)
    requires Allowed(name)
    ensures var n := |AllowedSuffix(name)|;
            && 1 <= n <= |name|
            && name[|name| - n] == ExtSep
            && (forall k :: |name| - n < k < |name| ==> name[k] != ExtSep && name[k] != Sep)
            && Lower(name[|name| - n..]) == AllowedSuffix(name)
  {
    var s := AllowedSuffix(name);
    LowerTail(name, s);
    SuffixShape(s);
  }

  /** Both accepted suffixes are a dot followed by lower-case letters. */
  lemma SuffixShape(s: string)
    requires s == ".pdf" || s == ".docx"
    ensures s[0] == ExtSep
    ensures forall i :: 1 <= i < |s| ==> 'a' <= s[i] <= 'z'
  {
  }

  /** Where the lower-cased name ends with `s`, the name's own characters
      lower-case to those of `s`; a dot stays a dot, and a letter comes from
      a letter. */
  lemma LowerTail(name: string, s: string)
    requires EndsWith(Lower(name), s)
    requires s == ".pdf" || s == ".docx"
    ensures |s| <= |name|
    ensures Lower(name[|name| - |s|..]) == s
    ensures name[|name| - |s|] == ExtSep
    ensures forall k :: |name| - |s| < k < |name| ==> name[k] != ExtSep && name[k] != Sep
  {
    SuffixShape(s);
    var n, l := |s|, Lower(name);
    forall k | |name| - n <= k < |name|
      ensures LowerChar(name[k]) == s[k - (|name| - n)]
    {
      assert l[|l| - n..][k - (|name| - n)] == l[k];
    }
  }

  /** The final component of an allowed name ends with the same characters. */
  lemma BasenameKeepsTail(name: string, n: nat)
    requires n <= |name|
    requires forall k :: |name| - n <= k < |name| ==> name[k] != Sep
    ensures n <= |Basename(name)|
    ensures Basename(name)[|Basename(name)| - n..] == name[|name| - n..]
  {
  }

  /** The extension of a name ending in a dot and `n - 1` characters that are
      neither dots nor separators. */
  lemma DotTailExtension(name: string, n: nat)
    requires 1 <= n <= |name| && name[|name| - n] == ExtSep
    requires forall k :: |name| - n < k < |name| ==> name[k] != ExtSep && name[k] != Sep
    ensures Extension(Basename(name)) == if StemBefore(name, n) then name[|name| - n..] else []
  {
    BasenameKeepsTail(name, n);
    var b := Basename(name);
    TailCharacters(b, name, n);
    ComponentTailExtension(b, n);
  }

  lemma TailCharacters(b: string, name: string, n: nat)
    requires 1 <= n <= |b| && n <= |name|
    requires b[|b| - n..] == name[|name| - n..]
    requires name[|name| - n] == ExtSep
    requires forall k :: |name| - n < k < |name| ==> name[k] != ExtSep
    ensures b[|b| - n] == ExtSep
    ensures forall k :: |b| - n < k < |b| ==> b[k] != ExtSep
  {
    assert b[|b| - n..][0] == name[|name| - n..][0];
    forall k | |b| - n < k < |b| ensures b[k] != ExtSep {
      assert b[k] == b[|b| - n..][k - (|b| - n)] == name[|name| - n + (k - (|b| - n))];
    }
  }

  /** Every name the allow-list admits is parsed without error if and only
      if its final component has a non-dot character before the suffix; the
      parser then uses the extractor the suffix names. */
  lemma AllowedNameParsesIff(dir: string, name: string, pdf: Reading<Option<string>>, docx: Reading<string>)
    requires Allowed(name)
    ensures var r := ParseResume(Join(dir, name), pdf, docx);
            && (r.Ok? <==> HasStem(name))
            && (r.Ok? ==> r.value.format == if AllowedSuffix(name) == ".pdf" then Pdf else Docx)
  {
    RoutedExtension(dir, name);
  }

  /** The lower-cased extension the parser routes an allowed name on: the
      accepted suffix when the name has a stem, and nothing otherwise. */
  lemma RoutedExtension(dir: string, name: string)
    requires Allowed(name)
    ensures Lower(Extension(Join(dir, name))) == if HasStem(name) then AllowedSuffix(name) else []
  {
    var n := |AllowedSuffix(name)|;
    AllowedTailLowers(name);
    JoinedDotTailExtension(dir, name, n);
    assert HasStem(name) == StemBefore(name, n);
  }

  /** Joining onto a directory does not change the extension of a name
      ending in a dot and non-dots. */
  lemma JoinedDotTailExtension(dir: string, name: string, n: nat)
    requires 1 <= n <= |name| && name[|name| - n] == ExtSep
    requires forall k :: |name| - n < k < |name| ==> name[k] != ExtSep && name[k] != Sep
    ensures Extension(Join(dir, name)) == if StemBefore(name, n) then name[|name| - n..] else []
  {
    var p := Join(dir, name);
    JoinKeepsBasename(dir, name);
    ExtensionOfBasename(p);
    DotTailExtension(name, n);
    assert Extension(p) == Extension(Basename(name));
  }

  /** An allowed name without a stem is downloaded, acknowledged and handed
      to the parser, whose error then escapes the handler; nothing is stored. */
  lemma AllowedWithoutStemRaises(env: Env, st: Store, uid: int, name: string,
                                 pdf: Reading<Option<string>>, docx: Reading<string>)
    requires Allowed(name) && !HasStem(name)
    ensures var path := Join(env.uploadDir, name);
            var out := HandleResume(env, st, uid, Document(Some(name), pdf, docx));
            && out.store == st
            && out.events == [Downloaded(path), Replied(Received), ParserCalled(path), Raised(UnsupportedFormatRaised)]
  {
    AllowedNameParsesIff(env.uploadDir, name, pdf, docx);
  }

  /** ".pdf" passes the allow-list but has no stem. */
  lemma DotPdfHasNoStem()
    ensures Allowed(".pdf") && !HasStem(".pdf")
  {
    assert Lower(".pdf") == ".pdf";
    assert Lacks(".pdf", Sep);
    BasenameOfComponent(".pdf");
    assert ".pdf"[..0] == [];
  }

  /** The counterexample: ".pdf" passes the allow-list, but the handler,
      having downloaded and acknowledged the file, gets a `ValueError` from
      the parser and never sends a final reply or writes the store. */
  lemma DotOnlyNameRaises(env: Env, st: Store, uid: int, pdf: Reading<Option<string>>, docx: Reading<string>)
    ensures Allowed(".pdf")
    ensures var path := Join(env.uploadDir, ".pdf");
            var out := HandleResume(env, st, uid, Document(Some(".pdf"), pdf, docx));
            && out.store == st
            && out.events == [Downloaded(path), Replied(Received), ParserCalled(path), Raised(UnsupportedFormatRaised)]
  {
    DotPdfHasNoStem();
    AllowedWithoutStemRaises(env, st, uid, ".pdf", pdf, docx);
  }

  /** A dot-free name without separators that does not start with a dot has
      a stem before any shorter suffix. */
  lemma PlainComponentHasStem(name: string, n: nat)
    requires Lacks(name, Sep) && n < |name| && name[0] != ExtSep
    ensures StemBefore(name, n)
  {
    BasenameOfComponent(name);
    assert name[..|name| - n][0] == name[0];
  }

  /** "resume.pdf" passes the allow-list and has a stem. */
  lemma ResumePdfIsRouted()
    ensures Allowed("resume.pdf") && HasStem("resume.pdf") && AllowedSuffix("resume.pdf") == ".pdf"
  {
    var name := "resume.pdf";
    assert Lower(name) == name by {
      forall i | 0 <= i < |name| ensures !('A' <= name[i] <= 'Z') {
      }
    }
    assert EndsWith(name, ".pdf") by {
      assert name[6..] == ".pdf";
    }
    assert Lacks(name, Sep);
    PlainComponentHasStem(name, 4);
  }

  /** An allowed ".pdf" name with a stem uploads what the PDF extractor
      returns; for a single page without surrounding whitespace, its text. */
  lemma StemmedPdfUploadsItsText(env: Env, name: string, t: string, docx: Reading<string>)
    requires Allowed(name) && HasStem(name) && AllowedSuffix(name) == ".pdf"
    requires Trimmed(t)
    ensures UploadText(env, Document(Some(name), Reading([Some(t)], None), docx)) == Some(t)
  {
    AllowedNameParsesIff(env.uploadDir, name, Reading([Some(t)], None), docx);
    OnePageReadsAsItsText(t);
  }

  /** A one-page PDF whose page reads "Alice, 5y Go" uploads as that text. */
  lemma AliceUploadText(env: Env, docx: Reading<string>)
    ensures UploadText(env, Document(Some("resume.pdf"), Reading([Some("Alice, 5y Go")], None), docx)) == Some("Alice, 5y Go")
  {
    ResumePdfIsRouted();
    StemmedPdfUploadsItsText(env, "resume.pdf", "Alice, 5y Go", docx);
  }

  /** End to end: "resume.pdf" whose single page reads "Alice, 5y Go" is
      saved under the user's key, and a following text message (a link is
      not treated specially) is analyzed against it exactly once, verbatim. */
  lemma UploadThenAsk(env: Env, st: Store, uid: int, docx: Reading<string>)
    ensures var doc := Document(Some("resume.pdf"), Reading([Some("Alice, 5y Go")], None), docx);
            var up := HandleResume(env, st, uid, doc);
            var ask := HandleJobLink(env, up.store, uid, "https://hh.ru/vacancy/123");
            && Get(up.store, ResumeKey(uid)) == Some("Alice, 5y Go")
            && AnalyzerCalls(ask.events) == [("Alice, 5y Go", "https://hh.ru/vacancy/123")]
  {
    var doc := Document(Some("resume.pdf"), Reading([Some("Alice, 5y Go")], None), docx);
    AliceUploadText(env, docx);
    BotProperties.UploadWritesOnlyOwnKey(env, st, uid, doc);
  }
}
