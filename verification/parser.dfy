/**
 Resume text extraction: routing a file to the PDF or DOCX extractor by its
 extension, and the two extractors as folds over what the document libraries
 yield. The libraries themselves are abstracted to a `Reading`: the page or
 paragraph texts they would hand out, and the point (if any) where they raise.
 */
module Parser {
  import opened Wrappers
  import opened Strings
  import opened Paths

  /** What a document library yields for one file: the items in document
      order, and, when it raises, after how many items (0: on opening). */
  datatype Reading<T> = Reading(items: seq<T>, raisesAfter: Option<nat>)

  /** The items an extractor's loop gets through before the library raises.
      The exception is caught, so the loop just ends there. */
  function Consumed<T>(rd: Reading<T>): (c: seq<T>)
    ensures c <= rd.items
    ensures rd.raisesAfter.None? ==> c == rd.items
    ensures rd.raisesAfter.Some? ==>
              |c| == if rd.raisesAfter.value < |rd.items| then rd.raisesAfter.value else |rd.items|
  {
    match rd.raisesAfter
    case None => rd.items
    case Some(k) => if k < |rd.items| then rd.items[..k] else rd.items
  }

  /** `page.extract_text() or ""`: a page without a text layer reads as "". */
  function PageText(page: Option<string>): string {
    match page
    case Some(t) => t
    case None => ""
  }

  /** Reference reading of a PDF: the texts of its pages, in order, with no
      separator between them. */
  function PdfText(pages: seq<Option<string>>): string {
    if pages == [] then "" else PageText(pages[0]) + PdfText(pages[1..])
  }

  /** The extraction loop: `text += page.extract_text() or ""` per page. */
  function AppendPages(text: string, pages: seq<Option<string>>): (r: string)
    ensures text <= r
    decreases |pages|
  {
    if pages == [] then text
    else
      var next := text + PageText(pages[0]);
      assert text <= next;
      AppendPages(next, pages[1..])
  }

  lemma {:induction false} AppendPagesIsPdfText(text: string, pages: seq<Option<string>>)
    ensures AppendPages(text, pages) == text + PdfText(pages)
    decreases |pages|
  {
    if pages != [] {
      AppendPagesIsPdfText(text + PageText(pages[0]), pages[1..]);
    }
  }

  /** `extract_text_from_pdf`: never raises; the stripped text of the pages
      read before the library raised (all pages when it does not). */
  function ExtractPdf(rd: Reading<Option<string>>): (r: string)
    ensures Trimmed(r)
    ensures r == Strip(PdfText(Consumed(rd)))
  {
    AppendPagesIsPdfText("", Consumed(rd));
    assert "" + PdfText(Consumed(rd)) == PdfText(Consumed(rd));
    Strip(AppendPages("", Consumed(rd)))
  }

  /** Reference reading of a DOCX: each paragraph followed by a newline. */
  function DocxText(paras: seq<string>): string {
    if paras == [] then "" else paras[0] + "\n" + DocxText(paras[1..])
  }

  /** The extraction loop: `text += para.text + "\n"` per paragraph. */
  function AppendParagraphs(text: string, paras: seq<string>): (r: string)
    ensures text <= r
    ensures |r| >= |text| + |paras|
    decreases |paras|
  {
    if paras == [] then text
    else
      var next := text + paras[0] + "\n";
      assert text <= next;
      AppendParagraphs(next, paras[1..])
  }

  lemma {:induction false} AppendParagraphsIsDocxText(text: string, paras: seq<string>)
    ensures AppendParagraphs(text, paras) == text + DocxText(paras)
    decreases |paras|
  {
    if paras != [] {
      AppendParagraphsIsDocxText(text + paras[0] + "\n", paras[1..]);
    }
  }

  /** `extract_text_from_docx`: never raises; the stripped text of the
      paragraphs read before the library raised (all when it does not). */
  function ExtractDocx(rd: Reading<string>): (r: string)
    ensures Trimmed(r)
    ensures r == Strip(DocxText(Consumed(rd)))
  {
    AppendParagraphsIsDocxText("", Consumed(rd));
    assert "" + DocxText(Consumed(rd)) == DocxText(Consumed(rd));
    Strip(AppendParagraphs("", Consumed(rd)))
  }

  datatype Format = Pdf | Docx

  /** The `ValueError` raised for an extension other than .pdf and .docx. */
  datatype ParseError = UnsupportedFormat

  /** The text a resume yielded and the extractor that produced it. */
  datatype Parsed = Parsed(format: Format, text: string)

  /** `parse_resume`: routes on the lower-cased `splitext` extension of the
      path. Both library readings are passed in; only the routed one is used. */
  function ParseResume(path: string, pdf: Reading<Option<string>>, docx: Reading<string>)
    : (r: Result<Parsed, ParseError>)
    ensures r.Err? <==> Lower(Extension(path)) !in {".pdf", ".docx"}
    ensures r.Err? ==> r.error == UnsupportedFormat
    ensures r.Ok? ==> Trimmed(r.value.text)
    ensures r.Ok? && r.value.format == Pdf ==>
              Lower(Extension(path)) == ".pdf" && r.value.text == Strip(PdfText(Consumed(pdf)))
    ensures r.Ok? && r.value.format == Docx ==>
              Lower(Extension(path)) == ".docx" && r.value.text == Strip(DocxText(Consumed(docx)))
  {
    var ext := Lower(Extension(path));
    if ext == ".pdf" then Ok(Parsed(Pdf, ExtractPdf(pdf)))
    else if ext == ".docx" then Ok(Parsed(Docx, ExtractDocx(docx)))
    else Err(UnsupportedFormat)
  }

  /** Pages are read in order: the text of two runs of pages is the text of
      the first followed by the text of the second. */
  lemma {:induction false} PdfTextConcat(x: seq<Option<string>>, y: seq<Option<string>>)
    ensures PdfText(x + y) == PdfText(x) + PdfText(y)
  {
    if x != [] {
      assert (x + y)[1..] == x[1..] + y;
      PdfTextConcat(x[1..], y);
    } else {
      assert x + y == y;
    }
  }

  /** A page without extractable text leaves the PDF's text unchanged,
      wherever it occurs. */
  lemma BlankPageIsInvisible(before: seq<Option<string>>, after: seq<Option<string>>)
    ensures ExtractPdf(Reading(before + [None] + after, None)) == ExtractPdf(Reading(before + after, None))
  {
    var x, y := before + [None] + after, before + after;
    PdfTextConcat(before + [None], after);
    PdfTextConcat(before, [None]);
    PdfTextConcat(before, after);
    assert PdfText([None]) == "";
    assert PdfText(x) == PdfText(y);
    assert Consumed(Reading(x, None)) == x;
    assert Consumed(Reading(y, None)) == y;
  }

  /** Two runs of pages whose texts agree page by page read alike. */
  lemma {:induction false} PdfTextPointwise(x: seq<Option<string>>, y: seq<Option<string>>)
    requires |x| == |y|
    requires forall i :: 0 <= i < |x| ==> PageText(x[i]) == PageText(y[i])
    ensures PdfText(x) == PdfText(y)
  {
    if x != [] {
      assert PageText(x[0]) == PageText(y[0]);
      PdfTextPointwise(x[1..], y[1..]);
    }
  }

  /** `extract_text() or ""`: a page without a text layer and a page whose
      text is empty read alike, wherever they occur and whenever the library
      raises. */
  lemma NoneReadsAsEmpty(before: seq<Option<string>>, after: seq<Option<string>>, raisesAfter: Option<nat>)
    ensures ExtractPdf(Reading(before + [None] + after, raisesAfter)) ==
            ExtractPdf(Reading(before + [Some("")] + after, raisesAfter))
  {
    var x, y := before + [None] + after, before + [Some("")] + after;
    var cx, cy := Consumed(Reading(x, raisesAfter)), Consumed(Reading(y, raisesAfter));
    forall i | 0 <= i < |x| ensures PageText(x[i]) == PageText(y[i]) {
      if i != |before| {
        assert x[i] == y[i];
      }
    }
    assert |cx| == |cy|;
    forall i | 0 <= i < |cx| ensures PageText(cx[i]) == PageText(cy[i]) {
      assert cx[i] == x[i] && cy[i] == y[i];
    }
    PdfTextPointwise(cx, cy);
  }

  /** A single page whose text has no surrounding whitespace reads as that
      text. */
  lemma OnePageReadsAsItsText(t: string)
    requires Trimmed(t)
    ensures ExtractPdf(Reading([Some(t)], None)) == t
  {
    var pages := [Some(t)];
    assert Consumed(Reading(pages, None)) == pages;
    assert pages[1..] == [];
    assert PdfText(pages) == t + "";
    StripTrimmed(t);
  }

  /** Python's `"\n".join(paras)`. */
  function JoinLines(paras: seq<string>): string {
    if paras == [] then ""
    else if |paras| == 1 then paras[0]
    else paras[0] + "\n" + JoinLines(paras[1..])
  }

  lemma {:induction false} DocxTextEndsWithNewline(paras: seq<string>)
    requires paras != []
    ensures DocxText(paras) == JoinLines(paras) + "\n"
  {
    if |paras| > 1 {
      DocxTextEndsWithNewline(paras[1..]);
    } else {
      assert DocxText(paras[1..]) == "";
    }
  }

  /** The DOCX text is the paragraphs joined by newlines, stripped: the
      newline after the last paragraph never reaches the result. */
  lemma DocxIsJoinedParagraphs(rd: Reading<string>)
    ensures ExtractDocx(rd) == Strip(JoinLines(Consumed(rd)))
  {
    var ps := Consumed(rd);
    if ps != [] {
      DocxTextEndsWithNewline(ps);
      StripIgnoresTrailingSpace(JoinLines(ps), "\n");
    }
  }

  /** Routing ignores case: two paths that agree once lower-cased are parsed
      alike. */
  lemma ParseIgnoresCase(p: string, q: string, pdf: Reading<Option<string>>, docx: Reading<string>)
    requires Lower(p) == Lower(q)
    ensures ParseResume(p, pdf, docx) == ParseResume(q, pdf, docx)
  {
    ExtensionOfLower(p);
    ExtensionOfLower(q);
  }
}
