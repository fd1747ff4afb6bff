# Resume bot core in Dafny

This project models the core of a Telegram bot that takes a resume and a job
description and has them analyzed. The core has two parts:

- **Resume parsing** (`app/parser.py`). `parse_resume` routes a file by the
  lower-cased extension that `os.path.splitext` gives it. A `.pdf` file goes to
  the PDF extractor and a `.docx` file to the DOCX extractor. Any other
  extension raises `ValueError`. Each extractor is a loop that appends text
  (page texts with no separator, or paragraphs each followed by a newline),
  ends quietly when the library raises, and strips the result.
- **The two chat handlers** (`app/bot.py`). They run over Redis, which is
  modelled as a key-value store whose entries carry an expiry instant,
  together with a clock. Each handler is a pure transition: it takes the store
  and one message, and returns the new store and a trace of events (replies,
  download, parser call, store write, analyzer call, escaping exception).
  - The document handler applies its allow-list (the lower-cased file name
    ends in ".pdf" or ".docx"), downloads the file and acknowledges it. It then
    parses the file and, if the text is non-empty, stores it under
    `resume:<user id>` for 172800 seconds.
  - The text handler looks up that key. If the key holds a resume, it calls
    the analyzer on the resume and the text and replies with the report.

The Python primitives the core relies on are modelled exactly for the
characters they touch:

- `str.isspace` and `str.strip`;
- `str.lower` (ASCII letters only);
- `str.endswith`;
- `str(int)`;
- the POSIX `os.path.join` and `os.path.splitext`.

`Paths.Basename` has no counterpart that the core calls. It names the final
path component, which `splitext` works on, so that the extension can be
described and reasoned about one component at a time.

The document libraries (pdfplumber, python-docx) are abstracted to a
`Reading`: the page or paragraph texts they would yield, and the point where
they raise, if they do. The analyzer is a function parameter that either
returns a report or fails.

Modules: `Wrappers`, `Strings`, `Decimal`, `Paths`, `Parser`, `TtlStore`,
`Bot`, `BotProperties` and `AllowList`.

The handler's allow-list and the parser's routing agree on every allowed name
except one kind: names whose final component has nothing but dots before the
suffix, such as `.pdf` or `..docx`.

- `splitext` treats leading dots as part of the stem, so such a name has no
  extension.
- The handler has already downloaded the file and replied "file received"
  when `parse_resume` raises `ValueError`.
- That exception escapes the handler. The user gets no final reply and the
  store is not written.

`AllowList.AllowedNameParsesIff` states exactly which allowed names parse, and
`AllowList.DotOnlyNameRaises` is the concrete instance.

The handlers call the parser and the analyzer directly.

## Model

| member | source | states |
|---|---|---|
| Strings.Strip | app/parser.py:14 | The result has no whitespace at either end. It is the part of the input between a run of leading whitespace and a run of trailing whitespace, and both runs are whitespace only. |
| Strings.StripIdempotent | app/parser.py:14 | Stripping an already stripped text changes nothing. |
| Strings.StripTrimmed | app/parser.py:14 | A text with no whitespace at either end is returned unchanged by strip. |
| Strings.StripEmptyIff | app/bot.py:53-54 | Strip yields the empty string if and only if the text is all whitespace. So the "no text" reply is sent exactly for documents whose text is blank. |
| Strings.StripIgnoresTrailingSpace | app/parser.py:22-25 | Appending whitespace to a text does not change what strip returns. |
| Strings.LowerRemovesCapitals | app/parser.py:29 | The lower-cased text contains no capital letter, and every character that was not a capital is left as it was. |
| Strings.LowerIdempotent | app/parser.py:29 | Lower-casing an already lower-cased text changes nothing. |
| Strings.LowerConcat | app/bot.py:45 | Lower-casing works piecewise, so lower-casing a whole name and then looking at its end is the same as lower-casing just the end. |
| Decimal.NatToString | app/bot.py:58 | The rendering of a natural number is non-empty and made of digits only, with no leading zero unless the number is 0. |
| Decimal.IntToString | app/bot.py:58 | The rendering of an integer is non-empty and starts with '-' exactly when the integer is negative. |
| Decimal.NatToStringRoundTrip | app/bot.py:58 | Reading back the digits of a natural number yields that number. |
| Decimal.IntToStringRoundTrip | app/bot.py:58 | Reading back `str(i)` yields `i` for every integer. |
| Decimal.IntToStringInjective | app/bot.py:58 | Distinct integers render as distinct strings. |
| Paths.BasenameIsFinalComponent | app/parser.py:29 | The final component of a path is a suffix of the path with no separator in it. It is either the whole path or directly preceded by a separator, so it is the longest such suffix. |
| Paths.JoinAppendsName | app/bot.py:49 | The joined path ends with the file name. An absolute name replaces the directory. Otherwise the path starts with the directory, and a non-empty directory is followed by exactly one separator, added only when the directory does not already end in one. |
| Paths.SplitExt | app/parser.py:29 | The root and extension that `splitext` returns concatenate back to the path. |
| Paths.SplitExtYieldsExtension | app/parser.py:29 | The extension is what the characterization `IsExtensionOf` says of the final component. It is empty when every dot of the component has only dots before it. Otherwise it is the suffix from the last dot, with a non-dot somewhere before that dot. |
| Paths.ExtensionUnique | app/parser.py:29 | A component has at most one extension in that sense. |
| Paths.ExtensionCharacterized | app/parser.py:29 | For a single component, any string that meets the characterization is exactly what `splitext` returns. |
| Paths.ExtensionOfBasename | app/parser.py:29 | The extension of a path depends only on its final component. |
| Paths.JoinKeepsBasename | app/bot.py:49 | Joining the file name onto the upload directory keeps the file name's final component. |
| Paths.BasenameOfLower | app/parser.py:29 | Lower-casing a path lower-cases its final component and moves no separator. |
| Paths.ExtensionOfLower | app/parser.py:29 | Taking the extension and lower-casing commute, so the parser could lower-case either the path or its extension. |
| Parser.Consumed | app/parser.py:8-12 | The items an extractor gets through are a prefix of what the library yields. That prefix is all of them when the library does not raise or raises only after its last item, and exactly `k` of them when it raises after `k`. |
| Parser.AppendPages | app/parser.py:10-11 | The page loop only appends: the text it starts from is a prefix of the text it ends with. |
| Parser.AppendPagesIsPdfText | app/parser.py:10-11 | The `text +=` loop over the pages equals the text before the loop followed by the concatenated page texts. |
| Parser.ExtractPdf | app/parser.py:5-14 | The PDF extractor never raises. It returns the concatenated text of the pages read before any library error, stripped, with no whitespace at either end. |
| Parser.AppendParagraphs | app/parser.py:21-22 | The paragraph loop only appends, and it adds at least one character (the newline) per paragraph. |
| Parser.AppendParagraphsIsDocxText | app/parser.py:21-22 | The `text +=` loop over the paragraphs equals the text before the loop followed by each paragraph and a newline. |
| Parser.ExtractDocx | app/parser.py:16-25 | The DOCX extractor never raises. It returns, stripped, the paragraphs read before any library error, each followed by a newline. |
| Parser.ParseResume | app/parser.py:27-35 | It fails with the unsupported-format error exactly when the lower-cased extension is neither ".pdf" nor ".docx". Otherwise the extractor that the extension names produces the text, which has no surrounding whitespace. |
| Parser.PdfTextConcat | app/parser.py:10-11 | Reading two runs of pages yields the text of the first followed by that of the second. |
| Parser.BlankPageIsInvisible | app/parser.py:11 | In a PDF the library reads without error, a page without a text layer leaves the extracted text unchanged, wherever it occurs. |
| Parser.PdfTextPointwise | app/parser.py:10-11 | Two runs of pages whose texts agree page by page give the same text. |
| Parser.NoneReadsAsEmpty | app/parser.py:11 | A page without a text layer reads exactly like a page whose text is empty, wherever it occurs and wherever the library raises. |
| Parser.OnePageReadsAsItsText | app/parser.py:9-14 | A one-page PDF whose page text has no surrounding whitespace extracts to exactly that text. |
| Parser.DocxTextEndsWithNewline | app/parser.py:21-22 | For a non-empty document, the paragraph loop yields the paragraphs joined by newlines, plus one final newline. |
| Parser.DocxIsJoinedParagraphs | app/parser.py:21-25 | The DOCX text is `"\n".join` of the paragraphs read, stripped; the last newline never reaches the result. |
| Parser.ParseIgnoresCase | app/parser.py:29 | Two paths that agree once lower-cased parse alike. |
| TtlStore.Get | app/bot.py:70-72 | A read yields the stored value while the entry's expiry instant is still ahead. From that instant on, and for a key never written, it yields nothing. |
| TtlStore.SetEx | app/bot.py:59 | After `SETEX` the key reads back as the value and expires `ttl` seconds from now. Every other key reads and is stored as before. |
| TtlStore.ReadableForTtl | app/bot.py:59-70 | A value written with a lifetime of `ttl` seconds reads back for exactly `ttl` seconds and is absent from then on. |
| TtlStore.AbsentStaysAbsent | app/bot.py:70-72 | Time passing never brings back a missing or expired key. |
| Bot.NoticeTextInjective | app/bot.py:46-80 | The six fixed replies and the results reply are all different texts, and the report reads back verbatim from the results reply, so the user can always tell which reply was sent. |
| Bot.ResumeKey | app/bot.py:58 | The key starts with "resume:" and the rest is a decimal numeral that reads back as the user id. |
| Bot.ResumeKeyInjective | app/bot.py:58 | Two users never share a resume key. |
| Bot.HandleResume | app/bot.py:41-61 | A missing file name raises. A refused name gets the "unsupported" reply. An allowed name is downloaded, acknowledged and parsed, and then one of three things happens. A parser error escapes. An empty text gets the "no text" reply and the store is unchanged. A non-empty text is written with `SETEX` under the user's key for 172800 seconds, followed by the "saved" reply. |
| Bot.HandleResumeCallsNoAnalyzer | app/bot.py:41-61 | The document handler never calls the analyzer, on any branch. |
| Bot.HandleJobLink | app/bot.py:64-80 | The store never changes. A missing or empty resume gets the "not found" reply and no analyzer call, and the reverse also holds. Otherwise the handler replies "analyzing", calls the analyzer once with the stored resume and the message text, and then replies with the report or raises. |
| Bot.Step | app/bot.py:41-66 | Only a document can change the store's entries. A document whose text is non-empty sets its sender's key to that text for 48 hours, touches no other key and ends with the "saved" reply. Any other document leaves the store exactly as it was. Only the passing of time moves the clock. Only a non-empty text reaches the analyzer: it is called once, on the resume live under the sender's key and the text, exactly when such a non-empty resume is live. Every other update calls no analyzer, and an update no handler takes, an empty text and the passing of time produce no events. |
| BotProperties.UploadStepChangesOnlySendersKey | app/bot.py:41-61 | Through the dispatcher, an upload changes at most its sender's key and does not move the clock. |
| Bot.Run | app/bot.py:41-80 | Over any sequence of updates the clock moves on by exactly the total of the time that passes, and a sequence without text messages never reaches the analyzer. |
| BotProperties.UploadWaitAskThroughDispatch | app/bot.py:41-80 | Through the dispatcher: a document that saves a resume, then some seconds, then a non-empty job text from the same user. The analyzer is called once, on the saved resume and the job text, if and only if fewer than 172800 seconds have passed; otherwise it is not called. |
| BotProperties.RunThree | app/bot.py:41-80 | Three updates are handled in order, each starting from the store the previous one left, with their traces one after the other. |
| BotProperties.RunConcat | app/bot.py:41-80 | Handling two batches of updates one after the other is the same as handling their concatenation: the store flows from the first batch into the second and the event traces are concatenated. |
| BotProperties.UploadWritesOnlyOwnKey | app/bot.py:53-59 | An upload changes no key but the user's own. It changes the store only when the parsed text is non-empty. The key then holds that text, with no surrounding whitespace, and expires 48 hours from now. |
| BotProperties.SavedReplyFollowsWrite | app/bot.py:58-61 | A successful upload ends with the store write and then the "saved" reply, in that order. |
| BotProperties.UploadKeepsOtherUsers | app/bot.py:58-59 | An upload by one user never changes what another user's resume key reads. |
| BotProperties.WriteKeepsResumesNonEmpty | app/bot.py:59 | Writing a non-empty value under any key keeps the invariant that no resume key holds the empty string. |
| BotProperties.StepKeepsResumesNonEmpty | app/bot.py:54-59 | Every kind of update keeps the invariant that no resume key holds the empty string. |
| BotProperties.RunKeepsResumesNonEmpty | app/bot.py:41-80 | Any sequence of updates keeps that invariant. |
| BotProperties.RunWithoutUploadsKeepsEntries | app/bot.py:64-80 | Without document uploads, text messages, other messages and time passing leave every store entry as it was. |
| BotProperties.ResumeFoundFor48Hours | app/bot.py:59-78 | A saved resume is analyzed against a later job text if and only if that text arrives less than 172800 seconds after the upload. |
| AllowList.AllowedByTail | app/bot.py:45 | The allow-list looks only at the end of the name. A name is allowed exactly when its last four characters lower-case to ".pdf" or its last five to ".docx". |
| AllowList.AllowedTailLowers | app/bot.py:45 | An allowed name ends in a dot followed by characters that are neither dots nor separators, and those final characters lower-case to the accepted suffix. |
| AllowList.DotTailExtension | app/parser.py:29 | A name ending in a dot and then non-dots has that ending as its extension when its final component has a non-dot before the dot, and no extension otherwise. |
| AllowList.AllowedNameParsesIff | app/bot.py:45-53 | An allowed name parses without error if and only if its final component has a non-dot before the accepted suffix. It is then routed to the extractor that the suffix names. |
| AllowList.RoutedExtension | app/parser.py:29-33 | For an allowed name joined onto any directory, the lower-cased extension the parser routes on is the accepted suffix when the name has a stem, and empty otherwise. |
| AllowList.AllowedWithoutStemRaises | app/bot.py:45-53 | An allowed name without a stem is downloaded, acknowledged and handed to the parser. The parser's error then escapes, and the store is unchanged. |
| AllowList.DotOnlyNameRaises | app/bot.py:45-53 | ".pdf" passes the allow-list. The handler downloads it, acknowledges it and calls the parser, and the parser's error then escapes with the store unchanged. |
| AllowList.ResumePdfIsRouted | app/bot.py:45 | "resume.pdf" passes the allow-list, has a stem and is accepted for ".pdf". |
| AllowList.StemmedPdfUploadsItsText | app/bot.py:49-53 | An allowed ".pdf" name with a stem, holding one page with no surrounding whitespace, uploads that page's text. |
| AllowList.AliceUploadText | app/bot.py:49-53 | A one-page "resume.pdf" whose page reads "Alice, 5y Go" uploads exactly that text. |
| AllowList.UploadThenAsk | app/bot.py:41-80 | After that upload, the user's key reads "Alice, 5y Go". A following text message is analyzed against it exactly once and verbatim. |

## Left out

- `app/analyzer.py` is not part of this model. `analyze_resume` is a function parameter that returns a report or fails (`Env.analyze`). Its LangChain/Ollama call and prompt are not modelled.
- Telegram transport, polling and `bot.download` are not modelled. A download is an event carrying the path, and downloads and replies always succeed. A failing `bot.download` or `message.reply` is out of scope. One example is a name containing '/' that points into a missing subdirectory of the upload directory, which raises before the "received" reply. The file's contents reach the parser only through the two `Reading` parameters.
- pdfplumber and python-docx internals are not modelled. A library is reduced to the texts it would yield and the point at which it raises. The extractors' `print` of the error is logging and is omitted.
- Concurrency is not modelled. The handlers are asynchronous and could interleave at each `await`, but the model runs each handler as one atomic step. The clock does not move within a handler, so a key cannot expire between the `GET` and the analyzer call.
- Redis failures are not modelled: connection errors, timeouts and `decode_responses`. `SETEX` and `GET` always succeed. Time is whole seconds on an explicit clock, and advancing it is a separate input (`Elapse`).
- Configuration and start-up (`app/bot.py:13-37` and `app/bot.py:84-90`) are not modelled: the upload directory, the `.env` loading, the token check and the Redis URL. The upload directory is a parameter.
- A message without a sender (`message.from_user` being `None`) is not modelled; the user id is always given.
- Strings.Lower: only ASCII capitals are lower-cased. Python's `str.lower` applies full Unicode case mapping, which can change other characters and even the length (for example U+0130). No non-ASCII character lower-cases to a character of ".pdf" or ".docx", so routing is unaffected.
- Paths.SplitExt: the POSIX flavour of `os.path` only. The Windows rules (backslash separators, drive letters) are out of scope.
- Bot.Step: the dispatcher filters `F.document` and `F.text` are modelled as routing documents and non-empty texts. Every other update, including an empty text, is dropped, as the truthiness test of `F.text` does.
- Bot.HandleResume: exceptions that escape a handler end its trace with a `Raised` event. aiogram's logging of them is not modelled. These are the `AttributeError` of `None.lower()` for a document without a file name, and the parser's `ValueError`.
