/**
 The two chat handlers of the bot as pure transitions. Each takes the store
 (with its clock) and one incoming message and returns the new store and the
 trace of what the handler did: replies sent, the file downloaded, calls into
 the parser and the analyzer, store writes, and an exception escaping the
 handler, if any. The analyzer is an uninterpreted function; the parser is the
 `Parser` model applied to the libraries' reading of the downloaded file.
 */
module Bot {
  import opened Wrappers
  import opened Strings
  import opened Paths
  import opened Parser
  import opened TtlStore
  import Decimal

  /** Lifetime of a stored resume: 48 hours, in seconds. */
  const ResumeTtl: nat := 172800

  const KeyPrefix := "resume:"

  /** The replies the handlers send. */
  datatype Notice =
    | Unsupported
    | Received
    | NoText
    | Saved
    | NotFound
    | Analyzing
    | Results(report: string)

  /** The sign each reply opens with. */
  function Sign(n: Notice): string {
    match n
    case Unsupported => "⚠️"
    case Received => "📄"
    case NoText => "❌"
    case Saved => "✅"
    case NotFound => "⚠️"
    case Analyzing => "🔍"
    case Results(_) => "📊"
  }

  /** The exact text of each reply: its sign, then the message. */
  function NoticeText(n: Notice): string {
    Sign(n) + match n
              case Unsupported => " Поддерживаются только файлы PDF или DOCX."
              case Received => " Файл загружен, начинаю обработку..."
              case NoText => " Не удалось извлечь текст из резюме."
              case Saved => " Резюме успешно обработано и сохранено."
              case NotFound => " Резюме не найдено. Сначала отправьте своё резюме."
              case Analyzing => " Анализирую резюме и вакансию... это займёт пару минут."
              case Results(report) => ResultsHeader + report
  }

  /** What follows the sign of the results reply. */
  const ResultsHeader := " Результаты анализа:\n\n"

  /** The user can tell every reply apart from every other, and the report
      reads back verbatim from the results reply. */
  lemma NoticeTextInjective(a: Notice, b: Notice)
    requires NoticeText(a) == NoticeText(b)
    ensures a == b
  {
    if a.Results? && b.Results? {
      var n := |"📊" + ResultsHeader|;
      assert a.report == NoticeText(a)[n..];
      assert b.report == NoticeText(b)[n..];
    } else {
      // The sign and the length already tell the replies apart.
      OpensWithSign(a);
      OpensWithSign(b);
    }
  }

  /** The first character of a reply, and the length of the fixed ones. */
  lemma OpensWithSign(n: Notice)
    ensures |NoticeText(n)| >= 1 && NoticeText(n)[0] == Sign(n)[0]
    ensures !n.Results? ==> |NoticeText(n)| == FixedLength(n)
  {
  }

  function FixedLength(n: Notice): nat {
    match n
    case Unsupported => 44
    case Received => 37
    case NoText => 37
    case Saved => 40
    case NotFound => 52
    case Analyzing => 56
    case Results(_) => 0
  }

  /** The store key of a user's resume: the prefix followed by `str(uid)`. */
  function ResumeKey(uid: int): (k: string)
    ensures IsResumeKey(k)
    ensures Decimal.IsNumeral(k[|KeyPrefix|..])
    ensures Decimal.ParseInt(k[|KeyPrefix|..]) == uid
  {
    var digits := Decimal.IntToString(uid);
    Decimal.IntToStringRoundTrip(uid);
    assert (KeyPrefix + digits)[|KeyPrefix|..] == digits;
    KeyPrefix + digits
  }

  predicate IsResumeKey(k: string) {
    |k| >= |KeyPrefix| && k[..|KeyPrefix|] == KeyPrefix
  }

  /** Two users never share a resume key. */
  lemma ResumeKeyInjective(a: int, b: int)
    requires ResumeKey(a) == ResumeKey(b)
    ensures a == b
  {
    assert ResumeKey(a)[|KeyPrefix|..] == Decimal.IntToString(a);
    assert ResumeKey(b)[|KeyPrefix|..] == Decimal.IntToString(b);
    Decimal.IntToStringInjective(a, b);
  }

  /** The store invariant both handlers keep: no resume key holds "". */
  predicate ResumesNonEmpty(st: Store) {
    forall k :: k in st.entries && IsResumeKey(k) ==> st.entries[k].value != ""
  }

  /** An uploaded document: its file name (Telegram may omit it) and what the
      PDF and DOCX libraries would read from the downloaded file. */
  datatype Document = Document(fileName: Option<string>, pdf: Reading<Option<string>>, docx: Reading<string>)

  /** An exception that escapes a handler and ends it. */
  datatype Fault =
    | MissingFileName          // `None.lower()` when the document has no file name
    | UnsupportedFormatRaised  // the `ValueError` of the parser
    | AnalyzerRaised           // the analyzer call failed

  datatype Event =
    | Replied(notice: Notice)
    | Downloaded(path: string)
    | ParserCalled(path: string)
    | Stored(key: string, value: string, ttl: nat)
    | AnalyzerCalled(resume: string, job: string)
    | Raised(fault: Fault)

  datatype Outcome = Outcome(store: Store, events: seq<Event>)

  /** What the handlers take from outside: the upload directory and the
      analyzer, which either returns its report or raises (`None`). */
  datatype Env = Env(uploadDir: string, analyze: (string, string) -> Option<string>)

  /** The allow-list of the document handler: the lower-cased file name ends
      in ".pdf" or ".docx". */
  predicate Allowed(name: string) {
    EndsWith(Lower(name), ".pdf") || EndsWith(Lower(name), ".docx")
  }

  /** The (resume, job) pairs the analyzer was called with, in order. */
  function AnalyzerCalls(events: seq<Event>): seq<(string, string)> {
    if events == [] then []
    else
      var rest := AnalyzerCalls(events[1..]);
      match events[0]
      case AnalyzerCalled(r, j) => [(r, j)] + rest
      case _ => rest
  }

  /** The analyzer calls of two traces, one after the other. */
  lemma {:induction false} AnalyzerCallsConcat(a: seq<Event>, b: seq<Event>)
    ensures AnalyzerCalls(a + b) == AnalyzerCalls(a) + AnalyzerCalls(b)
    decreases |a|
  {
    if a != [] {
      assert (a + b)[0] == a[0];
      assert (a + b)[1..] == a[1..] + b;
      AnalyzerCallsConcat(a[1..], b);
    } else {
      assert a + b == b;
    }
  }

  /** A trace without an analyzer event records no analyzer call. */
  lemma {:induction false} NoAnalyzerEvent(events: seq<Event>)
    requires forall i :: 0 <= i < |events| ==> !events[i].AnalyzerCalled?
    ensures AnalyzerCalls(events) == []
    decreases |events|
  {
    if events != [] {
      assert !events[0].AnalyzerCalled?;
      NoAnalyzerEvent(events[1..]);
    }
  }

  /** The text the parser yields for an allowed upload, if it yields any:
      absent when the file name is missing or refused, or the parser raises. */
  function UploadText(env: Env, doc: Document): Option<string> {
    match doc.fileName
    case None => None
    case Some(name) =>
      if !Allowed(name) then None
      else
        match ParseResume(Join(env.uploadDir, name), doc.pdf, doc.docx)
        case Err(_) => None
        case Ok(parsed) => Some(parsed.text)
  }

  /** The document handler. */
  function HandleResume(env: Env, st: Store, uid: int, doc: Document): (out: Outcome)
    ensures doc.fileName.None? ==> out == Outcome(st, [Raised(MissingFileName)])
    ensures doc.fileName.Some? && !Allowed(doc.fileName.value) ==>
              out == Outcome(st, [Replied(Unsupported)])
    ensures doc.fileName.Some? && Allowed(doc.fileName.value) ==>
              var path := Join(env.uploadDir, doc.fileName.value);
              && |out.events| == 4 + (if UploadText(env, doc) in {None, Some("")} then 0 else 1)
              && out.events[..3] == [Downloaded(path), Replied(Received), ParserCalled(path)]
              && out.events[3] == match UploadText(env, doc)
                                  case None => Raised(UnsupportedFormatRaised)
                                  case Some(text) =>
                                    if text == "" then Replied(NoText)
                                    else Stored(ResumeKey(uid), text, ResumeTtl)
    ensures UploadText(env, doc) in {None, Some("")} ==> out.store == st
    ensures UploadText(env, doc) !in {None, Some("")} ==>
              && out.store == SetEx(st, ResumeKey(uid), ResumeTtl, UploadText(env, doc).value)
              && out.events[|out.events| - 1] == Replied(Saved)
  {
    match doc.fileName
    case None => Outcome(st, [Raised(MissingFileName)])
    case Some(name) =>
      if !Allowed(name) then Outcome(st, [Replied(Unsupported)])
      else
        var path := Join(env.uploadDir, name);
        var prefix := [Downloaded(path), Replied(Received), ParserCalled(path)];
        match ParseResume(path, doc.pdf, doc.docx)
        case Err(_) => Outcome(st, prefix + [Raised(UnsupportedFormatRaised)])
        case Ok(parsed) =>
          if parsed.text == "" then Outcome(st, prefix + [Replied(NoText)])
          else
            var key := ResumeKey(uid);
            Outcome(SetEx(st, key, ResumeTtl, parsed.text),
                    prefix + [Stored(key, parsed.text, ResumeTtl), Replied(Saved)])
  }

  /** The document handler never calls the analyzer. */
  lemma HandleResumeCallsNoAnalyzer(env: Env, st: Store, uid: int, doc: Document)
    ensures AnalyzerCalls(HandleResume(env, st, uid, doc).events) == []
  {
    var events := HandleResume(env, st, uid, doc).events;
    match doc.fileName
    case None =>
    case Some(name) =>
      if Allowed(name) {
        var path := Join(env.uploadDir, name);
        var prefix := [Downloaded(path), Replied(Received), ParserCalled(path)];
        assert events[..3] == prefix;
        // The last one or two events are a reply, a fault or the store write.
        assert forall i :: 3 <= i < |events| ==> !events[i].AnalyzerCalled?;
      }
    NoAnalyzerEvent(events);
  }

  /** The text handler: every text message is taken as a job description. */
  function HandleJobLink(env: Env, st: Store, uid: int, job: string): (out: Outcome)
    ensures out.store == st
    ensures Get(st, ResumeKey(uid)) in {None, Some("")} ==>
              out.events == [Replied(NotFound)]
    ensures Get(st, ResumeKey(uid)) in {None, Some("")} <==> AnalyzerCalls(out.events) == []
    ensures Get(st, ResumeKey(uid)) !in {None, Some("")} ==>
              var resume := Get(st, ResumeKey(uid)).value;
              && AnalyzerCalls(out.events) == [(resume, job)]
              && |out.events| == 3
              && out.events[..2] == [Replied(Analyzing), AnalyzerCalled(resume, job)]
              && out.events[|out.events| - 1] == match env.analyze(resume, job)
                                                 case Some(report) => Replied(Results(report))
                                                 case None => Raised(AnalyzerRaised)
  {
    match Get(st, ResumeKey(uid))
    case None => Outcome(st, [Replied(NotFound)])
    case Some(resume) =>
      if resume == "" then Outcome(st, [Replied(NotFound)])
      else
        var last := match env.analyze(resume, job)
                    case Some(report) => Replied(Results(report))
                    case None => Raised(AnalyzerRaised);
        var events := [Replied(Analyzing), AnalyzerCalled(resume, job), last];
        assert AnalyzerCalls(events[2..]) == [] by { assert events[2..][1..] == []; }
        assert AnalyzerCalls(events[1..]) == [(resume, job)] by { assert events[1..][1..] == events[2..]; }
        Outcome(st, events)
  }

  /** An incoming update: a document, a text, anything else (no handler
      matches), or the clock moving on between updates. */
  datatype Input =
    | DocumentMessage(uid: int, doc: Document)
    | TextMessage(uid: int, text: string)
    | OtherMessage
    | Elapse(seconds: nat)

  /** Dispatch: documents to the document handler, non-empty texts to the
      text handler, everything else dropped. */
  function Step(env: Env, st: Store, input: Input): (out: Outcome)
    ensures !input.DocumentMessage? ==> out.store.entries == st.entries
    ensures out.store.now == st.now + Elapsed([input])
    ensures input.OtherMessage? || input.Elapse? || (input.TextMessage? && input.text == "") ==>
              out.events == []
    ensures input.DocumentMessage? && UploadText(env, input.doc) !in {None, Some("")} ==>
              && out.store == SetEx(st, ResumeKey(input.uid), ResumeTtl, UploadText(env, input.doc).value)
              && |out.events| > 0 && out.events[|out.events| - 1] == Replied(Saved)
    ensures input.DocumentMessage? && UploadText(env, input.doc) in {None, Some("")} ==> out.store == st
    ensures !input.TextMessage? ==> AnalyzerCalls(out.events) == []
    ensures input.TextMessage? && input.text != "" ==>
              var resume := Get(st, ResumeKey(input.uid));
              AnalyzerCalls(out.events) ==
                if resume in {None, Some("")} then [] else [(resume.value, input.text)]
  {
    match input
    case DocumentMessage(uid, doc) =>
      HandleResumeCallsNoAnalyzer(env, st, uid, doc);
      HandleResume(env, st, uid, doc)
    case TextMessage(uid, text) => if text == "" then Outcome(st, []) else HandleJobLink(env, st, uid, text)
    case OtherMessage => Outcome(st, [])
    case Elapse(seconds) => Outcome(Advance(st, seconds), [])
  }

  /** The seconds the clock moves on over a sequence of updates. */
  function Elapsed(inputs: seq<Input>): nat {
    if inputs == [] then 0
    else (if inputs[0].Elapse? then inputs[0].seconds else 0) + Elapsed(inputs[1..])
  }

  /** A sequence of updates handled one after the other; only the passing of
      time moves the clock. */
  function Run(env: Env, st: Store, inputs: seq<Input>): (out: Outcome)
    ensures out.store.now == st.now + Elapsed(inputs)
    ensures NoTexts(inputs) ==> AnalyzerCalls(out.events) == []
    decreases |inputs|
  {
    if inputs == [] then Outcome(st, [])
    else
      var first := Step(env, st, inputs[0]);
      var rest := Run(env, first.store, inputs[1..]);
      assert NoTexts(inputs) ==> !inputs[0].TextMessage? && NoTexts(inputs[1..]);
      AnalyzerCallsConcat(first.events, rest.events);
      Outcome(rest.store, first.events + rest.events)
  }

  /** No update in the sequence is a text message. */
  predicate NoTexts(inputs: seq<Input>) {
    forall i :: 0 <= i < |inputs| ==> !inputs[i].TextMessage?
  }
}
