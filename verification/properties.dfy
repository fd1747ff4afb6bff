/**
 Properties of the handlers that span several calls or several modules: what
 a document upload does to the store, the store invariant over any sequence
 of updates, the 48-hour lifetime of a resume seen through the text handler,
 and how the document handler's allow-list relates to the parser's routing.
 */
module BotProperties {
  import opened Wrappers
  import opened Strings
  import opened Paths
  import opened Parser
  import opened TtlStore
  import opened Bot

  /** An upload whose parsed text is non-empty. */
  predicate Saves(env: Env, doc: Document) {
    UploadText(env, doc).Some? && UploadText(env, doc).value != ""
  }

  /** An upload changes the store only by writing this user's key, and only
      when the parsed text is non-empty; the key then holds that text (with
      no surrounding whitespace) for 48 hours, whatever it held before. */
  lemma UploadWritesOnlyOwnKey(env: Env, st: Store, uid: int, doc: Document)
    ensures var out := HandleResume(env, st, uid, doc);
            && out.store.now == st.now
            && (forall k :: k != ResumeKey(uid) ==> Get(out.store, k) == Get(st, k))
            && (!Saves(env, doc) ==> out.store == st)
            && (Saves(env, doc) ==>
                  && Get(out.store, ResumeKey(uid)) == UploadText(env, doc)
                  && Trimmed(UploadText(env, doc).value)
                  && out.store.entries[ResumeKey(uid)].expiresAt == st.now + ResumeTtl)
  {
    if Saves(env, doc) {
      var name := doc.fileName.value;
      var r := ParseResume(Join(env.uploadDir, name), doc.pdf, doc.docx);
      assert r.Ok? && UploadText(env, doc).value == r.value.text;
    }
  }

  /** The "saved" reply comes last, right after the store write it reports. */
  lemma SavedReplyFollowsWrite(env: Env, st: Store, uid: int, doc: Document)
    requires Saves(env, doc)
    ensures var events := HandleResume(env, st, uid, doc).events;
            && |events| == 5
            && events[4] == Replied(Saved)
            && events[3] == Stored(ResumeKey(uid), UploadText(env, doc).value, ResumeTtl)
  {
  }

  /** An upload by one user never changes what another user's key reads. */
  lemma UploadKeepsOtherUsers(env: Env, st: Store, uid: int, other: int, doc: Document)
    requires other != uid
    ensures Get(HandleResume(env, st, uid, doc).store, ResumeKey(other)) == Get(st, ResumeKey(other))
  {
    if ResumeKey(other) == ResumeKey(uid) {
      ResumeKeyInjective(other, uid);
    }
    UploadWritesOnlyOwnKey(env, st, uid, doc);
  }

  /** One update of any kind keeps the invariant that no resume key holds the
      empty string. */
  lemma StepKeepsResumesNonEmpty(env: Env, st: Store, input: Input)
    requires ResumesNonEmpty(st)
    ensures ResumesNonEmpty(Step(env, st, input).store)
  {
    match input
    case DocumentMessage(uid, doc) =>
      if Saves(env, doc) {
        WriteKeepsResumesNonEmpty(st, ResumeKey(uid), ResumeTtl, UploadText(env, doc).value);
      }
    case _ =>
  }

  /** Writing a non-empty value under any key keeps the invariant. */
  lemma WriteKeepsResumesNonEmpty(st: Store, key: string, ttl: nat, value: string)
    requires ttl > 0 && value != ""
    requires ResumesNonEmpty(st)
    ensures ResumesNonEmpty(SetEx(st, key, ttl, value))
  {
    var out := SetEx(st, key, ttl, value);
    forall k | k in out.entries && IsResumeKey(k) ensures out.entries[k].value != "" {
      if k != key {
        assert k in st.entries - {key};
      }
    }
  }

  /** The invariant holds after any sequence of updates. */
  lemma {:induction false} RunKeepsResumesNonEmpty(env: Env, st: Store, inputs: seq<Input>)
    requires ResumesNonEmpty(st)
    ensures ResumesNonEmpty(Run(env, st, inputs).store)
    decreases |inputs|
  {
    if inputs != [] {
      StepKeepsResumesNonEmpty(env, st, inputs[0]);
      RunKeepsResumesNonEmpty(env, Step(env, st, inputs[0]).store, inputs[1..]);
    }
  }

  /** Handling two batches of updates one after the other is handling their
      concatenation: the store flows from the first into the second and the
      traces are concatenated. */
  lemma {:induction false} RunConcat(env: Env, st: Store, a: seq<Input>, b: seq<Input>)
    ensures var first := Run(env, st, a);
            var second := Run(env, first.store, b);
            Run(env, st, a + b) == Outcome(second.store, first.events + second.events)
    decreases |a|
  {
    if a == [] {
      assert a + b == b;
    } else {
      var head := Step(env, st, a[0]);
      assert (a + b)[0] == a[0];
      assert (a + b)[1..] == a[1..] + b;
      RunConcat(env, head.store, a[1..], b);
      var tail := Run(env, head.store, a[1..]);
      var second := Run(env, tail.store, b);
      assert head.events + (tail.events + second.events) == (head.events + tail.events) + second.events;
    }
  }

  /** Through the dispatcher, an upload changes at most its sender's key and
      leaves the clock where it was. */
  lemma UploadStepChangesOnlySendersKey(env: Env, st: Store, uid: int, doc: Document)
    ensures var out := Step(env, st, DocumentMessage(uid, doc));
            && out.store.entries - {ResumeKey(uid)} == st.entries - {ResumeKey(uid)}
            && out.store.now == st.now
  {
  }

  predicate NoUploads(inputs: seq<Input>) {
    forall i :: 0 <= i < |inputs| ==> !inputs[i].DocumentMessage?
  }

  /** Text messages, other messages and the passing of time never write the
      store: without uploads its entries stay as they were. */
  lemma {:induction false} RunWithoutUploadsKeepsEntries(env: Env, st: Store, inputs: seq<Input>)
    requires NoUploads(inputs)
    ensures Run(env, st, inputs).store.entries == st.entries
    decreases |inputs|
  {
    if inputs != [] {
      assert !inputs[0].DocumentMessage?;
      RunWithoutUploadsKeepsEntries(env, Step(env, st, inputs[0]).store, inputs[1..]);
    }
  }

  /** A saved resume is found by the text handler for exactly 48 hours: a
      job text sent `elapsed` seconds after the upload is analyzed against it
      if and only if `elapsed` is under 172800. */
  lemma ResumeFoundFor48Hours(env: Env, st: Store, uid: int, doc: Document, elapsed: nat, job: string)
    requires Saves(env, doc)
    ensures var later := Advance(HandleResume(env, st, uid, doc).store, elapsed);
            AnalyzerCalls(HandleJobLink(env, later, uid, job).events) ==
              if elapsed < ResumeTtl then [(UploadText(env, doc).value, job)] else []
  {
    UploadWritesOnlyOwnKey(env, st, uid, doc);
    ReadableForTtl(st, ResumeKey(uid), ResumeTtl, UploadText(env, doc).value, elapsed);
  }

  /** The same through the dispatcher: a document, then `elapsed` seconds,
      then a job text from the same user. The upload reaches the document
      handler and the text the text handler, so the analyzer is called once,
      on the uploaded resume and the job text, exactly when the text arrives
      within 48 hours, and not at all otherwise. */
  lemma UploadWaitAskThroughDispatch(env: Env, st: Store, uid: int, doc: Document, elapsed: nat, job: string)
    requires Saves(env, doc)
    requires job != ""
    ensures var inputs := [DocumentMessage(uid, doc), Elapse(elapsed), TextMessage(uid, job)];
            AnalyzerCalls(Run(env, st, inputs).events) ==
              if elapsed < ResumeTtl then [(UploadText(env, doc).value, job)] else []
  {
    var first := Step(env, st, DocumentMessage(uid, doc));
    var second := Step(env, first.store, Elapse(elapsed));
    var third := Step(env, second.store, TextMessage(uid, job));
    RunThree(env, st, DocumentMessage(uid, doc), Elapse(elapsed), TextMessage(uid, job));
    AnalyzerCallsConcat(first.events, second.events + third.events);
    AnalyzerCallsConcat(second.events, third.events);
    assert second.store == Advance(first.store, elapsed);
    assert first.store == SetEx(st, ResumeKey(uid), ResumeTtl, UploadText(env, doc).value);
    ReadableForTtl(st, ResumeKey(uid), ResumeTtl, UploadText(env, doc).value, elapsed);
  }

  /** Three updates handled in a row: each step starts from the store the
      previous one left, and the traces follow one another. */
  lemma RunThree(env: Env, st: Store, x: Input, y: Input, z: Input)
    ensures var first := Step(env, st, x);
            var second := Step(env, first.store, y);
            var third := Step(env, second.store, z);
            Run(env, st, [x, y, z]) == Outcome(third.store, first.events + (second.events + third.events))
  {
    var first := Step(env, st, x);
    assert [x, y, z] == [x] + [y, z];
    RunConcat(env, st, [x], [y, z]);
    RunOne(env, st, x);
    RunTwo(env, first.store, y, z);
  }

  /** Two updates handled in a row. */
  lemma RunTwo(env: Env, st: Store, y: Input, z: Input)
    ensures var second := Step(env, st, y);
            var third := Step(env, second.store, z);
            Run(env, st, [y, z]) == Outcome(third.store, second.events + third.events)
  {
    var second := Step(env, st, y);
    assert [y, z] == [y] + [z];
    RunConcat(env, st, [y], [z]);
    RunOne(env, st, y);
    RunOne(env, second.store, z);
  }

  /** One update handled on its own is one step. */
  lemma RunOne(env: Env, st: Store, x: Input)
    ensures Run(env, st, [x]) == Step(env, st, x)
  {
    assert [x][1..] == [];
    var first := Step(env, st, x);
    assert first.events + [] == first.events;
  }
}
