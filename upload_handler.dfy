/**
 * The `POST /upload` handler of the current service version: filename
 * check, per-request store configuration, page-text extraction, a prompt
 * over the first 3500 characters, up to three language-model attempts,
 * JSON parsing with a `{"raw": ...}` fallback, and the insert of one
 * `contracts` row whose `raw_text` holds the first 5000 characters.
 *
 * The collaborators (the PDF library, the language-model client, the JSON
 * parser, the store client and the clock) are given as an `Env`. The
 * handler is `UploadFile`, a method proved equal to the functional
 * specification `Handle`; the lemmas below state what `Handle` promises.
 */
module UploadHandler {
  import opened Ingest

  const PdfSuffix: string := ".pdf"
  /** Model attempts per request: `for attempt in range(3)`. */
  const MaxAttempts: nat := 3

  /** The ways a request can fail; each carries its own status and message. */
  datatype ErrorKind =
    | UnsupportedMediaType
    | ConfigurationMissing
    | ExtractionError
    | AnalysisUnavailable
    | PersistenceError
  {
    /**
     * Every failure is raised as an HTTPException except the missing store
     * configuration, which is a ValueError that the framework reports as a
     * bare internal server error.
     */
    predicate IsHttpException() {
      !ConfigurationMissing?
    }

    function Status(): nat {
      if UnsupportedMediaType? then 400 else 500
    }

    /** The HTTPException detail, or the ValueError message. */
    function Message(): string {
      match this
      case UnsupportedMediaType => "Only PDF files are supported."
      case ConfigurationMissing => "Missing SUPABASE_URL or SUPABASE_KEY env vars"
      case ExtractionError => "Failed to read PDF"
      case AnalysisUnavailable => "OpenAI API failed after 3 attempts"
      case PersistenceError => "Database insert failed"
    }
  }

  /** The analysis result: the parsed model output, or the raw output when it is not JSON. */
  datatype Flags = Structured(value: Json) | RawFallback(raw: string)
  {
    /** The value stored in the `flags` column and returned: a fallback is `{"raw": output}`. */
    function ToJson(): Json {
      match this
      case Structured(v) => v
      case RawFallback(s) => JObject([("raw", JString(s))])
    }
  }

  /** One row of the `contracts` table. */
  datatype Row = Row(fileName: string, createdAt: string, rawText: string, flags: Json)

  /** The collaborators of one request, as the outcomes they produce. */
  datatype Env = Env(
    supabaseUrl: Option<string>,
    supabaseKey: Option<string>,
    extract: seq<bv8> -> Document,
    /** The outcome of the i-th model call; a call past the end of the script fails. */
    replies: seq<Attempt>,
    parse: string -> Option<Json>,
    insert: InsertOutcome,
    /** `datetime.utcnow().isoformat()` at the insert. */
    now: string)

  datatype Response = Completed(flags: Flags) | Failed(error: ErrorKind)
  {
    /** The JSON body of a successful response: `{"flags": flags}`. */
    function Body(): Json
      requires Completed?
    {
      JObject([("flags", flags.ToJson())])
    }
  }

  datatype Outcome = Outcome(response: Response, trace: seq<Effect<Row>>)

  /** The outcome of call number `i` of the script. */
  function AttemptAt(replies: seq<Attempt>, i: nat): Attempt {
    if i < |replies| then replies[i] else CallFailed
  }

  // ---------------------------------------------------------------------
  // Specification
  // ---------------------------------------------------------------------

  const Tail: string := "\n"

  /** The prompt sent to the model for the extracted text. */
  function Prompt(text: string): string {
    Render(text, Tail)
  }

  /** What the retry loop ends with: the reply and the calls made, or the calls made when none replied. */
  datatype RetryResult = Answered(output: string, calls: nat) | Exhausted(calls: nat)

  /** The retry policy from attempt `attempt` on: stop at the first reply, give up after attempt 3. */
  function RetryFrom(replies: seq<Attempt>, attempt: nat): RetryResult
    decreases MaxAttempts - attempt
  {
    if attempt >= MaxAttempts then Exhausted(attempt)
    else match AttemptAt(replies, attempt)
      case Reply(content) => Answered(content, attempt + 1)
      case CallFailed => RetryFrom(replies, attempt + 1)
  }

  function Retry(replies: seq<Attempt>): RetryResult {
    RetryFrom(replies, 0)
  }

  /** The parsed output, or `{"raw": output}` when the parser rejects it; never a failure. */
  function ParseFlags(output: string, parse: string -> Option<Json>): Flags {
    match parse(output)
    case Some(v) => Structured(v)
    case None => RawFallback(output)
  }

  /** The effects up to and including the PDF extraction. */
  function Opened(req: Upload, env: Env): seq<Effect<Row>>
    requires !Missing(env.supabaseUrl) && !Missing(env.supabaseKey)
  {
    [ConnectStore(env.supabaseUrl.value, env.supabaseKey.value), ReadUpload, OpenPdf(req.contents)]
  }

  /** The handler as a function of the request and its collaborators. */
  function Handle(req: Upload, env: Env): Outcome {
    if !EndsWith(req.filename, PdfSuffix) then Outcome(Failed(UnsupportedMediaType), [])
    else if Missing(env.supabaseUrl) || Missing(env.supabaseKey) then Outcome(Failed(ConfigurationMissing), [])
    else
      var before := Opened(req, env);
      match env.extract(req.contents)
      case Unreadable => Outcome(Failed(ExtractionError), before)
      case Pages(texts) =>
        var text := Concat(texts);
        var prompt := Prompt(text);
        match Retry(env.replies)
        case Exhausted(n) => Outcome(Failed(AnalysisUnavailable), before + Calls(prompt, n))
        case Answered(output, n) =>
          var flags := ParseFlags(output, env.parse);
          var row := Row(req.filename, env.now, Prefix(text, RawTextLimit), flags.ToJson());
          var trace := before + Calls(prompt, n) + [ParseOutput(output), InsertRow(row)];
          if env.insert == InsertFailed then Outcome(Failed(PersistenceError), trace)
          else Outcome(Completed(flags), trace)
  }

  // ---------------------------------------------------------------------
  // The handler
  // ---------------------------------------------------------------------

  method UploadFile(req: Upload, env: Env) returns (response: Response, trace: seq<Effect<Row>>)
    ensures Outcome(response, trace) == Handle(req, env)
  {
    trace := [];
    if !EndsWith(req.filename, PdfSuffix) {
      return Failed(UnsupportedMediaType), trace;
    }
    if Missing(env.supabaseUrl) || Missing(env.supabaseKey) {
      return Failed(ConfigurationMissing), trace;
    }
    trace := trace + [ConnectStore(env.supabaseUrl.value, env.supabaseKey.value)];
    trace := trace + [ReadUpload];

    trace := trace + [OpenPdf(req.contents)];
    var doc := env.extract(req.contents);
    if doc.Unreadable? {
      return Failed(ExtractionError), trace;
    }
    var text := Concat(doc.texts);
    var prompt := Prompt(text);

    ghost var before := trace;
    ghost var calls := 0;
    var output := "";
    for attempt := 0 to MaxAttempts
      invariant attempt < MaxAttempts
      invariant trace == before + Calls(prompt, attempt)
      invariant forall j :: 0 <= j < attempt ==> AttemptAt(env.replies, j) == CallFailed
    {
      trace := trace + [CallModel(prompt)];
      assert trace == before + Calls(prompt, attempt + 1);
      var reply := AttemptAt(env.replies, attempt);
      if reply.Reply? {
        output := reply.content;
        calls := attempt + 1;
        RetryAnswersFirstReply(env.replies, attempt);
        break;
      }
      if attempt == MaxAttempts - 1 {
        RetryExhausts(env.replies);
        return Failed(AnalysisUnavailable), trace;
      }
    }
    assert Retry(env.replies) == Answered(output, calls);
    assert trace == before + Calls(prompt, calls);

    var flags: Flags;
    var parsed := env.parse(output);
    trace := trace + [ParseOutput(output)];
    if parsed.Some? {
      flags := Structured(parsed.value);
    } else {
      flags := RawFallback(output);
    }

    var row := Row(req.filename, env.now, Prefix(text, RawTextLimit), flags.ToJson());
    trace := trace + [InsertRow(row)];
    if env.insert == InsertFailed {
      return Failed(PersistenceError), trace;
    }
    return Completed(flags), trace;
  }

  // ---------------------------------------------------------------------
  // The retry policy
  // ---------------------------------------------------------------------

  /** After `k < 3` failed calls, a reply on call `k + 1` is used and ends the loop. */
  lemma {:induction false} RetryAnswersFirstReply(replies: seq<Attempt>, k: nat)
    requires k < MaxAttempts
    requires forall j :: 0 <= j < k ==> AttemptAt(replies, j) == CallFailed
    requires AttemptAt(replies, k).Reply?
    ensures Retry(replies) == Answered(AttemptAt(replies, k).content, k + 1)
  {
    RetrySkipsFailures(replies, 0, k);
  }

  lemma {:induction false} RetrySkipsFailures(replies: seq<Attempt>, from: nat, k: nat)
    requires from <= k <= MaxAttempts
    requires forall j :: from <= j < k ==> AttemptAt(replies, j) == CallFailed
    ensures RetryFrom(replies, from) == RetryFrom(replies, k)
    decreases k - from
  {
    if from < k {
      RetrySkipsFailures(replies, from + 1, k);
    }
  }

  /** When all three calls fail, exactly three were made. */
  lemma RetryExhausts(replies: seq<Attempt>)
    requires forall j :: 0 <= j < MaxAttempts ==> AttemptAt(replies, j) == CallFailed
    ensures Retry(replies) == Exhausted(MaxAttempts)
  {
    RetrySkipsFailures(replies, 0, MaxAttempts);
  }

  /** The converse: what the loop ends with tells which calls failed and which replied. */
  lemma RetryMeaning(replies: seq<Attempt>)
    ensures Retry(replies).Answered? ==>
      var n := Retry(replies).calls;
      1 <= n <= MaxAttempts
      && AttemptAt(replies, n - 1) == Reply(Retry(replies).output)
      && forall j :: 0 <= j < n - 1 ==> AttemptAt(replies, j) == CallFailed
    ensures Retry(replies).Exhausted? ==>
      Retry(replies).calls == MaxAttempts
      && forall j :: 0 <= j < MaxAttempts ==> AttemptAt(replies, j) == CallFailed
  {
  }

  // ---------------------------------------------------------------------
  // Properties of the handler
  // ---------------------------------------------------------------------

  /** A filename not ending in ".pdf" (case-sensitive) is refused before anything else happens. */
  lemma RejectsNonPdf(req: Upload, env: Env)
    requires !EndsWith(req.filename, PdfSuffix)
    ensures Handle(req, env) == Outcome(Failed(UnsupportedMediaType), [])
    ensures UnsupportedMediaType.Status() == 400
  {
  }

  /** An upload named "notes.txt" is answered 400 "Only PDF files are supported."; so is "report.PDF". */
  lemma TextAndUpperCaseNamesRejected(contents: seq<bv8>, env: Env)
    ensures var r := Handle(Upload("notes.txt", contents), env).response;
      r.Failed? && r.error.Status() == 400 && r.error.Message() == "Only PDF files are supported."
    ensures Handle(Upload("report.PDF", contents), env).response == Failed(UnsupportedMediaType)
    ensures Handle(Upload("report.pdf", contents), env).response != Failed(UnsupportedMediaType)
  {
    assert "notes.txt"[5..] != PdfSuffix by { assert "notes.txt"[6] != PdfSuffix[1]; }
    assert "report.PDF"[6..] != PdfSuffix by { assert "report.PDF"[7] != PdfSuffix[1]; }
    assert "report.pdf"[6..] == PdfSuffix;
  }

  /** Each failure kind has its own message. */
  lemma MessagesDistinct(a: ErrorKind, b: ErrorKind)
    ensures a.Message() == b.Message() <==> a == b
  {
  }

  /** The filename check lets through exactly the names of the form `stem + ".pdf"`. */
  lemma AcceptsExactlyPdfNames(req: Upload, env: Env)
    ensures Handle(req, env).response != Failed(UnsupportedMediaType)
      <==> exists stem :: stem + PdfSuffix == req.filename
  {
    EndsWithIff(req.filename, PdfSuffix);
  }

  /** A missing store setting fails the request before the upload is read, with a ValueError. */
  lemma MissingConfigurationStops(req: Upload, env: Env)
    requires EndsWith(req.filename, PdfSuffix)
    requires Missing(env.supabaseUrl) || Missing(env.supabaseKey)
    ensures Handle(req, env) == Outcome(Failed(ConfigurationMissing), [])
    ensures !ConfigurationMissing.IsHttpException()
  {
  }

  /** An unreadable PDF fails with "Failed to read PDF": no model call, no parse, no insert. */
  lemma ExtractionFailureStops(req: Upload, env: Env)
    requires EndsWith(req.filename, PdfSuffix)
    requires !Missing(env.supabaseUrl) && !Missing(env.supabaseKey)
    requires env.extract(req.contents) == Unreadable
    ensures Handle(req, env).response == Failed(ExtractionError)
    ensures Handle(req, env).trace == Opened(req, env)
    ensures ModelCalls(Handle(req, env).trace) == 0
  {
    ModelCallsNone(Opened(req, env));
  }

  /**
   * After k < 3 failures, call k + 1 replies: exactly k + 1 calls are made,
   * all with the same prompt, and that reply is the one parsed.
   */
  lemma FirstReplyIsUsed(req: Upload, env: Env, k: nat)
    requires EndsWith(req.filename, PdfSuffix)
    requires !Missing(env.supabaseUrl) && !Missing(env.supabaseKey)
    requires env.extract(req.contents).Pages?
    requires k < MaxAttempts
    requires forall j :: 0 <= j < k ==> AttemptAt(env.replies, j) == CallFailed
    requires AttemptAt(env.replies, k).Reply?
    ensures var out := Handle(req, env);
      var prompt := Prompt(Concat(env.extract(req.contents).texts));
      && ModelCalls(out.trace) == k + 1
      && out.trace[..3 + k + 1] == Opened(req, env) + Calls(prompt, k + 1)
      && out.trace[3 + k + 1] == ParseOutput(AttemptAt(env.replies, k).content)
      && out.response != Failed(AnalysisUnavailable)
  {
    RetryAnswersFirstReply(env.replies, k);
    var out := Handle(req, env);
    var prompt := Prompt(Concat(env.extract(req.contents).texts));
    var tail: seq<Effect<Row>> := out.trace[3 + k + 1..];
    assert out.trace == Opened(req, env) + Calls(prompt, k + 1) + tail;
    ModelCallsAppend(Opened(req, env) + Calls(prompt, k + 1), tail);
    ModelCallsAppend(Opened(req, env), Calls<Row>(prompt, k + 1));
    ModelCallsNone(Opened(req, env));
    ModelCallsNone(tail);
    ModelCallsOfCalls<Row>(prompt, k + 1);
  }

  /** Three failed calls fail the request: exactly three calls, then no parse and no insert. */
  lemma ExhaustedRetriesStop(req: Upload, env: Env)
    requires EndsWith(req.filename, PdfSuffix)
    requires !Missing(env.supabaseUrl) && !Missing(env.supabaseKey)
    requires env.extract(req.contents).Pages?
    requires forall j :: 0 <= j < MaxAttempts ==> AttemptAt(env.replies, j) == CallFailed
    ensures var out := Handle(req, env);
      && out.response == Failed(AnalysisUnavailable)
      && out.trace == Opened(req, env) + Calls(Prompt(Concat(env.extract(req.contents).texts)), MaxAttempts)
      && ModelCalls(out.trace) == MaxAttempts
  {
    RetryExhausts(env.replies);
    var prompt := Prompt(Concat(env.extract(req.contents).texts));
    ModelCallsAppend(Opened(req, env), Calls<Row>(prompt, MaxAttempts));
    ModelCallsNone(Opened(req, env));
    ModelCallsOfCalls<Row>(prompt, MaxAttempts);
  }

  /**
   * Parsing never fails the request. On success the flags come from the reply
   * that ended the retry loop: the parsed value verbatim (any JSON value, no
   * key check) when the parser accepts it, `{"raw": reply}` otherwise; the
   * stored row and the response body carry the same value.
   */
  lemma ParseFallback(req: Upload, env: Env)
    requires EndsWith(req.filename, PdfSuffix)
    requires !Missing(env.supabaseUrl) && !Missing(env.supabaseKey)
    requires env.extract(req.contents).Pages?
    requires Retry(env.replies).Answered?
    ensures var out := Handle(req, env);
      var reply := Retry(env.replies).output;
      && out.response != Failed(AnalysisUnavailable)
      && (env.insert == Inserted ==> out.response.Completed?)
      && (env.parse(reply).Some? ==>
            && (out.response.Completed? ==> out.response.flags == Structured(env.parse(reply).value))
            && out.trace[|out.trace| - 1].row.flags == env.parse(reply).value)
      && (env.parse(reply).None? ==>
            && (out.response.Completed? ==> out.response.Body() == JObject([("flags", JObject([("raw", JString(reply))]))]))
            && out.trace[|out.trace| - 1].row.flags == JObject([("raw", JString(reply))]))
  {
  }

  /** A JSON reply of the form {"raw": s} is indistinguishable, once stored or returned, from the fallback for s. */
  lemma FallbackIsAmbiguous(s: string)
    ensures Structured(JObject([("raw", JString(s))])).ToJson() == RawFallback(s).ToJson()
  {
  }

  /**
   * A request succeeds exactly when the name ends in ".pdf", both settings are
   * present, the PDF reads, some call of the three replies and the insert succeeds.
   */
  lemma SucceedsIff(req: Upload, env: Env)
    ensures Handle(req, env).response.Completed? <==>
      && EndsWith(req.filename, PdfSuffix)
      && !Missing(env.supabaseUrl) && !Missing(env.supabaseKey)
      && env.extract(req.contents).Pages?
      && (exists k :: 0 <= k < MaxAttempts && AttemptAt(env.replies, k).Reply?)
      && env.insert == Inserted
  {
    RetryMeaning(env.replies);
    if exists k :: 0 <= k < MaxAttempts && AttemptAt(env.replies, k).Reply? {
      var k :| 0 <= k < MaxAttempts && AttemptAt(env.replies, k).Reply?;
      assert Retry(env.replies).Answered?;
    }
  }

  /**
   * On success the stored row holds the filename, the timestamp, the first
   * 5000 characters of the text and the very flags returned in `{"flags": flags}`:
   * those parsed from the reply that ended the retry loop. The text sent to
   * the model is a prefix of the stored text.
   */
  lemma StoredIsReturned(req: Upload, env: Env)
    requires Handle(req, env).response.Completed?
    ensures env.extract(req.contents).Pages? && Retry(env.replies).Answered?
    ensures var out := Handle(req, env);
      var text := Concat(env.extract(req.contents).texts);
      var row := Row(req.filename, env.now, Prefix(text, RawTextLimit), out.response.flags.ToJson());
      && out.response.flags == ParseFlags(Retry(env.replies).output, env.parse)
      && |out.trace| > 3
      && out.trace[|out.trace| - 1] == InsertRow(row)
      && out.response.Body() == JObject([("flags", out.trace[|out.trace| - 1].row.flags)])
      && out.trace[3] == CallModel(Prompt(text))
      && Embedded(out.trace[3].prompt, Tail) <= row.rawText
  {
    var text := Concat(env.extract(req.contents).texts);
    RenderRoundTrip(text, Tail);
    PrefixOfPrefix(text, RawTextLimit, ContextLimit);
  }

  /** A failed insert fails the request with "Database insert failed"; no flags are returned. */
  lemma InsertFailureStops(req: Upload, env: Env)
    requires EndsWith(req.filename, PdfSuffix)
    requires !Missing(env.supabaseUrl) && !Missing(env.supabaseKey)
    requires env.extract(req.contents).Pages?
    requires Retry(env.replies).Answered?
    requires env.insert == InsertFailed
    ensures Handle(req, env).response == Failed(PersistenceError)
    ensures var t := Handle(req, env).trace; |t| > 0 && t[|t| - 1].InsertRow?
  {
  }

  /** Collaborators are called stage by stage, never going back to an earlier stage. */
  lemma StagesInOrder(req: Upload, env: Env)
    ensures InStageOrder(Handle(req, env).trace)
  {
    if EndsWith(req.filename, PdfSuffix) && !Missing(env.supabaseUrl) && !Missing(env.supabaseKey) {
      if env.extract(req.contents).Pages? {
        var text := Concat(env.extract(req.contents).texts);
        var prompt := Prompt(text);
        match Retry(env.replies)
        case Exhausted(n) =>
          CallsInStageOrder(req, env, prompt, n);
        case Answered(output, n) =>
          var row := Row(req.filename, env.now, Prefix(text, RawTextLimit), ParseFlags(output, env.parse).ToJson());
          CallsInStageOrder(req, env, prompt, n);
          ParseAndInsertAfter(Opened(req, env) + Calls(prompt, n), output, row);
      }
    }
  }

  /** Opening the store, the upload and the PDF, then the model calls, is in stage order. */
  lemma CallsInStageOrder(req: Upload, env: Env, prompt: string, n: nat)
    requires !Missing(env.supabaseUrl) && !Missing(env.supabaseKey)
    ensures InStageOrder(Opened(req, env) + Calls(prompt, n))
    ensures forall i :: 0 <= i < |Opened(req, env) + Calls(prompt, n)| ==> Rank((Opened(req, env) + Calls(prompt, n))[i]) <= 3
  {
    InStageOrderAppend(Opened(req, env), Calls<Row>(prompt, n));
  }

  /** A parse and an insert after effects of the model stage or earlier keep the stage order. */
  lemma ParseAndInsertAfter(t: seq<Effect<Row>>, output: string, row: Row)
    requires InStageOrder(t)
    requires forall i :: 0 <= i < |t| ==> Rank(t[i]) <= 3
    ensures InStageOrder(t + [ParseOutput(output), InsertRow(row)])
  {
    InStageOrderAppend(t, [ParseOutput(output), InsertRow(row)]);
  }

  /**
   * A failed stage is the last one touched: no collaborator of a later stage
   * is called, and the store is written only after a model reply.
   */
  lemma NothingAfterFailure(req: Upload, env: Env)
    ensures var out := Handle(req, env);
      match out.response
      case Failed(UnsupportedMediaType) => out.trace == []
      case Failed(ConfigurationMissing) => out.trace == []
      case Failed(ExtractionError) => forall i :: 0 <= i < |out.trace| ==> Rank(out.trace[i]) <= 2
      case Failed(AnalysisUnavailable) => forall i :: 0 <= i < |out.trace| ==> Rank(out.trace[i]) <= 3
      case _ => forall i :: 0 <= i < |out.trace| && out.trace[i].InsertRow? ==>
                  0 < i && out.trace[i - 1].ParseOutput? && out.trace[i - 2].CallModel?
  {
  }
}
