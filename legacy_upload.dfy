/**
 * The earlier `POST /upload` handler: no filename check, the store
 * configuration checked once when the service starts, the page texts
 * accumulated by a loop, a prompt over the first 3500 characters, a single
 * language-model call and an insert of the unparsed model output.
 *
 * Nothing in this version is caught: a failure of the PDF library, the
 * model call or the insert propagates out of the handler and the framework
 * answers with an internal server error.
 */
module LegacyUpload {
  import opened Ingest

  /** The store client the service creates at start-up. */
  datatype StoreClient = StoreClient(url: string, key: string)

  /** One row of the `contracts` table in this version: the analysis is the unparsed output. */
  datatype Row = Row(filename: string, createdAt: string, rawText: string, analysis: string)

  /** The collaborator whose exception ends the request. */
  datatype Crash = PdfError | ModelError | StoreError

  datatype Response = Returned(flags: string) | Crashed(cause: Crash)
  {
    /** The JSON body of a successful response: `{"flags": output}`, the output as a string. */
    function Body(): Json
      requires Returned?
    {
      JObject([("flags", JString(flags))])
    }
  }

  /** The collaborators of one request. */
  datatype Env = Env(
    extract: seq<bv8> -> Document,
    reply: Attempt,
    insert: InsertOutcome,
    /** `datetime.utcnow().isoformat()` at the insert. */
    now: string)

  datatype Outcome = Outcome(response: Response, trace: seq<Effect<Row>>)

  /**
   * Service start-up: without both store settings the module raises at
   * import time and serves no request; otherwise it creates the client.
   */
  function Startup(url: Option<string>, key: Option<string>): (client: Option<StoreClient>)
    ensures client.Some? <==> !Missing(url) && !Missing(key)
    ensures client.Some? ==> client.value == StoreClient(url.value, key.value)
  {
    if Missing(url) || Missing(key) then None else Some(StoreClient(url.value, key.value))
  }

  // ---------------------------------------------------------------------
  // Specification
  // ---------------------------------------------------------------------

  /** The handlers of a run of requests, each handled on its own, in order. */
  function HandleAll(reqs: seq<(Upload, Env)>): seq<Outcome> {
    if reqs == [] then [] else [Handle(reqs[0].0, reqs[0].1)] + HandleAll(reqs[1..])
  }

  /**
   * The service over a run of requests: when start-up raises, no request is
   * served at all; otherwise every request is handled with no further look at
   * the settings.
   */
  function Serve(url: Option<string>, key: Option<string>, reqs: seq<(Upload, Env)>): Option<seq<Outcome>> {
    match Startup(url, key)
    case None => None
    case Some(_) => Some(HandleAll(reqs))
  }

  /** The service runs exactly when both settings are present and non-empty at start-up. */
  lemma ServeStartsIff(url: Option<string>, key: Option<string>, reqs: seq<(Upload, Env)>)
    ensures Serve(url, key, reqs).Some? <==> !Missing(url) && !Missing(key)
  {
  }

  /** A running service answers request i exactly as the handler does on its own. */
  lemma ServeHandlesEach(url: Option<string>, key: Option<string>, reqs: seq<(Upload, Env)>)
    requires Serve(url, key, reqs).Some?
    ensures |Serve(url, key, reqs).value| == |reqs|
    ensures forall i :: 0 <= i < |reqs| ==> Serve(url, key, reqs).value[i] == Handle(reqs[i].0, reqs[i].1)
  {
    HandleAllEach(reqs);
  }

  lemma {:induction false} HandleAllEach(reqs: seq<(Upload, Env)>)
    ensures |HandleAll(reqs)| == |reqs|
    ensures forall i :: 0 <= i < |reqs| ==> HandleAll(reqs)[i] == Handle(reqs[i].0, reqs[i].1)
  {
    if reqs != [] {
      HandleAllEach(reqs[1..]);
      assert forall i :: 1 <= i < |reqs| ==> reqs[i] == reqs[1..][i - 1];
    }
  }

  /** The settings matter only at start-up: any two that start the service serve every request alike. */
  lemma SettingsOnlyGateStartup(url1: Option<string>, key1: Option<string>,
                                url2: Option<string>, key2: Option<string>, reqs: seq<(Upload, Env)>)
    requires Serve(url1, key1, reqs).Some? && Serve(url2, key2, reqs).Some?
    ensures Serve(url1, key1, reqs) == Serve(url2, key2, reqs)
  {
  }

  /**
   * The tail after the contract text: the f-string's final line reads
   * `{text[:3500]}  # truncate if needed`, and the comment is part of the string.
   */
  const Tail: string := "  # truncate if needed\n"

  function Prompt(text: string): string {
    Render(text, Tail)
  }

  /** The handler as a function of the request and its collaborators. */
  function Handle(req: Upload, env: Env): Outcome {
    var before: seq<Effect<Row>> := [ReadUpload, OpenPdf(req.contents)];
    match env.extract(req.contents)
    case Unreadable => Outcome(Crashed(PdfError), before)
    case Pages(texts) =>
      var text := Concat(texts);
      var called := before + [CallModel(Prompt(text))];
      match env.reply
      case CallFailed => Outcome(Crashed(ModelError), called)
      case Reply(output) =>
        var trace := called + [InsertRow(Row(req.filename, env.now, Prefix(text, RawTextLimit), output))];
        if env.insert == InsertFailed then Outcome(Crashed(StoreError), trace)
        else Outcome(Returned(output), trace)
  }

  // ---------------------------------------------------------------------
  // The handler
  // ---------------------------------------------------------------------

  /**
   * The request handler. It reads no configuration itself: `Serve` runs
   * `Handle`, which this method is proved equal to, only after `Startup` has
   * produced the client.
   */
  method UploadFile(req: Upload, env: Env) returns (response: Response, trace: seq<Effect<Row>>)
    ensures Outcome(response, trace) == Handle(req, env)
  {
    trace := [ReadUpload];
    trace := trace + [OpenPdf(req.contents)];
    var doc := env.extract(req.contents);
    if doc.Unreadable? {
      return Crashed(PdfError), trace;
    }
    var pages := doc.texts;
    var text := "";
    for i := 0 to |pages|
      invariant text == Concat(pages[..i])
    {
      ConcatSnoc(pages[..i], pages[i]);
      assert pages[..i + 1] == pages[..i] + [pages[i]];
      text := text + pages[i];
    }
    assert pages[..|pages|] == pages;

    var prompt := Prompt(text);
    trace := trace + [CallModel(prompt)];
    if env.reply.CallFailed? {
      return Crashed(ModelError), trace;
    }
    var output := env.reply.content;

    trace := trace + [InsertRow(Row(req.filename, env.now, Prefix(text, RawTextLimit), output))];
    if env.insert == InsertFailed {
      return Crashed(StoreError), trace;
    }
    return Returned(output), trace;
  }

  // ---------------------------------------------------------------------
  // Properties of the handler
  // ---------------------------------------------------------------------

  /** No filename check: whatever the name, the upload's bytes go straight to the PDF library. */
  lemma AnyUploadIsOpened(req: Upload, env: Env)
    ensures |Handle(req, env).trace| >= 2
    ensures Handle(req, env).trace[..2] == [ReadUpload, OpenPdf(req.contents)]
  {
  }

  /**
   * Exactly one model call once the PDF reads, none otherwise, and a failure
   * is not retried. The one call sends the prompt over the joined page texts.
   */
  lemma SingleModelCall(req: Upload, env: Env)
    ensures ModelCalls(Handle(req, env).trace) == if env.extract(req.contents).Pages? then 1 else 0
    ensures Handle(req, env).response == Crashed(ModelError) <==>
      env.extract(req.contents).Pages? && env.reply == CallFailed
    ensures env.extract(req.contents).Pages? ==>
      |Handle(req, env).trace| > 2
      && Handle(req, env).trace[2] == CallModel(Prompt(Concat(env.extract(req.contents).texts)))
  {
    var t := Handle(req, env).trace;
    if env.extract(req.contents).Pages? {
      var p := Prompt(Concat(env.extract(req.contents).texts));
      var rest := t[3..];
      assert t == [ReadUpload, OpenPdf(req.contents)] + [CallModel(p)] + rest;
      ModelCallsAppend([ReadUpload, OpenPdf(req.contents)] + [CallModel(p)], rest);
      ModelCallsAppend<Row>([ReadUpload, OpenPdf(req.contents)], [CallModel(p)]);
      ModelCallsNone<Row>([ReadUpload, OpenPdf(req.contents)]);
      ModelCallsNone(rest);
      assert ModelCalls<Row>([CallModel(p)]) == 1 + ModelCalls<Row>([]);
    } else {
      ModelCallsNone(t);
    }
  }

  /**
   * The prompt the handler sends carries the first 3500 characters of the
   * joined page texts, followed by the literal comment, which therefore
   * reaches the model.
   */
  lemma CommentReachesModel(req: Upload, env: Env)
    requires env.extract(req.contents).Pages?
    ensures var call := Handle(req, env).trace[2];
      && call.CallModel?
      && Embedded(call.prompt, Tail) == Prefix(Concat(env.extract(req.contents).texts), ContextLimit)
      && EndsWith(call.prompt, "# truncate if needed\n")
  {
    var text := Concat(env.extract(req.contents).texts);
    assert Handle(req, env).trace[2] == CallModel(Prompt(text));
    RenderRoundTrip(text, Tail);
    TailEndsWithComment();
    RenderEndsWith(text, Tail, "# truncate if needed\n");
  }

  /** The tail is the line's remainder, ending with the comment and its newline. */
  lemma TailEndsWithComment()
    ensures EndsWith(Tail, "# truncate if needed\n")
  {
    assert Tail[2..] == "# truncate if needed\n";
  }

  /**
   * On success the stored row holds the first 5000 characters of the text and
   * the unparsed output, which is also what is returned as `flags`.
   */
  lemma StoredIsReturned(req: Upload, env: Env)
    requires Handle(req, env).response.Returned?
    ensures env.extract(req.contents).Pages? && env.reply.Reply?
    ensures var out := Handle(req, env);
      var text := Concat(env.extract(req.contents).texts);
      && |out.trace| > 0
      && out.trace[|out.trace| - 1] == InsertRow(Row(req.filename, env.now, Prefix(text, RawTextLimit), out.response.flags))
      && out.response.flags == env.reply.content
  {
  }

  /**
   * Stages run in a fixed order (read, extract, model call, insert), and a
   * stage that raises is the last one run.
   */
  lemma StagesInOrder(req: Upload, env: Env)
    ensures InStageOrder(Handle(req, env).trace)
    ensures var out := Handle(req, env);
      match out.response
      case Crashed(PdfError) => |out.trace| == 2
      case Crashed(ModelError) => |out.trace| == 3 && out.trace[2].CallModel?
      case _ => |out.trace| == 4 && out.trace[2].CallModel? && out.trace[3].InsertRow?
  {
  }
}
