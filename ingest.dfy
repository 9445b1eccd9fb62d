/**
 * Values and pure text operations shared by both versions of the
 * contract-ingestion handler (`POST /upload`): the upload, the page texts
 * the PDF library yields, the outcome of a language-model call or a table
 * insert, JSON values, Python-style prefix slicing and suffix matching,
 * page concatenation, the analysis prompt, and the trace of collaborator
 * calls a request makes.
 */
module Ingest {

  datatype Option<+T> = None | Some(value: T)

  /** A JSON value as `json.loads` returns it; a number keeps its literal text. */
  datatype Json =
    | JNull
    | JBool(b: bool)
    | JNumber(literal: string)
    | JString(s: string)
    | JArray(items: seq<Json>)
    | JObject(members: seq<(string, Json)>)

  /** The multipart field `file`: the client's filename and the uploaded bytes. */
  datatype Upload = Upload(filename: string, contents: seq<bv8>)

  /**
   * What the PDF library makes of the uploaded bytes: the text of every
   * page in page order, or an error while opening the stream or reading a page.
   */
  datatype Document = Pages(texts: seq<string>) | Unreadable

  /** The outcome of one chat-completion call: the message content, or an exception. */
  datatype Attempt = Reply(content: string) | CallFailed

  /** The outcome of one table insert. */
  datatype InsertOutcome = Inserted | InsertFailed

  /**
   * One call a request makes to a collaborator, in the order made;
   * `R` is the shape of the row handed to the store.
   */
  datatype Effect<R> =
    | ConnectStore(url: string, key: string)
    | ReadUpload
    | OpenPdf(bytes: seq<bv8>)
    | CallModel(prompt: string)
    | ParseOutput(output: string)
    | InsertRow(row: R)

  /** An environment setting is missing when it is unset or empty (Python's `not value`). */
  predicate Missing(setting: Option<string>) {
    setting.None? || setting.value == ""
  }

  // ---------------------------------------------------------------------
  // Prefix slicing and suffix matching
  // ---------------------------------------------------------------------

  /** Characters of extracted text embedded in the prompt. */
  const ContextLimit: nat := 3500
  /** Characters of extracted text stored in the `raw_text` column. */
  const RawTextLimit: nat := 5000

  /** Python's `s[:n]` for `n >= 0`: the longest prefix of `s` with at most `n` characters. */
  function Prefix(s: string, n: nat): (r: string)
    ensures |r| <= n && r <= s
    ensures |r| == n || r == s
  {
    if |s| <= n then s else s[..n]
  }

  /** Truncating twice keeps the shorter budget: the prompt's text is a prefix of the stored text. */
  lemma PrefixOfPrefix(s: string, m: nat, n: nat)
    requires n <= m
    ensures Prefix(Prefix(s, m), n) == Prefix(s, n)
    ensures Prefix(s, n) <= Prefix(s, m)
  {
  }

  /** Python's `s.endswith(suffix)`: exact and case-sensitive. */
  predicate EndsWith(s: string, suffix: string) {
    |suffix| <= |s| && s[|s| - |suffix|..] == suffix
  }

  /** `s` ends with `suffix` exactly when `s` is some stem followed by `suffix`. */
  lemma EndsWithIff(s: string, suffix: string)
    ensures EndsWith(s, suffix) <==> exists stem :: stem + suffix == s
  {
    if EndsWith(s, suffix) {
      var stem := s[..|s| - |suffix|];
      assert stem + suffix == s;
    }
    if exists stem :: stem + suffix == s {
      var stem :| stem + suffix == s;
      assert s[|s| - |suffix|..] == suffix;
    }
  }

  /** Whatever is put in front of a string, it keeps the string's suffixes. */
  lemma EndsWithAppend(front: string, s: string, suffix: string)
    requires EndsWith(s, suffix)
    ensures EndsWith(front + s, suffix)
  {
    assert (front + s)[|front + s| - |suffix|..] == s[|s| - |suffix|..];
  }

  // ---------------------------------------------------------------------
  // Page concatenation
  // ---------------------------------------------------------------------

  /** `"".join(pages)`: the page texts in order, with no separator. */
  function Concat(pages: seq<string>): string {
    if pages == [] then "" else pages[0] + Concat(pages[1..])
  }

  /** Concatenation distributes over splitting the page list. */
  lemma {:induction false} ConcatAppend(a: seq<string>, b: seq<string>)
    ensures Concat(a + b) == Concat(a) + Concat(b)
  {
    if a == [] {
      assert a + b == b;
    } else {
      assert (a + b)[1..] == a[1..] + b;
      ConcatAppend(a[1..], b);
    }
  }

  /** Appending one page appends its text: what `text += page.get_text()` relies on. */
  lemma {:induction false} ConcatSnoc(pages: seq<string>, page: string)
    ensures Concat(pages + [page]) == Concat(pages) + page
  {
    ConcatAppend(pages, [page]);
    assert Concat([page]) == page + Concat([]);
  }

  /** Page `i` sits, unseparated, between the text of the pages before it and after it. */
  lemma {:induction false} ConcatPage(pages: seq<string>, i: nat)
    requires i < |pages|
    ensures Concat(pages) == Concat(pages[..i]) + pages[i] + Concat(pages[i + 1..])
  {
    var rest := [pages[i]] + pages[i + 1..];
    assert pages == pages[..i] + rest;
    ConcatAppend(pages[..i], rest);
    assert rest[0] == pages[i] && rest[1..] == pages[i + 1..];
    assert Concat(rest) == pages[i] + Concat(pages[i + 1..]);
  }

  /** Adding pages only extends the text: what came before is a prefix, and the length does not drop. */
  lemma {:induction false} ConcatGrows(pages: seq<string>, more: seq<string>)
    ensures Concat(pages) <= Concat(pages + more)
    ensures |Concat(pages)| <= |Concat(pages + more)|
  {
    ConcatAppend(pages, more);
  }

  /** The text is empty exactly when every page's text is empty (in particular, for no pages). */
  lemma {:induction false} ConcatEmptyIff(pages: seq<string>)
    ensures Concat(pages) == "" <==> forall i :: 0 <= i < |pages| ==> pages[i] == ""
  {
    if pages != [] {
      ConcatEmptyIff(pages[1..]);
      assert forall i :: 1 <= i < |pages| ==> pages[i] == pages[1..][i - 1];
    }
  }

  // ---------------------------------------------------------------------
  // The analysis prompt
  // ---------------------------------------------------------------------

  /** The fixed part of the prompt before the contract text (both versions). */
  const PromptHead: string :=
    "\nYou are a contract risk analyzer. Identify red flags in the following vendor contract text in plain English:\n"
    + "1. Auto-renewal clauses\n"
    + "2. Termination fees\n"
    + "3. Payment terms longer than 30 days\n"
    + "4. Compliance or legal risks\n"
    + "5. Exclusivity or lock-in\n"
    + "\n"
    + "Return them as a JSON object under keys:\n"
    + "- auto_renewal\n"
    + "- termination_fees\n"
    + "- payment_terms\n"
    + "- compliance_gaps\n"
    + "- exclusivity_clauses\n"
    + "\n"
    + "Contract:\n"

  /** The prompt: the fixed head, the truncated text, then the version's fixed tail. */
  function Render(text: string, tail: string): string {
    PromptHead + Prefix(text, ContextLimit) + tail
  }

  /** The contract text a prompt carries between the head and `tail`. */
  function Embedded(prompt: string, tail: string): string {
    if |PromptHead| + |tail| <= |prompt| then prompt[|PromptHead|..|prompt| - |tail|] else ""
  }

  /** A rendered prompt carries exactly `text[:3500]`, so at most 3500 characters of the text. */
  lemma RenderRoundTrip(text: string, tail: string)
    ensures Embedded(Render(text, tail), tail) == Prefix(text, ContextLimit)
    ensures |Embedded(Render(text, tail), tail)| <= ContextLimit
    ensures Embedded(Render(text, tail), tail) <= text
  {
    var p := Render(text, tail);
    var e := Prefix(text, ContextLimit);
    assert p[|PromptHead|..|p| - |tail|] == e;
  }

  /** A rendered prompt ends with whatever its tail ends with. */
  lemma RenderEndsWith(text: string, tail: string, suffix: string)
    requires EndsWith(tail, suffix)
    ensures EndsWith(Render(text, tail), suffix)
  {
    EndsWithAppend(PromptHead + Prefix(text, ContextLimit), tail, suffix);
  }

  /** Two texts give the same prompt exactly when their first 3500 characters agree. */
  lemma RenderDeterminedByPrefix(a: string, b: string, tail: string)
    ensures Render(a, tail) == Render(b, tail) <==> Prefix(a, ContextLimit) == Prefix(b, ContextLimit)
  {
    if Render(a, tail) == Render(b, tail) {
      RenderRoundTrip(a, tail);
      RenderRoundTrip(b, tail);
    }
  }

  // ---------------------------------------------------------------------
  // Traces of collaborator calls
  // ---------------------------------------------------------------------

  /** The pipeline stage an effect belongs to, in the order the stages run. */
  function Rank<R>(e: Effect<R>): nat {
    match e
    case ConnectStore(_, _) => 0
    case ReadUpload => 1
    case OpenPdf(_) => 2
    case CallModel(_) => 3
    case ParseOutput(_) => 4
    case InsertRow(_) => 5
  }

  /** No effect of a later stage comes before an effect of an earlier one. */
  predicate InStageOrder<R>(trace: seq<Effect<R>>) {
    forall i, j :: 0 <= i < j < |trace| ==> Rank(trace[i]) <= Rank(trace[j])
  }

  /** `n` identical calls to the language model. */
  function Calls<R>(prompt: string, n: nat): seq<Effect<R>> {
    seq(n, _ => CallModel(prompt))
  }

  /** The number of language-model calls in a trace. */
  function ModelCalls<R>(trace: seq<Effect<R>>): nat {
    if trace == [] then 0 else (if trace[0].CallModel? then 1 else 0) + ModelCalls(trace[1..])
  }

  lemma {:induction false} ModelCallsAppend<R>(a: seq<Effect<R>>, b: seq<Effect<R>>)
    ensures ModelCalls(a + b) == ModelCalls(a) + ModelCalls(b)
  {
    if a == [] {
      assert a + b == b;
    } else {
      assert (a + b)[1..] == a[1..] + b;
      ModelCallsAppend(a[1..], b);
    }
  }

  lemma {:induction false} ModelCallsOfCalls<R>(prompt: string, n: nat)
    ensures ModelCalls(Calls<R>(prompt, n)) == n
  {
    if n > 0 {
      assert Calls<R>(prompt, n)[1..] == Calls<R>(prompt, n - 1);
      ModelCallsOfCalls<R>(prompt, n - 1);
    }
  }

  /** A trace with no model call at all counts none. */
  lemma {:induction false} ModelCallsNone<R>(trace: seq<Effect<R>>)
    requires forall i :: 0 <= i < |trace| ==> !trace[i].CallModel?
    ensures ModelCalls(trace) == 0
  {
    if trace != [] {
      assert forall i :: 0 <= i < |trace| - 1 ==> trace[1..][i] == trace[i + 1];
      ModelCallsNone(trace[1..]);
    }
  }

  /** Stage order is kept by concatenating two ordered traces whose stages do not overlap out of order. */
  lemma InStageOrderAppend<R>(a: seq<Effect<R>>, b: seq<Effect<R>>)
    requires InStageOrder(a) && InStageOrder(b)
    requires forall i, j :: 0 <= i < |a| && 0 <= j < |b| ==> Rank(a[i]) <= Rank(b[j])
    ensures InStageOrder(a + b)
  {
    forall i, j | 0 <= i < j < |a + b|
      ensures Rank((a + b)[i]) <= Rank((a + b)[j])
    {
      if j < |a| {
      } else if i < |a| {
        assert (a + b)[j] == b[j - |a|];
      } else {
        assert (a + b)[i] == b[i - |a|] && (a + b)[j] == b[j - |a|];
      }
    }
  }
}
