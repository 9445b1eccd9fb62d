# Contract-ingestion upload handler, modelled in Dafny

The service accepts a vendor contract as a PDF on `POST /upload`. It
extracts the text of the PDF and asks a language model to flag contract
risks: auto-renewal, termination fees, payment terms, compliance gaps and
exclusivity. It stores a row in the `contracts` table and returns
`{"flags": ...}`. The handler exists in two versions, and both are modelled:

- `tests/test_main.py` (module `UploadHandler`, file `upload_handler.dfy`) is the current handler. It runs these steps in order:
  1. an exact, case-sensitive `.endswith(".pdf")` filename check (400);
  2. a per-request check of `SUPABASE_URL`/`SUPABASE_KEY`, which raises a `ValueError`;
  3. page-text extraction (500 "Failed to read PDF");
  4. a prompt over `text[:3500]`;
  5. up to three model calls, stopping at the first reply (500 "OpenAI API failed after 3 attempts");
  6. JSON parsing, falling back to `{"raw": output}` and never failing;
  7. an insert whose `raw_text` is `text[:5000]` (500 "Database insert failed").
- `main.py` (module `LegacyUpload`, file `legacy_upload.dfy`) is the earlier handler. It has no filename check. It checks the store settings once, at service start-up. It builds the text with a `text += page.get_text()` loop, makes a single unretried model call, and stores and returns the unparsed output. Nothing in it is caught. Its prompt line is `{text[:3500]}  # truncate if needed` inside the f-string, so the literal `  # truncate if needed` is part of the prompt. `LegacyUpload.CommentReachesModel` states this. In `tests/test_main.py` that line holds only `{text[:3500]}`.

Module `Ingest` (file `ingest.dfy`) holds what both versions share. That covers the upload, the document as page texts, call and insert outcomes, and JSON values. It also has Python's `s[:n]` (`Prefix`), `s.endswith` (`EndsWith`) and `"".join` (`Concat`), and the prompt template (`Render`, with the inverse `Embedded`). Finally it holds the trace of collaborator calls (`Effect`, with `Rank` giving each call's pipeline stage).

The collaborators are inputs, not code:
- The PDF library is a function from the uploaded bytes to `Pages(texts)` or `Unreadable`.
- The model service is a script of per-call outcomes, `Reply(content)` or `CallFailed`. A call past the end of the script fails.
- `json.loads` is an oracle `string -> Option<Json>`.
- The insert is `Inserted` or `InsertFailed`.
- `datetime.utcnow().isoformat()` is an opaque timestamp string.

Each handler is a method, `UploadFile`. It returns the response and the trace of calls it made: connect to the store, read the upload, open the PDF, call the model, parse, insert. The method is proved equal to a functional specification, `Handle`. The lemmas about `Handle` state the promises: which failure stops where, how many calls were made, what was stored and returned, and the order of the stages. The retry policy is specified by the recursive `RetryFrom`/`Retry`. The retry lemmas characterise it in both directions. On the first reply after k < 3 failures, the request makes exactly k+1 calls and uses that reply. When all three calls fail, it makes exactly 3 calls.

On these points the model follows the code:
- A missing store setting is a `ValueError`, not a classified HTTP error (`ErrorKind.IsHttpException` is false for it).
- A parsed reply is kept verbatim as any JSON value, with no check of the five keys.
- The extracted text is empty exactly when every page's text is empty, not only for a document without pages (`ConcatEmptyIff`).
- The exhausted-retry error does not carry the last underlying error.

## Model

| member | source | states |
|---|---|---|
| `Ingest.Missing` | tests/test_main.py:39 | Python's `not value` on an environment setting, here and at main.py:12: true exactly when the setting is unset or empty |
| `Ingest.EndsWith` | tests/test_main.py:33 | Python's `s.endswith(suffix)`: exact and case-sensitive, the last `len(suffix)` characters equal `suffix` |
| `Ingest.Concat` | tests/test_main.py:48 | `"".join(page.get_text() for page in doc)`: the page texts in page order with no separator (its properties are the `Concat…` lemmas below) |
| `Ingest.Render` | tests/test_main.py:54-71 | the f-string prompt: the fixed role, five categories and five keys, then `text[:3500]`, then the version's tail |
| `Ingest.Prefix` | tests/test_main.py:70 | `s[:n]` is the longest prefix of `s` of at most `n` characters: no longer than `n`, a prefix of `s`, and either exactly `n` long or all of `s` |
| `Ingest.PrefixOfPrefix` | tests/test_main.py:100 | truncating to 5000 and then to 3500 is truncating to 3500; `UploadHandler.StoredIsReturned` uses it to show the prompt's text is a prefix of the stored `raw_text` |
| `Ingest.EndsWithIff` | tests/test_main.py:33 | `endswith(".pdf")` holds exactly when the name is some stem followed by `.pdf` |
| `Ingest.ConcatAppend` | tests/test_main.py:48 | the joined text of two runs of pages is the joined text of the first followed by that of the second |
| `Ingest.ConcatSnoc` | main.py:44-46 | appending a page's text to the accumulated text yields the join of the pages so far plus that page |
| `Ingest.ConcatPage` | tests/test_main.py:48 | every page's text appears in page order with no separator, between the text of the pages before and after it |
| `Ingest.ConcatGrows` | tests/test_main.py:48 | adding pages only extends the text: the old text is a prefix and the length never drops |
| `Ingest.ConcatEmptyIff` | tests/test_main.py:48 | the extracted text is empty if and only if every page's text is empty |
| `Ingest.RenderRoundTrip` | tests/test_main.py:54-71 | the prompt carries exactly `text[:3500]` between the fixed head and tail: at most 3500 characters, a prefix of the text |
| `Ingest.RenderDeterminedByPrefix` | tests/test_main.py:54-71 | two texts give the same prompt if and only if their first 3500 characters agree, so the prompt depends on the text alone |
| `UploadHandler.Prompt` | tests/test_main.py:54-71 | the current prompt: the template with only a newline after `text[:3500]` |
| `UploadHandler.ErrorKind.Status` | tests/test_main.py:33-105 | 400 for the filename check, 500 for every other failure (the ValueError becomes a 500 in the framework) |
| `UploadHandler.ErrorKind.Message` | tests/test_main.py:33-105 | the five literals of lines 34, 40, 51, 86 and 105, one per failure kind |
| `UploadHandler.ErrorKind.IsHttpException` | tests/test_main.py:33-105 | every failure is an `HTTPException` (lines 34, 51, 86, 105) except the missing store configuration, which is the `ValueError` of line 40 |
| `UploadHandler.Flags.ToJson` | tests/test_main.py:89-101 | the `flags` value: the parsed output as it is, or `{"raw": gpt_output}` for the fallback of line 93, stored at line 101 |
| `UploadHandler.Response.Body` | tests/test_main.py:107 | the success body `{"flags": flags}`, carrying the same value as the stored `flags` column |
| `UploadHandler.RetryFrom` | tests/test_main.py:74-86 | the retry policy from a given attempt on: the first reply ends it, failure of attempt 3 gives up |
| `UploadHandler.Retry` | tests/test_main.py:74-86 | the retry policy from attempt 0, `for attempt in range(3)` |
| `UploadHandler.ParseFlags` | tests/test_main.py:89-93 | `json.loads(gpt_output)` verbatim, or `{"raw": gpt_output}` when it raises |
| `UploadHandler.Handle` | tests/test_main.py:31-107 | the handler as a function: filename check, settings check, connect, read, extract, prompt, retries, parse, insert, response, with the calls made in order |
| `UploadHandler.UploadFile` | tests/test_main.py:31-107 | the handler, with its three-attempt loop, returns exactly the response and performs exactly the calls that `Handle` specifies |
| `UploadHandler.RejectsNonPdf` | tests/test_main.py:33-34 | a name not ending in `.pdf` gets 400 `UnsupportedMediaType` before any configuration check, read, extraction, model or store call (empty trace) |
| `UploadHandler.TextAndUpperCaseNamesRejected` | tests/test_main.py:33-34 | `notes.txt` gets 400 "Only PDF files are supported."; the check is case-sensitive (`report.PDF` refused, `report.pdf` let through) |
| `UploadHandler.AcceptsExactlyPdfNames` | tests/test_main.py:33 | the request passes the filename check if and only if the filename is some stem followed by `.pdf` |
| `UploadHandler.MessagesDistinct` | tests/test_main.py:33-105 | each of the five failure kinds has its own message |
| `UploadHandler.MissingConfigurationStops` | tests/test_main.py:36-41 | with either store setting unset or empty the request fails with a `ValueError` before the upload is read or any collaborator is called |
| `UploadHandler.ExtractionFailureStops` | tests/test_main.py:46-51 | an unreadable PDF gives 500 "Failed to read PDF" after opening the PDF, with no model call, parse or insert |
| `UploadHandler.RetryAnswersFirstReply` | tests/test_main.py:74-86 | if the first k < 3 calls fail and call k+1 replies, the loop ends with that reply after exactly k+1 calls |
| `UploadHandler.RetryExhausts` | tests/test_main.py:75-86 | if all three calls fail, the loop gives up after exactly three calls |
| `UploadHandler.RetryMeaning` | tests/test_main.py:74-86 | what the loop ends with tells which calls failed: a reply after n (1 to 3) calls means calls 1..n-1 failed and call n gave that reply; giving up means all three failed |
| `UploadHandler.FirstReplyIsUsed` | tests/test_main.py:74-93 | after k < 3 failures and a reply, the request makes exactly k+1 model calls with the same prompt, then parses that reply, and does not fail with `AnalysisUnavailable` |
| `UploadHandler.ExhaustedRetriesStop` | tests/test_main.py:74-86 | three failed calls give 500 "OpenAI API failed after 3 attempts" after exactly three calls, with no parse and no insert |
| `UploadHandler.ParseFallback` | tests/test_main.py:89-107 | after a reply, parsing never fails the request; the returned and stored flags are the parsed reply verbatim (any JSON value) when the parser accepts it, and `{"raw": reply}` otherwise |
| `UploadHandler.FallbackIsAmbiguous` | tests/test_main.py:89-93 | a reply that parses to `{"raw": s}` is stored and returned exactly as the fallback for `s` |
| `UploadHandler.SucceedsIff` | tests/test_main.py:31-107 | a request succeeds if and only if the name ends in `.pdf`, both settings are present, the PDF reads, one of the three calls replies, and the insert succeeds |
| `UploadHandler.StoredIsReturned` | tests/test_main.py:54-107 | on success the flags are those parsed from the reply that ended the retry loop; the last call inserts (filename, timestamp, `text[:5000]`, flags) and the body `{"flags": ...}` carries the very flags stored; the text in the model's prompt is a prefix of the stored `raw_text` |
| `UploadHandler.InsertFailureStops` | tests/test_main.py:96-105 | a failed insert gives 500 "Database insert failed" and returns no flags |
| `UploadHandler.StagesInOrder` | tests/test_main.py:41-102 | collaborators are called stage by stage (connect, read, extract, model, parse, insert), never returning to an earlier stage |
| `UploadHandler.NothingAfterFailure` | tests/test_main.py:33-105 | a failing stage is the last one touched: nothing after extraction when it fails, nothing after the model calls when they fail, and an insert only right after a parse that follows a model call |
| `LegacyUpload.Startup` | main.py:9-15 | the service starts, and creates its store client from the two settings, if and only if neither setting is unset or empty |
| `LegacyUpload.Response.Body` | main.py:81 | the success body `{"flags": gpt_output}`, with the unparsed output as a JSON string |
| `LegacyUpload.Serve` | main.py:9-81 | the service over a run of requests: nothing is served when start-up raises, otherwise each request goes to the handler |
| `LegacyUpload.ServeStartsIff` | main.py:9-15 | the service serves requests if and only if both settings are present and non-empty at start-up |
| `LegacyUpload.ServeHandlesEach` | main.py:37-81 | a running service answers every request exactly as the handler does on its own |
| `LegacyUpload.SettingsOnlyGateStartup` | main.py:9-15 | any two settings that start the service serve every run of requests alike: the settings are not looked at per request |
| `LegacyUpload.Handle` | main.py:37-81 | the handler as a function: read, extract, prompt, one model call, insert, return the unparsed output, with the calls made in order |
| `LegacyUpload.Prompt` | main.py:49-66 | the earlier prompt: the template with `  # truncate if needed` and a newline after `text[:3500]` |
| `LegacyUpload.UploadFile` | main.py:37-81 | the handler, with its page-accumulation loop, returns exactly the response and performs exactly the calls that `Handle` specifies |
| `LegacyUpload.AnyUploadIsOpened` | main.py:38-43 | whatever the filename, the handler reads the upload and hands its bytes to the PDF library first |
| `LegacyUpload.SingleModelCall` | main.py:43-71 | exactly one model call once the PDF reads and none otherwise, and it sends the prompt over the joined page texts; the request crashes in the model call if and only if the PDF reads and that one call fails |
| `LegacyUpload.CommentReachesModel` | main.py:43-71 | the prompt the handler sends carries the first 3500 characters of the joined page texts and ends with the literal `# truncate if needed` line |
| `LegacyUpload.StoredIsReturned` | main.py:74-81 | on success the last call inserts (filename, timestamp, `text[:5000]`, the unparsed output), and that same output is returned as `flags` |
| `LegacyUpload.StagesInOrder` | main.py:40-81 | read, extract, model call and insert run in that order, and a stage that raises is the last one run |

## Left out

- `frontend/src/App.jsx` is not part of this model. It is the browser UI, and its only logic, a case-insensitive `.pdf` check, duplicates the server check.
- The PDF library is an oracle from bytes to page texts or `Unreadable`. A failure to open the stream and a failure to read one page are the same outcome, because the handler treats them alike.
- The OpenAI and Supabase clients are per-call outcomes. A reply's content is always a string: a `None` content, which would give `{"raw": None}` in `tests/test_main.py`, is not modelled. The insert's outcome does not depend on the row.
- `create_client` (tests/test_main.py:41) is taken always to succeed. A client library that rejects a malformed URL or key is not modelled.
- `json.loads` is an uninterpreted oracle. No JSON parser is written; so the concrete examples "`{"auto_renewal":"yes"}` parses" and "`not json` falls back" hold only through the oracle.
- An upload without a filename (`file.filename` is `None`) is not modelled; the filename is always a string.
- Logging, CORS middleware, environment loading, the `OPENAI_API_KEY` check when the module loads (tests/test_main.py:26-28), and the repeated settings read in `main.py` (lines 29-35) are plumbing and are not modelled.
- async/await and the framework's mapping of exceptions to HTTP responses are not modelled. The outcome is a closed error kind with a status and a message. For the `ValueError` the message is the exception's text; the body the framework sends for it is not modelled.
- Concurrency is left out: each request is independent and makes its calls one after another.
