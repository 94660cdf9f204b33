# Plagiarism checker core, in Dafny

A model of the near-duplicate check behind the `POST /check-plagiarism`
endpoint of the plagiarism checker. The endpoint takes an uploaded PDF of a
requirements document. It has a language model summarize the document as
`SUMMARY: … SKILLS: …` and searches a vector store for the three most similar
earlier summaries. A document whose best match scores at least 0.75 is
reported as a near-duplicate. Any other document is offered to the store.

Two versions of the endpoint exist. Both are modelled so that they can be
compared:

- `main.py` validates the upload and refuses an empty summary. It reports each
  matched file once and swallows a failed insert.
- `app.py` is the earlier version. It does no validation and keeps every
  flagged name, repeats and missing names included. A failed insert escapes
  the handler.

Modules:

- `Wrappers`: `Option` and `Result`.
- `Http`: the `(status, detail)` pair of an HTTP error.
- `Text`: the Python string operations the parser uses:
  - `str.isspace` and `strip`;
  - `find`, `split` and `join`;
  - `replace(pat, "")`, proved equal to `"".join(s.split(pat))`;
  - `lower` and `endswith`.
- `Distinct`: keep-first deduplication of a list of names, with an independent
  recursive definition. A lemma links it to the "append unless already
  present" loop.
- `ChainOutput`: `parse_chain_output` (main.py) and the inline parse of app.py.
- `Upload`: `validate_file`.
- `DuplicateCheck`: the loop over the search hits in both versions, written as
  a left fold over prefixes of the hit list.
- `Endpoint`: admission, the response, and the whole request for both
  versions. The external services appear as the values they return: PDF
  extraction, the summarizer, the search results and the outcome of the
  insert. The corpus is the sequence of documents admitted so far.

Scores are real numbers. `max_score` starts at 0, as in the source.

Behaviour of the code that a caller might not expect:

- `validate_file` answers a missing or empty filename with 400 "Filename is
  required" (main.py:160-161). The program's own test expects 422 for an empty
  filename (test_app.py:201-209). That 422 comes from FastAPI's request
  validation before the handler runs, and that layer is not modelled.
- `document_added` is `not plagiarism_detected` even when the insert raised
  (main.py:280-290), so the reply can claim a document was added that was not.
  See `Endpoint.DocumentAddedDespiteFailedInsert`.
- The skills are the second piece of `split("SKILLS:")`, that is, the text
  between the first and second markers (main.py:183). It is not everything
  after the first marker. See `ChainOutput.FieldsWithSeveralMarkers`.
- A flagged hit whose `source_file` is missing or empty sets
  `plagiarism_detected` but adds nothing to `matched_files` (main.py:266-267).
  So "detected iff `matched_files` is non-empty" holds only when every flagged
  hit is named. See `DuplicateCheck.DetectedIffMatchedWhenNamed` and
  `DuplicateCheck.UnnamedHitDetectedButUnreported`.

## Model

| member | source | states |
|---|---|---|
| Text.Strip | main.py:182-183 | the result is empty exactly when the text is all whitespace; otherwise it neither starts nor ends with whitespace and is a slice of the input cut at whitespace-only ends |
| Text.StripUnique | main.py:182 | any way of cutting whitespace-only ends down to non-space characters gives `strip`'s result, so the result is determined |
| Text.StripIdempotent | main.py:182-183 | stripping a stripped text changes nothing |
| Text.IndexOf | main.py:181 | returns the first index where the marker occurs, and none exactly when it occurs nowhere |
| Text.Split | main.py:181 | text without the separator comes back as the single piece `[s]`, and text with it gives at least two pieces; `Text.SplitAtFirst` puts the first cut where `Text.IndexOf` finds the separator, and `ChainOutput.SplitOfFree` and `ChainOutput.SplitAtFirstMarker` decide the pieces for `SKILLS:` |
| Text.JoinSplit | main.py:181 | joining the pieces of `split(sep)` with `sep` gives back the original text |
| Text.RemoveAll | main.py:182 | never longer than its input; what it removes is pinned by `Text.RemoveAllIsJoinOfSplit` and `Text.RemoveAllOfFree` |
| Text.RemoveAllIsJoinOfSplit | main.py:182 | the left-to-right removal of `SUMMARY:` equals joining the pieces of `split("SUMMARY:")` with nothing between them |
| Text.RemoveAllOfFree | main.py:182 | text without the marker passes through `replace` unchanged |
| Text.Lower | main.py:163 | keeps the length of the name; ASCII-only, as listed under "Left out"; its effect on the extension test is stated by `Text.LowerEndsWith` and `Upload.ExtensionCaseIgnored` |
| Text.LowerEndsWith | main.py:163 | a name whose tail lowers to `.pdf` ends with `.pdf` once lowered |
| Distinct.Dedup | main.py:267-268 | the kept names have no repeats and are exactly the names of the input |
| Distinct.DedupSnoc | main.py:267-268 | appending a name already present leaves the deduplicated list alone; a new name is appended at the end, matching the loop's `not in` test |
| Distinct.DedupOfDistinct | main.py:267-268 | a list without repeats is its own deduplication |
| Distinct.DedupFirstSeenOrder | main.py:267-268 | kept names appear in the order their first occurrences appear |
| ChainOutput.Fields | app.py:105-107 | the split rule shared by app.py and main.py:181-183; it has no contract of its own and is pinned by `ChainOutput.FieldsWithoutSkills`, `ChainOutput.FieldsWithOneMarker` and `ChainOutput.FieldsWithSeveralMarkers` |
| ChainOutput.Parse | main.py:170-193 | fails with 500 "Failed to process document content" exactly when the text before the first `SKILLS:`, less `SUMMARY:`, is all whitespace; otherwise it returns the split rule's two fields, the summary non-empty and not starting with whitespace |
| ChainOutput.MarkerStartsAfterFreeHead | main.py:181 | in text free of `SKILLS:`, followed by the marker, the first marker found is that one |
| ChainOutput.FieldsWithoutSkills | main.py:181-183 | with no `SKILLS:` marker, the skills are empty and the summary is the whole reply less `SUMMARY:`, stripped |
| ChainOutput.FieldsWithOneMarker | main.py:181-183 | with one marker, the summary comes from the text before it and the skills are the stripped text after it |
| ChainOutput.FieldsWithSeveralMarkers | main.py:181-183 | with two or more markers, the skills are the text between the first two, and the rest is dropped |
| ChainOutput.ParseWellFormedReply | main.py:180-189 | `"SUMMARY:\nfoo\n\nSKILLS:\nbar,baz"` parses to summary `foo` and skills `bar,baz` |
| ChainOutput.ParseReplyWithoutSkills | main.py:181-183 | `"SUMMARY:\nfoo"` parses to summary `foo` and empty skills |
| ChainOutput.EmptySummaryRefusedOnlyByParse | main.py:186-193 | `"SUMMARY:\n"` is refused by main.py with the parse error, while app.py's rule yields two empty fields |
| ChainOutput.EmptySummaryFields | app.py:105-107 | a reply of `SUMMARY:` and then only whitespace has an empty summary and empty skills |
| Upload.Validate | main.py:143-168 | each error is returned exactly when its check is the first to fail: 413 for a known size over 10 MiB, 400 for a missing or empty name, 400 for a name not ending in `.pdf` in any case, 400 for a present content type other than `application/pdf`; none when all pass |
| Upload.ExtensionCaseIgnored | main.py:163-164 | a name ending in any capitalization of `.pdf` is judged as if it ended in `.pdf` |
| Upload.SizeCheckedFirst | main.py:154-157 | an oversized upload gets 413 whatever its name and content type |
| Upload.TextFileRefusedByExtension | main.py:163-164 | `test.txt` sent as `text/plain` is refused as "Only PDF files are supported", before its content type is checked |
| DuplicateCheck.ReportedNames | main.py:264-267 | a name is among those main.py would report exactly when some hit at or above the threshold carries it as a non-empty `source_file` |
| DuplicateCheck.FlaggedSources | app.py:125-127 | app.py's list holds exactly the `source_file` values of the flagged hits, and is no longer than the hit list |
| DuplicateCheck.Analyze | main.py:256-268 | the flag is set exactly when some score is at least 0.75; the best score is the largest of 0 and all scores; the matched files are the reported names, deduplicated keeping first occurrences |
| DuplicateCheck.AnalyzeLegacy | app.py:118-127 | the same flag and best score; the matched files are every flagged hit's `source_file`, in order |
| DuplicateCheck.BestScoreUnique | main.py:262-263 | the best score is determined by the scores alone |
| DuplicateCheck.MatchedFilesExact | main.py:264-268 | `matched_files` has no repeats, holds exactly the reportable names, and orders them by their first reporting hit |
| DuplicateCheck.DetectedIffMatchedWhenNamed | main.py:264-268 | when every flagged hit has a non-empty name, the flag is set exactly when `matched_files` is non-empty |
| DuplicateCheck.UnnamedHitDetectedButUnreported | main.py:264-267 | a single 0.9 hit without a `source_file` gives a set flag, best score 0.9 and no matched files |
| DuplicateCheck.AnalysisOrderIndependent | main.py:261-265 | two orderings of the same hits give the same flag and best score |
| DuplicateCheck.ThresholdInclusive | main.py:259-268 | a hit scoring exactly 0.75 is flagged and its file reported |
| DuplicateCheck.BelowThresholdKeepsBestScore | main.py:261-265 | hits at 0.5 and 0.3 flag nothing, but 0.5 is still reported as the best score |
| DuplicateCheck.RepeatsDropped | main.py:267-268 | two flagged hits on one file report it once |
| DuplicateCheck.SearchOrderKept | main.py:261-268 | distinct flagged files are reported in the order the search returned them |
| DuplicateCheck.NoHits | main.py:256-258 | no hits give no flag, best score 0 and no matched files |
| DuplicateCheck.ReportedNamesAreTruthyFlagged | main.py:266-267 | main.py's reported names are app.py's flagged names with the missing and empty ones removed |
| DuplicateCheck.AnalyzeRefinesLegacy | app.py:118-127 | both versions agree on the flag and best score, and main.py's list is app.py's, keeping only non-empty names, deduplicated |
| DuplicateCheck.LegacyDetectedIffMatched | app.py:125-127 | in app.py the flag is set exactly when the matched list is non-empty |
| DuplicateCheck.LegacyOneEntryPerFlaggedHit | app.py:125-127 | app.py's list has exactly one entry per flagged hit |
| DuplicateCheck.LegacyKeepsRepeatsAndMissing | app.py:125-127 | app.py reports a repeated name twice and a missing name as `None` |
| Endpoint.Admit | main.py:270-282 | the document is offered to the corpus exactly when nothing was detected; the corpus grows by exactly that document only when `add_documents` succeeded, and its earlier contents are kept |
| Endpoint.Respond | main.py:284-291 | the reply carries the decision's flag, best score and matched files; `document_added` is the negation of `plagiarism_detected`, and the threshold reported is 0.75 |
| Endpoint.CheckPlagiarism | main.py:217-294 | the first failing step decides the error (validation, extraction, 500 for the model, parse, 500 for the search); the request succeeds exactly when none fails; a failed request leaves the corpus untouched; a success reports the analysis of the hits; a detected duplicate leaves the corpus untouched, while a novel document is offered exactly once and stored exactly when `add_documents` succeeded; the document offered is the parsed summary and skills with the upload's filename and size |
| Endpoint.InsertFailureIsolated | main.py:270-282 | the response is the same whatever the insert and the stats call after it do |
| Endpoint.DocumentAddedDespiteFailedInsert | main.py:270-290 | after a failed insert of a novel document, the reply still says `document_added` while the corpus is unchanged |
| Endpoint.NovelDocumentAdmitted | main.py:238-277 | a novel document is stored with the parsed summary and skills, the upload's filename and the file size whenever `add_documents` succeeds, even if the stats call after it raises |
| Endpoint.Deliver | main.py:303-309 | the status of every outcome is kept; only a 413 error changes, its detail replaced by "File too large" |
| Endpoint.OversizedUploadReply | main.py:154-157 | an oversized upload reaches the client as 413 "File too large", whatever its name, content and the services' results |
| Endpoint.CheckPlagiarismLegacy | app.py:100-139 | app.py answers unless nothing was detected and the insert or the stats call after it raised; its flag and best score follow the hits and its matched files are every flagged hit's `source_file`; it offers exactly the parsed document, without a size, exactly when nothing was detected, and the corpus grows by it exactly when `add_documents` succeeded |
| Endpoint.LegacyStatsFailureStoresWithoutReply | app.py:129-132 | when the stats call after a successful insert raises, the document stays stored but no reply is sent |
| Endpoint.EmptySummaryAdmittedOnlyByLegacy | app.py:105-130 | app.py stores a document with an empty summary for the reply `"SUMMARY:\n"`, where main.py refuses the same reply with the parse error and stores nothing |

## Left out

- PDF text extraction (`extract_full_pdf_text`, main.py:103-140, app.py:91-94) is
  not modelled. It needs a PDF parser; its text or its error enters
  `Endpoint.CheckPlagiarism` as a parameter.
- The summarizer chain (prompt, model, output parser) is not modelled. It is a
  call into a language model; its reply, or its failure as `None`, is a
  parameter.
- Pinecone is not modelled: the index set-up, the embedding, the similarity
  search and `add_documents`. These are network services. The search results
  (or `None` for a failed search) and the insert outcome are parameters.
- The order and scores of the hits come from the search. The model takes them
  as given.
- `round(max_score, 4)` (main.py:287) is not modelled. Floating-point rounding
  is out of scope, and the model reports the unrounded best score.
- The catch-all 500 "Internal server error" handler (main.py:299-301) is not
  modelled. It covers exceptions from code this model does not include.
- FastAPI routing, request-body validation, `/health` and the JSON encoding
  are not modelled. They are framework behaviour. Of the exception handlers,
  only the 413 rewrite is modelled (`Endpoint.Deliver`).
- Logging is not modelled. In main.py, logging and `describe_index_stats` run
  inside the `try` around the insert (main.py:272-282), so they cannot change
  the reply. In app.py, `print` and `describe_index_stats` run after a
  successful insert with nothing to catch a failure (app.py:131-132). A
  failure there is modelled by the insert outcome `StatsRaise`: the document
  is stored but no reply is sent.
- Text.Lower: handles only ASCII letters, because Python's full Unicode case
  mapping is out of scope. Only ASCII matters for the `.pdf` check itself.
- app.py's exceptions from extraction, the chain and the search are not
  modelled. There the model covers only the uncaught insert failure; the other
  inputs are taken as having succeeded.
- Two concurrent requests with similar documents can both pass the search
  before either inserts. The model handles one request at a time, so this race
  is not modelled.
- a.py is not part of this model. It is unrelated to the endpoint.
