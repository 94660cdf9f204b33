/**
 The `POST /check-plagiarism` request as a whole, for main.py and for the
 older app.py: the external services (PDF text extraction, the summarizer,
 the corpus search and insert) appear as the values they produced, and the
 corpus as the sequence of documents admitted so far.
 */
module Endpoint {
  import opened Wrappers
  import opened Http
  import opened ChainOutput
  import opened Upload
  import opened DuplicateCheck
  import opened Distinct

  /** The record handed to the corpus: the summary as page content plus its metadata (app.py records no size). */
  datatype SubmittedDocument = SubmittedDocument(summary: string, sourceFile: Option<string>, skills: string, fileSize: Option<nat>)

  /**
   How the corpus's `add_documents` call turns out: it succeeds, it raises, or
   it succeeds and the `describe_index_stats` call that follows it raises.
   */
  datatype InsertOutcome = InsertSucceeds | InsertRaises | StatsRaise

  /** Whether the document reached the corpus. */
  predicate Stored(outcome: InsertOutcome) {
    outcome != InsertRaises
  }

  /** What a request did to the corpus: the documents it asked to insert, and the corpus afterwards. */
  datatype CorpusEffect = CorpusEffect(attempted: seq<SubmittedDocument>, corpus: seq<SubmittedDocument>)

  /** main.py's JSON body (`max_score` before rounding). */
  datatype Response = Response(
    plagiarismDetected: bool,
    maxScore: real,
    matchedFiles: seq<string>,
    threshold: real,
    documentAdded: bool)

  /** app.py's JSON body. */
  datatype LegacyResponse = LegacyResponse(plagiarismDetected: bool, maxScore: real, matchedFiles: seq<Option<string>>)

  /** main.py's outcome of one request: the reply or the raised error, and the corpus effect. */
  datatype Exchange = Exchange(result: Result<Response, HttpError>, effect: CorpusEffect)

  /** app.py's outcome: `None` when an exception escaped the handler. */
  datatype LegacyExchange = LegacyExchange(result: Option<LegacyResponse>, effect: CorpusEffect)

  const ModelError: HttpError := HttpError(500, "Failed to process document with AI model")
  const SearchError: HttpError := HttpError(500, "Failed to search for similar documents")

  /**
   The admission policy: one insert attempt exactly when nothing was detected.
   The corpus grows by the document only when that attempt succeeds, and
   what it held before is never changed.
   */
  function Admit(detected: bool, doc: SubmittedDocument, corpus: seq<SubmittedDocument>, outcome: InsertOutcome): (e: CorpusEffect)
    ensures e.attempted == (if detected then [] else [doc])
    ensures |e.corpus| == |corpus| + (if !detected && Stored(outcome) then 1 else 0)
    ensures e.corpus[..|corpus|] == corpus
    ensures |e.corpus| > |corpus| ==> e.corpus[|corpus|] == doc
  {
    if detected then CorpusEffect([], corpus)
    else if Stored(outcome) then CorpusEffect([doc], corpus + [doc])
    else CorpusEffect([doc], corpus)
  }

  /** main.py's response for a decision: `document_added` is the negated flag, whatever the insert did. */
  function Respond(d: Decision): (r: Response)
    ensures r.plagiarismDetected == d.detected && r.maxScore == d.maxScore && r.matchedFiles == d.matchedFiles
    ensures r.documentAdded != r.plagiarismDetected
    ensures r.threshold == Threshold
  {
    Response(d.detected, d.maxScore, d.matchedFiles, Threshold, !d.detected)
  }

  /**
   main.py's `check_plagiarism`: validate, extract, summarize, parse, search,
   decide, admit, respond. The first failing step decides the error and a
   failed request leaves the corpus alone.
   */
  function CheckPlagiarism(
    upload: UploadFile,
    fileSize: nat,
    extracted: Result<string, HttpError>,
    reply: Option<string>,
    hits: Option<seq<Match>>,
    insert: InsertOutcome,
    corpus: seq<SubmittedDocument>): (x: Exchange)
    ensures Validate(upload).Some? ==> x.result == Failure(Validate(upload).value)
    ensures Validate(upload).None? && extracted.Failure? ==> x.result == Failure(extracted.error)
    ensures Validate(upload).None? && extracted.Success? && reply.None? ==> x.result == Failure(ModelError)
    ensures (Validate(upload).None? && extracted.Success? && reply.Some? && Parse(reply.value).Failure?)
              ==> x.result == Failure(ParseError)
    ensures (Validate(upload).None? && extracted.Success? && reply.Some? && Parse(reply.value).Success? && hits.None?)
              ==> x.result == Failure(SearchError)
    ensures x.result.Failure? ==> x.effect == CorpusEffect([], corpus)
    ensures x.result.Success? <==>
              Validate(upload).None? && extracted.Success? && reply.Some? && Parse(reply.value).Success? && hits.Some?
    ensures x.result.Success? ==>
              && (x.result.value.plagiarismDetected <==> AnyFlagged(hits.value))
              && IsBestScore(hits.value, x.result.value.maxScore)
              && x.result.value.matchedFiles == Dedup(ReportedNames(hits.value))
              && x.result.value.threshold == Threshold
              && x.result.value.documentAdded == !x.result.value.plagiarismDetected
    ensures x.result.Success? && x.result.value.plagiarismDetected ==> x.effect == CorpusEffect([], corpus)
    ensures x.result.Success? && !x.result.value.plagiarismDetected ==>
              && |x.effect.attempted| == 1
              && x.effect.corpus == (if Stored(insert) then corpus + x.effect.attempted else corpus)
    ensures |x.effect.attempted| <= 1
    ensures x.effect.attempted != [] ==> x.result.Success? && !x.result.value.plagiarismDetected
    ensures x.effect.attempted != [] ==>
              x.effect.attempted == [SubmittedDocument(Parse(reply.value).value.summary, upload.filename,
                                                       Parse(reply.value).value.skills, Some(fileSize))]
  {
    var none := CorpusEffect([], corpus);
    if Validate(upload).Some? then Exchange(Failure(Validate(upload).value), none)
    else if extracted.Failure? then Exchange(Failure(extracted.error), none)
    else if reply.None? then Exchange(Failure(ModelError), none)
    else
      var parsed := Parse(reply.value);
      if parsed.Failure? then Exchange(Failure(parsed.error), none)
      else
        var doc := SubmittedDocument(parsed.value.summary, upload.filename, parsed.value.skills, Some(fileSize));
        if hits.None? then Exchange(Failure(SearchError), none)
        else
          var d := Analyze(hits.value);
          Exchange(Success(Respond(d)), Admit(d.detected, doc, corpus, insert))
  }

  /** A failed insert or stats call is swallowed: the reply does not depend on how the insert turned out. */
  lemma InsertFailureIsolated(
    upload: UploadFile, fileSize: nat, extracted: Result<string, HttpError>,
    reply: Option<string>, hits: Option<seq<Match>>, corpus: seq<SubmittedDocument>,
    one: InsertOutcome, other: InsertOutcome)
    ensures CheckPlagiarism(upload, fileSize, extracted, reply, hits, one, corpus).result
         == CheckPlagiarism(upload, fileSize, extracted, reply, hits, other, corpus).result
  {
  }

  /** After a failed insert main.py still answers `document_added: true`, though the corpus did not grow. */
  lemma DocumentAddedDespiteFailedInsert(
    upload: UploadFile, fileSize: nat, text: string, reply: string, hits: seq<Match>, corpus: seq<SubmittedDocument>)
    requires Validate(upload).None? && Parse(reply).Success? && !AnyFlagged(hits)
    ensures var x := CheckPlagiarism(upload, fileSize, Success(text), Some(reply), Some(hits), InsertRaises, corpus);
            && x.result.Success? && x.result.value.documentAdded
            && |x.effect.attempted| == 1
            && x.effect.corpus == corpus
  {
  }

  /**
   A new document is stored with the parsed summary and skills and the upload's
   name and size whenever `add_documents` succeeds, even if the stats call after it raises.
   */
  lemma NovelDocumentAdmitted(
    upload: UploadFile, fileSize: nat, text: string, reply: string, hits: seq<Match>,
    insert: InsertOutcome, corpus: seq<SubmittedDocument>)
    requires Validate(upload).None? && Parse(reply).Success? && !AnyFlagged(hits) && Stored(insert)
    ensures var x := CheckPlagiarism(upload, fileSize, Success(text), Some(reply), Some(hits), insert, corpus);
            var p := Parse(reply).value;
            x.effect.corpus == corpus + [SubmittedDocument(p.summary, upload.filename, p.skills, Some(fileSize))]
  {
  }

  /**
   app.py's `check_plagiarism`: no validation, no empty-summary check, and a
   failed insert escapes the handler, as does a failure of the stats call
   after a successful insert, which leaves the document stored.
   */
  function CheckPlagiarismLegacy(
    filename: Option<string>,
    reply: string,
    hits: seq<Match>,
    insert: InsertOutcome,
    corpus: seq<SubmittedDocument>): (x: LegacyExchange)
    ensures x.result.None? <==> !AnyFlagged(hits) && insert != InsertSucceeds
    ensures x.result.Some? ==> (x.result.value.plagiarismDetected <==> AnyFlagged(hits))
    ensures x.result.Some? ==> IsBestScore(hits, x.result.value.maxScore)
    ensures x.result.Some? ==> x.result.value.matchedFiles == FlaggedSources(hits)
    ensures x.effect.attempted == [] <==> AnyFlagged(hits)
    ensures |x.effect.attempted| <= 1
    ensures x.effect.attempted != [] ==>
              x.effect.attempted == [SubmittedDocument(Fields(reply).summary, filename, Fields(reply).skills, None)]
    ensures x.effect.corpus ==
              if !AnyFlagged(hits) && Stored(insert) then corpus + x.effect.attempted else corpus
  {
    var p := Fields(reply);
    var doc := SubmittedDocument(p.summary, filename, p.skills, None);
    var d := AnalyzeLegacy(hits);
    var effect := Admit(d.detected, doc, corpus, insert);
    if !d.detected && insert != InsertSucceeds then LegacyExchange(None, effect)
    else LegacyExchange(Some(LegacyResponse(d.detected, d.maxScore, d.matchedFiles)), effect)
  }

  /** app.py admits a document whose summary is empty, where main.py refuses the request. */
  lemma EmptySummaryAdmittedOnlyByLegacy(upload: UploadFile, fileSize: nat, text: string, corpus: seq<SubmittedDocument>)
    requires Validate(upload).None?
    ensures CheckPlagiarismLegacy(upload.filename, "SUMMARY:\n", [], InsertSucceeds, corpus).effect.corpus
         == corpus + [SubmittedDocument("", upload.filename, "", None)]
    ensures CheckPlagiarism(upload, fileSize, Success(text), Some("SUMMARY:\n"), Some([]), InsertSucceeds, corpus)
         == Exchange(Failure(ParseError), CorpusEffect([], corpus))
  {
    EmptySummaryRefusedOnlyByParse();
  }

  /** The body main.py's handler for status 413 sends in place of the raised detail. */
  const TooLargeReply: HttpError := HttpError(413, "File too large")

  /** What the client receives: a 413 error has its detail replaced, every other outcome passes through. */
  function Deliver(result: Result<Response, HttpError>): (sent: Result<Response, HttpError>)
    ensures sent.Success? <==> result.Success?
    ensures result.Success? ==> sent == result
    ensures result.Failure? ==> sent.error.status == result.error.status
    ensures result.Failure? && result.error.status != 413 ==> sent == result
    ensures result.Failure? && result.error.status == 413 ==> sent == Failure(TooLargeReply)
  {
    if result.Failure? && result.error.status == 413 then Failure(TooLargeReply) else result
  }

  /** An oversized upload reaches the client as 413 "File too large", whatever else the request holds. */
  lemma OversizedUploadReply(
    upload: UploadFile, fileSize: nat, extracted: Result<string, HttpError>,
    reply: Option<string>, hits: Option<seq<Match>>, insert: InsertOutcome, corpus: seq<SubmittedDocument>)
    requires TooLarge(upload)
    ensures Deliver(CheckPlagiarism(upload, fileSize, extracted, reply, hits, insert, corpus).result) == Failure(TooLargeReply)
  {
  }

  /** In app.py a failing stats call after a stored document leaves it stored, yet no reply is sent. */
  lemma LegacyStatsFailureStoresWithoutReply(filename: Option<string>, reply: string, hits: seq<Match>, corpus: seq<SubmittedDocument>)
    requires !AnyFlagged(hits)
    ensures var x := CheckPlagiarismLegacy(filename, reply, hits, StatsRaise, corpus);
            && x.result.None?
            && x.effect.corpus == corpus + [SubmittedDocument(Fields(reply).summary, filename, Fields(reply).skills, None)]
  {
  }
}
