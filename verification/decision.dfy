/**
 The duplicate decision: given the corpus's top matches for a new summary,
 in the order the search returned them, decide whether the document is a
 near-duplicate, what the best score was, and which earlier files to report.
 main.py and app.py run the same loop with different bookkeeping for the
 reported files.
 */
module DuplicateCheck {
  import opened Wrappers
  import opened Distinct

  /** One search hit: the matched document's `source_file` metadata, which may be missing, and its similarity. */
  datatype Match = Match(sourceFile: Option<string>, score: real)

  /** Scores at or above this mark a near-duplicate. */
  const Threshold: real := 0.75

  /** main.py's analysis: reported files are distinct, non-empty names. */
  datatype Decision = Decision(detected: bool, maxScore: real, matchedFiles: seq<string>)

  /** app.py's analysis: reported files keep every flagged hit's name as it came, missing names included. */
  datatype LegacyDecision = LegacyDecision(detected: bool, maxScore: real, matchedFiles: seq<Option<string>>)

  predicate Flagged(m: Match) {
    m.score >= Threshold
  }

  predicate AnyFlagged(ms: seq<Match>) {
    exists i | 0 <= i < |ms| :: Flagged(ms[i])
  }

  /** `best` is the largest of 0 and all the scores. */
  predicate IsBestScore(ms: seq<Match>, best: real) {
    && best >= 0.0
    && (forall i | 0 <= i < |ms| :: ms[i].score <= best)
    && (best == 0.0 || exists i | 0 <= i < |ms| :: ms[i].score == best)
  }

  /** Whether main.py reports `name` for hit `m`: the hit is flagged and `name` is its truthy `source_file`. */
  predicate Reports(m: Match, name: string) {
    Flagged(m) && m.sourceFile == Some(name) && name != ""
  }

  /** The names main.py would report, hit by hit, repeats included. */
  function ReportedNames(ms: seq<Match>): (names: seq<string>)
    ensures forall x: string :: x in names <==> exists i | 0 <= i < |ms| :: Reports(ms[i], x)
    decreases |ms|
  {
    if ms == [] then []
    else
      var init := ms[..|ms| - 1];
      var m := ms[|ms| - 1];
      assert forall i | 0 <= i < |init| :: init[i] == ms[i];
      ReportedNames(init)
      + (if Flagged(m) && m.sourceFile.Some? && m.sourceFile.value != "" then [m.sourceFile.value] else [])
  }

  /** The `source_file` of every flagged hit, in order, as app.py collects them. */
  function FlaggedSources(ms: seq<Match>): (sources: seq<Option<string>>)
    ensures |sources| <= |ms|
    ensures forall x :: x in sources <==> exists i | 0 <= i < |ms| :: Flagged(ms[i]) && ms[i].sourceFile == x
    decreases |ms|
  {
    if ms == [] then []
    else
      var init := ms[..|ms| - 1];
      var m := ms[|ms| - 1];
      assert forall i | 0 <= i < |init| :: init[i] == ms[i];
      FlaggedSources(init) + (if Flagged(m) then [m.sourceFile] else [])
  }

  /** One turn of main.py's loop over the hits. */
  function Visit(d: Decision, m: Match): Decision {
    var best := if m.score > d.maxScore then m.score else d.maxScore;
    if m.score >= Threshold then
      var name := m.sourceFile;
      var files :=
        if name.Some? && name.value != "" && name.value !in d.matchedFiles
        then d.matchedFiles + [name.value] else d.matchedFiles;
      Decision(true, best, files)
    else Decision(d.detected, best, d.matchedFiles)
  }

  /** One turn of app.py's loop over the hits. */
  function VisitLegacy(d: LegacyDecision, m: Match): LegacyDecision {
    var best := if m.score > d.maxScore then m.score else d.maxScore;
    if m.score >= 0.75 then LegacyDecision(true, best, d.matchedFiles + [m.sourceFile])
    else LegacyDecision(d.detected, best, d.matchedFiles)
  }

  lemma FlaggedPrefix(ms: seq<Match>)
    requires ms != []
    ensures AnyFlagged(ms) <==> AnyFlagged(ms[..|ms| - 1]) || Flagged(ms[|ms| - 1])
  {
    var init := ms[..|ms| - 1];
    assert forall i | 0 <= i < |init| :: init[i] == ms[i];
  }

  lemma BestScorePrefix(ms: seq<Match>, best: real)
    requires ms != []
    requires IsBestScore(ms[..|ms| - 1], best)
    ensures IsBestScore(ms, if ms[|ms| - 1].score > best then ms[|ms| - 1].score else best)
  {
    var init := ms[..|ms| - 1];
    assert forall i | 0 <= i < |init| :: init[i] == ms[i];
  }

  /** main.py's loop: the analysis of the hits in the order the search returned them. */
  function Analyze(ms: seq<Match>): (d: Decision)
    ensures d.detected <==> AnyFlagged(ms)
    ensures IsBestScore(ms, d.maxScore)
    ensures d.matchedFiles == Dedup(ReportedNames(ms))
    decreases |ms|
  {
    if ms == [] then Decision(false, 0.0, [])
    else
      var init := ms[..|ms| - 1];
      var m := ms[|ms| - 1];
      var d := Analyze(init);
      FlaggedPrefix(ms);
      BestScorePrefix(ms, d.maxScore);
      if Flagged(m) && m.sourceFile.Some? && m.sourceFile.value != "" then
        assert ReportedNames(ms) == ReportedNames(init) + [m.sourceFile.value];
        DedupSnoc(ReportedNames(init), m.sourceFile.value);
        Visit(d, m)
      else
        assert ReportedNames(ms) == ReportedNames(init);
        Visit(d, m)
  }

  /** app.py's loop: the same analysis with every flagged hit's name kept. */
  function AnalyzeLegacy(ms: seq<Match>): (d: LegacyDecision)
    ensures d.detected <==> AnyFlagged(ms)
    ensures IsBestScore(ms, d.maxScore)
    ensures d.matchedFiles == FlaggedSources(ms)
    decreases |ms|
  {
    if ms == [] then LegacyDecision(false, 0.0, [])
    else
      var init := ms[..|ms| - 1];
      FlaggedPrefix(ms);
      BestScorePrefix(ms, AnalyzeLegacy(init).maxScore);
      VisitLegacy(AnalyzeLegacy(init), ms[|ms| - 1])
  }

  /** The best score is determined by the scores alone. */
  lemma BestScoreUnique(ms: seq<Match>, a: real, b: real)
    requires IsBestScore(ms, a) && IsBestScore(ms, b)
    ensures a == b
  {
  }

  /** `matched_files` holds each reportable name once, ordered by the first hit that reports it. */
  lemma MatchedFilesExact(ms: seq<Match>)
    ensures NoDuplicates(Analyze(ms).matchedFiles)
    ensures forall x: string :: x in Analyze(ms).matchedFiles <==> exists i | 0 <= i < |ms| :: Reports(ms[i], x)
    ensures forall a, b | 0 <= a < b < |Analyze(ms).matchedFiles| ::
              FirstIndex(ReportedNames(ms), Analyze(ms).matchedFiles[a])
              < FirstIndex(ReportedNames(ms), Analyze(ms).matchedFiles[b])
  {
    DedupFirstSeenOrder(ReportedNames(ms));
  }

  /**
   Detection and a non-empty `matched_files` go together only when every flagged
   hit carries a non-empty `source_file`.
   */
  lemma DetectedIffMatchedWhenNamed(ms: seq<Match>)
    requires forall i | 0 <= i < |ms| :: Flagged(ms[i]) ==> ms[i].sourceFile.Some? && ms[i].sourceFile.value != ""
    ensures Analyze(ms).detected <==> Analyze(ms).matchedFiles != []
  {
    var d := Analyze(ms);
    if d.detected {
      var i :| 0 <= i < |ms| && Flagged(ms[i]);
      assert Reports(ms[i], ms[i].sourceFile.value);
      assert ms[i].sourceFile.value in d.matchedFiles;
    }
    if d.matchedFiles != [] {
      assert d.matchedFiles[0] in ReportedNames(ms);
    }
  }

  /** A flagged hit without a `source_file` sets the flag yet reports nothing. */
  lemma UnnamedHitDetectedButUnreported()
    ensures Analyze([Match(None, 0.9)]) == Decision(true, 0.9, [])
  {
    assert [Match(None, 0.9)][..0] == [];
  }

  /** Every hit of `ms` also occurs in `ms'`. */
  predicate Covers(ms: seq<Match>, ms': seq<Match>) {
    forall i | 0 <= i < |ms| :: ms[i] in ms'
  }

  lemma CoversOfSameMultiset(ms: seq<Match>, ms': seq<Match>)
    requires multiset(ms) == multiset(ms')
    ensures Covers(ms, ms')
  {
    forall i | 0 <= i < |ms| ensures ms[i] in ms' {
      assert ms[i] in multiset(ms');
    }
  }

  lemma FlaggedCarriesOver(ms: seq<Match>, ms': seq<Match>)
    requires Covers(ms, ms') && AnyFlagged(ms)
    ensures AnyFlagged(ms')
  {
    var i :| 0 <= i < |ms| && Flagged(ms[i]);
    var j :| 0 <= j < |ms'| && ms'[j] == ms[i];
  }

  lemma BestScoreCarriesOver(ms: seq<Match>, ms': seq<Match>, best: real)
    requires Covers(ms, ms') && Covers(ms', ms) && IsBestScore(ms, best)
    ensures IsBestScore(ms', best)
  {
    forall j | 0 <= j < |ms'| ensures ms'[j].score <= best {
      assert ms'[j] in ms;
      var i :| 0 <= i < |ms| && ms[i] == ms'[j];
    }
    if best != 0.0 {
      var i :| 0 <= i < |ms| && ms[i].score == best;
      var j :| 0 <= j < |ms'| && ms'[j] == ms[i];
    }
  }

  /** Detection and the best score do not depend on the order of the hits. */
  lemma AnalysisOrderIndependent(ms: seq<Match>, ms': seq<Match>)
    requires multiset(ms) == multiset(ms')
    ensures Analyze(ms).detected == Analyze(ms').detected
    ensures Analyze(ms).maxScore == Analyze(ms').maxScore
  {
    CoversOfSameMultiset(ms, ms');
    CoversOfSameMultiset(ms', ms);
    if AnyFlagged(ms) { FlaggedCarriesOver(ms, ms'); }
    if AnyFlagged(ms') { FlaggedCarriesOver(ms', ms); }
    BestScoreCarriesOver(ms', ms, Analyze(ms').maxScore);
    BestScoreUnique(ms, Analyze(ms).maxScore, Analyze(ms').maxScore);
  }

  /** A score exactly at the threshold counts as a duplicate. */
  lemma ThresholdInclusive()
    ensures Analyze([Match(Some("boundary.pdf"), 0.75)]) == Decision(true, 0.75, ["boundary.pdf"])
  {
    assert [Match(Some("boundary.pdf"), 0.75)][..0] == [];
  }

  /** Scores below the threshold flag nothing, but the best of them is still reported. */
  lemma BelowThresholdKeepsBestScore()
    ensures Analyze([Match(Some("other.pdf"), 0.5), Match(Some("another.pdf"), 0.3)])
         == Decision(false, 0.5, [])
  {
    var ms := [Match(Some("other.pdf"), 0.5), Match(Some("another.pdf"), 0.3)];
    assert ms[..1][..0] == [];
  }

  /** Two hits on the same file report it once. */
  lemma RepeatsDropped()
    ensures Analyze([Match(Some("a.pdf"), 0.9), Match(Some("a.pdf"), 0.9)]).matchedFiles == ["a.pdf"]
  {
    var ms := [Match(Some("a.pdf"), 0.9), Match(Some("a.pdf"), 0.9)];
    assert ms[..1][..0] == [];
    assert Analyze(ms[..1]) == Decision(true, 0.9, ["a.pdf"]);
  }

  /** Distinct files are reported in the order the search returned them. */
  lemma SearchOrderKept()
    ensures Analyze([Match(Some("b.pdf"), 0.8), Match(Some("a.pdf"), 0.76)]).matchedFiles == ["b.pdf", "a.pdf"]
  {
    var ms := [Match(Some("b.pdf"), 0.8), Match(Some("a.pdf"), 0.76)];
    assert ms[..1][..0] == [];
    assert Analyze(ms[..1]) == Decision(true, 0.8, ["b.pdf"]);
    assert ReportedNames(ms) == ["b.pdf", "a.pdf"];
    assert "a.pdf" != "b.pdf";
  }

  /** No hits: nothing detected, best score 0, nothing reported. */
  lemma NoHits()
    ensures Analyze([]) == Decision(false, 0.0, [])
  {
  }

  /** The present, non-empty names among app.py's reported entries. */
  function Truthy(names: seq<Option<string>>): (r: seq<string>)
    ensures forall x: string :: x in r <==> Some(x) in names && x != ""
    decreases |names|
  {
    if names == [] then []
    else
      var init := names[..|names| - 1];
      var last := names[|names| - 1];
      assert names == init + [last];
      Truthy(init) + (if last.Some? && last.value != "" then [last.value] else [])
  }

  lemma TruthySnoc(names: seq<Option<string>>, last: Option<string>)
    ensures Truthy(names + [last]) == Truthy(names) + (if last.Some? && last.value != "" then [last.value] else [])
  {
    assert (names + [last])[..|names|] == names;
  }

  lemma {:induction false} ReportedNamesAreTruthyFlagged(ms: seq<Match>)
    ensures ReportedNames(ms) == Truthy(FlaggedSources(ms))
    decreases |ms|
  {
    if ms != [] {
      var init := ms[..|ms| - 1];
      var m := ms[|ms| - 1];
      ReportedNamesAreTruthyFlagged(init);
      if Flagged(m) {
        assert FlaggedSources(ms) == FlaggedSources(init) + [m.sourceFile];
        TruthySnoc(FlaggedSources(init), m.sourceFile);
      } else {
        assert FlaggedSources(ms) == FlaggedSources(init);
        assert ReportedNames(ms) == ReportedNames(init);
      }
    }
  }

  /**
   main.py's analysis is app.py's with the reported entries cleaned: missing and
   empty names dropped, then repeats dropped keeping first occurrences.
   */
  lemma AnalyzeRefinesLegacy(ms: seq<Match>)
    ensures Analyze(ms).detected == AnalyzeLegacy(ms).detected
    ensures Analyze(ms).maxScore == AnalyzeLegacy(ms).maxScore
    ensures Analyze(ms).matchedFiles == Dedup(Truthy(AnalyzeLegacy(ms).matchedFiles))
  {
    BestScoreUnique(ms, Analyze(ms).maxScore, AnalyzeLegacy(ms).maxScore);
    ReportedNamesAreTruthyFlagged(ms);
  }

  /** In app.py every flagged hit adds an entry, so detection and a non-empty list always go together. */
  lemma LegacyDetectedIffMatched(ms: seq<Match>)
    ensures AnalyzeLegacy(ms).detected <==> AnalyzeLegacy(ms).matchedFiles != []
  {
    var d := AnalyzeLegacy(ms);
    if d.detected {
      var i :| 0 <= i < |ms| && Flagged(ms[i]);
      assert ms[i].sourceFile in d.matchedFiles;
    }
    if d.matchedFiles != [] {
      assert d.matchedFiles[0] in FlaggedSources(ms);
    }
  }

  /** The indices of the flagged hits. */
  function FlaggedIndices(ms: seq<Match>): set<int> {
    set i | 0 <= i < |ms| && Flagged(ms[i])
  }

  lemma FlaggedIndicesSnoc(ms: seq<Match>)
    requires ms != []
    ensures var n := |ms| - 1;
      FlaggedIndices(ms) == FlaggedIndices(ms[..n]) + (if Flagged(ms[n]) then {n} else {})
  {
    var n := |ms| - 1;
    forall i | 0 <= i < n ensures ms[..n][i] == ms[i] { }
  }

  /** app.py reports one entry per flagged hit, repeats and missing names included. */
  lemma {:induction false} LegacyOneEntryPerFlaggedHit(ms: seq<Match>)
    ensures |AnalyzeLegacy(ms).matchedFiles| == |FlaggedIndices(ms)|
    decreases |ms|
  {
    if ms == [] {
      assert FlaggedIndices(ms) == {};
    } else {
      var n := |ms| - 1;
      LegacyOneEntryPerFlaggedHit(ms[..n]);
      FlaggedIndicesSnoc(ms);
      assert n !in FlaggedIndices(ms[..n]);
      assert FlaggedSources(ms) == FlaggedSources(ms[..n]) + (if Flagged(ms[n]) then [ms[n].sourceFile] else []);
    }
  }

  /** app.py keeps repeated and missing names. */
  lemma LegacyKeepsRepeatsAndMissing()
    ensures AnalyzeLegacy([Match(Some("a.pdf"), 0.9), Match(Some("a.pdf"), 0.9), Match(None, 0.8)]).matchedFiles
         == [Some("a.pdf"), Some("a.pdf"), None]
  {
    var ms := [Match(Some("a.pdf"), 0.9), Match(Some("a.pdf"), 0.9), Match(None, 0.8)];
    assert ms[..2][..1][..0] == [];
  }
}
