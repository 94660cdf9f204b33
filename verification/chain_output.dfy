/**
 Parsing the summarizer's raw reply, which the prompt asks to be laid out as
 `SUMMARY:` <summary> `SKILLS:` <comma-separated skills>.
 main.py does it in `parse_chain_output`; app.py does the same split inline,
 without rejecting an empty summary.
 */
module ChainOutput {
  import opened Wrappers
  import opened Http
  import opened Text

  const SummaryMarker: string := "SUMMARY:"
  const SkillsMarker: string := "SKILLS:"

  /** The error main.py raises when no summary is left. */
  const ParseError: HttpError := HttpError(500, "Failed to process document content")

  datatype Parsed = Parsed(summary: string, skills: string)

  /**
   The shared split rule: the first piece of `output.split("SKILLS:")` with
   every `SUMMARY:` removed, then stripped, is the summary; the second piece,
   stripped, is the skills, or "" when there is no second piece.
   app.py uses this as it is.
   */
  function Fields(output: string): Parsed {
    var parts := Split(output, SkillsMarker);
    Parsed(Strip(RemoveAll(parts[0], SummaryMarker)),
           if |parts| > 1 then Strip(parts[1]) else "")
  }

  /** main.py's `parse_chain_output`: the shared split rule, refusing an empty summary. */
  function Parse(output: string): (r: Result<Parsed, HttpError>)
    ensures r.Failure? <==> AllSpace(RemoveAll(Split(output, SkillsMarker)[0], SummaryMarker))
    ensures r.Failure? ==> r.error == ParseError
    ensures r.Success? ==> r.value == Fields(output)
    ensures r.Success? ==> r.value.summary != [] && !IsSpace(r.value.summary[0])
  {
    var p := Fields(output);
    if p.summary == "" then Failure(ParseError) else Success(p)
  }

  /** No proper prefix of `SKILLS:` ends with its closing `:`, so the marker cannot straddle text before it. */
  lemma NoMarkerBefore(head: string, tail: string, k: int)
    requires Free(head, SkillsMarker)
    requires 0 <= k < |head|
    ensures !OccursAt(head + SkillsMarker + tail, SkillsMarker, k)
  {
    var s := head + SkillsMarker + tail;
    var n := |SkillsMarker|;
    if k + n <= |head| {
      assert s[k..k + n] == head[k..k + n];
      assert !OccursAt(head, SkillsMarker, k);
    } else {
      var j := k + n - 1 - |head|;
      assert 0 <= j < n - 1;
      assert s[k + n - 1] == SkillsMarker[j];
      assert SkillsMarker[j] != ':';
      assert s[k..k + n][n - 1] != SkillsMarker[n - 1];
    }
  }

  /** After text free of the marker, the first `SKILLS:` is the one that follows it. */
  lemma MarkerStartsAfterFreeHead(head: string, tail: string)
    requires Free(head, SkillsMarker)
    ensures IndexOf(head + SkillsMarker + tail, SkillsMarker) == Some(|head|)
  {
    var s := head + SkillsMarker + tail;
    assert s[|head|..|head| + |SkillsMarker|] == SkillsMarker;
    assert OccursAt(s, SkillsMarker, |head|);
    forall k | 0 <= k < |head| ensures !OccursAt(s, SkillsMarker, k) {
      NoMarkerBefore(head, tail, k);
    }
  }

  lemma SplitOfFree(s: string)
    requires Free(s, SkillsMarker)
    ensures Split(s, SkillsMarker) == [s]
  {
  }

  lemma SplitAtFirstMarker(head: string, tail: string)
    requires Free(head, SkillsMarker)
    ensures Split(head + SkillsMarker + tail, SkillsMarker) == [head] + Split(tail, SkillsMarker)
  {
    var s := head + SkillsMarker + tail;
    MarkerStartsAfterFreeHead(head, tail);
    SplitAtFirst(s, SkillsMarker, |head|);
    assert s[..|head|] == head;
    assert s[|head| + |SkillsMarker|..] == tail;
  }

  lemma SplitAtTwoMarkers(head: string, skills: string, rest: string)
    requires Free(head, SkillsMarker) && Free(skills, SkillsMarker)
    ensures Split(head + SkillsMarker + skills + SkillsMarker + rest, SkillsMarker)
         == [head, skills] + Split(rest, SkillsMarker)
  {
    var tail := skills + SkillsMarker + rest;
    assert head + SkillsMarker + skills + SkillsMarker + rest == head + SkillsMarker + tail;
    SplitAtFirstMarker(head, tail);
    SplitAtFirstMarker(skills, rest);
  }

  /** Without a `SKILLS:` marker the skills are empty and the summary is the whole reply, cleaned. */
  lemma FieldsWithoutSkills(output: string)
    requires Free(output, SkillsMarker)
    ensures Fields(output) == Parsed(Strip(RemoveAll(output, SummaryMarker)), "")
  {
    SplitOfFree(output);
  }

  /** With one marker, the summary comes from the text before it and the skills from the text after it. */
  lemma FieldsWithOneMarker(head: string, skills: string)
    requires Free(head, SkillsMarker) && Free(skills, SkillsMarker)
    ensures Fields(head + SkillsMarker + skills)
         == Parsed(Strip(RemoveAll(head, SummaryMarker)), Strip(skills))
  {
    var s := head + SkillsMarker + skills;
    assert Split(s, SkillsMarker) == [head, skills] by {
      SplitAtFirstMarker(head, skills);
      SplitOfFree(skills);
    }
  }

  /** With more markers, the skills are the text between the first and the second; the rest is dropped. */
  lemma FieldsWithSeveralMarkers(head: string, skills: string, rest: string)
    requires Free(head, SkillsMarker) && Free(skills, SkillsMarker)
    ensures Fields(head + SkillsMarker + skills + SkillsMarker + rest)
         == Parsed(Strip(RemoveAll(head, SummaryMarker)), Strip(skills))
  {
    SplitAtTwoMarkers(head, skills, rest);
  }

  /** A reply body after a single leading `SUMMARY:` is kept as it is once the marker is removed. */
  lemma RemoveLeadingMarker(body: string)
    requires 'S' !in body
    ensures RemoveAll(SummaryMarker + body, SummaryMarker) == body
  {
    RemoveAllLeading(SummaryMarker, body);
    FreeOfMissingChar(body, SummaryMarker, 0);
    RemoveAllOfFree(body, SummaryMarker);
  }

  lemma StripExampleSummary()
    ensures Strip("\nfoo\n\n") == "foo" && Strip("\nfoo") == "foo"
  {
    assert TrimBounds("\nfoo\n\n", 1, 4);
    StripUnique("\nfoo\n\n", 1, 4);
    assert TrimBounds("\nfoo", 1, 4);
    StripUnique("\nfoo", 1, 4);
  }

  lemma CleanExampleSummary()
    ensures Strip(RemoveAll("SUMMARY:\nfoo\n\n", SummaryMarker)) == "foo"
  {
    assert "SUMMARY:\nfoo\n\n" == SummaryMarker + "\nfoo\n\n";
    RemoveLeadingMarker("\nfoo\n\n");
    StripExampleSummary();
  }

  lemma CleanExampleSkills()
    ensures Strip("\nbar,baz") == "bar,baz"
  {
    assert TrimBounds("\nbar,baz", 1, 8);
    StripUnique("\nbar,baz", 1, 8);
  }

  /** The reply laid out as the prompt asks parses into its two fields. */
  lemma ParseWellFormedReply()
    ensures Parse("SUMMARY:\nfoo\n\nSKILLS:\nbar,baz") == Success(Parsed("foo", "bar,baz"))
  {
    var head := "SUMMARY:\nfoo\n\n";
    var skills := "\nbar,baz";
    assert head + SkillsMarker + skills == "SUMMARY:\nfoo\n\nSKILLS:\nbar,baz";
    FreeOfMissingChar(head, SkillsMarker, 1);
    FreeOfMissingChar(skills, SkillsMarker, 1);
    FieldsWithOneMarker(head, skills);
    CleanExampleSummary();
    CleanExampleSkills();
  }

  /** Without a skills section the skills come back empty. */
  lemma ParseReplyWithoutSkills()
    ensures Parse("SUMMARY:\nfoo") == Success(Parsed("foo", ""))
  {
    FreeOfMissingChar("SUMMARY:\nfoo", SkillsMarker, 1);
    FieldsWithoutSkills("SUMMARY:\nfoo");
    CleanExampleShortSummary();
  }

  lemma CleanExampleShortSummary()
    ensures Strip(RemoveAll("SUMMARY:\nfoo", SummaryMarker)) == "foo"
  {
    assert "SUMMARY:\nfoo" == SummaryMarker + "\nfoo";
    RemoveLeadingMarker("\nfoo");
    StripExampleSummary();
  }

  /** A reply with an empty summary is refused by main.py, while app.py takes the empty summary as it is. */
  lemma EmptySummaryFields(body: string)
    requires AllSpace(body)
    ensures Fields(SummaryMarker + body) == Parsed("", "")
  {
    assert 'S' !in body by {
      forall k | 0 <= k < |body| ensures body[k] != 'S' {
        assert IsSpace(body[k]);
      }
    }
    var output := SummaryMarker + body;
    assert Free(output, SkillsMarker) by {
      forall c | c in output ensures c != 'K' {
        assert c in SummaryMarker || c in body;
      }
      FreeOfMissingChar(output, SkillsMarker, 2);
    }
    FieldsWithoutSkills(output);
    RemoveLeadingMarker(body);
  }

  lemma EmptySummaryRefusedOnlyByParse()
    ensures Parse("SUMMARY:\n") == Failure(ParseError)
    ensures Fields("SUMMARY:\n") == Parsed("", "")
  {
    assert "SUMMARY:\n" == SummaryMarker + "\n";
    assert AllSpace("\n");
    EmptySummaryFields("\n");
  }
}
