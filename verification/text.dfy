/**
 The Python `str` operations the parser and the validator rely on:
 `isspace`/`strip`, `find`, `split`, `join`, `replace(old, "")`, `lower`
 and `endswith`, over strings as sequences of Unicode scalar values.
 */
module Text {
  import opened Wrappers

  /** Python's `str.isspace()` for a single character. */
  predicate IsSpace(c: char) {
    || c == ' '
    || ('\t' <= c <= '\r')
    || ('\U{1c}' <= c <= '\U{1f}')
    || c == '\U{85}' || c == '\U{a0}' || c == '\U{1680}'
    || ('\U{2000}' <= c <= '\U{200a}')
    || c == '\U{2028}' || c == '\U{2029}' || c == '\U{202f}'
    || c == '\U{205f}' || c == '\U{3000}'
  }

  /** Every character of `s[lo..hi]` is whitespace. */
  predicate SpacesIn(s: string, lo: int, hi: int)
    requires 0 <= lo <= hi <= |s|
  {
    forall k | lo <= k < hi :: IsSpace(s[k])
  }

  predicate AllSpace(s: string) {
    SpacesIn(s, 0, |s|)
  }

  /** The length of the whitespace run at the start of `s`. */
  function LeadingSpaces(s: string): (n: nat)
    ensures n <= |s|
    ensures SpacesIn(s, 0, n)
    ensures n < |s| ==> !IsSpace(s[n])
  {
    if |s| > 0 && IsSpace(s[0]) then 1 + LeadingSpaces(s[1..]) else 0
  }

  /** The length of the whitespace run at the end of `s`. */
  function TrailingSpaces(s: string): (n: nat)
    ensures n <= |s|
    ensures SpacesIn(s, |s| - n, |s|)
    ensures n < |s| ==> !IsSpace(s[|s| - n - 1])
  {
    if |s| > 0 && IsSpace(s[|s| - 1]) then 1 + TrailingSpaces(s[..|s| - 1]) else 0
  }

  /** `s[lo..hi]` is `s` with the whitespace at both ends cut away. */
  predicate TrimBounds(s: string, lo: int, hi: int) {
    && 0 <= lo <= hi <= |s|
    && SpacesIn(s, 0, lo)
    && SpacesIn(s, hi, |s|)
    && (lo < hi ==> !IsSpace(s[lo]) && !IsSpace(s[hi - 1]))
  }

  /** Python's `s.strip()`: `s` without the whitespace at either end. */
  function Strip(s: string): (r: string)
    ensures r == [] <==> AllSpace(s)
    ensures r != [] ==> !IsSpace(r[0]) && !IsSpace(r[|r| - 1])
    ensures exists lo, hi | TrimBounds(s, lo, hi) :: r == s[lo..hi]
  {
    var lo := LeadingSpaces(s);
    var hi := |s| - TrailingSpaces(s[lo..]);
    assert TrimBounds(s, lo, hi);
    s[lo..hi]
  }

  /** There is only one way to trim: any trim bounds give `Strip`'s result. */
  lemma StripUnique(s: string, lo: int, hi: int)
    requires TrimBounds(s, lo, hi)
    ensures Strip(s) == s[lo..hi]
  {
    var lo', hi' :| TrimBounds(s, lo', hi') && Strip(s) == s[lo'..hi'];
    assert TrimBounds(s, lo', hi');
    assert 0 <= lo' <= hi' <= |s|;
    if lo < hi && lo' < hi' {
      assert lo <= lo' by { assert !IsSpace(s[lo']); }
      assert lo' <= lo by { assert !IsSpace(s[lo]); }
      assert hi <= hi' by { assert !IsSpace(s[hi - 1]); }
      assert hi' <= hi by { assert !IsSpace(s[hi' - 1]); }
    }
  }

  /** Stripping twice is stripping once. */
  lemma StripIdempotent(s: string)
    ensures Strip(Strip(s)) == Strip(s)
  {
    StripUnique(Strip(s), 0, |Strip(s)|);
  }

  /** `pat` occurs in `s` starting at index `i`. */
  predicate OccursAt(s: string, pat: string, i: int) {
    0 <= i && i + |pat| <= |s| && s[i..i + |pat|] == pat
  }

  /** `pat` occurs nowhere in `s`. */
  predicate Free(s: string, pat: string) {
    forall k | 0 <= k <= |s| :: !OccursAt(s, pat, k)
  }

  /** Python's `s.find(pat)`: the first index where `pat` occurs, if any. */
  function IndexOf(s: string, pat: string): (r: Option<nat>)
    ensures r.Some? ==> OccursAt(s, pat, r.value)
    ensures r.Some? ==> forall k | 0 <= k < r.value :: !OccursAt(s, pat, k)
    ensures r.None? <==> Free(s, pat)
    decreases |s|
  {
    if OccursAt(s, pat, 0) then Some(0)
    else if |s| == 0 then None
    else
      var rest := IndexOf(s[1..], pat);
      assert forall k | 1 <= k <= |s| :: OccursAt(s, pat, k) <==> OccursAt(s[1..], pat, k - 1) by {
        forall k | 1 <= k <= |s| ensures OccursAt(s, pat, k) <==> OccursAt(s[1..], pat, k - 1) {
          if k + |pat| <= |s| { assert s[1..][k - 1..k - 1 + |pat|] == s[k..k + |pat|]; }
        }
      }
      match rest
      case None => None
      case Some(i) => Some(i + 1)
  }

  /** Python's `s.split(sep)`: the pieces between the non-overlapping occurrences of `sep`, left to right. */
  function Split(s: string, sep: string): (parts: seq<string>)
    requires |sep| > 0
    ensures |parts| >= 1
    ensures Free(s, sep) ==> parts == [s]
    ensures !Free(s, sep) ==> |parts| >= 2
    decreases |s|
  {
    var found := IndexOf(s, sep);
    if found.None? then [s]
    else
      var i := found.value;
      [s[..i]] + Split(s[i + |sep|..], sep)
  }

  /** Python's `sep.join(parts)`. */
  function Join(parts: seq<string>, sep: string): string
    requires |parts| >= 1
  {
    if |parts| == 1 then parts[0] else parts[0] + sep + Join(parts[1..], sep)
  }

  lemma JoinCons(head: string, tail: seq<string>, sep: string)
    requires |tail| >= 1
    ensures Join([head] + tail, sep) == head + sep + Join(tail, sep)
  {
    assert ([head] + tail)[1..] == tail;
  }

  /** Where the first separator starts at `i`, the split is the text before it followed by the split of the rest. */
  lemma SplitAtFirst(s: string, sep: string, i: nat)
    requires |sep| > 0
    requires IndexOf(s, sep) == Some(i)
    ensures Split(s, sep) == [s[..i]] + Split(s[i + |sep|..], sep)
    ensures s == s[..i] + sep + s[i + |sep|..]
  {
    AroundOccurrence(s, sep, i);
  }

  /** An occurrence of `pat` at `i` cuts `s` into the text before it, `pat`, and the text after it. */
  lemma AroundOccurrence(s: string, pat: string, i: nat)
    requires OccursAt(s, pat, i)
    ensures s == s[..i] + pat + s[i + |pat|..]
  {
    assert s == s[..i] + s[i..i + |pat|] + s[i + |pat|..];
  }

  /** Splitting and joining back with the same separator gives the text back. */
  lemma {:induction false} JoinSplit(s: string, sep: string)
    requires |sep| > 0
    ensures Join(Split(s, sep), sep) == s
    decreases |s|
  {
    var found := IndexOf(s, sep);
    if found.Some? {
      var i := found.value;
      var rest := s[i + |sep|..];
      SplitAtFirst(s, sep, i);
      JoinSplit(rest, sep);
      JoinCons(s[..i], Split(rest, sep), sep);
    } else {
      assert Split(s, sep) == [s];
    }
  }

  /** Python's `s.replace(pat, "")`: scan left to right, dropping each occurrence of `pat`. */
  function RemoveAll(s: string, pat: string): (r: string)
    requires |pat| > 0
    ensures |r| <= |s|
    decreases |s|
  {
    if |s| == 0 then []
    else if OccursAt(s, pat, 0) then RemoveAll(s[|pat|..], pat)
    else [s[0]] + RemoveAll(s[1..], pat)
  }

  /** Where nothing starts before `i`, removal keeps `s[..i]` as it is. */
  lemma {:induction false} RemoveAllKeepsPrefix(s: string, pat: string, i: nat)
    requires |pat| > 0
    requires i <= |s|
    requires forall k | 0 <= k < i :: !OccursAt(s, pat, k)
    ensures RemoveAll(s, pat) == s[..i] + RemoveAll(s[i..], pat)
    decreases i
  {
    if i > 0 {
      assert !OccursAt(s, pat, 0);
      forall k | 0 <= k < i - 1 ensures !OccursAt(s[1..], pat, k) {
        if OccursAt(s[1..], pat, k) {
          assert s[1..][k..k + |pat|] == s[k + 1..k + 1 + |pat|];
          assert OccursAt(s, pat, k + 1);
        }
      }
      RemoveAllKeepsPrefix(s[1..], pat, i - 1);
      assert s[1..][i - 1..] == s[i..];
      assert s[..i] == [s[0]] + s[1..][..i - 1];
    }
  }

  /** The scan agrees with Python's own identity `s.replace(pat, "") == "".join(s.split(pat))`. */
  lemma {:induction false} RemoveAllIsJoinOfSplit(s: string, pat: string)
    requires |pat| > 0
    ensures RemoveAll(s, pat) == Join(Split(s, pat), "")
    decreases |s|
  {
    var found := IndexOf(s, pat);
    if found.None? {
      RemoveAllKeepsPrefix(s, pat, |s|);
      assert s[..|s|] == s;
    } else {
      var i := found.value;
      var rest := s[i + |pat|..];
      RemoveAllKeepsPrefix(s, pat, i);
      assert OccursAt(s[i..], pat, 0) by { assert s[i..][0..|pat|] == s[i..i + |pat|]; }
      assert s[i..][|pat|..] == rest;
      RemoveAllIsJoinOfSplit(rest, pat);
      SplitAtFirst(s, pat, i);
      JoinCons(s[..i], Split(rest, pat), "");
    }
  }

  /** Text in which `pat` does not occur passes through removal unchanged. */
  lemma RemoveAllOfFree(s: string, pat: string)
    requires |pat| > 0
    requires Free(s, pat)
    ensures RemoveAll(s, pat) == s
  {
    RemoveAllIsJoinOfSplit(s, pat);
  }

  /** Text lacking one of `pat`'s characters cannot contain `pat`. */
  lemma FreeOfMissingChar(s: string, pat: string, i: int)
    requires 0 <= i < |pat| && pat[i] !in s
    ensures Free(s, pat)
  {
    forall k | 0 <= k <= |s| ensures !OccursAt(s, pat, k) {
      if k + |pat| <= |s| {
        assert s[k..k + |pat|][i] == s[k + i];
      }
    }
  }

  /** A leading occurrence is removed whole, and the scan carries on after it. */
  lemma RemoveAllLeading(pat: string, s: string)
    requires |pat| > 0
    ensures RemoveAll(pat + s, pat) == RemoveAll(s, pat)
  {
    assert (pat + s)[..|pat|] == pat && (pat + s)[|pat|..] == s;
  }

  /** Python's `str.lower()` on one character, for the ASCII letters. */
  function LowerChar(c: char): char {
    if 'A' <= c <= 'Z' then (c as int + 32) as char else c
  }

  /** Python's `s.lower()`, ASCII letters only. */
  function Lower(s: string): (r: string)
    ensures |r| == |s|
  {
    seq(|s|, k requires 0 <= k < |s| => LowerChar(s[k]))
  }

  /** Lowering a name whose tail lowers to `suffix` leaves a name ending in `suffix`. */
  lemma LowerEndsWith(stem: string, tail: string, suffix: string)
    requires Lower(tail) == suffix
    ensures EndsWith(Lower(stem + tail), suffix)
  {
    var name := stem + tail;
    assert Lower(name)[|stem|..] == Lower(tail) by {
      forall k | 0 <= k < |tail| ensures Lower(name)[|stem|..][k] == Lower(tail)[k] {
        assert name[|stem| + k] == tail[k];
      }
    }
  }

  /** Python's `s.endswith(suffix)`. */
  predicate EndsWith(s: string, suffix: string) {
    |suffix| <= |s| && s[|s| - |suffix|..] == suffix
  }
}
