/**
 Removing repeats from a sequence while keeping the first occurrence of each
 value, the way main.py builds `matched_files` with `if x not in matched_files`.
 */
module Distinct {

  predicate NoDuplicates(s: seq<string>) {
    forall i, j | 0 <= i < j < |s| :: s[i] != s[j]
  }

  /** `s` with every copy of `x` dropped. */
  function Without(s: seq<string>, x: string): (r: seq<string>)
    ensures |r| <= |s|
    ensures forall y: string :: y in r <==> y in s && y != x
  {
    if s == [] then []
    else (if s[0] == x then [] else [s[0]]) + Without(s[1..], x)
  }

  /** The distinct values of `s`, each where it first appears. */
  function Dedup(s: seq<string>): (r: seq<string>)
    ensures NoDuplicates(r)
    ensures forall y: string :: y in r <==> y in s
    decreases |s|
  {
    if s == [] then []
    else
      var rest := Dedup(Without(s[1..], s[0]));
      assert s[0] !in rest;
      [s[0]] + rest
  }

  lemma WithoutSnoc(s: seq<string>, x: string, y: string)
    ensures Without(s + [y], x) == Without(s, x) + (if y == x then [] else [y])
  {
    if s != [] {
      assert (s + [y])[1..] == s[1..] + [y];
    } else {
      assert [y][1..] == [];
    }
  }

  /**
   First-seen order: appending a value already present leaves the result as
   it was, appending a new value puts it at the end.
   */
  lemma {:induction false} DedupSnoc(s: seq<string>, x: string)
    ensures Dedup(s + [x]) == if x in s then Dedup(s) else Dedup(s) + [x]
    decreases |s|
  {
    if s == [] {
      assert Dedup([x]) == [x] + Dedup(Without([], x));
    } else {
      var a := s[0];
      var t := s[1..];
      assert (s + [x])[0] == a && (s + [x])[1..] == t + [x];
      WithoutSnoc(t, a, x);
      if x == a {
        assert Without(t + [x], a) == Without(t, a);
      } else {
        var w := Without(t, a);
        DedupSnoc(w, x);
        assert x in w <==> x in s;
        assert Dedup(s + [x]) == [a] + Dedup(w + [x]);
      }
    }
  }

  /** A sequence without repeats is its own deduplication. */
  lemma {:induction false} DedupOfDistinct(s: seq<string>)
    requires NoDuplicates(s)
    ensures Dedup(s) == s
    decreases |s|
  {
    if s != [] {
      var t := s[1..];
      assert s[0] !in t;
      assert Without(t, s[0]) == t by { WithoutAbsent(t, s[0]); }
      DedupOfDistinct(t);
      assert s == [s[0]] + t;
    }
  }

  lemma {:induction false} WithoutAbsent(s: seq<string>, x: string)
    requires x !in s
    ensures Without(s, x) == s
    decreases |s|
  {
    if s != [] {
      WithoutAbsent(s[1..], x);
      assert s == [s[0]] + s[1..];
    }
  }

  /** Where `x` first appears in `s`. */
  function FirstIndex(s: seq<string>, x: string): (i: nat)
    requires x in s
    ensures i < |s| && s[i] == x && x !in s[..i]
  {
    if s[0] == x then 0
    else
      var j := FirstIndex(s[1..], x);
      assert s[..j + 1] == [s[0]] + s[1..][..j];
      j + 1
  }

  lemma FirstIndexSnoc(s: seq<string>, x: string, y: string)
    requires y in s
    ensures FirstIndex(s + [x], y) == FirstIndex(s, y)
  {
    var i := FirstIndex(s, y);
    var j := FirstIndex(s + [x], y);
    var t := s + [x];
    assert t[i] == y;
    assert t[..i] == s[..i];
  }

  /** The kept values appear in the order in which each was first seen. */
  lemma {:induction false} DedupFirstSeenOrder(s: seq<string>)
    ensures forall a, b | 0 <= a < b < |Dedup(s)| ::
              FirstIndex(s, Dedup(s)[a]) < FirstIndex(s, Dedup(s)[b])
    decreases |s|
  {
    if s != [] {
      var init := s[..|s| - 1];
      var x := s[|s| - 1];
      assert s == init + [x];
      DedupFirstSeenOrder(init);
      DedupSnoc(init, x);
      var d := Dedup(init);
      forall y | y in d ensures FirstIndex(s, y) == FirstIndex(init, y) {
        FirstIndexSnoc(init, x, y);
      }
      if x !in init {
        assert FirstIndex(s, x) == |init|;
      }
    }
  }
}
