/** The reference definition both matchers are judged against: an occurrence of
    `pattern` in `text` at offset `s`, and the brute-force list of all of them. */
module Matching {

  /** `pattern` occurs in `text` starting at offset `s`: the window
      text[s..s + |pattern|] lies inside the text and equals the pattern. */
  ghost predicate MatchAt(text: string, pattern: string, s: int) {
    0 <= s && s + |pattern| <= |text| && forall t :: 0 <= t < |pattern| ==> text[s + t] == pattern[t]
  }

  /** Every character has a code below 256, so `ord` of it indexes a 256-entry table. */
  predicate IsByteString(s: string) {
    forall k :: 0 <= k < |s| ==> s[k] as int < 256
  }

  ghost predicate StrictlyIncreasing(s: seq<int>) {
    forall a, b :: 0 <= a < b < |s| ==> s[a] < s[b]
  }

  /** `a` is obtained from `b` by deleting elements. */
  ghost predicate IsSubsequence(a: seq<int>, b: seq<int>)
    decreases |b|
  {
    a == [] || (b != [] && ((a[0] == b[0] && IsSubsequence(a[1..], b[1..])) || IsSubsequence(a, b[1..])))
  }

  /** All offsets below `hi` at which `pattern` occurs, in ascending order,
      found by trying every offset in turn. */
  ghost function MatchesBelow(text: string, pattern: string, hi: nat): seq<int> {
    if hi == 0 then []
    else MatchesBelow(text, pattern, hi - 1) + (if MatchAt(text, pattern, hi - 1) then [hi - 1] else [])
  }

  /** All offsets at which `pattern` occurs in `text`, ascending and without duplicates.
      Offsets beyond |text| cannot hold an occurrence, so |text| + 1 bounds the search. */
  ghost function Occurrences(text: string, pattern: string): seq<int> {
    MatchesBelow(text, pattern, |text| + 1)
  }

  /** An occurrence at `s` fixes every character of its window. */
  lemma MatchAtChar(text: string, pattern: string, s: int, t: int)
    requires 0 <= t < |pattern|
    ensures MatchAt(text, pattern, s) ==> text[s + t] == pattern[t]
  {
  }

  /** Offsets in [lo, hi) that hold no occurrence leave the list unchanged. */
  lemma {:induction false} MatchesBelowSkip(text: string, pattern: string, lo: nat, hi: nat)
    requires lo <= hi
    requires forall q :: lo <= q < hi ==> !MatchAt(text, pattern, q)
    ensures MatchesBelow(text, pattern, hi) == MatchesBelow(text, pattern, lo)
    decreases hi
  {
    if lo < hi {
      MatchesBelowSkip(text, pattern, lo, hi - 1);
    }
  }

  /** MatchesBelow(hi) lists exactly the occurrences below `hi`, in strictly
      ascending order. */
  lemma {:induction false} MatchesBelowCharacterized(text: string, pattern: string, hi: nat)
    ensures forall s :: s in MatchesBelow(text, pattern, hi) <==> 0 <= s < hi && MatchAt(text, pattern, s)
    ensures StrictlyIncreasing(MatchesBelow(text, pattern, hi))
    decreases hi
  {
    if hi > 0 {
      MatchesBelowCharacterized(text, pattern, hi - 1);
      var prev := MatchesBelow(text, pattern, hi - 1);
      assert forall k :: 0 <= k < |prev| ==> prev[k] in prev;
    }
  }

  /** Occurrences lists exactly the offsets at which the pattern occurs, in
      strictly ascending order; each leaves room for the whole pattern. */
  lemma OccurrencesCharacterized(text: string, pattern: string)
    ensures forall s :: s in Occurrences(text, pattern) <==> MatchAt(text, pattern, s)
    ensures StrictlyIncreasing(Occurrences(text, pattern))
    ensures forall s :: s in Occurrences(text, pattern) ==> 0 <= s <= |text| - |pattern|
  {
    MatchesBelowCharacterized(text, pattern, |text| + 1);
  }

  /** A pattern longer than the text occurs nowhere. */
  lemma OccurrencesOfLongerPattern(text: string, pattern: string)
    requires |pattern| > |text|
    ensures Occurrences(text, pattern) == []
  {
    MatchesBelowSkip(text, pattern, 0, |text| + 1);
  }

  /** A strictly increasing list whose elements all occur in another strictly
      increasing list is a subsequence of it. */
  lemma {:induction false} SortedSubsetIsSubsequence(a: seq<int>, b: seq<int>)
    requires StrictlyIncreasing(a) && StrictlyIncreasing(b)
    requires forall x :: x in a ==> x in b
    ensures IsSubsequence(a, b)
    decreases |b|
  {
    if a != [] {
      assert a[0] in a;
      var k :| 0 <= k < |b| && b[k] == a[0];
      if a[0] == b[0] {
        forall x | x in a[1..] ensures x in b[1..] {
          var t :| 0 <= t < |a[1..]| && a[1..][t] == x;
          assert x == a[t + 1] > a[0] && x in a;
          var u :| 0 <= u < |b| && b[u] == x;
          assert u != 0;
          assert b[1..][u - 1] == x;
        }
        SortedSubsetIsSubsequence(a[1..], b[1..]);
      } else {
        assert k > 0 && a[0] > b[0];
        forall x | x in a ensures x in b[1..] {
          var t :| 0 <= t < |a| && a[t] == x;
          assert t == 0 || a[0] < a[t];
          var u :| 0 <= u < |b| && b[u] == x;
          assert u != 0;
          assert b[1..][u - 1] == x;
        }
        SortedSubsetIsSubsequence(a, b[1..]);
      }
    }
  }
}
