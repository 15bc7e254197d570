/** The Boyer-Moore matcher of gene_matching_app.py, with the bad-character
    rule only: the 256-entry last-occurrence table and the search loop that
    compares each window from its right end and shifts by that table. */
module BoyerMoore {
  import opened Matching

  /** The index of the last character of `p` whose code is `c`, or -1 when no
      character of `p` has that code. */
  function LastIndexOf(p: string, c: int): (r: int)
    ensures -1 <= r < |p|
    ensures r >= 0 ==> p[r] as int == c
    ensures forall k :: r < k < |p| ==> p[k] as int != c
    decreases |p|
  {
    if |p| == 0 then -1
    else if p[|p| - 1] as int == c then |p| - 1
    else LastIndexOf(p[..|p| - 1], c)
  }

  /** Python's built-in `max` on two integers. */
  function Max(a: int, b: int): int {
    if a < b then b else a
  }

  // ---------------------------------------------------------------------------
  // bad_char_heuristic
  // ---------------------------------------------------------------------------

  /** Fills a table of 256 entries with -1, then writes i into the entry of
      pattern[i] for every i in turn, so that a later position overwrites an
      earlier one. */
  method BadCharHeuristic(pattern: string) returns (badChar: array<int>)
    requires IsByteString(pattern)
    ensures fresh(badChar)
    ensures badChar.Length == 256
    ensures forall c :: 0 <= c < 256 ==> badChar[c] == LastIndexOf(pattern, c)
  {
    badChar := new int[256](_ => -1);
    for i := 0 to |pattern|
      invariant badChar.Length == 256
      invariant forall c :: 0 <= c < 256 ==> badChar[c] == LastIndexOf(pattern[..i], c)
    {
      assert pattern[..i + 1][..i] == pattern[..i];
      badChar[pattern[i] as int] := i;
    }
    assert pattern[..|pattern|] == pattern;
  }

  // ---------------------------------------------------------------------------
  // Why a bad-character shift skips no occurrence
  // ---------------------------------------------------------------------------

  /** An occurrence at q would cover text[pos] with pattern[pos - q]. When that
      index lies beyond the last occurrence in the pattern of the character
      text[pos], there is no occurrence at q. */
  lemma BadCharRulesOut(text: string, pattern: string, pos: int, q: int)
    requires 0 <= pos < |text| && pos - |pattern| < q <= pos
    requires LastIndexOf(pattern, text[pos] as int) < pos - q
    ensures !MatchAt(text, pattern, q)
  {
    MatchAtChar(text, pattern, q, pos - q);
  }

  /** After an occurrence at s, a shift that puts the last occurrence in the
      pattern of text[s + m] under that character, or a shift by one when the
      window ends at the end of the text, passes no occurrence. */
  lemma MatchShift(text: string, pattern: string, s: nat, shift: nat)
    requires MatchAt(text, pattern, s)
    requires s + |pattern| < |text| ==> 1 <= shift <= |pattern| - LastIndexOf(pattern, text[s + |pattern|] as int)
    requires s + |pattern| >= |text| ==> shift == 1
    ensures MatchesBelow(text, pattern, s + shift) == MatchesBelow(text, pattern, s) + [s]
  {
    forall q | s + 1 <= q < s + shift ensures !MatchAt(text, pattern, q) {
      BadCharRulesOut(text, pattern, s + |pattern|, q);
    }
    MatchesBelowSkip(text, pattern, s + 1, s + shift);
  }

  /** After a mismatch between pattern[j] and text[s + j], a shift by one, or
      by the distance from j back to the last occurrence in the pattern of
      text[s + j], passes no occurrence. */
  lemma MismatchShift(text: string, pattern: string, s: nat, j: nat, shift: nat)
    requires j < |pattern| && s + |pattern| <= |text| && pattern[j] != text[s + j]
    requires 1 <= shift <= Max(1, j - LastIndexOf(pattern, text[s + j] as int))
    ensures MatchesBelow(text, pattern, s + shift) == MatchesBelow(text, pattern, s)
  {
    MatchAtChar(text, pattern, s, j);
    forall q | s + 1 <= q < s + shift ensures !MatchAt(text, pattern, q) {
      BadCharRulesOut(text, pattern, s + j, q);
    }
    MatchesBelowSkip(text, pattern, s, s + shift);
  }

  // ---------------------------------------------------------------------------
  // boyer_moore_search
  // ---------------------------------------------------------------------------

  /** boyer_moore_search: tries the windows s = 0, 1, ..., n - m in order,
      skipping those the bad-character table rules out. Returns every
      occurrence, in ascending order. */
  method BoyerMooreSearch(text: string, pattern: string) returns (ms: seq<int>)
    requires IsByteString(text) && IsByteString(pattern)
    ensures ms == Occurrences(text, pattern)
  {
    var badChar := BadCharHeuristic(pattern);
    var m, n := |pattern|, |text|;
    ms := [];
    var s := 0;
    while s <= n - m
      invariant 0 <= s <= n + 1
      invariant forall c :: 0 <= c < 256 ==> badChar[c] == LastIndexOf(pattern, c)
      invariant ms == MatchesBelow(text, pattern, s)
      decreases n + 1 - s
    {
      var j := m - 1;
      while j >= 0 && pattern[j] == text[s + j]
        invariant -1 <= j < m
        invariant forall k :: j < k < m ==> pattern[k] == text[s + k]
        decreases j
      {
        j := j - 1;
      }
      if j < 0 {
        assert MatchAt(text, pattern, s);
        var shift := if s + m < n then m - badChar[text[s + m] as int] else 1;
        MatchShift(text, pattern, s, shift);
        ms := ms + [s];
        s := s + shift;
      } else {
        var shift := Max(1, j - badChar[text[s + j] as int]);
        MismatchShift(text, pattern, s, j, shift);
        s := s + shift;
      }
    }
    MatchesBelowSkip(text, pattern, s, n + 1);
  }
}
