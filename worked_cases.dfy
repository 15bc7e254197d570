/** Concrete inputs worked through the model: the tables and match lists the
    matchers of gene_matching_app.py produce on small DNA-like strings. */
module WorkedCases {
  import opened Matching
  import opened Kmp
  import opened BoyerMoore

  /** Entry i of the failure table is v when v is a border of p[..i + 1] and no
      longer length is. */
  lemma LpsTableEntry(p: string, i: nat, v: nat)
    requires i < |p| && IsBorder(p[..i + 1], v)
    requires forall b {:trigger IsBorder(p[..i + 1], b)} :: v < b <= i ==> !IsBorder(p[..i + 1], b)
    ensures LpsTable(p)[i] == v
  {
    assert IsLongestBorder(p[..i + 1], LpsTable(p)[i]);
  }

  /** Two characters that a border of length b would have to pair up differ. */
  lemma NotBorderAt(w: string, b: nat, x: nat)
    requires x < b < |w| && w[x] != w[|w| - b + x]
    ensures !IsBorder(w, b)
  {
    if IsBorder(w, b) {
      BorderAt(w, b, x);
    }
  }

  /** The failure table of "aabaaab". */
  lemma LpsOfAabaaab()
    ensures LpsTable("aabaaab") == [0, 1, 0, 1, 2, 2, 3]
  {
    var p := "aabaaab";
    assert p[..1][..0] == p[..1][1..];
    LpsTableEntry(p, 0, 0);
    assert p[..2][..1] == p[..2][1..];
    LpsTableEntry(p, 1, 1);
    assert p[..3][..0] == p[..3][3..];
    NotBorderAt(p[..3], 1, 0);
    NotBorderAt(p[..3], 2, 1);
    LpsTableEntry(p, 2, 0);
    assert p[..4][..1] == p[..4][3..];
    NotBorderAt(p[..4], 2, 0);
    NotBorderAt(p[..4], 3, 1);
    LpsTableEntry(p, 3, 1);
    assert p[..5][..2] == p[..5][3..];
    NotBorderAt(p[..5], 3, 0);
    NotBorderAt(p[..5], 4, 1);
    LpsTableEntry(p, 4, 2);
    assert p[..6][..2] == p[..6][4..];
    NotBorderAt(p[..6], 3, 2);
    NotBorderAt(p[..6], 4, 0);
    NotBorderAt(p[..6], 5, 1);
    LpsTableEntry(p, 5, 2);
    assert p[..7][..3] == p[..7][4..];
    NotBorderAt(p[..7], 4, 2);
    NotBorderAt(p[..7], 5, 0);
    NotBorderAt(p[..7], 6, 1);
    LpsTableEntry(p, 6, 3);
  }

  /** bad_char_heuristic on "abc": 'a' maps to 0, 'b' to 1, 'c' to 2 and every
      other byte to -1. */
  lemma BadCharOfAbc()
    ensures LastIndexOf("abc", 'a' as int) == 0
    ensures LastIndexOf("abc", 'b' as int) == 1
    ensures LastIndexOf("abc", 'c' as int) == 2
    ensures forall c :: 0 <= c < 256 && c != 'a' as int && c != 'b' as int && c != 'c' as int ==> LastIndexOf("abc", c) == -1
  {
  }

  /** Overlapping occurrences are all found: "aa" occurs in "aaaa" at 0, 1 and 2. */
  lemma OccurrencesOfAaInAaaa()
    ensures Occurrences("aaaa", "aa") == [0, 1, 2]
  {
    var t, p := "aaaa", "aa";
    assert MatchAt(t, p, 0) && MatchAt(t, p, 1) && MatchAt(t, p, 2);
    assert MatchesBelow(t, p, 1) == [0];
    assert MatchesBelow(t, p, 2) == [0, 1];
    assert MatchesBelow(t, p, 3) == [0, 1, 2];
    MatchesBelowSkip(t, p, 3, 5);
  }

  /** A pattern equal to the whole text occurs once, at 0. */
  lemma OccurrencesOfWholeText()
    ensures Occurrences("acgt", "acgt") == [0]
  {
    var t := "acgt";
    assert MatchAt(t, t, 0);
    assert MatchesBelow(t, t, 1) == [0];
    MatchesBelowSkip(t, t, 1, 5);
  }

  /** "ttt" does not occur in "gattaca", although "tt" does. */
  lemma OccurrencesOfTttInGattaca()
    ensures Occurrences("gattaca", "ttt") == []
  {
    var t, p := "gattaca", "ttt";
    forall q | 0 <= q < |t| + 1 ensures !MatchAt(t, p, q) {
      if q == 2 {
        MatchAtChar(t, p, q, 2);
      } else if q == 3 {
        MatchAtChar(t, p, q, 1);
      } else {
        MatchAtChar(t, p, q, 0);
      }
    }
    MatchesBelowSkip(t, p, 0, |t| + 1);
  }

  /** A pattern whose first character never occurs in the text occurs nowhere. */
  lemma OccurrencesOfAbInBbbb()
    ensures Occurrences("bbbb", "ab") == []
  {
    var t, p := "bbbb", "ab";
    forall q | 0 <= q < |t| + 1 ensures !MatchAt(t, p, q) {
      MatchAtChar(t, p, q, 0);
    }
    MatchesBelowSkip(t, p, 0, |t| + 1);
  }

  /** On "aaaa" with "aa" kmp_search finds all three occurrences, as Boyer-Moore does:
      after each match it falls back to the border "a" and keeps going. */
  lemma KmpOnAaaa()
    ensures KmpRun("aaaa", "aa", LpsTable("aa"), Cursor(0, 0)) == [0, 1, 2]
    ensures Occurrences("aaaa", "aa") == [0, 1, 2]
  {
    OccurrencesOfAaInAaaa();
    var t, p := "aaaa", "aa";
    assert p[..2][..1] == p[..2][1..];
    LpsTableEntry(p, 0, 0);
    LpsTableEntry(p, 1, 1);
    var lps := LpsTable(p);
    assert lps == [0, 1];
    assert KmpStep(t, p, lps, Cursor(3, 1)) == (Cursor(4, 1), [2]);
    assert KmpRun(t, p, lps, Cursor(3, 1)) == [2];
    assert KmpStep(t, p, lps, Cursor(2, 1)) == (Cursor(3, 1), [1]);
    assert KmpRun(t, p, lps, Cursor(2, 1)) == [1, 2];
    assert KmpStep(t, p, lps, Cursor(1, 1)) == (Cursor(2, 1), [0]);
    assert KmpRun(t, p, lps, Cursor(1, 1)) == [0, 1, 2];
    assert KmpStep(t, p, lps, Cursor(0, 0)) == (Cursor(1, 1), []);
  }

  /** On "aaaa" with "a" both matchers report every position. */
  lemma BothOnAaaaWithA()
    ensures KmpRun("aaaa", "a", LpsTable("a"), Cursor(0, 0)) == [0, 1, 2, 3]
    ensures Occurrences("aaaa", "a") == [0, 1, 2, 3]
  {
    var t, p := "aaaa", "a";
    LpsTableEntry(p, 0, 0);
    var lps := LpsTable(p);
    assert lps == [0];
    assert KmpRun(t, p, lps, Cursor(3, 0)) == [3];
    assert KmpRun(t, p, lps, Cursor(2, 0)) == [2, 3];
    assert KmpRun(t, p, lps, Cursor(1, 0)) == [1, 2, 3];
    assert MatchAt(t, p, 0) && MatchAt(t, p, 1) && MatchAt(t, p, 2) && MatchAt(t, p, 3);
    assert MatchesBelow(t, p, 2) == [0, 1];
    assert MatchesBelow(t, p, 4) == [0, 1, 2, 3];
    MatchesBelowSkip(t, p, 4, 5);
  }
}
