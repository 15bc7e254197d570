/** How the two matchers of gene_matching_app.py relate. BoyerMoore.BoyerMooreSearch
    returns Occurrences(text, pattern) and Kmp.KmpSearch returns KmpRun(...) from
    the start cursor, so facts about those two lists are facts about the results
    the application shows side by side. */
module Agreement {
  import opened Matching
  import opened Kmp

  /** Every offset kmp_search reports is also reported by boyer_moore_search,
      and in the same relative order: the KMP list is a subsequence of the
      Boyer-Moore list. The two can differ, as Kmp.KmpAsWrittenMissesMatch shows. */
  lemma KmpWithinBoyerMoore(text: string, pattern: string)
    requires |pattern| > 0
    ensures IsSubsequence(KmpRun(text, pattern, LpsTable(pattern), Cursor(0, 0)), Occurrences(text, pattern))
  {
    var found := KmpRun(text, pattern, LpsTable(pattern), Cursor(0, 0));
    var all := Occurrences(text, pattern);
    KmpRunSound(text, pattern, LpsTable(pattern), Cursor(0, 0));
    OccurrencesCharacterized(text, pattern);
    forall x | x in found ensures x in all {
      var k :| 0 <= k < |found| && found[k] == x;
      assert MatchAt(text, pattern, found[k]);
    }
    SortedSubsetIsSubsequence(found, all);
  }
}
