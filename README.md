# Gene-Matcher string matchers in Dafny

Gene-Matcher is a small Streamlit application. The user gives it a DNA
sequence and a gene pattern, and it reports every offset at which the pattern
occurs. It runs two exact matchers and shows their results side by side:

- Knuth-Morris-Pratt, using a failure (LPS) table;
- Boyer-Moore, using the bad-character rule only.

This project models those two matchers and the tables they precompute, all of
`gene_matching_app.py` lines 67-119, as imperative Dafny. Each of them is a
method with the same loops, branches and array updates as the source:

- `compute_lps` becomes `Kmp.ComputeLps`;
- `kmp_search` becomes `Kmp.KmpSearch`;
- `bad_char_heuristic` becomes `BoyerMoore.BadCharHeuristic`;
- `boyer_moore_search` becomes `BoyerMoore.BoyerMooreSearch`.

The project then proves each method against a reference definition.

- `Matching` defines what an occurrence is. `MatchAt(text, pattern, s)` holds
  when the window `text[s..s + |pattern|]` lies inside the text and equals the
  pattern. `Occurrences(text, pattern)` lists every such offset in ascending
  order, by trying each offset in turn.
- `Kmp` defines the failure table from its meaning, as the longest proper
  border of each prefix, and proves that `compute_lps` builds exactly that
  table. It describes the source's search loop step by step (`KmpStep`,
  `KmpRun`) and proves that every offset it reports is an occurrence, in
  strictly ascending order.
- `kmp_search` does not report every occurrence. When a mismatch makes the
  pattern cursor fall back to 0, it also advances the text cursor, so the
  current text character is never compared with the first pattern character.
  `Kmp.KmpAsWrittenMissesMatch` exhibits this, and `Kmp.KmpSearchCorrected` is
  the loop without that skip, proved to return `Occurrences`.
- `BoyerMoore` proves that the bad-character table holds, for each byte, the
  last index at which it occurs in the pattern, or -1. It proves that
  `boyer_moore_search` returns exactly `Occurrences`: each shift is at least
  1 and passes over no occurrence.
- `Agreement` proves that the list `kmp_search` returns is a subsequence of
  the list `boyer_moore_search` returns.
- `WorkedCases` works through small inputs by proof.

Strings are Dafny `string`s. Python's `ord(c)` is `c as int`.

Where the usual description of the algorithms and the code differ, the model
follows the code:

- Textbook KMP advances the text cursor after a mismatch only when the
  pattern cursor was already 0. This code advances it whenever the cursor
  lands on 0 after falling back. `Kmp.KmpSearch` models the code, and the
  textbook loop is `Kmp.KmpSearchCorrected`.
- An empty pattern is not turned into an empty result. `boyer_moore_search`
  reports every offset from 0 to n, and `kmp_search` fails on any non-empty
  text.
- The two matchers therefore do not always agree. What holds in general is
  containment: every offset KMP reports, Boyer-Moore reports too.

## Model

| member | source | states |
|---|---|---|
| Matching.OccurrencesCharacterized | gene_matching_app.py:105-119 | the reference list of matches holds exactly the offsets at which the pattern occurs, in strictly ascending order, each in [0, n - m] |
| Matching.MatchesBelowCharacterized | gene_matching_app.py:110-119 | the offsets below a bound that hold an occurrence are exactly the members of the list built by trying each offset in turn, which ascends strictly |
| Matching.MatchesBelowSkip | gene_matching_app.py:116-118 | passing over offsets that hold no occurrence leaves the list of matches unchanged |
| Matching.OccurrencesOfLongerPattern | gene_matching_app.py:110 | a pattern longer than the text occurs nowhere, so the result is [] |
| Kmp.BorderAtMost | gene_matching_app.py:67-81 | the result is a proper border of w of length at most k, and no length between it and k is a border |
| Kmp.LongestBorder | gene_matching_app.py:67-81 | the result is the longest proper border of w |
| Kmp.LpsTable | gene_matching_app.py:67-81 | entry i of the failure table is the length of the longest proper border of pattern[..i + 1], lies in [0, i] and is a border |
| Kmp.LpsMatchStep | gene_matching_app.py:71-74 | when pattern[i] equals pattern[length], length + 1 is the longest border of pattern[..i + 1], and no border of the next prefix is longer than length + 2 |
| Kmp.LpsFallbackStep | gene_matching_app.py:76-77 | on a mismatch with length > 0, falling back to lps[length - 1] strictly shrinks length, keeps it a border of pattern[..i] and loses no longer candidate |
| Kmp.LpsZeroStep | gene_matching_app.py:78-80 | on a mismatch with length 0, entry i is 0 and no border of the next prefix is longer than 1 |
| Kmp.ComputeLps | gene_matching_app.py:67-81 | the array is newly allocated, has one entry per pattern character and equals LpsTable(pattern): entry i is the longest proper border of pattern[..i + 1], and entry 0 is 0 |
| Kmp.KmpStep | gene_matching_app.py:88-96 | one pass of the loop body either advances the text cursor or keeps it and moves the pattern cursor back, and both cursors stay in range; it records at most one offset, and only when it advances the text cursor by one, as the start of the window ending there |
| Kmp.KmpRun | gene_matching_app.py:87-97 | the offsets the loop records from a cursor onwards, one KmpStep at a time until the text is used up: at most one per text character not yet read, each the start of a window that ends inside the text |
| Kmp.AgreeOnBorder | gene_matching_app.py:93-95 | when the last j characters read spell pattern[..j], the last L of them spell pattern[..L] for every border L of pattern[..j] |
| Kmp.AgreeExtend | gene_matching_app.py:88-90 | a matching character extends the agreement between the text read so far and a prefix of the pattern by one |
| Kmp.KmpStepAgree | gene_matching_app.py:88-96 | one pass of the loop body keeps the text before i ending in pattern[..j], and never moves the window start i - j back |
| Kmp.KmpStepRecords | gene_matching_app.py:91-93 | a pass records at most one offset, the window start i - j; an occurrence starts there, and it lies before the new window start |
| Kmp.KmpRunSound | gene_matching_app.py:87-97 | every offset recorded from a cursor onwards is an occurrence at or after the window start, and the offsets ascend strictly |
| Kmp.KmpLongerPatternFindsNothing | gene_matching_app.py:83-97 | for a pattern longer than the text, kmp_search returns [] |
| Kmp.KmpSearch | gene_matching_app.py:83-97 | the result is the list the loop records as KmpRun describes it; every element is an occurrence, and the elements ascend strictly |
| Kmp.LpsOfAb | gene_matching_app.py:67-81 | the failure table of "ab" is [0, 0]: neither prefix has a proper border |
| Kmp.OccurrencesOfAbInAab | gene_matching_app.py:105-119 | "ab" occurs in "aab" only at offset 1, the list boyer_moore_search returns |
| Kmp.KmpAsWrittenMissesMatch | gene_matching_app.py:94-96 | on text "aab" and pattern "ab", kmp_search returns [] although "ab" occurs at offset 1 |
| Kmp.ShiftedMatchIsBorder | gene_matching_app.py:93-95 | an occurrence that starts strictly inside the current partial match makes a border of the matched prefix |
| Kmp.NoMatchInBorderGap | gene_matching_app.py:93-95 | falling back from a partial match of length j to its longest border L passes over no occurrence |
| Kmp.CorrectedMatchStep | gene_matching_app.py:91-93 | after a full match, recording i - m and falling back to the pattern's longest border keeps the list equal to the occurrences before the new window |
| Kmp.CorrectedFallbackStep | gene_matching_app.py:94-95 | after a mismatch with j > 0, falling back to the longest border of pattern[..j] drops no occurrence |
| Kmp.CorrectedSkipStep | gene_matching_app.py:94-96 | a character that differs from pattern[0] starts no occurrence, so advancing past it drops none |
| Kmp.CorrectedHitBranch | gene_matching_app.py:88-90 | in the corrected loop, a matching character keeps the loop invariant with both cursors advanced |
| Kmp.CorrectedMatchBranch | gene_matching_app.py:91-93 | in the corrected loop, a full match keeps the loop invariant after recording the offset and falling back |
| Kmp.CorrectedFallbackBranch | gene_matching_app.py:94-95 | in the corrected loop, a mismatch with j > 0 keeps the loop invariant after falling back, with the text cursor left in place |
| Kmp.CorrectedSkipBranch | gene_matching_app.py:94-96 | in the corrected loop, a mismatch with j = 0 keeps the loop invariant after advancing the text cursor |
| Kmp.KmpSearchCorrected | gene_matching_app.py:83-97 | kmp_search with the text cursor advanced only when j is already 0 returns exactly the list of all occurrences |
| BoyerMoore.LastIndexOf | gene_matching_app.py:99-103 | the result lies in [-1, m - 1]; when it is not -1 the pattern has character c there, and no later position has c |
| BoyerMoore.BadCharHeuristic | gene_matching_app.py:99-103 | the table is newly allocated, has 256 entries, and entry c is the last index of byte c in the pattern, or -1 |
| BoyerMoore.BadCharRulesOut | gene_matching_app.py:116-118 | no occurrence can cover text[pos] with a pattern index beyond the last occurrence of that character |
| BoyerMoore.MatchShift | gene_matching_app.py:114-116 | after an occurrence at s, the shift m - bad_char[text[s + m]], or 1 at the end of the text, passes over no occurrence |
| BoyerMoore.MismatchShift | gene_matching_app.py:117-118 | after a mismatch at pattern[j], the shift max(1, j - bad_char[text[s + j]]) passes over no occurrence |
| BoyerMoore.BoyerMooreSearch | gene_matching_app.py:105-119 | the result is exactly the strictly ascending list of all occurrences, [] when the pattern is longer than the text; the loop terminates because s grows by at least 1 |
| Agreement.KmpWithinBoyerMoore | gene_matching_app.py:83-119 | the list kmp_search returns is a subsequence of the list boyer_moore_search returns |
| WorkedCases.LpsOfAabaaab | gene_matching_app.py:67-81 | the failure table of "aabaaab" is [0, 1, 0, 1, 2, 2, 3] |
| WorkedCases.BadCharOfAbc | gene_matching_app.py:99-103 | for "abc" the table maps 'a' to 0, 'b' to 1, 'c' to 2 and every other byte to -1 |
| WorkedCases.OccurrencesOfAaInAaaa | gene_matching_app.py:105-119 | "aa" occurs in "aaaa" at [0, 1, 2] |
| WorkedCases.OccurrencesOfWholeText | gene_matching_app.py:105-119 | "acgt" occurs in "acgt" at [0] |
| WorkedCases.OccurrencesOfTttInGattaca | gene_matching_app.py:105-119 | "ttt" occurs nowhere in "gattaca" |
| WorkedCases.OccurrencesOfAbInBbbb | gene_matching_app.py:105-119 | "ab" occurs nowhere in "bbbb" |
| WorkedCases.KmpOnAaaa | gene_matching_app.py:83-97 | kmp_search finds "aa" in "aaaa" at [0, 1, 2], and the list of occurrences that Boyer-Moore returns is the same |
| WorkedCases.BothOnAaaaWithA | gene_matching_app.py:83-119 | both matchers find "a" in "aaaa" at [0, 1, 2, 3] |

## Left out

- The Streamlit page, its widgets, the file upload and its UTF-8 decoding, the timing with the wall clock, the results table and the CSV download (gene_matching_app.py:1-66 and 120-166). These are user interface, I/O and foreign libraries.
- Python's `IndexError`s are not modelled. Preconditions exclude them instead; the application itself only calls the matchers with a non-empty pattern (gene_matching_app.py:123).
- Kmp.KmpSearch: requires a non-empty pattern. With an empty pattern the code raises at `pattern[0]` on any non-empty text, and returns [] on the empty text; that last case is not modelled.
- Kmp.KmpSearchCorrected: requires a non-empty pattern, like `Kmp.KmpSearch`.
- BoyerMoore.BadCharHeuristic: requires every character code to be below 256, because `ord` of a larger character indexes past the 256-entry table.
- BoyerMoore.BoyerMooreSearch: requires every character of the text, not only those the loop looks up, to have a code below 256. A text whose wide characters are all skipped over would not raise in the code. The method accepts the empty pattern, as the code does, and then returns every offset from 0 to n.
- Python lists become Dafny arrays for the tables and sequences for the result lists. Each table is a newly allocated array, as each Python list is, so no caller-held array is aliased by it.
- `Kmp.KmpSearch` states soundness and order, not completeness, because the code as written is not complete (see Findings). Completeness is proved for `Kmp.KmpSearchCorrected`.

## Findings

| source | as written | input that shows it | evidently intended | confidence | as-written member | corrected member |
|---|---|---|---|---|---|---|
| gene_matching_app.py:94-96 | after a mismatch the pattern cursor falls back to `lps[j - 1]`; when that is 0 the text cursor is advanced in the same step, so `text[i]` is never compared with `pattern[0]` | `kmp_search("aab", "ab")` returns `[]`; "ab" occurs at offset 1, and `boyer_moore_search` returns `[1]` | advance `i` only when `j` was already 0 before the mismatch, so that the same `text[i]` is compared again after a fallback; every occurrence is then reported | not executed | Kmp.KmpAsWrittenMissesMatch | Kmp.KmpSearchCorrected |
