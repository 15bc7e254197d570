/** The Knuth-Morris-Pratt matcher of gene_matching_app.py: the failure (LPS)
    table, the search loop as the source writes it, and the search loop with the
    fallback written as the algorithm intends. */
module Kmp {
  import opened Matching

  // ---------------------------------------------------------------------------
  // Borders and the reference failure table
  // ---------------------------------------------------------------------------

  /** `k` is the length of a proper border of `w`: a prefix of `w`, shorter than
      `w`, that is also a suffix of `w`. The empty string has no proper border. */
  ghost predicate IsBorder(w: string, k: int) {
    0 <= k < |w| && w[..k] == w[|w| - k..]
  }

  /** No proper border of `w` is longer than `k`. */
  ghost predicate NoBorderAbove(w: string, k: int) {
    forall k' :: IsBorder(w, k') ==> k' <= k
  }

  ghost predicate IsLongestBorder(w: string, k: int) {
    IsBorder(w, k) && NoBorderAbove(w, k)
  }

  /** The longest proper border of `w` of length at most `k`, found by trying
      every length from `k` down to 0. */
  ghost function BorderAtMost(w: string, k: nat): (b: nat)
    requires k < |w|
    ensures IsBorder(w, b) && b <= k
    ensures forall b' :: b < b' <= k ==> !IsBorder(w, b')
    decreases k
  {
    if w[..k] == w[|w| - k..] then k else BorderAtMost(w, k - 1)
  }

  ghost function LongestBorder(w: string): (b: nat)
    requires |w| > 0
    ensures IsLongestBorder(w, b)
  {
    BorderAtMost(w, |w| - 1)
  }

  /** Entry `i` of a table that is sound for `p` is the length of some proper
      border of `p[..i + 1]`. */
  ghost predicate ValidLps(p: string, lps: seq<int>) {
    |lps| == |p| && forall k {:trigger IsBorder(p[..k + 1], lps[k])} :: 0 <= k < |p| ==> IsBorder(p[..k + 1], lps[k])
  }

  /** Entry `k` of a table for a pattern of length `m` lies in [0, k]: enough
      for the search loop to terminate. */
  ghost predicate LpsBounded(m: nat, lps: seq<int>) {
    |lps| == m && forall k :: 0 <= k < m ==> 0 <= lps[k] <= k
  }

  /** The failure table of `p` taken from its definition: entry `i` is the
      length of the longest proper border of `p[..i + 1]`. */
  ghost function LpsTable(p: string): (t: seq<int>)
    ensures |t| == |p| && LpsBounded(|p|, t) && ValidLps(p, t)
    ensures forall i {:trigger IsLongestBorder(p[..i + 1], t[i])} :: 0 <= i < |p| ==> IsLongestBorder(p[..i + 1], t[i])
  {
    LpsTableExists(p);
    var t :| IsLpsTable(p, t);
    LongestBordersAreBounded(p, t);
    t
  }

  /** `t` lists, for every prefix p[..i + 1], the length of its longest proper border. */
  ghost predicate IsLpsTable(p: string, t: seq<int>) {
    |t| == |p| && forall i {:trigger IsLongestBorder(p[..i + 1], t[i])} :: 0 <= i < |p| ==> IsLongestBorder(p[..i + 1], t[i])
  }

  lemma LongestBordersAreBounded(p: string, t: seq<int>)
    requires IsLpsTable(p, t)
    ensures LpsBounded(|p|, t) && ValidLps(p, t)
  {
    forall k | 0 <= k < |p| ensures 0 <= t[k] <= k && IsBorder(p[..k + 1], t[k]) {
      assert IsLongestBorder(p[..k + 1], t[k]);
    }
  }

  lemma LpsTableExists(p: string)
    ensures exists t :: IsLpsTable(p, t)
  {
    var t := seq(|p|, i requires 0 <= i < |p| => LongestBorder(p[..i + 1]));
    assert IsLpsTable(p, t);
  }

  // ---------------------------------------------------------------------------
  // Facts about borders of prefixes of one string
  // ---------------------------------------------------------------------------

  lemma BorderAt(w: string, k: int, t: int)
    requires IsBorder(w, k) && 0 <= t < k
    ensures w[t] == w[|w| - k + t]
  {
    assert w[..k][t] == w[|w| - k..][t];
  }

  /** A border of p[..i] followed by the same character as p[i] is a border of p[..i + 1]. */
  lemma BorderExtend(p: string, i: nat, len: nat)
    requires len < i < |p| && IsBorder(p[..i], len) && p[i] == p[len]
    ensures IsBorder(p[..i + 1], len + 1)
  {
    var w, w' := p[..i], p[..i + 1];
    forall t | 0 <= t < len + 1 ensures p[t] == p[i - len + t] {
      if t < len {
        BorderAt(w, len, t);
      }
    }
    assert w'[..len + 1] == w'[i - len..];
  }

  /** Dropping the last character of a non-empty border of p[..i + 1] leaves a border of p[..i]. */
  lemma BorderShrink(p: string, i: nat, b: nat)
    requires 0 < b && i < |p|
    ensures IsBorder(p[..i + 1], b) ==> IsBorder(p[..i], b - 1) && p[b - 1] == p[i]
  {
    if IsBorder(p[..i + 1], b) {
      var w, w' := p[..i], p[..i + 1];
      forall t | 0 <= t < b ensures p[t] == p[i + 1 - b + t] {
        BorderAt(w', b, t);
      }
      assert w[..b - 1] == w[i - (b - 1)..];
    }
  }

  /** A border of a border of p[..c] is a border of p[..c]. */
  lemma BorderOfBorder(p: string, c: nat, a: nat, b: nat)
    requires c <= |p|
    ensures IsBorder(p[..c], a) && IsBorder(p[..a], b) ==> IsBorder(p[..c], b)
  {
    if IsBorder(p[..c], a) && IsBorder(p[..a], b) {
      var w := p[..c];
      forall t | 0 <= t < b ensures w[t] == w[c - b + t] {
        BorderAt(p[..a], b, t);
        BorderAt(w, a, a - b + t);
      }
      assert w[..b] == w[c - b..];
    }
  }

  /** Of two borders of p[..c], the shorter is a border of the longer. */
  lemma BorderWithinBorder(p: string, c: nat, a: nat, b: nat)
    requires c <= |p|
    ensures IsBorder(p[..c], a) && IsBorder(p[..c], b) && b < a ==> IsBorder(p[..a], b)
  {
    if IsBorder(p[..c], a) && IsBorder(p[..c], b) && b < a {
      var w := p[..c];
      forall t | 0 <= t < b ensures p[t] == p[a - b + t] {
        BorderAt(w, b, t);
        BorderAt(w, a, a - b + t);
      }
      assert p[..a][..b] == p[..a][a - b..];
    }
  }

  // ---------------------------------------------------------------------------
  // The three branches of the table-building loop
  // ---------------------------------------------------------------------------

  /** No border of p[..i + 1] is longer than len + 1. */
  ghost predicate NoLongerBorder(p: string, i: nat, len: int)
    requires i < |p|
  {
    forall b {:trigger IsBorder(p[..i + 1], b)} :: len + 1 < b <= i ==> !IsBorder(p[..i + 1], b)
  }

  /** p[i] == p[len]: the entry is len + 1, and the next position starts from it. */
  lemma LpsMatchStep(p: string, i: nat, len: nat)
    requires len < i < |p| && IsBorder(p[..i], len) && NoLongerBorder(p, i, len)
    requires p[i] == p[len]
    ensures IsLongestBorder(p[..i + 1], len + 1)
    ensures i + 1 < |p| ==> NoLongerBorder(p, i + 1, len + 1)
  {
    BorderExtend(p, i, len);
    if i + 1 < |p| {
      forall b {:trigger IsBorder(p[..i + 2], b)} | len + 2 < b <= i + 1 ensures !IsBorder(p[..i + 2], b) {
        BorderShrink(p, i + 1, b);
      }
    }
  }

  /** p[i] != p[len] with len > 0: falling back to the longest border of p[..len]
      loses no candidate border of p[..i + 1]. */
  lemma LpsFallbackStep(p: string, i: nat, len: nat, len': nat)
    requires 0 < len < i < |p| && IsBorder(p[..i], len) && NoLongerBorder(p, i, len)
    requires p[i] != p[len]
    requires IsLongestBorder(p[..len], len')
    ensures len' < len && IsBorder(p[..i], len') && NoLongerBorder(p, i, len')
  {
    BorderOfBorder(p, i, len, len');
    forall b {:trigger IsBorder(p[..i + 1], b)} | len' + 1 < b <= i ensures !IsBorder(p[..i + 1], b) {
      BorderShrink(p, i, b);
      BorderWithinBorder(p, i, len, b - 1);
    }
  }

  /** p[i] != p[0] with no candidate left: the entry is 0. */
  lemma LpsZeroStep(p: string, i: nat)
    requires 0 < i < |p| && NoLongerBorder(p, i, 0)
    requires p[i] != p[0]
    ensures IsLongestBorder(p[..i + 1], 0)
    ensures i + 1 < |p| ==> NoLongerBorder(p, i + 1, 0)
  {
    BorderShrink(p, i, 1);
    if i + 1 < |p| {
      forall b {:trigger IsBorder(p[..i + 2], b)} | 1 < b <= i + 1 ensures !IsBorder(p[..i + 2], b) {
        BorderShrink(p, i + 1, b);
      }
    }
  }

  // ---------------------------------------------------------------------------
  // compute_lps
  // ---------------------------------------------------------------------------

  /** Builds the failure table of `pattern` in place, as compute_lps does. */
  method ComputeLps(pattern: string) returns (lps: array<int>)
    ensures fresh(lps)
    ensures lps.Length == |pattern|
    ensures lps[..] == LpsTable(pattern)
  {
    var m := |pattern|;
    lps := new int[m](_ => 0);
    var length, i := 0, 1;
    while i < m
      invariant lps.Length == m
      invariant m == 0 || i <= m
      invariant 0 <= length < i
      invariant forall k {:trigger IsLongestBorder(pattern[..k + 1], lps[k])} :: 0 <= k < i && k < m ==> IsLongestBorder(pattern[..k + 1], lps[k])
      invariant i < m ==> IsBorder(pattern[..i], length) && NoLongerBorder(pattern, i, length)
      decreases m - i, length
    {
      if pattern[i] == pattern[length] {
        LpsMatchStep(pattern, i, length);
        length := length + 1;
        lps[i] := length;
        i := i + 1;
      } else if length != 0 {
        ghost var k := length - 1;
        assert IsLongestBorder(pattern[..k + 1], lps[k]);
        LpsFallbackStep(pattern, i, length, lps[length - 1]);
        length := lps[length - 1];
      } else {
        LpsZeroStep(pattern, i);
        lps[i] := 0;
        i := i + 1;
      }
    }
    forall k | 0 <= k < m ensures lps[k] == LpsTable(pattern)[k] {
      assert IsLongestBorder(pattern[..k + 1], lps[k]);
      assert IsLongestBorder(pattern[..k + 1], LpsTable(pattern)[k]);
    }
  }

  // ---------------------------------------------------------------------------
  // kmp_search as written
  // ---------------------------------------------------------------------------

  /** The two cursors of kmp_search's loop: `i` into the text, `j` into the pattern. */
  datatype Cursor = Cursor(i: nat, j: nat)

  /** One iteration of kmp_search's loop body: the cursors after it, and the
      offset it records, if any. After a mismatch the pattern cursor falls back
      through `lps`, and when it lands on 0 the text cursor is advanced in the
      same iteration, before text[i] has been compared with pattern[0]. Every
      iteration advances `i` or, keeping `i`, moves `j` back. */
  ghost function KmpStep(text: string, pattern: string, lps: seq<int>, c: Cursor): (r: (Cursor, seq<int>))
    requires LpsBounded(|pattern|, lps)
    requires c.i < |text| && c.j < |pattern|
    ensures r.0.i <= |text| && r.0.j < |pattern|
    ensures r.0.i > c.i || (r.0.i == c.i && r.0.j < c.j)
    ensures |r.1| <= 1 && (|r.1| == 1 ==> r.0.i == c.i + 1 && r.1[0] + |pattern| == r.0.i)
  {
    var i, j := c.i, c.j;
    if pattern[j] == text[i] then
      // both cursors advance; then the same iteration tests for a full match
      // or a mismatch at the new position
      if j + 1 == |pattern| then
        (Cursor(i + 1, lps[j]), [i + 1 - |pattern|])
      else if i + 1 < |text| && pattern[j + 1] != text[i + 1] then
        (Cursor(if lps[j] == 0 then i + 2 else i + 1, lps[j]), [])
      else
        (Cursor(i + 1, j + 1), [])
    else if j != 0 then
      (Cursor(if lps[j - 1] == 0 then i + 1 else i, lps[j - 1]), [])
    else
      (Cursor(i + 1, 0), [])
  }

  /** The offsets kmp_search records from cursor `c` onwards: at most one for
      each text character not yet read, each the start of a window that ends
      inside the text. */
  ghost function KmpRun(text: string, pattern: string, lps: seq<int>, c: Cursor): (r: seq<int>)
    requires LpsBounded(|pattern|, lps)
    requires c.i <= |text| && c.j < |pattern|
    ensures |r| <= |text| - c.i
    ensures forall k :: 0 <= k < |r| ==> r[k] + |pattern| <= |text|
    decreases |text| - c.i, c.j
  {
    if c.i == |text| then []
    else
      var r := KmpStep(text, pattern, lps, c);
      r.1 + KmpRun(text, pattern, lps, r.0)
  }

  /** KmpRun takes one step of the loop, then carries on from where it left off.
      Dafny proves this unaided; KmpSearch calls it only to keep its own proof
      small. */
  lemma KmpRunUnfold(text: string, pattern: string, lps: seq<int>, c: Cursor)
    requires LpsBounded(|pattern|, lps)
    requires c.i < |text| && c.j < |pattern|
    ensures var r := KmpStep(text, pattern, lps, c);
      KmpRun(text, pattern, lps, c) == r.1 + KmpRun(text, pattern, lps, r.0)
  {
  }

  /** Associativity of concatenation, stated once so that KmpSearch does not
      have to rediscover it; Dafny proves it unaided. */
  lemma AppendAssoc(a: seq<int>, b: seq<int>, c: seq<int>)
    ensures (a + b) + c == a + (b + c)
  {
  }

  /** The last j characters before i spell the first j characters of the pattern. */
  ghost predicate Agree(text: string, pattern: string, c: Cursor) {
    c.j <= c.i <= |text| && c.j <= |pattern|
      && forall t :: 0 <= t < c.j ==> text[c.i - c.j + t] == pattern[t]
  }

  /** If the last j characters before i match a prefix of the pattern of length j,
      they also match its prefix of length L for every border L of pattern[..j]. */
  lemma AgreeOnBorder(text: string, pattern: string, i: nat, j: nat, L: nat)
    requires Agree(text, pattern, Cursor(i, j))
    requires IsBorder(pattern[..j], L)
    ensures Agree(text, pattern, Cursor(i, L))
  {
    forall t | 0 <= t < L ensures text[i - L + t] == pattern[t] {
      BorderAt(pattern[..j], L, t);
    }
  }

  /** Extending a partial match by one agreeing character. */
  lemma AgreeExtend(text: string, pattern: string, i: nat, j: nat)
    requires Agree(text, pattern, Cursor(i, j)) && i < |text| && j < |pattern|
    requires text[i] == pattern[j]
    ensures Agree(text, pattern, Cursor(i + 1, j + 1))
  {
  }

  /** One iteration keeps the cursors in agreement with the text and never
      moves the window start i - j back. */
  lemma KmpStepAgree(text: string, pattern: string, lps: seq<int>, c: Cursor)
    requires LpsBounded(|pattern|, lps) && ValidLps(pattern, lps)
    requires c.i < |text| && c.j < |pattern| && Agree(text, pattern, c)
    ensures var next := KmpStep(text, pattern, lps, c).0;
      Agree(text, pattern, next) && c.i - c.j <= next.i - next.j
  {
    var i, j := c.i, c.j;
    if pattern[j] == text[i] {
      AgreeExtend(text, pattern, i, j);
      assert IsBorder(pattern[..j + 1], lps[j]);
      AgreeOnBorder(text, pattern, i + 1, j + 1, lps[j]);
    } else if j != 0 {
      var k := j - 1;
      assert IsBorder(pattern[..k + 1], lps[k]);
      AgreeOnBorder(text, pattern, i, j, lps[j - 1]);
    }
  }

  /** An iteration records at most one offset: the old window start i - j, which
      then holds an occurrence and lies before the new window start. */
  lemma KmpStepRecords(text: string, pattern: string, lps: seq<int>, c: Cursor)
    requires LpsBounded(|pattern|, lps)
    requires c.i < |text| && c.j < |pattern| && Agree(text, pattern, c)
    ensures var r := KmpStep(text, pattern, lps, c);
      forall k :: 0 <= k < |r.1| ==> r.1[k] == c.i - c.j && MatchAt(text, pattern, r.1[k]) && r.1[k] < r.0.i - r.0.j
  {
    var i, j := c.i, c.j;
    if pattern[j] == text[i] && j + 1 == |pattern| {
      AgreeExtend(text, pattern, i, j);
    }
  }

  /** Every offset kmp_search records from cursor `c` on is an occurrence at or
      after the window start i - j, and the offsets ascend strictly. */
  lemma {:induction false} KmpRunSound(text: string, pattern: string, lps: seq<int>, c: Cursor)
    requires LpsBounded(|pattern|, lps) && ValidLps(pattern, lps)
    requires c.i <= |text| && c.j < |pattern| && Agree(text, pattern, c)
    ensures var r := KmpRun(text, pattern, lps, c);
      StrictlyIncreasing(r) && forall k :: 0 <= k < |r| ==> MatchAt(text, pattern, r[k]) && c.i - c.j <= r[k]
    decreases |text| - c.i, c.j
  {
    if c.i < |text| {
      var st := KmpStep(text, pattern, lps, c);
      KmpStepAgree(text, pattern, lps, c);
      KmpStepRecords(text, pattern, lps, c);
      KmpRunSound(text, pattern, lps, st.0);
      var rest := KmpRun(text, pattern, lps, st.0);
      assert KmpRun(text, pattern, lps, c) == st.1 + rest;
    }
  }

  /** A pattern longer than the text is never reported. */
  lemma KmpLongerPatternFindsNothing(text: string, pattern: string)
    requires |pattern| > |text|
    ensures KmpRun(text, pattern, LpsTable(pattern), Cursor(0, 0)) == []
  {
    var r := KmpRun(text, pattern, LpsTable(pattern), Cursor(0, 0));
    assert |r| == 0 || r[0] + |pattern| <= |text|;
    KmpRunSound(text, pattern, LpsTable(pattern), Cursor(0, 0));
  }

  /** kmp_search: scans the text once, recording i - j whenever the whole
      pattern has been matched. Its result is what KmpRun describes, every
      recorded offset is an occurrence, and the offsets ascend strictly. */
  method KmpSearch(text: string, pattern: string) returns (ms: seq<int>)
    requires |pattern| > 0
    ensures ms == KmpRun(text, pattern, LpsTable(pattern), Cursor(0, 0))
    ensures forall k :: 0 <= k < |ms| ==> MatchAt(text, pattern, ms[k])
    ensures StrictlyIncreasing(ms)
  {
    var lps := ComputeLps(pattern);
    ghost var table := lps[..];
    var n, m := |text|, |pattern|;
    var i, j := 0, 0;
    ms := [];
    while i < n
      invariant lps[..] == table
      invariant 0 <= j < m && i <= n
      invariant ms + KmpRun(text, pattern, table, Cursor(i, j)) == KmpRun(text, pattern, table, Cursor(0, 0))
      decreases n - i, j
    {
      ghost var ms0 := ms;
      ghost var st := KmpStep(text, pattern, table, Cursor(i, j));
      KmpRunUnfold(text, pattern, table, Cursor(i, j));
      if pattern[j] == text[i] {
        i, j := i + 1, j + 1;
      }
      if j == m {
        ms := ms + [i - j];
        j := lps[j - 1];
      } else if i < n && pattern[j] != text[i] {
        j := if j != 0 then lps[j - 1] else 0;
        if j == 0 {
          i := i + 1;
        }
      }
      assert st.0 == Cursor(i, j) && ms == ms0 + st.1;
      AppendAssoc(ms0, st.1, KmpRun(text, pattern, table, st.0));
    }
    KmpRunSound(text, pattern, table, Cursor(0, 0));
  }

  /** The failure table of "ab": neither prefix has a proper border. */
  lemma LpsOfAb()
    ensures LpsTable("ab") == [0, 0]
  {
    var p := "ab";
    var k0, k1 := 0, 1;
    assert IsLongestBorder(p[..k0 + 1], LpsTable(p)[k0]);
    assert IsLongestBorder(p[..k1 + 1], LpsTable(p)[k1]);
    assert !IsBorder(p[..2], 1) by {
      assert p[..2][..1] == "a" && p[..2][2 - 1..] == "b";
    }
  }

  /** "ab" occurs in "aab" once, at offset 1. */
  lemma OccurrencesOfAbInAab()
    ensures Occurrences("aab", "ab") == [1]
  {
    var t, p := "aab", "ab";
    assert MatchAt(t, p, 1);
    assert !MatchAt(t, p, 0) by { assert t[0 + 1] != p[1]; }
    assert MatchesBelow(t, p, 1) == [];
    assert MatchesBelow(t, p, 2) == [1];
    assert MatchesBelow(t, p, 3) == [1];
  }

  /** On "aab" the source's kmp_search misses the occurrence of "ab" at offset 1:
      after matching "a" at offset 0 and failing on the second 'a', the cursor
      falls back to 0 and skips that 'a' without trying it as a new start. */
  lemma KmpAsWrittenMissesMatch()
    ensures LpsTable("ab") == [0, 0]
    ensures KmpRun("aab", "ab", LpsTable("ab"), Cursor(0, 0)) == []
    ensures Occurrences("aab", "ab") == [1]
  {
    LpsOfAb();
    OccurrencesOfAbInAab();
    var t, p := "aab", "ab";
    var lps := LpsTable(p);
    assert KmpStep(t, p, lps, Cursor(0, 0)) == (Cursor(2, 0), []);
    assert KmpStep(t, p, lps, Cursor(2, 0)) == (Cursor(3, 0), []);
    assert KmpRun(t, p, lps, Cursor(2, 0)) == [];
  }

  // ---------------------------------------------------------------------------
  // kmp_search with the fallback as the algorithm intends
  // ---------------------------------------------------------------------------

  /** A window that starts strictly inside the current partial match, and that
      holds an occurrence, makes a border of the matched prefix. */
  lemma ShiftedMatchIsBorder(text: string, pattern: string, i: nat, j: nat, q: int)
    requires 0 < j <= |pattern| && Agree(text, pattern, Cursor(i, j))
    requires i - j < q < i
    ensures MatchAt(text, pattern, q) ==> IsBorder(pattern[..j], i - q)
  {
    if MatchAt(text, pattern, q) {
      var b := i - q;
      var w := pattern[..j];
      forall t | 0 <= t < b ensures w[t] == w[j - b + t] {
      }
      assert w[..b] == w[j - b..];
    }
  }

  /** Falling back from a partial match of length j to the longest border L of
      pattern[..j] skips no occurrence starting strictly between i - j and i - L. */
  lemma NoMatchInBorderGap(text: string, pattern: string, i: nat, j: nat, L: nat)
    requires 0 < j <= |pattern| && Agree(text, pattern, Cursor(i, j))
    requires NoBorderAbove(pattern[..j], L)
    ensures forall q :: i - j < q < i - L ==> !MatchAt(text, pattern, q)
  {
    forall q | i - j < q < i - L ensures !MatchAt(text, pattern, q) {
      ShiftedMatchIsBorder(text, pattern, i, j, q);
    }
  }

  /** A full match ending at i: record i - m, then continue from the longest
      border L of the pattern without losing an occurrence. */
  lemma CorrectedMatchStep(text: string, pattern: string, i: nat, L: nat)
    requires L < |pattern| && Agree(text, pattern, Cursor(i, |pattern|))
    requires NoBorderAbove(pattern[..|pattern|], L)
    ensures MatchesBelow(text, pattern, i - L) == MatchesBelow(text, pattern, i - |pattern|) + [i - |pattern|]
  {
    var m := |pattern|;
    assert MatchAt(text, pattern, i - m);
    NoMatchInBorderGap(text, pattern, i, m, L);
    MatchesBelowSkip(text, pattern, i - m + 1, i - L);
  }

  /** A mismatch at text[i] after a partial match of length j > 0: falling back
      to the longest border L of pattern[..j] loses no occurrence. */
  lemma CorrectedFallbackStep(text: string, pattern: string, i: nat, j: nat, L: nat)
    requires 0 < j < |pattern| && i < |text| && Agree(text, pattern, Cursor(i, j))
    requires pattern[j] != text[i]
    requires L < j && NoBorderAbove(pattern[..j], L)
    ensures MatchesBelow(text, pattern, i - L) == MatchesBelow(text, pattern, i - j)
  {
    MatchAtChar(text, pattern, i - j, j);
    NoMatchInBorderGap(text, pattern, i, j, L);
    MatchesBelowSkip(text, pattern, i - j, i - L);
  }

  /** A mismatch at text[i] against pattern[0]: no occurrence starts at i. */
  lemma CorrectedSkipStep(text: string, pattern: string, i: nat)
    requires 0 < |pattern| && i < |text| && pattern[0] != text[i]
    ensures MatchesBelow(text, pattern, i + 1) == MatchesBelow(text, pattern, i)
  {
    MatchAtChar(text, pattern, i, 0);
  }

  /** What the corrected loop knows between steps: the last j characters read
      spell pattern[..j], and `ms` lists every occurrence that starts before
      the current window i - j. */
  ghost predicate Window(text: string, pattern: string, i: nat, j: nat, ms: seq<int>) {
    Agree(text, pattern, Cursor(i, j)) && ms == MatchesBelow(text, pattern, i - j)
  }

  /** text[i] extends the partial match. */
  lemma CorrectedHitBranch(text: string, pattern: string, i: nat, j: nat, ms: seq<int>)
    requires i < |text| && j < |pattern| && Window(text, pattern, i, j, ms)
    requires pattern[j] == text[i]
    ensures Window(text, pattern, i + 1, j + 1, ms)
  {
    AgreeExtend(text, pattern, i, j);
  }

  /** The whole pattern has been matched: record the window start and fall back
      to the longest border of the pattern. */
  lemma CorrectedMatchBranch(text: string, pattern: string, i: nat, L: nat, ms: seq<int>)
    requires 0 < |pattern| && Window(text, pattern, i, |pattern|, ms)
    requires L == LpsTable(pattern)[|pattern| - 1]
    ensures L < |pattern| && Window(text, pattern, i, L, ms + [i - |pattern|])
  {
    var k := |pattern| - 1;
    assert IsLongestBorder(pattern[..k + 1], LpsTable(pattern)[k]);
    CorrectedMatchStep(text, pattern, i, L);
    AgreeOnBorder(text, pattern, i, |pattern|, L);
  }

  /** text[i] breaks a partial match of length j > 0: fall back to the longest
      border of pattern[..j] and compare text[i] again. */
  lemma CorrectedFallbackBranch(text: string, pattern: string, i: nat, j: nat, L: nat, ms: seq<int>)
    requires 0 < j < |pattern| && i < |text| && Window(text, pattern, i, j, ms)
    requires pattern[j] != text[i]
    requires L == LpsTable(pattern)[j - 1]
    ensures L < j && Window(text, pattern, i, L, ms)
  {
    var k := j - 1;
    assert IsLongestBorder(pattern[..k + 1], LpsTable(pattern)[k]);
    CorrectedFallbackStep(text, pattern, i, j, L);
    AgreeOnBorder(text, pattern, i, j, L);
  }

  /** text[i] differs from pattern[0]: no occurrence starts at i. */
  lemma CorrectedSkipBranch(text: string, pattern: string, i: nat, ms: seq<int>)
    requires 0 < |pattern| && i < |text| && Window(text, pattern, i, 0, ms)
    requires pattern[0] != text[i]
    ensures Window(text, pattern, i + 1, 0, ms)
  {
    CorrectedSkipStep(text, pattern, i);
  }

  /** kmp_search with the fallback corrected: on a mismatch the text cursor
      advances only when the pattern cursor is already 0, so every character is
      tried against pattern[0] before it is passed. Reports every occurrence. */
  method KmpSearchCorrected(text: string, pattern: string) returns (ms: seq<int>)
    requires |pattern| > 0
    ensures ms == Occurrences(text, pattern)
  {
    var lps := ComputeLps(pattern);
    var n, m := |text|, |pattern|;
    var i, j := 0, 0;
    ms := [];
    while i < n
      invariant lps[..] == LpsTable(pattern)
      invariant 0 <= i && 0 <= j < m
      invariant Window(text, pattern, i, j, ms)
      decreases n - i, j
    {
      if pattern[j] == text[i] {
        CorrectedHitBranch(text, pattern, i, j, ms);
        i, j := i + 1, j + 1;
      }
      if j == m {
        CorrectedMatchBranch(text, pattern, i, lps[j - 1], ms);
        ms := ms + [i - j];
        j := lps[j - 1];
      } else if i < n && pattern[j] != text[i] {
        if j != 0 {
          CorrectedFallbackBranch(text, pattern, i, j, lps[j - 1], ms);
          j := lps[j - 1];
        } else {
          CorrectedSkipBranch(text, pattern, i, ms);
          i := i + 1;
        }
      }
    }
    MatchesBelowSkip(text, pattern, n - j, n + 1);
  }
}
