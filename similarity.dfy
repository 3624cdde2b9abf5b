/** The per-profile part of the matching engine: which keywords a student and
    a professor share ("matched interests") and how well the professor covers
    the student's interests (the thresholded score). Both read one similarity
    matrix: row `i` holds the similarities of student keyword `i` to every
    professor keyword, as the sentence-embedding model's cosine similarity
    gives them. */
module Similarity {
  import opened Words

  type Matrix = seq<seq<real>>

  /** The threshold used when the caller gives none. */
  const DefaultThreshold: real := 0.3

  /** Number of columns, taken from the first row. */
  function Width(m: Matrix): nat {
    if m == [] then 0 else |m[0]|
  }

  /** The shape `util.cos_sim` gives for `q` query vectors: `q` rows of one width. */
  predicate IsSimMatrix(m: Matrix, q: nat) {
    |m| == q && forall i :: 0 <= i < |m| ==> |m[i]| == Width(m)
  }

  /** Every row of `m` has at least `k` columns, so `m[i][j]` exists for `j < k`. */
  predicate Covers(m: Matrix, q: nat, k: nat) {
    |m| == q && forall i :: 0 <= i < |m| ==> k <= |m[i]|
  }

  /** Every similarity in `m` is at most `hi`. */
  predicate AllAtMost(m: Matrix, hi: real) {
    forall i, j :: 0 <= i < |m| && 0 <= j < |m[i]| ==> m[i][j] <= hi
  }

  // ---------------------------------------------------------------- matching

  /** Of a matching student keyword and professor keyword, the more specific
      one: the one with more words, and the student's keyword on a tie. */
  function MoreSpecific(studentKw: string, profKw: string): (kw: string)
    ensures kw == studentKw || kw == profKw
    ensures WordCount(kw) >= WordCount(studentKw) && WordCount(kw) >= WordCount(profKw)
    ensures WordCount(studentKw) >= WordCount(profKw) ==> kw == studentKw
  {
    if WordCount(studentKw) >= WordCount(profKw) then studentKw else profKw
  }

  /** Pair `(i, j)` matches: its similarity reaches the threshold. */
  predicate IsMatch(m: Matrix, t: real, i: nat, j: nat)
    requires i < |m| && j < |m[i]|
  {
    m[i][j] >= t
  }

  /** The terms kept from the matching pairs `(i, j)` with `j < n`. */
  function MatchedInRow(student: seq<string>, prof: seq<string>, m: Matrix, t: real, i: nat, n: nat): set<string>
    requires Covers(m, |student|, |prof|) && i < |student| && n <= |prof|
  {
    if n == 0 then {}
    else
      MatchedInRow(student, prof, m, t, i, n - 1) +
      (if IsMatch(m, t, i, n - 1) then {MoreSpecific(student[i], prof[n - 1])} else {})
  }

  /** The terms kept from the matching pairs of the first `n` rows. */
  function MatchedInRows(student: seq<string>, prof: seq<string>, m: Matrix, t: real, n: nat): set<string>
    requires Covers(m, |student|, |prof|) && n <= |student|
  {
    if n == 0 then {}
    else MatchedInRows(student, prof, m, t, n - 1) + MatchedInRow(student, prof, m, t, n - 1, |prof|)
  }

  /** The set `matched_keywords` that the nested loops build. */
  function MatchedInterests(student: seq<string>, prof: seq<string>, m: Matrix, t: real): set<string>
    requires Covers(m, |student|, |prof|)
  {
    MatchedInRows(student, prof, m, t, |student|)
  }

  /** The nested `i`/`j` loops that fill `matched_keywords`. */
  method MatchKeywords(student: seq<string>, prof: seq<string>, m: Matrix, t: real) returns (matched: set<string>)
    requires Covers(m, |student|, |prof|)
    ensures matched == MatchedInterests(student, prof, m, t)
  {
    matched := {};
    var i := 0;
    while i < |student|
      invariant 0 <= i <= |student|
      invariant matched == MatchedInRows(student, prof, m, t, i)
    {
      var j := 0;
      while j < |prof|
        invariant 0 <= j <= |prof|
        invariant matched == MatchedInRows(student, prof, m, t, i) + MatchedInRow(student, prof, m, t, i, j)
      {
        if m[i][j] >= t {
          matched := matched + {MoreSpecific(student[i], prof[j])};
        }
        j := j + 1;
      }
      i := i + 1;
    }
  }

  /** Pair `(i, j)` matches and `x` is the keyword it keeps. */
  predicate Keeps(student: seq<string>, prof: seq<string>, m: Matrix, t: real, i: int, j: int, x: string) {
    0 <= i < |student| && 0 <= j < |prof| && i < |m| && j < |m[i]| &&
    m[i][j] >= t && x == MoreSpecific(student[i], prof[j])
  }

  lemma {:induction false} MatchedInRowMembers(student: seq<string>, prof: seq<string>, m: Matrix, t: real, i: nat, n: nat, x: string)
    requires Covers(m, |student|, |prof|) && i < |student| && n <= |prof|
    ensures x in MatchedInRow(student, prof, m, t, i, n) <==> exists j :: j < n && Keeps(student, prof, m, t, i, j, x)
  {
    if n > 0 {
      MatchedInRowMembers(student, prof, m, t, i, n - 1, x);
      if exists j :: j < n && Keeps(student, prof, m, t, i, j, x) {
        var j :| j < n && Keeps(student, prof, m, t, i, j, x);
        if j < n - 1 {
          assert x in MatchedInRow(student, prof, m, t, i, n - 1);
        }
      }
      if x in MatchedInRow(student, prof, m, t, i, n - 1) {
        var j :| j < n - 1 && Keeps(student, prof, m, t, i, j, x);
        assert j < n;
      }
      if Keeps(student, prof, m, t, i, n - 1, x) {
        assert n - 1 < n;
      }
    }
  }

  lemma {:induction false} MatchedInRowsMembers(student: seq<string>, prof: seq<string>, m: Matrix, t: real, n: nat, x: string)
    requires Covers(m, |student|, |prof|) && n <= |student|
    ensures x in MatchedInRows(student, prof, m, t, n) <==> exists i, j :: i < n && Keeps(student, prof, m, t, i, j, x)
  {
    if n > 0 {
      MatchedInRowsMembers(student, prof, m, t, n - 1, x);
      MatchedInRowMembers(student, prof, m, t, n - 1, |prof|, x);
      if exists i, j :: i < n && Keeps(student, prof, m, t, i, j, x) {
        var i, j :| i < n && Keeps(student, prof, m, t, i, j, x);
        if i < n - 1 {
          assert x in MatchedInRows(student, prof, m, t, n - 1);
        } else {
          assert x in MatchedInRow(student, prof, m, t, n - 1, |prof|);
        }
      }
      if x in MatchedInRows(student, prof, m, t, n - 1) {
        var i, j :| i < n - 1 && Keeps(student, prof, m, t, i, j, x);
        assert i < n;
      }
      if x in MatchedInRow(student, prof, m, t, n - 1, |prof|) {
        var j :| j < |prof| && Keeps(student, prof, m, t, n - 1, j, x);
        assert n - 1 < n;
      }
    }
  }

  /** A term is a matched interest exactly when some student keyword `i` and
      professor keyword `j` have similarity at least the threshold and the
      term is the more specific of the two. */
  lemma MatchedInterestsMembers(student: seq<string>, prof: seq<string>, m: Matrix, t: real, x: string)
    requires Covers(m, |student|, |prof|)
    ensures x in MatchedInterests(student, prof, m, t) <==>
            exists i, j :: 0 <= i < |student| && 0 <= j < |prof| && m[i][j] >= t && x == MoreSpecific(student[i], prof[j])
  {
    MatchedInRowsMembers(student, prof, m, t, |student|, x);
    if x in MatchedInterests(student, prof, m, t) {
      var i, j :| i < |student| && Keeps(student, prof, m, t, i, j, x);
    }
    if exists i, j :: 0 <= i < |student| && 0 <= j < |prof| && m[i][j] >= t && x == MoreSpecific(student[i], prof[j]) {
      var i, j :| 0 <= i < |student| && 0 <= j < |prof| && m[i][j] >= t && x == MoreSpecific(student[i], prof[j]);
      assert Keeps(student, prof, m, t, i, j, x);
    }
  }

  /** Every matched interest is one of the student's or one of the professor's
      keywords, from a pair whose similarity reaches the threshold. */
  lemma MatchedInterestsAreKeywords(student: seq<string>, prof: seq<string>, m: Matrix, t: real)
    requires Covers(m, |student|, |prof|)
    ensures forall x :: x in MatchedInterests(student, prof, m, t) ==> x in student || x in prof
  {
    forall x | x in MatchedInterests(student, prof, m, t)
      ensures x in student || x in prof
    {
      MatchedInterestsMembers(student, prof, m, t, x);
      var i, j :| 0 <= i < |student| && 0 <= j < |prof| && m[i][j] >= t && x == MoreSpecific(student[i], prof[j]);
    }
  }

  /** When no pair reaches the threshold nothing is matched, and conversely. */
  lemma NoMatchIffBelowThreshold(student: seq<string>, prof: seq<string>, m: Matrix, t: real)
    requires Covers(m, |student|, |prof|)
    ensures MatchedInterests(student, prof, m, t) == {} <==>
            forall i, j :: 0 <= i < |student| && 0 <= j < |prof| ==> m[i][j] < t
  {
    if exists i, j :: 0 <= i < |student| && 0 <= j < |prof| && m[i][j] >= t {
      var i, j :| 0 <= i < |student| && 0 <= j < |prof| && m[i][j] >= t;
      MatchedInterestsMembers(student, prof, m, t, MoreSpecific(student[i], prof[j]));
    } else if MatchedInterests(student, prof, m, t) != {} {
      var x :| x in MatchedInterests(student, prof, m, t);
      MatchedInterestsMembers(student, prof, m, t, x);
    }
  }

  // ------------------------------------------------------------------- score

  /** `max(row)`: the largest similarity in a row. */
  function RowMax(row: seq<real>): (r: real)
    requires row != []
    ensures forall j :: 0 <= j < |row| ==> row[j] <= r
    ensures exists j :: 0 <= j < |row| && row[j] == r
  {
    if |row| == 1 then row[0]
    else
      var rest := RowMax(row[1..]);
      if row[0] >= rest then row[0] else rest
  }

  /** `max_sims`: the best similarity of each student keyword. */
  function MaxSims(m: Matrix): (maxes: seq<real>)
    requires forall i :: 0 <= i < |m| ==> m[i] != []
    ensures |maxes| == |m|
    ensures forall i, j :: 0 <= i < |m| && 0 <= j < |m[i]| ==> m[i][j] <= maxes[i]
    ensures forall i :: 0 <= i < |m| ==> maxes[i] in m[i]
  {
    var maxes := seq(|m|, i requires 0 <= i < |m| => RowMax(m[i]));
    assert forall i :: 0 <= i < |m| ==> maxes[i] == RowMax(m[i]);
    maxes
  }

  /** What one best similarity adds to `total_sum`: itself if it is strictly
      above the threshold, nothing otherwise. */
  function Contribution(x: real, t: real): real {
    if x > t then x else 0.0
  }

  /** `total_sum` after adding up the qualifying entries of `xs`, left to right. */
  function SumAbove(xs: seq<real>, t: real): real {
    if xs == [] then 0.0 else SumAbove(xs[..|xs| - 1], t) + Contribution(xs[|xs| - 1], t)
  }

  /** The profile's score: the sum of the best similarities above the
      threshold, divided by the number of all student keywords. */
  function SmoothScore(m: Matrix, t: real): real
    requires m != [] && forall i :: 0 <= i < |m| ==> m[i] != []
  {
    SumAbove(MaxSims(m), t) / (|m| as real)
  }

  /** The `total_sum` loop and the division that follows it. */
  method ThresholdedScore(maxSims: seq<real>, t: real) returns (score: real)
    requires maxSims != []
    ensures score == SumAbove(maxSims, t) / (|maxSims| as real)
  {
    var total := 0.0;
    var i := 0;
    while i < |maxSims|
      invariant 0 <= i <= |maxSims|
      invariant total == SumAbove(maxSims[..i], t)
    {
      assert maxSims[..i + 1][..i] == maxSims[..i];
      if maxSims[i] > t {
        total := total + maxSims[i];
      }
      i := i + 1;
    }
    assert maxSims[..|maxSims|] == maxSims;
    score := total / (|maxSims| as real);
  }

  lemma {:induction false} SumAboveAppend(xs: seq<real>, ys: seq<real>, t: real)
    ensures SumAbove(xs + ys, t) == SumAbove(xs, t) + SumAbove(ys, t)
    decreases |ys|
  {
    if ys == [] {
      assert xs + ys == xs;
    } else {
      var ys' := ys[..|ys| - 1];
      assert (xs + ys)[..|xs + ys| - 1] == xs + ys';
      SumAboveAppend(xs, ys', t);
    }
  }

  /** With a non-negative threshold the sum is never negative. */
  lemma {:induction false} SumAboveNonNegative(xs: seq<real>, t: real)
    requires t >= 0.0
    ensures SumAbove(xs, t) >= 0.0
  {
    if xs != [] {
      SumAboveNonNegative(xs[..|xs| - 1], t);
    }
  }

  /** With every entry at most 1 the sum is at most the number of entries. */
  lemma {:induction false} SumAboveAtMostCount(xs: seq<real>, t: real)
    requires forall k :: 0 <= k < |xs| ==> xs[k] <= 1.0
    ensures SumAbove(xs, t) <= |xs| as real
  {
    if xs != [] {
      SumAboveAtMostCount(xs[..|xs| - 1], t);
    }
  }

  /** Entries at or below the threshold add nothing. */
  lemma {:induction false} SumAboveAllBelow(xs: seq<real>, t: real)
    requires forall k :: 0 <= k < |xs| ==> xs[k] <= t
    ensures SumAbove(xs, t) == 0.0
  {
    if xs != [] {
      SumAboveAllBelow(xs[..|xs| - 1], t);
    }
  }

  /** Each best similarity is one of its row's similarities, so a bound on
      every similarity bounds every best similarity. */
  lemma MaxSimsAtMost(m: Matrix, hi: real)
    requires forall i :: 0 <= i < |m| ==> m[i] != []
    requires AllAtMost(m, hi)
    ensures forall k :: 0 <= k < |m| ==> MaxSims(m)[k] <= hi
  {
    forall k | 0 <= k < |m| ensures MaxSims(m)[k] <= hi {
      var j :| 0 <= j < |m[k]| && m[k][j] == RowMax(m[k]);
    }
  }

  lemma QuotientInUnitInterval(s: real, n: real)
    requires n > 0.0 && 0.0 <= s <= n
    ensures 0.0 <= s / n <= 1.0
  {
  }

  /** A larger denominator gives a smaller quotient of a non-negative numerator. */
  lemma LargerDenominator(s: real, n0: real, n1: real)
    requires 0.0 < n0 <= n1 && s >= 0.0
    ensures s / n1 <= s / n0
  {
    assert (s / n1) * n1 == s;
    assert (s / n0) * n0 == s;
  }

  /** With a non-negative threshold and similarities at most 1 (cosine
      similarities are), the score lies in [0, 1]. */
  lemma ScoreInUnitInterval(m: Matrix, t: real)
    requires m != [] && forall i :: 0 <= i < |m| ==> m[i] != []
    requires t >= 0.0 && AllAtMost(m, 1.0)
    ensures 0.0 <= SmoothScore(m, t) <= 1.0
  {
    var maxes := MaxSims(m);
    MaxSimsAtMost(m, 1.0);
    SumAboveNonNegative(maxes, t);
    SumAboveAtMostCount(maxes, t);
    QuotientInUnitInterval(SumAbove(maxes, t), |m| as real);
  }

  lemma MaxSimsAppend(m: Matrix, extra: Matrix)
    requires forall i :: 0 <= i < |m| ==> m[i] != []
    requires forall i :: 0 <= i < |extra| ==> extra[i] != []
    ensures MaxSims(m + extra) == MaxSims(m) + MaxSims(extra)
  {
    assert forall i :: 0 <= i < |m + extra| ==> (m + extra)[i] == if i < |m| then m[i] else extra[i - |m|];
  }

  /** Rows whose similarities are all at most the threshold add nothing to
      the numerator. */
  lemma UnmatchedKeywordsAddNothing(m: Matrix, extra: Matrix, t: real)
    requires forall i :: 0 <= i < |m| ==> m[i] != []
    requires forall i :: 0 <= i < |extra| ==> extra[i] != []
    requires AllAtMost(extra, t)
    ensures SumAbove(MaxSims(m + extra), t) == SumAbove(MaxSims(m), t)
  {
    MaxSimsAppend(m, extra);
    NothingAboveThreshold(extra, t);
    SumAboveAppend(MaxSims(m), MaxSims(extra), t);
  }

  /** A matrix whose similarities are all at most the threshold has numerator 0. */
  lemma NothingAboveThreshold(m: Matrix, t: real)
    requires forall i :: 0 <= i < |m| ==> m[i] != []
    requires AllAtMost(m, t)
    ensures SumAbove(MaxSims(m), t) == 0.0
  {
    MaxSimsAtMost(m, t);
    SumAboveAllBelow(MaxSims(m), t);
  }

  /** Adding student keywords that match nothing strictly above the threshold
      leaves the numerator unchanged and grows the denominator, so the score
      is the same sum over a larger count; with a non-negative threshold it
      does not rise. */
  lemma UnmatchedKeywordsDilute(m: Matrix, extra: Matrix, t: real)
    requires m != [] && forall i :: 0 <= i < |m| ==> m[i] != []
    requires forall i :: 0 <= i < |extra| ==> extra[i] != []
    requires AllAtMost(extra, t)
    ensures SmoothScore(m + extra, t) == SumAbove(MaxSims(m), t) / ((|m| + |extra|) as real)
    ensures t >= 0.0 ==> SmoothScore(m + extra, t) <= SmoothScore(m, t)
  {
    var total := SumAbove(MaxSims(m), t);
    UnmatchedKeywordsAddNothing(m, extra, t);
    if t >= 0.0 {
      SumAboveNonNegative(MaxSims(m), t);
      LargerDenominator(total, |m| as real, (|m| + |extra|) as real);
    }
  }

  /** A pair whose similarity equals the threshold exactly is a match (`>=`)
      but is not counted in the score (`>`): with every similarity at most the
      threshold, the profile scores 0 yet has a matched interest. */
  lemma ThresholdTieMatchesButScoresNothing(student: seq<string>, prof: seq<string>, m: Matrix, t: real, i: nat, j: nat)
    requires Covers(m, |student|, |prof|)
    requires i < |student| && j < |prof| && m[i][j] == t
    requires AllAtMost(m, t)
    ensures MoreSpecific(student[i], prof[j]) in MatchedInterests(student, prof, m, t)
    ensures SmoothScore(m, t) == 0.0
  {
    PairAtThresholdMatches(student, prof, m, t, i, j);
    NothingAboveThreshold(m, t);
    assert SmoothScore(m, t) == 0.0 / (|m| as real);
  }

  lemma PairAtThresholdMatches(student: seq<string>, prof: seq<string>, m: Matrix, t: real, i: nat, j: nat)
    requires Covers(m, |student|, |prof|)
    requires i < |student| && j < |prof| && m[i][j] >= t
    ensures MoreSpecific(student[i], prof[j]) in MatchedInterests(student, prof, m, t)
  {
    MatchedInterestsMembers(student, prof, m, t, MoreSpecific(student[i], prof[j]));
  }

  // ----------------------------------------------------- order independence

  lemma {:induction false} SumAboveRemove(xs: seq<real>, k: nat, t: real)
    requires k < |xs|
    ensures SumAbove(xs, t) == SumAbove(xs[..k] + xs[k + 1..], t) + Contribution(xs[k], t)
  {
    assert xs == xs[..k] + [xs[k]] + xs[k + 1..];
    SumAboveAppend(xs[..k] + [xs[k]], xs[k + 1..], t);
    SumAboveAppend(xs[..k], [xs[k]], t);
    SumAboveAppend(xs[..k], xs[k + 1..], t);
    assert [xs[k]][..0] == [];
  }

  lemma MultisetDropLast(xs: seq<real>)
    requires xs != []
    ensures multiset(xs[..|xs| - 1]) == multiset(xs) - multiset{xs[|xs| - 1]}
  {
    assert xs == xs[..|xs| - 1] + [xs[|xs| - 1]];
  }

  lemma MultisetDropAt(ys: seq<real>, k: nat)
    requires k < |ys|
    ensures multiset(ys[..k] + ys[k + 1..]) == multiset(ys) - multiset{ys[k]}
  {
    assert ys == ys[..k] + [ys[k]] + ys[k + 1..];
  }

  /** The numerator depends only on the multiset of best similarities. */
  lemma {:induction false} SumAbovePermutation(xs: seq<real>, ys: seq<real>, t: real)
    requires multiset(xs) == multiset(ys)
    ensures SumAbove(xs, t) == SumAbove(ys, t)
    decreases |xs|
  {
    if xs != [] {
      var x := xs[|xs| - 1];
      var xs' := xs[..|xs| - 1];
      MultisetDropLast(xs);
      assert x in multiset(ys);
      var k :| 0 <= k < |ys| && ys[k] == x;
      var ys' := ys[..k] + ys[k + 1..];
      MultisetDropAt(ys, k);
      SumAbovePermutation(xs', ys', t);
      SumAboveRemove(ys, k, t);
    } else {
      assert |ys| == |multiset(ys)| == 0;
    }
  }

  /** The best similarity of a row depends only on the multiset of its entries. */
  lemma RowMaxPermutation(r1: seq<real>, r2: seq<real>)
    requires r1 != [] && multiset(r1) == multiset(r2)
    ensures r2 != [] && RowMax(r1) == RowMax(r2)
  {
    assert r1[0] in multiset(r2);
    var j1 :| 0 <= j1 < |r1| && r1[j1] == RowMax(r1);
    assert r1[j1] in multiset(r2);
    var j2 :| 0 <= j2 < |r2| && r2[j2] == RowMax(r2);
    assert r2[j2] in multiset(r1);
  }

  /** Exchanging two entries of a sequence keeps its multiset. */
  lemma SwapKeepsMultiset(xs: seq<real>, a: nat, b: nat)
    requires a < |xs| && b < |xs|
    ensures multiset(xs[a := xs[b]][b := xs[a]]) == multiset(xs)
  {
    var ys := xs[a := xs[b]];
    assert multiset(ys) == multiset(xs) - multiset{xs[a]} + multiset{xs[b]};
    if a != b {
      assert ys[b] == xs[b];
    }
  }

  /** Swapping two student keywords swaps two rows of the matrix and leaves
      the score unchanged. */
  lemma ScoreIgnoresStudentOrder(m: Matrix, t: real, a: nat, b: nat)
    requires m != [] && forall i :: 0 <= i < |m| ==> m[i] != []
    requires a < |m| && b < |m|
    ensures SmoothScore(m[a := m[b]][b := m[a]], t) == SmoothScore(m, t)
  {
    var m2 := m[a := m[b]][b := m[a]];
    var xs := MaxSims(m);
    assert MaxSims(m2) == xs[a := xs[b]][b := xs[a]];
    SwapKeepsMultiset(xs, a, b);
    SumAbovePermutation(xs, MaxSims(m2), t);
  }

  /** A single student keyword given twice yields two equal rows, so the
      numerator doubles with the denominator and the score is unchanged. */
  lemma RepeatedKeywordKeepsScore(row: seq<real>, t: real)
    requires row != []
    ensures SmoothScore([row, row], t) == SmoothScore([row], t)
  {
    var x := RowMax(row);
    var c := Contribution(x, t);
    assert MaxSims([row]) == [x];
    assert MaxSims([row, row]) == [x, x];
    assert [x][..0] == [];
    assert SumAbove([x], t) == c;
    assert [x, x][..1] == [x];
    assert SumAbove([x, x], t) == c + c;
  }

  /** Swapping two professor keywords swaps two columns of every row and
      leaves the score unchanged. */
  lemma ScoreIgnoresProfessorOrder(m: Matrix, t: real, a: nat, b: nat)
    requires m != [] && forall i :: 0 <= i < |m| ==> m[i] != []
    requires forall i :: 0 <= i < |m| ==> a < |m[i]| && b < |m[i]|
    ensures var m2 := seq(|m|, i requires 0 <= i < |m| => m[i][a := m[i][b]][b := m[i][a]]);
            SmoothScore(m2, t) == SmoothScore(m, t)
  {
    var m2 := seq(|m|, i requires 0 <= i < |m| => m[i][a := m[i][b]][b := m[i][a]]);
    forall i | 0 <= i < |m| ensures RowMax(m2[i]) == RowMax(m[i]) {
      SwapKeepsMultiset(m[i], a, b);
      RowMaxPermutation(m[i], m2[i]);
    }
    assert MaxSims(m2) == MaxSims(m);
  }

  // --------------------------------------------------------------- examples

  /** "ai" against "artificial intelligence research": the three-word
      professor keyword is kept. */
  lemma MoreSpecificExample()
    ensures MoreSpecific("ai", "artificial intelligence research") == "artificial intelligence research"
  {
    WordCountOneWord();
    WordCountThreeWords();
  }

  /** Student keywords "machine learning" and "robotics" against professor
      keywords "machine learning" and "cooking" at threshold 0.3: the best
      similarities are 0.95 and 0.10, only 0.95 counts, so the score is
      0.95 / 2. */
  lemma WorkedExampleScore()
    ensures SmoothScore([[0.95, 0.05], [0.10, 0.02]], DefaultThreshold) == 0.475
  {
    var m: Matrix := [[0.95, 0.05], [0.10, 0.02]];
    assert RowMax(m[0]) == 0.95 && RowMax(m[1]) == 0.10;
    assert MaxSims(m) == [0.95, 0.10];
    assert SumAbove([0.95, 0.10], 0.3) == 0.95 by {
      assert [0.95, 0.10][..1] == [0.95];
      assert [0.95][..0] == [];
    }
  }

  /** In the same example the one matching pair keeps "machine learning". */
  lemma WorkedExampleMatches()
    ensures var m := [[0.95, 0.05], [0.10, 0.02]];
            MatchedInterests(["machine learning", "robotics"], ["machine learning", "cooking"], m, DefaultThreshold) == {"machine learning"}
  {
    var m: Matrix := [[0.95, 0.05], [0.10, 0.02]];
    var student, prof := ["machine learning", "robotics"], ["machine learning", "cooking"];
    forall x ensures x in MatchedInterests(student, prof, m, 0.3) <==> x == "machine learning" {
      MatchedInterestsMembers(student, prof, m, 0.3, x);
      if x == "machine learning" {
        assert m[0][0] >= 0.3 && x == MoreSpecific(student[0], prof[0]);
      }
    }
  }
}
