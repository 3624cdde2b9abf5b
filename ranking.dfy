/** The ranking service `get_top_similar_profs`: every professor record of the
    catalog is scored against the student's keywords, copied with its score
    and matched interests added, and the copies are sorted best first.

    The sentence-embedding model and `util.cos_sim` are outside the model: for
    each professor the caller supplies the similarity matrix that
    `util.cos_sim(student_emb, prof_emb)` would give, or `None` where the
    stored embedding is `None`. */
module Ranking {
  import opened Similarity

  /** A JSON value of a professor record. `Terms` is the list that
      `list(matched_keywords)` makes of a set; its order is unspecified. */
  datatype Value =
    | Str(text: string)
    | StrList(items: seq<string>)
    | Num(number: real)
    | Terms(terms: set<string>)

  /** A professor's metadata record, a JSON object of the catalog file. */
  type Record = map<string, Value>

  const KeywordsKey: string := "prof_keywords"
  const ScoreKey: string := "similarity_score"
  const MatchesKey: string := "matched_interests"

  datatype Option<T> = None | Some(value: T)

  /** `sims[i][j]` for a professor keyword `j` beyond the embedding's rows. */
  datatype Error = IndexError

  datatype Result<T> = Ok(value: T) | Err(error: Error)

  /** `meta.get("prof_keywords", [])`. A value that is not a list of strings
      is read as no keywords. */
  function ProfKeywords(meta: Record): (ks: seq<string>)
    ensures KeywordsKey !in meta ==> ks == []
    ensures KeywordsKey in meta && meta[KeywordsKey].StrList? ==> ks == meta[KeywordsKey].items
    ensures KeywordsKey in meta && !meta[KeywordsKey].StrList? ==> ks == []
  {
    if KeywordsKey in meta && meta[KeywordsKey].StrList? then meta[KeywordsKey].items else []
  }

  /** One entry of the result: the professor's record, its score and its
      matched interests. */
  datatype MatchResult = MatchResult(meta: Record, score: real, matched: set<string>)

  /** The dictionary `augmented_prof`: a copy of the record with the score
      and the matched interests stored under their keys. */
  function AsRecord(r: MatchResult): (d: Record)
    ensures d.Keys == r.meta.Keys + {ScoreKey, MatchesKey}
    ensures d[ScoreKey] == Num(r.score) && d[MatchesKey] == Terms(r.matched)
    ensures forall k :: k in r.meta && k != ScoreKey && k != MatchesKey ==> d[k] == r.meta[k]
  {
    r.meta[ScoreKey := Num(r.score)][MatchesKey := Terms(r.matched)]
  }

  /** The similarity input of one professor has the shape `util.cos_sim`
      gives: one row per student keyword, all rows of one width. */
  predicate WellShaped(student: seq<string>, sims: Option<Matrix>) {
    sims.Some? ==> IsSimMatrix(sims.value, |student|)
  }

  /** The similarity input of every professor that `zip` pairs with a
      record is well shaped. */
  predicate AllWellShaped(student: seq<string>, metas: seq<Record>, embs: seq<Option<Matrix>>) {
    forall k :: 0 <= k < |embs| && k < |metas| ==> WellShaped(student, embs[k])
  }

  // ------------------------------------------------------------ one profile

  /** The body of the loop over professors, for one professor. */
  function Augment(student: seq<string>, t: real, meta: Record, sims: Option<Matrix>): Result<MatchResult>
    requires student != [] && WellShaped(student, sims)
  {
    var prof := ProfKeywords(meta);
    if sims.None? || prof == [] then Ok(MatchResult(meta, 0.0, {}))
    else if Width(sims.value) < |prof| then Err(IndexError)
    else Ok(MatchResult(meta, SmoothScore(sims.value, t), MatchedInterests(student, prof, sims.value, t)))
  }

  method AugmentProfile(student: seq<string>, t: real, meta: Record, sims: Option<Matrix>) returns (r: Result<MatchResult>)
    requires student != [] && WellShaped(student, sims)
    ensures r == Augment(student, t, meta, sims)
  {
    var prof := ProfKeywords(meta);
    if sims.None? || prof == [] {
      return Ok(MatchResult(meta, 0.0, {}));
    }
    var m := sims.value;
    if Width(m) < |prof| {
      return Err(IndexError);
    }
    var matched := MatchKeywords(student, prof, m, t);
    var maxSims := MaxSims(m);
    var score := ThresholdedScore(maxSims, t);
    r := Ok(MatchResult(meta, score, matched));
  }

  /** What one professor's entry is: an error exactly when the embedding has
      fewer rows than the record has keywords; otherwise the unchanged record,
      matched interests drawn from the two keyword lists, score 0 and nothing
      matched for a professor without keywords or embedding, and a score in
      [0, 1] for a non-negative threshold. */
  lemma AugmentOutcome(student: seq<string>, t: real, meta: Record, sims: Option<Matrix>)
    requires student != [] && WellShaped(student, sims)
    ensures var prof := ProfKeywords(meta);
            Augment(student, t, meta, sims).Err? <==> sims.Some? && prof != [] && Width(sims.value) < |prof|
    ensures var r := Augment(student, t, meta, sims);
            r.Ok? ==> r.value.meta == meta &&
                      forall x :: x in r.value.matched ==> x in student || x in ProfKeywords(meta)
    ensures sims.None? || ProfKeywords(meta) == [] ==>
            Augment(student, t, meta, sims) == Ok(MatchResult(meta, 0.0, {}))
    ensures var r := Augment(student, t, meta, sims);
            r.Ok? && t >= 0.0 && (sims.Some? ==> AllAtMost(sims.value, 1.0)) ==> 0.0 <= r.value.score <= 1.0
  {
    var prof := ProfKeywords(meta);
    if sims.Some? && prof != [] && Width(sims.value) >= |prof| {
      var m := sims.value;
      assert Covers(m, |student|, |prof|);
      MatchedInterestsAreKeywords(student, prof, m, t);
      if t >= 0.0 && AllAtMost(m, 1.0) {
        ScoreInUnitInterval(m, t);
      }
    }
  }

  // ------------------------------------------------------------ the catalog

  function Min(a: nat, b: nat): nat {
    if a <= b then a else b
  }

  /** `results` after the loop over the first `n` pairs of `zip(prof_meta, prof_data)`. */
  function AugmentPrefix(student: seq<string>, t: real, metas: seq<Record>, embs: seq<Option<Matrix>>, n: nat): Result<seq<MatchResult>>
    requires student != [] && AllWellShaped(student, metas, embs)
    requires n <= |metas| && n <= |embs|
  {
    if n == 0 then Ok([])
    else
      match AugmentPrefix(student, t, metas, embs, n - 1)
      case Err(e) => Err(e)
      case Ok(rs) =>
        match Augment(student, t, metas[n - 1], embs[n - 1])
        case Err(e) => Err(e)
        case Ok(r) => Ok(rs + [r])
  }

  /** The results before sorting: one entry per pair of record and embedding,
      in catalog order, and an error exactly when some profile's entry is one. */
  lemma {:induction false} AugmentPrefixEntries(student: seq<string>, t: real, metas: seq<Record>, embs: seq<Option<Matrix>>, n: nat)
    requires student != [] && AllWellShaped(student, metas, embs)
    requires n <= |metas| && n <= |embs|
    ensures AugmentPrefix(student, t, metas, embs, n).Ok? <==>
            forall i :: 0 <= i < n ==> Augment(student, t, metas[i], embs[i]).Ok?
    ensures var all := AugmentPrefix(student, t, metas, embs, n);
            all.Ok? ==> |all.value| == n &&
                        forall i :: 0 <= i < n ==> Augment(student, t, metas[i], embs[i]) == Ok(all.value[i])
  {
    if n > 0 {
      AugmentPrefixEntries(student, t, metas, embs, n - 1);
    }
  }

  /** Once one profile's entry fails, every longer run of the loop fails. */
  lemma {:induction false} PrefixFailsFrom(student: seq<string>, t: real, metas: seq<Record>, embs: seq<Option<Matrix>>, k: nat, n: nat)
    requires student != [] && AllWellShaped(student, metas, embs)
    requires k < n <= |metas| && n <= |embs|
    requires Augment(student, t, metas[k], embs[k]).Err?
    ensures AugmentPrefix(student, t, metas, embs, n).Err?
  {
    if k < n - 1 {
      PrefixFailsFrom(student, t, metas, embs, k, n - 1);
    }
  }

  /** `get_top_similar_profs` on given inputs: nothing for an empty keyword
      list, otherwise every profile's entry, sorted by score. */
  function Rank(student: seq<string>, t: real, metas: seq<Record>, embs: seq<Option<Matrix>>): Result<seq<MatchResult>>
    requires AllWellShaped(student, metas, embs)
  {
    if student == [] then Ok([])
    else
      match AugmentPrefix(student, t, metas, embs, Min(|metas|, |embs|))
      case Err(e) => Err(e)
      case Ok(rs) => Ok(SortByScore(rs))
  }

  method GetTopSimilarProfs(student: seq<string>, t: real, metas: seq<Record>, embs: seq<Option<Matrix>>)
    returns (res: Result<seq<MatchResult>>)
    requires AllWellShaped(student, metas, embs)
    ensures student == [] ==> res == Ok([])
    ensures res == Rank(student, t, metas, embs)
  {
    if student == [] {
      return Ok([]);
    }
    var all := AugmentAll(student, t, metas, embs);
    if all.Err? {
      return Err(all.error);
    }
    var results := all.value;
    var a := new MatchResult[|results|](i requires 0 <= i < |results| => results[i]);
    assert a[..] == results;
    SortInPlace(a);
    res := Ok(a[..]);
  }

  /** The loop over `zip(prof_meta, prof_data)`: `results` gets one entry per
      pair, and the first failing entry ends the call. */
  method AugmentAll(student: seq<string>, t: real, metas: seq<Record>, embs: seq<Option<Matrix>>)
    returns (res: Result<seq<MatchResult>>)
    requires student != [] && AllWellShaped(student, metas, embs)
    ensures res == AugmentPrefix(student, t, metas, embs, Min(|metas|, |embs|))
  {
    var n := Min(|metas|, |embs|);
    var results: seq<MatchResult> := [];
    var k := 0;
    while k < n
      invariant 0 <= k <= n
      invariant AugmentPrefix(student, t, metas, embs, k) == Ok(results)
    {
      var r := AugmentProfile(student, t, metas[k], embs[k]);
      if r.Err? {
        PrefixFailsFrom(student, t, metas, embs, k, n);
        return Err(r.error);
      }
      results := results + [r.value];
      k := k + 1;
    }
    res := Ok(results);
  }

  /** The ranking: for a non-empty keyword list, an error exactly when some
      profile's entry is one; otherwise one entry per pair of record and
      embedding, sorted by non-increasing score, entries of equal score in
      catalog order, and nothing added or lost. */
  lemma RankIsStableRanking(student: seq<string>, t: real, metas: seq<Record>, embs: seq<Option<Matrix>>)
    requires student != [] && AllWellShaped(student, metas, embs)
    ensures var n := Min(|metas|, |embs|);
            Rank(student, t, metas, embs).Ok? <==> forall i :: 0 <= i < n ==> Augment(student, t, metas[i], embs[i]).Ok?
    ensures var n := Min(|metas|, |embs|);
            var all := AugmentPrefix(student, t, metas, embs, n);
            var ranked := Rank(student, t, metas, embs);
            ranked.Ok? ==>
              all.Ok? && |all.value| == n && |ranked.value| == n &&
              (forall i :: 0 <= i < n ==> Augment(student, t, metas[i], embs[i]) == Ok(all.value[i])) &&
              SortedByScore(ranked.value) &&
              multiset(ranked.value) == multiset(all.value) &&
              forall k :: WithScore(ranked.value, k) == WithScore(all.value, k)
  {
    var n := Min(|metas|, |embs|);
    AugmentPrefixEntries(student, t, metas, embs, n);
    var all := AugmentPrefix(student, t, metas, embs, n);
    if all.Ok? {
      SortByScoreSorted(all.value);
      SortByScorePermutes(all.value);
      SortByScoreStable(all.value);
    }
  }

  /** Every dictionary of the ranking is a catalog record that `zip` paired
      with an embedding, with its fields kept and the two new keys added. */
  lemma RankedRecordsComeFromCatalog(student: seq<string>, t: real, metas: seq<Record>, embs: seq<Option<Matrix>>)
    requires student != [] && AllWellShaped(student, metas, embs)
    ensures var n := Min(|metas|, |embs|);
            var ranked := Rank(student, t, metas, embs);
            ranked.Ok? ==>
              forall r :: r in ranked.value ==>
                exists i :: 0 <= i < n && r.meta == metas[i] &&
                  AsRecord(r).Keys == metas[i].Keys + {ScoreKey, MatchesKey} &&
                  forall k :: k in metas[i] && k != ScoreKey && k != MatchesKey ==> AsRecord(r)[k] == metas[i][k]
  {
    var n := Min(|metas|, |embs|);
    var ranked := Rank(student, t, metas, embs);
    if ranked.Ok? {
      AugmentPrefixEntries(student, t, metas, embs, n);
      var all := AugmentPrefix(student, t, metas, embs, n).value;
      assert ranked.value == SortByScore(all);
      SortByScorePermutes(all);
      forall r | r in ranked.value
        ensures exists i :: 0 <= i < n && r.meta == metas[i] &&
                  AsRecord(r).Keys == metas[i].Keys + {ScoreKey, MatchesKey} &&
                  forall k :: k in metas[i] && k != ScoreKey && k != MatchesKey ==> AsRecord(r)[k] == metas[i][k]
      {
        assert r in multiset(all);
        var i :| 0 <= i < |all| && all[i] == r;
        AugmentKeepsRecord(student, t, metas[i], embs[i]);
        assert r.meta == metas[i];
      }
    }
  }

  /** A profile's entry carries the profile's record unchanged. */
  lemma AugmentKeepsRecord(student: seq<string>, t: real, meta: Record, sims: Option<Matrix>)
    requires student != [] && WellShaped(student, sims)
    ensures Augment(student, t, meta, sims).Ok? ==> Augment(student, t, meta, sims).value.meta == meta
  {
  }

  // ------------------------------------------------------------------- sort

  /** Best first: scores never increase along the sequence. */
  predicate SortedByScore(rs: seq<MatchResult>) {
    forall i, j :: 0 <= i < j < |rs| ==> rs[i].score >= rs[j].score
  }

  /** The entries of score `k`, in their order in `rs`. */
  function WithScore(rs: seq<MatchResult>, k: real): seq<MatchResult> {
    if rs == [] then []
    else WithScore(rs[..|rs| - 1], k) + (if rs[|rs| - 1].score == k then [rs[|rs| - 1]] else [])
  }

  /** Insert `x` into `rs` behind every entry whose score is at least its own. */
  function InsertByScore(rs: seq<MatchResult>, x: MatchResult): seq<MatchResult> {
    if rs == [] || rs[|rs| - 1].score >= x.score then rs + [x]
    else InsertByScore(rs[..|rs| - 1], x) + [rs[|rs| - 1]]
  }

  /** `results.sort(key=similarity_score, reverse=True)`, which Python's sort
      performs stably. */
  function SortByScore(rs: seq<MatchResult>): seq<MatchResult> {
    if rs == [] then [] else InsertByScore(SortByScore(rs[..|rs| - 1]), rs[|rs| - 1])
  }

  lemma {:induction false} InsertByScorePermutes(rs: seq<MatchResult>, x: MatchResult)
    ensures multiset(InsertByScore(rs, x)) == multiset(rs) + multiset{x}
  {
    if !(rs == [] || rs[|rs| - 1].score >= x.score) {
      InsertByScorePermutes(rs[..|rs| - 1], x);
      assert rs == rs[..|rs| - 1] + [rs[|rs| - 1]];
    }
  }

  lemma {:induction false} InsertByScoreSorted(rs: seq<MatchResult>, x: MatchResult)
    requires SortedByScore(rs)
    ensures SortedByScore(InsertByScore(rs, x))
  {
    if !(rs == [] || rs[|rs| - 1].score >= x.score) {
      var init, last := rs[..|rs| - 1], rs[|rs| - 1];
      InsertByScoreSorted(init, x);
      InsertByScorePermutes(init, x);
      var ins := InsertByScore(init, x);
      forall i | 0 <= i < |ins| ensures ins[i].score >= last.score {
        assert ins[i] in multiset(init) + multiset{x};
        if ins[i] in multiset(init) {
          var j :| 0 <= j < |init| && init[j] == ins[i];
        }
      }
    }
  }

  lemma {:induction false} WithScoreAppend(rs: seq<MatchResult>, ss: seq<MatchResult>, k: real)
    ensures WithScore(rs + ss, k) == WithScore(rs, k) + WithScore(ss, k)
    decreases |ss|
  {
    if ss == [] {
      assert rs + ss == rs;
    } else {
      var init := ss[..|ss| - 1];
      assert (rs + ss)[..|rs + ss| - 1] == rs + init;
      WithScoreAppend(rs, init, k);
    }
  }

  /** Insertion passes only entries of strictly lower score, so among the
      entries of any one score `x` comes last. */
  lemma {:induction false} InsertByScoreStable(rs: seq<MatchResult>, x: MatchResult, k: real)
    ensures WithScore(InsertByScore(rs, x), k) == WithScore(rs, k) + WithScore([x], k)
  {
    if rs == [] || rs[|rs| - 1].score >= x.score {
      WithScoreAppend(rs, [x], k);
    } else {
      var init, last := rs[..|rs| - 1], rs[|rs| - 1];
      InsertByScoreStable(init, x, k);
      WithScoreAppend(InsertByScore(init, x), [last], k);
      assert rs == init + [last];
      WithScoreAppend(init, [last], k);
      assert WithScore([x], k) == [] || WithScore([last], k) == [] by {
        assert [x][..0] == [] && [last][..0] == [];
      }
    }
  }

  /** The sorted list is ordered by non-increasing score. */
  lemma {:induction false} SortByScoreSorted(rs: seq<MatchResult>)
    ensures SortedByScore(SortByScore(rs))
  {
    if rs != [] {
      SortByScoreSorted(rs[..|rs| - 1]);
      InsertByScoreSorted(SortByScore(rs[..|rs| - 1]), rs[|rs| - 1]);
    }
  }

  /** Sorting neither adds nor loses entries. */
  lemma {:induction false} SortByScorePermutes(rs: seq<MatchResult>)
    ensures multiset(SortByScore(rs)) == multiset(rs)
  {
    if rs != [] {
      SortByScorePermutes(rs[..|rs| - 1]);
      InsertByScorePermutes(SortByScore(rs[..|rs| - 1]), rs[|rs| - 1]);
      assert rs == rs[..|rs| - 1] + [rs[|rs| - 1]];
    }
  }

  /** Sorting is stable: the entries of each score keep their relative order. */
  lemma {:induction false} SortByScoreStable(rs: seq<MatchResult>)
    ensures forall k :: WithScore(SortByScore(rs), k) == WithScore(rs, k)
  {
    if rs != [] {
      var init, last := rs[..|rs| - 1], rs[|rs| - 1];
      SortByScoreStable(init);
      forall k ensures WithScore(SortByScore(rs), k) == WithScore(rs, k) {
        InsertByScoreStable(SortByScore(init), last, k);
        assert rs == init + [last];
        WithScoreAppend(init, [last], k);
      }
    }
  }

  /** Where the right-to-left shifting of insertion sort stops, inserting
      there is `InsertByScore`. */
  lemma {:induction false} InsertAt(rs: seq<MatchResult>, x: MatchResult, j: nat)
    requires j <= |rs|
    requires j == 0 || rs[j - 1].score >= x.score
    requires forall k :: j <= k < |rs| ==> rs[k].score < x.score
    ensures InsertByScore(rs, x) == rs[..j] + [x] + rs[j..]
    decreases |rs|
  {
    if j < |rs| {
      var init := rs[..|rs| - 1];
      InsertAt(init, x, j);
      assert init[..j] == rs[..j];
      assert init[j..] + [rs[|rs| - 1]] == rs[j..];
    } else {
      assert rs[..j] == rs;
    }
  }

  /** `results.sort(...)` in place: insertion sort, which is stable. */
  method SortInPlace(a: array<MatchResult>)
    modifies a
    ensures a[..] == SortByScore(old(a[..]))
  {
    ghost var orig := a[..];
    var i := 0;
    while i < a.Length
      invariant 0 <= i <= a.Length
      invariant a[..i] == SortByScore(orig[..i])
      invariant a[i..] == orig[i..]
    {
      InsertNext(a, i);
      SortByScoreStep(orig, i);
      assert a[i + 1..] == orig[i + 1..] by {
        assert orig[i + 1..] == orig[i..][1..];
      }
      i := i + 1;
    }
    assert a[..] == a[..a.Length] && orig[..a.Length] == orig;
  }

  /** One round of insertion sort: `a[i]` moves left past the entries of the
      sorted prefix `a[..i]` whose score is strictly lower. */
  method InsertNext(a: array<MatchResult>, i: nat)
    requires i < a.Length
    modifies a
    ensures a[..i + 1] == InsertByScore(old(a[..i]), old(a[i]))
    ensures a[i + 1..] == old(a[i + 1..])
  {
    ghost var sorted := a[..i];
    var x := a[i];
    var j := i;
    while j > 0 && a[j - 1].score < x.score
      invariant 0 <= j <= i
      invariant forall k :: 0 <= k < j ==> a[k] == sorted[k]
      invariant forall k :: j < k <= i ==> a[k] == sorted[k - 1]
      invariant a[i + 1..] == old(a[i + 1..])
      invariant forall k :: j <= k < i ==> sorted[k].score < x.score
    {
      a[j] := a[j - 1];
      j := j - 1;
    }
    a[j] := x;
    InsertedAt(a[..], sorted, x, i, j);
  }

  /** The array after one round of shifting holds the sorted prefix with `x`
      inserted. */
  lemma InsertedAt(s: seq<MatchResult>, sorted: seq<MatchResult>, x: MatchResult, i: nat, j: nat)
    requires j <= i < |s| && |sorted| == i
    requires j == 0 || sorted[j - 1].score >= x.score
    requires forall k :: j <= k < i ==> sorted[k].score < x.score
    requires forall k :: 0 <= k < j ==> s[k] == sorted[k]
    requires s[j] == x
    requires forall k :: j < k <= i ==> s[k] == sorted[k - 1]
    ensures s[..i + 1] == InsertByScore(sorted, x)
  {
    InsertAt(sorted, x, j);
    assert s[..i + 1] == sorted[..j] + [x] + sorted[j..];
  }

  /** Sorting one more entry of `s` inserts it into the sorted prefix. */
  lemma SortByScoreStep(s: seq<MatchResult>, i: nat)
    requires i < |s|
    ensures SortByScore(s[..i + 1]) == InsertByScore(SortByScore(s[..i]), s[i])
  {
    assert s[..i + 1][..i] == s[..i];
  }
}
