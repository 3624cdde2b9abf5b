# Professor matching engine, modelled in Dafny

This project models the matching and ranking engine of a research matcher.
A student's research-interest keywords are compared with a catalog of
professor records. Each record carries its own keyword list. The function
`get_top_similar_profs` scores every professor and lists the keywords that
drove each match. It then returns every record, augmented with
`similarity_score` and `matched_interests`, sorted best first.

The sentence-embedding model and its cosine similarity are foreign numerics.
So for each professor, the model takes as input the similarity matrix that
`util.cos_sim(student_emb, prof_emb)` would return: one row per student
keyword, one column per embedding row of the professor. It is `None` where the
stored embedding is `None`. Everything downstream is modelled with exact reals.

Three modules, one per concern:

- `Words` (`words.dfy`): `len(s.split())`, the word count that decides which
  keyword of a matching pair is more specific. It uses Python's whitespace set.
- `Similarity` (`similarity.dfy`): the per-professor work.
  - Matched interests: every pair `(i, j)` with `sim[i][j] >= threshold` keeps
    the keyword with more words, and the student's keyword on a tie.
  - The score: the sum of each student keyword's best similarity, counted only
    when strictly above the threshold, divided by the number of student keywords.
  - The nested matching loops and the `total_sum` loop are methods proved
    against recursive specification functions.
- `Ranking` (`ranking.dfy`):
  - the per-professor branch (no keywords or no embedding gives score 0 and no
    matches);
  - the loop over `zip(prof_meta, prof_data)` that appends augmented records;
  - the in-place stable sort by descending score, as an insertion sort on an
    array, proved equal to a functional sort that is proved sorted, a
    permutation and stable;
  - `GetTopSimilarProfs`, the whole function, proved equal to the
    specification function `Rank`.

Notes on the code's behaviour, which the model follows:

- Scoring a single keyword twice (`["ml", "ml"]` against `["ml"]`) does not
  change the score. Both rows are equal, so numerator and denominator both
  double (`Similarity.RepeatedKeywordKeepsScore`).
- For records whose `prof_keywords` is missing or a list of strings, the
  only error the modelled code can raise on its inputs is the
  `IndexError` of `sims[i][j]`. That happens when a professor's embedding has
  fewer rows than the record has keywords. It is modelled as `Err(IndexError)`
  for the whole call.
- An embedding with more rows than keywords is not an error in the code.
  Matching then scans only the first `len(prof_keywords)` columns, while
  `max(sims[i])` scans all of them. The model does the same.
- `matched_interests` is `list(matched_keywords)`, whose order Python leaves
  unspecified. It is modelled as a set.
- Each entry of the ranking is a `MatchResult`: the record, its score and its
  matched interests. The dictionary the code returns for it is
  `AsRecord` of that entry.

## Model

| member | source | states |
|---|---|---|
| `Words.Split` | ayush_files/keyword_similarity.py:69 | `str.split()` yields only non-empty words free of whitespace |
| `Words.SplitKeepsNonSpace` | ayush_files/keyword_similarity.py:69 | the words, joined back together, are the keyword with its whitespace removed |
| `Words.WordCountIsWordStarts` | ayush_files/keyword_similarity.py:69 | `len(s.split())` equals the number of positions where a word starts, an independent count |
| `Words.WordCountOneWord` | ayush_files/keyword_similarity.py:69 | `"ai".split()` is `["ai"]`, one word |
| `Words.WordCountThreeWords` | ayush_files/keyword_similarity.py:69 | `"artificial intelligence research"` has three words |
| `Similarity.MoreSpecific` | ayush_files/keyword_similarity.py:69 | the kept keyword is one of the pair, has at least as many words as either, and is the student's whenever the student's has at least as many words |
| `Similarity.MoreSpecificExample` | ayush_files/keyword_similarity.py:69 | "ai" against "artificial intelligence research" keeps the three-word professor keyword |
| `Similarity.MatchKeywords` | ayush_files/keyword_similarity.py:64-70 | the nested `i`/`j` loops build exactly the specified matched set |
| `Similarity.MatchedInterestsMembers` | ayush_files/keyword_similarity.py:64-70 | a term is matched iff some pair `(i, j)` has `sim[i][j] >= threshold` and the term is the more specific of that pair |
| `Similarity.MatchedInterestsAreKeywords` | ayush_files/keyword_similarity.py:64-70 | every matched interest is a student or professor keyword |
| `Similarity.NoMatchIffBelowThreshold` | ayush_files/keyword_similarity.py:64-70 | nothing is matched iff every pair's similarity is below the threshold |
| `Similarity.PairAtThresholdMatches` | ayush_files/keyword_similarity.py:68-70 | a pair at or above the threshold puts its more specific keyword into the matched set |
| `Similarity.RowMax` | ayush_files/keyword_similarity.py:74 | `max(sims[i])` is at least every entry of the row and is one of them |
| `Similarity.MaxSims` | ayush_files/keyword_similarity.py:74 | `max_sims` has one entry per student keyword, at least every similarity in that keyword's row and equal to one of them |
| `Similarity.ThresholdedScore` | ayush_files/keyword_similarity.py:76-80 | the `total_sum` loop adds exactly the best similarities strictly above the threshold, and the score divides that by the number of student keywords |
| `Similarity.SumAboveNonNegative` | ayush_files/keyword_similarity.py:76-79 | with a non-negative threshold, `total_sum` is never negative |
| `Similarity.SumAboveAtMostCount` | ayush_files/keyword_similarity.py:76-79 | with similarities at most 1, `total_sum` is at most the number of student keywords |
| `Similarity.SumAboveAllBelow` | ayush_files/keyword_similarity.py:78 | best similarities at or below the threshold add nothing |
| `Similarity.SumAboveAppend` | ayush_files/keyword_similarity.py:76-79 | `total_sum` over two runs of keywords is the sum of the two partial totals |
| `Similarity.ScoreInUnitInterval` | ayush_files/keyword_similarity.py:74-80 | with threshold >= 0 and similarities <= 1, the score lies in [0, 1] |
| `Similarity.NothingAboveThreshold` | ayush_files/keyword_similarity.py:74-79 | when no similarity exceeds the threshold, `total_sum` is 0 |
| `Similarity.UnmatchedKeywordsAddNothing` | ayush_files/keyword_similarity.py:74-79 | adding student keywords whose similarities are all at most the threshold leaves `total_sum` unchanged |
| `Similarity.UnmatchedKeywordsDilute` | ayush_files/keyword_similarity.py:74-80 | with such keywords added, the score is the old numerator over the larger count, so with threshold >= 0 it does not rise |
| `Similarity.ThresholdTieMatchesButScoresNothing` | ayush_files/keyword_similarity.py:64-80 | a pair exactly at the threshold is matched (`>=`) but, with nothing higher, the score is 0 (`>`) |
| `Similarity.SumAbovePermutation` | ayush_files/keyword_similarity.py:76-79 | `total_sum` depends only on the multiset of best similarities |
| `Similarity.RowMaxPermutation` | ayush_files/keyword_similarity.py:74 | a row's best similarity depends only on the multiset of its entries |
| `Similarity.ScoreIgnoresStudentOrder` | ayush_files/keyword_similarity.py:74-80 | swapping two student keywords (two rows) leaves the score unchanged |
| `Similarity.ScoreIgnoresProfessorOrder` | ayush_files/keyword_similarity.py:74-80 | swapping two professor keywords (two columns) leaves the score unchanged |
| `Similarity.RepeatedKeywordKeepsScore` | ayush_files/keyword_similarity.py:74-80 | one keyword given twice scores the same as given once |
| `Similarity.WorkedExampleScore` | ayush_files/keyword_similarity.py:74-80 | sims `[[0.95, 0.05], [0.10, 0.02]]` at the default threshold 0.3 give score 0.95 / 2 = 0.475 |
| `Similarity.WorkedExampleMatches` | ayush_files/keyword_similarity.py:64-70 | in the same example the matched set is exactly `{"machine learning"}` |
| `Ranking.ProfKeywords` | ayush_files/keyword_similarity.py:55 | `meta.get("prof_keywords", [])`: the record's keyword list, or no keywords when the key is missing (or its value is not a list of strings) |
| `Ranking.AsRecord` | ayush_files/keyword_similarity.py:86-88 | the augmented dict has the record's keys plus `similarity_score` and `matched_interests`, holding the score and matches, and every other field unchanged |
| `Ranking.AugmentProfile` | ayush_files/keyword_similarity.py:55-88 | one professor's branch computes exactly the specified entry |
| `Ranking.AugmentOutcome` | ayush_files/keyword_similarity.py:55-88 | error iff the embedding has fewer rows than keywords; otherwise the record is unchanged and matches come from the two keyword lists; no keywords or no embedding gives score 0 and no matches; with threshold >= 0 and similarities <= 1, the score is in [0, 1] |
| `Ranking.AugmentPrefixEntries` | ayush_files/keyword_similarity.py:52-90 | before sorting, `results` has one entry per `zip` pair, in catalog order, and the call fails iff some pair's entry fails |
| `Ranking.AugmentAll` | ayush_files/keyword_similarity.py:52-90 | the loop over `zip` pairs builds exactly the specified `results`, or stops with the first entry's `IndexError` |
| `Ranking.PrefixFailsFrom` | ayush_files/keyword_similarity.py:52-90 | an `IndexError` in one profile's entry ends the whole call with an error, however many pairs follow |
| `Ranking.GetTopSimilarProfs` | ayush_files/keyword_similarity.py:34-94 | an empty keyword list returns `[]`; otherwise the result is the specified ranking |
| `Ranking.RankIsStableRanking` | ayush_files/keyword_similarity.py:52-94 | one entry per `zip` pair (the shorter input bounds it), sorted by non-increasing score, equal scores in catalog order, nothing added or lost |
| `Ranking.RankedRecordsComeFromCatalog` | ayush_files/keyword_similarity.py:52-94 | every returned dictionary is a catalog record paired by `zip`, with all its fields kept and `similarity_score` and `matched_interests` added |
| `Ranking.SortInPlace` | ayush_files/keyword_similarity.py:93 | the in-place insertion sort leaves the array equal to the functional stable sort of its old contents |
| `Ranking.InsertNext` | ayush_files/keyword_similarity.py:93 | one round of shifting inserts `a[i]` into the sorted prefix `a[..i]` and leaves the rest of the array alone |
| `Ranking.SortByScoreSorted` | ayush_files/keyword_similarity.py:93 | the sorted list has non-increasing scores |
| `Ranking.SortByScorePermutes` | ayush_files/keyword_similarity.py:93 | sorting is a permutation |
| `Ranking.SortByScoreStable` | ayush_files/keyword_similarity.py:93 | for every score, the entries with that score keep their relative order |
| `Ranking.InsertByScoreStable` | ayush_files/keyword_similarity.py:93 | inserting an entry puts it after every earlier entry of its own score |
| `Ranking.InsertAt` | ayush_files/keyword_similarity.py:93 | stopping the right-to-left shift at the first entry of score at least the new one's is the specified insertion |

## Left out

- The sentence-embedding model, `model.encode` and `util.cos_sim` are foreign float numerics. Each professor's cosine-similarity matrix is an input with the shape `cos_sim` returns (one row per student keyword, rows of one width). Bounds on its entries appear only as premises of the lemmas that need them.
- `round(score, 5)` is float rounding and is modelled as the identity. Reals replace floats throughout.
- File I/O is left out: `os.path.exists` and its `FileNotFoundError`, `json.load` of the catalog file and `torch.load`. The record list and the similarity inputs are parameters. The `print` calls are dropped.
- `pre_compute_prof_data` only encodes keywords and saves them, so only its output is modelled: one embedding (here, one similarity matrix) per record. Its `torch.stack` needs every professor to have the same number of keywords; that is not modelled.
- The `IndexError` of `sims[i][j]` is raised mid-loop in the code. The model checks for it before the loops. No result is produced either way.
- ProfKeywords: a `prof_keywords` value that is not a list of strings is read as no keywords. The code differs: a non-empty string value is iterated character by character, each character a keyword (and it can raise `IndexError` when the embedding is narrower than the string), and a non-zero number passes `not prof_keywords` and raises `TypeError` at `enumerate`. An empty string or a zero number is falsy and takes the zero branch, as in the model.
- `Value` covers strings, string lists, numbers and the matched set only: JSON null, booleans and nested objects in a record are not represented. A record is a map, so the key order that `meta.copy()` keeps (the two new keys last) is not modelled. The ranking reads only `prof_keywords`, so neither affects it.
- The order of `matched_interests` (`list` of a set) is unspecified in Python and is not modelled.
- Order independence of the score is proved for swaps of two student keywords or two professor keywords. Any reordering is a sequence of such swaps, but that composition is not stated as one lemma.
- `keyword_parse/extraction.py` is not part of this model: it makes calls to a hosted text-generation service, runs `eval` on the reply and strips code fences.
- `scrapping.py` is not part of this model: it is a web-scraping script whose few string rules sit inside network and exception-handling code.
- `main.py` and `streamlit/main.py` are not part of this model: user interface and top-k display.
- `st_utils.py` is not part of this model: PDF text extraction and a `mailto` link.
