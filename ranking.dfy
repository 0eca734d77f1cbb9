/** Ranking: `find_top_matches`. The new user's list becomes a preference
    dict, every person of the dataset is scored against it with
    `compare_users`, in dataset order, the results are sorted by
    descending score with Python's stable sort, and the first `top_n` are
    returned. */
module Ranking {
  import opened Titles
  import opened Preferences
  import opened Scoring
  import opened Sorting

  /** One `{"person": ..., "score": ..., "overlap": ...}` result. */
  datatype MatchResult = MatchResult(person: Person, score: int, overlap: seq<Overlap<Title>>)

  /** The default of `top_n`. */
  const DefaultTopN: int := 20

  /** The sort key `lambda x: x["score"]`. */
  function Score(r: MatchResult): int
  {
    r.score
  }

  /** The result of comparing the new user with one person. */
  function ResultFor(user: Prefs, person: Person, prefs: Prefs): MatchResult
  {
    var ms := MatchingPairs(PartialMatch, user, prefs, |user|);
    MatchResult(person, SumProducts(ms), Records(ms))
  }

  /** `results` before the sort: one `results.append` per person, in the
      order of `transformed_data.items()`. */
  function ResultsOf(user: Prefs, data: Dataset): (rs: seq<MatchResult>)
    ensures |rs| == |data|
  {
    if data == [] then []
    else
      var n := |data| - 1;
      ResultsOf(user, data[..n]) + [ResultFor(user, data[n].0, data[n].1)]
  }

  /** `results` after `results.sort(key=lambda x: x["score"], reverse=True)`. */
  function Ranked(user: Prefs, data: Dataset): seq<MatchResult>
  {
    SortDesc(ResultsOf(user, data), Score)
  }

  /** Where Python's `s[:n]` stops for a sequence of length `len`: a
      negative `n` counts from the end, and the stop is clamped to
      `0..len`. */
  function SliceStop(n: int, len: nat): (k: nat)
    ensures k <= len
  {
    if n >= 0 then (if n < len then n else len)
    else if len + n > 0 then len + n
    else 0
  }

  /** What `find_top_matches` returns. */
  function TopMatches(newUserList: seq<(Title, int)>, data: Dataset, topN: int): seq<MatchResult>
  {
    var ranked := Ranked(PrefsOf(newUserList), data);
    ranked[..SliceStop(topN, |ranked|)]
  }

  /** `find_top_matches` (app.py lines 100-123). The list `results` is an
      array while it is sorted in place. */
  method FindTopMatches(newUserList: seq<(Title, int)>, data: Dataset, topN: int := DefaultTopN) returns (top: seq<MatchResult>)
    ensures top == TopMatches(newUserList, data, topN)
  {
    var user := BuildPreferences(newUserList);
    var results := ScoreAll(user, data);
    var a := new MatchResult[|results|](k requires 0 <= k < |results| => results[k]);
    assert a[..] == results;
    SortInPlace(a, Score);
    top := a[..SliceStop(topN, a.Length)];
  }

  /** The scoring loop of `find_top_matches` (app.py lines 112-119). */
  method ScoreAll(user: Prefs, data: Dataset) returns (results: seq<MatchResult>)
    ensures results == ResultsOf(user, data)
  {
    results := [];
    var i := 0;
    while i < |data|
      invariant 0 <= i <= |data|
      invariant results == ResultsOf(user, data[..i])
    {
      var (person, personDict) := data[i];
      var score, overlap := CompareUsers(user, personDict);
      assert data[..i + 1][..i] == data[..i];
      results := results + [MatchResult(person, score, overlap)];
      i := i + 1;
    }
    assert data[..|data|] == data;
  }

  // ---------------------------------------------------------------------
  // What `find_top_matches` promises
  // ---------------------------------------------------------------------

  /** Before the sort there is exactly one result per person, in dataset
      order, holding that person's `compare_users` score and overlap
      list. */
  lemma {:induction false} ResultsShape(user: Prefs, data: Dataset)
    ensures |ResultsOf(user, data)| == |data|
    ensures forall k :: 0 <= k < |data| ==> ResultsOf(user, data)[k] == ResultFor(user, data[k].0, data[k].1)
  {
    if data != [] {
      var n := |data| - 1;
      var prev := data[..n];
      ResultsShape(user, prev);
      var rs := ResultsOf(user, data);
      forall k | 0 <= k < |data| ensures rs[k] == ResultFor(user, data[k].0, data[k].1) {
        if k < n {
          assert prev[k] == data[k];
          assert rs[k] == ResultsOf(user, prev)[k];
        }
      }
    }
  }

  /** The sorted results are the per-person results, reordered, with the
      scores non-increasing and ties kept in dataset order. */
  lemma RankedSpec(user: Prefs, data: Dataset)
    ensures multiset(Ranked(user, data)) == multiset(ResultsOf(user, data))
    ensures SortedDesc(Ranked(user, data), Score)
    ensures forall v :: WithKey(Ranked(user, data), Score, v) == WithKey(ResultsOf(user, data), Score, v)
  {
    SortDescPerm(ResultsOf(user, data), Score);
    SortDescSorted(ResultsOf(user, data), Score);
    forall v ensures WithKey(Ranked(user, data), Score, v) == WithKey(ResultsOf(user, data), Score, v) {
      SortDescStable(ResultsOf(user, data), Score, v);
    }
  }

  /** The returned list has `min(top_n, |transformed_data|)` results for a
      non-negative `top_n` (20 by default), and a negative `top_n` drops
      that many from the end; it is a prefix of the sorted
      results, it comes in non-increasing order of score, and no result
      left out scores higher than one kept. */
  lemma TopMatchesSpec(newUserList: seq<(Title, int)>, data: Dataset, topN: int)
    ensures 0 <= topN ==> |TopMatches(newUserList, data, topN)| == (if topN < |data| then topN else |data|)
    ensures topN < 0 ==> |TopMatches(newUserList, data, topN)| == (if |data| + topN < 0 then 0 else |data| + topN)
    ensures |TopMatches(newUserList, data, DefaultTopN)| == (if |data| < 20 then |data| else 20)
    ensures TopMatches(newUserList, data, topN) <= Ranked(PrefsOf(newUserList), data)
    ensures SortedDesc(TopMatches(newUserList, data, topN), Score)
    ensures forall a, b :: 0 <= a < |TopMatches(newUserList, data, topN)| <= b < |Ranked(PrefsOf(newUserList), data)| ==>
              Score(Ranked(PrefsOf(newUserList), data)[b]) <= Score(TopMatches(newUserList, data, topN)[a])
  {
    var user := PrefsOf(newUserList);
    var ranked := Ranked(user, data);
    ResultsShape(user, data);
    SortDescSorted(ResultsOf(user, data), Score);
    var top := TopMatches(newUserList, data, topN);
    assert top == ranked[..|top|];
    forall a, b | 0 <= a < |top| <= b < |ranked|
      ensures Score(ranked[b]) <= Score(top[a])
    {
      assert top[a] == ranked[a];
    }
  }
}
