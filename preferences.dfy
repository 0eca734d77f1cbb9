/** Preference building: `transform_data` and the loop at the top of
    `find_top_matches`. Each person's ranked list of `(title, rank)` pairs
    becomes a dict from the raw title to its rank and its weight `11 - rank`. */
module Preferences {
  import opened Dicts
  import opened Titles

  /** The inner dict value `{"rank": rank, "weight": weight}`. */
  datatype PrefEntry = PrefEntry(rank: int, weight: int)

  /** One person's preferences, keyed by the raw (not normalised) title. */
  type Prefs = Dict<Title, PrefEntry>

  type Person = string

  /** What `load_data` returns: each person's `(title, rank)` list in file
      order. */
  type RawData = Dict<Person, seq<(Title, int)>>

  /** What `transform_data` returns. */
  type Dataset = Dict<Person, Prefs>

  /** Weights count down from this: rank 1 weighs 10, rank 10 weighs 1. */
  const WeightBase: int := 11

  function EntryFor(rank: int): PrefEntry
  {
    PrefEntry(rank, WeightBase - rank)
  }

  /** The titles of a ranked list, in list order. */
  function TitlesOf(list: seq<(Title, int)>): (ts: seq<Title>)
    ensures |ts| == |list|
    ensures forall i :: 0 <= i < |list| ==> ts[i] == list[i].0
  {
    if list == [] then [] else TitlesOf(list[..|list| - 1]) + [list[|list| - 1].0]
  }

  /** The first occurrence of each element of `s`, in order. */
  function Distinct(s: seq<Title>): (r: seq<Title>)
    ensures forall x :: x in r <==> x in s
    ensures forall i, j :: 0 <= i < j < |r| ==> r[i] != r[j]
    ensures |r| <= |s|
  {
    if s == [] then []
    else
      var p := s[..|s| - 1];
      var x := s[|s| - 1];
      assert s == p + [x];
      Distinct(p) + (if x in p then [] else [x])
  }

  /** The dict that the preference loop builds from `list`: one `d[title] =
      {...}` per pair, in list order. */
  function PrefsOf(list: seq<(Title, int)>): Prefs
  {
    if list == [] then []
    else
      var n := |list| - 1;
      Put(PrefsOf(list[..n]), list[n].0, EntryFor(list[n].1))
  }

  /** The dict-building loop (app.py lines 38-42 and 106-110). */
  method BuildPreferences(list: seq<(Title, int)>) returns (d: Prefs)
    ensures d == PrefsOf(list)
  {
    d := [];
    var i := 0;
    while i < |list|
      invariant 0 <= i <= |list|
      invariant d == PrefsOf(list[..i])
    {
      var (game, rank) := list[i];
      assert list[..i + 1][..i] == list[..i];
      d := Put(d, game, EntryFor(rank));
      i := i + 1;
    }
    assert list[..|list|] == list;
  }

  /** Every stored entry comes from a pair of the list and weighs
      `11 - rank`. */
  lemma {:induction false} PrefsEntries(list: seq<(Title, int)>)
    ensures forall e :: e in PrefsOf(list) ==> (e.0, e.1.rank) in list && e.1.weight == 11 - e.1.rank
  {
    if list != [] {
      var n := |list| - 1;
      PrefsEntries(list[..n]);
      forall e | e in PrefsOf(list)
        ensures (e.0, e.1.rank) in list && e.1.weight == 11 - e.1.rank
      {
        if e in PrefsOf(list[..n]) {
          assert (e.0, e.1.rank) in list[..n];
        }
      }
    }
  }

  /** Ranks 1..10 give weights 10..1. */
  lemma PrefsWeightRange(list: seq<(Title, int)>)
    requires forall i :: 0 <= i < |list| ==> 1 <= list[i].1 <= 10
    ensures forall e :: e in PrefsOf(list) ==> 1 <= e.1.weight <= 10
  {
    PrefsEntries(list);
  }

  /** A title listed twice keeps one key, at the position of its first
      insertion: the keys are the list's distinct titles in order of first
      occurrence. So the key set is the set of listed titles, and no key
      repeats. */
  lemma {:induction false} PrefsKeys(list: seq<(Title, int)>)
    ensures Keys(PrefsOf(list)) == Distinct(TitlesOf(list))
  {
    if list != [] {
      var n := |list| - 1;
      PrefsKeys(list[..n]);
      assert TitlesOf(list[..n]) == TitlesOf(list)[..n];
    }
  }

  /** The preference dict never holds a title twice and has at most one
      entry per pair of the list. */
  lemma PrefsUnique(list: seq<(Title, int)>)
    ensures UniqueKeys(PrefsOf(list))
    ensures |PrefsOf(list)| <= |list|
  {
    PrefsKeys(list);
    var d := PrefsOf(list);
    forall i, j | 0 <= i < j < |d| ensures d[i].0 != d[j].0 {
      assert Keys(d)[i] == d[i].0 && Keys(d)[j] == d[j].0;
    }
  }

  /** The new user's list as the entry form passes it on: a field whose
      text is blank once stripped is skipped, and each title's rank is the
      number of its field, 1 to 10. */
  predicate FromForm(list: seq<(Title, int)>)
  {
    && (forall i :: 0 <= i < |list| ==> Strip(list[i].0) != [])
    && (forall i :: 0 <= i < |list| ==> 1 <= list[i].1 <= 10)
    && (forall i, j :: 0 <= i < j < |list| ==> list[i].1 < list[j].1)
  }

  /** A list from the entry form has at most ten pairs, so the new user's
      dict has at most ten entries, each weighing 1 to 10. */
  lemma {:induction false} FormPrefs(list: seq<(Title, int)>)
    requires FromForm(list)
    ensures |list| <= 10
    ensures |PrefsOf(list)| <= 10
    ensures forall e :: e in PrefsOf(list) ==> 1 <= e.1.weight <= 10
  {
    FormRanksBound(list);
    PrefsUnique(list);
    PrefsWeightRange(list);
  }

  /** Strictly increasing ranks from 1 leave the k-th pair a rank of at
      least k + 1. */
  lemma {:induction false} FormRanksBound(list: seq<(Title, int)>)
    requires FromForm(list)
    ensures forall i :: 0 <= i < |list| ==> list[i].1 >= i + 1
    ensures |list| <= 10
  {
    if list != [] {
      var n := |list| - 1;
      FormRanksBound(list[..n]);
      if n > 0 {
        assert list[..n][n - 1] == list[n - 1];
        assert list[n - 1].1 >= n;
      }
      assert list[n].1 >= n + 1;
    }
  }

  /** A title listed more than once takes the rank (and weight) of its last
      occurrence. */
  lemma {:induction false} PrefsLastWins(list: seq<(Title, int)>, i: nat)
    requires i < |list|
    requires forall j :: i < j < |list| ==> list[j].0 != list[i].0
    ensures Get(PrefsOf(list), list[i].0) == Some(EntryFor(list[i].1))
  {
    var n := |list| - 1;
    PutGet(PrefsOf(list[..n]), list[n].0, EntryFor(list[n].1), list[i].0);
    if i < n {
      PrefsLastWins(list[..n], i);
    }
  }

  /** What `transform_data` builds: one `transformed[person] = {...}` per
      person, in the order of `data`. */
  function TransformOf(data: RawData): Dataset
  {
    if data == [] then []
    else
      var n := |data| - 1;
      Put(TransformOf(data[..n]), data[n].0, PrefsOf(data[n].1))
  }

  /** `transform_data` (app.py lines 35-43). The inner loop is the
      preference loop, run on each person's list. */
  method TransformData(data: RawData) returns (t: Dataset)
    ensures t == TransformOf(data)
  {
    t := [];
    var i := 0;
    while i < |data|
      invariant 0 <= i <= |data|
      invariant t == TransformOf(data[..i])
    {
      var (person, gamesRanks) := data[i];
      var prefs := BuildPreferences(gamesRanks);
      assert data[..i + 1][..i] == data[..i];
      t := Put(t, person, prefs);
      i := i + 1;
    }
    assert data[..|data|] == data;
  }

  /** Since a dict's keys are distinct, `transform_data` yields exactly one
      inner dict per person, in the same order, built from that person's
      list. */
  lemma {:induction false} TransformShape(data: RawData)
    requires UniqueKeys(data)
    ensures |TransformOf(data)| == |data|
    ensures forall i :: 0 <= i < |data| ==> TransformOf(data)[i] == (data[i].0, PrefsOf(data[i].1))
  {
    if data != [] {
      var n := |data| - 1;
      var prev := data[..n];
      TransformShape(prev);
      assert Keys(TransformOf(prev)) == Keys(prev);
      assert data[n].0 !in Keys(prev) by {
        forall j | 0 <= j < n ensures Keys(prev)[j] != data[n].0 {
          assert Keys(prev)[j] == data[j].0;
        }
      }
    }
  }
}
