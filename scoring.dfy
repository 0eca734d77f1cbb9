/** Scoring one person against the new user: `compare_users`. Every pair of
    dict entries, the user's entries outer and the other person's inner,
    both in dict order, is tested with `partial_match`; each matching pair
    adds the product of the two weights to the score and one record to
    `overlap_details`.

    The nested loop (`CompareWith`) is written once, for any type of title
    `T` and any title test, and `CompareUsers` runs it on `Title`s with
    `PartialMatch`. The loop is proved against a pair-level definition:
    `MatchingPairs` lists the matching pairs of entries in the order the
    loop meets them, and the loop returns their `Records` and the
    `SumProducts` of their weights. What that list holds is proved
    separately (`MatchingPairsExact`, `MatchingPairsOrdered`, `NoMatches`,
    `ScoreBounds`). */
module Scoring {
  import opened Titles
  import opened Preferences

  /** One `overlap_details` record: both raw titles and both ranks. */
  datatype Overlap<T> = Overlap(gameUser: T, gameOther: T, yourRank: int, theirRank: int)

  /** One item of `d.items()` for a preference dict. */
  type Entry<T> = (T, PrefEntry)

  /** A preference dict whose titles have type `T`; `Prefs` is `Table<Title>`. */
  type Table<T> = seq<Entry<T>>

  /** A title test such as `partial_match`. */
  type Matcher<-T> = (T, T) -> bool

  /** The record of one matching pair of dict entries. */
  function EntryRecord<T>(u: Entry<T>, o: Entry<T>): Overlap<T>
  {
    Overlap(u.0, o.0, u.1.rank, o.1.rank)
  }

  /** What one matching pair adds to the score:
      `user_info["weight"] * other_info["weight"]`. */
  function WeightProduct(u: PrefEntry, o: PrefEntry): int
  {
    u.weight * o.weight
  }

  // ---------------------------------------------------------------------
  // The matching pairs
  // ---------------------------------------------------------------------

  /** A matching pair met by the loop: positions `i` and `j` and the two
      entries found there. */
  datatype Match<T> = Match(i: int, j: int, u: Entry<T>, o: Entry<T>)

  /** `x` records entry `x.i` of `user` and entry `x.j` of `other`. */
  ghost predicate Placed<T>(user: Table<T>, other: Table<T>, x: Match<T>)
  {
    0 <= x.i < |user| && 0 <= x.j < |other| && x.u == user[x.i] && x.o == other[x.j]
  }

  /** `p` comes before `q` in the loop: an earlier user entry, or the same
      user entry and an earlier other entry. */
  predicate Before<T>(p: Match<T>, q: Match<T>)
  {
    p.i < q.i || (p.i == q.i && p.j < q.j)
  }

  /** The matches of user entry `i` among the first `n` entries of the
      other dict, in dict order. */
  function RowMatches<T>(matches: Matcher<T>, user: Table<T>, other: Table<T>, i: nat, n: nat): seq<Match<T>>
    requires i < |user| && n <= |other|
  {
    if n == 0 then []
    else
      RowMatches(matches, user, other, i, n - 1)
      + (if matches(user[i].0, other[n - 1].0) then [Match(i, n - 1, user[i], other[n - 1])] else [])
  }

  /** The matches of the first `m` user entries, row after row. */
  function MatchingPairs<T>(matches: Matcher<T>, user: Table<T>, other: Table<T>, m: nat): seq<Match<T>>
    requires m <= |user|
  {
    if m == 0 then []
    else MatchingPairs(matches, user, other, m - 1) + RowMatches(matches, user, other, m - 1, |other|)
  }

  /** The records of the matches `ms`, one each, in the same order. */
  function Records<T>(ms: seq<Match<T>>): (r: seq<Overlap<T>>)
    ensures |r| == |ms|
  {
    if ms == [] then []
    else Records(ms[..|ms| - 1]) + [EntryRecord(ms[|ms| - 1].u, ms[|ms| - 1].o)]
  }

  /** The summed weight products of the matches `ms`. */
  function SumProducts<T>(ms: seq<Match<T>>): int
  {
    if ms == [] then 0
    else SumProducts(ms[..|ms| - 1]) + WeightProduct(ms[|ms| - 1].u.1, ms[|ms| - 1].o.1)
  }

  // ---------------------------------------------------------------------
  // The loop
  // ---------------------------------------------------------------------

  /** `compare_users` (app.py lines 81-98): the nested loop run with
      `partial_match` as the title test. */
  method CompareUsers(user: Prefs, other: Prefs) returns (score: int, overlap: seq<Overlap<Title>>)
    ensures overlap == Records(MatchingPairs(PartialMatch, user, other, |user|))
    ensures score == SumProducts(MatchingPairs(PartialMatch, user, other, |user|))
  {
    score, overlap := CompareWith(PartialMatch, user, other);
  }

  /** The nested loop of `compare_users` (app.py lines 84-96) for the title
      test `matches`. */
  method CompareWith<T>(matches: Matcher<T>, user: Table<T>, other: Table<T>) returns (score: int, overlap: seq<Overlap<T>>)
    ensures overlap == Records(MatchingPairs(matches, user, other, |user|))
    ensures score == SumProducts(MatchingPairs(matches, user, other, |user|))
  {
    overlap := [];
    score := 0;
    var i := 0;
    while i < |user|
      invariant 0 <= i <= |user|
      invariant overlap == Records(MatchingPairs(matches, user, other, i))
      invariant score == SumProducts(MatchingPairs(matches, user, other, i))
    {
      RowsStep(matches, user, other, i);
      score, overlap := ScanRow(matches, user, other, i, score, overlap);
      i := i + 1;
    }
  }

  /** The inner loop of `compare_users` (app.py lines 86-96): user entry `i`
      against every entry of the other dict, extending the running score
      and list by the row's matches. */
  method ScanRow<T>(matches: Matcher<T>, user: Table<T>, other: Table<T>, i: nat, score0: int, overlap0: seq<Overlap<T>>)
    returns (score: int, overlap: seq<Overlap<T>>)
    requires i < |user|
    ensures overlap == overlap0 + Records(RowMatches(matches, user, other, i, |other|))
    ensures score == score0 + SumProducts(RowMatches(matches, user, other, i, |other|))
  {
    var (userGame, userInfo) := user[i];
    score, overlap := score0, overlap0;
    var j := 0;
    while j < |other|
      invariant 0 <= j <= |other|
      invariant overlap == overlap0 + Records(RowMatches(matches, user, other, i, j))
      invariant score == score0 + SumProducts(RowMatches(matches, user, other, i, j))
    {
      var (otherGame, otherInfo) := other[j];
      RowStep(matches, user, other, i, j);
      if matches(userGame, otherGame) {
        assert Overlap(userGame, otherGame, userInfo.rank, otherInfo.rank) == EntryRecord(user[i], other[j]);
        score := score + userInfo.weight * otherInfo.weight;
        overlap := overlap + [Overlap(userGame, otherGame, userInfo.rank, otherInfo.rank)];
      }
      j := j + 1;
    }
  }

  /** Testing entry `j` of the other dict adds its record and its product
      to row `i` exactly when the titles match. */
  lemma RowStep<T>(matches: Matcher<T>, user: Table<T>, other: Table<T>, i: nat, j: nat)
    requires i < |user| && j < |other|
    ensures Records(RowMatches(matches, user, other, i, j + 1)) ==
            Records(RowMatches(matches, user, other, i, j))
            + (if matches(user[i].0, other[j].0) then [EntryRecord(user[i], other[j])] else [])
    ensures SumProducts(RowMatches(matches, user, other, i, j + 1)) ==
            SumProducts(RowMatches(matches, user, other, i, j))
            + (if matches(user[i].0, other[j].0) then WeightProduct(user[i].1, other[j].1) else 0)
  {
    var prev := RowMatches(matches, user, other, i, j);
    if matches(user[i].0, other[j].0) {
      var x := Match(i, j, user[i], other[j]);
      assert RowMatches(matches, user, other, i, j + 1) == prev + [x];
      assert (prev + [x])[..|prev|] == prev;
    } else {
      assert RowMatches(matches, user, other, i, j + 1) == prev;
    }
  }

  /** A finished row joins the rows before it. */
  lemma RowsStep<T>(matches: Matcher<T>, user: Table<T>, other: Table<T>, i: nat)
    requires i < |user|
    ensures Records(MatchingPairs(matches, user, other, i + 1)) ==
            Records(MatchingPairs(matches, user, other, i)) + Records(RowMatches(matches, user, other, i, |other|))
    ensures SumProducts(MatchingPairs(matches, user, other, i + 1)) ==
            SumProducts(MatchingPairs(matches, user, other, i)) + SumProducts(RowMatches(matches, user, other, i, |other|))
  {
    var prev := MatchingPairs(matches, user, other, i);
    var row := RowMatches(matches, user, other, i, |other|);
    assert MatchingPairs(matches, user, other, i + 1) == prev + row;
    RecordsAppend(prev, row);
    SumProductsAppend(prev, row);
  }

  /** Record `k` is the record of match `k`: both titles and both ranks. */
  lemma {:induction false} RecordsElements<T>(ms: seq<Match<T>>)
    ensures forall k :: 0 <= k < |ms| ==> Records(ms)[k] == EntryRecord(ms[k].u, ms[k].o)
  {
    if ms != [] {
      var init := ms[..|ms| - 1];
      RecordsElements(init);
      forall k | 0 <= k < |ms| ensures Records(ms)[k] == EntryRecord(ms[k].u, ms[k].o) {
        if k < |init| {
          assert ms[k] == init[k];
        }
      }
    }
  }

  /** Records distribute over concatenation. */
  lemma {:induction false} RecordsAppend<T>(ms: seq<Match<T>>, ns: seq<Match<T>>)
    ensures Records(ms + ns) == Records(ms) + Records(ns)
  {
    if ns != [] {
      var init := ns[..|ns| - 1];
      RecordsAppend(ms, init);
      assert (ms + ns)[..|ms + ns| - 1] == ms + init;
    } else {
      assert ms + ns == ms;
    }
  }

  /** Summed products distribute over concatenation. */
  lemma {:induction false} SumProductsAppend<T>(ms: seq<Match<T>>, ns: seq<Match<T>>)
    ensures SumProducts(ms + ns) == SumProducts(ms) + SumProducts(ns)
  {
    if ns != [] {
      var init := ns[..|ns| - 1];
      SumProductsAppend(ms, init);
      assert (ms + ns)[..|ms + ns| - 1] == ms + init;
    } else {
      assert ms + ns == ms;
    }
  }

  // ---------------------------------------------------------------------
  // What the matching pairs are
  // ---------------------------------------------------------------------

  /** Row `i` holds exactly the matching entries of the other dict. */
  lemma {:induction false} RowMatchesExact<T>(matches: Matcher<T>, user: Table<T>, other: Table<T>, i: nat, n: nat, x: Match<T>)
    requires i < |user| && n <= |other|
    ensures x in RowMatches(matches, user, other, i, n) <==>
            Placed(user, other, x) && x.i == i && x.j < n && matches(x.u.0, x.o.0)
  {
    if n > 0 {
      RowMatchesExact(matches, user, other, i, n - 1, x);
    }
  }

  /** The first `m` rows hold exactly the matching pairs of entries whose
      user entry lies among the first `m`. */
  lemma MatchingPairsExact<T>(matches: Matcher<T>, user: Table<T>, other: Table<T>, m: nat, x: Match<T>)
    requires m <= |user|
    ensures x in MatchingPairs(matches, user, other, m) <==>
            Placed(user, other, x) && x.i < m && matches(x.u.0, x.o.0)
  {
    if x in MatchingPairs(matches, user, other, m) {
      MatchingPairsSound(matches, user, other, m, x);
    }
    if Placed(user, other, x) && x.i < m && matches(x.u.0, x.o.0) {
      MatchingPairsComplete(matches, user, other, m, x);
    }
  }

  /** Every pair in the first `m` rows is a matching pair of a user entry
      among the first `m`. */
  lemma {:induction false} MatchingPairsSound<T>(matches: Matcher<T>, user: Table<T>, other: Table<T>, m: nat, x: Match<T>)
    requires m <= |user|
    requires x in MatchingPairs(matches, user, other, m)
    ensures Placed(user, other, x) && x.i < m && matches(x.u.0, x.o.0)
  {
    var a := MatchingPairs(matches, user, other, m - 1);
    var b := RowMatches(matches, user, other, m - 1, |other|);
    InEither(x, a, b);
    if x in a {
      MatchingPairsSound(matches, user, other, m - 1, x);
    } else {
      RowMatchesExact(matches, user, other, m - 1, |other|, x);
    }
  }

  /** Every matching pair of a user entry among the first `m` is in the
      first `m` rows. */
  lemma {:induction false} MatchingPairsComplete<T>(matches: Matcher<T>, user: Table<T>, other: Table<T>, m: nat, x: Match<T>)
    requires m <= |user|
    requires Placed(user, other, x) && x.i < m && matches(x.u.0, x.o.0)
    ensures x in MatchingPairs(matches, user, other, m)
  {
    var a := MatchingPairs(matches, user, other, m - 1);
    var b := RowMatches(matches, user, other, m - 1, |other|);
    if x.i < m - 1 {
      MatchingPairsComplete(matches, user, other, m - 1, x);
      InLeft(x, a, b);
    } else {
      RowMatchesExact(matches, user, other, m - 1, |other|, x);
      InRight(x, a, b);
    }
  }

  // Membership in a concatenation, one fact at a time.

  lemma InEither<X>(x: X, a: seq<X>, b: seq<X>)
    requires x in a + b
    ensures x in a || x in b
  {
  }

  lemma InLeft<X>(x: X, a: seq<X>, b: seq<X>)
    requires x in a
    ensures x in a + b
  {
  }

  lemma InRight<X>(x: X, a: seq<X>, b: seq<X>)
    requires x in b
    ensures x in a + b
  {
  }

  /** Row `i` lies in row `i`, in strictly increasing order of the other
      dict's positions, and has at most `n` matches. */
  lemma {:induction false} RowMatchesOrdered<T>(matches: Matcher<T>, user: Table<T>, other: Table<T>, i: nat, n: nat)
    requires i < |user| && n <= |other|
    ensures |RowMatches(matches, user, other, i, n)| <= n
    ensures forall k :: 0 <= k < |RowMatches(matches, user, other, i, n)| ==>
              RowMatches(matches, user, other, i, n)[k].i == i
    ensures forall a, b :: 0 <= a < b < |RowMatches(matches, user, other, i, n)| ==>
              RowMatches(matches, user, other, i, n)[a].j < RowMatches(matches, user, other, i, n)[b].j
  {
    if n > 0 {
      RowMatchesOrdered(matches, user, other, i, n - 1);
      var prev := RowMatches(matches, user, other, i, n - 1);
      forall k | 0 <= k < |prev| ensures prev[k].j < n - 1 {
        RowMatchesExact(matches, user, other, i, n - 1, prev[k]);
      }
    }
  }

  /** The user positions of the first `m` rows lie below `m`. */
  lemma {:induction false} MatchingPairsBounds<T>(matches: Matcher<T>, user: Table<T>, other: Table<T>, m: nat)
    requires m <= |user|
    ensures forall k :: 0 <= k < |MatchingPairs(matches, user, other, m)| ==>
              0 <= MatchingPairs(matches, user, other, m)[k].i < m
  {
    if m > 0 {
      MatchingPairsBounds(matches, user, other, m - 1);
      RowMatchesOrdered(matches, user, other, m - 1, |other|);
      var prev := MatchingPairs(matches, user, other, m - 1);
      var row := RowMatches(matches, user, other, m - 1, |other|);
      var r := MatchingPairs(matches, user, other, m);
      forall k | 0 <= k < |r| ensures 0 <= r[k].i < m {
        if k < |prev| {
          assert r[k] == prev[k];
        } else {
          assert r[k] == row[k - |prev|];
        }
      }
    }
  }

  /** The matches come in loop order: strictly increasing, user-major. */
  lemma {:induction false} MatchingPairsOrdered<T>(matches: Matcher<T>, user: Table<T>, other: Table<T>, m: nat)
    requires m <= |user|
    ensures forall a, b :: 0 <= a < b < |MatchingPairs(matches, user, other, m)| ==>
              Before(MatchingPairs(matches, user, other, m)[a], MatchingPairs(matches, user, other, m)[b])
  {
    if m > 0 {
      MatchingPairsOrdered(matches, user, other, m - 1);
      MatchingPairsBounds(matches, user, other, m - 1);
      RowMatchesOrdered(matches, user, other, m - 1, |other|);
      var prev := MatchingPairs(matches, user, other, m - 1);
      var row := RowMatches(matches, user, other, m - 1, |other|);
      var r := MatchingPairs(matches, user, other, m);
      forall a, b | 0 <= a < b < |r| ensures Before(r[a], r[b]) {
        if b < |prev| {
          assert r[a] == prev[a] && r[b] == prev[b];
        } else if a < |prev| {
          assert r[a] == prev[a] && r[b] == row[b - |prev|];
        } else {
          assert r[a] == row[a - |prev|] && r[b] == row[b - |prev|];
        }
      }
    }
  }

  /** The overlap list is empty exactly when no pair of titles matches,
      and then the score is 0. */
  lemma NoMatches<T>(matches: Matcher<T>, user: Table<T>, other: Table<T>)
    ensures (forall i, j :: 0 <= i < |user| && 0 <= j < |other| ==> !matches(user[i].0, other[j].0))
            <==> Records(MatchingPairs(matches, user, other, |user|)) == []
    ensures Records(MatchingPairs(matches, user, other, |user|)) == [] ==>
              SumProducts(MatchingPairs(matches, user, other, |user|)) == 0
  {
    var ms := MatchingPairs(matches, user, other, |user|);
    if ms != [] {
      MatchingPairsExact(matches, user, other, |user|, ms[0]);
    } else {
      forall i, j | 0 <= i < |user| && 0 <= j < |other|
        ensures !matches(user[i].0, other[j].0)
      {
        NothingMatched(matches, user, other, i, j);
      }
    }
  }

  /** With no matches at all, no pair of titles matches. */
  lemma NothingMatched<T>(matches: Matcher<T>, user: Table<T>, other: Table<T>, i: nat, j: nat)
    requires i < |user| && j < |other|
    requires |MatchingPairs(matches, user, other, |user|)| == 0
    ensures !matches(user[i].0, other[j].0)
  {
    MatchingPairsExact(matches, user, other, |user|, Match(i, j, user[i], other[j]));
  }

  /** Every weight of the dict lies in 1..10, as rank 1..10 gives. */
  predicate WeightsInRange<T>(d: Table<T>)
  {
    forall k :: 0 <= k < |d| ==> 1 <= d[k].1.weight <= 10
  }

  /** With every weight of both dicts in 1..10, both weights of every
      listed pair lie in 1..10. */
  lemma PairWeights<T>(matches: Matcher<T>, user: Table<T>, other: Table<T>)
    requires WeightsInRange(user) && WeightsInRange(other)
    ensures forall k :: 0 <= k < |MatchingPairs(matches, user, other, |user|)| ==>
              var x := MatchingPairs(matches, user, other, |user|)[k];
              1 <= x.u.1.weight <= 10 && 1 <= x.o.1.weight <= 10
  {
    var ms := MatchingPairs(matches, user, other, |user|);
    forall k | 0 <= k < |ms|
      ensures 1 <= ms[k].u.1.weight <= 10 && 1 <= ms[k].o.1.weight <= 10
    {
      MatchingPairsExact(matches, user, other, |user|, ms[k]);
    }
  }

  /** With weights 1..10 every match adds 1 to 100 to the sum. */
  lemma {:induction false} SumProductsBounds<T>(ms: seq<Match<T>>)
    requires forall k :: 0 <= k < |ms| ==> 1 <= ms[k].u.1.weight <= 10 && 1 <= ms[k].o.1.weight <= 10
    ensures |ms| <= SumProducts(ms) <= 100 * |ms|
  {
    if ms != [] {
      var x := ms[|ms| - 1];
      SumProductsBounds(ms[..|ms| - 1]);
      ProductBounds(x.u.1.weight, x.o.1.weight);
    }
  }

  lemma ProductBounds(a: int, b: int)
    requires 1 <= a <= 10 && 1 <= b <= 10
    ensures 1 <= a * b <= 100
  {
    assert a * b >= b;
    assert a * b <= 10 * b;
  }

  /** There are at most `m * |other|` matches in the first `m` rows. */
  lemma {:induction false} MatchingPairsCount<T>(matches: Matcher<T>, user: Table<T>, other: Table<T>, m: nat)
    requires m <= |user|
    ensures |MatchingPairs(matches, user, other, m)| <= m * |other|
  {
    if m > 0 {
      MatchingPairsCount(matches, user, other, m - 1);
      RowMatchesOrdered(matches, user, other, m - 1, |other|);
      var prev := |MatchingPairs(matches, user, other, m - 1)|;
      var row := |RowMatches(matches, user, other, m - 1, |other|)|;
      assert |MatchingPairs(matches, user, other, m)| == prev + row;
      CountStep(prev, row, m - 1, |other|);
    }
  }

  lemma CountStep(prev: nat, row: nat, k: nat, n: nat)
    requires prev <= k * n && row <= n
    ensures prev + row <= (k + 1) * n
  {
  }

  /** With all weights in 1..10 the score lies between 0 and
      `100 * |user| * |other|`, and it is 0 exactly when nothing matched. */
  lemma ScoreBounds<T>(matches: Matcher<T>, user: Table<T>, other: Table<T>)
    requires WeightsInRange(user) && WeightsInRange(other)
    ensures 0 <= SumProducts(MatchingPairs(matches, user, other, |user|)) <= 100 * |user| * |other|
    ensures SumProducts(MatchingPairs(matches, user, other, |user|)) == 0 <==>
            Records(MatchingPairs(matches, user, other, |user|)) == []
  {
    var ms := MatchingPairs(matches, user, other, |user|);
    PairWeights(matches, user, other);
    SumProductsBounds(ms);
    MatchingPairsCount(matches, user, other, |user|);
    ScaleBound(|ms|, |user|, |other|);
  }

  lemma ScaleBound(n: nat, a: nat, b: nat)
    requires n <= a * b
    ensures 100 * n <= 100 * a * b
  {
  }

  // ---------------------------------------------------------------------
  // The same promises for `compare_users` itself
  // ---------------------------------------------------------------------

  /** `compare_users` on the new user's dict and another person's: its
      overlap list holds one record per pair of entries whose titles
      `partial_match`, each pair once, in loop order. */
  lemma CompareUsersPairs(user: Prefs, other: Prefs)
    ensures forall x :: x in MatchingPairs(PartialMatch, user, other, |user|) <==>
              Placed(user, other, x) && PartialMatch(x.u.0, x.o.0)
    ensures forall a, b :: 0 <= a < b < |MatchingPairs(PartialMatch, user, other, |user|)| ==>
              Before(MatchingPairs(PartialMatch, user, other, |user|)[a], MatchingPairs(PartialMatch, user, other, |user|)[b])
    ensures |Records(MatchingPairs(PartialMatch, user, other, |user|))| == |MatchingPairs(PartialMatch, user, other, |user|)|
    ensures forall k :: 0 <= k < |MatchingPairs(PartialMatch, user, other, |user|)| ==>
              var x := MatchingPairs(PartialMatch, user, other, |user|)[k];
              Records(MatchingPairs(PartialMatch, user, other, |user|))[k] == Overlap(x.u.0, x.o.0, x.u.1.rank, x.o.1.rank)
  {
    RecordsElements(MatchingPairs(PartialMatch, user, other, |user|));
    forall x
      ensures x in MatchingPairs(PartialMatch, user, other, |user|) <==> Placed(user, other, x) && PartialMatch(x.u.0, x.o.0)
    {
      MatchingPairsExact(PartialMatch, user, other, |user|, x);
    }
    MatchingPairsOrdered(PartialMatch, user, other, |user|);
  }

  /** `compare_users` returns an empty overlap list exactly when no pair of
      titles `partial_match`es, and then a score of 0. */
  lemma CompareUsersEmpty(user: Prefs, other: Prefs)
    ensures (forall i, j :: 0 <= i < |user| && 0 <= j < |other| ==> !PartialMatch(user[i].0, other[j].0))
            <==> Records(MatchingPairs(PartialMatch, user, other, |user|)) == []
    ensures Records(MatchingPairs(PartialMatch, user, other, |user|)) == [] ==>
              SumProducts(MatchingPairs(PartialMatch, user, other, |user|)) == 0
  {
    NoMatches(PartialMatch, user, other);
  }

  /** With weights in 1..10, the score of `compare_users` lies in
      `0..100 * |user| * |other|` and is 0 exactly when the overlap list is
      empty. */
  lemma CompareUsersBounds(user: Prefs, other: Prefs)
    requires WeightsInRange(user) && WeightsInRange(other)
    ensures 0 <= SumProducts(MatchingPairs(PartialMatch, user, other, |user|)) <= 100 * |user| * |other|
    ensures SumProducts(MatchingPairs(PartialMatch, user, other, |user|)) == 0 <==>
            Records(MatchingPairs(PartialMatch, user, other, |user|)) == []
  {
    ScoreBounds(PartialMatch, user, other);
  }
}
