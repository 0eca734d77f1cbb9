/** `list.sort(key=..., reverse=True)`: a stable sort by descending key.
    Python keeps elements with equal keys in their original order even with
    `reverse=True`. `SortDesc` defines the result as repeated insertion
    from the left, each new element going after every element whose key is
    at least its own; `SortInPlace` is insertion sort on an array, proved
    to produce exactly `SortDesc`. The lemmas show that `SortDesc` is
    ordered, a permutation, and stable. */
module Sorting {

  /** The key that orders the elements, like `lambda x: x["score"]`. */
  type Key<-R> = R -> int

  /** Keys never increase from left to right. */
  predicate SortedDesc<R>(s: seq<R>, key: Key<R>)
  {
    forall a, b :: 0 <= a < b < |s| ==> key(s[a]) >= key(s[b])
  }

  /** `t` with `x` placed after every element of `t`, counted from the
      right, whose key is smaller than `x`'s: `x` moves left past smaller
      keys only, never past an equal one. */
  function InsertLast<R>(t: seq<R>, x: R, key: Key<R>): (r: seq<R>)
    ensures |r| == |t| + 1
  {
    if t == [] || key(t[|t| - 1]) >= key(x) then t + [x]
    else InsertLast(t[..|t| - 1], x, key) + [t[|t| - 1]]
  }

  /** The stable descending sort of `s`. */
  function SortDesc<R>(s: seq<R>, key: Key<R>): (r: seq<R>)
    ensures |r| == |s|
  {
    if s == [] then []
    else InsertLast(SortDesc(s[..|s| - 1], key), s[|s| - 1], key)
  }

  /** The elements of `s` whose key is `v`, in their order in `s`. */
  function WithKey<R>(s: seq<R>, key: Key<R>, v: int): seq<R>
  {
    if s == [] then []
    else WithKey(s[..|s| - 1], key, v) + (if key(s[|s| - 1]) == v then [s[|s| - 1]] else [])
  }

  // ---------------------------------------------------------------------
  // The sort in place
  // ---------------------------------------------------------------------

  /** Insertion sort: each element in turn is swapped left past the
      elements with a smaller key. */
  method SortInPlace<R>(a: array<R>, key: Key<R>)
    modifies a
    ensures a[..] == SortDesc(old(a[..]), key)
  {
    ghost var s := a[..];
    var i := 0;
    while i < a.Length
      invariant 0 <= i <= a.Length
      invariant a[..] == SortDesc(s[..i], key) + s[i..]
    {
      SplitAt(a[..], SortDesc(s[..i], key), s[i..], i);
      SinkLeft(a, i, key);
      assert s[..i + 1][..i] == s[..i];
      i := i + 1;
    }
    assert s[..a.Length] == s;
  }

  /** One pass of the outer loop: `a[i]` is swapped left past the elements
      of `a[..i]` with a smaller key. */
  method SinkLeft<R>(a: array<R>, i: nat, key: Key<R>)
    requires i < a.Length
    modifies a
    ensures a[..] == InsertLast(old(a[..])[..i], old(a[i]), key) + old(a[..])[i + 1..]
  {
    ghost var t := a[..i];
    ghost var rest := a[i + 1..];
    var x := a[i];
    assert a[..] == t[..i] + [x] + t[i..] + rest;
    var j := i;
    while j > 0 && key(a[j - 1]) < key(a[j])
      invariant 0 <= j <= i
      invariant a[..] == t[..j] + [x] + t[j..] + rest
      invariant forall k :: j <= k < i ==> key(t[k]) < key(x)
    {
      SwapStep(a[..], t, x, rest, j);
      a[j - 1], a[j] := a[j], a[j - 1];
      j := j - 1;
    }
    SwapStep(a[..], t, x, rest, j);
    InsertLastAt(t, x, j, key);
  }

  /** A sequence made of `t` and then `u` splits back at `|t|`. */
  lemma SplitAt<R>(cur: seq<R>, t: seq<R>, u: seq<R>, i: nat)
    requires cur == t + u && |t| == i < |cur|
    ensures cur[..i] == t && cur[i] == u[0] && cur[i + 1..] == u[1..]
  {
  }

  /** The layout before and after one swap of the inner loop. */
  lemma SwapStep<R>(cur: seq<R>, t: seq<R>, x: R, rest: seq<R>, j: nat)
    requires j <= |t|
    requires cur == t[..j] + [x] + t[j..] + rest
    ensures cur[j] == x
    ensures 0 < j ==> cur[j - 1] == t[j - 1]
    ensures 0 < j ==> cur[j - 1 := x][j := t[j - 1]] == t[..j - 1] + [x] + t[j - 1..] + rest
  {
    if 0 < j {
      assert t[j - 1..] == [t[j - 1]] + t[j..];
    }
  }

  /** Where the inner loop stops, `x` sits where `InsertLast` puts it. */
  lemma {:induction false} InsertLastAt<R>(t: seq<R>, x: R, j: nat, key: Key<R>)
    requires j <= |t|
    requires j == 0 || key(t[j - 1]) >= key(x)
    requires forall k :: j <= k < |t| ==> key(t[k]) < key(x)
    ensures InsertLast(t, x, key) == t[..j] + [x] + t[j..]
    decreases |t|
  {
    if j == |t| {
      assert t[..j] == t;
    } else {
      var init := t[..|t| - 1];
      InsertLastAt(init, x, j, key);
      assert init[..j] == t[..j];
      assert t[j..] == init[j..] + [t[|t| - 1]];
    }
  }

  // ---------------------------------------------------------------------
  // What the sort promises
  // ---------------------------------------------------------------------

  /** Inserting into a sorted sequence keeps it sorted. */
  lemma {:induction false} InsertLastSorted<R>(t: seq<R>, x: R, key: Key<R>)
    requires SortedDesc(t, key)
    ensures SortedDesc(InsertLast(t, x, key), key)
    ensures forall k :: 0 <= k < |InsertLast(t, x, key)| ==>
              InsertLast(t, x, key)[k] == x || InsertLast(t, x, key)[k] in t
  {
    if t != [] && key(t[|t| - 1]) < key(x) {
      var init := t[..|t| - 1];
      var last := t[|t| - 1];
      assert SortedDesc(init, key);
      InsertLastSorted(init, x, key);
      var r := InsertLast(init, x, key);
      forall k | 0 <= k < |r| ensures key(r[k]) >= key(last) {
        if r[k] != x {
          var m :| 0 <= m < |init| && init[m] == r[k];
          assert t[m] == r[k];
        }
      }
      forall k | 0 <= k < |r| ensures r[k] == x || r[k] in t {
        if r[k] != x {
          assert r[k] in init;
        }
      }
    }
  }

  /** Inserting adds exactly `x`. */
  lemma {:induction false} InsertLastPerm<R>(t: seq<R>, x: R, key: Key<R>)
    ensures multiset(InsertLast(t, x, key)) == multiset(t) + multiset{x}
  {
    if t != [] && key(t[|t| - 1]) < key(x) {
      var init := t[..|t| - 1];
      InsertLastPerm(init, x, key);
      assert t == init + [t[|t| - 1]];
    }
  }

  /** `WithKey` distributes over concatenation. */
  lemma {:induction false} WithKeyAppend<R>(s: seq<R>, u: seq<R>, key: Key<R>, v: int)
    ensures WithKey(s + u, key, v) == WithKey(s, key, v) + WithKey(u, key, v)
  {
    if u != [] {
      var init := u[..|u| - 1];
      WithKeyAppend(s, init, key, v);
      assert (s + u)[..|s + u| - 1] == s + init;
    } else {
      assert s + u == s;
    }
  }

  /** Inserting `x` keeps the order of the elements of each key as if `x`
      had been appended. */
  lemma {:induction false} InsertLastStable<R>(t: seq<R>, x: R, key: Key<R>, v: int)
    ensures WithKey(InsertLast(t, x, key), key, v) == WithKey(t + [x], key, v)
  {
    if t != [] && key(t[|t| - 1]) < key(x) {
      var init := t[..|t| - 1];
      var last := t[|t| - 1];
      InsertLastStable(init, x, key, v);
      WithKeyAppend(InsertLast(init, x, key), [last], key, v);
      WithKeyAppend(init + [x], [last], key, v);
      WithKeyAppend(init, [x], key, v);
      WithKeyAppend(init, [last], key, v);
      WithKeyAppend(init + [last], [x], key, v);
      assert t == init + [last];
      assert WithKey([x], key, v) == [] || WithKey([last], key, v) == [];
      assert init + [x] + [last] == init + [x, last];
    }
  }

  /** The sorted sequence is ordered by descending key. */
  lemma {:induction false} SortDescSorted<R>(s: seq<R>, key: Key<R>)
    ensures SortedDesc(SortDesc(s, key), key)
  {
    if s != [] {
      SortDescSorted(s[..|s| - 1], key);
      InsertLastSorted(SortDesc(s[..|s| - 1], key), s[|s| - 1], key);
    }
  }

  /** The sorted sequence is a permutation of the input. */
  lemma {:induction false} SortDescPerm<R>(s: seq<R>, key: Key<R>)
    ensures multiset(SortDesc(s, key)) == multiset(s)
  {
    if s != [] {
      var init := s[..|s| - 1];
      SortDescPerm(init, key);
      InsertLastPerm(SortDesc(init, key), s[|s| - 1], key);
      assert s == init + [s[|s| - 1]];
    }
  }

  /** The sort is stable: the elements of each key come out in their input
      order. */
  lemma {:induction false} SortDescStable<R>(s: seq<R>, key: Key<R>, v: int)
    ensures WithKey(SortDesc(s, key), key, v) == WithKey(s, key, v)
  {
    if s != [] {
      var init := s[..|s| - 1];
      var x := s[|s| - 1];
      SortDescStable(init, key, v);
      InsertLastStable(SortDesc(init, key), x, key, v);
      WithKeyAppend(SortDesc(init, key), [x], key, v);
      WithKeyAppend(init, [x], key, v);
      assert s == init + [x];
    }
  }
}
