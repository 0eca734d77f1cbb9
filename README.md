# Geek Match matching engine in Dafny

This project models the matching engine of the Geek Match board-game app (`app.py`). Each person ranks board games; the new user enters up to ten through a form. The app does four things:

- It turns every ranked list into a preference dict: title ↦ rank, with weight `11 - rank`.
- It normalises titles: lowercase, punctuation deleted, ends trimmed.
- It counts two titles as the same game when either normal form is a substring of the other.
- It scores the new user against every person, then returns the `top_n` best matches, sorted by descending score.

The model has six modules, one file each:

| module | file | models |
|---|---|---|
| `Dicts` | `dicts.dfy` | Python's insertion-ordered `dict` as an association list: `d[k] = v` (`Put`), the lookup `d[k]` (`Get`), keys |
| `Titles` | `titles.dfy` | `normalize_title` and `partial_match`; pure functions |
| `Preferences` | `preferences.dfy` | `transform_data` and the dict-building loop of `find_top_matches`; loops as methods, proved equal to recursive definitions |
| `Scoring` | `scoring.dfy` | `compare_users`: the nested loop as a method, proved to compute the records and the summed weight products of the matching pairs |
| `Sorting` | `sorting.dfy` | `list.sort(key=..., reverse=True)`: an in-place insertion sort on an array, proved to produce a stable descending sort |
| `Ranking` | `ranking.dfy` | `find_top_matches`: the scoring loop, the sort and the `[:top_n]` slice |

Each loop of the matching engine (app.py:27-123) is a `method` with loop invariants. Its `ensures` ties the result to a specification function, defined by recursion except `TopMatches`:

| loop | method | specification function |
|---|---|---|
| preference loop (app.py:38-42, 106-110) | `BuildPreferences` | `PrefsOf` |
| `transform_data` outer loop (app.py:36-42) | `TransformData` | `TransformOf` |
| `compare_users` outer loop (app.py:84) | `CompareWith` | `Records` and `SumProducts` of `MatchingPairs` |
| `compare_users` inner loop (app.py:85-96) | `ScanRow` | `Records` and `SumProducts` of `RowMatches` |
| `find_top_matches` scoring loop (app.py:112-119) | `ScoreAll` | `ResultsOf` |
| `results.sort` (app.py:122) | `SortInPlace`, `SinkLeft` | `SortDesc`, `InsertLast` |

`CompareUsers` and `FindTopMatches` contain no loop of their own. They call these methods and are proved equal to `Records`/`SumProducts` of `MatchingPairs` and to `TopMatches` respectively.

Lemmas then prove what the source promises about those functions.

`compare_users`' nested loop is written once in `CompareWith`, for any title type and any title test. `CompareUsers` runs it on strings with `PartialMatch`. The generic form keeps the loop proof independent of strings.

## Model

| member | source | states |
|---|---|---|
| Dicts.Put | app.py:39-42 | `d[k] = v`: an existing key keeps its position, a new key is appended, and every stored pair is an old one or the new one |
| Dicts.PutGet | app.py:39-42 | after `d[k] = v`, `k` reads `v` and every other key reads as before |
| Dicts.PutUnique | app.py:39-42 | assignment keeps a dict's keys distinct |
| Preferences.BuildPreferences | app.py:105-110 | the preference loop returns exactly `PrefsOf(list)`, one `d[title] = {rank, 11 - rank}` per pair in list order |
| Preferences.PrefsEntries | app.py:107-110 | every stored entry comes from a `(title, rank)` pair of the list and has weight `11 - rank` |
| Preferences.PrefsWeightRange | app.py:107-110 | ranks 1..10 give weights 1..10 |
| Preferences.PrefsKeys | app.py:106-110 | the dict's keys are the list's distinct titles in order of first occurrence, so the key set is the set of listed titles |
| Preferences.PrefsUnique | app.py:106-110 | no title is stored twice, and there are at most as many entries as pairs |
| Preferences.PrefsLastWins | app.py:106-110 | a title listed more than once gets the rank and weight of its last occurrence |
| Preferences.FormPrefs | app.py:140-143 | a list from the entry form (non-blank titles, ranks 1..10, strictly increasing) has at most ten pairs, so the dict has at most ten entries, each weighing 1..10 |
| Preferences.FormRanksBound | app.py:140-143 | strictly increasing ranks from 1 give pair `k` a rank of at least `k + 1`, so there are at most ten pairs |
| Preferences.TransformData | app.py:35-43 | `transform_data` returns exactly `TransformOf(data)`; each person's inner dict is built by the preference loop |
| Preferences.TransformShape | app.py:36-42 | with distinct person keys, there is exactly one inner dict per person, in the same order, and it is `PrefsOf` of that person's list |
| Titles.LowerCase | app.py:54 | `s.lower()` keeps the length; its other properties are in `LowerCaseSpec` |
| Titles.LowerCaseSpec | app.py:54 | `lower()` leaves no uppercase letter, keeps each character's class, and leaves a string without uppercase letters unchanged |
| Titles.RemovePunctuation | app.py:55 | `re.sub(r"[^\w\s]", "", s)`, defined character by character; its properties are in `RemovePunctuationKeeps`, `RemovePunctuationClean` and `RemovePunctuationConcat` |
| Titles.RemovePunctuationKeeps | app.py:55 | `re.sub(r"[^\w\s]", "", s)` keeps only word characters and whitespace from `s`, and never lengthens it |
| Titles.RemovePunctuationClean | app.py:55 | a string of only word characters and whitespace is unchanged |
| Titles.RemovePunctuationConcat | app.py:55 | punctuation removal works character by character (it distributes over `+`) |
| Titles.LowerCaseConcat | app.py:54 | lowercasing distributes over `+` |
| Titles.Strip | app.py:56 | `s.strip()` as `rstrip` after `lstrip`; its properties are in `StripSpec`, `StripChars` and `StripUnpadded` |
| Titles.TrimStartSpec | app.py:56 | `lstrip` removes exactly the leading whitespace: the result is a suffix, all whitespace before it, and it does not start with whitespace |
| Titles.TrimEndSpec | app.py:56 | `rstrip` removes exactly the trailing whitespace, symmetrically |
| Titles.StripSpec | app.py:56 | `strip` returns a slice of its input with only whitespace around it, and the slice neither starts nor ends with whitespace |
| Titles.StripChars | app.py:56 | every character `strip` keeps comes from its input |
| Titles.StripUnpadded | app.py:56 | `strip` leaves a string with no whitespace at either end unchanged |
| Titles.Normalize | app.py:49-57 | `normalize_title`: lowercase, remove punctuation, strip; its properties are in `NormalizeShape`, `NormalizeIdempotent` and `NormalizeExample` |
| Titles.NormalizeShape | app.py:54-56 | a normal form holds only lowercase word characters and whitespace, and has no leading or trailing whitespace |
| Titles.NormalizeIdempotent | app.py:54-56 | `normalize_title(normalize_title(s)) == normalize_title(s)` |
| Titles.NormalizeExample | app.py:52 | "Endeavor: Deep Sea" normalises to "endeavor deep sea" |
| Titles.IsSubstring | app.py:68 | Python's `needle in hay` on strings; its meaning is proved in `SubstringSpec` |
| Titles.SubstringSpec | app.py:68 | `needle in hay` holds exactly when `needle` occurs in `hay` at some offset (both directions) |
| Titles.PartialMatch | app.py:59-68 | `partial_match`: either normal form is a substring of the other; its properties are in `PartialMatchSpec` and the lemmas below it |
| Titles.PartialMatchSpec | app.py:66-68 | two titles match exactly when one normal form occurs at some offset of the other |
| Titles.PartialMatchSymmetric | app.py:68 | `partial_match(a, b) == partial_match(b, a)` |
| Titles.PartialMatchReflexive | app.py:66-68 | every title matches itself |
| Titles.PartialMatchNormalForms | app.py:66-68 | the match depends only on the two normal forms |
| Titles.EmptyNormalFormMatchesAll | app.py:68 | a title whose normal form is empty matches every title, in both argument orders |
| Titles.PartialMatchExamples | app.py:62-64 | `partial_match("SETI", "SETI Search...")` and `partial_match("Endeavor Deep Sea", "Endeavor: Deep Sea")` are both true |
| Titles.ShortTitleInsideLonger | app.py:68 | plain substring matching also pairs "Arks" with "Parks" |
| Scoring.CompareUsers | app.py:81-98 | `compare_users` returns the records of the matching pairs (`MatchingPairs` with `PartialMatch`) and the sum of their weight products |
| Scoring.CompareWith | app.py:84-96 | the nested loop, for any title test, ends holding the records, and the sum of weight products, of that test's matching pairs |
| Scoring.ScanRow | app.py:85-96 | one pass of the inner loop appends exactly the records of user entry `i`'s matches and adds exactly their weight products |
| Scoring.RowsStep | app.py:84-96 | a finished row's records follow the earlier rows' records, and its products add to their sum |
| Scoring.RecordsElements | app.py:91-96 | record `k` holds both titles and both ranks of match `k` |
| Scoring.RecordsAppend | app.py:91-96 | the records of two runs of matches are the records of each, in order |
| Scoring.SumProductsAppend | app.py:89 | the products of two runs of matches add up |
| Scoring.RowMatchesExact | app.py:85-86 | row `i` holds exactly the matching entries of the other dict |
| Scoring.MatchingPairsExact | app.py:84-86 | the matching pairs are exactly the placed pairs of dict entries whose titles match (both directions) |
| Scoring.MatchingPairsSound | app.py:84-86 | every listed pair is placed, matching and in a visited row |
| Scoring.MatchingPairsComplete | app.py:84-86 | every matching placed pair in a visited row is listed |
| Scoring.RowMatchesOrdered | app.py:85 | a row's matches belong to that row, at most one per other entry, in strictly increasing order of the other dict |
| Scoring.MatchingPairsBounds | app.py:84 | the first `m` rows hold only pairs whose user entry comes before `m` |
| Scoring.MatchingPairsOrdered | app.py:84-85 | the pairs come in loop order: user-major, then other-dict order, each pair once |
| Scoring.MatchingPairsCount | app.py:84-86 | the first `m` rows hold at most `m * len(other)` pairs |
| Scoring.NoMatches | app.py:81-98 | the overlap list is empty exactly when no pair of titles matches, and then the score is 0 |
| Scoring.NothingMatched | app.py:86 | with no matching pair listed, no pair of titles matches |
| Scoring.PairWeights | app.py:87-88 | when every weight of both dicts lies in 1..10, both weights of every listed pair lie in 1..10 |
| Scoring.SumProductsBounds | app.py:89 | with weights 1..10, `n` matches sum to between `n` and `100 * n` |
| Scoring.ScoreBounds | app.py:81-98 | with weights 1..10, `0 <= score <= 100 * len(user) * len(other)`, and the score is 0 exactly when the overlap list is empty |
| Scoring.CompareUsersPairs | app.py:84-96 | `compare_users`' overlap list holds every pair of entries whose titles `partial_match`, each once, in loop order, and no other pair; record `k` holds `game_user`, `game_other`, `your_rank` and `their_rank` of pair `k` |
| Scoring.CompareUsersEmpty | app.py:81-98 | `compare_users` returns `(0, [])` when nothing matches, and an empty list only then |
| Scoring.CompareUsersBounds | app.py:81-98 | with weights 1..10, the `compare_users` score lies in `0..100 * len(user) * len(other)` |
| Sorting.SortInPlace | app.py:122 | the in-place sort turns the array into `SortDesc` of its old contents |
| Sorting.SinkLeft | app.py:122 | one insertion step places `a[i]` where `InsertLast` puts it and leaves the rest of the array alone |
| Sorting.InsertLastAt | app.py:122 | `x` goes after the last element whose key is at least `x`'s |
| Sorting.InsertLastSorted | app.py:122 | inserting into a descending sequence keeps it descending, and adds no element other than `x` |
| Sorting.InsertLastPerm | app.py:122 | inserting adds exactly `x` (multiset) |
| Sorting.InsertLastStable | app.py:122 | inserting keeps equal-key elements in the order they would have if `x` were appended |
| Sorting.WithKeyAppend | app.py:122 | the elements of one key in `s + u` are those of `s`, then those of `u` |
| Sorting.SortDescSorted | app.py:122 | the sorted sequence has non-increasing keys |
| Sorting.SortDescPerm | app.py:122 | the sorted sequence is a permutation of the input |
| Sorting.SortDescStable | app.py:122 | elements with equal keys keep their input order (`sort` is stable under `reverse=True`) |
| Ranking.FindTopMatches | app.py:100-123 | `find_top_matches` returns exactly `TopMatches(new_user_list, transformed_data, top_n)`, with `top_n` defaulting to 20 |
| Ranking.ScoreAll | app.py:112-119 | the scoring loop returns one result per person in dataset order, each holding `compare_users`' score and overlap |
| Ranking.ResultsShape | app.py:112-119 | result `k` is person `k`'s name with their `compare_users` score and overlap list |
| Ranking.RankedSpec | app.py:121-122 | the sorted results are a permutation of the per-person results, scores are non-increasing, and equal scores keep dataset order |
| Ranking.TopMatchesSpec | app.py:100-123 | the returned list has `min(top_n, len(data))` results (20 by default), a negative `top_n` drops that many from the end, and the list is a prefix of the sorted results, in non-increasing order, with no left-out result scoring above a kept one |

## Left out

- `load_data`, which opens and parses the CSV file, is not modelled; it is I/O through the `csv` library. The model takes the parsed data (`RawData`) as input. Person keys are distinct there, because they are dict keys.
- The Streamlit page is not modelled. The one rule kept from it (app.py:140-143) is that a field whose text strips to nothing is skipped, and each title's rank is the number of its field. `Preferences.FromForm` states both halves as a predicate, and `FormPrefs` draws its consequences.
- `Titles.IsWordChar`, `IsSpaceChar`, `LowerChar`: `\w`, `\s`, `str.strip()` and `str.lower()` get their ASCII meaning only. Python's Unicode letters, digits, spaces and case mappings are not modelled. So the model deletes every non-ASCII letter, digit or space as punctuation. It therefore matches titles that Python does not. Here "Café" normalises to "caf", a substring of "cafe" (the normal form of "Cafe"), so the model matches the two. In Python their normal forms "café" and "cafe" are not substrings of each other (app.py:55, 68).
- Python's sort algorithm (Timsort) is not modelled. `Sorting.SortInPlace` is an insertion sort. It is proved equal to `SortDesc`. `SortDesc` is proved non-increasing in score, a permutation of its input, and stable (equal keys keep their input order). That these three properties determine the output uniquely is not proved.
- `Scoring.CompareWith`: the test in the nested loop is a parameter, and `CompareUsers` passes `PartialMatch`. `Scoring.ScanRow` is the inner loop as its own method; the running score and list pass through it.
- `Ranking.FindTopMatches`: `results` is a sequence while it is built and an array while it is sorted. Aliasing of the Python list is not modelled.
- The dict records `{"person", "score", "overlap"}` and `{"game_user", ...}` are datatypes (`MatchResult`, `Overlap`) rather than string-keyed dicts.
- Titles match by plain substring inclusion of their normal forms (app.py:68); the source applies no other matching rule.
- Integers are unbounded, as Python's are, so no overflow is modelled.
