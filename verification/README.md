# WarpDrive core in Dafny

WarpDrive (`wd`) is a command-line directory jumper. It keeps a store of
visited directories, each with a visit count and a last-visit time. It ranks
them by a frecency score, and it resolves a short typed pattern to one tracked
directory for the calling shell to `cd` into. This project models the part of
`main.go` that holds the logic:

- the `Entry` record and the store operations `addPath`, `removePath` and
  `normalizeData`;
- the stale cutoff of `score`;
- the matcher `getBestMatch` with `stringContainsAllElemsInArr`;
- the option lookup `ArgsHaveOption`.

In the Go program the store is a process-wide slice `data`. Here it is an
explicit `seq<Entry>` that every operation takes and returns. The clock is a
`now: Int64` parameter holding whole Unix seconds. Three things come from the
surroundings as fields of `Store.Env`: the existence check on disk, the
floating-point decay of the score, and `filepath.Abs`.

Files:

- `seqs.dfy` (`Seqs`): order-preserving `Filter`, Go's in-place filter loop,
  and a descending insertion sort, with their lemmas.
- `gostrings.dfy` (`GoStrings`): ASCII `ToLower`, `Contains`, `Split`/`Join`
  and the last piece of a split.
- `store.dfy` (`Store`): `Int64`, `Entry`, `Score`, `AddPath`, `RemovePath`,
  `SortData`, `NormalizeData`, and the corrected normalization.
- `matcher.dfy` (`Matcher`): the candidate test and `GetBestMatch`.
- `args.dfy` (`Args`): `ArgsHaveOption`.
- `matcher_cases.dfy` (`MatcherCases`): concrete patterns worked through the
  matcher.

Modelling choices:

- Go's `int` on a 64-bit platform, and `int64`, are the newtype `Int64`. `Frequency++` wraps
  from the largest value to the smallest (`Store.Inc`).
- `sort.Slice` with the comparator `score(a) > score(b)` can return any
  permutation ordered by non-increasing score, as long as no score is NaN
  (see `Store.Score` under "Left out"). `SortData` is one such
  permutation, a concrete insertion sort. `Seqs.FilterInPlace` and
  `Store.CompactShape` are stated for any input sequence, so the shape of
  `normalizeData`'s result holds whichever permutation the sort returns.
- `addPath` is modelled on its own loop: a range over the entries present
  at the start, and an append guarded by `j == len(data)-1`. The proof shows
  that this loop behaves exactly like "find the first entry with the path;
  bump it, or else append a new entry".
- `getBestMatch` collects candidates in the order `data` has during the scan.
  It sorts `data` only afterwards, so the answer is the first qualifying entry
  in scan order and the scores play no part in the choice
  (`MatcherCases.ScanOrderDecides`). The sorted store is returned as
  `Match.store`.
- The answer equals `filepath.Abs(pattern)` whenever no entry qualifies. The
  converse does not hold: a qualifying entry's path may itself equal the
  absolute form of the pattern.

## Model

| member | source | states |
|---|---|---|
| Store.Inc | main.go:187 | `Frequency++` gives one more than before, modulo 2^64 (Go's `int` wraps on a 64-bit platform) |
| Store.StaleScoresZero | main.go:263-267 | an entry last visited more than 30 days (2,592,000 s) before `now` scores exactly 0, whatever its frequency |
| Store.WrappedTimeScoresZero | main.go:264-266 | a time above 2^63 - 1 - 62,135,596,800, where `time.Unix` wraps into the far past and `time.Since` saturates, scores exactly 0 |
| Store.AddPath | main.go:184-206 | if the path is present, only the first entry holding it changes: frequency one more, time `now`; length and every other entry stay the same. If the path is absent (also in an empty store), exactly `{path, 1, now}` is appended. A store without duplicate paths keeps none |
| Store.RemovePath | main.go:208-216 | removes exactly the first entry holding the path, keeping the order of the rest; returns the store unchanged when no entry holds it |
| Store.RemovePathRemovesPath | main.go:208-216 | in a store without duplicate paths, the removed path no longer occurs afterwards and there are still no duplicates |
| Store.RemoveUndoesAppend | main.go:208-216 | removing a path that was just appended as new gives back the original store |
| Store.SortData | main.go:257-261 | sorting returns the same entries (as a multiset) ordered by non-increasing score |
| Store.CompactShape | main.go:142-152 | for any input order: the length is kept; the first k positions are the entries with score > 1 and an existing path, in their input order, and each occurs there exactly as often as in the input; from k on, the input is unchanged |
| Seqs.FilterInPlace | main.go:142-152 | the in-place loop, which reads each element from the same array that `temp` writes into, leaves the passing elements compacted to the front in their order, followed by the input's own elements from that length on |
| Store.NormalizeData | main.go:140-153 | the result is as long as the input; its first k entries are, as a multiset, exactly the input's entries that pass the test (duplicates counted), ordered best score first, and they are the kept entries of the sorted sequence in that sequence's order; after them comes the sorted sequence's own tail |
| Store.StaleNeverKept | main.go:145 | no stale entry is ever in the kept front part of `normalizeData`'s result |
| Store.StaleEntrySurvivesNormalize | main.go:152 | as written, a store holding one stale entry comes back unchanged, while the intended normalization empties it |
| Store.NormalizeIntended | main.go:140-153 | returning `temp`: the result is, as a multiset, exactly the input's entries with score > 1 and an existing path (each as often as in the input), sorted by score, and is never longer than the input |
| Store.NormalizeNotIdempotent | main.go:140-153 | as written, normalizing `[x(score 100, path missing), y(90, missing), a(50)]` gives `[a, y, a]`, keeping the missing `y`, and normalizing that again gives `[a, a, a]`: the result is not stable and entries get duplicated |
| Store.NormalizeIntendedIdempotent | main.go:140-153 | normalizing the intended way twice gives the same store as once |
| GoStrings.ToLower | main.go:250 | lower-casing keeps the length and every character that is not an upper-case ASCII letter, and leaves no upper-case ASCII letter |
| GoStrings.Contains | main.go:250 | the search answers true exactly when the second string occurs at some offset of the first |
| GoStrings.Split | main.go:229 | splitting always gives at least one piece, and no piece contains the separator |
| GoStrings.JoinSplit | main.go:229 | joining the pieces of a split with the same separator gives back the original string |
| GoStrings.SplitJoin | main.go:229 | splitting a join of separator-free pieces gives back those pieces, including empty ones |
| GoStrings.LastSegment | main.go:230-236 | the last piece of a split is the longest suffix without the separator: all of the string, or the part after its last separator |
| Matcher.StringContainsAll | main.go:248-255 | true exactly when every lower-cased element occurs in the lower-cased string; an empty list gives true |
| Matcher.CandidateMeaning | main.go:229-239 | an entry qualifies exactly when every space-separated word (empty ones included) occurs in its path and the tail of the last word after its last `/` occurs in the path's base name, ignoring ASCII case |
| Matcher.TrailingSpaceIgnoresBaseName | main.go:229-236 | a pattern ending in a space has an empty last word, so the base-name test always passes and only the all-words test remains |
| Matcher.EmptyPatternAcceptsAll | main.go:229-236 | the empty pattern, split into one empty word, accepts every path |
| Matcher.GetBestMatch | main.go:226-246 | the answer is the path of the first qualifying entry in the store's order during the scan, or `filepath.Abs(pattern)` when none qualifies; the store comes back as a permutation sorted by score |
| Matcher.SortedMatchIsTopScored | main.go:241-245 | over a store already sorted by score, the chosen entry scores at least as high as every qualifying entry |
| Matcher.IntendedMatchIsTopScored | main.go:241-245 | after the intended normalization, the chosen entry is a best-scoring qualifying entry |
| MatcherCases.SomeSubDirCase | main.go:41 | `wd some subDir` over `/x/some/subDir` and `/x/subDir` picks `/x/some/subDir` in either order, because the other path lacks "some" |
| MatcherCases.ScanOrderDecides | main.go:241-245 | when `/foo/barstool` comes first and matches `bar`, it is chosen whatever the later entry is and whatever it scores |
| MatcherCases.EmptyPatternCase | main.go:226-245 | the empty pattern chooses the first entry of the store |
| MatcherCases.EmptyStoreCase | main.go:242-243 | with an empty store the answer is the absolute form of the pattern |
| Args.ArgsHaveOption | main.go:284-292 | returns `(true, i)` for the smallest `i`, position 0 included, with `args[i]` equal to `--long` or `-short`; returns `(false, 0)` exactly when no argument matches |

## Left out

- Store.Score: the decay `1000 * f * 2^(-(minutes + 58000) / 12960)` is floating point. It is the abstract `Env.decay`; only the stale branch is concrete. The decay is taken to be a finite real, but Go's score can be NaN: with frequency 0 and a time about 25 years or more ahead of `now`, `math.Exp2` overflows to +Inf and `0 * +Inf` is NaN. The comparator of `sort.Slice` is then no strict weak order, so the sorted store need not be ordered by score, and the `SortedDesc` clauses of `SortData`, `NormalizeData` and `GetBestMatch` do not cover such a store.
- Store.Inc: models a 64-bit `int`. On 32-bit platforms (386, 32-bit ARM) Go's `int` is 32 bits and `Frequency++` wraps at 2^31; the model does not cover that build.
- Store.IsStale: `now` is whole seconds. Go compares `time.Since`, which includes the current sub-second part. So at an age of exactly 2,592,000 s the Go code may already return 0 where the model does not. Times large enough for `time.Unix` to wrap around are modelled (they count as stale); the saturation of `time.Since` at about 292 years is not: it only caps ages that are already stale, or negative ages that go to the abstract decay.
- `time.Now()` is read again at every call of `score`, including inside the sort comparator. The model uses one `now` for the whole run.
- `pathExists` and `os.Stat` are the abstract `Env.pathExists`. The error that `normalizeData` prints to stderr is not modelled.
- `normalizePath`/`filepath.Abs` is the abstract `Env.abs`. Its panic when the working directory cannot be read is not modelled.
- GoStrings.ToLower: only ASCII letters are lower-cased. Go's `strings.ToLower` follows Unicode.
- `os.PathSeparator` is taken to be `/`, the separator used for splitting candidate paths.
- Store.SortData: a concrete stable insertion sort. It is one of the orders `sort.Slice` may produce; Go's unstable sort can order equal scores differently.
- `main`: home and config directory creation, reading and writing `data.json` as JSON, the deferred write and `os.Exit`, the argument-count checks for `--add`/`--remove`, the `os.Stat` directory check for `--add`, and joining the arguments into one pattern. All of this is process plumbing and I/O.
- `listAllPaths` and all printing (including the `%.1f`/`%.0f` score formats), the help text and the version text: output only.

## Findings

| source | as written | input that shows it | evidently intended | confidence | as-written member | corrected member |
|---|---|---|---|---|---|---|
| main.go:152 | `normalizeData` returns `data` rather than the filtered `temp`. So the store never shrinks: dropped entries are only overwritten by kept ones, and the tail of the sorted slice, stale entries included, is written back | a store holding one entry with an existing path, last visited 30 days and 1 second ago: it comes back unchanged | return `temp`, so that only entries with score above 1 and an existing path remain, best first | high (not executed) | Store.StaleEntrySurvivesNormalize | Store.NormalizeIntended |
| main.go:152 | as a consequence, normalizing is not idempotent: entries with a missing path stay behind the kept prefix, and kept entries are copied over them on the next run, so the store fills with duplicates | `[x(score 100, path missing), y(90, missing), a(50)]` gives `[a, y, a]`, and that gives `[a, a, a]` | normalizing a normalized store changes nothing | high (not executed) | Store.NormalizeNotIdempotent | Store.NormalizeIntendedIdempotent |
