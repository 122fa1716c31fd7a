/** The store of tracked directories: the `Entry` record, the frecency score's
    stale cutoff, and the operations `addPath`, `removePath` and
    `normalizeData`. The process-wide `data` slice is an explicit sequence
    that each operation takes and returns. */
module Store {
  import opened Seqs

  /** Go's 64-bit `int` and `int64`. */
  newtype Int64 = x: int | -0x8000_0000_0000_0000 <= x < 0x8000_0000_0000_0000

  const MinInt64: Int64 := -0x8000_0000_0000_0000
  const MaxInt64: Int64 := 0x7FFF_FFFF_FFFF_FFFF

  /** One tracked directory: how often it was visited and when last, in Unix seconds. */
  datatype Entry = Entry(path: string, frequency: Int64, time: Int64)

  /** What the store needs from outside the model: whether a path exists on
      disk (`pathExists`, which also answers false when `os.Stat` fails for
      another reason), the floating-point decay of a score that is not stale,
      given the frequency and the age in seconds, and `filepath.Abs`. */
  datatype Env = Env(pathExists: string -> bool, decay: (Int64, int) -> real, abs: string -> string)

  /** Thirty days, in seconds: entries older than this score 0. */
  const StaleAfter: int := 30 * 24 * 60 * 60

  /** Seconds from 1 January of year 1 to the Unix epoch, which `time.Unix`
      adds to its argument in 64-bit arithmetic. */
  const UnixToInternal: int := 62_135_596_800

  /** An entry not visited for more than `StaleAfter` seconds. A time so large
      that `time.Unix` wraps around lands in the far past, where `time.Since`
      saturates at its largest duration: such an entry is stale too. */
  predicate IsStale(e: Entry, now: Int64)
  {
    || e.time as int + UnixToInternal > MaxInt64 as int
    || now as int - e.time as int > StaleAfter
  }

  /** `score`: 0 for a stale entry, otherwise the (abstract) decayed frecency. */
  function Score(e: Entry, now: Int64, env: Env): real
  {
    if IsStale(e, now) then 0.0 else env.decay(e.frequency, now as int - e.time as int)
  }

  /** Whatever its frequency, a stale entry scores 0. */
  lemma StaleScoresZero(e: Entry, now: Int64, env: Env)
    requires IsStale(e, now)
    ensures Score(e, now, env) == 0.0
  {
  }

  /** A last-visit time past the point where `time.Unix` wraps around scores
      0, even though it lies after `now`. */
  lemma WrappedTimeScoresZero(e: Entry, now: Int64, env: Env)
    requires e.time as int > MaxInt64 as int - UnixToInternal
    ensures Score(e, now, env) == 0.0
  {
  }

  /** The sort key of `sortData`. */
  function ScoreKey(now: Int64, env: Env): Entry -> real
  {
    e => Score(e, now, env)
  }

  /** `Frequency++` on a 64-bit int: one more, modulo 2^64. */
  function Inc(x: Int64): (r: Int64)
    ensures (r as int - x as int - 1) % 0x1_0000_0000_0000_0000 == 0
  {
    if x == MaxInt64 then MinInt64 else x + 1
  }

  /** The entry after one more visit at `now`. */
  function Visit(e: Entry, now: Int64): Entry
  {
    e.(frequency := Inc(e.frequency), time := now)
  }

  /** `i` is the first position of `data` holding `path`. */
  ghost predicate IsFirstWithPath(data: seq<Entry>, path: string, i: int)
  {
    0 <= i < |data| && data[i].path == path && forall j :: 0 <= j < i ==> data[j].path != path
  }

  /** Some entry of `data` holds `path`. */
  ghost predicate HasPath(data: seq<Entry>, path: string)
  {
    exists i :: 0 <= i < |data| && data[i].path == path
  }

  /** No two entries hold the same path. */
  ghost predicate UniquePaths(data: seq<Entry>)
  {
    forall i, j :: 0 <= i < j < |data| ==> data[i].path != data[j].path
  }

  /** `addPath`, following the Go loop: it ranges over the entries as they were
      on entry, bumps the first one holding `path` and stops, and appends a new
      entry when it reaches the last position without a hit; an empty store
      gets the new entry after the loop. */
  method AddPath(data: seq<Entry>, path: string, now: Int64) returns (r: seq<Entry>)
    ensures forall i :: IsFirstWithPath(data, path, i) ==>
              && |r| == |data|
              && r[i] == Visit(data[i], now)
              && forall j :: 0 <= j < |data| && j != i ==> r[j] == data[j]
    ensures !HasPath(data, path) ==> r == data + [Entry(path, 1, now)]
    ensures UniquePaths(data) ==> UniquePaths(r)
  {
    r := data;
    var j := 0;
    while j < |data|
      invariant 0 <= j <= |data|
      invariant forall k :: 0 <= k < j ==> data[k].path != path
      invariant r == if 0 < j == |data| then data + [Entry(path, 1, now)] else data
    {
      var entry := data[j];
      if entry.path == path {
        r := r[j := Visit(r[j], now)];
        break;
      }
      if j == |r| - 1 {
        r := r + [Entry(path, 1, now)];
      }
      j := j + 1;
    }
    if |r| == 0 {
      r := r + [Entry(path, 1, now)];
    }
  }

  /** The position of the first entry at or after `from` holding `path`, or
      `|data|` if there is none. */
  function FindPath(data: seq<Entry>, path: string, from: nat): (i: nat)
    requires from <= |data|
    ensures from <= i <= |data|
    ensures forall j :: from <= j < i ==> data[j].path != path
    ensures i < |data| ==> data[i].path == path
    decreases |data| - from
  {
    if from == |data| then from
    else if data[from].path == path then from
    else FindPath(data, path, from + 1)
  }

  /** `removePath`: drops the first entry holding `path`, keeping the order of
      the others; a store without `path` comes back unchanged. */
  function RemovePath(data: seq<Entry>, path: string): (r: seq<Entry>)
    ensures forall i :: IsFirstWithPath(data, path, i) ==> r == data[..i] + data[i + 1..]
    ensures !HasPath(data, path) ==> r == data
  {
    var i := FindPath(data, path, 0);
    assert forall f :: IsFirstWithPath(data, path, f) ==> f == i;
    if i < |data| then data[..i] + data[i + 1..] else data
  }

  /** After dropping position `f`, position `k` holds what `data` held at `k`
      before `f` and at `k + 1` from `f` on. */
  lemma DropAt(data: seq<Entry>, f: nat)
    requires f < |data|
    ensures var r := data[..f] + data[f + 1..];
      |r| == |data| - 1 && forall k :: 0 <= k < |r| ==> r[k] == data[if k < f then k else k + 1]
  {
  }

  /** In a store without duplicate paths, `removePath` leaves no entry holding
      `path` and still no duplicates. */
  lemma RemovePathRemovesPath(data: seq<Entry>, path: string)
    requires UniquePaths(data)
    ensures !HasPath(RemovePath(data, path), path)
    ensures UniquePaths(RemovePath(data, path))
  {
    var f := FindPath(data, path, 0);
    if f < |data| {
      assert IsFirstWithPath(data, path, f);
      var r := data[..f] + data[f + 1..];
      DropAt(data, f);
      forall a, b | 0 <= a < b < |r| ensures r[a].path != r[b].path {
        assert r[a] == data[if a < f then a else a + 1];
        assert r[b] == data[if b < f then b else b + 1];
      }
      forall k | 0 <= k < |r| ensures r[k].path != path {
        assert r[k] == data[if k < f then k else k + 1];
      }
    }
  }

  /** Removing a path that the store did not hold before an append undoes the append. */
  lemma RemoveUndoesAppend(data: seq<Entry>, path: string, now: Int64)
    requires !HasPath(data, path)
    ensures RemovePath(data + [Entry(path, 1, now)], path) == data
  {
    var d := data + [Entry(path, 1, now)];
    assert IsFirstWithPath(d, path, |data|);
    assert d[..|data|] == data;
  }

  /** The test `normalizeData` applies to each entry: a score above 1 and a path that exists. */
  predicate Keep(e: Entry, now: Int64, env: Env)
  {
    Score(e, now, env) > 1.0 && env.pathExists(e.path)
  }

  function KeepTest(now: Int64, env: Env): Entry -> bool
  {
    e => Keep(e, now, env)
  }

  /** The entries of `s` that pass `Keep`, in order. */
  function Kept(s: seq<Entry>, now: Int64, env: Env): seq<Entry>
  {
    Filter(s, KeepTest(now, env))
  }

  /** `sortData`: some ordering of the same entries by non-increasing score. */
  function SortData(data: seq<Entry>, now: Int64, env: Env): (s: seq<Entry>)
    ensures multiset(s) == multiset(data) && |s| == |data|
    ensures SortedDesc(s, ScoreKey(now, env))
  {
    var s := SortDesc(data, ScoreKey(now, env));
    assert |multiset(s)| == |multiset(data)|;
    s
  }

  /** The kept entries of `s` moved to the front, the rest of `s` left in
      place: what the filtering loop of `normalizeData` leaves in `data`. */
  function Compact(s: seq<Entry>, now: Int64, env: Env): seq<Entry>
  {
    Compacted(s, KeepTest(now, env))
  }

  /** For whatever order the sort produced: the length is kept, the first `k`
      positions hold exactly the entries that pass `Keep`, in their order in
      `s` and as often as they occur there, and from `k` on the input is
      unchanged. */
  lemma CompactShape(s: seq<Entry>, now: Int64, env: Env)
    ensures var r := Compact(s, now, env);
      var k := |Kept(s, now, env)|;
      && |r| == |s| && k <= |r|
      && r[..k] == Kept(s, now, env)
      && (forall e :: multiset(r[..k])[e] == if Keep(e, now, env) then multiset(s)[e] else 0)
      && (forall i :: 0 <= i < k ==> Keep(r[i], now, env))
      && (forall i :: 0 <= i < |s| && Keep(s[i], now, env) ==> s[i] in r[..k])
      && r[k..] == s[k..]
  {
    var kept := Kept(s, now, env);
    assert Compact(s, now, env)[..|kept|] == kept;
    FilterMultiset(s, KeepTest(now, env));
  }

  /** Two sequences with the same multiset hold the same elements. */
  lemma SameElements(r: seq<Entry>, t: seq<Entry>)
    requires multiset(r) == multiset(t)
    ensures forall i :: 0 <= i < |r| ==> r[i] in t
    ensures forall i :: 0 <= i < |t| ==> t[i] in r
  {
    forall i | 0 <= i < |r| ensures r[i] in t {
      assert r[i] in multiset(t);
    }
    forall i | 0 <= i < |t| ensures t[i] in r {
      assert t[i] in multiset(r);
    }
  }

  /** `normalizeData` as written: sort, then filter in place, then return the
      whole sequence. The length never changes; the first `k` positions hold
      exactly the entries that pass `Keep`, each as often as in the input,
      in the sorted order, and the rest is the sorted sequence's own tail from
      position `k` on. */
  function NormalizeData(data: seq<Entry>, now: Int64, env: Env): (r: seq<Entry>)
    ensures |r| == |data|
    ensures var k := |Kept(SortData(data, now, env), now, env)|;
      && k <= |r|
      && r[..k] == Kept(SortData(data, now, env), now, env)
      && multiset(r[..k]) == multiset(Kept(data, now, env))
      && (forall i :: 0 <= i < k ==> Keep(r[i], now, env))
      && (forall i :: 0 <= i < |data| && Keep(data[i], now, env) ==> data[i] in r[..k])
      && SortedDesc(r[..k], ScoreKey(now, env))
      && r[k..] == SortData(data, now, env)[k..]
  {
    var s := SortData(data, now, env);
    var r := Compact(s, now, env);
    CompactShape(s, now, env);
    assert r[..|Kept(s, now, env)|] == Kept(s, now, env);
    FilterKeepsSorted(s, KeepTest(now, env), ScoreKey(now, env));
    FilterPermutation(s, data, KeepTest(now, env));
    SameElements(r[..|Kept(s, now, env)|], Kept(data, now, env));
    r
  }

  /** No stale entry is ever among the kept front part of `normalizeData`'s result. */
  lemma StaleNeverKept(data: seq<Entry>, now: Int64, env: Env)
    ensures var r := NormalizeData(data, now, env);
      forall i :: 0 <= i < |Kept(SortData(data, now, env), now, env)| ==> !IsStale(r[i], now)
  {
  }

  /** A single stale entry survives `normalizeData` as written, although it
      fails the test the loop applies: the filtered prefix is empty and the
      stale entry stays behind it. */
  lemma StaleEntrySurvivesNormalize()
    ensures var e := Entry("/gone", 1, 0);
      var env := Env(p => true, (f, a) => 1000.0, p => p);
      var now: Int64 := StaleAfter as Int64 + 1;
      && !Keep(e, now, env)
      && NormalizeData([e], now, env) == [e]
      && NormalizeIntended([e], now, env) == []
  {
    var e := Entry("/gone", 1, 0);
    var env := Env(p => true, (f, a) => 1000.0, p => p);
    var now: Int64 := StaleAfter as Int64 + 1;
    assert SortData([e], now, env) == [e];
    assert [e][..0] == [];
    assert Kept([e], now, env) == [];
  }

  /** As written, normalizing twice differs from normalizing once: an entry
      whose path is missing stays in the store, and kept entries are copied
      over it on the next run. Here the decay is the frequency itself and
      only "/a" exists. */
  lemma NormalizeNotIdempotent()
    ensures var env := FreqEnv();
      var x := Entry("/x", 100, 0);
      var y := Entry("/y", 90, 0);
      var a := Entry("/a", 50, 0);
      && !Keep(y, 0, env)
      && NormalizeData([x, y, a], 0, env) == [a, y, a]
      && NormalizeData([a, y, a], 0, env) == [a, a, a]
  {
    var x := Entry("/x", 100, 0);
    var y := Entry("/y", 90, 0);
    var a := Entry("/a", 50, 0);
    FreqEnvScores(x, y, a);
    FirstNormalize(x, y, a);
    SecondNormalize(y, a);
  }

  /** The environment of the example: the score is the frequency and only "/a" exists. */
  function FreqEnv(): Env
  {
    Env(p => p == "/a", (f, age) => f as real, p => p)
  }

  lemma FreqEnvScores(x: Entry, y: Entry, a: Entry)
    requires x == Entry("/x", 100, 0) && y == Entry("/y", 90, 0) && a == Entry("/a", 50, 0)
    ensures ScoreKey(0, FreqEnv())(x) == 100.0 && ScoreKey(0, FreqEnv())(y) == 90.0 && ScoreKey(0, FreqEnv())(a) == 50.0
    ensures !KeepTest(0, FreqEnv())(x) && !KeepTest(0, FreqEnv())(y) && KeepTest(0, FreqEnv())(a)
  {
    assert x.path != "/a" by { assert x.path[1] != 'a'; }
    assert y.path != "/a" by { assert y.path[1] != 'a'; }
  }

  /** `normalizeData` as written, once the sorted order and its kept entries are known. */
  lemma NormalizeDataFrom(data: seq<Entry>, now: Int64, env: Env, s: seq<Entry>, kept: seq<Entry>)
    requires SortDesc(data, ScoreKey(now, env)) == s && Kept(s, now, env) == kept
    ensures NormalizeData(data, now, env) == kept + s[|kept|..]
  {
  }

  lemma FirstNormalize(x: Entry, y: Entry, a: Entry)
    requires x == Entry("/x", 100, 0) && y == Entry("/y", 90, 0) && a == Entry("/a", 50, 0)
    ensures NormalizeData([x, y, a], 0, FreqEnv()) == [a, y, a]
  {
    var env := FreqEnv();
    var s := [x, y, a];
    assert [a] + s[1..] == [a, y, a];
    FreqEnvScores(x, y, a);
    SortedThree(x, y, a, ScoreKey(0, env));
    SortSortedIsIdentity(s, ScoreKey(0, env));
    FilterThree(x, y, a, KeepTest(0, env));
    NormalizeDataFrom(s, 0, env, s, [a]);
  }

  lemma SecondSorted(y: Entry, a: Entry)
    requires y == Entry("/y", 90, 0) && a == Entry("/a", 50, 0)
    ensures SortDesc([a, y, a], ScoreKey(0, FreqEnv())) == [y, a, a]
  {
    FreqEnvScores(Entry("/x", 100, 0), y, a);
    SortLargerFirst(a, y, ScoreKey(0, FreqEnv()));
  }

  lemma SecondKept(y: Entry, a: Entry)
    requires y == Entry("/y", 90, 0) && a == Entry("/a", 50, 0)
    ensures Kept([y, a, a], 0, FreqEnv()) == [a, a]
  {
    FreqEnvScores(Entry("/x", 100, 0), y, a);
    FilterThree(y, a, a, KeepTest(0, FreqEnv()));
  }

  lemma SecondNormalize(y: Entry, a: Entry)
    requires y == Entry("/y", 90, 0) && a == Entry("/a", 50, 0)
    ensures NormalizeData([a, y, a], 0, FreqEnv()) == [a, a, a]
  {
    assert [a, a] + [y, a, a][2..] == [a, a, a];
    SecondSorted(y, a);
    SecondKept(y, a);
    NormalizeDataFrom([a, y, a], 0, FreqEnv(), [y, a, a], [a, a]);
  }

  /** `normalizeData` as intended: return the filtered prefix (`temp`). The
      result holds exactly the entries that pass `Keep`, each as often as in
      the input, best score first. */
  function NormalizeIntended(data: seq<Entry>, now: Int64, env: Env): (r: seq<Entry>)
    ensures |r| <= |data|
    ensures multiset(r) == multiset(Kept(data, now, env))
    ensures forall i :: 0 <= i < |r| ==> Keep(r[i], now, env) && r[i] in data
    ensures forall i :: 0 <= i < |data| && Keep(data[i], now, env) ==> data[i] in r
    ensures SortedDesc(r, ScoreKey(now, env))
  {
    var s := SortData(data, now, env);
    FilterKeepsSorted(s, KeepTest(now, env), ScoreKey(now, env));
    var r := Kept(s, now, env);
    FilterPermutation(s, data, KeepTest(now, env));
    SameElements(r, Kept(data, now, env));
    r
  }

  /** Normalizing the intended way twice is the same as once. */
  lemma {:induction false} NormalizeIntendedIdempotent(data: seq<Entry>, now: Int64, env: Env)
    ensures NormalizeIntended(NormalizeIntended(data, now, env), now, env) == NormalizeIntended(data, now, env)
  {
    var r := NormalizeIntended(data, now, env);
    SortSortedIsIdentity(r, ScoreKey(now, env));
    FilterIdempotent(SortData(data, now, env), KeepTest(now, env));
  }
}
