/** Order-preserving filtering and descending sorting of sequences: the two
    slice idioms the store relies on (filtering without allocating and
    `sort.Slice` with a "greater score first" comparator). */
module Seqs {

  /** The elements of `s` that satisfy `p`, in their original order. Defined
      from the back so that extending the input by one element extends the
      result by at most that element, which is how an in-place filter grows. */
  function Filter<T>(s: seq<T>, p: T -> bool): (r: seq<T>)
    ensures |r| <= |s|
    ensures forall i :: 0 <= i < |r| ==> r[i] in s && p(r[i])
    ensures forall i :: 0 <= i < |s| && p(s[i]) ==> s[i] in r
    decreases |s|
  {
    if |s| == 0 then []
    else
      var init := Filter(s[..|s| - 1], p);
      assert s == s[..|s| - 1] + [s[|s| - 1]];
      if p(s[|s| - 1]) then init + [s[|s| - 1]] else init
  }

  /** Filtering a prefix one element longer adds at most that element. */
  lemma FilterSnoc<T>(s: seq<T>, i: nat, p: T -> bool)
    requires i < |s|
    ensures Filter(s[..i + 1], p) == Filter(s[..i], p) + (if p(s[i]) then [s[i]] else [])
  {
    assert s[..i + 1][..i] == s[..i];
  }

  /** Nothing passes, so nothing is kept. */
  lemma {:induction false} FilterNone<T>(s: seq<T>, p: T -> bool)
    requires forall k :: 0 <= k < |s| ==> !p(s[k])
    ensures Filter(s, p) == []
    decreases |s|
  {
    if |s| > 0 {
      FilterNone(s[..|s| - 1], p);
    }
  }

  /** Filtering keeps each passing element exactly as often as it occurs in
      `s`, and no other element. */
  lemma {:induction false} FilterMultiset<T>(s: seq<T>, p: T -> bool)
    ensures forall e :: multiset(Filter(s, p))[e] == if p(e) then multiset(s)[e] else 0
    decreases |s|
  {
    if |s| > 0 {
      var init := s[..|s| - 1];
      FilterMultiset(init, p);
      assert s == init + [s[|s| - 1]];
    }
  }

  /** Filtering two rearrangements of the same elements keeps the same elements. */
  lemma FilterPermutation<T>(s: seq<T>, t: seq<T>, p: T -> bool)
    requires multiset(s) == multiset(t)
    ensures multiset(Filter(s, p)) == multiset(Filter(t, p))
  {
    FilterMultiset(s, p);
    FilterMultiset(t, p);
  }

  /** Filtering three elements, spelled out. */
  lemma FilterThree<T>(x: T, y: T, z: T, p: T -> bool)
    ensures Filter([x, y, z], p) == (if p(x) then [x] else []) + (if p(y) then [y] else []) + (if p(z) then [z] else [])
  {
    var s := [x, y, z];
    assert s[..3] == s && s[..2] == [x, y] && s[..1] == [x] && s[..0] == [];
    FilterSnoc(s, 0, p);
    FilterSnoc(s, 1, p);
    FilterSnoc(s, 2, p);
  }

  /** The elements that pass `p` moved to the front, in order, followed by
      the rest of `s` from that length on. */
  function Compacted<T>(s: seq<T>, p: T -> bool): seq<T>
  {
    var kept := Filter(s, p);
    kept + s[|kept|..]
  }

  /** Go's filtering without allocating (`temp := data[:0]`, then
      `temp = append(temp, x)` for each `x` of `data` that passes): `temp`
      shares `data`'s array, so each kept element is written over position
      `k` of the very sequence being read, and the whole sequence is what
      comes back. */
  method FilterInPlace<T>(s: seq<T>, p: T -> bool) returns (r: seq<T>)
    ensures r == Compacted(s, p)
  {
    r := s;
    var k := 0;
    for i := 0 to |s|
      invariant InPlaceFacts(s, p, r, k, i)
    {
      var x := r[i];
      InPlaceStep(s, p, r, k, i);
      if p(x) {
        r := r[k := x];
        k := k + 1;
      }
    }
    InPlaceDone(s, p, r, k);
  }

  /** What holds after the loop has read `i` elements: `r[..k]` are the ones
      among them that pass, and from `k` on `r` still holds the input. */
  ghost predicate InPlaceFacts<T>(s: seq<T>, p: T -> bool, r: seq<T>, k: int, i: int)
  {
    && 0 <= k <= i <= |s| && |r| == |s|
    && r[..k] == Filter(s[..i], p)
    && forall m :: k <= m < |s| ==> r[m] == s[m]
  }

  /** One step: the element read at `i` is still the input's, and writing it
      at `k` when it passes re-establishes the loop's facts. */
  lemma InPlaceStep<T>(s: seq<T>, p: T -> bool, r: seq<T>, k: int, i: int)
    requires InPlaceFacts(s, p, r, k, i) && i < |s|
    ensures r[i] == s[i]
    ensures p(s[i]) ==> InPlaceFacts(s, p, r[k := s[i]], k + 1, i + 1)
    ensures !p(s[i]) ==> InPlaceFacts(s, p, r, k, i + 1)
  {
    FilterSnoc(s, i, p);
    assert r[k := s[i]][..k + 1] == r[..k] + [s[i]];
  }

  /** When the loop has read everything, the sequence is the compacted input. */
  lemma InPlaceDone<T>(s: seq<T>, p: T -> bool, r: seq<T>, k: int)
    requires InPlaceFacts(s, p, r, k, |s|)
    ensures r == Compacted(s, p)
  {
    assert s[..|s|] == s;
    assert r[k..] == s[k..];
    assert r == r[..k] + r[k..];
  }

  /** Whoever is first to satisfy `p` in `s` is first in the filtered sequence. */
  lemma {:induction false} FilterFirst<T>(s: seq<T>, i: nat, p: T -> bool)
    requires i < |s| && p(s[i])
    requires forall j :: 0 <= j < i ==> !p(s[j])
    ensures |Filter(s, p)| > 0 && Filter(s, p)[0] == s[i]
    decreases |s|
  {
    if i == |s| - 1 {
      FilterNone(s[..|s| - 1], p);
    } else {
      FilterFirst(s[..|s| - 1], i, p);
    }
  }

  /** Every element of the filtered sequence passes, so filtering again changes nothing. */
  lemma {:induction false} FilterIdempotent<T>(s: seq<T>, p: T -> bool)
    ensures Filter(Filter(s, p), p) == Filter(s, p)
    decreases |s|
  {
    if |s| > 0 {
      var init := s[..|s| - 1];
      FilterIdempotent(init, p);
      var f := Filter(init, p);
      if p(s[|s| - 1]) {
        var g := f + [s[|s| - 1]];
        assert g[..|g| - 1] == f;
      }
    }
  }

  /** `s` is ordered by non-increasing `key`. */
  ghost predicate SortedDesc<T>(s: seq<T>, key: T -> real)
  {
    forall i, j :: 0 <= i < j < |s| ==> key(s[i]) >= key(s[j])
  }

  /** A subsequence of an ordered sequence is ordered. */
  lemma {:induction false} FilterKeepsSorted<T>(s: seq<T>, p: T -> bool, key: T -> real)
    requires SortedDesc(s, key)
    ensures SortedDesc(Filter(s, p), key)
    decreases |s|
  {
    if |s| > 0 {
      var init := s[..|s| - 1];
      var last := s[|s| - 1];
      assert SortedDesc(init, key);
      FilterKeepsSorted(init, p, key);
      var f := Filter(init, p);
      if p(last) {
        forall x | x in f ensures key(x) >= key(last) {
          var j :| 0 <= j < |init| && init[j] == x;
          assert s[j] == x;
        }
        var g := f + [last];
        forall i, j | 0 <= i < j < |g| ensures key(g[i]) >= key(g[j]) {
          if j == |g| - 1 {
            assert g[i] in f;
          }
        }
      }
    }
  }

  /** Inserts `x` into an ordered `t` in front of the first element whose key is
      not greater than `x`'s. */
  function Insert<T>(x: T, t: seq<T>, key: T -> real): (r: seq<T>)
    ensures multiset(r) == multiset(t) + multiset{x}
    decreases |t|
  {
    if |t| == 0 then [x]
    else if key(t[0]) <= key(x) then [x] + t
    else
      assert t == [t[0]] + t[1..];
      [t[0]] + Insert(x, t[1..], key)
  }

  /** An element whose key bounds every key of an ordered sequence can go in front of it. */
  lemma ConsSorted<T>(a: T, rest: seq<T>, key: T -> real)
    requires SortedDesc(rest, key)
    requires forall k :: 0 <= k < |rest| ==> key(a) >= key(rest[k])
    ensures SortedDesc([a] + rest, key)
  {
    var r := [a] + rest;
    forall i, j | 0 <= i < j < |r| ensures key(r[i]) >= key(r[j]) {
      assert r[j] == rest[j - 1];
      if i > 0 {
        assert r[i] == rest[i - 1];
      }
    }
  }

  /** Every element of an insertion is the inserted one or one of `t`'s. */
  lemma InsertFrom<T>(x: T, t: seq<T>, key: T -> real, k: nat)
    requires k < |Insert(x, t, key)|
    ensures Insert(x, t, key)[k] == x || exists m :: 0 <= m < |t| && t[m] == Insert(x, t, key)[k]
  {
    var y := Insert(x, t, key)[k];
    assert y in multiset(Insert(x, t, key));
    if y != x {
      assert y in multiset(t);
      assert y in t;
    }
  }

  /** Inserting into an ordered sequence keeps it ordered. */
  lemma {:induction false} InsertKeepsSorted<T>(x: T, t: seq<T>, key: T -> real)
    requires SortedDesc(t, key)
    ensures SortedDesc(Insert(x, t, key), key)
    decreases |t|
  {
    if |t| == 0 {
    } else if key(t[0]) <= key(x) {
      ConsSorted(x, t, key);
    } else {
      var tail := t[1..];
      var rest := Insert(x, tail, key);
      assert SortedDesc(tail, key);
      InsertKeepsSorted(x, tail, key);
      forall k | 0 <= k < |rest| ensures key(t[0]) >= key(rest[k]) {
        InsertFrom(x, tail, key, k);
        if rest[k] != x {
          var m :| 0 <= m < |tail| && tail[m] == rest[k];
          assert t[m + 1] == rest[k];
        }
      }
      ConsSorted(t[0], rest, key);
    }
  }

  /** Insertion sort by non-increasing `key`: one of the orders an unstable
      sort with comparator `key(a) > key(b)` may produce. */
  function SortDesc<T>(s: seq<T>, key: T -> real): (r: seq<T>)
    ensures multiset(r) == multiset(s)
    ensures SortedDesc(r, key)
    decreases |s|
  {
    if |s| == 0 then []
    else
      assert s == [s[0]] + s[1..];
      InsertKeepsSorted(s[0], SortDesc(s[1..], key), key);
      Insert(s[0], SortDesc(s[1..], key), key)
  }

  /** Sorting a sequence that is already ordered leaves it as it is. */
  lemma {:induction false} SortSortedIsIdentity<T>(s: seq<T>, key: T -> real)
    requires SortedDesc(s, key)
    ensures SortDesc(s, key) == s
    decreases |s|
  {
    if |s| > 0 {
      assert SortedDesc(s[1..], key);
      SortSortedIsIdentity(s[1..], key);
      if |s| > 1 {
        assert key(s[1]) <= key(s[0]);
      }
      assert [s[0]] + s[1..] == s;
    }
  }

  /** Three elements in non-increasing key order are sorted. */
  lemma SortedThree<T>(x: T, y: T, z: T, key: T -> real)
    requires key(x) >= key(y) >= key(z)
    ensures SortedDesc([x, y, z], key)
  {
  }

  /** Sorting `[a, y, a]` when `y`'s key is the larger one moves `y` to the
      front and keeps both copies of `a`. */
  lemma SortLargerFirst<T>(a: T, y: T, key: T -> real)
    requires key(y) > key(a)
    ensures SortDesc([a, y, a], key) == [y, a, a]
  {
    assert [a, y, a][1..] == [y, a];
    assert [y, a][1..] == [a];
    assert SortDesc([a], key) == [a];
    assert SortDesc([y, a], key) == [y, a];
    assert Insert(a, [a], key) == [a, a];
  }
}
