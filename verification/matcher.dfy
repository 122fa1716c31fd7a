/** Pattern matching (`getBestMatch`, `stringContainsAllElemsInArr`): which
    tracked directory a typed pattern resolves to. */
module Matcher {
  import opened Seqs
  import opened GoStrings
  import opened Store

  /** `os.PathSeparator`, taken to be `/`, the character candidate paths are split on. */
  const PathSeparator: char := '/'

  /** `stringContainsAllElemsInArr`: every element of `searchArr` occurs in
      `searchIn`, both lower-cased; the search stops at the first miss. */
  function StringContainsAll(searchIn: string, searchArr: seq<string>): (b: bool)
    ensures b <==> forall i :: 0 <= i < |searchArr| ==> IsSubstring(ToLower(searchArr[i]), ToLower(searchIn))
    decreases |searchArr|
  {
    if |searchArr| == 0 then true
    else if !Contains(ToLower(searchIn), ToLower(searchArr[0])) then false
    else
      assert forall i :: 1 <= i < |searchArr| ==> searchArr[1..][i - 1] == searchArr[i];
      StringContainsAll(searchIn, searchArr[1..])
  }

  /** The pattern's words: split on single spaces, so empty words are kept. */
  function Tokens(pattern: string): seq<string>
  {
    Split(pattern, ' ')
  }

  /** What must occur in the base name: the last word, split on the separator, last piece. */
  function PatternTail(pattern: string): string
  {
    var tokens := Tokens(pattern);
    LastSegment(tokens[|tokens| - 1], PathSeparator)
  }

  /** The candidate test of `getBestMatch`, on one entry's path. */
  predicate IsCandidate(pattern: string, path: string)
  {
    && StringContainsAll(path, Tokens(pattern))
    && Contains(ToLower(LastSegment(path, PathSeparator)), ToLower(PatternTail(pattern)))
  }

  function CandidateTest(pattern: string): Entry -> bool
  {
    (e: Entry) => IsCandidate(pattern, e.path)
  }

  /** A path is a candidate exactly when every space-separated word of the
      pattern occurs in it and the separator-free tail of the last word occurs
      in the path's separator-free tail (its base name), all ignoring ASCII
      case; the words are the pattern's pieces between single spaces. */
  lemma CandidateMeaning(pattern: string, path: string)
    ensures var tokens := Tokens(pattern);
      && Join(tokens, ' ') == pattern
      && (IsCandidate(pattern, path) <==>
          && (forall i :: 0 <= i < |tokens| ==> IsSubstring(ToLower(tokens[i]), ToLower(path)))
          && IsSubstring(ToLower(PatternTail(pattern)), ToLower(LastSegment(path, PathSeparator))))
  {
    JoinSplit(pattern, ' ');
  }

  /** A pattern that ends in a space has an empty last word, and an empty
      word occurs in every base name, so only the all-words test is left. */
  lemma TrailingSpaceIgnoresBaseName(pattern: string, path: string)
    requires |pattern| > 0 && pattern[|pattern| - 1] == ' '
    ensures IsCandidate(pattern, path) <==> StringContainsAll(path, Tokens(pattern))
  {
    var last := LastSegment(pattern, ' ');
    assert |last| == 0;
    assert ToLower(PatternTail(pattern)) == [];
    assert OccursAt([], ToLower(LastSegment(path, PathSeparator)), 0);
  }

  /** The empty pattern accepts every path. */
  lemma EmptyPatternAcceptsAll(path: string)
    ensures IsCandidate("", path)
  {
    assert Tokens("") == [""];
    assert OccursAt([], ToLower(path), 0);
    assert OccursAt([], ToLower(LastSegment(path, PathSeparator)), 0);
  }

  /** `i` is the first entry of `data` that passes the candidate test. */
  ghost predicate IsFirstCandidate(pattern: string, data: seq<Entry>, i: int)
  {
    && 0 <= i < |data| && IsCandidate(pattern, data[i].path)
    && forall j :: 0 <= j < i ==> !IsCandidate(pattern, data[j].path)
  }

  /** The answer of `getBestMatch` and the store as it leaves it. */
  datatype Match = Match(target: string, store: seq<Entry>)

  /** `getBestMatch`: collect the candidates in the store's current order, then
      sort the store (which leaves the collected candidates as they are). The
      answer is the first candidate's path, or the pattern made absolute when
      there is none; the store comes back sorted by score. */
  function GetBestMatch(pattern: string, data: seq<Entry>, now: Int64, env: Env): (m: Match)
    ensures forall i :: IsFirstCandidate(pattern, data, i) ==> m.target == data[i].path
    ensures (forall i :: 0 <= i < |data| ==> !IsCandidate(pattern, data[i].path)) ==> m.target == env.abs(pattern)
    ensures multiset(m.store) == multiset(data) && SortedDesc(m.store, ScoreKey(now, env))
  {
    var candidates := Filter(data, CandidateTest(pattern));
    var sorted := SortData(data, now, env);
    assert forall i :: IsFirstCandidate(pattern, data, i) ==> |candidates| > 0 && candidates[0] == data[i] by {
      forall i | IsFirstCandidate(pattern, data, i) ensures |candidates| > 0 && candidates[0] == data[i] {
        FilterFirst(data, i, CandidateTest(pattern));
      }
    }
    if |candidates| == 0 then Match(env.abs(pattern), sorted) else Match(candidates[0].path, sorted)
  }

  /** Over a store sorted by score, the first candidate is a best-scoring one. */
  lemma SortedMatchIsTopScored(pattern: string, d: seq<Entry>, now: Int64, env: Env)
    requires SortedDesc(d, ScoreKey(now, env))
    ensures var m := GetBestMatch(pattern, d, now, env);
      forall i :: 0 <= i < |d| && IsCandidate(pattern, d[i].path) ==>
        exists e :: e in d && e.path == m.target && IsCandidate(pattern, e.path) && Score(e, now, env) >= Score(d[i], now, env)
  {
    var m := GetBestMatch(pattern, d, now, env);
    var c := Filter(d, CandidateTest(pattern));
    FilterKeepsSorted(d, CandidateTest(pattern), ScoreKey(now, env));
    forall i | 0 <= i < |d| && IsCandidate(pattern, d[i].path)
      ensures exists e :: e in d && e.path == m.target && IsCandidate(pattern, e.path) && Score(e, now, env) >= Score(d[i], now, env)
    {
      assert d[i] in c;
      var k :| 0 <= k < |c| && c[k] == d[i];
      assert m.target == c[0].path;
      assert ScoreKey(now, env)(c[0]) >= ScoreKey(now, env)(c[k]);
      assert c[0] in d;
    }
  }

  /** When the store was normalized the intended way, and so is sorted by
      score, the first candidate is also a best-scoring one. */
  lemma IntendedMatchIsTopScored(pattern: string, data: seq<Entry>, now: Int64, env: Env)
    ensures var d := NormalizeIntended(data, now, env);
      var m := GetBestMatch(pattern, d, now, env);
      forall i :: 0 <= i < |d| && IsCandidate(pattern, d[i].path) ==>
        exists e :: e in d && e.path == m.target && IsCandidate(pattern, e.path) && Score(e, now, env) >= Score(d[i], now, env)
  {
    SortedMatchIsTopScored(pattern, NormalizeIntended(data, now, env), now, env);
  }
}
