/** Concrete patterns from the command's own usage text ("wd some subDir"
    ensures the matched path also contains "some"), worked through the matcher. */
module MatcherCases {
  import opened GoStrings
  import opened Store
  import opened Matcher

  /** Lower-casing the literals below, each on its own: worked out inside a
      larger proof, the character-by-character evaluation crowds out the rest. */
  lemma LowerSubDir() ensures ToLower("subDir") == "subdir" {}
  lemma LowerSome() ensures ToLower("some") == "some" {}
  lemma LowerSomePath() ensures ToLower("/x/some/subDir") == "/x/some/subdir" {}
  lemma LowerSubDirPath() ensures ToLower("/x/subDir") == "/x/subdir" {}
  lemma LowerBar() ensures ToLower("bar") == "bar" {}
  lemma LowerBarstool() ensures ToLower("barstool") == "barstool" {}
  lemma LowerBarstoolPath() ensures ToLower("/foo/barstool") == "/foo/barstool" {}

  /** "some subDir" has the words "some" and "subDir". */
  lemma SomeSubDirWords()
    ensures Tokens("some subDir") == ["some", "subDir"]
  {
    assert Join(["some", "subDir"], ' ') == "some subDir";
    SplitJoin(["some", "subDir"], ' ');
  }

  /** "subDir" is what the base name must contain. */
  lemma SomeSubDirTail()
    ensures PatternTail("some subDir") == "subDir"
  {
    SomeSubDirWords();
    SplitJoin(["subDir"], '/');
  }

  lemma SomeSubDirBase()
    ensures LastSegment("/x/some/subDir", '/') == "subDir"
  {
    assert Join(["", "x", "some", "subDir"], '/') == "/x/some/subDir";
    SplitJoin(["", "x", "some", "subDir"], '/');
  }

  lemma SomeSubDirHasWords()
    ensures StringContainsAll("/x/some/subDir", ["some", "subDir"])
  {
    LowerSubDir();
    LowerSome();
    LowerSomePath();
    assert OccursAt("some", "/x/some/subdir", 3);
    assert OccursAt("subdir", "/x/some/subdir", 8);
  }

  lemma SomeSubDirLowerBase()
    ensures ToLower(LastSegment("/x/some/subDir", '/')) == "subdir"
  {
    SomeSubDirBase();
    LowerSubDir();
  }

  lemma SomeSubDirLowerTail()
    ensures ToLower(PatternTail("some subDir")) == "subdir"
  {
    SomeSubDirTail();
    LowerSubDir();
  }

  lemma SomeSubDirBaseHasTail()
    ensures Contains(ToLower(LastSegment("/x/some/subDir", '/')), ToLower(PatternTail("some subDir")))
  {
    SomeSubDirLowerBase(); SomeSubDirLowerTail();
    assert OccursAt("subdir", "subdir", 0);
  }

  /** "/x/some/subDir" contains both words and its base name contains "subDir". */
  lemma SomeSubDirMatches()
    ensures IsCandidate("some subDir", "/x/some/subDir")
  {
    SomeSubDirWords();
    SomeSubDirHasWords();
    SomeSubDirBaseHasTail();
  }

  lemma NoSomeInSubDir()
    ensures !Contains("/x/subdir", "some")
  {
    var s := "/x/subdir";
    forall i | 0 <= i <= 5 ensures !OccursAt("some", s, i) {
      assert s[i..i + 4][0] == s[i] && s[i..i + 4][1] == s[i + 1];
      assert s[i] != 's' || s[i + 1] != 'o';
    }
  }

  /** "/x/subDir" lacks the word "some", whatever its base name. */
  lemma SubDirAloneFails()
    ensures !IsCandidate("some subDir", "/x/subDir")
  {
    SomeSubDirWords();
    LowerSome();
    LowerSubDirPath();
    NoSomeInSubDir();
  }

  /** `wd some subDir` over the two paths picks "/x/some/subDir", in either order. */
  lemma SomeSubDirCase(now: Int64, env: Env)
    ensures var a := Entry("/x/some/subDir", 1, now);
      var b := Entry("/x/subDir", 1, now);
      && GetBestMatch("some subDir", [a, b], now, env).target == "/x/some/subDir"
      && GetBestMatch("some subDir", [b, a], now, env).target == "/x/some/subDir"
  {
    var a := Entry("/x/some/subDir", 1, now);
    var b := Entry("/x/subDir", 1, now);
    SomeSubDirMatches();
    SubDirAloneFails();
    assert IsFirstCandidate("some subDir", [a, b], 0);
    assert IsFirstCandidate("some subDir", [b, a], 1);
  }

  lemma BarWords()
    ensures Tokens("bar") == ["bar"]
  {
    SplitJoin(["bar"], ' ');
  }

  lemma BarTail()
    ensures PatternTail("bar") == "bar"
  {
    BarWords();
    SplitJoin(["bar"], '/');
  }

  lemma BarstoolBase()
    ensures LastSegment("/foo/barstool", '/') == "barstool"
  {
    assert Join(["", "foo", "barstool"], '/') == "/foo/barstool";
    SplitJoin(["", "foo", "barstool"], '/');
  }

  lemma BarstoolHasWord()
    ensures StringContainsAll("/foo/barstool", ["bar"])
  {
    LowerBar();
    LowerBarstoolPath();
    assert OccursAt("bar", "/foo/barstool", 5);
  }

  lemma BarstoolLowerBase()
    ensures ToLower(LastSegment("/foo/barstool", '/')) == "barstool"
  {
    BarstoolBase();
    LowerBarstool();
  }

  lemma BarLowerTail()
    ensures ToLower(PatternTail("bar")) == "bar"
  {
    BarTail();
    LowerBar();
  }

  lemma BarstoolBaseHasTail()
    ensures Contains(ToLower(LastSegment("/foo/barstool", '/')), ToLower(PatternTail("bar")))
  {
    BarstoolLowerBase(); BarLowerTail();
    assert OccursAt("bar", "barstool", 0);
  }

  /** `wd bar` accepts "/foo/barstool": its base name contains "bar". */
  lemma BarstoolMatches()
    ensures IsCandidate("bar", "/foo/barstool")
  {
    BarWords();
    BarstoolHasWord();
    BarstoolBaseHasTail();
  }

  /** When two entries both match, the one met first in the store wins, even
      if the other scores higher: the scores play no part in the choice. */
  lemma ScanOrderDecides(now: Int64, env: Env, bar: Entry)
    ensures GetBestMatch("bar", [Entry("/foo/barstool", 1, now), bar], now, env).target == "/foo/barstool"
  {
    BarstoolMatches();
    assert IsFirstCandidate("bar", [Entry("/foo/barstool", 1, now), bar], 0);
  }

  /** The empty pattern takes the first entry of the store, whatever the scores. */
  lemma EmptyPatternCase(now: Int64, env: Env, a: Entry, b: Entry)
    ensures GetBestMatch("", [a, b], now, env).target == a.path
  {
    EmptyPatternAcceptsAll(a.path);
    assert IsFirstCandidate("", [a, b], 0);
  }

  /** With nothing stored, the pattern itself, made absolute, is the answer. */
  lemma EmptyStoreCase(pattern: string, now: Int64, env: Env)
    ensures GetBestMatch(pattern, [], now, env).target == env.abs(pattern)
  {
  }
}
