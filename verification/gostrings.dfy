/** The pieces of Go's `strings` package the matcher uses: `ToLower`,
    `Contains` and `Split` with a one-character separator. */
module GoStrings {

  /** Lower-cases one character; only ASCII letters change. */
  function LowerChar(c: char): char
  {
    if 'A' <= c <= 'Z' then (c as int + 32) as char else c
  }

  /** `strings.ToLower`, restricted to ASCII: same length, no upper-case ASCII
      letter left, and every other character kept. */
  function ToLower(s: string): (r: string)
    ensures |r| == |s|
    ensures forall i :: 0 <= i < |r| ==> !('A' <= r[i] <= 'Z')
    ensures forall i :: 0 <= i < |r| ==> r[i] == LowerChar(s[i])
    ensures forall i :: 0 <= i < |s| && !('A' <= s[i] <= 'Z') ==> r[i] == s[i]
  {
    seq(|s|, i requires 0 <= i < |s| => LowerChar(s[i]))
  }

  /** `sub` occurs in `s` starting at offset `i`. */
  ghost predicate OccursAt(sub: string, s: string, i: int)
  {
    0 <= i && i + |sub| <= |s| && s[i..i + |sub|] == sub
  }

  /** `sub` is a substring of `s`. */
  ghost predicate IsSubstring(sub: string, s: string)
  {
    exists i :: OccursAt(sub, s, i)
  }

  /** `strings.Contains(s, sub)`: a left-to-right search for `sub` in `s`. */
  function Contains(s: string, sub: string): (b: bool)
    ensures b <==> IsSubstring(sub, s)
    decreases |s|
  {
    if |sub| > |s| then
      assert forall i :: !OccursAt(sub, s, i);
      false
    else if s[..|sub|] == sub then
      assert OccursAt(sub, s, 0);
      true
    else
      var rest := Contains(s[1..], sub);
      assert IsSubstring(sub, s[1..]) ==> IsSubstring(sub, s) by {
        if IsSubstring(sub, s[1..]) {
          var i :| OccursAt(sub, s[1..], i);
          assert s[i + 1..i + 1 + |sub|] == s[1..][i..i + |sub|];
          assert OccursAt(sub, s, i + 1);
        }
      }
      assert IsSubstring(sub, s) ==> IsSubstring(sub, s[1..]) by {
        if IsSubstring(sub, s) {
          var i :| OccursAt(sub, s, i);
          assert i != 0;
          assert s[1..][i - 1..i - 1 + |sub|] == s[i..i + |sub|];
          assert OccursAt(sub, s[1..], i - 1);
        }
      }
      rest
  }

  /** `strings.Split(s, string(sep))`: the pieces of `s` between occurrences
      of `sep`. There is always at least one piece, so `Split("", sep)` is
      `[""]`, and no piece contains `sep`. */
  function Split(s: string, sep: char): (r: seq<string>)
    ensures |r| >= 1
    ensures forall i :: 0 <= i < |r| ==> sep !in r[i]
    decreases |s|
  {
    if |s| == 0 then [""]
    else
      var rest := Split(s[1..], sep);
      if s[0] == sep then [""] + rest
      else
        assert forall i :: 1 <= i < |rest| ==> sep !in rest[i];
        [[s[0]] + rest[0]] + rest[1..]
  }

  /** `strings.Join(parts, string(sep))`. */
  function Join(parts: seq<string>, sep: char): string
    requires |parts| >= 1
    decreases |parts|
  {
    if |parts| == 1 then parts[0] else parts[0] + [sep] + Join(parts[1..], sep)
  }

  /** Joining the pieces of a split with the same separator gives back the string. */
  lemma {:induction false} JoinSplit(s: string, sep: char)
    ensures Join(Split(s, sep), sep) == s
    decreases |s|
  {
    if |s| > 0 {
      JoinSplit(s[1..], sep);
      var rest := Split(s[1..], sep);
      if s[0] == sep {
        assert ([""] + rest)[1..] == rest;
      } else {
        var r := [[s[0]] + rest[0]] + rest[1..];
        assert r[1..] == rest[1..];
        if |rest| > 1 {
          assert Join(rest, sep) == rest[0] + [sep] + Join(rest[1..], sep);
        }
      }
    }
  }

  /** Splitting a join of separator-free pieces gives back the pieces. */
  lemma {:induction false} SplitJoin(parts: seq<string>, sep: char)
    requires |parts| >= 1
    requires forall i :: 0 <= i < |parts| ==> sep !in parts[i]
    ensures Split(Join(parts, sep), sep) == parts
    decreases |parts|, |parts[0]|
  {
    var p := parts[0];
    if |p| == 0 {
      if |parts| > 1 {
        SplitJoin(parts[1..], sep);
        var j := Join(parts, sep);
        assert j == [sep] + Join(parts[1..], sep);
        assert j[1..] == Join(parts[1..], sep);
        assert [""] + parts[1..] == parts;
      }
    } else {
      var parts' := [p[1..]] + parts[1..];
      assert parts'[1..] == parts[1..];
      assert forall i :: 0 <= i < |parts'| ==> sep !in parts'[i] by {
        assert forall c :: c in p[1..] ==> c in p;
      }
      SplitJoin(parts', sep);
      var j := Join(parts, sep);
      if |parts| == 1 {
        assert j == p;
        assert Join(parts', sep) == p[1..];
      } else {
        assert Join(parts', sep) == p[1..] + [sep] + Join(parts[1..], sep);
        assert j == [p[0]] + Join(parts', sep);
      }
      assert j[0] == p[0] && j[1..] == Join(parts', sep);
      assert p[0] != sep by { assert p[0] in p; }
      assert [p[0]] + p[1..] == p;
    }
  }

  /** The last piece of a split, e.g. a path's base name: the longest suffix
      of `s` without `sep`, so it is either all of `s` or preceded by `sep`. */
  function LastSegment(s: string, sep: char): (r: string)
    ensures |r| <= |s| && r == s[|s| - |r|..]
    ensures sep !in r
    ensures |r| == |s| || s[|s| - |r| - 1] == sep
  {
    LastSegmentIsSuffix(s, sep);
    var parts := Split(s, sep);
    parts[|parts| - 1]
  }

  /** The last piece of `Split` is the separator-free tail of `s`, and it is
      all of `s` exactly when there is only one piece. */
  lemma {:induction false} LastSegmentIsSuffix(s: string, sep: char)
    ensures var parts := Split(s, sep);
      var r := parts[|parts| - 1];
      && |r| <= |s| && r == s[|s| - |r|..]
      && (|parts| == 1 <==> |r| == |s|)
      && (|r| == |s| || s[|s| - |r| - 1] == sep)
    decreases |s|
  {
    if |s| > 0 {
      LastSegmentIsSuffix(s[1..], sep);
      var rest := Split(s[1..], sep);
      var r := rest[|rest| - 1];
      assert s[1..][|s| - 1 - |r|..] == s[|s| - |r|..];
      if s[0] == sep {
        var parts := [""] + rest;
        assert parts == Split(s, sep);
        assert parts[|parts| - 1] == r;
        if |r| < |s| - 1 {
          assert s[1..][|s| - 1 - |r| - 1] == s[|s| - |r| - 1];
        }
      } else if |rest| == 1 {
        assert Split(s, sep) == [[s[0]] + r];
        assert [s[0]] + s[1..] == s;
      } else {
        var parts := [[s[0]] + rest[0]] + rest[1..];
        assert parts == Split(s, sep);
        assert parts[|parts| - 1] == r;
        assert s[1..][|s| - 1 - |r| - 1] == s[|s| - |r| - 1];
      }
    }
  }
}
