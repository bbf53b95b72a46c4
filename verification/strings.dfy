/** The Python string operations the scraper relies on, over `seq<char>`. */
module Strings {

  /** `sub` occurs in `s` starting at index `i`. */
  predicate OccursAt(sub: string, s: string, i: nat) {
    i + |sub| <= |s| && s[i..i + |sub|] == sub
  }

  /** Python's `sub in s`, equivalently `s.find(sub) != -1`. */
  predicate IsSubstring(sub: string, s: string) {
    exists i: nat :: i <= |s| && OccursAt(sub, s, i)
  }

  /** `parts` joined with `sep` between consecutive elements: Python's `sep.join(parts)`. */
  function Join(parts: seq<string>, sep: char): string
    requires |parts| >= 1
  {
    if |parts| == 1 then parts[0]
    else Join(parts[..|parts| - 1], sep) + [sep] + parts[|parts| - 1]
  }

  /** Python's `s.split(sep)` for a one-character separator: the pieces between
      separators, empty pieces included, so there is always at least one. */
  function Split(s: string, sep: char): (r: seq<string>)
    ensures |r| >= 1
    ensures forall i :: 0 <= i < |r| ==> sep !in r[i]
  {
    if |s| == 0 then [""]
    else
      var init := Split(s[..|s| - 1], sep);
      var last := s[|s| - 1];
      if last == sep then init + [""]
      else init[..|init| - 1] + [init[|init| - 1] + [last]]
  }

  /** Joining the pieces of a split gives back the string. */
  lemma {:induction false} SplitJoin(s: string, sep: char)
    ensures Join(Split(s, sep), sep) == s
  {
    if |s| > 0 {
      var init := Split(s[..|s| - 1], sep);
      SplitJoin(s[..|s| - 1], sep);
      var k := |init| - 1;
      if s[|s| - 1] != sep && k > 0 {
        var r := init[..k] + [init[k] + [s[|s| - 1]]];
        assert r[..|r| - 1] == init[..k];
      }
    }
  }

  /** Splitting a string with one more character: a separator opens a new empty
      piece, any other character extends the last piece. */
  lemma SplitSnoc(t: string, c: char, sep: char)
    ensures var r := Split(t, sep);
            Split(t + [c], sep) == if c == sep then r + [""] else r[..|r| - 1] + [r[|r| - 1] + [c]]
  {
    assert (t + [c])[..|t|] == t;
  }

  /** Joining pieces whose last one is non-empty ends in that piece's last character. */
  lemma JoinSnoc(parts: seq<string>, sep: char)
    requires |parts| >= 1 && parts[|parts| - 1] != ""
    ensures var n := |parts|;
            var last := parts[n - 1];
            Join(parts, sep) == Join(parts[..n - 1] + [last[..|last| - 1]], sep) + [last[|last| - 1]]
  {
    var n := |parts|;
    var last := parts[n - 1];
    var shorter := parts[..n - 1] + [last[..|last| - 1]];
    assert last == last[..|last| - 1] + [last[|last| - 1]];
    if n > 1 {
      assert shorter[..n - 1] == parts[..n - 1];
    }
  }

  /** Splitting a join of separator-free pieces gives back the pieces: with
      `SplitJoin`, `Split` and `Join` are inverse bijections. */
  lemma {:induction false} JoinSplit(parts: seq<string>, sep: char)
    requires |parts| >= 1
    requires forall i :: 0 <= i < |parts| ==> sep !in parts[i]
    ensures Split(Join(parts, sep), sep) == parts
    decreases |Join(parts, sep)|
  {
    var n := |parts|;
    var init := parts[..n - 1];
    var last := parts[n - 1];
    assert parts == init + [last];
    if last == "" {
      if n > 1 {
        assert Join(parts, sep) == Join(init, sep) + [sep];
        SplitSnoc(Join(init, sep), sep, sep);
        JoinSplit(init, sep);
      }
    } else {
      var c := last[|last| - 1];
      var shorter := init + [last[..|last| - 1]];
      assert shorter[..n - 1] == init;
      assert shorter[n - 1] + [c] == last;
      assert c != sep;
      JoinSnoc(parts, sep);
      JoinSplit(shorter, sep);
      SplitSnoc(Join(shorter, sep), c, sep);
    }
  }

  /** The last piece of a split is the longest separator-free suffix: it ends the
      string, and it is the whole string or is preceded by a separator. */
  lemma {:induction false} SplitLast(s: string, sep: char)
    ensures var r := Split(s, sep);
            var last := r[|r| - 1];
            && |last| <= |s|
            && last == s[|s| - |last|..]
            && (|last| == |s| || s[|s| - |last| - 1] == sep)
  {
    if |s| > 0 {
      SplitLast(s[..|s| - 1], sep);
    }
  }

  /** Python's `s.replace(c, "")`: `s` with every occurrence of `c` deleted. */
  function Strip(s: string, c: char): (r: string)
    ensures c !in r
    ensures multiset(r) == multiset(s)[c := 0]
  {
    if |s| == 0 then ""
    else
      assert s == [s[0]] + s[1..];
      (if s[0] == c then "" else [s[0]]) + Strip(s[1..], c)
  }

  /** Deleting from a concatenation deletes from each part: the characters that
      remain keep their order. */
  lemma {:induction false} StripAppend(a: string, b: string, c: char)
    ensures Strip(a + b, c) == Strip(a, c) + Strip(b, c)
    decreases |a|
  {
    if |a| == 0 {
      assert a + b == b;
    } else {
      assert (a + b)[0] == a[0] && (a + b)[1..] == a[1..] + b;
      StripAppend(a[1..], b, c);
    }
  }

  /** A single character is deleted when it is `c` and kept otherwise. */
  lemma StripChar(x: char, c: char)
    ensures Strip([x], c) == if x == c then "" else [x]
  {
    assert [x][1..] == "";
  }

  /** Python's `s.split(c, 1)[0]`: the part of `s` before the first `c`. */
  function CutAt(s: string, c: char): (r: string)
    ensures c !in r
    ensures r <= s
    ensures r == s || s[|r|] == c
  {
    if |s| == 0 || s[0] == c then ""
    else [s[0]] + CutAt(s[1..], c)
  }

  /** Deleting a character the string does not hold changes nothing. */
  lemma {:induction false} StripAbsent(s: string, c: char)
    requires c !in s
    ensures Strip(s, c) == s
  {
    if |s| > 0 {
      StripAbsent(s[1..], c);
    }
  }

  /** Cutting at a character the string does not hold changes nothing. */
  lemma {:induction false} CutAtAbsent(s: string, c: char)
    requires c !in s
    ensures CutAt(s, c) == s
  {
    if |s| > 0 {
      CutAtAbsent(s[1..], c);
    }
  }
}
