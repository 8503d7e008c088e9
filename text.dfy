/** Character-level helpers shared by the path handling of several modules. */
module Text {
  /** `s.split(c).pop()`: the last piece of `s` when cut at every `c`. */
  function AfterLast(s: string, c: char): string
    decreases |s|
  {
    if |s| == 0 then ""
    else if s[|s| - 1] == c then ""
    else AfterLast(s[..|s| - 1], c) + [s[|s| - 1]]
  }

  /** The last piece is the longest suffix free of the separator: a suffix, without `c`, preceded by `c` or by nothing. */
  lemma {:induction false} AfterLastIsLongestFreeSuffix(s: string, c: char)
    ensures var r := AfterLast(s, c);
      && |r| <= |s| && r == s[|s| - |r|..]
      && c !in r
      && (|r| < |s| ==> s[|s| - |r| - 1] == c)
    decreases |s|
  {
    if |s| > 0 && s[|s| - 1] != c {
      var init := s[..|s| - 1];
      AfterLastIsLongestFreeSuffix(init, c);
      var r0 := AfterLast(init, c);
      assert AfterLast(s, c) == r0 + [s[|s| - 1]];
      assert s[|s| - |r0| - 1..] == init[|init| - |r0|..] + [s[|s| - 1]];
    }
  }

  /** Whatever precedes the last separator is skipped. */
  lemma {:induction false} AfterLastSkips(head: string, c: char, tail: string)
    requires c !in tail
    ensures AfterLast(head + [c] + tail, c) == tail
    decreases |tail|
  {
    var s := head + [c] + tail;
    if tail != [] {
      var init := tail[..|tail| - 1];
      assert s[..|s| - 1] == head + [c] + init;
      AfterLastSkips(head, c, init);
      assert tail == init + [tail[|tail| - 1]];
    }
  }
}
