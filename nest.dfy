/** The two hand-written loops of `Nest.py`: `findChIndex` and `splitMyString`, version 1.
    Their version-2 redefinitions, which shadow them, are the built-ins `str.find` and
    `str.split` (`PyStr.Find`, `PyStr.Split`). */
module Nest {
  import PyStr

  /** What the version-1 loop of `findChIndex` computes: the LAST index of `c`, or -1. */
  function LastIndex(s: string, c: char): (r: int)
    ensures r == -1 <==> c !in s
    ensures r != -1 ==> 0 <= r < |s| && s[r] == c && forall j | r < j < |s| :: s[j] != c
  {
    if s == [] then -1
    else if s[|s| - 1] == c then |s| - 1
    else LastIndex(s[..|s| - 1], c)
  }

  /** `findChIndex`, version 1: the loop keeps overwriting `found_index` and never breaks. */
  method FindChIndexLoop(c: char, s: string) returns (foundIndex: int)
    ensures foundIndex == LastIndex(s, c)
  {
    foundIndex := -1;
    for i := 0 to |s|
      invariant foundIndex == LastIndex(s[..i], c)
    {
      assert s[..i + 1][..i] == s[..i];
      if s[i] == c {
        foundIndex := i;
      }
    }
    assert s[..|s|] == s;
  }

  /** Version 1 answers the first index exactly when `c` occurs at most once. */
  lemma {:induction false} LastIndexIsFind(s: string, c: char)
    ensures LastIndex(s, c) == PyStr.Find(s, c) <==> PyStr.Count(s, c) <= 1
    decreases |s|
  {
    if s != [] {
      var init := s[..|s| - 1];
      LastIndexIsFind(init, c);
      FindOfPrefix(s, c);
      if s[|s| - 1] == c && c in init {
        assert PyStr.Count(init, c) >= 1;
      }
    }
  }

  /** `str.find` on a string is `str.find` on its prefix whenever the prefix has a match. */
  lemma FindOfPrefix(s: string, c: char)
    requires s != []
    ensures c in s[..|s| - 1] ==> PyStr.Find(s, c) == PyStr.Find(s[..|s| - 1], c)
    ensures c !in s[..|s| - 1] && s[|s| - 1] == c ==> PyStr.Find(s, c) == |s| - 1
  {
    if c in s[..|s| - 1] {
      FindInPrefix(s, c);
    } else if s[|s| - 1] == c {
      FindAtEnd(s, c);
    }
  }

  lemma FindInPrefix(s: string, c: char)
    requires s != [] && c in s[..|s| - 1]
    ensures PyStr.Find(s, c) == PyStr.Find(s[..|s| - 1], c)
  {
    var init := s[..|s| - 1];
    var g := PyStr.Find(init, c);
    assert s[g] == c;
    assert forall j | 0 <= j < g :: s[j] == init[j];
    FindIsFirst(s, c, g);
  }

  lemma FindAtEnd(s: string, c: char)
    requires s != [] && c !in s[..|s| - 1] && s[|s| - 1] == c
    ensures PyStr.Find(s, c) == |s| - 1
  {
    var init := s[..|s| - 1];
    assert forall j | 0 <= j < |s| - 1 :: s[j] == init[j];
    FindIsFirst(s, c, |s| - 1);
  }

  /** An index holding `c` with no `c` before it is the one `str.find` returns. */
  lemma FindIsFirst(s: string, c: char, k: int)
    requires 0 <= k < |s| && s[k] == c
    requires forall j | 0 <= j < k :: s[j] != c
    ensures PyStr.Find(s, c) == k
  {
    assert PyStr.Find(s, c) != -1;
  }

  /** The input where the loop and its docstring part: `findChIndex('a', 'abbacfa')`
      gives 6 from the loop of version 1 and 0 from `str.find`. */
  lemma FindChIndexLoopLastNotFirst()
    ensures LastIndex("abbacfa", 'a') == 6
    ensures PyStr.Find("abbacfa", 'a') == 0
  {
    var s := "abbacfa";
    assert s[6] == 'a';
  }

  /** `splitMyString`, version 1: collects characters into `sub_str` and closes a piece at
      every occurrence of `c`; the result equals `str.split(c)`. */
  method SplitMyStringLoop(c: char, s: string) returns (returnList: seq<string>)
    ensures returnList == PyStr.Split(s, c)
    ensures |returnList| == PyStr.Count(s, c) + 1
    ensures PyStr.Join(returnList, c) == s
  {
    returnList := [];
    var subStr := "";
    for i := 0 to |s|
      invariant returnList + [subStr] == PyStr.Split(s[..i], c)
    {
      assert s[..i + 1][..i] == s[..i];
      var p := returnList + [subStr];
      if s[i] == c {
        returnList := returnList + [subStr];
        subStr := "";
      } else {
        assert p[..|p| - 1] == returnList;
        subStr := subStr + [s[i]];
      }
    }
    returnList := returnList + [subStr];
    assert s[..|s|] == s;
    PyStr.JoinSplit(s, c);
  }

  /** The docstring example `splitMyString('*', 'aaa*sss*fff')`. */
  lemma SplitExampleStars()
    ensures PyStr.Split("aaa*sss*fff", '*') == ["aaa", "sss", "fff"]
  {
    SplitStarsPrefix();
    PyStr.SplitAppend("aaa*sss", '*', "fff");
    assert "aaa*sss" + ['*'] + "fff" == "aaa*sss*fff";
  }

  lemma SplitStarsPrefix()
    ensures PyStr.Split("aaa*sss", '*') == ["aaa", "sss"]
  {
    PyStr.SplitWithout("aaa", '*');
    PyStr.SplitAppend("aaa", '*', "sss");
    assert "aaa" + ['*'] + "sss" == "aaa*sss";
  }

  /** The docstring example `splitMyString('a', 'abbacfa')`: empty pieces at both ends. */
  lemma SplitExampleEnds()
    ensures PyStr.Split("abbacfa", 'a') == ["", "bb", "cf", ""]
  {
    SplitEndsPrefix();
    PyStr.SplitAppend("abbacf", 'a', "");
    assert "abbacf" + ['a'] + "" == "abbacfa";
  }

  lemma SplitEndsPrefix()
    ensures PyStr.Split("abbacf", 'a') == ["", "bb", "cf"]
  {
    SplitEndsFirst();
    PyStr.SplitAppend("abb", 'a', "cf");
    assert "abb" + ['a'] + "cf" == "abbacf";
  }

  lemma SplitEndsFirst()
    ensures PyStr.Split("abb", 'a') == ["", "bb"]
  {
    PyStr.SplitAppend("", 'a', "bb");
    assert "" + ['a'] + "bb" == "abb";
  }
}
