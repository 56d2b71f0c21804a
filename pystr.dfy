/** The Python string built-ins the models rely on, each for a single-character argument:
    `str.find`, `str.split` and `str.join`. */
module PyStr {

  /** Number of occurrences of `c` in `s`. */
  function Count(s: string, c: char): (k: nat)
    ensures k <= |s|
    ensures k == 0 <==> c !in s
  {
    if s == [] then 0
    else Count(s[..|s| - 1], c) + (if s[|s| - 1] == c then 1 else 0)
  }

  /** `s.find(c)`: the first index of `c` in `s`, or -1 when `c` does not occur. */
  function Find(s: string, c: char): (r: int)
    ensures r == -1 <==> c !in s
    ensures r != -1 ==> 0 <= r < |s| && s[r] == c && forall j | 0 <= j < r :: s[j] != c
  {
    if s == [] then -1
    else if s[0] == c then 0
    else
      var k := Find(s[1..], c);
      if k == -1 then -1 else k + 1
  }

  /** `s.split(c)`: the maximal pieces of `s` between occurrences of `c`. */
  function Split(s: string, c: char): (pieces: seq<string>)
    ensures |pieces| == Count(s, c) + 1
    ensures forall k | 0 <= k < |pieces| :: c !in pieces[k]
  {
    if s == [] then [""]
    else
      var init, last := s[..|s| - 1], s[|s| - 1];
      var p := Split(init, c);
      if last == c then p + [""]
      else p[..|p| - 1] + [p[|p| - 1] + [last]]
  }

  /** `sep.join(pieces)` for a one-character separator. */
  function Join(pieces: seq<string>, sep: char): (r: string)
    ensures pieces != [] ==> |pieces[0]| <= |r| && r[..|pieces[0]|] == pieces[0]
  {
    if pieces == [] then ""
    else if |pieces| == 1 then pieces[0]
    else Join(pieces[..|pieces| - 1], sep) + [sep] + pieces[|pieces| - 1]
  }

  /** Joining the pieces of a split with the same character gives back the string. */
  lemma {:induction false} JoinSplit(s: string, c: char)
    ensures Join(Split(s, c), c) == s
    decreases |s|
  {
    if s != [] {
      var init, last := s[..|s| - 1], s[|s| - 1];
      assert s == init + [last];
      var p := Split(init, c);
      JoinSplit(init, c);
      if last == c {
        assert (p + [""])[..|p|] == p;
      } else {
        var q := p[..|p| - 1] + [p[|p| - 1] + [last]];
        assert q[..|q| - 1] == p[..|p| - 1];
        if |p| == 1 {
          assert Join(p, c) == p[0];
        } else {
          assert Join(p, c) == Join(p[..|p| - 1], c) + [c] + p[|p| - 1];
        }
      }
    }
  }

  /** A string without the separator splits into itself. */
  lemma {:induction false} SplitWithout(t: string, c: char)
    requires c !in t
    ensures Split(t, c) == [t]
    decreases |t|
  {
    if t != [] {
      SplitWithout(t[..|t| - 1], c);
      assert t == t[..|t| - 1] + [t[|t| - 1]];
    }
  }

  /** Appending a separator and a separator-free tail adds exactly that tail as a piece. */
  lemma {:induction false} SplitAppend(s: string, c: char, t: string)
    requires c !in t
    ensures Split(s + [c] + t, c) == Split(s, c) + [t]
    decreases |t|
  {
    var u := s + [c] + t;
    if t == [] {
      assert u[..|u| - 1] == s;
    } else {
      var t0 := t[..|t| - 1];
      assert u[..|u| - 1] == s + [c] + t0;
      assert t0 + [t[|t| - 1]] == t;
      SplitAppend(s, c, t0);
    }
  }

  /** Splitting a join of separator-free pieces gives back the pieces. */
  lemma {:induction false} SplitJoin(pieces: seq<string>, c: char)
    requires pieces != []
    requires forall k | 0 <= k < |pieces| :: c !in pieces[k]
    ensures Split(Join(pieces, c), c) == pieces
    decreases |pieces|
  {
    if |pieces| == 1 {
      SplitWithout(pieces[0], c);
    } else {
      var init := pieces[..|pieces| - 1];
      SplitJoin(init, c);
      SplitAppend(Join(init, c), c, pieces[|pieces| - 1]);
      assert init + [pieces[|pieces| - 1]] == pieces;
    }
  }
}
