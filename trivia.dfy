/** `even_evens` of `Trivia.py`: the even values found at the even indices of a list. */
module Trivia {

  /** `t[::2]`: the elements at indices 0, 2, 4, ... */
  function EveryOther(t: seq<int>): (r: seq<int>)
    ensures |r| == (|t| + 1) / 2
    ensures forall k | 0 <= k < |r| :: r[k] == t[2 * k]
  {
    if |t| <= 1 then t else [t[0]] + EveryOther(t[2..])
  }

  /** The `if x % 2 == 0` filter of the comprehension. */
  function KeepEven(t: seq<int>): (r: seq<int>)
    ensures |r| <= |t|
    ensures forall k | 0 <= k < |r| :: r[k] % 2 == 0
    ensures forall x | x in t && x % 2 == 0 :: x in r
    ensures forall x | x in r :: x in t
  {
    if t == [] then []
    else (if t[0] % 2 == 0 then [t[0]] else []) + KeepEven(t[1..])
  }

  /** `even_evens(some_list)`. */
  function EvenEvens(someList: seq<int>): (r: seq<int>)
    ensures someList == [] ==> r == []
    ensures |r| <= (|someList| + 1) / 2
    ensures forall k | 0 <= k < |r| :: r[k] % 2 == 0
  {
    KeepEven(EveryOther(someList))
  }

  /** The indices `j >= i` with `j - i` even whose element is even, in increasing order:
      where the kept elements come from. */
  function Positions(s: seq<int>, i: nat): (p: seq<nat>)
    ensures forall k | 0 <= k < |p| :: i <= p[k] < |s| && (p[k] - i) % 2 == 0 && s[p[k]] % 2 == 0
    ensures forall k, l | 0 <= k < l < |p| :: p[k] < p[l]
    decreases |s| - i
  {
    if i >= |s| then []
    else (if s[i] % 2 == 0 then [i] else []) + Positions(s, i + 2)
  }

  /** Every even element at an index `j >= i` with `j - i` even is listed. */
  lemma {:induction false} PositionsComplete(s: seq<int>, i: nat, j: nat)
    requires i <= j < |s| && (j - i) % 2 == 0 && s[j] % 2 == 0
    ensures j in Positions(s, i)
    decreases j - i
  {
    if j > i {
      PositionsComplete(s, i + 2, j);
    }
  }

  /** The elements of `s` at the indices `p`, in that order. */
  function Pick(s: seq<int>, p: seq<nat>): seq<int>
    requires forall k | 0 <= k < |p| :: p[k] < |s|
  {
    seq(|p|, k requires 0 <= k < |p| => s[p[k]])
  }

  /** The output of `even_evens` is exactly the even elements at even indices, in their
      order in the input. */
  lemma EvenEvensArePicked(s: seq<int>)
    ensures EvenEvens(s) == Pick(s, Positions(s, 0))
  {
    assert s[0..] == s;
    KeepEveryOtherFrom(s, 0);
  }

  lemma {:induction false} KeepEveryOtherFrom(s: seq<int>, i: nat)
    requires i <= |s|
    ensures KeepEven(EveryOther(s[i..])) == Pick(s, Positions(s, i))
    decreases |s| - i
  {
    if i + 2 <= |s| {
      KeepEveryOtherFrom(s, i + 2);
      KeepEveryOtherStep(s, i);
    } else if i + 1 == |s| {
      assert s[i..] == [s[i]];
      assert Positions(s, i + 2) == [];
    }
  }

  /** One step of the induction: two elements further on, the result grows by the first
      element when it is even. */
  lemma KeepEveryOtherStep(s: seq<int>, i: nat)
    requires i + 2 <= |s|
    requires KeepEven(EveryOther(s[i + 2..])) == Pick(s, Positions(s, i + 2))
    ensures KeepEven(EveryOther(s[i..])) == Pick(s, Positions(s, i))
  {
    var t := s[i..];
    var head: seq<nat> := if s[i] % 2 == 0 then [i] else [];
    var tail := Positions(s, i + 2);
    calc {
      KeepEven(EveryOther(t));
      KeepEven([t[0]] + EveryOther(t[2..]));
    == { KeepEvenCons(t[0], EveryOther(t[2..])); }
      (if t[0] % 2 == 0 then [t[0]] else []) + KeepEven(EveryOther(t[2..]));
    == { assert t[2..] == s[i + 2..]; }
      Pick(s, head) + Pick(s, tail);
    == { PickAppend(s, head, tail); }
      Pick(s, head + tail);
    }
  }

  lemma KeepEvenCons(x: int, rest: seq<int>)
    ensures KeepEven([x] + rest) == (if x % 2 == 0 then [x] else []) + KeepEven(rest)
  {
    assert ([x] + rest)[1..] == rest;
  }

  lemma PickAppend(s: seq<int>, a: seq<nat>, b: seq<nat>)
    requires forall k | 0 <= k < |a| :: a[k] < |s|
    requires forall k | 0 <= k < |b| :: b[k] < |s|
    ensures Pick(s, a + b) == Pick(s, a) + Pick(s, b)
  {
  }

  /** Every even value at an even index shows up in the output. */
  lemma EvenEvensComplete(s: seq<int>, j: nat)
    requires j < |s| && j % 2 == 0 && s[j] % 2 == 0
    ensures s[j] in EvenEvens(s)
  {
    EvenEvensArePicked(s);
    PositionsComplete(s, 0, j);
    var p := Positions(s, 0);
    var k :| 0 <= k < |p| && p[k] == j;
    assert EvenEvens(s)[k] == s[j];
  }
}
