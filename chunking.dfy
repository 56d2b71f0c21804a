/** Fixed-size chunking of a list, as `sh_server/itertools_ext_lib.py` does it.

    A Python value that may be `None` is modelled as `Option<T>`: `None` is Python's
    `None`, which `grouper` also uses as its fill value, and `Some(x)` is any other value.
    A chunk (a Python tuple) is a `seq`. */
module Chunking {
  import opened Wrappers
  import Arith

  /** Concatenation of chunks (`itertools.chain(*chunks)`). */
  function Flatten<T>(chunks: seq<seq<T>>): seq<T>
  {
    if chunks == [] then [] else chunks[0] + Flatten(chunks[1..])
  }

  /** Every chunk holds exactly `n` elements. */
  predicate AllOfLength<T>(chunks: seq<seq<T>>, n: nat)
  {
    forall k | 0 <= k < |chunks| :: |chunks[k]| == n
  }

  /** No element is Python's `None`. */
  predicate NoNone<T>(s: seq<Option<T>>)
  {
    forall k | 0 <= k < |s| :: s[k].Some?
  }

  /** `k` fill values. */
  function Padding<T>(k: nat): (p: seq<Option<T>>)
    ensures |p| == k && forall j | 0 <= j < k :: p[j] == None
  {
    seq(k, _ => None)
  }

  /** `tuple(filter(lambda x: x is not None, s))`. */
  function StripNone<T>(s: seq<Option<T>>): (r: seq<Option<T>>)
    ensures |r| <= |s| && NoNone(r)
    ensures NoNone(s) ==> r == s
    ensures forall x | x in r :: x in s
  {
    if s == [] then [] else (if s[0].None? then [] else [s[0]]) + StripNone(s[1..])
  }

  /** `grouper(items, n)`: `tuple(zip_longest(*[iter(items)] * n, fillvalue=None))`.
      With `n == 0` there are no iterators to zip, so the result is empty. */
  function Grouper<T>(items: seq<Option<T>>, n: nat): (r: seq<seq<Option<T>>>)
    ensures items == [] || n == 0 ==> r == []
    ensures n > 0 ==> |r| == (|items| + n - 1) / n
    ensures AllOfLength(r, n)
    ensures n > 0 ==> Flatten(r) == items + Padding((n - |items| % n) % n)
    decreases |items|
  {
    if n == 0 || items == [] then []
    else if |items| <= n then
      Arith.CeilOfOneChunk(|items|, n);
      [items + Padding(n - |items|)]
    else
      var rest := Grouper(items[n..], n);
      Arith.CeilStep(|items|, n);
      assert Flatten([items[..n]] + rest) == items + Padding((n - |items| % n) % n) by {
        assert ([items[..n]] + rest)[1..] == rest;
        assert items == items[..n] + items[n..];
      }
      [items[..n]] + rest
  }

  /** Dropping `None` from a padded chunk is dropping it from the chunk alone. */
  lemma PaddedStripNone<T>(m: seq<Option<T>>, k: nat)
    ensures StripNone(m + Padding<T>(k)) == StripNone(m)
  {
    StripNoneAppend(m, Padding<T>(k));
    StripPadding<T>(k);
  }

  /** Reference chunking by slicing: as many whole chunks of `n` as fit, cut left to
      right, then the leftover elements. */
  function Partition<T>(s: seq<T>, n: nat): (r: (seq<seq<T>>, seq<T>))
    requires n > 0
    ensures |r.0| == |s| / n && AllOfLength(r.0, n)
    ensures |r.1| == |s| % n
    ensures Flatten(r.0) + r.1 == s
    decreases |s|
  {
    if |s| < n then
      Arith.DivModUnique(|s|, n, 0, |s|);
      ([], s)
    else
      var (q, m) := Partition(s[n..], n);
      Arith.DivModStep(|s|, n);
      assert s == s[..n] + s[n..];
      ([s[..n]] + q, m)
  }

  /** `div_mod(items, n)`: the chunks of `grouper` split into the whole ones (the
      quotient) and the last, padded one, whose `None` values are filtered out (the
      remainder). */
  function DivMod<T>(items: seq<Option<T>>, n: nat): (r: (seq<seq<Option<T>>>, seq<Option<T>>))
    ensures items == [] || n == 0 ==> r == ([], [])
    ensures n > 0 ==> r.0 == Partition(items, n).0
    ensures n > 0 ==> r.1 == StripNone(Partition(items, n).1)
    ensures n > 0 ==> |r.0| == |items| / n && AllOfLength(r.0, n)
  {
    if items == [] || n == 0 then ([], [])
    else
      var groups := Grouper(items, n);
      var (quotient, remainder) := (|items| / n, |items| % n);
      var (quotientTuple, remainderTuple) :=
        if quotient == 0 then ([], groups[0])
        else if remainder == 0 then (groups, [])
        else (groups[..|groups| - 1], groups[|groups| - 1]);
      DivModCases(items, n);
      (quotientTuple, if remainderTuple != [] then StripNone(remainderTuple) else remainderTuple)
  }

  /** The three branches of `div_mod`, stated on the slicing partition. */
  lemma DivModCases<T>(items: seq<Option<T>>, n: nat)
    requires n > 0 && items != []
    ensures var groups, q, m := Grouper(items, n), Partition(items, n).0, Partition(items, n).1;
            && (|items| / n == 0 ==> q == [] && |groups| > 0 && StripNone(groups[0]) == StripNone(m))
            && (|items| / n != 0 && |items| % n == 0 ==> groups == q && m == [])
            && (|items| / n != 0 && |items| % n != 0 ==>
                  |groups| > 0 && groups[..|groups| - 1] == q && StripNone(groups[|groups| - 1]) == StripNone(m))
  {
    var groups, q, m := Grouper(items, n), Partition(items, n).0, Partition(items, n).1;
    GrouperIsPaddedPartition(items, n);
    PaddedCases(groups, q, m, n);
  }

  /** The chunks of a partition with the leftover padded into one more chunk. */
  lemma PaddedCases<T>(groups: seq<seq<Option<T>>>, q: seq<seq<Option<T>>>, m: seq<Option<T>>, n: nat)
    requires |m| <= n
    requires groups == if m == [] then q else q + [m + Padding(n - |m|)]
    ensures m == [] ==> groups == q
    ensures m != [] ==> |groups| > 0 && groups[..|groups| - 1] == q
    ensures m != [] ==> StripNone(groups[|groups| - 1]) == StripNone(m)
    ensures m != [] && q == [] ==> StripNone(groups[0]) == StripNone(m)
  {
    if m != [] {
      var last := m + Padding<T>(n - |m|);
      PaddedStripNone(m, n - |m|);
      assert groups[..|groups| - 1] == q;
      assert groups[|groups| - 1] == last;
    }
  }

  lemma {:induction false} FlattenAppend<T>(a: seq<seq<T>>, b: seq<seq<T>>)
    ensures Flatten(a + b) == Flatten(a) + Flatten(b)
    decreases |a|
  {
    if a != [] {
      FlattenAppend(a[1..], b);
      calc {
        Flatten(a + b);
        (a + b)[0] + Flatten((a + b)[1..]);
        { assert (a + b)[1..] == a[1..] + b; }
        a[0] + Flatten(a[1..] + b);
        a[0] + (Flatten(a[1..]) + Flatten(b));
        (a[0] + Flatten(a[1..])) + Flatten(b);
        Flatten(a) + Flatten(b);
      }
    } else {
      assert a + b == b;
    }
  }

  lemma {:induction false} StripNoneAppend<T>(a: seq<Option<T>>, b: seq<Option<T>>)
    ensures StripNone(a + b) == StripNone(a) + StripNone(b)
    decreases |a|
  {
    if a != [] {
      StripNoneAppend(a[1..], b);
      var head: seq<Option<T>> := if a[0].None? then [] else [a[0]];
      calc {
        StripNone(a + b);
        { assert (a + b)[0] == a[0]; assert (a + b)[1..] == a[1..] + b; }
        head + StripNone(a[1..] + b);
        head + (StripNone(a[1..]) + StripNone(b));
        (head + StripNone(a[1..])) + StripNone(b);
        StripNone(a) + StripNone(b);
      }
    } else {
      assert a + b == b;
    }
  }

  lemma {:induction false} StripPadding<T>(k: nat)
    ensures StripNone(Padding<T>(k)) == []
    decreases k
  {
    if k > 0 {
      StripPadding<T>(k - 1);
      assert Padding<T>(k)[1..] == Padding<T>(k - 1);
    }
  }

  /** `grouper` is the slicing partition with the leftover elements, if any, padded to
      one more whole chunk. */
  lemma {:induction false} GrouperIsPaddedPartition<T>(items: seq<Option<T>>, n: nat)
    requires n > 0
    ensures var (q, m) := Partition(items, n);
            Grouper(items, n) == if m == [] then q else q + [m + Padding(n - |m|)]
    decreases |items|
  {
    if |items| >= n {
      GrouperIsPaddedPartition(items[n..], n);
    }
  }

  /** `div_mod` returns two empty tuples for an empty list or a chunk size of 0: with
      `n == 0` a non-empty input is dropped. */
  lemma DivModDegenerate<T>(items: seq<Option<T>>, n: nat)
    ensures DivMod(items, 0) == ([], [])
    ensures DivMod<T>([], n) == ([], [])
  {
  }

  /** On a list without `None`, `div_mod` loses nothing: the whole chunks followed by the
      remainder give back the input in order, and the remainder has `len % n` elements. */
  lemma DivModLossless<T>(items: seq<Option<T>>, n: nat)
    requires n > 0 && NoNone(items)
    ensures Flatten(DivMod(items, n).0) + DivMod(items, n).1 == items
    ensures |DivMod(items, n).1| == |items| % n
    ensures DivMod(items, n).1 == items[|items| - |items| % n..]
  {
    var (q, m) := Partition(items, n);
    assert items == Flatten(q) + m;
    forall k | 0 <= k < |m| ensures m[k].Some? {
      assert m[k] == items[|Flatten(q)| + k];
    }
  }

  /** `None` is both a value and the fill: a real `None` among the leftover elements is
      filtered out of the remainder, while one inside a whole chunk is kept. */
  lemma DivModDropsNoneInRemainder()
    ensures DivMod([None, Some(7), None], 2) == ([[None, Some(7)]], [])
  {
    var items: seq<Option<int>> := [None, Some(7), None];
    assert items[2..] == [None];
    assert items[..2] == [None, Some(7)];
  }

  /** `grouper([1,2,3,4,5,6,7], 3) == ((1,2,3), (4,5,6), (7,None,None))`. */
  lemma GrouperExample()
    ensures Grouper([Some(1), Some(2), Some(3), Some(4), Some(5), Some(6), Some(7)], 3)
         == [[Some(1), Some(2), Some(3)], [Some(4), Some(5), Some(6)], [Some(7), None, None]]
  {
    var items: seq<Option<int>> := [Some(1), Some(2), Some(3), Some(4), Some(5), Some(6), Some(7)];
    var tail, last := items[3..], items[6..];
    assert tail[3..] == last && last == [Some(7)];
    assert Grouper(last, 3) == [last + Padding(2)];
    assert last + Padding<int>(2) == [Some(7), None, None];
    assert Grouper(tail, 3) == [tail[..3]] + Grouper(last, 3);
    assert Grouper(items, 3) == [items[..3]] + Grouper(tail, 3);
    assert items[..3] == [Some(1), Some(2), Some(3)];
    assert tail[..3] == [Some(4), Some(5), Some(6)];
  }

  /** One step of the slicing partition: the first chunk, then the rest. */
  lemma PartitionStep<T>(s: seq<T>, n: nat)
    requires n > 0 && |s| >= n
    ensures Partition(s, n) == ([s[..n]] + Partition(s[n..], n).0, Partition(s[n..], n).1)
  {
  }

  /** The self-test with one item and chunk size 3: no full chunk, the item is the rest. */
  lemma DivModExampleOne()
    ensures DivMod([Some(1)], 3) == ([], [Some(1)])
  {
    var one: seq<Option<int>> := [Some(1)];
    assert Partition(one, 3).1 == one;
    assert StripNone(one) == one;
  }

  /** The self-test with six items and chunk size 3: two full chunks, nothing left. */
  lemma DivModExampleSix()
    ensures DivMod([Some(1), Some(2), Some(3), Some(4), Some(5), Some(6)], 3)
         == ([[Some(1), Some(2), Some(3)], [Some(4), Some(5), Some(6)]], [])
  {
    var six: seq<Option<int>> := [Some(1), Some(2), Some(3), Some(4), Some(5), Some(6)];
    var rest := six[3..];
    PartitionStep(six, 3);
    PartitionStep(rest, 3);
    assert rest[3..] == [];
    assert Partition(rest[3..], 3) == ([], []);
    assert Partition(rest, 3).0 == [rest[..3]];
    assert Partition(rest, 3).1 == [];
    assert Partition(six, 3).0 == [six[..3], rest[..3]];
    assert six[..3] == [Some(1), Some(2), Some(3)];
    assert rest[..3] == [Some(4), Some(5), Some(6)];
    assert StripNone<int>([]) == [];
  }

  /** The self-test with seven items and chunk size 3: two full chunks and the seventh item. */
  lemma DivModExampleSeven()
    ensures DivMod([Some(1), Some(2), Some(3), Some(4), Some(5), Some(6), Some(7)], 3)
         == ([[Some(1), Some(2), Some(3)], [Some(4), Some(5), Some(6)]], [Some(7)])
  {
    var seven: seq<Option<int>> := [Some(1), Some(2), Some(3), Some(4), Some(5), Some(6), Some(7)];
    var rest := seven[3..];
    PartitionStep(seven, 3);
    PartitionStep(rest, 3);
    var last := rest[3..];
    assert last == [Some(7)];
    assert Partition(last, 3) == ([], last);
    assert Partition(rest, 3).0 == [rest[..3]];
    assert Partition(seven, 3).0 == [seven[..3], rest[..3]];
    assert seven[..3] == [Some(1), Some(2), Some(3)];
    assert rest[..3] == [Some(4), Some(5), Some(6)];
    assert StripNone(last) == last;
  }

  /** Dropping the fill from the concatenated chunks of `grouper` gives back the input. */
  lemma GrouperPreservesOrder<T>(items: seq<Option<T>>, n: nat)
    requires n > 0 && NoNone(items)
    ensures StripNone(Flatten(Grouper(items, n))) == items
  {
    StripNoneAppend(items, Padding<T>((n - |items| % n) % n));
    StripPadding<T>((n - |items| % n) % n);
  }
}
