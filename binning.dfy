/** The 25/10/5/1 cascade that splits a recipient list into delivery batches
    (`binner` in `sh_server/binner_lib.py`; `sh_server/router_lib.py` holds an identical copy). */
module Binning {
  import opened Wrappers
  import opened Chunking

  /** The four bins `binner` returns: batches of 25, 10, 5 and 1 elements. */
  datatype Bins<T> = Bins(
    bin25: seq<seq<Option<T>>>,
    bin10: seq<seq<Option<T>>>,
    bin5: seq<seq<Option<T>>>,
    bin1: seq<seq<Option<T>>>)

  /** All batches of the four bins, largest bin first. */
  function AllBatches<T>(b: Bins<T>): seq<seq<Option<T>>>
  {
    b.bin25 + b.bin10 + b.bin5 + b.bin1
  }

  /** `binner(items)`: `div_mod` at 25, then at 10, 5 and 1 on each remainder. */
  function Binner<T>(items: seq<Option<T>>): (b: Bins<T>)
    ensures |b.bin25| == |items| / 25 && AllOfLength(b.bin25, 25)
    ensures AllOfLength(b.bin10, 10) && AllOfLength(b.bin5, 5) && AllOfLength(b.bin1, 1)
    ensures |b.bin5| <= 1
  {
    var (bin25, remainder25) := DivMod(items, 25);
    var (bin10, remainder10) := DivMod(remainder25, 10);
    var (bin5, remainder5) := DivMod(remainder10, 5);
    var (bin1, _) := DivMod(remainder5, 1);
    Bins(bin25, bin10, bin5, bin1)
  }

  /** `div_mod(s, 1)` never leaves a remainder: every element becomes a singleton. */
  lemma DivModByOne<T>(s: seq<Option<T>>)
    ensures DivMod(s, 1).1 == [] && |DivMod(s, 1).0| == |s|
    ensures forall k | 0 <= k < |s| :: DivMod(s, 1).0[k] == [s[k]]
  {
    var chunks := DivMod(s, 1).0;
    forall k | 0 <= k < |s| ensures chunks[k] == [s[k]] {
      PartitionByOneAt(s, k);
    }
  }

  lemma {:induction false} PartitionByOneAt<T>(s: seq<T>, k: nat)
    requires k < |s|
    ensures Partition(s, 1).0[k] == [s[k]]
    decreases k
  {
    if k > 0 {
      PartitionByOneAt(s[1..], k - 1);
    } else {
      assert s[..1] == [s[0]];
    }
  }

  /** Without `None` among the items, the bin sizes follow the `divmod` chain of the
      self-test: `len // 25`, then `(len % 25) // 10`, `(len % 25 % 10) // 5` and the final
      remainder `len % 25 % 10 % 5` as singletons. */
  lemma BinCounts<T>(items: seq<Option<T>>)
    requires NoNone(items)
    ensures var b, len := Binner(items), |items|;
            && |b.bin25| == len / 25
            && |b.bin10| == (len % 25) / 10
            && |b.bin5| == (len % 25 % 10) / 5
            && |b.bin1| == len % 25 % 10 % 5
  {
    var (bin25, remainder25) := DivMod(items, 25);
    DivModLossless(items, 25);
    var (bin10, remainder10) := DivMod(remainder25, 10);
    DivModLossless(remainder25, 10);
    var (bin5, remainder5) := DivMod(remainder10, 5);
    DivModLossless(remainder10, 5);
    DivModByOne(remainder5);
  }

  /** One stage of the cascade: if the later bins flatten back to this stage's remainder,
      this stage's quotient followed by them flattens back to the stage's input. */
  lemma CascadeStep<T>(s: seq<Option<T>>, n: nat, later: seq<seq<Option<T>>>)
    requires n > 0 && NoNone(s)
    requires Flatten(later) == DivMod(s, n).1
    ensures Flatten(DivMod(s, n).0 + later) == s
  {
    FlattenAppend(DivMod(s, n).0, later);
    DivModLossless(s, n);
  }

  lemma RemainderNoNone<T>(s: seq<Option<T>>, n: nat)
    requires n > 0 && NoNone(s)
    ensures NoNone(DivMod(s, n).1)
  {
    DivModLossless(s, n);
  }

  /** The batches of the 5 and 1 stages flatten back to their input. */
  lemma FiveOneFlatten<T>(s: seq<Option<T>>)
    requires NoNone(s)
    ensures Flatten(DivMod(s, 5).0 + DivMod(DivMod(s, 5).1, 1).0) == s
  {
    var d5 := DivMod(s, 5);
    RemainderNoNone(s, 5);
    assert Flatten(DivMod(d5.1, 1).0) == d5.1 by {
      DivModLossless(d5.1, 1);
      DivModByOne(d5.1);
    }
    CascadeStep(s, 5, DivMod(d5.1, 1).0);
  }

  /** The batches of the 10, 5 and 1 stages flatten back to their input. */
  lemma TenFiveOneFlatten<T>(s: seq<Option<T>>)
    requires NoNone(s)
    ensures var d10 := DivMod(s, 10); var d5 := DivMod(d10.1, 5);
      Flatten(d10.0 + (d5.0 + DivMod(d5.1, 1).0)) == s
  {
    var d10 := DivMod(s, 10);
    RemainderNoNone(s, 10);
    FiveOneFlatten(d10.1);
    var d5 := DivMod(d10.1, 5);
    CascadeStep(s, 10, d5.0 + DivMod(d5.1, 1).0);
  }

  /** Without `None` among the items, concatenating the batches of the four bins in order
      gives back the input: nothing is lost, duplicated or reordered. */
  lemma BinsFlatten<T>(items: seq<Option<T>>)
    requires NoNone(items)
    ensures Flatten(AllBatches(Binner(items))) == items
  {
    var d25 := DivMod(items, 25);
    RemainderNoNone(items, 25);
    TenFiveOneFlatten(d25.1);
    var d10 := DivMod(d25.1, 10);
    var d5 := DivMod(d10.1, 5);
    var d1 := DivMod(d5.1, 1);
    CascadeStep(items, 25, d10.0 + (d5.0 + d1.0));
    BinnerStages(items);
    AllBatchesNested(Binner(items));
  }

  lemma AllBatchesNested<T>(b: Bins<T>)
    ensures AllBatches(b) == b.bin25 + (b.bin10 + (b.bin5 + b.bin1))
  {
  }

  /** `binner` as its four `div_mod` stages. */
  lemma BinnerStages<T>(items: seq<Option<T>>)
    ensures var d25 := DivMod(items, 25); var d10 := DivMod(d25.1, 10); var d5 := DivMod(d10.1, 5);
      Binner(items) == Bins(d25.0, d10.0, d5.0, DivMod(d5.1, 1).0)
  {
  }

  /** The docstring example of 30 items: one batch of 25 and one of 5. */
  lemma BinnerThirty<T>(items: seq<Option<T>>)
    requires NoNone(items) && |items| == 30
    ensures var b := Binner(items);
      b.bin25 == [items[..25]] && b.bin10 == [] && b.bin5 == [items[25..]] && b.bin1 == []
  {
    var tail := items[25..];
    var d25 := DivMod(items, 25);
    DivModLossless(items, 25);
    assert d25.1 == tail;
    assert Partition(items, 25).0 == [items[..25]] + Partition(tail, 25).0;
    var d10 := DivMod(tail, 10);
    DivModLossless(tail, 10);
    assert d10.1 == tail[0..] == tail;
    var d5 := DivMod(tail, 5);
    DivModLossless(tail, 5);
    assert Partition(tail, 5).0 == [tail[..5]] + Partition(tail[5..], 5).0;
    assert tail[..5] == tail;
    assert d5.1 == [];
    assert Binner(items) == Bins(d25.0, d10.0, d5.0, DivMod(d5.1, 1).0);
  }

  /** The docstring example of 51 items: two batches of 25 and one single. */
  lemma BinnerFiftyOne<T>(items: seq<Option<T>>)
    requires NoNone(items) && |items| == 51
    ensures var b := Binner(items);
      b.bin25 == [items[..25], items[25..50]] && b.bin10 == [] && b.bin5 == []
      && b.bin1 == [[items[50]]]
  {
    BinnerStages(items);
    DivModFiftyOne(items);
    var last := items[50..];
    assert last == [items[50]];
    SingleRemainder(last);
  }

  lemma DivModFiftyOne<T>(items: seq<Option<T>>)
    requires NoNone(items) && |items| == 51
    ensures DivMod(items, 25).0 == [items[..25], items[25..50]]
    ensures DivMod(items, 25).1 == items[50..]
  {
    var rest := items[25..];
    var last := items[50..];
    assert rest[..25] == items[25..50] && rest[25..] == last;
    assert NoNone(last) by {
      assert forall k | 0 <= k < |last| :: last[k] == items[50 + k];
    }
    PartitionStep(items, 25);
    PartitionStep(rest, 25);
    assert Partition(last, 25) == ([], last);
    assert Partition(rest, 25).0 == [rest[..25]];
    assert Partition(items, 25).0 == [items[..25], rest[..25]];
  }

  /** A single item passes the 10 and 5 stages untouched and becomes one batch of 1. */
  lemma SingleRemainder<T>(last: seq<Option<T>>)
    requires NoNone(last) && |last| == 1
    ensures DivMod(last, 10).0 == [] && DivMod(last, 10).1 == last
    ensures DivMod(last, 5).0 == [] && DivMod(last, 5).1 == last
    ensures DivMod(last, 1).0 == [last]
  {
    DivModLossless(last, 10);
    DivModLossless(last, 5);
    assert last[0..] == last;
    DivModByOne(last);
    assert last == [last[0]];
  }

  /** The docstring example of 13 items: one batch of 10 and three singles. */
  lemma BinnerThirteen<T>(items: seq<Option<T>>)
    requires NoNone(items) && |items| == 13
    ensures var b := Binner(items);
      b.bin25 == [] && b.bin10 == [items[..10]] && b.bin5 == []
      && b.bin1 == [[items[10]], [items[11]], [items[12]]]
  {
    var last := items[10..];
    DivModLossless(items, 25);
    assert DivMod(items, 25).1 == items[0..] == items;
    DivModLossless(items, 10);
    assert DivMod(items, 10).1 == last;
    assert Partition(items, 10).0 == [items[..10]] + Partition(last, 10).0;
    DivModLossless(last, 5);
    assert DivMod(last, 5).1 == last[0..] == last;
    DivModByOne(last);
    var b1 := DivMod(last, 1).0;
    assert b1[0] == [items[10]] && b1[1] == [items[11]] && b1[2] == [items[12]];
    assert Binner(items) == Bins(DivMod(items, 25).0, DivMod(items, 10).0, DivMod(last, 5).0, b1);
  }
}
