/** `get_routes` of `sh_server/router_lib.py`: every batch produced by the 25/10/5/1 cascade
    becomes one route whose synthetic address names the batch size and its position. */
module Router {
  import opened Wrappers
  import opened Chunking
  import opened Binning
  import Decimal
  import PyStr
  import Ipv4

  const SuperBaseIp: string := "10.0.4."
  const LargeBaseIp: string := "10.0.3."
  const MediumBaseIp: string := "10.0.2."
  const SmallBaseIp: string := "10.0.1."

  /** One `{'ip': ..., 'recipients': ...}` entry of the route list. */
  datatype Route<T> = Route(ip: string, recipients: seq<Option<T>>)

  /** The routes of one bin: the k-th batch (from 0) goes to `base + str(k + 1)`. */
  function TierRoutes<T>(base: string, batches: seq<seq<Option<T>>>): seq<Route<T>>
  {
    seq(|batches|, k requires 0 <= k < |batches| => Route(base + Decimal.NatToString(k + 1), batches[k]))
  }

  /** The route list `get_routes` builds from the four bins: the 25-batches, the
      10-batches, the 5-batch if there is one, then the singles. */
  function RouteTable<T>(b: Bins<T>): seq<Route<T>>
  {
    TierRoutes(SuperBaseIp, b.bin25) + TierRoutes(LargeBaseIp, b.bin10)
    + (if b.bin5 != [] then [Route(MediumBaseIp + "1", b.bin5[0])] else [])
    + TierRoutes(SmallBaseIp, b.bin1)
  }

  /** The recipient lists of the routes, in route order. */
  function RecipientLists<T>(routes: seq<Route<T>>): (r: seq<seq<Option<T>>>)
    ensures |r| == |routes|
  {
    seq(|routes|, k requires 0 <= k < |routes| => routes[k].recipients)
  }

  /** `get_routes`: bin the recipients, then build the route list from the bins. */
  method GetRoutes<T>(recipients: seq<Option<T>>) returns (routeList: seq<Route<T>>)
    ensures routeList == RouteTable(Binner(recipients))
    ensures recipients == [] ==> routeList == []
  {
    var b := Binner(recipients);
    routeList := RoutesOfBins(b);
    if recipients == [] {
      assert b == Bins([], [], [], []);
    }
  }

  /** The body of `get_routes` after `binner`: three `for ... enumerate` loops and the
      `if bin5` step, each appending to `route_list`. */
  method RoutesOfBins<T>(b: Bins<T>) returns (routeList: seq<Route<T>>)
    ensures routeList == RouteTable(b)
    ensures |routeList| == |b.bin25| + |b.bin10| + (if b.bin5 != [] then 1 else 0) + |b.bin1|
  {
    var bin25, bin10, bin5, bin1 := b.bin25, b.bin10, b.bin5, b.bin1;
    ghost var t25, t10 := TierRoutes(SuperBaseIp, bin25), TierRoutes(LargeBaseIp, bin10);
    ghost var t5: seq<Route<T>> := if bin5 != [] then [Route(MediumBaseIp + "1", bin5[0])] else [];
    ghost var t1 := TierRoutes(SmallBaseIp, bin1);
    routeList := [];
    for index := 0 to |bin25|
      invariant routeList == t25[..index]
    {
      var ipAddr := SuperBaseIp + Decimal.NatToString(index + 1);
      TierRoutesStep(SuperBaseIp, bin25, index);
      routeList := routeList + [Route(ipAddr, bin25[index])];
    }
    assert t25[..|bin25|] == t25;
    for index := 0 to |bin10|
      invariant routeList == t25 + t10[..index]
    {
      var ipAddr := LargeBaseIp + Decimal.NatToString(index + 1);
      TierRoutesStep(LargeBaseIp, bin10, index);
      routeList := routeList + [Route(ipAddr, bin10[index])];
    }
    assert t10[..|bin10|] == t10;
    if bin5 != [] {
      routeList := routeList + [Route(MediumBaseIp + "1", bin5[0])];
    }
    assert routeList == t25 + t10 + t5;
    for index := 0 to |bin1|
      invariant routeList == t25 + t10 + t5 + t1[..index]
    {
      var ipAddr := SmallBaseIp + Decimal.NatToString(index + 1);
      TierRoutesStep(SmallBaseIp, bin1, index);
      routeList := routeList + [Route(ipAddr, bin1[index])];
    }
    assert t1[..|bin1|] == t1;
  }

  /** One more loop iteration appends the route of the next batch. */
  lemma TierRoutesStep<T>(base: string, batches: seq<seq<Option<T>>>, i: nat)
    requires i < |batches|
    ensures TierRoutes(base, batches)[..i + 1]
      == TierRoutes(base, batches)[..i] + [Route(base + Decimal.NatToString(i + 1), batches[i])]
  {
  }

  /** The routes carry the batches of the bins, in bin order. */
  lemma RecipientListsOfTable<T>(b: Bins<T>)
    requires |b.bin5| <= 1
    ensures RecipientLists(RouteTable(b)) == AllBatches(b)
  {
    var routes := RouteTable(b);
    var all := AllBatches(b);
    assert |routes| == |all|;
    forall k | 0 <= k < |all|
      ensures routes[k].recipients == all[k]
    {
      var n25, n10, n5 := |b.bin25|, |b.bin10|, |b.bin5|;
      if k < n25 {
      } else if k < n25 + n10 {
      } else if k < n25 + n10 + n5 {
      } else {
      }
    }
  }

  /** Without `None` among the recipients, reading the routes' recipient lists in order gives
      back every recipient once, in input order. */
  lemma RoutesCoverRecipients<T>(recipients: seq<Option<T>>)
    requires NoNone(recipients)
    ensures Flatten(RecipientLists(RouteTable(Binner(recipients)))) == recipients
  {
    RecipientListsOfTable(Binner(recipients));
    BinsFlatten(recipients);
  }

  /** Each route's recipient count is the size of its tier: 25, 10, 5 or 1. */
  lemma RouteSizes<T>(recipients: seq<Option<T>>)
    ensures var b := Binner(recipients);
      var routes, n25, n10, n5 := RouteTable(b), |b.bin25|, |b.bin10|, |b.bin5|;
      && (forall j | 0 <= j < n25 :: |routes[j].recipients| == 25)
      && (forall j | n25 <= j < n25 + n10 :: |routes[j].recipients| == 10)
      && (forall j | n25 + n10 <= j < n25 + n10 + n5 :: |routes[j].recipients| == 5)
      && (forall j | n25 + n10 + n5 <= j < |routes| :: |routes[j].recipients| == 1)
  {
    var b := Binner(recipients);
    TierSizes(b);
  }

  lemma TierSizes<T>(b: Bins<T>)
    requires AllOfLength(b.bin25, 25) && AllOfLength(b.bin10, 10)
    requires AllOfLength(b.bin5, 5) && AllOfLength(b.bin1, 1) && |b.bin5| <= 1
    ensures var routes, n25, n10, n5 := RouteTable(b), |b.bin25|, |b.bin10|, |b.bin5|;
      && (forall j | 0 <= j < n25 :: |routes[j].recipients| == 25)
      && (forall j | n25 <= j < n25 + n10 :: |routes[j].recipients| == 10)
      && (forall j | n25 + n10 <= j < n25 + n10 + n5 :: |routes[j].recipients| == 5)
      && (forall j | n25 + n10 + n5 <= j < |routes| :: |routes[j].recipients| == 1)
  {
    RouteTableLayout(b);
  }

  /** Where each batch lands in the route table, and under which address text. */
  lemma RouteTableLayout<T>(b: Bins<T>)
    ensures var routes, n25, n10 := RouteTable(b), |b.bin25|, |b.bin10|;
      var n5 := if b.bin5 != [] then 1 else 0;
      && |routes| == n25 + n10 + n5 + |b.bin1|
      && (forall j | 0 <= j < n25 ::
            routes[j] == Route(SuperBaseIp + Decimal.NatToString(j + 1), b.bin25[j]))
      && (forall j | n25 <= j < n25 + n10 ::
            routes[j] == Route(LargeBaseIp + Decimal.NatToString(j - n25 + 1), b.bin10[j - n25]))
      && (n5 == 1 ==> routes[n25 + n10] == Route(MediumBaseIp + "1", b.bin5[0]))
      && (forall j | n25 + n10 + n5 <= j < |routes| ::
            routes[j] == Route(SmallBaseIp + Decimal.NatToString(j - n25 - n10 - n5 + 1),
                               b.bin1[j - n25 - n10 - n5]))
  {
  }

  /** The four address prefixes are `"10.0." + str(tier) + "."` for tiers 4, 3, 2 and 1. */
  lemma BaseIps()
    ensures SuperBaseIp == "10.0." + Decimal.NatToString(4) + "."
    ensures LargeBaseIp == "10.0." + Decimal.NatToString(3) + "."
    ensures MediumBaseIp == "10.0." + Decimal.NatToString(2) + "."
    ensures SmallBaseIp == "10.0." + Decimal.NatToString(1) + "."
    ensures "1" == Decimal.NatToString(1)
  {
  }

  /** `"10.0." + str(tier) + "." + str(n)` parses to the octets `[10, 0, tier, n]`. */
  lemma AddressParses(tier: nat, n: nat)
    requires tier < 10
    ensures Ipv4.DottedDecimalStrToList("10.0." + Decimal.NatToString(tier) + "." + Decimal.NatToString(n))
      == Ok([10, 0, tier, n])
  {
    var t, d := Decimal.NatToString(tier), Decimal.NatToString(n);
    var s := "10.0." + t + "." + d;
    var parts := PyStr.Split(s, '.');
    AddressSplits(t, d);
    assert parts == ["10", "0", t, d];
    Decimal.NatToStringValue(tier);
    Decimal.NatToStringValue(n);
    NetworkPrefixDigits();
    assert Ipv4.AllNumerals(parts);
    assert PyStr.Count(s, '.') == 3;
    var r := Ipv4.DottedDecimalStrToList(s);
    assert r.Ok?;
    assert r.value == [10, 0, tier, n];
  }

  /** The first two pieces of every route address are the numerals 10 and 0. */
  lemma NetworkPrefixDigits()
    ensures Decimal.IsDigits("10") && Decimal.IsDigits("0")
    ensures Decimal.DigitsValue("10") == 10 && Decimal.DigitsValue("0") == 0
  {
    assert "10"[..1] == "1";
  }

  /** `"10.0." + t + "." + d` splits on `'.'` into its four parts when `t` and `d` hold no
      dot. */
  lemma AddressSplits(t: string, d: string)
    requires '.' !in t && '.' !in d
    ensures PyStr.Split("10.0." + t + "." + d, '.') == ["10", "0", t, d]
  {
    var head := "10.0";
    AddressShape(head, t, d);
    HeadSplits();
    PyStr.SplitAppend(head, '.', t);
    PyStr.SplitAppend(head + ['.'] + t, '.', d);
  }

  /** The address regrouped as the network prefix, then a dot and each later part. */
  lemma AddressShape(head: string, t: string, d: string)
    requires head == "10.0"
    ensures "10.0." + t + "." + d == head + ['.'] + t + ['.'] + d
  {
    assert head + ['.'] == "10.0.";
  }

  /** The network prefix splits into its two numerals. */
  lemma HeadSplits()
    ensures PyStr.Split("10.0", '.') == ["10", "0"]
  {
    var ten, zero := "10", "0";
    assert "10.0" == ten + ['.'] + zero;
    assert '.' !in ten && '.' !in zero;
    PyStr.SplitWithout(ten, '.');
    PyStr.SplitAppend(ten, '.', zero);
  }

  /** Route addresses as octets: the k-th 25-batch (from 1) goes to 10.0.4.k, the k-th
      10-batch to 10.0.3.k, the 5-batch to 10.0.2.1 and the k-th single to 10.0.1.k; each
      route carries its batch. */
  lemma RouteAddresses<T>(b: Bins<T>)
    ensures var routes, n25, n10 := RouteTable(b), |b.bin25|, |b.bin10|;
      var n5 := if b.bin5 != [] then 1 else 0;
      && |routes| == n25 + n10 + n5 + |b.bin1|
      && (forall j | 0 <= j < n25 ::
            routes[j].recipients == b.bin25[j]
            && Ipv4.DottedDecimalStrToList(routes[j].ip) == Ok([10, 0, 4, j + 1]))
      && (forall j | n25 <= j < n25 + n10 ::
            routes[j].recipients == b.bin10[j - n25]
            && Ipv4.DottedDecimalStrToList(routes[j].ip) == Ok([10, 0, 3, j - n25 + 1]))
      && (n5 == 1 ==>
            routes[n25 + n10].recipients == b.bin5[0]
            && Ipv4.DottedDecimalStrToList(routes[n25 + n10].ip) == Ok([10, 0, 2, 1]))
      && (forall j | n25 + n10 + n5 <= j < |routes| ::
            routes[j].recipients == b.bin1[j - n25 - n10 - n5]
            && Ipv4.DottedDecimalStrToList(routes[j].ip) == Ok([10, 0, 1, j - n25 - n10 - n5 + 1]))
  {
    SuperAddresses(b);
    LargeAddresses(b);
    MediumAddress(b);
    SmallAddresses(b);
  }

  lemma SuperAddresses<T>(b: Bins<T>)
    ensures var routes := RouteTable(b);
      forall j | 0 <= j < |b.bin25| ::
        routes[j].recipients == b.bin25[j]
        && Ipv4.DottedDecimalStrToList(routes[j].ip) == Ok([10, 0, 4, j + 1])
  {
    var routes, t25 := RouteTable(b), TierRoutes(SuperBaseIp, b.bin25);
    BaseIps();
    TierParses(SuperBaseIp, 4, b.bin25);
    assert forall j | 0 <= j < |b.bin25| :: routes[j] == t25[j];
  }

  lemma LargeAddresses<T>(b: Bins<T>)
    ensures var routes, n25, n10 := RouteTable(b), |b.bin25|, |b.bin10|;
      forall j | n25 <= j < n25 + n10 ::
        routes[j].recipients == b.bin10[j - n25]
        && Ipv4.DottedDecimalStrToList(routes[j].ip) == Ok([10, 0, 3, j - n25 + 1])
  {
    var routes, n25, n10 := RouteTable(b), |b.bin25|, |b.bin10|;
    var t10 := TierRoutes(LargeBaseIp, b.bin10);
    BaseIps();
    TierParses(LargeBaseIp, 3, b.bin10);
    forall j | n25 <= j < n25 + n10
      ensures routes[j].recipients == b.bin10[j - n25]
      ensures Ipv4.DottedDecimalStrToList(routes[j].ip) == Ok([10, 0, 3, j - n25 + 1])
    {
      assert routes[j] == t10[j - n25];
    }
  }

  lemma MediumAddress<T>(b: Bins<T>)
    ensures var routes, n25, n10 := RouteTable(b), |b.bin25|, |b.bin10|;
      b.bin5 != [] ==>
        routes[n25 + n10].recipients == b.bin5[0]
        && Ipv4.DottedDecimalStrToList(routes[n25 + n10].ip) == Ok([10, 0, 2, 1])
  {
    if b.bin5 != [] {
      BaseIps();
      AddressParses(2, 1);
    }
  }

  lemma SmallAddresses<T>(b: Bins<T>)
    ensures var routes, n25, n10 := RouteTable(b), |b.bin25|, |b.bin10|;
      var n5 := if b.bin5 != [] then 1 else 0;
      && |routes| == n25 + n10 + n5 + |b.bin1|
      && forall j | n25 + n10 + n5 <= j < |routes| ::
        routes[j].recipients == b.bin1[j - n25 - n10 - n5]
        && Ipv4.DottedDecimalStrToList(routes[j].ip) == Ok([10, 0, 1, j - n25 - n10 - n5 + 1])
  {
    var routes, n25, n10 := RouteTable(b), |b.bin25|, |b.bin10|;
    var n5 := if b.bin5 != [] then 1 else 0;
    var t1 := TierRoutes(SmallBaseIp, b.bin1);
    var pre := TierRoutes(SuperBaseIp, b.bin25) + TierRoutes(LargeBaseIp, b.bin10)
      + (if b.bin5 != [] then [Route(MediumBaseIp + "1", b.bin5[0])] else []);
    assert routes == pre + t1 && |pre| == n25 + n10 + n5;
    BaseIps();
    TierParses(SmallBaseIp, 1, b.bin1);
    forall j | |pre| <= j < |routes|
      ensures routes[j] == t1[j - |pre|]
    {
    }
  }

  /** Every address of one tier parses to `[10, 0, tier, k]` for the k-th batch, from 1. */
  lemma TierParses<T>(base: string, tier: nat, batches: seq<seq<Option<T>>>)
    requires tier < 10 && base == "10.0." + Decimal.NatToString(tier) + "."
    ensures forall k | 0 <= k < |batches| ::
      Ipv4.DottedDecimalStrToList(TierRoutes(base, batches)[k].ip) == Ok([10, 0, tier, k + 1])
  {
    forall k | 0 <= k < |batches|
      ensures Ipv4.DottedDecimalStrToList(TierRoutes(base, batches)[k].ip) == Ok([10, 0, tier, k + 1])
    {
      AddressParses(tier, k + 1);
    }
  }

  /** A single recipient gets the single route 10.0.1.1. */
  lemma SingleRecipient<T>(x: T)
    ensures RouteTable(Binner([Some(x)])) == [Route("10.0.1.1", [Some(x)])]
  {
    var items := [Some(x)];
    DivModLossless(items, 25);
    assert DivMod(items, 25) == ([], items);
    DivModLossless(items, 10);
    assert DivMod(items, 10) == ([], items);
    DivModLossless(items, 5);
    assert DivMod(items, 5) == ([], items);
    DivModByOne(items);
    assert Binner(items) == Bins([], [], [], [items]);
    assert SmallBaseIp + Decimal.NatToString(1) == "10.0.1.1";
  }
}
