/** The dotted-decimal IPv4 helpers of `apl2.py`: parsing and printing, octet inversion,
    masking and the "random address in the same subnet" composition. Octets are the
    non-negative integers `int()` yields from digit strings; the code checks only the
    number of octets, never their range. */
module Ipv4 {
  import opened Wrappers
  import opened PyStr
  import opened Decimal
  import opened Bits

  const NumOctets: nat := 4

  /** The `ValueError`s the converters raise. */
  datatype ValueError =
    | NotAnInteger(part: string)   // `int(x)` refused a piece
    | WrongCount(found: nat)       // not exactly `NumOctets` numbers

  /** Every piece is a numeral `int()` accepts. */
  predicate AllNumerals(parts: seq<string>)
  {
    forall k | 0 <= k < |parts| :: IsDigits(parts[k])
  }

  /** `[int(x) for x in parts]`, stopping at the first piece that is not a numeral. */
  function ParseParts(parts: seq<string>): (r: Result<seq<nat>, ValueError>)
    ensures r.Ok? <==> AllNumerals(parts)
    ensures r.Ok? ==> |r.value| == |parts|
    ensures r.Ok? ==> forall k | 0 <= k < |parts| :: r.value[k] == DigitsValue(parts[k])
    ensures r.Err? ==> exists j | 0 <= j < |parts| ::
      !IsDigits(parts[j]) && r.error == NotAnInteger(parts[j])
      && forall k | 0 <= k < j :: IsDigits(parts[k])
  {
    if parts == [] then Ok([])
    else if !IsDigits(parts[0]) then
      Err(NotAnInteger(parts[0]))
    else
      match ParseParts(parts[1..])
      case Err(e) =>
        Err(e)
      case Ok(rest) =>
        Ok([DigitsValue(parts[0])] + rest)
  }

  /** `dotted_decimal_str_to_list`: split on `'.'`, convert every piece, then insist on
      exactly four numbers. */
  function DottedDecimalStrToList(s: string): (r: Result<seq<nat>, ValueError>)
    ensures r.Ok? <==> Count(s, '.') == 3 && AllNumerals(Split(s, '.'))
    ensures r.Ok? ==> |r.value| == NumOctets
    ensures r.Ok? ==> forall k | 0 <= k < NumOctets :: r.value[k] == DigitsValue(Split(s, '.')[k])
    ensures r.Err? && AllNumerals(Split(s, '.')) ==> r.error == WrongCount(Count(s, '.') + 1)
    ensures r.Err? && !AllNumerals(Split(s, '.')) ==> r.error.NotAnInteger?
    ensures r.Err? && !AllNumerals(Split(s, '.')) ==> r == ParseParts(Split(s, '.'))
  {
    var parts := Split(s, '.');
    match ParseParts(parts)
    case Err(e) =>
      Err(e)
    case Ok(ints) =>
      if |ints| != NumOctets then Err(WrongCount(|ints|)) else Ok(ints)
  }

  /** `list_to_dotted_decimal_str`: refuse any list that is not four long, otherwise join
      `str()` of each element with `'.'`. */
  function ListToDottedDecimalStr(l: seq<int>): (r: Result<string, ValueError>)
    ensures r.Err? <==> |l| != NumOctets
    ensures r.Err? ==> r.error == WrongCount(|l|)
    ensures r.Ok? ==> Split(r.value, '.') == seq(|l|, k requires 0 <= k < |l| => IntToString(l[k]))
  {
    if |l| != NumOctets then Err(WrongCount(|l|))
    else
      var pieces := seq(|l|, k requires 0 <= k < |l| => IntToString(l[k]));
      assert forall k | 0 <= k < |pieces| :: '.' !in pieces[k];
      SplitJoin(pieces, '.');
      Ok(Join(pieces, '.'))
  }

  /** Printing four octets and parsing the text gives the same four octets back. */
  lemma DottedDecimalRoundTrip(l: seq<nat>)
    requires |l| == NumOctets
    ensures ListToDottedDecimalStr(l).Ok?
    ensures DottedDecimalStrToList(ListToDottedDecimalStr(l).value) == Ok(l)
  {
    var pieces := seq(|l|, k requires 0 <= k < |l| => IntToString(l[k]));
    var s := Join(pieces, '.');
    assert ListToDottedDecimalStr(l) == Ok(s);
    forall k | 0 <= k < |pieces|
      ensures '.' !in pieces[k] && IsDigits(pieces[k]) && DigitsValue(pieces[k]) == l[k]
    {
      NatToStringValue(l[k]);
    }
    SplitJoin(pieces, '.');
    var r := DottedDecimalStrToList(s);
    assert r.Ok?;
    assert r.value == l;
  }

  /** `invert_octet`: `~(octet & 255) + 256`, where Python's `~x` is `-x - 1`. The result is
      the bitwise complement of the octet's low eight bits. */
  function InvertOctet(octet: nat): (r: nat)
    ensures r <= 255 && r == 255 - octet % 256
    ensures And(octet % 256, r) == 0 && Or(octet % 256, r) == 255
  {
    OctetLowBits(octet);
    var norm: int := And(octet, 255);
    var inverted := -norm - 1;
    inverted + 256
  }

  /** `x & 255` is the low byte of `x`, and that byte and `255 - byte` are complements. */
  lemma OctetLowBits(x: nat)
    ensures And(x, 255) == x % 256
    ensures And(x % 256, 255 - x % 256) == 0 && Or(x % 256, 255 - x % 256) == 255
  {
    assert Pow2(8) == 256;
    AndLowOnes(x, 8);
    Complement(x % 256, 8);
  }

  /** Inverting an octet twice gives it back. */
  lemma InvertOctetInvolution(octet: nat)
    requires octet <= 255
    ensures InvertOctet(InvertOctet(octet)) == octet
  {
    var once := InvertOctet(octet);
    ByteComplementTwice(octet, once, InvertOctet(once));
  }

  /** `255 - x % 256` applied twice gives back a byte. */
  lemma ByteComplementTwice(x: nat, once: nat, twice: nat)
    requires x <= 255 && once == 255 - x % 256 && twice == 255 - once % 256
    ensures twice == x
  {
  }

  /** The inverted octet shares no bit with the original, even above bit 7. */
  lemma InvertOctetDisjoint(m: nat)
    ensures And(m, InvertOctet(m)) == 0
  {
    AndBelow(m, InvertOctet(m), 8);
  }

  /** The octet-wise `&` of the first four octets of an address and a mask. */
  function Masked(ip: seq<nat>, mask: seq<nat>): (out: seq<nat>)
    requires |ip| >= NumOctets && |mask| >= NumOctets
  {
    seq(NumOctets, k requires 0 <= k < NumOctets => And(ip[k], mask[k]))
  }

  /** `mask_ip_address`: append `ip_addr[i] & subnet_mask[i]` for i in 0..3. */
  method MaskIpAddress(ip: seq<nat>, mask: seq<nat>) returns (maskedOctets: seq<nat>)
    requires |ip| >= NumOctets && |mask| >= NumOctets
    ensures maskedOctets == Masked(ip, mask)
    ensures forall k | 0 <= k < NumOctets :: And(maskedOctets[k], mask[k]) == maskedOctets[k]
  {
    maskedOctets := [];
    for i := 0 to NumOctets
      invariant maskedOctets == Masked(ip, mask)[..i]
    {
      maskedOctets := maskedOctets + [And(ip[i], mask[i])];
    }
    forall k | 0 <= k < NumOctets
      ensures And(maskedOctets[k], mask[k]) == maskedOctets[k]
    {
      AndIdempotentRight(ip[k], mask[k]);
    }
  }

  /** The docstring example: `[192, 168, 0, 1]` under `[255, 255, 254, 0]` is
      `[192, 168, 0, 0]`. */
  lemma MaskDocExample()
    ensures Masked([192, 168, 0, 1], [255, 255, 254, 0]) == [192, 168, 0, 0]
  {
    MaskTwoFullOctets(192, 168, 1, 254);
  }

  /** Two full mask octets keep the network part; a zero octet stays zero under any mask,
      and an empty mask octet clears the host part. */
  lemma MaskTwoFullOctets(a: nat, b: nat, d: nat, m: nat)
    requires a < 256 && b < 256 && d < 256
    ensures Masked([a, b, 0, d], [255, 255, m, 0]) == [a, b, 0, 0]
  {
    MaskFullAndEmptyOctet(a);
    MaskFullAndEmptyOctet(b);
    MaskFullAndEmptyOctet(d);
  }

  /** Masking twice with the same mask changes nothing more. */
  lemma {:induction false} AndIdempotentRight(a: nat, m: nat)
    ensures And(And(a, m), m) == And(a, m)
    decreases a
  {
    if a != 0 && m != 0 {
      AndIdempotentRight(a / 2, m / 2);
      AndHalves(And(a, m), m);
      AndHalves(a, m);
      SameHalves(And(And(a, m), m), And(a, m));
    }
  }

  /** A full octet mask keeps an octet as it is and an empty one clears it, as in the
      docstring example where `[192, 168, 0, 1]` under `[255, 255, 254, 0]` keeps the first
      two octets and clears the last. */
  lemma MaskFullAndEmptyOctet(a: nat)
    requires a < 256
    ensures And(a, 255) == a && And(a, 0) == 0
  {
    KeepOctet(a);
  }

  lemma KeepOctet(a: nat)
    requires a < 256
    ensures And(a, 255) == a
  {
    var low := a % 256;
    OctetLowBits(a);
    assert low == a;
  }

  /** What `get_random_ip_address` may produce: four values below 256. */
  predicate RandomOctets(rand: seq<nat>)
  {
    |rand| == NumOctets && forall k | 0 <= k < NumOctets :: rand[k] < 256
  }

  /** The octets of the new address: the address's bits under the mask, OR the random
      octets' bits under the inverted mask. */
  function SubnetOctets(ip: seq<nat>, mask: seq<nat>, rand: seq<nat>): seq<nat>
    requires |ip| == NumOctets && |mask| == NumOctets && |rand| == NumOctets
  {
    var inverted := seq(NumOctets, k requires 0 <= k < NumOctets => InvertOctet(mask[k]));
    var maskedRandom := Masked(rand, inverted);
    var maskedIp := Masked(ip, mask);
    seq(NumOctets, k requires 0 <= k < NumOctets => Or(maskedIp[k], maskedRandom[k]))
  }

  /** `get_random_subnet_address` with the random octets given: parse both strings (the
      address first), combine, print. */
  function RandomSubnetAddress(ipStr: string, maskStr: string, rand: seq<nat>): Result<string, ValueError>
    requires RandomOctets(rand)
  {
    match DottedDecimalStrToList(ipStr)
    case Err(e) =>
      Err(e)
    case Ok(ip) =>
      match DottedDecimalStrToList(maskStr)
      case Err(e) =>
        Err(e)
      case Ok(mask) =>
        ListToDottedDecimalStr(SubnetOctets(ip, mask, rand))
  }

  /** `get_random_subnet_address`: the same steps with the loops of the source. */
  method GetRandomSubnetAddress(ipStr: string, maskStr: string, rand: seq<nat>)
    returns (r: Result<string, ValueError>)
    requires RandomOctets(rand)
    ensures r == RandomSubnetAddress(ipStr, maskStr, rand)
  {
    var ipParsed := DottedDecimalStrToList(ipStr);
    if ipParsed.Err? {
      return Err(ipParsed.error);
    }
    var maskParsed := DottedDecimalStrToList(maskStr);
    if maskParsed.Err? {
      return Err(maskParsed.error);
    }
    var ipAddrList, subnetMaskList := ipParsed.value, maskParsed.value;
    var randomIpAddr := CombineOctets(ipAddrList, subnetMaskList, rand);
    r := ListToDottedDecimalStr(randomIpAddr);
  }

  /** The masking and combining loops of `get_random_subnet_address`. */
  method CombineOctets(ipAddrList: seq<nat>, subnetMaskList: seq<nat>, rand: seq<nat>)
    returns (randomIpAddr: seq<nat>)
    requires |ipAddrList| == NumOctets && |subnetMaskList| == NumOctets && |rand| == NumOctets
    ensures randomIpAddr == SubnetOctets(ipAddrList, subnetMaskList, rand)
  {
    var maskedIpAddr := MaskIpAddress(ipAddrList, subnetMaskList);
    var invertSubnetMask := seq(|subnetMaskList|, k requires 0 <= k < |subnetMaskList| =>
      InvertOctet(subnetMaskList[k]));
    var maskedRandomIpAddr := MaskIpAddress(rand, invertSubnetMask);
    randomIpAddr := [];
    for i := 0 to NumOctets
      invariant randomIpAddr == SubnetOctets(ipAddrList, subnetMaskList, rand)[..i]
    {
      randomIpAddr := randomIpAddr + [Or(maskedIpAddr[i], maskedRandomIpAddr[i])];
    }
    assert randomIpAddr == SubnetOctets(ipAddrList, subnetMaskList, rand);
  }

  /** The new address fails exactly when one of the inputs does not parse; otherwise it
      parses back to four octets that agree with the address wherever the mask has a 1 bit
      and with the random octets wherever the inverted mask has one. */
  lemma RandomSubnetAddressSameSubnet(ipStr: string, maskStr: string, rand: seq<nat>)
    requires RandomOctets(rand)
    ensures RandomSubnetAddress(ipStr, maskStr, rand).Ok? <==>
      DottedDecimalStrToList(ipStr).Ok? && DottedDecimalStrToList(maskStr).Ok?
    ensures RandomSubnetAddress(ipStr, maskStr, rand).Ok? ==>
      var ip, mask := DottedDecimalStrToList(ipStr).value, DottedDecimalStrToList(maskStr).value;
      var out := DottedDecimalStrToList(RandomSubnetAddress(ipStr, maskStr, rand).value);
      && out.Ok?
      && forall k | 0 <= k < NumOctets ::
           && And(out.value[k], mask[k]) == And(ip[k], mask[k])
           && And(out.value[k], InvertOctet(mask[k])) == And(rand[k], InvertOctet(mask[k]))
  {
    var ipR, maskR := DottedDecimalStrToList(ipStr), DottedDecimalStrToList(maskStr);
    if ipR.Ok? && maskR.Ok? {
      var ip, mask := ipR.value, maskR.value;
      var octets := SubnetOctets(ip, mask, rand);
      DottedDecimalRoundTrip(octets);
      forall k | 0 <= k < NumOctets
        ensures And(octets[k], mask[k]) == And(ip[k], mask[k])
        ensures And(octets[k], InvertOctet(mask[k])) == And(rand[k], InvertOctet(mask[k]))
      {
        InvertOctetDisjoint(mask[k]);
        MergeMasked(ip[k], rand[k], mask[k], InvertOctet(mask[k]));
      }
    }
  }
}
