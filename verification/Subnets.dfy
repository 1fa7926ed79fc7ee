/** Subnets as net.IPNet keeps them, and the two hand-written successor functions. */
module Subnets {
  import opened Wrappers
  import opened Types
  import opened Bits
  import opened Bytes
  import opened Cycle

  const MAX_MASK := 30
  const MAX_MASK_IPV6 := 126

  predicate AlikeUnder(mask: seq<byte>, a: IP, b: IP)
    requires |mask| == |a| == |b|
  {
    forall i :: 0 <= i < |a| ==> AndByte(a[i], mask[i]) == AndByte(b[i], mask[i])
  }

  /**
   A subnet with the prefix mask that decoding a CIDR produces: `ones` of `bits` bits.
   The address need not be the network address.
   */
  datatype IPNet = IPNet(ip: IP, ones: nat, bits: nat) {

    predicate Is(family: Family)
    {
      && ones <= bits
      && match family
         case V4 => |ip| == 4 && bits == 32
         case V6 => |ip| == 16 && bits == 128 && To4(ip).None?
    }

    /** Mapped IPv4 addresses under a mask of the IPv6 width. */
    predicate Mapped()
    {
      ones <= bits == 128 && |ip| == 16 && To4(ip).Some?
    }

    function Mask(): seq<byte>
      requires bits == 8 * |ip|
    {
      PrefixMask(ones, |ip|)
    }

    /** The lowest and the highest address, as numbers. */
    function Min(): nat
      requires bits == 8 * |ip|
    {
      RoundDown(Value(ip), Free(ones, |ip|))
    }

    function Max(): nat
      requires bits == 8 * |ip|
    {
      Min() + Pow2(Free(ones, |ip|)) - 1
    }

    /** net.IPNet.Contains. */
    predicate Contains(x: IP)
      requires bits == 8 * |ip|
    {
      var number := if To4(ip).Some? then To4(ip).value else ip;
      var mask := if |number| == |ip| then Mask() else Mask()[|ip| - |number|..];
      var y := if To4(x).Some? then To4(x).value else x;
      |y| == |number| && AlikeUnder(mask, number, y)
    }
  }

  /** One address of a command's result, with the gateway of its family. */
  datatype IPConfig = IPConfig(family: Family, address: IPNet, gateway: IP)

  lemma ContainsByMask(net: IPNet, x: IP)
    requires net.bits == 8 * |net.ip| && WellFormed(net.ip) && WellFormed(x) && |x| == |net.ip|
    ensures net.Contains(x) <==> AlikeUnder(net.Mask(), net.ip, x)
  {
    hide AlikeUnder, PrefixMask;
  }

  /** Membership by masked bytes is membership in the interval of numbers. */
  lemma ContainsIsInterval(net: IPNet, x: IP)
    requires net.bits == 8 * |net.ip| && WellFormed(net.ip) && WellFormed(x) && |x| == |net.ip|
    ensures net.Contains(x) <==> net.Min() <= Value(x) <= net.Max()
  {
    hide RoundDown, Value, Pow2, AndByte, MaskByte;
    var a, b := Base(net.ip, net.ones), Base(x, net.ones);
    assert net.Contains(x) <==> a == b by {
      ContainsByMask(net, x);
      assert forall i :: 0 <= i < |a| ==> a[i] == AndByte(net.ip[i], net.Mask()[i]) && b[i] == AndByte(x[i], net.Mask()[i]);
      assert a == b <==> forall i :: 0 <= i < |a| ==> a[i] == b[i];
    }
    MaskArithmetic(net.ip, net.ones);
    MaskArithmetic(x, net.ones);
    if Value(a) == Value(b) {
      ValueInjective(a, b);
    }
    SameBlock(Value(net.ip), Value(x), Free(net.ones, |x|));
  }

  /** A subnet with room for hosts. */
  predicate Usable(family: Family, net: IPNet)
  {
    net.Is(family) && net.ones <= match family case V4 => MAX_MASK case V6 => MAX_MASK_IPV6
  }

  /** Every subnet with two free bits is usable, and no other. */
  lemma UsableIff(family: Family, net: IPNet)
    ensures Usable(family, net) <==> net.Is(family) && net.ones + 2 <= net.bits
  {
  }

  /** The addresses that may be handed out: IPv4 also reserves the all-ones address. */
  function HostPool(family: Family, net: IPNet): Pool
    requires Usable(family, net)
  {
    assert net.Max() >= 1 by { RoomForHosts(net); }
    match family
    case V4 => Pool(net.Min() + 1, net.Max() - 1)
    case V6 => Pool(net.Min() + 1, net.Max())
  }

  lemma RoomForHosts(net: IPNet)
    requires net.bits == 8 * |net.ip| && net.ones + 2 <= net.bits
    ensures Pow2(Free(net.ones, |net.ip|)) >= 4 && net.Min() + 3 <= net.Max()
    ensures net.Min() % 2 == 0
  {
    assert Pow2(2) == 4;
    Pow2Monotonic(2, Free(net.ones, |net.ip|));
  }

  /** A pool has 2^(32-p) - 2 hosts for IPv4 and 2^(128-p) - 1 for IPv6. */
  lemma HostPoolShape(family: Family, net: IPNet)
    requires Usable(family, net)
    ensures var p := HostPool(family, net);
            p.Valid() && p.Size() == Pow2(net.bits - net.ones) - (if family == V4 then 2 else 1)
            && p.Size() >= (if family == V4 then 2 else 3) && p.hi < Pow2(net.bits)
            && forall a: nat :: p.Host(a) <==> net.Min() < a && (if family == V4 then a < net.Max() else a <= net.Max())
  {
    hide Pow2, RoundDown, Value;
    RoomForHosts(net);
    MaxFits(net);
  }

  /** The lowest and the highest number of a subnet, by division. */
  lemma SubnetNumbers(net: IPNet)
    requires net.bits == 8 * |net.ip| && net.ones <= net.bits
    ensures var size := Pow2(net.bits - net.ones);
            size > 0 && net.Min() == Value(net.ip) / size * size && net.Max() == net.Min() + size - 1
  {
    RoundDownIsMultiple(Value(net.ip), net.bits - net.ones);
    hide RoundDown, Pow2, Value;
  }

  /** The last address of a subnet still fits the address width. */
  lemma MaxFits(net: IPNet)
    requires net.bits == 8 * |net.ip|
    ensures Value(Last(net.ip, net.ones)) == net.Max() < Pow2(net.bits)
    ensures Value(Base(net.ip, net.ones)) == net.Min()
  {
    MaskArithmetic(net.ip, net.ones);
    ValueBound(Last(net.ip, net.ones));
  }

  /** The subnet's network address, and its last address filled in byte by byte. */
  method Bounds(subnet: IPNet) returns (minIP: IP, maxIP: IP)
    requires subnet.bits == 8 * |subnet.ip|
    ensures |minIP| == |maxIP| == |subnet.ip|
    ensures Value(minIP) == subnet.Min() && Value(maxIP) == subnet.Max()
  {
    hide RoundDown, Pow2, Value, OrByte, NotByte, AndByte, PrefixMask;
    var mask := subnet.Mask();
    minIP := ApplyMask(subnet.ip, mask);
    var buffer := new byte[|minIP|](i => 0);
    for i := 0 to |minIP|
      invariant buffer[..i] == SetHostBits(minIP, mask)[..i]
    {
      buffer[i] := OrByte(minIP[i], NotByte(mask[i]));
    }
    maxIP := buffer[..];
    assert minIP == Base(subnet.ip, subnet.ones) && maxIP == Last(subnet.ip, subnet.ones);
    MaskArithmetic(subnet.ip, subnet.ones);
  }

  /**
   The number of the address NextIP returns for s.  When the successor is the
   broadcast address the loop goes round again, but only if the unpadded spelling of
   that successor still has four bytes.
   */
  function NextNumber(s: nat, min: nat, max: nat): nat
  {
    var v := if s == max then min + 1 else s + 1;
    if v == max && v >= 0x100_0000 then min + 1 else v
  }

  function NextIPResult(ip: IP, subnet: IPNet): Result<IP, Failure>
    requires subnet.Is(V4)
  {
    if subnet.ones > MAX_MASK then Err(NoUsableAddress)
    else if To4(ip).None? then Err(WrongFamily)
    else if !subnet.Contains(To4(ip).value) then Err(OutsideSubnet)
    else Ok(Shortest(NextNumber(Value(To4(ip).value), subnet.Min(), subnet.Max())))
  }

  method NextIP(ip: IP, subnet: IPNet) returns (r: Result<IP, Failure>, ghost rounds: nat)
    requires subnet.Is(V4)
    ensures rounds <= 2
    ensures r == NextIPResult(ip, subnet)
  {
    rounds := 0;
    if subnet.ones > MAX_MASK {
      return Err(NoUsableAddress), 0;
    }
    if To4(ip).None? {
      return Err(WrongFamily), 0;
    }
    var ipv4 := To4(ip).value;
    if !subnet.Contains(ipv4) {
      return Err(OutsideSubnet), 0;
    }
    var minIP, maxIP := Bounds(subnet);
    AddressInRange(subnet, ipv4);
    assert Pow2(32) == 0x1_0000_0000 by { Pow2Small(); }
    var nextIP;
    nextIP, rounds := NextIPLoop(ipv4, minIP, maxIP);
    return Ok(nextIP), rounds;
  }

  /** NextIP's loop: step past the start, the network address and the broadcast address. */
  method NextIPLoop(ipv4: IP, minIP: IP, maxIP: IP) returns (nextIP: IP, ghost rounds: nat)
    requires |ipv4| == |minIP| == |maxIP| == 4
    requires Value(minIP) <= Value(ipv4) <= Value(maxIP) < 0x1_0000_0000
    requires Value(minIP) + 3 <= Value(maxIP)
    ensures rounds <= 2
    ensures nextIP == Shortest(NextNumber(Value(ipv4), Value(minIP), Value(maxIP)))
  {
    hide Value, Shortest;
    ghost var min, max := Value(minIP), Value(maxIP);
    ghost var v := if Value(ipv4) == max then min + 1 else Value(ipv4) + 1;
    nextIP := ipv4;
    rounds := 0;
    if Value(ipv4) == max { ValueInjective(ipv4, maxIP); }
    while Equal(nextIP, ipv4) || Equal(nextIP, minIP) || Equal(nextIP, maxIP)
      invariant rounds <= 2
      invariant rounds == 0 ==> nextIP == ipv4
      invariant rounds == 1 ==> nextIP == Shortest(v)
      invariant rounds == 2 ==> v == max >= 0x100_0000 && nextIP == Shortest(min + 1)
      invariant rounds == 1 ==> (Equal(nextIP, ipv4) || Equal(nextIP, minIP) || Equal(nextIP, maxIP) <==> Equal(nextIP, maxIP))
      invariant rounds == 1 ==> (Equal(nextIP, maxIP) <==> v == max >= 0x100_0000)
      invariant rounds == 2 ==> !Equal(nextIP, ipv4) && !Equal(nextIP, minIP) && !Equal(nextIP, maxIP)
      decreases 2 - rounds
    {
      if Equal(nextIP, maxIP) {
        nextIP := minIP;
      }
      nextIP := Shortest(Value(nextIP) + 1);
      rounds := rounds + 1;
      ghost var n := if rounds == 1 then v else min + 1;
      ShortestEquals(n, ipv4);
      ShortestEquals(n, minIP);
      ShortestEquals(n, maxIP);
    }
  }

  lemma NoPadding(ip: IP)
    ensures Zeros(0) + ip == ip
  {
  }

  /** How the unpadded spelling of a number compares with a 4-byte address. */
  lemma ShortestEquals(v: nat, b: IP)
    requires |b| == 4 && v < 0x1_0000_0000
    ensures Equal(Shortest(v), b) <==> v == Value(b) && v >= 0x100_0000
    ensures Value(Shortest(v)) == v
  {
    hide Value, Shortest, Spell, Pow2;
    Pow2Small();
    ShortestLength(|b|, v);
    ValueBound(b);
    SpellValue(b);
  }

  lemma AddressInRange(net: IPNet, x: IP)
    requires net.bits == 8 * |net.ip| && net.ones + 2 <= net.bits
    requires WellFormed(net.ip) && WellFormed(x) && |x| == |net.ip| && net.Contains(x)
    ensures net.Min() <= Value(x) <= net.Max() < Pow2(net.bits)
    ensures net.Min() + 3 <= net.Max()
  {
    ContainsIsInterval(net, x);
    MaxFits(net);
    RoomForHosts(net);
  }

  /**
   The unpadded spelling is an address exactly in subnets whose first octet is not zero,
   and there NextIP is the successor on the cycle of hosts.
   */
  lemma NextIPIsSuccessor(subnet: IPNet, s: nat)
    requires Usable(V4, subnet) && subnet.Min() <= s <= subnet.Max()
    ensures subnet.Min() >= 0x100_0000 ==>
              Shortest(NextNumber(s, subnet.Min(), subnet.Max())) == Spell(|subnet.ip|, Succ(HostPool(V4, subnet), s))
    ensures subnet.Min() < 0x100_0000 ==>
              |Shortest(NextNumber(subnet.Min(), subnet.Min(), subnet.Max()))| < 4
  {
    hide Value, Spell, Shortest, RoundDown;
    MaxFits(subnet);
    RoomForHosts(subnet);
    assert Pow2(32) == 0x1_0000_0000 by { Pow2Small(); }
    NumbersSucceed(|subnet.ip|, subnet.Min(), subnet.Max(), s);
  }

  lemma NumbersSucceed(width: nat, min: nat, max: nat, s: nat)
    requires width == 4
    requires min <= s <= max < 0x1_0000_0000 && min + 3 <= max && min % 2 == 0
    ensures min >= 0x100_0000 ==> Shortest(NextNumber(s, min, max)) == Spell(width, Succ(Pool(min + 1, max - 1), s))
    ensures min < 0x100_0000 ==> |Shortest(NextNumber(min, min, max))| < 4
  {
    hide Pow2, Shortest, Spell, Value;
    Pow2Small();
    ShortestLength(width, NextNumber(s, min, max));
    ShortestLength(width, NextNumber(min, min, max));
  }

  /**
   NextIP, outcome by outcome: the next number, or the first host's after the highest one;
   the broadcast address is skipped only at or above 1.0.0.0, where the spelling has four bytes.
   */
  lemma NextIPOutcome(ip: IP, subnet: IPNet)
    requires subnet.Is(V4)
    ensures var r := NextIPResult(ip, subnet);
            && (r == Err(NoUsableAddress) <==> subnet.ones > 30)
            && (r == Err(WrongFamily) <==> subnet.ones <= 30 && To4(ip).None?)
            && (r == Err(OutsideSubnet) <==>
                  subnet.ones <= 30 && To4(ip).Some? && !(subnet.Min() <= Value(To4(ip).value) <= subnet.Max()))
            && (r.Err? ==> r.error in {NoUsableAddress, WrongFamily, OutsideSubnet})
            && (r.Ok? ==>
                  var s := Value(To4(ip).value);
                  var wraps := s == subnet.Max() || (s + 1 == subnet.Max() && subnet.Max() >= 0x100_0000);
                  var v := if wraps then subnet.Min() + 1 else s + 1;
                  && Value(r.value) == v && (r.value != [] ==> r.value[0] != 0)
                  && (|r.value| == 4 <==> v >= 0x100_0000))
  {
    hide Value, Spell, Shortest, RoundDown, Pow2;
    if To4(ip).Some? && subnet.ones <= 30 {
      var four := To4(ip).value;
      ContainsIsInterval(subnet, four);
      RoomForHosts(subnet);
      MaxFits(subnet);
      if subnet.Contains(four) {
        var v := NextNumber(Value(four), subnet.Min(), subnet.Max());
        Pow2Small();
        assert v < Pow2(32);
        ShortestValue(v);
        NoLeadingZero(v);
        ShortestLength(|subnet.ip|, v);
      }
    }
  }

  /** NextIPv6, outcome by outcome. */
  lemma NextIPv6Outcome(ip: IP, subnet: IPNet)
    requires subnet.Is(V6)
    ensures var r := NextIPv6Result(ip, subnet);
            && (r == Err(NoUsableAddress) <==> subnet.ones > 126)
            && (r == Err(WrongFamily) <==> subnet.ones <= 126 && !(|ip| == 16 && To4(ip).None?))
            && (r == Err(OutsideSubnet) <==>
                  subnet.ones <= 126 && |ip| == 16 && To4(ip).None? && !(subnet.Min() <= Value(ip) <= subnet.Max()))
            && (r.Err? ==> r.error in {NoUsableAddress, WrongFamily, OutsideSubnet})
            && (r.Ok? ==> |r.value| == 16 && Value(r.value) == if Value(ip) < subnet.Max() then Value(ip) + 1 else subnet.Min() + 1)
  {
    hide Value, Spell, RoundDown, Pow2;
    MappedIsNotPlain(ip);
    if PlainIPv6(ip).Some? && subnet.ones <= 126 {
      ContainsIsInterval(subnet, ip);
      RoomForHosts(subnet);
      MaxFits(subnet);
      if subnet.Contains(ip) {
        HostPoolShape(V6, subnet);
        ValueSpell(|subnet.ip|, Succ(HostPool(V6, subnet), Value(ip)));
      }
    }
  }

  lemma MappedIsNotPlain(ip: IP)
    ensures PlainIPv6(ip).Some? <==> |ip| == 16 && To4(ip).None?
    ensures PlainIPv6(ip).Some? ==> PlainIPv6(ip).value == ip
  {
    if |ip| == 4 {
      assert (MAPPED_PREFIX + ip)[..12] == MAPPED_PREFIX;
    }
  }

  /** The 16-byte form of an address that is not an IPv4 address in disguise. */
  function PlainIPv6(ip: IP): (r: Option<IP>)
    ensures r.Some? ==> |r.value| == 16 && To4(r.value).None?
    ensures |ip| == 16 && To4(ip).None? ==> r == Some(ip)
  {
    var wide := To16(ip);
    if wide.Some? && To4(wide.value).None? then wide else None
  }

  function NextIPv6Result(ip: IP, subnet: IPNet): Result<IP, Failure>
    requires subnet.Is(V6) || subnet.Mapped()
  {
    if subnet.ones > MAX_MASK_IPV6 then Err(NoUsableAddress)
    else if PlainIPv6(ip).None? then Err(WrongFamily)
    else if !subnet.Contains(PlainIPv6(ip).value) then Err(OutsideSubnet)
    else Ok(Spell(|subnet.ip|, Succ(HostPool(V6, subnet), Value(PlainIPv6(ip).value))))
  }

  method NextIPv6(ip: IP, subnet: IPNet) returns (r: Result<IP, Failure>, ghost rounds: nat)
    requires subnet.Is(V6) || subnet.Mapped()
    ensures rounds <= 1
    ensures r == NextIPv6Result(ip, subnet)
  {
    hide Pow2, RoundDown, Value, Spell;
    rounds := 0;
    if subnet.ones > MAX_MASK_IPV6 {
      return Err(NoUsableAddress), 0;
    }
    if PlainIPv6(ip).None? {
      return Err(WrongFamily), 0;
    }
    var ipv6 := PlainIPv6(ip).value;
    if !subnet.Contains(ipv6) {
      return Err(OutsideSubnet), 0;
    }
    var minIP, maxIP := Bounds(subnet);
    AddressInRange(subnet, ipv6);
    var nextIP;
    nextIP, rounds := NextIPv6Loop(ipv6, minIP, maxIP);
    assert nextIP == Spell(|subnet.ip|, Succ(HostPool(V6, subnet), Value(ipv6)));
    r := Ok(nextIP);
  }

  /** NextIPv6's loop, with the successor written back into sixteen bytes. */
  method NextIPv6Loop(ipv6: IP, minIP: IP, maxIP: IP) returns (nextIP: IP, ghost rounds: nat)
    requires |ipv6| == |minIP| == |maxIP| == 16
    requires Value(minIP) <= Value(ipv6) <= Value(maxIP) < Pow2(8 * |maxIP|)
    requires Value(minIP) + 3 <= Value(maxIP)
    ensures rounds <= 1
    ensures nextIP == Spell(|ipv6|, Succ(Pool(Value(minIP) + 1, Value(maxIP)), Value(ipv6)))
  {
    hide Value, Spell, Shortest, Pow2, Zeros;
    ghost var v := Succ(Pool(Value(minIP) + 1, Value(maxIP)), Value(ipv6));
    assert v == if Value(ipv6) == Value(maxIP) then Value(minIP) + 1 else Value(ipv6) + 1;
    nextIP := ipv6;
    rounds := 0;
    if Value(ipv6) == Value(maxIP) { ValueInjective(ipv6, maxIP); }
    while Equal(nextIP, ipv6) || Equal(nextIP, minIP)
      invariant rounds <= 1
      invariant nextIP == if rounds == 0 then ipv6 else Spell(|ipv6|, v)
      invariant rounds == 1 ==> Value(nextIP) == v
      decreases 1 - rounds
    {
      if Equal(nextIP, maxIP) {
        nextIP := minIP;
      }
      var nextIPBytes := Shortest(Value(nextIP) + 1);
      assert Value(nextIP) + 1 == v;
      PadShortest(|ipv6|, v);
      if |nextIPBytes| < 16 {
        nextIP := Zeros(16 - |nextIPBytes|) + nextIPBytes;
      } else {
        NoPadding(nextIPBytes);
        nextIP := nextIPBytes;
      }
      rounds := rounds + 1;
      ValueSpell(|ipv6|, v);
    }
  }
}
