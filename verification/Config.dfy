/** Validation of a decoded IPAM configuration, and what its acceptance means for addresses. */
module Config {
  import opened Wrappers
  import opened Types
  import opened Bits
  import opened Bytes
  import opened Subnets

  /** The IPAM section of a network configuration; an empty gateway is a nil one. */
  datatype IPAMConfig = IPAMConfig(
    id: string,
    ipv4Subnet: Option<IPNet>, ipv4Address: Option<IPNet>, ipv4Gateway: IP,
    ipv6Subnet: Option<IPNet>, ipv6Address: Option<IPNet>, ipv6Gateway: IP)

  /** What decoding hands over: the IPv4 subnet is one, the IPv6 one may turn out to be of either version, or mapped. */
  predicate Decoded(c: IPAMConfig)
  {
    && (c.ipv4Subnet.Some? ==> c.ipv4Subnet.value.Is(V4))
    && (c.ipv6Subnet.Some? ==> c.ipv6Subnet.value.Is(V4) || c.ipv6Subnet.value.Is(V6) || c.ipv6Subnet.value.Mapped())
    && (c.ipv4Address.Some? ==> WellFormed(c.ipv4Address.value.ip))
    && (c.ipv4Gateway != [] ==> WellFormed(c.ipv4Gateway))
  }

  function VerifyIPSubnet(ip: IP, subnet: IPNet): Result<(), Failure>
    requires subnet.bits == 8 * |subnet.ip|
  {
    if subnet.Contains(ip) then Ok(()) else Err(OutsideSubnet)
  }

  /** The address after the subnet's configured address, in the shortest spelling of its number. */
  function DefaultGateway(subnet: IPNet): IP
  {
    Shortest(Value(if To4(subnet.ip).Some? then To4(subnet.ip).value else subnet.ip) + 1)
  }

  predicate IsIPv6NetworkAddress(subnet: IPNet, ip: IP)
  {
    Equal(ip, Base(subnet.ip, subnet.ones))
  }

  method IsNetworkOrBroadcast(subnet: IPNet, ip: IP) returns (reserved: bool)
    requires subnet.Is(V4) && WellFormed(ip)
    ensures reserved <==> |ip| == 4 && (Value(ip) == subnet.Min() || Value(ip) == subnet.Max())
  {
    var network, broadcast := Bounds(subnet);
    if |ip| == 4 && Value(ip) == subnet.Min() {
      ValueInjective(ip, network);
    }
    if |ip| == 4 && Value(ip) == subnet.Max() {
      ValueInjective(ip, broadcast);
    }
    MappedHasForm4(ip, network);
    MappedHasForm4(ip, broadcast);
    return Equal(ip, network) || Equal(ip, broadcast);
  }

  lemma MappedHasForm4(ip: IP, four: IP)
    requires WellFormed(ip) && |four| == 4
    ensures Equal(ip, four) <==> ip == four
  {
    assert (MAPPED_PREFIX + four)[..12] == MAPPED_PREFIX;
  }

  // ---- what validation decides, on numbers

  /** Why an address may not be asked for, or used as a gateway, in a usable subnet. */
  function HostProblem(family: Family, net: IPNet, ip: IP): Option<Failure>
    requires Usable(family, net)
  {
    if family == V4 && |ip| != |net.ip| then Some(OutsideSubnet)
    else if family == V6 && (|ip| != |net.ip| || To4(ip).Some?) then Some(WrongFamily)
    else if !(net.Min() <= Value(ip) <= net.Max()) then Some(OutsideSubnet)
    else if !HostPool(family, net).Host(Value(ip)) then Some(ReservedAddress)
    else None
  }

  /** The first reason if there is one, else the second. */
  function First(a: Option<Failure>, b: Option<Failure>): Option<Failure>
  {
    if a.Some? then a else b
  }

  /** Why an address may not be asked for in a mapped subnet: none may. */
  function MappedProblem(ip: IP): Failure
  {
    if |ip| == 16 && To4(ip).None? then OutsideSubnet else WrongFamily
  }

  function FamilyProblem(family: Family, net: IPNet, address: Option<IPNet>, gateway: IP): Option<Failure>
  {
    if family == V6 && net.Mapped() then
      if net.ones > MAX_MASK_IPV6 then Some(NoUsableAddress)
      else First(if address.Some? then Some(MappedProblem(address.value.ip)) else None,
                 if gateway != [] then Some(MappedProblem(gateway)) else None)
    else if !net.Is(family) then Some(WrongFamily)
    else if !Usable(family, net) then Some(NoUsableAddress)
    else First(if address.Some? then HostProblem(family, net, address.value.ip) else None,
               if gateway != [] then HostProblem(family, net, gateway) else None)
  }

  function ConfigProblem(c: IPAMConfig): Option<Failure>
  {
    if c.ipv4Subnet.None? && c.ipv6Subnet.None? then Some(NoSubnet)
    else First(if c.ipv4Subnet.Some? then FamilyProblem(V4, c.ipv4Subnet.value, c.ipv4Address, c.ipv4Gateway) else None,
               if c.ipv6Subnet.Some? then FamilyProblem(V6, c.ipv6Subnet.value, c.ipv6Address, c.ipv6Gateway) else None)
  }

  /** The configuration with the default gateways filled in. */
  function WithDefaults(c: IPAMConfig): IPAMConfig
  {
    c.(ipv4Gateway := if c.ipv4Subnet.Some? && c.ipv4Gateway == [] then DefaultGateway(c.ipv4Subnet.value) else c.ipv4Gateway,
       ipv6Gateway := if c.ipv6Subnet.Some? && c.ipv6Gateway == [] then DefaultGateway(c.ipv6Subnet.value) else c.ipv6Gateway)
  }

  lemma InSubnet(net: IPNet, ip: IP)
    requires net.bits == 8 * |net.ip| && WellFormed(net.ip) && WellFormed(ip)
    ensures net.Contains(ip) <==> |ip| == |net.ip| && net.Min() <= Value(ip) <= net.Max()
  {
    if |ip| == |net.ip| {
      ContainsIsInterval(net, ip);
    }
  }

  lemma NetworkAddress(net: IPNet, ip: IP)
    requires net.Is(V6) && |ip| == 16
    ensures IsIPv6NetworkAddress(net, ip) <==> Value(ip) == net.Min()
  {
    MaxFits(net);
    if Value(ip) == net.Min() {
      ValueInjective(ip, Base(net.ip, net.ones));
    }
  }

  /** The checks of one IPv4 section, in the order the code makes them. */
  method CheckIPv4(subnet: IPNet, address: Option<IPNet>, gateway: IP) returns (problem: Option<Failure>)
    requires subnet.Is(V4) && (address.Some? ==> WellFormed(address.value.ip)) && (gateway != [] ==> WellFormed(gateway))
    ensures problem == FamilyProblem(V4, subnet, address, gateway)
  {
    if subnet.ones > MAX_MASK {
      return Some(NoUsableAddress);
    }
    if address.Some? {
      InSubnet(subnet, address.value.ip);
      var inside := VerifyIPSubnet(address.value.ip, subnet);
      if inside.Err? {
        return Some(inside.error);
      }
      var reserved := IsNetworkOrBroadcast(subnet, address.value.ip);
      if reserved {
        return Some(ReservedAddress);
      }
    }
    if gateway != [] {
      InSubnet(subnet, gateway);
      RoomForHosts(subnet);
      var reserved := IsNetworkOrBroadcast(subnet, gateway);
      if reserved {
        return Some(ReservedAddress);
      }
      var inside := VerifyIPSubnet(gateway, subnet);
      if inside.Err? {
        return Some(inside.error);
      }
    }
    return None;
  }

  method CheckIPv6(subnet: IPNet, address: Option<IPNet>, gateway: IP) returns (problem: Option<Failure>)
    requires subnet.Is(V4) || subnet.Is(V6) || subnet.Mapped()
    ensures problem == FamilyProblem(V6, subnet, address, gateway)
  {
    if subnet.bits != 128 {
      return Some(WrongFamily);
    }
    if subnet.ones > MAX_MASK_IPV6 {
      return Some(NoUsableAddress);
    }
    if address.Some? {
      problem := CheckIPv6Host(subnet, address.value.ip);
      if problem.Some? {
        return;
      }
    }
    if gateway != [] {
      problem := CheckIPv6Host(subnet, gateway);
      return;
    }
    return None;
  }

  method CheckIPv6Host(subnet: IPNet, ip: IP) returns (problem: Option<Failure>)
    requires Usable(V6, subnet) || subnet.Mapped()
    ensures problem == if subnet.Mapped() then Some(MappedProblem(ip)) else HostProblem(V6, subnet, ip)
  {
    if To4(ip).Some? {
      return Some(WrongFamily);
    }
    if To16(ip).None? {
      return Some(WrongFamily);
    }
    if !subnet.Mapped() {
      InSubnet(subnet, ip);
    }
    var inside := VerifyIPSubnet(ip, subnet);
    if inside.Err? {
      return Some(inside.error);
    }
    NetworkAddress(subnet, ip);
    if IsIPv6NetworkAddress(subnet, ip) {
      return Some(ReservedAddress);
    }
    return None;
  }

  /** LoadIPAMConfig, after decoding. */
  method LoadIPAMConfig(raw: IPAMConfig) returns (r: Result<IPAMConfig, Failure>)
    requires Decoded(raw)
    ensures r == match ConfigProblem(raw) case Some(e) => Err(e) case None => Ok(WithDefaults(raw))
    ensures r.Ok? ==>
              && r.value.id == raw.id
              && r.value.ipv4Subnet == raw.ipv4Subnet && r.value.ipv4Address == raw.ipv4Address
              && r.value.ipv6Subnet == raw.ipv6Subnet && r.value.ipv6Address == raw.ipv6Address
              && GatewayFilledIn(raw.ipv4Subnet, raw.ipv4Gateway, r.value.ipv4Gateway)
              && GatewayFilledIn(raw.ipv6Subnet, raw.ipv6Gateway, r.value.ipv6Gateway)
  {
    if raw.ipv4Subnet.Some? {
      DefaultGatewayIsNext(raw.ipv4Subnet.value);
    }
    if raw.ipv6Subnet.Some? {
      DefaultGatewayIsNext(raw.ipv6Subnet.value);
    }
    var conf := raw;
    if raw.ipv4Subnet.None? && raw.ipv6Subnet.None? {
      return Err(NoSubnet);
    }
    if raw.ipv4Subnet.Some? {
      var problem := CheckIPv4(raw.ipv4Subnet.value, raw.ipv4Address, raw.ipv4Gateway);
      if problem.Some? {
        return Err(problem.value);
      }
      if conf.ipv4Gateway == [] {
        conf := conf.(ipv4Gateway := DefaultGateway(conf.ipv4Subnet.value));
      }
    }
    if raw.ipv6Subnet.Some? {
      var problem := CheckIPv6(raw.ipv6Subnet.value, raw.ipv6Address, raw.ipv6Gateway);
      if problem.Some? {
        return Err(problem.value);
      }
      if conf.ipv6Gateway == [] {
        conf := conf.(ipv6Gateway := DefaultGateway(conf.ipv6Subnet.value));
      }
    }
    return Ok(conf);
  }

  // ---- what acceptance means

  /** A given gateway stays; a missing one of a configured subnet becomes the number after the configured address. */
  predicate GatewayFilledIn(subnet: Option<IPNet>, given: IP, gateway: IP)
  {
    if given != [] || subnet.None? then gateway == given
    else
      var ip := subnet.value.ip;
      Value(gateway) == Value(if To4(ip).Some? then To4(ip).value else ip) + 1 && (gateway != [] ==> gateway[0] != 0)
  }

  lemma DefaultGatewayIsNext(net: IPNet)
    ensures GatewayFilledIn(Some(net), [], DefaultGateway(net))
    ensures WellFormed(net.ip) ==> Value(DefaultGateway(net)) == Value(net.ip) + 1
  {
    hide Value, Shortest;
    var v := Value(if To4(net.ip).Some? then To4(net.ip).value else net.ip) + 1;
    ShortestValue(v);
    NoLeadingZero(v);
  }

  /** A configuration is accepted exactly if it has a subnet and each section is; else the first section at fault is reported. */
  lemma AcceptedIff(c: IPAMConfig)
    ensures ConfigProblem(c) == None <==>
              && (c.ipv4Subnet.Some? || c.ipv6Subnet.Some?)
              && (c.ipv4Subnet.Some? ==> FamilyProblem(V4, c.ipv4Subnet.value, c.ipv4Address, c.ipv4Gateway) == None)
              && (c.ipv6Subnet.Some? ==> FamilyProblem(V6, c.ipv6Subnet.value, c.ipv6Address, c.ipv6Gateway) == None)
    ensures c.ipv4Subnet.None? && c.ipv6Subnet.None? ==> ConfigProblem(c) == Some(NoSubnet)
    ensures c.ipv4Subnet.Some? ==>
              var problem := FamilyProblem(V4, c.ipv4Subnet.value, c.ipv4Address, c.ipv4Gateway);
              problem.Some? ==> ConfigProblem(c) == problem
  {
    hide FamilyProblem;
  }

  /** An address strictly between the subnet's lowest and highest; for IPv6 the highest is one too. */
  predicate GoodHost(family: Family, net: IPNet, ip: IP)
    requires net.bits == 8 * |net.ip|
  {
    && |ip| == |net.ip| && (family == V6 ==> To4(ip).None?)
    && net.Min() < Value(ip) && (if family == V4 then Value(ip) < net.Max() else Value(ip) <= net.Max())
  }

  /** Which error an address meets. */
  predicate FaultOf(family: Family, net: IPNet, ip: IP, e: Failure)
    requires net.bits == 8 * |net.ip|
  {
    match e
    case WrongFamily => family == V6 && !(|ip| == 16 && To4(ip).None?)
    case ReservedAddress => |ip| == |net.ip| && (Value(ip) == net.Min() || (family == V4 && Value(ip) == net.Max()))
    case OutsideSubnet => if |ip| == |net.ip| then !(net.Min() <= Value(ip) <= net.Max()) else family == V4
    case _ => false
  }

  /**
   One section, outcome by outcome: a subnet with less than two free bits is refused; then
   the address is to blame if it is no host, and only then the gateway.
   */
  lemma SectionOutcome(family: Family, net: IPNet, address: Option<IPNet>, gateway: IP)
    requires net.Is(family)
    ensures var r := FamilyProblem(family, net, address, gateway);
            var addressGood := address.Some? ==> GoodHost(family, net, address.value.ip);
            && (r == Some(NoUsableAddress) <==> net.ones + 2 > net.bits)
            && (r == None <==> net.ones + 2 <= net.bits && addressGood && (gateway != [] ==> GoodHost(family, net, gateway)))
            && (r.Some? && r.value != NoUsableAddress ==>
                  FaultOf(family, net, if addressGood then gateway else address.value.ip, r.value))
  {
    hide GoodHost, FaultOf, HostProblem;
    UsableIff(family, net);
    if Usable(family, net) {
      if address.Some? {
        HostVerdict(family, net, address.value.ip);
      }
      HostVerdict(family, net, gateway);
    }
  }

  /** In a section whose subnet is written with a mapped address nothing may be given. */
  lemma MappedOutcome(net: IPNet, address: Option<IPNet>, gateway: IP)
    requires net.Mapped()
    ensures var r := FamilyProblem(V6, net, address, gateway);
            var ip := if address.Some? then address.value.ip else gateway;
            && (r == Some(NoUsableAddress) <==> net.ones + 2 > net.bits)
            && (r == None <==> net.ones + 2 <= net.bits && address.None? && gateway == [])
            && (r.Some? && r.value != NoUsableAddress ==>
                  r.value == if |ip| == 16 && To4(ip).None? then OutsideSubnet else WrongFamily)
  {
  }

  lemma HostVerdict(family: Family, net: IPNet, ip: IP)
    requires Usable(family, net)
    ensures HostProblem(family, net, ip) == None <==> GoodHost(family, net, ip)
    ensures var r := HostProblem(family, net, ip); r.Some? ==> r.value != NoUsableAddress && FaultOf(family, net, ip, r.value)
  {
    hide Value, RoundDown, Pow2;
    HostPoolShape(family, net);
  }

  /** A subnet of the other version is refused. */
  lemma OtherVersionRefused(family: Family, net: IPNet, address: Option<IPNet>, gateway: IP)
    requires net.Is(if family == V4 then V6 else V4)
    ensures FamilyProblem(family, net, address, gateway) == Some(WrongFamily)
  {
  }

  /**
   The default gateway is a host of the subnet exactly when the configured address is
   neither of its last two (IPv4) or its last (IPv6), and the successor's leading byte is in use;
   with the network address for the configured one only the leading byte matters.
   */
  lemma DefaultGatewayIsHost(family: Family, net: IPNet)
    requires Usable(family, net)
    ensures HostProblem(family, net, DefaultGateway(net)) == None <==>
              Value(net.ip) < HostPool(family, net).hi && Pow2(8 * (|net.ip| - 1)) <= Value(net.ip) + 1
    ensures Value(net.ip) == net.Min() ==> Value(net.ip) < HostPool(family, net).hi
  {
    hide Value, Pow2, RoundDown, Shortest, HostProblem;
    var v, p := Value(net.ip) + 1, HostPool(family, net);
    HostPoolShape(family, net);
    assert p.lo <= v;
    GatewaySpelling(family, net, Shortest(v), v);
  }

  lemma LeadingByteIsPlain(ip: IP)
    requires |ip| == 4 || (|ip| == 16 && ip[0] != 0)
    ensures |ip| == 16 ==> To4(ip).None?
  {
    if |ip| == 16 {
      assert ip[..12][0] == ip[0];
    }
  }

  lemma GatewaySpelling(family: Family, net: IPNet, gw: IP, v: nat)
    requires Usable(family, net) && gw == Shortest(v) && net.Min() < v
    ensures HostPool(family, net).hi < Pow2(net.bits)
    ensures HostProblem(family, net, gw) == None <==> v <= HostPool(family, net).hi && Pow2(8 * (|net.ip| - 1)) <= v
  {
    hide Pow2, RoundDown, Value, Shortest, Spell;
    HostPoolShape(family, net);
    ShortestValue(v);
    if v < Pow2(net.bits) {
      ShortestLength(|net.ip|, v);
    }
    if |gw| == |net.ip| {
      LeadingByte(gw);
      if gw[0] != 0 {
        LeadingByteIsPlain(gw);
      }
    }
  }
}
