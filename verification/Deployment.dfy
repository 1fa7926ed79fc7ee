/** Which accepted configurations the commands can serve, and what their results mean to the bridge. */
module Deployment {
  import opened Wrappers
  import opened Types
  import opened Bits
  import opened Bytes
  import opened Keys
  import opened Cycle
  import opened Subnets
  import opened Config
  import opened IPStore
  import opened Allocation
  import opened Runs
  import opened Refinement
  import opened Commands
  import opened CommandRefinement
  import opened StoreLiveness
  import opened Networks
  import Bridge
  import BridgeRace

  // ---- where the addresses of a subnet lie

  /** Every address of an IPv4 subnet of at least eight network bits has the subnet's first octet. */
  lemma FirstOctet(net: IPNet, a: nat)
    requires net.Is(V4) && net.ones >= 8 && net.Min() <= a <= net.Max()
    ensures Plain(V4, a) && Address(V4, a)[0] == net.ip[0]
  {
    MaxFits(net);
    var ip := Address(V4, a);
    SpellNames(net, ip, a);
    ContainsIsInterval(net, ip);
    ContainsByMask(net, ip);
    MaskOneByte(ip[0], Kept(net.ones, 0));
    MaskOneByte(net.ip[0], Kept(net.ones, 0));
    hide Value, Spell;
    assert AndByte(net.ip[0], net.Mask()[0]) == AndByte(ip[0], net.Mask()[0]);
  }

  /** Such a subnet is one the IPv4 allocator serves and keeps track of exactly when that octet's text starts with 1. */
  lemma TrackedByFirstOctet(net: IPNet)
    requires Usable(V4, net) && net.ones >= 8
    ensures Tracked(V4, net) <==> LeadingOne(net.ip[0])
    ensures LeadingOne(net.ip[0]) ==> Served4(net)
  {
    assert LeadingOne(net.ip[0]) ==> net.ip[0] != 0;
    hide LeadingOne, Plain, Pow2, Value;
    forall a: nat | net.Min() <= a <= net.Max()
      ensures Plain(V4, a) && Address(V4, a)[0] == net.ip[0]
    {
      FirstOctet(net, a);
    }
    RoomForHosts(net);
    assert Listed(V4, net.Min()) <==> LeadingOne(net.ip[0]);
    LeadingByteOfMin(net);
  }

  /** For such a subnet the one danger to termination is a matter of that octet too. */
  lemma SixByFirstOctet(s: Setup)
    requires GoodSetup(s) && s.net4.ones >= 8
    ensures |s.net4.ip| == 4 && (NoSix(s) <==> s.net4.ip[0] != 6)
  {
    hide Value;
    NetUsable(s, V4);
    HostPoolShape(V4, s.net4);
    hide GoodSetup, Plain, Served4, Address;
    var p := HostPool(V4, s.net4);
    forall a: nat | p.Host(a)
      ensures Address(V4, a)[0] == s.net4.ip[0]
    {
      FirstOctet(s.net4, a);
    }
    assert Host(s, V4, p.lo);
  }

  lemma FourBytes(b: IP)
    requires |b| == 4
    ensures Value(b) >= 0x100_0000 <==> b[0] != 0
  {
    hide Value, Pow2;
    LeadingByte(b);
    Pow2Small();
    assert 8 * (|b| - 1) == 24;
  }

  lemma LeadingByteOfMin(net: IPNet)
    requires net.Is(V4) && net.ones >= 8
    ensures net.Min() >= 0x100_0000 <==> net.ip[0] != 0
  {
    hide Value, Spell, Pow2, RoundDown;
    MaxFits(net);
    RoomBelow(net);
    FirstOctet(net, net.Min());
    SpellNames(net, Address(V4, net.Min()), net.Min());
    FourBytes(Address(V4, net.Min()));
  }

  lemma RoomBelow(net: IPNet)
    requires net.bits == 8 * |net.ip|
    ensures net.Min() <= net.Max()
  {
  }

  // ---- mapped IPv4 addresses among the IPv6 ones

  const MAPPED_MIN := 0xffff_0000_0000
  const MAPPED_MAX := 0xffff_ffff_ffff

  lemma {:induction false} ValueOfZeros(n: nat)
    ensures Value(Zeros(n)) == 0
  {
    if n > 0 {
      ValueOfZeros(n - 1);
      assert Zeros(n)[..n - 1] == Zeros(n - 1);
    }
  }

  lemma ValueOfMapped(prefix: IP)
    requires prefix == MAPPED_PREFIX
    ensures Value(prefix) == 0xffff
  {
    var n := |prefix|;
    assert prefix[..n - 1][..n - 2] == Zeros(n - 2);
    ValueOfZeros(n - 2);
    assert prefix[..n - 1] == Zeros(n - 2) + [0xff];
    assert Value(prefix[..n - 1]) == 0xff;
  }

  /** The spelling of a number without its last four bytes. */
  lemma SpellPrefix(n: nat, v: nat)
    ensures Spell(n + 4, v)[..n] == Spell(n, v / 0x1_0000_0000)
  {
    assert v / 256 / 256 / 256 / 256 == v / 0x1_0000_0000;
    assert Spell(n + 4, v)[..n + 3] == Spell(n + 3, v / 256);
    assert Spell(n + 3, v / 256)[..n + 2] == Spell(n + 2, v / 256 / 256);
    assert Spell(n + 2, v / 256 / 256)[..n + 1] == Spell(n + 1, v / 256 / 256 / 256);
    assert Spell(n + 1, v / 256 / 256 / 256)[..n] == Spell(n, v / 0x1_0000_0000);
  }

  /** The mapped IPv4 addresses are an interval of the IPv6 ones. */
  lemma MappedInterval(a: nat)
    requires a < Pow2(8 * Width(V6))
    ensures Plain(V6, a) <==> a < MAPPED_MIN || MAPPED_MAX < a
  {
    hide Spell, Pow2, Value;
    var n := |MAPPED_PREFIX|;
    MappedPrefix(n, MAPPED_PREFIX, a);
    SpellPrefix(n, a);
  }

  lemma MappedPrefix(n: nat, prefix: IP, a: nat)
    requires prefix == MAPPED_PREFIX && n == |prefix| && a < Pow2(8 * (n + 4))
    ensures Spell(n, a / 0x1_0000_0000) == prefix <==> a / 0x1_0000_0000 == 0xffff
  {
    hide Spell, Value, Pow2;
    HighBytes(a, n);
    ValueSpell(n, a / 0x1_0000_0000);
    ValueOfMapped(prefix);
    SpellValue(prefix);
  }

  lemma HighBytes(a: nat, n: nat)
    requires a < Pow2(8 * (n + 4))
    ensures a / 0x1_0000_0000 < Pow2(8 * n)
  {
    hide Pow2;
    Pow2Bytes(n + 1);
    Pow2Bytes(n + 2);
    Pow2Bytes(n + 3);
    Pow2Bytes(n + 4);
  }

  /** The IPv6 allocator serves exactly the subnets that avoid the mapped addresses. */
  lemma ServedByInterval(net: IPNet)
    requires Usable(V6, net)
    ensures Served6(net) <==> net.Max() < MAPPED_MIN || MAPPED_MAX < net.Min()
  {
    hide Plain, Pow2, RoundDown;
    MaxFits(net);
    RoomBelow(net);
    forall a: nat | net.Min() <= a <= net.Max()
      ensures Plain(V6, a) <==> a < MAPPED_MIN || MAPPED_MAX < a
    {
      MappedInterval(a);
    }
    if net.Min() <= MAPPED_MAX && MAPPED_MIN <= net.Max() {
      assert !Plain(V6, if net.Min() < MAPPED_MIN then MAPPED_MIN else net.Min());
    }
  }

  // ---- the successor functions from end to end

  /** What the family's successor function answers. */
  function NextResult(f: Family, start: IP, net: IPNet): Result<IP, Failure>
    requires Usable(f, net)
  {
    if f == V4 then NextIPResult(start, net) else NextIPv6Result(start, net)
  }

  /** Some call of the successor function returns the address. */
  ghost predicate Returned(f: Family, net: IPNet, ip: IP)
    requires Usable(f, net)
  {
    exists start: IP :: NextResult(f, start, net) == Ok(ip)
  }

  /** What is returned for the start with number s. */
  function NextSpelling(f: Family, net: IPNet, s: nat): IP
    requires Usable(f, net)
  {
    if f == V4 then Shortest(NextNumber(s, net.Min(), net.Max())) else Spell(|net.ip|, Succ(HostPool(V6, net), s))
  }

  lemma NextFromNumber(f: Family, net: IPNet, s: nat)
    requires Usable(f, net) && Plain(f, s) && net.Min() <= s <= net.Max()
    ensures NextResult(f, Address(f, s), net) == Ok(NextSpelling(f, net, s))
  {
    hide Value, Spell, Pow2, RoundDown, Shortest, NextNumber;
    StartNumber(f, net, s);
  }

  /** A call that returns an address starts from a number of the subnet; a mapped start is refused. */
  lemma NumberOfStart(f: Family, net: IPNet, start: IP) returns (s: nat)
    requires Usable(f, net) && NextResult(f, start, net).Ok?
    ensures Plain(f, s) && net.Min() <= s <= net.Max() && NextResult(f, start, net) == Ok(NextSpelling(f, net, s))
  {
    hide Value, Spell, Pow2, RoundDown, Shortest, NextNumber;
    var ip := if f == V4 then To4(start).value else PlainIPv6(start).value;
    AddressOf(f, ip);
    ContainsIsInterval(net, ip);
    s := Value(ip);
  }

  /** Where the subnet is served, what is returned spells the next host on the cycle. */
  lemma ServedSpelling(f: Family, net: IPNet, s: nat)
    requires Served(f, net) && net.Min() <= s <= net.Max()
    ensures var a := Succ(HostPool(f, net), s);
            HostPool(f, net).Host(a) && Plain(f, a) && Plain(f, s) && NextSpelling(f, net, s) == Address(f, a)
  {
    hide Value, Spell, Pow2, RoundDown, Shortest, NextNumber, Plain;
    HostPoolShape(f, net);
    AddressWithin(f, net, s);
    AddressWithin(f, net, Succ(HostPool(f, net), s));
    if f == V4 {
      NextIPIsSuccessor(net, s);
    }
  }

  /**
   Explicit and dynamic allocation agree in a served subnet: validation accepts an address,
   or a gateway, exactly when some call of NextIP or NextIPv6 returns it.
   */
  lemma ExplicitAgreesWithDynamic(f: Family, net: IPNet, ip: IP)
    requires Served(f, net)
    ensures HostProblem(f, net, ip) == None <==> Returned(f, net, ip)
  {
    hide Value, Spell, Pow2, RoundDown, Shortest, NextNumber, Plain, NextSpelling, NextResult;
    HostPoolShape(f, net);
    hide Served;
    var p := HostPool(f, net);
    if HostProblem(f, net, ip) == None {
      var s := Value(ip) - 1;
      ServedSpelling(f, net, s);
      AddressOf(f, ip);
      NextFromNumber(f, net, s);
      assert NextResult(f, Address(f, s), net) == Ok(ip);
    }
    if start: IP :| NextResult(f, start, net) == Ok(ip) {
      var s := NumberOfStart(f, net, start);
      ServedSpelling(f, net, s);
      AddressWithin(f, net, Succ(p, s));
      PlainIsNotMapped(f, Succ(p, s));
    }
  }

  lemma PlainIsNotMapped(f: Family, a: nat)
    requires Plain(f, a)
    ensures f == V6 ==> To4(Address(f, a)).None?
  {
  }

  /** A section of a served subnet passes validation exactly when what it gives explicitly can be returned. */
  lemma ValidationAgrees(f: Family, net: IPNet, address: Option<IPNet>, gateway: IP)
    requires Served(f, net)
    ensures FamilyProblem(f, net, address, gateway) == None <==>
              (address.Some? ==> Returned(f, net, address.value.ip)) && (gateway != [] ==> Returned(f, net, gateway))
  {
    hide HostProblem, Returned;
    if address.Some? {
      ExplicitAgreesWithDynamic(f, net, address.value.ip);
    }
    ExplicitAgreesWithDynamic(f, net, gateway);
  }

  /** The default gateway can be returned exactly when it is a host. */
  lemma DefaultGatewayAgrees(f: Family, net: IPNet)
    requires Served(f, net)
    ensures Returned(f, net, DefaultGateway(net)) <==>
              Value(net.ip) < HostPool(f, net).hi && Pow2(8 * (|net.ip| - 1)) <= Value(net.ip) + 1
  {
    hide HostProblem, Returned, Value, Pow2, Shortest;
    ExplicitAgreesWithDynamic(f, net, DefaultGateway(net));
    DefaultGatewayIsHost(f, net);
  }

  /** A default gateway that is a host is the successor of the configured address. */
  lemma DefaultGatewayIsSuccessor(f: Family, net: IPNet)
    requires Served(f, net) && HostProblem(f, net, DefaultGateway(net)) == None
    ensures NextResult(f, net.ip, net) == Ok(DefaultGateway(net))
  {
    hide Value, Spell, Pow2, RoundDown, Shortest, DefaultGateway;
    var s := Value(net.ip);
    InOwnSubnet(net);
    AddressOf(f, net.ip);
    DefaultGatewayIsNext(net);
    HostPoolShape(f, net);
    NextFromNumber(f, net, s);
    ServedSpelling(f, net, s);
    AddressWithin(f, net, s + 1);
    ValueInjective(DefaultGateway(net), Address(f, s + 1));
  }

  /** Validation and the successor function agree on every address of the subnet's width. */
  ghost predicate Agreement(f: Family, net: IPNet)
    requires Usable(f, net)
  {
    forall ip: IP :: |ip| == |net.ip| ==> (HostProblem(f, net, ip) == None <==> Returned(f, net, ip))
  }

  /** The agreement holds of the whole subnet if and only if the subnet is served. */
  lemma AgreementIffServed(f: Family, net: IPNet)
    requires Usable(f, net)
    ensures Agreement(f, net) <==> Served(f, net)
  {
    hide HostProblem, Returned;
    if Served(f, net) {
      forall ip: IP | |ip| == |net.ip|
        ensures HostProblem(f, net, ip) == None <==> Returned(f, net, ip)
      {
        ExplicitAgreesWithDynamic(f, net, ip);
      }
    } else if f == V4 {
      var ip := FirstHostMissed(net);
    } else {
      var ip := CrossingDisagrees(net);
    }
  }

  /** Below 1.0.0.0 the first host is accepted and never returned. */
  lemma FirstHostMissed(net: IPNet) returns (ip: IP)
    requires Usable(V4, net) && !Served4(net)
    ensures |ip| == |net.ip| && HostProblem(V4, net, ip) == None && !Returned(V4, net, ip)
  {
    hide Value, Spell, Pow2, RoundDown, Shortest;
    var a := net.Min() + 1;
    HostPoolShape(V4, net);
    RoomForHosts(net);
    ip := Spell(|net.ip|, a);
    SpellNames(net, ip, a);
    if start: IP :| NextResult(V4, start, net) == Ok(ip) {
      var s := NumberOfStart(V4, net, start);
      MaxFits(net);
      Pow2Small();
      ShortestEquals(NextNumber(s, net.Min(), net.Max()), ip);
    }
  }

  /** In a subnet that crosses the mapped addresses a plain address's successor is one of them. */
  lemma CrossingWitness(net: IPNet) returns (s: nat)
    requires Usable(V6, net) && !Served6(net)
    ensures net.Min() <= s <= net.Max() && Plain(V6, s) && !Plain(V6, Succ(HostPool(V6, net), s))
    ensures Succ(HostPool(V6, net), s) < Pow2(8 * |net.ip|)
  {
    hide Value, Spell, Pow2, RoundDown, Plain;
    ServedByInterval(net);
    HostPoolShape(V6, net);
    RoomForHosts(net);
    MaxFits(net);
    AddressOf(V6, net.ip);
    SpellValue(net.ip);
    InOwnSubnet(net);
    MappedInterval(Value(net.ip));
    s := if net.Min() < MAPPED_MIN then MAPPED_MIN - 1 else net.Max();
    MappedInterval(s);
    MappedInterval(Succ(HostPool(V6, net), s));
  }

  lemma InOwnSubnet(net: IPNet)
    requires net.bits == 8 * |net.ip|
    ensures net.Min() <= Value(net.ip) <= net.Max()
  {
  }

  /** There, that successor is returned but not accepted. */
  lemma CrossingDisagrees(net: IPNet) returns (ip: IP)
    requires Usable(V6, net) && !Served6(net)
    ensures |ip| == |net.ip| && !(HostProblem(V6, net, ip) == None <==> Returned(V6, net, ip))
  {
    hide Value, Spell, Pow2, RoundDown, Plain;
    var s := CrossingWitness(net);
    var a := Succ(HostPool(V6, net), s);
    ip := Address(V6, a);
    NextFromNumber(V6, net, s);
    NotPlainIsMapped(a);
    assert NextResult(V6, Address(V6, s), net) == Ok(ip);
  }

  lemma NotPlainIsMapped(a: nat)
    requires a < Pow2(8 * Width(V6)) && !Plain(V6, a)
    ensures To4(Address(V6, a)).Some?
  {
  }

  /** Whatever the search is given back, it can go on from. */
  ghost predicate WalksOn(net: IPNet)
    requires Usable(V6, net)
  {
    forall start: IP :: NextIPv6Result(start, net).Ok? ==> NextIPv6Result(NextIPv6Result(start, net).value, net).Ok?
  }

  /**
   The IPv6 search can walk on from every address it reaches if and only if the subnet
   avoids the mapped addresses; elsewhere it reaches one and is refused from it.
   */
  lemma WalksOnIffServed(net: IPNet)
    requires Usable(V6, net)
    ensures WalksOn(net) <==> net.Max() < MAPPED_MIN || MAPPED_MAX < net.Min()
    ensures !WalksOn(net) ==> exists start, ip: IP ::
              NextIPv6Result(start, net) == Ok(ip) && To4(ip).Some? && NextIPv6Result(ip, net) == Err(WrongFamily)
  {
    hide Value, Spell, Pow2, RoundDown, Plain;
    ServedByInterval(net);
    if Served6(net) {
      forall start: IP | NextIPv6Result(start, net).Ok?
        ensures NextIPv6Result(NextIPv6Result(start, net).value, net).Ok?
      {
        var s := NumberOfStart(V6, net, start);
        ServedSpelling(V6, net, s);
        HostPoolShape(V6, net);
        NextFromNumber(V6, net, Succ(HostPool(V6, net), s));
      }
    } else {
      var s := CrossingWitness(net);
      NextFromNumber(V6, net, s);
      var ip := Address(V6, Succ(HostPool(V6, net), s));
      NotPlainIsMapped(Succ(HostPool(V6, net), s));
      assert NextIPv6Result(Address(V6, s), net) == Ok(ip);
      assert NextIPv6Result(ip, net) == Err(WrongFamily);
    }
  }

  /**
   An IPv6 section yields addresses if and only if it is not written with a mapped address:
   in such a subnet NextIPv6 refuses every start, and validation every explicit address and
   gateway, but not the subnet itself.
   */
  lemma YieldsIffPlain(net: IPNet)
    requires (net.Is(V6) || net.Mapped()) && net.ones <= MAX_MASK_IPV6
    ensures (exists start: IP :: NextIPv6Result(start, net).Ok?) <==> !net.Mapped()
    ensures net.Mapped() <==> forall ip: IP :: FamilyProblem(V6, net, Some(IPNet(ip, net.ones, net.bits)), []) != None
    ensures net.Mapped() <==> forall ip: IP :: ip != [] ==> FamilyProblem(V6, net, None, ip) != None
    ensures FamilyProblem(V6, net, None, []) == None
  {
    if !net.Mapped() {
      hide Value, Spell, Pow2, RoundDown, Plain;
      AddressOf(V6, net.ip);
      InOwnSubnet(net);
      NextFromNumber(V6, net, Value(net.ip));
      assert NextIPv6Result(Address(V6, Value(net.ip)), net).Ok?;
      var ip := SomeHost(net);
      assert FamilyProblem(V6, net, Some(IPNet(ip, net.ones, net.bits)), []) == None;
      assert FamilyProblem(V6, net, None, ip) == None;
    }
  }

  /** A plain subnet has a host that is not a mapped address: its configured address, or the one after it. */
  lemma SomeHost(net: IPNet) returns (ip: IP)
    requires Usable(V6, net)
    ensures ip != [] && HostProblem(V6, net, ip) == None
  {
    hide Value, Spell, Pow2, RoundDown;
    InOwnSubnet(net);
    HostPoolShape(V6, net);
    RoomForHosts(net);
    MaxFits(net);
    ip := net.ip;
    if Value(net.ip) == net.Min() {
      hide Plain;
      AddressOf(V6, net.ip);
      MappedInterval(Value(net.ip));
      MappedInterval(net.Min() + 1);
      ip := Address(V6, net.Min() + 1);
      SpellNames(net, ip, net.Min() + 1);
      PlainIsNotMapped(V6, net.Min() + 1);
    }
  }

  // ---- accepted configurations

  /** A section the commands can serve: for IPv4 by its first octet, for IPv6 by avoiding the mapped addresses. */
  predicate Servable(f: Family, net: IPNet)
    requires net.bits == 8 * |net.ip| && net.ip != []
  {
    match f
    case V4 => net.ones >= 8 && LeadingOne(net.ip[0])
    case V6 => net.Max() < MAPPED_MIN || MAPPED_MAX < net.Min()
  }

  /** What a default gateway needs: the network address for the subnet's, with its leading byte in use. */
  predicate DefaultsToHost(net: IPNet)
    requires net.bits == 8 * |net.ip| && net.ip != []
  {
    Value(net.ip) == net.Min() && net.ip[0] != 0
  }

  lemma MappedIsNotServable(net: IPNet)
    requires net.Mapped()
    ensures !Servable(V6, net)
  {
    hide Value, Spell, Pow2, RoundDown;
    ValueBound(net.ip);
    SpellValue(net.ip);
    MappedInterval(Value(net.ip));
  }

  lemma TrackedIfServable(f: Family, net: IPNet)
    requires Usable(f, net) && Servable(f, net)
    ensures Served(f, net) && Tracked(f, net)
  {
    if f == V4 {
      TrackedByFirstOctet(net);
    } else {
      ServedByInterval(net);
    }
  }

  lemma SoundIfAccepted(f: Family, net: IPNet, address: Option<IPNet>, raw: IP, gateway: IP)
    requires net.Is(f) && FamilyProblem(f, net, address, raw) == None && net.ip != [] && Servable(f, net)
    requires if raw == [] then DefaultsToHost(net) && gateway == DefaultGateway(net) else gateway == raw
    ensures SoundFamily(f, net, gateway) && GoodSite(SiteFor(f, net, gateway))
    ensures address.Some? ==> |address.value.ip| == |net.ip| && HostPool(f, net).Host(Value(address.value.ip))
    ensures address.Some? && f == V6 ==> To4(address.value.ip).None?
  {
    hide Value, Pow2, Shortest, Served, Tracked, RoundDown;
    TrackedIfServable(f, net);
    HostPoolShape(f, net);
    LeadingByte(net.ip);
    DefaultGatewayIsHost(f, net);
  }

  /** The deployment a configuration belongs to; a family it does not configure is of no consequence. */
  function EnvOf(c: IPAMConfig, other: Env): Env
    requires c.ipv4Subnet.Some? ==> Usable(V4, c.ipv4Subnet.value)
    requires c.ipv6Subnet.Some? ==> Usable(V6, c.ipv6Subnet.value)
  {
    Env(if c.ipv4Subnet.Some? then SiteFor(V4, c.ipv4Subnet.value, c.ipv4Gateway) else other.site4,
        if c.ipv6Subnet.Some? then SiteFor(V6, c.ipv6Subnet.value, c.ipv6Gateway) else other.site6)
  }

  /**
   What the commands take for granted of a configuration is what validation accepts, for
   servable subnets: the gateways, explicit or default, and the explicit addresses are hosts.
   */
  lemma AcceptedIsDeployed(raw: IPAMConfig, other: Env)
    requires Decoded(raw) && ConfigProblem(raw) == None && GoodEnv(other)
    requires raw.ipv4Address.Some? ==> raw.ipv4Subnet.Some?
    requires raw.ipv6Address.Some? ==> raw.ipv6Subnet.Some?
    requires raw.ipv4Subnet.Some? ==>
               Servable(V4, raw.ipv4Subnet.value) && (raw.ipv4Gateway == [] ==> DefaultsToHost(raw.ipv4Subnet.value))
    requires raw.ipv6Subnet.Some? ==>
               Servable(V6, raw.ipv6Subnet.value) && (raw.ipv6Gateway == [] ==> DefaultsToHost(raw.ipv6Subnet.value))
    ensures var c := WithDefaults(raw);
            && (c.ipv4Subnet.Some? ==> Usable(V4, c.ipv4Subnet.value))
            && (c.ipv6Subnet.Some? ==> Usable(V6, c.ipv6Subnet.value))
            && Deployed(EnvOf(c, other), c)
  {
    hide Value, Pow2, Shortest, SoundFamily, HostProblem, GoodSite, RoundDown, Servable, DefaultsToHost;
    if raw.ipv6Subnet.Some? && raw.ipv6Subnet.value.Mapped() {
      MappedIsNotServable(raw.ipv6Subnet.value);
    }
    hide To4;
    var c := WithDefaults(raw);
    if raw.ipv4Subnet.Some? {
      SoundIfAccepted(V4, raw.ipv4Subnet.value, raw.ipv4Address, raw.ipv4Gateway, c.ipv4Gateway);
    }
    if raw.ipv6Subnet.Some? {
      SoundIfAccepted(V6, raw.ipv6Subnet.value, raw.ipv6Address, raw.ipv6Gateway, c.ipv6Gateway);
    }
  }

  // ---- results and the bridge

  /** The bridge address that a family's section leads to. */
  function BridgeAddress(f: Family, net: IPNet, gateway: IP): IPNet
  {
    Bridge.Target(IPConfig(f, net, gateway))
  }

  /** The bridge's addresses by the configured subnets and gateways alone. */
  function PlanOf(c: IPAMConfig): BridgeRace.Plan
  {
    BridgeRace.Plan(
      if c.ipv4Subnet.Some? then BridgeAddress(V4, c.ipv4Subnet.value, c.ipv4Gateway) else IPNet([], 0, 0),
      if c.ipv6Subnet.Some? then BridgeAddress(V6, c.ipv6Subnet.value, c.ipv6Gateway) else IPNet([], 0, 0))
  }

  /** An explicit address fits the subnet's version. */
  predicate FitsWidth(asked: Option<IPNet>, net: IPNet)
  {
    asked.Some? ==> asked.value.bits == net.bits && asked.value.ones <= asked.value.bits
  }

  /** The prefix length of the entry's address is the subnet's, or the bridge's does not depend on it. */
  predicate SameBridge(f: Family, net: IPNet, gateway: IP, asked: Option<IPNet>)
  {
    || asked.None? || asked.value.ones == net.ones
    || Bridge.LinkLocal(gateway) || (f == V6 && |gateway| == 16 && gateway[0] == 0xfd)
  }

  /** The plan of an entry for the subnet's own addresses, in its place. */
  lemma EntryAgreesIff(f: Family, net: IPNet, gateway: IP, asked: Option<IPNet>, a: nat)
    requires SoundFamily(f, net, gateway) && HostPool(f, net).Host(a) && FitsWidth(asked, net)
    requires asked.Some? ==> asked.value.ip == Address(f, a)
    ensures var entry := IPConfig(f, Reported(f, asked, net, a), gateway);
            && Matched(entry) && FamilyOf(entry.address.ip) == f
            && (Bridge.Target(entry) == BridgeAddress(f, net, gateway) <==> SameBridge(f, net, gateway, asked))
  {
    hide Value, Pow2, Spell, Listed, RoundDown;
    TrackedHost(f, net, a);
    GatewayTracked(f, net, gateway);
  }

  /** An address that was asked for is the one leased, and fits its subnet. */
  predicate AskedIsLeased(f: Family, subnet: Option<IPNet>, asked: Option<IPNet>, leased: Option<nat>)
  {
    leased.Some? ==>
      && subnet.Some? && Usable(f, subnet.value) && HostPool(f, subnet.value).Host(leased.value)
      && FitsWidth(asked, subnet.value) && (asked.Some? ==> asked.value.ip == Address(f, leased.value))
  }

  /**
   The results of ADDs on the same subnets and gateways all lead to the same bridge addresses,
   and so meet the agreement that concurrent bridge set-up converges under, if and only if
   each explicit address has its subnet's prefix length, or the gateway's kind fixes the mask.
   Dynamic results always do.
   */
  lemma ResultsAgreeIff(c: IPAMConfig, l: Leased)
    requires Sound(c)
    requires AskedIsLeased(V4, c.ipv4Subnet, c.ipv4Address, l.v4) && AskedIsLeased(V6, c.ipv6Subnet, c.ipv6Address, l.v6)
    ensures BridgeRace.AllAgree(PlanOf(c), ResultFor(c, l)) <==>
              && (l.v4.Some? ==> SameBridge(V4, c.ipv4Subnet.value, c.ipv4Gateway, c.ipv4Address))
              && (l.v6.Some? ==> SameBridge(V6, c.ipv6Subnet.value, c.ipv6Gateway, c.ipv6Address))
    ensures c.ipv4Address.None? && c.ipv6Address.None? ==> BridgeRace.AllAgree(PlanOf(c), ResultFor(c, l))
  {
    assert forall f: Family, net, gateway :: SameBridge(f, net, gateway, None);
    hide BridgeAddress, Bridge.Target, Matched, FamilyOf, Address, HostPool, SameBridge, Reported, FitsWidth;
    var rs := ResultFor(c, l);
    if l.v4.Some? {
      EntryAgreesIff(V4, c.ipv4Subnet.value, c.ipv4Gateway, c.ipv4Address, l.v4.value);
      assert rs[0] == IPConfig(V4, Reported(V4, c.ipv4Address, c.ipv4Subnet.value, l.v4.value), c.ipv4Gateway);
    }
    if l.v6.Some? {
      EntryAgreesIff(V6, c.ipv6Subnet.value, c.ipv6Gateway, c.ipv6Address, l.v6.value);
      assert rs[|rs| - 1] == IPConfig(V6, Reported(V6, c.ipv6Address, c.ipv6Subnet.value, l.v6.value), c.ipv6Gateway);
    }
  }
}
