/**
 The ADD and DEL commands, step by step over the allocator, each proved to do to the
 store's data what a function of the data says.
 */
module Commands {
  import opened Wrappers
  import opened Types
  import opened Bits
  import opened Bytes
  import opened Text
  import opened Keys
  import opened Cycle
  import opened Subnets
  import opened Config
  import opened KeyValueStore
  import opened IPStore
  import Allocation

  // ---- what the commands do to the data

  /** The key under which a family's address is recorded. */
  function KeyText(f: Family, ip: IP): string
  {
    if f == V4 then String(ip) else IP_PREFIX_V6 + String(ip)
  }

  function SubnetOf(f: Family, conf: IPAMConfig): Option<IPNet>
  {
    if f == V4 then conf.ipv4Subnet else conf.ipv6Subnet
  }

  function AskedOf(f: Family, conf: IPAMConfig): Option<IPNet>
  {
    if f == V4 then conf.ipv4Address else conf.ipv6Address
  }

  function GatewayOf(f: Family, conf: IPAMConfig): IP
  {
    if f == V4 then conf.ipv4Gateway else conf.ipv6Gateway
  }

  /** Record the gateway, or find it recorded; its name is looked up among the IPv4 records. */
  function GatewayData(f: Family, gw: IP, data: Data): Result<Data, Failure>
  {
    var key := KeyText(f, gw);
    var value := if key in data then data[key] else "";
    if value == "" then AssignData(data, key, Allocation.GatewayName(f), IP_PREFIX)
    else if value == Allocation.GatewayName(f) then Ok(data)
    else Err(GatewayTaken)
  }

  /** The stored cursor, or the network address; for IPv6 a cursor that is no address counts as absent. */
  function StartIn(f: Family, net: IPNet, data: Data): IP
  {
    var stored := if CursorKey(f) in data then Parsed(data[CursorKey(f)]) else Base(net.ip, net.ones);
    if f == V4 then stored
    else
      match To16(stored)
      case Some(wide) => wide
      case None => Base(net.ip, net.ones)
  }

  /** The address a half of an ADD reports: the one asked for, or the one found with the subnet's mask. */
  function Reported(f: Family, asked: Option<IPNet>, subnet: IPNet, a: nat): IPNet
  {
    if asked.Some? then asked.value else IPNet(Address(f, a), subnet.ones, subnet.bits)
  }

  /** Record the address asked for, or the next free one. */
  ghost function TakeData(f: Family, net: IPNet, asked: Option<IPNet>, id: string, data: Data): Result<(IPNet, Data), Failure>
    requires Usable(f, net)
  {
    match asked
    case Some(address) =>
      (match AssignData(data, KeyText(f, address.ip), Allocation.ExplicitId(f, id), IP_PREFIX)
       case Err(e) => Err(e)
       case Ok(data') => Ok((address, data')))
    case None =>
      match AllocateData(f, net, StartIn(f, net, data), data, id)
      case Err(e) => Err(e)
      case Ok((a, data')) => Ok((Reported(f, None, net, a), data'))
  }

  /** One family's half of an ADD: the gateway, the address, and the cursor on success. */
  ghost function HalfData(f: Family, net: IPNet, conf: IPAMConfig, data: Data): (Data, Result<IPNet, Failure>)
    requires Usable(f, net)
  {
    match GatewayData(f, GatewayOf(f, conf), data)
    case Err(e) => (data, Err(e))
    case Ok(data1) =>
      match TakeData(f, net, AskedOf(f, conf), conf.id, data1)
      case Err(e) => (data1, Err(e))
      case Ok((address, data2)) => (data2[CursorKey(f) := String(address.ip)], Ok(address))
  }

  predicate ConfUsable(conf: IPAMConfig)
  {
    && (conf.ipv4Subnet.Some? ==> Usable(V4, conf.ipv4Subnet.value))
    && (conf.ipv6Subnet.Some? ==> Usable(V6, conf.ipv6Subnet.value))
  }

  /** A family's half, if the family is configured. */
  ghost function FamilyData(f: Family, conf: IPAMConfig, data: Data): (Data, Result<Option<IPNet>, Failure>)
    requires ConfUsable(conf)
  {
    match SubnetOf(f, conf)
    case None => (data, Ok(None))
    case Some(net) =>
      var (data', r) := HalfData(f, net, conf, data);
      (data', match r case Err(e) => Err(e) case Ok(address) => Ok(Some(address)))
  }

  /** The result handed to the bridge plugin: one entry per family, IPv4 first. */
  function ConstructResults(conf: IPAMConfig, ipv4: Option<IPNet>, ipv6: Option<IPNet>): Result<seq<IPConfig>, Failure>
  {
    if ipv4.Some? && To4(ipv4.value.ip).None? then Err(WrongFamily)
    else if ipv6.Some? && To4(ipv6.value.ip).Some? then Err(WrongFamily)
    else if ipv4.None? && ipv6.None? then Err(NoSubnet)
    else Ok((if ipv4.Some? then [IPConfig(V4, ipv4.value, conf.ipv4Gateway)] else [])
            + (if ipv6.Some? then [IPConfig(V6, ipv6.value, conf.ipv6Gateway)] else []))
  }

  /** ADD: each configured family's half in turn, up to the first error. */
  ghost function AddData(conf: IPAMConfig, data: Data): (Data, Result<seq<IPConfig>, Failure>)
    requires ConfUsable(conf)
  {
    var (data4, r4) := FamilyData(V4, conf, data);
    match r4
    case Err(e) => (data4, Err(e))
    case Ok(ipv4) =>
      var (data6, r6) := FamilyData(V6, conf, data4);
      match r6
      case Err(e) => (data6, Err(e))
      case Ok(ipv6) => (data6, ConstructResults(conf, ipv4, ipv6))
  }

  /** The search of a family's half, if it comes to one, ends. */
  ghost predicate HalfEnds(f: Family, conf: IPAMConfig, data: Data)
    requires ConfUsable(conf)
  {
    SubnetOf(f, conf).Some? && AskedOf(f, conf).None? ==>
      var net := SubnetOf(f, conf).value;
      match GatewayData(f, GatewayOf(f, conf), data)
      case Err(_) => true
      case Ok(data1) => SearchEnds(f, net, StartIn(f, net, data1), data1)
  }

  ghost predicate AddEnds(conf: IPAMConfig, data: Data)
    requires ConfUsable(conf)
  {
    HalfEnds(V4, conf, data) && HalfEnds(V6, conf, FamilyData(V4, conf, data).0)
  }

  /** Subnets that the allocator serves. */
  ghost predicate ConfServed(conf: IPAMConfig)
  {
    && (conf.ipv4Subnet.Some? ==> Served4(conf.ipv4Subnet.value))
    && (conf.ipv6Subnet.Some? ==> Served6(conf.ipv6Subnet.value))
  }

  /** validateDelConfiguration: something must say what to release. */
  function ValidateDel(conf: IPAMConfig): Result<(), Failure>
  {
    if conf.id == "" && conf.ipv4Address.None? && conf.ipv6Address.None? then Err(NothingToRelease) else Ok(())
  }

  /** The released addresses become the cursors. */
  function WithCursors(data: Data, released4: string, released6: string): Data
  {
    var data4 := if released4 != "" then data[CursorKey(V4) := released4] else data;
    if released6 != "" then data4[CursorKey(V6) := released6] else data4
  }

  function AskedKey(f: Family, conf: IPAMConfig): set<string>
  {
    if AskedOf(f, conf).Some? then {KeyText(f, AskedOf(f, conf).value.ip)} else {}
  }

  function AskedText(f: Family, conf: IPAMConfig): string
  {
    if AskedOf(f, conf).Some? then String(AskedOf(f, conf).value.ip) else ""
  }

  /** DEL: by the addresses the configuration names, else by id; an error leaves what was already deleted. */
  ghost function DelData(conf: IPAMConfig, data: Data): (Data, Result<(), Failure>)
  {
    if ValidateDel(conf).Err? then (data, ValidateDel(conf))
    else if conf.ipv4Address.Some? || conf.ipv6Address.Some? then
      var data4 := data - AskedKey(V4, conf);
      var data6 := data4 - AskedKey(V6, conf);
      if !(AskedKey(V4, conf) <= data.Keys) then (data, Err(NotHeld))
      else if !(AskedKey(V6, conf) <= data4.Keys) then (data4, Err(NotHeld))
      else (WithCursors(data6, AskedText(V4, conf), AskedText(V6, conf)), Ok(()))
    else
      var key4, key6 := Bearer(data, IP_PREFIX, conf.id), Bearer(data, IP_PREFIX_V6, conf.id);
      var rest := data - KeySet(key4) - KeySet(key6);
      var ip4, ip6 := if key4.Some? then key4.value else "", if key6.Some? then key6.value[1..] else "";
      if ip4 == "" && ip6 == "" then (rest, Err(UnknownId))
      else (WithCursors(rest, ip4, ip6), Ok(()))
  }

  // ---- the searches

  /** What an allocation takes is a host, new to the store, and recorded under the id. */
  lemma FoundIsHost(f: Family, net: IPNet, start: IP, data: Data, id: string)
    requires Usable(f, net) && AllocateData(f, net, start, data, id).Ok?
    ensures var (a, data') := AllocateData(f, net, start, data, id).value;
            HostPool(f, net).Host(a) && Key(f, a) !in data && data' == data[Key(f, a) := id]
  {
    hide Key, InUse, FirstFree, Distance, UsedHosts, Value, Pow2, RoundDown;
    var p := HostPool(f, net);
    HostPoolShape(f, net);
    FirstFreeIsNearest(p, UsedHosts(f, p, data), Value(start));
  }

  lemma ServedHost(f: Family, net: IPNet, a: nat)
    requires Served(f, net) && HostPool(f, net).Host(a)
    ensures Plain(f, a) && ParseIP(String(Address(f, a))) == Some(Address(f, a))
    ensures KeyText(f, Address(f, a)) == Key(f, a) && Value(Address(f, a)) == a
  {
    hide Value, Spell, Pow2, RoundDown, String, ParseIP;
    HostPoolShape(f, net);
    AddressWithin(f, net, a);
    ParsesBack(f, a);
  }

  lemma WideIsItself(ip: IP)
    requires |ip| == 16
    ensures To16(ip) == Some(ip)
  {
  }

  /** A text that parses names a 4-byte address or a plain IPv6 one. */
  lemma ParsedForm(text: string)
    ensures |Parsed(text)| == 16 ==> To4(Parsed(text)).None?
  {
    var ip := Parsed(text);
    if |ip| == 16 && To4(ip).Some? {
      hide String;
      MappedPrintsAs4(ip);
      var four := To4(ip).value;
      Text4Shape(four);
      Text4RoundTrip(four);
      assert false;
    }
  }

  lemma MappedPrintsAs4(ip: IP)
    requires |ip| == 16 && To4(ip).Some?
    ensures String(ip) == Text4(To4(ip).value)
  {
  }

  // ---- ADD

  method VerifyGateway(gw: IP, m: IPManager) returns (r: Result<(), Failure>)
    modifies m`lastKnownIP, m.client
    ensures match GatewayData(V4, gw, old(m.client.data))
            case Err(e) => r == Err(e) && m.client.data == old(m.client.data)
            case Ok(data) => r == Ok(()) && m.client.data == data
  {
    hide String, InUse;
    var value := m.Get(String(gw));
    if value == "" {
      r := m.Assign(String(gw), Allocation.GATEWAY_VALUE);
    } else if value == Allocation.GATEWAY_VALUE {
      return Ok(());
    } else {
      return Err(GatewayTaken);
    }
  }

  method VerifyGatewayV6(gw: IP, m: IPManager) returns (r: Result<(), Failure>)
    modifies m`lastKnownIP, m.client
    ensures match GatewayData(V6, gw, old(m.client.data))
            case Err(e) => r == Err(e) && m.client.data == old(m.client.data)
            case Ok(data) => r == Ok(()) && m.client.data == data
  {
    hide String, InUse;
    var gwKey := IP_PREFIX_V6 + String(gw);
    var value := m.Get(gwKey);
    if value == "" {
      r := m.Assign(gwKey, Allocation.GATEWAY_V6_VALUE);
    } else if value == Allocation.GATEWAY_V6_VALUE {
      return Ok(());
    } else {
      return Err(GatewayTaken);
    }
  }

  method GetIPV4AddressFromDB(m: IPManager, conf: IPAMConfig) returns (r: Result<string, Failure>)
    requires conf.ipv4Subnet.Some? && m.subnetV4 == conf.ipv4Subnet && Served4(conf.ipv4Subnet.value)
    requires SearchEnds(V4, conf.ipv4Subnet.value, StartIn(V4, conf.ipv4Subnet.value, m.client.data), m.client.data)
    modifies m`lastKnownIP, m.client
    ensures var net, data := conf.ipv4Subnet.value, old(m.client.data);
            match AllocateData(V4, net, StartIn(V4, net, data), data, conf.id)
            case Err(e) => r == Err(e) && m.client.data == data
            case Ok((a, data')) => r == Ok(String(Address(V4, a))) && m.client.data == data'
  {
    hide AllocateData, SearchEnds, String, ParseIP, Address;
    var subnet := conf.ipv4Subnet.value;
    var startIP := ApplyMask(subnet.ip, subnet.Mask());
    var ok := m.Exists(LAST_KNOWN_IP_KEY);
    if ok {
      var lastKnownIPStr := m.Get(LAST_KNOWN_IP_KEY);
      startIP := Parsed(lastKnownIPStr);
      ParsedForm(lastKnownIPStr);
    }
    m.SetLastKnownIP(startIP);
    r := m.GetAvailableIP(conf.id);
  }

  method GetIPV6AddressFromDB(m: IPManager, conf: IPAMConfig) returns (r: Result<string, Failure>)
    requires conf.ipv6Subnet.Some? && m.subnetV6 == conf.ipv6Subnet && Served6(conf.ipv6Subnet.value)
    requires SearchEnds(V6, conf.ipv6Subnet.value, StartIn(V6, conf.ipv6Subnet.value, m.client.data), m.client.data)
    modifies m`lastKnownIPv6, m.client
    ensures var net, data := conf.ipv6Subnet.value, old(m.client.data);
            match AllocateData(V6, net, StartIn(V6, net, data), data, conf.id)
            case Err(e) => r == Err(e) && m.client.data == data
            case Ok((a, data')) => r == Ok(String(Address(V6, a))) && m.client.data == data'
  {
    hide AllocateData, SearchEnds, String, ParseIP, Address;
    var subnet := conf.ipv6Subnet.value;
    var startIP := ApplyMask(subnet.ip, subnet.Mask());
    hide Served6;
    var ok := m.Exists(LAST_KNOWN_IPV6_KEY);
    if ok {
      var lastKnownIPStr := m.Get(LAST_KNOWN_IPV6_KEY);
      startIP := Parsed(lastKnownIPStr);
    }
    m.SetLastKnownIPv6(startIP);
    r := m.GetAvailableIPv6(conf.id);
  }

  method GetIPV4Address(m: IPManager, conf: IPAMConfig) returns (r: Result<IPNet, Failure>)
    requires conf.ipv4Subnet.Some? && m.subnetV4 == conf.ipv4Subnet && Served4(conf.ipv4Subnet.value)
    requires conf.ipv4Address.None? ==>
               SearchEnds(V4, conf.ipv4Subnet.value, StartIn(V4, conf.ipv4Subnet.value, m.client.data), m.client.data)
    modifies m`lastKnownIP, m.client
    ensures match TakeData(V4, conf.ipv4Subnet.value, conf.ipv4Address, conf.id, old(m.client.data))
            case Err(e) => r == Err(e) && m.client.data == old(m.client.data)
            case Ok((address, data)) => r == Ok(address) && m.client.data == data
  {
    hide AllocateData, SearchEnds, String, ParseIP, Address, AssignData, StartIn;
    var subnet := conf.ipv4Subnet.value;
    if conf.ipv4Address.Some? {
      var asked := conf.ipv4Address.value;
      var marked := m.Assign(String(asked.ip), conf.id);
      if marked.Err? {
        return Err(marked.error);
      }
      return Ok(asked);
    } else {
      ghost var data, start := m.client.data, StartIn(V4, subnet, m.client.data);
      var nextIP := GetIPV4AddressFromDB(m, conf);
      if nextIP.Err? {
        return Err(nextIP.error);
      }
      FoundIsHost(V4, subnet, start, data, conf.id);
      ServedHost(V4, subnet, AllocateData(V4, subnet, start, data, conf.id).value.0);
      var parsed := ParseIP(nextIP.value);
      return Ok(IPNet(parsed.value, subnet.ones, subnet.bits));
    }
  }

  method GetIPV6Address(m: IPManager, conf: IPAMConfig) returns (r: Result<IPNet, Failure>)
    requires conf.ipv6Subnet.Some? && m.subnetV6 == conf.ipv6Subnet && Served6(conf.ipv6Subnet.value)
    requires conf.ipv6Address.None? ==>
               SearchEnds(V6, conf.ipv6Subnet.value, StartIn(V6, conf.ipv6Subnet.value, m.client.data), m.client.data)
    modifies m`lastKnownIP, m`lastKnownIPv6, m.client
    ensures match TakeData(V6, conf.ipv6Subnet.value, conf.ipv6Address, conf.id, old(m.client.data))
            case Err(e) => r == Err(e) && m.client.data == old(m.client.data)
            case Ok((address, data)) => r == Ok(address) && m.client.data == data
  {
    hide AllocateData, SearchEnds, String, ParseIP, Address, AssignData, StartIn;
    var subnet := conf.ipv6Subnet.value;
    if conf.ipv6Address.Some? {
      var asked := conf.ipv6Address.value;
      var ipKey := IP_PREFIX_V6 + String(asked.ip);
      var idV6 := conf.id + Allocation.EXPLICIT_V6_SUFFIX;
      var marked := m.Assign(ipKey, idV6);
      if marked.Err? {
        return Err(marked.error);
      }
      return Ok(asked);
    } else {
      ghost var data, start := m.client.data, StartIn(V6, subnet, m.client.data);
      var nextIP := GetIPV6AddressFromDB(m, conf);
      if nextIP.Err? {
        return Err(nextIP.error);
      }
      FoundIsHost(V6, subnet, start, data, conf.id);
      ServedHost(V6, subnet, AllocateData(V6, subnet, start, data, conf.id).value.0);
      var parsed := ParseIP(nextIP.value);
      return Ok(IPNet(parsed.value, subnet.ones, subnet.bits));
    }
  }

  /** The IPv4 half of an ADD. */
  method AddIPv4(m: IPManager, conf: IPAMConfig) returns (r: Result<IPNet, Failure>)
    requires conf.ipv4Subnet.Some? && m.subnetV4 == conf.ipv4Subnet && ConfServed(conf)
    requires HalfEnds(V4, conf, m.client.data)
    modifies m`lastKnownIP, m.client
    ensures (m.client.data, r) == HalfData(V4, conf.ipv4Subnet.value, conf, old(m.client.data))
  {
    hide TakeData, GatewayData, SearchEnds, StartIn, String;
    var verified := VerifyGateway(conf.ipv4Gateway, m);
    if verified.Err? {
      return Err(verified.error);
    }
    r := GetIPV4Address(m, conf);
    if r.Err? {
      return;
    }
    m.Update(LAST_KNOWN_IP_KEY, String(r.value.ip));
  }

  /** The IPv6 half of an ADD. */
  method AddIPv6(m: IPManager, conf: IPAMConfig) returns (r: Result<IPNet, Failure>)
    requires conf.ipv6Subnet.Some? && m.subnetV6 == conf.ipv6Subnet && ConfServed(conf)
    requires HalfEnds(V6, conf, m.client.data)
    modifies m`lastKnownIP, m`lastKnownIPv6, m.client
    ensures (m.client.data, r) == HalfData(V6, conf.ipv6Subnet.value, conf, old(m.client.data))
  {
    hide TakeData, GatewayData, SearchEnds, StartIn, String;
    var verified := VerifyGatewayV6(conf.ipv6Gateway, m);
    if verified.Err? {
      return Err(verified.error);
    }
    r := GetIPV6Address(m, conf);
    if r.Err? {
      return;
    }
    m.Update(LAST_KNOWN_IPV6_KEY, String(r.value.ip));
  }

  method AddCommand(m: IPManager, conf: IPAMConfig) returns (r: Result<seq<IPConfig>, Failure>)
    requires m.subnetV4 == conf.ipv4Subnet && m.subnetV6 == conf.ipv6Subnet
    requires ConfServed(conf) && AddEnds(conf, m.client.data)
    modifies m`lastKnownIP, m`lastKnownIPv6, m.client
    ensures (m.client.data, r) == AddData(conf, old(m.client.data))
  {
    hide HalfData, HalfEnds, ConstructResults;
    var ipv4Result, ipv6Result := None, None;
    if conf.ipv4Subnet.Some? {
      var ipv4 := AddIPv4(m, conf);
      if ipv4.Err? {
        return Err(ipv4.error);
      }
      ipv4Result := Some(ipv4.value);
    }
    if conf.ipv6Subnet.Some? {
      var ipv6 := AddIPv6(m, conf);
      if ipv6.Err? {
        return Err(ipv6.error);
      }
      ipv6Result := Some(ipv6.value);
    }
    r := ConstructResults(conf, ipv4Result, ipv6Result);
  }

  // ---- DEL

  /** The end of a DEL. */
  method UpdateCursors(m: IPManager, released4: string, released6: string)
    modifies m.client
    ensures m.client.data == WithCursors(old(m.client.data), released4, released6)
  {
    if released4 != "" {
      m.Update(LAST_KNOWN_IP_KEY, released4);
    }
    if released6 != "" {
      m.Update(LAST_KNOWN_IPV6_KEY, released6);
    }
  }

  method DelCommand(m: IPManager, conf: IPAMConfig) returns (r: Result<(), Failure>)
    modifies m`lastKnownIP, m`lastKnownIPv6, m.client
    ensures (m.client.data, r) == DelData(conf, old(m.client.data))
  {
    hide String, WithCursors, Bearer, ParseIP;
    ghost var data := m.client.data;
    var valid := ValidateDel(conf);
    if valid.Err? {
      return valid;
    }
    assert data - {} == data;
    var releasedIPv4, releasedIPv6 := "", "";
    if conf.ipv4Address.Some? || conf.ipv6Address.Some? {
      if conf.ipv4Address.Some? {
        var released := m.Release(String(conf.ipv4Address.value.ip));
        if released.Err? {
          assert data - {String(conf.ipv4Address.value.ip)} == data;
          return Err(released.error);
        }
        releasedIPv4 := String(conf.ipv4Address.value.ip);
      }
      ghost var data4 := m.client.data;
      assert data4 == data - AskedKey(V4, conf) && data4 - {} == data4;
      if conf.ipv6Address.Some? {
        var ipKey := IP_PREFIX_V6 + String(conf.ipv6Address.value.ip);
        var released := m.Release(ipKey);
        if released.Err? {
          assert data4 - {ipKey} == data4;
          return Err(released.error);
        }
        releasedIPv6 := String(conf.ipv6Address.value.ip);
      }
    } else {
      var released, key4, key6 := m.ReleaseByID(conf.id);
      BearerIs(data, IP_PREFIX, conf.id, key4);
      BearerIs(data, IP_PREFIX_V6, conf.id, key6);
      if released.Err? {
        return Err(released.error);
      }
      releasedIPv4, releasedIPv6 := released.value.0, released.value.1;
    }
    UpdateCursors(m, releasedIPv4, releasedIPv6);
    return Ok(());
  }

  // ---- processes

  datatype Request = AddRequest(conf: IPAMConfig) | DelRequest(conf: IPAMConfig)

  datatype Reply = Added(result: Result<seq<IPConfig>, Failure>) | Deleted(outcome: Result<(), Failure>)

  /** A request whose subnets are served, and whose search ends on the data it finds. */
  ghost predicate Answerable(req: Request, data: Data)
  {
    ConfServed(req.conf) && (req.AddRequest? ==> AddEnds(req.conf, data))
  }

  ghost function StepData(req: Request, data: Data): (Data, Reply)
    requires ConfUsable(req.conf)
  {
    match req
    case AddRequest(conf) => var (data', r) := AddData(conf, data); (data', Added(r))
    case DelRequest(conf) => var (data', r) := DelData(conf, data); (data', Deleted(r))
  }

  /** One process of the plugin, which opens the store anew. */
  method Process(store: Store, req: Request) returns (reply: Reply)
    requires Answerable(req, store.data)
    modifies store
    ensures (store.data, reply) == StepData(req, old(store.data))
  {
    hide AddData, DelData, AddEnds;
    var m := new IPManager(store, req.conf.ipv4Subnet, req.conf.ipv6Subnet);
    match req {
      case AddRequest(conf) =>
        var r := AddCommand(m, conf);
        reply := Added(r);
      case DelRequest(conf) =>
        var r := DelCommand(m, conf);
        reply := Deleted(r);
    }
  }

  ghost predicate AllUsable(reqs: seq<Request>)
  {
    forall i :: 0 <= i < |reqs| ==> ConfUsable(reqs[i].conf)
  }

  /** The data after a sequence of requests. */
  ghost function RunData(data: Data, reqs: seq<Request>): Data
    requires AllUsable(reqs)
    decreases |reqs|
  {
    if reqs == [] then data
    else StepData(reqs[|reqs| - 1], RunData(data, reqs[..|reqs| - 1])).0
  }

  /** What the i-th request of a sequence is replied. */
  ghost function ReplyData(data: Data, reqs: seq<Request>, i: nat): Reply
    requires AllUsable(reqs) && i < |reqs|
  {
    StepData(reqs[i], RunData(data, reqs[..i])).1
  }

  /** Each request is answerable on the data that those before it leave. */
  ghost predicate AllAnswerable(data: Data, reqs: seq<Request>)
    requires AllUsable(reqs)
  {
    forall i :: 0 <= i < |reqs| ==> Answerable(reqs[i], RunData(data, reqs[..i]))
  }

  /** A sequence of processes on one store. */
  method Session(store: Store, reqs: seq<Request>) returns (replies: seq<Reply>)
    requires AllUsable(reqs) && AllAnswerable(store.data, reqs)
    modifies store
    ensures store.data == RunData(old(store.data), reqs)
    ensures |replies| == |reqs| && forall i :: 0 <= i < |reqs| ==> replies[i] == ReplyData(old(store.data), reqs, i)
  {
    hide StepData, Answerable;
    ghost var data := store.data;
    replies := [];
    for i := 0 to |reqs|
      invariant |replies| == i && store.data == RunData(data, reqs[..i])
      invariant forall j :: 0 <= j < i ==> replies[j] == ReplyData(data, reqs, j)
    {
      assert reqs[..i + 1][..i] == reqs[..i];
      var reply := Process(store, reqs[i]);
      replies := replies + [reply];
    }
    assert reqs[..|reqs|] == reqs;
  }
}
