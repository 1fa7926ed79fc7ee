/** What one ADD or DEL answers and writes, outcome by outcome, in terms of keys, names and ids. */
module CommandOutcomes {
  import opened Wrappers
  import opened Types
  import opened Bytes
  import opened Text
  import opened Keys
  import opened Subnets
  import opened Config
  import opened IPStore
  import opened Commands
  import opened StoreRuns

  // ---- ADD

  /** Some record listed under "1" carries the id. */
  ghost predicate Listed1(data: Data, id: string)
  {
    exists k :: k in data && "1" <= k && data[k] == id
  }

  /**
   The gateway: accepted if recorded under its own name, refused if recorded under another,
   and recorded if it is new, unless its name is listed for an IPv4 address.
   */
  lemma GatewayOutcome(f: Family, gw: IP, data: Data)
    ensures var r := GatewayData(f, gw, data); var name := if f == V4 then "GateWay" else "GateWayV6";
            var key := if f == V4 then String(gw) else "6" + String(gw);
            && (key in data && data[key] == name ==> r == Ok(data))
            && (key in data && data[key] != name && data[key] != "" ==> r == Err(GatewayTaken))
            && (key in data && data[key] == "" ==> r == Err(KeyExists))
            && (key !in data && Listed1(data, name) ==> r == Err(IdInUse))
            && (key !in data && !Listed1(data, name) ==> r == Ok(data[key := name]))
  {
    hide String;
  }

  /** An address asked for: recorded under the id, for IPv6 with a suffix, if it is new and the id not listed for an IPv4 address. */
  lemma AskedOutcome(f: Family, net: IPNet, asked: IPNet, id: string, data: Data)
    requires Usable(f, net)
    ensures var r := TakeData(f, net, Some(asked), id, data);
            var key := if f == V4 then String(asked.ip) else "6" + String(asked.ip);
            var recorded := if f == V4 then id else id + "-v6";
            && (key in data ==> r == Err(KeyExists))
            && (key !in data && recorded != "" && Listed1(data, recorded) ==> r == Err(IdInUse))
            && (key !in data && !(recorded != "" && Listed1(data, recorded)) ==> r == Ok((asked, data[key := recorded])))
  {
    hide String;
  }

  /** An address to be found: as the search from the stored cursor answers, with the subnet's mask. */
  lemma FoundOutcome(f: Family, net: IPNet, id: string, data: Data)
    requires Usable(f, net)
    ensures var r := TakeData(f, net, None, id, data);
            match AllocateData(f, net, StartIn(f, net, data), data, id)
            case Err(e) => r == Err(e)
            case Ok((a, data')) => r == Ok((IPNet(Address(f, a), net.ones, net.bits), data'))
    ensures var start := StartIn(f, net, data); var cursor := if f == V4 then "lastKnownIP" else "lastKnownIPv6";
            && (cursor !in data ==> start == Base(net.ip, net.ones))
            && (cursor in data ==> forall ip :: ParseIP(data[cursor]) == Some(ip) && |ip| == Width(f) ==> start == ip)
  {
    hide AllocateData, ParseIP, Address;
    if f == V6 && CursorKey(V6) !in data {
      WideIsItself(Base(net.ip, net.ones));
    }
  }

  /** What a half may change: its gateway's record, its address's, and on success its own cursor. */
  lemma HalfWrites(f: Family, net: IPNet, conf: IPAMConfig, data: Data)
    requires Usable(f, net)
    ensures var (data', r) := HalfData(f, net, conf, data); var cursor := if f == V4 then "lastKnownIP" else "lastKnownIPv6";
            && (forall k :: k in data' && (k !in data || data'[k] != data[k]) ==>
                  || k == KeyText(f, GatewayOf(f, conf))
                  || (r.Ok? && (k == KeyText(f, r.value.ip) || k == cursor)))
            && (r.Ok? ==> cursor in data' && data'[cursor] == String(r.value.ip))
  {
    hide String, AllocateData, InUse, Address, StartIn, HostPool, KeyText;
    var verified := GatewayData(f, GatewayOf(f, conf), data);
    if verified.Ok? && AskedOf(f, conf).None? {
      var start := StartIn(f, net, verified.value);
      if AllocateData(f, net, start, verified.value, conf.id).Ok? {
        FoundIsHost(f, net, start, verified.value, conf.id);
        KeyTextOf(f, AllocateData(f, net, start, verified.value, conf.id).value.0);
      }
    }
  }

  lemma KeyTextOf(f: Family, a: nat)
    ensures KeyText(f, Address(f, a)) == Key(f, a)
  {
  }

  /** A half succeeds exactly if its gateway is accepted and then its address can be taken; it fails with what stopped it. */
  lemma HalfOutcome(f: Family, net: IPNet, conf: IPAMConfig, data: Data)
    requires Usable(f, net)
    ensures var (data', r) := HalfData(f, net, conf, data);
            match GatewayData(f, GatewayOf(f, conf), data)
            case Err(e) => r == Err(e) && data' == data
            case Ok(data1) =>
              match TakeData(f, net, AskedOf(f, conf), conf.id, data1)
              case Err(e) => r == Err(e) && data' == data1
              case Ok((address, _)) => r == Ok(address)
  {
    hide GatewayData, TakeData;
  }

  /** How many entries a reply for the configured families has. */
  function Entries(conf: IPAMConfig): nat
  {
    (if conf.ipv4Subnet.Some? then 1 else 0) + (if conf.ipv6Subnet.Some? then 1 else 0)
  }

  /**
   ADD succeeds exactly if a family is configured and each configured half does, in turn,
   with an address of its version; the reply has one entry for each, IPv4 first.  When the
   IPv4 half fails nothing is done for IPv6.
   */
  lemma AddOutcome(conf: IPAMConfig, data: Data)
    requires ConfUsable(conf)
    ensures var (data', r) := AddData(conf, data);
            var (data4, r4) := FamilyData(V4, conf, data); var (data6, r6) := FamilyData(V6, conf, data4);
            && (r.Ok? <==>
                  && Entries(conf) > 0 && r4.Ok? && r6.Ok?
                  && (r4.value.Some? ==> To4(r4.value.value.ip).Some?) && (r6.value.Some? ==> To4(r6.value.value.ip).None?))
            && (r.Ok? ==> |r.value| == Entries(conf))
            && (r.Ok? && conf.ipv4Subnet.Some? ==> r.value[0] == IPConfig(V4, r4.value.value, conf.ipv4Gateway))
            && (r.Ok? && conf.ipv6Subnet.Some? ==> r.value[Entries(conf) - 1] == IPConfig(V6, r6.value.value, conf.ipv6Gateway))
            && (r4.Err? ==> r == Err(r4.error) && data' == data4)
            && (r4.Ok? && r6.Err? ==> r == Err(r6.error) && data' == data6)
  {
    hide HalfData;
  }

  /** Every configured gateway is recorded under its name when ADD succeeds; and a container's address never passes for a gateway. */
  lemma AddRecordsGateways(conf: IPAMConfig, data: Data, f: Family)
    requires ConfUsable(conf) && AddData(conf, data).1.Ok? && SubnetOf(f, conf).Some?
    ensures var key := KeyText(f, GatewayOf(f, conf)); var name := if f == V4 then "GateWay" else "GateWayV6";
            && key in AddData(conf, data).0 && AddData(conf, data).0[key] == name
            && (key in data ==> data[key] == name)
  {
    hide KeyText, AddData, CursorKey;
    AddTakes(conf, data);
    OneEntryEach(conf, data, f);
    KeysAreNoCursors(f, GatewayOf(f, conf));
  }

  lemma OneEntryEach(conf: IPAMConfig, data: Data, f: Family)
    requires ConfUsable(conf) && AddData(conf, data).1.Ok? && SubnetOf(f, conf).Some?
    ensures exists entry :: entry in AddData(conf, data).1.value && entry.family == f
  {
    AddOutcome(conf, data);
    hide AddData, FamilyData;
    var reply := AddData(conf, data).1.value;
    var i := if f == V4 then 0 else Entries(conf) - 1;
    assert reply[i] in reply && reply[i].family == f;
  }

  // ---- DEL

  /** A DEL that names addresses succeeds exactly if all of them are recorded, and moves just their families' cursors. */
  lemma DelAddressOutcome(conf: IPAMConfig, data: Data)
    requires conf.ipv4Address.Some? || conf.ipv6Address.Some?
    ensures var (data', r) := DelData(conf, data);
            var held4 := conf.ipv4Address.Some? ==> String(conf.ipv4Address.value.ip) in data;
            var same := conf.ipv4Address.Some? && conf.ipv6Address.Some?
                        && String(conf.ipv4Address.value.ip) == "6" + String(conf.ipv6Address.value.ip);
            var held6 := conf.ipv6Address.Some? ==> "6" + String(conf.ipv6Address.value.ip) in data && !same;
            && (r.Ok? <==> held4 && held6) && (r.Err? ==> r.error == NotHeld)
            && (r.Ok? && conf.ipv4Address.Some? ==>
                  "lastKnownIP" in data' && data'["lastKnownIP"] == String(conf.ipv4Address.value.ip))
            && (r.Ok? && conf.ipv6Address.Some? ==>
                  "lastKnownIPv6" in data' && data'["lastKnownIPv6"] == String(conf.ipv6Address.value.ip))
            && (r.Err? || conf.ipv4Address.None? ==> SameAt(data, data', "lastKnownIP"))
            && (r.Err? || conf.ipv6Address.None? ==> SameAt(data, data', "lastKnownIPv6"))
  {
    CursorsApart();
    if conf.ipv4Address.Some? {
      AskedKeyText(V4, conf.ipv4Address.value.ip);
    }
    if conf.ipv6Address.Some? {
      AskedKeyText(V6, conf.ipv6Address.value.ip);
    }
    hide String, KeyText, CursorKey;
  }

  ghost predicate SameAt(data: Data, data': Data, key: string)
  {
    (key in data <==> key in data') && (key in data ==> data'[key] == data[key])
  }

  lemma CursorsApart()
    ensures CursorKey(V4) == "lastKnownIP" && CursorKey(V6) == "lastKnownIPv6" && CursorKey(V4) != CursorKey(V6)
  {
    assert |CursorKey(V4)| != |CursorKey(V6)|;
  }

  lemma AskedKeyText(f: Family, ip: IP)
    ensures String(ip) != "" && KeyText(f, ip) == if f == V4 then String(ip) else "6" + String(ip)
    ensures KeyText(f, ip) != CursorKey(V4) && KeyText(f, ip) != CursorKey(V6)
  {
    KeysAreNoCursors(f, ip);
    TextIsNoCursor(ip, V4);
  }

  /**
   A DEL by id succeeds exactly if a record listed under "1" or "6" carries the id; the key
   of the first under each, for "6" without its first character, becomes the family's cursor.
   No command writes a key that is "6" alone, and only such a key would be listed without an address.
   */
  lemma DelIdOutcome(conf: IPAMConfig, data: Data)
    requires conf.ipv4Address.None? && conf.ipv6Address.None? && conf.id != ""
    ensures var (data', r) := DelData(conf, data);
            && ("6" !in data ==> (r.Ok? <==> exists k :: k in data && ("1" <= k || "6" <= k) && data[k] == conf.id))
            && (r.Err? ==> r.error == UnknownId && ("6" !in data ==> data' == data))
            && (forall k :: FirstBearer(data, "1", conf.id, k) ==> "lastKnownIP" in data' && data'["lastKnownIP"] == k)
            && (forall k :: FirstBearer(data, "6", conf.id, k) && k != "6" ==> "lastKnownIPv6" in data' && data'["lastKnownIPv6"] == k[1..])
            && (!InUse(data, "1", conf.id) ==> SameAt(data, data', "lastKnownIP"))
            && (!InUse(data, "6", conf.id) ==> SameAt(data, data', "lastKnownIPv6"))
  {
    CursorsApart();
    var key4, key6 := Bearer(data, IP_PREFIX, conf.id), Bearer(data, IP_PREFIX_V6, conf.id);
    forall k
      ensures FirstBearer(data, "1", conf.id, k) ==> key4 == Some(k)
      ensures FirstBearer(data, "6", conf.id, k) ==> key6 == Some(k)
    {
      BearerIff(data, IP_PREFIX, conf.id, k);
      BearerIff(data, IP_PREFIX_V6, conf.id, k);
    }
    hide CursorKey, Bearer, Precedes;
    assert key6.Some? && key6.value != "6" ==> |key6.value| > 1;
    assert key4.Some? ==> key4.value[0] == '1';
    assert data - {} == data;
  }

  /** A DEL with neither address nor id releases nothing. */
  lemma DelNothing(conf: IPAMConfig, data: Data)
    requires conf.ipv4Address.None? && conf.ipv6Address.None?
    ensures DelData(conf, data).1 == Err(NothingToRelease) <==> conf.id == ""
    ensures conf.id == "" ==> DelData(conf, data).0 == data
  {
  }
}
