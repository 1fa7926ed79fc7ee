/** What every sequence of commands on one store keeps and replies, by the store's keys alone. */
module StoreRuns {
  import opened Wrappers
  import opened Types
  import opened Bytes
  import opened Text
  import opened Keys
  import opened Subnets
  import opened Config
  import opened IPStore
  import opened Commands

  // ---- what one command does to the keys

  /** No record is lost or changed; cursors may have moved. */
  ghost predicate Kept(data: Data, data': Data)
  {
    forall k :: k in data ==> k in data' && (k != CursorKey(V4) && k != CursorKey(V6) ==> data'[k] == data[k])
  }

  /**
   What a half that succeeds took: a key nobody had, as asked or of a host, recorded under
   the id; and it leaves the gateway recorded under its own name, which no container's id is.
   */
  ghost predicate Took(f: Family, net: IPNet, conf: IPAMConfig, data: Data, data': Data, address: IPNet)
    requires Usable(f, net)
  {
    var key := KeyText(f, address.ip);
    var gateway := KeyText(f, GatewayOf(f, conf));
    && key !in data && key in data' && key != gateway
    && data'[key] == (if f == V6 && AskedOf(f, conf).Some? then conf.id + "-v6" else conf.id)
    && gateway in data' && data'[gateway] == (if f == V4 then "GateWay" else "GateWayV6")
    && match AskedOf(f, conf)
       case Some(asked) => address == asked
       case None => exists a :: HostPool(f, net).Host(a) && address == IPNet(Address(f, a), net.ones, net.bits)
  }

  lemma GatewayLeft(f: Family, gw: IP, data: Data)
    ensures match GatewayData(f, gw, data)
            case Err(_) => true
            case Ok(data') =>
              Kept(data, data') && KeyText(f, gw) in data' && data'[KeyText(f, gw)] == if f == V4 then "GateWay" else "GateWayV6"
  {
    hide KeyText, InUse, CursorKey;
  }

  lemma TakeTakes(f: Family, net: IPNet, asked: Option<IPNet>, id: string, data: Data)
    requires Usable(f, net)
    ensures match TakeData(f, net, asked, id, data)
            case Err(_) => true
            case Ok((address, data')) =>
              var key := KeyText(f, address.ip);
              && key !in data && data' == data[key := if f == V6 && asked.Some? then id + "-v6" else id]
              && (asked.Some? ==> address == asked.value)
              && (asked.None? ==> exists a :: HostPool(f, net).Host(a) && address == IPNet(Address(f, a), net.ones, net.bits))
  {
    hide String, AllocateData, InUse, Address, StartIn, HostPool;
    if asked.None? {
      var start := StartIn(f, net, data);
      if AllocateData(f, net, start, data, id).Ok? {
        FoundIsHost(f, net, start, data, id);
      }
    }
  }

  lemma HalfTakes(f: Family, net: IPNet, conf: IPAMConfig, data: Data)
    requires Usable(f, net)
    ensures var (data', r) := HalfData(f, net, conf, data);
            Kept(data, data') && (r.Ok? ==> Took(f, net, conf, data, data', r.value))
  {
    hide String, TakeData, GatewayData, Address, HostPool, CursorKey, KeyText;
    var verified := GatewayData(f, GatewayOf(f, conf), data);
    GatewayLeft(f, GatewayOf(f, conf), data);
    KeysAreNoCursors(f, GatewayOf(f, conf));
    if verified.Ok? {
      TakeTakes(f, net, AskedOf(f, conf), conf.id, verified.value);
      var taken := TakeData(f, net, AskedOf(f, conf), conf.id, verified.value);
      if taken.Ok? {
        KeysAreNoCursors(f, taken.value.0.ip);
      }
    }
  }

  lemma KeysAreNoCursors(f: Family, ip: IP)
    ensures KeyText(f, ip) != CursorKey(V4) && KeyText(f, ip) != CursorKey(V6)
  {
    hide String, CursorKey;
    TextIsNoCursor(ip, V4);
    TextIsNoCursor(ip, V6);
  }

  /** An entry of a reply, by what its family's half took. */
  ghost predicate EntryTook(conf: IPAMConfig, data: Data, data': Data, entry: IPConfig)
    requires ConfUsable(conf)
  {
    var f := entry.family;
    && SubnetOf(f, conf).Some? && Took(f, SubnetOf(f, conf).value, conf, data, data', entry.address)
    && entry.gateway == GatewayOf(f, conf)
    && (f == V4 ==> To4(entry.address.ip).Some?)
  }

  lemma FamilyTakes(f: Family, conf: IPAMConfig, data: Data)
    requires ConfUsable(conf)
    ensures var (data', r) := FamilyData(f, conf, data);
            && Kept(data, data')
            && (r.Ok? && r.value.Some? ==> SubnetOf(f, conf).Some? && Took(f, SubnetOf(f, conf).value, conf, data, data', r.value.value))
  {
    hide HalfData, Took;
    if SubnetOf(f, conf).Some? {
      HalfTakes(f, SubnetOf(f, conf).value, conf, data);
    }
  }

  lemma TookAcross(f: Family, net: IPNet, conf: IPAMConfig, data: Data, one: Data, two: Data, data': Data, address: IPNet)
    requires Usable(f, net) && Kept(data, one) && Kept(two, data') && Took(f, net, conf, one, two, address)
    ensures Took(f, net, conf, data, data', address)
  {
    hide String, HostPool, Address, CursorKey, KeyText;
    KeysAreNoCursors(f, address.ip);
    KeysAreNoCursors(f, GatewayOf(f, conf));
  }

  /** ADD loses and changes no record, and every address it replies was free and is now recorded. */
  lemma AddTakes(conf: IPAMConfig, data: Data)
    requires ConfUsable(conf)
    ensures var (data', r) := AddData(conf, data);
            Kept(data, data') && (r.Ok? ==> forall entry :: entry in r.value ==> EntryTook(conf, data, data', entry))
  {
    hide FamilyData, Took;
    var (data4, r4) := FamilyData(V4, conf, data);
    FamilyTakes(V4, conf, data);
    FamilyTakes(V6, conf, data4);
    var (data6, r6) := FamilyData(V6, conf, data4);
    if r4.Ok? && r4.value.Some? && r6.Ok? {
      TookAcross(V4, conf.ipv4Subnet.value, conf, data, data, data4, data6, r4.value.value);
    }
    if r4.Ok? && r6.Ok? && r6.value.Some? {
      TookAcross(V6, conf.ipv6Subnet.value, conf, data, data4, data6, data6, r6.value.value);
    }
  }

  /** A DEL names the key's address, or releases by the id that the key is listed first for. */
  ghost predicate Frees(conf: IPAMConfig, data: Data, key: string)
  {
    if conf.ipv4Address.Some? || conf.ipv6Address.Some? then
      AskedKey(V4, conf) <= data.Keys && key in AskedKey(V4, conf) + AskedKey(V6, conf)
    else
      && conf.id != ""
      && exists prefix :: prefix in [IP_PREFIX, IP_PREFIX_V6] && FirstBearer(data, prefix, conf.id, key)
  }

  /** DEL loses exactly the records it frees, and changes none. */
  lemma DelFrees(conf: IPAMConfig, data: Data, key: string)
    requires key in data && key != CursorKey(V4) && key != CursorKey(V6)
    ensures var data' := DelData(conf, data).0;
            (key !in data' <==> Frees(conf, data, key)) && (key in data' ==> data'[key] == data[key])
  {
    hide String, KeyText, FirstBearer;
    if conf.ipv4Address.None? && conf.ipv6Address.None? && conf.id != "" {
      var key4, key6 := Bearer(data, IP_PREFIX, conf.id), Bearer(data, IP_PREFIX_V6, conf.id);
      BearerIff(data, IP_PREFIX, conf.id, key);
      BearerIff(data, IP_PREFIX_V6, conf.id, key);
    }
  }

  lemma BearerIff(data: Data, prefix: string, id: string, key: string)
    ensures Bearer(data, prefix, id) == Some(key) <==> FirstBearer(data, prefix, id, key)
  {
    if FirstBearer(data, prefix, id, key) {
      BearerIs(data, prefix, id, Some(key));
    }
  }

  // ---- exclusive replies

  lemma DataStep(data: Data, reqs: seq<Request>, k: nat)
    requires AllUsable(reqs) && k < |reqs|
    ensures RunData(data, reqs[..k + 1]) == StepData(reqs[k], RunData(data, reqs[..k])).0
  {
    assert reqs[..k + 1][..k] == reqs[..k];
  }

  /** The k-th request is a DEL that removes the key. */
  ghost predicate Removes(data: Data, reqs: seq<Request>, k: nat, key: string)
    requires AllUsable(reqs) && k < |reqs|
  {
    && reqs[k].DelRequest? && Frees(reqs[k].conf, RunData(data, reqs[..k]), key)
    && key in RunData(data, reqs[..k]) && key !in RunData(data, reqs[..k + 1])
  }

  /** A record stays until a DEL frees it. */
  lemma {:induction false} KeyStays(data: Data, reqs: seq<Request>, key: string, i: nat, j: nat)
    requires AllUsable(reqs) && i <= j <= |reqs| && key in RunData(data, reqs[..i])
    requires key != CursorKey(V4) && key != CursorKey(V6)
    ensures key in RunData(data, reqs[..j]) || exists k :: i <= k < j && Removes(data, reqs, k, key)
    decreases j
  {
    hide AddData, DelData, Frees, RunData;
    if i < j {
      var k := j - 1;
      KeyStays(data, reqs, key, i, k);
      DataStep(data, reqs, k);
      var now := RunData(data, reqs[..k]);
      if key in now && key !in RunData(data, reqs[..j]) {
        AddTakes(reqs[k].conf, now);
        DelFrees(reqs[k].conf, now, key);
        assert Removes(data, reqs, k, key);
      }
    }
  }

  /** The i-th request is an ADD that was replied this entry. */
  ghost predicate HandedOut(data: Data, reqs: seq<Request>, i: nat, entry: IPConfig)
    requires AllUsable(reqs) && i < |reqs|
  {
    reqs[i].AddRequest? && var reply := ReplyData(data, reqs, i); reply.result.Ok? && entry in reply.result.value
  }

  /** Every address replied was free before, is recorded after, and its key is no cursor's. */
  lemma HandedOutFresh(data: Data, reqs: seq<Request>, i: nat, entry: IPConfig)
    requires AllUsable(reqs) && i < |reqs| && HandedOut(data, reqs, i, entry)
    ensures EntryTook(reqs[i].conf, RunData(data, reqs[..i]), RunData(data, reqs[..i + 1]), entry)
    ensures var key := KeyText(entry.family, entry.address.ip); key != CursorKey(V4) && key != CursorKey(V6)
  {
    hide AddData, RunData, Took, KeyText;
    DataStep(data, reqs, i);
    AddTakes(reqs[i].conf, RunData(data, reqs[..i]));
    KeysAreNoCursors(entry.family, entry.address.ip);
  }

  /**
   No two replies of a sequence of requests hand out one address, unless a DEL between them
   named it or released the id it was listed for: whatever the store held, for any subnets.
   */
  lemma RepliesAreExclusive(data: Data, reqs: seq<Request>, i: nat, c: IPConfig, j: nat, d: IPConfig)
    requires AllUsable(reqs) && i < j < |reqs| && HandedOut(data, reqs, i, c) && HandedOut(data, reqs, j, d)
    requires c.family == d.family && String(c.address.ip) == String(d.address.ip)
    ensures exists k :: i < k < j && Removes(data, reqs, k, KeyText(c.family, c.address.ip))
  {
    hide String, HandedOut, RunData, Removes;
    HandedOutFresh(data, reqs, i, c);
    HandedOutFresh(data, reqs, j, d);
    KeyStays(data, reqs, KeyText(c.family, c.address.ip), i + 1, j);
  }
}
