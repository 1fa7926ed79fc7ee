/**
 The one way in which an IPv6 search comes to run for ever: a release by id takes an IPv4
 record that starts with "6." for an IPv6 one and leaves the IPv6 cursor unreadable.
 */
module EndlessSearch {
  import opened Wrappers
  import opened Types
  import opened Bytes
  import opened Text
  import opened Keys
  import opened Cycle
  import opened Subnets
  import opened Config
  import opened IPStore
  import opened Commands
  import opened StoreLiveness
  import Allocation

  // ---- an unreadable cursor

  lemma DotIsNoAddress(t: string)
    requires t != "" && t[0] == '.' && ':' !in t
    ensures Parsed(t) == []
  {
    var r := ParseIP(t);
    hide ParseIP, Text4, Text6;
    if r.Some? {
      var ip := r.value;
      if To4(ip).Some? {
        Text4Shape(To4(ip).value);
      } else {
        Text6RoundTrip(ip);
      }
      assert false;
    }
  }

  lemma SixReads(ip: IP)
    requires |ip| == 4 && ip[0] == 6
    ensures String(ip)[1..] != "" && Parsed(String(ip)[1..]) == []
  {
    hide Text4, Join, Numerals, Parsed;
    Text4From(ip);
    Reads4(ip);
    Text4Shape(ip);
    assert Numeral(false, 6) == ['6'];
    DotIsNoAddress(String(ip)[1..]);
  }

  /** Every IPv6 host is recorded. */
  ghost predicate Full(s: Setup, data: Data)
    requires GoodSetup(s)
  {
    forall b: nat :: Host(s, V6, b) ==> Key(V6, b) in data
  }

  /** An ADD that has to find an IPv6 address. */
  function Asking(s: Setup): IPAMConfig
  {
    IPAMConfig("", None, None, [], Some(s.net6), None, s.gateway6)
  }

  lemma AskingBelongs(s: Setup)
    requires GoodSetup(s)
    ensures Belongs(s, AddRequest(Asking(s))) && ConfUsable(Asking(s))
  {
    NetUsable(s, V6);
  }

  /** With every host recorded and an unreadable cursor the search never ends. */
  lemma SearchStuck(s: Setup, data: Data)
    requires GoodSetup(s) && Full(s, data) && CursorKey(V6) in data && Parsed(data[CursorKey(V6)]) == []
    requires var key := KeyText(V6, s.gateway6); key in data && data[key] == Allocation.GATEWAY_V6_VALUE
    ensures ConfUsable(Asking(s)) && !AddEnds(Asking(s), data)
  {
    hide Key, KeyText, Address, Value, Parsed, UsedHosts, LoopExits, HostPool, GoodSetup, Base;
    AskingBelongs(s);
    NetUsable(s, V6);
    var net, p := s.net6, HostPool(V6, s.net6);
    HostPoolShape(V6, net);
    assert StartIn(V6, net, data) == Base(net.ip, net.ones);
    StartsAtNetwork(net);
    FullIsUsed(s, data);
    LoopExitsIff(p, UsedHosts(V6, p, data), Value(Base(net.ip, net.ones)));
    assert !SearchEnds(V6, net, Base(net.ip, net.ones), data);
  }

  lemma FullIsUsed(s: Setup, data: Data)
    requires GoodSetup(s)
    ensures var p := HostPool(V6, NetIn(s, V6));
            Full(s, data) <==> forall b: nat :: p.Host(b) ==> b in UsedHosts(V6, p, data)
  {
    hide Key, GoodSetup;
    NetUsable(s, V6);
    var p := HostPool(V6, s.net6);
    forall b: nat
      ensures b in UsedHosts(V6, p, data) <==> p.Host(b) && Key(V6, b) in data
    {
      UsedIff(V6, p.lo, p.hi, data, b);
    }
    assert forall b: nat :: Host(s, V6, b) <==> p.Host(b);
  }

  lemma StartsAtNetwork(net: IPNet)
    requires Served(V6, net)
    ensures var base := Base(net.ip, net.ones); StartsIn(V6, net, base) && !HostPool(V6, net).Host(Value(base))
  {
    hide Value, Spell;
    MaxFits(net);
    AddressWithin(V6, net, net.Min());
    ValueInjective(Base(net.ip, net.ones), Address(V6, net.Min()));
  }

  // ---- a run that gets there

  predicate Scannable(key: string)
  {
    IP_PREFIX <= key || IP_PREFIX_V6 <= key
  }

  /** Of the listed records only that of the key bears the id. */
  ghost predicate SoleBearer(data: Data, key: string, id: string)
  {
    && key in data && data[key] == id
    && forall k :: k in data && Scannable(k) && data[k] == id ==> k == key
  }

  /** ADDs that have to find IPv6 addresses go on as they should. */
  ghost predicate Ready(s: Setup, data: Data)
    requires GoodSetup(s)
  {
    var key := Key(V6, Value(s.gateway6));
    && !InUse(data, IP_PREFIX, Allocation.GATEWAY_V6_VALUE)
    && (key in data ==> data[key] == Allocation.GATEWAY_V6_VALUE)
    && (CursorKey(V6) in data ==> exists b: nat :: Host(s, V6, b) && data[CursorKey(V6)] == String(Address(V6, b)))
  }

  ghost predicate Staged(s: Setup, a: nat, id: string, data: Data)
    requires GoodSetup(s)
  {
    SoleBearer(data, Key(V4, a), id) && Ready(s, data)
  }

  /** The ids of the run. */
  predicate FreshId(id: string)
  {
    id != "" && id != Allocation.GATEWAY_V6_VALUE
  }

  lemma PutSole(data: Data, key: string, id: string, other: string, value: string)
    requires SoleBearer(data, key, id) && other != key && (value != id || !Scannable(other))
    ensures SoleBearer(data[other := value], key, id)
  {
    hide Scannable;
  }

  /** Recording an IPv6 host leaves IPv6 searches as they are. */
  lemma PutReady(s: Setup, data: Data, b: nat, other: string)
    requires GoodSetup(s) && Ready(s, data) && Host(s, V6, b)
    requires b == Value(s.gateway6) ==> other == Allocation.GATEWAY_V6_VALUE
    ensures Ready(s, data[Key(V6, b) := other])
  {
    hide Key, GoodSetup, Host, Address, String, Value;
    var data' := data[Key(V6, b) := other];
    HostFacts(s, V6, b);
    GatewayFacts(s, V6);
    KeyShape(V6, b);
    HostKeyIs(s, V6, b, V6);
    forall k | k in data' && IP_PREFIX <= k
      ensures k in data && data[k] == data'[k]
    {
      assert k[0] != Key(V6, b)[0];
    }
  }

  /** Recording an IPv6 host under another id leaves the stage as it is. */
  lemma PutStaged(s: Setup, a: nat, id: string, data: Data, b: nat, other: string)
    requires GoodSetup(s) && Staged(s, a, id, data) && Host(s, V6, b) && id != other && Plain(V4, a)
    requires b == Value(s.gateway6) ==> other == Allocation.GATEWAY_V6_VALUE
    ensures Staged(s, a, id, data[Key(V6, b) := other])
  {
    hide Key, GoodSetup, Host, Plain, Value, SoleBearer, Ready;
    HostFacts(s, V6, b);
    KeysDistinct(V6, b, V4, a);
    PutSole(data, Key(V4, a), id, Key(V6, b), other);
    PutReady(s, data, b, other);
  }

  lemma CursorStaged(s: Setup, a: nat, id: string, data: Data, b: nat)
    requires GoodSetup(s) && Staged(s, a, id, data) && Host(s, V6, b) && Plain(V4, a)
    ensures Staged(s, a, id, data[CursorKey(V6) := String(Address(V6, b))])
  {
    hide Key, GoodSetup, Host, Plain, Address, String, Value, SoleBearer;
    var data' := data[CursorKey(V6) := String(Address(V6, b))];
    GatewayFacts(s, V6);
    HostKeyIs(s, V6, Value(s.gateway6), V6);
    NotACursorKey(V4, a, V6);
    forall k | Scannable(k)
      ensures k != CursorKey(V6)
    {
      assert k[0] != CursorKey(V6)[0];
    }
    PutSole(data, Key(V4, a), id, CursorKey(V6), String(Address(V6, b)));
  }

  /** On a staged store the gateway is recorded under its name, or at once recorded. */
  lemma GatewayStaged(s: Setup, a: nat, id: string, data: Data)
    requires GoodSetup(s) && Staged(s, a, id, data) && FreshId(id) && Plain(V4, a)
    ensures var r := GatewayData(V6, s.gateway6, data); var key := Key(V6, Value(s.gateway6));
            && r.Ok? && Staged(s, a, id, r.value) && key in r.value
            && (r.value == data || (key !in data && r.value == data[key := Allocation.GATEWAY_V6_VALUE]))
  {
    hide Key, GoodSetup, Host, Plain, Address, Value, KeyText;
    GatewayFacts(s, V6);
    PutStaged(s, a, id, data, Value(s.gateway6), Allocation.GATEWAY_V6_VALUE);
  }

  /** With a host left, a nameless search on a staged store finds one. */
  lemma FindsHost(s: Setup, a: nat, id: string, data: Data)
    requires GoodSetup(s) && Staged(s, a, id, data) && !Full(s, data)
    ensures var r := AllocateData(V6, NetIn(s, V6), StartIn(V6, NetIn(s, V6), data), data, "");
            r.Ok? && Host(s, V6, r.value.0) && Key(V6, r.value.0) !in data && r.value.1 == data[Key(V6, r.value.0) := ""]
  {
    hide Key, GoodSetup, Value, Address, ParseIP, String, Base, UsedHosts, FirstFree, Distance, To4, HostPool, StartIn;
    NetUsable(s, V6);
    var net := NetIn(s, V6);
    var start := StartIn(V6, net, data);
    StagedStart(s, a, id, data);
    AllocateStarts(V6, net, start, data, "");
    FullIsUsed(s, data);
    FirstFreeIsNearest(HostPool(V6, net), UsedHosts(V6, HostPool(V6, net), data), Value(start));
    NewKey(V6, HostPool(V6, net), data);
  }

  lemma NewKey(f: Family, p: Pool, data: Data)
    ensures forall b: nat :: p.Host(b) && b !in UsedHosts(f, p, data) ==> Key(f, b) !in data
  {
    hide Key;
    forall b: nat | p.Host(b) && b !in UsedHosts(f, p, data)
      ensures Key(f, b) !in data
    {
      UsedIff(f, p.lo, p.hi, data, b);
    }
  }

  lemma StagedStart(s: Setup, a: nat, id: string, data: Data)
    requires GoodSetup(s) && Staged(s, a, id, data)
    ensures StartsIn(V6, NetIn(s, V6), StartIn(V6, NetIn(s, V6), data))
  {
    hide Key, GoodSetup, Value, Address, ParseIP, String, Base;
    NetUsable(s, V6);
    var net := NetIn(s, V6);
    if CursorKey(V6) in data {
      var b: nat :| Host(s, V6, b) && data[CursorKey(V6)] == String(Address(V6, b));
      HostFacts(s, V6, b);
      HostPoolShape(V6, net);
      AddressWithin(V6, net, b);
    } else {
      StartsAtNetwork(net);
    }
  }

  /** One such ADD records the gateway and, while there is one left, a host; nothing else changes. */
  lemma FillStep(s: Setup, a: nat, id: string, data: Data)
    requires GoodSetup(s) && Staged(s, a, id, data) && FreshId(id) && Plain(V4, a)
    ensures ConfUsable(Asking(s))
    ensures var data' := AddData(Asking(s), data).0;
            && Staged(s, a, id, data') && Key(V6, Value(s.gateway6)) in data'
            && (forall k :: k in data ==> k in data')
            && (Full(s, data') || exists b: nat :: Host(s, V6, b) && Key(V6, b) !in data && Key(V6, b) in data')
  {
    hide Key, GoodSetup, Host, Plain, Value, Address, String, Staged, GatewayData, AllocateData, Full, ConfUsable, StartIn;
    AskingBelongs(s);
    GatewayStaged(s, a, id, data);
    var data1 := GatewayData(V6, s.gateway6, data).value;
    if Full(s, data1) {
      FullFindsNone(s, data1);
    } else {
      FindsHost(s, a, id, data1);
      var (b, data2) := AllocateData(V6, s.net6, StartIn(V6, s.net6, data1), data1, "").value;
      GatewayFacts(s, V6);
      PutStaged(s, a, id, data1, b, "");
      CursorStaged(s, a, id, data2, b);
    }
  }

  /** With every host recorded a search finds nothing, however it ends. */
  lemma FullFindsNone(s: Setup, data: Data)
    requires GoodSetup(s) && Full(s, data)
    ensures AllocateData(V6, NetIn(s, V6), StartIn(V6, NetIn(s, V6), data), data, "").Err?
  {
    hide Key, GoodSetup, Value, Address, ParseIP, String, Base, UsedHosts, FirstFree, Distance, To4, HostPool, StartIn;
    NetUsable(s, V6);
    var net := NetIn(s, V6);
    var start := StartIn(V6, net, data);
    FullIsUsed(s, data);
    HostPoolShape(V6, net);
    FirstFreeIsNearest(HostPool(V6, net), UsedHosts(V6, HostPool(V6, net), data), Value(start));
  }

  ghost predicate AllBelong(s: Setup, reqs: seq<Request>)
    requires GoodSetup(s)
  {
    forall i :: 0 <= i < |reqs| ==> Belongs(s, reqs[i])
  }

  lemma AllBelongUsable(s: Setup, reqs: seq<Request>)
    requires GoodSetup(s) && AllBelong(s, reqs)
    ensures AllUsable(reqs)
  {
    hide GoodSetup, Belongs;
    forall i | 0 <= i < |reqs|
      ensures ConfUsable(reqs[i].conf)
    {
      BelongsServed(s, reqs[i]);
    }
  }

  lemma RunOneMore(s: Setup, reqs: seq<Request>, req: Request)
    requires GoodSetup(s) && AllBelong(s, reqs) && Belongs(s, req)
    ensures AllBelong(s, reqs + [req]) && AllUsable(reqs) && AllUsable(reqs + [req]) && ConfUsable(req.conf)
    ensures RunData(map[], reqs + [req]) == StepData(req, RunData(map[], reqs)).0
  {
    AllBelongUsable(s, reqs);
    BelongsServed(s, req);
    assert (reqs + [req])[..|reqs|] == reqs;
  }

  /** The IPv6 hosts that are left. */
  ghost function Left(s: Setup, data: Data): set<nat>
    requires GoodSetup(s)
  {
    set b | b in HostPool(V6, NetIn(s, V6)).Hosts() && Key(V6, b) !in data
  }

  lemma LessLeft(s: Setup, data: Data, data': Data, b: nat)
    requires GoodSetup(s) && (forall k :: k in data ==> k in data')
    requires Host(s, V6, b) && Key(V6, b) !in data && Key(V6, b) in data'
    ensures |Left(s, data')| < |Left(s, data)|
  {
    hide Key, GoodSetup;
    assert b in Left(s, data) && b !in Left(s, data');
    assert Left(s, data') <= Left(s, data) - {b};
    Smaller(Left(s, data'), Left(s, data) - {b});
  }

  lemma {:induction false} Smaller(one: set<nat>, two: set<nat>)
    requires one <= two
    ensures |one| <= |two|
  {
    if one != {} {
      var x :| x in one;
      Smaller(one - {x}, two - {x});
    }
  }

  /** Enough ADDs record every IPv6 host. */
  lemma {:induction false} FillUp(s: Setup, a: nat, id: string, reqs: seq<Request>) returns (longer: seq<Request>)
    requires GoodSetup(s) && AllBelong(s, reqs) && FreshId(id) && Plain(V4, a)
    requires AllUsable(reqs) && Staged(s, a, id, RunData(map[], reqs))
    ensures AllBelong(s, longer) && AllUsable(longer)
    ensures var data := RunData(map[], longer); Staged(s, a, id, data) && Full(s, data) && Key(V6, Value(s.gateway6)) in data
    decreases |Left(s, RunData(map[], reqs))|
  {
    hide Key, GoodSetup, Host, Plain, Value, Staged, Full, Belongs, AddData, Left, RunData, Asking;
    var req := AddRequest(Asking(s));
    AskingBelongs(s);
    RunOneMore(s, reqs, req);
    longer := reqs + [req];
    var data, data' := RunData(map[], reqs), RunData(map[], longer);
    FillStep(s, a, id, data);
    if !Full(s, data') {
      var b: nat :| Host(s, V6, b) && Key(V6, b) !in data && Key(V6, b) in data';
      LessLeft(s, data, data', b);
      longer := FillUp(s, a, id, longer);
    }
  }

  /** An ADD that asks for an IPv4 host. */
  function AskingFor(s: Setup, b: nat): IPAMConfig
  {
    IPAMConfig("x", Some(s.net4), Some(IPNet(Address(V4, b), s.net4.ones, s.net4.bits)), s.gateway4, None, None, [])
  }

  /** The store after a first ADD that asks for the IPv4 host b. */
  function FirstData(s: Setup, b: nat): Data
  {
    map[Key(V4, Value(s.gateway4)) := Allocation.GATEWAY_VALUE, Key(V4, b) := "x", CursorKey(V4) := String(Address(V4, b))]
  }

  lemma FirstRecords(s: Setup, b: nat)
    requires GoodSetup(s) && Host(s, V4, b) && b != Value(s.gateway4)
    ensures var g := Value(s.gateway4); var data1 := map[Key(V4, g) := Allocation.GATEWAY_VALUE];
            && KeyText(V4, Address(V4, b)) == Key(V4, b)
            && GatewayData(V4, s.gateway4, map[]) == Ok(data1)
            && AssignData(data1, Key(V4, b), "x", IP_PREFIX) == Ok(data1[Key(V4, b) := "x"])
  {
    hide Key, GoodSetup, Host, Value, Address, String, KeyText;
    HostFacts(s, V4, b);
    GatewayFacts(s, V4);
    HostKeyIs(s, V4, b, V4);
    var data1 := map[Key(V4, Value(s.gateway4)) := Allocation.GATEWAY_VALUE];
    assert forall k :: k in data1 ==> data1[k] == Allocation.GATEWAY_VALUE;
  }

  lemma AskingForBelongs(s: Setup, b: nat)
    requires GoodSetup(s) && Host(s, V4, b)
    ensures Belongs(s, AddRequest(AskingFor(s, b))) && ConfUsable(AskingFor(s, b))
  {
    hide Value, Address, Key, String;
    NetUsable(s, V4);
    HostFacts(s, V4, b);
  }

  lemma FirstAdd(s: Setup, b: nat)
    requires GoodSetup(s) && Host(s, V4, b) && b != Value(s.gateway4)
    ensures Belongs(s, AddRequest(AskingFor(s, b))) && ConfUsable(AskingFor(s, b))
    ensures AddData(AskingFor(s, b), map[]).0 == FirstData(s, b)
  {
    hide Key, GoodSetup, Host, Value, Address, String, KeyText, GatewayData, AssignData, Belongs, ConfUsable;
    AskingForBelongs(s, b);
    FirstRecords(s, b);
  }

  /** There either record is its id's only bearer. */
  lemma FirstStaged(s: Setup, a: nat, b: nat, id: string)
    requires GoodSetup(s) && Host(s, V4, b) && b != Value(s.gateway4)
    requires (a == b && id == "x") || (a == Value(s.gateway4) && id == Allocation.GATEWAY_VALUE)
    ensures Staged(s, a, id, FirstData(s, b))
  {
    hide Key, GoodSetup, Host, Value, Address, String;
    var g, data := Value(s.gateway4), FirstData(s, b);
    GatewayFacts(s, V4);
    GatewayFacts(s, V6);
    HostKeyIs(s, V4, g, V4);
    HostKeyIs(s, V4, b, V4);
    HostKeyIs(s, V6, Value(s.gateway6), V4);
    forall k | k in data && (IP_PREFIX <= k || IP_PREFIX_V6 <= k)
      ensures k == Key(V4, g) || k == Key(V4, b)
    {
      assert k[0] != CursorKey(V4)[0];
    }
    assert CursorKey(V4) != CursorKey(V6) by { assert |CursorKey(V4)| != |CursorKey(V6)|; }
    HostKeyIs(s, V4, g, V6);
    HostKeyIs(s, V4, b, V6);
  }

  /** A host to ask for first, so that a's record is the only bearer of an id. */
  lemma Partner(s: Setup, a: nat) returns (b: nat, id: string)
    requires GoodSetup(s) && Host(s, V4, a)
    ensures Host(s, V4, b) && b != Value(s.gateway4) && FreshId(id)
    ensures (a == b && id == "x") || (a == Value(s.gateway4) && id == Allocation.GATEWAY_VALUE)
  {
    hide Value;
    NetUsable(s, V4);
    hide GoodSetup;
    var g, p := Value(s.gateway4), HostPool(V4, s.net4);
    HostPoolShape(V4, s.net4);
    b := if a != g then a else if g == p.lo then p.hi else p.lo;
    id := if a != g then "x" else Allocation.GATEWAY_VALUE;
  }

  /** A release by id takes an IPv4 record listed under 6 for an IPv6 one. */
  lemma TakenForV6(s: Setup, a: nat, id: string, data: Data)
    requires GoodSetup(s) && SoleBearer(data, Key(V4, a), id) && id != "" && Host(s, V4, a) && LeadingDigit(Address(V4, a)[0]) == 6
    ensures var key := Key(V4, a);
            key != "" && DelData(Releasing(s, id), data) == ((data - {key})[CursorKey(V6) := key[1..]], Ok(()))
    ensures String(Address(V4, a)) == Key(V4, a)
  {
    hide Key, GoodSetup, Host, Address, String, Bearer, Precedes;
    HostFacts(s, V4, a);
    ListedUnderPrefix(V4, a);
    SixNotOne(Address(V4, a)[0]);
    KeyIsText(a);
    NotEmptyRest(Address(V4, a));
    var key := Key(V4, a);
    PrecedesTotal(key, key);
    BearerIs(data, IP_PREFIX, id, None);
    BearerIs(data, IP_PREFIX_V6, id, Some(key));
    assert data - {} == data;
  }

  lemma SixNotOne(octet: nat)
    requires LeadingDigit(octet) == 6
    ensures !LeadingOne(octet)
  {
  }

  lemma NotEmptyRest(ip: IP)
    requires |ip| == 4
    ensures |String(ip)| > 1
  {
    hide Text4, Join, Numerals, Numeral;
    Text4From(ip);
    Reads4(ip);
    ReadBack(false, ip[0]);
  }

  /** From 60.0.0.0 on, what is left of the text makes every IPv6 search fail until the cursor moves again. */
  lemma DelBlocksSearch(s: Setup, a: nat, id: string, data: Data, other: string)
    requires GoodSetup(s) && SoleBearer(data, Key(V4, a), id) && id != "" && Host(s, V4, a)
    requires LeadingDigit(Address(V4, a)[0]) == 6 && Address(V4, a)[0] != 6
    ensures var data' := DelData(Releasing(s, id), data).0; var net := NetIn(s, V6);
            Usable(V6, net) && AllocateData(V6, net, StartIn(V6, net, data'), data', other) == Err(WrongFamily)
  {
    hide Key, GoodSetup, Host, Address, String, Parsed, HostPool;
    NetUsable(s, V6);
    TakenForV6(s, a, id, data);
    SixtyReads(Address(V4, a));
    MappedRefused(Parsed(Key(V4, a)[1..]));
  }

  /** From 6.0.0.0 to 6.255.255.255 the cursor is unreadable, and every IPv6 record stays in place. */
  lemma DelMisreads(s: Setup, a: nat, id: string, data: Data)
    requires GoodSetup(s) && Staged(s, a, id, data) && FreshId(id) && Host(s, V4, a) && Address(V4, a)[0] == 6
    requires Full(s, data) && Key(V6, Value(s.gateway6)) in data
    ensures var data' := DelData(Releasing(s, id), data).0; var key := KeyText(V6, s.gateway6);
            && Full(s, data') && key in data' && data'[key] == Allocation.GATEWAY_V6_VALUE
            && CursorKey(V6) in data' && Parsed(data'[CursorKey(V6)]) == []
  {
    hide Key, GoodSetup, Host, Value, Address, String, Parsed, KeyText, SoleBearer, DelData;
    TakenForV6(s, a, id, data);
    SixReads(Address(V4, a));
    GatewayFacts(s, V6);
    HostKeyIs(s, V4, a, V6);
    forall b: nat | Host(s, V6, b)
      ensures Key(V6, b) in DelData(Releasing(s, id), data).0 && Key(V6, b) != CursorKey(V6)
    {
      HostKeyIs(s, V6, b, V6);
    }
  }

  lemma KeyIsText(a: nat)
    ensures Key(V4, a) == String(Address(V4, a))
  {
  }

  /** A release by id. */
  function Releasing(s: Setup, id: string): IPAMConfig
  {
    IPAMConfig(id, Some(s.net4), None, s.gateway4, None, None, [])
  }

  /** Where some IPv4 host's text starts with "6.", a sequence of requests leads to a search without end. */
  lemma Stuck(s: Setup, a: nat) returns (reqs: seq<Request>)
    requires GoodSetup(s) && Host(s, V4, a) && Address(V4, a)[0] == 6
    ensures AllBelong(s, reqs) && AllUsable(reqs) && !AllAnswerable(map[], reqs)
  {
    hide Key, GoodSetup, Host, Value, Address, String, Full, Staged, AddData, DelData, RunData, AddEnds, ConfServed, KeyText, Belongs;
    HostFacts(s, V4, a);
    var b, id := Partner(s, a);
    FirstAdd(s, b);
    FirstStaged(s, a, b, id);
    assert RunData(map[], []) == map[] by { EmptyRun(); }
    RunOneMore(s, [], AddRequest(AskingFor(s, b)));
    var first := [] + [AddRequest(AskingFor(s, b))];
    var filled := FillUp(s, a, id, first);
    ReleaseBelongs(s, id);
    RunOneMore(s, filled, DelRequest(Releasing(s, id)));
    DelMisreads(s, a, id, RunData(map[], filled));
    var released := filled + [DelRequest(Releasing(s, id))];
    AskingBelongs(s);
    RunOneMore(s, released, AddRequest(Asking(s)));
    reqs := released + [AddRequest(Asking(s))];
    SearchStuck(s, RunData(map[], released));
    assert reqs[..|released|] == released && reqs[|released|] == AddRequest(Asking(s));
  }

  lemma ReleaseBelongs(s: Setup, id: string)
    requires GoodSetup(s)
    ensures Belongs(s, DelRequest(Releasing(s, id)))
  {
  }

  /** Every request of the sequence comes to its end. */
  ghost predicate Finishes(reqs: seq<Request>)
  {
    AllUsable(reqs) && AllAnswerable(map[], reqs)
  }

  /**
   Every sequence of requests on the subnets comes to its end, each of its searches with it,
   exactly when no IPv4 host's text starts with "6.".
   */
  lemma SessionsEndIff(s: Setup)
    requires GoodSetup(s)
    ensures NoSix(s) <==> forall reqs :: AllBelong(s, reqs) ==> Finishes(reqs)
  {
    hide GoodSetup, Host, Belongs, ConfUsable, Answerable, Address, RunData;
    if NoSix(s) {
      forall reqs | AllBelong(s, reqs)
        ensures Finishes(reqs)
      {
        SessionsEnd(s, reqs);
      }
    } else {
      var a: nat :| Host(s, V4, a) && Address(V4, a)[0] == 6;
      var reqs := Stuck(s, a);
      assert AllBelong(s, reqs) && !Finishes(reqs);
    }
  }

  lemma EmptyRun()
    ensures RunData(map[], []) == map[]
  {
  }
}
