/** Which sequences of commands all come to an end, by the store's keys alone. */
module StoreLiveness {
  import opened Wrappers
  import opened Types
  import opened Bytes
  import opened Text
  import opened Keys
  import opened Cycle
  import opened Subnets
  import opened IPStore
  import opened Commands

  /** The subnets and gateways that the requests on one store share. */
  datatype Setup = Setup(net4: IPNet, gateway4: IP, net6: IPNet, gateway6: IP)

  function NetIn(s: Setup, f: Family): IPNet
  {
    if f == V4 then s.net4 else s.net6
  }

  function GatewayIn(s: Setup, f: Family): IP
  {
    if f == V4 then s.gateway4 else s.gateway6
  }

  /** Served subnets whose gateways are hosts. */
  ghost predicate GoodSetup(s: Setup)
  {
    forall f :: Served(f, NetIn(s, f)) && |GatewayIn(s, f)| == Width(f) && HostPool(f, NetIn(s, f)).Host(Value(GatewayIn(s, f)))
  }

  ghost predicate Host(s: Setup, f: Family, a: nat)
    requires GoodSetup(s)
  {
    HostPool(f, NetIn(s, f)).Host(a)
  }

  /** An explicit address is of its family, and one that an ADD asks of the subnet is a host. */
  ghost predicate AskedFits(s: Setup, f: Family, req: Request)
    requires GoodSetup(s)
  {
    match AskedOf(f, req.conf)
    case None => true
    case Some(asked) =>
      && |asked.ip| == Width(f) && (f == V6 ==> To4(asked.ip).None?)
      && (req.AddRequest? && SubnetOf(f, req.conf).Some? ==> Host(s, f, Value(asked.ip)))
  }

  ghost predicate FamilyFits(s: Setup, f: Family, req: Request)
    requires GoodSetup(s)
  {
    && (SubnetOf(f, req.conf).Some? ==> SubnetOf(f, req.conf) == Some(NetIn(s, f)) && GatewayOf(f, req.conf) == GatewayIn(s, f))
    && AskedFits(s, f, req)
  }

  /** A request on these subnets. */
  ghost predicate Belongs(s: Setup, req: Request)
    requires GoodSetup(s)
  {
    FamilyFits(s, V4, req) && FamilyFits(s, V6, req)
  }

  /**
   No IPv4 host's text starts with "6.": a release by id takes such a text for an IPv6 one,
   and what is left of it without its first character is no address.
   */
  ghost predicate NoSix(s: Setup)
    requires GoodSetup(s)
  {
    forall a: nat :: Host(s, V4, a) ==> Address(V4, a)[0] != 6
  }

  // ---- the invariant

  ghost predicate HostKey(s: Setup, f: Family, key: string)
    requires GoodSetup(s)
  {
    exists a: nat :: Host(s, f, a) && Key(f, a) == key
  }

  /** Every key is a cursor's or a host's. */
  ghost predicate KnownKeys(s: Setup, data: Data)
    requires GoodSetup(s)
  {
    forall k :: k in data ==> k == CursorKey(V4) || k == CursorKey(V6) || HostKey(s, V4, k) || HostKey(s, V6, k)
  }

  /** A text from which a search ends: that of a host, or one refused at once. */
  ghost predicate GoodText(s: Setup, f: Family, text: string)
    requires GoodSetup(s)
  {
    || (exists a: nat :: Host(s, f, a) && String(Address(f, a)) == text)
    || (f == V6 && |Parsed(text)| == 4)
  }

  ghost predicate CursorInv(s: Setup, f: Family, data: Data)
    requires GoodSetup(s)
  {
    if CursorKey(f) in data then GoodText(s, f, data[CursorKey(f)])
    else forall a: nat :: Host(s, f, a) && Key(f, a) in data ==> a == Value(GatewayIn(s, f))
  }

  ghost predicate Guarded(s: Setup, f: Family)
    requires GoodSetup(s)
  {
    f == V4 || NoSix(s)
  }

  ghost predicate KeyInv(s: Setup, data: Data)
    requires GoodSetup(s)
  {
    KnownKeys(s, data) && forall f :: Guarded(s, f) ==> CursorInv(s, f, data)
  }

  lemma HostFacts(s: Setup, f: Family, a: nat)
    requires GoodSetup(s) && Host(s, f, a)
    ensures Plain(f, a) && Value(Address(f, a)) == a && ParseIP(String(Address(f, a))) == Some(Address(f, a))
    ensures KeyText(f, Address(f, a)) == Key(f, a)
  {
    ServedHost(f, NetIn(s, f), a);
  }

  lemma GatewayFacts(s: Setup, f: Family)
    requires GoodSetup(s)
    ensures var g := Value(GatewayIn(s, f)); Host(s, f, g) && Address(f, g) == GatewayIn(s, f) && KeyText(f, GatewayIn(s, f)) == Key(f, g)
  {
    var gw := GatewayIn(s, f);
    HostFacts(s, f, Value(gw));
    hide Value;
    ValueInjective(gw, Address(f, Value(gw)));
  }

  /** A host's key is no other host's and no cursor's. */
  lemma HostKeyIs(s: Setup, f: Family, a: nat, g: Family)
    requires GoodSetup(s) && Host(s, f, a)
    ensures Key(f, a) != CursorKey(g)
    ensures forall b: nat :: Host(s, g, b) && Key(g, b) == Key(f, a) ==> g == f && b == a
  {
    hide Key, Plain, Host, KeyText, GoodSetup;
    HostFacts(s, f, a);
    NotACursorKey(f, a, g);
    forall b: nat | Host(s, g, b) && Key(g, b) == Key(f, a)
      ensures g == f && b == a
    {
      HostFacts(s, g, b);
      KeysDistinct(f, a, g, b);
    }
  }

  /** Recording a host keeps a family's cursor right where there is one or the host is the gateway. */
  lemma PutHost(s: Setup, f: Family, a: nat, id: string, data: Data, g: Family)
    requires GoodSetup(s) && Host(s, f, a) && CursorInv(s, g, data)
    requires g == f ==> CursorKey(f) in data || a == Value(GatewayIn(s, f))
    ensures CursorInv(s, g, data[Key(f, a) := id])
  {
    hide Key, Host, GoodSetup, GoodText;
    HostKeyIs(s, f, a, g);
  }

  lemma PutHostKnown(s: Setup, f: Family, a: nat, id: string, data: Data)
    requires GoodSetup(s) && Host(s, f, a) && KnownKeys(s, data)
    ensures KnownKeys(s, data[Key(f, a) := id])
  {
    hide Key, Host, GoodSetup, CursorKey;
    assert HostKey(s, f, Key(f, a));
  }

  /** A good text as one family's cursor keeps the other's right. */
  lemma PutText(s: Setup, f: Family, text: string, data: Data, g: Family)
    requires GoodSetup(s) && (g == f ==> GoodText(s, f, text)) && (g != f ==> CursorInv(s, g, data))
    ensures CursorInv(s, g, data[CursorKey(f) := text])
  {
    hide Key, Host, GoodSetup, GoodText;
    if g != f {
      assert |CursorKey(V4)| != |CursorKey(V6)|;
      forall a: nat | Host(s, g, a)
        ensures Key(g, a) != CursorKey(f)
      {
        HostKeyIs(s, g, a, f);
      }
    }
  }

  // ---- searches end

  lemma NetUsable(s: Setup, f: Family)
    requires GoodSetup(s)
    ensures Usable(f, NetIn(s, f)) && Served(f, NetIn(s, f))
  {
  }

  lemma MappedRefused(ip: IP)
    requires |ip| == 4
    ensures To16(ip).Some? && To4(To16(ip).value).Some?
  {
  }

  /** Where the search starts: at a host, at a refused address, or at the network address. */
  lemma StartShape(s: Setup, f: Family, data: Data)
    requires GoodSetup(s) && CursorInv(s, f, data)
    ensures var net := NetIn(s, f); var start := StartIn(f, net, data);
            || (exists a: nat :: Host(s, f, a) && start == Address(f, a))
            || (f == V6 && To4(start).Some?)
            || CursorKey(f) !in data
  {
    hide Address, ParseIP, String, Base, GoodSetup, To4, To16, Served;
    if CursorKey(f) in data {
      var text := data[CursorKey(f)];
      if a: nat :| Host(s, f, a) && String(Address(f, a)) == text {
        HostFacts(s, f, a);
        if f == V6 {
          WideIsItself(Address(f, a));
        }
      } else {
        MappedRefused(Parsed(text));
      }
    }
  }

  /** Some host is neither recorded nor the gateway while no cursor is stored. */
  lemma FreeHost(s: Setup, f: Family, data: Data)
    requires GoodSetup(s) && CursorInv(s, f, data) && CursorKey(f) !in data
    ensures exists b: nat :: Host(s, f, b) && b !in UsedHosts(f, HostPool(f, NetIn(s, f)), data)
  {
    hide Key, GoodSetup, Value, HostPool;
    NetUsable(s, f);
    var p := HostPool(f, NetIn(s, f));
    HostPoolShape(f, NetIn(s, f));
    var b := if Value(GatewayIn(s, f)) == p.lo then p.hi else p.lo;
    assert Host(s, f, b);
    UsedIff(f, p.lo, p.hi, data, b);
  }

  lemma SearchStops(s: Setup, f: Family, data: Data)
    requires GoodSetup(s) && CursorInv(s, f, data)
    ensures SearchEnds(f, NetIn(s, f), StartIn(f, NetIn(s, f), data), data)
  {
    hide Address, Value, CursorInv, StartIn, UsedHosts, GoodSetup, LoopExits, HostPool, To4;
    NetUsable(s, f);
    var net := NetIn(s, f);
    var start, p := StartIn(f, net, data), HostPool(f, net);
    HostPoolShape(f, net);
    StartShape(s, f, data);
    LoopExitsIff(p, UsedHosts(f, p, data), Value(start));
    if a: nat :| Host(s, f, a) && start == Address(f, a) {
      HostFacts(s, f, a);
    } else if CursorKey(f) !in data {
      FreeHost(s, f, data);
    }
  }

  // ---- ADD

  /** Recording the gateway keeps the invariant. */
  lemma GatewayKeeps(s: Setup, f: Family, data: Data)
    requires GoodSetup(s) && KeyInv(s, data)
    ensures match GatewayData(f, GatewayIn(s, f), data) case Err(_) => true case Ok(data1) => KeyInv(s, data1)
  {
    hide Key, Host, GoodSetup, KnownKeys, CursorInv, InUse, KeyText, Address, Value;
    var g := Value(GatewayIn(s, f));
    GatewayFacts(s, f);
    var r := GatewayData(f, GatewayIn(s, f), data);
    if r.Ok? && r.value != data {
      var name := r.value[Key(f, g)];
      assert r.value == data[Key(f, g) := name];
      PutHostKnown(s, f, g, name, data);
      forall h | Guarded(s, h)
        ensures CursorInv(s, h, r.value)
      {
        PutHost(s, f, g, name, data, h);
      }
    }
  }

  /** What a half takes is a host that nobody had. */
  lemma TakesHost(s: Setup, f: Family, req: Request, data: Data)
    requires GoodSetup(s) && req.AddRequest? && FamilyFits(s, f, req) && SubnetOf(f, req.conf).Some?
    ensures match TakeData(f, NetIn(s, f), AskedOf(f, req.conf), req.conf.id, data)
            case Err(_) => true
            case Ok((address, data')) =>
              exists a: nat :: Host(s, f, a) && address.ip == Address(f, a)
                               && Key(f, a) in data' && data' == data[Key(f, a) := data'[Key(f, a)]]
  {
    hide Key, AllocateData, InUse, Address, Value, StartIn;
    var net, conf := NetIn(s, f), req.conf;
    if AskedOf(f, conf).Some? {
      var ip := AskedOf(f, conf).value.ip;
      var a := Value(ip);
      AddressOf(f, ip);
      HostFacts(s, f, a);
    } else {
      var start := StartIn(f, net, data);
      if AllocateData(f, net, start, data, conf.id).Ok? {
        FoundIsHost(f, net, start, data, conf.id);
      }
    }
  }

  lemma TakeKeeps(s: Setup, f: Family, a: nat, id: string, data: Data)
    requires GoodSetup(s) && Host(s, f, a) && KeyInv(s, data)
    ensures KeyInv(s, data[Key(f, a) := id][CursorKey(f) := String(Address(f, a))])
  {
    hide Key, Host, GoodSetup, CursorInv, Address, String, CursorKey;
    var data', text := data[Key(f, a) := id], String(Address(f, a));
    PutHostKnown(s, f, a, id, data);
    assert GoodText(s, f, text);
    forall g | Guarded(s, g)
      ensures CursorInv(s, g, data'[CursorKey(f) := text])
    {
      if g != f {
        PutHost(s, f, a, id, data, g);
      }
      PutText(s, f, text, data', g);
    }
  }

  /** A half's search ends, and the half keeps the invariant. */
  lemma HalfKeeps(s: Setup, f: Family, req: Request, data: Data)
    requires GoodSetup(s) && KeyInv(s, data) && Guarded(s, f)
    requires req.AddRequest? && FamilyFits(s, f, req) && SubnetOf(f, req.conf).Some?
    ensures ConfUsable(req.conf) ==> HalfEnds(f, req.conf, data)
    ensures Usable(f, NetIn(s, f)) && KeyInv(s, HalfData(f, NetIn(s, f), req.conf, data).0)
  {
    hide Key, Host, GoodSetup, KnownKeys, CursorInv, GatewayData, TakeData, Address, String, SearchEnds, AskedFits, CursorKey;
    NetUsable(s, f);
    GatewayKeeps(s, f, data);
    var verified := GatewayData(f, GatewayIn(s, f), data);
    if verified.Ok? {
      SearchStops(s, f, verified.value);
      TakesHost(s, f, req, verified.value);
      var taken := TakeData(f, NetIn(s, f), AskedOf(f, req.conf), req.conf.id, verified.value);
      if taken.Ok? {
        var (address, data') := taken.value;
        var a: nat :| Host(s, f, a) && address.ip == Address(f, a)
                      && Key(f, a) in data' && data' == verified.value[Key(f, a) := data'[Key(f, a)]];
        TakeKeeps(s, f, a, data'[Key(f, a)], verified.value);
      }
    }
  }

  /** A request that an IPv6 search may be part of only where releases by id leave it alone. */
  ghost predicate Safe(s: Setup, req: Request)
    requires GoodSetup(s)
  {
    Belongs(s, req) && (req.AddRequest? && req.conf.ipv6Subnet.Some? ==> NoSix(s))
  }

  lemma BelongsServed(s: Setup, req: Request)
    requires GoodSetup(s) && Belongs(s, req)
    ensures ConfServed(req.conf) && ConfUsable(req.conf)
  {
    NetUsable(s, V4);
    NetUsable(s, V6);
  }

  lemma FamilyKeeps(s: Setup, f: Family, req: Request, data: Data)
    requires GoodSetup(s) && KeyInv(s, data) && Safe(s, req) && req.AddRequest?
    ensures ConfUsable(req.conf) && HalfEnds(f, req.conf, data) && KeyInv(s, FamilyData(f, req.conf, data).0)
  {
    BelongsServed(s, req);
    hide GoodSetup, KeyInv, HalfData, AskedFits, ConfUsable, NoSix;
    if SubnetOf(f, req.conf).Some? {
      HalfKeeps(s, f, req, data);
    }
  }

  lemma AddKeepsKeys(s: Setup, req: Request, data: Data)
    requires GoodSetup(s) && KeyInv(s, data) && Safe(s, req) && req.AddRequest?
    ensures ConfUsable(req.conf) && AddEnds(req.conf, data) && KeyInv(s, AddData(req.conf, data).0)
  {
    hide GoodSetup, KeyInv, FamilyData, HalfEnds, Safe;
    FamilyKeeps(s, V4, req, data);
    FamilyKeeps(s, V6, req, FamilyData(V4, req.conf, data).0);
  }

  // ---- DEL

  /** Deleting keys that are no cursor's keeps the invariant. */
  lemma DropKeeps(s: Setup, keys: set<string>, data: Data)
    requires GoodSetup(s) && KeyInv(s, data) && CursorKey(V4) !in keys && CursorKey(V6) !in keys
    ensures KeyInv(s, data - keys)
  {
    hide Key, Host, GoodSetup, CursorKey, GoodText, HostKey;
    forall f | Guarded(s, f)
      ensures CursorInv(s, f, data - keys)
    {
      assert CursorInv(s, f, data);
      assert CursorKey(f) !in keys by { assert f == V4 || f == V6; }
    }
  }

  /** A good text as a family's cursor keeps the invariant; without a guard any text does. */
  lemma TextKeeps(s: Setup, f: Family, text: string, data: Data)
    requires GoodSetup(s) && KeyInv(s, data) && (Guarded(s, f) ==> GoodText(s, f, text))
    ensures KeyInv(s, data[CursorKey(f) := text])
  {
    hide Key, Host, GoodSetup, CursorKey, GoodText, CursorInv, HostKey, Guarded;
    forall g | Guarded(s, g)
      ensures CursorInv(s, g, data[CursorKey(f) := text])
    {
      PutText(s, f, text, data, g);
    }
    assert f == V4 || f == V6;
  }

  lemma CursorsKeep(s: Setup, released4: string, released6: string, data: Data)
    requires GoodSetup(s) && KeyInv(s, data)
    requires released4 != "" ==> GoodText(s, V4, released4)
    requires released6 != "" && NoSix(s) ==> GoodText(s, V6, released6)
    ensures KeyInv(s, WithCursors(data, released4, released6))
  {
    hide GoodSetup, KeyInv, GoodText, CursorKey, NoSix;
    if released4 != "" {
      TextKeeps(s, V4, released4, data);
    }
    if released6 != "" {
      TextKeeps(s, V6, released6, if released4 != "" then data[CursorKey(V4) := released4] else data);
    }
  }

  /** A recorded address is a host. */
  lemma RecordedIsHost(s: Setup, f: Family, a: nat, data: Data)
    requires GoodSetup(s) && KeyInv(s, data) && Plain(f, a) && Key(f, a) in data
    ensures Host(s, f, a)
  {
    hide Key, Host, GoodSetup, Plain, CursorInv;
    NotACursorKey(f, a, V4);
    NotACursorKey(f, a, V6);
    var g := if HostKey(s, V4, Key(f, a)) then V4 else V6;
    var b: nat :| Host(s, g, b) && Key(g, b) == Key(f, a);
    HostFacts(s, g, b);
    KeysDistinct(f, a, g, b);
  }

  /** An address that a DEL names is a host if it is recorded, and its key is no cursor's. */
  lemma AskedIsHost(s: Setup, f: Family, req: Request, data: Data)
    requires GoodSetup(s) && KeyInv(s, data) && FamilyFits(s, f, req)
    ensures CursorKey(V4) !in AskedKey(f, req.conf) && CursorKey(V6) !in AskedKey(f, req.conf)
    ensures AskedKey(f, req.conf) <= data.Keys && AskedText(f, req.conf) != "" ==> GoodText(s, f, AskedText(f, req.conf))
  {
    hide GoodSetup, KeyInv, Host, Plain, String, Value, Address;
    if AskedOf(f, req.conf).Some? {
      var ip := AskedOf(f, req.conf).value.ip;
      AddressOf(f, ip);
      NotACursorKey(f, Value(ip), V4);
      NotACursorKey(f, Value(ip), V6);
      if Key(f, Value(ip)) in data {
        RecordedIsHost(s, f, Value(ip), data);
      }
    }
  }

  /** Without its first character the text of an octet of two digits that starts with 6 is that of its second digit. */
  lemma SecondDigit(octet: nat)
    requires 60 <= octet < 70
    ensures Numeral(false, octet)[1..] == Numeral(false, octet - 60)
  {
    assert Numeral(false, octet) == Numeral(false, octet / 10) + [Digit(octet % 10)];
  }

  lemma Reads4(ip: IP)
    requires |ip| == 4
    ensures String(ip) == Text4(ip) && Parsed(Text4(ip)) == ip
  {
    hide Text4;
    Text4Shape(ip);
    Text4RoundTrip(ip);
  }

  lemma Text4From(ip: IP)
    requires |ip| == 4
    ensures Text4(ip) == Numeral(false, ip[0]) + (['.'] + Join('.', Numerals(false, ip[1..])))
  {
    hide Numeral;
    assert Numerals(false, ip)[1..] == Numerals(false, ip[1..]);
  }

  /** So the rest of such an address's text is the text of another IPv4 address. */
  lemma SixtyReads(ip: IP)
    requires |ip| == 4 && 60 <= ip[0] < 70
    ensures |Parsed(String(ip)[1..])| == 4
  {
    hide Text4, Numeral, Join, Numerals, Parsed;
    var other: IP := [ip[0] - 60] + ip[1..];
    SecondDigit(ip[0]);
    Text4From(ip);
    Text4From(other);
    Reads4(ip);
    Reads4(other);
    assert other[1..] == ip[1..];
    ReadBack(false, ip[0]);
    assert Text4(ip)[1..] == Text4(other);
  }

  /** Where no text starts with "6.", what is left of an IPv4 text listed among the IPv6 ones is one of IPv4. */
  lemma MisreadText(s: Setup, a: nat)
    requires GoodSetup(s) && NoSix(s) && Host(s, V4, a) && IP_PREFIX_V6 <= Key(V4, a)
    ensures GoodText(s, V6, Key(V4, a)[1..])
  {
    hide Address, Key, String, GoodSetup, Parsed;
    HostFacts(s, V4, a);
    ListedUnderPrefix(V4, a);
    SixtyReads(Address(V4, a));
  }

  /** What a release by id makes the cursor. */
  lemma BearerText(s: Setup, f: Family, id: string, data: Data)
    requires GoodSetup(s) && KeyInv(s, data)
    ensures var key := Bearer(data, ListPrefix(f), id);
            && CursorKey(V4) !in KeySet(key) && CursorKey(V6) !in KeySet(key)
            && (key.Some? ==> key.value != "")
            && (key.Some? && Guarded(s, f) ==> GoodText(s, f, if f == V4 then key.value else key.value[1..]))
  {
    hide GoodSetup, Key, Host, Bearer, CursorInv, NoSix, GoodText, Address, String;
    var bearer := Bearer(data, ListPrefix(f), id);
    if bearer.Some? {
      var key := bearer.value;
      assert key[0] == ListPrefix(f)[0] && CursorKey(V4)[0] == CursorKey(V6)[0] == 'l';
      var g := if HostKey(s, V4, key) then V4 else V6;
      var a: nat :| Host(s, g, a) && Key(g, a) == key;
      HostFacts(s, g, a);
      KeyShape(g, a);
      if g == f {
        HostText(s, f, a);
      } else if Guarded(s, f) {
        MisreadText(s, a);
      }
    }
  }

  lemma HostText(s: Setup, f: Family, a: nat)
    requires GoodSetup(s) && Host(s, f, a)
    ensures GoodText(s, f, String(Address(f, a)))
    ensures (if f == V4 then Key(f, a) else Key(f, a)[1..]) == String(Address(f, a))
  {
    hide Address, String, Host, GoodSetup;
  }

  lemma DelAddressKeeps(s: Setup, req: Request, data: Data)
    requires GoodSetup(s) && KeyInv(s, data) && Belongs(s, req)
    requires req.conf.ipv4Address.Some? || req.conf.ipv6Address.Some?
    ensures KeyInv(s, DelData(req.conf, data).0)
  {
    hide GoodSetup, KeyInv, GoodText, AskedKey, AskedText, FamilyFits, NoSix, WithCursors;
    var keys4, keys6 := AskedKey(V4, req.conf), AskedKey(V6, req.conf);
    var data4 := data - keys4;
    AskedIsHost(s, V4, req, data);
    DropKeeps(s, keys4, data);
    AskedIsHost(s, V6, req, data4);
    DropKeeps(s, keys6, data4);
    if keys4 <= data.Keys && keys6 <= data4.Keys {
      CursorsKeep(s, AskedText(V4, req.conf), AskedText(V6, req.conf), data4 - keys6);
    }
  }

  lemma DelIdKeeps(s: Setup, req: Request, data: Data)
    requires GoodSetup(s) && KeyInv(s, data) && req.conf.id != "" && req.conf.ipv4Address.None? && req.conf.ipv6Address.None?
    ensures KeyInv(s, DelData(req.conf, data).0)
  {
    hide GoodSetup, KeyInv, GoodText, NoSix, WithCursors, Bearer, KeySet, InUse, FirstBearer;
    var key4, key6 := Bearer(data, IP_PREFIX, req.conf.id), Bearer(data, IP_PREFIX_V6, req.conf.id);
    BearerText(s, V4, req.conf.id, data);
    BearerText(s, V6, req.conf.id, data);
    DropKeeps(s, KeySet(key4), data);
    DropKeeps(s, KeySet(key6), data - KeySet(key4));
    CursorsKeep(s, if key4.Some? then key4.value else "", if key6.Some? then key6.value[1..] else "",
                data - KeySet(key4) - KeySet(key6));
  }

  lemma DelKeepsKeys(s: Setup, req: Request, data: Data)
    requires GoodSetup(s) && KeyInv(s, data) && Belongs(s, req)
    ensures KeyInv(s, DelData(req.conf, data).0)
  {
    hide GoodSetup, KeyInv, FamilyFits;
    if req.conf.ipv4Address.Some? || req.conf.ipv6Address.Some? {
      DelAddressKeeps(s, req, data);
    } else if req.conf.id != "" {
      DelIdKeeps(s, req, data);
    }
  }

  // ---- sequences of requests

  ghost predicate AllSafe(s: Setup, reqs: seq<Request>)
    requires GoodSetup(s)
  {
    forall i :: 0 <= i < |reqs| ==> Safe(s, reqs[i])
  }

  lemma StepKeepsKeys(s: Setup, req: Request, data: Data)
    requires GoodSetup(s) && KeyInv(s, data) && Safe(s, req)
    ensures ConfUsable(req.conf) && Answerable(req, data) && KeyInv(s, StepData(req, data).0)
  {
    BelongsServed(s, req);
    hide GoodSetup, KeyInv, FamilyFits, AddData, DelData, AddEnds, ConfServed, ConfUsable;
    match req
    case AddRequest(_) => AddKeepsKeys(s, req, data);
    case DelRequest(_) => DelKeepsKeys(s, req, data);
  }

  lemma {:induction false} RunKeepsKeys(s: Setup, reqs: seq<Request>)
    requires GoodSetup(s) && AllSafe(s, reqs)
    ensures AllUsable(reqs) && KeyInv(s, RunData(map[], reqs))
    decreases |reqs|
  {
    forall i | 0 <= i < |reqs|
      ensures ConfUsable(reqs[i].conf)
    {
      BelongsServed(s, reqs[i]);
    }
    hide GoodSetup, Safe, StepData, CursorKey, Key, Host;
    if reqs != [] {
      var n := |reqs| - 1;
      RunKeepsKeys(s, reqs[..n]);
      StepKeepsKeys(s, reqs[n], RunData(map[], reqs[..n]));
    }
  }

  /** Every such sequence of requests, started on an empty store, comes to its end: no search runs for ever. */
  lemma SessionsEnd(s: Setup, reqs: seq<Request>)
    requires GoodSetup(s) && AllSafe(s, reqs)
    ensures AllUsable(reqs) && AllAnswerable(map[], reqs)
  {
    hide GoodSetup, Safe, KeyInv, RunData, Answerable, ConfUsable;
    RunKeepsKeys(s, reqs);
    forall i | 0 <= i < |reqs|
      ensures Answerable(reqs[i], RunData(map[], reqs[..i]))
    {
      RunKeepsKeys(s, reqs[..i]);
      StepKeepsKeys(s, reqs[i], RunData(map[], reqs[..i]));
    }
  }
}
