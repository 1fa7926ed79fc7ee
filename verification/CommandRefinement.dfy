/** The commands on the store's data refine the specification, for subnets whose records the store keeps track of. */
module CommandRefinement {
  import opened Wrappers
  import opened Types
  import opened Bits
  import opened Bytes
  import opened Text
  import opened Keys
  import opened Cycle
  import opened Subnets
  import opened Config
  import opened IPStore
  import opened Allocation
  import opened Runs
  import opened RunTheorems
  import opened Refinement
  import opened Commands

  // ---- configurations as the specification sees them

  /** A family's section the commands can work with. */
  ghost predicate SoundFamily(f: Family, net: IPNet, gateway: IP)
  {
    Served(f, net) && Tracked(f, net) && HostProblem(f, net, gateway) == None
  }

  ghost predicate Sound(c: IPAMConfig)
  {
    && (c.ipv4Subnet.Some? ==> SoundFamily(V4, c.ipv4Subnet.value, c.ipv4Gateway))
    && (c.ipv6Subnet.Some? ==> SoundFamily(V6, c.ipv6Subnet.value, c.ipv6Gateway))
    && (c.ipv4Address.Some? ==> |c.ipv4Address.value.ip| == 4)
    && (c.ipv6Address.Some? ==> |c.ipv6Address.value.ip| == 16 && To4(c.ipv6Address.value.ip).None?)
  }

  function NumberOf(address: Option<IPNet>): Option<nat>
  {
    if address.Some? then Some(Value(address.value.ip)) else None
  }

  ghost function ConfOf(c: IPAMConfig): Conf
    requires Sound(c)
  {
    Conf(c.id,
         if c.ipv4Subnet.Some? then Some(SiteFor(V4, c.ipv4Subnet.value, c.ipv4Gateway)) else None,
         if c.ipv6Subnet.Some? then Some(SiteFor(V6, c.ipv6Subnet.value, c.ipv6Gateway)) else None,
         NumberOf(c.ipv4Address), NumberOf(c.ipv6Address))
  }

  /** The key of an address, as the commands build it. */
  lemma KeyOf(f: Family, ip: IP)
    requires |ip| == Width(f) && (f == V6 ==> To4(ip).None?)
    ensures Plain(f, Value(ip)) && Address(f, Value(ip)) == ip
    ensures Key(f, Value(ip)) == if f == V4 then String(ip) else IP_PREFIX_V6 + String(ip)
  {
    AddressOf(f, ip);
  }

  // ---- gateways

  lemma RecordUnder(data: Data, st: State, f: Family, a: nat)
    requires Represents(data, st)
    ensures a in TableOf(st, f).held ==> Key(f, a) in data && data[Key(f, a)] == TableOf(st, f).held[a]
  {
    hide Key, Plain, Listed;
    assert Recorded(f, data, TableOf(st, f));
  }

  /** Recording the gateway in the store is recording it in the specification. */
  lemma GatewayRefines(f: Family, gw: IP, data: Data, st: State)
    requires |gw| == Width(f) && (f == V6 ==> To4(gw).None?) && Listed(f, Value(gw)) && Represents(data, st)
    ensures var t := TableOf(st, f); var r := Allocation.VerifyGateway(f, Value(gw), t.held, st.v4.held);
            match GatewayData(f, gw, data)
            case Err(e) => r == Err(e)
            case Ok(data') => r.Ok? && Represents(data', WithTable(st, f, t.(held := r.value)))
  {
    hide Key, Plain, Listed, Represents, AssignData, String;
    var a := Value(gw);
    KeyOf(f, gw);
    HasKey(data, st, f, a);
    RecordUnder(data, st, f, a);
    AssignRefines(data, st, f, a, GatewayName(f), V4);
  }

  // ---- finding an address

  /** The state is one an ADD on this subnet can work in: hosts only, and a search that ends. */
  ghost predicate Searchable(f: Family, site: Site, t: Table)
  {
    && site.pool.Valid()
    && (forall a :: a in t.held ==> site.pool.Host(a))
    && var start := Start(site, t.cursor);
       (site.min <= start <= site.max ==> LoopExits(site.pool, t.held.Keys, start))
  }

  /** The address the search starts from, as the commands read it from the store. */
  lemma CursorAddress(data: Data, st: State, f: Family, net: IPNet, gateway: IP)
    requires Represents(data, st) && SoundFamily(f, net, gateway)
    ensures var t := TableOf(st, f); var start := Start(SiteFor(f, net, gateway), t.cursor);
            && Plain(f, start)
            && (CursorKey(f) in data <==> t.cursor.Some?)
            && (t.cursor.Some? ==> ParseIP(data[CursorKey(f)]) == Some(Address(f, start)))
            && (t.cursor.None? ==> Base(net.ip, net.ones) == Address(f, start))
            && Address(f, start) != []
  {
    hide Value, Spell, Pow2, RoundDown, Listed, Key, String, ParseIP;
    var t := TableOf(st, f);
    assert Recorded(f, data, t);
    if t.cursor.Some? {
      ParsesBack(f, t.cursor.value);
    } else {
      MaxFits(net);
      AddressWithin(f, net, net.Min());
      ValueInjective(Base(net.ip, net.ones), Address(f, net.Min()));
    }
  }

  /** What an allocation from the subnet does is the specification's search, and it ends when that does. */
  lemma AllocationRefines(data: Data, st: State, f: Family, net: IPNet, gateway: IP, id: string)
    requires Represents(data, st) && SoundFamily(f, net, gateway)
    requires Searchable(f, SiteFor(f, net, gateway), TableOf(st, f))
    ensures var t := TableOf(st, f); var site := SiteFor(f, net, gateway);
            var start := Address(f, Start(site, t.cursor));
            var r := Search(site, t.cursor, t.held, id);
            && SearchEnds(f, net, start, data)
            && match AllocateData(f, net, start, data, id)
               case Err(e) => r == Err(e)
               case Ok((a, data')) =>
                 && r == Ok((a, t.held[a := id])) && site.pool.Host(a)
                 && Represents(data', WithTable(st, f, t.(held := t.held[a := id])))
  {
    hide Key, Listed, Represents, AssignData, Assign, UsedHosts, Value, Spell, Pow2, RoundDown;
    var t, site := TableOf(st, f), SiteFor(f, net, gateway);
    var s := Start(site, t.cursor);
    CursorAddress(data, st, f, net, gateway);
    HostPoolShape(f, net);
    StartNumber(f, net, s);
    HostsPlain(f, net);
    UsedAreHeld(data, st, f, site.pool);
    hide Plain, Served, Tracked;
    if site.min <= s <= site.max {
      SearchRefines(data, st, f, site, s, id);
    }
  }

  lemma HostsPlain(f: Family, net: IPNet)
    requires Usable(f, net) && Tracked(f, net)
    ensures forall a: nat :: HostPool(f, net).Host(a) ==> Plain(f, a) && Listed(f, a)
  {
    HostPoolShape(f, net);
    hide Plain, Listed;
  }

  lemma StartNumber(f: Family, net: IPNet, s: nat)
    requires Usable(f, net) && Plain(f, s)
    ensures Value(Address(f, s)) == s && |Address(f, s)| == |net.ip| && (f == V6 ==> To4(Address(f, s)).None?)
    ensures net.Contains(Address(f, s)) <==> net.Min() <= s <= net.Max()
  {
    ValueSpell(Width(f), s);
    InSubnet(net, Address(f, s));
  }

  /** The stored cursor is the specification's. */
  lemma StartRefines(f: Family, net: IPNet, gateway: IP, data: Data, st: State)
    requires Represents(data, st) && SoundFamily(f, net, gateway)
    ensures StartIn(f, net, data) == Address(f, Start(SiteFor(f, net, gateway), TableOf(st, f).cursor))
  {
    hide Represents, SoundFamily, ParseIP, Base, Address, Start, SiteFor;
    CursorAddress(data, st, f, net, gateway);
    if f == V6 {
      WideIsItself(StartIn(f, net, data));
    }
  }

  lemma TrackedHost(f: Family, net: IPNet, a: nat)
    requires Usable(f, net) && Tracked(f, net) && HostPool(f, net).Host(a)
    ensures Plain(f, a) && Listed(f, a)
  {
    HostPoolShape(f, net);
  }

  /** An explicit address of the family, which is a host where its subnet is configured. */
  predicate AskedWell(f: Family, net: IPNet, asked: Option<IPNet>)
    requires Usable(f, net)
  {
    asked.Some? ==>
      |asked.value.ip| == Width(f) && (f == V6 ==> To4(asked.value.ip).None?) && HostPool(f, net).Host(Value(asked.value.ip))
  }

  /** Taking an address in the store is taking it in the specification. */
  lemma TakeRefines(f: Family, net: IPNet, gateway: IP, asked: Option<IPNet>, id: string, data: Data, st: State)
    requires Represents(data, st) && SoundFamily(f, net, gateway) && AskedWell(f, net, asked)
    requires Searchable(f, SiteFor(f, net, gateway), TableOf(st, f))
    ensures var t := TableOf(st, f); var site := SiteFor(f, net, gateway);
            var r := Take(f, site, NumberOf(asked), id, t.cursor, t.held, st.v4.held);
            && SearchEnds(f, net, StartIn(f, net, data), data)
            && match TakeData(f, net, asked, id, data)
               case Err(e) => r == Err(e)
               case Ok((address, data')) =>
                 && r.Ok? && site.pool.Host(r.value.0) && address == Reported(f, asked, net, r.value.0)
                 && address.ip == Address(f, r.value.0)
                 && Represents(data', WithTable(st, f, t.(held := r.value.1)))
  {
    hide Key, Represents, Search, Address, String, Searchable, Assign, AssignData, Plain, Listed, StartIn, AllocateData, SearchEnds;
    StartRefines(f, net, gateway, data, st);
    AllocationRefines(data, st, f, net, gateway, id);
    if asked.Some? {
      var a := Value(asked.value.ip);
      KeyOf(f, asked.value.ip);
      TrackedHost(f, net, a);
      AssignRefines(data, st, f, a, ExplicitId(f, id), V4);
    }
  }

  // ---- ADD

  /** What an ADD answers for the addresses its specification leases. */
  function ResultFor(conf: IPAMConfig, l: Leased): seq<IPConfig>
    requires l.v4.Some? ==> conf.ipv4Subnet.Some?
    requires l.v6.Some? ==> conf.ipv6Subnet.Some?
  {
    (if l.v4.Some? then [IPConfig(V4, Reported(V4, conf.ipv4Address, conf.ipv4Subnet.value, l.v4.value), conf.ipv4Gateway)] else [])
    + (if l.v6.Some? then [IPConfig(V6, Reported(V6, conf.ipv6Address, conf.ipv6Subnet.value, l.v6.value), conf.ipv6Gateway)] else [])
  }

  /** A configuration that belongs to a deployment with these subnets and gateways. */
  ghost predicate Deployed(env: Env, conf: IPAMConfig)
  {
    GoodEnv(env) && Sound(conf) && Fits(env, ConfOf(conf))
  }

  /** With the gateway recorded, the half's search is one that ends. */
  lemma ReadyToSearch(f: Family, site: Site, t: Table, held4: Held, held: Held)
    requires GoodSite(site) && TableInv(f, site, t, false) && (f == V4 ==> held4 == t.held)
    requires Allocation.VerifyGateway(f, site.gateway, t.held, held4) == Ok(held)
    ensures Searchable(f, site, t.(held := held))
  {
    GatewayFirst(f, site, t, held4, false);
    InvariantHalts(f, site, t, held4, false);
  }

  lemma GatewayTracked(f: Family, net: IPNet, gateway: IP)
    requires SoundFamily(f, net, gateway)
    ensures |gateway| == Width(f) && Plain(f, Value(gateway)) && Listed(f, Value(gateway)) && (f == V6 ==> To4(gateway).None?)
  {
    TrackedHost(f, net, Value(gateway));
    AddressWithin(f, net, Value(gateway));
    ValueInjective(gateway, Address(f, Value(gateway)));
  }

  /** Taking the address and moving the cursor, once the gateway is recorded. */
  lemma TakenRefines(f: Family, env: Env, conf: IPAMConfig, data: Data, st: State, held4: Held)
    requires Deployed(env, conf) && SubnetOf(f, conf).Some? && Represents(data, st)
    requires Searchable(f, SiteOf(env, f), TableOf(st, f)) && (f == V6 ==> held4 == st.v4.held)
    ensures var net := SubnetOf(f, conf).value; var asked := AskedOf(f, conf); var t := TableOf(st, f);
            var r := Take(f, SiteOf(env, f), NumberOf(asked), conf.id, t.cursor, t.held, held4);
            && Usable(f, net) && SearchEnds(f, net, StartIn(f, net, data), data)
            && match TakeData(f, net, asked, conf.id, data)
               case Err(e) => r == Err(e)
               case Ok((address, data')) =>
                 && r.Ok? && Plain(f, r.value.0) && address == Reported(f, asked, net, r.value.0)
                 && address.ip == Address(f, r.value.0)
                 && Represents(data'[CursorKey(f) := String(address.ip)], WithTable(st, f, Table(r.value.1, Some(r.value.0))))
  {
    var net, gw, asked, t := SubnetOf(f, conf).value, GatewayOf(f, conf), AskedOf(f, conf), TableOf(st, f);
    DeployedHalf(f, env, conf);
    hide Key, Represents, String, Searchable, Plain, Listed, TakeData, Take, Address, SearchEnds, StartIn, Deployed,
      SoundFamily, AskedWell;
    TakeRefines(f, net, gw, asked, conf.id, data, st);
    TakeScans(f, SiteOf(env, f), NumberOf(asked), conf.id, t.cursor, t.held, st.v4.held, held4);
    var taken := TakeData(f, net, asked, conf.id, data);
    if taken.Ok? {
      var (a, held') := Take(f, SiteOf(env, f), NumberOf(asked), conf.id, t.cursor, t.held, held4).value;
      DeployedHost(f, env, conf, a);
      PutCursor(taken.value.1, WithTable(st, f, t.(held := held')), f, a);
    }
  }

  /** Recording the gateway, and what the half then goes on from. */
  lemma VerifiedRefines(f: Family, env: Env, conf: IPAMConfig, data: Data, st: State)
    requires Deployed(env, conf) && SubnetOf(f, conf).Some? && Represents(data, st)
    requires TableInv(f, SiteOf(env, f), TableOf(st, f), false)
    ensures var t := TableOf(st, f); var r := Allocation.VerifyGateway(f, SiteOf(env, f).gateway, t.held, st.v4.held);
            match GatewayData(f, GatewayOf(f, conf), data)
            case Err(e) => r == Err(e)
            case Ok(data') =>
              && r.Ok? && Represents(data', WithTable(st, f, t.(held := r.value)))
              && Searchable(f, SiteOf(env, f), t.(held := r.value))
  {
    var gw, site, t := GatewayOf(f, conf), SiteOf(env, f), TableOf(st, f);
    DeployedHalf(f, env, conf);
    GatewayTracked(f, SubnetOf(f, conf).value, gw);
    assert site.gateway == Value(gw);
    hide Represents, Searchable, Plain, Listed, GatewayData, Allocation.VerifyGateway, TableInv, Deployed, SoundFamily, AskedWell;
    GatewayRefines(f, gw, data, st);
    var verified := Allocation.VerifyGateway(f, site.gateway, t.held, st.v4.held);
    if verified.Ok? {
      ReadyToSearch(f, site, t, st.v4.held, verified.value);
    }
  }

  lemma HalfEndsHere(f: Family, env: Env, conf: IPAMConfig, data: Data, st: State)
    requires Deployed(env, conf) && SubnetOf(f, conf).Some? && Represents(data, st)
    requires TableInv(f, SiteOf(env, f), TableOf(st, f), false)
    ensures ConfUsable(conf) && HalfEnds(f, conf, data)
  {
    DeployedServed(env, conf);
    hide Represents, Searchable, TakeData, Take, GatewayData, Allocation.VerifyGateway, TableInv, SearchEnds, StartIn, Deployed,
      Reported, Plain;
    VerifiedRefines(f, env, conf, data, st);
    var verified := GatewayData(f, GatewayOf(f, conf), data);
    if verified.Ok? {
      var t := TableOf(st, f);
      var held := Allocation.VerifyGateway(f, SiteOf(env, f).gateway, t.held, st.v4.held).value;
      TakenRefines(f, env, conf, verified.value, WithTable(st, f, t.(held := held)), st.v4.held);
    }
  }

  /** Writing one table of the state. */
  lemma TableIn(st: State, f: Family)
    ensures forall t: Table, t': Table :: WithTable(WithTable(st, f, t), f, t') == WithTable(st, f, t')
    ensures forall t: Table :: TableOf(WithTable(st, f, t), f) == t && (f == V6 ==> WithTable(st, f, t).v4 == st.v4)
    ensures WithTable(st, f, TableOf(st, f)) == st
  {
  }

  /** What a half of the specification answers is what the half in the store does. */
  ghost predicate HalfAgrees(f: Family, conf: IPAMConfig, st: State, got: (Data, Result<IPNet, Failure>), spec: (Table, Result<nat, Failure>))
    requires SubnetOf(f, conf).Some?
  {
    && Represents(got.0, WithTable(st, f, spec.0))
    && match spec.1
       case Err(e) => got.1 == Err(e)
       case Ok(a) =>
         && got.1 == Ok(Reported(f, AskedOf(f, conf), SubnetOf(f, conf).value, a)) && got.1.value.ip == Address(f, a)
         && Plain(f, a)
  }

  /** A configured half in the store is the specification's. */
  lemma HalfRefines(f: Family, env: Env, conf: IPAMConfig, data: Data, st: State)
    requires Deployed(env, conf) && SubnetOf(f, conf).Some? && Represents(data, st)
    requires TableInv(f, SiteOf(env, f), TableOf(st, f), false)
    ensures Usable(f, SubnetOf(f, conf).value) && SiteOf(env, f).pool.Valid()
    ensures HalfAgrees(f, conf, st, HalfData(f, SubnetOf(f, conf).value, conf, data),
                       AddFamily(f, SiteOf(env, f), NumberOf(AskedOf(f, conf)), conf.id, TableOf(st, f), st.v4.held))
  {
    DeployedHalf(f, env, conf);
    TableIn(st, f);
    hide WithTable, TableOf, NumberOf, SubnetOf, AskedOf, GatewayOf, CursorKey, SiteOf, GoodSite, SoundFamily, Usable, Represents,
      Searchable, TakeData, Take, GatewayData, Allocation.VerifyGateway, TableInv, SearchEnds, StartIn, Deployed, Reported, Plain,
      Address, String;
    VerifiedRefines(f, env, conf, data, st);
    var verified := GatewayData(f, GatewayOf(f, conf), data);
    if verified.Ok? {
      var t := TableOf(st, f);
      var held := Allocation.VerifyGateway(f, SiteOf(env, f).gateway, t.held, st.v4.held).value;
      TakenRefines(f, env, conf, verified.value, WithTable(st, f, t.(held := held)), st.v4.held);
    }
  }

  /** What being deployed says of a configured family. */
  lemma DeployedHalf(f: Family, env: Env, conf: IPAMConfig)
    requires Deployed(env, conf) && SubnetOf(f, conf).Some?
    ensures SoundFamily(f, SubnetOf(f, conf).value, GatewayOf(f, conf)) && GoodSite(SiteOf(env, f))
    ensures SiteFor(f, SubnetOf(f, conf).value, GatewayOf(f, conf)) == SiteOf(env, f)
    ensures AskedWell(f, SubnetOf(f, conf).value, AskedOf(f, conf))
  {
  }

  lemma DeployedHost(f: Family, env: Env, conf: IPAMConfig, a: nat)
    requires Deployed(env, conf) && SubnetOf(f, conf).Some? && SiteOf(env, f).pool.Host(a)
    ensures Plain(f, a)
  {
    DeployedHalf(f, env, conf);
    TrackedHost(f, SubnetOf(f, conf).value, a);
  }

  lemma HalfEndsTrivially(f: Family, conf: IPAMConfig, data: Data)
    requires ConfUsable(conf) && SubnetOf(f, conf).None?
    ensures HalfEnds(f, conf, data)
  {
  }

  function PartOf(f: Family, c: Conf, st: State): (State, Result<Option<nat>, Failure>)
    requires ValidConf(c)
  {
    if f == V4 then Add4(c, st) else Add6(c, st)
  }

  /** A reported address is of its family. */
  predicate FormOf(f: Family, address: IPNet)
  {
    if f == V4 then |address.ip| == 4 else To4(address.ip).None?
  }

  /** The address reported for what the specification leases, if it leases one. */
  function ReportedIf(f: Family, conf: IPAMConfig, leased: Option<nat>): Option<IPNet>
    requires leased.Some? ==> SubnetOf(f, conf).Some?
  {
    if leased.Some? then Some(Reported(f, AskedOf(f, conf), SubnetOf(f, conf).value, leased.value)) else None
  }

  /** A family's half in the store, configured or not, is the specification's. */
  lemma FamilyRefines(f: Family, env: Env, conf: IPAMConfig, data: Data, st: State)
    requires Deployed(env, conf) && Represents(data, st) && TableInv(f, SiteOf(env, f), TableOf(st, f), false)
    ensures ConfServed(conf) && HalfEnds(f, conf, data)
    ensures var (data', r) := FamilyData(f, conf, data); var (st', a) := PartOf(f, ConfOf(conf), st);
            && Represents(data', st')
            && (a.Ok? && a.value.Some? ==> SubnetOf(f, conf).Some? && FormOf(f, ReportedIf(f, conf, a.value).value))
            && r == match a case Err(e) => Err(e) case Ok(leased) => Ok(ReportedIf(f, conf, leased))
  {
    DeployedServed(env, conf);
    if SubnetOf(f, conf).None? {
      HalfEndsTrivially(f, conf, data);
    } else {
      DeployedHalf(f, env, conf);
      hide Represents, TableInv, Reported, AddFamily, HalfData, HalfEnds, Address, Plain, SoundFamily, AskedWell, Served4, Served6;
      HalfEndsHere(f, env, conf, data, st);
      HalfRefines(f, env, conf, data, st);
      var a := AddFamily(f, SiteOf(env, f), NumberOf(AskedOf(f, conf)), conf.id, TableOf(st, f), st.v4.held).1;
      if a.Ok? {
        PlainForm(f, a.value);
      }
    }
  }

  lemma PlainForm(f: Family, a: nat)
    requires Plain(f, a)
    ensures if f == V4 then |Address(f, a)| == 4 else To4(Address(f, a)).None?
  {
  }

  /** The result, from the two reported addresses. */
  lemma ResultBuilt(conf: IPAMConfig, l: Leased)
    requires l.v4.Some? ==> conf.ipv4Subnet.Some? && FormOf(V4, ReportedIf(V4, conf, l.v4).value)
    requires l.v6.Some? ==> conf.ipv6Subnet.Some? && FormOf(V6, ReportedIf(V6, conf, l.v6).value)
    ensures ConstructResults(conf, ReportedIf(V4, conf, l.v4), ReportedIf(V6, conf, l.v6))
         == if l.v4.None? && l.v6.None? then Err(NoSubnet) else Ok(ResultFor(conf, l))
  {
    hide Reported;
  }

  lemma PartLeavesOther(c: Conf, st: State)
    requires ValidConf(c)
    ensures Add4(c, st).0.v6 == st.v6
  {
  }

  /** The second half's search ends, even after a failed first one. */
  lemma SecondHalf(env: Env, conf: IPAMConfig, data: Data, st: State)
    requires Deployed(env, conf) && Inv(env, st, false) && Represents(data, st)
    ensures ConfServed(conf) && ConfUsable(conf) && Sound(conf) && ValidConf(ConfOf(conf)) && AddEnds(conf, data)
    ensures var data4 := FamilyData(V4, conf, data).0; var st4 := PartOf(V4, ConfOf(conf), st).0;
            Represents(data4, st4) && TableInv(V6, env.site6, st4.v6, false)
  {
    DeployedServed(env, conf);
    PartLeavesOther(ConfOf(conf), st);
    hide Represents, TableInv, Add4, Add6, FamilyData, HalfEnds, Sound, ConfUsable, ValidConf, Deployed, ConfServed;
    FamilyRefines(V4, env, conf, data, st);
    FamilyRefines(V6, env, conf, FamilyData(V4, conf, data).0, PartOf(V4, ConfOf(conf), st).0);
  }

  /** ADD in the store is ADD in the specification: records, cursors and result, also when it fails half-way. */
  lemma AddRefines(env: Env, conf: IPAMConfig, data: Data, st: State)
    requires Deployed(env, conf) && Inv(env, st, false) && Represents(data, st)
    ensures ConfServed(conf) && AddEnds(conf, data)
    ensures var (data', r) := AddData(conf, data); var (st', answer) := Add(ConfOf(conf), st);
            && Represents(data', st')
            && (answer.Ok? ==> (answer.value.v4.Some? ==> conf.ipv4Subnet.Some?) && (answer.value.v6.Some? ==> conf.ipv6Subnet.Some?))
            && r == match answer case Err(e) => Err(e) case Ok(l) => Ok(ResultFor(conf, l))
  {
    hide Represents, TableInv, Add4, Add6, FamilyData, AddEnds, Sound, ConfUsable, ValidConf, Deployed, ConfServed,
      ConstructResults, ResultFor, ReportedIf, FormOf, ConfOf;
    SecondHalf(env, conf, data, st);
    FamilyRefines(V4, env, conf, data, st);
    var (st4, r4) := PartOf(V4, ConfOf(conf), st);
    if r4.Ok? {
      FamilyRefines(V6, env, conf, FamilyData(V4, conf, data).0, st4);
      var (st6, r6) := PartOf(V6, ConfOf(conf), st4);
      if r6.Ok? {
        ResultBuilt(conf, Leased(r4.value, r6.value));
      }
    }
  }

  lemma DeployedServed(env: Env, conf: IPAMConfig)
    requires Deployed(env, conf)
    ensures ConfServed(conf) && ConfUsable(conf) && Sound(conf) && ValidConf(ConfOf(conf))
  {
  }

  // ---- DEL

  /** Deleting an address's key drops its record, if there is one. */
  lemma ReleaseRefines(data: Data, st: State, f: Family, a: nat)
    requires Represents(data, st) && Plain(f, a)
    ensures Key(f, a) in data <==> a in TableOf(st, f).held
    ensures var t := TableOf(st, f);
            Represents(data - {Key(f, a)}, WithTable(st, f, t.(held := t.held - {a})))
  {
    hide Key, Plain, Listed;
    HasKey(data, st, f, a);
    var t := TableOf(st, f);
    if a in t.held {
      assert Recorded(f, data, t);
      DropRecord(data, st, f, a);
    } else {
      assert data - {Key(f, a)} == data;
      assert t.held - {a} == t.held;
    }
  }

  /** The first record listed for an id is the specification's owner of it. */
  lemma BearerIsOwner(data: Data, st: State, f: Family, id: string, key: Option<string>)
    requires Represents(data, st) && IsFirstBearer(data, ListPrefix(f), id, key)
    ensures var owner := Owner(f, TableOf(st, f).held, id);
            && key == (if owner.Some? then Some(Key(f, owner.value)) else None)
            && (owner.Some? ==> Plain(f, owner.value))
  {
    hide Key, Plain, Listed, Precedes;
    var held := TableOf(st, f).held;
    var owner := Owner(f, held, id);
    assert Recorded(f, data, TableOf(st, f));
    ScanFindsIds(data, st, f, id);
    if key.Some? {
      ListedIsRecord(data, st, f, key.value);
      var a :| a in held && Key(f, a) == key.value;
      assert a in Bearers(held, id) && owner.Some?;
      RecordIsListed(data, st, f, owner.value);
      PrecedesTotal(Key(f, a), Key(f, owner.value));
      KeysDistinct(f, a, f, owner.value);
    }
  }

  /** The text under which a released address becomes the cursor. */
  lemma ReleasedText(f: Family, a: nat)
    requires Plain(f, a)
    ensures (if f == V4 then Key(f, a) else Key(f, a)[1..]) == String(Address(f, a)) && String(Address(f, a)) != ""
  {
    KeyShape(f, a);
    ParsesBack(f, a);
    if f == V4 {
      Text4Shape(Address(f, a));
    }
  }

  /** The records once those of the released address are gone. */
  function Without(t: Table, released: Option<nat>): Table
  {
    if released.Some? then t.(held := t.held - {released.value}) else t
  }

  function WithCursor(t: Table, released: Option<nat>): Table
  {
    if released.Some? then t.(cursor := released) else t
  }

  /** The text an optional address is released under. */
  function TextIf(f: Family, a: Option<nat>): string
  {
    if a.Some? then String(Address(f, a.value)) else ""
  }

  predicate PlainIf(f: Family, a: Option<nat>)
  {
    a.Some? ==> Plain(f, a.value)
  }

  /** Writing the released addresses as cursors is moving the specification's. */
  lemma CursorsRefine(data: Data, st: State, l: Leased)
    requires Represents(data, st) && PlainIf(V4, l.v4) && PlainIf(V6, l.v6)
    ensures Represents(WithCursors(data, TextIf(V4, l.v4), TextIf(V6, l.v6)), State(WithCursor(st.v4, l.v4), WithCursor(st.v6, l.v6)))
  {
    hide Represents, String, Plain, Address;
    var st4 := State(WithCursor(st.v4, l.v4), st.v6);
    var data4 := WithCursors(data, TextIf(V4, l.v4), "");
    if l.v4.Some? {
      ReleasedText(V4, l.v4.value);
      PutCursor(data, st, V4, l.v4.value);
    }
    assert Represents(data4, st4);
    if l.v6.Some? {
      ReleasedText(V6, l.v6.value);
      PutCursor(data4, st4, V6, l.v6.value);
    }
  }

  /** Deleting the key of the family's address, if there is one, drops its record. */
  lemma AskedRefines(f: Family, conf: IPAMConfig, data: Data, st: State)
    requires Sound(conf) && Represents(data, st)
    ensures var a, t := NumberOf(AskedOf(f, conf)), TableOf(st, f);
            && PlainIf(f, a) && AskedText(f, conf) == TextIf(f, a)
            && (AskedKey(f, conf) <= data.Keys <==> (a.Some? ==> a.value in t.held))
            && Represents(data - AskedKey(f, conf), WithTable(st, f, Without(t, a)))
  {
    hide Represents, Plain, Key, String, Address, SoundFamily;
    assert data - {} == data;
    if AskedOf(f, conf).Some? {
      var ip := AskedOf(f, conf).value.ip;
      KeyOf(f, ip);
      ReleaseRefines(data, st, f, Value(ip));
    }
  }

  /** DEL by the addresses the configuration names. */
  lemma DelAddressRefines(conf: IPAMConfig, data: Data, st: State)
    requires Sound(conf) && Represents(data, st) && (conf.ipv4Address.Some? || conf.ipv6Address.Some?)
    ensures var (data', r) := DelData(conf, data); var (st', answer) := Del(ConfOf(conf), st);
            && Represents(data', st')
            && r == match answer case Err(e) => Err(e) case Ok(_) => Ok(())
  {
    hide Represents, SoundFamily, Sound, AskedKey, AskedText, TextIf, PlainIf, WithCursors;
    var a4, a6 := NumberOf(conf.ipv4Address), NumberOf(conf.ipv6Address);
    AskedRefines(V4, conf, data, st);
    var data4, st4 := data - AskedKey(V4, conf), State(Without(st.v4, a4), st.v6);
    AskedRefines(V6, conf, data4, st4);
    CursorsRefine(data4 - AskedKey(V6, conf), State(st4.v4, Without(st.v6, a6)), Leased(a4, a6));
  }

  /** The record listed first for an id is that of the specification's owner. */
  lemma BearerRefines(f: Family, id: string, data: Data, st: State)
    requires Represents(data, st)
    ensures var key, owner := Bearer(data, ListPrefix(f), id), Owner(f, TableOf(st, f).held, id);
            && PlainIf(f, owner) && (key.Some? ==> key.value != "") && (owner.None? <==> TextIf(f, owner) == "")
            && key == (if owner.Some? then Some(Key(f, owner.value)) else None)
            && (if key.None? then "" else if f == V4 then key.value else key.value[1..]) == TextIf(f, owner)
  {
    hide Represents, Plain, Key, String, Address, Owner, Bearer, FirstBearer, InUse;
    var owner := Owner(f, TableOf(st, f).held, id);
    BearerIsOwner(data, st, f, id, Bearer(data, ListPrefix(f), id));
    if owner.Some? {
      KeyShape(f, owner.value);
      ReleasedText(f, owner.value);
    }
  }

  /** Deleting the key of an optional address drops its record. */
  lemma DropIf(data: Data, st: State, f: Family, a: Option<nat>)
    requires Represents(data, st) && PlainIf(f, a)
    ensures Represents(data - KeySet(if a.Some? then Some(Key(f, a.value)) else None), WithTable(st, f, Without(TableOf(st, f), a)))
  {
    hide Represents, Plain, Key;
    if a.Some? {
      ReleaseRefines(data, st, f, a.value);
    } else {
      assert data - {} == data;
    }
  }

  /** DEL by the id the records carry. */
  lemma DelIdRefines(conf: IPAMConfig, data: Data, st: State)
    requires Sound(conf) && Represents(data, st) && conf.id != "" && conf.ipv4Address.None? && conf.ipv6Address.None?
    ensures var (data', r) := DelData(conf, data); var (st', answer) := Del(ConfOf(conf), st);
            && Represents(data', st')
            && r == match answer case Err(e) => Err(e) case Ok(_) => Ok(())
  {
    hide Represents, SoundFamily, Sound, TextIf, PlainIf, WithCursors, Owner, Bearer, FirstBearer, InUse, Key, KeySet;
    var a4, a6 := Owner(V4, st.v4.held, conf.id), Owner(V6, st.v6.held, conf.id);
    var key4 := Bearer(data, IP_PREFIX, conf.id);
    BearerRefines(V4, conf.id, data, st);
    BearerRefines(V6, conf.id, data, st);
    DropIf(data, st, V4, a4);
    var st4 := State(Without(st.v4, a4), st.v6);
    DropIf(data - KeySet(key4), st4, V6, a6);
    var rest := data - KeySet(key4) - KeySet(Bearer(data, IP_PREFIX_V6, conf.id));
    CursorsRefine(rest, State(st4.v4, Without(st.v6, a6)), Leased(a4, a6));
  }

  /** DEL in the store is DEL in the specification, also when it fails half-way. */
  lemma DelRefines(conf: IPAMConfig, data: Data, st: State)
    requires Sound(conf) && Represents(data, st)
    ensures var (data', r) := DelData(conf, data); var (st', answer) := Del(ConfOf(conf), st);
            && Represents(data', st')
            && r == match answer case Err(e) => Err(e) case Ok(_) => Ok(())
  {
    hide Represents, SoundFamily;
    if conf.ipv4Address.Some? || conf.ipv6Address.Some? {
      DelAddressRefines(conf, data, st);
    } else if conf.id != "" {
      DelIdRefines(conf, data, st);
    }
  }

  // ---- sessions

  ghost function CommandOf(req: Request): Command
    requires Sound(req.conf)
  {
    match req
    case AddRequest(c) => ADD(ConfOf(c))
    case DelRequest(c) => DEL(ConfOf(c))
  }

  ghost predicate AllDeployed(env: Env, reqs: seq<Request>)
  {
    forall i :: 0 <= i < |reqs| ==> Deployed(env, reqs[i].conf)
  }

  ghost function CommandsOf(env: Env, reqs: seq<Request>): (cmds: seq<Command>)
    requires AllDeployed(env, reqs)
    ensures |cmds| == |reqs| && FitRun(env, cmds)
  {
    if reqs == [] then [] else CommandsOf(env, reqs[..|reqs| - 1]) + [CommandOf(reqs[|reqs| - 1])]
  }

  lemma {:induction false} CommandsOfPrefix(env: Env, reqs: seq<Request>, j: nat)
    requires AllDeployed(env, reqs) && j <= |reqs|
    ensures AllDeployed(env, reqs[..j]) && CommandsOf(env, reqs)[..j] == CommandsOf(env, reqs[..j])
    ensures j < |reqs| ==> CommandsOf(env, reqs)[j] == CommandOf(reqs[j])
    decreases |reqs|
  {
    hide Deployed, CommandOf;
    var n := |reqs| - 1;
    if j <= n {
      CommandsOfPrefix(env, reqs[..n], j);
      assert reqs[..n][..j] == reqs[..j];
    } else {
      assert reqs[..j] == reqs;
    }
  }

  /** The reply says what the specification answers: of an ADD the leased addresses, of a DEL whether it released. */
  predicate Reports(req: Request, reply: Reply, answer: Result<Leased, Failure>)
  {
    match req
    case AddRequest(c) =>
      && reply.Added?
      && (answer.Err? ==> reply.result == Err(answer.error))
      && (answer.Ok? ==>
            && (answer.value.v4.Some? ==> c.ipv4Subnet.Some?) && (answer.value.v6.Some? ==> c.ipv6Subnet.Some?)
            && reply.result == Ok(ResultFor(c, answer.value)))
    case DelRequest(_) =>
      reply.Deleted? && reply.outcome == if answer.Err? then Err(answer.error) else Ok(())
  }

  /** One request's effect on the store and its reply are its command's in the specification. */
  lemma StepRefines(env: Env, req: Request, data: Data, st: State)
    requires Deployed(env, req.conf) && Inv(env, st, false) && Represents(data, st)
    ensures ConfUsable(req.conf) && Answerable(req, data) && ValidConf(CommandOf(req).conf)
    ensures Represents(StepData(req, data).0, Step(st, CommandOf(req)).0)
    ensures Reports(req, StepData(req, data).1, Step(st, CommandOf(req)).1)
  {
    hide Represents, TableInv, Add, Del, AddData, DelData, AddEnds, Sound, ConfOf, ResultFor, Deployed;
    DeployedServed(env, req.conf);
    match req
    case AddRequest(conf) => AddRefines(env, conf, data, st);
    case DelRequest(conf) => DelRefines(conf, data, st);
  }

  lemma AllDeployedUsable(env: Env, reqs: seq<Request>)
    requires AllDeployed(env, reqs)
    ensures AllUsable(reqs) && FitRun(env, CommandsOf(env, reqs))
  {
    hide Deployed, CommandsOf;
    forall i | 0 <= i < |reqs|
      ensures ConfUsable(reqs[i].conf)
    {
      DeployedServed(env, reqs[i].conf);
    }
  }

  /** The requests leave in the store what the specification's run of their commands leaves. */
  lemma {:induction false} RunRefines(env: Env, reqs: seq<Request>)
    requires GoodEnv(env) && AllDeployed(env, reqs)
    ensures AllUsable(reqs) && ValidRun(CommandsOf(env, reqs)) && Inv(env, Run(EMPTY_STATE, CommandsOf(env, reqs)), false)
    ensures Represents(RunData(map[], reqs), Run(EMPTY_STATE, CommandsOf(env, reqs)))
    decreases |reqs|
  {
    hide Represents, TableInv, Deployed, Step, StepData, CommandOf, ConfUsable, GoodSite, Fits, ValidConf;
    EmptyRepresents();
    AllDeployedUsable(env, reqs);
    var cmds := CommandsOf(env, reqs);
    RunKeeps(env, EMPTY_STATE, cmds, false);
    if reqs != [] {
      var n := |reqs| - 1;
      RunRefines(env, reqs[..n]);
      CommandsOfPrefix(env, reqs, n);
      StepRefines(env, reqs[n], RunData(map[], reqs[..n]), Run(EMPTY_STATE, cmds[..n]));
    }
  }

  /**
   A session from an empty store runs to its end, leaves in the store just what the
   specification's run leaves, and replies to each request what the specification answers:
   so what is proved of runs holds of the replies.
   */
  lemma SessionRefines(env: Env, reqs: seq<Request>)
    requires GoodEnv(env) && AllDeployed(env, reqs)
    ensures AllUsable(reqs) && AllAnswerable(map[], reqs) && ValidRun(CommandsOf(env, reqs))
    ensures Represents(RunData(map[], reqs), Run(EMPTY_STATE, CommandsOf(env, reqs)))
    ensures forall i :: 0 <= i < |reqs| ==> Reports(reqs[i], ReplyData(map[], reqs, i), Answer(EMPTY_STATE, CommandsOf(env, reqs), i))
  {
    hide Represents, TableInv, Deployed, Step, StepData, CommandsOf, CommandOf, Reports, Run, RunData, Answerable;
    RunRefines(env, reqs);
    var cmds := CommandsOf(env, reqs);
    forall i | 0 <= i < |reqs|
      ensures Answerable(reqs[i], RunData(map[], reqs[..i])) && Reports(reqs[i], ReplyData(map[], reqs, i), Answer(EMPTY_STATE, cmds, i))
    {
      CommandsOfPrefix(env, reqs, i);
      RunRefines(env, reqs[..i]);
      StepRefines(env, reqs[i], RunData(map[], reqs[..i]), Run(EMPTY_STATE, cmds[..i]));
    }
  }
}
