/** What every run of commands keeps, for fixed subnets and gateways. */
module Runs {
  import opened Wrappers
  import opened Types
  import opened Cycle
  import opened Allocation

  datatype Env = Env(site4: Site, site6: Site)

  function SiteOf(env: Env, f: Family): Site
  {
    if f == V4 then env.site4 else env.site6
  }

  function TableOf(st: State, f: Family): Table
  {
    if f == V4 then st.v4 else st.v6
  }

  function LeaseOf(l: Leased, f: Family): Option<nat>
  {
    if f == V4 then l.v4 else l.v6
  }

  /** A subnet with room for a container beside the gateway, which is one of its hosts. */
  predicate GoodSite(s: Site)
  {
    && s.pool.Valid() && s.min < s.pool.lo && s.pool.hi <= s.max
    && s.pool.Size() >= 2 && s.pool.Host(s.gateway)
  }

  predicate GoodEnv(env: Env)
  {
    GoodSite(env.site4) && GoodSite(env.site6)
  }

  /** Commands use the fixed subnets; an address explicitly asked of one is one of its hosts. */
  predicate Fits(env: Env, c: Conf)
  {
    && (c.site4.Some? ==> c.site4.value == env.site4 && (c.addr4.Some? ==> env.site4.pool.Host(c.addr4.value)))
    && (c.site6.Some? ==> c.site6.value == env.site6 && (c.addr6.Some? ==> env.site6.pool.Host(c.addr6.value)))
  }

  ghost predicate FitRun(env: Env, cmds: seq<Command>)
  {
    forall i :: 0 <= i < |cmds| ==> Fits(env, cmds[i].conf)
  }

  predicate Suffixed(id: string)
  {
    |id| >= 3 && id[|id| - 3..] == EXPLICIT_V6_SUFFIX
  }

  /**
   No two records carry one nonempty id.  IPv6 records of explicitly requested
   addresses are exempt unless `strict`: their ids end in the suffix.
   */
  ghost predicate DistinctIds(held: Held, strict: bool)
  {
    forall a, b :: a in held && b in held && held[a] == held[b] != "" && (strict || !Suffixed(held[a])) ==> a == b
  }

  ghost predicate TableInv(f: Family, site: Site, t: Table, strict: bool)
  {
    && (forall a :: a in t.held ==> site.pool.Host(a))
    && (forall a :: a in t.held ==> (a == site.gateway <==> t.held[a] == GatewayName(f)))
    && (t.cursor.Some? ==> site.pool.Host(t.cursor.value))
    && (t.cursor.None? ==> forall a :: a in t.held ==> a == site.gateway)
    && DistinctIds(t.held, f == V4 || strict)
  }

  ghost predicate Inv(env: Env, st: State, strict: bool)
  {
    TableInv(V4, env.site4, st.v4, strict) && TableInv(V6, env.site6, st.v6, strict)
  }

  // ---- one family's half of an ADD

  /** The records once the gateway is among them. */
  function WithGateway(f: Family, site: Site, held: Held): Held
  {
    held[site.gateway := GatewayName(f)]
  }

  lemma GatewayFirst(f: Family, site: Site, t: Table, held4: Held, strict: bool)
    requires GoodSite(site) && TableInv(f, site, t, strict) && (f == V4 ==> held4 == t.held)
    ensures var r := VerifyGateway(f, site.gateway, t.held, held4);
            r.Ok? ==> r.value == WithGateway(f, site, t.held) && TableInv(f, site, t.(held := r.value), strict)
    ensures f == V4 ==> VerifyGateway(f, site.gateway, t.held, held4).Ok?
    ensures VerifyGateway(f, site.gateway, t.held, held4).Err? <==>
              site.gateway !in t.held && GatewayName(f) in Scanned(f, t.held, held4).Values
  {
    assert GatewayName(f) != "" && !Suffixed(GatewayName(f));
    if site.gateway in t.held {
      assert WithGateway(f, site, t.held) == t.held;
    }
  }

  /** Once the gateway is recorded, an address is taken fresh and under an id nobody bears. */
  lemma TakeEffect(f: Family, site: Site, explicit: Option<nat>, id: string, cursor: Option<nat>, held: Held, held4: Held)
    requires GoodSite(site) && site.gateway in held && held[site.gateway] == GatewayName(f)
    requires (explicit.Some? ==> site.pool.Host(explicit.value)) && (f == V4 ==> held4 == held)
    ensures var r := Take(f, site, explicit, id, cursor, held, held4);
            var id' := if explicit.Some? then ExplicitId(f, id) else id;
            r.Ok? ==>
              var (a, held') := r.value;
              && site.pool.Host(a) && a !in held && held' == held[a := id']
              && (if explicit.Some? then a == explicit.value else id != GatewayName(f))
              && (id' != "" ==> id' !in held.Values || (f == V6 && explicit.Some? && Suffixed(id')))
  {
    FirstFreeIsNearest(site.pool, held.Keys, Start(site, cursor));
    assert GatewayName(f) in held.Values;
    assert f == V6 ==> Suffixed(ExplicitId(f, id));
  }

  /**
   A half that succeeds takes a host nobody held and that is not the gateway, records it,
   and points the cursor at it; one that fails writes at most the gateway.
   */
  lemma AddFamilyEffect(f: Family, site: Site, explicit: Option<nat>, id: string, t: Table, held4: Held, strict: bool)
    requires GoodSite(site) && TableInv(f, site, t, strict) && (f == V4 ==> held4 == t.held)
    requires explicit.Some? ==> site.pool.Host(explicit.value)
    requires f == V6 && explicit.Some? ==> !strict
    ensures var (t', r) := AddFamily(f, site, explicit, id, t, held4);
            && TableInv(f, site, t', strict)
            && (r.Ok? ==> var a := r.value;
                  && site.pool.Host(a) && a !in t.held && a != site.gateway
                  && (if explicit.Some? then a == explicit.value else id != GatewayName(f))
                  && (explicit.None? && id != "" ==> id !in t.held.Values)
                  && t' == Table(WithGateway(f, site, t.held)[a := if explicit.Some? then ExplicitId(f, id) else id], Some(a)))
            && (r.Err? ==> t' == t || t' == t.(held := WithGateway(f, site, t.held)))
  {
    GatewayFirst(f, site, t, held4, strict);
    var g := VerifyGateway(f, site.gateway, t.held, held4);
    if g.Ok? {
      var scanned := if f == V4 then g.value else held4;
      TakeEffect(f, site, explicit, id, t.cursor, g.value, scanned);
      TakeScans(f, site, explicit, id, t.cursor, g.value, held4, scanned);
      var taken := Take(f, site, explicit, id, t.cursor, g.value, held4);
      if taken.Ok? {
        assert forall v :: v in t.held.Values ==> v in g.value.Values by { GatewayKeepsIds(f, site, t, strict); }
        RecordKeeps(f, site, t.(held := g.value), taken.value.0, if explicit.Some? then ExplicitId(f, id) else id, strict);
      }
    }
  }

  lemma GatewayKeepsIds(f: Family, site: Site, t: Table, strict: bool)
    requires TableInv(f, site, t, strict)
    ensures forall v :: v in t.held.Values ==> v in WithGateway(f, site, t.held).Values
  {
    forall v | v in t.held.Values
      ensures v in WithGateway(f, site, t.held).Values
    {
      var a :| a in t.held && t.held[a] == v;
      assert a in WithGateway(f, site, t.held) && WithGateway(f, site, t.held)[a] == v;
    }
  }

  /** An IPv4 half scans its own records, whatever the caller passes beside them. */
  lemma TakeScans(f: Family, site: Site, explicit: Option<nat>, id: string, cursor: Option<nat>, held: Held, one: Held, other: Held)
    requires site.pool.Valid() && (f == V6 ==> one == other)
    ensures Take(f, site, explicit, id, cursor, held, one) == Take(f, site, explicit, id, cursor, held, other)
  {
  }

  /** Recording a fresh host under an id nobody bears keeps the table's invariant. */
  lemma RecordKeeps(f: Family, site: Site, t: Table, a: nat, id: string, strict: bool)
    requires TableInv(f, site, t, strict) && site.pool.Host(a) && a !in t.held && site.gateway in t.held
    requires id != "" ==> id !in t.held.Values || (f == V6 && !strict && Suffixed(id))
    ensures TableInv(f, site, Table(t.held[a := id], Some(a)), strict)
  {
    assert !Suffixed(GatewayName(f)) && GatewayName(f) in t.held.Values;
  }

  lemma AddKeeps(env: Env, c: Conf, st: State, strict: bool)
    requires GoodEnv(env) && Fits(env, c) && Inv(env, st, strict)
    requires c.site6.Some? && c.addr6.Some? ==> !strict
    ensures Inv(env, Add(c, st).0, strict)
  {
    if c.site4.Some? {
      AddFamilyEffect(V4, env.site4, c.addr4, c.id, st.v4, st.v4.held, strict);
    }
    var st4 := Add4(c, st).0;
    if c.site6.Some? {
      AddFamilyEffect(V6, env.site6, c.addr6, c.id, st4.v6, st4.v4.held, strict);
    }
  }

  // ---- DEL

  lemma ForgetKeeps(f: Family, site: Site, t: Table, released: Option<nat>, strict: bool)
    requires TableInv(f, site, t, strict) && (released.Some? ==> released.value in t.held)
    ensures TableInv(f, site, Forget(t, released), strict)
    ensures released.Some? ==> TableInv(f, site, t.(held := t.held - {released.value}), strict)
  {
  }

  lemma DelKeeps(env: Env, c: Conf, st: State, strict: bool)
    requires Inv(env, st, strict)
    ensures Inv(env, Del(c, st).0, strict)
  {
    var a4, a6 := Owner(V4, st.v4.held, c.id), Owner(V6, st.v6.held, c.id);
    ForgetKeeps(V4, env.site4, st.v4, a4, strict);
    ForgetKeeps(V6, env.site6, st.v6, a6, strict);
    if c.addr4.Some? && c.addr4.value in st.v4.held {
      ForgetKeeps(V4, env.site4, st.v4, c.addr4, strict);
    }
    if c.addr6.Some? && c.addr6.value in st.v6.held {
      ForgetKeeps(V6, env.site6, st.v6, c.addr6, strict);
    }
  }

  // ---- runs

  predicate AsksV6Address(cmd: Command)
  {
    cmd.ADD? && cmd.conf.site6.Some? && cmd.conf.addr6.Some?
  }

  lemma FitsIsValid(env: Env, cmds: seq<Command>)
    requires GoodEnv(env) && FitRun(env, cmds)
    ensures ValidRun(cmds)
  {
    forall i | 0 <= i < |cmds|
      ensures ValidConf(cmds[i].conf)
    {
      assert Fits(env, cmds[i].conf);
    }
  }

  lemma StepKeeps(env: Env, st: State, cmd: Command, strict: bool)
    requires GoodEnv(env) && Fits(env, cmd.conf) && Inv(env, st, strict)
    requires strict ==> !AsksV6Address(cmd)
    ensures ValidConf(cmd.conf) && Inv(env, Step(st, cmd).0, strict)
  {
    match cmd
    case ADD(c) => AddKeeps(env, c, st, strict);
    case DEL(c) => DelKeeps(env, c, st, strict);
  }

  /** The invariant holds in every state a run can reach, whatever its commands answer. */
  lemma {:induction false} RunKeeps(env: Env, st: State, cmds: seq<Command>, strict: bool)
    requires GoodEnv(env) && FitRun(env, cmds) && Inv(env, st, strict)
    requires strict ==> forall i :: 0 <= i < |cmds| ==> !AsksV6Address(cmds[i])
    ensures ValidRun(cmds) && Inv(env, Run(st, cmds), strict)
    decreases |cmds|
  {
    FitsIsValid(env, cmds);
    if cmds != [] {
      var n := |cmds| - 1;
      RunKeeps(env, st, cmds[..n], strict);
      StepKeeps(env, Run(st, cmds[..n]), cmds[n], strict);
    }
  }
}
