/** Safety and liveness of whole runs from the empty store. */
module RunTheorems {
  import opened Wrappers
  import opened Types
  import opened Cycle
  import opened Allocation
  import opened Runs

  // ---- liveness

  /** The search of one family's half leaves its loop: at once with an error, or at some probe. */
  ghost predicate HalfHalts(f: Family, site: Site, t: Table, held4: Held)
  {
    forall held :: VerifyGateway(f, site.gateway, t.held, held4) == Ok(held) ==>
      var start := Start(site, t.cursor);
      !(site.min <= start <= site.max) || LoopExits(site.pool, held.Keys, start)
  }

  /**
   A stored cursor is a host, where the loop can only go once around; without one only
   the gateway is recorded, so a free host is met.
   */
  lemma InvariantHalts(f: Family, site: Site, t: Table, held4: Held, strict: bool)
    requires GoodSite(site) && TableInv(f, site, t, strict) && (f == V4 ==> held4 == t.held)
    ensures HalfHalts(f, site, t, held4)
  {
    GatewayFirst(f, site, t, held4, strict);
    forall held | VerifyGateway(f, site.gateway, t.held, held4) == Ok(held)
      ensures LoopExits(site.pool, held.Keys, Start(site, t.cursor))
    {
      LoopExitsIff(site.pool, held.Keys, Start(site, t.cursor));
      var other := if site.gateway == site.pool.lo then site.pool.hi else site.pool.lo;
      assert t.cursor.None? ==> site.pool.Host(other) && other !in held.Keys;
    }
  }

  /** Every ADD of every run terminates: both halves do, the second in the state the first left. */
  lemma EveryAddTerminates(env: Env, cmds: seq<Command>, c: Conf)
    requires GoodEnv(env) && FitRun(env, cmds) && Fits(env, c)
    ensures ValidRun(cmds)
    ensures var st := Run(EMPTY_STATE, cmds);
            && HalfHalts(V4, env.site4, st.v4, st.v4.held)
            && HalfHalts(V6, env.site6, Add4(c, st).0.v6, Add4(c, st).0.v4.held)
  {
    RunKeeps(env, EMPTY_STATE, cmds, false);
    var st := Run(EMPTY_STATE, cmds);
    InvariantHalts(V4, env.site4, st.v4, st.v4.held, false);
    InvariantHalts(V6, env.site6, st.v6, Add4(c, st).0.v4.held, false);
  }

  // ---- exclusive allocation

  /** What a successful ADD hands out, and what it does to the store. */
  lemma AddEffect(env: Env, c: Conf, st: State, f: Family)
    requires GoodEnv(env) && Fits(env, c) && Inv(env, st, false)
    ensures var (st', r) := Add(c, st); var t, t' := TableOf(st, f), TableOf(st', f);
            && (forall a :: a in t.held ==> a in t'.held && t'.held[a] == t.held[a])
            && (r.Ok? && LeaseOf(r.value, f).Some? ==>
                  var a := LeaseOf(r.value, f).value;
                  && SiteOf(env, f).pool.Host(a) && a != SiteOf(env, f).gateway
                  && a !in t.held && a in t'.held && t'.cursor == Some(a))
  {
    hide AddFamily, TableInv;
    if c.site4.Some? {
      HalfEffect(V4, env.site4, c.addr4, c.id, st.v4, st.v4.held);
    }
    var st4 := Add4(c, st).0;
    if c.site6.Some? {
      HalfEffect(V6, env.site6, c.addr6, c.id, st4.v6, st4.v4.held);
    }
  }

  lemma HalfEffect(f: Family, site: Site, explicit: Option<nat>, id: string, t: Table, held4: Held)
    requires GoodSite(site) && TableInv(f, site, t, false) && (f == V4 ==> held4 == t.held)
    requires explicit.Some? ==> site.pool.Host(explicit.value)
    ensures var (t', r) := AddFamily(f, site, explicit, id, t, held4);
            && (forall a :: a in t.held ==> a in t'.held && t'.held[a] == t.held[a])
            && (r.Ok? ==> site.pool.Host(r.value) && r.value != site.gateway
                          && r.value !in t.held && r.value in t'.held && t'.cursor == Some(r.value))
  {
    AddFamilyEffect(f, site, explicit, id, t, held4, false);
    hide AddFamily;
  }

  /** The k-th command of the run is a DEL that removes family f's record of a. */
  ghost predicate Releases(cmds: seq<Command>, k: nat, f: Family, a: nat)
    requires ValidRun(cmds) && k < |cmds|
  {
    && cmds[k].DEL?
    && a in TableOf(Run(EMPTY_STATE, cmds[..k]), f).held
    && a !in TableOf(Run(EMPTY_STATE, cmds[..k + 1]), f).held
  }

  lemma RunStep(st: State, cmds: seq<Command>, k: nat)
    requires ValidRun(cmds) && k < |cmds|
    ensures Run(st, cmds[..k + 1]) == Step(Run(st, cmds[..k]), cmds[k]).0
  {
    assert cmds[..k + 1][..k] == cmds[..k];
  }

  /** A record stays until a DEL removes it. */
  lemma {:induction false} HeldUntilReleased(env: Env, cmds: seq<Command>, f: Family, a: nat, i: nat, j: nat)
    requires GoodEnv(env) && FitRun(env, cmds) && i <= j <= |cmds|
    requires ValidRun(cmds)
    requires a in TableOf(Run(EMPTY_STATE, cmds[..i]), f).held
    ensures a in TableOf(Run(EMPTY_STATE, cmds[..j]), f).held || exists k :: i <= k < j && Releases(cmds, k, f, a)
    decreases j
  {
    if i < j {
      var k := j - 1;
      HeldUntilReleased(env, cmds, f, a, i, k);
      RunStep(EMPTY_STATE, cmds, k);
      RunKeeps(env, EMPTY_STATE, cmds[..k], false);
      if a in TableOf(Run(EMPTY_STATE, cmds[..k]), f).held && a !in TableOf(Run(EMPTY_STATE, cmds[..j]), f).held {
        if cmds[k].ADD? {
          AddEffect(env, cmds[k].conf, Run(EMPTY_STATE, cmds[..k]), f);
          assert false;
        }
        assert Releases(cmds, k, f, a);
      }
    }
  }

  /**
   Exclusive allocation: the address an ADD of any run returns was held by nobody, is a
   host of the subnet and not the gateway, and is recorded from then on.
   */
  lemma LeaseIsFresh(env: Env, cmds: seq<Command>, i: nat, f: Family)
    requires GoodEnv(env) && FitRun(env, cmds) && i < |cmds| && cmds[i].ADD?
    ensures ValidRun(cmds)
    ensures var r := Answer(EMPTY_STATE, cmds, i);
            r.Ok? && LeaseOf(r.value, f).Some? ==>
              var a := LeaseOf(r.value, f).value;
              && SiteOf(env, f).pool.Host(a) && a != SiteOf(env, f).gateway
              && a !in TableOf(Run(EMPTY_STATE, cmds[..i]), f).held
              && a in TableOf(Run(EMPTY_STATE, cmds[..i + 1]), f).held
  {
    FitsIsValid(env, cmds);
    RunKeeps(env, EMPTY_STATE, cmds[..i], false);
    AddEffect(env, cmds[i].conf, Run(EMPTY_STATE, cmds[..i]), f);
    RunStep(EMPTY_STATE, cmds, i);
  }

  /** No address is returned twice unless a DEL in between released it. */
  lemma NoDoubleLease(env: Env, cmds: seq<Command>, i: nat, j: nat, f: Family, a: nat)
    requires GoodEnv(env) && FitRun(env, cmds) && ValidRun(cmds) && i < j < |cmds| && cmds[i].ADD? && cmds[j].ADD?
    requires var r := Answer(EMPTY_STATE, cmds, i); r.Ok? && LeaseOf(r.value, f) == Some(a)
    requires var r := Answer(EMPTY_STATE, cmds, j); r.Ok? && LeaseOf(r.value, f) == Some(a)
    ensures exists k :: i < k < j && Releases(cmds, k, f, a)
  {
    LeaseIsFresh(env, cmds, i, f);
    LeaseIsFresh(env, cmds, j, f);
    HeldUntilReleased(env, cmds, f, a, i + 1, j);
  }

  // ---- identities

  /**
   Id injectivity: in every reachable state a nonempty id is borne by at most one IPv4
   record, and by at most one IPv6 record if it does not end in the suffix or no run
   command asked for an IPv6 address explicitly.  So a DEL by that id leaves no record
   of it and removes nothing else.
   */
  lemma ReleaseByIdIsExact(env: Env, cmds: seq<Command>, strict: bool, c: Conf, f: Family)
    requires GoodEnv(env) && FitRun(env, cmds) && c.addr4.None? && c.addr6.None? && c.id != ""
    requires strict ==> forall i :: 0 <= i < |cmds| ==> !AsksV6Address(cmds[i])
    requires f == V6 ==> strict || !Suffixed(c.id)
    ensures ValidRun(cmds)
    ensures var st := Run(EMPTY_STATE, cmds); var held := TableOf(st, f).held;
            && |Bearers(held, c.id)| <= 1
            && TableOf(Del(c, st).0, f).held == held - Bearers(held, c.id)
  {
    RunKeeps(env, EMPTY_STATE, cmds, strict);
    DelRemovesBearers(Run(EMPTY_STATE, cmds), f, c, f == V4 || strict);
  }

  lemma DelRemovesBearers(st: State, f: Family, c: Conf, strict: bool)
    requires DistinctIds(TableOf(st, f).held, strict) && c.id != "" && (strict || !Suffixed(c.id))
    requires c.addr4.None? && c.addr6.None?
    ensures var held := TableOf(st, f).held;
            && |Bearers(held, c.id)| <= 1
            && TableOf(Del(c, st).0, f).held == held - Bearers(held, c.id)
  {
    var held := TableOf(st, f).held;
    OneBearer(f, held, c.id, strict);
    assert held - {} == held;
  }

  lemma OneBearer(f: Family, held: Held, id: string, strict: bool)
    requires DistinctIds(held, strict) && id != "" && (strict || !Suffixed(id))
    ensures var bearers := Bearers(held, id); var owner := Owner(f, held, id);
            |bearers| <= 1 && bearers == if owner.Some? then {owner.value} else {}
  {
    var bearers := Bearers(held, id);
    var owner := Owner(f, held, id);
    if owner.Some? {
      assert bearers == {owner.value};
    } else {
      assert bearers == {};
    }
  }

  // ---- which ids are not guarded

  /** An IPv6-only configuration that asks for address a. */
  function AskV6(env: Env, id: string, a: nat): Conf
  {
    Conf(id, None, Some(env.site6), None, Some(a))
  }

  /** The IPv6 gateway is recorded, or no IPv4 record stands in its way. */
  predicate GatewayRecordable(env: Env, st: State)
  {
    env.site6.gateway in st.v6.held || GATEWAY_V6_VALUE !in st.v4.held.Values
  }

  lemma ExplicitV6Succeeds(env: Env, st: State, id: string, a: nat)
    requires GoodEnv(env) && Inv(env, st, false) && GatewayRecordable(env, st)
    requires env.site6.pool.Host(a) && a != env.site6.gateway && a !in st.v6.held
    requires ExplicitId(V6, id) !in st.v4.held.Values
    ensures var held := WithGateway(V6, env.site6, st.v6.held)[a := ExplicitId(V6, id)];
            Add(AskV6(env, id, a), st) == (st.(v6 := Table(held, Some(a))), Ok(Leased(None, Some(a))))
  {
    GatewayFirst(V6, env.site6, st.v6, st.v4.held, false);
    hide VerifyGateway, TableInv, ExplicitId, WithGateway;
    assert a !in WithGateway(V6, env.site6, st.v6.held) by { NotTheGateway(env.site6, st.v6.held, a); }
  }

  lemma NotTheGateway(site: Site, held: Held, a: nat)
    requires a != site.gateway && a !in held
    ensures a !in WithGateway(V6, site, held)
  {
  }

  /**
   In every state that the invariant allows, an id asked for two different free addresses
   explicitly gets both: they are recorded under one id.
   */
  lemma ExplicitV6IdsCollide(env: Env, st: State, id: string, a: nat, b: nat)
    requires GoodEnv(env) && Inv(env, st, false) && GatewayRecordable(env, st)
    requires env.site6.pool.Host(a) && a != env.site6.gateway && a !in st.v6.held
    requires env.site6.pool.Host(b) && b != env.site6.gateway && b !in st.v6.held && a != b
    requires ExplicitId(V6, id) !in st.v4.held.Values
    ensures var (st1, r1) := Add(AskV6(env, id, a), st); var (st2, r2) := Add(AskV6(env, id, b), st1);
            r1.Ok? && r2.Ok? && {a, b} <= Bearers(st2.v6.held, ExplicitId(V6, id))
  {
    var st1 := Add(AskV6(env, id, a), st).0;
    ExplicitV6Succeeds(env, st, id, a);
    AddKeeps(env, AskV6(env, id, a), st, false);
    hide Add, Inv, ExplicitId;
    ExplicitV6Succeeds(env, st1, id, b);
  }

  function ById(id: string): Conf
  {
    Conf(id, None, None, None, None)
  }

  /** A DEL by the id would leave no record of it and remove nothing else. */
  ghost predicate ReleasedExactly(f: Family, id: string, st: State)
  {
    var held := TableOf(st, f).held;
    |Bearers(held, id)| <= 1 && TableOf(Del(ById(id), st).0, f).held == held - Bearers(held, id)
  }

  ghost predicate AlwaysReleasedExactly(env: Env, f: Family, id: string)
  {
    forall cmds :: FitRun(env, cmds) && ValidRun(cmds) ==> ReleasedExactly(f, id, Run(EMPTY_STATE, cmds))
  }

  lemma TwoBearers(held: Held, id: string, a: nat, b: nat)
    requires a != b && {a, b} <= Bearers(held, id)
    ensures |Bearers(held, id)| >= 2
  {
    var rest := Bearers(held, id) - {a, b};
    assert Bearers(held, id) == rest + {a, b};
  }

  /** Where only one address can bear the id, releasing it is exact. */
  lemma OneCandidate(f: Family, id: string, st: State)
    requires id != "" && forall a, b :: a in Bearers(TableOf(st, f).held, id) && b in Bearers(TableOf(st, f).held, id) ==> a == b
    ensures ReleasedExactly(f, id, st)
  {
    var held := TableOf(st, f).held;
    var bearers, owner := Bearers(held, id), Owner(f, held, id);
    if owner.Some? {
      assert owner.value in bearers;
      assert bearers == {owner.value};
    } else {
      assert bearers == {};
      assert held - {} == held;
    }
  }

  /**
   Releasing by id is exact in every state that any run reaches: for IPv4 whatever the id,
   and for IPv6 if and only if the id does not end in the suffix, or the subnet has a single
   host beside the gateway.
   */
  lemma ReleasedExactlyIff(env: Env, id: string)
    requires GoodEnv(env) && id != ""
    ensures AlwaysReleasedExactly(env, V4, id)
    ensures AlwaysReleasedExactly(env, V6, id) <==> !Suffixed(id) || env.site6.pool.Size() == 2
  {
    hide ReleasedExactly, Del, Bearers;
    forall cmds | FitRun(env, cmds) && ValidRun(cmds)
      ensures ReleasedExactly(V4, id, Run(EMPTY_STATE, cmds))
      ensures !Suffixed(id) || env.site6.pool.Size() == 2 ==> ReleasedExactly(V6, id, Run(EMPTY_STATE, cmds))
    {
      RunKeeps(env, EMPTY_STATE, cmds, false);
      InvariantReleases(env, id, Run(EMPTY_STATE, cmds));
    }
    if Suffixed(id) && env.site6.pool.Size() != 2 {
      var cmds := CollidingRun(env, id);
    }
  }

  lemma InvariantReleases(env: Env, id: string, st: State)
    requires GoodEnv(env) && id != "" && Inv(env, st, false)
    ensures ReleasedExactly(V4, id, st)
    ensures !Suffixed(id) || env.site6.pool.Size() == 2 ==> ReleasedExactly(V6, id, st)
  {
    hide ReleasedExactly;
    OneCandidate(V4, id, st);
    if !Suffixed(id) || env.site6.pool.Size() == 2 {
      assert !Suffixed(GATEWAY_V6_VALUE);
      OneCandidate(V6, id, st);
    }
  }

  lemma CollidingRun(env: Env, id: string) returns (cmds: seq<Command>)
    requires GoodEnv(env) && Suffixed(id) && env.site6.pool.Size() > 2
    ensures FitRun(env, cmds) && ValidRun(cmds) && !ReleasedExactly(V6, id, Run(EMPTY_STATE, cmds))
  {
    var p, gateway := env.site6.pool, env.site6.gateway;
    var a, b := if gateway == p.lo then p.lo + 1 else p.lo, if gateway == p.hi then p.hi - 1 else p.hi;
    var name := id[..|id| - 3];
    assert id == ExplicitId(V6, name);
    var first, second := ADD(AskV6(env, name, a)), ADD(AskV6(env, name, b));
    cmds := [first, second];
    ExplicitV6IdsCollide(env, EMPTY_STATE, name, a, b);
    hide Add, Bearers, Del;
    assert cmds[..1] == [first] && [first][..0] == [];
    assert Run(EMPTY_STATE, []) == EMPTY_STATE;
    assert Run(EMPTY_STATE, [first]) == Add(first.conf, EMPTY_STATE).0;
    TwoBearers(Run(EMPTY_STATE, cmds).v6.held, id, a, b);
  }
}
