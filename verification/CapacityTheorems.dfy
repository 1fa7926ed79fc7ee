/** How many addresses a pool yields, in which order they come back, and how the families combine. */
module CapacityTheorems {
  import opened Wrappers
  import opened Types
  import opened Cycle
  import opened Allocation
  import opened Runs

  // ---- capacity

  lemma {:induction false} SubsetSize(a: set<nat>, b: set<nat>)
    requires a <= b
    ensures |a| <= |b| && (|a| == |b| ==> a == b)
  {
    if a != {} {
      var x :| x in a;
      SubsetSize(a - {x}, b - {x});
      assert a == (a - {x}) + {x} && b == (b - {x}) + {x};
    }
  }

  /**
   Pigeonhole: a half that has to find an address succeeds exactly when the records, the
   gateway among them, are fewer than the hosts; otherwise it reports exhaustion.
   */
  lemma FindsUntilFull(f: Family, site: Site, id: string, t: Table, held4: Held, strict: bool)
    requires GoodSite(site) && TableInv(f, site, t, strict) && (f == V4 ==> held4 == t.held)
    requires VerifyGateway(f, site.gateway, t.held, held4).Ok?
    requires id != "" ==> id !in WithGateway(f, site, t.held).Values
    ensures var r := AddFamily(f, site, None, id, t, held4).1; var n := |WithGateway(f, site, t.held)|;
            && n <= site.pool.Size()
            && (r.Ok? <==> n < site.pool.Size())
            && (r.Err? ==> r == Err(Exhausted))
  {
    GatewayFirst(f, site, t, held4, strict);
    var held := WithGateway(f, site, t.held);
    FreeHostIff(site.pool, held.Keys);
    assert |held| == |held.Keys|;
    SearchFindsFree(site, t.cursor, held, id);
  }

  lemma SearchFindsFree(site: Site, cursor: Option<nat>, held: Held, id: string)
    requires site.pool.Valid() && site.min <= Start(site, cursor) <= site.max
    requires id != "" ==> id !in held.Values
    ensures var r := Search(site, cursor, held, id);
            && (r.Err? ==> r == Err(Exhausted))
            && (r.Err? <==> forall b: nat :: site.pool.Host(b) ==> b in held.Keys)
  {
    FirstFreeIsNearest(site.pool, held.Keys, Start(site, cursor));
  }

  lemma FreeHostIff(p: Pool, used: set<nat>)
    requires p.Valid() && forall a :: a in used ==> p.Host(a)
    ensures |used| <= p.Size()
    ensures |used| < p.Size() <==> !(forall b: nat :: p.Host(b) ==> b in used)
  {
    var hosts := p.Hosts();
    SubsetSize(used, hosts);
    if forall b: nat :: p.Host(b) ==> b in used {
      assert used == hosts;
    }
  }

  /** A configuration of one family that leaves the address to be found. */
  function Asking(env: Env, f: Family, id: string): Conf
  {
    if f == V4 then Conf(id, Some(env.site4), None, None, None) else Conf(id, None, Some(env.site6), None, None)
  }

  function Adds(env: Env, f: Family, ids: seq<string>): seq<Command>
  {
    if ids == [] then [] else Adds(env, f, ids[..|ids| - 1]) + [ADD(Asking(env, f, ids[|ids| - 1]))]
  }

  ghost predicate UsableIds(f: Family, ids: seq<string>)
  {
    && GatewayName(f) !in ids
    && forall i, j :: 0 <= i < j < |ids| && ids[i] == ids[j] ==> ids[i] == ""
  }

  /** The table after n ADDs: the gateway and n hosts, under the ids given. */
  ghost predicate Filled(env: Env, f: Family, ids: seq<string>, st: State)
  {
    var t := TableOf(st, f);
    && Inv(env, st, true)
    && |WithGateway(f, SiteOf(env, f), t.held)| == |ids| + 1
    && (forall a :: a in t.held && a != SiteOf(env, f).gateway ==> t.held[a] in ids)
    && (f == V6 ==> st.v4.held == map[])
  }

  lemma {:induction false} AddsFit(env: Env, f: Family, ids: seq<string>)
    requires GoodEnv(env)
    ensures FitRun(env, Adds(env, f, ids)) && ValidRun(Adds(env, f, ids)) && |Adds(env, f, ids)| == |ids|
  {
    if ids != [] {
      AddsFit(env, f, ids[..|ids| - 1]);
    }
  }

  lemma FreshId(f: Family, site: Site, held: Held, ids: seq<string>, id: string)
    requires forall a :: a in held && a != site.gateway ==> held[a] in ids
    requires id != GatewayName(f) && (id in ids ==> id == "")
    ensures id != "" ==> id !in WithGateway(f, site, held).Values
  {
  }

  /** With no IPv4 records under its name, the IPv6 gateway can be recorded. */
  lemma AskingRecordsGateway(f: Family, site: Site, t: Table, held4: Held)
    requires GoodSite(site) && TableInv(f, site, t, true)
    requires if f == V4 then held4 == t.held else held4 == map[]
    ensures VerifyGateway(f, site.gateway, t.held, held4).Ok?
  {
    GatewayFirst(f, site, t, held4, true);
    hide VerifyGateway, TableInv;
    assert f == V6 ==> GatewayName(f) !in held4.Values;
  }

  /** An ADD for one family is that family's half. */
  lemma OneHalf(env: Env, f: Family, id: string, st: State)
    requires GoodEnv(env)
    ensures var (st', answer) := Add(Asking(env, f, id), st);
            var (t', r) := AddFamily(f, SiteOf(env, f), None, id, TableOf(st, f), st.v4.held);
            && TableOf(st', f) == t' && (answer.Ok? <==> r.Ok?) && (r.Err? ==> answer == Err(r.error))
            && (if f == V4 then st'.v6 == st.v6 else st'.v4 == st.v4)
  {
    hide AddFamily;
  }

  /** One more ADD in a filled table: success below capacity, exhaustion at it. */
  lemma FillOne(env: Env, f: Family, ids: seq<string>, id: string, st: State)
    requires GoodEnv(env) && Filled(env, f, ids, st) && id != GatewayName(f) && (id in ids ==> id == "")
    ensures var (st', r) := Add(Asking(env, f, id), st); var size := SiteOf(env, f).pool.Size();
            && |ids| < size
            && (r.Ok? <==> |ids| + 1 < size)
            && (r.Ok? ==> Filled(env, f, ids + [id], st'))
            && (r.Err? ==> r == Err(Exhausted))
  {
    hide TableInv, WithGateway, AddFamily, Add, Asking, VerifyGateway, GoodSite;
    var site, t := SiteOf(env, f), TableOf(st, f);
    GatewayFirst(f, site, t, st.v4.held, true);
    AskingRecordsGateway(f, site, t, st.v4.held);
    FreshId(f, site, t.held, ids, id);
    FindsUntilFull(f, site, id, t, st.v4.held, true);
    AddFamilyEffect(f, site, None, id, t, st.v4.held, true);
    OneHalf(env, f, id, st);
    var r := AddFamily(f, site, None, id, t, st.v4.held).1;
    if r.Ok? {
      OneMore(f, site, ids, id, t.held, r.value);
    }
  }

  lemma OneMore(f: Family, site: Site, ids: seq<string>, id: string, held: Held, a: nat)
    requires a !in held && a != site.gateway
    requires forall b :: b in held && b != site.gateway ==> held[b] in ids
    ensures var held' := WithGateway(f, site, held)[a := id];
            && |WithGateway(f, site, held')| == |WithGateway(f, site, held)| + 1
            && (forall b :: b in held' && b != site.gateway ==> held'[b] in ids + [id])
  {
    var held' := WithGateway(f, site, held)[a := id];
    assert WithGateway(f, site, held') == held';
    assert held'.Keys == WithGateway(f, site, held).Keys + {a};
  }

  ghost predicate AllSucceed(cmds: seq<Command>)
    requires ValidRun(cmds)
  {
    forall i :: 0 <= i < |cmds| ==> Answer(EMPTY_STATE, cmds, i).Ok?
  }

  lemma OneMoreSucceeds(cmds: seq<Command>, n: nat)
    requires ValidRun(cmds) && |cmds| == n + 1 && AllSucceed(cmds[..n]) && Answer(EMPTY_STATE, cmds, n).Ok?
    ensures AllSucceed(cmds)
  {
    hide Step, Run;
    forall i | 0 <= i < n
      ensures Answer(EMPTY_STATE, cmds, i).Ok?
    {
      assert cmds[..n][..i] == cmds[..i] && Answer(EMPTY_STATE, cmds[..n], i).Ok?;
    }
  }

  lemma LastAdd(env: Env, f: Family, ids: seq<string>)
    requires ids != [] && UsableIds(f, ids) && |Adds(env, f, ids)| == |ids|
    ensures var n := |ids| - 1;
            && Adds(env, f, ids)[..n] == Adds(env, f, ids[..n]) && Adds(env, f, ids)[n] == ADD(Asking(env, f, ids[n]))
            && UsableIds(f, ids[..n]) && ids[n] != GatewayName(f) && (ids[n] in ids[..n] ==> ids[n] == "")
  {
    hide Asking;
    var n := |ids| - 1;
    assert ids[..n] + [ids[n]] == ids && ids[n] in ids;
  }

  lemma LastAnswer(cmds: seq<Command>, n: nat, c: Conf)
    requires ValidRun(cmds) && |cmds| == n + 1 && cmds[n] == ADD(c) && ValidConf(c)
    ensures ValidRun(cmds[..n])
    ensures Answer(EMPTY_STATE, cmds, n) == Add(c, Run(EMPTY_STATE, cmds[..n])).1
    ensures Run(EMPTY_STATE, cmds) == Add(c, Run(EMPTY_STATE, cmds[..n])).0
  {
    hide Add;
  }

  /** The ADDs for these ids all succeed, and fill the table with them. */
  ghost predicate FillsUp(env: Env, f: Family, ids: seq<string>)
  {
    && ValidRun(Adds(env, f, ids)) && Filled(env, f, ids, Run(EMPTY_STATE, Adds(env, f, ids)))
    && AllSucceed(Adds(env, f, ids))
  }

  lemma NothingFilled(env: Env, f: Family)
    requires GoodEnv(env)
    ensures FillsUp(env, f, [])
  {
    assert |WithGateway(f, SiteOf(env, f), map[])| == 1;
  }

  lemma FillMore(env: Env, f: Family, ids: seq<string>, n: nat)
    requires GoodEnv(env) && UsableIds(f, ids) && |ids| < SiteOf(env, f).pool.Size()
    requires |ids| == n + 1 && FillsUp(env, f, ids[..n])
    ensures FillsUp(env, f, ids)
  {
    hide Filled, Asking, Add, GoodEnv, AllSucceed, Run, Step, Answer, UsableIds, Adds, ValidRun, ValidConf, FitRun;
    AddsFit(env, f, ids);
    LastAdd(env, f, ids);
    var cmds, init, id, c := Adds(env, f, ids), ids[..n], ids[n], Asking(env, f, ids[n]);
    assert init + [id] == ids;
    var st := Run(EMPTY_STATE, cmds[..n]);
    FillOne(env, f, init, id, st);
    LastAnswer(cmds, n, c);
    OneMoreSucceeds(cmds, n);
  }

  lemma {:induction false} FillUp(env: Env, f: Family, ids: seq<string>)
    requires GoodEnv(env) && UsableIds(f, ids) && |ids| < SiteOf(env, f).pool.Size()
    ensures FillsUp(env, f, ids)
    decreases |ids|
  {
    hide FillsUp, GoodEnv;
    if ids == [] {
      NothingFilled(env, f);
    } else {
      var n := |ids| - 1;
      AddsFit(env, f, ids);
      LastAdd(env, f, ids);
      FillUp(env, f, ids[..n]);
      FillMore(env, f, ids, n);
    }
  }

  /**
   Exact capacity: from the empty store every one of the first Size() - 1 ADDs succeeds,
   and the next reports exhaustion.
   */
  lemma ExactCapacity(env: Env, f: Family, ids: seq<string>, next: string)
    requires GoodEnv(env) && UsableIds(f, ids + [next]) && |ids| == SiteOf(env, f).pool.Size() - 1
    ensures var cmds := Adds(env, f, ids);
            && ValidRun(cmds) && |cmds| == |ids|
            && AllSucceed(cmds)
            && ValidConf(Asking(env, f, next))
            && Add(Asking(env, f, next), Run(EMPTY_STATE, cmds)).1 == Err(Exhausted)
  {
    var all := ids + [next];
    assert all[..|ids|] == ids && all[|ids|] == next;
    assert forall i :: 0 <= i < |ids| ==> ids[i] == all[i];
    FillUp(env, f, ids);
    AddsFit(env, f, ids);
    FillOne(env, f, ids, next, Run(EMPTY_STATE, Adds(env, f, ids)));
  }

  // ---- reuse

  /**
   Most recently released is reused last: while the cursor is at a, which is where a DEL
   of a leaves it, an ADD that has to find an address returns a only when every other
   host is in use.
   */
  lemma ReusedLast(f: Family, site: Site, id: string, t: Table, held4: Held, strict: bool, a: nat)
    requires GoodSite(site) && TableInv(f, site, t, strict) && (f == V4 ==> held4 == t.held)
    requires t.cursor == Some(a) && AddFamily(f, site, None, id, t, held4).1 == Ok(a)
    ensures forall b: nat :: site.pool.Host(b) && b != a ==> b in WithGateway(f, site, t.held)
  {
    GatewayFirst(f, site, t, held4, strict);
    var held := WithGateway(f, site, t.held);
    FirstFreeIsNearest(site.pool, held.Keys, a);
    FullCycle(site.pool, a, a, 1);
    forall b: nat | site.pool.Host(b) && b !in held
      ensures b == a
    {
      assert Distance(site.pool, a, a) <= Distance(site.pool, a, b);
    }
  }

  /** A DEL that answers with a released address leaves the cursor on it. */
  lemma ReleasedBecomesCursor(c: Conf, st: State, f: Family, a: nat)
    requires Del(c, st).1.Ok? && LeaseOf(Del(c, st).1.value, f) == Some(a)
    ensures a in TableOf(st, f).held
    ensures TableOf(Del(c, st).0, f) == Table(TableOf(st, f).held - {a}, Some(a))
  {
  }

  /**
   Reuse across commands: between the DEL and the next ADD that has to find an address of
   the family anything may happen to the other family, and so may it in that ADD.
   */
  lemma ReleasedThenReused(env: Env, del: Conf, st: State, later: State, c: Conf, f: Family, a: nat)
    requires GoodEnv(env) && Inv(env, st, false) && Inv(env, later, false)
    requires Del(del, st).1.Ok? && LeaseOf(Del(del, st).1.value, f) == Some(a)
    requires TableOf(later, f) == TableOf(Del(del, st).0, f)
    requires Fits(env, c) && (if f == V4 then c.site4.Some? && c.addr4.None? else c.site6.Some? && c.addr6.None?)
    requires Add(c, later).1.Ok? && LeaseOf(Add(c, later).1.value, f) == Some(a)
    ensures forall b: nat :: SiteOf(env, f).pool.Host(b) && b != a ==>
              b == SiteOf(env, f).gateway || b in TableOf(st, f).held
  {
    hide AddFamily, TableInv;
    ReleasedBecomesCursor(del, st, f, a);
    ReusedLast(f, SiteOf(env, f), c.id, TableOf(later, f), if f == V4 then later.v4.held else Add4(c, later).0.v4.held, false, a);
  }

  // ---- the two families

  /**
   A dual-stack ADD has the combined effect of its two halves in either order, except that
   the IPv6 gateway cannot be recorded after an IPv4 record has taken its name for an id.
   */
  lemma DualStackOrder(env: Env, c: Conf, st: State)
    requires GoodEnv(env) && Fits(env, c) && Inv(env, st, false) && c.site4.Some? && c.site6.Some?
    ensures var both := Add(c, st);
            var six := Add(c.(site4 := None), st); var four := Add(c.(site6 := None), six.0);
            && (both.1.Ok? ==> six.1.Ok? && four.1.Ok?)
            && (six.1.Ok? && four.1.Ok? ==>
                  (both.1.Ok? <==> env.site6.gateway in st.v6.held || c.id != GATEWAY_V6_VALUE))
            && (both.1.Ok? ==> both.0 == four.0 && both.1.value == Leased(four.1.value.v4, six.1.value.v6))
  {
    hide AddFamily, TableInv, WithGateway;
    AddFamilyEffect(V4, env.site4, c.addr4, c.id, st.v4, st.v4.held, false);
    var (t4, r4) := AddFamily(V4, env.site4, c.addr4, c.id, st.v4, st.v4.held);
    if r4.Ok? {
      GatewayIfHeld(env.site4, st.v4);
      SixAfterFour(env.site6, env.site4, c.addr6, c.id, st.v6, st.v4.held, t4.held, r4.value);
    }
  }

  lemma GatewayIfHeld(site: Site, t: Table)
    requires TableInv(V4, site, t, false)
    ensures site.gateway in t.held ==> t.held[site.gateway] == GATEWAY_VALUE
  {
  }

  /** What the IPv6 half sees of the IPv4 one: only whether one of three ids is in use. */
  lemma SixAfterFour(site: Site, site4: Site, explicit: Option<nat>, id: string, t: Table, before: Held, after: Held, a: nat)
    requires GoodSite(site) && TableInv(V6, site, t, false)
    requires a !in before && a != site4.gateway
    requires site4.gateway in before ==> before[site4.gateway] == GATEWAY_VALUE
    requires after == WithGateway(V4, site4, before)[a := id]
    ensures AddFamily(V6, site, explicit, id, t, after).1.Ok? ==>
              AddFamily(V6, site, explicit, id, t, before) == AddFamily(V6, site, explicit, id, t, after)
              && (site.gateway in t.held || id != GATEWAY_V6_VALUE)
    ensures AddFamily(V6, site, explicit, id, t, before).1.Ok? && (site.gateway in t.held || id != GATEWAY_V6_VALUE) ==>
              AddFamily(V6, site, explicit, id, t, before) == AddFamily(V6, site, explicit, id, t, after)
  {
    IdsAfter(site4, before, after, a, id, ExplicitId(V6, id));
    IdsAfter(site4, before, after, a, id, GATEWAY_V6_VALUE);
    assert |ExplicitId(V6, id)| == |id| + 3 && Suffixed(ExplicitId(V6, id)) && !Suffixed(GATEWAY_VALUE);
    assert |GATEWAY_VALUE| != |GATEWAY_V6_VALUE|;
    if site.gateway in t.held || id != GATEWAY_V6_VALUE {
      SeesTwoIds(site, explicit, id, t, before, after);
    } else {
      assert VerifyGateway(V6, site.gateway, t.held, after).Err?;
    }
  }

  lemma IdsAfter(site4: Site, before: Held, after: Held, a: nat, id: string, v: string)
    requires a !in before && a != site4.gateway
    requires site4.gateway in before ==> before[site4.gateway] == GATEWAY_VALUE
    requires after == WithGateway(V4, site4, before)[a := id]
    ensures v in after.Values <==> v in before.Values || v == id || v == GATEWAY_VALUE
  {
    assert after[a] == id && after[site4.gateway] == GATEWAY_VALUE;
    if v in before.Values {
      var b :| b in before && before[b] == v;
      assert b in after && after[b] == v;
    }
  }

  /** The IPv6 half looks up two ids among the IPv4 records, the first only to record its gateway. */
  lemma SeesTwoIds(site: Site, explicit: Option<nat>, id: string, t: Table, one: Held, other: Held)
    requires site.pool.Valid() && TableInv(V6, site, t, false)
    requires ExplicitId(V6, id) in one.Values <==> ExplicitId(V6, id) in other.Values
    requires site.gateway in t.held || (GATEWAY_V6_VALUE in one.Values <==> GATEWAY_V6_VALUE in other.Values)
    ensures AddFamily(V6, site, explicit, id, t, one) == AddFamily(V6, site, explicit, id, t, other)
  {
    hide Search, ExplicitId;
    assert VerifyGateway(V6, site.gateway, t.held, one) == VerifyGateway(V6, site.gateway, t.held, other);
    hide VerifyGateway;
  }
}
