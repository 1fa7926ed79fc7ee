/** What ADD and DEL mean together: undoing, capacity, reuse order, and the two families' independence. */
module LeaseTheorems {
  import opened Wrappers
  import opened Types
  import opened Allocation
  import opened Runs

  // ---- ADD, then DEL with the same configuration

  /** The addresses the configuration asks for belong to subnets it configures. */
  predicate Coherent(c: Conf)
  {
    (c.addr4.Some? ==> c.site4.Some?) && (c.addr6.Some? ==> c.site6.Some?)
  }

  /** A dual-stack configuration that asks for one address and leaves the other to be found. */
  predicate Mixed(c: Conf)
  {
    c.site4.Some? && c.site6.Some? && (c.addr4.Some? != c.addr6.Some?)
  }

  /** What one family's records should be once its ADD is undone. */
  function Undone(f: Family, site: Option<Site>, held: Held): Held
  {
    if site.Some? then WithGateway(f, site.value, held) else held
  }

  /** What a half of a successful ADD leaves behind. */
  ghost predicate Granted(f: Family, site: Option<Site>, explicit: Option<nat>, id: string, t: Table, t': Table, a: Option<nat>)
  {
    && (site.None? ==> a == None && t' == t)
    && (site.Some? ==>
          && a.Some? && a.value !in t.held && a.value != site.value.gateway
          && (if explicit.Some? then a == explicit else id != GatewayName(f))
          && (explicit.None? && id != "" ==> id !in t.held.Values)
          && t' == Table(WithGateway(f, site.value, t.held)[a.value := if explicit.Some? then ExplicitId(f, id) else id], a))
  }

  lemma AddGrants(env: Env, c: Conf, st: State)
    requires GoodEnv(env) && Fits(env, c) && Inv(env, st, false) && Add(c, st).1.Ok?
    ensures var (st1, lease) := Add(c, st);
            && Granted(V4, c.site4, c.addr4, c.id, st.v4, st1.v4, lease.value.v4)
            && Granted(V6, c.site6, c.addr6, c.id, st.v6, st1.v6, lease.value.v6)
            && (c.site4.Some? || c.site6.Some?)
  {
    if c.site4.Some? {
      AddFamilyEffect(V4, env.site4, c.addr4, c.id, st.v4, st.v4.held, false);
    }
    if c.site6.Some? {
      AddFamilyEffect(V6, env.site6, c.addr6, c.id, st.v6, Add4(c, st).0.v4.held, false);
    }
  }

  /** DEL's effect on one table that held an address it may release by id or by address. */
  ghost predicate Cleared(f: Family, site: Option<Site>, t: Table, t1: Table, t2: Table)
  {
    t2 == Table(Undone(f, site, t.held), t1.cursor)
  }

  /**
   A DEL with the configuration finds what its ADD recorded, and that only: it names every
   address, or it has an id and no record of a family it does not configure bears that id.
   */
  predicate Undoable(c: Conf, st: State)
  {
    && !Mixed(c)
    && (c.addr4.None? && c.addr6.None? ==>
          && c.id != ""
          && (c.site4.None? ==> c.id !in st.v4.held.Values) && (c.site6.None? ==> c.id !in st.v6.held.Values))
  }

  /**
   Round trip: DEL with the configuration of a successful ADD takes back all that the ADD
   recorded and nothing else, leaving only the gateways and the cursors, if and only if the
   configuration is undoable in the state before.  A mixed DEL releases the explicit address
   and leaves the other one recorded.
   */
  lemma AddThenDel(env: Env, c: Conf, st: State)
    requires GoodEnv(env) && Fits(env, c) && Inv(env, st, false) && Coherent(c)
    requires Add(c, st).1.Ok?
    ensures var (st1, lease) := Add(c, st); var (st2, released) := Del(c, st1);
            && (Undoable(c, st) <==> Cleared(V4, c.site4, st.v4, st1.v4, st2.v4) && Cleared(V6, c.site6, st.v6, st1.v6, st2.v6))
            && (Undoable(c, st) ==> released == lease)
            && (Mixed(c) && c.addr4.Some? ==> released.Ok? && st2.v6 == st1.v6)
            && (Mixed(c) && c.addr6.Some? ==> released.Ok? && st2.v4 == st1.v4)
  {
    AddGrants(env, c, st);
    var (st1, lease) := Add(c, st);
    TakeBack(V4, c.site4, c.addr4, c.id, st.v4, st1.v4, lease.value.v4);
    TakeBack(V6, c.site6, c.addr6, c.id, st.v6, st1.v6, lease.value.v6);
    hide Add, TableInv, WithGateway;
    DelAfterGrant(c, st, st1, lease.value);
  }

  /** What one half granted is undone by forgetting it, and a DEL by id forgets it if the id is not empty. */
  ghost predicate Revocable(f: Family, site: Option<Site>, explicit: Option<nat>, id: string, t: Table, t1: Table, a: Option<nat>)
  {
    && Cleared(f, site, t, t1, Forget(t1, a))
    && (site.Some? <==> a.Some?) && (site.None? ==> t1 == t)
    && (a.Some? ==> !Cleared(f, site, t, t1, t1) && a.value in t1.held && (explicit.Some? ==> a == explicit))
    && (site.Some? && explicit.None? && id != "" ==> Owner(f, t1.held, id) == a)
  }

  lemma DelAfterGrant(c: Conf, st: State, st1: State, lease: Leased)
    requires Coherent(c) && (c.site4.Some? || c.site6.Some?)
    requires Revocable(V4, c.site4, c.addr4, c.id, st.v4, st1.v4, lease.v4)
    requires Revocable(V6, c.site6, c.addr6, c.id, st.v6, st1.v6, lease.v6)
    ensures var (st2, released) := Del(c, st1);
            && (Undoable(c, st) <==> Cleared(V4, c.site4, st.v4, st1.v4, st2.v4) && Cleared(V6, c.site6, st.v6, st1.v6, st2.v6))
            && (Undoable(c, st) ==> released == Ok(lease))
            && (Mixed(c) && c.addr4.Some? ==> released.Ok? && st2.v6 == st1.v6)
            && (Mixed(c) && c.addr6.Some? ==> released.Ok? && st2.v4 == st1.v4)
  {
  }

  /** Releasing what a half granted undoes it, and by id DEL finds just that. */
  lemma TakeBack(f: Family, site: Option<Site>, explicit: Option<nat>, id: string, t: Table, t1: Table, a: Option<nat>)
    requires Granted(f, site, explicit, id, t, t1, a)
    ensures Revocable(f, site, explicit, id, t, t1, a)
  {
    var owner := Owner(f, t1.held, id);
    if a.Some? {
      assert a.value in t1.held && a.value !in Undone(f, site, t.held);
      assert t1.held - {a.value} == Undone(f, site, t.held);
      if explicit.None? && id != "" {
        assert t1.held[a.value] == id && id in t1.held.Values;
        assert t1.held[owner.value] == id;
      }
    }
  }
}
