/**
 What ADD and DEL do to the store, with its text keys read back as addresses: the
 specification the commands are proved against, and the state machine the theorems
 about whole runs are about.
 */
module Allocation {
  import opened Wrappers
  import opened Types
  import opened Cycle
  import Keys

  const GATEWAY_VALUE := "GateWay"
  const GATEWAY_V6_VALUE := "GateWayV6"
  const EXPLICIT_V6_SUFFIX := "-v6"

  type Held = map<nat, string>

  /** One family's records, and the cursor its next search starts from. */
  datatype Table = Table(held: Held, cursor: Option<nat>)

  datatype State = State(v4: Table, v6: Table)

  const EMPTY_STATE := State(Table(map[], None), Table(map[], None))

  /** A configured subnet as numbers. */
  datatype Site = Site(min: nat, max: nat, pool: Pool, gateway: nat)

  /** What a command is given; an explicit address may come without its subnet. */
  datatype Conf = Conf(id: string, site4: Option<Site>, site6: Option<Site>, addr4: Option<nat>, addr6: Option<nat>)

  /** The addresses a command returned or released. */
  datatype Leased = Leased(v4: Option<nat>, v6: Option<nat>)

  function GatewayName(f: Family): string
  {
    if f == V4 then GATEWAY_VALUE else GATEWAY_V6_VALUE
  }

  /** The id an explicitly requested address is recorded under. */
  function ExplicitId(f: Family, id: string): string
  {
    if f == V4 then id else id + EXPLICIT_V6_SUFFIX
  }

  /** Record a under id, unless a is recorded or the id is in use among the scanned records. */
  function Assign(held: Held, a: nat, id: string, scanned: Held): Result<Held, Failure>
  {
    if a in held then Err(KeyExists)
    else if id != "" && id in scanned.Values then Err(IdInUse)
    else Ok(held[a := id])
  }

  /** The records Assign scans: always the IPv4 ones. */
  function Scanned(f: Family, own: Held, held4: Held): Held
  {
    if f == V4 then own else held4
  }

  function VerifyGateway(f: Family, gateway: nat, held: Held, held4: Held): Result<Held, Failure>
  {
    var value := if gateway in held then held[gateway] else "";
    if value == "" then Assign(held, gateway, GatewayName(f), Scanned(f, held, held4))
    else if value == GatewayName(f) then Ok(held)
    else Err(GatewayTaken)
  }

  /** The address a search starts from. */
  function Start(site: Site, cursor: Option<nat>): nat
  {
    if cursor.Some? then cursor.value else site.min
  }

  /** Search from the cursor; the id is looked up among the family's own records. */
  function Search(site: Site, cursor: Option<nat>, held: Held, id: string): Result<(nat, Held), Failure>
    requires site.pool.Valid()
  {
    var start := Start(site, cursor);
    if !(site.min <= start <= site.max) then Err(OutsideSubnet)
    else match FirstFree(site.pool, held.Keys, start)
         case None => Err(Exhausted)
         case Some(a) =>
           match Assign(held, a, id, held)
           case Err(e) => Err(e)
           case Ok(held') => Ok((a, held'))
  }

  function Take(f: Family, site: Site, explicit: Option<nat>, id: string, cursor: Option<nat>, held: Held, held4: Held)
    : Result<(nat, Held), Failure>
    requires site.pool.Valid()
  {
    match explicit
    case None => Search(site, cursor, held, id)
    case Some(a) =>
      match Assign(held, a, ExplicitId(f, id), Scanned(f, held, held4))
      case Err(e) => Err(e)
      case Ok(held') => Ok((a, held'))
  }

  /** One family's half of an ADD: the gateway, the address, and the cursor on success. */
  function AddFamily(f: Family, site: Site, explicit: Option<nat>, id: string, t: Table, held4: Held)
    : (Table, Result<nat, Failure>)
    requires site.pool.Valid()
  {
    match VerifyGateway(f, site.gateway, t.held, held4)
    case Err(e) => (t, Err(e))
    case Ok(held) =>
      match Take(f, site, explicit, id, t.cursor, held, held4)
      case Err(e) => (t.(held := held), Err(e))
      case Ok((a, held')) => (Table(held', Some(a)), Ok(a))
  }

  predicate ValidConf(c: Conf)
  {
    && (c.site4.Some? ==> c.site4.value.pool.Valid())
    && (c.site6.Some? ==> c.site6.value.pool.Valid())
  }

  function Add4(c: Conf, st: State): (State, Result<Option<nat>, Failure>)
    requires ValidConf(c)
  {
    match c.site4
    case None => (st, Ok(None))
    case Some(site) =>
      var (t, r) := AddFamily(V4, site, c.addr4, c.id, st.v4, st.v4.held);
      (st.(v4 := t), match r case Err(e) => Err(e) case Ok(a) => Ok(Some(a)))
  }

  function Add6(c: Conf, st: State): (State, Result<Option<nat>, Failure>)
    requires ValidConf(c)
  {
    match c.site6
    case None => (st, Ok(None))
    case Some(site) =>
      var (t, r) := AddFamily(V6, site, c.addr6, c.id, st.v6, st.v4.held);
      (st.(v6 := t), match r case Err(e) => Err(e) case Ok(a) => Ok(Some(a)))
  }

  /** ADD: the IPv4 half, then the IPv6 half; an error leaves what was already written. */
  function Add(c: Conf, st: State): (State, Result<Leased, Failure>)
    requires ValidConf(c)
  {
    var (st4, r4) := Add4(c, st);
    match r4
    case Err(e) => (st4, Err(e))
    case Ok(a4) =>
      var (st6, r6) := Add6(c, st4);
      match r6
      case Err(e) => (st6, Err(e))
      case Ok(a6) => (st6, if a4.None? && a6.None? then Err(NoSubnet) else Ok(Leased(a4, a6)))
  }

  // ---- DEL

  function Bearers(held: Held, id: string): set<nat>
  {
    set a | a in held && held[a] == id
  }

  /** The record a release by id removes: the first one listed under that id. */
  ghost function Owner(f: Family, held: Held, id: string): (r: Option<nat>)
    ensures r.None? <==> id !in held.Values
    ensures r.Some? ==> r.value in held && held[r.value] == id && Keys.ListedFirst(f, Bearers(held, id), r.value)
  {
    if Bearers(held, id) == {} then
      assert forall a :: a in held && held[a] == id ==> a in Bearers(held, id);
      None
    else
      Keys.ListedFirstExists(f, Bearers(held, id));
      var a :| Keys.ListedFirst(f, Bearers(held, id), a);
      Some(a)
  }

  /** Forget the released address and make it the cursor. */
  function Forget(t: Table, released: Option<nat>): Table
  {
    if released.Some? then Table(t.held - {released.value}, released) else t
  }

  ghost function Del(c: Conf, st: State): (State, Result<Leased, Failure>)
  {
    if c.addr4.None? && c.addr6.None? then
      if c.id == "" then (st, Err(NothingToRelease))
      else
        var a4, a6 := Owner(V4, st.v4.held, c.id), Owner(V6, st.v6.held, c.id);
        if a4.None? && a6.None? then (st, Err(UnknownId))
        else (State(Forget(st.v4, a4), Forget(st.v6, a6)), Ok(Leased(a4, a6)))
    else if c.addr4.Some? && c.addr4.value !in st.v4.held then (st, Err(NotHeld))
    else if c.addr6.Some? && c.addr6.value !in st.v6.held then
      // the IPv4 record is already gone, but its cursor is not written
      (if c.addr4.Some? then st.(v4 := st.v4.(held := st.v4.held - {c.addr4.value})) else st, Err(NotHeld))
    else (State(Forget(st.v4, c.addr4), Forget(st.v6, c.addr6)), Ok(Leased(c.addr4, c.addr6)))
  }

  // ---- runs

  datatype Command = ADD(conf: Conf) | DEL(conf: Conf)

  ghost function Step(st: State, cmd: Command): (State, Result<Leased, Failure>)
    requires ValidConf(cmd.conf)
  {
    match cmd
    case ADD(c) => Add(c, st)
    case DEL(c) => Del(c, st)
  }

  ghost predicate ValidRun(cmds: seq<Command>)
  {
    forall i :: 0 <= i < |cmds| ==> ValidConf(cmds[i].conf)
  }

  /** The state after a run of commands. */
  ghost function Run(st: State, cmds: seq<Command>): State
    requires ValidRun(cmds)
    decreases |cmds|
  {
    if cmds == [] then st
    else Step(Run(st, cmds[..|cmds| - 1]), cmds[|cmds| - 1]).0
  }

  /** What the i-th command of a run answered. */
  ghost function Answer(st: State, cmds: seq<Command>, i: nat): Result<Leased, Failure>
    requires ValidRun(cmds) && i < |cmds|
  {
    Step(Run(st, cmds[..i]), cmds[i]).1
  }
}
