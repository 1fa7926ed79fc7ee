/** The replies that the processes of a session print are what the specification's run leases. */
module Sessions {
  import opened Wrappers
  import opened Types
  import opened Bytes
  import opened Subnets
  import opened Config
  import opened IPStore
  import opened Allocation
  import opened Runs
  import opened RunTheorems
  import opened LeaseTheorems
  import opened Commands
  import opened CommandRefinement
  import opened StoreRuns
  import opened Refinement

  /** The address an ADD replies with is the one its specification leases. */
  lemma ReportedLease(f: Family, net: IPNet, gateway: IP, asked: Option<IPNet>, a: nat)
    requires SoundFamily(f, net, gateway) && HostPool(f, net).Host(a)
    requires asked.Some? ==> a == Value(asked.value.ip)
    ensures Value(Reported(f, asked, net, a).ip) == a
  {
    hide Value, Spell;
    HostPoolShape(f, net);
    AddressWithin(f, net, a);
  }

  lemma EntryIsLease(env: Env, conf: IPAMConfig, st: State, entry: IPConfig)
    requires Deployed(env, conf) && Inv(env, st, false) && Add(ConfOf(conf), st).1.Ok?
    requires var l := Add(ConfOf(conf), st).1.value;
             && (l.v4.Some? ==> conf.ipv4Subnet.Some?) && (l.v6.Some? ==> conf.ipv6Subnet.Some?)
             && entry in ResultFor(conf, l)
    ensures LeaseOf(Add(ConfOf(conf), st).1.value, entry.family) == Some(Value(entry.address.ip))
  {
    hide Add, SoundFamily, Value, Reported, TableInv, WithGateway;
    var l := Add(ConfOf(conf), st).1.value;
    AddGrants(env, ConfOf(conf), st);
    AddEffect(env, ConfOf(conf), st, entry.family);
    if entry.family == V4 {
      ReportedLease(V4, conf.ipv4Subnet.value, conf.ipv4Gateway, conf.ipv4Address, l.v4.value);
    } else {
      ReportedLease(V6, conf.ipv6Subnet.value, conf.ipv6Gateway, conf.ipv6Address, l.v6.value);
    }
  }

  /** An address that a session hands out is the one its command leases in the specification's run. */
  lemma HandedIsLeased(env: Env, reqs: seq<Request>, i: nat, entry: IPConfig)
    requires GoodEnv(env) && AllDeployed(env, reqs) && i < |reqs|
    requires AllUsable(reqs) && HandedOut(map[], reqs, i, entry)
    ensures ValidRun(CommandsOf(env, reqs)) && CommandsOf(env, reqs)[i].ADD?
    ensures var r := Answer(EMPTY_STATE, CommandsOf(env, reqs), i);
            r.Ok? && LeaseOf(r.value, entry.family) == Some(Value(entry.address.ip))
  {
    hide Value, Add, TableInv, ResultFor, Run, Fits, Sound, Represents, RunData, StepData;
    var cmds := CommandsOf(env, reqs);
    SessionRefines(env, reqs);
    CommandsOfPrefix(env, reqs, i);
    RunKeeps(env, EMPTY_STATE, cmds[..i], false);
    EntryIsLease(env, reqs[i].conf, Run(EMPTY_STATE, cmds[..i]), entry);
  }
}
