/**
 Any number of plugin processes creating and addressing one bridge at once: each step is
 one netlink call of one process, and the kernel may assign link-local addresses between.
 */
module BridgeRace {
  import opened Wrappers
  import opened Types
  import opened Subnets
  import opened Networks
  import opened Bridge
  import opened BridgeTheorems

  /** Where a process is: the call it makes next, or how it ended. */
  datatype PC =
    | Lookup             // CreateBridge's first lookup
    | Creating           // LinkAdd
    | SettingMAC         // LinkSetHardwareAddr, by the process whose LinkAdd succeeded
    | LookupAgain
    | SettingUp          // LinkSetUp
    | Listing(i: nat)    // ConfigureBridge, entry i: AddrList and the decision on it
    | Assigning(i: nat)  // entry i: AddrAdd
    | Done
    | Failed(error: BridgeError)

  datatype Proc = Proc(pc: PC, mtu: int, mac: MAC, cs: seq<IPConfig>)

  /** The link of the bridge's name, how many LinkAdds succeeded, and the processes. */
  datatype World = World(link: Option<Link>, adds: nat, procs: seq<Proc>)

  datatype Event =
    | Turn(p: nat, denied: bool)   // process p's next call; denied: it fails for a reason of its own
    | Autoconfigure(a: IPNet)      // the kernel gives the bridge a link-local address

  predicate Ended(pc: PC)
  {
    pc.Done? || pc.Failed?
  }

  /** The call for entry i, or the end when there is none. */
  function Entry(p: Proc, i: nat): PC
  {
    if i < |p.cs| then Listing(i) else Done
  }

  /** What a lookup leads to: `next` when the bridge is found, `absent` when nothing is. */
  function Found(link: Option<Link>, absent: PC, next: PC): PC
  {
    match link
    case None => absent
    case Some(l) => if l.kind == BridgeLink then next else Failed(NotABridge)
  }

  /** One call of a process that is not denied: the link afterwards, and where the process goes. */
  ghost function Call(link: Option<Link>, p: Proc): (Option<Link>, PC)
  {
    match p.pc
    case Lookup => (link, Found(link, Creating, SettingUp))
    case Creating =>
      if link.Some? then (link, LookupAgain) else (Some(Link(BridgeLink, p.mtu, None, false, {})), SettingMAC)
    case SettingMAC =>
      if link.None? then (link, Failed(CallFailed)) else (Some(link.value.(mac := Some(p.mac))), LookupAgain)
    case LookupAgain => (link, Found(link, Failed(NilBridge), SettingUp))
    case SettingUp =>
      if link.None? then (link, Failed(CallFailed)) else (Some(link.value.(up := true)), Entry(p, 0))
    case Listing(i) =>
      if link.None? || i >= |p.cs| then (link, Failed(CallFailed))
      else
        (link, match Decide(link.value.addrs, p.cs[i])
               case Skip => Entry(p, i + 1)
               case Refuse => Failed(Mismatch)
               case Assign => Assigning(i))
    case Assigning(i) =>
      if link.None? || i >= |p.cs| then (link, Failed(CallFailed))
      else (Some(link.value.(addrs := Added(link.value.addrs, Target(p.cs[i])))), Entry(p, i + 1))
    case _ => (link, p.pc)
  }

  /** A link-local address as the kernel assigns it. */
  predicate KernelAssigned(a: IPNet)
  {
    Proper(a) && |a.ip| == 16 && LinkLocal(a.ip) && a.ones == 64
  }

  ghost function Step(w: World, e: Event): World
  {
    match e
    case Autoconfigure(a) =>
      if w.link.None? || !KernelAssigned(a) then w
      else w.(link := Some(w.link.value.(addrs := Added(w.link.value.addrs, a))))
    case Turn(p, denied) =>
      if p >= |w.procs| || Ended(w.procs[p].pc) then w
      else if denied then w.(procs := w.procs[p := w.procs[p].(pc := Failed(CallFailed))])
      else
        var (link, pc) := Call(w.link, w.procs[p]);
        World(link, w.adds + (if w.link.None? && link.Some? then 1 else 0), w.procs[p := w.procs[p].(pc := pc)])
  }

  ghost function Execute(w: World, schedule: seq<Event>): World
    decreases |schedule|
  {
    if schedule == [] then w
    else Step(Execute(w, schedule[..|schedule| - 1]), schedule[|schedule| - 1])
  }

  // ---- what every interleaving keeps

  /** The one address per family that the processes agree on. */
  datatype Plan = Plan(v4: IPNet, v6: IPNet)

  function Planned(plan: Plan, f: Family): IPNet
  {
    if f == V4 then plan.v4 else plan.v6
  }

  predicate Agrees(plan: Plan, c: IPConfig)
  {
    Matched(c) && Target(c) == Planned(plan, FamilyOf(c.address.ip))
  }

  ghost predicate AllAgree(plan: Plan, cs: seq<IPConfig>)
  {
    forall i :: 0 <= i < |cs| ==> Agrees(plan, cs[i])
  }

  ghost predicate AddressesAsPlanned(plan: Plan, addrs: set<IPNet>)
  {
    forall a :: a in addrs ==> KernelAssigned(a) || (Proper(a) && a == Planned(plan, FamilyOf(a.ip)))
  }

  /** A bridge, or nothing yet, with none but planned and kernel-assigned addresses. */
  ghost predicate LinkAsPlanned(plan: Plan, link: Option<Link>)
  {
    link.Some? ==> link.value.kind == BridgeLink && AddressesAsPlanned(plan, link.value.addrs)
  }

  /** The first i entries' addresses are on the bridge. */
  ghost predicate Settled(link: Option<Link>, cs: seq<IPConfig>, i: nat)
  {
    link.Some? && i <= |cs| && forall j :: 0 <= j < i ==> Target(cs[j]) in link.value.addrs
  }

  /** What a process has achieved by where it is. */
  ghost predicate Reached(link: Option<Link>, p: Proc)
  {
    match p.pc
    case Lookup => true
    case Creating => true
    case SettingMAC => link.Some? && link.value.mac.None?
    case LookupAgain => link.Some?
    case SettingUp => link.Some?
    case Listing(i) => i < |p.cs| && Settled(link, p.cs, i) && link.value.up
    case Assigning(i) => i < |p.cs| && Settled(link, p.cs, i) && link.value.up
    case Done => Settled(link, p.cs, |p.cs|) && link.value.up
    case Failed(e) => e == CallFailed
  }

  ghost predicate AllReached(w: World)
  {
    forall p :: 0 <= p < |w.procs| ==> Reached(w.link, w.procs[p])
  }

  /** The process that made the link is the only one to set its hardware address. */
  ghost predicate OneCreator(w: World)
  {
    forall p, q :: 0 <= p < |w.procs| && 0 <= q < |w.procs| && w.procs[p].pc == w.procs[q].pc == SettingMAC ==> p == q
  }

  ghost predicate Consistent(plan: Plan, w: World)
  {
    && LinkAsPlanned(plan, w.link)
    && (forall p :: 0 <= p < |w.procs| ==> AllAgree(plan, w.procs[p].cs))
    && AllReached(w) && OneCreator(w)
  }

  /** The link only gains: its kind stays, addresses stay, and so does a hardware address once set. */
  ghost predicate Grows(before: Option<Link>, after: Option<Link>)
  {
    before.Some? ==>
      && after.Some? && after.value.kind == before.value.kind && after.value.mtu == before.value.mtu
      && (before.value.mac.Some? ==> after.value.mac == before.value.mac)
      && (before.value.up ==> after.value.up)
      && before.value.addrs <= after.value.addrs
  }

  /** Under the plan, deciding never refuses and adding really adds. */
  lemma PlannedDecision(plan: Plan, addrs: set<IPNet>, c: IPConfig)
    requires AddressesAsPlanned(plan, addrs) && Agrees(plan, c)
    ensures Decide(addrs, c) == if Target(c) in addrs then Skip else Assign
    ensures Added(addrs, Target(c)) == addrs + {Target(c)}
    ensures AddressesAsPlanned(plan, addrs + {Target(c)})
  {
    TargetIsProper(c);
    LinkLocalTarget(c);
    hide Target;
  }

  /** One call keeps the plan, gets its process where it should be, and only adds to the link. */
  lemma CallKeeps(plan: Plan, link: Option<Link>, p: Proc)
    requires LinkAsPlanned(plan, link) && AllAgree(plan, p.cs) && Reached(link, p)
    ensures var (link', pc) := Call(link, p);
            && LinkAsPlanned(plan, link') && Reached(link', p.(pc := pc)) && Grows(link, link')
            && (pc == SettingMAC ==> link.None?)
            && (link.Some? && p.pc != SettingMAC ==> link'.value.mac == link.value.mac)
  {
    hide Agrees, Decide, Added, KernelAssigned;
    match p.pc {
      case Listing(i) => PlannedDecision(plan, link.value.addrs, p.cs[i]);
      case Assigning(i) => PlannedDecision(plan, link.value.addrs, p.cs[i]);
      case _ =>
    }
  }

  /** The others stay where they are, unless the hardware address they were to set is set. */
  lemma OthersStay(link: Option<Link>, link': Option<Link>, q: Proc)
    requires Reached(link, q) && Grows(link, link')
    requires q.pc == SettingMAC ==> link'.Some? && link'.value.mac.None?
    ensures Reached(link', q)
  {
  }

  lemma KernelKeeps(plan: Plan, w: World, a: IPNet)
    requires Consistent(plan, w)
    ensures var w' := Step(w, Autoconfigure(a)); Consistent(plan, w') && Grows(w.link, w'.link) && w'.adds == w.adds
  {
    hide KernelAssigned, AllAgree;
    var w' := Step(w, Autoconfigure(a));
    forall q | 0 <= q < |w.procs|
      ensures Reached(w'.link, w'.procs[q])
    {
      OthersStay(w.link, w'.link, w.procs[q]);
    }
  }

  /** The link added exactly when there was none. */
  ghost predicate Counted(w: World, w': World)
  {
    w'.adds == w.adds + if w.link.None? && w'.link.Some? then 1 else 0
  }

  lemma TurnKeeps(plan: Plan, w: World, p: nat, denied: bool)
    requires Consistent(plan, w)
    ensures var w' := Step(w, Turn(p, denied)); Consistent(plan, w') && Grows(w.link, w'.link) && Counted(w, w')
  {
    hide AllAgree, LinkAsPlanned;
    var w' := Step(w, Turn(p, denied));
    if p < |w.procs| && !Ended(w.procs[p].pc) && !denied {
      CallKeeps(plan, w.link, w.procs[p]);
      hide Call, Grows, Reached;
      forall q | 0 <= q < |w.procs|
        ensures Reached(w'.link, w'.procs[q])
      {
        if q != p {
          CreatorWaits(w, p, q, w'.link);
          OthersStay(w.link, w'.link, w.procs[q]);
        }
      }
      NoOtherCreator(w, w', p);
    }
  }

  /** A process that is to set the hardware address finds it unset after any other's call. */
  lemma CreatorWaits(w: World, p: nat, q: nat, link: Option<Link>)
    requires p < |w.procs| && q < |w.procs| && p != q && AllReached(w) && OneCreator(w)
    requires Grows(w.link, link) && (w.link.Some? && w.procs[p].pc != SettingMAC ==> link.value.mac == w.link.value.mac)
    ensures w.procs[q].pc == SettingMAC ==> link.Some? && link.value.mac.None?
  {
    assert Reached(w.link, w.procs[q]);
  }

  lemma NoOtherCreator(w: World, w': World, p: nat)
    requires p < |w.procs| && AllReached(w) && OneCreator(w)
    requires |w'.procs| == |w.procs| && w'.procs == w.procs[p := w'.procs[p]] && (w'.procs[p].pc == SettingMAC ==> w.link.None?)
    ensures OneCreator(w')
  {
    forall q | 0 <= q < |w.procs| && w.procs[q].pc == SettingMAC
      ensures w.link.Some?
    {
      assert Reached(w.link, w.procs[q]);
    }
  }

  lemma StepKeeps(plan: Plan, w: World, e: Event)
    requires Consistent(plan, w)
    ensures var w' := Step(w, e); Consistent(plan, w') && Grows(w.link, w'.link) && Counted(w, w')
  {
    match e {
      case Turn(p, denied) => TurnKeeps(plan, w, p, denied);
      case Autoconfigure(a) => KernelKeeps(plan, w, a);
    }
  }

  lemma {:induction false} ExecutionKeeps(plan: Plan, w: World, schedule: seq<Event>)
    requires Consistent(plan, w)
    ensures var w' := Execute(w, schedule); Consistent(plan, w') && Grows(w.link, w'.link) && Counted(w, w')
    decreases |schedule|
  {
    hide Consistent, Step;
    if schedule != [] {
      var n := |schedule| - 1;
      ExecutionKeeps(plan, w, schedule[..n]);
      StepKeeps(plan, Execute(w, schedule[..n]), schedule[n]);
    }
  }

  // ---- progress

  /** A bound on the calls a process has still to make. */
  function Remaining(p: Proc): nat
  {
    match p.pc
    case Lookup => 5 + 2 * |p.cs|
    case Creating => 4 + 2 * |p.cs|
    case SettingMAC => 3 + 2 * |p.cs|
    case LookupAgain => 2 + 2 * |p.cs|
    case SettingUp => 1 + 2 * |p.cs|
    case Listing(i) => if i < |p.cs| then 2 * (|p.cs| - i) else 1
    case Assigning(i) => if i < |p.cs| then 2 * (|p.cs| - i) - 1 else 1
    case _ => 0
  }

  function TurnsOf(schedule: seq<Event>, p: nat): nat
  {
    if schedule == [] then 0
    else
      TurnsOf(schedule[..|schedule| - 1], p)
      + match schedule[|schedule| - 1] case Turn(q, _) => if q == p then 1 else 0 case _ => 0
  }

  lemma CallCounts(link: Option<Link>, p: Proc)
    requires !Ended(p.pc)
    ensures Remaining(p.(pc := Call(link, p).1)) < Remaining(p)
  {
    hide Decide, Added, Target;
  }

  lemma TurnCounts(w: World, e: Event, p: nat)
    requires p < |w.procs|
    ensures var w' := Step(w, e);
            && |w'.procs| == |w.procs| && w'.procs[p] == w.procs[p].(pc := w'.procs[p].pc)
            && (e.Turn? && e.p == p && !Ended(w.procs[p].pc) ==> Remaining(w'.procs[p]) < Remaining(w.procs[p]))
            && (!e.Turn? || e.p != p || Ended(w.procs[p].pc) ==> w'.procs[p] == w.procs[p])
  {
    if !Ended(w.procs[p].pc) {
      CallCounts(w.link, w.procs[p]);
    }
    hide Call, KernelAssigned;
  }

  /**
   No process ever waits for another: whatever the others do, after as many turns as the
   calls it has to make a process has ended.
   */
  lemma {:induction false} WaitFree(w: World, schedule: seq<Event>, p: nat)
    requires p < |w.procs|
    ensures var w' := Execute(w, schedule);
            && |w'.procs| == |w.procs| && w'.procs[p] == w.procs[p].(pc := w'.procs[p].pc)
            && (Ended(w'.procs[p].pc) || Remaining(w'.procs[p]) + TurnsOf(schedule, p) <= Remaining(w.procs[p]))
            && (TurnsOf(schedule, p) >= Remaining(w.procs[p]) ==> Ended(w'.procs[p].pc))
    decreases |schedule|
  {
    hide Step;
    if schedule != [] {
      var n := |schedule| - 1;
      WaitFree(w, schedule[..n], p);
      TurnCounts(Execute(w, schedule[..n]), schedule[n], p);
    }
    assert Remaining(Execute(w, schedule).procs[p]) == 0 ==> Ended(Execute(w, schedule).procs[p].pc);
  }

  // ---- convergence

  ghost predicate Started(plan: Plan, w: World)
  {
    && LinkAsPlanned(plan, w.link)
    && forall p :: 0 <= p < |w.procs| ==> w.procs[p].pc == Lookup && AllAgree(plan, w.procs[p].cs)
  }

  /** A process whose calls are never denied does not fail. */
  lemma {:induction false} FailsOnlyByDenial(plan: Plan, w: World, schedule: seq<Event>, p: nat)
    requires Consistent(plan, w) && p < |w.procs| && !w.procs[p].pc.Failed? && Turn(p, true) !in schedule
    ensures p < |Execute(w, schedule).procs| && !Execute(w, schedule).procs[p].pc.Failed?
    decreases |schedule|
  {
    hide Decide, Added, KernelAssigned, Target, AllAgree;
    if schedule != [] {
      var n := |schedule| - 1;
      FailsOnlyByDenial(plan, w, schedule[..n], p);
      ExecutionKeeps(plan, w, schedule[..n]);
      var before := Execute(w, schedule[..n]);
      assert schedule[n] in schedule;
      DoesNotFail(plan, before, schedule[n], p);
    }
  }

  lemma DoesNotFail(plan: Plan, w: World, e: Event, p: nat)
    requires Consistent(plan, w) && p < |w.procs| && !w.procs[p].pc.Failed? && e != Turn(p, true)
    ensures p < |Step(w, e).procs| && !Step(w, e).procs[p].pc.Failed?
  {
    TurnCounts(w, e, p);
    if e.Turn? && e.p == p {
      NoRaceFailure(plan, w.link, w.procs[p]);
    }
  }

  lemma NoRaceFailure(plan: Plan, link: Option<Link>, p: Proc)
    requires LinkAsPlanned(plan, link) && AllAgree(plan, p.cs) && Reached(link, p) && !p.pc.Failed?
    ensures !Call(link, p).1.Failed?
  {
    hide Agrees, Decide, Added, KernelAssigned;
    if p.pc.Listing? {
      PlannedDecision(plan, link.value.addrs, p.cs[p.pc.i]);
    }
  }

  /**
   Convergence, under any interleaving: at most one LinkAdd succeeds; a process fails only
   if one of its own calls is denied; a process that gets its turns ends; and once one is
   done, an up bridge carries every address its result asks for, beside which there is
   nothing but the plan's addresses and kernel-assigned ones.
   */
  lemma Convergence(plan: Plan, w: World, schedule: seq<Event>, p: nat)
    requires Started(plan, w) && p < |w.procs|
    ensures var w' := Execute(w, schedule);
            && w'.adds <= w.adds + 1 && (w'.adds > w.adds <==> w.link.None? && w'.link.Some?)
            && Grows(w.link, w'.link) && LinkAsPlanned(plan, w'.link)
            && |w'.procs| == |w.procs|
            && (Turn(p, true) !in schedule && TurnsOf(schedule, p) >= 5 + 2 * |w.procs[p].cs| ==> w'.procs[p].pc == Done)
            && (w'.procs[p].pc == Done ==>
                  && w'.link.Some? && w'.link.value.up && w'.link.value.kind == BridgeLink
                  && forall i :: 0 <= i < |w.procs[p].cs| ==>
                       Carries(w'.link.value.addrs, Target(w.procs[p].cs[i])))
  {
    assert Consistent(plan, w);
    ExecutionKeeps(plan, w, schedule);
    WaitFree(w, schedule, p);
    if Turn(p, true) !in schedule {
      FailsOnlyByDenial(plan, w, schedule, p);
    }
    var w' := Execute(w, schedule);
    hide Execute, Target;
    assert Reached(w'.link, w'.procs[p]);
    if w'.procs[p].pc == Done {
      forall i | 0 <= i < |w.procs[p].cs|
        ensures Carries(w'.link.value.addrs, Target(w.procs[p].cs[i]))
      {
        CarriesPlanned(plan, w'.link.value.addrs, w.procs[p].cs[i]);
      }
    }
  }

  /** The address is on the bridge, the only one of its family but for kernel-assigned ones. */
  ghost predicate Carries(addrs: set<IPNet>, t: IPNet)
  {
    t in addrs && forall a :: a in addrs && FamilyOf(a.ip) == FamilyOf(t.ip) ==> a == t || KernelAssigned(a)
  }

  lemma CarriesPlanned(plan: Plan, addrs: set<IPNet>, c: IPConfig)
    requires AddressesAsPlanned(plan, addrs) && Agrees(plan, c) && Target(c) in addrs
    ensures Carries(addrs, Target(c))
  {
    TargetIsProper(c);
    hide Target, KernelAssigned;
  }

  // ---- the hardware address of a new bridge

  /** A bridge without a hardware address has a creator still to set it, or one that failed before. */
  ghost predicate MACPending(w: World)
  {
    w.link.Some? && w.link.value.mac.None? ==>
      exists p :: 0 <= p < |w.procs| && (w.procs[p].pc == SettingMAC || w.procs[p].pc.Failed?)
  }

  lemma TurnKeepsMAC(w: World, e: Event)
    requires MACPending(w)
    ensures MACPending(Step(w, e))
  {
    hide Decide, Added, Target, KernelAssigned;
    var w' := Step(w, e);
    if w'.link.Some? && w'.link.value.mac.None? {
      if w.link.Some? && w.link.value.mac.None? {
        var p :| 0 <= p < |w.procs| && (w.procs[p].pc == SettingMAC || w.procs[p].pc.Failed?);
        assert w'.procs[p].pc == SettingMAC || w'.procs[p].pc.Failed?;
      } else {
        assert w'.procs[e.p].pc == SettingMAC;
      }
    }
  }

  lemma {:induction false} ExecutionKeepsMAC(w: World, schedule: seq<Event>)
    requires MACPending(w)
    ensures MACPending(Execute(w, schedule))
    decreases |schedule|
  {
    hide MACPending, Step;
    if schedule != [] {
      var n := |schedule| - 1;
      ExecutionKeepsMAC(w, schedule[..n]);
      TurnKeepsMAC(Execute(w, schedule[..n]), schedule[n]);
    }
  }

  /** When every process has ended and none was denied, a new bridge has its static hardware address. */
  lemma MACIsSet(plan: Plan, w: World, schedule: seq<Event>)
    requires Started(plan, w) && w.link.None? && Execute(w, schedule).link.Some?
    requires forall p: nat :: p < |w.procs| ==> Turn(p, true) !in schedule
    requires forall p :: 0 <= p < |Execute(w, schedule).procs| ==> Ended(Execute(w, schedule).procs[p].pc)
    ensures Execute(w, schedule).link.value.mac.Some?
  {
    assert Consistent(plan, w);
    hide Execute, Started;
    var w' := Execute(w, schedule);
    ExecutionKeepsMAC(w, schedule);
    if w'.link.value.mac.None? {
      var p :| 0 <= p < |w'.procs| && (w'.procs[p].pc == SettingMAC || w'.procs[p].pc.Failed?);
      NumberOfProcesses(w, schedule);
      FailsOnlyByDenial(plan, w, schedule, p);
      assert false;
    }
  }

  lemma {:induction false} NumberOfProcesses(w: World, schedule: seq<Event>)
    ensures |Execute(w, schedule).procs| == |w.procs|
    decreases |schedule|
  {
    hide Call, KernelAssigned;
    if schedule != [] {
      NumberOfProcesses(w, schedule[..|schedule| - 1]);
    }
  }

  /** The first process makes the bridge and pauses; the second takes turns until it must have ended. */
  function PausedCreator(turns: nat): seq<Event>
  {
    if turns == 0 then [Turn(0, false), Turn(0, false)] else PausedCreator(turns - 1) + [Turn(1, false)]
  }

  lemma {:induction false} CreatorPauses(w: World, turns: nat)
    requires |w.procs| >= 2 && w.link.None? && w.procs[0].pc == Lookup
    ensures |Execute(w, PausedCreator(turns)).procs| == |w.procs| && Execute(w, PausedCreator(turns)).procs[0].pc == SettingMAC
    ensures TurnsOf(PausedCreator(turns), 1) == turns
    ensures forall p: nat :: Turn(p, true) !in PausedCreator(turns)
  {
    var schedule := PausedCreator(turns);
    if turns == 0 {
      var first, second := Turn(0, false), Turn(0, false);
      assert schedule == [first, second] && schedule[..1] == [first] && [first][..0] == [];
      assert Execute(w, []) == w && TurnsOf([], 1) == 0;
      assert Execute(w, [first]) == Step(w, first) && TurnsOf([first], 1) == 0;
    } else {
      CreatorPauses(w, turns - 1);
      assert schedule[..|schedule| - 1] == PausedCreator(turns - 1);
      hide Step, PausedCreator;
      TurnCounts(Execute(w, schedule[..|schedule| - 1]), Turn(1, false), 0);
      StepKeepsProcesses(Execute(w, schedule[..|schedule| - 1]), Turn(1, false));
    }
  }

  lemma StepKeepsProcesses(w: World, e: Event)
    ensures |Step(w, e).procs| == |w.procs|
  {
    hide Call, KernelAssigned;
  }

  /** Being done promises nothing of it: beside a creator that pauses, any other process can finish first. */
  lemma DoneBeforeMAC(plan: Plan, w: World) returns (schedule: seq<Event>)
    requires Started(plan, w) && |w.procs| >= 2 && w.link.None?
    ensures var w' := Execute(w, schedule);
            |w'.procs| == |w.procs| && w'.procs[1].pc == Done && w'.link.Some? && w'.link.value.mac.None?
  {
    var turns := 5 + 2 * |w.procs[1].cs|;
    schedule := PausedCreator(turns);
    assert w.procs[0].pc == Lookup && Consistent(plan, w);
    CreatorPauses(w, turns);
    hide Execute, PausedCreator, Started, Carries;
    Convergence(plan, w, schedule, 1);
    ExecutionKeeps(plan, w, schedule);
    assert Reached(Execute(w, schedule).link, Execute(w, schedule).procs[0]);
  }

  // ---- the steps of one process, and of two that disagree

  ghost function Alone(w: World, p: nat, n: nat): World
  {
    if n == 0 then w else Step(Alone(w, p, n - 1), Turn(p, false))
  }

  /** Process p of the world w, with the link and the position given. */
  function Put(w: World, p: nat, link: Option<Link>, adds: nat, pc: PC): World
    requires p < |w.procs|
  {
    World(link, adds, w.procs[p := w.procs[p].(pc := pc)])
  }

  /** Where ConfigureBridge ends. */
  function EndOf(r: Result<(), BridgeError>): PC
  {
    if r.Ok? then Done else Failed(r.error)
  }

  lemma {:induction false} AloneOnwards(w: World, p: nat, n: nat, m: nat)
    ensures Alone(Alone(w, p, n), p, m) == Alone(w, p, n + m)
    decreases m
  {
    hide Step;
    if m > 0 {
      AloneOnwards(w, p, n, m - 1);
    }
  }

  /** Entry i, by one or two calls. */
  lemma AloneEntry(w: World, p: nat, l: Link, adds: nat, i: nat) returns (m: nat)
    requires p < |w.procs| && i < |w.procs[p].cs|
    ensures var (addrs, r) := ConfigureOne(l.addrs, w.procs[p].cs[i]);
            Alone(Put(w, p, Some(l), adds, Listing(i)), p, m)
            == Put(w, p, Some(l.(addrs := addrs)), adds, if r.Ok? then Entry(w.procs[p], i + 1) else Failed(r.error))
  {
    hide Target;
    var c, w1 := w.procs[p].cs[i], Put(w, p, Some(l), adds, Listing(i));
    assert Alone(w1, p, 1) == Step(w1, Turn(p, false));
    m := if Decide(l.addrs, c) == Assign then 2 else 1;
    assert Alone(w1, p, 2) == Step(Alone(w1, p, 1), Turn(p, false));
  }

  /** The entries from i on. */
  lemma AloneConfigures(w: World, p: nat, l: Link, adds: nat, i: nat) returns (m: nat)
    requires p < |w.procs| && i <= |w.procs[p].cs| && Configure(l.addrs, w.procs[p].cs[..i]).1.Ok?
    ensures var before := Configure(l.addrs, w.procs[p].cs[..i]).0; var (after, r) := Configure(l.addrs, w.procs[p].cs);
            Alone(Put(w, p, Some(l.(addrs := before)), adds, Entry(w.procs[p], i)), p, m)
            == Put(w, p, Some(l.(addrs := after)), adds, EndOf(r))
    decreases |w.procs[p].cs| - i
  {
    hide Step, ConfigureOne;
    var cs := w.procs[p].cs;
    if i == |cs| {
      assert cs[..i] == cs;
      m := 0;
    } else {
      assert cs[..i + 1][..i] == cs[..i];
      FailsFrom(l.addrs, cs, i);
      var now := l.(addrs := Configure(l.addrs, cs[..i]).0);
      var n := AloneEntry(w, p, now, adds, i);
      var k := 0;
      if Configure(l.addrs, cs[..i + 1]).1.Ok? {
        k := AloneConfigures(w, p, l, adds, i + 1);
      }
      AloneOnwards(Put(w, p, Some(now), adds, Listing(i)), p, n, k);
      m := n + k;
    }
  }

  /** The calls that make up CreateBridge. */
  lemma AloneCreates(w: World, p: nat) returns (m: nat)
    requires p < |w.procs| && w.procs[p].pc == Lookup
    ensures var (link, r) := Create(w.link, w.procs[p].mtu, w.procs[p].mac);
            Alone(w, p, m) == Put(w, p, link, w.adds + if w.link.None? then 1 else 0,
                                  if r.Ok? then Entry(w.procs[p], 0) else Failed(r.error))
  {
    hide Alone, Put, Decide, Added, Target;
    var proc := w.procs[p];
    AloneNone(w, p);
    AloneTurn(w, p, 0, w.link, w.adds, Lookup);
    match w.link {
      case None =>
        var made := Link(BridgeLink, proc.mtu, None, false, {});
        var named := made.(mac := Some(proc.mac));
        AloneTurn(w, p, 1, None, w.adds, Creating);
        AloneTurn(w, p, 2, Some(made), w.adds + 1, SettingMAC);
        AloneTurn(w, p, 3, Some(named), w.adds + 1, LookupAgain);
        AloneTurn(w, p, 4, Some(named), w.adds + 1, SettingUp);
        m := 5;
      case Some(l) =>
        if l.kind == BridgeLink {
          AloneTurn(w, p, 1, w.link, w.adds, SettingUp);
        }
        m := if l.kind == BridgeLink then 2 else 1;
    }
  }

  lemma AloneNone(w: World, p: nat)
    requires p < |w.procs|
    ensures Alone(w, p, 0) == Put(w, p, w.link, w.adds, w.procs[p].pc)
  {
  }

  lemma AloneTurn(w: World, p: nat, n: nat, link: Option<Link>, adds: nat, pc: PC)
    requires p < |w.procs| && Alone(w, p, n) == Put(w, p, link, adds, pc) && !Ended(pc)
    ensures var (link', pc') := Call(link, w.procs[p].(pc := pc));
            Alone(w, p, n + 1) == Put(w, p, link', adds + (if link.None? && link'.Some? then 1 else 0), pc')
  {
    hide Call;
  }

  /** A process with the kernel to itself does what CreateBridge and ConfigureBridge do in sequence. */
  lemma AloneIsSequential(w: World, p: nat) returns (m: nat)
    requires p < |w.procs| && w.procs[p].pc == Lookup
    ensures var proc := w.procs[p]; var (link, r) := Create(w.link, proc.mtu, proc.mac);
            var w' := Alone(w, p, m);
            match r
            case Err(e) => w'.link == link && w'.procs == w.procs[p := proc.(pc := Failed(e))]
            case Ok(l) =>
              var (addrs, out) := Configure(l.addrs, proc.cs);
              w'.link == Some(l.(addrs := addrs)) && w'.procs == w.procs[p := proc.(pc := EndOf(out))]
  {
    hide Step, Configure;
    var (link, r) := Create(w.link, w.procs[p].mtu, w.procs[p].mac);
    var n := AloneCreates(w, p);
    var k := 0;
    if r.Ok? {
      EmptyConfigure(r.value.addrs, w.procs[p].cs);
      k := AloneConfigures(w, p, r.value, w.adds + if w.link.None? then 1 else 0, 0);
    }
    AloneOnwards(w, p, n, k);
    m := n + k;
  }

  lemma EmptyConfigure(addrs: set<IPNet>, cs: seq<IPConfig>)
    ensures Configure(addrs, cs[..0]) == (addrs, Ok(()))
  {
  }

  /** One turn each, the first process first. */
  ghost function Both(w: World): World
  {
    Step(Step(w, Turn(0, false)), Turn(1, false))
  }

  const TURN_ABOUT := [Turn(0, false), Turn(1, false), Turn(0, false), Turn(1, false),
                       Turn(0, false), Turn(1, false), Turn(0, false), Turn(1, false)]

  lemma TwoTurns(w: World, n: nat)
    requires n <= 3
    ensures Execute(w, TURN_ABOUT[..2 * n + 2]) == Both(Execute(w, TURN_ABOUT[..2 * n]))
  {
    hide Step;
    assert TURN_ABOUT[..2 * n + 2][..2 * n + 1] == TURN_ABOUT[..2 * n + 1];
    assert TURN_ABOUT[..2 * n + 1][..2 * n] == TURN_ABOUT[..2 * n];
    assert TURN_ABOUT[2 * n] == Turn(0, false) && TURN_ABOUT[2 * n + 1] == Turn(1, false);
  }

  lemma BothCalls(link: Option<Link>, adds: nat, p: Proc, q: Proc)
    requires link.Some? && !Ended(p.pc) && !Ended(q.pc)
    ensures var (link1, pc1) := Call(link, p); var (link2, pc2) := Call(link1, q);
            && link1.Some? && link2.Some?
            && Both(World(link, adds, [p, q])) == World(link2, adds, [p.(pc := pc1), q.(pc := pc2)])
  {
    CallKeepsLink(link, p);
    CallKeepsLink(Call(link, p).0, q);
    hide Call;
    var pc1 := Call(link, p).1;
    assert [p, q][0 := p.(pc := pc1)] == [p.(pc := pc1), q];
    assert [p.(pc := pc1), q][1] == q;
  }

  lemma CallKeepsLink(link: Option<Link>, p: Proc)
    requires link.Some?
    ensures Call(link, p).0.Some?
  {
    hide Decide, Added, Target;
  }

  /** The two targets are of one family, different and new to a bridge with only kernel-assigned addresses of it. */
  ghost predicate Disagree(addrs: set<IPNet>, c: IPConfig, d: IPConfig)
  {
    && Matched(c) && Matched(d) && FamilyOf(c.gateway) == FamilyOf(d.gateway)
    && Target(c) != Target(d) && Target(c) !in addrs && Target(d) !in addrs
    && forall a :: a in addrs && FamilyOf(a.ip) == FamilyOf(c.gateway) ==> KernelAssigned(a)
  }

  /**
   Agreement is needed, in either family: any two processes that want different addresses of
   it can both end well, and then the bridge carries both as wanted if and only if both are
   link-local; it has two rival addresses unless one is link-local or the kernel took the
   second for the first.
   */
  lemma DisagreementBreaksStability(w: World, p: Proc, q: Proc, c: IPConfig, d: IPConfig)
    requires w.procs == [p, q] && p.pc == q.pc == Lookup && p.cs == [c] && q.cs == [d]
    requires w.link.Some? && w.link.value.kind == BridgeLink && Disagree(w.link.value.addrs, c, d)
    ensures var addrs := w.link.value.addrs; var both := Added(addrs + {Target(c)}, Target(d));
            && Execute(w, TURN_ABOUT) == World(Some(w.link.value.(up := true, addrs := both)), w.adds,
                                               [p.(pc := Done), q.(pc := Done)])
            && (Carries(both, Target(c)) && Carries(both, Target(d)) <==> KernelAssigned(Target(c)) && KernelAssigned(Target(d)))
            && (AtMostOneEach(addrs) ==>
                  (AtMostOneEach(both) <==> !Rivals(Target(c), Target(d)) || SameToKernel(Target(c), Target(d))))
  {
    hide Both, Execute, Target, Added, Carries, Rivals, AtMostOneEach, KernelAssigned, Disagree, SameToKernel;
    var up := w.link.value.(up := true);
    assert w == World(w.link, w.adds, [p, q]);
    BothBringUp(w.link.value, w.adds, p, q);
    BothAssign(up, w.adds, p, q, c, d);
    FourTimes(w);
    BothCarried(w.link.value.addrs, c, d);
    if AtMostOneEach(w.link.value.addrs) {
      BothRivals(w.link.value.addrs, c, d);
    }
  }

  lemma BothCarried(addrs: set<IPNet>, c: IPConfig, d: IPConfig)
    requires Disagree(addrs, c, d)
    ensures var both := Added(addrs + {Target(c)}, Target(d));
            Carries(both, Target(c)) && Carries(both, Target(d)) <==> KernelAssigned(Target(c)) && KernelAssigned(Target(d))
  {
    NewBeside(addrs, c, d);
    TargetIsProper(c);
    TargetIsProper(d);
    hide Target, Added, LinkLocal;
    var both := Added(addrs + {Target(c)}, Target(d));
    if SameToKernel(Target(c), Target(d)) {
      assert Target(d) !in both;
    } else {
      assert Target(c) in both && Target(d) in both;
    }
  }

  lemma BothRivals(addrs: set<IPNet>, c: IPConfig, d: IPConfig)
    requires Disagree(addrs, c, d) && AtMostOneEach(addrs)
    ensures AtMostOneEach(Added(addrs + {Target(c)}, Target(d))) <==> !Rivals(Target(c), Target(d)) || SameToKernel(Target(c), Target(d))
  {
    NewBeside(addrs, c, d);
    TargetIsProper(c);
    TargetIsProper(d);
    hide Target, Added, LinkLocal;
    var both := Added(addrs + {Target(c)}, Target(d));
    if Rivals(Target(c), Target(d)) && !SameToKernel(Target(c), Target(d)) {
      assert Target(c) in both && Target(d) in both;
    }
  }

  lemma BothBringUp(l: Link, adds: nat, p: Proc, q: Proc)
    requires l.kind == BridgeLink && p.pc == q.pc == Lookup && p.cs != [] && q.cs != []
    ensures Both(Both(World(Some(l), adds, [p, q])))
         == World(Some(l.(up := true)), adds, [p.(pc := Listing(0)), q.(pc := Listing(0))])
  {
    BothCalls(Some(l), adds, p, q);
    BothCalls(Some(l), adds, p.(pc := SettingUp), q.(pc := SettingUp));
    hide Both, Decide, Added, Target;
  }

  /** Both list before either assigns. */
  lemma BothAssign(l: Link, adds: nat, p: Proc, q: Proc, c: IPConfig, d: IPConfig)
    requires p.cs == [c] && q.cs == [d] && Disagree(l.addrs, c, d)
    ensures Both(Both(World(Some(l), adds, [p.(pc := Listing(0)), q.(pc := Listing(0))])))
         == World(Some(l.(addrs := Added(l.addrs + {Target(c)}, Target(d)))), adds, [p.(pc := Done), q.(pc := Done)])
  {
    NewBeside(l.addrs, c, d);
    BothCalls(Some(l), adds, p.(pc := Listing(0)), q.(pc := Listing(0)));
    BothCalls(Some(l), adds, p.(pc := Assigning(0)), q.(pc := Assigning(0)));
    hide Both, Decide, Added, Target, Matched, FamilyOf;
  }

  lemma EmptySchedule(w: World)
    ensures Execute(w, []) == w
  {
  }

  lemma FourTimes(w: World)
    ensures Execute(w, TURN_ABOUT) == Both(Both(Both(Both(w))))
  {
    hide Both, Execute;
    assert Execute(w, []) == w by { EmptySchedule(w); }
    assert TURN_ABOUT[..0] == [];
    TwoTurns(w, 0);
    TwoTurns(w, 1);
    TwoTurns(w, 2);
    TwoTurns(w, 3);
    assert TURN_ABOUT[..8] == TURN_ABOUT;
  }

  /** Either process finds nothing in its way, and the first adds its target. */
  lemma NewBeside(addrs: set<IPNet>, c: IPConfig, d: IPConfig)
    requires Disagree(addrs, c, d)
    ensures Decide(addrs, c) == Decide(addrs, d) == Assign
    ensures Added(addrs, Target(c)) == addrs + {Target(c)}
    ensures Added(addrs + {Target(c)}, Target(d))
         == addrs + {Target(c)} + if SameToKernel(Target(c), Target(d)) then {} else {Target(d)}
  {
    TargetIsProper(c);
    TargetIsProper(d);
    LinkLocalTarget(c);
    LinkLocalTarget(d);
    assert FamilyOf(Target(c).ip) == FamilyOf(c.gateway) && FamilyOf(Target(d).ip) == FamilyOf(d.gateway);
    hide Target, LinkLocal;
  }
}
