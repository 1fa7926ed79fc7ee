/** What successive ConfigureBridge calls keep of a bridge's addresses. */
module BridgeTheorems {
  import opened Wrappers
  import opened Types
  import opened Bits
  import opened Bytes
  import opened Subnets
  import opened Networks
  import opened Bridge

  /** At most one IPv4 address, and at most one IPv6 address that is not link-local. */
  ghost predicate AtMostOneEach(addrs: set<IPNet>)
  {
    && (forall a, b :: a in addrs && b in addrs && FamilyOf(a.ip) == FamilyOf(b.ip) == V4 ==> a == b)
    && (forall a, b :: a in addrs && b in addrs && GlobalV6(a) && GlobalV6(b) ==> a == b)
  }

  /** An IPv6 address that is not link-local. */
  predicate GlobalV6(a: IPNet)
  {
    FamilyOf(a.ip) == V6 && !LinkLocal(a.ip)
  }

  /** An address of the family that is not a link-local IPv6 one. */
  predicate Stands(f: Family, a: IPNet)
  {
    FamilyOf(a.ip) == f && !(FamilyOf(a.ip) == V6 && LinkLocal(a.ip))
  }

  /**
   One entry, by its family: it is refused exactly when its target is missing and an address
   of its family, other than a link-local IPv6 one, is there; otherwise the target is added,
   unless it is there or the kernel takes an IPv6 address with the same bytes for it.
   */
  lemma EntryOutcome(addrs: set<IPNet>, c: IPConfig)
    ensures var (after, r) := ConfigureOne(addrs, c); var t := Target(c);
            && (r.Err? <==> t !in addrs
                            && exists a :: a in addrs && FamilyOf(a.ip) == FamilyOf(c.address.ip)
                                           && !(FamilyOf(a.ip) == V6 && LinkLocal(a.ip)))
            && (r.Err? ==> r.error == Mismatch && after == addrs)
            && (r.Ok? && (t in addrs || exists a :: a in addrs && FamilyOf(a.ip) == V6 && a.ip == t.ip) ==> after == addrs)
            && (r.Ok? && !(exists a :: a in addrs && FamilyOf(a.ip) == V6 && a.ip == t.ip) ==> after == addrs + {t})
  {
    hide Target, LinkLocal, FamilyOf;
    var f := FamilyOf(c.address.ip);
    assert forall a :: Conflicting(f, a) <==> Stands(f, a);
    if a :| a in addrs && Stands(f, a) {
      assert Conflicting(f, a);
    }
  }

  /**
   A call takes no address away, adds targets only, and keeps at most one of each family;
   when it succeeds each target is there, unless it was shadowed.
   */
  lemma {:induction false} ConfigureKeeps(addrs: set<IPNet>, cs: seq<IPConfig>)
    requires AllMatched(cs) && AtMostOneEach(addrs)
    ensures var (after, r) := Configure(addrs, cs);
            TargetsOnly(addrs, after, cs) && AtMostOneEach(after) && (r.Ok? ==> TargetsSettled(addrs, after, cs))
  {
    hide Target, ConfigureOne, GlobalV6, Matched, TargetsSettled, Configure;
    OnlyTargetsAdded(addrs, cs);
    if Configure(addrs, cs).1.Ok? {
      SuccessLeaves(addrs, cs);
    }
  }

  lemma {:induction false} OnlyTargetsAdded(addrs: set<IPNet>, cs: seq<IPConfig>)
    requires AllMatched(cs) && AtMostOneEach(addrs)
    ensures TargetsOnly(addrs, Configure(addrs, cs).0, cs) && AtMostOneEach(Configure(addrs, cs).0)
    decreases |cs|
  {
    hide Target, ConfigureOne, Matched, TargetsOnly, AtMostOneEach;
    if cs == [] {
      NothingAsked(addrs);
    } else {
      var n := |cs| - 1;
      assert forall i :: 0 <= i < n ==> cs[..n][i] == cs[i];
      OnlyTargetsAdded(addrs, cs[..n]);
      var (before, r) := Configure(addrs, cs[..n]);
      if r.Ok? {
        OneKeeps(before, cs[n]);
      }
      OneMoreTarget(addrs, before, Configure(addrs, cs).0, cs, n);
    }
  }

  lemma OneKeeps(addrs: set<IPNet>, c: IPConfig)
    requires Matched(c) && AtMostOneEach(addrs)
    ensures var after := ConfigureOne(addrs, c).0;
            addrs <= after <= addrs + {Target(c)} && AtMostOneEach(after)
  {
    TargetIsProper(c);
    hide Target, LinkLocal, FamilyOf;
  }

  lemma LinkLocalTarget(c: IPConfig)
    requires Matched(c)
    ensures FamilyOf(Target(c).ip) == V6 && LinkLocal(Target(c).ip) ==> Target(c).ones == 64
  {
  }

  /** Two addresses of one family, neither of them a link-local IPv6 one. */
  predicate Rivals(a: IPNet, b: IPNet)
  {
    FamilyOf(a.ip) == FamilyOf(b.ip) && (FamilyOf(a.ip) == V6 ==> !LinkLocal(a.ip) && !LinkLocal(b.ip))
  }

  /** The addresses after several calls, whichever of them failed. */
  ghost function AfterCalls(addrs: set<IPNet>, calls: seq<seq<IPConfig>>): set<IPNet>
    decreases |calls|
  {
    if calls == [] then addrs
    else Configure(AfterCalls(addrs, calls[..|calls| - 1]), calls[|calls| - 1]).0
  }

  ghost predicate AllCallsMatched(calls: seq<seq<IPConfig>>)
  {
    forall i :: 0 <= i < |calls| ==> AllMatched(calls[i])
  }

  /** Address stability: calls never take an address away and never put a second one beside it. */
  lemma {:induction false} AddressStability(addrs: set<IPNet>, calls: seq<seq<IPConfig>>)
    requires AllCallsMatched(calls) && AtMostOneEach(addrs)
    ensures addrs <= AfterCalls(addrs, calls) && AtMostOneEach(AfterCalls(addrs, calls))
    decreases |calls|
  {
    if calls != [] {
      var n := |calls| - 1;
      AddressStability(addrs, calls[..n]);
      ConfigureKeeps(AfterCalls(addrs, calls[..n]), calls[n]);
    }
  }

  /**
   A refusal has its cause: some entry's target is missing while another address of its
   family, not a link-local IPv6 one, is there.
   */
  lemma {:induction false} RefusalHasCause(addrs: set<IPNet>, cs: seq<IPConfig>)
    requires Configure(addrs, cs).1.Err?
    ensures var (after, r) := Configure(addrs, cs);
            && r == Err(Mismatch)
            && exists i, a :: 0 <= i < |cs| && a in after && Target(cs[i]) !in after && Stands(FamilyOf(cs[i].address.ip), a)
    decreases |cs|
  {
    hide Target, Stands, ConfigureOne;
    var n := |cs| - 1;
    var (before, r) := Configure(addrs, cs[..n]);
    if r.Err? {
      RefusalHasCause(addrs, cs[..n]);
      var i, a :| 0 <= i < n && a in before && Target(cs[..n][i]) !in before && Stands(FamilyOf(cs[..n][i].address.ip), a);
      assert cs[..n][i] == cs[i];
    } else {
      EntryRefused(before, cs[n]);
    }
  }

  lemma EntryRefused(addrs: set<IPNet>, c: IPConfig)
    ensures ConfigureOne(addrs, c).1.Err? ==>
              && ConfigureOne(addrs, c) == (addrs, Err(Mismatch)) && Target(c) !in addrs
              && exists a :: a in addrs && Stands(FamilyOf(c.address.ip), a)
  {
    hide Target, LinkLocal, FamilyOf;
    EntryOutcome(addrs, c);
    assert forall a :: Conflicting(FamilyOf(c.address.ip), a) <==> Stands(FamilyOf(c.address.ip), a);
  }

  // ---- creating the bridge

  /**
   CreateBridge, field by field: it succeeds exactly where there is no link or a bridge.
   What is new has the given MTU and hardware address and no addresses; of what was there
   nothing changes but that it is up.
   */
  lemma CreateOutcome(link: Option<Link>, mtu: int, mac: MAC)
    ensures var (after, r) := Create(link, mtu, mac);
            && (r.Ok? <==> link.None? || link.value.kind == BridgeLink)
            && (r.Err? ==> r.error == NotABridge && after == link)
            && (r.Ok? ==> after == Some(r.value) && r.value.kind == BridgeLink && r.value.up)
            && (link.None? ==> r.value.mtu == mtu && r.value.mac == Some(mac) && r.value.addrs == {})
            && (r.Ok? && link.Some? ==>
                  r.value.mtu == link.value.mtu && r.value.mac == link.value.mac && r.value.addrs == link.value.addrs)
  {
  }

  // ---- repeating a call

  /**
   A link-local target that is not on the bridge while its address is, under another prefix
   length: the kernel takes the one for the other, and the plugin does not.
   */
  ghost predicate Shadowed(addrs: set<IPNet>, t: IPNet)
  {
    FamilyOf(t.ip) == V6 && LinkLocal(t.ip) && t !in addrs && exists a :: a in addrs && a.ip == t.ip
  }

  /** Where link-local IPv6 addresses have the prefix length the kernel gives them nothing is shadowed. */
  lemma NothingShadowed(addrs: set<IPNet>, c: IPConfig)
    requires Matched(c) && forall a :: a in addrs && FamilyOf(a.ip) == V6 && LinkLocal(a.ip) ==> Proper(a) && a.ones == 64
    ensures !Shadowed(addrs, Target(c))
  {
    TargetIsProper(c);
    LinkLocalTarget(c);
    hide Target, LinkLocal;
  }

  ghost predicate ShadowsSome(addrs: set<IPNet>, cs: seq<IPConfig>)
  {
    exists i :: 0 <= i < |cs| && Shadowed(addrs, Target(cs[i]))
  }

  /** The bridge has an IPv6 address that is not link-local. */
  ghost predicate HasGlobalV6(addrs: set<IPNet>)
  {
    exists a :: a in addrs && GlobalV6(a)
  }

  lemma {:induction false} ShadowStays(addrs: set<IPNet>, cs: seq<IPConfig>, t: IPNet)
    ensures addrs <= Configure(addrs, cs).0
    ensures Shadowed(addrs, t) ==> Shadowed(Configure(addrs, cs).0, t)
    decreases |cs|
  {
    hide Target, LinkLocal, FamilyOf;
    if cs != [] {
      ShadowStays(addrs, cs[..|cs| - 1], t);
    }
  }

  lemma {:induction false} ShadowStaysOver(addrs: set<IPNet>, calls: seq<seq<IPConfig>>, t: IPNet)
    ensures addrs <= AfterCalls(addrs, calls)
    ensures Shadowed(addrs, t) ==> Shadowed(AfterCalls(addrs, calls), t)
    decreases |calls|
  {
    hide Shadowed, Configure;
    if calls != [] {
      ShadowStaysOver(addrs, calls[..|calls| - 1], t);
      ShadowStays(AfterCalls(addrs, calls[..|calls| - 1]), calls[|calls| - 1], t);
    }
  }

  lemma ShadowsLastOrBefore(addrs: set<IPNet>, cs: seq<IPConfig>, n: nat)
    requires n + 1 == |cs|
    ensures ShadowsSome(addrs, cs) <==> ShadowsSome(addrs, cs[..n]) || Shadowed(addrs, Target(cs[n]))
  {
    hide Target, Shadowed;
    if i :| 0 <= i < |cs| && Shadowed(addrs, Target(cs[i])) {
      assert i < n ==> Shadowed(addrs, Target(cs[..n][i]));
    }
    if i :| 0 <= i < n && Shadowed(addrs, Target(cs[..n][i])) {
      assert Shadowed(addrs, Target(cs[i]));
    }
  }

  ghost predicate TargetsOnly(addrs: set<IPNet>, after: set<IPNet>, cs: seq<IPConfig>)
  {
    addrs <= after && forall a :: a in after && a !in addrs ==> exists j :: 0 <= j < |cs| && a == Target(cs[j])
  }

  /** Each target is on the bridge, or was shadowed. */
  ghost predicate TargetsSettled(addrs: set<IPNet>, after: set<IPNet>, cs: seq<IPConfig>)
  {
    forall i :: 0 <= i < |cs| ==> Target(cs[i]) in after || Shadowed(addrs, Target(cs[i]))
  }

  /** What one entry that succeeds leaves of its target, on a bridge that holds more than `addrs` by targets only. */
  lemma OneSucceeds(addrs: set<IPNet>, before: set<IPNet>, cs: seq<IPConfig>, n: nat)
    requires AllMatched(cs) && n + 1 == |cs| && TargetsOnly(addrs, before, cs[..n]) && ConfigureOne(before, cs[n]).1.Ok?
    ensures var t := Target(cs[n]);
            && before <= ConfigureOne(before, cs[n]).0 <= before + {t}
            && (t in ConfigureOne(before, cs[n]).0 || Shadowed(addrs, t))
            && (Shadowed(addrs, t) && t !in before ==> !HasGlobalV6(addrs))
  {
    var t := Target(cs[n]);
    TargetIsProper(cs[n]);
    forall j | 0 <= j < n && SameToKernel(Target(cs[..n][j]), t) && LinkLocal(t.ip)
      ensures Target(cs[..n][j]) == t
    {
      LinkLocalTarget(cs[j]);
      LinkLocalTarget(cs[n]);
      TargetIsProper(cs[j]);
    }
    hide Target, LinkLocal, FamilyOf;
  }

  lemma OneMoreTarget(addrs: set<IPNet>, before: set<IPNet>, after: set<IPNet>, cs: seq<IPConfig>, n: nat)
    requires n + 1 == |cs| && before <= after <= before + {Target(cs[n])} && TargetsOnly(addrs, before, cs[..n])
    ensures TargetsOnly(addrs, after, cs)
    ensures TargetsSettled(addrs, before, cs[..n]) && (Target(cs[n]) in after || Shadowed(addrs, Target(cs[n]))) ==>
              TargetsSettled(addrs, after, cs)
  {
    hide Target, Shadowed;
    forall a | a in after && a !in addrs
      ensures exists j :: 0 <= j < |cs| && a == Target(cs[j])
    {
      if a in before {
        var j :| 0 <= j < n && a == Target(cs[..n][j]);
        assert a == Target(cs[j]);
      } else {
        assert a == Target(cs[n]);
      }
    }
    assert forall i :: 0 <= i < n ==> cs[..n][i] == cs[i];
  }

  /** After a success each target is on the bridge, unless it was shadowed; and then nothing global was there before. */
  lemma {:induction false} SuccessLeaves(addrs: set<IPNet>, cs: seq<IPConfig>)
    requires AllMatched(cs) && Configure(addrs, cs).1.Ok?
    ensures TargetsOnly(addrs, Configure(addrs, cs).0, cs) && TargetsSettled(addrs, Configure(addrs, cs).0, cs)
    ensures ShadowsSome(addrs, cs) ==> !HasGlobalV6(addrs)
    decreases |cs|
  {
    hide Target, Shadowed, HasGlobalV6, Matched, ConfigureOne, ShadowsSome, TargetsOnly, TargetsSettled;
    if cs == [] {
      NothingAsked(addrs);
    } else {
      var n := |cs| - 1;
      var before := Configure(addrs, cs[..n]).0;
      SuccessLeaves(addrs, cs[..n]);
      OneSucceeds(addrs, before, cs, n);
      OneMoreTarget(addrs, before, Configure(addrs, cs).0, cs, n);
      ShadowsLastOrBefore(addrs, cs, n);
      ShadowStays(addrs, cs[..n], Target(cs[n]));
      ShadowedIsAbsent(before, Target(cs[n]));
    }
  }

  lemma NothingAsked(addrs: set<IPNet>)
    ensures TargetsOnly(addrs, addrs, []) && TargetsSettled(addrs, addrs, []) && !ShadowsSome(addrs, [])
  {
  }

  /**
   Where every target is present or shadowed, a call changes nothing, and is refused exactly
   if one is shadowed beside a global address.
   */
  lemma {:induction false} SettledCall(addrs: set<IPNet>, cs: seq<IPConfig>)
    requires AllMatched(cs) && TargetsSettled(addrs, addrs, cs)
    ensures Configure(addrs, cs) == (addrs, if ShadowsSome(addrs, cs) && HasGlobalV6(addrs) then Err(Mismatch) else Ok(()))
    decreases |cs|
  {
    hide Target, Shadowed, HasGlobalV6, ConfigureOne, Matched, ShadowsSome;
    if cs == [] {
      NothingAsked(addrs);
    } else {
      var n := |cs| - 1;
      assert forall i :: 0 <= i < n ==> cs[..n][i] == cs[i];
      SettledCall(addrs, cs[..n]);
      SettledEntry(addrs, cs[n]);
      ShadowsLastOrBefore(addrs, cs, n);
    }
  }

  lemma SettledEntry(addrs: set<IPNet>, c: IPConfig)
    requires Matched(c) && (Target(c) in addrs || Shadowed(addrs, Target(c)))
    ensures ConfigureOne(addrs, c)
         == (addrs, if Shadowed(addrs, Target(c)) && HasGlobalV6(addrs) then Err(Mismatch) else Ok(()))
  {
    TargetIsProper(c);
    hide Target, LinkLocal, FamilyOf;
  }

  /**
   Repeating a call that succeeded, at any later time and whatever other calls came between,
   changes nothing.  It is refused if and only if one of its targets was shadowed and the
   bridge now has a global IPv6 address; otherwise it succeeds.  Of a family in which it has
   a target that is not link-local, the bridge then carries that target only.
   */
  lemma RepeatIsNoOp(addrs: set<IPNet>, cs: seq<IPConfig>, between: seq<seq<IPConfig>>)
    requires AllMatched(cs) && AllCallsMatched(between) && Configure(addrs, cs).1.Ok?
    ensures var later := AfterCalls(Configure(addrs, cs).0, between);
            && Configure(later, cs) == (later, if ShadowsSome(addrs, cs) && HasGlobalV6(later) then Err(Mismatch) else Ok(()))
            && (AtMostOneEach(addrs) ==> forall i, a :: 0 <= i < |cs| && a in later && Rivals(a, Target(cs[i])) ==> a == Target(cs[i]))
  {
    hide Target, GlobalV6, LinkLocal, FamilyOf, Configure, Shadowed, HasGlobalV6, AtMostOneEach, Rivals;
    SuccessLeaves(addrs, cs);
    var after := Configure(addrs, cs).0;
    var later := AfterCalls(after, between);
    forall i | 0 <= i < |cs|
      ensures Shadowed(addrs, Target(cs[i])) <==> Shadowed(later, Target(cs[i]))
      ensures Target(cs[i]) in later || Shadowed(later, Target(cs[i]))
    {
      ShadowStays(addrs, cs, Target(cs[i]));
      ShadowStaysOver(after, between, Target(cs[i]));
      ShadowedIsAbsent(addrs, Target(cs[i]));
      ShadowedIsAbsent(later, Target(cs[i]));
    }
    SettledCall(later, cs);
    if AtMostOneEach(addrs) {
      ConfigureKeeps(addrs, cs);
      AddressStability(after, between);
      hide Rivals, AtMostOneEach;
      forall i, a | 0 <= i < |cs| && a in later && Rivals(a, Target(cs[i]))
        ensures a == Target(cs[i])
      {
        RivalsAgree(later, a, Target(cs[i]));
      }
    }
  }

  /** Beside a target that is there or shadowed no other address is its rival. */
  lemma RivalsAgree(addrs: set<IPNet>, a: IPNet, t: IPNet)
    requires AtMostOneEach(addrs) && a in addrs && (t in addrs || Shadowed(addrs, t)) && Rivals(a, t)
    ensures a == t
  {
    hide LinkLocal, FamilyOf;
  }

  lemma ShadowedIsAbsent(addrs: set<IPNet>, t: IPNet)
    ensures Shadowed(addrs, t) ==> t !in addrs && !Stands(FamilyOf(t.ip), t) && !GlobalV6(t)
  {
  }

  /** An entry of the call asks for a global IPv6 address. */
  ghost predicate AsksGlobalV6(cs: seq<IPConfig>)
  {
    exists j :: 0 <= j < |cs| && GlobalV6(Target(cs[j]))
  }

  /** Repeated at once, a successful call is a no-op unless it has a shadowed target and asks for a global address too. */
  lemma RepeatAtOnce(addrs: set<IPNet>, cs: seq<IPConfig>)
    requires AllMatched(cs) && Configure(addrs, cs).1.Ok?
    ensures var after := Configure(addrs, cs).0;
            && (Configure(after, cs) == (after, Ok(())) <==> !(ShadowsSome(addrs, cs) && AsksGlobalV6(cs)))
            && (OnePerFamily(cs) ==> Configure(after, cs) == (after, Ok(())))
  {
    hide Target, GlobalV6, LinkLocal, FamilyOf, Configure, Shadowed;
    SuccessLeaves(addrs, cs);
    RepeatIsNoOp(addrs, cs, []);
    var after := Configure(addrs, cs).0;
    if ShadowsSome(addrs, cs) {
      if a :| a in after && GlobalV6(a) {
        var j :| 0 <= j < |cs| && a == Target(cs[j]);
        assert AsksGlobalV6(cs);
      }
      if j :| 0 <= j < |cs| && GlobalV6(Target(cs[j])) {
        GlobalIsV6(Target(cs[j]));
        ShadowedIsAbsent(addrs, Target(cs[j]));
        assert Target(cs[j]) in after;
      }
      if OnePerFamily(cs) && AsksGlobalV6(cs) {
        var i :| 0 <= i < |cs| && Shadowed(addrs, Target(cs[i]));
        var j :| 0 <= j < |cs| && GlobalV6(Target(cs[j]));
        ShadowedIsLinkLocal(addrs, Target(cs[i]));
        TargetIsProper(cs[i]);
        TargetIsProper(cs[j]);
        GlobalIsV6(Target(cs[j]));
        assert false;
      }
    }
  }

  lemma ShadowedIsLinkLocal(addrs: set<IPNet>, t: IPNet)
    requires Shadowed(addrs, t)
    ensures !GlobalV6(t) && FamilyOf(t.ip) == V6
  {
  }

  lemma GlobalIsV6(t: IPNet)
    requires GlobalV6(t)
    ensures FamilyOf(t.ip) == V6
  {
  }

  /** At most one entry for each family, as the allocator's results have. */
  ghost predicate OnePerFamily(cs: seq<IPConfig>)
  {
    forall i, j :: 0 <= i < |cs| && 0 <= j < |cs| && FamilyOf(cs[i].address.ip) == FamilyOf(cs[j].address.ip) ==> i == j
  }

  // ---- where a global address comes from

  /** Some entry that asks for a global IPv6 address is reached by the call. */
  ghost predicate ReachesGlobalV6(addrs: set<IPNet>, cs: seq<IPConfig>)
  {
    exists j :: 0 <= j < |cs| && GlobalV6(Target(cs[j])) && Configure(addrs, cs[..j]).1.Ok?
  }

  lemma OneGlobal(addrs: set<IPNet>, c: IPConfig)
    requires Matched(c)
    ensures HasGlobalV6(ConfigureOne(addrs, c).0) <==> HasGlobalV6(addrs) || GlobalV6(Target(c))
  {
    TargetIsProper(c);
    hide Target, LinkLocal, FamilyOf;
    var after := ConfigureOne(addrs, c).0;
    if a :| a in addrs && GlobalV6(a) {
      assert a in after;
    }
    if GlobalV6(Target(c)) && Decide(addrs, c) == Assign {
      assert Target(c) in after;
    }
  }

  lemma ReachesLastOrBefore(addrs: set<IPNet>, cs: seq<IPConfig>, n: nat)
    requires n + 1 == |cs|
    ensures ReachesGlobalV6(addrs, cs) <==>
              ReachesGlobalV6(addrs, cs[..n]) || (GlobalV6(Target(cs[n])) && Configure(addrs, cs[..n]).1.Ok?)
  {
    hide Target, GlobalV6, Configure;
    assert forall j :: 0 <= j < n ==> cs[..n][j] == cs[j] && cs[..n][..j] == cs[..j];
    if j :| 0 <= j < |cs| && GlobalV6(Target(cs[j])) && Configure(addrs, cs[..j]).1.Ok? {
      assert j < n ==> GlobalV6(Target(cs[..n][j])) && Configure(addrs, cs[..n][..j]).1.Ok?;
    }
    if j :| 0 <= j < n && GlobalV6(Target(cs[..n][j])) && Configure(addrs, cs[..n][..j]).1.Ok? {
      assert GlobalV6(Target(cs[j])) && Configure(addrs, cs[..j]).1.Ok?;
    }
  }

  lemma {:induction false} CallGlobals(addrs: set<IPNet>, cs: seq<IPConfig>)
    requires AllMatched(cs)
    ensures HasGlobalV6(Configure(addrs, cs).0) <==> HasGlobalV6(addrs) || ReachesGlobalV6(addrs, cs)
    decreases |cs|
  {
    hide Target, GlobalV6, HasGlobalV6, Matched, ConfigureOne, ReachesGlobalV6;
    if cs == [] {
      assert !ReachesGlobalV6(addrs, cs) by { NothingReached(addrs); }
    } else {
      var n := |cs| - 1;
      assert forall i :: 0 <= i < n ==> cs[..n][i] == cs[i];
      CallGlobals(addrs, cs[..n]);
      ReachesLastOrBefore(addrs, cs, n);
      OneGlobal(Configure(addrs, cs[..n]).0, cs[n]);
    }
  }

  lemma NothingReached(addrs: set<IPNet>)
    ensures !ReachesGlobalV6(addrs, [])
  {
  }

  /** The global addresses after several calls, by the entries they reach. */
  lemma {:induction false} CallsGlobals(addrs: set<IPNet>, calls: seq<seq<IPConfig>>)
    requires AllCallsMatched(calls)
    ensures HasGlobalV6(AfterCalls(addrs, calls)) <==> HasGlobalV6(addrs) || SomeReachesGlobalV6(addrs, calls)
    decreases |calls|
  {
    hide HasGlobalV6, ReachesGlobalV6, Configure, AllMatched, SomeReachesGlobalV6;
    if calls == [] {
      NoneReaches(addrs);
    } else {
      var n := |calls| - 1;
      assert AllCallsMatched(calls[..n]);
      CallsGlobals(addrs, calls[..n]);
      CallGlobals(AfterCalls(addrs, calls[..n]), calls[n]);
      LastCallOrBefore(addrs, calls, n);
    }
  }

  /** Some of the calls, in the state it finds, reaches an entry that asks for a global IPv6 address. */
  ghost predicate SomeReachesGlobalV6(addrs: set<IPNet>, calls: seq<seq<IPConfig>>)
  {
    exists k :: 0 <= k < |calls| && ReachesGlobalV6(AfterCalls(addrs, calls[..k]), calls[k])
  }

  lemma NoneReaches(addrs: set<IPNet>)
    ensures !SomeReachesGlobalV6(addrs, [])
  {
  }

  lemma LastCallOrBefore(addrs: set<IPNet>, calls: seq<seq<IPConfig>>, n: nat)
    requires n + 1 == |calls|
    ensures SomeReachesGlobalV6(addrs, calls) <==>
              SomeReachesGlobalV6(addrs, calls[..n]) || ReachesGlobalV6(AfterCalls(addrs, calls[..n]), calls[n])
  {
    hide ReachesGlobalV6, AfterCalls;
    assert forall k :: 0 <= k < n ==> calls[..n][k] == calls[k] && calls[..n][..k] == calls[..k];
    if k :| 0 <= k < n && ReachesGlobalV6(AfterCalls(addrs, calls[..n][..k]), calls[..n][k]) {
      assert ReachesGlobalV6(AfterCalls(addrs, calls[..k]), calls[k]);
    }
    if k :| 0 <= k < |calls| && ReachesGlobalV6(AfterCalls(addrs, calls[..k]), calls[k]) {
      assert k < n ==> ReachesGlobalV6(AfterCalls(addrs, calls[..n][..k]), calls[..n][k]);
    }
  }

  /**
   A later repeat of a successful call by entries: it is a no-op unless the call has a shadowed
   target, and asks for a global IPv6 address or some call between reached an entry that does.
   */
  lemma RepeatLater(addrs: set<IPNet>, cs: seq<IPConfig>, between: seq<seq<IPConfig>>)
    requires AllMatched(cs) && AllCallsMatched(between) && Configure(addrs, cs).1.Ok?
    ensures var after := Configure(addrs, cs).0; var later := AfterCalls(after, between);
            Configure(later, cs) == (later, Ok(())) <==>
              !(ShadowsSome(addrs, cs) && (AsksGlobalV6(cs) || SomeReachesGlobalV6(after, between)))
  {
    assert AllCallsMatched([]);
    hide HasGlobalV6, SomeReachesGlobalV6, Configure, ShadowsSome, AsksGlobalV6, AllMatched, AllCallsMatched;
    RepeatIsNoOp(addrs, cs, between);
    RepeatIsNoOp(addrs, cs, []);
    RepeatAtOnce(addrs, cs);
    CallsGlobals(Configure(addrs, cs).0, between);
  }

  /**
   The /64 matters: beside a link-local address of another prefix length, which the kernel
   takes for the first target and the plugin does not, a call can succeed and its repeat fail.
   */
  lemma ForeignPrefixBreaksRepeat(c: IPConfig, d: IPConfig)
    requires Matched(c) && Matched(d) && |c.gateway| == |d.gateway| == 16
    requires LinkLocal(c.gateway) && !LinkLocal(d.gateway)
    ensures var addrs := {IPNet(c.gateway, 128, 128)}; var (after, r) := Configure(addrs, [c, d]);
            AtMostOneEach(addrs) && r.Ok? && Configure(after, [c, d]).1 == Err(Mismatch)
  {
    var addrs := {IPNet(c.gateway, 128, 128)};
    TwoEntries(addrs, c, d);
    assert SameToKernel(IPNet(c.gateway, 128, 128), Target(c));
    assert ConfigureOne(addrs, c) == (addrs, Ok(()));
    var after := addrs + {Target(d)};
    assert ConfigureOne(addrs, d) == (after, Ok(()));
    assert GlobalV6(Target(d));
    assert Decide(after, c) == Refuse;
    assert ConfigureOne(after, c).1 == Err(Mismatch);
    TwoEntries(after, c, d);
  }

  lemma TwoEntries(addrs: set<IPNet>, c: IPConfig, d: IPConfig)
    ensures Configure(addrs, [c, d]) ==
              var (a, r) := ConfigureOne(addrs, c);
              if r.Err? then (a, r) else ConfigureOne(a, d)
  {
    assert [c, d][..1] == [c] && [c][..0] == [];
    assert Configure(addrs, []) == (addrs, Ok(()));
    assert Configure(addrs, [c]) == ConfigureOne(addrs, c);
  }

  // ---- what the fixed masks reach

  lemma ContainsBytewise(net: IPNet, x: IP)
    requires net.bits == 8 * |net.ip| && WellFormed(net.ip) && WellFormed(x) && |x| == |net.ip|
    ensures net.Contains(x) <==>
              forall i :: 0 <= i < |x| ==> RoundDown(net.ip[i], 8 - Kept(net.ones, i)) == RoundDown(x[i], 8 - Kept(net.ones, i))
  {
    ContainsByMask(net, x);
    forall i | 0 <= i < |x|
      ensures AndByte(net.ip[i], net.Mask()[i]) == RoundDown(net.ip[i], 8 - Kept(net.ones, i))
      ensures AndByte(x[i], net.Mask()[i]) == RoundDown(x[i], 8 - Kept(net.ones, i))
    {
      MaskOneByte(net.ip[i], Kept(net.ones, i));
      MaskOneByte(x[i], Kept(net.ones, i));
    }
    hide RoundDown, AndByte, MaskByte, Kept;
  }

  /** A prefix of whole bytes. */
  lemma WholeBytes(net: IPNet, x: IP, n: nat)
    requires net.bits == 8 * |net.ip| && WellFormed(net.ip) && WellFormed(x) && |x| == |net.ip| && n <= |x| && net.ones == 8 * n
    ensures net.Contains(x) <==> x[..n] == net.ip[..n]
  {
    ContainsBytewise(net, x);
    SamePrefix(net.ip, x, n);
    forall i | 0 <= i < |x|
      ensures RoundDown(net.ip[i], 8 - Kept(net.ones, i)) == RoundDown(x[i], 8 - Kept(net.ones, i)) <==> (i < n ==> net.ip[i] == x[i])
    {
      OneByte(net.ip[i], x[i], Kept(net.ones, i));
    }
    hide RoundDown, Kept;
  }

  lemma SamePrefix(a: IP, b: IP, n: nat)
    requires n <= |a| == |b|
    ensures b[..n] == a[..n] <==> forall i :: 0 <= i < |b| ==> i < n ==> a[i] == b[i]
  {
    if b[..n] == a[..n] {
      assert forall i :: 0 <= i < n ==> a[i] == a[..n][i] && b[i] == b[..n][i];
    }
  }

  /** A byte kept whole, not at all, or by its six high bits. */
  lemma OneByte(a: byte, b: byte, kept: nat)
    requires kept == 0 || kept == 6 || kept == 8
    ensures RoundDown(a, 8 - kept) == RoundDown(b, 8 - kept) <==> kept == 0 || (if kept == 8 then a == b else a / 4 == b / 4)
  {
    WholeByteFree(0, a, 0);
    WholeByteFree(0, b, 0);
    RoundDownTwoBits(a, 0);
    RoundDownTwoBits(b, 0);
  }

  /**
   The bridge reaches, for the daemon's gateways: in 169.254.0.0/16 the four neighbouring
   /24 networks that share the upper six bits of the third octet, in fe80::/10 everything
   with the same first eight bytes, in fd00::/8 everything with the same first fourteen.
   */
  lemma DaemonBridgeReaches(c: IPConfig, x: IP)
    requires Matched(c) && WellFormed(x) && |x| == |c.gateway|
    ensures |x| == 4 && LinkLocal(c.gateway) ==>
              (Target(c).Contains(x) <==> x[0] == 169 && x[1] == 254 && x[2] / 4 == c.gateway[2] / 4)
    ensures |x| == 16 && LinkLocal(c.gateway) ==> (Target(c).Contains(x) <==> x[..8] == c.gateway[..8])
    ensures |x| == 16 && c.gateway[0] == 0xfd ==> (Target(c).Contains(x) <==> x[..14] == c.gateway[..14])
  {
    hide RoundDown, AndByte, MaskByte, PrefixMask;
    var net := Target(c);
    if |x| == 4 && LinkLocal(c.gateway) {
      ContainsBytewise(net, x);
      OneByte(net.ip[0], x[0], 8);
      OneByte(net.ip[1], x[1], 8);
      OneByte(net.ip[2], x[2], 6);
      OneByte(net.ip[3], x[3], 0);
    } else if |x| == 16 && LinkLocal(c.gateway) {
      WholeBytes(net, x, 8);
    } else if |x| == 16 && c.gateway[0] == 0xfd {
      WholeBytes(net, x, 14);
    }
  }

  /** Link-local addresses are those of 169.254.0.0/16 and of fe80::/10. */
  lemma LinkLocalIsSubnet(ip: IP)
    requires WellFormed(ip)
    ensures LinkLocal(ip) <==>
              if |ip| == 4 then IPNet([169, 254, 0, 0], 16, 32).Contains(ip)
              else IPNet([0xfe, 0x80, 0, 0, 0, 0, 0, 0, 0, 0, 0, 0, 0, 0, 0, 0], 10, 128).Contains(ip)
  {
    hide RoundDown, AndByte, MaskByte, PrefixMask;
    if |ip| == 4 {
      WholeBytes(IPNet([169, 254, 0, 0], 16, 32), ip, 2);
    } else {
      var net := IPNet([0xfe, 0x80, 0, 0, 0, 0, 0, 0, 0, 0, 0, 0, 0, 0, 0, 0], 10, 128);
      LeadingBytePlain(net.ip);
      FeEighty(net, ip);
    }
  }

  lemma LeadingBytePlain(ip: IP)
    requires |ip| == 16 && ip[0] != 0
    ensures To4(ip).None?
  {
    assert ip[..12][0] != MAPPED_PREFIX[0];
  }

  lemma FeEighty(net: IPNet, x: IP)
    requires WellFormed(net.ip) && WellFormed(x) && |net.ip| == |x| == 16 && net.ones == 10 && net.bits == 128
    requires net.ip[0] == 0xfe && net.ip[1] == 0x80
    ensures net.Contains(x) <==> x[0] == 0xfe && 0x80 <= x[1] < 0xc0
  {
    hide RoundDown, AndByte, MaskByte, PrefixMask, To4, IPNet.Contains;
    ContainsBytewise(net, x);
    OneByte(net.ip[0], x[0], 8);
    TwoBits(x[1]);
    forall i | 2 <= i < 16
      ensures RoundDown(net.ip[i], 8 - Kept(net.ones, i)) == RoundDown(x[i], 8 - Kept(net.ones, i))
    {
      OneByte(net.ip[i], x[i], 0);
    }
  }

  /** Bytes with the two high bits 10. */
  lemma TwoBits(b: byte)
    ensures RoundDown(0x80, 6) == RoundDown(b, 6) <==> 0x80 <= b < 0xc0
  {
    hide RoundDown, Pow2;
    SameBlock(0x80, b, 6);
    RoundDownStep(0x80, 6);
    RoundDownStep(0x40, 5);
    RoundDownStep(0x20, 4);
    RoundDownStep(0x10, 3);
    RoundDownStep(8, 2);
    RoundDownStep(4, 1);
    RoundDownStep(2, 0);
  }

  /**
   For any other gateway the bridge has the gateway's address with the container's prefix
   length, and so reaches just the container's subnet if the gateway is in it.
   */
  lemma OtherBridgeReaches(c: IPConfig, x: IP)
    requires Matched(c) && !LinkLocal(c.gateway) && (|c.gateway| == 16 ==> c.gateway[0] != 0xfd)
    ensures Target(c) == IPNet(c.gateway, c.address.ones, c.address.bits)
    ensures WellFormed(x) && |x| == |c.gateway| && c.address.Contains(c.gateway) ==>
              (Target(c).Contains(x) <==> c.address.Contains(x))
  {
    hide LinkLocal, RoundDown, Value, Pow2;
    if WellFormed(x) && |x| == |c.gateway| && c.address.Contains(c.gateway) {
      ContainsIsInterval(c.address, c.gateway);
      ContainsIsInterval(c.address, x);
      ContainsIsInterval(Target(c), x);
      SameBlock(Value(c.address.ip), Value(c.gateway), Free(c.address.ones, |c.gateway|));
    }
  }

  /** Whatever the gateway, the bridge has the gateway's own address. */
  lemma BridgeIsGateway(c: IPConfig)
    requires Matched(c)
    ensures Target(c).ip == c.gateway && Target(c).bits == 8 * |c.gateway| && Proper(Target(c))
  {
    TargetIsProper(c);
  }
}
