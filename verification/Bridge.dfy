/** One process of the bridge plugin over the kernel's links and addresses (engine.go). */
module Bridge {
  import opened Wrappers
  import opened Types
  import opened Bits
  import opened Bytes
  import opened Subnets
  import opened Networks

  datatype Kind = BridgeLink | OtherLink

  type MAC = seq<byte>

  datatype Link = Link(kind: Kind, mtu: int, mac: Option<MAC>, up: bool, addrs: set<IPNet>)

  /** What a netlink call can answer besides success; Denied stands for every other failure. */
  datatype Errno = LinkNotFound | FileExists | Denied

  datatype BridgeError =
    | CallFailed     // a netlink call failed for a reason of its own
    | NotABridge     // the name belongs to another kind of link
    | NilBridge      // the second lookup found nothing to bring up
    | Mismatch       // the bridge carries another address of the family

  // ---- the address the bridge should carry

  /** net.IP.IsLinkLocalUnicast: 169.254.0.0/16 or fe80::/10. */
  predicate LinkLocal(ip: IP)
  {
    match To4(ip)
    case Some(four) => four[0] == 169 && four[1] == 254
    case None => |ip| == 16 && ip[0] == 0xfe && 0x80 <= ip[1] < 0xc0
  }

  /** The gateway with the container's mask, or with a fixed one for the daemon bridge's gateways. */
  function Target(c: IPConfig): IPNet
  {
    var ones :=
      if LinkLocal(c.gateway) && To4(c.gateway).Some? then 22
      else if LinkLocal(c.gateway) then 64
      else if To4(c.gateway).None? && |c.gateway| == 16 && c.gateway[0] == 0xfd then 112
      else c.address.ones;
    IPNet(c.gateway, ones, c.address.bits)
  }

  lemma TargetIsProper(c: IPConfig)
    requires Matched(c)
    ensures Proper(Target(c)) && FamilyOf(Target(c).ip) == FamilyOf(c.address.ip)
  {
  }

  /** An address that must not stand beside the target: any of the family, except kernel-assigned ones. */
  predicate InTheWay(family: Family, a: IPNet)
  {
    !(family == V6 && LinkLocal(a.ip))
  }

  predicate Conflicting(family: Family, a: IPNet)
  {
    FamilyOf(a.ip) == family && InTheWay(family, a)
  }

  /** Two addresses the kernel takes for one: for IPv6 the prefix length does not matter. */
  predicate SameToKernel(a: IPNet, b: IPNet)
  {
    a == b || (FamilyOf(a.ip) == V6 && a.ip == b.ip)
  }

  datatype Decision = Skip | Refuse | Assign

  ghost function Decide(addrs: set<IPNet>, c: IPConfig): Decision
  {
    if Target(c) in addrs then Skip
    else if exists a :: a in addrs && Conflicting(FamilyOf(c.address.ip), a) then Refuse
    else Assign
  }

  /** What AddrAdd leaves, whether it answers success or "file exists". */
  ghost function Added(addrs: set<IPNet>, t: IPNet): set<IPNet>
  {
    if exists a :: a in addrs && SameToKernel(a, t) then addrs else addrs + {t}
  }

  ghost function ConfigureOne(addrs: set<IPNet>, c: IPConfig): (set<IPNet>, Result<(), BridgeError>)
  {
    match Decide(addrs, c)
    case Skip => (addrs, Ok(()))
    case Refuse => (addrs, Err(Mismatch))
    case Assign => (Added(addrs, Target(c)), Ok(()))
  }

  /** ConfigureBridge's effect on the bridge's addresses. */
  ghost function Configure(addrs: set<IPNet>, cs: seq<IPConfig>): (set<IPNet>, Result<(), BridgeError>)
    decreases |cs|
  {
    if cs == [] then (addrs, Ok(()))
    else
      var (before, r) := Configure(addrs, cs[..|cs| - 1]);
      if r.Err? then (before, r) else ConfigureOne(before, cs[|cs| - 1])
  }

  /** CreateBridge's effect on the link of that name. */
  function Create(link: Option<Link>, mtu: int, mac: MAC): (Option<Link>, Result<Link, BridgeError>)
  {
    match link
    case None => var l := Link(BridgeLink, mtu, Some(mac), true, {}); (Some(l), Ok(l))
    case Some(l) =>
      if l.kind != BridgeLink then (link, Err(NotABridge))
      else (Some(l.(up := true)), Ok(l.(up := true)))
  }

  // ---- the kernel, and the plugin's calls to it

  type Links = map<string, Link>

  function At(links: Links, name: string): Option<Link>
  {
    if name in links then Some(links[name]) else None
  }

  /** Every call may be denied, and then changes nothing but the count of denials. */
  class Netlink {
    var links: Links
    ghost var denials: nat

    constructor ()
      ensures links == map[] && denials == 0
    {
      links, denials := map[], 0;
    }

    method LinkByName(name: string) returns (r: Result<Link, Errno>)
      modifies this`denials
      ensures denials == old(denials) + if r == Err(Denied) then 1 else 0
      ensures r == Err(Denied) || r == if name in links then Ok(links[name]) else Err(LinkNotFound)
    {
      var denied: bool := *;
      if denied {
        denials := denials + 1;
        return Err(Denied);
      }
      r := if name in links then Ok(links[name]) else Err(LinkNotFound);
    }

    method LinkAdd(name: string, mtu: int) returns (r: Result<(), Errno>)
      modifies this
      ensures denials == old(denials) + if r == Err(Denied) then 1 else 0
      ensures r == Err(Denied) ==> links == old(links)
      ensures r != Err(Denied) ==>
                if name in old(links) then r == Err(FileExists) && links == old(links)
                else r == Ok(()) && links == old(links)[name := Link(BridgeLink, mtu, None, false, {})]
    {
      var denied: bool := *;
      if denied {
        denials := denials + 1;
        return Err(Denied);
      }
      if name in links {
        return Err(FileExists);
      }
      links := links[name := Link(BridgeLink, mtu, None, false, {})];
      return Ok(());
    }

    method LinkSetHardwareAddr(name: string, mac: MAC) returns (r: Result<(), Errno>)
      requires name in links
      modifies this
      ensures denials == old(denials) + if r == Err(Denied) then 1 else 0
      ensures (r == Err(Denied) && links == old(links))
           || (r == Ok(()) && links == old(links)[name := old(links)[name].(mac := Some(mac))])
    {
      var denied: bool := *;
      if denied {
        denials := denials + 1;
        return Err(Denied);
      }
      links := links[name := links[name].(mac := Some(mac))];
      return Ok(());
    }

    method LinkSetUp(name: string) returns (r: Result<(), Errno>)
      requires name in links
      modifies this
      ensures denials == old(denials) + if r == Err(Denied) then 1 else 0
      ensures (r == Err(Denied) && links == old(links))
           || (r == Ok(()) && links == old(links)[name := old(links)[name].(up := true)])
    {
      var denied: bool := *;
      if denied {
        denials := denials + 1;
        return Err(Denied);
      }
      links := links[name := links[name].(up := true)];
      return Ok(());
    }

    /** A link's addresses of one family, in no particular order. */
    method AddrList(name: string, family: Family) returns (r: Result<seq<IPNet>, Errno>)
      requires name in links
      modifies this`denials
      ensures denials == old(denials) + if r == Err(Denied) then 1 else 0
      ensures r == Err(Denied) || (r.Ok? && forall a :: a in r.value <==> a in links[name].addrs && FamilyOf(a.ip) == family)
    {
      var denied: bool := *;
      if denied {
        denials := denials + 1;
        return Err(Denied);
      }
      var left := set a | a in links[name].addrs && FamilyOf(a.ip) == family;
      var listed := [];
      while left != {}
        invariant forall a :: a in listed || a in left <==> a in links[name].addrs && FamilyOf(a.ip) == family
        decreases left
      {
        var a :| a in left;
        left := left - {a};
        listed := listed + [a];
      }
      return Ok(listed);
    }

    method AddrAdd(name: string, addr: IPNet) returns (r: Result<(), Errno>)
      requires name in links
      modifies this
      ensures denials == old(denials) + if r == Err(Denied) then 1 else 0
      ensures r == Err(Denied) ==> links == old(links)
      ensures r != Err(Denied) ==> links == old(links)[name := old(links)[name].(addrs := Added(old(links)[name].addrs, addr))]
      ensures r.Err? ==> r.error == Denied || r.error == FileExists
      ensures r == Err(FileExists) <== r != Err(Denied) && exists a :: a in old(links)[name].addrs && SameToKernel(a, addr)
    {
      var denied: bool := *;
      if denied {
        denials := denials + 1;
        return Err(Denied);
      }
      if exists a :: a in links[name].addrs && SameToKernel(a, addr) {
        return Err(FileExists);
      }
      links := links[name := links[name].(addrs := links[name].addrs + {addr})];
      return Ok(());
    }
  }

  /** nil when there is no link of that name. */
  method LookupBridge(netlink: Netlink, name: string) returns (r: Result<Option<Link>, BridgeError>)
    modifies netlink`denials
    ensures netlink.denials == old(netlink.denials) + if r.Err? && r.error == CallFailed then 1 else 0
    ensures r == Err(CallFailed)
         || r == match At(netlink.links, name)
                 case None => Ok(None)
                 case Some(l) => if l.kind == BridgeLink then Ok(Some(l)) else Err(NotABridge)
  {
    var link := netlink.LinkByName(name);
    if link.Err? {
      if link.error != LinkNotFound {
        return Err(CallFailed);
      }
      return Ok(None);
    }
    if link.value.kind != BridgeLink {
      return Err(NotABridge);
    }
    return Ok(Some(link.value));
  }

  /** The states a creation that was cut short can leave. */
  ghost predicate PartlyCreated(before: Links, after: Links, name: string, mtu: int, mac: MAC)
  {
    || after == before
    || (name !in before
        && (after == before[name := Link(BridgeLink, mtu, None, false, {})]
            || after == before[name := Link(BridgeLink, mtu, Some(mac), false, {})]))
  }

  method CreateNewBridge(netlink: Netlink, name: string, mtu: int, mac: MAC) returns (r: Result<(), Errno>)
    modifies netlink
    ensures r.Ok? ==> name !in old(netlink.links)
                      && netlink.links == old(netlink.links)[name := Link(BridgeLink, mtu, Some(mac), false, {})]
    ensures r == Err(FileExists) ==> name in old(netlink.links) && netlink.links == old(netlink.links)
    ensures r.Err? ==> PartlyCreated(old(netlink.links), netlink.links, name, mtu, mac)
    ensures r.Err? && r.error != FileExists ==> r.error == Denied
    ensures netlink.denials == old(netlink.denials) + if r.Err? && r.error == Denied then 1 else 0
  {
    r := netlink.LinkAdd(name, mtu);
    if r.Err? {
      return;
    }
    r := netlink.LinkSetHardwareAddr(name, mac);
  }

  /** CreateBridge; mac is the address it generates.  It fails for a call's sake only if a call was denied. */
  method CreateBridge(netlink: Netlink, name: string, mtu: int, mac: MAC) returns (r: Result<Link, BridgeError>)
    modifies netlink
    ensures netlink.denials == old(netlink.denials) + if r == Err(CallFailed) then 1 else 0
    ensures var (link, answer) := Create(At(old(netlink.links), name), mtu, mac);
            if r == Err(CallFailed) then PartlyCreated(old(netlink.links), netlink.links, name, mtu, mac)
            else (r.Ok? <==> answer.Ok?) && (r.Err? ==> r.error == answer.error)
                 && (r.Ok? ==> r.value.(up := true) == answer.value)
                 && netlink.links == if link.Some? then old(netlink.links)[name := link.value] else old(netlink.links)
  {
    var found := LookupBridge(netlink, name);
    if found.Err? {
      assert old(netlink.links) == if name in netlink.links then netlink.links[name := netlink.links[name]] else netlink.links;
      return Err(found.error);
    }
    var bridge := found.value;
    if bridge.None? {
      var created := CreateNewBridge(netlink, name, mtu, mac);
      if created.Err? {
        if created.error != FileExists {
          return Err(CallFailed);
        }
      }
      found := LookupBridge(netlink, name);
      if found.Err? {
        return Err(found.error);
      }
      bridge := found.value;
    }
    var up := netlink.LinkSetUp(name);
    if up.Err? {
      return Err(CallFailed);
    }
    return Ok(bridge.value);
  }

  ghost predicate AllProper(addrs: set<IPNet>)
  {
    forall a :: a in addrs ==> Proper(a)
  }

  /** The loop over the listed addresses: whether the target is among them, and if not whether another is in its way. */
  method Inspect(listed: seq<IPNet>, target: IPNet, family: Family) returns (present: bool, conflicting: bool)
    requires Proper(target) && forall j :: 0 <= j < |listed| ==> Proper(listed[j])
    ensures present <==> exists j :: 0 <= j < |listed| && listed[j] == target
    ensures !present ==>
              (conflicting <==> exists j :: 0 <= j < |listed| && InTheWay(family, listed[j]))
    ensures !present && family == V4 ==> (conflicting <==> listed != [])
    ensures !present && family == V6 ==> (conflicting <==> exists j :: 0 <= j < |listed| && !LinkLocal(listed[j].ip))
  {
    hide CIDR, Proper, LinkLocal;
    var resultBridgeCIDR := CIDR(target);
    present, conflicting := false, false;
    for i := 0 to |listed|
      invariant !present && forall j :: 0 <= j < i ==> listed[j] != target
      invariant conflicting <==> exists j :: 0 <= j < i && InTheWay(family, listed[j])
      invariant family == V4 ==> (conflicting <==> i > 0)
    {
      CIDRInjective(listed[i], target);
      if CIDR(listed[i]) == resultBridgeCIDR {
        present := true;
        break;
      }
      if family == V6 && LinkLocal(listed[i].ip) {
        continue;
      }
      conflicting := true;
    }
  }

  /** What the loop finds in a listing is what decides. */
  lemma ListingDecides(addrs: set<IPNet>, listed: seq<IPNet>, c: IPConfig)
    requires Matched(c) && forall a :: a in listed <==> a in addrs && FamilyOf(a.ip) == FamilyOf(c.address.ip)
    ensures (exists j :: 0 <= j < |listed| && listed[j] == Target(c)) <==> Decide(addrs, c) == Skip
    ensures Target(c) !in addrs ==>
              ((exists j :: 0 <= j < |listed| && InTheWay(FamilyOf(c.address.ip), listed[j])) <==> Decide(addrs, c) == Refuse)
  {
    TargetIsProper(c);
    hide Target, FamilyOf, LinkLocal, Matched;
    assert Target(c) in addrs <==> Target(c) in listed;
    if Decide(addrs, c) == Refuse {
      var a :| a in addrs && Conflicting(FamilyOf(c.address.ip), a);
      assert a in listed;
    }
  }

  /** ConfigureBridge: one address per entry of the result, each decided on a fresh listing. */
  method ConfigureBridge(netlink: Netlink, name: string, cs: seq<IPConfig>) returns (r: Result<(), BridgeError>)
    requires name in netlink.links && AllProper(netlink.links[name].addrs) && AllMatched(cs)
    modifies netlink
    ensures netlink.denials == old(netlink.denials) + if r == Err(CallFailed) then 1 else 0
    ensures var bridge := old(netlink.links)[name];
            if r == Err(CallFailed) then
              exists k :: 0 <= k <= |cs| && Configure(bridge.addrs, cs[..k]).1.Ok?
                && netlink.links == old(netlink.links)[name := bridge.(addrs := Configure(bridge.addrs, cs[..k]).0)]
            else
              r == Configure(bridge.addrs, cs).1
              && netlink.links == old(netlink.links)[name := bridge.(addrs := Configure(bridge.addrs, cs).0)]
  {
    ghost var bridge := netlink.links[name];
    assert netlink.links == netlink.links[name := bridge.(addrs := bridge.addrs)];
    for i := 0 to |cs|
      invariant Configure(bridge.addrs, cs[..i]).1 == Ok(())
      invariant netlink.links == old(netlink.links)[name := bridge.(addrs := Configure(bridge.addrs, cs[..i]).0)]
      invariant AllProper(Configure(bridge.addrs, cs[..i]).0)
      invariant netlink.denials == old(netlink.denials)
    {
      ghost var addrs := netlink.links[name].addrs;
      assert cs[..i + 1][..i] == cs[..i];
      FailsFrom(bridge.addrs, cs, i);
      TargetIsProper(cs[i]);
      var addrsListed := netlink.AddrList(name, FamilyOf(cs[i].address.ip));
      if addrsListed.Err? {
        return Err(CallFailed);
      }
      ListingDecides(addrs, addrsListed.value, cs[i]);
      var addressExists, hasConflicting := Inspect(addrsListed.value, Target(cs[i]), FamilyOf(cs[i].address.ip));
      if addressExists {
        continue;
      }
      if hasConflicting {
        return Err(Mismatch);
      }
      var added := netlink.AddrAdd(name, Target(cs[i]));
      if added.Err? && added.error != FileExists {
        return Err(CallFailed);
      }
    }
    assert cs[..|cs|] == cs;
    return Ok(());
  }

  /** An entry that is refused ends the whole configuration there. */
  lemma {:induction false} FailsFrom(addrs: set<IPNet>, cs: seq<IPConfig>, k: nat)
    requires k <= |cs|
    ensures Configure(addrs, cs[..k]).1.Err? ==> Configure(addrs, cs) == Configure(addrs, cs[..k])
    ensures k < |cs| && Configure(addrs, cs[..k + 1]).1.Err? ==> Configure(addrs, cs) == Configure(addrs, cs[..k + 1])
    decreases |cs|
  {
    if k < |cs| {
      var n := |cs| - 1;
      assert cs[..n][..k] == cs[..k];
      FailsFrom(addrs, cs[..n], k);
      if k + 1 <= n {
        assert cs[..n][..k + 1] == cs[..k + 1];
      } else {
        assert cs[..k + 1] == cs;
      }
    } else {
      assert cs[..k] == cs;
    }
  }
}
