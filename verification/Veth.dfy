/** Configuring the container's interface: the add, clean up, add transformation of its route table. */
module Veth {
  import opened Wrappers
  import opened Types
  import opened Bits
  import opened Bytes
  import opened Text
  import opened Subnets
  import opened Networks

  /** A route of the interface; an absent destination is a default route, an absent gateway a link-scope one. */
  datatype Route = Route(dst: Option<IPNet>, gw: Option<IP>, src: Option<IP>)

  datatype Errno = RouteExists | NoSuchRoute | Unspecified | Denied

  type Routes = set<Route>

  /** The prefix lengths of the connected subnets to keep reachable; 0 for none. */
  datatype Sizes = Sizes(v4: nat, v6: nat)

  predicate ValidSizes(sizes: Sizes)
  {
    sizes.v4 <= 32 && sizes.v6 <= 128
  }

  function SizeOf(sizes: Sizes, f: Family): nat
  {
    if f == V4 then sizes.v4 else sizes.v6
  }

  function BitsOf(f: Family): nat
  {
    if f == V4 then 32 else 128
  }

  /** The kernel's destinations have no host bits. */
  predicate Canonical(net: IPNet)
  {
    Proper(net) && Base(net.ip, net.ones) == net.ip
  }

  ghost predicate CanonicalTable(table: Routes)
  {
    forall r :: r in table && r.dst.Some? ==> Canonical(r.dst.value)
  }

  /** Some route to that destination, with or without a gateway. */
  ghost predicate Reaches(table: Routes, dst: IPNet)
  {
    exists r :: r in table && r.dst == Some(dst)
  }

  /** The link-scope route to a destination, as the plugin adds it. */
  function LinkRoute(dst: IPNet): Route
  {
    Route(Some(dst), None, None)
  }

  /** Nothing names the route: the library refuses to delete it. */
  predicate Nameless(r: Route)
  {
    r.dst.None? && r.src.None? && r.gw.None?
  }

  // ---- the interface in the container's namespace

  /** Every call may be denied, and then changes nothing but the count of denials. */
  class Interface {
    var routes: Routes
    var hwAddr: Option<(IP, IP)>
    ghost var denials: nat

    constructor ()
      ensures routes == {} && hwAddr == None && denials == 0
    {
      routes, hwAddr, denials := {}, None, 0;
    }

    method RouteAdd(dst: IPNet) returns (r: Result<(), Errno>)
      modifies this`routes, this`denials
      ensures denials == old(denials) + if r == Err(Denied) then 1 else 0
      ensures r == Err(Denied) ==> routes == old(routes)
      ensures r != Err(Denied) ==> routes == WithRoute(old(routes), dst)
                                   && r == if Reaches(old(routes), dst) then Err(RouteExists) else Ok(())
    {
      var denied: bool := *;
      if denied {
        denials := denials + 1;
        return Err(Denied);
      }
      if exists r :: r in routes && r.dst == Some(dst) {
        return Err(RouteExists);
      }
      routes := routes + {LinkRoute(dst)};
      return Ok(());
    }

    method RouteDel(route: Route) returns (r: Result<(), Errno>)
      modifies this`routes, this`denials
      ensures denials == old(denials) + if r == Err(Denied) then 1 else 0
      ensures Nameless(route) ==> r == Err(Unspecified)
      ensures r == Err(Denied) || r == Err(Unspecified) ==> routes == old(routes)
      ensures !Nameless(route) && r != Err(Denied) ==>
                routes == old(routes) - {route} && r == if route in old(routes) then Ok(()) else Err(NoSuchRoute)
    {
      if Nameless(route) {
        return Err(Unspecified);
      }
      var denied: bool := *;
      if denied {
        denials := denials + 1;
        return Err(Denied);
      }
      r := if route in routes then Ok(()) else Err(NoSuchRoute);
      routes := routes - {route};
    }

    /** The interface's routes, each once, in no particular order. */
    method RouteList() returns (r: Result<seq<Route>, Errno>)
      modifies this`denials
      ensures denials == old(denials) + if r == Err(Denied) then 1 else 0
      ensures r == Err(Denied) || (r.Ok? && IsListing(r.value, routes))
    {
      var denied: bool := *;
      if denied {
        denials := denials + 1;
        return Err(Denied);
      }
      var left, listed := routes, [];
      while left != {}
        invariant left <= routes && IsListing(listed, routes - left)
        decreases left
      {
        var route :| route in left;
        assert routes - (left - {route}) == (routes - left) + {route};
        left := left - {route};
        listed := listed + [route];
      }
      assert routes - {} == routes;
      return Ok(listed);
    }

    /** The host's helper: it adds an address and routes, and takes none away. */
    method ConfigureIface(added: Routes) returns (r: Result<(), Errno>)
      modifies this`routes, this`denials
      ensures denials == old(denials) + if r == Err(Denied) then 1 else 0
      ensures r == if r.Ok? then Ok(()) else Err(Denied)
      ensures routes == if r.Ok? then old(routes) + added else old(routes)
    {
      var denied: bool := *;
      if denied {
        denials := denials + 1;
        return Err(Denied);
      }
      routes := routes + added;
      return Ok(());
    }

    method SetHWAddrByIP(ipv4: IP, ipv6: IP) returns (r: Result<(), Errno>)
      modifies this`hwAddr, this`denials
      ensures denials == old(denials) + if r == Err(Denied) then 1 else 0
      ensures r == if r.Ok? then Ok(()) else Err(Denied)
      ensures hwAddr == if r.Ok? then Some((ipv4, ipv6)) else old(hwAddr)
    {
      var denied: bool := *;
      if denied {
        denials := denials + 1;
        return Err(Denied);
      }
      hwAddr := Some((ipv4, ipv6));
      return Ok(());
    }
  }

  ghost predicate IsListing(listed: seq<Route>, table: Routes)
  {
    && (forall r :: r in listed <==> r in table)
    && (forall i, j :: 0 <= i < j < |listed| ==> listed[i] != listed[j])
  }

  // ---- what each loop does to the table

  /** Adding is refused when the destination already has a route. */
  ghost function WithRoute(table: Routes, dst: IPNet): Routes
  {
    if Reaches(table, dst) then table else table + {LinkRoute(dst)}
  }

  ghost function WithRoutes(table: Routes, dsts: seq<IPNet>): Routes
  {
    if dsts == [] then table else WithRoute(WithRoutes(table, dsts[..|dsts| - 1]), dsts[|dsts| - 1])
  }

  lemma NoRoutes(table: Routes)
    ensures WithRoutes(table, []) == table
  {
  }

  lemma RoutesStep(table: Routes, dsts: seq<IPNet>, i: nat)
    requires i < |dsts|
    ensures WithRoutes(table, dsts[..i + 1]) == WithRoute(WithRoutes(table, dsts[..i]), dsts[i])
  {
    assert dsts[..i + 1][..i] == dsts[..i];
  }

  /** The gateway's own address, as a destination. */
  function GatewayNet(c: IPConfig): IPNet
  {
    var bits := BitsOf(FamilyOf(c.address.ip));
    IPNet(c.gateway, bits, bits)
  }

  function GatewayNets(cs: seq<IPConfig>): (dsts: seq<IPNet>)
    ensures |dsts| == |cs|
  {
    seq(|cs|, i requires 0 <= i < |cs| => GatewayNet(cs[i]))
  }

  /** The connected subnet of an address, cut to the caller's prefix length. */
  function SubnetNet(c: IPConfig, sizes: Sizes): IPNet
  {
    var f := FamilyOf(c.address.ip);
    IPNet(Base(c.address.ip, SizeOf(sizes, f)), SizeOf(sizes, f), BitsOf(f))
  }

  /** The subnets of the families whose prefix length is not 0. */
  function SubnetNets(cs: seq<IPConfig>, sizes: Sizes): seq<IPNet>
    decreases |cs|
  {
    if cs == [] then []
    else
      var c := cs[|cs| - 1];
      SubnetNets(cs[..|cs| - 1], sizes)
      + if SizeOf(sizes, FamilyOf(c.address.ip)) == 0 then [] else [SubnetNet(c, sizes)]
  }

  predicate IsDefault(dst: Option<IPNet>)
  {
    dst.None? || dst.value.ones == 0
  }

  /** The routes the clean-up deletes. */
  predicate Cleaned(r: Route, sizes: Sizes)
  {
    && r.gw.None?
    && (IsDefault(r.dst)
        || (SizeOf(sizes, FamilyOf(r.dst.value.ip)) == 0 && r.dst.value.ones != r.dst.value.bits))
  }

  ghost function CleanUp(table: Routes, sizes: Sizes): Routes
  {
    set r | r in table && !Cleaned(r, sizes)
  }

  /** The table before the clean-up. */
  ghost function Prepared(table: Routes, cs: seq<IPConfig>, iface: Routes): Routes
  {
    WithRoutes(table, GatewayNets(cs)) + iface
  }

  ghost function Final(table: Routes, cs: seq<IPConfig>, iface: Routes, sizes: Sizes): Routes
  {
    WithRoutes(CleanUp(Prepared(table, cs, iface), sizes), SubnetNets(cs, sizes))
  }

  // ---- default destinations by their text

  const DEFAULT_IPV4 := "0.0.0.0/0"
  const DEFAULT_IPV6 := "::/0"

  lemma {:induction false} NoLongerRun(gs: seq<nat>, i: nat)
    requires i <= |gs| && ZeroRun(gs, 0) == |gs|
    ensures LongestRun(gs, i, 0) == 0
    decreases |gs| - i
  {
    if i < |gs| {
      NoLongerRun(gs, i + 1);
    }
  }

  lemma {:induction false} AllZeros(gs: seq<nat>, i: nat)
    requires i <= |gs| && forall j :: 0 <= j < |gs| ==> gs[j] == 0
    ensures ZeroRun(gs, i) == |gs| - i
    decreases |gs| - i
  {
    if i < |gs| {
      AllZeros(gs, i + 1);
    }
  }

  lemma DefaultText6(ip: IP)
    requires ip == Zeros(16)
    ensures To4(ip).None? && String(ip) == "::"
  {
    assert ip[10] != MAPPED_PREFIX[10];
    var gs := Groups(ip);
    AllZeros(gs, 0);
    NoLongerRun(gs, 0);
    hide LongestRun, ZeroRun, Groups;
    var parts := Parts6(gs, 0);
    assert parts == ["", "", ""];
    assert parts[1..] == ["", ""] && parts[1..][1..] == [""];
    assert Join(':', parts[1..][1..]) == "";
    assert Join(':', parts[1..]) == ":";
  }

  lemma DefaultText4(ip: IP)
    requires ip == Zeros(4)
    ensures String(ip) == "0.0.0.0"
  {
    assert Numeral(false, 0) == "0";
    hide Numeral;
    forall i | 0 <= i < 4
      ensures Numerals(false, ip)[i] == "0"
    {
      NumeralsAt(false, ip, i);
    }
    assert Numerals(false, ip) == ["0", "0", "0", "0"];
    hide Numerals;
    var parts := ["0", "0", "0", "0"];
    assert parts[1..] == ["0", "0", "0"] && parts[1..][1..] == ["0", "0"] && parts[1..][1..][1..] == ["0"];
    assert Join('.', parts[1..][1..][1..]) == "0";
    assert Join('.', parts[1..][1..]) == "0.0";
    assert Join('.', parts[1..]) == "0.0.0";
  }

  lemma NoBitsKept(ip: IP)
    ensures Base(ip, 0) == Zeros(|ip|)
  {
    forall i | 0 <= i < |ip|
      ensures Base(ip, 0)[i] == 0
    {
      MaskOneByte(ip[i], 0);
      WholeByteFree(0, ip[i], 0);
    }
  }

  lemma PrintsAsDefault(dst: IPNet, ip: IP)
    requires Proper(dst) && ip == Zeros(|ip|) && (|ip| == 4 || |ip| == 16)
    ensures CIDR(dst) == (if |ip| == 4 then DEFAULT_IPV4 else DEFAULT_IPV6) <==> dst == IPNet(ip, 0, 8 * |ip|)
  {
    if |ip| == 4 {
      DefaultText4(ip);
    } else {
      DefaultText6(ip);
    }
    hide String, To4, Zeros;
    assert Numeral(false, 0) == "0";
    hide Numeral;
    assert CIDR(IPNet(ip, 0, 8 * |ip|)) == String(ip) + "/" + "0";
    hide CIDR;
    CIDRInjective(dst, IPNet(ip, 0, 8 * |ip|));
  }

  /** A destination without host bits prints as one of the two default texts exactly when its prefix is empty. */
  lemma DefaultByText(dst: IPNet)
    requires Canonical(dst)
    ensures CIDR(dst) == DEFAULT_IPV4 || CIDR(dst) == DEFAULT_IPV6 <==> IsDefault(Some(dst))
  {
    hide CIDR, Base, To4;
    PrintsAsDefault(dst, Zeros(|dst.ip|));
    PrintsAsDefault(dst, Zeros(20 - |dst.ip|));
    if dst.ones == 0 {
      NoBitsKept(dst.ip);
    }
  }

  /** Masking neither makes an IPv6 address a mapped IPv4 one nor leaves host bits. */
  lemma SubnetIsCanonical(c: IPConfig, sizes: Sizes)
    requires Matched(c) && ValidSizes(sizes)
    ensures Canonical(SubnetNet(c, sizes)) && FamilyOf(SubnetNet(c, sizes).ip) == FamilyOf(c.address.ip)
  {
    var ip, ones := c.address.ip, SubnetNet(c, sizes).ones;
    BaseTwice(ip, ones);
    if |ip| == 16 {
      BaseStaysPlain(ip, ones);
    }
  }

  lemma BaseTwice(ip: IP, ones: nat)
    ensures Base(Base(ip, ones), ones) == Base(ip, ones)
  {
    var base := Base(ip, ones);
    MaskArithmetic(ip, ones);
    MaskArithmetic(base, ones);
    hide Base;
    RoundDownTwice(Value(ip), Free(ones, |ip|));
    ValueInjective(Base(base, ones), base);
  }

  lemma BaseStaysPlain(ip: IP, ones: nat)
    requires |ip| == 16 && To4(ip).None?
    ensures To4(Base(ip, ones)).None?
  {
    var base := Base(ip, ones);
    if ones >= 96 {
      forall i | 0 <= i < 12
        ensures base[i] == ip[i]
      {
        MaskOneByte(ip[i], Kept(ones, i));
      }
      assert base[..12] == ip[..12];
    } else {
      MaskOneByte(ip[11], Kept(ones, 11));
      LowBitClear(ip[11], 8 - Kept(ones, 11));
      assert base[..12][11] != MAPPED_PREFIX[11];
    }
  }

  lemma LowBitClear(v: nat, low: nat)
    requires low > 0
    ensures RoundDown(v, low) % 2 == 0
  {
  }

  lemma GatewayIsCanonical(c: IPConfig)
    requires Matched(c)
    ensures Canonical(GatewayNet(c)) && FamilyOf(GatewayNet(c).ip) == FamilyOf(c.address.ip)
  {
    forall i | 0 <= i < |c.gateway|
      ensures Base(c.gateway, 8 * |c.gateway|)[i] == c.gateway[i]
    {
      MaskOneByte(c.gateway[i], 8);
    }
  }

  // ---- the four loops, and the whole

  /** Gateway routes first, so that the helper can add routes through the gateways.  A route that exists is no failure. */
  method AddGatewayRoutes(link: Interface, cs: seq<IPConfig>) returns (r: Result<(), Errno>)
    modifies link`routes, link`denials
    ensures link.denials == old(link.denials) + if r.Err? then 1 else 0
    ensures r.Ok? ==> link.routes == WithRoutes(old(link.routes), GatewayNets(cs))
    ensures r.Err? ==> exists k :: 0 <= k < |cs| && link.routes == WithRoutes(old(link.routes), GatewayNets(cs)[..k])
    ensures old(link.routes) <= link.routes
  {
    hide WithRoutes, Reaches;
    ghost var dsts := GatewayNets(cs);
    assert WithRoutes(link.routes, []) == link.routes by { NoRoutes(link.routes); }
    assert dsts[..0] == [];
    for i := 0 to |cs|
      invariant link.routes == WithRoutes(old(link.routes), dsts[..i]) && old(link.routes) <= link.routes
      invariant link.denials == old(link.denials)
    {
      RoutesStep(old(link.routes), dsts, i);
      var maskBits := if To4(cs[i].address.ip).Some? then 32 else 128;
      assert dsts[i] == IPNet(cs[i].gateway, maskBits, maskBits);
      var added := link.RouteAdd(IPNet(cs[i].gateway, maskBits, maskBits));
      if added.Err? && added.error != RouteExists {
        return added;
      }
    }
    assert dsts[..|cs|] == dsts;
    return Ok(());
  }

  /** The first address of a family, empty when the result has none. */
  function FirstAddress(cs: seq<IPConfig>, f: Family): IP
    decreases |cs|
  {
    if cs == [] then []
    else
      var before, c := FirstAddress(cs[..|cs| - 1], f), cs[|cs| - 1];
      if before == [] && FamilyOf(c.address.ip) == f then c.address.ip else before
  }

  method SetHardwareAddress(link: Interface, cs: seq<IPConfig>) returns (r: Result<(), Errno>)
    requires AllMatched(cs)
    modifies link`hwAddr, link`denials
    ensures link.denials == old(link.denials) + if r.Err? then 1 else 0
    ensures r.Ok? ==> link.hwAddr == if cs == [] then old(link.hwAddr) else Some((FirstAddress(cs, V4), FirstAddress(cs, V6)))
    ensures r.Err? ==> link.hwAddr == old(link.hwAddr)
  {
    var hwAddrIPv4, hwAddrIPv6 := [], [];
    for i := 0 to |cs|
      invariant hwAddrIPv4 == FirstAddress(cs[..i], V4) && hwAddrIPv6 == FirstAddress(cs[..i], V6)
      invariant i > 0 ==> hwAddrIPv4 != [] || hwAddrIPv6 != []
    {
      assert cs[..i + 1][..i] == cs[..i];
      if To4(cs[i].address.ip).Some? {
        if hwAddrIPv4 == [] {
          hwAddrIPv4 := cs[i].address.ip;
        }
      } else {
        if hwAddrIPv6 == [] {
          hwAddrIPv6 := cs[i].address.ip;
        }
      }
    }
    assert cs[..|cs|] == cs;
    if hwAddrIPv4 != [] || hwAddrIPv6 != [] {
      r := link.SetHWAddrByIP(hwAddrIPv4, hwAddrIPv6);
      return;
    }
    return Ok(());
  }

  /** Whether the clean-up deletes a route, as the code decides it. */
  method ShouldDelete(route: Route, sizes: Sizes) returns (delete: bool)
    requires route.dst.Some? ==> Canonical(route.dst.value)
    ensures delete <==> Cleaned(route, sizes)
  {
    if route.gw.Some? {
      return false;
    }
    if route.dst.Some? {
      DefaultByText(route.dst.value);
    }
    var isDefaultRoute := route.dst.None? || CIDR(route.dst.value) == DEFAULT_IPV4 || CIDR(route.dst.value) == DEFAULT_IPV6;
    var isConnectedSubnetToDelete := false;
    if route.dst.Some? && !isDefaultRoute {
      var maskSize := route.dst.value.ones;
      if To4(route.dst.value.ip).Some? && sizes.v4 == 0 && maskSize != 32 {
        isConnectedSubnetToDelete := true;
      } else if To4(route.dst.value.ip).None? && sizes.v6 == 0 && maskSize != 128 {
        isConnectedSubnetToDelete := true;
      }
    }
    return isDefaultRoute || isConnectedSubnetToDelete;
  }

  method DeleteRoutes(link: Interface, listed: seq<Route>, sizes: Sizes) returns (r: Result<(), Errno>)
    requires IsListing(listed, link.routes) && CanonicalTable(link.routes)
    modifies link`routes, link`denials
    ensures link.denials == old(link.denials) + if r.Err? && r.error == Denied then 1 else 0
    ensures r.Err? && r.error != Denied ==> exists route :: route in old(link.routes) && Nameless(route)
    ensures r.Ok? ==> link.routes == CleanUp(old(link.routes), sizes)
    ensures r.Ok? ==> forall route :: route in old(link.routes) ==> !Nameless(route)
    ensures CleanUp(old(link.routes), sizes) <= link.routes <= old(link.routes)
  {
    assert forall route :: Nameless(route) ==> Cleaned(route, sizes);
    hide Cleaned, Canonical, Nameless;
    for i := 0 to |listed|
      invariant link.routes <= old(link.routes)
      invariant forall j :: 0 <= j < i ==> (listed[j] in link.routes <==> !Cleaned(listed[j], sizes))
      invariant forall j :: i <= j < |listed| ==> listed[j] in link.routes
      invariant forall j :: 0 <= j < i ==> !Nameless(listed[j])
      invariant link.denials == old(link.denials)
    {
      assert listed[i] in listed;
      var delete := ShouldDelete(listed[i], sizes);
      if delete {
        var deleted := link.RouteDel(listed[i]);
        if deleted.Err? {
          return deleted;
        }
      }
    }
    return Ok(());
  }

  lemma NoSubnets(table: Routes, sizes: Sizes)
    ensures WithRoutes(table, SubnetNets([], sizes)) == table
  {
  }

  /** The table after entry i, by the table before it. */
  lemma NextSubnet(table: Routes, cs: seq<IPConfig>, sizes: Sizes, i: nat)
    requires i < |cs|
    ensures var before := WithRoutes(table, SubnetNets(cs[..i], sizes));
            WithRoutes(table, SubnetNets(cs[..i + 1], sizes))
            == if SizeOf(sizes, FamilyOf(cs[i].address.ip)) == 0 then before else WithRoute(before, SubnetNet(cs[i], sizes))
  {
    hide SubnetNet, To4;
    assert cs[..i + 1][..i] == cs[..i] && cs[..i + 1][i] == cs[i];
    var dsts, subnet := SubnetNets(cs[..i], sizes), SubnetNet(cs[i], sizes);
    assert (dsts + [subnet])[..|dsts|] == dsts;
    assert dsts + [] == dsts;
  }

  method AddSubnetRoutes(link: Interface, cs: seq<IPConfig>, sizes: Sizes) returns (r: Result<(), Errno>)
    modifies link`routes, link`denials
    ensures link.denials == old(link.denials) + if r.Err? then 1 else 0
    ensures r.Err? ==> exists k :: 0 <= k < |cs| && link.routes == WithRoutes(old(link.routes), SubnetNets(cs[..k], sizes))
    ensures r.Ok? ==> link.routes == WithRoutes(old(link.routes), SubnetNets(cs, sizes))
    ensures old(link.routes) <= link.routes
  {
    hide WithRoutes, SubnetNets, Base, To4;
    NoSubnets(link.routes, sizes);
    assert cs[..0] == [];
    for i := 0 to |cs|
      invariant link.routes == WithRoutes(old(link.routes), SubnetNets(cs[..i], sizes)) && old(link.routes) <= link.routes
      invariant link.denials == old(link.denials)
    {
      NextSubnet(old(link.routes), cs, sizes, i);
      var ip := cs[i].address.ip;
      if To4(ip).Some? && sizes.v4 == 0 {
        continue;
      }
      if To4(ip).None? && sizes.v6 == 0 {
        continue;
      }
      var subnetMaskSize, totalBits;
      if To4(ip).Some? {
        subnetMaskSize, totalBits := sizes.v4, 32;
      } else {
        subnetMaskSize, totalBits := sizes.v6, 128;
      }
      assert SubnetNet(cs[i], sizes) == IPNet(Base(ip, subnetMaskSize), subnetMaskSize, totalBits);
      var added := link.RouteAdd(IPNet(Base(ip, subnetMaskSize), subnetMaskSize, totalBits));
      if added.Err? && added.error != RouteExists {
        return added;
      }
    }
    assert cs[..|cs|] == cs;
    return Ok(());
  }

  /**
   run: on success the table is Final's; even on failure no route with a gateway is gone.  A
   default route that only the clean-up could remove, but that nothing names, makes it fail,
   and so does a denied call; nothing else does.
   */
  method Run(link: Interface, cs: seq<IPConfig>, iface: Routes, sizes: Sizes) returns (r: Result<(), Errno>)
    requires AllMatched(cs) && ValidSizes(sizes) && CanonicalTable(link.routes) && CanonicalTable(iface)
    modifies link
    ensures r.Err? <==> link.denials > old(link.denials)
                        || exists route :: route in Prepared(old(link.routes), cs, iface) && Nameless(route)
    ensures r.Ok? ==> link.routes == Final(old(link.routes), cs, iface, sizes)
    ensures r.Ok? ==> forall route :: route in Prepared(old(link.routes), cs, iface) ==> !Nameless(route)
    ensures r.Ok? ==> link.hwAddr == if cs == [] then old(link.hwAddr) else Some((FirstAddress(cs, V4), FirstAddress(cs, V6)))
    ensures forall route :: route in old(link.routes) && route.gw.Some? ==> route in link.routes
  {
    hide CanonicalTable, WithRoutes, SubnetNets, GatewayNets, Nameless;
    PreparedIsCanonical(link.routes, cs, iface);
    r := AddGatewayRoutes(link, cs);
    if r.Err? {
      return;
    }
    r := link.ConfigureIface(iface);
    if r.Err? {
      return;
    }
    r := SetHardwareAddress(link, cs);
    if r.Err? {
      return;
    }
    var listed := link.RouteList();
    if listed.Err? {
      return Err(listed.error);
    }
    r := DeleteRoutes(link, listed.value, sizes);
    if r.Err? {
      return;
    }
    r := AddSubnetRoutes(link, cs, sizes);
  }

  lemma {:induction false} RoutesAreCanonical(table: Routes, dsts: seq<IPNet>)
    requires CanonicalTable(table) && forall i :: 0 <= i < |dsts| ==> Canonical(dsts[i])
    ensures CanonicalTable(WithRoutes(table, dsts))
  {
    hide Canonical;
    if dsts != [] {
      RoutesAreCanonical(table, dsts[..|dsts| - 1]);
    }
  }

  lemma PreparedIsCanonical(table: Routes, cs: seq<IPConfig>, iface: Routes)
    requires AllMatched(cs) && CanonicalTable(table) && CanonicalTable(iface)
    ensures CanonicalTable(Prepared(table, cs, iface))
  {
    hide Canonical, WithRoutes;
    forall i | 0 <= i < |cs|
      ensures Canonical(GatewayNets(cs)[i])
    {
      GatewayIsCanonical(cs[i]);
    }
    RoutesAreCanonical(table, GatewayNets(cs));
  }
}
