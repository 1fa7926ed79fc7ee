/** What the transformed route table looks like, and that transforming it again changes nothing. */
module VethTheorems {
  import opened Wrappers
  import opened Types
  import opened Bits
  import opened Bytes
  import opened Subnets
  import opened Networks
  import opened Veth

  /** Adding in turn, in closed form: a link-scope route for each destination that had none. */
  lemma {:induction false} WithRoutesExactly(table: Routes, dsts: seq<IPNet>, r: Route)
    ensures r in WithRoutes(table, dsts) <==>
              r in table || (r.dst.Some? && r == LinkRoute(r.dst.value) && r.dst.value in dsts && !Reaches(table, r.dst.value))
    ensures r.dst.Some? ==> (Reaches(WithRoutes(table, dsts), r.dst.value) <==> r.dst.value in dsts || Reaches(table, r.dst.value))
  {
    if dsts != [] {
      var n := |dsts| - 1;
      WithRoutesExactly(table, dsts[..n], r);
      WithRoutesExactly(table, dsts[..n], LinkRoute(dsts[n]));
      if r.dst.Some? {
        LastOrBefore(dsts, r);
      }
      AddedExactly(WithRoutes(table, dsts[..n]), dsts[n], r);
    }
  }

  lemma LastOrBefore(dsts: seq<IPNet>, r: Route)
    requires dsts != [] && r.dst.Some?
    ensures r.dst.value in dsts <==> r.dst.value in dsts[..|dsts| - 1] || r.dst.value == dsts[|dsts| - 1]
  {
  }

  lemma AddedExactly(table: Routes, dst: IPNet, r: Route)
    ensures r in WithRoute(table, dst) <==> r in table || (r == LinkRoute(dst) && !Reaches(table, dst))
    ensures r.dst.Some? ==> (Reaches(WithRoute(table, dst), r.dst.value) <==> r.dst.value == dst || Reaches(table, r.dst.value))
  {
    if !Reaches(table, dst) {
      assert LinkRoute(dst) in WithRoute(table, dst);
      if r.dst.Some? && Reaches(table, r.dst.value) {
        var q :| q in table && q.dst == r.dst;
        assert q in WithRoute(table, dst);
      }
    }
  }

  /** The subnets to be reached are those of the entries whose family has a prefix length. */
  lemma {:induction false} SubnetNetsMembers(cs: seq<IPConfig>, sizes: Sizes, dst: IPNet)
    ensures dst in SubnetNets(cs, sizes) <==> exists i :: 0 <= i < |cs| && LeadsTo(cs[i], sizes, dst)
    decreases |cs|
  {
    hide LeadsTo;
    if cs != [] {
      var n := |cs| - 1;
      SubnetNetsMembers(cs[..n], sizes, dst);
      LastLeadsTo(cs, sizes, dst);
      if dst in SubnetNets(cs[..n], sizes) {
        var i :| 0 <= i < n && LeadsTo(cs[..n][i], sizes, dst);
        assert LeadsTo(cs[i], sizes, dst);
      }
      if i :| 0 <= i < n && LeadsTo(cs[i], sizes, dst) {
        assert LeadsTo(cs[..n][i], sizes, dst);
      }
    }
  }

  /** The entry's family has a prefix length, and dst is its connected subnet. */
  predicate LeadsTo(c: IPConfig, sizes: Sizes, dst: IPNet)
  {
    SizeOf(sizes, FamilyOf(c.address.ip)) != 0 && dst == SubnetNet(c, sizes)
  }

  lemma LastLeadsTo(cs: seq<IPConfig>, sizes: Sizes, dst: IPNet)
    requires cs != []
    ensures dst in SubnetNets(cs, sizes) <==>
              dst in SubnetNets(cs[..|cs| - 1], sizes) || LeadsTo(cs[|cs| - 1], sizes, dst)
  {
    hide SubnetNet, FamilyOf;
  }

  /** A connected-subnet route that is added is not one the clean-up deletes. */
  lemma SubnetRouteStays(cs: seq<IPConfig>, sizes: Sizes, dst: IPNet)
    requires AllMatched(cs) && ValidSizes(sizes) && dst in SubnetNets(cs, sizes)
    ensures !Cleaned(LinkRoute(dst), sizes)
  {
    SubnetNetsMembers(cs, sizes, dst);
    var i :| 0 <= i < |cs| && LeadsTo(cs[i], sizes, dst);
    SubnetIsCanonical(cs[i], sizes);
    hide FamilyOf;
  }

  // ---- the final table, by what its routes are

  /** The destination that is one address. */
  function HostNet(ip: IP): IPNet
  {
    IPNet(ip, 8 * |ip|, 8 * |ip|)
  }

  /** The connected subnet of an entry: with its family's prefix length, if not 0, around its address, without host bits. */
  ghost predicate Connected(c: IPConfig, sizes: Sizes, dst: IPNet)
  {
    && Proper(dst) && |dst.ip| == |c.address.ip|
    && dst.ones == (if |c.address.ip| == 4 then sizes.v4 else sizes.v6) != 0
    && dst.Contains(c.address.ip) && Value(dst.ip) == dst.Min()
  }

  lemma ConnectedIsSubnet(c: IPConfig, sizes: Sizes, dst: IPNet)
    requires Matched(c) && ValidSizes(sizes)
    ensures Connected(c, sizes, dst) <==> LeadsTo(c, sizes, dst)
  {
    var net := SubnetNet(c, sizes);
    SubnetIsCanonical(c, sizes);
    CutAround(c.address.ip, net);
    hide Value, Base, To4, IPNet.Contains;
    if Connected(c, sizes, dst) {
      OnlyCut(c.address.ip, net, dst);
    }
  }

  /** What cutting an address leaves contains it and has no host bits. */
  lemma CutAround(ip: IP, net: IPNet)
    requires WellFormed(ip) && Proper(net) && |net.ip| == |ip| && net.ip == Base(ip, net.ones)
    ensures net.Contains(ip) && Value(net.ip) == net.Min()
  {
    MaskArithmetic(ip, net.ones);
    hide Value, RoundDown, Pow2, Base, To4, AndByte, PrefixMask, IPNet.Contains;
    RoundDownTwice(Value(ip), Free(net.ones, |ip|));
    ContainsIsInterval(net, ip);
  }

  /** And it is the only such network of its prefix length. */
  lemma OnlyCut(ip: IP, net: IPNet, dst: IPNet)
    requires WellFormed(ip) && Proper(net) && Proper(dst) && |net.ip| == |ip| == |dst.ip| && net.ones == dst.ones
    requires net.Contains(ip) && Value(net.ip) == net.Min() && dst.Contains(ip) && Value(dst.ip) == dst.Min()
    ensures dst == net
  {
    hide Value, RoundDown, Pow2, To4, IPNet.Contains;
    ContainsIsInterval(net, ip);
    ContainsIsInterval(dst, ip);
    SameBlock(Value(dst.ip), Value(ip), Free(net.ones, |ip|));
    SameBlock(Value(net.ip), Value(ip), Free(net.ones, |ip|));
    ValueInjective(dst.ip, net.ip);
  }

  lemma GatewayNetIsHost(c: IPConfig)
    requires Matched(c)
    ensures GatewayNet(c) == HostNet(c.gateway)
  {
  }

  /** What the clean-up is not for: routes with a gateway, and of the others host routes and those of families whose connected subnets stay. */
  predicate Spared(r: Route, sizes: Sizes)
  {
    || r.gw.Some?
    || (r.dst.Some? && r.dst.value.ones != 0
        && (r.dst.value.ones == r.dst.value.bits || (if To4(r.dst.value.ip).Some? then sizes.v4 else sizes.v6) != 0))
  }

  /** A route that was there, that the helper added, or to a gateway that had none. */
  ghost predicate Brought(table: Routes, cs: seq<IPConfig>, iface: Routes, r: Route)
  {
    || r in table || r in iface
    || exists i :: 0 <= i < |cs| && r == Route(Some(HostNet(cs[i].gateway)), None, None) && !Reaches(table, HostNet(cs[i].gateway))
  }

  ghost predicate SparedReaches(table: Routes, cs: seq<IPConfig>, iface: Routes, sizes: Sizes, dst: IPNet)
  {
    exists r :: Brought(table, cs, iface, r) && Spared(r, sizes) && r.dst == Some(dst)
  }

  /** A link-scope route to a connected subnet that nothing spared reaches. */
  ghost predicate Connects(table: Routes, cs: seq<IPConfig>, iface: Routes, sizes: Sizes, r: Route)
  {
    && r.dst.Some? && r == Route(r.dst, None, None)
    && (exists i :: 0 <= i < |cs| && Connected(cs[i], sizes, r.dst.value))
    && !SparedReaches(table, cs, iface, sizes, r.dst.value)
  }

  lemma CleanedIsNotSpared(r: Route, sizes: Sizes)
    ensures Cleaned(r, sizes) <==> !Spared(r, sizes)
  {
  }

  lemma BroughtIsPrepared(table: Routes, cs: seq<IPConfig>, iface: Routes, r: Route)
    requires AllMatched(cs)
    ensures Brought(table, cs, iface, r) <==> r in Prepared(table, cs, iface)
  {
    hide WithRoutes, Reaches;
    WithRoutesExactly(table, GatewayNets(cs), r);
    forall i | 0 <= i < |cs|
      ensures GatewayNets(cs)[i] == HostNet(cs[i].gateway)
    {
      GatewayNetIsHost(cs[i]);
    }
  }

  lemma ConnectsIsAdded(table: Routes, cs: seq<IPConfig>, iface: Routes, sizes: Sizes, r: Route)
    requires AllMatched(cs) && ValidSizes(sizes)
    ensures Connects(table, cs, iface, sizes, r) <==>
              r.dst.Some? && r == LinkRoute(r.dst.value) && r.dst.value in SubnetNets(cs, sizes)
              && !Reaches(CleanUp(Prepared(table, cs, iface), sizes), r.dst.value)
  {
    hide Connected, LeadsTo, SubnetNets, Brought, Spared, Prepared, Cleaned;
    if r.dst.Some? {
      var dst := r.dst.value;
      SubnetNetsMembers(cs, sizes, dst);
      forall i | 0 <= i < |cs|
        ensures Connected(cs[i], sizes, dst) <==> LeadsTo(cs[i], sizes, dst)
      {
        ConnectedIsSubnet(cs[i], sizes, dst);
      }
      forall q
        ensures Brought(table, cs, iface, q) && Spared(q, sizes) <==> q in CleanUp(Prepared(table, cs, iface), sizes)
      {
        BroughtIsPrepared(table, cs, iface, q);
        CleanedIsNotSpared(q, sizes);
      }
    }
  }

  /**
   The final table.  Exactly: what was there, what the helper added and the missing host
   routes to gateways, as far as the clean-up is not for them, and a link-scope route for each
   connected subnet that they leave unreached.  Hence every gateway is reached, so is
   the connected subnet of every family with a prefix length, no route the clean-up is for
   remains, and no route with a gateway is gone.
   */
  lemma FinalTable(table: Routes, cs: seq<IPConfig>, iface: Routes, sizes: Sizes)
    requires AllMatched(cs) && ValidSizes(sizes)
    ensures var final := Final(table, cs, iface, sizes);
            && (forall r :: r in final <==>
                  (Brought(table, cs, iface, r) && Spared(r, sizes)) || Connects(table, cs, iface, sizes, r))
            && (forall i :: 0 <= i < |cs| ==> Reaches(final, HostNet(cs[i].gateway)))
            && (forall i :: 0 <= i < |cs| && (if |cs[i].address.ip| == 4 then sizes.v4 else sizes.v6) != 0 ==>
                  exists dst :: Connected(cs[i], sizes, dst) && Reaches(final, dst))
            && (forall r :: r in final ==> Spared(r, sizes))
            && (forall r :: (r in table || r in iface) && r.gw.Some? ==> r in final)
  {
    var kept, final := CleanUp(Prepared(table, cs, iface), sizes), Final(table, cs, iface, sizes);
    FinalExactly(table, cs, iface, sizes);
    hide Prepared, WithRoutes, Final, SubnetNets, SubnetNet, GatewayNet, Connected, LeadsTo, Brought, Spared, Connects, Cleaned, Reaches;
    forall r
      ensures r in kept <==> Brought(table, cs, iface, r) && Spared(r, sizes)
      ensures r in final && r !in kept <==> Connects(table, cs, iface, sizes, r) && r !in kept
      ensures Connects(table, cs, iface, sizes, r) ==> r in final
      ensures r in final ==> Spared(r, sizes)
    {
      BroughtIsPrepared(table, cs, iface, r);
      CleanedIsNotSpared(r, sizes);
      ConnectsIsAdded(table, cs, iface, sizes, r);
    }
    forall i | 0 <= i < |cs|
      ensures Reaches(final, HostNet(cs[i].gateway))
      ensures (if |cs[i].address.ip| == 4 then sizes.v4 else sizes.v6) != 0 ==>
                exists dst :: Connected(cs[i], sizes, dst) && Reaches(final, dst)
    {
      GatewayNetIsHost(cs[i]);
      ConnectedIsSubnet(cs[i], sizes, SubnetNet(cs[i], sizes));
      SizeByWidth(cs[i], sizes);
    }
    forall r | (r in table || r in iface) && r.gw.Some?
      ensures r in final
    {
      SparedByGateway(table, cs, iface, sizes, r);
      BroughtIsPrepared(table, cs, iface, r);
    }
  }

  lemma SizeByWidth(c: IPConfig, sizes: Sizes)
    requires Matched(c)
    ensures SizeOf(sizes, FamilyOf(c.address.ip)) == if |c.address.ip| == 4 then sizes.v4 else sizes.v6
    ensures SizeOf(sizes, FamilyOf(c.address.ip)) != 0 ==> LeadsTo(c, sizes, SubnetNet(c, sizes))
  {
  }

  lemma SparedByGateway(table: Routes, cs: seq<IPConfig>, iface: Routes, sizes: Sizes, r: Route)
    requires (r in table || r in iface) && r.gw.Some?
    ensures Brought(table, cs, iface, r) && Spared(r, sizes)
  {
  }

  /** The same by what the loops do to the table. */
  lemma FinalExactly(table: Routes, cs: seq<IPConfig>, iface: Routes, sizes: Sizes)
    requires AllMatched(cs) && ValidSizes(sizes)
    ensures var kept := CleanUp(Prepared(table, cs, iface), sizes); var final := Final(table, cs, iface, sizes);
            && (forall r :: r in final <==>
                  r in kept || (r.dst.Some? && r == LinkRoute(r.dst.value) && r.dst.value in SubnetNets(cs, sizes) && !Reaches(kept, r.dst.value)))
            && (forall r :: r in final ==> !Cleaned(r, sizes))
            && (forall i :: 0 <= i < |cs| ==> Reaches(final, GatewayNet(cs[i])))
            && (forall i :: 0 <= i < |cs| && SizeOf(sizes, FamilyOf(cs[i].address.ip)) != 0 ==>
                  Reaches(final, SubnetNet(cs[i], sizes)))
  {
    var kept, final := CleanUp(Prepared(table, cs, iface), sizes), Final(table, cs, iface, sizes);
    hide WithRoutes, SubnetNet, SubnetNets, GatewayNets, FamilyOf, IsDefault;
    forall r
      ensures r in final <==>
                r in kept || (r.dst.Some? && r == LinkRoute(r.dst.value) && r.dst.value in SubnetNets(cs, sizes) && !Reaches(kept, r.dst.value))
      ensures r in final ==> !Cleaned(r, sizes)
    {
      WithRoutesExactly(kept, SubnetNets(cs, sizes), r);
      if r in final && r !in kept {
        SubnetRouteStays(cs, sizes, r.dst.value);
        assert r == LinkRoute(r.dst.value);
      }
    }
    forall i | 0 <= i < |cs|
      ensures Reaches(final, GatewayNet(cs[i]))
      ensures SizeOf(sizes, FamilyOf(cs[i].address.ip)) != 0 ==> Reaches(final, SubnetNet(cs[i], sizes))
    {
      GatewayStaysReached(table, cs, iface, sizes, i);
      WithRoutesExactly(kept, SubnetNets(cs, sizes), LinkRoute(GatewayNet(cs[i])));
      WithRoutesExactly(kept, SubnetNets(cs, sizes), LinkRoute(SubnetNet(cs[i], sizes)));
      SubnetNetsMembers(cs, sizes, SubnetNet(cs[i], sizes));
      assert SizeOf(sizes, FamilyOf(cs[i].address.ip)) != 0 ==> LeadsTo(cs[i], sizes, SubnetNet(cs[i], sizes));
    }
  }

  /** The clean-up leaves whichever route reaches a gateway: it is a host route. */
  lemma GatewayStaysReached(table: Routes, cs: seq<IPConfig>, iface: Routes, sizes: Sizes, i: nat)
    requires AllMatched(cs) && i < |cs|
    ensures Reaches(CleanUp(Prepared(table, cs, iface), sizes), GatewayNet(cs[i]))
  {
    var dst := GatewayNet(cs[i]);
    assert dst == GatewayNets(cs)[i];
    WithRoutesExactly(table, GatewayNets(cs), LinkRoute(dst));
    var q :| q in WithRoutes(table, GatewayNets(cs)) && q.dst == Some(dst);
    GatewayIsHost(cs[i]);
    hide GatewayNet, GatewayNets, WithRoutes;
    assert q in Prepared(table, cs, iface) && !Cleaned(q, sizes);
  }

  lemma GatewayIsHost(c: IPConfig)
    ensures GatewayNet(c).ones == GatewayNet(c).bits > 0
  {
  }

  /** Nothing is added where everything is reached. */
  lemma AllReached(table: Routes, dsts: seq<IPNet>)
    requires forall i :: 0 <= i < |dsts| ==> Reaches(table, dsts[i])
    ensures WithRoutes(table, dsts) == table
  {
    hide WithRoutes;
    forall r
      ensures r in WithRoutes(table, dsts) <==> r in table
    {
      WithRoutesExactly(table, dsts, r);
    }
  }

  /** Running again, with the helper adding the same, changes nothing. */
  lemma RunAgain(table: Routes, cs: seq<IPConfig>, iface: Routes, sizes: Sizes)
    requires AllMatched(cs) && ValidSizes(sizes)
    ensures var final := Final(table, cs, iface, sizes); Final(final, cs, iface, sizes) == final
  {
    var final := Final(table, cs, iface, sizes);
    FinalTable(table, cs, iface, sizes);
    FinalExactly(table, cs, iface, sizes);
    forall i | 0 <= i < |GatewayNets(cs)|
      ensures Reaches(final, GatewayNets(cs)[i])
    {
      assert GatewayNets(cs)[i] == GatewayNet(cs[i]);
    }
    AllReached(final, GatewayNets(cs));
    hide WithRoutes, GatewayNets, GatewayNet, SubnetNet, FamilyOf;
    assert CleanUp(Prepared(final, cs, iface), sizes) == final by {
      assert forall r :: r in final ==> !Cleaned(r, sizes);
      assert forall r :: r in iface && !Cleaned(r, sizes) ==> r in final;
    }
    forall i | 0 <= i < |SubnetNets(cs, sizes)|
      ensures Reaches(final, SubnetNets(cs, sizes)[i])
    {
      SubnetNetsMembers(cs, sizes, SubnetNets(cs, sizes)[i]);
    }
    AllReached(final, SubnetNets(cs, sizes));
  }

  /** The helper that sets the hardware address gets the first address of the family in the result, if there is one. */
  lemma {:induction false} FirstAddressIsFirst(cs: seq<IPConfig>, f: Family, i: nat)
    requires AllMatched(cs)
    ensures FirstAddress(cs, f) == [] <==> forall j :: 0 <= j < |cs| ==> FamilyOf(cs[j].address.ip) != f
    ensures i < |cs| && FamilyOf(cs[i].address.ip) == f && (forall j :: 0 <= j < i ==> FamilyOf(cs[j].address.ip) != f) ==>
              FirstAddress(cs, f) == cs[i].address.ip
    decreases |cs|
  {
    hide FamilyOf;
    if cs != [] {
      var n := |cs| - 1;
      FirstAddressIsFirst(cs[..n], f, i);
      assert forall j :: 0 <= j < n ==> cs[..n][j] == cs[j];
      assert cs[n].address.ip != [];
    }
  }
}
