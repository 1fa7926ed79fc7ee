/** The allocator over the store: IPManager, method by method, on text keys and byte addresses. */
module IPStore {
  import opened Wrappers
  import opened Types
  import opened Bits
  import opened Bytes
  import opened Text
  import opened Keys
  import opened Cycle
  import opened Subnets
  import opened KeyValueStore

  type Data = map<string, string>

  /** Some listed record carries the id. */
  predicate InUse(data: Data, prefix: string, id: string)
  {
    exists k :: k in data && prefix <= k && data[k] == id
  }

  /** The first key listed under the prefix whose record carries the id. */
  ghost predicate FirstBearer(data: Data, prefix: string, id: string, key: string)
  {
    && key in data && prefix <= key && data[key] == id
    && forall k :: k in data && prefix <= k && data[k] == id ==> Precedes(key, k)
  }

  /** What assigning does to the store: the key must be new, and the id unused under the prefix. */
  function AssignData(data: Data, key: string, id: string, prefix: string): Result<Data, Failure>
  {
    if key in data then Err(KeyExists)
    else if id != "" && InUse(data, prefix, id) then Err(IdInUse)
    else Ok(data[key := id])
  }

  /** The addresses between lo and hi whose keys are present. */
  ghost function UsedBetween(family: Family, lo: nat, hi: nat, data: Data): set<nat>
    decreases if lo <= hi then hi - lo + 1 else 0
  {
    if lo > hi then {} else (if Key(family, lo) in data then {lo} else {}) + UsedBetween(family, lo + 1, hi, data)
  }

  ghost function UsedHosts(family: Family, p: Pool, data: Data): set<nat>
  {
    UsedBetween(family, p.lo, p.hi, data)
  }

  lemma {:induction false} UsedIff(family: Family, lo: nat, hi: nat, data: Data, a: nat)
    ensures a in UsedBetween(family, lo, hi, data) <==> lo <= a <= hi && Key(family, a) in data
    decreases if lo <= hi then hi - lo + 1 else 0
  {
    hide Key;
    if lo <= hi {
      UsedIff(family, lo + 1, hi, data, a);
    }
  }

  /** An IPv4 subnet whose first octet is not zero. */
  predicate Served4(net: IPNet)
  {
    Usable(V4, net) && net.Min() >= 0x100_0000
  }

  /** An IPv6 subnet none of whose addresses is a mapped IPv4 one. */
  ghost predicate Served6(net: IPNet)
  {
    Usable(V6, net) && forall a: nat :: net.Min() <= a <= net.Max() ==> Plain(V6, a)
  }

  ghost predicate Served(family: Family, net: IPNet)
  {
    if family == V4 then Served4(net) else Served6(net)
  }

  /** An address the subnet's search can start from. */
  predicate StartsIn(family: Family, net: IPNet, ip: IP)
    requires Usable(family, net)
  {
    |ip| == |net.ip| && (family == V6 ==> To4(ip).None?) && net.Contains(ip)
  }

  /** The search over the subnet comes to an end: at once, or at some probe. */
  ghost predicate SearchEnds(family: Family, net: IPNet, start: IP, data: Data)
    requires Usable(family, net)
  {
    var p := HostPool(family, net);
    StartsIn(family, net, start) ==> LoopExits(p, UsedHosts(family, p, data), Value(start))
  }

  function ListPrefix(family: Family): string
  {
    if family == V4 then IP_PREFIX else IP_PREFIX_V6
  }

  /** Record the free host nearest after `start`. */
  ghost function AllocateNear(family: Family, p: Pool, start: nat, data: Data, id: string): Result<(nat, Data), Failure>
    requires p.Valid()
  {
    match FirstFree(p, UsedHosts(family, p, data), start)
    case None => Err(Exhausted)
    case Some(a) =>
      match AssignData(data, Key(family, a), id, ListPrefix(family))
      case Err(e) => Err(e)
      case Ok(data') => Ok((a, data'))
  }

  /** What an allocation from the subnet does, with its cursor at `start`. */
  ghost function AllocateData(family: Family, net: IPNet, start: IP, data: Data, id: string): Result<(nat, Data), Failure>
    requires Usable(family, net)
  {
    if |start| != |net.ip| || (family == V6 && To4(start).Some?) then Err(WrongFamily)
    else if !net.Contains(start) then Err(OutsideSubnet)
    else
      HostPoolShape(family, net);
      AllocateNear(family, HostPool(family, net), Value(start), data, id)
  }

  /** Assigning, outcome by outcome. */
  lemma AssignOutcome(data: Data, key: string, id: string, prefix: string)
    ensures var r := AssignData(data, key, id, prefix);
            var taken := id != "" && exists k :: k in data && prefix <= k && data[k] == id;
            && (key in data ==> r == Err(KeyExists))
            && (key !in data && taken ==> r == Err(IdInUse))
            && (key !in data && !taken ==> r == Ok(data[key := id]))
  {
  }

  ghost predicate AllRecorded(family: Family, p: Pool, data: Data)
  {
    forall b: nat :: p.Host(b) ==> Key(family, b) in data
  }

  /** Some record listed for the family, under "1" or "6", carries the id. */
  ghost predicate IdListed(family: Family, data: Data, id: string)
  {
    id != "" && exists k :: k in data && (if family == V4 then "1" else "6") <= k && data[k] == id
  }

  /** Of the hosts without a record none is nearer after the start. */
  ghost predicate Nearest(family: Family, p: Pool, start: nat, data: Data, a: nat)
  {
    && p.Host(a) && Key(family, a) !in data
    && forall b: nat :: p.Host(b) && Key(family, b) !in data ==> Distance(p, start, a) <= Distance(p, start, b)
  }

  /**
   An allocation, outcome by outcome: the start must be an address of the subnet; the pool
   is exhausted exactly if every host's key is present; else the free host nearest after
   the start is recorded, if no record listed for the family carries the id.
   */
  lemma SearchOutcome(family: Family, net: IPNet, start: IP, data: Data, id: string)
    requires Usable(family, net)
    ensures var r := AllocateData(family, net, start, data, id); var p := HostPool(family, net);
            var form := |start| == |net.ip| && (family == V6 ==> To4(start).None?);
            var inside := form && net.Min() <= Value(start) <= net.Max();
            var full := AllRecorded(family, p, data);
            var taken := IdListed(family, data, id);
            && (!form ==> r == Err(WrongFamily))
            && (form && !inside ==> r == Err(OutsideSubnet))
            && (inside && full ==> r == Err(Exhausted))
            && (inside && !full && taken ==> r == Err(IdInUse))
            && (inside && !full && !taken ==>
                  && r.Ok? && r.value.1 == data[Key(family, r.value.0) := id]
                  && Nearest(family, p, Value(start), data, r.value.0))
  {
    hide Key, Value, AllocateNear, To4, HostPool, IPNet.Contains, AllRecorded, IdListed, Nearest;
    HostPoolShape(family, net);
    var p := HostPool(family, net);
    if |start| == |net.ip| && (family == V6 ==> To4(start).None?) {
      ContainsIsInterval(net, start);
      AllocateOutcome(family, p, Value(start), data, id);
    }
  }

  lemma AllocateOutcome(family: Family, p: Pool, start: nat, data: Data, id: string)
    requires p.Valid()
    ensures var r := AllocateNear(family, p, start, data, id);
            var full := AllRecorded(family, p, data);
            var taken := IdListed(family, data, id);
            && (full ==> r == Err(Exhausted))
            && (!full && taken ==> r == Err(IdInUse))
            && (!full && !taken ==>
                  && r.Ok? && r.value.1 == data[Key(family, r.value.0) := id]
                  && Nearest(family, p, start, data, r.value.0))
  {
    hide Key, Distance, FirstFree, UsedBetween;
    var used := UsedHosts(family, p, data);
    forall b: nat | p.Host(b)
      ensures b in used <==> Key(family, b) in data
    {
      UsedIff(family, p.lo, p.hi, data, b);
    }
    FirstFreeIsNearest(p, used, start);
  }

  // ---- following the loop of the search

  /** After k probes, all of occupied addresses. */
  ghost predicate Probed(p: Pool, used: set<nat>, start: nat, k: nat)
    requires p.Valid()
  {
    && k <= p.Size()
    && UsedBefore(p, used, start, k + 1)
    && forall j :: 1 <= j <= k ==> Nth(p, start, j) != start
  }

  /** The next probe: a free address ends the search with it, the start with exhaustion, anything else goes on. */
  lemma ProbeNext(p: Pool, used: set<nat>, start: nat, k: nat)
    requires p.Valid() && Probed(p, used, start, k) && LoopExits(p, used, start)
    ensures k < p.Size()
    ensures var a := Nth(p, start, k + 1);
            && p.Host(a)
            && (a !in used ==> FirstFree(p, used, start) == Some(a))
            && (a in used && a == start ==> FirstFree(p, used, start) == None)
            && (a in used && a != start ==> Probed(p, used, start, k + 1))
  {
    if k == p.Size() {
      ProbedAll(p, used, start);
      assert false;
    }
    var a := Nth(p, start, k + 1);
    NthIsHost(p, start, k + 1);
    if a !in used {
      NearestIsNext(p, used, start, k + 1);
    } else if a == start {
      ReturnIsExhaustion(p, used, start, k + 1);
    }
  }

  /** After occupied addresses only, a free one is the nearest. */
  lemma NearestIsNext(p: Pool, used: set<nat>, start: nat, k: nat)
    requires p.Valid() && 1 <= k <= p.Size() && UsedBefore(p, used, start, k) && Nth(p, start, k) !in used
    requires p.Host(Nth(p, start, k))
    ensures FirstFree(p, used, start) == Some(Nth(p, start, k))
  {
    hide Nth, FirstFree;
    var a := Nth(p, start, k);
    FullCycle(p, start, a, k);
    forall b: nat | p.Host(b) && b !in used
      ensures k <= Distance(p, start, b)
    {
      FullCycle(p, start, b, Distance(p, start, b));
    }
    hide Distance;
    FirstFreeIsNearest(p, used, start);
  }

  /** Back at the start after occupied addresses only: that was all of them. */
  lemma ReturnIsExhaustion(p: Pool, used: set<nat>, start: nat, k: nat)
    requires p.Valid() && 1 <= k <= p.Size() && UsedBefore(p, used, start, k + 1) && Nth(p, start, k) == start
    requires p.Host(start)
    ensures FirstFree(p, used, start) == None
  {
    FullCycle(p, start, start, k);
    hide Nth, FirstFree, Distance;
    AllUsed(p, used, start);
    FirstFreeIsNearest(p, used, start);
  }

  lemma AllUsed(p: Pool, used: set<nat>, start: nat)
    requires p.Valid() && UsedBefore(p, used, start, p.Size() + 1)
    ensures forall b: nat :: p.Host(b) ==> b in used
  {
    forall b: nat | p.Host(b)
      ensures b in used
    {
      FullCycle(p, start, b, Distance(p, start, b));
    }
  }

  /** A full round of occupied addresses other than the start: the loop would never end. */
  lemma ProbedAll(p: Pool, used: set<nat>, start: nat)
    requires p.Valid() && Probed(p, used, start, p.Size())
    ensures !LoopExits(p, used, start)
  {
    AllUsed(p, used, start);
    LoopExitsIff(p, used, start);
    if p.Host(start) {
      FullCycle(p, start, start, p.Size());
    }
  }

  /** A subnet's numbers and its addresses name each other. */
  lemma AddressWithin(family: Family, net: IPNet, a: nat)
    requires Served(family, net)
    requires net.Min() <= a <= net.Max()
    ensures Plain(family, a) && Value(Address(family, a)) == a && net.Contains(Address(family, a))
  {
    hide Pow2, RoundDown, Value, Spell;
    MaxFits(net);
    var ip := Address(family, a);
    SpellNames(net, ip, a);
    assert family == V6 ==> Plain(V6, a);
    ContainsIsInterval(net, ip);
  }

  lemma SpellNames(net: IPNet, ip: IP, a: nat)
    requires net.bits == 8 * |net.ip| && a < Pow2(net.bits) && ip == Spell(|net.ip|, a)
    ensures Value(ip) == a
  {
    ValueSpell(|net.ip|, a);
  }

  /** From an address of the subnet NextIP and NextIPv6 step along the cycle of hosts. */
  lemma StepOn(family: Family, net: IPNet, ip: IP)
    requires Served(family, net) && StartsIn(family, net, ip)
    ensures var a := Succ(HostPool(family, net), Value(ip));
            && net.Min() <= Value(ip) <= net.Max() && net.Min() <= a <= net.Max()
            && Spell(|net.ip|, a) == Address(family, a)
            && (family == V4 ==> Shortest(NextNumber(Value(ip), net.Min(), net.Max())) == Address(family, a))
  {
    AddressInRange(net, ip);
    if family == V4 {
      NextIPIsSuccessor(net, Value(ip));
    }
  }

  /** The search after k probes, the last of them of nextIP. */
  ghost predicate Searching(family: Family, net: IPNet, start: IP, data: Data, nextIP: IP, k: nat)
    requires Usable(family, net)
  {
    var p := HostPool(family, net);
    && p.Valid() && k <= p.Size()
    && StartsIn(family, net, nextIP)
    && Value(nextIP) == Nth(p, Value(start), k)
    && Probed(p, UsedHosts(family, p, data), Value(start), k)
  }

  lemma SearchBegins(family: Family, net: IPNet, start: IP, data: Data)
    requires Usable(family, net) && StartsIn(family, net, start)
    ensures Searching(family, net, start, data, start, 0)
  {
    hide Pow2, RoundDown, Value, Distance, FirstFree;
    HostPoolShape(family, net);
  }

  /** One round of the loop, on numbers. */
  lemma NearGoesOn(family: Family, p: Pool, start: nat, data: Data, id: string, k: nat, a: nat)
    requires p.Valid() && Probed(p, UsedHosts(family, p, data), start, k)
    requires LoopExits(p, UsedHosts(family, p, data), start) && a == Nth(p, start, k + 1)
    ensures k < p.Size()
    ensures var goal := AllocateNear(family, p, start, data, id);
            match AssignData(data, Key(family, a), id, ListPrefix(family))
            case Ok(data') => goal == Ok((a, data'))
            case Err(e) =>
              if e != KeyExists then goal == Err(e)
              else if a == start then goal == Err(Exhausted)
              else Probed(p, UsedHosts(family, p, data), start, k + 1)
  {
    ProbeNext(p, UsedHosts(family, p, data), start, k);
    UsedIff(family, p.lo, p.hi, data, a);
  }

  /** One round of the loop: the address probed next, and what follows from how recording it went. */
  lemma SearchGoesOn(family: Family, net: IPNet, start: IP, data: Data, nextIP: IP, k: nat, id: string)
    requires Served(family, net) && StartsIn(family, net, start) && SearchEnds(family, net, start, data)
    requires Searching(family, net, start, data, nextIP, k)
    ensures var p := HostPool(family, net); var a := Succ(p, Value(nextIP)); var goal := AllocateData(family, net, start, data, id);
            && p.Valid() && k < p.Size() && StartsIn(family, net, nextIP)
            && match AssignData(data, Key(family, a), id, ListPrefix(family))
               case Ok(data') => goal == Ok((a, data'))
               case Err(e) =>
                 if e != KeyExists then goal == Err(e)
                 else if Address(family, a) == start then goal == Err(Exhausted)
                 else Searching(family, net, start, data, Address(family, a), k + 1)
  {
    var p := HostPool(family, net);
    var a := Succ(p, Value(nextIP));
    assert a == Nth(p, Value(start), k + 1);
    NearGoesOn(family, p, Value(start), data, id, k, a);
    StepOn(family, net, nextIP);
    SameAddress(family, net, start, a);
    AllocateStarts(family, net, start, data, id);
  }

  lemma AllocateStarts(family: Family, net: IPNet, start: IP, data: Data, id: string)
    requires Usable(family, net) && StartsIn(family, net, start)
    ensures HostPool(family, net).Valid()
    ensures AllocateData(family, net, start, data, id) == AllocateNear(family, HostPool(family, net), Value(start), data, id)
  {
    HostPoolShape(family, net);
  }

  lemma SameAddress(family: Family, net: IPNet, ip: IP, a: nat)
    requires Served(family, net) && StartsIn(family, net, ip) && net.Min() <= a <= net.Max()
    ensures Address(family, a) == ip <==> a == Value(ip)
    ensures StartsIn(family, net, Address(family, a)) && Value(Address(family, a)) == a
  {
    AddressWithin(family, net, a);
    if a == Value(ip) {
      ValueInjective(Address(family, a), ip);
    }
  }

  lemma NotPlain(ip: IP)
    requires |ip| != 16 || To4(ip).Some?
    ensures PlainIPv6(ip).None?
  {
  }

  /** What a cursor field becomes when a key is parsed into it: nil if the key is no address. */
  function Parsed(text: string): IP
  {
    var ip := ParseIP(text);
    if ip.Some? then ip.value else []
  }

  // ---- the manager

  class IPManager {
    const client: Store
    const subnetV4: Option<IPNet>
    const subnetV6: Option<IPNet>
    var lastKnownIP: IP    // empty for nil
    var lastKnownIPv6: IP

    /** NewIPAllocatorDualStack: both cursors start at the network addresses. */
    constructor (client: Store, subnetV4: Option<IPNet>, subnetV6: Option<IPNet>)
      requires subnetV4.Some? ==> subnetV4.value.Is(V4)
      requires subnetV6.Some? ==> subnetV6.value.Is(V6)
      ensures this.client == client && this.subnetV4 == subnetV4 && this.subnetV6 == subnetV6
      ensures lastKnownIP == if subnetV4.Some? then Base(subnetV4.value.ip, subnetV4.value.ones) else []
      ensures lastKnownIPv6 == if subnetV6.Some? then Base(subnetV6.value.ip, subnetV6.value.ones) else []
    {
      this.client := client;
      this.subnetV4 := subnetV4;
      this.subnetV6 := subnetV6;
      lastKnownIP := if subnetV4.Some? then ApplyMask(subnetV4.value.ip, subnetV4.value.Mask()) else [];
      lastKnownIPv6 := if subnetV6.Some? then ApplyMask(subnetV6.value.ip, subnetV6.value.Mask()) else [];
    }

    method SetLastKnownIP(ip: IP)
      modifies this`lastKnownIP
      ensures lastKnownIP == ip
    {
      lastKnownIP := ip;
    }

    method SetLastKnownIPv6(ip: IP)
      modifies this`lastKnownIPv6
      ensures lastKnownIPv6 == if |ip| == 4 then MAPPED_PREFIX + ip else if |ip| == 16 then ip else []
    {
      lastKnownIPv6 := match To16(ip) case Some(wide) => wide case None => [];
    }

    /** Whether a listed record carries the id; finding one is reported as an error. */
    method UniqueID(id: string) returns (r: Result<bool, Failure>)
      ensures r == if InUse(client.data, IP_PREFIX, id) then Err(IdInUse) else Ok(true)
    {
      var kvPairs := client.List(IP_PREFIX);
      for i := 0 to |kvPairs|
        invariant forall j :: 0 <= j < i ==> kvPairs[j].value != id
      {
        if kvPairs[i].value == id {
          return Err(IdInUse);
        }
      }
      return Ok(true);
    }

    method UniqueIDv6(id: string) returns (r: Result<bool, Failure>)
      ensures r == if InUse(client.data, IP_PREFIX_V6, id) then Err(IdInUse) else Ok(true)
    {
      var kvPairsV6 := client.List(IP_PREFIX_V6);
      for i := 0 to |kvPairsV6|
        invariant forall j :: 0 <= j < i ==> kvPairsV6[j].value != id
      {
        if kvPairsV6[i].value == id {
          return Err(IdInUse);
        }
      }
      return Ok(true);
    }

    method Exists(ip: string) returns (found: bool)
      ensures found <==> ip in client.data
    {
      found := client.Exists(ip);
    }

    /** The id under a key, empty when the key is absent. */
    method Get(ip: string) returns (id: string)
      ensures id == if ip in client.data then client.data[ip] else ""
    {
      var kvPair := client.Get(ip);
      id := if kvPair.None? then "" else kvPair.value;
    }

    method Update(key: string, value: string)
      modifies client
      ensures client.data == old(client.data)[key := value]
    {
      client.Put(key, value);
    }

    /** Mark an address as used, under whichever key: the id is looked up among the IPv4 records. */
    method Assign(ip: string, id: string) returns (r: Result<(), Failure>)
      modifies client, this`lastKnownIP
      ensures match AssignData(old(client.data), ip, id, IP_PREFIX)
              case Ok(data) => r == Ok(()) && client.data == data && lastKnownIP == Parsed(ip)
              case Err(e) => r == Err(e) && client.data == old(client.data) && lastKnownIP == old(lastKnownIP)
    {
      var ok := Exists(ip);
      if ok {
        return Err(KeyExists);
      }
      if id != "" {
        var unique := UniqueID(id);
        if unique.Err? {
          return Err(unique.error);
        }
        if !unique.value {
          return Err(IdInUse);
        }
      }
      client.Put(ip, id);
      lastKnownIP := Parsed(ip);
      return Ok(());
    }

    method AssignIPv6(ipKey: string, id: string) returns (r: Result<(), Failure>)
      modifies client
      ensures match AssignData(old(client.data), ipKey, id, IP_PREFIX_V6)
              case Ok(data) => r == Ok(()) && client.data == data
              case Err(e) => r == Err(e) && client.data == old(client.data)
    {
      var ok := client.Exists(ipKey);
      if ok {
        return Err(KeyExists);
      }
      if id != "" {
        var unique := UniqueIDv6(id);
        if unique.Err? {
          return Err(unique.error);
        }
        if !unique.value {
          return Err(IdInUse);
        }
      }
      client.Put(ipKey, id);
      return Ok(());
    }

    method Release(ip: string) returns (r: Result<(), Failure>)
      modifies client, this`lastKnownIP
      ensures r == if ip in old(client.data) then Ok(()) else Err(NotHeld)
      ensures client.data == old(client.data) - {ip}
      ensures lastKnownIP == if r.Ok? then Parsed(ip) else old(lastKnownIP)
    {
      var ok := Exists(ip);
      if !ok {
        return Err(NotHeld);
      }
      client.Delete(ip);
      lastKnownIP := Parsed(ip);
      return Ok(());
    }

    method ReleaseIPv6(ipKey: string) returns (r: Result<(), Failure>)
      modifies client, this`lastKnownIPv6
      ensures r == if ipKey in old(client.data) then Ok(()) else Err(NotHeld)
      ensures client.data == old(client.data) - {ipKey}
      ensures lastKnownIPv6 == if r.Ok? && |ipKey| > |IP_PREFIX_V6| then Parsed(ipKey[|IP_PREFIX_V6|..]) else old(lastKnownIPv6)
    {
      var ok := client.Exists(ipKey);
      if !ok {
        return Err(NotHeld);
      }
      client.Delete(ipKey);
      if |ipKey| > |IP_PREFIX_V6| {
        lastKnownIPv6 := Parsed(ipKey[|IP_PREFIX_V6|..]);
      }
      return Ok(());
    }

    /** The first listed record under a prefix that carries the id. */
    method FindBearer(prefix: string, id: string) returns (key: Option<string>)
      ensures key.None? <==> !InUse(client.data, prefix, id)
      ensures key.Some? ==> FirstBearer(client.data, prefix, id, key.value)
    {
      var kvPairs := client.List(prefix);
      for i := 0 to |kvPairs|
        invariant forall j :: 0 <= j < i ==> kvPairs[j].value != id
      {
        if kvPairs[i].value == id {
          PrecedesTotal(kvPairs[i].key, kvPairs[i].key);
          return Some(kvPairs[i].key);
        }
      }
      return None;
    }

    /**
     Release the first IPv4 and the first IPv6 record listed for an id.  Finding neither is
     an error; an address is reported empty where its family had none.
     */
    method ReleaseByID(id: string)
      returns (r: Result<(string, string), Failure>, ghost key4: Option<string>, ghost key6: Option<string>)
      modifies client, this`lastKnownIP, this`lastKnownIPv6
      ensures IsFirstBearer(old(client.data), IP_PREFIX, id, key4)
      ensures IsFirstBearer(old(client.data), IP_PREFIX_V6, id, key6)
      ensures client.data == old(client.data) - KeySet(key4) - KeySet(key6)
      ensures lastKnownIP == if key4.Some? then Parsed(key4.value) else old(lastKnownIP)
      ensures lastKnownIPv6 == if key6.Some? && |key6.value| > 1 then Parsed(key6.value[1..]) else old(lastKnownIPv6)
      ensures var ip4 := if key4.Some? then key4.value else "";
              var ip6 := if key6.Some? then key6.value[1..] else "";
              r == if ip4 == "" && ip6 == "" then Err(UnknownId) else Ok((ip4, ip6))
    {
      ghost var before := client.data;
      var ipv4Released, ipv6Released := "", "";
      var first4 := FindBearer(IP_PREFIX, id);
      key4 := first4;
      if first4.Some? {
        var released := Release(first4.value);
        ipv4Released := first4.value;
      }
      OtherPrefixUntouched(before, key4, IP_PREFIX_V6, id);
      var first6 := FindBearer(IP_PREFIX_V6, id);
      key6 := first6;
      if first6.Some? {
        var released := ReleaseIPv6(first6.value);
        ipv6Released := first6.value[|IP_PREFIX_V6|..];
      }
      if ipv4Released == "" && ipv6Released == "" {
        return Err(UnknownId), key4, key6;
      }
      return Ok((ipv4Released, ipv6Released)), key4, key6;
    }

    /** The next free IPv4 address after the cursor, recorded under the id. */
    method GetAvailableIP(id: string) returns (r: Result<string, Failure>)
      requires subnetV4.Some? && Served4(subnetV4.value) && (|lastKnownIP| == 16 ==> To4(lastKnownIP).None?)
      requires SearchEnds(V4, subnetV4.value, lastKnownIP, client.data)
      modifies client, this`lastKnownIP
      ensures match AllocateData(V4, subnetV4.value, old(lastKnownIP), old(client.data), id)
              case Err(e) => r == Err(e) && client.data == old(client.data) && lastKnownIP == old(lastKnownIP)
              case Ok((a, data)) => r == Ok(String(Address(V4, a))) && client.data == data && lastKnownIP == Address(V4, a)
    {
      hide Probed, Spell, Value, NextNumber, Shortest, InUse, LoopExits, FirstFree, AlikeUnder, PrefixMask, String, AssignData, RoundDown, Pow2;
      var subnet := subnetV4.value;
      ghost var data, start := client.data, lastKnownIP;
      ghost var goal := AllocateData(V4, subnet, start, data, id);
      ghost var k := 0;
      var nextIP := lastKnownIP;
      if StartsIn(V4, subnet, start) {
        SearchBegins(V4, subnet, start, data);
      }
      while true
        invariant client.data == data && lastKnownIP == start
        invariant if StartsIn(V4, subnet, start) then Searching(V4, subnet, start, data, nextIP, k) else nextIP == start
        decreases HostPool(V4, subnet).hi - HostPool(V4, subnet).lo - k
      {
        var next, rounds := NextIP(nextIP, subnet);
        if next.Err? {
          return Err(next.error);
        }
        SearchGoesOn(V4, subnet, start, data, nextIP, k, id);
        StepOn(V4, subnet, nextIP);
        nextIP := next.value;
        k := k + 1;
        var marked := Assign(String(nextIP), id);
        if marked.Err? && marked.error != KeyExists {
          return Err(marked.error);
        } else if marked.Err? {
          // already in use
        } else {
          lastKnownIP := nextIP;
          return Ok(String(nextIP));
        }
        if Equal(nextIP, lastKnownIP) {
          return Err(Exhausted);
        }
      }
    }

    /** Where an IPv6 search starts: the network address stands in for a cursor that is nil. */
    function StartV6(): IP
      requires subnetV6.Some? && subnetV6.value.Is(V6)
      reads this`lastKnownIPv6
    {
      if lastKnownIPv6 == [] then Base(subnetV6.value.ip, subnetV6.value.ones) else lastKnownIPv6
    }

    /** The next free IPv6 address after the cursor, recorded under the id. */
    method GetAvailableIPv6(id: string) returns (r: Result<string, Failure>)
      requires subnetV6.Some? ==> Served6(subnetV6.value) && SearchEnds(V6, subnetV6.value, StartV6(), client.data)
      modifies client, this`lastKnownIPv6
      ensures subnetV6.None? ==> r == Err(NotConfigured) && client.data == old(client.data)
      ensures subnetV6.Some? ==>
                match AllocateData(V6, subnetV6.value, old(StartV6()), old(client.data), id)
                case Err(e) => r == Err(e) && client.data == old(client.data) && lastKnownIPv6 == old(lastKnownIPv6)
                case Ok((a, data)) => r == Ok(String(Address(V6, a))) && client.data == data && lastKnownIPv6 == Address(V6, a)
    {
      if subnetV6.None? {
        return Err(NotConfigured);
      }
      hide Served6, SearchEnds, AllocateData;
      var startIP := lastKnownIPv6;
      if startIP == [] {
        startIP := ApplyMask(subnetV6.value.ip, subnetV6.value.Mask());
      }
      r := SearchFrom(startIP, id);
    }

    /** GetAvailableIPv6's loop, once around from startIP. */
    method SearchFrom(startIP: IP, id: string) returns (r: Result<string, Failure>)
      requires subnetV6.Some? && Served6(subnetV6.value) && SearchEnds(V6, subnetV6.value, startIP, client.data)
      modifies client, this`lastKnownIPv6
      ensures match AllocateData(V6, subnetV6.value, startIP, old(client.data), id)
              case Err(e) => r == Err(e) && client.data == old(client.data) && lastKnownIPv6 == old(lastKnownIPv6)
              case Ok((a, data)) => r == Ok(String(Address(V6, a))) && client.data == data && lastKnownIPv6 == Address(V6, a)
    {
      hide Probed, Spell, Value, NextNumber, Shortest, InUse, LoopExits, FirstFree, AlikeUnder, PrefixMask, String, AssignData, RoundDown, Pow2, Plain;
      var subnet := subnetV6.value;
      ghost var data := client.data;
      if |startIP| != 16 || To4(startIP).Some? {
        NotPlain(startIP);
      }
      ghost var k := 0;
      var nextIP := startIP;
      if StartsIn(V6, subnet, startIP) {
        SearchBegins(V6, subnet, startIP, data);
      }
      while true
        invariant client.data == data && lastKnownIPv6 == old(lastKnownIPv6)
        invariant if StartsIn(V6, subnet, startIP) then Searching(V6, subnet, startIP, data, nextIP, k) else nextIP == startIP
        decreases HostPool(V6, subnet).hi - HostPool(V6, subnet).lo - k
      {
        var next, rounds := NextIPv6(nextIP, subnet);
        if next.Err? {
          return Err(next.error);
        }
        SearchGoesOn(V6, subnet, startIP, data, nextIP, k, id);
        StepOn(V6, subnet, nextIP);
        nextIP := next.value;
        k := k + 1;
        var ipKey := IP_PREFIX_V6 + String(nextIP);
        var marked := AssignIPv6(ipKey, id);
        if marked.Err? && marked.error != KeyExists {
          return Err(marked.error);
        } else if marked.Err? {
          // already in use
        } else {
          lastKnownIPv6 := nextIP;
          return Ok(String(nextIP));
        }
        if Equal(nextIP, startIP) {
          return Err(Exhausted);
        }
      }
    }
  }

  ghost function KeySet(key: Option<string>): set<string>
  {
    if key.Some? then {key.value} else {}
  }

  /** The first bearer if there is one. */
  ghost predicate IsFirstBearer(data: Data, prefix: string, id: string, key: Option<string>)
  {
    if key.Some? then FirstBearer(data, prefix, id, key.value) else !InUse(data, prefix, id)
  }

  /** The first key listed under the prefix whose record carries the id, if there is one. */
  ghost function Bearer(data: Data, prefix: string, id: string): (key: Option<string>)
    ensures IsFirstBearer(data, prefix, id, key)
  {
    if InUse(data, prefix, id) then
      FirstBearerExists(data, prefix, id);
      var key :| FirstBearer(data, prefix, id, key);
      Some(key)
    else None
  }

  lemma FirstBearerExists(data: Data, prefix: string, id: string)
    requires InUse(data, prefix, id)
    ensures exists key :: FirstBearer(data, prefix, id, key)
  {
    var keys := set k | k in data && prefix <= k && data[k] == id;
    var k :| k in data && prefix <= k && data[k] == id;
    assert k in keys;
    LeastExists(keys);
    var key :| IsLeast(keys, key);
    assert FirstBearer(data, prefix, id, key);
  }

  /** The first bearer is unique. */
  lemma BearerIs(data: Data, prefix: string, id: string, key: Option<string>)
    requires IsFirstBearer(data, prefix, id, key)
    ensures key == Bearer(data, prefix, id)
  {
    var bearer := Bearer(data, prefix, id);
    hide Precedes;
    if key.Some? && bearer.Some? {
      PrecedesTotal(key.value, bearer.value);
    }
  }

  /** Deleting a key listed under "1" changes nothing listed under "6". */
  lemma OtherPrefixUntouched(data: Data, key: Option<string>, prefix: string, id: string)
    requires prefix == IP_PREFIX_V6 && (key.Some? ==> IP_PREFIX <= key.value)
    ensures InUse(data - KeySet(key), prefix, id) <==> InUse(data, prefix, id)
    ensures forall k :: FirstBearer(data - KeySet(key), prefix, id, k) <==> FirstBearer(data, prefix, id, k)
  {
    var less := data - KeySet(key);
    forall k | prefix <= k
      ensures (k in less <==> k in data) && (k in less ==> less[k] == data[k])
    {
      assert k[0] == '6' && (key.Some? ==> key.value[0] == '1');
    }
    if InUse(data, prefix, id) {
      var k :| k in data && prefix <= k && data[k] == id;
      assert k in less;
    }
  }
}
