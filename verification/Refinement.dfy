/** The store's text records as the numbered records of the specification, operation by operation. */
module Refinement {
  import opened Wrappers
  import opened Types
  import opened Bytes
  import opened Text
  import opened Keys
  import opened Cycle
  import opened Subnets
  import opened IPStore
  import opened Allocation
  import opened Runs

  /** An IPv4 address is one that listing under "1" finds. */
  predicate Listed(f: Family, a: nat)
  {
    f == V4 ==> LeadingOne(Address(f, a)[0])
  }

  ghost predicate Recorded(f: Family, data: Data, t: Table)
  {
    && (forall a :: a in t.held ==> Plain(f, a) && Listed(f, a) && Key(f, a) in data && data[Key(f, a)] == t.held[a])
    && (t.cursor.Some? ==> Plain(f, t.cursor.value))
    && (t.cursor.Some? <==> CursorKey(f) in data)
    && (t.cursor.Some? ==> data[CursorKey(f)] == String(Address(f, t.cursor.value)))
  }

  ghost predicate Names(f: Family, t: Table, k: string)
  {
    k == CursorKey(f) || exists a :: a in t.held && Key(f, a) == k
  }

  /** The store holds the records and cursors of the state, and nothing else. */
  ghost predicate Represents(data: Data, st: State)
  {
    && Recorded(V4, data, st.v4) && Recorded(V6, data, st.v6)
    && forall k :: k in data ==> Names(V4, st.v4, k) || Names(V6, st.v6, k)
  }

  function WithTable(st: State, f: Family, t: Table): State
  {
    if f == V4 then st.(v4 := t) else st.(v6 := t)
  }

  lemma EmptyRepresents()
    ensures Represents(map[], EMPTY_STATE)
  {
  }

  lemma CursorKeysDiffer()
    ensures CursorKey(V4) != CursorKey(V6)
  {
    assert |CursorKey(V4)| != |CursorKey(V6)|;
  }

  lemma HasKey(data: Data, st: State, f: Family, a: nat)
    requires Represents(data, st) && Plain(f, a)
    ensures Key(f, a) in data <==> a in TableOf(st, f).held
  {
    hide Key, Plain, Listed;
    var k := Key(f, a);
    if k in data {
      var g := if Names(V4, st.v4, k) then V4 else V6;
      NotACursorKey(f, a, g);
      assert Recorded(g, data, TableOf(st, g)) && Names(g, TableOf(st, g), k);
      var b :| b in TableOf(st, g).held && Key(g, b) == k;
      KeysDistinct(f, a, g, b);
    }
  }

  /** A record's key is none of the other keys in use. */
  lemma FreshKey(data: Data, st: State, f: Family, a: nat, g: Family)
    requires Represents(data, st) && Plain(f, a)
    ensures forall b :: b in TableOf(st, g).held && Key(g, b) == Key(f, a) ==> g == f && b == a
    ensures Key(f, a) != CursorKey(g)
  {
    hide Key, Plain, Listed;
    NotACursorKey(f, a, g);
    forall b | b in TableOf(st, g).held && Key(g, b) == Key(f, a)
      ensures g == f && b == a
    {
      KeysDistinct(f, a, g, b);
    }
  }

  /** Recording an address leaves every table's entries where they were. */
  lemma PutKeepsTable(data: Data, t: Table, g: Family, key: string, id: string)
    requires Recorded(g, data, t) && key != CursorKey(g)
    requires forall b :: b in t.held ==> Key(g, b) != key
    ensures Recorded(g, data[key := id], t) && Recorded(g, data - {key}, t)
  {
    hide Key, Plain, Listed;
  }

  lemma PutInTable(data: Data, t: Table, f: Family, a: nat, id: string)
    requires Recorded(f, data, t) && Plain(f, a) && Listed(f, a) && Key(f, a) != CursorKey(f)
    requires forall b :: b in t.held && Key(f, b) == Key(f, a) ==> b == a
    ensures Recorded(f, data[Key(f, a) := id], t.(held := t.held[a := id]))
    ensures Recorded(f, data - {Key(f, a)}, t.(held := t.held - {a}))
  {
    hide Key, Plain, Listed;
  }

  lemma PutRecord(data: Data, st: State, f: Family, a: nat, id: string)
    requires Represents(data, st) && Plain(f, a) && Listed(f, a)
    ensures var t := TableOf(st, f);
            Represents(data[Key(f, a) := id], WithTable(st, f, t.(held := t.held[a := id])))
  {
    hide Key, Plain, Listed, Recorded, Names;
    var g, t := if f == V4 then V6 else V4, TableOf(st, f);
    FreshKey(data, st, f, a, f);
    FreshKey(data, st, f, a, g);
    PutInTable(data, t, f, a, id);
    PutKeepsTable(data, TableOf(st, g), g, Key(f, a), id);
    var data', t' := data[Key(f, a) := id], t.(held := t.held[a := id]);
    forall k | k in data'
      ensures Names(f, t', k) || Names(g, TableOf(st, g), k)
    {
      NamesGrow(f, t, a, id, k);
    }
  }

  lemma NamesGrow(f: Family, t: Table, a: nat, id: string, k: string)
    ensures k == Key(f, a) || Names(f, t, k) ==> Names(f, t.(held := t.held[a := id]), k)
  {
    hide Key, Plain, Listed;
    var t' := t.(held := t.held[a := id]);
    assert a in t'.held;
    if Names(f, t, k) && k != CursorKey(f) {
      var b :| b in t.held && Key(f, b) == k;
      assert b in t'.held;
    }
  }

  lemma DropRecord(data: Data, st: State, f: Family, a: nat)
    requires Represents(data, st) && Plain(f, a) && Listed(f, a)
    ensures var t := TableOf(st, f);
            Represents(data - {Key(f, a)}, WithTable(st, f, t.(held := t.held - {a})))
  {
    hide Key, Plain, Listed, Recorded, Names;
    var g, t := if f == V4 then V6 else V4, TableOf(st, f);
    FreshKey(data, st, f, a, f);
    FreshKey(data, st, f, a, g);
    PutInTable(data, t, f, a, "");
    PutKeepsTable(data, TableOf(st, g), g, Key(f, a), "");
    var data', t' := data - {Key(f, a)}, t.(held := t.held - {a});
    forall k | k in data'
      ensures Names(f, t', k) || Names(g, TableOf(st, g), k)
    {
      NamesShrink(f, t, a, k);
    }
  }

  lemma NamesShrink(f: Family, t: Table, a: nat, k: string)
    ensures k != Key(f, a) && Names(f, t, k) ==> Names(f, t.(held := t.held - {a}), k)
  {
    hide Key, Plain, Listed;
    if k != Key(f, a) && Names(f, t, k) && k != CursorKey(f) {
      var b :| b in t.held && Key(f, b) == k;
      assert b in (t.held - {a});
    }
  }

  lemma CursorInTable(data: Data, t: Table, f: Family, a: nat)
    requires Recorded(f, data, t) && Plain(f, a) && forall b :: b in t.held ==> Key(f, b) != CursorKey(f)
    ensures Recorded(f, data[CursorKey(f) := String(Address(f, a))], t.(cursor := Some(a)))
  {
    hide Key, Plain, Listed, CursorKey, String, Address;
  }

  lemma PutCursor(data: Data, st: State, f: Family, a: nat)
    requires Represents(data, st) && Plain(f, a)
    ensures Represents(data[CursorKey(f) := String(Address(f, a))], WithTable(st, f, TableOf(st, f).(cursor := Some(a))))
  {
    hide Key, Plain, Listed, CursorKey, String, Address, Recorded, Names;
    var g, t := if f == V4 then V6 else V4, TableOf(st, f);
    var data' := data[CursorKey(f) := String(Address(f, a))];
    NoRecordIsCursor(data, st, f, f);
    NoRecordIsCursor(data, st, g, f);
    CursorKeysDiffer();
    CursorInTable(data, t, f, a);
    PutKeepsTable(data, TableOf(st, g), g, CursorKey(f), String(Address(f, a)));
    forall k | k in data'
      ensures Names(f, t.(cursor := Some(a)), k) || Names(g, TableOf(st, g), k)
    {
      NamesKept(f, t, Some(a), k);
    }
  }

  lemma NoRecordIsCursor(data: Data, st: State, g: Family, f: Family)
    requires Represents(data, st)
    ensures forall b :: b in TableOf(st, g).held ==> Key(g, b) != CursorKey(f)
  {
    hide Key, Plain, Listed, CursorKey;
    forall b | b in TableOf(st, g).held
      ensures Key(g, b) != CursorKey(f)
    {
      NotACursorKey(g, b, f);
    }
  }

  lemma NamesKept(f: Family, t: Table, cursor: Option<nat>, k: string)
    ensures k == CursorKey(f) || Names(f, t, k) ==> Names(f, t.(cursor := cursor), k)
  {
    hide Key, Plain, Listed;
    if Names(f, t, k) && k != CursorKey(f) {
      var b :| b in t.held && Key(f, b) == k;
      assert b in t.(cursor := cursor).held;
    }
  }

  /** What a record listed under a family's prefix is: one of that family's. */
  lemma ListedIsRecord(data: Data, st: State, f: Family, k: string)
    requires Represents(data, st) && k in data && ListPrefix(f) <= k
    ensures exists a :: a in TableOf(st, f).held && Key(f, a) == k
  {
    hide Key, Plain;
    var g := if Names(V4, st.v4, k) then V4 else V6;
    var t := TableOf(st, g);
    assert Recorded(g, data, t) && Names(g, t, k);
    assert k[0] != CursorKey(g)[0];
    var a :| a in t.held && Key(g, a) == k;
    ListedUnderPrefix(g, a);
    KeyShape(g, a);
  }

  lemma RecordIsListed(data: Data, st: State, f: Family, a: nat)
    requires Represents(data, st) && a in TableOf(st, f).held
    ensures ListPrefix(f) <= Key(f, a)
  {
    ListedUnderPrefix(f, a);
    KeyShape(f, a);
  }

  /** Scanning a prefix for an id is looking it up among the family's records. */
  lemma ScanFindsIds(data: Data, st: State, f: Family, id: string)
    requires Represents(data, st)
    ensures InUse(data, ListPrefix(f), id) <==> id in TableOf(st, f).held.Values
  {
    hide Key, Plain, Listed;
    var held := TableOf(st, f).held;
    if InUse(data, ListPrefix(f), id) {
      var k :| k in data && ListPrefix(f) <= k && data[k] == id;
      ListedIsRecord(data, st, f, k);
      var a :| a in held && Key(f, a) == k;
      assert held[a] == id;
    }
    if id in held.Values {
      var a :| a in held && held[a] == id;
      RecordIsListed(data, st, f, a);
    }
  }

  // ---- operations

  /** Assigning on the store is assigning in the specification. */
  lemma AssignRefines(data: Data, st: State, f: Family, a: nat, id: string, g: Family)
    requires Represents(data, st) && Plain(f, a) && Listed(f, a)
    ensures var t := TableOf(st, f);
            var r := Assign(t.held, a, id, TableOf(st, g).held);
            match AssignData(data, Key(f, a), id, ListPrefix(g))
            case Err(e) => r == Err(e)
            case Ok(data') => r == Ok(t.held[a := id]) && Represents(data', WithTable(st, f, t.(held := t.held[a := id])))
  {
    hide Key, Plain, Listed, Represents, InUse;
    HasKey(data, st, f, a);
    ScanFindsIds(data, st, g, id);
    PutRecord(data, st, f, a, id);
  }

  /** The configured subnet as the specification sees it. */
  function SiteFor(f: Family, net: IPNet, gateway: IP): Site
    requires Usable(f, net)
  {
    Site(net.Min(), net.Max(), HostPool(f, net), Value(gateway))
  }

  lemma UsedAreHeld(data: Data, st: State, f: Family, p: Pool)
    requires Represents(data, st) && p.Valid()
    requires forall a :: a in TableOf(st, f).held ==> p.Host(a)
    requires forall a: nat :: p.Host(a) ==> Plain(f, a)
    ensures UsedHosts(f, p, data) == TableOf(st, f).held.Keys
  {
    hide Key, Plain, Listed, Represents;
    var used, held := UsedHosts(f, p, data), TableOf(st, f).held;
    forall a: nat
      ensures a in used <==> a in held
    {
      UsedIff(f, p.lo, p.hi, data, a);
      if p.Host(a) {
        HasKey(data, st, f, a);
      }
    }
    assert used == held.Keys;
  }

  /** Every address of the subnet is one whose records the store keeps track of. */
  ghost predicate Tracked(f: Family, net: IPNet)
    requires net.bits == 8 * |net.ip|
  {
    forall a: nat :: net.Min() <= a <= net.Max() ==> Plain(f, a) && Listed(f, a)
  }

  /** Allocating near a cursor in the store is the specification's search. */
  lemma SearchRefines(data: Data, st: State, f: Family, site: Site, start: nat, id: string)
    requires Represents(data, st) && site.pool.Valid() && site.min <= start <= site.max
    requires start == Start(site, TableOf(st, f).cursor)
    requires forall a :: a in TableOf(st, f).held ==> site.pool.Host(a)
    requires forall a: nat :: site.pool.Host(a) ==> Plain(f, a) && Listed(f, a)
    ensures var t := TableOf(st, f);
            var r := Search(site, t.cursor, t.held, id);
            match AllocateNear(f, site.pool, start, data, id)
            case Err(e) => r == Err(e)
            case Ok((a, data')) =>
              && r == Ok((a, t.held[a := id])) && site.pool.Host(a)
              && Represents(data', WithTable(st, f, t.(held := t.held[a := id])))
  {
    hide Key, Plain, Listed, Represents, AssignData, Assign, UsedHosts;
    var t := TableOf(st, f);
    UsedAreHeld(data, st, f, site.pool);
    FirstFreeIsNearest(site.pool, t.held.Keys, start);
    var found := FirstFree(site.pool, t.held.Keys, start);
    if found.Some? {
      AssignRefines(data, st, f, found.value, id, f);
    }
  }

  // ---- the namespaces of the store

  /**
   Non-interference: a change of the store that the specification sees as one of the other
   family only leaves this family's listed records and its cursor as they were.
   */
  lemma OtherFamilyUntouched(data: Data, data': Data, st: State, st': State, f: Family, k: string)
    requires Represents(data, st) && Represents(data', st') && TableOf(st, f) == TableOf(st', f)
    requires ListPrefix(f) <= k || k == CursorKey(f)
    ensures k in data <==> k in data'
    ensures k in data ==> data[k] == data'[k]
  {
    hide Key, Plain, Listed;
    var t := TableOf(st, f);
    assert Recorded(f, data, t) && Recorded(f, data', t);
    if k != CursorKey(f) {
      if k in data {
        ListedIsRecord(data, st, f, k);
      }
      if k in data' {
        ListedIsRecord(data', st', f, k);
      }
    }
  }

  /**
   The id of an IPv4 record that is its only bearer is guarded only where the record's text
   starts with 1: only there is another address refused to the same id, and the record found
   by a release.  A text that starts with 6 is instead found among the IPv6 records.
   */
  lemma IdGuardIff(data: Data, a: nat, key: string, id: string)
    requires Plain(V4, a) && Key(V4, a) in data && key !in data && id != ""
    requires forall k :: k in data ==> (data[k] == id <==> k == Key(V4, a))
    ensures AssignData(data, key, id, IP_PREFIX) == Err(IdInUse) <==> LeadingOne(Address(V4, a)[0])
    ensures (exists k :: FirstBearer(data, IP_PREFIX, id, k)) <==> LeadingOne(Address(V4, a)[0])
    ensures (exists k :: FirstBearer(data, IP_PREFIX_V6, id, k)) <==> LeadingDigit(Address(V4, a)[0]) == 6
  {
    ListedUnderPrefix(V4, a);
    PrecedesTotal(Key(V4, a), Key(V4, a));
    hide Key, Plain, LeadingOne, LeadingDigit, Address, Precedes;
    assert IP_PREFIX <= Key(V4, a) ==> FirstBearer(data, IP_PREFIX, id, Key(V4, a));
    assert IP_PREFIX_V6 <= Key(V4, a) ==> FirstBearer(data, IP_PREFIX_V6, id, Key(V4, a));
  }
}
