/** The key/value store under the allocator: one atomic command at a time, no failing writes. */
module KeyValueStore {
  import opened Wrappers
  import opened Keys

  datatype KVPair = KVPair(key: string, value: string)

  /** The pairs whose key starts with prefix, all of them, in key order. */
  ghost predicate IsListing(data: map<string, string>, prefix: string, pairs: seq<KVPair>)
  {
    && (forall i :: 0 <= i < |pairs| ==>
          prefix <= pairs[i].key && pairs[i].key in data && data[pairs[i].key] == pairs[i].value)
    && (forall k :: k in data && prefix <= k ==> exists i :: 0 <= i < |pairs| && pairs[i].key == k)
    && (forall i, j :: 0 <= i < j < |pairs| ==> Precedes(pairs[i].key, pairs[j].key) && pairs[i].key != pairs[j].key)
  }

  /** The listing so far: what is left follows all of it. */
  ghost predicate IsListingBut(data: map<string, string>, prefix: string, pairs: seq<KVPair>, left: set<string>)
  {
    && (forall k :: k in left ==> k in data && prefix <= k)
    && (forall i :: 0 <= i < |pairs| ==>
          prefix <= pairs[i].key && pairs[i].key in data && data[pairs[i].key] == pairs[i].value)
    && (forall k :: k in data && prefix <= k ==> k in left || exists i :: 0 <= i < |pairs| && pairs[i].key == k)
    && (forall i, j :: 0 <= i < j < |pairs| ==> Precedes(pairs[i].key, pairs[j].key) && pairs[i].key != pairs[j].key)
    && (forall i, k :: 0 <= i < |pairs| && k in left ==> Precedes(pairs[i].key, k) && pairs[i].key != k)
  }

  lemma ListLeast(data: map<string, string>, prefix: string, pairs: seq<KVPair>, left: set<string>, k: string)
    requires IsListingBut(data, prefix, pairs, left) && IsLeast(left, k)
    ensures IsListingBut(data, prefix, pairs + [KVPair(k, data[k])], left - {k})
  {
    var longer := pairs + [KVPair(k, data[k])];
    forall j | j in data && prefix <= j
      ensures j in left - {k} || exists i :: 0 <= i < |longer| && longer[i].key == j
    {
      if j == k {
        assert longer[|pairs|].key == j;
      } else if j !in left {
        var i :| 0 <= i < |pairs| && pairs[i].key == j;
        assert longer[i].key == j;
      }
    }
  }

  class Store {
    var data: map<string, string>

    constructor ()
      ensures data == map[]
    {
      data := map[];
    }

    method Put(key: string, value: string)
      modifies this
      ensures data == old(data)[key := value]
    {
      data := data[key := value];
    }

    /** The value under a key, or None where the store answers that it found no such key. */
    method Get(key: string) returns (r: Option<string>)
      ensures r == if key in data then Some(data[key]) else None
    {
      r := if key in data then Some(data[key]) else None;
    }

    method Exists(key: string) returns (found: bool)
      ensures found <==> key in data
    {
      found := key in data;
    }

    method Delete(key: string)
      modifies this
      ensures data == old(data) - {key}
    {
      data := data - {key};
    }

    method List(prefix: string) returns (pairs: seq<KVPair>)
      ensures IsListing(data, prefix, pairs)
    {
      var left := set k | k in data && prefix <= k;
      pairs := [];
      while left != {}
        invariant IsListingBut(data, prefix, pairs, left)
        decreases left
      {
        LeastExists(left);
        var k :| k in left && forall j :: j in left ==> Precedes(k, j);
        ListLeast(data, prefix, pairs, left, k);
        pairs := pairs + [KVPair(k, data[k])];
        left := left - {k};
      }
    }
  }
}
