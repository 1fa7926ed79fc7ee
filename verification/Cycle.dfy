/**
 The order in which the allocator visits the hosts of a subnet, as numbers: a
 cycle over lo..hi entered at lo from anywhere outside.
 */
module Cycle {
  import opened Wrappers

  datatype Pool = Pool(lo: nat, hi: nat) {
    predicate Valid() { lo <= hi }

    predicate Host(a: nat) { lo <= a <= hi }

    function Size(): nat
      requires Valid()
    {
      hi - lo + 1
    }

    ghost function Hosts(): (s: set<nat>)
      ensures forall a: nat :: a in s <==> lo <= a <= hi
      ensures |s| == if lo <= hi then hi - lo + 1 else 0
    {
      Interval(lo, hi)
    }
  }

  ghost function Interval(lo: nat, hi: nat): (s: set<nat>)
    ensures forall a: nat :: a in s <==> lo <= a <= hi
    ensures |s| == if lo <= hi then hi - lo + 1 else 0
    decreases if lo <= hi then hi - lo + 1 else 0
  {
    if lo > hi then {} else Interval(lo + 1, hi) + {lo}
  }

  /** The host visited after a. */
  function Succ(p: Pool, a: nat): nat
  {
    if p.lo <= a < p.hi then a + 1 else p.lo
  }

  /** The k-th address visited from a; a itself is the 0-th. */
  function Nth(p: Pool, a: nat, k: nat): nat
  {
    if k == 0 then a else Succ(p, Nth(p, a, k - 1))
  }

  /** Where k steps lead, in closed form: at most once around. */
  lemma {:induction false} NthFromHost(p: Pool, a: nat, k: nat)
    requires p.Host(a) && k <= p.Size()
    ensures Nth(p, a, k) == if a + k <= p.hi then a + k else a + k - p.Size()
  {
    if k > 0 {
      NthFromHost(p, a, k - 1);
    }
  }

  lemma {:induction false} NthFromOutside(p: Pool, a: nat, k: nat)
    requires p.Valid() && !p.Host(a) && 1 <= k <= p.Size()
    ensures Nth(p, a, k) == p.lo + k - 1
  {
    if k > 1 {
      NthFromOutside(p, a, k - 1);
    }
  }

  /** How many steps from a first reach host b. */
  function Distance(p: Pool, a: nat, b: nat): (k: nat)
    requires p.Host(b)
    ensures 1 <= k <= p.Size()
  {
    if !p.Host(a) then b - p.lo + 1 else if b > a then b - a else b - a + p.Size()
  }

  /**
   One full cycle: within Size() steps every host is visited, at its own distance and
   at no other step, and from a host the last of those steps is the return.
   */
  lemma FullCycle(p: Pool, a: nat, b: nat, k: nat)
    requires p.Host(b) && 1 <= k <= p.Size()
    ensures p.Host(Nth(p, a, k))
    ensures Nth(p, a, k) == b <==> k == Distance(p, a, b)
    ensures p.Host(a) ==> Distance(p, a, a) == p.Size()
  {
    if p.Host(a) {
      NthFromHost(p, a, k);
    } else {
      NthFromOutside(p, a, k);
    }
  }

  lemma {:induction false} NthIsHost(p: Pool, a: nat, k: nat)
    requires p.Valid() && k >= 1
    ensures p.Host(Nth(p, a, k))
  {
    if k > 1 {
      NthIsHost(p, a, k - 1);
    }
  }

  // ---- the search

  /** The first address not in use among `left` successive ones from a. */
  function Scan(p: Pool, used: set<nat>, a: nat, left: nat): Option<nat>
    decreases left
  {
    if left == 0 then None
    else if a !in used then Some(a)
    else Scan(p, used, Succ(p, a), left - 1)
  }

  /** The first free host after `start`, once around the pool. */
  function FirstFree(p: Pool, used: set<nat>, start: nat): Option<nat>
    requires p.Valid()
  {
    Scan(p, used, Succ(p, start), p.Size())
  }

  ghost predicate UsedBefore(p: Pool, used: set<nat>, start: nat, k: nat)
  {
    forall j :: 1 <= j < k ==> Nth(p, start, j) in used
  }

  lemma {:induction false} ScanMeets(p: Pool, used: set<nat>, start: nat, k: nat, left: nat)
    requires p.Valid() && k >= 1 && UsedBefore(p, used, start, k)
    ensures var r := Scan(p, used, Nth(p, start, k), left);
            if r.Some? then
              exists d :: k <= d < k + left && r.value == Nth(p, start, d) && r.value !in used && UsedBefore(p, used, start, d)
            else
              UsedBefore(p, used, start, k + left)
    decreases left
  {
    var a := Nth(p, start, k);
    if left > 0 {
      if a !in used {
        assert Scan(p, used, a, left) == Some(a);
        assert k <= k < k + left && a == Nth(p, start, k);
      } else {
        assert Nth(p, start, k + 1) == Succ(p, a);
        ScanMeets(p, used, start, k + 1, left - 1);
      }
    }
  }

  /**
   Search refinement: FirstFree is the free host nearest after `start` in cyclic order,
   and it is None exactly when every host is in use.
   */
  lemma FirstFreeIsNearest(p: Pool, used: set<nat>, start: nat)
    requires p.Valid()
    ensures FirstFree(p, used, start).None? <==> forall b: nat :: p.Host(b) ==> b in used
    ensures forall a: nat :: FirstFree(p, used, start) == Some(a) <==>
              p.Host(a) && a !in used
              && forall b: nat :: p.Host(b) && b !in used ==> Distance(p, start, a) <= Distance(p, start, b)
  {
    var r := FirstFree(p, used, start);
    assert Succ(p, start) == Nth(p, start, 1);
    ScanMeets(p, used, start, 1, p.Size());
    if r.Some? {
      var d :| 1 <= d < 1 + p.Size() && r.value == Nth(p, start, d) && r.value !in used && UsedBefore(p, used, start, d);
      FullCycle(p, start, p.lo, d);
      FullCycle(p, start, r.value, d);
      forall b: nat | p.Host(b) && b !in used
        ensures Distance(p, start, r.value) <= Distance(p, start, b)
      {
        FullCycle(p, start, b, Distance(p, start, b));
      }
      forall a: nat | p.Host(a) && a !in used && Distance(p, start, a) == d
        ensures a == r.value
      {
        FullCycle(p, start, a, d);
      }
    } else {
      forall b: nat | p.Host(b)
        ensures b in used
      {
        FullCycle(p, start, b, Distance(p, start, b));
      }
    }
  }

  /** Some step of the loop either meets a free address or is back where it started. */
  ghost predicate LoopExits(p: Pool, used: set<nat>, start: nat)
  {
    exists k :: k >= 1 && (Nth(p, start, k) !in used || Nth(p, start, k) == start)
  }

  /**
   The allocator's loop ends exactly when it starts at a host or some host is free:
   from the network address of a full pool it runs for ever.
   */
  lemma LoopExitsIff(p: Pool, used: set<nat>, start: nat)
    requires p.Valid()
    ensures LoopExits(p, used, start) <==> p.Host(start) || exists b: nat :: p.Host(b) && b !in used
  {
    if p.Host(start) {
      FullCycle(p, start, start, p.Size());
      assert Nth(p, start, p.Size()) == start;
    } else if b: nat :| p.Host(b) && b !in used {
      FullCycle(p, start, b, Distance(p, start, b));
      assert Nth(p, start, Distance(p, start, b)) !in used;
    } else {
      forall k | k >= 1
        ensures Nth(p, start, k) in used && Nth(p, start, k) != start
      {
        NthIsHost(p, start, k);
      }
    }
  }
}
