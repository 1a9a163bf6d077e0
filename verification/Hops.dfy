/** How often a lookup is forwarded when the successor lists are exact. */
module Hops {
  import opened Optional
  import opened Circle
  import opened Routing

  /** The list of `n` is its successor followed by the next live nodes, `r` in all. */
  ghost predicate ExactList(net: Net, n: Id, r: nat) {
    && n in net && |net[n].list| == r && r >= 1
    && net[n].list[0] == net[n].succ && IsChain(net.Keys, n, net[n].list)
  }

  ghost predicate FingersLive(net: Net, n: Id) {
    n in net && forall j :: 0 <= j < |net[n].fingers| ==> net[n].fingers[j].node in net
  }

  ghost predicate ExactNet(net: Net, r: nat) {
    forall n {:trigger ExactList(net, n, r)} {:trigger FingersLive(net, n)} :: n in net ==>
      ExactList(net, n, r) && FingersLive(net, n)
  }

  /** An entry is a live node. */
  lemma {:induction false} ExactEntryLive(net: Net, n: Id, r: nat, i: nat)
    requires ExactList(net, n, r) && i < r
    ensures net[n].list[i] in net
  {
    assert ChainLink(net.Keys, n, net[n].list, i);
  }

  lemma {:induction false} ExactIsProgressive(net: Net, r: nat, dead: Id)
    requires ExactNet(net, r)
    ensures Progressive(net, dead) && StableRing(net)
  {
    forall n | n in net
      ensures HeadIsSucc(net, n) && KnowsLiveOr(net, n, dead) && TrueSucc(net, n)
    {
      assert ExactList(net, n, r) && FingersLive(net, n);
      assert ChainLink(net.Keys, n, net[n].list, 0);
      forall e | e in net[n].list
        ensures e in net
      {
        var i :| 0 <= i < r && net[n].list[i] == e;
        ExactEntryLive(net, n, r, i);
      }
    }
  }

  /** With fewer than `r` entries before the key is passed, list[i] has exactly i members before it. */
  lemma {:induction false} MembersBefore(ring: set<Id>, n: Id, list: seq<Id>, i: nat)
    requires n in ring && IsChain(ring, n, list) && i < |list|
    ensures (set p | p in ring && Between(p, n, list[i])) <= set k | 0 <= k < i :: list[k]
    ensures |set p | p in ring && Between(p, n, list[i])| <= i
  {
    var before := set p | p in ring && Between(p, n, list[i]);
    var entries := set k | 0 <= k < i :: list[k];
    forall p | p in before
      ensures p in entries
    {
      ChainCovers(ring, n, list, i, p);
    }
    SubsetSmaller(before, entries);
    EntriesBound(list, i);
  }

  lemma {:induction false} EntriesBound(list: seq<Id>, i: nat)
    requires i <= |list|
    ensures |set k | 0 <= k < i :: list[k]| <= i
  {
    if i > 0 {
      EntriesBound(list, i - 1);
      var a := set k | 0 <= k < i - 1 :: list[k];
      assert (set k | 0 <= k < i :: list[k]) == a + {list[i - 1]};
    }
  }

  /** The first `k` entries are before the key, when `k` live nodes are. */
  lemma {:induction false} EntryAhead(net: Net, n: Id, r: nat, key: Id, i: nat)
    requires ExactList(net, n, r) && i < r && i < |Ahead(net, n, key)|
    ensures net[n].list[i] in Ahead(net, n, key)
  {
    var list := net[n].list;
    ExactEntryLive(net, n, r, i);
    if !Between(list[i], n, key) {
      var before := set p | p in net.Keys && Between(p, n, list[i]);
      MembersBefore(net.Keys, n, list, i);
      assert Ahead(net, n, key) <= before;
      SubsetSmaller(Ahead(net, n, key), before);
    }
  }

  /** Behind list[i] there are i + 1 live nodes fewer before the key. */
  lemma {:induction false} AheadOfEntry(net: Net, n: Id, r: nat, key: Id, i: nat)
    requires ExactList(net, n, r) && i < r && r <= |net|
    requires net[n].list[i] in Ahead(net, n, key)
    ensures |Ahead(net, net[n].list[i], key)| + i + 1 <= |Ahead(net, n, key)|
  {
    var list := net[n].list;
    assert ChainLink(net.Keys, n, list, i);
    if i == 0 {
      AheadShrinks(net, n, list[0], key);
    } else {
      PreviousEntryAhead(net, n, r, key, i);
      AheadOfEntry(net, n, r, key, i - 1);
      assert list[i] in Ahead(net, list[i - 1], key) by {
        assert !Between(n, list[i - 1], list[i]) && !Between(list[i - 1], list[i - 1], list[i]);
      }
      AheadShrinks(net, list[i - 1], list[i], key);
    }
  }

  /** A chain that comes back to `n` has passed every other member. */
  lemma {:induction false} FullTurn(ring: set<Id>, n: Id, list: seq<Id>, i: nat)
    requires n in ring && IsChain(ring, n, list) && i < |list| && list[i] == n
    ensures |ring| <= i + 1
  {
    MembersBefore(ring, n, list, i);
    var before := set p | p in ring && Between(p, n, n);
    assert ring == before + {n};
  }

  /** With no more entries than nodes, the entry before one inside (n, key) lies there too. */
  lemma {:induction false} PreviousEntryAhead(net: Net, n: Id, r: nat, key: Id, i: nat)
    requires ExactList(net, n, r) && 0 < i < r && r <= |net|
    requires net[n].list[i] in Ahead(net, n, key)
    ensures net[n].list[i - 1] in Ahead(net, n, key)
    ensures net[n].list[i - 1] != n && net[n].list[i] != net[n].list[i - 1]
  {
    var list := net[n].list;
    var a := list[i - 1];
    assert |net.Keys| == |net|;
    if a == n {
      FullTurn(net.Keys, n, list, i - 1);
    }
    ExactEntryLive(net, n, r, i - 1);
    assert ChainLink(net.Keys, n, list, i);
    assert !Between(n, a, list[i]);
  }

  /** The first hop leaves at most |Ahead| - r live nodes before the key. */
  lemma {:induction false} HopSkips(net: Net, n: Id, key: Id, scan: nat, r: nat)
    requires ValidNet(net, scan) && n in net && ExactNet(net, r) && r <= |net|
    requires !BetweenRightIncl(key, n, net[n].succ)
    ensures var n2 := Closest(net[n], key, scan, []);
            && n2 in net
            && (Ahead(net, n2, key) == {} || |Ahead(net, n2, key)| + r <= |Ahead(net, n, key)|)
  {
    var rt := net[n];
    assert ExactList(net, n, r) && FingersLive(net, n);
    ExactEntryLive(net, n, r, 0);
    var k := |Ahead(net, n, key)|;
    assert rt.succ in Ahead(net, n, key);
    var last := if k < r then k - 1 else r - 1;
    assert k > 0 by { AheadShrinks(net, n, rt.succ, key); }
    EntryAhead(net, n, r, key, last);
    ListScanFound(rt.list, r, n, key, []);
    var e := ListScan(rt.list, r, n, key, []).value;
    var j :| 0 <= j < r && rt.list[j] == e && NoneUsable(rt.list, j + 1, r, n, key, []);
    assert j >= last;
    ExactEntryLive(net, n, r, j);
    AheadOfEntry(net, n, r, key, j);
    FingerScanFound(rt.fingers, scan, n, key, []);
    var n2 := Closest(rt, key, scan, []);
    if n2 != e {
      AheadShrinks(net, e, n2, key);
    }
  }

  /** How many remote calls the lookup makes at all nodes together, failed ones included. */
  function Forwards(net: Net, n: Id, key: Id, scan: nat, budget: nat): nat
    requires ValidNet(net, scan) && n in net
    decreases budget
  {
    var rt := net[n];
    if BetweenRightIncl(key, rt.id, rt.succ) then 0
    else
      var n2 := Closest(rt, key, scan, []);
      var first := 1 + ForwardsFrom(net, n2, key, scan, budget);
      if Remote(net, n2, key, scan, budget).Some? then first
      else first + 1 + ForwardsFrom(net, Closest(rt, key, scan, [n2]), key, scan, budget)
  }

  /** The calls that a call to `m` leads to. */
  function ForwardsFrom(net: Net, m: Id, key: Id, scan: nat, budget: nat): nat
    requires ValidNet(net, scan)
    decreases budget, 0
  {
    if budget == 0 || m !in net then 0 else Forwards(net, m, key, scan, budget - 1)
  }

  /** As many nested calls as the lookup makes in all are enough for it to end. */
  lemma {:induction false} EnoughCalls(net: Net, n: Id, key: Id, scan: nat, budget: nat)
    requires ValidNet(net, scan) && n in net && FindSuccessor(net, n, key, scan, budget).Some?
    ensures FindSuccessor(net, n, key, scan, Forwards(net, n, key, scan, budget)).Some?
    decreases budget
  {
    var rt := net[n];
    if !BetweenRightIncl(key, rt.id, rt.succ) {
      var n2 := Closest(rt, key, scan, []);
      var n3 := Closest(rt, key, scan, [n2]);
      var hop := if Remote(net, n2, key, scan, budget).Some? then n2 else n3;
      assert Remote(net, hop, key, scan, budget).Some?;
      var f := Forwards(net, n, key, scan, budget);
      assert ForwardsFrom(net, hop, key, scan, budget) == Forwards(net, hop, key, scan, budget - 1);
      EnoughCalls(net, hop, key, scan, budget - 1);
      LongerLimit(net, hop, key, scan, Forwards(net, hop, key, scan, budget - 1), f - 1);
      assert Remote(net, hop, key, scan, f).Some?;
    }
  }

  /**
   With exact successor lists of length `r`, no longer than the ring, and live
   finger nodes, a lookup with k live nodes strictly between the asking node and
   the key makes at most ceil(k / r) remote calls in all, and any limit b on
   their nesting with b * r >= k is enough.
   */
  lemma {:induction false} LookupHops(net: Net, n: Id, key: Id, scan: nat, budget: nat, r: nat)
    requires ValidNet(net, scan) && n in net && ExactNet(net, r) && r <= |net|
    requires budget * r >= |Ahead(net, n, key)|
    ensures FindSuccessor(net, n, key, scan, budget) == Some(Owner(net.Keys, key))
    ensures Forwards(net, n, key, scan, budget) * r <= |Ahead(net, n, key)| + r - 1
    decreases budget
  {
    ExactIsProgressive(net, r, n);
    var rt := net[n];
    assert ExactList(net, n, r) && TrueSucc(net, n);
    if BetweenRightIncl(key, n, rt.succ) {
      StableAnswerIsOwner(net, n, key, scan, budget);
      OwnerUnique(net.Keys, key, Owner(net.Keys, key), rt.succ);
    } else {
      AheadShrinks(net, n, rt.succ, key);
      var n2 := Closest(rt, key, scan, []);
      HopSkips(net, n, key, scan, r);
      assert (budget - 1) * r == budget * r - r;
      LookupHops(net, n2, key, scan, budget - 1, r);
      assert Remote(net, n2, key, scan, budget).Some?;
      LastHop(net, n2, key, scan, budget - 1, r);
      ForwardsSum(Forwards(net, n2, key, scan, budget - 1), r);
    }
  }

  lemma {:induction false} ForwardsSum(f: nat, r: nat)
    ensures (1 + f) * r == r + f * r
  {
  }

  /** With no live node before the key the successor is the answer. */
  lemma {:induction false} LastHop(net: Net, n: Id, key: Id, scan: nat, budget: nat, r: nat)
    requires ValidNet(net, scan) && n in net && ExactNet(net, r)
    ensures Ahead(net, n, key) == {} ==> Forwards(net, n, key, scan, budget) == 0
  {
    assert ExactList(net, n, r);
    ExactEntryLive(net, n, r, 0);
    assert !BetweenRightIncl(key, n, net[n].succ) ==> net[n].succ in Ahead(net, n, key);
  }
}
