/**
 The cluster refines one map: puts and gets at any nodes, coordinator messages,
 and a join with its key hand-over and announcement.
 */
module Refine {
  import opened Optional
  import opened Circle
  import opened Routing
  import opened Store
  import opened Groups
  import opened Replication
  import SuccLists

  /** The entries of the abstract map that `o` owns on the ring. */
  ghost function Share(c: Config, ring: set<Id>, o: Id, all: Group): Group {
    map k | k in all && IsOwner(ring, c.hash(k), o) :: all[k]
  }

  /** The own group of `o` is its share. */
  ghost predicate HoldsShare(c: Config, net: Cluster, ring: set<Id>, o: Id, all: Group) {
    o in net && c.gid(o) in net[o].rgs && net[o].rgs[c.gid(o)] == Share(c, ring, o, all)
  }

  /**
   The cluster stands for the map `all`: every live node's own group is exactly
   the part of the map whose keys hash into its arc.
   */
  ghost predicate Represents(c: Config, net: Cluster, all: Group) {
    forall o {:trigger HoldsShare(c, net, net.Keys, o, all)} :: o in net ==> HoldsShare(c, net, net.Keys, o, all)
  }

  /** The value of a key at its owner is its value in the map. */
  lemma {:induction false} OwnerHoldsValue(c: Config, net: Cluster, all: Group, o: Id, key: Key)
    requires Represents(c, net, all) && IsOwner(net.Keys, c.hash(key), o)
    ensures o in net && c.gid(o) in net[o].rgs
    ensures key in net[o].rgs[c.gid(o)] <==> key in all
    ensures key in all ==> net[o].rgs[c.gid(o)][key] == all[key]
  {
    assert HoldsShare(c, net, net.Keys, o, all);
  }

  // ---------------------------------------------------------------- put and get

  /** A stable cluster, in which one crashed node may still be in fingers and lists. */
  ghost predicate Healthy(c: Config, net: Cluster, dead: Id) {
    && ValidCluster(c, net)
    && StableRing(Routers(net)) && Progressive(Routers(net), dead)
  }

  /** Every node locates the owner, so the owner's own `locate` names itself. */
  lemma {:induction false} LocateIsOwner(c: Config, net: Cluster, n: Id, key: Key, budget: nat, dead: Id)
    requires Healthy(c, net, dead) && n in net && budget >= |net|
    ensures Locate(c, net, n, key, budget) == Some(Owner(net.Keys, c.hash(key)))
  {
    ValidRouters(c, net);
    var h := c.hash(key);
    SubsetSmaller(Ahead(Routers(net), n, h), net.Keys);
    assert |net.Keys| == |net|;
    LookupFindsOwner(Routers(net), n, h, c.scan, budget, dead);
  }

  /** A put at any node is the put at the owner. */
  lemma {:induction false} PutReachesOwner(
    c: Config, net: Cluster, n: Id, key: Key, val: Val, budget: nat, hops: nat, dead: Id)
    requires Healthy(c, net, dead) && n in net && budget >= |net| && hops >= 1
    ensures PutAt(c, net, n, key, val, budget, hops) == Some(PutLocal(c, net, Owner(net.Keys, c.hash(key)), key, val))
  {
    var o := Owner(net.Keys, c.hash(key));
    LocateIsOwner(c, net, n, key, budget, dead);
    LocateIsOwner(c, net, o, key, budget, dead);
    assert PutAt(c, net, o, key, val, budget, hops - 1) == Some(PutLocal(c, net, o, key, val));
  }

  lemma {:induction false} GetReachesOwner(c: Config, net: Cluster, n: Id, key: Key, budget: nat, hops: nat, dead: Id)
    requires Healthy(c, net, dead) && n in net && budget >= |net| && hops >= 1
    ensures var o := Owner(net.Keys, c.hash(key));
            GetAt(c, net, n, key, budget, hops) == GetLocal(c, net[o], o, key)
  {
    var o := Owner(net.Keys, c.hash(key));
    LocateIsOwner(c, net, n, key, budget, dead);
    LocateIsOwner(c, net, o, key, budget, dead);
    assert GetAt(c, net, o, key, budget, hops - 1) == GetLocal(c, net[o], o, key);
  }

  lemma {:induction false} SharePut(c: Config, ring: set<Id>, o: Id, all: Group, key: Key, val: Val)
    ensures IsOwner(ring, c.hash(key), o) ==>
              Share(c, ring, o, all[key := val]) == Share(c, ring, o, all)[key := val]
    ensures !IsOwner(ring, c.hash(key), o) ==>
              Share(c, ring, o, all[key := val]) == Share(c, ring, o, all)
  {
  }

  /** A put at the owner is a write to the map. */
  lemma {:induction false} PutRefines(c: Config, net: Cluster, all: Group, o: Id, key: Key, val: Val)
    requires KeysApart(c) && ValidCluster(c, net) && Represents(c, net, all) && IsOwner(net.Keys, c.hash(key), o)
    ensures var net' := PutLocal(c, net, o, key, val);
            Represents(c, net', all[key := val]) && net'.Keys == net.Keys && Routers(net') == Routers(net)
  {
    var net' := PutLocal(c, net, o, key, val);
    assert HoldsShare(c, net, net.Keys, o, all);
    PutLocalEffect(c, net, o, key, val);
    forall q | q in net'
      ensures HoldsShare(c, net', net'.Keys, q, all[key := val])
    {
      assert HoldsShare(c, net, net.Keys, q, all);
      SharePut(c, net.Keys, q, all, key, val);
      if q != o {
        OwnerUniqueNot(net.Keys, c.hash(key), o, q);
        OtherGroupsSame(net, net', c.gid(o), q, c.gid(q));
      }
    }
    assert Routers(net') == Routers(net) by {
      forall q | q in net
        ensures net'[q].rt == net[q].rt
      {
      }
    }
  }

  lemma {:induction false} OwnerUniqueNot(ring: set<Id>, key: Id, o: Id, q: Id)
    requires IsOwner(ring, key, o) && q != o
    ensures !IsOwner(ring, key, q)
  {
  }

  datatype Op = PutOp(at: Id, key: Key, val: Val) | GetOp(at: Id, key: Key)

  /** The cluster serves the requests one after the other. */
  function Serve(c: Config, net: Cluster, ops: seq<Op>, budget: nat, hops: nat): seq<Reply>
    requires ValidCluster(c, net)
    decreases |ops|
  {
    if ops == [] then []
    else match ops[0]
      case GetOp(n, key) => [GetAt(c, net, n, key, budget, hops)] + Serve(c, net, ops[1..], budget, hops)
      case PutOp(n, key, val) =>
        var res := PutAt(c, net, n, key, val, budget, hops);
        if res.Some? && ValidCluster(c, res.value)
        then [Stored] + Serve(c, res.value, ops[1..], budget, hops)
        else [Failed] + Serve(c, net, ops[1..], budget, hops)
  }

  /** One map serves the same requests. */
  function ServeMap(all: Group, ops: seq<Op>): seq<Reply>
    decreases |ops|
  {
    if ops == [] then []
    else match ops[0]
      case GetOp(_, key) => [if key in all then Found(all[key]) else NoSuchKey] + ServeMap(all, ops[1..])
      case PutOp(_, key, val) => [Stored] + ServeMap(all[key := val], ops[1..])
  }

  lemma {:induction false} SameRoutersHealthy(c: Config, net: Cluster, net': Cluster, dead: Id)
    requires Healthy(c, net, dead) && net'.Keys == net.Keys && Routers(net') == Routers(net)
    ensures Healthy(c, net', dead)
  {
    forall n | n in net'
      ensures net'[n].rt == net[n].rt
    {
      assert Routers(net')[n] == Routers(net)[n];
    }
  }

  /**
   Any sequence of puts and gets, issued at any nodes of a stable ring, is
   answered exactly as one map would answer it.
   */
  lemma {:induction false} ServesAsOneMap(
    c: Config, net: Cluster, all: Group, ops: seq<Op>, budget: nat, hops: nat, dead: Id)
    requires KeysApart(c) && Healthy(c, net, dead) && Represents(c, net, all) && budget >= |net| && hops >= 1
    requires forall i :: 0 <= i < |ops| ==> ops[i].at in net
    ensures Serve(c, net, ops, budget, hops) == ServeMap(all, ops)
    decreases |ops|
  {
    if ops != [] {
      var n, key := ops[0].at, ops[0].key;
      var o := Owner(net.Keys, c.hash(key));
      if ops[0].GetOp? {
        GetReachesOwner(c, net, n, key, budget, hops, dead);
        OwnerHoldsValue(c, net, all, o, key);
        ServesAsOneMap(c, net, all, ops[1..], budget, hops, dead);
      } else {
        var net' := PutLocal(c, net, o, key, ops[0].val);
        PutReachesOwner(c, net, n, key, ops[0].val, budget, hops, dead);
        PutRefines(c, net, all, o, key, ops[0].val);
        SameRoutersHealthy(c, net, net', dead);
        SubsetSmaller(net'.Keys, net.Keys);
        assert |net'.Keys| == |net'| && |net.Keys| == |net|;
        ServesAsOneMap(c, net', all[key := ops[0].val], ops[1..], budget, hops, dead);
      }
    }
  }

  // ---------------------------------------------------------------- coordinator messages

  /** A key that `own` owns is in the arc that stays with it, whichever other member asks. */
  lemma {:induction false} OwnedKeyStays(ring: set<Id>, own: Id, n: Id, h: Id)
    requires n in ring && n != own && IsOwner(ring, h, own)
    ensures BetweenRightIncl(h, n, own)
  {
  }

  lemma {:induction false} OwnKeysStay(c: Config, ring: set<Id>, own: Id, n: Id, all: Group)
    requires n in ring && n != own
    ensures Kept(c, Share(c, ring, own, all), own, n) == Share(c, ring, own, all)
    ensures Handed(c, Share(c, ring, own, all), own, n) == map[]
  {
  }

  /**
   A new-node message from any live node never makes the receiver delete a key
   that the receiver owns, whatever predecessor it holds, none included, and
   whatever else its own group contains.
   */
  lemma {:induction false} NewNodeKeepsOwnedKey(c: Config, net: Cluster, to: Id, n: Id, key: Key)
    requires ValidConfig(c) && ValidCluster(c, net) && to in net && n in net && c.gid(to) in net[to].rgs
    requires key in net[to].rgs[c.gid(to)] && IsOwner(net.Keys, c.hash(key), to)
    ensures var net' := Deliver(c, net, Coordinator(to, n, None));
            && to in net' && c.gid(to) in net'[to].rgs && key in net'[to].rgs[c.gid(to)]
            && net'[to].rgs[c.gid(to)][key] == net[to].rgs[c.gid(to)][key]
  {
    ToldEffect(c, net, to, n);
    ReceiverEffect(c, net, to, n);
    if n != to {
      OwnedKeyStays(net.Keys, to, n, c.hash(key));
    }
  }

  /** The own group of each node after a new-node message: only the receiver's can change. */
  lemma {:induction false} OwnAfterMessage(c: Config, net: Cluster, to: Id, n: Id, o: Id)
    requires ValidConfig(c) && ValidCluster(c, net) && to in net && c.gid(to) in net[to].rgs
    requires o in net && c.gid(o) in net[o].rgs
    ensures var net' := Deliver(c, net, Coordinator(to, n, None));
            var p, own := net[to], c.gid(to);
            && net'.Keys == net.Keys && net'[o].rt == net[o].rt && net'[o].pred == net[o].pred
            && c.gid(o) in net'[o].rgs
            && net'[o].rgs[c.gid(o)] == (if o == to && Yields(c, to, p.pred, p.rgs, n, None)
                                         then Kept(c, p.rgs[own], to, n) else net[o].rgs[c.gid(o)])
  {
    ToldEffect(c, net, to, n);
    ReceiverEffect(c, net, to, n);
    if o != to {
      BystanderEffect(c, net, to, n, o);
    }
  }

  /** So the cluster stands for the same map after the message. */
  lemma {:induction false} NewNodeMessageSafe(c: Config, net: Cluster, to: Id, n: Id, all: Group)
    requires ValidConfig(c) && ValidCluster(c, net) && to in net && n in net
    requires Represents(c, net, all)
    ensures Represents(c, Deliver(c, net, Coordinator(to, n, None)), all)
    ensures Deliver(c, net, Coordinator(to, n, None)).Keys == net.Keys
    ensures ValidCluster(c, Deliver(c, net, Coordinator(to, n, None)))
  {
    var net' := Deliver(c, net, Coordinator(to, n, None));
    assert HoldsShare(c, net, net.Keys, to, all);
    RepresentsOwnGroups(c, net, all);
    NewNodeKeepsOwnGroups(c, net, to, n);
    if n != to {
      OwnKeysStay(c, net.Keys, to, n, all);
    }
    forall q | q in net'
      ensures HoldsShare(c, net', net'.Keys, q, all)
    {
      assert HoldsShare(c, net, net.Keys, q, all);
      OwnAfterMessage(c, net, to, n, q);
    }
  }

  lemma {:induction false} RepresentsOwnGroups(c: Config, net: Cluster, all: Group)
    requires Represents(c, net, all)
    ensures OwnGroups(c, net)
  {
    forall m | m in net
      ensures c.gid(m) in net[m].rgs
    {
      assert HoldsShare(c, net, net.Keys, m, all);
    }
  }

  // ---------------------------------------------------------------- join

  /** `n` has joined with the keys that `s` handed over, and `s` has not deleted them yet. */
  ghost predicate HandedOver(c: Config, net: Cluster, n: Id, s: Id, all: Group) {
    && n in net && s in net && c.gid(s) in net[s].rgs && n != s
    && net[s].rgs[c.gid(s)] == Share(c, net.Keys - {n}, s, all)
    && forall o {:trigger HoldsShare(c, net, net.Keys, o, all)} :: o in net && o != s ==>
         HoldsShare(c, net, net.Keys, o, all)
  }

  /** What `s` gives to a node that joins at it. */
  function HandedBy(c: Config, p: Peer, n: Id): Group {
    var g := c.gid(p.rt.id);
    if g in p.rgs then Handed(c, p.rgs[g], p.rt.id, n) else map[]
  }

  /** The cluster after `join`: the newcomer's own group is what its successor handed over. */
  function JoinWith(c: Config, net: Cluster, rt: Router, s: Id): Cluster
    requires s in net
  {
    net[rt.id := Peer(rt, None, map[c.gid(rt.id) := HandedBy(c, net[s], rt.id)])]
  }

  /** At the newcomer's id the old owner's share splits: the kept part and the handed part are the two new shares. */
  lemma {:induction false} ShareSplits(c: Config, ring: set<Id>, n: Id, s: Id, all: Group)
    requires n !in ring && IsOwner(ring, n, s)
    ensures var share := Share(c, ring, s, all);
            && Handed(c, share, s, n) == Share(c, ring + {n}, n, all)
            && Kept(c, share, s, n) == Share(c, ring + {n}, s, all)
            && Handed(c, share, s, n).Keys !! Kept(c, share, s, n).Keys
            && Handed(c, share, s, n) + Kept(c, share, s, n) == share
  {
    forall k | k in all
      ensures IsOwner(ring + {n}, c.hash(k), n) <==> IsOwner(ring, c.hash(k), s) && !BetweenRightIncl(c.hash(k), n, s)
      ensures IsOwner(ring + {n}, c.hash(k), s) <==> IsOwner(ring, c.hash(k), s) && BetweenRightIncl(c.hash(k), n, s)
    {
      OwnerSplits(ring, n, s, c.hash(k));
    }
  }

  lemma {:induction false} OwnerSplits(ring: set<Id>, n: Id, s: Id, h: Id)
    requires n !in ring && IsOwner(ring, n, s)
    ensures IsOwner(ring + {n}, h, n) <==> IsOwner(ring, h, s) && !BetweenRightIncl(h, n, s)
    ensures IsOwner(ring + {n}, h, s) <==> IsOwner(ring, h, s) && BetweenRightIncl(h, n, s)
  {
  }

  /** A node that does not follow the newcomer owns what it owned before. */
  lemma {:induction false} OtherShareSame(c: Config, ring: set<Id>, n: Id, s: Id, o: Id, all: Group)
    requires n !in ring && IsOwner(ring, n, s) && o in ring && o != s
    ensures Share(c, ring + {n}, o, all) == Share(c, ring, o, all)
  {
  }

  lemma {:induction false} JoinHandsOver(c: Config, net: Cluster, rt: Router, s: Id, all: Group)
    requires ValidCluster(c, net) && rt.id !in net && IsOwner(net.Keys, rt.id, s) && Represents(c, net, all)
    ensures HandedOver(c, JoinWith(c, net, rt, s), rt.id, s, all)
    ensures JoinWith(c, net, rt, s)[rt.id].pred == None
  {
    var n := rt.id;
    var net' := JoinWith(c, net, rt, s);
    assert HoldsShare(c, net, net.Keys, s, all);
    ShareSplits(c, net.Keys, n, s, all);
    assert net'.Keys == net.Keys + {n};
    assert net'.Keys - {n} == net.Keys;
    forall o | o in net' && o != s
      ensures HoldsShare(c, net', net'.Keys, o, all)
    {
      if o != n {
        assert HoldsShare(c, net, net.Keys, o, all);
        OtherShareSame(c, net.Keys, n, s, o, all);
      }
    }
  }

  lemma {:induction false} HandedOverOwnGroups(c: Config, net: Cluster, n: Id, s: Id, all: Group)
    requires HandedOver(c, net, n, s, all)
    ensures OwnGroups(c, net)
  {
    forall m | m in net
      ensures c.gid(m) in net[m].rgs
    {
      assert m != s ==> HoldsShare(c, net, net.Keys, m, all);
    }
  }

  /** The newcomer's message ends the hand-over when the old owner yields; otherwise it leaves everything as it is. */
  lemma {:induction false} OldOwnerTold(c: Config, net: Cluster, n: Id, s: Id, all: Group)
    requires ValidConfig(c) && ValidCluster(c, net) && HandedOver(c, net, n, s, all)
    requires IsOwner(net.Keys - {n}, n, s)
    ensures var net' := Deliver(c, net, Coordinator(s, n, None));
            && net'.Keys == net.Keys && ValidCluster(c, net') && c.gid(n) in net'[s].rgs
            && (if Yields(c, s, net[s].pred, net[s].rgs, n, None) then Represents(c, net', all)
                else HandedOver(c, net', n, s, all))
  {
    var net' := Deliver(c, net, Coordinator(s, n, None));
    var ring := net.Keys - {n};
    HandedOverOwnGroups(c, net, n, s, all);
    NewNodeKeepsOwnGroups(c, net, s, n);
    ToldEffect(c, net, s, n);
    ReceiverEffect(c, net, s, n);
    EvictedIsOther(c, s, net[s].rgs, n);
    ShareSplits(c, ring, n, s, all);
    assert ring + {n} == net.Keys;
    OwnAfterMessage(c, net, s, n, s);
    forall q | q in net' && q != s
      ensures HoldsShare(c, net', net'.Keys, q, all)
    {
      assert HoldsShare(c, net, net.Keys, q, all);
      OwnAfterMessage(c, net, s, n, q);
    }
  }

  /**
   So the announcement to the old owner ends the hand-over, unless it holds a group
   of the newcomer or a predecessor that is no node.  The newcomer itself may have
   become its predecessor in the meantime.
   */
  lemma {:induction false} HandOverEnds(c: Config, net: Cluster, n: Id, s: Id, all: Group)
    requires ValidConfig(c) && ValidCluster(c, net) && HandedOver(c, net, n, s, all)
    requires IsOwner(net.Keys - {n}, n, s) && c.gid(n) !in net[s].rgs
    requires net[s].pred.Some? ==> net[s].pred.value in net
    ensures Represents(c, Deliver(c, net, Coordinator(s, n, None)), all)
  {
    OldOwnerTold(c, net, n, s, all);
    if net[s].pred.Some? && net[s].pred.value != n {
      assert net[s].pred.value in net.Keys - {n} && s in net.Keys - {n};
    }
  }

  /** A message to any other node, or a second one to the old owner, changes no own group. */
  lemma {:induction false} HandOverContinues(c: Config, net: Cluster, to: Id, n: Id, s: Id, all: Group)
    requires ValidConfig(c) && ValidCluster(c, net) && HandedOver(c, net, n, s, all)
    requires to in net && c.gid(n) in net[s].rgs
    ensures var net' := Deliver(c, net, Coordinator(to, n, None));
            && HandedOver(c, net', n, s, all) && net'.Keys == net.Keys
            && c.gid(n) in net'[s].rgs && ValidCluster(c, net')
  {
    var net' := Deliver(c, net, Coordinator(to, n, None));
    HandedOverOwnGroups(c, net, n, s, all);
    NewNodeKeepsOwnGroups(c, net, to, n);
    OwnAfterMessage(c, net, to, n, s);
    if to == s {
      ToldEffect(c, net, s, n);
    } else {
      BystanderEffect(c, net, to, n, s);
      assert HoldsShare(c, net, net.Keys, to, all);
      if n != to {
        OwnKeysStay(c, net.Keys, to, n, all);
      }
    }
    forall q | q in net' && q != s
      ensures HoldsShare(c, net', net'.Keys, q, all)
    {
      assert HoldsShare(c, net, net.Keys, q, all);
      OwnAfterMessage(c, net, to, n, q);
    }
  }

  lemma {:induction false} AnnounceSafe(c: Config, net: Cluster, list: seq<Id>, n: Id, all: Group)
    requires ValidConfig(c) && ValidCluster(c, net) && n in net && Represents(c, net, all)
    ensures var net' := DeliverAll(c, net, CoordinatorMsgs(list, n, None));
            net'.Keys == net.Keys && ValidCluster(c, net') && Represents(c, net', all)
    decreases |list|
  {
    if list != [] {
      var msgs := CoordinatorMsgs(list, n, None);
      assert msgs[1..] == CoordinatorMsgs(list[1..], n, None);
      var net1 := Deliver(c, net, msgs[0]);
      if list[0] in net {
        NewNodeMessageSafe(c, net, list[0], n, all);
      }
      AnnounceSafe(c, net1, list[1..], n, all);
    }
  }

  lemma {:induction false} AnnounceInVain(c: Config, net: Cluster, list: seq<Id>, n: Id, s: Id, all: Group)
    requires ValidConfig(c) && ValidCluster(c, net) && HandedOver(c, net, n, s, all) && c.gid(n) in net[s].rgs
    ensures var net' := DeliverAll(c, net, CoordinatorMsgs(list, n, None));
            net'.Keys == net.Keys && ValidCluster(c, net') && HandedOver(c, net', n, s, all)
    decreases |list|
  {
    if list != [] {
      var msgs := CoordinatorMsgs(list, n, None);
      assert msgs[1..] == CoordinatorMsgs(list[1..], n, None);
      var net1 := Deliver(c, net, msgs[0]);
      if list[0] in net {
        HandOverContinues(c, net, list[0], n, s, all);
      }
      AnnounceInVain(c, net1, list[1..], n, s, all);
    }
  }

  /** The announcement to a list that starts with the old owner. */
  lemma {:induction false} AnnounceOutcome(c: Config, net: Cluster, list: seq<Id>, n: Id, s: Id, all: Group)
    requires ValidConfig(c) && ValidCluster(c, net) && HandedOver(c, net, n, s, all)
    requires IsOwner(net.Keys - {n}, n, s) && list != [] && list[0] == s
    ensures var net' := DeliverAll(c, net, CoordinatorMsgs(list, n, None));
            && net'.Keys == net.Keys && ValidCluster(c, net')
            && (if Yields(c, s, net[s].pred, net[s].rgs, n, None) then Represents(c, net', all)
                else HandedOver(c, net', n, s, all))
  {
    var msgs := CoordinatorMsgs(list, n, None);
    assert msgs[1..] == CoordinatorMsgs(list[1..], n, None);
    var net1 := Deliver(c, net, msgs[0]);
    OldOwnerTold(c, net, n, s, all);
    if Yields(c, s, net[s].pred, net[s].rgs, n, None) {
      AnnounceSafe(c, net1, list[1..], n, all);
    } else {
      AnnounceInVain(c, net1, list[1..], n, s, all);
    }
  }

  /** Replicas that the newcomer sends leave every own group alone. */
  lemma {:induction false} ReplicasSpareOwn(c: Config, net: Cluster, list: seq<Id>, n: Id, data: Group, o: Id)
    requires KeysApart(c) && ValidCluster(c, net) && n in c.ids && o in net && c.gid(o) in net[o].rgs
    ensures var net' := DeliverAllData(c, net, AllReplicaMsgs(list, n, data));
            && net'.Keys == net.Keys && net'[o].rt == net[o].rt
            && c.gid(o) in net'[o].rgs && net'[o].rgs[c.gid(o)] == net[o].rgs[c.gid(o)]
  {
    var net' := DeliverAllData(c, net, AllReplicaMsgs(list, n, data));
    AllReplicasDelivered(c, net, list, n, data);
    if o != n {
      OtherGroupsSame(net, net', c.gid(n), o, c.gid(o));
    }
  }

  lemma {:induction false} ReplicasSafe(c: Config, net: Cluster, list: seq<Id>, n: Id, data: Group, s: Id, all: Group)
    requires KeysApart(c) && ValidCluster(c, net) && n in c.ids && OwnGroups(c, net)
    ensures var net' := DeliverAllData(c, net, AllReplicaMsgs(list, n, data));
            && net'.Keys == net.Keys && ValidCluster(c, net')
            && (Represents(c, net, all) ==> Represents(c, net', all))
            && (HandedOver(c, net, n, s, all) ==> HandedOver(c, net', n, s, all))
  {
    var net' := DeliverAllData(c, net, AllReplicaMsgs(list, n, data));
    AllReplicasDelivered(c, net, list, n, data);
    forall o | o in net
      ensures net'[o].rt == net[o].rt
      ensures HoldsShare(c, net, net.Keys, o, all) ==> HoldsShare(c, net', net'.Keys, o, all)
      ensures c.gid(o) in net'[o].rgs && net'[o].rgs[c.gid(o)] == net[o].rgs[c.gid(o)]
    {
      ReplicasSpareOwn(c, net, list, n, data, o);
    }
  }

  /** As long as the old owner holds handed keys, the cluster does not stand for the map. */
  lemma {:induction false} PendingIff(c: Config, net: Cluster, n: Id, s: Id, all: Group)
    requires HandedOver(c, net, n, s, all) && IsOwner(net.Keys - {n}, n, s)
    ensures Represents(c, net, all) <==> Handed(c, net[s].rgs[c.gid(s)], s, n) == map[]
  {
    var ring := net.Keys - {n};
    var own := net[s].rgs[c.gid(s)];
    ShareSplits(c, ring, n, s, all);
    assert ring + {n} == net.Keys;
    if Represents(c, net, all) {
      assert HoldsShare(c, net, net.Keys, s, all);
      assert forall k :: k in own ==> k in Kept(c, own, s, n);
    }
    if Handed(c, own, s, n) == map[] {
      assert Kept(c, own, s, n) == own by {
        assert forall k :: k in own ==> k !in Handed(c, own, s, n);
      }
      assert HoldsShare(c, net, net.Keys, s, all);
    }
  }

  /** The newcomer's messages after its first reconciliation with the list of `s`. */
  function NewcomerMsgs(c: Config, net: Cluster, n: Id, s: Id, theirs: seq<Id>): seq<Message>
    requires s in net && theirs != []
  {
    ListNews(n, Filled(c.r, s), SuccLists.Reconciled(s, theirs), 1, HandedBy(c, net[s], n))
  }

  /** The cluster between `join` and the newcomer's first messages. */
  lemma {:induction false} JoinedState(c: Config, net: Cluster, rt: Router, s: Id, all: Group)
    requires ValidConfig(c) && ValidCluster(c, net) && Represents(c, net, all)
    requires rt.id !in net && rt.id in c.ids && c.scan <= |rt.fingers| && IsOwner(net.Keys, rt.id, s)
    ensures var joined := JoinWith(c, net, rt, s);
            && joined.Keys == net.Keys + {rt.id} && joined.Keys - {rt.id} == net.Keys && ValidCluster(c, joined)
            && HandedOver(c, joined, rt.id, s, all) && joined[s] == net[s]
            && HandedBy(c, net[s], rt.id) == Handed(c, joined[s].rgs[c.gid(s)], s, rt.id)
  {
    JoinHandsOver(c, net, rt, s, all);
    assert HoldsShare(c, net, net.Keys, s, all);
  }

  lemma {:induction false} NewcomerMsgsAre(c: Config, net: Cluster, n: Id, s: Id, theirs: seq<Id>)
    requires s in net && 1 <= c.r <= |theirs|
    ensures var list := SuccLists.Reconciled(s, theirs);
            NewcomerMsgs(c, net, n, s, theirs) ==
            if theirs[..c.r - 1] != Filled(c.r - 1, s)
            then CoordinatorMsgs(list, n, None) + AllReplicaMsgs(list, n, HandedBy(c, net[s], n)) else []
  {
    NewcomerAnnouncesIff(n, c.r, s, theirs, HandedBy(c, net[s], n));
  }

  lemma {:induction false} AnnouncedOutcome(
    c: Config, joined: Cluster, list: seq<Id>, n: Id, s: Id, data: Group, all: Group)
    requires ValidConfig(c) && ValidCluster(c, joined) && HandedOver(c, joined, n, s, all)
    requires IsOwner(joined.Keys - {n}, n, s) && list != [] && list[0] == s
    ensures var net' := DeliverAll(c, joined, CoordinatorMsgs(list, n, None) + AllReplicaMsgs(list, n, data));
            && net'.Keys == joined.Keys && ValidCluster(c, net')
            && (Represents(c, net', all) <==>
                  || Handed(c, joined[s].rgs[c.gid(s)], s, n) == map[]
                  || Yields(c, s, joined[s].pred, joined[s].rgs, n, None))
  {
    var told := DeliverAll(c, joined, CoordinatorMsgs(list, n, None));
    DeliverAllAppend(c, joined, CoordinatorMsgs(list, n, None), AllReplicaMsgs(list, n, data));
    ReplicasAreData(c, told, list, n, data);
    assert DeliverAll(c, told, AllReplicaMsgs(list, n, data)) == DeliverAllData(c, told, AllReplicaMsgs(list, n, data));
    AnnounceOutcome(c, joined, list, n, s, all);
    if Yields(c, s, joined[s].pred, joined[s].rgs, n, None) {
      RepresentsOwnGroups(c, told, all);
      ReplicasSafe(c, told, list, n, data, s, all);
    } else {
      HandedOverOwnGroups(c, told, n, s, all);
      ReplicasSafe(c, told, list, n, data, s, all);
      PendingIff(c, DeliverAllData(c, told, AllReplicaMsgs(list, n, data)), n, s, all);
    }
  }

  lemma {:induction false} JoinOutcome(
    c: Config, joined: Cluster, list: seq<Id>, n: Id, s: Id, data: Group, all: Group, announced: bool)
    requires ValidConfig(c) && ValidCluster(c, joined) && HandedOver(c, joined, n, s, all)
    requires IsOwner(joined.Keys - {n}, n, s) && list != [] && list[0] == s
    ensures var msgs := if announced then CoordinatorMsgs(list, n, None) + AllReplicaMsgs(list, n, data) else [];
            var net' := DeliverAll(c, joined, msgs);
            && net'.Keys == joined.Keys && ValidCluster(c, net')
            && (Represents(c, net', all) <==>
                  || Handed(c, joined[s].rgs[c.gid(s)], s, n) == map[]
                  || (announced && Yields(c, s, joined[s].pred, joined[s].rgs, n, None)))
  {
    if announced {
      AnnouncedOutcome(c, joined, list, n, s, data, all);
    } else {
      assert DeliverAll(c, joined, []) == joined;
      PendingIff(c, joined, n, s, all);
    }
  }

  /**
   A join at the owner of the newcomer's id conserves the data exactly when there
   was nothing to hand over, or the newcomer's first reconciliation makes it
   announce itself and the old owner yields: it held no group of the newcomer,
   and the newcomer is its predecessor or lies after the predecessor it knows.
   (With lists of length 1 nothing is announced as long as the successor stays.)
   */
  lemma {:induction false} JoinConservesIff(c: Config, net: Cluster, rt: Router, s: Id, theirs: seq<Id>, all: Group)
    requires ValidConfig(c) && ValidCluster(c, net) && Represents(c, net, all)
    requires rt.id !in net && rt.id in c.ids && c.scan <= |rt.fingers| && IsOwner(net.Keys, rt.id, s) && |theirs| >= c.r
    ensures var net' := DeliverAll(c, JoinWith(c, net, rt, s), NewcomerMsgs(c, net, rt.id, s, theirs));
            && net'.Keys == net.Keys + {rt.id} && ValidCluster(c, net')
            && (Represents(c, net', all) <==>
                  || HandedBy(c, net[s], rt.id) == map[]
                  || (theirs[..c.r - 1] != Filled(c.r - 1, s) && Yields(c, s, net[s].pred, net[s].rgs, rt.id, None)))
  {
    JoinedState(c, net, rt, s, all);
    NewcomerMsgsAre(c, net, rt.id, s, theirs);
    JoinOutcome(c, JoinWith(c, net, rt, s), SuccLists.Reconciled(s, theirs), rt.id, s, HandedBy(c, net[s], rt.id), all,
                theirs[..c.r - 1] != Filled(c.r - 1, s));
  }

  /**
   In particular it does when the old owner's list shows another node among its
   first r - 1, and the old owner holds no group of the newcomer and knows no
   predecessor that is not a member.
   */
  lemma {:induction false} JoinConserves(c: Config, net: Cluster, rt: Router, s: Id, theirs: seq<Id>, all: Group)
    requires ValidConfig(c) && ValidCluster(c, net) && Represents(c, net, all)
    requires rt.id !in net && rt.id in c.ids && c.scan <= |rt.fingers| && IsOwner(net.Keys, rt.id, s) && |theirs| >= c.r
    requires exists i :: 0 <= i < c.r - 1 && theirs[i] != s
    requires c.gid(rt.id) !in net[s].rgs && (net[s].pred.Some? ==> net[s].pred.value in net)
    ensures Represents(c, DeliverAll(c, JoinWith(c, net, rt, s), NewcomerMsgs(c, net, rt.id, s, theirs)), all)
  {
    var i :| 0 <= i < c.r - 1 && theirs[i] != s;
    assert theirs[..c.r - 1][i] != Filled(c.r - 1, s)[i];
    JoinConservesIff(c, net, rt, s, theirs, all);
  }
}
