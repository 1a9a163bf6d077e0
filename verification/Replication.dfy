/** What the replica messages do to a cluster, and agreement of the copies with their owner. */
module Replication {
  import opened Optional
  import opened Circle
  import opened Routing
  import opened Store
  import opened Groups

  /** `a` and `b` differ at most in the group `leader` of their nodes. */
  ghost predicate SameButGroup(a: Cluster, b: Cluster, leader: Gid) {
    && a.Keys == b.Keys
    && forall n {:trigger a[n]} {:trigger b[n]} :: n in a ==>
         a[n].rt == b[n].rt && a[n].pred == b[n].pred && a[n].rgs - {leader} == b[n].rgs - {leader}
         && (leader in a[n].rgs <==> leader in b[n].rgs)
  }

  lemma {:induction false} ReplicasTwice(rgs: Rgs, leader: Gid, kvs: Group)
    ensures HandleReplicas(HandleReplicas(rgs, leader, kvs), leader, kvs) == HandleReplicas(rgs, leader, kvs)
  {
    if leader in rgs {
      assert rgs[leader] + kvs + kvs == rgs[leader] + kvs;
    }
  }

  /** A handler touches the leader's group only. */
  lemma {:induction false} HandledSame(rgs: Rgs, leader: Gid, kvs: Group)
    ensures HandleReplicas(rgs, leader, kvs) - {leader} == rgs - {leader}
    ensures HandleRemoval(rgs, leader, kvs) - {leader} == rgs - {leader}
    ensures leader in HandleReplicas(rgs, leader, kvs) <==> leader in rgs
    ensures leader in HandleRemoval(rgs, leader, kvs) <==> leader in rgs
  {
  }

  lemma {:induction false} RemovalTwice(rgs: Rgs, leader: Gid, kvs: Group)
    ensures HandleRemoval(HandleRemoval(rgs, leader, kvs), leader, kvs) == HandleRemoval(rgs, leader, kvs)
  {
    if leader in rgs {
      assert rgs[leader] - kvs.Keys - kvs.Keys == rgs[leader] - kvs.Keys;
    }
  }

  /** One node after replicas of `kvs` went to every entry of `list`: entries named twice change nothing more. */
  lemma {:induction false} ReplicasAt(c: Config, net: Cluster, list: seq<Id>, leader: Id, kvs: Group, m: Id)
    ensures DeliverAllData(c, net, ReplicaMsgs(list, leader, kvs)).Keys == net.Keys
    ensures m in net ==>
              DeliverAllData(c, net, ReplicaMsgs(list, leader, kvs))[m] ==
              if m in list && m != leader then net[m].(rgs := HandleReplicas(net[m].rgs, c.gid(leader), kvs))
              else net[m]
    decreases |list|
  {
    if list != [] {
      var rest := ReplicaMsgs(list[1..], leader, kvs);
      if list[0] == leader {
        assert ReplicaMsgs(list, leader, kvs) == rest;
        ReplicasAt(c, net, list[1..], leader, kvs, m);
      } else {
        assert ReplicaMsgs(list, leader, kvs)[1..] == rest;
        ReplicasAt(c, DeliverData(c, net, Replicas(list[0], leader, kvs)), list[1..], leader, kvs, m);
        if m in net {
          ReplicasTwice(net[m].rgs, c.gid(leader), kvs);
        }
      }
    }
  }

  lemma {:induction false} RemovalsAt(c: Config, net: Cluster, list: seq<Id>, leader: Id, kvs: Group, m: Id)
    ensures DeliverAllData(c, net, RemovalMsgs(list, leader, kvs)).Keys == net.Keys
    ensures m in net ==>
              DeliverAllData(c, net, RemovalMsgs(list, leader, kvs))[m] ==
              if m in list then net[m].(rgs := HandleRemoval(net[m].rgs, c.gid(leader), kvs)) else net[m]
    decreases |list|
  {
    if list != [] {
      assert RemovalMsgs(list, leader, kvs)[1..] == RemovalMsgs(list[1..], leader, kvs);
      RemovalsAt(c, DeliverData(c, net, Removal(list[0], leader, kvs)), list[1..], leader, kvs, m);
      if m in net {
        RemovalTwice(net[m].rgs, c.gid(leader), kvs);
      }
    }
  }

  /** The copies of group `leader` after replicas of `kvs` went to every entry of `list`. */
  lemma {:induction false} ReplicasDelivered(c: Config, net: Cluster, list: seq<Id>, leader: Id, kvs: Group)
    ensures var net' := DeliverAllData(c, net, ReplicaMsgs(list, leader, kvs));
            && SameButGroup(net, net', c.gid(leader))
            && forall m :: m in net && c.gid(leader) in net[m].rgs ==>
                 net'[m].rgs[c.gid(leader)] ==
                 if m in list && m != leader then net[m].rgs[c.gid(leader)] + kvs else net[m].rgs[c.gid(leader)]
  {
    var net' := DeliverAllData(c, net, ReplicaMsgs(list, leader, kvs));
    ReplicasAt(c, net, list, leader, kvs, leader);
    forall m | m in net
      ensures net[m].rt == net'[m].rt && net[m].pred == net'[m].pred
      ensures net[m].rgs - {c.gid(leader)} == net'[m].rgs - {c.gid(leader)}
      ensures c.gid(leader) in net[m].rgs <==> c.gid(leader) in net'[m].rgs
      ensures c.gid(leader) in net[m].rgs ==>
                net'[m].rgs[c.gid(leader)] ==
                if m in list && m != leader then net[m].rgs[c.gid(leader)] + kvs else net[m].rgs[c.gid(leader)]
    {
      ReplicasAt(c, net, list, leader, kvs, m);
      HandledSame(net[m].rgs, c.gid(leader), kvs);
    }
  }

  /** The copies of group `leader` after a removal of `kvs` went to every entry of `list`. */
  lemma {:induction false} RemovalsDelivered(c: Config, net: Cluster, list: seq<Id>, leader: Id, kvs: Group)
    ensures var net' := DeliverAllData(c, net, RemovalMsgs(list, leader, kvs));
            && SameButGroup(net, net', c.gid(leader))
            && forall m :: m in net && c.gid(leader) in net[m].rgs ==>
                 net'[m].rgs[c.gid(leader)] ==
                 if m in list then net[m].rgs[c.gid(leader)] - kvs.Keys else net[m].rgs[c.gid(leader)]
  {
    var net' := DeliverAllData(c, net, RemovalMsgs(list, leader, kvs));
    RemovalsAt(c, net, list, leader, kvs, leader);
    forall m | m in net
      ensures net[m].rt == net'[m].rt && net[m].pred == net'[m].pred
      ensures net[m].rgs - {c.gid(leader)} == net'[m].rgs - {c.gid(leader)}
      ensures c.gid(leader) in net[m].rgs <==> c.gid(leader) in net'[m].rgs
      ensures c.gid(leader) in net[m].rgs ==>
                net'[m].rgs[c.gid(leader)] ==
                if m in list then net[m].rgs[c.gid(leader)] - kvs.Keys else net[m].rgs[c.gid(leader)]
    {
      RemovalsAt(c, net, list, leader, kvs, m);
      HandledSame(net[m].rgs, c.gid(leader), kvs);
    }
  }

  // ---------------------------------------------------------------- agreement

  /** Every live node in the list of `o` holds a group for `o` equal to its own map. */
  ghost predicate Agreement(c: Config, net: Cluster, o: Id) {
    o in net && c.gid(o) in net[o].rgs &&
    forall m {:trigger HoldsCopy(c, net, m, o)} :: m in net && m != o && m in net[o].rt.list ==> HoldsCopy(c, net, m, o)
  }

  ghost predicate HoldsCopy(c: Config, net: Cluster, m: Id, o: Id) {
    && m in net && o in net && c.gid(o) in net[m].rgs && c.gid(o) in net[o].rgs
    && net[m].rgs[c.gid(o)] == net[o].rgs[c.gid(o)]
  }

  /** Groups other than `leader` are not touched. */
  lemma {:induction false} OtherGroupsSame(a: Cluster, b: Cluster, leader: Gid, m: Id, o: Gid)
    requires SameButGroup(a, b, leader) && m in a && o != leader
    ensures o in a[m].rgs <==> o in b[m].rgs
    ensures o in a[m].rgs ==> a[m].rgs[o] == b[m].rgs[o]
  {
    assert a[m].rgs - {leader} == b[m].rgs - {leader};
    assert o in a[m].rgs <==> o in a[m].rgs - {leader};
    assert o in b[m].rgs <==> o in b[m].rgs - {leader};
    assert o in a[m].rgs ==> (a[m].rgs - {leader})[o] == a[m].rgs[o];
    assert o in b[m].rgs ==> (b[m].rgs - {leader})[o] == b[m].rgs[o];
  }

  lemma {:induction false} OtherAgreementKept(c: Config, a: Cluster, b: Cluster, leader: Gid, o: Id)
    requires SameButGroup(a, b, leader) && c.gid(o) != leader && Agreement(c, a, o)
    ensures Agreement(c, b, o)
  {
    OtherGroupsSame(a, b, leader, o, c.gid(o));
    forall m | m in b && m != o && m in b[o].rt.list
      ensures HoldsCopy(c, b, m, o)
    {
      assert HoldsCopy(c, a, m, o);
      OtherGroupsSame(a, b, leader, m, c.gid(o));
    }
  }

  /** Replica messages of one leader leave the leader's own group alone. */
  lemma {:induction false} PutLocalEffect(c: Config, net: Cluster, n: Id, key: Key, val: Val)
    requires n in net && c.gid(n) in net[n].rgs
    ensures var net' := PutLocal(c, net, n, key, val);
            var g := c.gid(n);
            && SameButGroup(net, net', g)
            && net'[n].rgs[g] == net[n].rgs[g][key := val]
            && forall m :: m in net && m != n && g in net[m].rgs ==>
                 net'[m].rgs[g] == if m in net[n].rt.list then net[m].rgs[g][key := val] else net[m].rgs[g]
  {
    var g := c.gid(n);
    var net1 := net[n := net[n].(rgs := net[n].rgs[g := net[n].rgs[g][key := val]])];
    var net' := PutLocal(c, net, n, key, val);
    assert SameButGroup(net, net1, g);
    ReplicasDelivered(c, net1, net[n].rt.list, n, map[key := val]);
    forall m | m in net && m != n && g in net[m].rgs
      ensures net'[m].rgs[g] == if m in net[n].rt.list then net[m].rgs[g][key := val] else net[m].rgs[g]
    {
      assert net[m].rgs[g] + map[key := val] == net[m].rgs[g][key := val];
    }
  }

  /** Replica agreement of every owner is kept by any put. */
  lemma {:induction false} PutKeepsAgreement(c: Config, net: Cluster, n: Id, key: Key, val: Val, o: Id)
    requires KeysApart(c) && ValidCluster(c, net) && n in net && c.gid(n) in net[n].rgs && Agreement(c, net, o)
    ensures Agreement(c, PutLocal(c, net, n, key, val), o)
  {
    var net' := PutLocal(c, net, n, key, val);
    PutLocalEffect(c, net, n, key, val);
    if o != n {
      OtherAgreementKept(c, net, net', c.gid(n), o);
    } else {
      forall m | m in net' && m != o && m in net'[o].rt.list
        ensures HoldsCopy(c, net', m, o)
      {
        assert HoldsCopy(c, net, m, o);
      }
    }
  }

  // ---------------------------------------------------------------- new-node messages

  /** The cluster right after the receiver has changed its groups, before it sends removals. */
  function Received(c: Config, net: Cluster, to: Id, newLeader: Id, oldLeader: Option<Id>): Cluster
    requires to in net
  {
    net[to := net[to].(rgs := Coordinated(c, net[to], newLeader, oldLeader))]
  }

  /** The receiver right after it has changed its groups. */
  lemma {:induction false} ReceiverEffect(c: Config, net: Cluster, to: Id, n: Id)
    requires ValidConfig(c) && ValidCluster(c, net) && to in net && c.gid(to) in net[to].rgs
    ensures var p := net[to];
            var rgs' := Coordinated(c, p, n, None);
            var own := c.gid(to);
            && rgs'.Keys == p.rgs.Keys - Evicted(c, to, p.rgs, n) + (if n == to then {} else {c.gid(n)})
            && own in rgs' && own !in Evicted(c, to, p.rgs, n)
            && rgs'[own] == (if Yields(c, to, p.pred, p.rgs, n, None) then Kept(c, p.rgs[own], to, n) else p.rgs[own])
            && (forall g :: g in rgs' && g != own && g in p.rgs ==> rgs'[g] == p.rgs[g])
            && (forall g :: g in rgs' && g !in p.rgs ==> rgs'[g] == map[])
  {
    OwnGroupStaysIff(c, to, net[to].rgs, n, None);
    EvictedIsOther(c, to, net[to].rgs, n);
    if n != to {
      NewNodeMembership(c, to, net[to].rgs, n);
    }
  }

  /** What a new-node message does to a node other than the receiver: its copies of the receiver's group shrink. */
  lemma {:induction false} BystanderEffect(c: Config, net: Cluster, to: Id, n: Id, m: Id)
    requires ValidConfig(c) && ValidCluster(c, net) && to in net && c.gid(to) in net[to].rgs && m in net && m != to
    ensures var net' := Deliver(c, net, Coordinator(to, n, None));
            var p, own := net[to], c.gid(to);
            && m in net' && net'[m].rt == net[m].rt && net'[m].pred == net[m].pred
            && net'[m].rgs.Keys == net[m].rgs.Keys
            && (forall g :: g in net[m].rgs && g != own ==> net'[m].rgs[g] == net[m].rgs[g])
            && (own in net[m].rgs ==>
                  net'[m].rgs[own] == if Yields(c, to, p.pred, p.rgs, n, None) && m in p.rt.list
                                      then net[m].rgs[own] - Handed(c, p.rgs[own], to, n).Keys else net[m].rgs[own])
  {
    var p, own := net[to], c.gid(to);
    OwnGroupStaysIff(c, to, p.rgs, n, None);
    if Yields(c, to, p.pred, p.rgs, n, None) {
      RemovalsAt(c, Received(c, net, to, n, None), p.rt.list, to, Handed(c, p.rgs[own], to, n), m);
    }
  }

  /** What it does to the receiver: removals that come back to it find nothing more. */
  lemma {:induction false} ToldEffect(c: Config, net: Cluster, to: Id, n: Id)
    requires ValidConfig(c) && ValidCluster(c, net) && to in net && c.gid(to) in net[to].rgs
    ensures var net' := Deliver(c, net, Coordinator(to, n, None));
            && net'.Keys == net.Keys
            && net'[to] == net[to].(rgs := Coordinated(c, net[to], n, None))
  {
    var p, own := net[to], c.gid(to);
    OwnGroupStaysIff(c, to, p.rgs, n, None);
    if Yields(c, to, p.pred, p.rgs, n, None) {
      var gone := Handed(c, p.rgs[own], to, n);
      var net1 := Received(c, net, to, n, None);
      RemovalsAt(c, net1, p.rt.list, to, gone, to);
      assert Kept(c, p.rgs[own], to, n) - gone.Keys == Kept(c, p.rgs[own], to, n);
      assert HandleRemoval(net1[to].rgs, own, gone) == net1[to].rgs;
    }
  }

  /** Every own group is there. */
  ghost predicate OwnGroups(c: Config, net: Cluster) {
    forall m :: m in net ==> c.gid(m) in net[m].rgs
  }

  lemma {:induction false} NewNodeKeepsOwnGroups(c: Config, net: Cluster, to: Id, n: Id)
    requires ValidConfig(c) && ValidCluster(c, net) && OwnGroups(c, net)
    ensures var net' := Deliver(c, net, Coordinator(to, n, None));
            && net'.Keys == net.Keys && ValidCluster(c, net') && OwnGroups(c, net')
            && forall m {:trigger net'[m]} :: m in net ==> net'[m].rt == net[m].rt && net'[m].pred == net[m].pred
  {
    if to in net {
      var net' := Deliver(c, net, Coordinator(to, n, None));
      ToldEffect(c, net, to, n);
      ReceiverEffect(c, net, to, n);
      forall m | m in net
        ensures net'[m].rt == net[m].rt && net'[m].pred == net[m].pred && c.gid(m) in net'[m].rgs
      {
        if m != to {
          BystanderEffect(c, net, to, n, m);
        }
      }
    }
  }

  /**
   A new node that lies before the predecessor that the receiver knows takes
   nothing: the receiver's own group stays as it is, whatever it holds, and no
   removals are sent.
   */
  lemma {:induction false} DistantNodeTakesNothing(c: Config, net: Cluster, to: Id, n: Id)
    requires ValidConfig(c) && ValidCluster(c, net) && to in net && c.gid(to) in net[to].rgs
    requires net[to].pred.Some? && Between(net[to].pred.value, n, to)
    ensures var net' := Deliver(c, net, Coordinator(to, n, None));
            && to in net' && c.gid(to) in net'[to].rgs && net'[to].rgs[c.gid(to)] == net[to].rgs[c.gid(to)]
            && CoordinatedOutbox(c, net[to], n, None) == []
  {
    ToldEffect(c, net, to, n);
    ReceiverEffect(c, net, to, n);
  }

  /** Agreement of the receiver survives the key removal that a new predecessor causes. */
  lemma {:induction false} RemovalKeepsAgreement(c: Config, net: Cluster, to: Id, n: Id)
    requires ValidConfig(c) && ValidCluster(c, net) && to in net && Agreement(c, net, to)
    ensures Agreement(c, Deliver(c, net, Coordinator(to, n, None)), to)
  {
    var net' := Deliver(c, net, Coordinator(to, n, None));
    var own := c.gid(to);
    ToldEffect(c, net, to, n);
    ReceiverEffect(c, net, to, n);
    forall m | m in net' && m != to && m in net'[to].rt.list
      ensures HoldsCopy(c, net', m, to)
    {
      assert HoldsCopy(c, net, m, to);
      BystanderEffect(c, net, to, n, m);
      assert net[to].rgs[own] - Handed(c, net[to].rgs[own], to, n).Keys == Kept(c, net[to].rgs[own], to, n);
    }
  }

  /**
   Agreement of another owner survives a new-node message exactly when the
   receiver is not one of the owner's copies or does not evict its group.
   */
  lemma {:induction false} EvictionAgreementIff(c: Config, net: Cluster, to: Id, n: Id, o: Id)
    requires ValidConfig(c) && ValidCluster(c, net) && to in net && c.gid(to) in net[to].rgs
    requires o != to && Agreement(c, net, o)
    ensures Agreement(c, Deliver(c, net, Coordinator(to, n, None)), o) <==>
            !(to in net[o].rt.list && c.gid(o) in Evicted(c, to, net[to].rgs, n))
  {
    var net' := Deliver(c, net, Coordinator(to, n, None));
    var g := c.gid(o);
    ToldEffect(c, net, to, n);
    ReceiverEffect(c, net, to, n);
    EvictedIsOther(c, to, net[to].rgs, n);
    BystanderEffect(c, net, to, n, o);
    if to in net[o].rt.list {
      assert HoldsCopy(c, net, to, o);
      assert g in net'[to].rgs <==> g !in Evicted(c, to, net[to].rgs, n);
      assert g in Evicted(c, to, net[to].rgs, n) ==> !HoldsCopy(c, net', to, o);
    }
    if !(to in net[o].rt.list && g in Evicted(c, to, net[to].rgs, n)) {
      forall m | m in net' && m != o && m in net'[o].rt.list
        ensures HoldsCopy(c, net', m, o)
      {
        assert HoldsCopy(c, net, m, o);
        if m != to {
          BystanderEffect(c, net, to, n, m);
        }
      }
    }
  }

  // ---------------------------------------------------------------- leader announcements

  /** The message has no further effect when it comes again. */
  lemma {:induction false} RegroupTwice(c: Config, own: Id, rgs: Rgs, s: Id, d: Id)
    ensures var rgs' := Regrouped(c, own, rgs, s, Some(d));
            Regrouped(c, own, rgs', s, Some(d)) == rgs'
  {
  }

  /** A leader-change message is only a change of groups. */
  lemma {:induction false} ChangeDelivered(c: Config, net: Cluster, to: Id, s: Id, d: Id)
    requires ValidCluster(c, net) && to in net
    ensures Deliver(c, net, Coordinator(to, s, Some(d))) ==
            net[to := net[to].(rgs := Regrouped(c, to, net[to].rgs, s, Some(d)))]
  {
  }

  /** The groups of each node after every entry of the list was told that `s` leads in place of `d`. */
  lemma {:induction false} ChangesDelivered(c: Config, net: Cluster, list: seq<Id>, s: Id, d: Id)
    requires ValidCluster(c, net)
    ensures var net' := DeliverAll(c, net, CoordinatorMsgs(list, s, Some(d)));
            && net'.Keys == net.Keys && ValidCluster(c, net')
            && forall m {:trigger net'[m]} :: m in net ==>
                 net'[m] == if m in list then net[m].(rgs := Regrouped(c, m, net[m].rgs, s, Some(d))) else net[m]
    decreases |list|
  {
    if list != [] {
      var msgs := CoordinatorMsgs(list, s, Some(d));
      assert msgs[1..] == CoordinatorMsgs(list[1..], s, Some(d));
      var net1 := Deliver(c, net, msgs[0]);
      if list[0] in net {
        ChangeDelivered(c, net, list[0], s, d);
        RegroupTwice(c, list[0], net[list[0]].rgs, s, d);
      }
      ChangesDelivered(c, net1, list[1..], s, d);
    }
  }

  lemma {:induction false} AllReplicasDelivered(c: Config, net: Cluster, list: seq<Id>, leader: Id, data: Group)
    ensures var net' := DeliverAllData(c, net, AllReplicaMsgs(list, leader, data));
            var g := c.gid(leader);
            && SameButGroup(net, net', g)
            && forall m :: m in net && g in net[m].rgs ==>
                 net'[m].rgs[g] == if m in list && m != leader then net[m].rgs[g] + data else net[m].rgs[g]
  {
    if |data| == 0 {
      assert data == map[];
      forall m | m in net && c.gid(leader) in net[m].rgs
        ensures net[m].rgs[c.gid(leader)] + data == net[m].rgs[c.gid(leader)]
      {
      }
    } else {
      ReplicasDelivered(c, net, list, leader, data);
    }
  }

  /** What one node holds of the group of `o`; nothing when it is no member. */
  function CopyAt(c: Config, p: Peer, o: Id): Group {
    if c.gid(o) in p.rgs then p.rgs[c.gid(o)] else map[]
  }

  /** Each entry of the list is a member once the new node `o` has announced itself, and what it held of `o` is kept. */
  lemma {:induction false} NewcomerTold(c: Config, net: Cluster, list: seq<Id>, o: Id, m: Id)
    requires ValidConfig(c) && ValidCluster(c, net) && OwnGroups(c, net) && o in net && m in net
    ensures var net' := DeliverAll(c, net, CoordinatorMsgs(list, o, None));
            && net'.Keys == net.Keys && ValidCluster(c, net') && OwnGroups(c, net') && net'[m].rt == net[m].rt
            && (m != o ==> (c.gid(o) in net'[m].rgs <==> c.gid(o) in net[m].rgs || m in list))
            && CopyAt(c, net'[m], o) == CopyAt(c, net[m], o)
    decreases |list|
  {
    if list != [] {
      var msgs := CoordinatorMsgs(list, o, None);
      assert msgs[1..] == CoordinatorMsgs(list[1..], o, None);
      var to := list[0];
      var net1 := Deliver(c, net, msgs[0]);
      NewNodeKeepsOwnGroups(c, net, to, o);
      if to in net {
        ToldEffect(c, net, to, o);
        ReceiverEffect(c, net, to, o);
        EvictedIsOther(c, to, net[to].rgs, o);
        if m != to {
          BystanderEffect(c, net, to, o, m);
        }
      }
      NewcomerTold(c, net1, list[1..], o, m);
    }
  }

  /** Each entry of the list is a member once `o` has announced itself again. */
  lemma {:induction false} LeaderTold(c: Config, net: Cluster, list: seq<Id>, o: Id, m: Id)
    requires ValidCluster(c, net) && o in net && m in net
    ensures var net' := DeliverAll(c, net, CoordinatorMsgs(list, o, Some(o)));
            && net'.Keys == net.Keys && net'[m].rt == net[m].rt
            && (m != o ==> (c.gid(o) in net'[m].rgs <==> c.gid(o) in net[m].rgs || m in list))
            && (m == o ==> net'[m].rgs == net[m].rgs)
            && CopyAt(c, net'[m], o) == CopyAt(c, net[m], o)
  {
    ChangesDelivered(c, net, list, o, o);
    var net' := DeliverAll(c, net, CoordinatorMsgs(list, o, Some(o)));
    assert net'[m].rt == net[m].rt;
    assert m in list && m != o ==> net'[m].rgs == AddRg(net[m].rgs, c.gid(o));
  }

  /** Both kinds of announcement. */
  lemma {:induction false} Told(c: Config, net: Cluster, list: seq<Id>, o: Id, oldLeader: Option<Id>, m: Id)
    requires ValidConfig(c) && ValidCluster(c, net) && OwnGroups(c, net) && o in net && m in net
    requires oldLeader == None || oldLeader == Some(o)
    ensures var net' := DeliverAll(c, net, CoordinatorMsgs(list, o, oldLeader));
            && net'.Keys == net.Keys && net'[m].rt == net[m].rt
            && (c.gid(o) in net'[m].rgs <==> c.gid(o) in net[m].rgs || (m in list && m != o))
            && CopyAt(c, net'[m], o) == CopyAt(c, net[m], o)
  {
    if oldLeader.None? {
      NewcomerTold(c, net, list, o, m);
    } else {
      LeaderTold(c, net, list, o, m);
    }
  }

  /** The copy at `m` has no key that `o` does not have. */
  ghost predicate NoStrayKeys(c: Config, net: Cluster, m: Id, o: Id) {
    m in net && o in net && c.gid(o) in net[o].rgs && CopyAt(c, net[m], o).Keys <= net[o].rgs[c.gid(o)].Keys
  }

  /** Sending all the data overwrites every value, and leaves stray keys where they are. */
  lemma {:induction false} ResentIff(copy: Group, data: Group)
    ensures copy + data == data <==> copy.Keys <= data.Keys
  {
    if copy + data == data {
      assert forall k :: k in copy ==> k in copy + data;
    }
  }

  /**
   A node that announces itself to its successor list, as a newcomer (no old
   leader) or again (itself as old leader), and then sends all its data, as it
   does whenever the list has changed, ends with an exact copy at every live
   node of the list, whatever values those nodes held, if and only if none of
   them held a key that the node itself does not have.
   */
  lemma {:induction false} AnnounceMakesAgreement(c: Config, net: Cluster, o: Id, oldLeader: Option<Id>)
    requires ValidConfig(c) && ValidCluster(c, net) && OwnGroups(c, net) && o in net
    requires oldLeader == None || oldLeader == Some(o)
    ensures var list, data := net[o].rt.list, net[o].rgs[c.gid(o)];
            var net1 := DeliverAll(c, net, CoordinatorMsgs(list, o, oldLeader));
            var net' := DeliverAllData(c, net1, AllReplicaMsgs(list, o, data));
            Agreement(c, net', o) <==>
            forall m {:trigger NoStrayKeys(c, net, m, o)} ::
              m in net && m != o && m in list ==> NoStrayKeys(c, net, m, o)
  {
    var list, data := net[o].rt.list, net[o].rgs[c.gid(o)];
    var net1 := DeliverAll(c, net, CoordinatorMsgs(list, o, oldLeader));
    var net' := DeliverAllData(c, net1, AllReplicaMsgs(list, o, data));
    AllReplicasDelivered(c, net1, list, o, data);
    Told(c, net, list, o, oldLeader, o);
    forall m | m in net && m != o && m in list
      ensures HoldsCopy(c, net', m, o) <==> NoStrayKeys(c, net, m, o)
    {
      Told(c, net, list, o, oldLeader, m);
      ResentIff(CopyAt(c, net[m], o), data);
    }
  }

  // ---------------------------------------------------------------- a changed successor list

  lemma {:induction false} DeliverAllAppend(c: Config, net: Cluster, a: seq<Message>, b: seq<Message>)
    ensures DeliverAll(c, net, a + b) == DeliverAll(c, DeliverAll(c, net, a), b)
    decreases |a|
  {
    if a == [] {
      assert a + b == b;
    } else {
      assert (a + b)[1..] == a[1..] + b;
      DeliverAllAppend(c, Deliver(c, net, a[0]), a[1..], b);
    }
  }

  /** Replica messages are data messages. */
  lemma {:induction false} ReplicasAreData(c: Config, net: Cluster, list: seq<Id>, n: Id, data: Group)
    ensures DeliverAll(c, net, ReplicaMsgs(list, n, data)) == DeliverAllData(c, net, ReplicaMsgs(list, n, data))
    decreases |list|
  {
    if list != [] {
      var rest := ReplicaMsgs(list[1..], n, data);
      if list[0] == n {
        assert ReplicaMsgs(list, n, data) == rest;
        ReplicasAreData(c, net, list[1..], n, data);
      } else {
        var msgs := ReplicaMsgs(list, n, data);
        assert msgs == [Replicas(list[0], n, data)] + rest;
        assert msgs[1..] == rest;
        ReplicasAreData(c, DeliverData(c, net, msgs[0]), list[1..], n, data);
      }
    }
  }

  /**
   What a node really sends when its list has changed, whether it has announced
   itself before or not: afterwards all live nodes of the list hold exact copies,
   if and only if none of them held a key that the node itself does not have.
   */
  lemma {:induction false} ListNewsMakesAgreement(c: Config, net: Cluster, o: Id, oldList: seq<Id>, flag: nat)
    requires ValidConfig(c) && ValidCluster(c, net) && OwnGroups(c, net) && o in net
    requires !(oldList <= net[o].rt.list)
    ensures var list, data := net[o].rt.list, net[o].rgs[c.gid(o)];
            Agreement(c, DeliverAll(c, net, ListNews(o, oldList, list, flag, data)), o) <==>
            forall m {:trigger NoStrayKeys(c, net, m, o)} ::
              m in net && m != o && m in list ==> NoStrayKeys(c, net, m, o)
  {
    var list, data := net[o].rt.list, net[o].rgs[c.gid(o)];
    var oldLeader := if flag == 1 then None else Some(o);
    var net1 := DeliverAll(c, net, CoordinatorMsgs(list, o, oldLeader));
    DeliverAllAppend(c, net, CoordinatorMsgs(list, o, oldLeader), AllReplicaMsgs(list, o, data));
    ReplicasAreData(c, net1, list, o, data);
    assert DeliverAll(c, net1, AllReplicaMsgs(list, o, data)) == DeliverAllData(c, net1, AllReplicaMsgs(list, o, data));
    AnnounceMakesAgreement(c, net, o, oldLeader);
  }
}
