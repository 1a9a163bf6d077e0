/** One crash: the successor takes over the keys of the dead node (checkPredecessor). */
module Crash {
  import opened Optional
  import opened Circle
  import opened Routing
  import opened Store
  import opened Groups
  import opened Replication
  import opened Refine

  /** checkPredecessor at `s`, when its predecessor does not answer. */
  function CheckedPredecessor(c: Config, net: Cluster, s: Id): Cluster
    requires s in net
  {
    var p, g := net[s], c.gid(s);
    if p.pred.None? || p.pred.value in net then net
    else
      var rgs := TakenOver(g, p.rgs, c.gid(p.pred.value));
      var net1 := net[s := p.(rgs := rgs)];
      var net2 := DeliverAll(c, net1, CoordinatorMsgs(p.rt.list, s, p.pred));
      var net3 := DeliverAllData(c, net2, AllReplicaMsgs(p.rt.list, s, if g in rgs then rgs[g] else map[]));
      if s in net3 then net3[s := net3[s].(pred := None)] else net3
  }

  /** The dead node's share and its successor's are disjoint and together are the successor's new share. */
  lemma {:induction false} ShareMerges(c: Config, ring: set<Id>, d: Id, s: Id, all: Group)
    requires d in ring && s != d && IsNext(ring, d, s)
    ensures Share(c, ring, s, all).Keys !! Share(c, ring, d, all).Keys
    ensures Share(c, ring, s, all) + Share(c, ring, d, all) == Share(c, ring - {d}, s, all)
  {
    assert ring - {d} + {d} == ring;
    NextIsOwnerWithout(ring, d, s);
    ShareSplits(c, ring - {d}, d, s, all);
  }

  lemma {:induction false} NextIsOwnerWithout(ring: set<Id>, d: Id, s: Id)
    requires d in ring && s != d && IsNext(ring, d, s)
    ensures IsOwner(ring - {d}, d, s)
  {
  }

  /** A node that does not follow the dead one owns what it owned before. */
  lemma {:induction false} OtherShareKept(c: Config, ring: set<Id>, d: Id, s: Id, o: Id, all: Group)
    requires d in ring && s != d && IsNext(ring, d, s) && o in ring && o != d && o != s
    ensures Share(c, ring - {d}, o, all) == Share(c, ring, o, all)
  {
    NextIsOwnerWithout(ring, d, s);
    OtherShareSame(c, ring - {d}, d, s, o, all);
    assert ring - {d} + {d} == ring;
  }

  /** `d` is the node before `s`, on the ring and in what `s` knows. */
  ghost predicate Precedes(net: Cluster, d: Id, s: Id) {
    d in net && s in net && s != d && IsNext(net.Keys, d, s) && net[s].pred == Some(d)
  }

  /** What `s` has in its own group once it has taken over what it holds of `d`. */
  function Merged(c: Config, p: Peer, d: Id): Group {
    CopyAt(c, p, p.rt.id) + CopyAt(c, p, d)
  }

  /** The cluster once the data is moved and the successor list has been told. */
  function Announced(c: Config, net: Cluster, d: Id, s: Id): Cluster
    requires s in net
  {
    var p := net[s];
    DeliverAll(c, net[s := p.(rgs := TakenOver(c.gid(s), p.rgs, c.gid(d)))], CoordinatorMsgs(p.rt.list, s, Some(d)))
  }

  lemma {:induction false} TakenOverGroups(own: Gid, rgs: Rgs, failed: Gid)
    requires own in rgs && own != failed
    ensures var rgs' := TakenOver(own, rgs, failed);
            && rgs'.Keys == rgs.Keys - {failed}
            && rgs'[own] == rgs[own] + (if failed in rgs then rgs[failed] else map[])
            && forall o :: o in rgs' && o != own ==> rgs'[o] == rgs[o]
  {
    var none: Group := map[];
    assert rgs[own] + none == rgs[own];
  }

  lemma {:induction false} AnnouncedEffect(c: Config, net: Cluster, d: Id, s: Id)
    requires ValidCluster(c, net) && s in net && c.gid(s) in net[s].rgs && c.gid(d) != c.gid(s)
    ensures var net2 := Announced(c, net, d, s);
            && net2.Keys == net.Keys
            && (forall m {:trigger net2[m]} :: m in net ==>
                  && net2[m].rt == net[m].rt && net2[m].pred == net[m].pred
                  && net2[m].rgs == if m == s then TakenOver(c.gid(s), net[s].rgs, c.gid(d))
                                    else if m in net[s].rt.list then Regrouped(c, m, net[m].rgs, s, Some(d))
                                    else net[m].rgs)
  {
    var p := net[s];
    ChangesDelivered(c, net[s := p.(rgs := TakenOver(c.gid(s), p.rgs, c.gid(d)))], p.rt.list, s, d);
  }

  /** What a node that is told of the change keeps and gains. */
  lemma {:induction false} RegroupedEffect(c: Config, m: Id, rgs: Rgs, s: Id, d: Id)
    requires m != s && c.gid(s) != c.gid(d)
    ensures var rgs' := Regrouped(c, m, rgs, s, Some(d));
            && rgs'.Keys == rgs.Keys - {c.gid(d)} + {c.gid(s)}
            && rgs'[c.gid(s)] == (if c.gid(s) in rgs then rgs[c.gid(s)] else map[])
            && forall o :: o in rgs' && o != c.gid(s) ==> rgs'[o] == rgs[o]
  {
  }

  /** checkPredecessor in terms of its two broadcasts. */
  lemma {:induction false} CheckedIs(c: Config, net: Cluster, d: Id, s: Id)
    requires ValidCluster(c, net) && s in net && d !in net && c.gid(s) != c.gid(d)
    requires net[s].pred == Some(d) && c.gid(s) in net[s].rgs
    ensures var net2 := Announced(c, net, d, s);
            var net3 := DeliverAllData(c, net2, AllReplicaMsgs(net[s].rt.list, s, Merged(c, net[s], d)));
            s in net3 && CheckedPredecessor(c, net, s) == net3[s := net3[s].(pred := None)]
  {
    AnnouncedEffect(c, net, d, s);
    TakenOverGroups(c.gid(s), net[s].rgs, c.gid(d));
    AllReplicasDelivered(c, Announced(c, net, d, s), net[s].rt.list, s, Merged(c, net[s], d));
  }

  /** The effect of checkPredecessor at `s` on the merged group and its copies. */
  lemma {:induction false} TakeOverEffect(c: Config, net: Cluster, d: Id, s: Id)
    requires ValidCluster(c, net) && s in net && d !in net && c.gid(s) != c.gid(d)
    requires net[s].pred == Some(d) && c.gid(s) in net[s].rgs
    ensures var net' := CheckedPredecessor(c, net, s);
            && net'.Keys == net.Keys && net'[s].pred == None
            && c.gid(s) in net'[s].rgs && net'[s].rgs[c.gid(s)] == Merged(c, net[s], d)
            && (forall m :: m in net ==> net'[m].rt == net[m].rt)
  {
    var net2 := Announced(c, net, d, s);
    CheckedIs(c, net, d, s);
    AnnouncedEffect(c, net, d, s);
    TakenOverGroups(c.gid(s), net[s].rgs, c.gid(d));
    assert net2[s].rgs[c.gid(s)] == Merged(c, net[s], d);
    AllReplicasDelivered(c, net2, net[s].rt.list, s, Merged(c, net[s], d));
  }

  /** And on one copy of it. */
  lemma {:induction false} TakeOverCopy(c: Config, net: Cluster, d: Id, s: Id, m: Id)
    requires ValidCluster(c, net) && s in net && d !in net && c.gid(s) != c.gid(d)
    requires net[s].pred == Some(d) && c.gid(s) in net[s].rgs
    requires m in net && m != s && m in net[s].rt.list
    ensures var net' := CheckedPredecessor(c, net, s);
            && m in net' && c.gid(s) in net'[m].rgs
            && net'[m].rgs[c.gid(s)] == CopyAt(c, net[m], s) + Merged(c, net[s], d)
  {
    var net2 := Announced(c, net, d, s);
    CheckedIs(c, net, d, s);
    AnnouncedEffect(c, net, d, s);
    RegroupedEffect(c, m, net[m].rgs, s, d);
    assert net2[m].rt == net[m].rt;
    AllReplicasDelivered(c, net2, net[s].rt.list, s, Merged(c, net[s], d));
  }

  /** What the announcement leaves alone at any node. */
  lemma {:induction false} AnnouncedOthers(c: Config, net: Cluster, d: Id, s: Id, m: Id, o: Gid)
    requires ValidCluster(c, net) && s in net && c.gid(s) != c.gid(d) && m in net && o != c.gid(s) && o != c.gid(d)
    requires c.gid(s) in net[s].rgs
    ensures var net2 := Announced(c, net, d, s);
            && m in net2 && (o in net2[m].rgs <==> o in net[m].rgs)
            && (o in net[m].rgs ==> net2[m].rgs[o] == net[m].rgs[o])
  {
    AnnouncedEffect(c, net, d, s);
    TakenOverGroups(c.gid(s), net[s].rgs, c.gid(d));
    assert Announced(c, net, d, s)[m].rt == net[m].rt;
    if m != s {
      RegroupedEffect(c, m, net[m].rgs, s, d);
    }
  }

  /** All other groups stay as they are, except that copies of the dead node's may go. */
  lemma {:induction false} TakeOverOthers(c: Config, net: Cluster, d: Id, s: Id, m: Id, o: Gid)
    requires ValidCluster(c, net) && s in net && d !in net && m in net
    requires c.gid(s) != c.gid(d) && o != c.gid(s) && o != c.gid(d)
    requires net[s].pred == Some(d) && c.gid(s) in net[s].rgs
    ensures var net' := CheckedPredecessor(c, net, s);
            && m in net' && (o in net'[m].rgs <==> o in net[m].rgs)
            && (o in net[m].rgs ==> net'[m].rgs[o] == net[m].rgs[o])
  {
    var msgs := AllReplicaMsgs(net[s].rt.list, s, Merged(c, net[s], d));
    var net2 := Announced(c, net, d, s);
    CheckedIs(c, net, d, s);
    AnnouncedOthers(c, net, d, s, m, o);
    AllReplicasDelivered(c, net2, net[s].rt.list, s, Merged(c, net[s], d));
    OtherGroupsSame(net2, DeliverAllData(c, net2, msgs), c.gid(s), m, o);
  }

  /**
   One crash and the failover of its successor.  The two own groups were disjoint,
   and the successor's becomes its own data with whatever copy it held of the
   dead node's, or none.  The abstract map is unchanged exactly when this merge
   gives what the dead node's own data would have given; an exact copy does.
   */
  lemma {:induction false} CrashConservesIff(c: Config, net: Cluster, d: Id, s: Id, all: Group)
    requires KeysApart(c) && ValidCluster(c, net) && Represents(c, net, all) && Precedes(net, d, s)
    ensures var net' := CheckedPredecessor(c, net - {d}, s);
            && net'.Keys == net.Keys - {d}
            && c.gid(s) in net[s].rgs && c.gid(d) in net[d].rgs && c.gid(s) in net'[s].rgs
            && var own, dead := net[s].rgs[c.gid(s)], net[d].rgs[c.gid(d)];
               && own.Keys !! dead.Keys
               && net'[s].rgs[c.gid(s)] == own + CopyAt(c, net[s], d)
               && (Represents(c, net', all) <==> own + CopyAt(c, net[s], d) == own + dead)
               && (HoldsCopy(c, net, s, d) ==> Represents(c, net', all))
  {
    var alive := net - {d};
    var net' := CheckedPredecessor(c, alive, s);
    assert HoldsShare(c, net, net.Keys, d, all) && HoldsShare(c, net, net.Keys, s, all);
    TakeOverEffect(c, alive, d, s);
    ShareMerges(c, net.Keys, d, s, all);
    assert alive.Keys == net.Keys - {d};
    forall o | o in net' && o != s
      ensures HoldsShare(c, net', net'.Keys, o, all)
    {
      OtherHoldsShare(c, net, d, s, o, all);
    }
    assert Represents(c, net', all) <==> HoldsShare(c, net', net'.Keys, s, all);
  }

  lemma {:induction false} OtherHoldsShare(c: Config, net: Cluster, d: Id, s: Id, o: Id, all: Group)
    requires KeysApart(c) && ValidCluster(c, net) && Represents(c, net, all) && Precedes(net, d, s)
    requires o in net && o != d && o != s
    ensures var net' := CheckedPredecessor(c, net - {d}, s);
            HoldsShare(c, net', net.Keys - {d}, o, all)
  {
    assert HoldsShare(c, net, net.Keys, o, all) && HoldsShare(c, net, net.Keys, s, all);
    TakeOverOthers(c, net - {d}, d, s, o, c.gid(o));
    OtherShareKept(c, net.Keys, d, s, o, all);
  }

  lemma {:induction false} CheckedOwn(c: Config, net: Cluster, d: Id, s: Id)
    requires KeysApart(c) && ValidCluster(c, net) && Precedes(net, d, s) && c.gid(s) in net[s].rgs
    ensures var net' := CheckedPredecessor(c, net - {d}, s);
            && net'.Keys == net.Keys - {d} && s in net' && net'[s].rt == net[s].rt
            && c.gid(s) in net'[s].rgs && net'[s].rgs[c.gid(s)] == Merged(c, net[s], d)
  {
    TakeOverEffect(c, net - {d}, d, s);
  }

  lemma {:induction false} MergedCopyIff(c: Config, net: Cluster, d: Id, s: Id, m: Id)
    requires KeysApart(c) && ValidCluster(c, net) && Precedes(net, d, s) && c.gid(s) in net[s].rgs
    requires m in net && m != d && m != s && m in net[s].rt.list
    ensures HoldsCopy(c, CheckedPredecessor(c, net - {d}, s), m, s) <==>
            CopyAt(c, net[m], s).Keys <= Merged(c, net[s], d).Keys
  {
    var alive := net - {d};
    assert alive[m] == net[m] && alive[s] == net[s];
    CheckedOwn(c, net, d, s);
    TakeOverCopy(c, alive, d, s, m);
    ResentIff(CopyAt(c, net[m], s), Merged(c, net[s], d));
  }

  /** The copy of the group of `s` at `m` has no key that `s` lacks once it has taken over from `d`. */
  ghost predicate NoStrayMerged(c: Config, net: Cluster, d: Id, s: Id, m: Id) {
    m in net && s in net && CopyAt(c, net[m], s).Keys <= Merged(c, net[s], d).Keys
  }

  /**
   Afterwards the live nodes in the successor's list hold exact copies of the
   merged group, if and only if none held a key of the successor that is not in it.
   */
  lemma {:induction false} CrashRestoresAgreement(c: Config, net: Cluster, d: Id, s: Id)
    requires KeysApart(c) && ValidCluster(c, net) && Precedes(net, d, s) && c.gid(s) in net[s].rgs
    ensures Agreement(c, CheckedPredecessor(c, net - {d}, s), s) <==>
            forall m {:trigger NoStrayMerged(c, net, d, s, m)} ::
              m in net && m != d && m != s && m in net[s].rt.list ==> NoStrayMerged(c, net, d, s, m)
  {
    CheckedOwn(c, net, d, s);
    var net' := CheckedPredecessor(c, net - {d}, s);
    forall m | m in net && m != d && m != s && m in net[s].rt.list
      ensures HoldsCopy(c, net', m, s) <==> NoStrayMerged(c, net, d, s, m)
    {
      MergedCopyIff(c, net, d, s, m);
    }
  }

  /** Neither the successor nor any live node of its list keeps a group of the dead node. */
  lemma {:induction false} CrashDropsDeadGroup(c: Config, net: Cluster, d: Id, s: Id, m: Id)
    requires KeysApart(c) && ValidCluster(c, net) && Precedes(net, d, s) && c.gid(s) in net[s].rgs
    requires m in net && m != d && (m == s || m in net[s].rt.list)
    ensures var net' := CheckedPredecessor(c, net - {d}, s);
            m in net' && c.gid(d) !in net'[m].rgs
  {
    var alive := net - {d};
    var data := Merged(c, net[s], d);
    var net2 := Announced(c, alive, d, s);
    CheckedIs(c, alive, d, s);
    AnnouncedEffect(c, alive, d, s);
    assert net2[m].rt == net[m].rt;
    if m != s {
      RegroupedEffect(c, m, net[m].rgs, s, d);
    }
    AllReplicasDelivered(c, net2, net[s].rt.list, s, data);
    OtherGroupsSame(net2, DeliverAllData(c, net2, AllReplicaMsgs(net[s].rt.list, s, data)), c.gid(s), m, c.gid(d));
  }

  /** A copy of another owner's group is not disturbed. */
  lemma {:induction false} OtherCopyKept(c: Config, net: Cluster, d: Id, s: Id, m: Id, o: Id)
    requires KeysApart(c) && ValidCluster(c, net) && Precedes(net, d, s) && c.gid(s) in net[s].rgs
    requires o != d && o != s && m != d && HoldsCopy(c, net, m, o)
    ensures HoldsCopy(c, CheckedPredecessor(c, net - {d}, s), m, o)
  {
    TakeOverOthers(c, net - {d}, d, s, m, c.gid(o));
    TakeOverOthers(c, net - {d}, d, s, o, c.gid(o));
  }

  lemma {:induction false} OtherOwnerKept(c: Config, net: Cluster, d: Id, s: Id, o: Id)
    requires KeysApart(c) && ValidCluster(c, net) && Precedes(net, d, s) && c.gid(s) in net[s].rgs
    requires o in net && o != d && o != s && c.gid(o) in net[o].rgs
    ensures var net' := CheckedPredecessor(c, net - {d}, s);
            net'.Keys == net.Keys - {d} && o in net' && net'[o].rt == net[o].rt && c.gid(o) in net'[o].rgs
  {
    TakeOverEffect(c, net - {d}, d, s);
    TakeOverOthers(c, net - {d}, d, s, o, c.gid(o));
  }

  /** Agreement of every other surviving owner is not disturbed. */
  lemma {:induction false} CrashKeepsOtherAgreement(c: Config, net: Cluster, d: Id, s: Id, o: Id)
    requires KeysApart(c) && ValidCluster(c, net) && Precedes(net, d, s) && c.gid(s) in net[s].rgs
    requires o != d && o != s && Agreement(c, net, o)
    ensures Agreement(c, CheckedPredecessor(c, net - {d}, s), o)
  {
    var net' := CheckedPredecessor(c, net - {d}, s);
    OtherOwnerKept(c, net, d, s, o);
    forall m | m in net' && m != o && m in net'[o].rt.list
      ensures HoldsCopy(c, net', m, o)
    {
      assert HoldsCopy(c, net, m, o);
      OtherCopyKept(c, net, d, s, m, o);
    }
  }

  /** checkPredecessor as the local take-over, followed by the delivery of all that it sends. */
  lemma {:induction false} CheckedIsDelivery(c: Config, net: Cluster, d: Id, s: Id)
    requires ValidCluster(c, net) && s in net && d !in net && c.gid(s) != c.gid(d)
    requires net[s].pred == Some(d) && c.gid(s) in net[s].rgs
    ensures var p := net[s];
            var msgs := CoordinatorMsgs(p.rt.list, s, Some(d)) + AllReplicaMsgs(p.rt.list, s, Merged(c, p, d));
            var net' := DeliverAll(c, net[s := p.(rgs := TakenOver(c.gid(s), p.rgs, c.gid(d)))], msgs);
            s in net' && CheckedPredecessor(c, net, s) == net'[s := net'[s].(pred := None)]
  {
    var p, data := net[s], Merged(c, net[s], d);
    var net1 := net[s := p.(rgs := TakenOver(c.gid(s), p.rgs, c.gid(d)))];
    CheckedIs(c, net, d, s);
    DeliverAllAppend(c, net1, CoordinatorMsgs(p.rt.list, s, Some(d)), AllReplicaMsgs(p.rt.list, s, data));
    ReplicasAreData(c, Announced(c, net, d, s), p.rt.list, s, data);
  }

  /** checkPredecessor changes something if and only if the predecessor is dead. */
  lemma {:induction false} CheckedNothingIff(c: Config, net: Cluster, s: Id)
    requires KeysApart(c) && ValidCluster(c, net) && s in net && c.gid(s) in net[s].rgs
    requires net[s].pred.Some? ==> net[s].pred.value in c.ids
    ensures CheckedPredecessor(c, net, s) == net <==> net[s].pred.None? || net[s].pred.value in net
  {
    if net[s].pred.Some? && net[s].pred.value !in net {
      TakeOverEffect(c, net, net[s].pred.value, s);
    }
  }
}
