/**
 Whole histories of the store: writes, messages in any order, changes of the
 routing state, joins, crashes and take-overs, each at one node and one at a time.

 A cluster always stands for one map: what the owners of the keys hold in their
 own groups.  Each kind of event changes that map in a definite way, and only
 writes do so in a history in which no copy was missing.
 */
module History {
  import opened Optional
  import opened Circle
  import opened Routing
  import opened Store
  import opened Groups
  import opened Replication
  import opened Refine
  import opened Crash

  datatype Event =
    | Written(o: Id, key: Key, val: Val)                   // a put that `o` stores in its own group
    | Delivered(msg: Message)                              // any message, late, twice or not at all
    | Rewired(rts: map<Id, Router>, preds: map<Id, Option<Id>>)  // stabilisation, lists, fingers
    | Joined(rt: Router, s: Id)                            // with the keys that `s` hands over
    | Crashed(d: Id)
    | Checked(s: Id)                                       // `s` takes its predecessor for dead, and over from it

  // ---------------------------------------------------------------- the map that a cluster stands for

  /** What `o` holds of the keys that it owns is what the map says. */
  ghost predicate ServesAt(c: Config, net: Cluster, o: Id, all: Group) {
    && o in net && c.gid(o) in net[o].rgs
    && Share(c, net.Keys, o, net[o].rgs[c.gid(o)]) == Share(c, net.Keys, o, all)
  }

  /** Own groups may hold other keys besides; nobody asks for those. */
  ghost predicate Serves(c: Config, net: Cluster, all: Group) {
    forall o {:trigger ServesAt(c, net, o, all)} :: o in net ==> ServesAt(c, net, o, all)
  }

  ghost predicate ValidState(c: Config, net: Cluster) {
    ValidConfig(c) && ValidCluster(c, net) && OwnGroups(c, net)
  }

  /** Every entry of the map is in the share of one owner. */
  lemma {:induction false} InShare(c: Config, ring: set<Id>, all: Group, k: Key)
    requires ring != {}
    ensures var o := Owner(ring, c.hash(k));
            && o in ring && (k in Share(c, ring, o, all) <==> k in all)
            && (k in all ==> Share(c, ring, o, all)[k] == all[k])
  {
  }

  /** A cluster stands for one map only. */
  lemma {:induction false} ServesUnique(c: Config, net: Cluster, a: Group, b: Group)
    requires net != map[] && Serves(c, net, a) && Serves(c, net, b)
    ensures a == b
  {
    forall k
      ensures k in a <==> k in b
      ensures k in a && k in b ==> a[k] == b[k]
    {
      assert net.Keys != {};
      var o := Owner(net.Keys, c.hash(k));
      InShare(c, net.Keys, a, k);
      InShare(c, net.Keys, b, k);
      assert ServesAt(c, net, o, a) && ServesAt(c, net, o, b);
    }
  }

  /** A cluster with exact own groups is a special case. */
  lemma {:induction false} RepresentsServes(c: Config, net: Cluster, all: Group)
    requires Represents(c, net, all)
    ensures Serves(c, net, all) && OwnGroups(c, net)
  {
    RepresentsOwnGroups(c, net, all);
    forall o | o in net
      ensures ServesAt(c, net, o, all)
    {
      assert HoldsShare(c, net, net.Keys, o, all);
      ShareTwice(c, net.Keys, o, all);
    }
  }

  lemma {:induction false} ShareTwice(c: Config, ring: set<Id>, o: Id, all: Group)
    ensures Share(c, ring, o, Share(c, ring, o, all)) == Share(c, ring, o, all)
  {
  }

  /** At the owner of a key the cluster holds what the map holds. */
  lemma {:induction false} ServedValue(c: Config, net: Cluster, all: Group, o: Id, key: Key)
    requires Serves(c, net, all) && o in net && IsOwner(net.Keys, c.hash(key), o)
    ensures c.gid(o) in net[o].rgs
    ensures GetLocal(c, net[o], o, key) == if key in all then Found(all[key]) else NoSuchKey
  {
    assert ServesAt(c, net, o, all);
    var own := net[o].rgs[c.gid(o)];
    assert key in Share(c, net.Keys, o, own) <==> key in own;
    assert key in Share(c, net.Keys, o, all) <==> key in all;
    assert key in own ==> Share(c, net.Keys, o, own)[key] == own[key];
    assert key in all ==> Share(c, net.Keys, o, all)[key] == all[key];
  }

  // ---------------------------------------------------------------- events

  /** What has to hold for an event to happen. */
  ghost predicate Enabled(c: Config, net: Cluster, e: Event) {
    match e
    case Written(o, _, _) => o in net
    case Delivered(msg) =>
      // nobody is told that it has failed itself
      msg.Coordinator? ==> !NamesOwnAsFailed(c, msg.to, msg.newLeader, msg.oldLeader)
    case Rewired(rts, preds) =>
      && rts.Keys == net.Keys && preds.Keys == net.Keys
      && (forall n :: n in rts ==> rts[n].id == n && c.scan <= |rts[n].fingers|)
    case Joined(rt, s) => rt.id !in net && rt.id in c.ids && s in net && c.scan <= |rt.fingers|
    case Crashed(d) => d in net && net.Keys != {d}
    case Checked(s) => s in net && net[s].pred.Some? && c.gid(net[s].pred.value) != c.gid(s)
  }

  function Rewire(net: Cluster, rts: map<Id, Router>, preds: map<Id, Option<Id>>): Cluster {
    map n | n in net && n in rts && n in preds :: Peer(rts[n], preds[n], net[n].rgs)
  }

  /** One event; one that is not enabled does not happen.  The messages that it sends are events of their own. */
  ghost function Next(c: Config, net: Cluster, e: Event): Cluster {
    if !Enabled(c, net, e) then net
    else match e
      case Written(o, key, val) => PutLocal(c, net, o, key, val)
      case Delivered(msg) => Deliver(c, net, msg)
      case Rewired(rts, preds) => Rewire(net, rts, preds)
      case Joined(rt, s) => JoinWith(c, net, rt, s)
      case Crashed(d) => net - {d}
      case Checked(s) =>
        net[s := net[s].(rgs := TakenOver(c.gid(s), net[s].rgs, c.gid(net[s].pred.value)), pred := None)]
  }

  /** The entries of the map that `o` does not own. */
  ghost function Without(c: Config, ring: set<Id>, o: Id, all: Group): Group {
    map k | k in all && !IsOwner(ring, c.hash(k), o) :: all[k]
  }

  /** What an enabled event does to the map. */
  ghost function Changed(c: Config, net: Cluster, all: Group, e: Event): Group
    requires Enabled(c, net, e) && ValidState(c, net)
  {
    var ring := net.Keys;
    match e
    case Written(o, key, val) => if IsOwner(ring, c.hash(key), o) then all[key := val] else all
    case Delivered(msg) => if msg.to in net then Handled(c, net, all, msg) else all
    case Rewired(_, _) => all
    // the newcomer's keys are now what it was given
    case Joined(rt, s) =>
      Without(c, ring + {rt.id}, rt.id, all) + Share(c, ring + {rt.id}, rt.id, HandedBy(c, net[s], rt.id))
    // the keys of the dead node are what its new owner happens to hold of them
    case Crashed(d) => Left(c, net, all, d)
    case Checked(s) => all + Share(c, ring, s, CopyAt(c, net[s], net[s].pred.value))
  }

  /** What is left of the map without `d`: of its keys, what the new owner happens to hold. */
  ghost function Left(c: Config, net: Cluster, all: Group, d: Id): Group
    requires d in net && net.Keys != {d}
  {
    var s := HeirOf(net.Keys, d);
    Without(c, net.Keys, d, all) + Share(c, net.Keys, d, CopyAt(c, net[s], s))
  }

  /** The owner of the keys of `d` once `d` is gone. */
  ghost function HeirOf(ring: set<Id>, d: Id): (s: Id)
    requires d in ring && ring != {d}
    ensures s in ring && s != d
  {
    assert ring - {d} != {} by { assert ring - {d} == {} ==> ring == {d}; }
    Owner(ring - {d}, d)
  }

  /** What a message to a live node does to the map. */
  ghost function Handled(c: Config, net: Cluster, all: Group, msg: Message): Group
    requires ValidState(c, net) && msg.to in net
  {
    match msg
    case Replicas(to, leader, kvs) =>
      if c.gid(leader) == c.gid(to) then all + Share(c, net.Keys, to, kvs) else all
    case Removal(to, leader, kvs) =>
      if c.gid(leader) == c.gid(to) then all - Share(c, net.Keys, to, kvs).Keys else all
    case Coordinator(to, n, oldLeader) =>
      if Yields(c, to, net[to].pred, net[to].rgs, n, oldLeader)
      then all - Handed(c, Share(c, net.Keys, to, all), to, n).Keys else all
  }

  ghost function NextMap(c: Config, net: Cluster, all: Group, e: Event): Group
    requires ValidState(c, net)
  {
    if Enabled(c, net, e) then Changed(c, net, all, e) else all
  }

  // ---------------------------------------------------------------- shares

  lemma {:induction false} ShareOfSum(c: Config, ring: set<Id>, o: Id, a: Group, b: Group)
    ensures Share(c, ring, o, a + b) == Share(c, ring, o, a) + Share(c, ring, o, b)
  {
  }

  /** Nothing of one owner's share is in another's. */
  lemma {:induction false} ShareOfOther(c: Config, ring: set<Id>, o: Id, q: Id, a: Group)
    requires o != q
    ensures Share(c, ring, q, Share(c, ring, o, a)) == map[]
  {
  }

  lemma {:induction false} SumWithOther(c: Config, ring: set<Id>, o: Id, q: Id, all: Group, a: Group)
    requires o != q
    ensures Share(c, ring, q, all + Share(c, ring, o, a)) == Share(c, ring, q, all)
    ensures Share(c, ring, q, all - Share(c, ring, o, a).Keys) == Share(c, ring, q, all)
  {
    ShareOfSum(c, ring, q, all, Share(c, ring, o, a));
    ShareOfOther(c, ring, o, q, a);
  }

  lemma {:induction false} ShareOfDifference(c: Config, ring: set<Id>, o: Id, all: Group, a: Group)
    ensures Share(c, ring, o, all - Share(c, ring, o, a).Keys) == Share(c, ring, o, all) - a.Keys
  {
  }

  /** Equal shares stay equal when the owner's arc shrinks. */
  lemma {:induction false} SmallerShare(c: Config, ring: set<Id>, ring': set<Id>, o: Id, a: Group, b: Group)
    requires forall h :: IsOwner(ring', h, o) ==> IsOwner(ring, h, o)
    requires Share(c, ring, o, a) == Share(c, ring, o, b)
    ensures Share(c, ring', o, a) == Share(c, ring', o, b)
  {
    forall k | IsOwner(ring', c.hash(k), o)
      ensures k in a <==> k in b
      ensures k in a && k in b ==> a[k] == b[k]
    {
      assert k in a <==> k in Share(c, ring, o, a);
      assert k in b <==> k in Share(c, ring, o, b);
      assert k in a ==> Share(c, ring, o, a)[k] == a[k];
      assert k in b ==> Share(c, ring, o, b)[k] == b[k];
    }
  }

  // ---------------------------------------------------------------- each kind of event

  lemma {:induction false} WrittenServes(c: Config, net: Cluster, all: Group, o: Id, key: Key, val: Val)
    requires ValidState(c, net) && Serves(c, net, all) && o in net
    ensures var net' := PutLocal(c, net, o, key, val);
            && ValidState(c, net') && Serves(c, net', Changed(c, net, all, Written(o, key, val)))
  {
    var net' := PutLocal(c, net, o, key, val);
    PutLocalEffect(c, net, o, key, val);
    forall q | q in net'
      ensures ServesAt(c, net', q, Changed(c, net, all, Written(o, key, val)))
    {
      assert ServesAt(c, net, q, all);
      SharePut(c, net.Keys, q, all, key, val);
      SharePut(c, net.Keys, q, net[q].rgs[c.gid(q)], key, val);
      if q != o {
        OtherGroupsSame(net, net', c.gid(o), q, c.gid(q));
      }
    }
  }

  /** A replica or removal message at each own group. */
  lemma {:induction false} DataAtOwn(c: Config, net: Cluster, msg: Message, q: Id)
    requires ValidState(c, net) && !msg.Coordinator? && q in net && msg.to in net
    ensures var net' := Deliver(c, net, msg);
            var g := c.gid(q);
            && net'.Keys == net.Keys && net'[q].rt == net[q].rt && g in net'[q].rgs
            && net'[q].rgs[g] == if msg.to != q || c.gid(msg.leader) != g then net[q].rgs[g]
                                 else if msg.Replicas? then net[q].rgs[g] + msg.kvs
                                 else net[q].rgs[g] - msg.kvs.Keys
  {
  }

  /** Adding or removing the same entries keeps equal shares equal. */
  lemma {:induction false} SameDataSameShare(c: Config, ring: set<Id>, o: Id, own: Group, all: Group, kvs: Group)
    requires Share(c, ring, o, own) == Share(c, ring, o, all)
    ensures Share(c, ring, o, own + kvs) == Share(c, ring, o, all + Share(c, ring, o, kvs))
    ensures Share(c, ring, o, own - kvs.Keys) == Share(c, ring, o, all - Share(c, ring, o, kvs).Keys)
  {
    ShareOfSum(c, ring, o, own, kvs);
    ShareOfSum(c, ring, o, all, Share(c, ring, o, kvs));
    ShareTwice(c, ring, o, kvs);
    ShareOfDifference(c, ring, o, all, kvs);
    assert Share(c, ring, o, own - kvs.Keys) == Share(c, ring, o, own) - kvs.Keys;
  }

  lemma {:induction false} DataServes(c: Config, net: Cluster, all: Group, msg: Message)
    requires ValidState(c, net) && Serves(c, net, all) && !msg.Coordinator? && msg.to in net
    ensures var net' := Deliver(c, net, msg);
            ValidState(c, net') && Serves(c, net', Handled(c, net, all, msg))
  {
    var net' := Deliver(c, net, msg);
    forall q | q in net'
      ensures net'[q].rt == net[q].rt && ServesAt(c, net', q, Handled(c, net, all, msg))
    {
      var own := net[q].rgs[c.gid(q)];
      DataAtOwn(c, net, msg, q);
      assert ServesAt(c, net, q, all);
      if c.gid(msg.leader) == c.gid(msg.to) {
        if q != msg.to {
          SumWithOther(c, net.Keys, msg.to, q, all, msg.kvs);
        } else {
          SameDataSameShare(c, net.Keys, q, own, all, msg.kvs);
        }
      }
    }
  }

  /** What the receiver keeps of its share. */
  lemma {:induction false} KeptShare(c: Config, ring: set<Id>, o: Id, n: Id, own: Group, all: Group)
    requires Share(c, ring, o, own) == Share(c, ring, o, all)
    ensures Share(c, ring, o, Kept(c, own, o, n)) ==
            Share(c, ring, o, all - Handed(c, Share(c, ring, o, all), o, n).Keys)
  {
    var rest := all - Handed(c, Share(c, ring, o, all), o, n).Keys;
    assert Share(c, ring, o, Kept(c, own, o, n)) == Kept(c, Share(c, ring, o, own), o, n);
    assert Share(c, ring, o, rest) == Kept(c, Share(c, ring, o, all), o, n);
  }

  lemma {:induction false} HandedOfOther(c: Config, ring: set<Id>, o: Id, q: Id, n: Id, all: Group)
    requires o != q
    ensures Share(c, ring, q, all - Handed(c, Share(c, ring, o, all), o, n).Keys) == Share(c, ring, q, all)
  {
  }

  lemma {:induction false} NewNodeServes(c: Config, net: Cluster, all: Group, to: Id, n: Id)
    requires ValidState(c, net) && Serves(c, net, all) && to in net
    ensures var msg := Coordinator(to, n, None);
            ValidState(c, Deliver(c, net, msg)) && Serves(c, Deliver(c, net, msg), Handled(c, net, all, msg))
  {
    var msg := Coordinator(to, n, None);
    var net' := Deliver(c, net, msg);
    NewNodeKeepsOwnGroups(c, net, to, n);
    forall q | q in net'
      ensures ServesAt(c, net', q, Handled(c, net, all, msg))
    {
      assert ServesAt(c, net, q, all);
      OwnAfterMessage(c, net, to, n, q);
      if q == to {
        KeptShare(c, net.Keys, to, n, net[to].rgs[c.gid(to)], all);
      } else {
        HandedOfOther(c, net.Keys, to, q, n, all);
      }
    }
  }

  lemma {:induction false} LeaderChangeServes(c: Config, net: Cluster, all: Group, to: Id, n: Id, d: Id)
    requires ValidState(c, net) && Serves(c, net, all) && to in net && !NamesOwnAsFailed(c, to, n, Some(d))
    ensures var net' := Deliver(c, net, Coordinator(to, n, Some(d)));
            ValidState(c, net') && Serves(c, net', all)
  {
    var net' := Deliver(c, net, Coordinator(to, n, Some(d)));
    ChangeDelivered(c, net, to, n, d);
    OwnGroupStaysIff(c, to, net[to].rgs, n, Some(d));
    forall q | q in net'
      ensures net'[q].rt == net[q].rt && ServesAt(c, net', q, all)
    {
      assert ServesAt(c, net, q, all);
      assert net'.Keys == net.Keys;
    }
  }

  lemma {:induction false} DeliveredServes(c: Config, net: Cluster, all: Group, msg: Message)
    requires ValidState(c, net) && Serves(c, net, all) && Enabled(c, net, Delivered(msg))
    ensures var net' := Deliver(c, net, msg);
            ValidState(c, net') && Serves(c, net', Changed(c, net, all, Delivered(msg)))
  {
    if msg.to in net {
      if !msg.Coordinator? {
        DataServes(c, net, all, msg);
      } else if msg.oldLeader.None? {
        NewNodeServes(c, net, all, msg.to, msg.newLeader);
      } else {
        LeaderChangeServes(c, net, all, msg.to, msg.newLeader, msg.oldLeader.value);
      }
    }
  }

  lemma {:induction false} RewiredServes(
    c: Config, net: Cluster, all: Group, rts: map<Id, Router>, preds: map<Id, Option<Id>>)
    requires ValidState(c, net) && Serves(c, net, all) && Enabled(c, net, Rewired(rts, preds))
    ensures ValidState(c, Rewire(net, rts, preds)) && Serves(c, Rewire(net, rts, preds), all)
    ensures forall n {:trigger Rewire(net, rts, preds)[n]} :: n in net ==>
              Rewire(net, rts, preds)[n] == Peer(rts[n], preds[n], net[n].rgs)
  {
    var net' := Rewire(net, rts, preds);
    assert net'.Keys == net.Keys;
    forall o | o in net'
      ensures ServesAt(c, net', o, all)
    {
      assert ServesAt(c, net, o, all);
    }
  }

  /** Nobody's arc grows when a node joins. */
  lemma {:induction false} ArcShrinks(ring: set<Id>, n: Id, o: Id, h: Id)
    requires o != n && IsOwner(ring + {n}, h, o)
    ensures IsOwner(ring, h, o)
  {
  }

  lemma {:induction false} JoinedServes(c: Config, net: Cluster, all: Group, rt: Router, s: Id)
    requires ValidState(c, net) && Serves(c, net, all) && Enabled(c, net, Joined(rt, s))
    ensures var net' := JoinWith(c, net, rt, s);
            ValidState(c, net') && Serves(c, net', Changed(c, net, all, Joined(rt, s)))
  {
    var net' := JoinWith(c, net, rt, s);
    var n, ring, handed := rt.id, net.Keys + {rt.id}, HandedBy(c, net[s], rt.id);
    var all' := Changed(c, net, all, Joined(rt, s));
    assert net'.Keys == ring;
    forall o | o in net'
      ensures ServesAt(c, net', o, all')
    {
      if o == n {
        WithoutOwn(c, ring, n, all, handed);
      } else {
        assert ServesAt(c, net, o, all);
        forall h | IsOwner(ring, h, o)
          ensures IsOwner(net.Keys, h, o)
        {
          ArcShrinks(net.Keys, n, o, h);
        }
        SmallerShare(c, net.Keys, ring, o, net[o].rgs[c.gid(o)], all);
        WithoutOther(c, ring, n, o, all, handed);
      }
    }
  }

  /** Replacing the entries that `n` owns. */
  lemma {:induction false} WithoutOwn(c: Config, ring: set<Id>, n: Id, all: Group, a: Group)
    ensures Share(c, ring, n, Without(c, ring, n, all) + Share(c, ring, n, a)) == Share(c, ring, n, a)
  {
  }

  lemma {:induction false} WithoutOther(c: Config, ring: set<Id>, n: Id, o: Id, all: Group, a: Group)
    requires o != n
    ensures Share(c, ring, o, Without(c, ring, n, all) + Share(c, ring, n, a)) == Share(c, ring, o, all)
  {
    SumWithOther(c, ring, n, o, Without(c, ring, n, all), a);
    forall k | k in all && IsOwner(ring, c.hash(k), o)
      ensures k in Without(c, ring, n, all)
    {
    }
  }

  /** The heir owns its own arc and that of the dead node; all others keep theirs. */
  lemma {:induction false} ArcsAfterCrash(ring: set<Id>, d: Id, o: Id, h: Id)
    requires d in ring && ring != {d} && o in ring && o != d
    ensures IsOwner(ring - {d}, h, o) <==>
            IsOwner(ring, h, o) || (o == HeirOf(ring, d) && IsOwner(ring, h, d))
  {
    var rest := ring - {d};
    var s := HeirOf(ring, d);
    assert rest + {d} == ring;
    OwnerSplits(rest, d, s, h);
    if o != s {
      assert IsOwner(rest, h, o) ==> !IsOwner(rest, h, s);
    }
  }

  lemma {:induction false} CrashedShare(c: Config, ring: set<Id>, d: Id, o: Id, a: Group)
    requires d in ring && ring != {d} && o in ring && o != d
    ensures o == HeirOf(ring, d) ==>
              Share(c, ring - {d}, o, a) == Share(c, ring, o, a) + Share(c, ring, d, a)
    ensures o != HeirOf(ring, d) ==> Share(c, ring - {d}, o, a) == Share(c, ring, o, a)
  {
    forall k | k in a
      ensures IsOwner(ring - {d}, c.hash(k), o) <==>
              IsOwner(ring, c.hash(k), o) || (o == HeirOf(ring, d) && IsOwner(ring, c.hash(k), d))
    {
      ArcsAfterCrash(ring, d, o, c.hash(k));
    }
  }

  lemma {:induction false} CrashedServes(c: Config, net: Cluster, all: Group, d: Id)
    requires ValidState(c, net) && Serves(c, net, all) && Enabled(c, net, Crashed(d))
    ensures ValidState(c, net - {d}) && Serves(c, net - {d}, Changed(c, net, all, Crashed(d)))
  {
    var net', ring := net - {d}, net.Keys;
    var s := HeirOf(ring, d);
    var held := net[s].rgs[c.gid(s)];
    var all' := Without(c, ring, d, all) + Share(c, ring, d, held);
    assert net'.Keys == ring - {d};
    forall o | o in net'
      ensures ServesAt(c, net', o, all')
    {
      var own := net[o].rgs[c.gid(o)];
      assert ServesAt(c, net, o, all);
      CrashedShare(c, ring, d, o, own);
      CrashedShare(c, ring, d, o, all');
      WithoutOther(c, ring, d, o, all, held);
      WithoutOwn(c, ring, d, all, held);
    }
  }

  lemma {:induction false} CheckedServes(c: Config, net: Cluster, all: Group, s: Id)
    requires ValidState(c, net) && Serves(c, net, all) && Enabled(c, net, Checked(s))
    ensures var net' := Next(c, net, Checked(s));
            ValidState(c, net') && Serves(c, net', Changed(c, net, all, Checked(s)))
  {
    var net' := Next(c, net, Checked(s));
    var d := net[s].pred.value;
    var copy := CopyAt(c, net[s], d);
    TakenOverGroups(c.gid(s), net[s].rgs, c.gid(d));
    forall q | q in net'
      ensures ServesAt(c, net', q, all + Share(c, net.Keys, s, copy))
    {
      assert ServesAt(c, net, q, all);
      assert net'.Keys == net.Keys;
      if q == s {
        SameDataSameShare(c, net.Keys, s, net[s].rgs[c.gid(s)], all, copy);
      } else {
        SumWithOther(c, net.Keys, s, q, all, copy);
      }
    }
  }

  /** After each event the cluster stands for the map that the event leads to. */
  lemma {:induction false} NextKeeps(c: Config, net: Cluster, all: Group, e: Event)
    requires ValidState(c, net) && Serves(c, net, all)
    ensures ValidState(c, Next(c, net, e)) && Serves(c, Next(c, net, e), NextMap(c, net, all, e))
  {
    if Enabled(c, net, e) {
      match e
      case Written(o, key, val) => WrittenServes(c, net, all, o, key, val);
      case Delivered(msg) => DeliveredServes(c, net, all, msg);
      case Rewired(rts, preds) => RewiredServes(c, net, all, rts, preds);
      case Joined(rt, s) => JoinedServes(c, net, all, rt, s);
      case Crashed(d) => CrashedServes(c, net, all, d);
      case Checked(s) => CheckedServes(c, net, all, s);
    }
  }

  // ---------------------------------------------------------------- the events of one node

  /** What an event of one node is in a history. */
  function AsEvent(net: Cluster, n: Id, e: Groups.Event): Event {
    match e
    case Coordinate(newLeader, oldLeader) => Delivered(Coordinator(n, newLeader, oldLeader))
    case Replicate(leader, kvs) => Delivered(Replicas(n, leader, kvs))
    case Remove(leader, kvs) => Delivered(Removal(n, leader, kvs))
    case Write(key, val) => Written(n, key, val)
    case PredecessorFailed => Checked(n)
    case Notice(q) =>
      Rewired(map m | m in net :: net[m].rt, map m | m in net :: if m == n then Some(q) else net[m].pred)
  }

  /** A node of a cluster reacts as the node alone does. */
  lemma {:induction false} ReactIsNext(c: Config, net: Cluster, n: Id, e: Groups.Event)
    requires ValidState(c, net) && n in net && Admissible(c, net[n], e)
    ensures var net' := Next(c, net, AsEvent(net, n, e));
            n in net' && net'[n] == React(c, net[n], e)
  {
    match e
    case Coordinate(newLeader, oldLeader) =>
      if oldLeader.None? {
        ToldEffect(c, net, n, newLeader);
      } else {
        ChangeDelivered(c, net, n, newLeader, oldLeader.value);
      }
    case Write(key, val) =>
      var g := c.gid(n);
      var net1 := net[n := net[n].(rgs := net[n].rgs[g := net[n].rgs[g][key := val]])];
      ReplicasAt(c, net1, net[n].rt.list, n, map[key := val], n);
    case _ =>
  }

  /** The take-over, followed by the delivery of all that it sends, is checkPredecessor. */
  lemma {:induction false} CheckedIsEvents(c: Config, net: Cluster, d: Id, s: Id)
    requires ValidState(c, net) && s in net && d !in net && c.gid(s) != c.gid(d) && net[s].pred == Some(d)
    ensures var p := net[s];
            var msgs := CoordinatorMsgs(p.rt.list, s, Some(d)) + AllReplicaMsgs(p.rt.list, s, Merged(c, p, d));
            DeliverAll(c, Next(c, net, Checked(s)), msgs) == CheckedPredecessor(c, net, s)
  {
    var p, data := net[s], Merged(c, net[s], d);
    var list := p.rt.list;
    var a := net[s := p.(rgs := TakenOver(c.gid(s), p.rgs, c.gid(d)))];
    var b := Next(c, net, Checked(s));
    assert b == a[s := a[s].(pred := None)];
    CheckedIsDelivery(c, net, d, s);
    SamePredsApart(c, a, b, s, list, d, data);
  }

  /** Messages of a leader change and data messages do not look at predecessors. */
  lemma {:induction false} SamePredsApart(c: Config, a: Cluster, b: Cluster, s: Id, list: seq<Id>, d: Id, data: Group)
    requires ValidCluster(c, a) && s in a && b == a[s := a[s].(pred := None)]
    ensures var msgs := CoordinatorMsgs(list, s, Some(d)) + AllReplicaMsgs(list, s, data);
            var a', b' := DeliverAll(c, a, msgs), DeliverAll(c, b, msgs);
            s in a' && b' == a'[s := a'[s].(pred := None)]
  {
    var first, rest := CoordinatorMsgs(list, s, Some(d)), AllReplicaMsgs(list, s, data);
    var a1, b1 := DeliverAll(c, a, first), DeliverAll(c, b, first);
    ChangesDelivered(c, a, list, s, d);
    ChangesDelivered(c, b, list, s, d);
    forall m | m in a1
      ensures b1[m] == a1[s := a1[s].(pred := None)][m]
    {
      assert b[m].rt == a[m].rt && b[m].rgs == a[m].rgs;
    }
    assert b1 == a1[s := a1[s].(pred := None)];
    DeliverAllAppend(c, a, first, rest);
    DeliverAllAppend(c, b, first, rest);
    DataApart(c, a1, b1, s, list, data);
  }

  lemma {:induction false} DataApart(c: Config, a: Cluster, b: Cluster, s: Id, list: seq<Id>, data: Group)
    requires s in a && b == a[s := a[s].(pred := None)]
    ensures var msgs := AllReplicaMsgs(list, s, data);
            var a', b' := DeliverAll(c, a, msgs), DeliverAll(c, b, msgs);
            s in a' && b' == a'[s := a'[s].(pred := None)]
  {
    if |data| > 0 {
      var msgs := ReplicaMsgs(list, s, data);
      ReplicasAreData(c, a, list, s, data);
      ReplicasAreData(c, b, list, s, data);
      var a', b' := DeliverAllData(c, a, msgs), DeliverAllData(c, b, msgs);
      ReplicasAt(c, a, list, s, data, s);
      ReplicasAt(c, b, list, s, data, s);
      forall m | m in a
        ensures b'[m] == a'[s := a'[s].(pred := None)][m]
      {
        ReplicasAt(c, a, list, s, data, m);
        ReplicasAt(c, b, list, s, data, m);
      }
    }
  }

  // ---------------------------------------------------------------- histories

  ghost function After(c: Config, net: Cluster, all: Group, es: seq<Event>): (r: (Cluster, Group))
    requires ValidState(c, net) && Serves(c, net, all)
    ensures ValidState(c, r.0) && Serves(c, r.0, r.1)
    decreases |es|
  {
    if es == [] then (net, all)
    else
      NextKeeps(c, net, all, es[0]);
      After(c, Next(c, net, es[0]), NextMap(c, net, all, es[0]), es[1..])
  }

  /**
   After any history, crashes without copies included, a get at any node of a
   stable ring returns what the one map holds that the cluster stands for.
   */
  lemma {:induction false} HistoryIsOneMap(
    c: Config, net: Cluster, all: Group, es: seq<Event>, dead: Id, n: Id, key: Key)
    requires ValidState(c, net) && Serves(c, net, all)
    ensures var (net', all') := After(c, net, all, es);
            Healthy(c, net', dead) && n in net' ==>
              GetAt(c, net', n, key, |net'|, 1) == if key in all' then Found(all'[key]) else NoSuchKey
  {
    var (net', all') := After(c, net, all, es);
    if Healthy(c, net', dead) && n in net' {
      GetReachesOwner(c, net', n, key, |net'|, 1, dead);
      ServedValue(c, net', all', Owner(net'.Keys, c.hash(key)), key);
    }
  }

  /** Wherever a put is issued, and however lookups go astray, it is a write at one live node or fails. */
  lemma {:induction false} PutIsWritten(c: Config, net: Cluster, n: Id, key: Key, val: Val, budget: nat, hops: nat)
    requires ValidCluster(c, net) && PutAt(c, net, n, key, val, budget, hops).Some?
    ensures exists o :: o in net && PutAt(c, net, n, key, val, budget, hops) == Some(PutLocal(c, net, o, key, val))
    decreases hops
  {
    var o := Locate(c, net, n, key, budget).value;
    if o != n {
      PutIsWritten(c, net, o, key, val, budget, hops - 1);
    }
  }

  // ---------------------------------------------------------------- what leaves the map alone

  /**
   Messages as the handlers send them: replicas go to other nodes than their
   leader, a removal that comes back to its leader names keys that it does not
   own, and a new node announces itself while it lives.
   */
  ghost predicate Plausible(c: Config, net: Cluster, msg: Message) {
    match msg
    case Coordinator(to, newLeader, oldLeader) => oldLeader.None? ==> newLeader in net
    case Replicas(to, leader, _) => leader in c.ids && leader != to
    case Removal(to, leader, kvs) =>
      leader in c.ids && (leader == to ==> forall k :: k in kvs ==> !IsOwner(net.Keys, c.hash(k), to))
  }

  lemma {:induction false} PlausibleKeepsMap(c: Config, net: Cluster, all: Group, msg: Message)
    requires ValidState(c, net) && Plausible(c, net, msg)
    ensures NextMap(c, net, all, Delivered(msg)) == all
  {
    if msg.Coordinator? && msg.to in net && msg.oldLeader.None? && msg.newLeader != msg.to {
      OwnKeysStay(c, net.Keys, msg.to, msg.newLeader, all);
    }
    if msg.Removal? && msg.leader == msg.to {
      assert Share(c, net.Keys, msg.to, msg.kvs) == map[];
    }
  }

  /** A join at the owner of the newcomer's id changes nothing. */
  lemma {:induction false} RightJoinKeepsMap(c: Config, net: Cluster, all: Group, rt: Router, s: Id)
    requires ValidState(c, net) && Serves(c, net, all) && rt.id !in net && IsOwner(net.Keys, rt.id, s)
    ensures NextMap(c, net, all, Joined(rt, s)) == all
  {
    var n := rt.id;
    var ring := net.Keys + {n};
    assert ServesAt(c, net, s, all);
    var own := net[s].rgs[c.gid(s)];
    forall k
      ensures k in Share(c, ring, n, Handed(c, own, s, n)) <==> k in Share(c, ring, n, all)
      ensures k in Share(c, ring, n, all) ==> k in own && own[k] == all[k]
    {
      OwnerSplits(net.Keys, n, s, c.hash(k));
      assert k in Share(c, net.Keys, s, own) <==> k in Share(c, net.Keys, s, all);
      assert k in Share(c, net.Keys, s, own) ==> Share(c, net.Keys, s, own)[k] == own[k];
    }
    assert Share(c, ring, n, Handed(c, own, s, n)) == Share(c, ring, n, all);
    assert Without(c, ring, n, all) + Share(c, ring, n, all) == all;
  }

  /** What `s` holds of `d` stands in, on the keys it takes over, for what `d` itself held. */
  ghost predicate CopySuffices(c: Config, net: Cluster, d: Id, s: Id) {
    && Precedes(net, d, s) && c.gid(s) in net[s].rgs && c.gid(d) in net[d].rgs
    && Share(c, net.Keys - {d}, s, Merged(c, net[s], d))
       == Share(c, net.Keys, s, net[s].rgs[c.gid(s)]) + Share(c, net.Keys, d, net[d].rgs[c.gid(d)])
  }

  /** An exact copy suffices, when the own groups are exact. */
  lemma {:induction false} ExactCopySuffices(c: Config, net: Cluster, d: Id, s: Id, all: Group)
    requires Represents(c, net, all) && Precedes(net, d, s) && HoldsCopy(c, net, s, d) && ValidCluster(c, net)
    ensures CopySuffices(c, net, d, s)
  {
    assert HoldsShare(c, net, net.Keys, s, all) && HoldsShare(c, net, net.Keys, d, all);
    ShareMerges(c, net.Keys, d, s, all);
    ShareTwice(c, net.Keys, s, all);
    ShareTwice(c, net.Keys, d, all);
    ShareTwice(c, net.Keys - {d}, s, all);
  }

  lemma {:induction false} NextIsHeir(ring: set<Id>, d: Id, s: Id)
    requires d in ring && s != d && IsNext(ring, d, s)
    ensures ring != {d} && HeirOf(ring, d) == s
  {
    NextIsOwnerWithout(ring, d, s);
    assert s in ring;
    OwnerUnique(ring - {d}, d, s, HeirOf(ring, d));
  }

  /** A crash and its successor's take-over leave the map as it was exactly when the copy suffices. */
  lemma {:induction false} CrashKeepsMapIff(c: Config, net: Cluster, all: Group, d: Id, s: Id)
    requires ValidState(c, net) && Serves(c, net, all) && Precedes(net, d, s)
    ensures var net1, all1 := Next(c, net, Crashed(d)), NextMap(c, net, all, Crashed(d));
            && ValidState(c, net1)
            && (NextMap(c, net1, all1, Checked(s)) == all <==> CopySuffices(c, net, d, s))
  {
    var net1, all1 := Next(c, net, Crashed(d)), NextMap(c, net, all, Crashed(d));
    NextKeeps(c, net, all, Crashed(d));
    NextKeeps(c, net1, all1, Checked(s));
    NextIsHeir(net.Keys, d, s);
    var net2, all2 := Next(c, net1, Checked(s)), NextMap(c, net1, all1, Checked(s));
    assert net1.Keys == net.Keys - {d} && net2.Keys == net1.Keys;
    TakenOverGroups(c.gid(s), net[s].rgs, c.gid(d));
    assert net2[s].rgs[c.gid(s)] == Merged(c, net[s], d);
    assert ServesAt(c, net, s, all) && ServesAt(c, net, d, all);
    CrashedShare(c, net.Keys, d, s, all);
    assert ServesAt(c, net2, s, all2);
    if CopySuffices(c, net, d, s) {
      TakenOverServes(c, net, d, s, all);
      ServesUnique(c, net2, all, all2);
    }
  }

  lemma {:induction false} TakenOverServes(c: Config, net: Cluster, d: Id, s: Id, all: Group)
    requires ValidState(c, net) && Serves(c, net, all) && CopySuffices(c, net, d, s)
    ensures Serves(c, Next(c, Next(c, net, Crashed(d)), Checked(s)), all)
  {
    NextIsHeir(net.Keys, d, s);
    var net1 := Next(c, net, Crashed(d));
    var net2 := Next(c, net1, Checked(s));
    assert net1.Keys == net.Keys - {d} && net2.Keys == net1.Keys;
    TakenOverGroups(c.gid(s), net[s].rgs, c.gid(d));
    assert ServesAt(c, net, d, all);
    forall o | o in net2
      ensures ServesAt(c, net2, o, all)
    {
      assert ServesAt(c, net, o, all);
      CrashedShare(c, net.Keys, d, o, all);
      CrashedShare(c, net.Keys, d, o, net[o].rgs[c.gid(o)]);
    }
  }

  // ---------------------------------------------------------------- harmless stretches

  /** An event that changes the map only if it is a write. */
  ghost predicate Harmless(c: Config, net: Cluster, e: Event) {
    match e
    case Written(o, key, _) => IsOwner(net.Keys, c.hash(key), o)
    case Delivered(msg) => Plausible(c, net, msg)
    case Rewired(_, _) => true
    case Joined(rt, s) => rt.id !in net ==> IsOwner(net.Keys, rt.id, s)
    case _ => false
  }

  ghost predicate AllHarmless(c: Config, net: Cluster, ws: seq<Event>)
    decreases |ws|
  {
    ws == [] || (Harmless(c, net, ws[0]) && AllHarmless(c, Next(c, net, ws[0]), ws[1..]))
  }

  /** The cluster after a history. */
  ghost function Nets(c: Config, net: Cluster, es: seq<Event>): Cluster
    decreases |es|
  {
    if es == [] then net else Nets(c, Next(c, net, es[0]), es[1..])
  }

  /** The map after the writes alone. */
  function Writes(all: Group, es: seq<Event>): Group
    decreases |es|
  {
    if es == [] then all
    else Writes(if es[0].Written? then all[es[0].key := es[0].val] else all, es[1..])
  }

  /** The keys written, each with the value written last. */
  function LastWrites(es: seq<Event>): Group {
    Writes(map[], es)
  }

  lemma {:induction false} WritesSum(all: Group, w: Group, es: seq<Event>)
    ensures Writes(all + w, es) == all + Writes(w, es)
    decreases |es|
  {
    if es != [] {
      if es[0].Written? {
        assert (all + w)[es[0].key := es[0].val] == all + w[es[0].key := es[0].val];
        WritesSum(all, w[es[0].key := es[0].val], es[1..]);
      } else {
        WritesSum(all, w, es[1..]);
      }
    }
  }

  lemma {:induction false} WritesOver(all: Group, es: seq<Event>)
    ensures Writes(all, es) == all + LastWrites(es)
  {
    assert all + map[] == all;
    WritesSum(all, map[], es);
  }

  lemma {:induction false} WritesAppend(all: Group, es: seq<Event>, fs: seq<Event>)
    ensures Writes(all, es + fs) == Writes(Writes(all, es), fs)
    decreases |es|
  {
    if es == [] {
      assert es + fs == fs;
    } else {
      assert (es + fs)[1..] == es[1..] + fs;
      WritesAppend(if es[0].Written? then all[es[0].key := es[0].val] else all, es[1..], fs);
    }
  }

  lemma {:induction false} AfterAppend(c: Config, net: Cluster, all: Group, es: seq<Event>, fs: seq<Event>)
    requires ValidState(c, net) && Serves(c, net, all)
    ensures var (net', all') := After(c, net, all, es);
            && net' == Nets(c, net, es)
            && After(c, net, all, es + fs) == After(c, net', all', fs)
    decreases |es|
  {
    if es == [] {
      assert es + fs == fs;
    } else {
      assert (es + fs)[1..] == es[1..] + fs;
      NextKeeps(c, net, all, es[0]);
      AfterAppend(c, Next(c, net, es[0]), NextMap(c, net, all, es[0]), es[1..], fs);
    }
  }

  lemma {:induction false} AfterOne(c: Config, net: Cluster, all: Group, e: Event)
    requires ValidState(c, net) && Serves(c, net, all)
    ensures After(c, net, all, [e]) == (Next(c, net, e), NextMap(c, net, all, e))
  {
    NextKeeps(c, net, all, e);
    assert [e][1..] == [];
    assert After(c, Next(c, net, e), NextMap(c, net, all, e), []) == (Next(c, net, e), NextMap(c, net, all, e));
  }

  lemma {:induction false} HarmlessKeepsMap(c: Config, net: Cluster, all: Group, e: Event)
    requires ValidState(c, net) && Serves(c, net, all) && Harmless(c, net, e)
    ensures NextMap(c, net, all, e) == if e.Written? then all[e.key := e.val] else all
  {
    if e.Delivered? {
      PlausibleKeepsMap(c, net, all, e.msg);
    } else if e.Joined? && e.rt.id !in net {
      RightJoinKeepsMap(c, net, all, e.rt, e.s);
    }
  }

  /** After a harmless stretch the map is what the writes make it. */
  lemma {:induction false} HarmlessStretch(c: Config, net: Cluster, all: Group, ws: seq<Event>)
    requires ValidState(c, net) && Serves(c, net, all) && AllHarmless(c, net, ws)
    ensures After(c, net, all, ws) == (Nets(c, net, ws), Writes(all, ws))
    decreases |ws|
  {
    if ws != [] {
      NextKeeps(c, net, all, ws[0]);
      HarmlessKeepsMap(c, net, all, ws[0]);
      HarmlessStretch(c, Next(c, net, ws[0]), NextMap(c, net, all, ws[0]), ws[1..]);
    }
  }

  // ---------------------------------------------------------------- writes between a crash and its take-over

  /** `d` crashes, a harmless stretch follows, and then `s`, which still names `d` as predecessor, takes over. */
  function Episode(d: Id, ws: seq<Event>, s: Id): seq<Event> {
    [Crashed(d)] + ws + [Checked(s)]
  }

  lemma {:induction false} EpisodeWrites(all: Group, d: Id, ws: seq<Event>, s: Id)
    ensures Writes(all, Episode(d, ws, s)) == Writes(all, ws)
  {
    WritesAppend(all, [Crashed(d)] + ws, [Checked(s)]);
    WritesAppend(all, [Crashed(d)], ws);
    assert [Crashed(d)][1..] == [] && Writes(all, [Crashed(d)]) == all;
    assert [Checked(s)][1..] == [];
  }

  ghost predicate Takes(c: Config, net: Cluster, d: Id, ws: seq<Event>, s: Id) {
    && d in net && net.Keys != {d} && AllHarmless(c, net - {d}, ws)
    && var q := Nets(c, net - {d}, ws);
       s in q && q[s].pred == Some(d) && c.gid(d) != c.gid(s)
  }

  /** What `s` then merges of the keys that it owns. */
  ghost function TakenShare(c: Config, net: Cluster, d: Id, ws: seq<Event>, s: Id): Group
    requires Takes(c, net, d, ws, s)
  {
    var q := Nets(c, net - {d}, ws);
    Share(c, q.Keys, s, CopyAt(c, q[s], d))
  }

  /** The map after the episode: what was left after the crash, the writes, and over them the old copy. */
  lemma {:induction false} LateTakeOver(c: Config, net: Cluster, all: Group, d: Id, ws: seq<Event>, s: Id)
    requires ValidState(c, net) && Serves(c, net, all) && Takes(c, net, d, ws, s)
    ensures After(c, net, all, Episode(d, ws, s)).1 == Writes(Left(c, net, all, d), ws) + TakenShare(c, net, d, ws, s)
  {
    var net1, all1 := net - {d}, Left(c, net, all, d);
    AfterOne(c, net, all, Crashed(d));
    assert [Crashed(d)] + ws + [Checked(s)] == [Crashed(d)] + (ws + [Checked(s)]);
    AfterAppend(c, net, all, [Crashed(d)], ws + [Checked(s)]);
    NextKeeps(c, net, all, Crashed(d));
    AfterAppend(c, net1, all1, ws, [Checked(s)]);
    HarmlessStretch(c, net1, all1, ws);
    AfterOne(c, Nets(c, net1, ws), Writes(all1, ws), Checked(s));
  }

  /** No value written is replaced by another one. */
  ghost predicate KeepsWrites(taken: Group, written: Group) {
    forall k :: k in taken && k in written ==> taken[k] == written[k]
  }

  /** `a` and `b` say the same of `k`. */
  ghost predicate SameAt(a: Group, b: Group, k: Key) {
    (k in a <==> k in b) && (k in a && k in b ==> a[k] == b[k])
  }

  lemma {:induction false} SameEverywhere(a: Group, b: Group)
    ensures a == b <==> forall k :: SameAt(a, b, k)
  {
    if forall k :: SameAt(a, b, k) {
      forall k
        ensures k in a <==> k in b
        ensures k in a && k in b ==> a[k] == b[k]
      {
        assert SameAt(a, b, k);
      }
    }
  }

  lemma {:induction false} SumIff(left: Group, written: Group, taken: Group, all: Group)
    ensures left + written + taken == all + written <==>
            KeepsWrites(taken, written) && (left + taken) - written.Keys == all - written.Keys
  {
    var a, b := left + written + taken, all + written;
    var x, y := (left + taken) - written.Keys, all - written.Keys;
    SameEverywhere(a, b);
    SameEverywhere(x, y);
    forall k
      ensures SameAt(a, b, k) <==> SameAt(x, y, k) && (k in taken && k in written ==> taken[k] == written[k])
    {
    }
    if a == b {
      forall k
        ensures SameAt(x, y, k) && (k in taken && k in written ==> taken[k] == written[k])
      {
        assert SameAt(a, b, k);
      }
    } else {
      var k :| !SameAt(a, b, k);
      assert SameAt(x, y, k) ==> k in taken && k in written;
    }
  }

  /**
   The map after the episode is what the writes alone make of the map before it
   exactly when the take-over replaces no value written in between by another
   one, and gives back what was lost of the keys that were not written.
   */
  lemma {:induction false} LateTakeOverIff(c: Config, net: Cluster, all: Group, d: Id, ws: seq<Event>, s: Id)
    requires ValidState(c, net) && Serves(c, net, all) && Takes(c, net, d, ws, s)
    ensures var taken, written := TakenShare(c, net, d, ws, s), LastWrites(ws);
            After(c, net, all, Episode(d, ws, s)).1 == Writes(all, ws) <==>
            KeepsWrites(taken, written) && (Left(c, net, all, d) + taken) - written.Keys == all - written.Keys
  {
    LateTakeOver(c, net, all, d, ws, s);
    WritesOver(Left(c, net, all, d), ws);
    WritesOver(all, ws);
    SumIff(Left(c, net, all, d), LastWrites(ws), TakenShare(c, net, d, ws, s), all);
  }

  /**
   In particular when the copy sufficed at the time of the crash, is still the
   same, no node has joined since, and no key of it has been written.
   */
  lemma {:induction false} LateTakeOverKeeps(c: Config, net: Cluster, all: Group, d: Id, ws: seq<Event>, s: Id)
    requires ValidState(c, net) && Serves(c, net, all) && Takes(c, net, d, ws, s) && CopySuffices(c, net, d, s)
    requires var q := Nets(c, net - {d}, ws);
             q.Keys == net.Keys - {d} && CopyAt(c, q[s], d) == CopyAt(c, net[s], d)
    requires CopyAt(c, net[s], d).Keys !! LastWrites(ws).Keys
    ensures After(c, net, all, Episode(d, ws, s)).1 == Writes(all, ws)
  {
    CrashKeepsMapIff(c, net, all, d, s);
    assert Left(c, net, all, d) + TakenShare(c, net, d, ws, s) == all;
    LateTakeOverIff(c, net, all, d, ws, s);
  }

  /** One write at the successor between the crash and the take-over leaves the copy as it was. */
  lemma {:induction false} WriteThenTake(c: Config, net: Cluster, d: Id, s: Id, key: Key, val: Val)
    requires ValidState(c, net) && Precedes(net, d, s) && HoldsCopy(c, net, s, d)
    requires IsOwner(net.Keys, c.hash(key), d)
    ensures var ws := [Written(s, key, val)];
            && Takes(c, net, d, ws, s)
            && TakenShare(c, net, d, ws, s) == Share(c, net.Keys - {d}, s, net[d].rgs[c.gid(d)])
            && IsOwner(net.Keys - {d}, c.hash(key), s)
  {
    var w := Written(s, key, val);
    var ws, net1 := [w], net - {d};
    NextIsHeir(net.Keys, d, s);
    ArcsAfterCrash(net.Keys, d, s, c.hash(key));
    assert net1.Keys == net.Keys - {d} && net1[s] == net[s];
    assert ws[1..] == [];
    var q := PutLocal(c, net1, s, key, val);
    assert Next(c, net1, w) == q && Nets(c, q, []) == q && AllHarmless(c, q, []);
    assert Nets(c, net1, ws) == q && AllHarmless(c, net1, ws);
    PutLocalEffect(c, net1, s, key, val);
    OtherGroupsSame(net1, q, c.gid(s), s, c.gid(d));
  }

  /**
   But a key of the dead node that is written in between goes back to its old
   value: the copy is merged over what the successor has accepted since.
   */
  lemma {:induction false} LateTakeOverOverwrites(
    c: Config, net: Cluster, all: Group, d: Id, s: Id, key: Key, val: Val)
    requires ValidState(c, net) && Serves(c, net, all) && Precedes(net, d, s) && HoldsCopy(c, net, s, d)
    requires key in net[d].rgs[c.gid(d)] && IsOwner(net.Keys, c.hash(key), d)
    ensures var es := Episode(d, [Written(s, key, val)], s);
            var all' := After(c, net, all, es).1;
            && key in all' && all'[key] == net[d].rgs[c.gid(d)][key]
            && Writes(all, es) == all[key := val]
  {
    var ws := [Written(s, key, val)];
    WriteThenTake(c, net, d, s, key, val);
    LateTakeOver(c, net, all, d, ws, s);
    assert key in TakenShare(c, net, d, ws, s);
    EpisodeWrites(all, d, ws, s);
    assert ws[1..] == [];
    assert Writes(all[key := val], ws[1..]) == all[key := val];
  }

  // ---------------------------------------------------------------- histories that lose nothing

  /** The map that a cluster stands for, read off its own groups. */
  ghost function Held(c: Config, net: Cluster): Group {
    if net == map[] then map[]
    else
      map k | k in OwnKeys(c, net) && k in CopyAt(c, net[OwnerIn(net, c.hash(k))], OwnerIn(net, c.hash(k))) ::
        CopyAt(c, net[OwnerIn(net, c.hash(k))], OwnerIn(net, c.hash(k)))[k]
  }

  ghost function OwnerIn(net: Cluster, h: Id): (o: Id)
    requires net != map[]
    ensures o in net && IsOwner(net.Keys, h, o)
  {
    assert net.Keys != {};
    Owner(net.Keys, h)
  }

  ghost function OwnKeys(c: Config, net: Cluster): set<Key> {
    set o, k | o in net && k in CopyAt(c, net[o], o) :: k
  }

  lemma {:induction false} HeldIsMap(c: Config, net: Cluster, all: Group)
    requires net != map[] && Serves(c, net, all)
    ensures all == Held(c, net)
  {
    forall k
      ensures k in all <==> k in Held(c, net)
      ensures k in all && k in Held(c, net) ==> all[k] == Held(c, net)[k]
    {
      var o := OwnerIn(net, c.hash(k));
      assert ServesAt(c, net, o, all);
      ServedValue(c, net, all, o, k);
      assert k in CopyAt(c, net[o], o) ==> k in OwnKeys(c, net);
    }
  }

  /** The first `i + 1` events are an episode that keeps the writes and gives back all else. */
  ghost predicate Recovers(c: Config, net: Cluster, es: seq<Event>, i: nat)
    requires 1 <= i < |es| && es[0].Crashed?
  {
    es[i].Checked? && Takes(c, net, es[0].d, es[1..i], es[i].s) &&
    var taken, written := TakenShare(c, net, es[0].d, es[1..i], es[i].s), LastWrites(es[1..i]);
    var all := Held(c, net);
    KeepsWrites(taken, written) && (Left(c, net, all, es[0].d) + taken) - written.Keys == all - written.Keys
  }

  /**
   Writes go to owners, joins find the right successor, and after each crash the
   successor takes over, sooner or later, from a copy that gives back what was
   lost and replaces nothing that was written in between.
   */
  ghost predicate Lossless(c: Config, net: Cluster, es: seq<Event>)
    decreases |es|
  {
    if es == [] then true
    else if es[0].Crashed? then
      exists i {:trigger Recovers(c, net, es, i)} ::
        1 <= i < |es| && Recovers(c, net, es, i) && Lossless(c, Nets(c, net, es[..i + 1]), es[i + 1..])
    else Harmless(c, net, es[0]) && Lossless(c, Next(c, net, es[0]), es[1..])
  }

  lemma {:induction false} RecoversKeepsMap(c: Config, net: Cluster, all: Group, es: seq<Event>, i: nat)
    requires ValidState(c, net) && Serves(c, net, all)
    requires 1 <= i < |es| && es[0].Crashed? && Recovers(c, net, es, i)
    ensures After(c, net, all, es[..i + 1]) == (Nets(c, net, es[..i + 1]), Writes(all, es[..i + 1]))
  {
    var d, ws, s := es[0].d, es[1..i], es[i].s;
    assert es[..i + 1] == Episode(d, ws, s);
    HeldIsMap(c, net, all);
    LateTakeOverIff(c, net, all, d, ws, s);
    EpisodeWrites(all, d, ws, s);
    AfterAppend(c, net, all, es[..i + 1], []);
    assert es[..i + 1] + [] == es[..i + 1];
  }

  /** What follows the episode. */
  lemma {:induction false} AfterEpisode(c: Config, net: Cluster, all: Group, es: seq<Event>, i: nat)
    requires ValidState(c, net) && Serves(c, net, all)
    requires 1 <= i < |es| && es[0].Crashed? && Recovers(c, net, es, i)
    ensures var q, all' := Nets(c, net, es[..i + 1]), Writes(all, es[..i + 1]);
            && ValidState(c, q) && Serves(c, q, all')
            && After(c, net, all, es) == After(c, q, all', es[i + 1..])
            && Writes(all, es) == Writes(all', es[i + 1..])
  {
    assert es == es[..i + 1] + es[i + 1..];
    RecoversKeepsMap(c, net, all, es, i);
    AfterAppend(c, net, all, es[..i + 1], es[i + 1..]);
    WritesAppend(all, es[..i + 1], es[i + 1..]);
  }

  /** Such a history, of any length, loses nothing and brings nothing back: the map is what the writes make it. */
  lemma {:induction false} LosslessHistory(c: Config, net: Cluster, all: Group, es: seq<Event>)
    requires ValidState(c, net) && Serves(c, net, all) && Lossless(c, net, es)
    ensures After(c, net, all, es).1 == Writes(all, es)
    decreases |es|
  {
    if es == [] {
    } else if es[0].Crashed? {
      var i: nat :| 1 <= i < |es| && Recovers(c, net, es, i) && Lossless(c, Nets(c, net, es[..i + 1]), es[i + 1..]);
      AfterEpisode(c, net, all, es, i);
      LosslessHistory(c, Nets(c, net, es[..i + 1]), Writes(all, es[..i + 1]), es[i + 1..]);
    } else {
      NextKeeps(c, net, all, es[0]);
      HarmlessKeepsMap(c, net, all, es[0]);
      LosslessHistory(c, Next(c, net, es[0]), NextMap(c, net, all, es[0]), es[1..]);
    }
  }

  // ---------------------------------------------------------------- from one create

  /** A ring of one new node stands for the empty map. */
  lemma {:induction false} CreatedIsEmptyMap(c: Config, rt: Router)
    requires ValidConfig(c) && rt.id in c.ids && c.scan <= |rt.fingers|
    ensures var net: Cluster := map[rt.id := NewPeer(c, rt)];
            && ValidState(c, net) && Represents(c, net, map[]) && Serves(c, net, map[])
            && net[rt.id].pred == None
  {
    var net: Cluster := map[rt.id := NewPeer(c, rt)];
    forall o | o in net
      ensures HoldsShare(c, net, net.Keys, o, map[])
    {
      assert Share(c, net.Keys, o, map[]) == map[];
    }
    RepresentsServes(c, net, map[]);
  }

  /**
   Every history from one `create` behaves as one map, and when it is lossless
   that map starts empty and sees the writes only.
   */
  lemma {:induction false} HistoryFromCreate(c: Config, rt: Router, es: seq<Event>, dead: Id, n: Id, key: Key)
    requires ValidConfig(c) && rt.id in c.ids && c.scan <= |rt.fingers|
    ensures var net: Cluster := map[rt.id := NewPeer(c, rt)];
            && ValidState(c, net) && Serves(c, net, map[])
            && var (net', all') := After(c, net, map[], es);
               && (Healthy(c, net', dead) && n in net' ==>
                     GetAt(c, net', n, key, |net'|, 1) == if key in all' then Found(all'[key]) else NoSuchKey)
               && (Lossless(c, net, es) ==> all' == Writes(map[], es))
  {
    var net: Cluster := map[rt.id := NewPeer(c, rt)];
    CreatedIsEmptyMap(c, rt);
    HistoryIsOneMap(c, net, map[], es, dead, n, key);
    if Lossless(c, net, es) {
      LosslessHistory(c, net, map[], es);
    }
  }
}
