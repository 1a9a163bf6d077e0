/**
 The replicated store (put, get, locate, and the replica-group handlers).

 Every node keeps replica groups, one of them its own.  Handlers are functions
 on the node they run at; a cluster is the map of the live nodes.

 A group is found by the low 64 bits of its leader's id.  The handlers are right
 for ids of any width; the results about clusters ask that no two of the ids that
 take part share a group (KeysApart), which holds for any of them exactly up to
 eight bytes (Groups.ApartIffShort).
 */
module Store {
  import opened Optional
  import opened Circle
  import opened Routing
  import Ident
  import SuccLists

  type Key = string
  type Val = string
  type Group = map<Key, Val>

  /** The low 64 bits of an id: replica groups are kept under these. */
  type Gid = int

  type Rgs = map<Gid, Group>

  /**
   `r` is the length of successor lists, `scan` the byte length of a key's hash,
   `ids` the ids that take part, `gid` gives the group of an id, `dist` is the ring distance, and `far` the
   group that getFarthestRgMembership names: its argmax runs over a map in no
   fixed order.
   */
  datatype Config = Config(
    r: nat, scan: nat, hash: Key -> Id, ids: set<Id>, gid: Id -> Gid,
    dist: (Gid, Gid) -> nat, far: (Gid, set<Gid>) -> Gid)

  datatype Peer = Peer(rt: Router, pred: Option<Id>, rgs: Rgs)

  datatype Message =
    | Coordinator(to: Id, newLeader: Id, oldLeader: Option<Id>)  // no old leader: a new node
    | Replicas(to: Id, leader: Id, kvs: Group)
    | Removal(to: Id, leader: Id, kvs: Group)

  // ---------------------------------------------------------------- group membership

  function AddRg(rgs: Rgs, g: Gid): Rgs {
    if g in rgs then rgs else rgs[g := map[]]
  }

  function RemoveRg(rgs: Rgs, g: Gid): Rgs {
    rgs - {g}
  }

  /** `f` is a group of greatest positive distance from `own`; 0 when there is none. */
  ghost predicate IsFarthest(dist: (Gid, Gid) -> nat, own: Gid, gs: set<Gid>, f: Gid) {
    if forall g :: g in gs ==> dist(own, g) == 0 then f == 0
    else f in gs && dist(own, f) > 0 && forall g :: g in gs ==> dist(own, g) <= dist(own, f)
  }

  function RemoveFarthestRg(c: Config, own: Gid, rgs: Rgs): Rgs {
    if |rgs| < c.r + 1 then rgs else RemoveRg(rgs, c.far(own, rgs.Keys))
  }

  /** The distance is zero between equal groups only. */
  ghost predicate Separates(dist: (Gid, Gid) -> nat) {
    forall a, b :: dist(a, b) == 0 <==> a == b
  }

  /** A distance that separates the groups, and an argmax of it. */
  ghost predicate ValidDistance(c: Config) {
    Separates(c.dist) && forall own, gs :: IsFarthest(c.dist, own, gs, c.far(own, gs))
  }

  /** No two of the ids share a group. */
  ghost predicate Apart(gid: Id -> Gid, ids: set<Id>) {
    forall a, b :: a in ids && b in ids && gid(a) == gid(b) ==> a == b
  }

  ghost predicate KeysApart(c: Config) {
    Apart(c.gid, c.ids)
  }

  /** The groups are kept under the low 64 bits of ids of `w` bytes. */
  ghost predicate KeyedByBytes(gid: Id -> Gid, w: nat) {
    forall b: Ident.Bytes :: |b| == w ==> gid(Ident.Pos(w, b)) == Ident.BytesToUint64(b)
  }

  ghost predicate ValidConfig(c: Config) {
    c.r >= 1 && ValidDistance(c) && KeysApart(c)
  }

  // ---------------------------------------------------------------- keys

  /** The entries that stay with `own` once `n` precedes it. */
  function Kept(c: Config, data: Group, own: Id, n: Id): Group {
    map k | k in data && BetweenRightIncl(c.hash(k), n, own) :: data[k]
  }

  /** The entries that `n` is responsible for: what GetKeys hands over and removeKeys deletes. */
  function Handed(c: Config, data: Group, own: Id, n: Id): Group {
    map k | k in data && !BetweenRightIncl(c.hash(k), n, own) :: data[k]
  }

  // ---------------------------------------------------------------- handlers

  function HandleReplicas(rgs: Rgs, g: Gid, kvs: Group): Rgs {
    if g in rgs then rgs[g := rgs[g] + kvs] else rgs
  }

  function HandleRemoval(rgs: Rgs, g: Gid, kvs: Group): Rgs {
    if g in rgs then rgs[g := rgs[g] - kvs.Keys] else rgs
  }

  /** Whether a new node takes keys from `own`, judged by the predecessor that `own` knows. */
  predicate TakesKeys(own: Id, pred: Option<Id>, n: Id) {
    pred.None? || Between(n, pred.value, own) || n == pred.value
  }

  /** The groups after a coordinator message, before keys are removed. */
  function Regrouped(c: Config, own: Id, rgs: Rgs, newLeader: Id, oldLeader: Option<Id>): Rgs {
    var g := c.gid(newLeader);
    if own == newLeader then rgs
    else if oldLeader.None? then
      if g in rgs then rgs else AddRg(RemoveFarthestRg(c, c.gid(own), rgs), g)
    else
      var o := c.gid(oldLeader.value);
      if g in rgs && o in rgs then
        if g == o then rgs else RemoveRg(rgs, o)
      else if g !in rgs then
        AddRg(if o in rgs then RemoveRg(rgs, o) else rgs, g)
      else rgs
  }

  /** Whether the message makes the receiver remove keys from its own group. */
  predicate Yields(c: Config, own: Id, pred: Option<Id>, rgs: Rgs, newLeader: Id, oldLeader: Option<Id>) {
    own != newLeader && oldLeader.None? && c.gid(newLeader) !in rgs && TakesKeys(own, pred, newLeader)
  }

  /** The groups after a coordinator message. */
  function Coordinated(c: Config, p: Peer, newLeader: Id, oldLeader: Option<Id>): Rgs {
    var own, g := p.rt.id, c.gid(p.rt.id);
    var rgs := Regrouped(c, own, p.rgs, newLeader, oldLeader);
    if Yields(c, own, p.pred, p.rgs, newLeader, oldLeader) && g in rgs
    then rgs[g := Kept(c, rgs[g], own, newLeader)]
    else rgs
  }

  /** The removals the receiver then sends to its own replica group. */
  function CoordinatedOutbox(c: Config, p: Peer, newLeader: Id, oldLeader: Option<Id>): seq<Message> {
    var own, g := p.rt.id, c.gid(p.rt.id);
    var rgs := Regrouped(c, own, p.rgs, newLeader, oldLeader);
    if Yields(c, own, p.pred, p.rgs, newLeader, oldLeader) && g in rgs
    then RemovalMsgs(p.rt.list, own, Handed(c, rgs[g], own, newLeader))
    else []
  }

  /** A removal for every entry of the list. */
  function RemovalMsgs(list: seq<Id>, leader: Id, kvs: Group): seq<Message> {
    if list == [] then [] else [Removal(list[0], leader, kvs)] + RemovalMsgs(list[1..], leader, kvs)
  }

  /** Replicas for every entry of the list but the leader itself. */
  function ReplicaMsgs(list: seq<Id>, leader: Id, kvs: Group): seq<Message> {
    if list == [] then []
    else (if list[0] == leader then [] else [Replicas(list[0], leader, kvs)]) + ReplicaMsgs(list[1..], leader, kvs)
  }

  function CoordinatorMsgs(list: seq<Id>, newLeader: Id, oldLeader: Option<Id>): seq<Message> {
    if list == [] then []
    else [Coordinator(list[0], newLeader, oldLeader)] + CoordinatorMsgs(list[1..], newLeader, oldLeader)
  }

  /** sendAllReplicas sends nothing when the leader has no data. */
  function AllReplicaMsgs(list: seq<Id>, leader: Id, data: Group): seq<Message> {
    if |data| == 0 then [] else ReplicaMsgs(list, leader, data)
  }

  // ---------------------------------------------------------------- a changed successor list

  /** A list of `r` times the same node. */
  function Filled(r: nat, x: Id): (list: seq<Id>)
    ensures |list| == r && forall i :: 0 <= i < r ==> list[i] == x
  {
    seq(r, i => x)
  }

  /** The flag that says whether the node still has to announce itself. */
  function FlagAfter(oldList: seq<Id>, newList: seq<Id>, flag: nat): nat {
    if !(oldList <= newList) && flag == 1 then 0 else flag
  }

  /** What a node sends when it has put `newList` in place of `oldList`. */
  function ListNews(own: Id, oldList: seq<Id>, newList: seq<Id>, flag: nat, data: Group): seq<Message> {
    if oldList <= newList then []
    else CoordinatorMsgs(newList, own, if flag == 1 then None else Some(own)) + AllReplicaMsgs(newList, own, data)
  }

  /**
   A newcomer's first reconciliation changes its list, which `join` has filled
   with `s`, exactly when the list of `s` does not itself start with r - 1 times
   `s`; otherwise it sends nothing.  With r == 1 that is always so.
   */
  lemma {:induction false} NewcomerAnnouncesIff(own: Id, r: nat, s: Id, theirs: seq<Id>, data: Group)
    requires 1 <= r <= |theirs|
    ensures var news := ListNews(own, Filled(r, s), SuccLists.Reconciled(s, theirs), 1, data);
            && (Coordinator(s, own, None) in news <==> theirs[..r - 1] != Filled(r - 1, s))
            && (theirs[..r - 1] == Filled(r - 1, s) ==> news == [])
            && (r == 1 ==> news == [])
  {
    var list := SuccLists.Reconciled(s, theirs);
    assert list[0] == s;
    if theirs[..r - 1] == Filled(r - 1, s) {
      forall i | 0 <= i < r
        ensures list[i] == s
      {
        assert i > 0 ==> list[i] == theirs[..r - 1][i - 1];
      }
      assert Filled(r, s) <= list;
    } else {
      var i :| 0 <= i < r - 1 && theirs[i] != s;
      assert list[i + 1] == theirs[i] && Filled(r, s)[i + 1] == s;
      assert CoordinatorMsgs(list, own, None)[0] == Coordinator(s, own, None);
      assert (CoordinatorMsgs(list, own, None) + AllReplicaMsgs(list, own, data))[0] == Coordinator(s, own, None);
    }
  }

  lemma {:induction false} CoordinatorMsgsSay(list: seq<Id>, newLeader: Id, oldLeader: Option<Id>, msg: Message)
    requires msg in CoordinatorMsgs(list, newLeader, oldLeader)
    ensures msg.Coordinator? && msg.newLeader == newLeader && msg.oldLeader == oldLeader && msg.to in list
  {
    if msg != Coordinator(list[0], newLeader, oldLeader) {
      CoordinatorMsgsSay(list[1..], newLeader, oldLeader, msg);
    }
  }

  lemma {:induction false} ReplicaMsgsSay(list: seq<Id>, leader: Id, kvs: Group, msg: Message)
    requires msg in ReplicaMsgs(list, leader, kvs)
    ensures msg.Replicas?
  {
    if list[0] == leader || msg != Replicas(list[0], leader, kvs) {
      ReplicaMsgsSay(list[1..], leader, kvs, msg);
    }
  }

  /** A coordinator message among the news says that the list has changed, and what the flag was. */
  lemma {:induction false} NewsSay(
    own: Id, oldList: seq<Id>, newList: seq<Id>, flag: nat, data: Group, msg: Message)
    requires msg in ListNews(own, oldList, newList, flag, data) && msg.Coordinator?
    ensures !(oldList <= newList) && (msg.oldLeader == None <==> flag == 1)
  {
    var oldLeader := if flag == 1 then None else Some(own);
    if msg in CoordinatorMsgs(newList, own, oldLeader) {
      CoordinatorMsgsSay(newList, own, oldLeader, msg);
    } else {
      ReplicaMsgsSay(newList, own, data, msg);
    }
  }

  /** The flag before the i-th change of a node's list, `lists[i]` to `lists[i + 1]`. */
  function FlagAt(lists: seq<seq<Id>>, flag: nat, i: nat): nat
    requires i < |lists|
  {
    if i == 0 then flag else FlagAfter(lists[i - 1], lists[i], FlagAt(lists, flag, i - 1))
  }

  /** What the node sends at that change. */
  function NewsAt(own: Id, lists: seq<seq<Id>>, flag: nat, data: Group, i: nat): seq<Message>
    requires i + 1 < |lists|
  {
    ListNews(own, lists[i], lists[i + 1], FlagAt(lists, flag, i), data)
  }

  lemma {:induction false} FlagStaysDown(lists: seq<seq<Id>>, flag: nat, i: nat, j: nat)
    requires i <= j < |lists| && FlagAt(lists, flag, i) != 1
    ensures FlagAt(lists, flag, j) != 1
    decreases j
  {
    if i < j {
      FlagStaysDown(lists, flag, i, j - 1);
    }
  }

  /**
   Over any sequence of list changes a node announces itself as new at most once:
   later announcements all name it as the old leader.
   */
  lemma {:induction false} NewOnlyOnce(
    own: Id, lists: seq<seq<Id>>, flag: nat, i: nat, j: nat, data: Group, data': Group, a: Message, b: Message)
    requires i < j && j + 1 < |lists|
    requires a in NewsAt(own, lists, flag, data, i) && a.Coordinator? && a.oldLeader == None
    requires b in NewsAt(own, lists, flag, data', j) && b.Coordinator?
    ensures b.oldLeader != None
  {
    NewsSay(own, lists[i], lists[i + 1], FlagAt(lists, flag, i), data, a);
    FlagStaysDown(lists, flag, i + 1, j);
    NewsSay(own, lists[j], lists[j + 1], FlagAt(lists, flag, j), data', b);
  }

  lemma {:induction false} CoordinatorToAll(list: seq<Id>, newLeader: Id, oldLeader: Option<Id>, x: Id)
    requires x in list
    ensures Coordinator(x, newLeader, oldLeader) in CoordinatorMsgs(list, newLeader, oldLeader)
  {
    if x != list[0] {
      CoordinatorToAll(list[1..], newLeader, oldLeader, x);
    }
  }

  lemma {:induction false} FlagStaysUp(lists: seq<seq<Id>>, i: nat)
    requires i < |lists| && forall k :: 0 <= k < i ==> lists[k] <= lists[k + 1]
    ensures FlagAt(lists, 1, i) == 1
  {
    if i > 0 {
      FlagStaysUp(lists, i - 1);
      assert lists[i - 1] <= lists[i];
    }
  }

  /** And it does so at the first change, to every node of the new list, however many ticks changed nothing before. */
  lemma {:induction false} NewAtFirstChange(own: Id, lists: seq<seq<Id>>, i: nat, data: Group, x: Id)
    requires i + 1 < |lists| && forall k :: 0 <= k < i ==> lists[k] <= lists[k + 1]
    requires !(lists[i] <= lists[i + 1]) && x in lists[i + 1]
    ensures Coordinator(x, own, None) in NewsAt(own, lists, 1, data, i)
  {
    FlagStaysUp(lists, i);
    CoordinatorToAll(lists[i + 1], own, None, x);
  }

  // ---------------------------------------------------------------- delivery

  type Cluster = map<Id, Peer>

  /** A replica or removal message; it is lost when the receiver has crashed. */
  function DeliverData(c: Config, net: Cluster, msg: Message): Cluster {
    if msg.to !in net then net
    else match msg
      case Replicas(to, leader, kvs) => net[to := net[to].(rgs := HandleReplicas(net[to].rgs, c.gid(leader), kvs))]
      case Removal(to, leader, kvs) => net[to := net[to].(rgs := HandleRemoval(net[to].rgs, c.gid(leader), kvs))]
      case Coordinator(_, _, _) => net
  }

  function DeliverAllData(c: Config, net: Cluster, msgs: seq<Message>): Cluster
    decreases |msgs|
  {
    if msgs == [] then net else DeliverAllData(c, DeliverData(c, net, msgs[0]), msgs[1..])
  }

  /** Any message; a coordinator message is followed by the removals it causes. */
  function Deliver(c: Config, net: Cluster, msg: Message): Cluster {
    if msg.Coordinator? then
      if msg.to !in net then net
      else
        var p := net[msg.to];
        DeliverAllData(c, net[msg.to := p.(rgs := Coordinated(c, p, msg.newLeader, msg.oldLeader))],
                       CoordinatedOutbox(c, p, msg.newLeader, msg.oldLeader))
    else DeliverData(c, net, msg)
  }

  function DeliverAll(c: Config, net: Cluster, msgs: seq<Message>): Cluster
    decreases |msgs|
  {
    if msgs == [] then net else DeliverAll(c, Deliver(c, net, msgs[0]), msgs[1..])
  }

  function Routers(net: Cluster): Net {
    map n | n in net :: net[n].rt
  }

  predicate ValidCluster(c: Config, net: Cluster) {
    forall n :: n in net ==> n in c.ids && net[n].rt.id == n && c.scan <= |net[n].rt.fingers|
  }

  lemma {:induction false} ValidRouters(c: Config, net: Cluster)
    requires ValidCluster(c, net)
    ensures ValidNet(Routers(net), c.scan) && Routers(net).Keys == net.Keys
  {
  }

  // ---------------------------------------------------------------- put and get

  function Locate(c: Config, net: Cluster, n: Id, key: Key, budget: nat): Option<Id>
    requires ValidCluster(c, net) && n in net
  {
    ValidRouters(c, net);
    FindSuccessor(Routers(net), n, c.hash(key), c.scan, budget)
  }

  /** The entry is stored in the node's own group and sent to its replica group. */
  function PutLocal(c: Config, net: Cluster, n: Id, key: Key, val: Val): Cluster
    requires n in net
  {
    var g := c.gid(n);
    if g in net[n].rgs
    then DeliverAllData(c, net[n := net[n].(rgs := net[n].rgs[g := net[n].rgs[g][key := val]])],
                        ReplicaMsgs(net[n].rt.list, n, map[key := val]))
    else net
  }

  /** A put issued at `n`; None when it fails.  `hops` is the time limit of the forwarded request. */
  function PutAt(c: Config, net: Cluster, n: Id, key: Key, val: Val, budget: nat, hops: nat): Option<Cluster>
    requires ValidCluster(c, net)
    decreases hops
  {
    if n !in net then None
    else
      var o := Locate(c, net, n, key, budget);
      if o.None? then None
      else if o.value == n then Some(PutLocal(c, net, n, key, val))
      else if hops == 0 then None
      else PutAt(c, net, o.value, key, val, budget, hops - 1)
  }

  datatype Reply = Found(val: Val) | NoSuchKey | Stored | Failed

  function GetLocal(c: Config, p: Peer, n: Id, key: Key): Reply {
    var g := c.gid(n);
    if g in p.rgs && key in p.rgs[g] then Found(p.rgs[g][key]) else NoSuchKey
  }

  function GetAt(c: Config, net: Cluster, n: Id, key: Key, budget: nat, hops: nat): Reply
    requires ValidCluster(c, net)
    decreases hops
  {
    if n !in net then Failed
    else
      var o := Locate(c, net, n, key, budget);
      if o.None? then Failed
      else if o.value == n then GetLocal(c, net[n], n, key)
      else if hops == 0 then Failed
      else GetAt(c, net, o.value, key, budget, hops - 1)
  }
}
