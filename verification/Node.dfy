/**
 One Chord node (node.go, rpc.go, replica.go, finger.go, util.go).

 The methods are the code's own methods, with its fields, loops and early
 exits.  A remote call is a function parameter that gives each node's reply,
 None when the call fails; messages that need no reply are returned in the order
 in which they are sent.
 */
module ChordNode {
  import opened Optional
  import opened Circle
  import opened Routing
  import opened Store
  import Ident
  import Fingers
  import Groups
  import Stabilize
  import SuccLists

  // ---------------------------------------------------------------- util.go

  /** Whether the node is in the list. */
  method Contains(list: seq<Id>, node: Id) returns (found: bool)
    ensures found <==> node in list
  {
    for i := 0 to |list|
      invariant node !in list[..i]
    {
      if list[i] == node {
        return true;
      }
    }
    return false;
  }

  /** True when `b` starts with the entries of `a`; a `b` that ends before it differs is an index out of range. */
  method CompareSuccessorLists(a: seq<Id>, b: seq<Id>) returns (same: bool)
    requires !(b < a)
    ensures same <==> a <= b
  {
    for i := 0 to |a|
      invariant i <= |b| && a[..i] == b[..i]
    {
      assert i < |b| by {
        assert i == |b| ==> b < a;
      }
      if a[i] != b[i] {
        return false;
      }
    }
    return true;
  }

  /** The configuration in which the farthest group is `f`. */
  function Naming(c: Config, f: Gid): Config {
    c.(far := (own, gs) => f)
  }

  /** A list from `x` with which the comparison of the old and the new list stays within both. */
  predicate Acceptable(oldList: seq<Id>, x: Id, theirs: seq<Id>) {
    theirs != [] && !(SuccLists.Reconciled(x, theirs) < oldList)
  }

  // ---------------------------------------------------------------- the node

  class Node {
    const name: Ident.Bytes       // the id as bytes
    const id: Id                  // and as a position
    const keySize: nat
    const c: Config
    var predecessor: Option<Id>
    var successor: Option<Id>
    var successorList: array<Id>
    var fingerTable: array<Finger>
    var rgs: Rgs
    var rgFlag: nat               // 1 until the node has announced itself

    /** The state but for the own group. */
    ghost predicate Shape()
      reads this
    {
      && |name| >= 1 && keySize == 8 * |name| && id == Ident.Pos(|name|, name)
      && KeyedByBytes(c.gid, |name|)
      && fingerTable.Length == keySize
    }

    ghost predicate Valid()
      reads this
    {
      Shape() && c.gid(id) in rgs
    }

    /** The list has the entries that the scans and the retry loop look at. */
    ghost predicate LongEnough()
      reads this
    {
      c.r <= successorList.Length
    }

    /** What routing sees of the node: the first `r` entries of the list. */
    ghost function RouterView(): Router
      reads this, successorList, fingerTable
      requires LongEnough() && successor.Some?
    {
      Router(id, successor.value, successorList[..c.r], fingerTable[..])
    }

    /** What the store sees of the node: the whole list, and no successor. */
    ghost function PeerView(): Peer
      reads this, successorList, fingerTable
    {
      var succ := if successor.Some? then successor.value else id;
      Peer(Router(id, succ, successorList[..], fingerTable[..]), predecessor, rgs)
    }

    // -------------------------------------------------------------- creation

    constructor (name: Ident.Bytes, c: Config)
      requires |name| >= 1 && KeyedByBytes(c.gid, |name|)
      ensures Valid() && this.name == name && this.c == c
      ensures predecessor == None && successor == None && rgFlag == 1
      ensures rgs == map[Ident.BytesToUint64(name) := map[]] == map[c.gid(id) := map[]]
      ensures successorList.Length == c.r
      ensures fresh(successorList) && fresh(fingerTable)
      ensures forall i :: 0 <= i < keySize ==>
                var start := Fingers.FingerMath(name, i, keySize);
                |start| <= |name| && fingerTable[i] == Finger(Ident.Pos(|name|, start), id)
    {
      this.name := name;
      this.id := Ident.Pos(|name|, name);
      this.keySize := 8 * |name|;
      this.c := c;
      predecessor, successor := None, None;
      successorList := new Id[c.r];
      rgs := map[Ident.BytesToUint64(name) := map[]];
      rgFlag := 1;
      fingerTable := new Finger[8 * |name|];
      new;
      for i := 0 to keySize
        modifies fingerTable
        invariant forall k :: 0 <= k < i ==>
                    var start := Fingers.FingerMath(name, k, keySize);
                    |start| <= |name| && fingerTable[k] == Finger(Ident.Pos(|name|, start), id)
      {
        FingerWidth(name, i);
        fingerTable[i] := Finger(Ident.Pos(|name|, Fingers.FingerMath(name, i, keySize)), id);
      }
    }

    /** initSuccessorList */
    method InitSuccessorList()
      requires Valid() && successor.Some?
      modifies successorList
      ensures successorList[..] == Filled(successorList.Length, successor.value)
    {
      for i := 0 to successorList.Length
        invariant forall k :: 0 <= k < i ==> successorList[k] == successor.value
      {
        successorList[i] := successor.value;
      }
      assert successorList[..] == Filled(successorList.Length, successor.value);
    }

    /** create */
    method Create()
      requires Valid()
      modifies this`predecessor, this`successor, successorList
      ensures Valid() && predecessor == None && successor == Some(id)
      ensures successorList[..] == Filled(successorList.Length, id)
    {
      predecessor := None;
      successor := Some(id);
      InitSuccessorList();
    }

    /** join: `found` answers FindSuccessor for our id, `keysOf` answers GetKeys. */
    method Join(found: Option<Id>, keysOf: Id -> Option<Group>) returns (ok: bool)
      requires Valid()
      modifies this`predecessor, this`successor, this`rgs, successorList
      ensures Valid() && predecessor == None
      ensures ok <==> found.Some? && keysOf(found.value).Some?
      ensures ok ==> && successor == found
                     && successorList[..] == Filled(successorList.Length, found.value)
                     && rgs == old(rgs)[c.gid(id) := old(rgs)[c.gid(id)] + keysOf(found.value).value]
      ensures !ok ==> successor == old(successor) && rgs == old(rgs) && successorList[..] == old(successorList[..])
    {
      predecessor := None;
      if found.None? {
        return false;
      }
      var kvs := keysOf(found.value);
      if kvs.None? {
        return false;
      }
      Merge(c.gid(id), kvs.value);
      successor := found;
      InitSuccessorList();
      return true;
    }

    /** The loop that stores received entries in a group. */
    method Merge(leader: Gid, kvs: Group)
      requires Valid() && leader in rgs
      modifies this`rgs
      ensures Valid() && rgs == old(rgs)[leader := old(rgs)[leader] + kvs]
    {
      ghost var base, data := rgs, rgs[leader];
      var rest := kvs.Keys;
      NothingMerged(base, leader, kvs);
      while rest != {}
        invariant rest <= kvs.Keys && c.gid(id) in rgs && leader in rgs
        invariant rgs == base[leader := data + (kvs - rest)]
        decreases |rest|
      {
        assert (forall y :: y !in rest) ==> rest == {};
        var k :| k in rest;
        MergeOne(base, rgs, leader, data, kvs, rest, k);
        rgs := rgs[leader := rgs[leader][k := kvs[k]]];
        rest := rest - {k};
      }
      AllMerged(data, kvs, rest);
    }

    // -------------------------------------------------------------- stabilisation

    method Notify(p: Id)
      requires Valid()
      modifies this`predecessor
      ensures Valid() && predecessor == Stabilize.NotifiedPredecessor(id, old(predecessor), p)
    {
      if predecessor.None? || Between(p, predecessor.value, id) {
        predecessor := Some(p);
      }
    }

    /** reconcileSuccessorList: the reply is shifted in place and becomes our list. */
    method ReconcileSuccessorList(newList: array<Id>) returns (outbox: seq<Message>)
      requires Valid() && successor.Some?
      requires newList != successorList && Acceptable(successorList[..], successor.value, newList[..])
      modifies this`successorList, this`rgFlag, newList
      ensures Valid() && successorList == newList
      ensures newList[..] == SuccLists.Reconciled(successor.value, old(newList[..]))
      ensures rgFlag == FlagAfter(old(successorList[..]), newList[..], old(rgFlag))
      ensures outbox == ListNews(id, old(successorList[..]), newList[..], old(rgFlag), rgs[c.gid(id)])
    {
      var succ := successor.value;
      var currList := successorList[..];
      // the overlapping copy(newList[1:], newList), from the end
      var i := newList.Length - 1;
      while i > 0
        modifies newList
        invariant 0 <= i < newList.Length
        invariant forall k :: 0 <= k <= i ==> newList[k] == old(newList[k])
        invariant forall k :: i < k < newList.Length ==> newList[k] == old(newList[k - 1])
      {
        newList[i] := newList[i - 1];
        i := i - 1;
      }
      newList[0] := succ;
      assert newList[..] == SuccLists.Reconciled(succ, old(newList[..]));
      successorList := newList;
      var same := CompareSuccessorLists(currList, newList[..]);
      outbox := [];
      if !same {
        var oldLeader := Some(id);
        if rgFlag == 1 {
          oldLeader := None;
          rgFlag := 0;
        }
        outbox := Announce(newList[..], id, oldLeader);
        var data := SendAllReplicas();
        outbox := outbox + data;
      }
    }

    /** updateSuccessorList */
    method UpdateSuccessorList(lists: SuccLists.ListRpc) returns (outbox: seq<Message>)
      requires Valid() && LongEnough() && successor.Some?
      requires forall x :: lists(x).Some? ==> Acceptable(successorList[..], x, lists(x).value)
      modifies this`successor, this`successorList, this`rgFlag
      ensures Valid() && successor.Some? && (successorList == old(successorList) || fresh(successorList))
      ensures var f := SuccLists.Failover(old(successor).value, old(successorList[..c.r]), 0, lists);
              && successor == Some(f.succ)
              && successorList[..] == SuccLists.ListAfter(f, old(successorList[..]))
              && (LongEnough() ==>
                    RouterView() == SuccLists.Recovered(old(RouterView()), lists).(list := successorList[..c.r]))
              && rgFlag == FlagAfter(old(successorList[..]), successorList[..], old(rgFlag))
              && outbox == ListNews(id, old(successorList[..]), successorList[..], old(rgFlag), rgs[c.gid(id)])
    {
      outbox := [];
      var index := 0;
      ghost var f := SuccLists.Failover(successor.value, successorList[..c.r], 0, lists);
      while index < c.r
        invariant index <= c.r && (index == c.r ==> c.r == 0) && Valid() && LongEnough() && successor.Some?
        invariant successorList == old(successorList) && outbox == [] && rgFlag == old(rgFlag)
        invariant SuccLists.Failover(successor.value, successorList[..c.r], index, lists) == f
        decreases c.r - index
      {
        var reply := lists(successor.value);
        if reply.None? {
          if index == c.r - 1 {
            break;
          }
          successor := Some(successorList[index + 1]);
          index := index + 1;
        } else {
          var theirs := reply.value;
          var newList := new Id[|theirs|](i requires 0 <= i < |theirs| => theirs[i]);
          assert newList[..] == theirs;
          outbox := ReconcileSuccessorList(newList);
          break;
        }
      }
    }

    /** stabilize: `lists` and `preds` answer GetSuccessorList and GetPredecessor. */
    method StabilizeOnce(lists: SuccLists.ListRpc, preds: Id -> Option<Option<Id>>)
      returns (outbox: seq<Message>, notified: Option<Id>)
      requires Valid() && (successor.Some? ==> LongEnough())
      requires forall x :: lists(x).Some? ==> Acceptable(successorList[..], x, lists(x).value)
      modifies this`successor, this`successorList, this`rgFlag
      ensures Valid()
      ensures old(successor).None? ==>
                && successor.None? && notified.None? && outbox == []
                && rgFlag == old(rgFlag) && successorList == old(successorList)
      ensures old(successor).Some? ==>
                var s := old(successor).value;
                var f := SuccLists.Failover(s, old(successorList[..c.r]), 0, lists);
                && successorList[..] == SuccLists.ListAfter(f, old(successorList[..]))
                && rgFlag == FlagAfter(old(successorList[..]), successorList[..], old(rgFlag))
                && outbox == ListNews(id, old(successorList[..]), successorList[..], old(rgFlag), rgs[c.gid(id)])
                && successor ==
                   Some(if preds(s).Some? then Stabilize.Adopted(id, s, preds(s).value, f.succ) else f.succ)
                && notified == (if preds(s).Some? then successor else None)
    {
      outbox, notified := [], None;
      if successor.None? {
        return;
      }
      var succ := successor.value;
      outbox := UpdateSuccessorList(lists);
      var reply := preds(succ);
      if reply.None? {
        return;
      }
      var x := reply.value;
      if x.Some? && Between(x.value, id, succ) {
        successor := x;
      }
      notified := successor;
    }

    // -------------------------------------------------------------- routing

    /** closestPrecedingNode */
    method ClosestPrecedingNode(key: Id, scan: nat, exclude: seq<Id>) returns (res: Id)
      requires Valid() && LongEnough() && successor.Some? && scan <= keySize
      ensures res == Closest(RouterView(), key, scan, exclude)
    {
      var ftNode: Option<Id> := None;
      var i: nat := scan;
      while i > 0
        invariant i <= scan && ftNode.None?
        invariant FingerScan(fingerTable[..], scan, id, key, exclude)
                  == FingerScan(fingerTable[..], i, id, key, exclude)
      {
        i := i - 1;
        var entry := fingerTable[i];
        var excluded := Contains(exclude, entry.node);
        if excluded {
          continue;
        }
        if Between(entry.start, id, key) {
          ftNode := Some(entry.node);
          break;
        }
      }
      assert ftNode == FingerScan(fingerTable[..], scan, id, key, exclude);

      var succListNode: Option<Id> := None;
      i := c.r;
      while i > 0
        invariant i <= c.r && succListNode.None?
        invariant ListScan(successorList[..c.r], c.r, id, key, exclude)
                  == ListScan(successorList[..c.r], i, id, key, exclude)
      {
        i := i - 1;
        var entry := successorList[i];
        var excluded := Contains(exclude, entry);
        if excluded {
          continue;
        }
        if Between(entry, id, key) {
          succListNode := Some(entry);
          break;
        }
      }
      assert succListNode == ListScan(successorList[..c.r], c.r, id, key, exclude);

      if ftNode.None? && succListNode.None? {
        return id;
      } else if ftNode.None? {
        return succListNode.value;
      } else if succListNode.None? {
        return ftNode.value;
      }
      if Between(ftNode.value, succListNode.value, key) {
        return ftNode.value;
      } else {
        return succListNode.value;
      }
    }

    /** findSuccessor: `rpc` answers FindSuccessor for this key. */
    method FindSuccessorOf(key: Id, scan: nat, rpc: Rpc) returns (res: Option<Id>)
      requires Valid() && LongEnough() && successor.Some? && scan <= keySize
      ensures res == FindAt(RouterView(), key, scan, rpc)
    {
      if BetweenRightIncl(key, id, successor.value) {
        return successor;
      }
      var n2 := ClosestPrecedingNode(key, scan, []);
      res := rpc(n2);
      if res.None? {
        n2 := ClosestPrecedingNode(key, scan, [n2]);
        res := rpc(n2);
      }
    }

    /** fixFinger */
    method FixFinger(next: nat, rpc: Rpc)
      requires Valid() && LongEnough() && successor.Some? && next < keySize
      modifies fingerTable
      ensures Valid()
      ensures var nextId := Fingers.FingerMath(name, next, keySize);
              && |nextId| <= |name|
              && var res := FindAt(old(RouterView()), Ident.Pos(|name|, nextId), |nextId|, rpc);
                 fingerTable[..] ==
                 if res.Some? then old(fingerTable[..])[next := Finger(Ident.Pos(|name|, nextId), res.value)]
                 else old(fingerTable[..])
    {
      FingerWidth(name, next);
      var nextId := Fingers.FingerMath(name, next, keySize);
      var succ := FindSuccessorOf(Ident.Pos(|name|, nextId), |nextId|, rpc);
      if succ.None? {
        return;
      }
      fingerTable[next] := Finger(Ident.Pos(|name|, nextId), succ.value);
    }

    // -------------------------------------------------------------- replica groups

    method AddRgMembership(group: Gid)
      modifies this`rgs
      ensures rgs == AddRg(old(rgs), group)
    {
      if group in rgs {
        return;
      }
      rgs := rgs[group := map[]];
    }

    method RemoveRgMembership(group: Gid)
      modifies this`rgs
      ensures rgs == RemoveRg(old(rgs), group)
    {
      if group in rgs {
        rgs := rgs - {group};
      }
    }

    method GetFarthestRgMembership() returns (farthest: Gid)
      ensures IsFarthest(c.dist, c.gid(id), rgs.Keys, farthest)
    {
      farthest := 0;
      var own := c.gid(id);
      var maxDist := 0;
      var rest := rgs.Keys;
      while rest != {}
        invariant rest <= rgs.Keys
        invariant forall i :: i in rgs.Keys - rest ==> c.dist(own, i) <= maxDist
        invariant if maxDist == 0 then farthest == 0 else farthest in rgs && c.dist(own, farthest) == maxDist
        decreases |rest|
      {
        assert (forall y :: y !in rest) ==> rest == {};
        var i :| i in rest;
        var d := c.dist(own, i);
        if d > maxDist {
          maxDist := d;
          farthest := i;
        }
        rest := rest - {i};
      }
    }

    /** The argmax is only looked at, and constrained, when there are enough groups. */
    method RemoveFarthestRgMembership() returns (ghost f: Gid)
      modifies this`rgs
      ensures |old(rgs)| >= c.r + 1 ==> IsFarthest(c.dist, c.gid(id), old(rgs).Keys, f)
      ensures rgs == RemoveFarthestRg(Naming(c, f), c.gid(id), old(rgs))
    {
      f := 0;
      if |rgs| < c.r + 1 {
        return;
      }
      var group := GetFarthestRgMembership();
      f := group;
      RemoveRgMembership(group);
    }

    /** moveReplicas */
    method MoveReplicas(fromId: Gid, toId: Gid)
      requires Valid()
      modifies this`rgs
      ensures Valid()
      ensures rgs == if fromId in old(rgs) && toId in old(rgs)
                     then old(rgs)[toId := old(rgs)[toId] + old(rgs)[fromId]] else old(rgs)
    {
      if fromId !in rgs {
        return;
      }
      if toId !in rgs {
        return;
      }
      Merge(toId, rgs[fromId]);
    }

    /** removeKeys on the node's own group; returns what it removed. */
    method RemoveKeys(n: Id) returns (kvs: Group)
      requires Valid()
      modifies this`rgs
      ensures Valid()
      ensures rgs == old(rgs)[c.gid(id) := Kept(c, old(rgs)[c.gid(id)], id, n)]
      ensures kvs == Handed(c, old(rgs)[c.gid(id)], id, n)
    {
      var own := c.gid(id);
      ghost var base, data := rgs, rgs[own];
      kvs := map[];
      NothingRemoved(base, own);
      var rest := rgs[own].Keys;
      while rest != {}
        invariant rest <= data.Keys && own in rgs
        invariant kvs == Handed(c, data - rest, id, n)
        invariant rgs == base[own := data - kvs.Keys]
        decreases |rest|
      {
        assert (forall y :: y !in rest) ==> rest == {};
        var k :| k in rest;
        HandedOne(c, data, rest, k, id, n);
        if !BetweenRightIncl(c.hash(k), n, id) {
          var v := rgs[own][k];
          RemovedOne(base, own, data, kvs, k, v);
          rgs := rgs[own := rgs[own] - {k}];
          kvs := kvs[k := v];
        }
        rest := rest - {k};
      }
      SplitKept(c, data, id, n);
    }

    /** GetKeys */
    method GetKeys(n: Id) returns (kvs: Group)
      requires Valid()
      ensures kvs == Handed(c, rgs[c.gid(id)], id, n)
    {
      kvs := map[];
      var data := rgs[c.gid(id)];
      if |data| == 0 {
        assert data == map[];
        return;
      }
      var rest := data.Keys;
      while rest != {}
        invariant rest <= data.Keys
        invariant kvs == Handed(c, data - rest, id, n)
        decreases |rest|
      {
        assert (forall y :: y !in rest) ==> rest == {};
        var k :| k in rest;
        HandedOne(c, data, rest, k, id, n);
        if !BetweenRightIncl(c.hash(k), n, id) {
          kvs := kvs[k := data[k]];
        }
        rest := rest - {k};
      }
      assert data - {} == data;
    }

    /** SendReplicas; false when we are not in the leader's group. */
    method SendReplicas(leader: Id, kvs: Group) returns (ok: bool)
      requires Valid()
      modifies this`rgs
      ensures Valid() && rgs == HandleReplicas(old(rgs), c.gid(leader), kvs)
      ensures ok <==> c.gid(leader) in old(rgs)
    {
      var g := c.gid(leader);
      if g !in rgs {
        return false;
      }
      Merge(g, kvs);
      return true;
    }

    /** RemoveReplicas; false when we are not in the leader's group. */
    method RemoveReplicas(leader: Id, kvs: Group) returns (ok: bool)
      requires Valid()
      modifies this`rgs
      ensures Valid() && rgs == HandleRemoval(old(rgs), c.gid(leader), kvs)
      ensures ok <==> c.gid(leader) in old(rgs)
    {
      var g := c.gid(leader);
      if g !in rgs {
        return false;
      }
      ghost var base, data := rgs, rgs[g];
      var rest := kvs.Keys;
      NothingDropped(base, g, kvs);
      while rest != {}
        invariant rest <= kvs.Keys && c.gid(id) in rgs && g in rgs
        invariant rgs == base[g := data - (kvs.Keys - rest)]
        decreases |rest|
      {
        assert (forall y :: y !in rest) ==> rest == {};
        var k :| k in rest;
        DropOne(base, rgs, g, data, kvs.Keys, rest, k);
        rgs := rgs[g := rgs[g] - {k}];
        rest := rest - {k};
      }
      assert kvs.Keys - {} == kvs.Keys;
      return true;
    }

    /** The coordinator messages of a leader election. */
    method Announce(list: seq<Id>, newLeader: Id, oldLeader: Option<Id>) returns (outbox: seq<Message>)
      ensures outbox == CoordinatorMsgs(list, newLeader, oldLeader)
    {
      outbox := [];
      for i := 0 to |list|
        invariant outbox + CoordinatorMsgs(list[i..], newLeader, oldLeader)
                  == CoordinatorMsgs(list, newLeader, oldLeader)
      {
        CoordinatorMsgsStep(outbox, list, i, newLeader, oldLeader);
        outbox := outbox + [Coordinator(list[i], newLeader, oldLeader)];
      }
    }

    /** The loop of sendReplica and sendAllReplicas over the successor list. */
    method SendToGroup(kvs: Group) returns (outbox: seq<Message>)
      ensures outbox == ReplicaMsgs(successorList[..], id, kvs)
    {
      var succList := successorList[..];
      outbox := [];
      for i := 0 to |succList|
        invariant outbox + ReplicaMsgs(succList[i..], id, kvs) == ReplicaMsgs(succList, id, kvs)
      {
        ReplicaMsgsStep(outbox, succList, i, id, kvs);
        if succList[i] == id {
          continue;
        }
        outbox := outbox + [Replicas(succList[i], id, kvs)];
      }
    }

    /** sendReplica: a key that is not there is sent all the same, with no value. */
    method SendReplica(key: Key) returns (outbox: seq<Message>)
      requires Valid()
      ensures var own := rgs[c.gid(id)];
              outbox == ReplicaMsgs(successorList[..], id, map[key := if key in own then own[key] else ""])
    {
      var own := rgs[c.gid(id)];
      var val := "";
      if key in own {
        val := own[key];
      }
      outbox := SendToGroup(map[key := val]);
    }

    /** sendAllReplicas */
    method SendAllReplicas() returns (outbox: seq<Message>)
      requires Valid()
      ensures outbox == AllReplicaMsgs(successorList[..], id, rgs[c.gid(id)])
    {
      if |rgs[c.gid(id)]| == 0 {
        return [];
      }
      outbox := SendToGroup(rgs[c.gid(id)]);
    }

    /**
     RecvCoordinatorMsg.  `ok` is false when the node has evicted its own group and
     then reaches for its keys; that needs a distance that does not tell groups
     apart, or no list and the group number 0.  Otherwise the own group is gone
     afterwards exactly when the message names it as failed.
     */
    method RecvCoordinatorMsg(newLeader: Id, oldLeader: Option<Id>)
      returns (ghost f: Gid, ok: bool, outbox: seq<Message>)
      requires Valid()
      modifies this`rgs
      ensures Shape()
      ensures Separates(c.dist) && Groups.OwnGroupSafe(c, c.gid(id)) ==>
                ok && (Valid() <==> !Groups.NamesOwnAsFailed(c, id, newLeader, oldLeader))
      ensures |old(rgs)| >= c.r + 1 && newLeader != id && oldLeader.None? && c.gid(newLeader) !in old(rgs) ==>
                IsFarthest(c.dist, c.gid(id), old(rgs).Keys, f)
      ensures ok <==> !(Yields(c, id, predecessor, old(rgs), newLeader, oldLeader) && c.gid(id) !in rgs)
      ensures rgs == Coordinated(Naming(c, f), old(PeerView()), newLeader, oldLeader)
      ensures outbox == CoordinatedOutbox(Naming(c, f), old(PeerView()), newLeader, oldLeader)
    {
      f, ok, outbox := 0, true, [];
      if id == newLeader {
        return;
      }
      if oldLeader.None? {
        f, ok, outbox := AddNewNode(newLeader);
      } else {
        ChangeLeader(newLeader, oldLeader.value);
      }
    }

    /** The branch for a new node. */
    method AddNewNode(newLeader: Id) returns (ghost f: Gid, ok: bool, outbox: seq<Message>)
      requires Valid() && newLeader != id
      modifies this`rgs
      ensures Shape() && (Separates(c.dist) && Groups.OwnGroupSafe(c, c.gid(id)) ==> ok && Valid())
      ensures |old(rgs)| >= c.r + 1 && c.gid(newLeader) !in old(rgs) ==>
                IsFarthest(c.dist, c.gid(id), old(rgs).Keys, f)
      ensures ok <==> !(Yields(c, id, predecessor, old(rgs), newLeader, None) && c.gid(id) !in rgs)
      ensures rgs == Coordinated(Naming(c, f), old(PeerView()), newLeader, None)
      ensures outbox == CoordinatedOutbox(Naming(c, f), old(PeerView()), newLeader, None)
    {
      f, ok, outbox := 0, true, [];
      if c.gid(newLeader) in rgs {
        return;
      }
      f := MakeRoom(newLeader);
      ok, outbox := GiveWay(newLeader);
    }

    /** The farthest group, if need be, gives way to that of the new node. */
    method MakeRoom(newLeader: Id) returns (ghost f: Gid)
      requires Valid() && newLeader != id && c.gid(newLeader) !in rgs
      modifies this`rgs
      ensures Shape() && (Separates(c.dist) && Groups.OwnGroupSafe(c, c.gid(id)) ==> Valid())
      ensures |old(rgs)| >= c.r + 1 ==> IsFarthest(c.dist, c.gid(id), old(rgs).Keys, f)
      ensures rgs == Regrouped(Naming(c, f), id, old(rgs), newLeader, None)
    {
      EvictionSparesOwn(c, c.gid(id), rgs);
      f := RemoveFarthestRgMembership();
      AddRgMembership(c.gid(newLeader));
    }

    /** The new node's keys are removed here and at the copies; `ok` is false when the own group is missing. */
    method GiveWay(newLeader: Id) returns (ok: bool, outbox: seq<Message>)
      requires Shape()
      modifies this`rgs
      ensures Shape() && (c.gid(id) in rgs <==> c.gid(id) in old(rgs))
      ensures ok <==> !(TakesKeys(id, predecessor, newLeader) && c.gid(id) !in rgs)
      ensures var g := c.gid(id);
              if TakesKeys(id, predecessor, newLeader) && g in old(rgs)
              then && rgs == old(rgs)[g := Kept(c, old(rgs)[g], id, newLeader)]
                   && outbox == RemovalMsgs(successorList[..], id, Handed(c, old(rgs)[g], id, newLeader))
              else rgs == old(rgs) && outbox == []
    {
      ok, outbox := true, [];
      if predecessor.None? || Between(newLeader, predecessor.value, id) || newLeader == predecessor.value {
        if c.gid(id) !in rgs {
          ok := false;
          return;
        }
        var kvs := RemoveKeys(newLeader);
        outbox := TellGroup(kvs);
      }
    }

    /** The branch for a leader in place of another. */
    method ChangeLeader(newLeader: Id, oldLeader: Id)
      requires Valid() && newLeader != id
      modifies this`rgs
      ensures Shape() && (Valid() <==> !Groups.NamesOwnAsFailed(c, id, newLeader, Some(oldLeader)))
      ensures rgs == Regrouped(c, id, old(rgs), newLeader, Some(oldLeader))
    {
      var newId, oldId := c.gid(newLeader), c.gid(oldLeader);
      var newExists := newId in rgs;
      var oldExists := oldId in rgs;
      if newExists && oldExists {
        if newId == oldId {
          return;
        }
        RemoveRgMembership(oldId);
      } else if !newExists {
        if oldExists {
          RemoveRgMembership(oldId);
        }
        AddRgMembership(newId);
      }
    }

    /** The loop that sends RemoveReplicas to the whole successor list. */
    method TellGroup(kvs: Group) returns (outbox: seq<Message>)
      ensures outbox == RemovalMsgs(successorList[..], id, kvs)
    {
      var succList := successorList[..];
      outbox := [];
      for i := 0 to |succList|
        invariant outbox + RemovalMsgs(succList[i..], id, kvs) == RemovalMsgs(succList, id, kvs)
      {
        RemovalMsgsStep(outbox, succList, i, id, kvs);
        outbox := outbox + [Removal(succList[i], id, kvs)];
      }
    }

    /**
     checkPredecessor: `alive` tells whether the call to a node succeeds.  When
     the node finds its own group dead it has removed it, and told its list, before
     it reaches for the data; `ok` is false then.
     */
    method CheckPredecessor(alive: Id -> bool) returns (ok: bool, outbox: seq<Message>)
      requires Valid()
      modifies this`predecessor, this`rgs
      ensures Shape() && (ok <==> Valid())
      ensures ok <==> old(predecessor).None? || alive(old(predecessor).value)
                      || c.gid(old(predecessor).value) != c.gid(id)
      ensures old(predecessor).None? || alive(old(predecessor).value) ==>
                predecessor == old(predecessor) && rgs == old(rgs) && outbox == []
      ensures old(predecessor).Some? && !alive(old(predecessor).value) ==>
                rgs == Groups.TakenOver(c.gid(id), old(rgs), c.gid(old(predecessor).value))
      ensures ok && old(predecessor).Some? && !alive(old(predecessor).value) ==>
                && predecessor == None
                && outbox == CoordinatorMsgs(successorList[..], id, old(predecessor))
                             + AllReplicaMsgs(successorList[..], id, rgs[c.gid(id)])
      ensures !ok ==>
                predecessor == old(predecessor) && outbox == CoordinatorMsgs(successorList[..], id, predecessor)
    {
      ok, outbox := true, [];
      if predecessor.None? {
        return;
      }
      var pred := predecessor.value;
      if !alive(pred) {
        var own, dead := c.gid(id), c.gid(pred);
        Groups.OwnTakenOver(own, rgs, dead);
        MoveReplicas(dead, own);
        RemoveRgMembership(dead);
        outbox := Announce(successorList[..], id, Some(pred));
        if own !in rgs {
          return false, outbox;
        }
        var data := SendAllReplicas();
        outbox := outbox + data;
        predecessor := None;
      }
    }

    // -------------------------------------------------------------- get and put

    /** locate */
    method LocateKey(key: Key, rpc: Rpc) returns (node: Option<Id>)
      requires Valid() && LongEnough() && successor.Some? && c.scan <= keySize
      ensures node == FindAt(RouterView(), c.hash(key), c.scan, rpc)
    {
      node := FindSuccessorOf(c.hash(key), c.scan, rpc);
    }

    /** get: `rpc` answers FindSuccessor for the key's hash, `remote` answers Get. */
    method Get(key: Key, rpc: Rpc, remote: Id -> Reply) returns (reply: Reply)
      requires Valid() && LongEnough() && successor.Some? && c.scan <= keySize
      ensures var o := FindAt(RouterView(), c.hash(key), c.scan, rpc);
              reply == if o.None? then Failed
                       else if o.value == id then GetLocal(c, PeerView(), id, key)
                       else remote(o.value)
    {
      var node := LocateKey(key, rpc);
      if node.None? {
        return Failed;
      }
      if node.value == id {
        var own := rgs[c.gid(id)];
        if key !in own {
          return NoSuchKey;
        }
        return Found(own[key]);
      } else {
        return remote(node.value);
      }
    }

    /** put: stores here and returns the replica messages, or forwards; `remote` answers Put. */
    method Put(key: Key, val: Val, rpc: Rpc, remote: Id -> bool) returns (ok: bool, outbox: seq<Message>)
      requires Valid() && LongEnough() && successor.Some? && c.scan <= keySize
      modifies this`rgs
      ensures Valid()
      ensures var o := FindAt(old(RouterView()), c.hash(key), c.scan, rpc);
              && ok == (o.Some? && (o.value == id || remote(o.value)))
              && (if o == Some(id)
                  then && rgs == old(rgs)[c.gid(id) := old(rgs)[c.gid(id)][key := val]]
                       && outbox == ReplicaMsgs(successorList[..], id, map[key := val])
                  else rgs == old(rgs) && outbox == [])
    {
      ok, outbox := true, [];
      var node := LocateKey(key, rpc);
      if node.None? {
        return false, [];
      }
      if node.value == id {
        var g := c.gid(id);
        rgs := rgs[g := rgs[g][key := val]];
        outbox := SendReplica(key);
      } else {
        ok := remote(node.value);
      }
    }
  }

  lemma {:induction false} NothingRemoved(m: Rgs, k: Gid)
    requires k in m
    ensures m == m[k := m[k] - {}] && m[k] - m[k].Keys == map[]
  {
    assert m[k] - {} == m[k];
  }

  lemma {:induction false} RemovedOne(m: Rgs, own: Gid, data: Group, kvs: Group, k: Key, v: Val)
    ensures m[own := data - kvs.Keys][own := data - kvs.Keys - {k}] == m[own := data - kvs[k := v].Keys]
  {
    assert data - kvs.Keys - {k} == data - kvs[k := v].Keys;
  }

  lemma {:induction false} SplitKept(c: Config, data: Group, own: Id, n: Id)
    ensures data - {} == data
    ensures data - Handed(c, data, own, n).Keys == Kept(c, data, own, n)
  {
  }

  /** One step of the loop that sends replicas. */
  lemma {:induction false} ReplicaMsgsStep(outbox: seq<Message>, list: seq<Id>, i: nat, leader: Id, kvs: Group)
    requires i < |list|
    ensures var next := if list[i] == leader then outbox else outbox + [Replicas(list[i], leader, kvs)];
            next + ReplicaMsgs(list[i + 1..], leader, kvs) == outbox + ReplicaMsgs(list[i..], leader, kvs)
  {
    var rest := ReplicaMsgs(list[i + 1..], leader, kvs);
    assert list[i..][1..] == list[i + 1..];
    assert ReplicaMsgs(list[i..], leader, kvs) ==
           (if list[i] == leader then [] else [Replicas(list[i], leader, kvs)]) + rest;
    if list[i] == leader {
      assert [] + rest == rest;
    } else {
      assert outbox + ([Replicas(list[i], leader, kvs)] + rest) == outbox + [Replicas(list[i], leader, kvs)] + rest;
    }
  }

  lemma {:induction false} CoordinatorMsgsStep(
    outbox: seq<Message>, list: seq<Id>, i: nat, newLeader: Id, oldLeader: Option<Id>)
    requires i < |list|
    ensures outbox + [Coordinator(list[i], newLeader, oldLeader)] + CoordinatorMsgs(list[i + 1..], newLeader, oldLeader)
            == outbox + CoordinatorMsgs(list[i..], newLeader, oldLeader)
  {
    var first := [Coordinator(list[i], newLeader, oldLeader)];
    var rest := CoordinatorMsgs(list[i + 1..], newLeader, oldLeader);
    assert list[i..][1..] == list[i + 1..];
    assert CoordinatorMsgs(list[i..], newLeader, oldLeader) == first + rest;
    assert outbox + (first + rest) == outbox + first + rest;
  }

  lemma {:induction false} RemovalMsgsStep(outbox: seq<Message>, list: seq<Id>, i: nat, leader: Id, kvs: Group)
    requires i < |list|
    ensures outbox + [Removal(list[i], leader, kvs)] + RemovalMsgs(list[i + 1..], leader, kvs)
            == outbox + RemovalMsgs(list[i..], leader, kvs)
  {
    var first, rest := [Removal(list[i], leader, kvs)], RemovalMsgs(list[i + 1..], leader, kvs);
    assert list[i..][1..] == list[i + 1..];
    assert RemovalMsgs(list[i..], leader, kvs) == first + rest;
    assert outbox + (first + rest) == outbox + first + rest;
  }

  lemma {:induction false} NothingMerged(m: Rgs, leader: Gid, kvs: Group)
    requires leader in m
    ensures m == m[leader := m[leader] + (kvs - kvs.Keys)]
  {
    assert m[leader] + (kvs - kvs.Keys) == m[leader];
  }

  lemma {:induction false} MergeOne(
    base: Rgs, rgs: Rgs, leader: Gid, data: Group, kvs: Group, rest: set<Key>, k: Key)
    requires k in kvs && k in rest && rgs == base[leader := data + (kvs - rest)]
    ensures rgs[leader := rgs[leader][k := kvs[k]]] == base[leader := data + (kvs - (rest - {k}))]
  {
    assert (data + (kvs - rest))[k := kvs[k]] == data + (kvs - (rest - {k}));
  }

  lemma {:induction false} AllMerged(data: Group, kvs: Group, rest: set<Key>)
    requires rest == {}
    ensures data + (kvs - rest) == data + kvs
  {
  }

  lemma {:induction false} NothingDropped(m: Rgs, leader: Gid, kvs: Group)
    requires leader in m
    ensures m == m[leader := m[leader] - (kvs.Keys - kvs.Keys)]
  {
    assert m[leader] - (kvs.Keys - kvs.Keys) == m[leader];
  }

  lemma {:induction false} DropOne(
    base: Rgs, rgs: Rgs, leader: Gid, data: Group, keys: set<Key>, rest: set<Key>, k: Key)
    requires k in keys && k in rest && rgs == base[leader := data - (keys - rest)]
    ensures rgs[leader := rgs[leader] - {k}] == base[leader := data - (keys - (rest - {k}))]
  {
    assert data - (keys - rest) - {k} == data - (keys - (rest - {k}));
  }

  lemma {:induction false} HandedOne(c: Config, data: Group, rest: set<Key>, k: Key, own: Id, n: Id)
    requires k in data && k in rest
    ensures Handed(c, data - (rest - {k}), own, n) ==
            if BetweenRightIncl(c.hash(k), n, own) then Handed(c, data - rest, own, n)
            else Handed(c, data - rest, own, n)[k := data[k]]
    ensures k !in Handed(c, data - rest, own, n)
  {
  }

  lemma {:induction false} FingerWidth(name: Ident.Bytes, i: nat)
    requires |name| >= 1
    ensures |Fingers.FingerMath(name, i, 8 * |name|)| <= |name|
  {
    Fingers.Pow2Bytes(|name|);
    var v := (Ident.Value(name) + Fingers.Pow2(i)) % Ident.Pow256(|name|);
    Fingers.MinBytesWidth(v, |name|);
  }

  /** Whatever the argmax names among enough groups, the own group stays. */
  lemma {:induction false} EvictionSparesOwn(c: Config, own: Gid, rgs: Rgs)
    ensures Separates(c.dist) && Groups.OwnGroupSafe(c, own) && |rgs| >= c.r + 1 ==>
              forall f :: IsFarthest(c.dist, own, rgs.Keys, f) ==> f != own
  {
    forall f | && Separates(c.dist) && Groups.OwnGroupSafe(c, own)
               && |rgs| >= c.r + 1 && IsFarthest(c.dist, own, rgs.Keys, f)
      ensures f != own
    {
      assert |rgs.Keys| == |rgs|;
      Groups.FarthestSparesOwn(c.dist, own, c.r, rgs.Keys, f);
    }
  }
}
