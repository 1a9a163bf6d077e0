/**
 Routing (findSuccessor and closestPrecedingNode).

 A forwarded lookup is a recursion across nodes.  `budget` stands for the time
 limit of a remote call: each nested call has a smaller one, and a call without
 any left times out.
 */
module Routing {
  import opened Optional
  import opened Circle

  /** `start` is the id the finger was computed for, `node` the node found for it. */
  datatype Finger = Finger(start: Id, node: Id)

  /** What a node needs for routing. */
  datatype Router = Router(id: Id, succ: Id, list: seq<Id>, fingers: seq<Finger>)

  /** The answer to a remote lookup on each node; None when the call fails. */
  type Rpc = Id -> Option<Id>

  // ---------------------------------------------------------------- one node

  /** The last usable finger among the first `i`. */
  function FingerScan(fingers: seq<Finger>, i: nat, n: Id, key: Id, exclude: seq<Id>): Option<Id>
    requires i <= |fingers|
  {
    if i == 0 then None
    else if fingers[i - 1].node !in exclude && Between(fingers[i - 1].start, n, key)
    then Some(fingers[i - 1].node)
    else FingerScan(fingers, i - 1, n, key, exclude)
  }

  /** The last usable successor-list entry among the first `i`. */
  function ListScan(list: seq<Id>, i: nat, n: Id, key: Id, exclude: seq<Id>): Option<Id>
    requires i <= |list|
  {
    if i == 0 then None
    else if list[i - 1] !in exclude && Between(list[i - 1], n, key)
    then Some(list[i - 1])
    else ListScan(list, i - 1, n, key, exclude)
  }

  /** The better of a finger and a list entry, the node itself when there is neither. */
  function Closer(n: Id, key: Id, ft: Option<Id>, sl: Option<Id>): Id {
    if ft.None? && sl.None? then n
    else if ft.None? then sl.value
    else if sl.None? then ft.value
    else if Between(ft.value, sl.value, key) then ft.value
    else sl.value
  }

  /** closestPrecedingNode; `scan` is the byte length of the key, which bounds the finger scan. */
  function Closest(rt: Router, key: Id, scan: nat, exclude: seq<Id>): Id
    requires scan <= |rt.fingers|
  {
    Closer(rt.id, key, FingerScan(rt.fingers, scan, rt.id, key, exclude),
           ListScan(rt.list, |rt.list|, rt.id, key, exclude))
  }

  /** findSuccessor at one node: answer, or forward, or forward once more. */
  function FindAt(rt: Router, key: Id, scan: nat, rpc: Rpc): Option<Id>
    requires scan <= |rt.fingers|
  {
    if BetweenRightIncl(key, rt.id, rt.succ) then Some(rt.succ)
    else
      var n2 := Closest(rt, key, scan, []);
      var res := rpc(n2);
      if res.Some? then res else rpc(Closest(rt, key, scan, [n2]))
  }

  // ---------------------------------------------------------------- all nodes

  type Net = map<Id, Router>

  /** Each live node is stored under its id and has a finger for every byte the scan looks at. */
  predicate ValidNet(net: Net, scan: nat) {
    forall n :: n in net ==> net[n].id == n && scan <= |net[n].fingers|
  }

  /** A lookup started at the live node `n`.  Nodes outside `net` have crashed. */
  function FindSuccessor(net: Net, n: Id, key: Id, scan: nat, budget: nat): Option<Id>
    requires ValidNet(net, scan) && n in net
    decreases budget
  {
    FindAt(net[n], key, scan, m => Remote(net, m, key, scan, budget))
  }

  /** The remote call: it fails on a crashed node and when the time is up. */
  function Remote(net: Net, m: Id, key: Id, scan: nat, budget: nat): Option<Id>
    requires ValidNet(net, scan)
    decreases budget, 0
  {
    if budget == 0 || m !in net then None else FindSuccessor(net, m, key, scan, budget - 1)
  }

  // ---------------------------------------------------------------- the choice of the next hop

  /** Fingers `from` up to `to` are excluded or start outside (n, key). */
  ghost predicate NoFingerUsable(fingers: seq<Finger>, from: nat, to: nat, n: Id, key: Id, exclude: seq<Id>)
    requires to <= |fingers|
  {
    forall k :: from <= k < to ==> fingers[k].node in exclude || !Between(fingers[k].start, n, key)
  }

  /** The finger scan stops at the last usable finger and misses none. */
  lemma {:induction false} FingerScanFound(fingers: seq<Finger>, i: nat, n: Id, key: Id, exclude: seq<Id>)
    requires i <= |fingers|
    ensures var f := FingerScan(fingers, i, n, key, exclude);
            if f.Some?
            then (exists j :: 0 <= j < i && fingers[j].node == f.value && f.value !in exclude
                              && Between(fingers[j].start, n, key)
                              && NoFingerUsable(fingers, j + 1, i, n, key, exclude))
            else NoFingerUsable(fingers, 0, i, n, key, exclude)
  {
    if i > 0 && !(fingers[i - 1].node !in exclude && Between(fingers[i - 1].start, n, key)) {
      FingerScanFound(fingers, i - 1, n, key, exclude);
    }
  }

  /** Entries `from` up to `to` are excluded or lie outside (n, key). */
  ghost predicate NoneUsable(list: seq<Id>, from: nat, to: nat, n: Id, key: Id, exclude: seq<Id>)
    requires to <= |list|
  {
    forall k :: from <= k < to ==> list[k] in exclude || !Between(list[k], n, key)
  }

  /** The scan stops at the last usable entry and misses none. */
  lemma {:induction false} ListScanFound(list: seq<Id>, i: nat, n: Id, key: Id, exclude: seq<Id>)
    requires i <= |list|
    ensures var e := ListScan(list, i, n, key, exclude);
            if e.Some?
            then (exists j :: 0 <= j < i && list[j] == e.value && e.value !in exclude && Between(e.value, n, key)
                              && NoneUsable(list, j + 1, i, n, key, exclude))
            else NoneUsable(list, 0, i, n, key, exclude)
  {
    if i > 0 && !(list[i - 1] !in exclude && Between(list[i - 1], n, key)) {
      ListScanFound(list, i - 1, n, key, exclude);
    }
  }

  /** A list entry that the scan may choose. */
  ghost predicate Usable(rt: Router, key: Id, exclude: seq<Id>, e: Id) {
    e in rt.list && e !in exclude && Between(e, rt.id, key)
  }

  /**
   As long as some successor-list entry that is not excluded lies in (n, key),
   the chosen node lies strictly inside (n, key) and is not excluded, whatever
   ids and nodes the fingers hold.
   */
  lemma {:induction false} ClosestInside(rt: Router, key: Id, scan: nat, exclude: seq<Id>, e: Id)
    requires scan <= |rt.fingers| && Usable(rt, key, exclude, e)
    ensures var c := Closest(rt, key, scan, exclude);
            Between(c, rt.id, key) && c !in exclude
  {
    ListScanFound(rt.list, |rt.list|, rt.id, key, exclude);
    FingerScanFound(rt.fingers, scan, rt.id, key, exclude);
  }

  /**
   The choice is the nearer one: neither the list entry that was found nor a
   found finger node inside (n, key) lies between the chosen node and the key.
   */
  lemma {:induction false} ClosestIsNearer(rt: Router, key: Id, scan: nat, exclude: seq<Id>)
    requires scan <= |rt.fingers|
    ensures var c := Closest(rt, key, scan, exclude);
            var ft := FingerScan(rt.fingers, scan, rt.id, key, exclude);
            var sl := ListScan(rt.list, |rt.list|, rt.id, key, exclude);
            && (sl.Some? ==> !Between(sl.value, c, key) && Between(c, rt.id, key))
            && (ft.Some? && Between(ft.value, rt.id, key) ==> !Between(ft.value, c, key) && Between(c, rt.id, key))
            && (ft.None? && sl.None? ==> c == rt.id)
  {
    ListScanFound(rt.list, |rt.list|, rt.id, key, exclude);
  }

  /** The chosen node is the node itself or one of its entries. */
  lemma {:induction false} ClosestKnown(rt: Router, key: Id, scan: nat, exclude: seq<Id>)
    requires scan <= |rt.fingers|
    ensures var c := Closest(rt, key, scan, exclude);
            c == rt.id || c in rt.list || exists j :: 0 <= j < |rt.fingers| && rt.fingers[j].node == c
  {
    ListScanFound(rt.list, |rt.list|, rt.id, key, exclude);
    FingerScanFound(rt.fingers, scan, rt.id, key, exclude);
  }

  /**
   The second try: when the best choice does not answer, the node asks the best
   one without it, fingers included.  That is another node inside (n, key) as long
   as the list has one, and neither found candidate is nearer to the key.
   */
  lemma {:induction false} SecondTry(rt: Router, key: Id, scan: nat, rpc: Rpc, e: Id)
    requires scan <= |rt.fingers| && !BetweenRightIncl(key, rt.id, rt.succ)
    requires var first := Closest(rt, key, scan, []);
             rpc(first).None? && Usable(rt, key, [first], e)
    ensures var first := Closest(rt, key, scan, []);
            var second := Closest(rt, key, scan, [first]);
            var ft := FingerScan(rt.fingers, scan, rt.id, key, [first]);
            && FindAt(rt, key, scan, rpc) == rpc(second)
            && second != first && Between(second, rt.id, key)
            && (exists d :: Usable(rt, key, [first], d) && !Between(d, second, key))
            && (ft.Some? && Between(ft.value, rt.id, key) ==> !Between(ft.value, second, key))
  {
    var first := Closest(rt, key, scan, []);
    ClosestInside(rt, key, scan, [first], e);
    ClosestIsNearer(rt, key, scan, [first]);
    ListScanFound(rt.list, |rt.list|, rt.id, key, [first]);
    assert first in [first];
    var sl := ListScan(rt.list, |rt.list|, rt.id, key, [first]).value;
    assert Usable(rt, key, [first], sl);
  }

  // ---------------------------------------------------------------- safety

  /** `via` answers a lookup of `key` with `s`. */
  ghost predicate Answers(net: Net, via: Id, key: Id, s: Id) {
    via in net && s == net[via].succ && BetweenRightIncl(key, via, s)
  }

  /** Every answer comes from a live node whose successor arc holds the key. */
  lemma {:induction false} AnswerHasWitness(net: Net, n: Id, key: Id, scan: nat, budget: nat)
    requires ValidNet(net, scan) && n in net
    requires FindSuccessor(net, n, key, scan, budget).Some?
    ensures exists via :: Answers(net, via, key, FindSuccessor(net, n, key, scan, budget).value)
    decreases budget
  {
    var rt := net[n];
    if BetweenRightIncl(key, rt.id, rt.succ) {
      assert Answers(net, n, key, rt.succ);
    } else {
      var n2 := Closest(rt, key, scan, []);
      var n3 := Closest(rt, key, scan, [n2]);
      var hop := if Remote(net, n2, key, scan, budget).Some? then n2 else n3;
      assert FindSuccessor(net, n, key, scan, budget) == Remote(net, hop, key, scan, budget);
      AnswerHasWitness(net, hop, key, scan, budget - 1);
    }
  }

  /** Every live node's successor is the next live node. */
  ghost predicate StableRing(net: Net) {
    forall n {:trigger TrueSucc(net, n)} :: n in net ==> TrueSucc(net, n)
  }

  ghost predicate TrueSucc(net: Net, n: Id) {
    n in net && IsNext(net.Keys, n, net[n].succ)
  }

  /**
   On a stable ring no lookup returns a wrong node, whatever the fingers and the
   successor lists hold, crashed nodes included, and whatever time limit applies.
   */
  lemma {:induction false} StableAnswerIsOwner(net: Net, n: Id, key: Id, scan: nat, budget: nat)
    requires ValidNet(net, scan) && n in net && StableRing(net)
    requires FindSuccessor(net, n, key, scan, budget).Some?
    ensures IsOwner(net.Keys, key, FindSuccessor(net, n, key, scan, budget).value)
  {
    AnswerHasWitness(net, n, key, scan, budget);
    var s := FindSuccessor(net, n, key, scan, budget).value;
    var via :| Answers(net, via, key, s);
    assert TrueSucc(net, via);
    OwnerIsArc(net.Keys, via, s, key);
  }

  // ---------------------------------------------------------------- termination

  /** The live nodes strictly between `n` and `key`. */
  ghost function Ahead(net: Net, n: Id, key: Id): set<Id> {
    set p | p in net && Between(p, n, key)
  }

  lemma {:induction false} SubsetSmaller(a: set<Id>, b: set<Id>)
    requires a <= b
    ensures |a| <= |b|
  {
    assert b == a + (b - a);
  }

  lemma {:induction false} AheadShrinks(net: Net, n: Id, c: Id, key: Id)
    requires c in Ahead(net, n, key)
    ensures Ahead(net, c, key) < Ahead(net, n, key)
    ensures |Ahead(net, c, key)| < |Ahead(net, n, key)|
  {
    assert c !in Ahead(net, c, key);
    SubsetSmaller(Ahead(net, c, key), Ahead(net, n, key) - {c});
  }

  /** The first list entry is the successor, and it is live. */
  ghost predicate HeadIsSucc(net: Net, n: Id) {
    n in net && net[n].succ in net && net[n].list != [] && net[n].list[0] == net[n].succ
  }

  /** Every node that `n` knows of is live or is `dead`. */
  ghost predicate KnowsLiveOr(net: Net, n: Id, dead: Id) {
    && n in net
    && (forall e :: e in net[n].list ==> e in net || e == dead)
    && (forall j :: 0 <= j < |net[n].fingers| ==> net[n].fingers[j].node in net || net[n].fingers[j].node == dead)
  }

  /** A net in which lookups can make progress; at most one crashed node is still referred to. */
  ghost predicate Progressive(net: Net, dead: Id) {
    forall n {:trigger HeadIsSucc(net, n)} {:trigger KnowsLiveOr(net, n, dead)} :: n in net ==>
      HeadIsSucc(net, n) && KnowsLiveOr(net, n, dead)
  }

  /** A forward goes to a live node strictly nearer to the key, at the latest on the second try. */
  lemma {:induction false} ForwardIsNearer(net: Net, n: Id, key: Id, scan: nat, dead: Id)
    requires ValidNet(net, scan) && n in net && Progressive(net, dead)
    requires !BetweenRightIncl(key, n, net[n].succ)
    ensures var n2 := Closest(net[n], key, scan, []);
            var n3 := Closest(net[n], key, scan, [n2]);
            n2 in Ahead(net, n, key) || (n2 !in net && n3 in Ahead(net, n, key))
  {
    var rt := net[n];
    assert HeadIsSucc(net, n) && KnowsLiveOr(net, n, dead);
    ClosestInside(rt, key, scan, [], rt.succ);
    ClosestKnown(rt, key, scan, []);
    var n2 := Closest(rt, key, scan, []);
    if n2 !in net {
      ClosestInside(rt, key, scan, [n2], rt.succ);
      ClosestKnown(rt, key, scan, [n2]);
    }
  }

  /**
   Lookups end with an answer even while the ring is not ideal: given
   `list[0] == succ` everywhere, a time limit of as many nested calls as there
   are live nodes strictly before the key is enough, and one crashed node that
   is still in fingers or lists does no harm.
   */
  lemma {:induction false} LookupCompletes(net: Net, n: Id, key: Id, scan: nat, budget: nat, dead: Id)
    requires ValidNet(net, scan) && n in net && Progressive(net, dead)
    requires budget >= |Ahead(net, n, key)|
    ensures FindSuccessor(net, n, key, scan, budget).Some?
    decreases budget
  {
    var rt := net[n];
    if !BetweenRightIncl(key, n, rt.succ) {
      ForwardIsNearer(net, n, key, scan, dead);
      var n2 := Closest(rt, key, scan, []);
      var hop := if n2 in net then n2 else Closest(rt, key, scan, [n2]);
      AheadShrinks(net, n, hop, key);
      LookupCompletes(net, hop, key, scan, budget - 1, dead);
      assert Remote(net, hop, key, scan, budget).Some?;
    }
  }

  /** On a stable ring findSuccessor finds the first live node at or after the key. */
  lemma {:induction false} LookupFindsOwner(net: Net, n: Id, key: Id, scan: nat, budget: nat, dead: Id)
    requires ValidNet(net, scan) && n in net && Progressive(net, dead) && StableRing(net)
    requires budget >= |Ahead(net, n, key)|
    ensures FindSuccessor(net, n, key, scan, budget) == Some(Owner(net.Keys, key))
  {
    LookupCompletes(net, n, key, scan, budget, dead);
    StableAnswerIsOwner(net, n, key, scan, budget);
    OwnerUnique(net.Keys, key, Owner(net.Keys, key), FindSuccessor(net, n, key, scan, budget).value);
  }

  // ---------------------------------------------------------------- time limits

  /** A longer time limit never makes a lookup fail that ends with an answer. */
  lemma {:induction false} LongerLimit(net: Net, n: Id, key: Id, scan: nat, budget: nat, longer: nat)
    requires ValidNet(net, scan) && n in net && budget <= longer
    requires FindSuccessor(net, n, key, scan, budget).Some?
    ensures FindSuccessor(net, n, key, scan, longer).Some?
    decreases budget
  {
    var rt := net[n];
    if !BetweenRightIncl(key, rt.id, rt.succ) {
      var n2 := Closest(rt, key, scan, []);
      var n3 := Closest(rt, key, scan, [n2]);
      var hop := if Remote(net, n2, key, scan, budget).Some? then n2 else n3;
      assert Remote(net, hop, key, scan, budget).Some?;
      LongerLimit(net, hop, key, scan, budget - 1, longer - 1);
      assert Remote(net, hop, key, scan, longer).Some?;
    }
  }

  // ---------------------------------------------------------------- the slow route

  /** The lookup that asks one successor after the other. */
  function WalkRing(net: Net, n: Id, key: Id, budget: nat): Option<Id>
    decreases budget
  {
    if n !in net then None
    else if BetweenRightIncl(key, n, net[n].succ) then Some(net[n].succ)
    else if budget == 0 then None
    else WalkRing(net, net[n].succ, key, budget - 1)
  }

  lemma {:induction false} WalkRingFindsOwner(net: Net, n: Id, key: Id, budget: nat)
    requires n in net && StableRing(net) && budget >= |Ahead(net, n, key)|
    ensures WalkRing(net, n, key, budget) == Some(Owner(net.Keys, key))
    decreases budget
  {
    assert TrueSucc(net, n);
    var s := net[n].succ;
    if BetweenRightIncl(key, n, s) {
      OwnerIsArc(net.Keys, n, s, key);
      OwnerUnique(net.Keys, key, Owner(net.Keys, key), s);
    } else {
      assert s in Ahead(net, n, key);
      AheadShrinks(net, n, s, key);
      WalkRingFindsOwner(net, s, key, budget - 1);
    }
  }

  /** The fast route agrees with walking the ring one successor at a time. */
  lemma {:induction false} FastRouteIsWalk(net: Net, n: Id, key: Id, scan: nat, budget: nat, dead: Id)
    requires ValidNet(net, scan) && n in net && Progressive(net, dead) && StableRing(net)
    requires budget >= |Ahead(net, n, key)|
    ensures FindSuccessor(net, n, key, scan, budget) == WalkRing(net, n, key, budget)
  {
    LookupFindsOwner(net, n, key, scan, budget, dead);
    WalkRingFindsOwner(net, n, key, budget);
  }
}
