/**
 Successor lists: reconciliation, convergence, and failover after crashes
 (updateSuccessorList and reconcileSuccessorList).
 */
module SuccLists {
  import opened Optional
  import opened Circle
  import opened Routing
  import opened Hops

  /** Our successor, then its list without the last entry. */
  function Reconciled(succ: Id, theirs: seq<Id>): (list: seq<Id>)
    requires theirs != []
    ensures |list| == |theirs|
  {
    [succ] + theirs[..|theirs| - 1]
  }

  // ---------------------------------------------------------------- convergence

  /** The first `k` entries of the list of `n` are right. */
  ghost predicate CorrectPrefix(net: Net, n: Id, k: nat) {
    n in net && k <= |net[n].list| && IsChain(net.Keys, n, net[n].list[..k])
  }

  ghost predicate AllCorrect(net: Net, k: nat) {
    forall n {:trigger CorrectPrefix(net, n, k)} :: n in net ==> CorrectPrefix(net, n, k)
  }

  ghost predicate Lengths(net: Net, r: nat) {
    forall n {:trigger net[n].list} :: n in net ==> |net[n].list| == r
  }

  // ---------------------------------------------------------------- steps

  /** The routers, and the replies to GetSuccessorList that have been served and not yet been used. */
  datatype Lists = Lists(net: Net, replies: map<Id, seq<Id>>)

  datatype Step =
    | Read(n: Id)                             // the successor of `n` serves GetSuccessorList
    | TakeOver(n: Id)                         // `n` reconciles its list with the reply
    | GiveUp(n: Id)
    | SetFinger(n: Id, i: nat, f: Finger)     // fixFinger stores a node that some lookup has found

  function Move(x: Lists, st: Step): Lists {
    match st
    case Read(n) =>
      if n in x.net && x.net[n].succ in x.net
      then x.(replies := x.replies[n := x.net[x.net[n].succ].list])
      else x
    case TakeOver(n) =>
      if n in x.net && n in x.replies && x.replies[n] != []
      then Lists(x.net[n := x.net[n].(list := Reconciled(x.net[n].succ, x.replies[n]))], x.replies - {n})
      else x
    case GiveUp(n) => x.(replies := x.replies - {n})
    case SetFinger(n, i, f) =>
      if n in x.net && i < |x.net[n].fingers| && f.node in x.net
      then x.(net := x.net[n := x.net[n].(fingers := x.net[n].fingers[i := f])])
      else x
  }

  function Moves(x: Lists, steps: seq<Step>): Lists
    decreases |steps|
  {
    if steps == [] then x else Moves(Move(x, steps[0]), steps[1..])
  }

  function MovesAll(x: Lists, parts: seq<seq<Step>>): Lists
    decreases |parts|
  {
    if parts == [] then x else MovesAll(Moves(x, parts[0]), parts[1..])
  }

  /** Nodes, successors and the number of fingers are the same, and fingers to live nodes stay so. */
  ghost predicate SameNodes(a: Net, b: Net) {
    a.Keys == b.Keys && forall n {:trigger SameNode(a, b, n)} :: n in a ==> SameNode(a, b, n)
  }

  ghost predicate SameNode(a: Net, b: Net, n: Id) {
    && n in a && n in b && b[n].id == a[n].id && b[n].succ == a[n].succ && |b[n].fingers| == |a[n].fingers|
    && (FingersLive(a, n) ==> FingersLive(b, n))
  }

  lemma {:induction false} SameNodesTrans(a: Net, b: Net, c: Net)
    requires SameNodes(a, b) && SameNodes(b, c)
    ensures SameNodes(a, c)
  {
    forall n | n in a
      ensures SameNode(a, c, n)
    {
      assert SameNode(a, b, n) && SameNode(b, c, n);
    }
  }

  lemma {:induction false} MoveSameNodes(x: Lists, st: Step)
    ensures SameNodes(x.net, Move(x, st).net)
  {
    var y := Move(x, st);
    forall n | n in x.net
      ensures SameNode(x.net, y.net, n)
    {
    }
  }

  lemma {:induction false} SameNodesStable(a: Net, b: Net)
    requires SameNodes(a, b) && StableRing(a)
    ensures StableRing(b)
  {
    forall n | n in b
      ensures TrueSucc(b, n)
    {
      assert SameNode(a, b, n) && TrueSucc(a, n);
    }
  }

  // ---------------------------------------------------------------- one step

  /** One entry more of a right list is right after reconciling with the successor. */
  lemma {:induction false} ReconciledChain(ring: set<Id>, n: Id, s: Id, theirs: seq<Id>, k: nat)
    requires IsNext(ring, n, s) && k < |theirs| && IsChain(ring, s, theirs[..k])
    ensures IsChain(ring, n, Reconciled(s, theirs)[..k + 1])
  {
    var list := Reconciled(s, theirs)[..k + 1];
    forall i | 0 <= i < |list|
      ensures ChainLink(ring, n, list, i)
    {
      if i > 0 {
        assert ChainLink(ring, s, theirs[..k], i - 1);
        assert list[i] == theirs[..k][i - 1];
        assert i > 1 ==> list[i - 1] == theirs[..k][i - 2];
      }
    }
  }

  lemma {:induction false} PrefixShorter(net: Net, n: Id, j: nat, k: nat)
    requires CorrectPrefix(net, n, k) && j <= k
    ensures CorrectPrefix(net, n, j)
  {
    forall i | 0 <= i < j
      ensures ChainLink(net.Keys, n, net[n].list[..j], i)
    {
      assert ChainLink(net.Keys, n, net[n].list[..k], i);
    }
  }

  function Min(a: nat, b: nat): nat {
    if a < b then a else b
  }

  /** The first `k` entries of a reply that `n` has got are right for the successor of `n`. */
  ghost predicate RightReply(x: Lists, n: Id, k: nat) {
    && n in x.net && n in x.replies
    && k <= |x.replies[n]| && IsChain(x.net.Keys, x.net[n].succ, x.replies[n][..k])
  }

  /** Replies may be one entry worse than the lists: they may have been read a while ago. */
  function Less(k: nat): nat {
    if k == 0 then 0 else k - 1
  }

  ghost predicate ReplyOk(x: Lists, n: Id, k: nat, r: nat) {
    n in x.replies && |x.replies[n]| == r && (n in x.net ==> RightReply(x, n, k))
  }

  ghost predicate ListsOk(x: Lists, k: nat, r: nat) {
    && 1 <= r && k <= r && StableRing(x.net) && Lengths(x.net, r) && AllCorrect(x.net, k)
    && forall n {:trigger ReplyOk(x, n, Less(k), r)} :: n in x.replies ==> ReplyOk(x, n, Less(k), r)
  }

  lemma {:induction false} ChainPrefix(ring: set<Id>, n: Id, list: seq<Id>, j: nat, k: nat)
    requires j <= k <= |list| && IsChain(ring, n, list[..k])
    ensures IsChain(ring, n, list[..j])
  {
    forall i | 0 <= i < j
      ensures ChainLink(ring, n, list[..j], i)
    {
      assert ChainLink(ring, n, list[..k], i);
    }
  }

  /** A reply that is read now is as right as the lists are. */
  lemma {:induction false} ReadReply(x: Lists, n: Id, k: nat, r: nat)
    requires ListsOk(x, k, r) && n in x.net
    ensures var y := Move(x, Read(n));
            y.net == x.net && RightReply(y, n, k) && |y.replies[n]| == r && RightReply(y, n, Less(k))
  {
    assert TrueSucc(x.net, n);
    var s := x.net[n].succ;
    assert CorrectPrefix(x.net, s, k);
    ChainPrefix(x.net.Keys, s, x.net[s].list, Less(k), k);
  }

  /** Taking over a reply that is right in `j` entries makes j + 1 entries right. */
  lemma {:induction false} TakenReply(x: Lists, n: Id, j: nat, r: nat)
    requires StableRing(x.net) && r >= 1 && ReplyOk(x, n, j, r) && n in x.net
    ensures var y := Move(x, TakeOver(n));
            && y.net.Keys == x.net.Keys && |y.net[n].list| == r && CorrectPrefix(y.net, n, Min(j + 1, r))
  {
    assert TrueSucc(x.net, n);
    var s, theirs := x.net[n].succ, x.replies[n];
    var m := Min(j + 1, r) - 1;
    ChainPrefix(x.net.Keys, s, theirs, m, j);
    ReconciledChain(x.net.Keys, n, s, theirs, m);
    assert Move(x, TakeOver(n)).net.Keys == x.net.Keys;
  }

  /** How far a node has come with one whole update of its list in a stretch of steps. */
  datatype Stage = Waiting | HasReply | Done

  function Advanced(n: Id, p: Stage, st: Step): Stage {
    match p
    case Waiting => if st == Read(n) then HasReply else Waiting
    case HasReply => if st == TakeOver(n) then Done else if st == GiveUp(n) then Waiting else HasReply
    case Done => Done
  }

  function AdvancedBy(n: Id, p: Stage, steps: seq<Step>): Stage
    decreases |steps|
  {
    if steps == [] then p else AdvancedBy(n, Advanced(n, p, steps[0]), steps[1..])
  }

  /**
   A reply that was read in the stretch is as right as the lists were at its start,
   and what was made of it is right in one entry more.
   */
  ghost predicate StageOk(x: Lists, n: Id, p: Stage, k: nat, r: nat) {
    match p
    case Waiting => true
    case HasReply => RightReply(x, n, k)
    case Done => CorrectPrefix(x.net, n, Min(k + 1, r)) && (n in x.replies ==> RightReply(x, n, k))
  }

  /** What a step of `m` leaves alone at `n`. */
  lemma {:induction false} OtherMove(x: Lists, st: Step, n: Id)
    requires n in x.net && st.n != n
    ensures var y := Move(x, st);
            && y.net.Keys == x.net.Keys && n in y.net && y.net[n] == x.net[n]
            && (n in y.replies <==> n in x.replies) && (n in x.replies ==> y.replies[n] == x.replies[n])
  {
    assert Move(x, st).net.Keys == x.net.Keys;
  }

  /** What any step does to the list and the reply of one node. */
  lemma {:induction false} MoveAt(x: Lists, st: Step, n: Id, k: nat, r: nat)
    requires ListsOk(x, k, r) && n in x.net
    ensures var y := Move(x, st);
            && y.net.Keys == x.net.Keys && |y.net[n].list| == r && CorrectPrefix(y.net, n, k)
            && (n in y.replies ==> |y.replies[n]| == r && RightReply(y, n, Less(k)))
  {
    var y := Move(x, st);
    assert CorrectPrefix(x.net, n, k) && |x.net[n].list| == r;
    assert n in x.replies ==> ReplyOk(x, n, Less(k), r);
    if st.n != n {
      OtherMove(x, st, n);
    } else {
      assert y.net.Keys == x.net.Keys;
      match st
      case Read(_) => ReadReply(x, n, k, r);
      case TakeOver(_) =>
        if n in x.replies {
          TakenReply(x, n, Less(k), r);
          PrefixShorter(y.net, n, k, Min(Less(k) + 1, r));
        }
      case _ =>
    }
  }

  /** Every step keeps what is right, and every node its progress. */
  lemma {:induction false} MoveStage(x: Lists, st: Step, n: Id, p: Stage, k: nat, r: nat)
    requires ListsOk(x, k, r) && n in x.net && StageOk(x, n, p, k, r)
    ensures StageOk(Move(x, st), n, Advanced(n, p, st), k, r)
  {
    var y := Move(x, st);
    if st.n != n {
      OtherMove(x, st, n);
    } else {
      assert y.net.Keys == x.net.Keys by { MoveSameNodes(x, st); }
      match st
      case Read(_) => ReadReply(x, n, k, r);
      case TakeOver(_) =>
        if p != Waiting && n in x.replies {
          assert ReplyOk(x, n, Less(k), r);
          TakenReply(x, n, k, r);
        }
      case _ =>
    }
  }

  /** No step shortens the smallest right prefix, however old the reply is that is used. */
  lemma {:induction false} MoveKeepsLists(x: Lists, st: Step, k: nat, r: nat)
    requires ListsOk(x, k, r)
    ensures ListsOk(Move(x, st), k, r) && SameNodes(x.net, Move(x, st).net)
  {
    var y := Move(x, st);
    MoveSameNodes(x, st);
    SameNodesStable(x.net, y.net);
    forall n | n in y.net
      ensures |y.net[n].list| == r && CorrectPrefix(y.net, n, k)
    {
      MoveAt(x, st, n, k, r);
    }
    forall n | n in y.replies
      ensures ReplyOk(y, n, Less(k), r)
    {
      if n in x.net {
        MoveAt(x, st, n, k, r);
      } else {
        assert ReplyOk(x, n, Less(k), r);
      }
    }
  }

  /** A reply is used once, and not at all when it was given up. */
  lemma {:induction false} ReplyUsedOnce(x: Lists, n: Id)
    ensures n in x.net && n in x.replies && x.replies[n] != [] ==> n !in Move(x, TakeOver(n)).replies
    ensures Move(Move(x, TakeOver(n)), TakeOver(n)).net == Move(x, TakeOver(n)).net
    ensures Move(Move(x, GiveUp(n)), TakeOver(n)).net == x.net
  {
  }

  // ---------------------------------------------------------------- stretches

  lemma {:induction false} MovesKeepLists(x: Lists, steps: seq<Step>, k: nat, r: nat)
    requires ListsOk(x, k, r)
    ensures ListsOk(Moves(x, steps), k, r) && SameNodes(x.net, Moves(x, steps).net)
    decreases |steps|
  {
    if steps == [] {
      forall n | n in x.net
        ensures SameNode(x.net, x.net, n)
      {
      }
    } else {
      var y := Move(x, steps[0]);
      MoveKeepsLists(x, steps[0], k, r);
      MovesKeepLists(y, steps[1..], k, r);
      SameNodesTrans(x.net, y.net, Moves(x, steps).net);
    }
  }

  lemma {:induction false} MovesStage(x: Lists, steps: seq<Step>, n: Id, p: Stage, k: nat, r: nat)
    requires ListsOk(x, k, r) && n in x.net && StageOk(x, n, p, k, r)
    ensures StageOk(Moves(x, steps), n, AdvancedBy(n, p, steps), k, r)
    decreases |steps|
  {
    if steps != [] {
      MoveKeepsLists(x, steps[0], k, r);
      MoveStage(x, steps[0], n, p, k, r);
      MovesStage(Move(x, steps[0]), steps[1..], n, Advanced(n, p, steps[0]), k, r);
    }
  }

  /** Every node reads a list and takes it over at least once. */
  ghost predicate Complete(steps: seq<Step>, ring: set<Id>) {
    forall n :: n in ring ==> AdvancedBy(n, Waiting, steps) == Done
  }

  /** A stretch in which every node updates its list, in any interleaving, makes one entry more right everywhere. */
  lemma {:induction false} StretchGrows(x: Lists, steps: seq<Step>, k: nat, r: nat)
    requires ListsOk(x, k, r) && Complete(steps, x.net.Keys)
    ensures var y := Moves(x, steps);
            ListsOk(y, Min(k + 1, r), r) && SameNodes(x.net, y.net)
  {
    var y := Moves(x, steps);
    MovesKeepLists(x, steps, k, r);
    forall n | n in y.net
      ensures CorrectPrefix(y.net, n, Min(k + 1, r))
      ensures n in y.replies ==> RightReply(y, n, k)
    {
      MovesStage(x, steps, n, Waiting, k, r);
    }
    forall n | n in y.replies
      ensures ReplyOk(y, n, Less(Min(k + 1, r)), r)
    {
      assert ReplyOk(y, n, Less(k), r);
      if n in y.net {
        ChainPrefix(y.net.Keys, y.net[n].succ, y.replies[n], Less(Min(k + 1, r)), k);
      }
    }
  }

  lemma {:induction false} StretchesGrow(x: Lists, parts: seq<seq<Step>>, k: nat, r: nat)
    requires ListsOk(x, k, r)
    requires forall i :: 0 <= i < |parts| ==> Complete(parts[i], x.net.Keys)
    ensures var y := MovesAll(x, parts);
            ListsOk(y, Min(k + |parts|, r), r) && SameNodes(x.net, y.net)
    decreases |parts|
  {
    if parts == [] {
      MovesKeepLists(x, [], k, r);
    } else {
      var y := Moves(x, parts[0]);
      assert Complete(parts[0], x.net.Keys);
      StretchGrows(x, parts[0], k, r);
      StretchesGrow(y, parts[1..], Min(k + 1, r), r);
      SameNodesTrans(x.net, y.net, MovesAll(x, parts).net);
    }
  }

  /** A state of which nothing is known but the lengths. */
  ghost predicate AnyLists(x: Lists, r: nat) {
    Lengths(x.net, r) && forall n {:trigger x.replies[n]} :: n in x.replies ==> |x.replies[n]| == r
  }

  /** After r such stretches every successor list is exact, whatever the lists and the replies under way held before. */
  lemma {:induction false} ListsConverge(x: Lists, parts: seq<seq<Step>>, r: nat)
    requires StableRing(x.net) && AnyLists(x, r) && r >= 1 && |parts| >= r
    requires forall i :: 0 <= i < |parts| ==> Complete(parts[i], x.net.Keys)
    ensures var y := MovesAll(x, parts);
            && SameNodes(x.net, y.net)
            && forall n {:trigger ExactList(y.net, n, r)} :: n in y.net ==> ExactList(y.net, n, r)
  {
    assert ListsOk(x, 0, r);
    StretchesGrow(x, parts, 0, r);
    var y := MovesAll(x, parts);
    forall n | n in y.net
      ensures ExactList(y.net, n, r)
    {
      assert CorrectPrefix(y.net, n, r) && TrueSucc(y.net, n);
      assert y.net[n].list[..r] == y.net[n].list;
      assert ChainLink(y.net.Keys, n, y.net[n].list, 0);
      NextUnique(y.net.Keys, n, y.net[n].succ, y.net[n].list[0]);
    }
  }

  // ---------------------------------------------------------------- failover

  /** The successor list of each live node; None when the call fails. */
  type ListRpc = Id -> Option<seq<Id>>

  datatype Failed = Failed(succ: Id, reply: Option<seq<Id>>)

  /**
   The retry loop: ask `cur`; when it does not answer, take list[index + 1] and
   ask that, until one answers or the list is used up.
   */
  function Failover(cur: Id, list: seq<Id>, index: nat, rpc: ListRpc): (f: Failed)
    ensures f.reply.Some? ==> f.reply == rpc(f.succ)
    decreases |list| - index
  {
    if index >= |list| then Failed(cur, None)
    else if rpc(cur).Some? then Failed(cur, rpc(cur))
    else if index == |list| - 1 then Failed(cur, None)
    else Failover(list[index + 1], list, index + 1, rpc)
  }

  ghost predicate AnsweredBy(rpc: ListRpc, live: set<Id>) {
    forall x :: rpc(x).Some? <==> x in live
  }

  ghost predicate LiveEntry(list: seq<Id>, live: set<Id>) {
    exists j :: 0 <= j < |list| && list[j] in live
  }

  /**
   The loop gets a reply exactly when the current successor or an entry after the
   index is alive.  The entry at the index itself is never asked: the loop takes
   it for the current successor, which it need not be.  Without a reply the node
   is left with the last entry, or with its successor when there is no other.
   */
  lemma {:induction false} FailoverRepliesIff(cur: Id, list: seq<Id>, index: nat, rpc: ListRpc, live: set<Id>)
    requires index < |list| && AnsweredBy(rpc, live)
    ensures var f := Failover(cur, list, index, rpc);
            && (f.reply.Some? <==> cur in live || LiveEntry(list[index + 1..], live))
            && (f.reply.None? ==> f.succ == if index == |list| - 1 then cur else list[|list| - 1])
    decreases |list| - index
  {
    if cur !in live && index < |list| - 1 {
      FailoverRepliesIff(list[index + 1], list, index + 1, rpc, live);
      var rest, next := list[index + 1..], list[index + 2..];
      assert rest[0] == list[index + 1];
      assert forall j :: 0 <= j < |next| ==> next[j] == rest[j + 1];
      assert forall j :: 1 <= j < |rest| ==> rest[j] == next[j - 1];
    }
  }

  /** `s` is the first live entry of the list from `from` on. */
  ghost predicate FirstLive(list: seq<Id>, from: nat, live: set<Id>, s: Id) {
    exists j :: from <= j < |list| && list[j] == s && s in live && forall k :: from <= k < j ==> list[k] !in live
  }

  /**
   A current successor that answers stays, whatever the list says.  Otherwise the
   loop stops at the first live entry after the index.
   */
  lemma {:induction false} FailoverStops(cur: Id, list: seq<Id>, index: nat, rpc: ListRpc, live: set<Id>)
    requires index < |list| && AnsweredBy(rpc, live)
    ensures var f := Failover(cur, list, index, rpc);
            && (cur in live ==> f == Failed(cur, rpc(cur)))
            && (cur !in live && (exists j :: index < j < |list| && list[j] in live) ==>
                  FirstLive(list, index + 1, live, f.succ) && f.reply == rpc(f.succ))
    decreases |list| - index
  {
    if cur !in live && exists j :: index < j < |list| && list[j] in live {
      var f := Failover(list[index + 1], list, index + 1, rpc);
      FailoverStops(list[index + 1], list, index + 1, rpc, live);
      if list[index + 1] !in live {
        var j :| index + 2 <= j < |list| && list[j] == f.succ && forall k :: index + 2 <= k < j ==> list[k] !in live;
        assert forall k :: index + 1 <= k < j ==> list[k] !in live;
      }
    }
  }

  /**
   If `n` held its exact successor list on the old ring and at least one entry
   is still alive, the retry loop makes the next survivor its successor, and
   the reply it reconciles with is that survivor's.
   */
  lemma {:induction false} FailoverFindsNextSurvivor(net: Net, n: Id, r: nat, live: set<Id>, rpc: ListRpc)
    requires ExactList(net, n, r) && live <= net.Keys && n in live && AnsweredBy(rpc, live)
    requires LiveEntry(net[n].list, live)
    ensures var f := Failover(net[n].succ, net[n].list, 0, rpc);
            IsNext(live, n, f.succ) && f.reply == rpc(f.succ)
  {
    var list := net[n].list;
    FailoverStops(list[0], list, 0, rpc, live);
    var f := Failover(list[0], list, 0, rpc);
    assert FirstLive(list, 0, live, f.succ) by {
      if list[0] !in live {
        var j :| 1 <= j < |list| && list[j] == f.succ && f.succ in live && forall k :: 1 <= k < j ==> list[k] !in live;
        assert forall k :: 0 <= k < j ==> list[k] !in live;
      }
    }
    var j :| 0 <= j < |list| && list[j] == f.succ && forall k :: 0 <= k < j ==> list[k] !in live;
    forall p | p in live
      ensures !Between(p, n, f.succ)
    {
      if Between(p, n, list[j]) {
        ChainCovers(net.Keys, n, list, j, p);
      }
    }
  }

  /** The list after the loop: reconciled with the reply, if there is one. */
  function ListAfter(f: Failed, list: seq<Id>): seq<Id> {
    if f.reply.Some? && f.reply.value != [] then Reconciled(f.succ, f.reply.value) else list
  }

  /** The router of `n` after updateSuccessorList. */
  function Recovered(rt: Router, rpc: ListRpc): Router {
    var f := Failover(rt.succ, rt.list, 0, rpc);
    rt.(succ := f.succ, list := ListAfter(f, rt.list))
  }

  /**
   What it has taken over is right in one entry more than the reply was, on any
   ring on which the node that answered is the next one.
   */
  lemma {:induction false} RecoveredGrows(ring: set<Id>, n: Id, rt: Router, rpc: ListRpc, k: nat)
    requires var f := Failover(rt.succ, rt.list, 0, rpc);
             && f.reply.Some? && k < |f.reply.value|
             && IsNext(ring, n, f.succ) && IsChain(ring, f.succ, f.reply.value[..k])
    ensures k < |Recovered(rt, rpc).list| && IsChain(ring, n, Recovered(rt, rpc).list[..k + 1])
  {
    var f := Failover(rt.succ, rt.list, 0, rpc);
    ReconciledChain(ring, n, f.succ, f.reply.value, k);
  }

  /** A node that gets no reply keeps its list, and recovers as soon as an entry after the first is alive again. */
  lemma {:induction false} RetryRecovers(rt: Router, rpc: ListRpc, later: ListRpc, live: set<Id>)
    requires Failover(rt.succ, rt.list, 0, rpc).reply.None?
    requires AnsweredBy(later, live) && rt.list != [] && LiveEntry(rt.list[1..], live)
    ensures var next := Recovered(rt, rpc);
            Failover(next.succ, next.list, 0, later).reply.Some?
  {
    FailoverRepliesIff(Recovered(rt, rpc).succ, rt.list, 0, later, live);
  }

  function Survivors(net: Net, live: set<Id>, rpc: ListRpc): Net
    requires live <= net.Keys
  {
    map n | n in live :: Recovered(net[n], rpc)
  }

  /**
   After any set of crashes that leaves each survivor a live list entry, one
   updateSuccessorList by every survivor gives a stable ring of the survivors
   whose list heads agree with the successors again, so no lookup among them
   returns a wrong node.
   */
  lemma {:induction false} FailoverRestoresRing(net: Net, r: nat, live: set<Id>, rpc: ListRpc)
    requires live <= net.Keys && AnsweredBy(rpc, live)
    requires forall n {:trigger ExactList(net, n, r)} :: n in live ==> ExactList(net, n, r)
    requires forall n {:trigger LiveEntry(net[n].list, live)} :: n in live ==> LiveEntry(net[n].list, live)
    requires forall n {:trigger rpc(n)} :: n in live ==> |rpc(n).value| == r
    ensures var net' := Survivors(net, live, rpc);
            && net'.Keys == live && StableRing(net') && Lengths(net', r)
            && forall n {:trigger HeadIsSucc(net', n)} :: n in net' ==> HeadIsSucc(net', n)
  {
    var net' := Survivors(net, live, rpc);
    assert net'.Keys == live;
    forall n | n in live
      ensures TrueSucc(net', n) && HeadIsSucc(net', n) && |net'[n].list| == r
    {
      assert ExactList(net, n, r) && LiveEntry(net[n].list, live);
      FailoverFindsNextSurvivor(net, n, r, live, rpc);
      var f := Failover(net[n].succ, net[n].list, 0, rpc);
      assert |rpc(f.succ).value| == r;
    }
  }
}
