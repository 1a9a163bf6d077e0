/** How the parts fit together: from one `create` to exact routing. */
module Whole {
  import opened Optional
  import opened Circle
  import opened Routing
  import opened Hops
  import Stabilize
  import Converge
  import SuccLists
  import Walks

  /** The routers hold the successors of the protocol state. */
  ghost predicate Matches(net: Net, r: Stabilize.Ring) {
    net.Keys == r.succ.Keys && forall n {:trigger SameSucc(net, r, n)} :: n in net ==> SameSucc(net, r, n)
  }

  ghost predicate SameSucc(net: Net, r: Stabilize.Ring, n: Id) {
    n in net && n in r.succ && net[n].succ == r.succ[n]
  }

  /** The answer of `via` makes `s` the successor that `n` will join with. */
  ghost predicate Grants(r: Stabilize.Ring, via: Id, n: Id, s: Id) {
    var r' := Stabilize.Apply(r, Stabilize.LookupAnswered(n, via));
    && via in r.succ && BetweenRightIncl(n, via, r.succ[via])
    && n in r'.joining && r'.joining[n] == s
  }

  /**
   Whatever answer a newcomer's lookup gets, in any state and by any route, some
   member is entitled to give it: the lookup is a step of the protocol.
   */
  lemma {:induction false} LookupIsProtocolStep(r: Stabilize.Ring, net: Net, m: Id, n: Id, scan: nat, budget: nat)
    requires Matches(net, r) && ValidNet(net, scan) && m in net && OnCircle(r.m, n) && n !in r.succ
    requires FindSuccessor(net, m, n, scan, budget).Some?
    ensures exists via :: Grants(r, via, n, FindSuccessor(net, m, n, scan, budget).value)
  {
    AnswerHasWitness(net, m, n, scan, budget);
    var via :| Answers(net, via, n, FindSuccessor(net, m, n, scan, budget).value);
    assert SameSucc(net, r, via);
    assert Grants(r, via, n, FindSuccessor(net, m, n, scan, budget).value);
  }

  lemma {:induction false} IdealIsStable(r: Stabilize.Ring, net: Net)
    requires Converge.Ideal(r) && Matches(net, r)
    ensures StableRing(net)
  {
    forall n | n in net
      ensures TrueSucc(net, n)
    {
      assert SameSucc(net, r, n) && Converge.TrueNeighbours(r, n);
    }
  }

  // ---------------------------------------------------------------- the protocol and the tables together

  /** A step of the stabilisation protocol, or one of the lists and fingers. */
  datatype Step = Protocol(e: Stabilize.Event) | Table(t: SuccLists.Step)

  /** The routers with the successors of `r`. */
  function Synced(net: Net, r: Stabilize.Ring): Net {
    map n | n in net :: if n in r.succ then net[n].(succ := r.succ[n]) else net[n]
  }

  datatype System = System(ring: Stabilize.Ring, lists: SuccLists.Lists)

  function Move(x: System, st: Step): System {
    match st
    case Protocol(e) =>
      var r := Stabilize.Apply(x.ring, e);
      System(r, x.lists.(net := Synced(x.lists.net, r)))
    case Table(t) => x.(lists := SuccLists.Move(x.lists, t))
  }

  function Moves(x: System, steps: seq<Step>): System
    decreases |steps|
  {
    if steps == [] then x else Moves(Move(x, steps[0]), steps[1..])
  }

  function MovesAll(x: System, parts: seq<seq<Step>>): System
    decreases |parts|
  {
    if parts == [] then x else MovesAll(Moves(x, parts[0]), parts[1..])
  }

  /** The protocol events among the steps. */
  function Events(steps: seq<Step>): seq<Stabilize.Event> {
    if steps == [] then []
    else (if steps[0].Protocol? then [steps[0].e] else []) + Events(steps[1..])
  }

  /** The steps of the lists and fingers. */
  function Tables(steps: seq<Step>): seq<SuccLists.Step> {
    if steps == [] then []
    else (if steps[0].Table? then [steps[0].t] else []) + Tables(steps[1..])
  }

  function AllEvents(parts: seq<seq<Step>>): (all: seq<seq<Stabilize.Event>>)
    ensures |all| == |parts|
  {
    if parts == [] then [] else [Events(parts[0])] + AllEvents(parts[1..])
  }

  function AllTables(parts: seq<seq<Step>>): (all: seq<seq<SuccLists.Step>>)
    ensures |all| == |parts|
  {
    if parts == [] then [] else [Tables(parts[0])] + AllTables(parts[1..])
  }

  /** The routers follow the protocol state, and all lists have `len` entries. */
  ghost predicate SystemOk(x: System, len: nat) {
    Stabilize.Reachable(x.ring) && Matches(x.lists.net, x.ring) && SuccLists.AnyLists(x.lists, len)
  }

  /** The same nodes, and fingers to live nodes stay so; successors and lists may differ. */
  ghost predicate SameTables(a: Net, b: Net) {
    a.Keys == b.Keys && forall n {:trigger SameTable(a, b, n)} :: n in a ==> SameTable(a, b, n)
  }

  ghost predicate SameTable(a: Net, b: Net, n: Id) {
    && n in a && n in b && b[n].id == a[n].id && |b[n].fingers| == |a[n].fingers|
    && (FingersLive(a, n) ==> FingersLive(b, n))
  }

  lemma {:induction false} SameTablesTrans(a: Net, b: Net, c: Net)
    requires SameTables(a, b) && SameTables(b, c)
    ensures SameTables(a, c)
  {
    forall n | n in a
      ensures SameTable(a, c, n)
    {
      assert SameTable(a, b, n) && SameTable(b, c, n);
    }
  }

  /** What the tables need for routing is kept. */
  lemma {:induction false} SameTablesValid(a: Net, b: Net, scan: nat)
    requires SameTables(a, b) && ValidNet(a, scan)
    requires forall p {:trigger FingersLive(a, p)} :: p in a ==> FingersLive(a, p)
    ensures ValidNet(b, scan) && forall p {:trigger FingersLive(b, p)} :: p in b ==> FingersLive(b, p)
  {
    forall n | n in b
      ensures b[n].id == n && scan <= |b[n].fingers| && FingersLive(b, n)
    {
      assert SameTable(a, b, n) && FingersLive(a, n);
    }
  }

  /** Lengths of lists and of replies are kept by the steps of the lists. */
  lemma {:induction false} TableKeepsLengths(x: SuccLists.Lists, t: SuccLists.Step, len: nat)
    requires SuccLists.AnyLists(x, len) && len >= 1
    ensures SuccLists.AnyLists(SuccLists.Move(x, t), len)
  {
  }

  lemma {:induction false} ProtocolMove(x: System, e: Stabilize.Event, len: nat)
    requires SystemOk(x, len) && Converge.Internal(e)
    ensures var y := Move(x, Protocol(e));
            SystemOk(y, len) && SameTables(x.lists.net, y.lists.net)
  {
    var y := Move(x, Protocol(e));
    Converge.StepKeepsNodes(x.ring, e);
    forall n | n in x.lists.net
      ensures SameTable(x.lists.net, y.lists.net, n) && SameSucc(y.lists.net, y.ring, n)
    {
      assert SameSucc(x.lists.net, x.ring, n);
    }
  }

  lemma {:induction false} TableMove(x: System, t: SuccLists.Step, len: nat)
    requires SystemOk(x, len) && len >= 1
    ensures var y := Move(x, Table(t));
            SystemOk(y, len) && SameTables(x.lists.net, y.lists.net)
  {
    var y := Move(x, Table(t));
    SuccLists.MoveSameNodes(x.lists, t);
    TableKeepsLengths(x.lists, t, len);
    forall n | n in x.lists.net
      ensures SameTable(x.lists.net, y.lists.net, n) && SameSucc(y.lists.net, y.ring, n)
    {
      assert SuccLists.SameNode(x.lists.net, y.lists.net, n) && SameSucc(x.lists.net, x.ring, n);
    }
  }

  lemma {:induction false} MoveKeeps(x: System, st: Step, len: nat)
    requires SystemOk(x, len) && len >= 1
    requires st.Protocol? ==> Converge.Internal(st.e)
    ensures var y := Move(x, st);
            && SystemOk(y, len) && SameTables(x.lists.net, y.lists.net)
            && y.ring == Stabilize.Run(x.ring, Events([st]))
  {
    var y := Move(x, st);
    assert [st][1..] == [];
    assert Events([st]) == if st.Protocol? then [st.e] else [];
    if st.Protocol? {
      assert [st.e][1..] == [];
      assert Stabilize.Run(y.ring, []) == y.ring;
      ProtocolMove(x, st.e, len);
    } else {
      TableMove(x, st.t, len);
    }
  }

  lemma {:induction false} EventsFirst(steps: seq<Step>)
    requires steps != []
    ensures Events(steps) == Events([steps[0]]) + Events(steps[1..])
  {
    assert [steps[0]][1..] == [];
  }

  lemma {:induction false} UndisturbedSplit(steps: seq<Step>)
    requires steps != [] && Converge.Undisturbed(Events(steps))
    ensures steps[0].Protocol? ==> Converge.Internal(steps[0].e)
    ensures Converge.Undisturbed(Events(steps[1..]))
  {
    var es, rest := Events([steps[0]]), Events(steps[1..]);
    EventsFirst(steps);
    assert [steps[0]][1..] == [];
    if steps[0].Protocol? {
      assert Events(steps)[0] == steps[0].e;
    }
    forall i | 0 <= i < |rest|
      ensures Converge.Internal(rest[i])
    {
      assert rest[i] == Events(steps)[|es| + i];
    }
  }

  lemma {:induction false} MovesKeep(x: System, steps: seq<Step>, len: nat)
    requires SystemOk(x, len) && len >= 1 && Converge.Undisturbed(Events(steps))
    ensures var y := Moves(x, steps);
            && SystemOk(y, len) && SameTables(x.lists.net, y.lists.net)
            && y.ring == Stabilize.Run(x.ring, Events(steps))
    decreases |steps|
  {
    if steps == [] {
      forall n | n in x.lists.net
        ensures SameTable(x.lists.net, x.lists.net, n)
      {
        assert SameSucc(x.lists.net, x.ring, n);
      }
    } else {
      var y := Move(x, steps[0]);
      UndisturbedSplit(steps);
      EventsFirst(steps);
      MoveKeeps(x, steps[0], len);
      MovesKeep(y, steps[1..], len);
      SameTablesTrans(x.lists.net, y.lists.net, Moves(x, steps).lists.net);
      Stabilize.RunAppend(x.ring, Events([steps[0]]), Events(steps[1..]));
    }
  }

  lemma {:induction false} FairPartsKeep(x: System, parts: seq<seq<Step>>, len: nat)
    requires SystemOk(x, len) && len >= 1 && Converge.FairRun(x.ring, AllEvents(parts))
    ensures var y := MovesAll(x, parts);
            && SystemOk(y, len) && SameTables(x.lists.net, y.lists.net)
            && y.ring == Converge.RunAll(x.ring, AllEvents(parts))
    decreases |parts|
  {
    if parts == [] {
      MovesKeep(x, [], len);
    } else {
      var y := Moves(x, parts[0]);
      assert AllEvents(parts)[1..] == AllEvents(parts[1..]);
      MovesKeep(x, parts[0], len);
      FairPartsKeep(y, parts[1..], len);
      SameTablesTrans(x.lists.net, y.lists.net, MovesAll(x, parts).lists.net);
    }
  }

  // ---------------------------------------------------------------- on an ideal ring only the tables move

  ghost predicate IdealSystem(x: System) {
    && Stabilize.Reachable(x.ring) && Converge.Calm(x.ring) && Converge.Ideal(x.ring)
    && Matches(x.lists.net, x.ring)
  }

  lemma {:induction false} IdealMove(x: System, st: Step)
    requires IdealSystem(x) && (st.Protocol? ==> Converge.Internal(st.e))
    ensures var y := Move(x, st);
            IdealSystem(y) && y.lists == if st.Table? then SuccLists.Move(x.lists, st.t) else x.lists
  {
    var y := Move(x, st);
    if st.Protocol? {
      Converge.IdealIsStill(x.ring, st.e);
      Converge.IdealSame(x.ring, y.ring);
      Converge.StepKeepsNodes(x.ring, st.e);
      Converge.StepStaysCalm(x.ring, st.e);
      assert y.lists.net.Keys == x.lists.net.Keys;
      forall n | n in x.lists.net
        ensures y.lists.net[n] == x.lists.net[n]
      {
        assert SameSucc(x.lists.net, x.ring, n);
      }
      assert y.lists.net == x.lists.net;
    } else {
      SuccLists.MoveSameNodes(x.lists, st.t);
      forall n | n in y.lists.net
        ensures SameSucc(y.lists.net, y.ring, n)
      {
        assert SuccLists.SameNode(x.lists.net, y.lists.net, n) && SameSucc(x.lists.net, x.ring, n);
      }
    }
  }

  /** No newcomer joins and no call to a successor fails in the steps. */
  ghost predicate Settled(steps: seq<Step>) {
    forall i :: 0 <= i < |steps| ==> steps[i].Protocol? ==> Converge.Internal(steps[i].e)
  }

  lemma {:induction false} IdealMoves(x: System, steps: seq<Step>)
    requires IdealSystem(x) && Settled(steps)
    ensures IdealSystem(Moves(x, steps)) && Moves(x, steps).lists == SuccLists.Moves(x.lists, Tables(steps))
    decreases |steps|
  {
    if steps != [] {
      IdealMove(x, steps[0]);
      assert Tables(steps)[if steps[0].Table? then 1 else 0..] == Tables(steps[1..]);
      IdealMoves(Move(x, steps[0]), steps[1..]);
    }
  }

  lemma {:induction false} IdealMovesAll(x: System, parts: seq<seq<Step>>)
    requires IdealSystem(x) && forall i :: 0 <= i < |parts| ==> Settled(parts[i])
    ensures IdealSystem(MovesAll(x, parts))
    ensures MovesAll(x, parts).lists == SuccLists.MovesAll(x.lists, AllTables(parts))
    decreases |parts|
  {
    if parts != [] {
      assert Settled(parts[0]);
      IdealMoves(x, parts[0]);
      assert AllTables(parts)[1..] == AllTables(parts[1..]);
      IdealMovesAll(Moves(x, parts[0]), parts[1..]);
    }
  }

  lemma {:induction false} TablesAt(parts: seq<seq<Step>>, i: nat)
    requires i < |parts|
    ensures AllTables(parts)[i] == Tables(parts[i])
  {
    if i > 0 {
      TablesAt(parts[1..], i - 1);
    }
  }

  /** Settled stretches in which every node updates its list make all lists exact on an ideal ring. */
  lemma {:induction false} ListsSettle(x: System, parts: seq<seq<Step>>, scan: nat, len: nat)
    requires IdealSystem(x) && ValidNet(x.lists.net, scan) && SuccLists.AnyLists(x.lists, len) && 1 <= len <= |parts|
    requires forall i :: 0 <= i < |parts| ==>
               Settled(parts[i]) && SuccLists.Complete(Tables(parts[i]), x.lists.net.Keys)
    requires forall p {:trigger FingersLive(x.lists.net, p)} :: p in x.lists.net ==> FingersLive(x.lists.net, p)
    ensures var net' := MovesAll(x, parts).lists.net;
            net'.Keys == x.lists.net.Keys && ValidNet(net', scan) && ExactNet(net', len)
  {
    var tables := AllTables(parts);
    forall i | 0 <= i < |tables|
      ensures SuccLists.Complete(tables[i], x.lists.net.Keys)
    {
      TablesAt(parts, i);
    }
    IdealIsStable(x.ring, x.lists.net);
    IdealMovesAll(x, parts);
    SuccLists.ListsConverge(x.lists, tables, len);
    var net' := MovesAll(x, parts).lists.net;
    forall p | p in net'
      ensures ExactList(net', p, len) && FingersLive(net', p) && net'[p].id == p && scan <= |net'[p].fingers|
    {
      assert SuccLists.SameNode(x.lists.net, net', p) && FingersLive(x.lists.net, p);
    }
  }

  /**
   Take any state of any run from one `create`, failed calls included, with any
   lists of length `len`.  Let joins and failed calls stop, and let the steps of
   the protocol, the updates of the lists and those of the fingers go on in any
   interleaving: for one fair stretch, for more of them than the measure then says,
   and for `len` stretches in each of which every node updates its list.  Then every
   lookup from every node finds the first node at or after the key with at most
   ceil(k / len) remote calls.
   */
  lemma {:induction false} CreateToExactRouting(
    x: System, first: seq<Step>, stab: seq<seq<Step>>, recs: seq<seq<Step>>,
    n: Id, key: Id, scan: nat, budget: nat, len: nat)
    requires SystemOk(x, len) && ValidNet(x.lists.net, scan) && n in x.lists.net && 1 <= len <= |x.lists.net|
    requires forall p {:trigger FingersLive(x.lists.net, p)} :: p in x.lists.net ==> FingersLive(x.lists.net, p)
    requires Converge.Fair(x.ring, Events(first))
    requires Converge.FairRun(Moves(x, first).ring, AllEvents(stab))
    requires Stabilize.Shape(Moves(x, first).ring) && |stab| > Converge.Measure(Moves(x, first).ring)
    requires |recs| >= len
    requires forall i :: 0 <= i < |recs| ==>
               Settled(recs[i]) && SuccLists.Complete(Tables(recs[i]), x.lists.net.Keys)
    requires budget * len >= |Ahead(x.lists.net, n, key)|
    ensures var net' := MovesAll(MovesAll(Moves(x, first), stab), recs).lists.net;
            && ValidNet(net', scan) && n in net' && net'.Keys == x.lists.net.Keys
            && FindSuccessor(net', n, key, scan, budget) == Some(Owner(x.lists.net.Keys, key))
            && Forwards(net', n, key, scan, budget) * len <= |Ahead(x.lists.net, n, key)| + len - 1
  {
    var calm := Moves(x, first);
    var y := MovesAll(calm, stab);
    MovesKeep(x, first, len);
    FairPartsKeep(calm, stab, len);
    SameTablesTrans(x.lists.net, calm.lists.net, y.lists.net);
    SameTablesValid(x.lists.net, y.lists.net, scan);
    Converge.FairMakesCalm(x.ring, Events(first));
    Converge.FairRunConverges(calm.ring, AllEvents(stab));
    Converge.FairRunStaysCalm(calm.ring, AllEvents(stab));
    ListsSettle(y, recs, scan, len);
    var net' := MovesAll(y, recs).lists.net;
    assert Ahead(net', n, key) == Ahead(x.lists.net, n, key);
    assert |net'| == |net'.Keys| == |x.lists.net.Keys| == |x.lists.net|;
    LookupHops(net', n, key, scan, budget, len);
  }

  /** What fixFinger stores is a node: any lookup in a state of a run finds one. */
  lemma {:induction false} LookupFindsNode(r: Stabilize.Ring, net: Net, m: Id, key: Id, scan: nat, budget: nat)
    requires Stabilize.Reachable(r) && Matches(net, r) && ValidNet(net, scan) && m in net
    requires FindSuccessor(net, m, key, scan, budget).Some?
    ensures FindSuccessor(net, m, key, scan, budget).value in net
  {
    AnswerHasWitness(net, m, key, scan, budget);
    var via :| Answers(net, via, key, FindSuccessor(net, m, key, scan, budget).value);
    assert SameSucc(net, r, via);
    Stabilize.SuccFacts(r, via);
  }

  /**
   On a stable ring, storing what the lookup of a start id finds makes that finger
   name the first node at or after the id, and changes nothing else.
   */
  lemma {:induction false} FingerStored(
    x: SuccLists.Lists, n: Id, i: nat, start: Id, scan: nat, budget: nat, dead: Id)
    requires n in x.net && i < |x.net[n].fingers| && ValidNet(x.net, scan)
    requires StableRing(x.net) && Progressive(x.net, dead) && budget >= |Ahead(x.net, n, start)|
    ensures var found := FindSuccessor(x.net, n, start, scan, budget);
            && found.Some?
            && var y := SuccLists.Move(x, SuccLists.SetFinger(n, i, Finger(start, found.value)));
               && y.net.Keys == x.net.Keys && y.replies == x.replies
               && |y.net[n].fingers| == |x.net[n].fingers|
               && y.net[n].fingers[i].start == start && IsOwner(x.net.Keys, start, y.net[n].fingers[i].node)
               && (forall j :: 0 <= j < |x.net[n].fingers| && j != i ==> y.net[n].fingers[j] == x.net[n].fingers[j])
               && y.net[n].succ == x.net[n].succ && y.net[n].list == x.net[n].list
               && (forall m :: m in x.net && m != n ==> y.net[m] == x.net[m])
  {
    LookupFindsOwner(x.net, n, start, scan, budget, dead);
  }

  // ---------------------------------------------------------------- one failed call

  /** Every live node but `s` answers GetSuccessorList. */
  ghost predicate FailsOnly(rpc: SuccLists.ListRpc, net: Net, s: Id) {
    rpc(s).None? && forall x :: x in net && x != s ==> rpc(x).Some?
  }

  /**
   What updateSuccessorList does on an ideal ring with exact lists when the call
   to a live successor fails.  With lists of length 1 the successor stays.  With
   longer ones it becomes the successor's successor, as the protocol's failed
   call has it, and the successor passed over is on no cycle any more.
   */
  lemma {:induction false} FailedCallLeavesRing(
    r: Stabilize.Ring, net: Net, n: Id, len: nat, rpc: SuccLists.ListRpc, k: nat)
    requires Stabilize.Reachable(r) && Converge.Ideal(r) && Matches(net, r) && n in net && ExactList(net, n, len)
    requires net[n].succ != n && FailsOnly(rpc, net, net[n].succ) && k > 0
    ensures var s := net[n].succ;
            var t := SuccLists.Failover(s, net[n].list, 0, rpc).succ;
            && (len == 1 ==> t == s)
            && (len > 1 ==>
                  && s in r.succ && t == r.succ[s]
                  && var q := Stabilize.Apply(r, Stabilize.CallFailed(n, t));
                     && (forall u :: u in q.succ ==> q.succ[u] != s)
                     && Walks.Iter(q.succ, s, k) != s)
  {
    var s := net[n].succ;
    assert SameSucc(net, r, n);
    Converge.PassedOverLeaves(r, n, k);
    if len > 1 {
      var list := net[n].list;
      assert ChainLink(net.Keys, n, list, 1);
      assert SameSucc(net, r, s) && Converge.TrueNeighbours(r, s);
      NextUnique(net.Keys, s, list[1], r.succ[s]);
      assert list[1] != s by {
        assert n in net.Keys && Between(n, s, s);
      }
      assert SuccLists.Failover(s, list, 0, rpc) == SuccLists.Failover(list[1], list, 1, rpc);
    }
  }
}
