/** Replica-group membership at one node: its own group is never lost, and groups do not pile up. */
module Groups {
  import opened Optional
  import opened Circle
  import opened Routing
  import opened Store
  import Ident

  // ---------------------------------------------------------------- 64-bit keys

  /** `ids` are positions of `w`-byte ids. */
  ghost predicate Names(w: nat, ids: set<Id>) {
    forall p :: p in ids ==> exists b: Ident.Bytes :: |b| == w && Ident.Pos(w, b) == p
  }

  /** The 64-bit keys keep any ids of `w` bytes apart if and only if these have at most eight bytes. */
  lemma {:induction false} ApartIffShort(gid: Id -> Gid, w: nat)
    requires KeyedByBytes(gid, w)
    ensures (forall ids {:trigger Names(w, ids)} :: Names(w, ids) ==> Apart(gid, ids)) <==> w <= 8
  {
    if w <= 8 {
      Ident.GroupKeysDistinctIff(w);
      forall ids | Names(w, ids)
        ensures Apart(gid, ids)
      {
        forall p, q | p in ids && q in ids && gid(p) == gid(q)
          ensures p == q
        {
          var a: Ident.Bytes :| |a| == w && Ident.Pos(w, a) == p;
          var b: Ident.Bytes :| |b| == w && Ident.Pos(w, b) == q;
        }
      }
    } else {
      var a, b := Ident.KeysCollide(w);
      var p, q := Ident.Pos(w, a), Ident.Pos(w, b);
      Ident.CompareIsPosition(w, a, b);
      assert Names(w, {p, q});
      assert gid(p) == gid(q);
      assert p in {p, q} && q in {p, q} && p != q;
    }
  }

  /**
   What a replica message does to a receiver's own group: it is left alone, for
   all messages of a leader, exactly when the leader's key is another one.
   */
  lemma {:induction false} ReplicaSparesOwnIff(own: Gid, leader: Gid)
    ensures own != leader <==>
              forall rgs: Rgs, kvs: Group
                {:trigger HandleReplicas(rgs, leader, kvs)} {:trigger HandleRemoval(rgs, leader, kvs)} ::
                own in rgs ==>
                  && own in HandleReplicas(rgs, leader, kvs) && HandleReplicas(rgs, leader, kvs)[own] == rgs[own]
                  && own in HandleRemoval(rgs, leader, kvs) && HandleRemoval(rgs, leader, kvs)[own] == rgs[own]
  {
    if own == leader {
      var rgs: Rgs := map[own := map["" := ""]];
      var kvs: Group := map["" := ""];
      assert "" in rgs[own] && "" !in HandleRemoval(rgs, leader, kvs)[own];
    }
  }

  // ---------------------------------------------------------------- one message

  /** With another group present, a farthest group is not the node's own. */
  lemma {:induction false} FarthestIsOther(dist: (Gid, Gid) -> nat, own: Gid, gs: set<Gid>, f: Gid)
    requires Separates(dist) && IsFarthest(dist, own, gs, f) && |gs| > 1
    ensures f in gs && f != own
  {
    var others := gs - {own};
    assert |others| > 0 by {
      if own in gs {
        assert gs == others + {own};
      } else {
        assert gs == others;
      }
    }
    var x := Pick(others);
    assert dist(own, x) > 0 && x in gs;
    assert dist(own, own) == 0;
  }

  /**
   When the eviction cannot take the own group: with r >= 1 there is a farther
   one, and without lists the argmax of the own group alone is the number 0.
   */
  predicate OwnGroupSafe(c: Config, own: Gid) {
    c.r >= 1 || own != 0
  }

  /** Whatever the argmax names among enough groups, it is not the own group. */
  lemma {:induction false} FarthestSparesOwn(dist: (Gid, Gid) -> nat, own: Gid, r: nat, gs: set<Gid>, f: Gid)
    requires Separates(dist) && IsFarthest(dist, own, gs, f) && |gs| >= r + 1 && (r >= 1 || own != 0)
    ensures f != own
  {
    if |gs| > 1 {
      FarthestIsOther(dist, own, gs, f);
    } else {
      assert dist(own, own) == 0;
    }
  }

  lemma {:induction false} RemoveFarthestKeeps(c: Config, own: Gid, rgs: Rgs)
    requires ValidDistance(c) && OwnGroupSafe(c, own)
    ensures var rgs' := RemoveFarthestRg(c, own, rgs);
            && (own in rgs ==> own in rgs' && rgs'[own] == rgs[own])
            && rgs'.Keys <= rgs.Keys
  {
    if |rgs| >= c.r + 1 {
      assert |rgs.Keys| == |rgs|;
      assert IsFarthest(c.dist, own, rgs.Keys, c.far(own, rgs.Keys));
      FarthestSparesOwn(c.dist, own, c.r, rgs.Keys, c.far(own, rgs.Keys));
    }
  }

  /** Whether the message makes the receiver drop its own group: it must name that group as the failed one. */
  predicate NamesOwnAsFailed(c: Config, own: Id, newLeader: Id, oldLeader: Option<Id>) {
    own != newLeader && oldLeader.Some? && c.gid(oldLeader.value) == c.gid(own) && c.gid(newLeader) != c.gid(own)
  }

  /** The own group stays, with its data, unless the message names it as failed. */
  lemma {:induction false} OwnGroupStaysIff(c: Config, own: Id, rgs: Rgs, newLeader: Id, oldLeader: Option<Id>)
    requires ValidDistance(c) && OwnGroupSafe(c, c.gid(own)) && c.gid(own) in rgs
    ensures var rgs' := Regrouped(c, own, rgs, newLeader, oldLeader);
            && (c.gid(own) in rgs' <==> !NamesOwnAsFailed(c, own, newLeader, oldLeader))
            && (c.gid(own) in rgs' ==> rgs'[c.gid(own)] == rgs[c.gid(own)])
  {
    RemoveFarthestKeeps(c, c.gid(own), rgs);
  }

  /** The group that a new-node message evicts, if any: a farthest one, and never the receiver's own. */
  function Evicted(c: Config, own: Id, rgs: Rgs, n: Id): set<Gid> {
    if own != n && c.gid(n) !in rgs && |rgs| >= c.r + 1 then {c.far(c.gid(own), rgs.Keys)} else {}
  }

  lemma {:induction false} EvictedIsOther(c: Config, own: Id, rgs: Rgs, n: Id)
    requires ValidDistance(c) && c.r >= 1
    ensures Evicted(c, own, rgs, n) <= rgs.Keys - {c.gid(own)}
    ensures c.gid(n) !in Evicted(c, own, rgs, n)
    ensures Evicted(c, own, rgs, n) != {} ==>
              forall g :: g in rgs ==> c.dist(c.gid(own), g) <= c.dist(c.gid(own), c.far(c.gid(own), rgs.Keys))
  {
    var gs := rgs.Keys;
    var f := c.far(c.gid(own), gs);
    assert IsFarthest(c.dist, c.gid(own), gs, f);
    if Evicted(c, own, rgs, n) != {} {
      assert |gs| == |rgs|;
      FarthestIsOther(c.dist, c.gid(own), gs, f);
    }
  }

  lemma {:induction false} EvictionIs(c: Config, own: Id, rgs: Rgs, n: Id)
    requires own != n && c.gid(n) !in rgs
    ensures RemoveFarthestRg(c, c.gid(own), rgs) == rgs - Evicted(c, own, rgs, n)
  {
    assert rgs - {} == rgs;
  }

  lemma {:induction false} EvictThenAdd(rgs: Rgs, gone: set<Gid>, g: Gid)
    requires g !in rgs
    ensures var rgs' := AddRg(rgs - gone, g);
            && rgs'.Keys == rgs.Keys - gone + {g} && rgs'[g] == map[]
            && forall o :: o in rgs && o !in gone ==> rgs'[o] == rgs[o]
  {
  }

  lemma {:induction false} NewNodeMembership(c: Config, own: Id, rgs: Rgs, n: Id)
    requires own != n
    ensures var rgs' := Regrouped(c, own, rgs, n, None);
            var g, gone := c.gid(n), Evicted(c, own, rgs, n);
            && rgs'.Keys == rgs.Keys - gone + {g}
            && rgs'[g] == (if g in rgs then rgs[g] else map[])
            && (forall o :: o in rgs && o !in gone ==> rgs'[o] == rgs[o])
  {
    if c.gid(n) !in rgs {
      EvictionIs(c, own, rgs, n);
      EvictThenAdd(rgs, Evicted(c, own, rgs, n), c.gid(n));
    } else {
      assert rgs.Keys - {} + {c.gid(n)} == rgs.Keys;
    }
  }

  lemma {:induction false} LeaderChangeMembership(c: Config, own: Id, rgs: Rgs, n: Id, d: Id)
    requires own != n
    ensures var rgs' := Regrouped(c, own, rgs, n, Some(d));
            var g, gone := c.gid(n), {c.gid(d)} - {c.gid(n)};
            && rgs'.Keys == rgs.Keys - gone + {g}
            && rgs'[g] == (if g in rgs then rgs[g] else map[])
            && (forall o :: o in rgs && o !in gone ==> rgs'[o] == rgs[o])
  {
  }

  /** A group that is added is empty, unless it was there already; no other group is touched. */
  lemma {:induction false} AddRgKeeps(rgs: Rgs, g: Gid)
    ensures AddRg(rgs, g).Keys == rgs.Keys + {g}
    ensures forall o :: o in rgs ==> AddRg(rgs, g)[o] == rgs[o]
    ensures g !in rgs ==> AddRg(rgs, g)[g] == map[]
  {
  }

  /**
   The membership after any message.  A node ignores its own.  After another's the
   new leader's group is there, with the data it had or empty; a new node costs the
   farthest group once there are r + 1, and that is never the own one; a leader
   change costs exactly the group of the old leader; no other group is touched.
   */
  lemma {:induction false} MessageSetsMembership(
    c: Config, own: Id, rgs: Rgs, newLeader: Id, oldLeader: Option<Id>)
    requires ValidDistance(c) && c.r >= 1
    ensures own == newLeader ==> Regrouped(c, own, rgs, newLeader, oldLeader) == rgs
    ensures own != newLeader ==>
              var rgs' := Regrouped(c, own, rgs, newLeader, oldLeader);
              var g := c.gid(newLeader);
              var gone := if oldLeader.None? then Evicted(c, own, rgs, newLeader)
                          else {c.gid(oldLeader.value)} - {g};
              && rgs'.Keys == rgs.Keys - gone + {g}
              && rgs'[g] == (if g in rgs then rgs[g] else map[])
              && (forall o :: o in rgs && o !in gone ==> rgs'[o] == rgs[o])
              && (oldLeader.None? ==>
                    && gone <= rgs.Keys - {c.gid(own)}
                    && |gone| == (if g !in rgs && |rgs| >= c.r + 1 then 1 else 0))
  {
    if own != newLeader {
      if oldLeader.None? {
        EvictedIsOther(c, own, rgs, newLeader);
        NewNodeMembership(c, own, rgs, newLeader);
      } else {
        LeaderChangeMembership(c, own, rgs, newLeader, oldLeader.value);
      }
    }
  }

  /** The new-node branch never raises the number of groups above the larger of its old value and r + 1. */
  lemma {:induction false} NewNodeGroupCount(c: Config, own: Id, rgs: Rgs, newLeader: Id)
    requires ValidDistance(c) && c.r >= 1
    ensures var rgs' := Regrouped(c, own, rgs, newLeader, None);
            |rgs'| <= if |rgs| > c.r + 1 then |rgs| else c.r + 1
  {
    if own != newLeader && c.gid(newLeader) !in rgs {
      var gone := Evicted(c, own, rgs, newLeader);
      EvictedIsOther(c, own, rgs, newLeader);
      NewNodeMembership(c, own, rgs, newLeader);
      var rgs' := Regrouped(c, own, rgs, newLeader, None);
      assert |rgs'| == |rgs'.Keys| && |rgs| == |rgs.Keys|;
      assert rgs'.Keys == (rgs.Keys - gone) + {c.gid(newLeader)};
      assert rgs.Keys == (rgs.Keys - gone) + gone;
      assert |rgs.Keys| == |rgs.Keys - gone| + |gone|;
    }
  }

  // ---------------------------------------------------------------- all the events of one node

  /** Everything that changes the groups of a node. */
  datatype Event =
    | Coordinate(newLeader: Id, oldLeader: Option<Id>)
    | Replicate(leader: Id, kvs: Group)
    | Remove(leader: Id, kvs: Group)
    | Write(key: Key, val: Val)
    | PredecessorFailed
    | Notice(p: Id)                  // notified of a predecessor

  /** The groups after the data of a failed predecessor has been taken over. */
  function TakenOver(own: Gid, rgs: Rgs, failed: Gid): Rgs {
    RemoveRg(if failed in rgs && own in rgs then rgs[own := rgs[own] + rgs[failed]] else rgs, failed)
  }

  lemma {:induction false} OwnTakenOver(own: Gid, rgs: Rgs, failed: Gid)
    ensures own in TakenOver(own, rgs, failed) <==> own in rgs && own != failed
  {
  }

  function React(c: Config, p: Peer, e: Event): Peer {
    var g := c.gid(p.rt.id);
    match e
    case Coordinate(newLeader, oldLeader) => p.(rgs := Coordinated(c, p, newLeader, oldLeader))
    case Replicate(leader, kvs) => p.(rgs := HandleReplicas(p.rgs, c.gid(leader), kvs))
    case Remove(leader, kvs) => p.(rgs := HandleRemoval(p.rgs, c.gid(leader), kvs))
    case Write(key, val) => if g in p.rgs then p.(rgs := p.rgs[g := p.rgs[g][key := val]]) else p
    case PredecessorFailed =>
      if p.pred.None? then p else p.(rgs := TakenOver(g, p.rgs, c.gid(p.pred.value)), pred := None)
    case Notice(q) => p.(pred := Some(q))
  }

  /** No event names the node's own group as that of a failed node. */
  predicate Admissible(c: Config, p: Peer, e: Event) {
    match e
    case Coordinate(newLeader, oldLeader) => !NamesOwnAsFailed(c, p.rt.id, newLeader, oldLeader)
    case PredecessorFailed => p.pred.Some? ==> c.gid(p.pred.value) != c.gid(p.rt.id)
    case _ => true
  }

  function ReactAll(c: Config, p: Peer, es: seq<Event>): Peer
    decreases |es|
  {
    if es == [] then p
    else ReactAll(c, if Admissible(c, p, es[0]) then React(c, p, es[0]) else p, es[1..])
  }

  /** A new node holds its own group, empty. */
  function NewPeer(c: Config, rt: Router): Peer {
    Peer(rt, None, map[c.gid(rt.id) := map[]])
  }

  lemma {:induction false} ReactKeepsOwn(c: Config, p: Peer, e: Event)
    requires ValidDistance(c) && OwnGroupSafe(c, c.gid(p.rt.id)) && c.gid(p.rt.id) in p.rgs && Admissible(c, p, e)
    ensures var p' := React(c, p, e);
            p'.rt == p.rt && c.gid(p.rt.id) in p'.rgs
  {
    if e.Coordinate? {
      OwnGroupStaysIff(c, p.rt.id, p.rgs, e.newLeader, e.oldLeader);
    }
  }

  lemma {:induction false} OwnGroupKept(c: Config, p: Peer, es: seq<Event>)
    requires ValidDistance(c) && OwnGroupSafe(c, c.gid(p.rt.id)) && c.gid(p.rt.id) in p.rgs
    ensures ReactAll(c, p, es).rt == p.rt && c.gid(p.rt.id) in ReactAll(c, p, es).rgs
    decreases |es|
  {
    if es != [] {
      if Admissible(c, p, es[0]) {
        ReactKeepsOwn(c, p, es[0]);
      }
      OwnGroupKept(c, if Admissible(c, p, es[0]) then React(c, p, es[0]) else p, es[1..]);
    }
  }

  /** The node's own group exists after every sequence of events. */
  ghost predicate OwnGroupAlways(c: Config, rt: Router) {
    forall es: seq<Event> :: c.gid(rt.id) in ReactAll(c, NewPeer(c, rt), es).rgs
  }

  /** Without lists, a node whose group has the number 0 loses it to the first newcomer. */
  lemma {:induction false} OwnGroupLost(c: Config, rt: Router, other: Id)
    requires ValidDistance(c) && c.r == 0 && c.gid(rt.id) == 0 && c.gid(other) != 0
    ensures 0 !in ReactAll(c, NewPeer(c, rt), [Coordinate(other, None)]).rgs
  {
    var p := NewPeer(c, rt);
    var e := Coordinate(other, None);
    assert p.rgs.Keys == {0};
    assert |p.rgs.Keys| == |p.rgs| == 1;
    assert IsFarthest(c.dist, 0, {0}, c.far(0, {0}));
    assert [e][1..] == [];
    assert ReactAll(c, React(c, p, e), []) == React(c, p, e);
  }

  /**
   A node never loses its own replica group if and only if successor lists have
   a positive length or the number of its group is not 0.  (A node without a
   list sends no coordinator message itself; the message that takes the group
   comes from a node that is configured with a longer list.)
   */
  lemma {:induction false} OwnGroupIff(c: Config, rt: Router, other: Id)
    requires ValidDistance(c) && c.gid(other) != c.gid(rt.id)
    ensures OwnGroupAlways(c, rt) <==> c.r >= 1 || c.gid(rt.id) != 0
  {
    if OwnGroupSafe(c, c.gid(rt.id)) {
      forall es: seq<Event>
        ensures c.gid(rt.id) in ReactAll(c, NewPeer(c, rt), es).rgs
      {
        OwnGroupKept(c, NewPeer(c, rt), es);
      }
    } else {
      OwnGroupLost(c, rt, other);
    }
  }
}
