/**
 The stabilisation protocol (create, join, stabilize and the handlers
 GetPredecessor and Notify), as atomic steps that interleave freely.

 Each remote call is one step of the node that serves it.  A `stabilize` is
 split where it waits: it captures its successor, reads that node's predecessor,
 adopts it if it lies in between, and sends a notification.  Notifications stay
 in flight until they are delivered; they may be delivered late, more than once
 or never, and a GetPredecessor call may be given up at any point.

 No node crashes here, but a GetSuccessorList call may fail although the
 successor is alive: the node then takes an entry of its list as successor.  The
 lists are not part of this state, so the entry may be any node.
 */
module Stabilize {
  import opened Optional
  import opened Circle
  import opened Walks

  /** The successor that `n` holds after `asked` has named `x` as its predecessor; it was `cur` before. */
  function Adopted(n: Id, asked: Id, x: Option<Id>, cur: Id): Id {
    if x.Some? && Between(x.value, n, asked) then x.value else cur
  }

  /** The same when it has asked its current successor. */
  function AdoptedSuccessor(n: Id, s: Id, x: Option<Id>): Id {
    Adopted(n, s, x, s)
  }

  /** The predecessor that `n` holds after `p` has notified it. */
  function NotifiedPredecessor(n: Id, pred: Option<Id>, p: Id): Option<Id> {
    if pred.None? || Between(p, pred.value, n) then Some(p) else pred
  }

  /** Where a node stands in `stabilize`. */
  datatype Phase = Idle | Asking(succ: Id) | Answered(succ: Id, x: Option<Id>)

  datatype Ring = Ring(
    m: int,
    creator: Id,
    succ: Pointers,
    pred: map<Id, Option<Id>>,
    phase: map<Id, Phase>,
    joining: map<Id, Id>,         // newcomers that already know their successor
    notes: set<(Id, Id)>          // notifications (from, to) in flight
  )

  datatype Event =
    | LookupAnswered(n: Id, via: Id)  // `via` answers the newcomer's FindSuccessor
    | Joined(n: Id)                   // the newcomer sets its successor
    | Begin(n: Id)                    // a tick of the stabilise thread
    | ReadPredecessor(n: Id)          // the successor serves GetPredecessor
    | Adopt(n: Id)                    // the reply arrives
    | GiveUp(n: Id)                   // the call failed
    | CallFailed(n: Id, t: Id)        // GetSuccessorList failed, and the next list entry is t
    | Notified(p: Id, s: Id)          // `s` serves Notify(p)
    | Lost(p: Id, s: Id)

  function Create(m: int, c: Id): Ring {
    Ring(m, c, map[c := c], map[c := None], map[c := Idle], map[], {})
  }

  /** One step; an event that cannot happen in this state changes nothing. */
  function Apply(r: Ring, e: Event): Ring {
    match e
    case LookupAnswered(n, via) =>
      if OnCircle(r.m, n) && n !in r.succ && via in r.succ && BetweenRightIncl(n, via, r.succ[via])
      then r.(joining := r.joining[n := r.succ[via]])
      else r
    case Joined(n) =>
      if n in r.joining && n !in r.succ
      then r.(succ := r.succ[n := r.joining[n]], pred := r.pred[n := None],
              phase := r.phase[n := Idle], joining := r.joining - {n})
      else r
    case Begin(n) =>
      if n in r.succ then r.(phase := r.phase[n := Asking(r.succ[n])]) else r
    case ReadPredecessor(n) =>
      if n in r.phase && r.phase[n].Asking? && r.phase[n].succ in r.pred
      then r.(phase := r.phase[n := Answered(r.phase[n].succ, r.pred[r.phase[n].succ])])
      else r
    case Adopt(n) =>
      if n in r.phase && r.phase[n].Answered? && n in r.succ
      then var s := Adopted(n, r.phase[n].succ, r.phase[n].x, r.succ[n]);
           r.(succ := r.succ[n := s], phase := r.phase[n := Idle], notes := r.notes + {(n, s)})
      else r
    case GiveUp(n) =>
      if n in r.phase then r.(phase := r.phase[n := Idle]) else r
    case CallFailed(n, t) =>
      if n in r.succ && t in r.succ then r.(succ := r.succ[n := t]) else r
    case Notified(p, s) =>
      if (p, s) in r.notes && s in r.pred
      then r.(pred := r.pred[s := NotifiedPredecessor(s, r.pred[s], p)])
      else r
    case Lost(p, s) => r.(notes := r.notes - {(p, s)})
  }

  function Run(r: Ring, es: seq<Event>): Ring
    decreases |es|
  {
    if es == [] then r else Run(Apply(r, es[0]), es[1..])
  }

  // ---------------------------------------------------------------- walks without failed calls

  ghost predicate Shape(r: Ring) {
    && (forall n :: n in r.succ ==> OnCircle(r.m, n))
    && r.creator in r.succ
    && r.pred.Keys == r.succ.Keys && r.phase.Keys == r.succ.Keys
  }

  /** `p` walks to `q` in this state. */
  ghost predicate Walk(r: Ring, p: Id, q: Id) {
    q in r.succ && Reach(r.m, r.succ, p, q)
  }

  /** Every node walks to the creator, the creator by a full turn. */
  ghost predicate AllReachCreator(r: Ring) {
    forall n {:trigger Walk(r, n, r.creator)} :: n in r.succ ==> Walk(r, n, r.creator)
  }

  /** A node walks to every node that holds it as predecessor. */
  ghost predicate PredsReach(r: Ring) {
    forall s {:trigger r.pred[s]} :: s in r.pred && r.pred[s].Some? ==> Walk(r, r.pred[s].value, s)
  }

  /** The same holds of predecessors that were read and not yet used. */
  ghost predicate PhasesReach(r: Ring) {
    forall n {:trigger PhaseOk(r, n, r.phase[n])} :: n in r.phase ==> PhaseOk(r, n, r.phase[n])
  }

  ghost predicate PhaseOk(r: Ring, n: Id, ph: Phase) {
    n in r.succ &&
    match ph
    case Idle => true
    case Asking(s) => r.succ[n] == s
    case Answered(s, x) => r.succ[n] == s && (x.Some? ==> Walk(r, x.value, s))
  }

  /** And of notifications in flight. */
  ghost predicate NotesReach(r: Ring) {
    forall p, s :: (p, s) in r.notes ==> Walk(r, p, s)
  }

  /** A newcomer's successor does not lie beyond the creator. */
  ghost predicate JoiningOk(r: Ring) {
    forall n :: n in r.joining ==>
      && OnCircle(r.m, n)
      && r.joining[n] in r.succ
      && (r.joining[n] == r.creator || Between(r.joining[n], n, r.creator))
  }

  ghost predicate Inv(r: Ring) {
    Shape(r) && AllReachCreator(r) && PredsReach(r) && PhasesReach(r) && NotesReach(r) && JoiningOk(r)
  }

  /** Every walk of `a` is a walk of `b`. */
  ghost predicate WalksKept(a: Ring, b: Ring) {
    && b.m == a.m && b.creator == a.creator && a.succ.Keys <= b.succ.Keys
    && forall p, q :: Walk(a, p, q) ==> Walk(b, p, q)
  }

  lemma {:induction false} SuccInside(r: Ring, n: Id)
    requires Shape(r) && AllReachCreator(r) && n in r.succ
    ensures r.succ[n] in r.succ
  {
    assert Walk(r, n, r.creator);
    if r.succ[n] != r.creator {
      assert Reach(r.m, r.succ, r.succ[n], r.creator);
    }
  }

  lemma {:induction false} CreateInv(m: int, c: Id)
    requires OnCircle(m, c)
    ensures Inv(Create(m, c))
  {
  }

  lemma {:induction false} JoinKeepsWalks(r: Ring, n: Id, p: Id, q: Id)
    requires Inv(r) && n in r.joining && n !in r.succ && Walk(r, p, q)
    ensures Walk(Apply(r, Joined(n)), p, q)
  {
    ReachFrame(r.m, r.succ, Apply(r, Joined(n)).succ, p, q);
  }

  lemma {:induction false} JoinerReachesCreator(r: Ring, n: Id)
    requires Inv(r) && n in r.joining && n !in r.succ
    ensures Walk(Apply(r, Joined(n)), n, r.creator)
  {
    var s := r.joining[n];
    assert Walk(r, s, r.creator);
    JoinKeepsWalks(r, n, s, r.creator);
  }

  lemma {:induction false} JoinStep(r: Ring, n: Id)
    requires Inv(r) && n in r.joining && n !in r.succ
    ensures var r' := Apply(r, Joined(n));
            Inv(r') && WalksKept(r, r')
  {
    var r' := Apply(r, Joined(n));
    forall p, q | Walk(r, p, q)
      ensures Walk(r', p, q)
    {
      JoinKeepsWalks(r, n, p, q);
    }
    JoinerReachesCreator(r, n);
    forall k | k in r'.phase
      ensures PhaseOk(r', k, r'.phase[k])
    {
      assert k != n ==> PhaseOk(r, k, r.phase[k]);
    }
  }

  lemma {:induction false} AdoptKeepsWalks(r: Ring, n: Id, p: Id, q: Id)
    requires Inv(r) && n in r.phase && r.phase[n].Answered? && Walk(r, p, q)
    ensures Walk(Apply(r, Adopt(n)), p, q)
  {
    var s := r.phase[n].succ;
    var x := r.phase[n].x;
    assert PhaseOk(r, n, r.phase[n]);
    if x.Some? && Between(x.value, n, s) {
      AdoptKeepsReach(r.m, r.succ, n, x.value, p, q);
    } else {
      assert r.succ[n := s] == r.succ;
    }
  }

  lemma {:induction false} AdoptWalksKept(r: Ring, n: Id)
    requires Inv(r) && n in r.phase && r.phase[n].Answered?
    ensures WalksKept(r, Apply(r, Adopt(n)))
  {
    forall p, q | Walk(r, p, q)
      ensures Walk(Apply(r, Adopt(n)), p, q)
    {
      AdoptKeepsWalks(r, n, p, q);
    }
  }

  lemma {:induction false} AdoptShape(r: Ring, n: Id)
    requires Inv(r) && n in r.phase && r.phase[n].Answered?
    ensures var r' := Apply(r, Adopt(n));
            Shape(r') && Walk(r', n, r'.succ[n])
  {
    SuccInside(r, n);
    assert PhaseOk(r, n, r.phase[n]);
  }

  /** With the walks kept, what the invariant says of the old values still holds. */
  lemma {:induction false} InvTransfer(r: Ring, r': Ring)
    requires Inv(r) && Shape(r') && WalksKept(r, r')
    requires r'.succ.Keys == r.succ.Keys && r'.joining == r.joining && r'.pred == r.pred
    ensures AllReachCreator(r') && PredsReach(r') && JoiningOk(r')
  {
  }

  lemma {:induction false} AdoptPhases(r: Ring, n: Id)
    requires Inv(r) && n in r.phase && r.phase[n].Answered?
    requires WalksKept(r, Apply(r, Adopt(n)))
    ensures PhasesReach(Apply(r, Adopt(n)))
  {
    var r' := Apply(r, Adopt(n));
    forall k | k in r'.phase
      ensures PhaseOk(r', k, r'.phase[k])
    {
      assert PhaseOk(r, k, r.phase[k]);
    }
  }

  lemma {:induction false} AdoptNotes(r: Ring, n: Id)
    requires Inv(r) && n in r.phase && r.phase[n].Answered?
    requires WalksKept(r, Apply(r, Adopt(n)))
    ensures NotesReach(Apply(r, Adopt(n)))
  {
    var r' := Apply(r, Adopt(n));
    AdoptShape(r, n);
    forall p, s | (p, s) in r'.notes
      ensures Walk(r', p, s)
    {
      assert (p, s) == (n, r'.succ[n]) || Walk(r, p, s);
    }
  }

  lemma {:induction false} AdoptStep(r: Ring, n: Id)
    requires Inv(r) && n in r.phase && r.phase[n].Answered?
    ensures Inv(Apply(r, Adopt(n))) && WalksKept(r, Apply(r, Adopt(n)))
  {
    AdoptWalksKept(r, n);
    AdoptShape(r, n);
    InvTransfer(r, Apply(r, Adopt(n)));
    AdoptPhases(r, n);
    AdoptNotes(r, n);
  }

  lemma {:induction false} LookupStep(r: Ring, n: Id, via: Id)
    requires Inv(r)
    ensures JoiningOk(Apply(r, LookupAnswered(n, via)))
  {
    if via in r.succ {
      assert Walk(r, via, r.creator);
      SuccInside(r, via);
    }
  }

  /** A step that leaves the successor pointers alone keeps every walk. */
  lemma {:induction false} SameSuccKeepsWalks(r: Ring, r': Ring)
    requires r'.succ == r.succ && r'.m == r.m && r'.creator == r.creator
    ensures WalksKept(r, r')
  {
  }

  lemma {:induction false} NotifiedStep(r: Ring, p: Id, s: Id)
    requires Inv(r)
    ensures PredsReach(Apply(r, Notified(p, s)))
  {
  }

  lemma {:induction false} PhaseStep(r: Ring, e: Event)
    requires Inv(r) && Apply(r, e).succ == r.succ && !e.Joined?
    ensures PhasesReach(Apply(r, e))
  {
    var r' := Apply(r, e);
    SameSuccKeepsWalks(r, r');
    forall k | k in r'.phase
      ensures PhaseOk(r', k, r'.phase[k])
    {
      assert PhaseOk(r, k, r.phase[k]);
    }
  }

  /** The steps that leave the successor pointers alone. */
  lemma {:induction false} QuietStep(r: Ring, e: Event)
    requires Inv(r) && Apply(r, e).succ == r.succ && !e.Joined? && !e.Adopt? && !e.CallFailed?
    ensures Inv(Apply(r, e)) && WalksKept(r, Apply(r, e))
  {
    var r' := Apply(r, e);
    SameSuccKeepsWalks(r, r');
    PhaseStep(r, e);
    if e.LookupAnswered? {
      LookupStep(r, e.n, e.via);
    } else {
      assert JoiningOk(r');
    }
    if e.Notified? {
      NotifiedStep(r, e.p, e.s);
    } else {
      PredsTransfer(r, r');
    }
    NotesTransfer(r, r');
    CreatorTransfer(r, r');
  }

  lemma {:induction false} PredsTransfer(r: Ring, r': Ring)
    requires PredsReach(r) && WalksKept(r, r') && r'.pred == r.pred
    ensures PredsReach(r')
  {
  }

  lemma {:induction false} NotesTransfer(r: Ring, r': Ring)
    requires NotesReach(r) && WalksKept(r, r') && r'.notes <= r.notes
    ensures NotesReach(r')
  {
  }

  lemma {:induction false} CreatorTransfer(r: Ring, r': Ring)
    requires AllReachCreator(r) && WalksKept(r, r') && r'.succ.Keys == r.succ.Keys
    ensures AllReachCreator(r')
  {
  }

  /** Every step but a failed call keeps the invariant and every walk. */
  lemma {:induction false} StepInv(r: Ring, e: Event)
    requires Inv(r) && !e.CallFailed?
    ensures Inv(Apply(r, e)) && WalksKept(r, Apply(r, e))
  {
    var r' := Apply(r, e);
    if e.Joined? && e.n in r.joining && e.n !in r.succ {
      JoinStep(r, e.n);
    } else if e.Adopt? && e.n in r.phase && r.phase[e.n].Answered? {
      AdoptStep(r, e.n);
    } else if e.Joined? || e.Adopt? {
      assert r' == r;
    } else {
      QuietStep(r, e);
    }
  }

  ghost predicate NoFailures(es: seq<Event>) {
    forall i :: 0 <= i < |es| ==> !es[i].CallFailed?
  }

  lemma {:induction false} WalksArePermanent(r: Ring, es: seq<Event>)
    requires Inv(r) && NoFailures(es)
    ensures Inv(Run(r, es)) && WalksKept(r, Run(r, es))
    decreases es
  {
    if es != [] {
      StepInv(r, es[0]);
      WalksArePermanent(Apply(r, es[0]), es[1..]);
    }
  }

  /**
   Reachability is permanent: once `p` reaches `q` in a run from one `create`
   without failed calls it does so in every later state.
   */
  lemma {:induction false} ReachForever(m: int, c: Id, before: seq<Event>, after: seq<Event>, p: Id, q: Id)
    requires OnCircle(m, c) && NoFailures(before) && NoFailures(after)
    requires Walk(Run(Create(m, c), before), p, q)
    ensures Walk(Run(Create(m, c), before + after), p, q)
  {
    CreateInv(m, c);
    WalksArePermanent(Create(m, c), before);
    WalksArePermanent(Run(Create(m, c), before), after);
    RunAppend(Create(m, c), before, after);
  }

  lemma {:induction false} RunAppend(r: Ring, es: seq<Event>, fs: seq<Event>)
    ensures Run(r, es + fs) == Run(Run(r, es), fs)
    decreases |es|
  {
    if es == [] {
      assert es + fs == fs;
    } else {
      assert (es + fs)[1..] == es[1..] + fs;
      RunAppend(Apply(r, es[0]), es[1..], fs);
    }
  }

  // ---------------------------------------------------------------- the invariant of all runs

  /** Every predecessor is a node. */
  ghost predicate PredsLive(r: Ring) {
    forall s {:trigger PredLive(r, s)} :: s in r.pred ==> PredLive(r, s)
  }

  ghost predicate PredLive(r: Ring, s: Id) {
    s in r.pred && (r.pred[s].Some? ==> r.pred[s].value in r.succ)
  }

  /** A node that was asked for its predecessor does not lie beyond the creator, and what it answered is a node. */
  ghost predicate PhasesLive(r: Ring) {
    forall n {:trigger PhaseLive(r, n)} :: n in r.phase ==> PhaseLive(r, n)
  }

  ghost predicate PhaseLive(r: Ring, n: Id) {
    && n in r.phase && n in r.succ
    && (!r.phase[n].Idle? ==> r.phase[n].succ in r.succ && BetweenRightIncl(r.phase[n].succ, n, r.creator))
    && (r.phase[n].Answered? && r.phase[n].x.Some? ==> r.phase[n].x.value in r.succ)
  }

  ghost predicate NotesLive(r: Ring) {
    forall p, s :: (p, s) in r.notes ==> p in r.succ && s in r.succ
  }

  /** All nodes walk to the creator, and everything that is known or under way names nodes. */
  ghost predicate RingInv(r: Ring) {
    Shape(r) && AllReachCreator(r) && PredsLive(r) && PhasesLive(r) && NotesLive(r) && JoiningOk(r)
  }

  /** A node that takes an entry of its list does not pass over the creator. */
  ghost predicate Spares(r: Ring, e: Event) {
    e.CallFailed? && e.n in r.succ && e.t in r.succ ==> BetweenRightIncl(e.t, e.n, r.creator)
  }

  lemma {:induction false} CreateRingInv(m: int, c: Id)
    requires OnCircle(m, c)
    ensures RingInv(Create(m, c))
  {
  }

  /** The successor of a node is a node that does not lie beyond the creator. */
  lemma {:induction false} SuccBeforeCreator(r: Ring, n: Id)
    requires Shape(r) && AllReachCreator(r) && n in r.succ
    ensures r.succ[n] in r.succ && BetweenRightIncl(r.succ[n], n, r.creator)
  {
    assert Walk(r, n, r.creator);
    SuccInside(r, n);
  }

  lemma {:induction false} JoinReach(r: Ring, n: Id)
    requires RingInv(r) && n in r.joining && n !in r.succ
    ensures AllReachCreator(Apply(r, Joined(n)))
  {
    var r' := Apply(r, Joined(n));
    forall p | p in r.succ
      ensures Walk(r', p, r.creator)
    {
      assert Walk(r, p, r.creator);
      ReachFrame(r.m, r.succ, r'.succ, p, r.creator);
    }
    assert Walk(r', r.joining[n], r.creator);
    assert Walk(r', n, r.creator);
  }

  lemma {:induction false} JoinKeepsRing(r: Ring, n: Id)
    requires RingInv(r) && n in r.joining && n !in r.succ
    ensures RingInv(Apply(r, Joined(n)))
  {
    var r' := Apply(r, Joined(n));
    JoinReach(r, n);
    forall k | k in r'.phase
      ensures PhaseLive(r', k) && PredLive(r', k)
    {
      assert k != n ==> PhaseLive(r, k) && PredLive(r, k);
    }
  }

  /** A node may take any node as successor that does not lie beyond the creator. */
  lemma {:induction false} RedirectReach(r: Ring, r': Ring, n: Id, t: Id)
    requires Shape(r) && AllReachCreator(r) && n in r.succ && t in r.succ && BetweenRightIncl(t, n, r.creator)
    requires r'.m == r.m && r'.creator == r.creator && r'.succ == r.succ[n := t]
    ensures AllReachCreator(r')
  {
    forall p | p in r'.succ
      ensures Walk(r', p, r'.creator)
    {
      assert Walk(r, p, r.creator) && Walk(r, t, r.creator);
      RedirectKeepsReach(r.m, r.succ, n, t, r.creator, p);
    }
  }

  /** A step that leaves the nodes alone and makes known only nodes that were known. */
  lemma {:induction false} RingTransfer(r: Ring, r': Ring)
    requires RingInv(r) && r'.m == r.m && r'.creator == r.creator && r'.succ.Keys == r.succ.Keys
    requires r'.pred == r.pred && r'.joining == r.joining
    ensures Shape(r') <== r'.phase.Keys == r.phase.Keys
    ensures PredsLive(r') && JoiningOk(r')
  {
    forall s | s in r'.pred
      ensures PredLive(r', s)
    {
      assert PredLive(r, s);
    }
  }

  lemma {:induction false} AdoptKeepsRing(r: Ring, n: Id)
    requires RingInv(r) && n in r.phase && r.phase[n].Answered?
    ensures RingInv(Apply(r, Adopt(n)))
  {
    var r' := Apply(r, Adopt(n));
    assert PhaseLive(r, n);
    SuccBeforeCreator(r, n);
    var asked, x := r.phase[n].succ, r.phase[n].x;
    var t := Adopted(n, asked, x, r.succ[n]);
    assert t in r.succ && BetweenRightIncl(t, n, r.creator);
    RedirectReach(r, r', n, t);
    RingTransfer(r, r');
    forall k | k in r'.phase
      ensures PhaseLive(r', k)
    {
      assert PhaseLive(r, k);
    }
  }

  /**
   A failed call keeps the invariant exactly when the entry that the node takes
   does not lie beyond the creator.
   */
  lemma {:induction false} FailedCallIff(r: Ring, n: Id, t: Id)
    requires RingInv(r) && n in r.succ && t in r.succ
    ensures RingInv(Apply(r, CallFailed(n, t))) <==> BetweenRightIncl(t, n, r.creator)
  {
    var r' := Apply(r, CallFailed(n, t));
    if RingInv(r') {
      SuccBeforeCreator(r', n);
    }
    if BetweenRightIncl(t, n, r.creator) {
      RedirectReach(r, r', n, t);
      RingTransfer(r, r');
      forall k | k in r'.phase
        ensures PhaseLive(r', k)
      {
        assert PhaseLive(r, k);
      }
    }
  }

  lemma {:induction false} PhaseKeepsRing(r: Ring, e: Event)
    requires RingInv(r) && (e.Begin? || e.ReadPredecessor? || e.GiveUp?)
    ensures RingInv(Apply(r, e))
  {
    var r' := Apply(r, e);
    RingTransfer(r, r');
    SameSuccKeepsWalks(r, r');
    if e.n in r.succ {
      SuccBeforeCreator(r, e.n);
    }
    forall k | k in r'.phase
      ensures PhaseLive(r', k)
    {
      assert PhaseLive(r, k);
      if e == ReadPredecessor(k) && r.phase[k].Asking? {
        assert PredLive(r, r.phase[k].succ);
      }
    }
  }

  lemma {:induction false} LookupKeepsRing(r: Ring, n: Id, via: Id)
    requires RingInv(r)
    ensures RingInv(Apply(r, LookupAnswered(n, via)))
  {
    var r' := Apply(r, LookupAnswered(n, via));
    if via in r.succ {
      assert Walk(r, via, r.creator);
      SuccInside(r, via);
    }
    SameSuccKeepsWalks(r, r');
    CreatorTransfer(r, r');
    forall k | k in r'.phase
      ensures PhaseLive(r', k) && PredLive(r', k)
    {
      assert PhaseLive(r, k) && PredLive(r, k);
    }
  }

  lemma {:induction false} NoteKeepsRing(r: Ring, e: Event)
    requires RingInv(r) && (e.Notified? || e.Lost?)
    ensures RingInv(Apply(r, e))
  {
    var r' := Apply(r, e);
    SameSuccKeepsWalks(r, r');
    CreatorTransfer(r, r');
    forall k | k in r'.phase
      ensures PhaseLive(r', k) && PredLive(r', k)
    {
      assert PhaseLive(r, k) && PredLive(r, k);
    }
  }

  /** Every step keeps the invariant, as long as no failed call makes a node pass over the creator. */
  lemma {:induction false} StepKeepsRing(r: Ring, e: Event)
    requires RingInv(r) && Spares(r, e)
    ensures RingInv(Apply(r, e)) && Apply(r, e).creator == r.creator
    ensures r.succ.Keys <= Apply(r, e).succ.Keys
  {
    match e
    case LookupAnswered(n, via) => LookupKeepsRing(r, n, via);
    case Joined(n) =>
      if n in r.joining && n !in r.succ {
        JoinKeepsRing(r, n);
      }
    case Adopt(n) =>
      if n in r.phase && r.phase[n].Answered? {
        AdoptKeepsRing(r, n);
      }
    case CallFailed(n, t) =>
      if n in r.succ && t in r.succ {
        FailedCallIff(r, n, t);
      }
    case Notified(_, _) => NoteKeepsRing(r, e);
    case Lost(_, _) => NoteKeepsRing(r, e);
    case _ => PhaseKeepsRing(r, e);
  }

  // ---------------------------------------------------------------- reachable states

  /** No failed call of the run makes a node pass over the creator. */
  ghost predicate Sparing(r: Ring, es: seq<Event>)
    decreases |es|
  {
    es == [] || (Spares(r, es[0]) && Sparing(Apply(r, es[0]), es[1..]))
  }

  lemma {:induction false} SparingAppend(r: Ring, es: seq<Event>, fs: seq<Event>)
    requires Sparing(r, es) && Sparing(Run(r, es), fs)
    ensures Sparing(r, es + fs)
    decreases |es|
  {
    if es == [] {
      assert es + fs == fs;
    } else {
      assert (es + fs)[1..] == es[1..] + fs;
      SparingAppend(Apply(r, es[0]), es[1..], fs);
    }
  }

  lemma {:induction false} NoFailuresSpare(r: Ring, es: seq<Event>)
    requires NoFailures(es)
    ensures Sparing(r, es)
    decreases |es|
  {
    if es != [] {
      NoFailuresSpare(Apply(r, es[0]), es[1..]);
    }
  }

  ghost predicate IsRunOf(r: Ring, m: int, c: Id, es: seq<Event>) {
    OnCircle(m, c) && Sparing(Create(m, c), es) && r == Run(Create(m, c), es)
  }

  /**
   A state of some run from one `create`: any joins, any interleaving of the
   steps, and any failed calls that do not make a node pass over the creator.
   */
  ghost predicate Reachable(r: Ring) {
    exists m, c, es :: IsRunOf(r, m, c, es)
  }

  lemma {:induction false} RunStaysReachable(r: Ring, es: seq<Event>)
    requires Reachable(r) && Sparing(r, es)
    ensures Reachable(Run(r, es))
  {
    var m, c, fs :| IsRunOf(r, m, c, fs);
    RunAppend(Create(m, c), fs, es);
    SparingAppend(Create(m, c), fs, es);
    assert IsRunOf(Run(r, es), m, c, fs + es);
  }

  lemma {:induction false} StepStaysReachable(r: Ring, e: Event)
    requires Reachable(r) && Spares(r, e)
    ensures Reachable(Apply(r, e))
  {
    assert [e][1..] == [];
    assert Run(Apply(r, e), [e][1..]) == Apply(r, e);
    assert Sparing(Apply(r, e), [e][1..]);
    RunStaysReachable(r, [e]);
  }

  lemma {:induction false} RunKeepsRing(r: Ring, es: seq<Event>)
    requires RingInv(r) && Sparing(r, es)
    ensures RingInv(Run(r, es))
    decreases |es|
  {
    if es != [] {
      StepKeepsRing(r, es[0]);
      RunKeepsRing(Apply(r, es[0]), es[1..]);
    }
  }

  lemma {:induction false} ReachableInv(r: Ring)
    requires Reachable(r)
    ensures RingInv(r)
  {
    var m, c, es :| IsRunOf(r, m, c, es);
    CreateRingInv(m, c);
    RunKeepsRing(Create(m, c), es);
  }

  lemma {:induction false} ReachableShape(r: Ring)
    requires Reachable(r)
    ensures Shape(r)
  {
    ReachableInv(r);
  }

  // ---------------------------------------------------------------- what is known came in a message

  /** A predecessor that is known after a run was known before or has notified the node. */
  lemma {:induction false} PredsFrom(r: Ring, es: seq<Event>, s: Id)
    requires s in Run(r, es).pred && Run(r, es).pred[s].Some?
    ensures var p := Run(r, es).pred[s];
            (s in r.pred && r.pred[s] == p) || exists i :: 0 <= i < |es| && es[i] == Notified(p.value, s)
    decreases |es|
  {
    if es != [] {
      var p := Run(r, es).pred[s];
      PredsFrom(Apply(r, es[0]), es[1..], s);
      if i :| 0 <= i < |es[1..]| && es[1..][i] == Notified(p.value, s) {
        assert es[i + 1] == Notified(p.value, s);
      } else {
        assert (s in r.pred && r.pred[s] == p) || es[0] == Notified(p.value, s);
      }
    }
  }

  /** In any run from one `create` a node knows as predecessor only a node that has notified it. */
  lemma {:induction false} PredsWereNotified(m: int, c: Id, es: seq<Event>, s: Id)
    requires s in Run(Create(m, c), es).pred && Run(Create(m, c), es).pred[s].Some?
    ensures exists i :: 0 <= i < |es| && es[i] == Notified(Run(Create(m, c), es).pred[s].value, s)
  {
    PredsFrom(Create(m, c), es, s);
  }

  /** A call that was given up and a notification that was lost have no effect any more. */
  lemma {:induction false} GivenUpIsOver(r: Ring, n: Id, p: Id, s: Id)
    ensures Apply(Apply(r, GiveUp(n)), Adopt(n)).succ == r.succ
    ensures Apply(Apply(r, GiveUp(n)), Adopt(n)).notes == r.notes
    ensures Apply(Apply(r, Lost(p, s)), Notified(p, s)).pred == r.pred
  {
  }

  // ---------------------------------------------------------------- joining

  /** Nothing among the events concerns the newcomer. */
  ghost predicate Spared(es: seq<Event>, n: Id) {
    forall i :: 0 <= i < |es| ==>
      (es[i].LookupAnswered? || es[i].Joined? ==> es[i].n != n)
  }

  lemma {:induction false} AnswerWaits(r: Ring, n: Id, es: seq<Event>)
    requires Spared(es, n) && n in r.joining && n !in r.succ
    ensures var q := Run(r, es);
            n in q.joining && q.joining[n] == r.joining[n] && n !in q.succ
    decreases |es|
  {
    if es != [] {
      AnswerWaits(Apply(r, es[0]), n, es[1..]);
    }
  }

  /**
   A newcomer takes as successor the one that `via` had when it answered, however
   much later it does so; nobody else's pointers change, and it knows no predecessor.
   */
  lemma {:induction false} JoinTakesAnswer(r: Ring, n: Id, via: Id, es: seq<Event>)
    requires OnCircle(r.m, n) && n !in r.succ && via in r.succ && BetweenRightIncl(n, via, r.succ[via])
    requires Spared(es, n)
    ensures var before := Run(Apply(r, LookupAnswered(n, via)), es);
            var q := Apply(before, Joined(n));
            && q.succ.Keys == before.succ.Keys + {n} && q.pred.Keys == before.pred.Keys + {n}
            && q.succ[n] == r.succ[via] && q.pred[n] == None && n !in q.joining
            && (forall k :: k in before.succ && k != n ==> q.succ[k] == before.succ[k])
            && (forall k :: k in before.pred && k != n ==> q.pred[k] == before.pred[k])
  {
    AnswerWaits(Apply(r, LookupAnswered(n, via)), n, es);
  }

  // ---------------------------------------------------------------- one ring

  /** The nodes of the creator's cycle. */
  ghost function OnRing(r: Ring): set<Id>
    requires Walk(r, r.creator, r.creator)
  {
    Visited(r.m, r.succ, r.creator, r.creator)
  }

  /**
   The successor pointers have one cycle: `c` returns to itself after `l` hops
   that go once round the circle clockwise; every node arrives at `c`; and every
   node that lies on some cycle is one of those `l` nodes.
   */
  ghost predicate HasOneRing(m: int, succ: Pointers, c: Id, l: nat) {
    && c in succ
    && l > 0 && Iter(succ, c, l) == c
    && (forall i :: 0 < i < l ==> Between(Iter(succ, c, i), c, Iter(succ, c, i + 1)))
    && (forall n :: n in succ ==> exists k :: k > 0 && Iter(succ, n, k) == c)
    && (forall n, k :: n in succ && k > 0 && Iter(succ, n, k) == n ==>
          exists i :: 0 <= i < l && Iter(succ, c, i) == n)
  }

  lemma {:induction false} WalksMakeOneRing(m: int, succ: Pointers, c: Id)
    requires c in succ
    requires forall n :: n in succ ==> Reach(m, succ, n, c)
    ensures HasOneRing(m, succ, c, Hops(m, succ, c, c))
  {
    var l := Hops(m, succ, c, c);
    HopsArrive(m, succ, c, c);
    forall i | 0 < i < l
      ensures Between(Iter(succ, c, i), c, Iter(succ, c, i + 1))
    {
      HopsClockwise(m, succ, c, c, i);
    }
    forall n | n in succ
      ensures exists k :: k > 0 && Iter(succ, n, k) == c
    {
      HopsArrive(m, succ, n, c);
    }
    forall n, k | n in succ && k > 0 && Iter(succ, n, k) == n
      ensures exists i :: 0 <= i < l && Iter(succ, c, i) == n
    {
      OneCycle(m, succ, c, n, k);
    }
  }

  /** Every reachable state has one ring, and it contains the creator. */
  lemma {:induction false} OneRing(r: Ring)
    requires Reachable(r)
    ensures exists l :: HasOneRing(r.m, r.succ, r.creator, l)
  {
    ReachableInv(r);
    forall n | n in r.succ
      ensures Reach(r.m, r.succ, n, r.creator)
    {
      assert Walk(r, n, r.creator);
    }
    WalksMakeOneRing(r.m, r.succ, r.creator);
  }

  /** On the ring every successor is the next ring node clockwise. */
  lemma {:induction false} RingIsOrdered(r: Ring)
    requires Reachable(r)
    ensures Walk(r, r.creator, r.creator)
    ensures forall v {:trigger r.succ[v]} :: v in OnRing(r) ==> v in r.succ && IsNext(OnRing(r), v, r.succ[v])
  {
    CreatorWalksRound(r);
    forall v | v in OnRing(r)
      ensures v in r.succ && IsNext(OnRing(r), v, r.succ[v])
    {
      RoundIsNext(r.m, r.succ, r.creator, v);
    }
  }

  lemma {:induction false} CreatorWalksRound(r: Ring)
    requires Reachable(r)
    ensures Walk(r, r.creator, r.creator)
  {
    ReachableInv(r);
  }

  // ---------------------------------------------------------------- facts about reachable states

  lemma {:induction false} PredFacts(r: Ring, n: Id)
    requires Reachable(r) && n in r.pred && r.pred[n].Some?
    ensures r.pred[n].value in r.succ
  {
    ReachableInv(r);
    assert PredLive(r, n);
  }

  lemma {:induction false} PhaseFacts(r: Ring, n: Id)
    requires Reachable(r) && n in r.phase
    ensures PhaseLive(r, n)
  {
    ReachableInv(r);
  }

  lemma {:induction false} NoteFacts(r: Ring, p: Id, s: Id)
    requires Reachable(r) && (p, s) in r.notes
    ensures p in r.succ && s in r.succ
  {
    ReachableInv(r);
  }

  lemma {:induction false} CreatorFacts(r: Ring, n: Id)
    requires Reachable(r) && n in r.succ
    ensures Walk(r, n, r.creator)
  {
    ReachableInv(r);
  }

  lemma {:induction false} SuccFacts(r: Ring, n: Id)
    requires Reachable(r) && n in r.succ
    ensures r.succ[n] in r.succ
  {
    ReachableInv(r);
    SuccInside(r, n);
  }
}
