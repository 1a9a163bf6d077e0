/**
 Convergence of the stabilisation protocol once joins and failed calls have stopped.

 The measure of a state is the sum, over all nodes, of the clockwise distances
 from the node to its successor and from its predecessor to the node.
 */
module Converge {
  import opened Optional
  import opened Circle
  import opened Walks
  import opened Stabilize

  // ---------------------------------------------------------------- finite sums

  ghost function Total(s: set<Id>, f: map<Id, int>): int
    requires s <= f.Keys
  {
    if s == {} then 0 else f[Pick(s)] + Total(s - {Pick(s)}, f)
  }

  lemma {:induction false} TotalRemove(s: set<Id>, f: map<Id, int>, k: Id)
    requires s <= f.Keys && k in s
    ensures Total(s, f) == f[k] + Total(s - {k}, f)
    decreases s
  {
    var x := Pick(s);
    if x != k {
      TotalRemove(s - {x}, f, k);
      TotalRemove(s - {k}, f, x);
      assert s - {x} - {k} == s - {k} - {x};
    }
  }

  lemma {:induction false} TotalSame(s: set<Id>, f: map<Id, int>, g: map<Id, int>)
    requires s <= f.Keys && s <= g.Keys
    requires forall x :: x in s ==> f[x] == g[x]
    ensures Total(s, f) == Total(s, g)
    decreases s
  {
    if s != {} {
      var x := Pick(s);
      TotalSame(s - {x}, f, g);
      TotalRemove(s, g, x);
    }
  }

  /** A change at one element changes the sum by as much. */
  lemma {:induction false} TotalChange(s: set<Id>, f: map<Id, int>, g: map<Id, int>, k: Id)
    requires s <= f.Keys && s <= g.Keys && k in s
    requires forall x :: x in s && x != k ==> f[x] == g[x]
    ensures Total(s, g) == Total(s, f) - f[k] + g[k]
  {
    TotalRemove(s, f, k);
    TotalRemove(s, g, k);
    TotalSame(s - {k}, f, g);
  }

  lemma {:induction false} TotalNonNegative(s: set<Id>, f: map<Id, int>)
    requires s <= f.Keys
    requires forall x :: x in s ==> f[x] >= 0
    ensures Total(s, f) >= 0
    decreases s
  {
    if s != {} {
      var x := Pick(s);
      TotalNonNegative(s - {x}, f);
    }
  }

  // ---------------------------------------------------------------- the measure

  /** Distance from the predecessor; a missing predecessor counts as more than a full turn. */
  function PredGap(m: int, n: Id, pred: Option<Id>): int {
    if pred.None? then m + 1 else Arc(m, pred.value, n)
  }

  ghost function Gaps(r: Ring): map<Id, int>
    requires Shape(r)
  {
    map n | n in r.succ :: Arc(r.m, n, r.succ[n]) + PredGap(r.m, n, r.pred[n])
  }

  ghost function Measure(r: Ring): int
    requires Shape(r)
  {
    Total(r.succ.Keys, Gaps(r))
  }

  /** The steps other than joins and failed calls. */
  predicate Internal(e: Event) {
    !e.Joined? && !e.CallFailed?
  }

  ghost predicate Undisturbed(es: seq<Event>) {
    forall i :: 0 <= i < |es| ==> Internal(es[i])
  }

  /** Whoever waits in `stabilize` has asked its current successor. */
  ghost predicate Calm(r: Ring) {
    forall n {:trigger CalmAt(r, n)} :: n in r.phase ==> CalmAt(r, n)
  }

  ghost predicate CalmAt(r: Ring, n: Id) {
    n in r.phase && n in r.succ && (!r.phase[n].Idle? ==> r.phase[n].succ == r.succ[n])
  }

  /** Only a failed call can end that. */
  lemma {:induction false} StepStaysCalm(r: Ring, e: Event)
    requires Reachable(r) && Calm(r) && !e.CallFailed?
    ensures Calm(Apply(r, e))
  {
    var q := Apply(r, e);
    ReachableShape(r);
    forall n | n in q.phase
      ensures CalmAt(q, n)
    {
      assert n in r.phase ==> CalmAt(r, n);
    }
  }

  lemma {:induction false} CreateIsCalm(m: int, c: Id)
    requires OnCircle(m, c)
    ensures Reachable(Create(m, c)) && Calm(Create(m, c))
  {
    var es: seq<Event> := [];
    assert Run(Create(m, c), es) == Create(m, c) && Sparing(Create(m, c), es);
    assert IsRunOf(Create(m, c), m, c, es);
  }

  lemma {:induction false} NoFailuresStayCalm(r: Ring, es: seq<Event>)
    requires Reachable(r) && Calm(r) && NoFailures(es)
    ensures Reachable(Run(r, es)) && Calm(Run(r, es))
    decreases |es|
  {
    if es != [] {
      StepStaysReachable(r, es[0]);
      StepStaysCalm(r, es[0]);
      NoFailuresStayCalm(Apply(r, es[0]), es[1..]);
    }
  }

  /** Every state of a run without failed calls is reachable and calm. */
  lemma {:induction false} NoFailuresCalm(m: int, c: Id, es: seq<Event>)
    requires OnCircle(m, c) && NoFailures(es)
    ensures Reachable(Run(Create(m, c), es)) && Calm(Run(Create(m, c), es))
  {
    CreateIsCalm(m, c);
    NoFailuresStayCalm(Create(m, c), es);
  }

  ghost predicate SamePointers(a: Ring, b: Ring) {
    a.m == b.m && a.creator == b.creator && a.succ == b.succ && a.pred == b.pred
  }

  lemma {:induction false} SameMeasure(a: Ring, b: Ring)
    requires Shape(a) && Shape(b) && SamePointers(a, b)
    ensures Measure(a) == Measure(b)
  {
  }

  lemma {:induction false} MeasureNonNegative(r: Ring)
    requires Reachable(r)
    ensures Shape(r) && Measure(r) >= 0
  {
    ReachableShape(r);
    forall n | n in r.succ
      ensures Gaps(r)[n] >= 0
    {
      SuccFacts(r, n);
      if r.pred[n].Some? {
        PredFacts(r, n);
      }
    }
    TotalNonNegative(r.succ.Keys, Gaps(r));
  }

  /** Moving one successor, or one predecessor, nearer lowers the measure. */
  lemma {:induction false} NearerLowersMeasure(r: Ring, r': Ring, k: Id)
    requires Shape(r) && Shape(r') && r'.m == r.m && r'.succ.Keys == r.succ.Keys && k in r.succ
    requires forall n {:trigger r'.succ[n]} :: n in r.succ && n != k ==>
      r'.succ[n] == r.succ[n] && r'.pred[n] == r.pred[n]
    requires Arc(r.m, k, r'.succ[k]) + PredGap(r.m, k, r'.pred[k]) < Arc(r.m, k, r.succ[k]) + PredGap(r.m, k, r.pred[k])
    ensures Measure(r') < Measure(r)
  {
    TotalChange(r.succ.Keys, Gaps(r), Gaps(r'), k);
  }

  lemma {:induction false} AdoptMeasure(r: Ring, n: Id)
    requires Reachable(r) && Calm(r) && n in r.phase && r.phase[n].Answered?
    ensures var r' := Apply(r, Adopt(n));
            && Shape(r) && Shape(r') && r'.succ.Keys == r.succ.Keys
            && (SamePointers(r, r') || Measure(r') < Measure(r))
  {
    var r' := Apply(r, Adopt(n));
    ReachableShape(r);
    StepStaysReachable(r, Adopt(n));
    ReachableShape(r');
    PhaseFacts(r, n);
    SuccFacts(r, n);
    assert CalmAt(r, n);
    var x := r.phase[n].x;
    if x.Some? && Between(x.value, n, r.succ[n]) {
      NearerLowersMeasure(r, r', n);
    } else {
      assert r'.succ == r.succ;
    }
  }

  lemma {:induction false} NotifiedMeasure(r: Ring, p: Id, s: Id)
    requires Reachable(r) && (p, s) in r.notes && s in r.pred
    ensures var r' := Apply(r, Notified(p, s));
            && Shape(r) && Shape(r') && r'.succ.Keys == r.succ.Keys
            && (SamePointers(r, r') || Measure(r') < Measure(r))
  {
    var r' := Apply(r, Notified(p, s));
    ReachableShape(r);
    StepStaysReachable(r, Notified(p, s));
    ReachableShape(r');
    NoteFacts(r, p, s);
    if r.pred[s].Some? {
      PredFacts(r, s);
    }
    if r.pred[s].None? || Between(p, r.pred[s].value, s) {
      NearerLowersMeasure(r, r', s);
    } else {
      assert r'.pred == r.pred;
    }
  }

  /** A step other than a join or a failed call either leaves every pointer alone or lowers the measure. */
  lemma {:induction false} StepLowersMeasure(r: Ring, e: Event)
    requires Reachable(r) && Calm(r) && Internal(e)
    ensures Shape(r) && Shape(Apply(r, e)) && Apply(r, e).succ.Keys == r.succ.Keys
    ensures SamePointers(r, Apply(r, e)) || Measure(Apply(r, e)) < Measure(r)
  {
    ReachableShape(r);
    StepStaysReachable(r, e);
    ReachableShape(Apply(r, e));
    if e.Adopt? && e.n in r.phase && r.phase[e.n].Answered? {
      AdoptMeasure(r, e.n);
    } else if e.Notified? && (e.p, e.s) in r.notes && e.s in r.pred {
      NotifiedMeasure(r, e.p, e.s);
    }
  }

  /** How many steps of a run change a pointer. */
  ghost function Changes(r: Ring, es: seq<Event>): nat
    decreases |es|
  {
    if es == [] then 0
    else (if SamePointers(r, Apply(r, es[0])) then 0 else 1) + Changes(Apply(r, es[0]), es[1..])
  }

  lemma {:induction false} StepKeepsNodes(r: Ring, e: Event)
    requires Reachable(r) && Internal(e)
    ensures Reachable(Apply(r, e)) && Shape(r) && Shape(Apply(r, e)) && Apply(r, e).succ.Keys == r.succ.Keys
  {
    ReachableShape(r);
    StepStaysReachable(r, e);
    ReachableShape(Apply(r, e));
  }

  /** The nodes of an undisturbed run stay the same. */
  lemma {:induction false} RunKeepsNodes(r: Ring, es: seq<Event>)
    requires Reachable(r) && Undisturbed(es)
    ensures Reachable(Run(r, es)) && Shape(r) && Run(r, es).succ.Keys == r.succ.Keys
    decreases |es|
  {
    ReachableShape(r);
    if es != [] {
      StepKeepsNodes(r, es[0]);
      RunKeepsNodes(Apply(r, es[0]), es[1..]);
    }
  }

  /** Once joins and failed calls have stopped, a run of any length changes at most `Measure(r)` pointers. */
  lemma {:induction false} ChangesBounded(r: Ring, es: seq<Event>)
    requires Reachable(r) && Calm(r) && Undisturbed(es)
    ensures Shape(r) && Shape(Run(r, es)) && Run(r, es).succ.Keys == r.succ.Keys
    ensures Reachable(Run(r, es)) && Calm(Run(r, es))
    ensures 0 <= Measure(Run(r, es)) <= Measure(r) - Changes(r, es)
    ensures Changes(r, es) == 0 ==> SamePointers(r, Run(r, es))
    decreases |es|
  {
    MeasureNonNegative(r);
    if es != [] {
      var q := Apply(r, es[0]);
      StepLowersMeasure(r, es[0]);
      StepStaysReachable(r, es[0]);
      StepStaysCalm(r, es[0]);
      ChangesBounded(q, es[1..]);
      if SamePointers(r, q) {
        SameMeasure(r, q);
      }
    }
  }

  // ---------------------------------------------------------------- quiescence

  /** The events of one undisturbed `stabilize` of `n`. */
  function StabilizeEvents(r: Ring, n: Id): seq<Event> {
    if n in r.succ && r.succ[n] in r.pred
    then [Begin(n), ReadPredecessor(n), Adopt(n),
          Notified(n, AdoptedSuccessor(n, r.succ[n], r.pred[r.succ[n]]))]
    else []
  }

  /** One undisturbed `stabilize` of `n`. */
  function StabilizeOnce(r: Ring, n: Id): Ring {
    Run(r, StabilizeEvents(r, n))
  }

  lemma {:induction false} RunOne(r: Ring, es: seq<Event>)
    requires es != []
    ensures Run(r, es) == Run(Apply(r, es[0]), es[1..])
  {
  }

  lemma {:induction false} RunFour(r: Ring, a: Event, b: Event, c: Event, d: Event)
    ensures Run(r, [a, b, c, d]) == Apply(Apply(Apply(Apply(r, a), b), c), d)
  {
    var r1 := Apply(r, a);
    var r2 := Apply(r1, b);
    var r3 := Apply(r2, c);
    var r4 := Apply(r3, d);
    RunOne(r, [a, b, c, d]);
    RunOne(r1, [b, c, d]);
    RunOne(r2, [c, d]);
    RunOne(r3, [d]);
    assert [a, b, c, d][1..] == [b, c, d];
    assert [b, c, d][1..] == [c, d];
    assert [c, d][1..] == [d];
    assert [d][1..] == [];
    assert Run(r4, []) == r4;
  }

  lemma {:induction false} StabilizeOncePointers(r: Ring, n: Id)
    requires Reachable(r) && n in r.succ
    ensures Shape(r) && r.succ[n] in r.succ
    ensures var s := AdoptedSuccessor(n, r.succ[n], r.pred[r.succ[n]]);
            && s in r.succ
            && SamePointers(StabilizeOnce(r, n),
                            r.(succ := r.succ[n := s], pred := r.pred[s := NotifiedPredecessor(s, r.pred[s], n)]))
  {
    ReachableShape(r);
    SuccFacts(r, n);
    var t := r.succ[n];
    if r.pred[t].Some? {
      PredFacts(r, t);
    }
    var s := AdoptedSuccessor(n, t, r.pred[t]);
    RunFour(r, Begin(n), ReadPredecessor(n), Adopt(n), Notified(n, s));
  }

  /** The successor and the predecessor of `n` are its true clockwise neighbours. */
  ghost predicate TrueNeighbours(r: Ring, n: Id) {
    && n in r.succ && IsNext(r.succ.Keys, n, r.succ[n])
    && n in r.pred && r.pred[n].Some?
    && r.pred[n].value in r.succ && IsNext(r.succ.Keys, r.pred[n].value, n)
  }

  ghost predicate Ideal(r: Ring) {
    forall n {:trigger TrueNeighbours(r, n)} :: n in r.succ ==> TrueNeighbours(r, n)
  }

  ghost predicate Quiet(r: Ring, n: Id) {
    SamePointers(r, StabilizeOnce(r, n))
  }

  /** The successor of `n` names `n` as its predecessor. */
  ghost predicate Matched(r: Ring, n: Id) {
    n in r.succ && r.succ[n] in r.pred && r.pred[r.succ[n]] == Some(n)
  }

  lemma {:induction false} QuietIsMatched(r: Ring, n: Id)
    requires Reachable(r) && n in r.succ
    ensures Quiet(r, n) <==> Matched(r, n)
  {
    StabilizeOncePointers(r, n);
    var s := r.succ[n];
    var s' := AdoptedSuccessor(n, s, r.pred[s]);
    var p' := NotifiedPredecessor(s', r.pred[s'], n);
    assert r.succ[n := s'] == r.succ <==> s' == s by {
      assert r.succ[n := s'][n] == s';
    }
    assert r.pred[s' := p'] == r.pred <==> p' == r.pred[s'] by {
      assert r.pred[s' := p'][s'] == p';
    }
  }

  /** Every visited node is the successor of the start or of a visited node. */
  lemma {:induction false} VisitedFrom(m: int, succ: Pointers, p: Id, s: Id, v: Id) returns (u: Id)
    requires Reach(m, succ, p, s)
    requires v in Visited(m, succ, p, s)
    ensures u in succ && succ[u] == v
    ensures u == p || u in Visited(m, succ, p, s)
    decreases Gap(m, p, s)
  {
    if succ[p] == v {
      u := p;
    } else {
      u := VisitedFrom(m, succ, succ[p], s, v);
    }
  }

  /** A matched node whose successor is on a round walk is on it too. */
  lemma {:induction false} MatchedStepsBack(r: Ring, n: Id)
    requires Shape(r) && Walk(r, r.creator, r.creator) && Matched(r, n)
    requires r.succ[n] in OnRing(r)
    requires forall k {:trigger Matched(r, k)} :: k in r.succ ==> Matched(r, k)
    ensures n in OnRing(r)
  {
    var c := r.creator;
    SuccVisited(r.m, r.succ, c, c);
    var p := VisitedFrom(r.m, r.succ, c, c, r.succ[n]);
    assert Matched(r, p);
  }

  /** With every node matched, the creator's ring holds every node. */
  lemma {:induction false} MatchedOnRing(r: Ring, n: Id)
    requires Shape(r) && Walk(r, r.creator, r.creator) && Walk(r, n, r.creator)
    requires forall k {:trigger Matched(r, k)} :: k in r.succ ==> Matched(r, k)
    ensures n in OnRing(r)
    decreases Gap(r.m, n, r.creator)
  {
    var c := r.creator;
    SuccVisited(r.m, r.succ, c, c);
    if r.succ[n] != c {
      MatchedOnRing(r, r.succ[n]);
    }
    MatchedStepsBack(r, n);
  }

  lemma {:induction false} MatchedRingIsAll(r: Ring)
    requires Reachable(r)
    requires forall n {:trigger Matched(r, n)} :: n in r.succ ==> Matched(r, n)
    ensures Walk(r, r.creator, r.creator) && OnRing(r) == r.succ.Keys
  {
    ReachableShape(r);
    CreatorWalksRound(r);
    forall n | n in r.succ
      ensures n in OnRing(r)
    {
      CreatorFacts(r, n);
      MatchedOnRing(r, n);
    }
    forall v | v in OnRing(r)
      ensures v in r.succ
    {
      VisitedInArc(r.m, r.succ, r.creator, r.creator, v);
    }
  }

  lemma {:induction false} MatchedNode(r: Ring, n: Id)
    requires Reachable(r) && n in r.succ
    requires forall k {:trigger Matched(r, k)} :: k in r.succ ==> Matched(r, k)
    ensures TrueNeighbours(r, n)
  {
    var c := r.creator;
    ReachableShape(r);
    MatchedRingIsAll(r);
    RoundIsNext(r.m, r.succ, c, n);
    SuccVisited(r.m, r.succ, c, c);
    var u := VisitedFrom(r.m, r.succ, c, c, n);
    assert Matched(r, u);
    RoundIsNext(r.m, r.succ, c, u);
  }

  lemma {:induction false} MatchedIsIdeal(r: Ring)
    requires Reachable(r)
    requires forall n {:trigger Matched(r, n)} :: n in r.succ ==> Matched(r, n)
    ensures Ideal(r)
  {
    forall n | n in r.succ
      ensures TrueNeighbours(r, n)
    {
      MatchedNode(r, n);
    }
  }

  lemma {:induction false} IdealSame(r: Ring, q: Ring)
    requires Ideal(r) && SamePointers(r, q)
    ensures Ideal(q)
  {
    forall n | n in q.succ
      ensures TrueNeighbours(q, n)
    {
      assert TrueNeighbours(r, n);
    }
  }

  lemma {:induction false} IdealIsMatched(r: Ring, n: Id)
    requires Shape(r) && Ideal(r) && n in r.succ
    ensures Matched(r, n)
  {
    var s := r.succ[n];
    assert TrueNeighbours(r, n) && TrueNeighbours(r, s);
    var p := r.pred[s].value;
    assert !Between(p, n, s) && !Between(n, p, s);
  }

  /**
   A state in which a full `stabilize` by every node changes nothing is exactly
   a state in which all successors and predecessors are the true neighbours.
   */
  lemma {:induction false} QuietIffIdeal(r: Ring)
    requires Reachable(r)
    ensures (forall n {:trigger Quiet(r, n)} :: n in r.succ ==> Quiet(r, n)) <==> Ideal(r)
  {
    ReachableShape(r);
    forall n | n in r.succ
      ensures Quiet(r, n) <==> Matched(r, n)
      ensures Ideal(r) ==> Matched(r, n)
    {
      QuietIsMatched(r, n);
      if Ideal(r) {
        IdealIsMatched(r, n);
      }
    }
    if forall n {:trigger Matched(r, n)} :: n in r.succ ==> Matched(r, n) {
      MatchedIsIdeal(r);
    }
  }

  // ---------------------------------------------------------------- an ideal ring stays ideal

  /** On an ideal ring only joins and failed calls change pointers, whatever replies and notifications are under way. */
  lemma {:induction false} IdealIsStill(r: Ring, e: Event)
    requires Reachable(r) && Calm(r) && Ideal(r) && Internal(e)
    ensures SamePointers(r, Apply(r, e))
  {
    ReachableShape(r);
    if e.Adopt? && e.n in r.phase && r.phase[e.n].Answered? {
      PhaseFacts(r, e.n);
      assert TrueNeighbours(r, e.n) && CalmAt(r, e.n);
      assert Apply(r, e).succ == r.succ;
    } else if e.Notified? && (e.p, e.s) in r.notes && e.s in r.pred {
      NoteFacts(r, e.p, e.s);
      assert TrueNeighbours(r, e.s);
      assert Apply(r, e).pred == r.pred;
    }
  }

  lemma {:induction false} IdealStays(r: Ring, es: seq<Event>)
    requires Reachable(r) && Calm(r) && Ideal(r) && Undisturbed(es)
    ensures Reachable(Run(r, es)) && Calm(Run(r, es)) && SamePointers(r, Run(r, es)) && Ideal(Run(r, es))
    decreases |es|
  {
    if es != [] {
      var q := Apply(r, es[0]);
      IdealIsStill(r, es[0]);
      StepStaysReachable(r, es[0]);
      StepStaysCalm(r, es[0]);
      IdealSame(r, q);
      IdealStays(q, es[1..]);
    }
  }

  /** A newcomer that asks any node of an ideal ring gets its true successor. */
  lemma {:induction false} JoinFindsPlace(r: Ring, n: Id, via: Id)
    requires Reachable(r) && Ideal(r) && OnCircle(r.m, n) && n !in r.succ
    requires via in r.succ && BetweenRightIncl(n, via, r.succ[via])
    ensures var q := Apply(Apply(r, LookupAnswered(n, via)), Joined(n));
            q.succ.Keys == r.succ.Keys + {n} && IsNext(q.succ.Keys, n, q.succ[n])
  {
    assert TrueNeighbours(r, via);
    assert Run(Apply(r, LookupAnswered(n, via)), []) == Apply(r, LookupAnswered(n, via));
    JoinTakesAnswer(r, n, via, []);
    ReachableShape(r);
    SuccFacts(r, via);
  }

  // ---------------------------------------------------------------- fair runs

  /** How far a node has come with one whole `stabilize` in a stretch of a run. */
  datatype Progress = Waiting | Begun | Read | Sent(to: Id) | Done

  /**
   What the event `e` adds to the progress of `n`.  A call that is given up and
   a notification that is lost set the node back.
   */
  function Advanced(r: Ring, n: Id, p: Progress, e: Event): Progress {
    match p
    case Waiting => if e == Begin(n) then Begun else Waiting
    case Begun =>
      if e == ReadPredecessor(n) then Read else if e == GiveUp(n) then Waiting else Begun
    case Read =>
      if e == Adopt(n) && n in Apply(r, e).succ then Sent(Apply(r, e).succ[n])
      else if e == GiveUp(n) then Waiting
      else if e == Begin(n) then Begun
      else Read
    case Sent(s) =>
      if e == Notified(n, s) then Done else if e == Lost(n, s) then Waiting else p
    case Done => Done
  }

  function AdvancedBy(r: Ring, n: Id, p: Progress, es: seq<Event>): Progress
    decreases |es|
  {
    if es == [] then p else AdvancedBy(Apply(r, es[0]), n, Advanced(r, n, p, es[0]), es[1..])
  }

  /**
   A stretch of a run without joins and failed calls in which every node completes
   at least one `stabilize`, its notification included, in any interleaving.
   */
  ghost predicate Fair(r: Ring, es: seq<Event>) {
    Undisturbed(es) && forall n :: n in r.succ ==> AdvancedBy(r, n, Waiting, es) == Done
  }

  /** What the progress says about the state, as long as no pointer changes. */
  ghost predicate ProgressOk(r: Ring, n: Id, p: Progress) {
    n in r.succ && n in r.phase && r.succ[n] in r.pred &&
    var s := r.succ[n];
    match p
    case Waiting => true
    case Begun => r.phase[n] == Asking(s)
    case Read => r.phase[n] == Answered(s, r.pred[s])
    case Sent(t) => t == s && (n, s) in r.notes && AdoptedSuccessor(n, s, r.pred[s]) == s
    case Done => AdoptedSuccessor(n, s, r.pred[s]) == s && NotifiedPredecessor(s, r.pred[s], n) == r.pred[s]
  }

  /** A notification that arrives. */
  lemma {:induction false} NotifiedProgress(r: Ring, n: Id, s: Id)
    requires Reachable(r) && SamePointers(r, Apply(r, Notified(n, s))) && ProgressOk(r, n, Sent(s))
    ensures ProgressOk(Apply(r, Notified(n, s)), n, Done)
  {
    var q := Apply(r, Notified(n, s));
    assert q.pred[s] == NotifiedPredecessor(s, r.pred[s], n);
  }

  /** A reply that is used. */
  lemma {:induction false} AdoptProgress(r: Ring, n: Id)
    requires Reachable(r) && SamePointers(r, Apply(r, Adopt(n))) && ProgressOk(r, n, Read)
    ensures n in Apply(r, Adopt(n)).succ && ProgressOk(Apply(r, Adopt(n)), n, Sent(Apply(r, Adopt(n)).succ[n]))
  {
    var q := Apply(r, Adopt(n));
    assert q.succ[n] == AdoptedSuccessor(n, r.succ[n], r.pred[r.succ[n]]);
  }

  lemma {:induction false} ProgressStep(r: Ring, n: Id, p: Progress, e: Event)
    requires Reachable(r) && Internal(e) && SamePointers(r, Apply(r, e)) && ProgressOk(r, n, p)
    ensures ProgressOk(Apply(r, e), n, Advanced(r, n, p, e))
  {
    if p.Sent? && e == Notified(n, p.to) {
      NotifiedProgress(r, n, p.to);
    } else if p.Read? && e == Adopt(n) {
      AdoptProgress(r, n);
    }
  }

  lemma {:induction false} ProgressRun(r: Ring, n: Id, p: Progress, es: seq<Event>)
    requires Reachable(r) && Undisturbed(es) && Changes(r, es) == 0 && ProgressOk(r, n, p)
    ensures ProgressOk(Run(r, es), n, AdvancedBy(r, n, p, es))
    decreases |es|
  {
    if es != [] {
      ProgressStep(r, n, p, es[0]);
      StepStaysReachable(r, es[0]);
      ProgressRun(Apply(r, es[0]), n, Advanced(r, n, p, es[0]), es[1..]);
    }
  }

  /** A node that has completed a `stabilize` without changing a pointer is matched. */
  lemma {:induction false} DoneIsMatched(r: Ring, n: Id)
    requires ProgressOk(r, n, Done)
    ensures Matched(r, n)
  {
  }

  /** A fair stretch that changes no pointer starts from an ideal ring. */
  lemma {:induction false} StillIsIdeal(r: Ring, es: seq<Event>)
    requires Reachable(r) && Calm(r) && Fair(r, es) && Changes(r, es) == 0
    ensures Ideal(r)
  {
    var q := Run(r, es);
    ReachableShape(r);
    ChangesBounded(r, es);
    forall n | n in q.succ
      ensures Matched(q, n)
    {
      SuccFacts(r, n);
      ProgressRun(r, n, Waiting, es);
      DoneIsMatched(q, n);
    }
    MatchedIsIdeal(q);
    IdealSame(q, r);
  }

  /** One fair stretch after the other. */
  ghost predicate FairRun(r: Ring, parts: seq<seq<Event>>)
    decreases |parts|
  {
    parts == [] || (Fair(r, parts[0]) && FairRun(Run(r, parts[0]), parts[1..]))
  }

  function RunAll(r: Ring, parts: seq<seq<Event>>): Ring
    decreases |parts|
  {
    if parts == [] then r else RunAll(Run(r, parts[0]), parts[1..])
  }

  lemma {:induction false} IdealRunAll(r: Ring, parts: seq<seq<Event>>)
    requires Reachable(r) && Calm(r) && Ideal(r) && FairRun(r, parts)
    ensures Reachable(RunAll(r, parts)) && Ideal(RunAll(r, parts)) && SamePointers(r, RunAll(r, parts))
    decreases |parts|
  {
    if parts != [] {
      IdealStays(r, parts[0]);
      IdealRunAll(Run(r, parts[0]), parts[1..]);
    }
  }

  lemma {:induction false} FairRunStaysCalm(r: Ring, parts: seq<seq<Event>>)
    requires Reachable(r) && Calm(r) && FairRun(r, parts)
    ensures Calm(RunAll(r, parts))
    decreases |parts|
  {
    if parts != [] {
      ChangesBounded(r, parts[0]);
      FairRunStaysCalm(Run(r, parts[0]), parts[1..]);
    }
  }

  /**
   Convergence under fairness: an undisturbed run that consists of more fair
   stretches than the measure says ends in an ideal ring of the same nodes, in
   whatever way the steps of the nodes interleave.
   */
  lemma {:induction false} FairRunConverges(r: Ring, parts: seq<seq<Event>>)
    requires Reachable(r) && Calm(r) && FairRun(r, parts)
    requires Shape(r) && |parts| > Measure(r)
    ensures Reachable(RunAll(r, parts)) && Ideal(RunAll(r, parts))
    ensures RunAll(r, parts).succ.Keys == r.succ.Keys
    decreases |parts|
  {
    MeasureNonNegative(r);
    var q := Run(r, parts[0]);
    ChangesBounded(r, parts[0]);
    if Changes(r, parts[0]) == 0 {
      StillIsIdeal(r, parts[0]);
      IdealSame(r, q);
      IdealRunAll(q, parts[1..]);
    } else {
      FairRunConverges(q, parts[1..]);
    }
  }

  lemma {:induction false} ProgressCalmStep(r: Ring, n: Id, p: Progress, e: Event)
    requires Reachable(r) && Internal(e) && n in r.phase && (p == Waiting || CalmAt(r, n))
    ensures n in Apply(r, e).phase && (Advanced(r, n, p, e) == Waiting || CalmAt(Apply(r, e), n))
  {
    StepKeepsNodes(r, e);
  }

  /** A node that begins a `stabilize` waits for its current successor from then on. */
  lemma {:induction false} ProgressIsCalm(r: Ring, n: Id, p: Progress, es: seq<Event>)
    requires Reachable(r) && Undisturbed(es) && n in r.phase && (p == Waiting || CalmAt(r, n))
    ensures var q := Run(r, es);
            n in q.phase && (AdvancedBy(r, n, p, es) == Waiting || CalmAt(q, n))
    decreases |es|
  {
    if es != [] {
      StepStaysReachable(r, es[0]);
      ProgressCalmStep(r, n, p, es[0]);
      ProgressIsCalm(Apply(r, es[0]), n, Advanced(r, n, p, es[0]), es[1..]);
    }
  }

  /** After one fair stretch every node waits for its current successor, whatever calls had failed before. */
  lemma {:induction false} FairMakesCalm(r: Ring, es: seq<Event>)
    requires Reachable(r) && Fair(r, es)
    ensures var q := Run(r, es);
            Reachable(q) && Calm(q) && Shape(q) && q.succ.Keys == r.succ.Keys
  {
    var q := Run(r, es);
    RunKeepsNodes(r, es);
    ReachableShape(q);
    forall n | n in q.phase
      ensures CalmAt(q, n)
    {
      ProgressIsCalm(r, n, Waiting, es);
    }
  }

  /** So the ring recovers from failed calls: one fair stretch, and then as many as the measure says. */
  lemma {:induction false} FairRunRecovers(r: Ring, first: seq<Event>, parts: seq<seq<Event>>)
    requires Reachable(r) && Fair(r, first) && FairRun(Run(r, first), parts)
    requires Shape(Run(r, first)) && |parts| > Measure(Run(r, first))
    ensures var q := RunAll(Run(r, first), parts);
            Reachable(q) && Ideal(q) && q.succ.Keys == r.succ.Keys
  {
    FairMakesCalm(r, first);
    FairRunConverges(Run(r, first), parts);
  }

  // ---------------------------------------------------------------- rounds

  /** The events of a round: each node of `order` runs one undisturbed `stabilize`, in that order. */
  function RoundEvents(r: Ring, order: seq<Id>): seq<Event>
    decreases |order|
  {
    if order == [] then []
    else StabilizeEvents(r, order[0]) + RoundEvents(StabilizeOnce(r, order[0]), order[1..])
  }

  lemma {:induction false} AdvancedAppend(r: Ring, n: Id, p: Progress, es: seq<Event>, fs: seq<Event>)
    ensures AdvancedBy(r, n, p, es + fs) == AdvancedBy(Run(r, es), n, AdvancedBy(r, n, p, es), fs)
    decreases |es|
  {
    if es == [] {
      assert es + fs == fs;
    } else {
      assert (es + fs)[1..] == es[1..] + fs;
      AdvancedAppend(Apply(r, es[0]), n, Advanced(r, n, p, es[0]), es[1..], fs);
    }
  }

  lemma {:induction false} AdvancedFour(r: Ring, n: Id, p: Progress, a: Event, b: Event, c: Event, d: Event)
    ensures var r1, r2, r3 := Apply(r, a), Apply(Apply(r, a), b), Apply(Apply(Apply(r, a), b), c);
            AdvancedBy(r, n, p, [a, b, c, d]) ==
            Advanced(r3, n, Advanced(r2, n, Advanced(r1, n, Advanced(r, n, p, a), b), c), d)
  {
    var r1 := Apply(r, a);
    var r2 := Apply(r1, b);
    var r3 := Apply(r2, c);
    var p1 := Advanced(r, n, p, a);
    var p2 := Advanced(r1, n, p1, b);
    var p3 := Advanced(r2, n, p2, c);
    assert [a, b, c, d][1..] == [b, c, d];
    assert [b, c, d][1..] == [c, d];
    assert [c, d][1..] == [d];
    assert [d][1..] == [];
    assert AdvancedBy(r3, n, p3, [d]) == Advanced(r3, n, p3, d);
    assert AdvancedBy(r2, n, p2, [c, d]) == AdvancedBy(r3, n, p3, [d]);
    assert AdvancedBy(r1, n, p1, [b, c, d]) == AdvancedBy(r2, n, p2, [c, d]);
  }

  /** The `stabilize` of `k` completes that of `k` and leaves the progress of others alone. */
  lemma {:induction false} OnceAdvances(r: Ring, k: Id, n: Id, p: Progress)
    requires Reachable(r) && k in r.succ && (p == Waiting || p == Done)
    ensures AdvancedBy(r, n, p, StabilizeEvents(r, k)) == if n == k then Done else p
  {
    ReachableShape(r);
    SuccFacts(r, k);
    var t := r.succ[k];
    var s := AdoptedSuccessor(k, t, r.pred[t]);
    AdvancedFour(r, n, p, Begin(k), ReadPredecessor(k), Adopt(k), Notified(k, s));
  }

  lemma {:induction false} RoundAdvances(r: Ring, order: seq<Id>, n: Id, p: Progress)
    requires Reachable(r) && (p == Waiting || p == Done) && n in r.succ
    ensures AdvancedBy(r, n, p, RoundEvents(r, order)) == if n in order then Done else p
    ensures Undisturbed(RoundEvents(r, order))
    decreases |order|
  {
    if order != [] {
      var es := StabilizeEvents(r, order[0]);
      var q := StabilizeOnce(r, order[0]);
      RunKeepsNodes(r, es);
      var p1 := AdvancedBy(r, n, p, es);
      assert p1 == if n == order[0] then Done else p by {
        if order[0] in r.succ {
          OnceAdvances(r, order[0], n, p);
        }
      }
      RoundAdvances(q, order[1..], n, p1);
      AdvancedAppend(r, n, p, es, RoundEvents(q, order[1..]));
    }
  }

  /** A round in which every node stabilises, in any order, is a fair stretch. */
  lemma {:induction false} RoundIsFair(r: Ring, order: seq<Id>)
    requires Reachable(r) && Covers(order, r.succ.Keys)
    ensures Fair(r, RoundEvents(r, order))
  {
    ReachableShape(r);
    RoundAdvances(r, order, r.creator, Waiting);
    forall n | n in r.succ
      ensures AdvancedBy(r, n, Waiting, RoundEvents(r, order)) == Done
    {
      RoundAdvances(r, order, n, Waiting);
    }
  }

  /** Rounds one after the other, each in its own order. */
  function RoundParts(r: Ring, orders: seq<seq<Id>>): (parts: seq<seq<Event>>)
    ensures |parts| == |orders|
    decreases |orders|
  {
    if orders == [] then []
    else
      var es := RoundEvents(r, orders[0]);
      [es] + RoundParts(Run(r, es), orders[1..])
  }

  lemma {:induction false} RoundsAreFair(r: Ring, orders: seq<seq<Id>>)
    requires Reachable(r) && forall i :: 0 <= i < |orders| ==> Covers(orders[i], r.succ.Keys)
    ensures FairRun(r, RoundParts(r, orders))
    decreases |orders|
  {
    if orders != [] {
      assert Covers(orders[0], r.succ.Keys);
      var es := RoundEvents(r, orders[0]);
      RoundIsFair(r, orders[0]);
      RunKeepsNodes(r, es);
      RoundsAreFair(Run(r, es), orders[1..]);
      assert RoundParts(r, orders)[1..] == RoundParts(Run(r, es), orders[1..]);
    }
  }

  /** In particular more rounds than the measure says, each in any order of the nodes, make the ring ideal. */
  lemma {:induction false} RoundsConverge(r: Ring, orders: seq<seq<Id>>)
    requires Reachable(r) && Calm(r) && forall i :: 0 <= i < |orders| ==> Covers(orders[i], r.succ.Keys)
    requires Shape(r) && |orders| > Measure(r)
    ensures var q := RunAll(r, RoundParts(r, orders));
            Reachable(q) && Ideal(q) && q.succ.Keys == r.succ.Keys
  {
    RoundsAreFair(r, orders);
    FairRunConverges(r, RoundParts(r, orders));
  }

  // ---------------------------------------------------------------- one failed call

  lemma {:induction false} NeverBack(succ: Pointers, s: Id, k: nat)
    requires s in succ && k > 0 && forall u :: u in succ ==> succ[u] != s
    ensures Iter(succ, s, k) != s
  {
    var u := Iter(succ, s, k - 1);
    IterAdd(succ, s, k - 1, 1);
    assert Iter(succ, u, 1) == if u in succ then Iter(succ, succ[u], 0) else u;
  }

  /** The node that is passed over on an ideal ring is on no cycle any more. */
  lemma {:induction false} PassedOverLeaves(r: Ring, n: Id, k: nat)
    requires Reachable(r) && Ideal(r) && n in r.succ && r.succ[n] != n && k > 0
    ensures var s := r.succ[n];
            s in r.succ && r.succ[s] in r.succ &&
            var q := Apply(r, CallFailed(n, r.succ[s]));
            (forall u :: u in q.succ ==> q.succ[u] != s) && Iter(q.succ, s, k) != s
  {
    ReachableShape(r);
    SuccFacts(r, n);
    var s := r.succ[n];
    SuccFacts(r, s);
    var succ' := r.succ[n := r.succ[s]];
    assert TrueNeighbours(r, n) && TrueNeighbours(r, s);
    forall u | u in succ'
      ensures succ'[u] != s
    {
      IdealIsMatched(r, n);
      IdealIsMatched(r, u);
      assert u == n ==> Between(n, s, s);
    }
    NeverBack(succ', s, k);
  }

  /** The next undisturbed `stabilize` of the node repairs it: its new successor still names the one passed over. */
  lemma {:induction false} TimeoutHeals(r: Ring, n: Id)
    requires Reachable(r) && Ideal(r) && n in r.succ && r.succ[n] != n
    ensures r.succ[n] in r.succ && r.succ[r.succ[n]] in r.succ
    ensures SamePointers(r, StabilizeOnce(Apply(r, CallFailed(n, r.succ[r.succ[n]])), n))
  {
    ReachableShape(r);
    SuccFacts(r, n);
    var s := r.succ[n];
    SuccFacts(r, s);
    var t := r.succ[s];
    var q := Apply(r, CallFailed(n, t));
    IdealIsMatched(r, n);
    IdealIsMatched(r, s);
    assert TrueNeighbours(r, n) && TrueNeighbours(r, s);
    assert AdoptedSuccessor(n, t, r.pred[t]) == s by {
      if t != n {
        assert !Between(t, n, s) && !Between(n, s, t);
      }
    }
    RunFour(q, Begin(n), ReadPredecessor(n), Adopt(n), Notified(n, s));
    assert r.succ[n := t][n := s] == r.succ;
    assert r.pred[s := Some(n)] == r.pred;
  }

  /**
   A `stabilize` whose GetSuccessorList call fails, and in which the old successor
   `asked` still answers GetPredecessor: the node ends with the entry `t` that it
   took, or with a node that `asked` names between the two, never with `asked`
   itself again, and notifies the one that it ends with.
   */
  lemma {:induction false} FailoverIsKept(r: Ring, n: Id, t: Id)
    requires Reachable(r) && n in r.succ && t in r.succ
    ensures var asked := r.succ[n];
            && asked in r.pred
            && var q := Run(r, [Begin(n), CallFailed(n, t), ReadPredecessor(n), Adopt(n)]);
               && n in q.succ && (n, q.succ[n]) in q.notes
               && (q.succ[n] == t || (r.pred[asked] == Some(q.succ[n]) && Between(q.succ[n], n, asked)))
               && (t != asked ==> q.succ[n] != asked)
               && (r.pred[asked].None? || !Between(r.pred[asked].value, n, asked) ==> q.succ[n] == t)
  {
    ReachableShape(r);
    SuccFacts(r, n);
    RunFour(r, Begin(n), CallFailed(n, t), ReadPredecessor(n), Adopt(n));
  }
}
