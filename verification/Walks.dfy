/**
 Reachability along successor pointers.

 `Reach(p, s)`: following successors from `p` arrives at `s` after at least one
 hop, and every hop lands inside the arc (p, s], so the walk never overshoots.
 `Reach(c, c)` is a walk exactly once round the circle.
 */
module Walks {
  import opened Circle

  type Pointers = map<Id, Id>

  predicate Reach(m: int, succ: Pointers, p: Id, s: Id)
    decreases Gap(m, p, s)
  {
    && p in succ && OnCircle(m, p) && OnCircle(m, s)
    && (succ[p] == s || (Between(succ[p], p, s) && Reach(m, succ, succ[p], s)))
  }

  /** The termination measure of a walk. */
  function Gap(m: int, p: Id, s: Id): (g: nat) {
    if OnCircle(m, p) && OnCircle(m, s) then Arc(m, p, s) else 0
  }

  /** The number of hops of the walk. */
  function Hops(m: int, succ: Pointers, p: Id, s: Id): (h: nat)
    requires Reach(m, succ, p, s)
    ensures h > 0
    decreases Gap(m, p, s)
  {
    if succ[p] == s then 1 else 1 + Hops(m, succ, succ[p], s)
  }

  /** The node `k` hops after `n`. */
  function Iter(succ: Pointers, n: Id, k: nat): Id
    decreases k
  {
    if k == 0 || n !in succ then n else Iter(succ, succ[n], k - 1)
  }

  lemma {:induction false} ReachTrans(m: int, succ: Pointers, p: Id, q: Id, s: Id)
    requires Reach(m, succ, p, q) && Between(q, p, s) && Reach(m, succ, q, s)
    ensures Reach(m, succ, p, s)
    decreases Gap(m, p, q)
  {
    if succ[p] != q {
      ReachTrans(m, succ, succ[p], q, s);
    }
  }

  /** A walk only depends on the pointers of the nodes it leaves from. */
  lemma {:induction false} ReachFrame(m: int, succ: Pointers, succ': Pointers, p: Id, s: Id)
    requires p in succ && p in succ' && succ'[p] == succ[p]
    requires forall v {:trigger Between(v, p, s)} ::
      v in succ && Between(v, p, s) ==> v in succ' && succ'[v] == succ[v]
    requires Reach(m, succ, p, s)
    ensures Reach(m, succ', p, s)
    decreases Gap(m, p, s)
  {
    if succ[p] != s {
      forall v | v in succ && Between(v, succ[p], s)
        ensures v in succ' && succ'[v] == succ[v]
      {
        assert Between(v, p, s);
      }
      ReachFrame(m, succ, succ', succ[p], s);
    }
  }

  /**
   Replacing the successor of `n` by a node between it and its old successor,
   one that still reaches the old successor, keeps every walk.
   */
  lemma {:induction false} AdoptKeepsReach(m: int, succ: Pointers, n: Id, x: Id, p: Id, q: Id)
    requires n in succ && Between(x, n, succ[n]) && Reach(m, succ, x, succ[n])
    requires Reach(m, succ, p, q)
    ensures Reach(m, succ[n := x], p, q)
    decreases Gap(m, p, q)
  {
    var succ' := succ[n := x];
    var s := succ[n];
    if p != n {
      if succ[p] != q {
        AdoptKeepsReach(m, succ, n, x, succ[p], q);
      }
    } else {
      ReachFrame(m, succ, succ', x, s);
      if s != q {
        AdoptKeepsReach(m, succ, n, x, s, q);
        ReachTrans(m, succ', x, s, q);
      }
    }
  }

  /**
   Replacing the successor of `n` by any node that does not lie beyond `c` and
   itself reaches `c` keeps every walk to `c`.
   */
  lemma {:induction false} RedirectKeepsReach(m: int, succ: Pointers, n: Id, t: Id, c: Id, p: Id)
    requires n in succ && BetweenRightIncl(t, n, c) && Reach(m, succ, t, c)
    requires Reach(m, succ, p, c)
    ensures Reach(m, succ[n := t], p, c)
    decreases Gap(m, p, c)
  {
    if p == n {
      if t != c {
        ReachFrame(m, succ, succ[n := t], t, c);
      }
    } else if succ[p] != c {
      RedirectKeepsReach(m, succ, n, t, c, succ[p]);
    }
  }

  // ---------------------------------------------------------------- orbits

  lemma {:induction false} IterAdd(succ: Pointers, n: Id, i: nat, j: nat)
    ensures Iter(succ, n, i + j) == Iter(succ, Iter(succ, n, i), j)
    decreases i
  {
    if i > 0 && n in succ {
      IterAdd(succ, succ[n], i - 1, j);
    }
  }

  lemma {:induction false} IterPeriod(succ: Pointers, n: Id, k: nat, t: nat)
    requires Iter(succ, n, k) == n
    ensures Iter(succ, n, t * k) == n
    decreases t
  {
    if t > 0 {
      IterPeriod(succ, n, k, t - 1);
      assert t * k == (t - 1) * k + k;
      IterAdd(succ, n, (t - 1) * k, k);
    }
  }

  lemma {:induction false} HopsArrive(m: int, succ: Pointers, p: Id, s: Id)
    requires Reach(m, succ, p, s)
    ensures Iter(succ, p, Hops(m, succ, p, s)) == s
    decreases Gap(m, p, s)
  {
    if succ[p] != s {
      HopsArrive(m, succ, succ[p], s);
    } else {
      assert Iter(succ, s, 0) == s;
    }
  }

  /** Each hop of a walk moves strictly clockwise and stays inside the arc to its end. */
  lemma {:induction false} HopsClockwise(m: int, succ: Pointers, p: Id, s: Id, i: nat)
    requires Reach(m, succ, p, s)
    requires 0 < i < Hops(m, succ, p, s)
    ensures Between(Iter(succ, p, i), p, s)
    ensures Between(Iter(succ, p, i), p, Iter(succ, p, i + 1))
    decreases Gap(m, p, s)
  {
    var q := succ[p];
    if i == 1 {
      assert Iter(succ, p, 1) == Iter(succ, q, 0) == q;
      assert Iter(succ, p, 2) == Iter(succ, q, 1) == Iter(succ, succ[q], 0) == succ[q];
    } else {
      HopsClockwise(m, succ, q, s, i - 1);
      if i < Hops(m, succ, q, s) {
        HopsClockwise(m, succ, q, s, i);
      } else {
        HopsArrive(m, succ, q, s);
      }
    }
  }

  /** On a cycle of length `l` every node of the orbit is met within the first turn. */
  lemma {:induction false} OrbitIndex(succ: Pointers, c: Id, l: nat, d: nat) returns (i: nat)
    requires l > 0 && Iter(succ, c, l) == c
    ensures i < l && Iter(succ, c, i) == Iter(succ, c, d)
    decreases d
  {
    if d < l {
      i := d;
    } else {
      IterAdd(succ, c, l, d - l);
      i := OrbitIndex(succ, c, l, d - l);
    }
  }

  /** Every node that lies on some cycle lies on the cycle of `c`, when all nodes walk to `c`. */
  lemma {:induction false} OneCycle(m: int, succ: Pointers, c: Id, n: Id, k: nat)
    requires Reach(m, succ, c, c) && Reach(m, succ, n, c)
    requires k > 0 && Iter(succ, n, k) == n
    ensures exists i :: 0 <= i < Hops(m, succ, c, c) && Iter(succ, c, i) == n
  {
    var h := Hops(m, succ, n, c);
    HopsArrive(m, succ, n, c);
    HopsArrive(m, succ, c, c);
    IterPeriod(succ, n, k, h);
    var d := h * k - h;
    assert d >= 0 by { assert h * (k - 1) >= 0; }
    IterAdd(succ, n, h, d);
    var i := OrbitIndex(succ, c, Hops(m, succ, c, c), d);
  }

  // ---------------------------------------------------------------- the nodes of a walk

  /** The nodes visited by the walk, its start excluded and its end included. */
  function Visited(m: int, succ: Pointers, p: Id, s: Id): set<Id>
    requires Reach(m, succ, p, s)
    decreases Gap(m, p, s)
  {
    if succ[p] == s then {s} else {succ[p]} + Visited(m, succ, succ[p], s)
  }

  lemma {:induction false} VisitedInArc(m: int, succ: Pointers, p: Id, s: Id, v: Id)
    requires Reach(m, succ, p, s)
    requires v in Visited(m, succ, p, s)
    ensures BetweenRightIncl(v, p, s)
    ensures v == s || (v in succ && succ[v] in Visited(m, succ, p, s))
    decreases Gap(m, p, s)
  {
    if succ[p] != s {
      if v in Visited(m, succ, succ[p], s) {
        VisitedInArc(m, succ, succ[p], s, v);
      } else {
        SuccVisited(m, succ, succ[p], s);
      }
    }
  }

  lemma {:induction false} SuccVisited(m: int, succ: Pointers, p: Id, s: Id)
    requires Reach(m, succ, p, s)
    ensures succ[p] in Visited(m, succ, p, s) && s in Visited(m, succ, p, s)
    decreases Gap(m, p, s)
  {
    if succ[p] != s {
      SuccVisited(m, succ, succ[p], s);
    }
  }

  /** No visited node lies strictly between a node of the walk and its successor. */
  lemma {:induction false} NoSkip(m: int, succ: Pointers, p: Id, s: Id, v: Id, w: Id)
    requires Reach(m, succ, p, s)
    requires v == p || (v in Visited(m, succ, p, s) && v != s)
    requires w in Visited(m, succ, p, s)
    ensures v in succ && !Between(w, v, succ[v])
    decreases Gap(m, p, s)
  {
    VisitedInArc(m, succ, p, s, w);
    if succ[p] != s {
      var q := succ[p];
      if w in Visited(m, succ, q, s) {
        VisitedInArc(m, succ, q, s, w);
      }
      if v != p {
        SuccVisited(m, succ, q, s);
        NoSkip(m, succ, q, s, v, if w in Visited(m, succ, q, s) then w else s);
        if v != q {
          VisitedInArc(m, succ, q, s, v);
        }
        VisitedInArc(m, succ, p, s, v);
        VisitedInArc(m, succ, q, s, succ[v]);
      }
    }
  }

  /** On a walk once round the circle every successor is the next visited node. */
  lemma {:induction false} RoundIsNext(m: int, succ: Pointers, c: Id, v: Id)
    requires Reach(m, succ, c, c)
    requires v in Visited(m, succ, c, c)
    ensures v in succ && IsNext(Visited(m, succ, c, c), v, succ[v])
  {
    SuccVisited(m, succ, c, c);
    VisitedInArc(m, succ, c, c, v);
    forall w | w in Visited(m, succ, c, c)
      ensures !Between(w, v, succ[v])
    {
      NoSkip(m, succ, c, c, v, w);
    }
  }
}
