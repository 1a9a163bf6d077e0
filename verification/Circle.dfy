/** A result that may be missing: a nil pointer, or a remote call that failed. */
module Optional {
  datatype Option<+T> = None | Some(value: T)
}

/**
 The identifier circle.

 Every id is a position, an integer that carries the order of its byte string
 (module Ident proves that the byte comparisons of util.go and the comparisons
 here agree).  `m` bounds the positions: they lie in [0, m).
 */
module Circle {

  type Id = int

  /** `key` lies strictly between `a` and `b` going clockwise; everything but `a` when a == b. */
  predicate Between(key: Id, a: Id, b: Id) {
    if a > b then a < key || key < b
    else if a < b then a < key && key < b
    else a != key
  }

  predicate BetweenRightIncl(key: Id, a: Id, b: Id) {
    Between(key, a, b) || key == b
  }

  /** Clockwise distance from `a` to `b`; a full turn when they are equal. */
  function Arc(m: int, a: Id, b: Id): int {
    if a < b then b - a else b - a + m
  }

  predicate OnCircle(m: int, a: Id) {
    0 <= a < m
  }

  // ---------------------------------------------------------------- rings

  /** `s` is the first member strictly clockwise of `n` (`n` itself when it is alone). */
  ghost predicate IsNext(ring: set<Id>, n: Id, s: Id) {
    s in ring && forall p :: p in ring ==> !Between(p, n, s)
  }

  /** `s` is the first member at or clockwise after `key`. */
  ghost predicate IsOwner(ring: set<Id>, key: Id, s: Id) {
    s in ring && (s == key || forall p :: p in ring ==> p != key && !Between(p, key, s))
  }

  /** `order` names every member, in any order, some perhaps more than once. */
  ghost predicate Covers(order: seq<Id>, ring: set<Id>) {
    forall n :: n in ring ==> n in order
  }

  lemma NextUnique(ring: set<Id>, n: Id, s: Id, t: Id)
    requires IsNext(ring, n, s) && IsNext(ring, n, t)
    ensures s == t
  {
  }

  lemma OwnerUnique(ring: set<Id>, key: Id, s: Id, t: Id)
    requires IsOwner(ring, key, s) && IsOwner(ring, key, t)
    ensures s == t
  {
  }

  /** A member owns exactly the keys of the arc that starts at the member before it. */
  lemma OwnerIsArc(ring: set<Id>, p: Id, s: Id, key: Id)
    requires p in ring && IsNext(ring, p, s)
    ensures IsOwner(ring, key, s) <==> BetweenRightIncl(key, p, s)
  {
  }

  /** Some element of a set. */
  ghost function Pick(s: set<Id>): (x: Id)
    requires s != {}
    ensures x in s
  {
    assert (forall y :: y !in s) ==> s == {};
    var x :| x in s;
    x
  }

  lemma {:induction false} OwnerExists(ring: set<Id>, key: Id)
    requires ring != {}
    ensures exists s :: IsOwner(ring, key, s)
    decreases |ring|
  {
    var a := Pick(ring);
    var rest := ring - {a};
    if rest == {} {
      assert ring == {a} by { assert ring <= rest + {a}; }
      assert IsOwner(ring, key, a);
    } else {
      OwnerExists(rest, key);
      var t :| IsOwner(rest, key, t);
      var s := if t != key && (a == key || Between(a, key, t)) then a else t;
      forall q | s != key && q in ring
        ensures q != key && !Between(q, key, s)
      {
        if q != a {
          assert q in rest;
        }
      }
      assert IsOwner(ring, key, s);
    }
  }

  /** The owner of a key. */
  ghost function Owner(ring: set<Id>, key: Id): (s: Id)
    requires ring != {}
    ensures IsOwner(ring, key, s)
  {
    OwnerExists(ring, key);
    var s :| IsOwner(ring, key, s);
    s
  }

  /** `list` names, in order, the members that follow `n`. */
  ghost predicate IsChain(ring: set<Id>, n: Id, list: seq<Id>) {
    forall i :: 0 <= i < |list| ==> ChainLink(ring, n, list, i)
  }

  ghost predicate ChainLink(ring: set<Id>, n: Id, list: seq<Id>, i: nat)
    requires i < |list|
  {
    IsNext(ring, if i == 0 then n else list[i - 1], list[i])
  }

  /** A member inside (n, list[i]) is one of the entries before list[i]. */
  lemma {:induction false} ChainCovers(ring: set<Id>, n: Id, list: seq<Id>, i: nat, p: Id)
    requires n in ring && IsChain(ring, n, list) && i < |list|
    requires p in ring && Between(p, n, list[i])
    ensures p in list[..i]
  {
    assert ChainLink(ring, n, list, i);
    if i > 0 && p != list[i - 1] {
      var a := list[i - 1];
      assert !Between(p, a, list[i]) && !Between(n, a, list[i]);
      if a != n {
        ChainCovers(ring, n, list, i - 1, p);
      }
    }
  }
}
