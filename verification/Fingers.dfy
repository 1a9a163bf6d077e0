/**
 Finger ids (finger.go).

 `FingerMath` drops leading zero bytes, so a finger id may be shorter than the
 ids of the nodes, and the byte comparisons then no longer follow the numbers.
 */
module Fingers {
  import opened Optional
  import opened Ident
  import Circle
  import Routing

  function Pow2(n: nat): (p: nat)
    ensures p >= 1
  {
    if n == 0 then 1 else 2 * Pow2(n - 1)
  }

  /** (n + 2^i) mod 2^m as the shortest big-endian string. */
  function FingerMath(n: Bytes, i: nat, m: nat): Bytes {
    MinBytes((Value(n) + Pow2(i)) % Pow2(m))
  }

  /** The laws of powers of two. */
  lemma {:induction false} Pow2Laws(i: nat, j: nat)
    ensures Pow2(0) == 1 && Pow2(1) == 2
    ensures Pow2(i + j) == Pow2(i) * Pow2(j)
  {
    assert Pow2(1) == 2 * Pow2(0);
    if i > 0 {
      Pow2Laws(i - 1, j);
      assert Pow2(i + j) == 2 * Pow2(i - 1 + j) == 2 * (Pow2(i - 1) * Pow2(j));
    }
  }

  /** The i-th finger id of an id of `w` bytes is the number 2^i further on the ring of 256^w numbers. */
  lemma {:induction false} FingerIsAhead(n: Bytes, i: nat)
    requires i < 8 * |n|
    ensures var id := FingerMath(n, i, 8 * |n|);
            && |id| <= |n| && Value(id) < Pow256(|n|)
            && Clockwise(Pow256(|n|), Value(n), Value(id)) == Pow2(i)
  {
    Pow2Bytes(|n|);
    ValueBound(n);
    Pow2Less(i, 8 * |n|);
    GoesAhead(Value(n), Pow2(i), Pow256(|n|));
    var v := (Value(n) + Pow2(i)) % Pow256(|n|);
    MinBytesValue(v);
    MinBytesWidth(v, |n|);
  }

  lemma {:induction false} GoesAhead(a: int, d: int, m: int)
    requires 0 <= a < m && 0 < d < m
    ensures 0 <= (a + d) % m < m && Clockwise(m, a, (a + d) % m) == d
  {
    ModOnce(a + d, m);
  }

  lemma {:induction false} ModOnce(x: int, m: int)
    requires 0 <= x < m + m
    ensures x % m == if x < m then x else x - m
  {
    var q := x / m;
    assert x == q * m + x % m;
    assert 0 <= q < 2;
    assert q == 1 ==> q * m == m;
  }

  lemma {:induction false} Pow2Less(i: nat, j: nat)
    requires i < j
    ensures Pow2(i) < Pow2(j)
    decreases j
  {
    if i < j - 1 {
      Pow2Less(i, j - 1);
    }
  }

  lemma {:induction false} Pow2Bytes(w: nat)
    ensures Pow2(8 * w) == Pow256(w)
  {
    if w > 0 {
      Pow2Bytes(w - 1);
      Pow2Eight(8 * (w - 1));
    }
  }

  lemma {:induction false} Pow2Eight(k: nat)
    ensures Pow2(k + 8) == 256 * Pow2(k)
  {
    assert Pow2(k + 4) == 16 * Pow2(k) by {
      assert Pow2(k + 2) == 4 * Pow2(k);
      assert Pow2(k + 4) == 4 * Pow2(k + 2);
    }
    assert Pow2(k + 6) == 4 * Pow2(k + 4);
    assert Pow2(k + 8) == 4 * Pow2(k + 6);
  }

  /** The shortest string of a number below 256^w has at most `w` bytes, and all `w` exactly from 256^(w-1) on. */
  lemma {:induction false} MinBytesWidth(v: nat, w: nat)
    requires w >= 1 && v < Pow256(w)
    ensures |MinBytes(v)| <= w
    ensures |MinBytes(v)| == w <==> v >= Pow256(w - 1)
  {
    MinBytesValue(v);
    var l := |MinBytes(v)|;
    if v > 0 {
      if l > w {
        Pow256Mono(w, l - 1);
      } else if l < w {
        Pow256Mono(l, w - 1);
      }
    }
  }

  // ---------------------------------------------------------------- the two readings of "first at or after"

  ghost predicate Width(ring: set<Bytes>, w: nat) {
    forall p :: p in ring ==> |p| == w
  }

  /** First member at or after `id` in the byte order, going round. */
  ghost predicate ByteOwner(ring: set<Bytes>, id: Bytes, s: Bytes) {
    s in ring && (s == id || forall p :: p in ring ==> p != id && !Between(p, id, s))
  }

  /** First member at or after the number `v`, modulo 256^w. */
  ghost predicate NumericOwner(ring: set<Bytes>, w: nat, v: nat, s: Bytes) {
    s in ring && forall p :: p in ring ==> Clockwise(Pow256(w), v, Value(s)) <= Clockwise(Pow256(w), v, Value(p))
  }

  /** In the numeric reading a ring of ids of one width has at most one owner. */
  lemma {:induction false} NumericOwnerUnique(ring: set<Bytes>, w: nat, v: nat, s: Bytes, t: Bytes)
    requires Width(ring, w) && v < Pow256(w)
    requires NumericOwner(ring, w, v, s) && NumericOwner(ring, w, v, t)
    ensures s == t
  {
    ValueBound(s);
    ValueBound(t);
    CompareIsNumeric(s, t);
  }

  /** A full-width id: the byte order is the numeric order. */
  lemma {:induction false} FullWidthPair(w: nat, id: Bytes, s: Bytes, p: Bytes)
    requires |id| == w && |s| == w && |p| == w && s != id
    ensures (p != id && !Between(p, id, s)) <==>
            Clockwise(Pow256(w), Value(id), Value(s)) <= Clockwise(Pow256(w), Value(id), Value(p))
            && Value(p) != Value(id)
  {
    BetweenIsClockwise(p, id, s);
    CompareIsNumeric(p, id);
    CompareIsNumeric(s, id);
    ValueBound(p);
    ValueBound(s);
    ValueBound(id);
  }

  lemma {:induction false} FullWidthOwner(ring: set<Bytes>, w: nat, id: Bytes, s: Bytes)
    requires Width(ring, w) && |id| == w
    ensures ByteOwner(ring, id, s) <==> NumericOwner(ring, w, Value(id), s)
  {
    ValueBound(id);
    if s in ring && s != id {
      forall p | p in ring
        ensures (p != id && !Between(p, id, s)) <==>
                Clockwise(Pow256(w), Value(id), Value(s)) <= Clockwise(Pow256(w), Value(id), Value(p))
                && Value(p) != Value(id)
      {
        FullWidthPair(w, id, s, p);
      }
      CompareIsNumeric(s, id);
      ValueBound(s);
    } else if s in ring {
    }
  }

  /** The empty id stands for zero, and both readings look for the smallest member. */
  lemma {:induction false} ZeroOwner(ring: set<Bytes>, w: nat, s: Bytes)
    requires Width(ring, w) && w >= 1
    ensures ByteOwner(ring, [], s) <==> NumericOwner(ring, w, 0, s)
  {
    if s in ring {
      forall p | p in ring
        ensures (p != [] && !Between(p, [], s)) <==>
                Clockwise(Pow256(w), 0, Value(s)) <= Clockwise(Pow256(w), 0, Value(p))
      {
        ValueBound(s);
        ValueBound(p);
        CompareIsNumeric(s, p);
      }
    }
  }

  /** Both readings agree on every ring of `w`-byte ids that `n` is a member of. */
  ghost predicate ReadingsAgree(w: nat, n: Bytes, v: nat) {
    forall ring: set<Bytes>, s: Bytes {:trigger ByteOwner(ring, MinBytes(v), s)} ::
      Width(ring, w) && n in ring ==> (ByteOwner(ring, MinBytes(v), s) <==> NumericOwner(ring, w, v, s))
  }

  /** `w` bytes 255. */
  function Ones(w: nat): (b: Bytes)
    ensures |b| == w
  {
    seq(w, i => 255)
  }

  lemma {:induction false} ShortIdBeforeOnes(id: Bytes, w: nat)
    requires |id| < w
    ensures Compare(id, Ones(w)) == -1
  {
    if id != [] {
      assert Ones(w)[1..] == Ones(w - 1);
      ShortIdBeforeOnes(id[1..], w - 1);
    }
  }

  lemma {:induction false} MinBytesHead(v: nat)
    requires v > 0
    ensures MinBytes(v) != [] && MinBytes(v)[0] > 0
  {
    if v >= 256 {
      MinBytesHead(v / 256);
    } else {
      assert MinBytes(v / 256) == [];
    }
  }

  /** A short non-zero id misleads: with v itself and the greatest id on the ring, the byte order passes over v. */
  lemma {:induction false} ShortIdMisleads(w: nat, n: Bytes, v: nat)
    requires 0 < v && |MinBytes(v)| < w && |n| == w
    ensures var a := Zeros(w - |MinBytes(v)|) + MinBytes(v);
            && |a| == w && Value(a) == v && a != Ones(w)
            && NumericOwner({n, a, Ones(w)}, w, v, a)
            && !ByteOwner({n, a, Ones(w)}, MinBytes(v), a)
  {
    var id := MinBytes(v);
    var a: Bytes := Zeros(w - |id|) + id;
    var b := Ones(w);
    PrependZeros(w - |id|, id);
    MinBytesValue(v);
    MinBytesHead(v);
    assert a[0] == 0 && b[0] == 255;
    ValueBound(a);
    ShortIdBeforeOnes(id, w);
    assert Compare(id, a) == 1;
    assert Compare(a, b) == -1;
    BetweenIsPosition(w, b, id, a);
    CompareIsPosition(w, id, a);
    CompareIsPosition(w, id, b);
    CompareIsPosition(w, a, b);
    assert b in {n, a, b} && Between(b, id, a);
    forall p | p in {n, a, b}
      ensures Clockwise(Pow256(w), v, Value(a)) <= Clockwise(Pow256(w), v, Value(p))
    {
      ValueBound(p);
    }
  }

  /**
   Looking a finger id up by bytes finds the first node at or after its number
   on every ring exactly when the number is zero or fills all `w` bytes.  For
   ids of one byte that is always.
   */
  lemma {:induction false} FingerReadingIff(w: nat, n: Bytes, v: nat)
    requires w >= 1 && v < Pow256(w) && |n| == w
    ensures ReadingsAgree(w, n, v) <==> (v == 0 || v >= Pow256(w - 1))
    ensures w == 1 ==> ReadingsAgree(w, n, v)
  {
    MinBytesWidth(v, w);
    MinBytesValue(v);
    forall ring: set<Bytes>, s: Bytes | Width(ring, w) && (v == 0 || v >= Pow256(w - 1))
      ensures ByteOwner(ring, MinBytes(v), s) <==> NumericOwner(ring, w, v, s)
    {
      if v == 0 {
        ZeroOwner(ring, w, s);
      } else {
        FullWidthOwner(ring, w, MinBytes(v), s);
      }
    }
    if 0 < v < Pow256(w - 1) {
      ShortIdMisleads(w, n, v);
      var a := Zeros(w - |MinBytes(v)|) + MinBytes(v);
      assert Width({n, a, Ones(w)}, w);
      assert !ByteOwner({n, a, Ones(w)}, MinBytes(v), a);
    }
  }

  // ---------------------------------------------------------------- fixFinger on a stable ring

  ghost function Positions(w: nat, ring: set<Bytes>): set<Circle.Id>
    requires Width(ring, w)
  {
    set b | b in ring :: Pos(w, b)
  }

  /** The owner on the circle of positions is the owner in the byte order. */
  lemma {:induction false} PositionOwner(w: nat, ring: set<Bytes>, id: Bytes, s: Bytes)
    requires Width(ring, w) && |id| <= w && s in ring
    requires Circle.IsOwner(Positions(w, ring), Pos(w, id), Pos(w, s))
    ensures ByteOwner(ring, id, s)
  {
    CompareIsPosition(w, s, id);
    if s != id {
      forall p | p in ring
        ensures p != id && !Between(p, id, s)
      {
        assert Pos(w, p) in Positions(w, ring);
        CompareIsPosition(w, p, id);
        BetweenIsPosition(w, p, id, s);
      }
    }
  }

  /** On a stable ring the lookup of a finger id, short or not, finds its owner in the byte order. */
  lemma {:induction false} FingerLookup(
    net: Routing.Net, w: nat, ring: set<Bytes>, n: Bytes, id: Bytes, budget: nat, dead: Circle.Id)
    returns (s: Bytes)
    requires Width(ring, w) && n in ring && net.Keys == Positions(w, ring) && |id| <= w
    requires Routing.ValidNet(net, |id|)
    requires Routing.StableRing(net) && Routing.Progressive(net, dead) && budget >= |net|
    ensures s in ring && Pos(w, n) in net && ByteOwner(ring, id, s)
    ensures Routing.FindSuccessor(net, Pos(w, n), Pos(w, id), |id|, budget) == Some(Pos(w, s))
  {
    var start, key := Pos(w, n), Pos(w, id);
    assert start in Positions(w, ring);
    Routing.SubsetSmaller(Routing.Ahead(net, start, key), net.Keys);
    Routing.LookupFindsOwner(net, start, key, |id|, budget, dead);
    var o := Circle.Owner(net.Keys, key);
    s :| s in ring && Pos(w, s) == o;
    PositionOwner(w, ring, id, s);
  }

  /**
   On a stable ring fixFinger(i) finds the first node at or after
   (n + 2^i) mod 2^m whenever the finger id is empty or fills all bytes.
   */
  lemma {:induction false} FixFingerFindsNode(
    net: Routing.Net, w: nat, ring: set<Bytes>, n: Bytes, i: nat, budget: nat, dead: Circle.Id)
    returns (s: Bytes)
    requires w >= 1 && Width(ring, w) && n in ring && net.Keys == Positions(w, ring)
    requires Routing.ValidNet(net, |FingerMath(n, i, 8 * w)|)
    requires Routing.StableRing(net) && Routing.Progressive(net, dead) && budget >= |net|
    requires var id := FingerMath(n, i, 8 * w); id == [] || |id| == w
    ensures var id := FingerMath(n, i, 8 * w);
            && |id| <= w && s in ring && |s| == w && Pos(w, n) in net
            && Routing.FindSuccessor(net, Pos(w, n), Pos(w, id), |id|, budget) == Some(Pos(w, s))
            && NumericOwner(ring, w, (Value(n) + Pow2(i)) % Pow256(w), s)
  {
    var v := (Value(n) + Pow2(i)) % Pow256(w);
    Pow2Bytes(w);
    var id := FingerMath(n, i, 8 * w);
    assert id == MinBytes(v);
    MinBytesWidth(v, w);
    s := FingerLookup(net, w, ring, n, id, budget, dead);
    FingerReadingIff(w, n, v);
  }

  /** The ring on which a short finger id misleads. */
  function Misleading(w: nat, n: Bytes, id: Bytes): set<Bytes>
    requires |id| <= w
  {
    {n, Zeros(w - |id|) + id, Ones(w)}
  }

  lemma {:induction false} ShortLookupMisses(w: nat, n: Bytes, v: nat, s: Bytes)
    requires 0 < v && |MinBytes(v)| < w && |n| == w
    requires ByteOwner(Misleading(w, n, MinBytes(v)), MinBytes(v), s)
    ensures !NumericOwner(Misleading(w, n, MinBytes(v)), w, v, s)
  {
    var ring := Misleading(w, n, MinBytes(v));
    var a := Zeros(w - |MinBytes(v)|) + MinBytes(v);
    ShortIdMisleads(w, n, v);
    ValueBound(a);
    if NumericOwner(ring, w, v, s) {
      NumericOwnerUnique(ring, w, v, s, a);
    }
  }

  /**
   And it fails for every other finger id: on any stable ring of the node itself,
   the node with the number (n + 2^i) mod 2^m and the node with the greatest id,
   fixFinger(i) stores a node that is not the first at or after that number.
   */
  lemma {:induction false} FixFingerMisses(
    net: Routing.Net, w: nat, n: Bytes, i: nat, id: Bytes, budget: nat, dead: Circle.Id)
    returns (s: Bytes)
    requires |n| == w && id == FingerMath(n, i, 8 * w) && 0 < |id| < w
    requires Width(Misleading(w, n, id), w) && net.Keys == Positions(w, Misleading(w, n, id))
    requires Routing.ValidNet(net, |id|) && Routing.StableRing(net) && Routing.Progressive(net, dead)
    requires budget >= |net|
    ensures s in Misleading(w, n, id) && |s| == w && Pos(w, n) in net
    ensures Routing.FindSuccessor(net, Pos(w, n), Pos(w, id), |id|, budget) == Some(Pos(w, s))
    ensures !NumericOwner(Misleading(w, n, id), w, (Value(n) + Pow2(i)) % Pow256(w), s)
  {
    var v := (Value(n) + Pow2(i)) % Pow256(w);
    Pow2Bytes(w);
    assert id == MinBytes(v);
    s := FingerLookup(net, w, Misleading(w, n, id), n, id, budget, dead);
    ShortLookupMisses(w, n, v, s);
  }
}
