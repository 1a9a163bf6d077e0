/**
 Identifiers as byte strings (util.go).

 The code compares ids as byte strings.  `Value` reads a string as a big-endian
 number; for strings of one width the byte test `Between` is the arc test on
 the ring of integers modulo 256^width.  `Pos` places every string of at most
 `w` bytes, short ones included, on the circle of module Circle.
 */
module Ident {
  import Circle

  type byte = x: int | 0 <= x < 256
  type Bytes = seq<byte>

  /** Lexicographic comparison: -1, 0 or 1; a proper prefix comes first. */
  function Compare(a: Bytes, b: Bytes): int {
    if a == [] && b == [] then 0
    else if a == [] then -1
    else if b == [] then 1
    else if a[0] < b[0] then -1
    else if a[0] > b[0] then 1
    else Compare(a[1..], b[1..])
  }

  predicate Between(key: Bytes, a: Bytes, b: Bytes) {
    match Compare(a, b)
    case 1 => Compare(a, key) == -1 || Compare(b, key) > 0
    case -1 => Compare(a, key) == -1 && Compare(b, key) > 0
    case _ => Compare(a, key) != 0
  }

  predicate BetweenRightIncl(key: Bytes, a: Bytes, b: Bytes) {
    Between(key, a, b) || key == b
  }

  function Sign(x: int): int {
    if x < 0 then -1 else if x > 0 then 1 else 0
  }

  // ---------------------------------------------------------------- big-endian numbers

  function Pow256(n: nat): (p: int)
    ensures p >= 1
  {
    if n == 0 then 1 else 256 * Pow256(n - 1)
  }

  function Value(b: Bytes): nat {
    if b == [] then 0 else b[0] * Pow256(|b| - 1) + Value(b[1..])
  }

  lemma {:induction false} ValueBound(b: Bytes)
    ensures Value(b) < Pow256(|b|)
  {
    if b != [] {
      ValueBound(b[1..]);
      LeadingDigit(Pow256(|b| - 1), b[0], 256, Value(b[1..]), 0);
    }
  }

  lemma {:induction false} LeadingDigit(p: int, x: int, y: int, u: int, v: int)
    requires 0 <= u < p && 0 <= v < p && x < y
    ensures x * p + u < y * p + v
  {
    assert (x + 1) * p <= y * p;
  }

  /** On strings of one width the byte order is the numeric order. */
  lemma {:induction false} CompareIsNumeric(a: Bytes, b: Bytes)
    requires |a| == |b|
    ensures Compare(a, b) == Sign(Value(a) - Value(b))
    ensures Value(a) == Value(b) ==> a == b
  {
    if a != [] {
      var p := Pow256(|a| - 1);
      ValueBound(a[1..]);
      ValueBound(b[1..]);
      if a[0] < b[0] {
        LeadingDigit(p, a[0], b[0], Value(a[1..]), Value(b[1..]));
      } else if b[0] < a[0] {
        LeadingDigit(p, b[0], a[0], Value(b[1..]), Value(a[1..]));
      } else {
        CompareIsNumeric(a[1..], b[1..]);
        assert a == [a[0]] + a[1..] && b == [b[0]] + b[1..];
      }
    }
  }

  /** Clockwise distance from `a` to `b` on the ring of `m` numbers, a residue modulo `m`. */
  function Clockwise(m: int, a: int, b: int): (d: int)
    ensures 0 <= a < m && 0 <= b < m ==> 0 <= d < m && d == (b - a) % m
  {
    if a <= b then b - a else b - a + m
  }

  /**
   For ids of one width, `Between` holds exactly when the distance from `a` to
   the key is positive and smaller than the distance from `a` to `b`, a full
   turn when a == b.
   */
  lemma {:induction false} BetweenIsClockwise(key: Bytes, a: Bytes, b: Bytes)
    requires |key| == |a| == |b|
    ensures var m := Pow256(|a|);
            Between(key, a, b) <==>
            0 < Clockwise(m, Value(a), Value(key)) < (if a == b then m else Clockwise(m, Value(a), Value(b)))
  {
    ValueBound(a);
    ValueBound(b);
    ValueBound(key);
    CompareIsNumeric(a, b);
    CompareIsNumeric(a, key);
    CompareIsNumeric(b, key);
  }

  // ---------------------------------------------------------------- positions

  function Pow257(n: nat): (p: int)
    ensures p >= 1
  {
    if n == 0 then 1 else 257 * Pow257(n - 1)
  }

  /** The position of a string of at most `w` bytes; the empty string comes first. */
  function Pos(w: nat, b: Bytes): (p: Circle.Id)
    requires |b| <= w
  {
    if b == [] then 0 else (b[0] + 1) * Pow257(w - 1) + Pos(w - 1, b[1..])
  }

  lemma {:induction false} PosBound(w: nat, b: Bytes)
    requires |b| <= w
    ensures Circle.OnCircle(Pow257(w), Pos(w, b))
  {
    if b != [] {
      PosBound(w - 1, b[1..]);
      LeadingDigit(Pow257(w - 1), (b[0] as int) + 1, 257, Pos(w - 1, b[1..]), 0);
    }
  }

  /** Positions carry the byte order, for strings of any widths up to `w`. */
  lemma {:induction false} CompareIsPosition(w: nat, a: Bytes, b: Bytes)
    requires |a| <= w && |b| <= w
    ensures Compare(a, b) == Sign(Pos(w, a) - Pos(w, b))
    ensures Pos(w, a) == Pos(w, b) ==> a == b
  {
    if a == [] || b == [] {
      if a != [] {
        PosBound(w - 1, a[1..]);
        LeadingDigit(Pow257(w - 1), 0, (a[0] as int) + 1, 0, Pos(w - 1, a[1..]));
      }
      if b != [] {
        PosBound(w - 1, b[1..]);
        LeadingDigit(Pow257(w - 1), 0, (b[0] as int) + 1, 0, Pos(w - 1, b[1..]));
      }
    } else {
      var p := Pow257(w - 1);
      PosBound(w - 1, a[1..]);
      PosBound(w - 1, b[1..]);
      if a[0] < b[0] {
        LeadingDigit(p, (a[0] as int) + 1, (b[0] as int) + 1, Pos(w - 1, a[1..]), Pos(w - 1, b[1..]));
      } else if b[0] < a[0] {
        LeadingDigit(p, (b[0] as int) + 1, (a[0] as int) + 1, Pos(w - 1, b[1..]), Pos(w - 1, a[1..]));
      } else {
        CompareIsPosition(w - 1, a[1..], b[1..]);
        assert a == [a[0]] + a[1..] && b == [b[0]] + b[1..];
      }
    }
  }

  /** The byte tests are the tests of module Circle on positions. */
  lemma {:induction false} BetweenIsPosition(w: nat, key: Bytes, a: Bytes, b: Bytes)
    requires |key| <= w && |a| <= w && |b| <= w
    ensures Between(key, a, b) <==> Circle.Between(Pos(w, key), Pos(w, a), Pos(w, b))
    ensures BetweenRightIncl(key, a, b) <==> Circle.BetweenRightIncl(Pos(w, key), Pos(w, a), Pos(w, b))
  {
    CompareIsPosition(w, a, b);
    CompareIsPosition(w, a, key);
    CompareIsPosition(w, b, key);
  }

  /** For a != b, every byte string is in exactly one of (a, b] and (b, a]. */
  lemma {:induction false} ArcsPartition(key: Bytes, a: Bytes, b: Bytes)
    requires a != b
    ensures BetweenRightIncl(key, a, b) <==> !BetweenRightIncl(key, b, a)
  {
    var w := |key| + |a| + |b|;
    BetweenIsPosition(w, key, a, b);
    BetweenIsPosition(w, key, b, a);
    CompareIsPosition(w, a, b);
  }

  /** The circular-order laws: cyclicity, asymmetry, transitivity, connectedness. */
  lemma {:induction false} CircularOrder(a: Bytes, b: Bytes, c: Bytes, d: Bytes)
    requires a != b && b != c && a != c
    ensures Between(b, a, c) <==> Between(c, b, a)
    ensures Between(b, a, c) <==> !Between(b, c, a)
    ensures Between(b, a, c) && Between(c, a, d) ==> Between(b, a, d)
  {
    var w := |a| + |b| + |c| + |d|;
    BetweenIsPosition(w, b, a, c);
    BetweenIsPosition(w, c, b, a);
    BetweenIsPosition(w, b, c, a);
    BetweenIsPosition(w, c, a, d);
    BetweenIsPosition(w, b, a, d);
    CompareIsPosition(w, a, b);
    CompareIsPosition(w, b, c);
    CompareIsPosition(w, a, c);
  }

  // ---------------------------------------------------------------- group keys

  /** The shortest big-endian string of a number; zero is the empty string. */
  function MinBytes(v: nat): Bytes {
    if v == 0 then [] else MinBytes(v / 256) + [v % 256]
  }

  const WORD: int := 0x1_0000_0000_0000_0000

  /** The low 64 bits of the number. */
  function BytesToUint64(b: Bytes): nat {
    Value(b) % WORD
  }

  function Uint64ToBytes(v: nat): Bytes
    requires v < WORD
  {
    MinBytes(v)
  }

  lemma {:induction false} ValueSnoc(b: Bytes, x: byte)
    ensures Value(b + [x]) == 256 * Value(b) + x
  {
    if b == [] {
      assert b + [x] == [x];
      assert [x][1..] == [];
    } else {
      ValueSnoc(b[1..], x);
      assert (b + [x])[1..] == b[1..] + [x];
      assert b[0] * Pow256(|b|) == 256 * (b[0] * Pow256(|b| - 1));
    }
  }

  lemma {:induction false} MinBytesValue(v: nat)
    ensures Value(MinBytes(v)) == v
    ensures v > 0 ==> Pow256(|MinBytes(v)| - 1) <= v < Pow256(|MinBytes(v)|)
  {
    if v > 0 {
      MinBytesValue(v / 256);
      ValueSnoc(MinBytes(v / 256), v % 256);
    }
  }

  lemma {:induction false} Pow256Mono(i: nat, j: nat)
    requires i <= j
    ensures Pow256(i) <= Pow256(j)
    decreases j - i
  {
    if i < j {
      Pow256Mono(i + 1, j);
    }
  }

  /** A group key survives the trip through its leader id, the shortest string of that number. */
  lemma {:induction false} Uint64RoundTrip(v: nat, b: Bytes)
    requires v < WORD
    ensures BytesToUint64(Uint64ToBytes(v)) == v
    ensures Value(b) == v ==> |Uint64ToBytes(v)| <= |b|
  {
    MinBytesValue(v);
    ValueBound(b);
    if Value(b) == v && |Uint64ToBytes(v)| > |b| {
      Pow256Mono(|b|, |Uint64ToBytes(v)| - 1);
    }
  }

  lemma {:induction false} WordIsPow256()
    ensures Pow256(8) == WORD
  {
  }

  /** `w` zero bytes. */
  function Zeros(w: nat): (b: Bytes)
    ensures |b| == w
  {
    seq(w, i => 0)
  }

  lemma {:induction false} ValueZeros(w: nat)
    ensures Value(Zeros(w)) == 0
  {
    if w > 0 {
      assert Zeros(w)[1..] == Zeros(w - 1);
      ValueZeros(w - 1);
    }
  }

  ghost predicate GroupKeysDistinct(w: nat) {
    forall a: Bytes, b: Bytes :: |a| == w && |b| == w && BytesToUint64(a) == BytesToUint64(b) ==> a == b
  }

  /** Leading zero bytes do not change the number. */
  lemma {:induction false} PrependZeros(k: nat, b: Bytes)
    ensures Value(Zeros(k) + b) == Value(b)
  {
    if k == 0 {
      assert Zeros(0) + b == b;
    } else {
      PrependZeros(k - 1, b);
      assert (Zeros(k) + b)[1..] == Zeros(k - 1) + b;
    }
  }

  lemma {:induction false} ShortKeyIsValue(b: Bytes)
    requires |b| <= 8
    ensures BytesToUint64(b) == Value(b)
  {
    WordIsPow256();
    ValueBound(b);
    Pow256Mono(|b|, 8);
  }

  /** From nine bytes on, zero and 2^64 have the same key. */
  lemma {:induction false} KeysCollide(w: nat) returns (a: Bytes, b: Bytes)
    requires w > 8
    ensures |a| == w && |b| == w && a != b && BytesToUint64(a) == BytesToUint64(b)
  {
    WordIsPow256();
    a := Zeros(w);
    b := Zeros(w - 9) + ([1] + Zeros(8));
    ValueZeros(w);
    ValueZeros(8);
    PrependZeros(w - 9, [1] + Zeros(8));
    assert ([1] + Zeros(8))[1..] == Zeros(8);
    assert Value(b) == WORD;
    assert b[w - 9] == 1;
  }

  /** Replica groups are keyed by 64 bits: ids of `w` bytes stay apart exactly up to eight bytes. */
  lemma {:induction false} GroupKeysDistinctIff(w: nat)
    ensures GroupKeysDistinct(w) <==> w <= 8
  {
    if w <= 8 {
      forall a: Bytes, b: Bytes | |a| == w && |b| == w && BytesToUint64(a) == BytesToUint64(b)
        ensures a == b
      {
        ShortKeyIsValue(a);
        ShortKeyIsValue(b);
        CompareIsNumeric(a, b);
      }
    } else {
      var a, b := KeysCollide(w);
    }
  }
}
