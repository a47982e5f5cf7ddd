/** Field elements of secp256k1 as five 52-bit limbs held in 64-bit words: what the limbs mean and how
    large they may grow.  Values that fit their word are subset types, so that every assignment to a
    word carries the proof that nothing overflows. */
module Limbs52 {

  const P: int := 0xFFFFFFFFFFFFFFFFFFFFFFFFFFFFFFFFFFFFFFFFFFFFFFFFFFFFFFFEFFFFFC2F

  /** The limb base and the weights of the limbs. */
  const B: int := 0x10000000000000
  const B2: int := 0x100000000000000000000000000
  const B3: int := 0x1000000000000000000000000000000000000000
  const B4: int := 0x10000000000000000000000000000000000000000000000000000

  /** `2^256` modulo the prime. */
  const R4: int := 0x1000003D1

  const MAX52 := 0xFFFFFFFFFFFFF
  const MAX48 := 0xFFFFFFFFFFFF
  const TWO48 := 0x1000000000000

  function Value(n: seq<int>): int
    requires |n| == 5
  {
    n[0] + n[1] * B + n[2] * B2 + n[3] * B3 + n[4] * B4
  }

  /** Equal modulo the field prime. */
  predicate Congruent(x: int, y: int) {
    (x - y) % P == 0
  }

  /** A field element of magnitude `m`. */
  predicate HasMagnitude(n: seq<int>, m: int) {
    && |n| == 5
    && 0 <= n[0] <= 2 * m * MAX52 && 0 <= n[1] <= 2 * m * MAX52 && 0 <= n[2] <= 2 * m * MAX52
    && 0 <= n[3] <= 2 * m * MAX52 && 0 <= n[4] <= 2 * m * MAX48
  }

  lemma CongruentByMultiple(x: int, y: int, k: int)
    requires x + k * P == y
    ensures Congruent(x, y) && Congruent(y, x)
  {
    MultipleMod(k);
    MultipleMod(-k);
  }

  lemma MultipleMod(k: int)
    ensures (k * P) % P == 0
  {
  }
}

/** Multiplication and squaring modulo the prime, on 128-bit accumulators. */
module FieldMul52 {
  import opened Words
  import opened Limbs52

  /** `2^260` modulo the prime. */
  const R: int := 0x1000003D10

  const TWO49 := 0x2000000000000
  const TWO56 := 0x100000000000000
  const TWO60 := 0x1000000000000000
  const TWO61 := 0x2000000000000000
  const TWO62 := 0x4000000000000000
  const TWO63 := 0x8000000000000000
  const TWO64 := 0x10000000000000000
  const TWO100 := 0x10000000000000000000000000
  const TWO104 := 0x100000000000000000000000000
  const TWO108 := 0x1000000000000000000000000000
  const TWO112 := 0x10000000000000000000000000000
  const TWO113 := 0x20000000000000000000000000000
  const TWO114 := 0x40000000000000000000000000000
  const TWO115 := 0x80000000000000000000000000000
  const TWO116 := 0x100000000000000000000000000000

  /** The operand bounds `VERIFY_BITS` demands. */
  predicate MulOperand(n: seq<int>) {
    && |n| == 5
    && 0 <= n[0] < TWO56 && 0 <= n[1] < TWO56 && 0 <= n[2] < TWO56 && 0 <= n[3] < TWO56
    && 0 <= n[4] < B
  }

  /** The double-width product of two words. */
  function Mul(x: U64, y: U64): U128 {
    MulBound(x, y, 0xFFFF_FFFF_FFFF_FFFF, 0xFFFF_FFFF_FFFF_FFFF);
    x * y
  }

  /** `x >> 52`. */
  function Shr52(x: U128): (q: U128)
    ensures x == q * B + Low52(x)
  {
    x / B
  }

  /** `x & M`. */
  function Low52(x: U128): (r: U64)
    ensures r < B
  {
    x % B
  }

  /** The sum of all `a[i] * b[k - i]`. */
  function Column(a: seq<int>, b: seq<int>, k: nat): int
    requires |a| == 5 && |b| == 5 && k <= 8
  {
    match k
    case 0 => a[0] * b[0]
    case 1 => a[0] * b[1] + a[1] * b[0]
    case 2 => a[0] * b[2] + a[1] * b[1] + a[2] * b[0]
    case 3 => a[0] * b[3] + a[1] * b[2] + a[2] * b[1] + a[3] * b[0]
    case 4 => a[0] * b[4] + a[1] * b[3] + a[2] * b[2] + a[3] * b[1] + a[4] * b[0]
    case 5 => a[1] * b[4] + a[2] * b[3] + a[3] * b[2] + a[4] * b[1]
    case 6 => a[2] * b[4] + a[3] * b[3] + a[4] * b[2]
    case 7 => a[3] * b[4] + a[4] * b[3]
    case 8 => a[4] * b[4]
  }

  lemma ScaleValue(x: int, b: seq<int>)
    requires |b| == 5
    ensures x * Value(b) == x * b[0] + (x * b[1]) * B + (x * b[2]) * B2 + (x * b[3]) * B3 + (x * b[4]) * B4
  {
  }

  /** Schoolbook multiplication. */
  lemma ProductOfValues(a: seq<int>, b: seq<int>)
    requires |a| == 5 && |b| == 5
    ensures Value(a) * Value(b)
         == Column(a, b, 0) + Column(a, b, 1) * B + Column(a, b, 2) * B2 + Column(a, b, 3) * B3 + Column(a, b, 4) * B4
          + Column(a, b, 5) * (B4 * B) + Column(a, b, 6) * (B4 * B2) + Column(a, b, 7) * (B4 * B3) + Column(a, b, 8) * (B4 * B4)
  {
    var v := Value(b);
    assert Value(a) * v == a[0] * v + (a[1] * v) * B + (a[2] * v) * B2 + (a[3] * v) * B3 + (a[4] * v) * B4;
    ScaleValue(a[0], b);
    ScaleValue(a[1], b);
    ScaleValue(a[2], b);
    ScaleValue(a[3], b);
    ScaleValue(a[4], b);
  }

  lemma LimbProduct(x: U64, y: U64)
    ensures x < TWO56 && y < TWO56 ==> 0 <= Mul(x, y) < TWO112
    ensures x < TWO56 && y < B ==> Mul(x, y) < TWO108
    ensures x < B && y < TWO56 ==> Mul(x, y) < TWO108
    ensures x < B && y < B ==> Mul(x, y) < TWO104
  {
    if x < TWO56 && y < TWO56 {
      MulBound(x, y, TWO56 - 1, TWO56 - 1);
    }
    if x < TWO56 && y < B {
      MulBound(x, y, TWO56 - 1, B - 1);
    }
    if x < B && y < TWO56 {
      MulBound(x, y, B - 1, TWO56 - 1);
    }
    if x < B && y < B {
      MulBound(x, y, B - 1, B - 1);
    }
  }

  lemma ColumnSums(a: seq<U64>, b: seq<U64>)
    requires |a| == 5 && |b| == 5
    ensures Column(a, b, 0) == Mul(a[0], b[0])
    ensures Column(a, b, 1) == Mul(a[0], b[1]) + Mul(a[1], b[0])
    ensures Column(a, b, 2) == Mul(a[0], b[2]) + Mul(a[1], b[1]) + Mul(a[2], b[0])
    ensures Column(a, b, 3) == Mul(a[0], b[3]) + Mul(a[1], b[2]) + Mul(a[2], b[1]) + Mul(a[3], b[0])
    ensures Column(a, b, 4) == Mul(a[0], b[4]) + Mul(a[1], b[3]) + Mul(a[2], b[2]) + Mul(a[3], b[1]) + Mul(a[4], b[0])
    ensures Column(a, b, 5) == Mul(a[1], b[4]) + Mul(a[2], b[3]) + Mul(a[3], b[2]) + Mul(a[4], b[1])
    ensures Column(a, b, 6) == Mul(a[2], b[4]) + Mul(a[3], b[3]) + Mul(a[4], b[2])
    ensures Column(a, b, 7) == Mul(a[3], b[4]) + Mul(a[4], b[3])
    ensures Column(a, b, 8) == Mul(a[4], b[4])
  {
  }

  lemma ColumnBounds(a: seq<U64>, b: seq<U64>)
    requires MulOperand(a) && MulOperand(b)
    ensures Column(a, b, 0) == Mul(a[0], b[0]) < TWO112
    ensures Column(a, b, 1) == Mul(a[0], b[1]) + Mul(a[1], b[0]) < 2 * TWO112
    ensures Column(a, b, 2) == Mul(a[0], b[2]) + Mul(a[1], b[1]) + Mul(a[2], b[0]) < 3 * TWO112
    ensures Column(a, b, 3) == Mul(a[0], b[3]) + Mul(a[1], b[2]) + Mul(a[2], b[1]) + Mul(a[3], b[0]) < 4 * TWO112
    ensures Column(a, b, 4) == Mul(a[0], b[4]) + Mul(a[1], b[3]) + Mul(a[2], b[2]) + Mul(a[3], b[1]) + Mul(a[4], b[0])
                            < 3 * TWO112 + 2 * TWO108
    ensures Column(a, b, 5) == Mul(a[1], b[4]) + Mul(a[2], b[3]) + Mul(a[3], b[2]) + Mul(a[4], b[1])
                            < 2 * TWO112 + 2 * TWO108
    ensures Column(a, b, 6) == Mul(a[2], b[4]) + Mul(a[3], b[3]) + Mul(a[4], b[2]) < TWO112 + 2 * TWO108
    ensures Column(a, b, 7) == Mul(a[3], b[4]) + Mul(a[4], b[3]) < 2 * TWO108
    ensures Column(a, b, 8) == Mul(a[4], b[4]) < TWO104
  {
    hide Mul, Column;
    ColumnSums(a, b);
    forall i, j | 0 <= i < 5 && 0 <= j < 5
      ensures i < 4 && j < 4 ==> Mul(a[i], b[j]) < TWO112
      ensures i == 4 || j == 4 ==> Mul(a[i], b[j]) < TWO108
      ensures i == 4 && j == 4 ==> Mul(a[i], b[j]) < TWO104
    {
      LimbProduct(a[i], b[j]);
    }
  }

  /** One carry chain of the source: folding the columns above `2^260` back by `R`, and the part above
      `2^256` by `R >> 4`, changes the value by a multiple of the prime. */
  lemma CarryChain(a: seq<int>, b: seq<int>,
                   q5: int, q6: int, q7: int, q8: int, q9: int, q: int,
                   d1: int, d2: int, d3: int, d4: int, c1: int, c2: int, c3: int, c4: int,
                   t3: int, t4: int, tx: int, u: int, r: seq<int>)
    requires |a| == 5 && |b| == 5 && |r| == 5
    requires Column(a, b, 8) == q9 * B + q8
    requires Column(a, b, 3) + q8 * R == d1 * B + t3
    requires d1 + Column(a, b, 4) + q9 * R == d2 * B + tx * TWO48 + t4
    requires d2 + Column(a, b, 5) == d3 * B + u && q5 == u * 16 + tx
    requires Column(a, b, 0) + q5 * R4 == c1 * B + r[0]
    requires d3 + Column(a, b, 6) == d4 * B + q6
    requires c1 + Column(a, b, 1) + q6 * R == c2 * B + r[1]
    requires d4 + Column(a, b, 7) == q * B + q7
    requires c2 + Column(a, b, 2) + q7 * R == c3 * B + r[2]
    requires c3 + q * R + t3 == c4 * B + r[3]
    requires c4 + t4 == r[4]
    ensures Congruent(Value(r), Value(a) * Value(b))
  {
    ProductOfValues(a, b);
    hide Column, Congruent;
    var k := 16 * (q6 * B + q7 * B2 + (q8 + q) * B3 + q9 * B4) + q5;
    assert Value(r) + k * P
        == Column(a, b, 0) + Column(a, b, 1) * B + Column(a, b, 2) * B2 + Column(a, b, 3) * B3 + Column(a, b, 4) * B4
          + Column(a, b, 5) * (B4 * B) + Column(a, b, 6) * (B4 * B2) + Column(a, b, 7) * (B4 * B3) + Column(a, b, 8) * (B4 * B4);
    CongruentByMultiple(Value(r), Value(a) * Value(b), k);
  }

  lemma OrNibble(x: nat, y: nat)
    requires y < 16
    ensures Or(x * 16, y) == x * 16 + y
  {
    PowersOfTwo();
    OrDisjoint(x, y, 4);
  }

  /** Columns 3, 4 and 8. */
  method MulUpper(a0: U64, a1: U64, a2: U64, a3: U64, a4: U64, b: array<U64>)
      returns (d: U128, t3: U64, t4: U64, tx: U64, ghost d1: int, ghost q8: int, ghost q9: int)
    requires b.Length == 5 && MulOperand([a0, a1, a2, a3, a4]) && MulOperand(b[..])
    ensures var aa, bb := [a0, a1, a2, a3, a4], b[..];
            && Column(aa, bb, 8) == q9 * B + q8
            && Column(aa, bb, 3) + q8 * R == d1 * B + t3
            && d1 + Column(aa, bb, 4) + q9 * R == d * B + tx * TWO48 + t4
    ensures d < TWO64 && t3 < B && t4 < TWO48 && tx < 16
  {
    hide Mul, Column, Shr52, Low52, MulOperand, Or;
    ghost var aa, bb := [a0, a1, a2, a3, a4], b[..];
    ColumnBounds(aa, bb);
    d := Mul(a0, b[3]) + Mul(a1, b[2]) + Mul(a2, b[1]) + Mul(a3, b[0]);
    assert d == Column(aa, bb, 3) < TWO114;
    var c: U128 := Mul(a4, b[4]);
    assert c == Column(aa, bb, 8) < TWO112;
    q8 := Low52(c);
    d := d + Low52(c) * R;
    c := Shr52(c);
    assert d < TWO115 && c < TWO60;
    t3 := Low52(d);
    d := Shr52(d);
    assert d < TWO63;
    d1, q9 := d, c;

    d := d + (Mul(a0, b[4]) + Mul(a1, b[3]) + Mul(a2, b[2]) + Mul(a3, b[1]) + Mul(a4, b[0]));
    assert d == d1 + Column(aa, bb, 4) < TWO115;
    d := d + c * R;
    assert d < TWO116;
    t4 := Low52(d);
    d := Shr52(d);
    tx := t4 / TWO48;
    t4 := t4 % TWO48;
  }

  /** Columns 0, 1, 5 and 6. */
  method MulMiddle(r: array<U64>, a0: U64, a1: U64, a2: U64, a3: U64, a4: U64, b: array<U64>, d': U128, tx: U64)
      returns (c: U128, d: U128, ghost q5: int, ghost q6: int, ghost d3: int, ghost u: int, ghost c1: int)
    requires r.Length == 5 && b.Length == 5 && r != b && MulOperand([a0, a1, a2, a3, a4]) && MulOperand(b[..])
    requires d' < TWO64 && tx < 16
    modifies r
    ensures forall i :: 2 <= i < 5 ==> r[i] == old(r[i])
    ensures var aa, bb := [a0, a1, a2, a3, a4], b[..];
            && d' + Column(aa, bb, 5) == d3 * B + u && q5 == u * 16 + tx
            && Column(aa, bb, 0) + q5 * R4 == c1 * B + r[0]
            && d3 + Column(aa, bb, 6) == d * B + q6
            && c1 + Column(aa, bb, 1) + q6 * R == c * B + r[1]
    ensures c < TWO63 && d < TWO62 && r[0] < B && r[1] < B
  {
    hide Mul, Column, Shr52, Low52, MulOperand, Or;
    ghost var aa, bb := [a0, a1, a2, a3, a4], b[..];
    ColumnBounds(aa, bb);
    d := d';
    c := Mul(a0, b[0]);
    assert c == Column(aa, bb, 0) < TWO112;
    d := d + (Mul(a1, b[4]) + Mul(a2, b[3]) + Mul(a3, b[2]) + Mul(a4, b[1]));
    assert d == d' + Column(aa, bb, 5) < TWO115;
    var u0 := Low52(d);
    d := Shr52(d);
    assert d < TWO63;
    d3, u := d, u0;
    u0 := Or(u0 * 16, tx);
    OrNibble(u, tx);
    assert u0 < TWO56;
    q5 := u0;
    c := c + u0 * R4;
    assert c < TWO115;
    r[0] := Low52(c);
    c := Shr52(c);
    assert c < TWO61;
    c1 := c;

    c := c + (Mul(a0, b[1]) + Mul(a1, b[0]));
    assert c == c1 + Column(aa, bb, 1) < TWO114;
    d := d + (Mul(a2, b[4]) + Mul(a3, b[3]) + Mul(a4, b[2]));
    assert d == d3 + Column(aa, bb, 6) < TWO114;
    q6 := Low52(d);
    c := c + Low52(d) * R;
    d := Shr52(d);
    assert c < TWO115;
    r[1] := Low52(c);
    c := Shr52(c);
  }

  /** `r` may be `a`, not `b`: the limbs of `a` are read first, those of `b` as they are needed. */
  method FeMulInner(r: array<U64>, a: array<U64>, b: array<U64>)
    requires r.Length == 5 && a.Length == 5 && b.Length == 5 && r != b
    requires MulOperand(a[..]) && MulOperand(b[..])
    modifies r
    ensures Congruent(Value(r[..]), Value(old(a[..])) * Value(old(b[..])))
    ensures HasMagnitude(r[..], 1)
  {
    hide Mul, Column, Congruent, Value, Shr52, Low52, MulOperand;
    ghost var aa: seq<U64>, bb: seq<U64> := a[..], b[..];
    var a0, a1, a2, a3, a4 := a[0], a[1], a[2], a[3], a[4];
    assert aa == [a0, a1, a2, a3, a4];
    ColumnBounds(aa, bb);
    var d, t3, t4, tx, d1, q8, q9 := MulUpper(a0, a1, a2, a3, a4, b);
    ghost var d2 := d;
    var c;
    ghost var q5, q6, d3, u, c1;
    c, d, q5, q6, d3, u, c1 := MulMiddle(r, a0, a1, a2, a3, a4, b, d, tx);
    ghost var c2, d4 := c, d;

    c := c + (Mul(a0, b[2]) + Mul(a1, b[1]) + Mul(a2, b[0]));
    assert c == c2 + Column(aa, bb, 2) < TWO114;
    d := d + (Mul(a3, b[4]) + Mul(a4, b[3]));
    assert d == d4 + Column(aa, bb, 7) < TWO114;
    ghost var q7 := Low52(d);
    c := c + Low52(d) * R;
    d := Shr52(d);
    assert c < TWO115 && d < TWO62;
    r[2] := Low52(c);
    c := Shr52(c);
    assert c < TWO63;
    ghost var c3 := c;

    c := c + (d * R + t3);
    assert c < TWO100;
    r[3] := Low52(c);
    c := Shr52(c);
    assert c < TWO48;
    ghost var c4 := c;
    c := c + t4;
    assert c < TWO49;
    r[4] := c;
    CarryChain(aa, bb, q5, q6, q7, q8, q9, d, d1, d2, d3, d4, c1, c2, c3, c4, t3, t4, tx, u, r[..]);
  }

  // --- squaring ---

  lemma DoubledProducts(x: U64, y: U64)
    requires x < TWO56 && y < TWO56
    ensures Mul(2 * x, y) == Mul(x, y) + Mul(y, x) == Mul(x, 2 * y)
  {
  }

  lemma OperandBounds(a: seq<int>)
    requires MulOperand(a)
    ensures a[0] < TWO56 && a[1] < TWO56 && a[2] < TWO56 && a[3] < TWO56 && a[4] < B
  {
  }

  /** Each column of a square from half the products. */
  lemma SquareColumns(a: seq<U64>)
    requires MulOperand(a)
    ensures Column(a, a, 0) == Mul(a[0], a[0]) < TWO112
    ensures Column(a, a, 1) == Mul(2 * a[0], a[1]) < 2 * TWO112
    ensures Column(a, a, 2) == Mul(2 * a[0], a[2]) + Mul(a[1], a[1]) < 3 * TWO112
    ensures Column(a, a, 3) == Mul(2 * a[0], a[3]) + Mul(2 * a[1], a[2]) < 4 * TWO112
    ensures Column(a, a, 4) == Mul(a[0], 2 * a[4]) + Mul(2 * a[1], a[3]) + Mul(a[2], a[2]) < 3 * TWO112 + 2 * TWO108
    ensures Column(a, a, 5) == Mul(a[1], 2 * a[4]) + Mul(2 * a[2], a[3]) < 2 * TWO112 + 2 * TWO108
    ensures Column(a, a, 6) == Mul(a[2], 2 * a[4]) + Mul(a[3], a[3]) < TWO112 + 2 * TWO108
    ensures Column(a, a, 7) == Mul(a[3], 2 * a[4]) < 2 * TWO108
    ensures Column(a, a, 8) == Mul(a[4], a[4]) < TWO104
  {
    hide Mul, Column;
    ColumnBounds(a, a);
    forall i, j | 0 <= i < 5 && 0 <= j < 5
      ensures Mul(2 * a[i], a[j]) == Mul(a[i], a[j]) + Mul(a[j], a[i]) == Mul(a[i], 2 * a[j])
    {
      DoubledProducts(a[i], a[j]);
    }
  }

  /** Columns 3, 4 and 8 of a square; hands back `a4` doubled. */
  method SqrUpper(a0: U64, a1: U64, a2: U64, a3: U64, a4: U64)
      returns (d: U128, t3: U64, t4: U64, tx: U64, a4': U64, ghost d1: int, ghost q8: int, ghost q9: int)
    requires MulOperand([a0, a1, a2, a3, a4])
    ensures var aa := [a0, a1, a2, a3, a4];
            && Column(aa, aa, 8) == q9 * B + q8
            && Column(aa, aa, 3) + q8 * R == d1 * B + t3
            && d1 + Column(aa, aa, 4) + q9 * R == d * B + tx * TWO48 + t4
    ensures d < TWO64 && t3 < B && t4 < TWO48 && tx < 16 && a4' == 2 * a4
  {
    hide Mul, Column, Shr52, Low52, MulOperand, Or;
    ghost var aa := [a0, a1, a2, a3, a4];
    OperandBounds(aa);
    SquareColumns(aa);
    d := Mul(a0 * 2, a3) + Mul(a1 * 2, a2);
    assert d == Column(aa, aa, 3) < TWO114;
    var c: U128 := Mul(a4, a4);
    assert c == Column(aa, aa, 8) < TWO112;
    q8 := Low52(c);
    d := d + Low52(c) * R;
    c := Shr52(c);
    assert d < TWO115 && c < TWO60;
    t3 := Low52(d);
    d := Shr52(d);
    assert d < TWO63;
    d1, q9 := d, c;

    a4' := a4 * 2;
    d := d + (Mul(a0, a4') + Mul(a1 * 2, a3) + Mul(a2, a2));
    assert d == d1 + Column(aa, aa, 4) < TWO115;
    d := d + c * R;
    assert d < TWO116;
    t4 := Low52(d);
    d := Shr52(d);
    tx := t4 / TWO48;
    t4 := t4 % TWO48;
  }

  /** Columns 0, 1, 5 and 6 of a square; takes `a4` doubled and hands back `a0` doubled. */
  method SqrMiddle(r: array<U64>, a0: U64, a1: U64, a2: U64, a3: U64, ghost half4: U64, a4: U64, d': U128, tx: U64)
      returns (c: U128, d: U128, a0': U64, ghost q5: int, ghost q6: int, ghost d3: int, ghost u: int, ghost c1: int)
    requires r.Length == 5 && MulOperand([a0, a1, a2, a3, half4]) && a4 == 2 * half4
    requires d' < TWO64 && tx < 16
    modifies r
    ensures forall i :: 2 <= i < 5 ==> r[i] == old(r[i])
    ensures var aa := [a0, a1, a2, a3, half4];
            && d' + Column(aa, aa, 5) == d3 * B + u && q5 == u * 16 + tx
            && Column(aa, aa, 0) + q5 * R4 == c1 * B + r[0]
            && d3 + Column(aa, aa, 6) == d * B + q6
            && c1 + Column(aa, aa, 1) + q6 * R == c * B + r[1]
    ensures c < TWO63 && d < TWO62 && r[0] < B && r[1] < B && a0' == 2 * a0
  {
    hide Mul, Column, Shr52, Low52, MulOperand, Or;
    ghost var aa := [a0, a1, a2, a3, half4];
    OperandBounds(aa);
    SquareColumns(aa);
    d := d';
    c := Mul(a0, a0);
    assert c == Column(aa, aa, 0) < TWO112;
    d := d + (Mul(a1, a4) + Mul(a2 * 2, a3));
    assert d == d' + Column(aa, aa, 5) < TWO114;
    var u0 := Low52(d);
    d := Shr52(d);
    assert d < TWO62;
    d3, u := d, u0;
    u0 := Or(u0 * 16, tx);
    OrNibble(u, tx);
    assert u0 < TWO56;
    q5 := u0;
    c := c + u0 * R4;
    assert c < TWO113;
    r[0] := Low52(c);
    c := Shr52(c);
    assert c < TWO61;
    c1 := c;

    a0' := a0 * 2;
    c := c + Mul(a0', a1);
    assert c == c1 + Column(aa, aa, 1) < TWO114;
    d := d + (Mul(a2, a4) + Mul(a3, a3));
    assert d == d3 + Column(aa, aa, 6) < TWO114;
    q6 := Low52(d);
    c := c + Low52(d) * R;
    d := Shr52(d);
    assert c < TWO115;
    r[1] := Low52(c);
    c := Shr52(c);
  }

  method FeSqrInner(r: array<U64>, a: array<U64>)
    requires r.Length == 5 && a.Length == 5
    requires MulOperand(a[..])
    modifies r
    ensures Congruent(Value(r[..]), Value(old(a[..])) * Value(old(a[..])))
    ensures HasMagnitude(r[..], 1)
  {
    hide Mul, Column, Congruent, Value, Shr52, Low52, MulOperand;
    ghost var aa: seq<U64> := a[..];
    var a0, a1, a2, a3, a4 := a[0], a[1], a[2], a[3], a[4];
    assert aa == [a0, a1, a2, a3, a4];
    OperandBounds(aa);
    SquareColumns(aa);
    var d, t3, t4, tx, a4', d1, q8, q9 := SqrUpper(a0, a1, a2, a3, a4);
    ghost var d2 := d;
    var c, a0';
    ghost var q5, q6, d3, u, c1;
    c, d, a0', q5, q6, d3, u, c1 := SqrMiddle(r, a0, a1, a2, a3, a4, a4', d, tx);
    ghost var c2, d4 := c, d;

    c := c + (Mul(a0', a2) + Mul(a1, a1));
    assert c == c2 + Column(aa, aa, 2) < TWO114;
    d := d + Mul(a3, a4');
    assert d == d4 + Column(aa, aa, 7) < TWO114;
    ghost var q7 := Low52(d);
    c := c + Low52(d) * R;
    d := Shr52(d);
    assert c < TWO115 && d < TWO62;
    r[2] := Low52(c);
    c := Shr52(c);
    assert c < TWO63;
    ghost var c3 := c;

    c := c + (d * R + t3);
    assert c < TWO100;
    r[3] := Low52(c);
    c := Shr52(c);
    assert c < TWO48;
    ghost var c4 := c;
    c := c + t4;
    assert c < TWO49;
    r[4] := c;
    CarryChain(aa, aa, q5, q6, q7, q8, q9, d, d1, d2, d3, d4, c1, c2, c3, c4, t3, t4, tx, u, r[..]);
  }

  // --- the field operations ---

  lemma OperandOfMagnitude(n: seq<int>)
    requires HasMagnitude(n, 8)
    ensures MulOperand(n)
  {
  }

  method FeMul(r: array<U64>, a: array<U64>, b: array<U64>)
    requires r.Length == 5 && a.Length == 5 && b.Length == 5 && r != b
    requires HasMagnitude(a[..], 8) && HasMagnitude(b[..], 8)
    modifies r
    ensures Congruent(Value(r[..]), Value(old(a[..])) * Value(old(b[..])))
    ensures HasMagnitude(r[..], 1)
  {
    OperandOfMagnitude(a[..]);
    OperandOfMagnitude(b[..]);
    FeMulInner(r, a, b);
  }

  method FeSqr(r: array<U64>, a: array<U64>)
    requires r.Length == 5 && a.Length == 5
    requires HasMagnitude(a[..], 8)
    modifies r
    ensures Congruent(Value(r[..]), Value(old(a[..])) * Value(old(a[..])))
    ensures HasMagnitude(r[..], 1)
  {
    OperandOfMagnitude(a[..]);
    FeSqrInner(r, a);
  }
}
