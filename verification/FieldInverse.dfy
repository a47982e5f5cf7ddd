/** Inverses and square roots of field elements by addition chains, and inverting many at once. */
module FieldInverse {
  import opened Words
  import opened Limbs52
  import opened Residues

  /** A field element, whatever limbs hold it. */
  type Fe = x: int | 0 <= x < P

  const PRIME: Modulus := P

  function FMul(a: Fe, b: Fe): Fe {
    MulMod(PRIME, a, b)
  }

  ghost function FPow(a: Fe, e: nat): Fe {
    PowMod(PRIME, a, e)
  }

  ghost function Ones(n: nat): nat {
    Pow2(n) - 1
  }

  /** What the limb routines compute, as residues. */
  lemma ProductResidue(v: int, a: int, b: int)
    requires Congruent(v, a * b)
    ensures v % P == FMul(a % P, b % P)
  {
    ModMul(PRIME, a, b % P);
    ModMul(PRIME, b, a);
    assert a * (b % P) == (b % P) * a && b * a == a * b;
    var k := (v - a * b) / P;
    assert v == a * b + k * P;
    ModShift(PRIME, a * b, k);
  }

  // --- exponents ---

  lemma {:induction false} FPowMul(a: Fe, m: nat, n: nat)
    ensures FPow(FPow(a, m), n) == FPow(a, m * n)
    decreases n
  {
    hide MulMod;
    if n > 0 {
      FPowMul(a, m, n - 1);
      PowModAdd(PRIME, a, m, m * (n - 1));
      assert m + m * (n - 1) == m * n;
    }
  }

  /** One link of the chain: shift an exponent up by `k` bits and add another. */
  lemma Link(a: Fe, m: nat, k: nat, n: nat)
    ensures FMul(FPow(FPow(a, m), Pow2(k)), FPow(a, n)) == FPow(a, m * Pow2(k) + n)
  {
    FPowMul(a, m, Pow2(k));
    PowModAdd(PRIME, a, m * Pow2(k), n);
  }

  lemma LinkOnes(a: Fe, m: nat, k: nat)
    ensures FMul(FPow(FPow(a, Ones(m)), Pow2(k)), FPow(a, Ones(k))) == FPow(a, Ones(m + k))
  {
    Link(a, Ones(m), k, Ones(k));
    Pow2Add(m, k);
    hide Pow2, FMul, FPow;
    assert (Pow2(m) - 1) * Pow2(k) == Pow2(m) * Pow2(k) - Pow2(k);
  }

  lemma SmallPowers()
    ensures Pow2(1) == 2 && Pow2(2) == 4 && Pow2(3) == 8 && Pow2(5) == 32 && Pow2(6) == 64
    ensures Pow2(7) == 128 && Pow2(8) == 256
  {
    assert Pow2(4) == 16;
  }

  lemma LargePowers()
    ensures Pow2(22) == 0x400000 && Pow2(23) == 0x800000 && Pow2(223) == 0x80000000000000000000000000000000000000000000000000000000
  {
    SmallPowers();
    Pow2Add(8, 8);
    Pow2Add(16, 6);
    Pow2Add(16, 7);
    Pow2Add(16, 16);
    Pow2Add(32, 32);
    Pow2Add(64, 64);
    Pow2Add(128, 64);
    Pow2Add(192, 16);
    Pow2Add(208, 8);
    Pow2Add(216, 7);
    hide Pow2;
    assert Pow2(32) == 0x100000000;
    assert Pow2(64) == 0x10000000000000000;
    assert Pow2(128) == 0x100000000000000000000000000000000;
    assert Pow2(192) == 0x1000000000000000000000000000000000000000000000000;
    assert Pow2(208) == 0x10000000000000000000000000000000000000000000000000000;
  }

  /** The exponents on the way from the 223 ones to `p - 2`, and to `(p + 1) / 4`. */
  const E1: nat := 0x3FFFFFFFFFFFFFFFFFFFFFFFFFFFFFFFFFFFFFFFFFFFFFFFFFFFFFFFBFFFFF
  const E2: nat := 0x7FFFFFFFFFFFFFFFFFFFFFFFFFFFFFFFFFFFFFFFFFFFFFFFFFFFFFFF7FFFFE1
  const E3: nat := 0x3FFFFFFFFFFFFFFFFFFFFFFFFFFFFFFFFFFFFFFFFFFFFFFFFFFFFFFFBFFFFF0B
  const S1: nat := 0xFFFFFFFFFFFFFFFFFFFFFFFFFFFFFFFFFFFFFFFFFFFFFFFFFFFFFFFEFFFFFC3

  lemma ChainEnds()
    ensures Ones(223) * Pow2(23) + Ones(22) == E1
    ensures E1 * Pow2(5) + 1 == E2 && E2 * Pow2(3) + 3 == E3 && E3 * Pow2(2) + 1 == P - 2
    ensures E1 * Pow2(6) + 3 == S1 && 4 * S1 == (P + 1) / 4
  {
    SmallPowers();
    LargePowers();
    hide Pow2;
  }

  /** The loop `for (j = 0; j < k; j++) sqr(x, x)`. */
  method SqrTimes(x: Fe, k: nat) returns (y: Fe)
    ensures y == FPow(x, Pow2(k))
  {
    y := x;
    hide MulMod;
    FirstPower(x);
    for j := 0 to k
      invariant y == FPow(x, Pow2(j))
    {
      y := FMul(y, y);
      PowModAdd(PRIME, x, Pow2(j), Pow2(j));
    }
  }

  /** The common part of both chains: blocks of ones up to length 223. */
  method ChainBlocks(a: Fe) returns (x2: Fe, x22: Fe, x223: Fe)
    ensures x2 == FPow(a, 3) && x22 == FPow(a, Ones(22)) && x223 == FPow(a, Ones(223))
  {
    hide MulMod, FPow, FMul;
    assert FPow(a, Ones(1)) == a && FPow(a, Pow2(0)) == a by { FirstPower(a); }
    x2 := FMul(FSqr(a), a);
    LinkOnes(a, 1, 1);
    var x3 := FMul(FSqr(x2), a);
    LinkOnes(a, 2, 1);
    var x6 := SqrTimes(x3, 3);
    x6 := FMul(x6, x3);
    LinkOnes(a, 3, 3);
    var x9 := SqrTimes(x6, 3);
    x9 := FMul(x9, x3);
    LinkOnes(a, 6, 3);
    var x11 := SqrTimes(x9, 2);
    x11 := FMul(x11, x2);
    LinkOnes(a, 9, 2);
    x22 := SqrTimes(x11, 11);
    x22 := FMul(x22, x11);
    LinkOnes(a, 11, 11);
    var x44 := SqrTimes(x22, 22);
    x44 := FMul(x44, x22);
    LinkOnes(a, 22, 22);
    var x88 := SqrTimes(x44, 44);
    x88 := FMul(x88, x44);
    LinkOnes(a, 44, 44);
    var x176 := SqrTimes(x88, 88);
    x176 := FMul(x176, x88);
    LinkOnes(a, 88, 88);
    var x220 := SqrTimes(x176, 44);
    x220 := FMul(x220, x44);
    LinkOnes(a, 176, 44);
    x223 := SqrTimes(x220, 3);
    x223 := FMul(x223, x3);
    LinkOnes(a, 220, 3);
  }

  function FSqr(a: Fe): (r: Fe)
    ensures r == FPow(a, Pow2(1))
  {
    Squared(a);
    FMul(a, a)
  }

  lemma Squared(a: Fe)
    ensures FMul(a, a) == FPow(a, 2)
  {
    FirstPower(a);
    PowModAdd(PRIME, a, 1, 1);
  }

  lemma FirstPower(a: Fe)
    ensures FPow(a, 1) == a
  {
    MulModOne(PRIME, a);
    assert PowMod(PRIME, a, 0) == 1;
    assert PowMod(PRIME, a, 1) == MulMod(PRIME, a, PowMod(PRIME, a, 0));
  }

  lemma FMulCommutes(a: Fe, b: Fe)
    ensures FMul(a, b) == FMul(b, a)
  {
  }

  lemma FInverse(a: Fe)
    requires Prime(PRIME) && a != 0
    ensures FMul(a, FPow(a, P - 2)) == 1
  {
    InverseIsPower(PRIME, a);
  }

  /** The chain raises to exactly `p - 2`, which inverts when the modulus is prime. */
  method FeInv(a: Fe) returns (r: Fe)
    ensures r == FPow(a, P - 2)
    ensures Prime(PRIME) && a != 0 ==> FMul(a, r) == 1
  {
    FirstPower(a);
    ChainEnds();
    if Prime(PRIME) && a != 0 {
      FInverse(a);
    }
    hide MulMod, FPow, FMul, Pow2, Ones;
    var x2, x22, x223 := ChainBlocks(a);
    var t1 := SqrTimes(x223, 23);
    t1 := FMul(t1, x22);
    Link(a, Ones(223), 23, Ones(22));
    t1 := SqrTimes(t1, 5);
    t1 := FMul(t1, a);
    Link(a, E1, 5, 1);
    t1 := SqrTimes(t1, 3);
    t1 := FMul(t1, x2);
    Link(a, E2, 3, 3);
    t1 := SqrTimes(t1, 2);
    r := FMul(a, t1);
    Link(a, E3, 2, 1);
    FMulCommutes(a, t1);
  }

  // --- square roots ---

  lemma FourthPower(a: Fe, e: nat)
    ensures FSqr(FSqr(FPow(a, e))) == FPow(a, 4 * e)
  {
    FPowMul(a, e, 2);
    FPowMul(a, 2 * e, 2);
    Squared(FPow(a, e));
    Squared(FPow(a, 2 * e));
  }

  /** A square has the root the chain computes. */
  lemma RootOfSquare(a: Fe, b: Fe)
    requires Prime(PRIME) && FMul(b, b) == a
    ensures var r := FPow(a, (P + 1) / 4); FMul(r, r) == a
  {
    hide MulMod;
    var e := (P + 1) / 4;
    PowModAdd(PRIME, a, e, e);
    Squared(b);
    FPowMul(b, 2, 2 * e);
    assert FPow(a, 2 * e) == FPow(b, P + 1);
    if b != 0 {
      Fermat(PRIME, b);
      PowModAdd(PRIME, b, 2, P - 1);
      MulModOne(PRIME, FPow(b, 2));
    } else {
      ZeroPower(P + 1);
      ZeroPower(2);
    }
  }

  lemma ZeroPower(e: nat)
    requires e > 0
    ensures FPow(0, e) == 0
  {
  }

  /** Succeeds on exactly the squares; the root found is itself a square. */
  method FeSqrt(a: Fe) returns (r: Fe, ok: bool)
    ensures r == FPow(a, (P + 1) / 4)
    ensures ok <==> FMul(r, r) == a
    ensures Prime(PRIME) ==> (ok <==> exists b: Fe :: FMul(b, b) == a)
    ensures exists s: Fe :: FMul(s, s) == r
  {
    FirstPower(a);
    ChainEnds();
    FourthPower(a, S1);
    hide MulMod, FPow, Pow2, Ones;
    var x2, x22, x223 := ChainBlocks(a);
    var t1 := SqrTimes(x223, 23);
    t1 := FMul(t1, x22);
    Link(a, Ones(223), 23, Ones(22));
    t1 := SqrTimes(t1, 6);
    t1 := FMul(t1, x2);
    Link(a, E1, 6, 3);
    t1 := FSqr(t1);
    r := FSqr(t1);
    assert FMul(t1, t1) == r;
    t1 := FSqr(r);
    ok := t1 == a;
    forall b: Fe | Prime(PRIME) && FMul(b, b) == a
      ensures ok
    {
      RootOfSquare(a, b);
    }
  }

  // --- many inverses from one ---

  /** The product of the first `k` elements. */
  ghost function Prefix(a: seq<Fe>, k: nat): Fe
    requires k <= |a|
  {
    if k == 0 then 1 else FMul(Prefix(a, k - 1), a[k - 1])
  }

  lemma {:induction false} PrefixNonzero(a: seq<Fe>, k: nat)
    requires k <= |a| && Prime(PRIME)
    ensures Prefix(a, k) != 0 <==> forall i :: 0 <= i < k ==> a[i] != 0
  {
    hide FMul, Prime;
    if k > 0 {
      PrefixNonzero(a, k - 1);
      FMulNonzero(Prefix(a, k - 1), a[k - 1]);
    }
  }

  lemma FMulNonzero(x: Fe, y: Fe)
    requires Prime(PRIME)
    ensures FMul(x, y) != 0 <==> x != 0 && y != 0
  {
    hide Prime;
    if x != 0 && y != 0 {
      NoZeroDivisors(PRIME, x, y);
    }
  }

  /** `u` inverts the product of the first `k` elements, or everything is zero. */
  ghost predicate Inverts(u: Fe, x: Fe, nonzero: bool) {
    if nonzero then FMul(u, x) == 1 else u == 0
  }

  /** Peel the last factor off an inverted product. */
  lemma PeelInverse(u: Fe, p: Fe, x: Fe, nonzero: bool)
    requires Inverts(u, FMul(p, x), nonzero)
    ensures Inverts(FMul(p, u), x, nonzero) && Inverts(FMul(u, x), p, nonzero)
  {
    if nonzero {
      MulModAssociates(PRIME, u, p, x);
      MulModCommutes(PRIME, u, p);
      MulModCommutes(PRIME, p, x);
      MulModAssociates(PRIME, u, x, p);
    }
  }

  /** The first pass: running products. */
  method PrefixProducts(r: array<Fe>, a: array<Fe>, len: nat)
    requires 1 <= len <= r.Length && len <= a.Length && r != a
    modifies r
    ensures forall k :: 0 <= k < len ==> r[k] == Prefix(a[..], k + 1)
    ensures forall k :: len <= k < r.Length ==> r[k] == old(r[k])
  {
    hide FMul;
    r[0] := a[0];
    OneTimes(a[0]);
    assert Prefix(a[..], 0) == 1;
    var i := 1;
    while i < len
      invariant 1 <= i <= len
      invariant forall k :: 0 <= k < i ==> r[k] == Prefix(a[..], k + 1)
      invariant forall k :: len <= k < r.Length ==> r[k] == old(r[k])
    {
      r[i] := FMul(r[i - 1], a[i]);
      i := i + 1;
    }
  }

  /** The second pass, from the inverse of the whole product down. */
  method Unwind(r: array<Fe>, a: array<Fe>, len: nat, v: Fe, ghost nonzero: bool)
    requires 1 <= len <= r.Length && len <= a.Length && r != a
    requires forall k :: 0 <= k < len ==> r[k] == Prefix(a[..], k + 1)
    requires Inverts(v, Prefix(a[..], len), nonzero)
    modifies r
    ensures forall k :: 0 <= k < len ==> Inverts(r[k], a[k], nonzero)
    ensures forall k :: len <= k < r.Length ==> r[k] == old(r[k])
  {
    hide FMul, Inverts;
    ghost var s := a[..];
    var u, i := v, len - 1;
    while i > 0
      invariant 0 <= i < len
      invariant Inverts(u, Prefix(s, i + 1), nonzero)
      invariant forall k :: 0 <= k <= i ==> r[k] == Prefix(s, k + 1)
      invariant forall k :: i < k < len ==> Inverts(r[k], s[k], nonzero)
      invariant forall k :: len <= k < r.Length ==> r[k] == old(r[k])
    {
      var j := i;
      i := i - 1;
      PeelInverse(u, Prefix(s, j), s[j], nonzero);
      r[j] := FMul(r[i], u);
      u := FMul(u, a[j]);
    }
    assert Prefix(s, 0) == 1;
    OneTimes(s[0]);
    r[0] := u;
  }

  /** Two passes and one inversion.  If some element is zero, every result is. */
  method FeInvAllVar(r: array<Fe>, a: array<Fe>, len: nat)
    requires Prime(PRIME) && len <= r.Length && len <= a.Length && r != a
    modifies r
    ensures (forall i :: 0 <= i < len ==> a[i] != 0) ==> forall i :: 0 <= i < len ==> FMul(r[i], a[i]) == 1
    ensures (exists i :: 0 <= i < len && a[i] == 0) ==> forall i :: 0 <= i < len ==> r[i] == 0
    ensures forall i :: len <= i < r.Length ==> r[i] == old(r[i])
  {
    hide FMul, FPow, Prefix;
    if len < 1 {
      return;
    }
    PrefixProducts(r, a, len);
    var u := FeInv(r[len - 1]);
    ghost var nonzero := forall k :: 0 <= k < len ==> a[k] != 0;
    PrefixNonzero(a[..], len);
    InverseOfProduct(r[len - 1], u, nonzero);
    Unwind(r, a, len, u, nonzero);
    assert forall k :: 0 <= k < len ==> Inverts(r[k], a[k], nonzero);
  }

  lemma OneTimes(a: Fe)
    ensures FMul(1, a) == a
  {
    MulModOne(PRIME, a);
  }

  lemma InverseOfProduct(x: Fe, u: Fe, nonzero: bool)
    requires Prime(PRIME) && u == FPow(x, P - 2) && (x != 0 <==> nonzero)
    ensures Inverts(u, x, nonzero)
  {
    if nonzero {
      FInverse(x);
      FMulCommutes(x, u);
    } else {
      ZeroPower(P - 2);
    }
  }
}
