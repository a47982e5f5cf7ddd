/** ECDSA over an abstract curve group: signing, verification without an inversion in the field, and why
    every signature made verifies (SEC 1, sections 4.1.3 and 4.1.4). */
module Ecdsa {
  import opened Words
  import opened Wrappers
  import opened Group
  import opened Residues
  import V = WnafVar
  import S = Strauss
  import C = EcmultConst
  import E = EcmultGen
  import L = Limbs52

  type Scalar = V.Reduced

  const ORDER: Modulus := V.ORDER
  const FIELD: int := L.P

  /** `p - n`, as the source spells it out. */
  const P_MINUS_ORDER: int := 0x1_45512319_50B75FC4_402DA172_2FC9BAEE

  /** The group, the affine coordinates of its points as far as ECDSA looks at them, and the generator. */
  datatype Curve<!G> = Curve(g: Group<G>, x: G -> int, yOdd: G -> bool, base: G)

  ghost predicate CurveLaws<G(!new)>(c: Curve<G>) {
    && Abelian(c.g) && S.HasOrder(c.g) && C.ExactOrder(c.g, c.base)
    && (forall p :: 0 <= c.x(p) < FIELD)
    && (forall p :: c.x(c.g.neg(p)) == c.x(p))
    && (forall p :: p != c.g.zero ==> c.yOdd(c.g.neg(p)) == !c.yOdd(p))
  }

  function Mul(a: Scalar, b: Scalar): Scalar {
    MulMod(ORDER, a, b)
  }

  function Add(a: Scalar, b: Scalar): Scalar {
    (a + b) % ORDER
  }

  /** The inverse of a nonzero scalar; zero for zero. */
  function Inverse(a: Scalar): Scalar {
    PowMod(ORDER, a, ORDER - 2)
  }

  // --- multiples depend on the scalar modulo the order ---

  lemma TimesOrder<G(!new)>(g: Group<G>, q: int, r: int, x: G)
    requires Abelian(g) && S.HasOrder(g)
    ensures Times(g, q * ORDER + r, x) == Times(g, r, x)
  {
    hide Abelian, S.HasOrder, Times;
    S.OrderOf(g, x);
    TimesTimes(g, q, ORDER, x);
    TimesZeroPoint(g, q);
    TimesAdd(g, q * ORDER, r, x);
    Zero(g, Times(g, r, x));
  }

  lemma TimesCongruent<G(!new)>(g: Group<G>, k: int, x: G)
    requires Abelian(g) && S.HasOrder(g)
    ensures Times(g, k, x) == Times(g, k % ORDER, x)
  {
    hide Abelian, S.HasOrder, Times;
    TimesOrder(g, k / ORDER, k % ORDER, x);
    assert k == (k / ORDER) * ORDER + k % ORDER;
  }

  // --- verification ---

  /** The point the verification recomputes: `(m / s) G + (r / s) Q`. */
  function Recomputed<G>(c: Curve<G>, r: Scalar, s: Scalar, pubkey: G, m: Scalar): G {
    var sn := Inverse(s);
    c.g.add(Times(c.g, Mul(sn, r), pubkey), Times(c.g, Mul(sn, m), c.base))
  }

  /** What SEC 1, section 4.1.4 accepts. */
  predicate Accepts<G(==)>(c: Curve<G>, r: Scalar, s: Scalar, pubkey: G, m: Scalar) {
    && r != 0 && s != 0
    && var p := Recomputed(c, r, s, pubkey, m);
       p != c.g.zero && c.x(p) % ORDER == r
  }

  lemma OrderAndField()
    ensures FIELD - ORDER == P_MINUS_ORDER && FIELD < 2 * ORDER && ORDER < FIELD
  {
  }

  /** The two values a coordinate can have that is `r` modulo the order. */
  lemma TwoCases(x: int, r: Scalar)
    requires 0 <= x < FIELD
    ensures x % ORDER == r <==> x == r || (r < P_MINUS_ORDER && x == r + ORDER)
  {
    OrderAndField();
    if x < ORDER {
      DivModUnique(x, ORDER, 0, x);
    } else {
      DivModUnique(x, ORDER, 1, x - ORDER);
    }
  }

  method SigVerify<G(!new,==)>(c: Curve<G>, preG: seq<G>, r: Scalar, s: Scalar, pubkey: G, m: Scalar) returns (ok: bool)
    requires CurveLaws(c) && S.OddTable(c.g, preG, 0, S.TableSize(S.WINDOW_G), c.base)
    ensures ok <==> Accepts(c, r, s, pubkey, m)
  {
    hide Abelian, S.HasOrder, C.ExactOrder, S.OddTable, Times, S.TableSize, Inverse, Mul;
    if r == 0 || s == 0 {
      return false;
    }
    var sn := Inverse(s);
    var u1 := Mul(sn, m);
    var u2 := Mul(sn, r);
    var pr := S.Ecmult(c.g, preG, c.base, pubkey, u2, Some(u1));
    if pr == c.g.zero {
      return false;
    }
    TwoCases(c.x(pr), r);
    var xr: int := r;
    if c.x(pr) == xr {
      return true;
    }
    if xr >= P_MINUS_ORDER {
      return false;
    }
    xr := xr + ORDER;
    return c.x(pr) == xr;
  }

  // --- signing ---

  /** The second half of a signature before it is made low: `(m + r d) / k`. */
  function RawS(d: Scalar, m: Scalar, k: Scalar, r: Scalar): Scalar {
    Mul(Inverse(k), Add(Mul(r, d), m))
  }

  datatype Signature = Signature(r: Scalar, s: Scalar, recid: nat, ok: bool)

  /** `recid` remembers whether the coordinate was at or above the order, and the parity of `y`. */
  method SigSign<G(!new,==)>(c: Curve<G>, ctx: E.Context<G>, d: Scalar, m: Scalar, k: Scalar) returns (sig: Signature)
    requires CurveLaws(c) && ctx.Valid() && ctx.g == c.g && ctx.base == c.base
    ensures sig.r == c.x(Times(c.g, k, c.base)) % ORDER
    ensures sig.ok <==> RawS(d, m, k, sig.r) != 0
    ensures sig.ok ==> 0 < sig.s <= ORDER / 2 && (sig.s == RawS(d, m, k, sig.r) || sig.s == V.Negate(RawS(d, m, k, sig.r)))
    ensures sig.ok ==> sig.recid == (if c.x(Times(c.g, k, c.base)) >= ORDER then 2 else 0)
                                  + (if c.yOdd(Times(c.g, k, c.base)) == (sig.s == RawS(d, m, k, sig.r)) then 1 else 0)
    ensures Prime(ORDER) && k != 0 && sig.ok && sig.r != 0 ==>
              var pubkey := Times(c.g, d, c.base);
              Accepts(c, sig.r, sig.s, pubkey, m) && (c.yOdd(Recomputed(c, sig.r, sig.s, pubkey, m)) <==> sig.recid % 2 == 1)
  {
    hide Abelian, S.HasOrder, C.ExactOrder, Times, Accepts, Recomputed, Mul, Inverse, Add, Prime;
    var p := ctx.Gen(k);
    var x := c.x(p);
    var r: Scalar := x % ORDER;
    var overflow := x >= ORDER;
    var recid := (if overflow then 2 else 0) + (if c.yOdd(p) then 1 else 0);
    var n := Mul(r, d);
    n := Add(n, m);
    var s := Inverse(k);
    s := Mul(s, n);
    if s == 0 {
      return Signature(r, s, recid, false);
    }
    if C.IsHigh(s) {
      s := V.Negate(s);
      recid := if recid % 2 == 1 then recid - 1 else recid + 1;
    }
    if Prime(ORDER) && k != 0 && r != 0 {
      SignedAccepted(c, d, m, k, s);
    }
    return Signature(r, s, recid, true);
  }

  // --- every signature verifies ---

  lemma InverseLaw(a: Scalar)
    requires Prime(ORDER) && a != 0
    ensures Mul(a, Inverse(a)) == 1
  {
    InverseIsPower(ORDER, a);
  }

  /** Modulo the order, `s k = m + r d`. */
  lemma SigningEquation(d: Scalar, m: Scalar, k: Scalar, r: Scalar)
    requires Prime(ORDER) && k != 0
    ensures Mul(RawS(d, m, k, r), k) == Add(Mul(r, d), m)
  {
    var n := Add(Mul(r, d), m);
    InverseLaw(k);
    MulModCommutes(ORDER, Inverse(k), n);
    MulModAssociates(ORDER, n, Inverse(k), k);
    MulModCommutes(ORDER, Inverse(k), k);
    MulModOne(ORDER, n);
  }

  /** `(n / s)` is `k` if `s k = n`, and `-k` for the negated `s`. */
  lemma UndoS(s: Scalar, k: Scalar, n: Scalar)
    requires Prime(ORDER) && s != 0 && Mul(s, k) == n
    ensures Mul(Inverse(s), n) == k
    ensures Mul(Inverse(V.Negate(s)), n) == V.Negate(k)
  {
    InverseLaw(s);
    MulModCommutes(ORDER, s, Inverse(s));
    MulModAssociates(ORDER, Inverse(s), s, k);
    MulModOne(ORDER, k);
    var t := V.Negate(s);
    InverseLaw(t);
    NegatedProduct(s, k);
    MulModCommutes(ORDER, t, Inverse(t));
    MulModAssociates(ORDER, Inverse(t), t, V.Negate(k));
    MulModOne(ORDER, V.Negate(k));
  }

  lemma NegatedProduct(s: Scalar, k: Scalar)
    requires s != 0
    ensures Mul(V.Negate(s), V.Negate(k)) == Mul(s, k)
  {
    if k == 0 {
      assert s * k == 0 && V.Negate(s) * V.Negate(k) == 0;
    } else {
      assert V.Negate(s) * V.Negate(k) == s * k + (ORDER - s - k) * ORDER;
      ModShift(ORDER, s * k, ORDER - s - k);
    }
  }

  /** With the matching public key the recomputed point is `((m + r d) / s) G`. */
  lemma RecomputedMultiple<G(!new)>(c: Curve<G>, r: Scalar, s: Scalar, d: Scalar, m: Scalar)
    requires CurveLaws(c)
    ensures Recomputed(c, r, s, Times(c.g, d, c.base), m)
         == Times(c.g, Mul(Inverse(s), Add(Mul(r, d), m)), c.base)
  {
    hide Abelian, S.HasOrder, C.ExactOrder, Times;
    var sn := Inverse(s);
    var u1, u2 := Mul(sn, m), Mul(sn, r);
    TimesTimes(c.g, u2, d, c.base);
    TimesAdd(c.g, u2 * d, u1, c.base);
    TimesCongruent(c.g, u2 * d + u1, c.base);
    LinearCombination(sn, r, d, m);
  }

  lemma LinearCombination(sn: Scalar, r: Scalar, d: Scalar, m: Scalar)
    ensures (Mul(sn, r) * d + Mul(sn, m)) % ORDER == Mul(sn, Add(Mul(r, d), m))
  {
    SumOfProducts(sn, r, d, m);
    ProductOfSum(sn, r, d, m);
  }

  lemma SumOfProducts(sn: Scalar, r: Scalar, d: Scalar, m: Scalar)
    ensures (Mul(sn, r) * d + Mul(sn, m)) % ORDER == (sn * r * d + sn * m) % ORDER
  {
    ProductPlus(sn * r, d, Mul(sn, m));
    ModAdd(ORDER, sn * m, sn * r * d);
  }

  lemma ProductPlus(x: int, d: int, y: int)
    ensures (x % ORDER * d + y) % ORDER == (x * d + y) % ORDER
  {
    ModMul(ORDER, x, d);
    ModAdd(ORDER, x % ORDER * d, y);
    ModAdd(ORDER, x * d, y);
  }

  lemma ProductOfSum(sn: Scalar, r: Scalar, d: Scalar, m: Scalar)
    ensures Mul(sn, Add(Mul(r, d), m)) == (sn * r * d + sn * m) % ORDER
  {
    var n := Add(Mul(r, d), m);
    ModAdd(ORDER, r * d, m);
    ModMul(ORDER, r * d + m, sn);
    assert n == (r * d + m) % ORDER;
    assert (r * d + m) * sn == sn * r * d + sn * m;
    assert sn * n == n * sn;
  }

  /** Signing and then verifying with the matching key and the same message succeeds, high or low; and the
      recovery id gives the parity of the recomputed point. */
  lemma SignedAccepted<G(!new)>(c: Curve<G>, d: Scalar, m: Scalar, k: Scalar, s: Scalar)
    requires CurveLaws(c) && Prime(ORDER) && k != 0
    requires var r: Scalar := c.x(Times(c.g, k, c.base)) % ORDER;
             var raw := RawS(d, m, k, r);
             r != 0 && raw != 0 && (s == raw || s == V.Negate(raw))
    ensures var r: Scalar := c.x(Times(c.g, k, c.base)) % ORDER;
            && Accepts(c, r, s, Times(c.g, d, c.base), m)
            && (c.yOdd(Recomputed(c, r, s, Times(c.g, d, c.base), m))
                <==> (c.yOdd(Times(c.g, k, c.base)) == (s == RawS(d, m, k, r))))
  {
    hide Abelian, S.HasOrder, C.ExactOrder, Times, Mul, Inverse, Add, RawS, Recomputed;
    var p := Times(c.g, k, c.base);
    var r: Scalar := c.x(p) % ORDER;
    var raw := RawS(d, m, k, r);
    SigningEquation(d, m, k, r);
    UndoS(raw, k, Add(Mul(r, d), m));
    RecomputedMultiple(c, r, s, d, m);
    C.NonzeroMultiple(c.g, c.base, k);
    NegatedMultiple(c, k);
    RawIsNotNegated(raw);
  }

  lemma RawIsNotNegated(s: Scalar)
    requires s != 0
    ensures s != V.Negate(s)
  {
  }

  lemma NegatedMultiple<G(!new)>(c: Curve<G>, k: Scalar)
    requires CurveLaws(c) && k != 0
    ensures Times(c.g, V.Negate(k), c.base) == c.g.neg(Times(c.g, k, c.base)) != c.g.zero
  {
    hide Abelian, S.HasOrder, Times;
    TimesNeg(c.g, k, c.base);
    TimesOrder(c.g, 1, -(k as int), c.base);
    C.NonzeroMultiple(c.g, c.base, V.Negate(k));
  }
}
