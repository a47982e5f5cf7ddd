/** Residues modulo `m`: multiplication, powers, and Fermat's theorem when `m` is prime.  The field of
    the curve and the scalars of its group both compute in such residues. */
module Residues {
  import opened Words

  type Modulus = m: int | m > 1 witness 2

  predicate Residue(m: Modulus, x: int) {
    0 <= x < m
  }

  function MulMod(m: Modulus, a: int, b: int): (r: int)
    ensures Residue(m, r)
  {
    a * b % m
  }

  function PowMod(m: Modulus, a: int, e: nat): (r: int)
    ensures Residue(m, r)
  {
    if e == 0 then 1 else MulMod(m, a, PowMod(m, a, e - 1))
  }

  // --- laws ---

  lemma ModShift(m: Modulus, x: int, k: int)
    ensures (x + k * m) % m == x % m
  {
    var q, r := x / m, x % m;
    DivModUnique(x + k * m, m, q + k, r);
  }

  lemma ModMul(m: Modulus, x: int, y: int)
    ensures (x % m) * y % m == x * y % m
  {
    var q := x / m;
    assert x * y == (x % m) * y + (q * y) * m by {
      assert x == q * m + x % m;
      assert x * y == q * m * y + (x % m) * y;
    }
    ModShift(m, (x % m) * y, q * y);
  }

  lemma ModAdd(m: Modulus, x: int, y: int)
    ensures (x % m + y) % m == (x + y) % m
  {
    assert x + y == x % m + y + (x / m) * m;
    ModShift(m, x % m + y, x / m);
  }

  lemma MulModCommutes(m: Modulus, a: int, b: int)
    ensures MulMod(m, a, b) == MulMod(m, b, a)
  {
  }

  lemma MulModAssociates(m: Modulus, a: int, b: int, c: int)
    ensures MulMod(m, MulMod(m, a, b), c) == MulMod(m, a, MulMod(m, b, c))
  {
    ModMul(m, a * b, c);
    ModMul(m, b * c, a);
    assert a * b * c == b * c * a;
    assert a * (b * c % m) == (b * c % m) * a;
  }

  lemma MulModOne(m: Modulus, a: int)
    requires Residue(m, a)
    ensures MulMod(m, a, 1) == a == MulMod(m, 1, a)
  {
    DivModUnique(a, m, 0, a);
  }

  lemma MulModSwap(m: Modulus, a: int, b: int, c: int, d: int)
    ensures MulMod(m, MulMod(m, a, b), MulMod(m, c, d)) == MulMod(m, MulMod(m, a, c), MulMod(m, b, d))
  {
    MulModAssociates(m, a, b, MulMod(m, c, d));
    MulModAssociates(m, b, c, d);
    MulModCommutes(m, b, c);
    MulModAssociates(m, c, b, d);
    MulModAssociates(m, a, c, MulMod(m, b, d));
    hide MulMod;
  }

  lemma {:induction false} PowModAdd(m: Modulus, a: int, i: nat, j: nat)
    ensures MulMod(m, PowMod(m, a, i), PowMod(m, a, j)) == PowMod(m, a, i + j)
    decreases i
  {
    hide MulMod;
    if i == 0 {
      MulModOne(m, PowMod(m, a, j));
    } else {
      PowModAdd(m, a, i - 1, j);
      MulModAssociates(m, a, PowMod(m, a, i - 1), PowMod(m, a, j));
    }
  }

  // --- prime moduli ---

  ghost predicate Prime(m: Modulus) {
    forall d :: 1 < d < m ==> m % d != 0
  }

  /** Euclid's lemma, by descent on `a`. */
  lemma {:induction false} PrimeDivides(m: Modulus, a: int, b: int)
    requires Prime(m) && 0 < a < m && a * b % m == 0
    ensures b % m == 0
    decreases a
  {
    if a > 1 {
      var q, r := m / a, m % a;
      var k := a * b / m;
      assert r * b == (b - q * k) * m by {
        assert r * b == m * b - q * (a * b);
        assert a * b == k * m;
        assert q * (a * b) == (q * k) * m;
      }
      ModShift(m, 0, b - q * k);
      PrimeDivides(m, r, b);
    }
  }

  lemma CancelDifference(m: Modulus, a: int, b: int, c: int)
    requires MulMod(m, a, b) == MulMod(m, a, c)
    ensures a * (b - c) % m == 0
  {
    var q, s := a * b / m, a * c / m;
    assert a * (b - c) == (q - s) * m by {
      assert a * b == q * m + MulMod(m, a, b);
      assert a * c == s * m + MulMod(m, a, c);
    }
    ModShift(m, 0, q - s);
  }

  lemma MulModCancels(m: Modulus, a: int, b: int, c: int)
    requires Prime(m) && 0 < a < m && Residue(m, b) && Residue(m, c) && MulMod(m, a, b) == MulMod(m, a, c)
    ensures b == c
  {
    CancelDifference(m, a, b, c);
    PrimeDivides(m, a, b - c);
    var k := (b - c) / m;
    assert b - c == k * m;
    DivModUnique(b, m, k, c);
    DivModUnique(b, m, 0, b);
  }

  lemma NoZeroDivisors(m: Modulus, a: int, b: int)
    requires Prime(m) && 0 < a < m && 0 < b < m
    ensures MulMod(m, a, b) != 0
  {
    if MulMod(m, a, b) == 0 {
      PrimeDivides(m, a, b);
      DivModUnique(b, m, 0, b);
    }
  }

  // --- Fermat: multiplying all nonzero residues by `a` permutes them ---

  ghost function Product(m: Modulus, s: set<nat>): (r: int)
    ensures Residue(m, r)
  {
    if s == {} then 1 else var x :| x in s; MulMod(m, x, Product(m, s - {x}))
  }

  lemma {:induction false} ProductSplit(m: Modulus, s: set<nat>, x: nat)
    requires x in s
    ensures Product(m, s) == MulMod(m, x, Product(m, s - {x}))
    decreases |s|
  {
    hide MulMod;
    var y :| y in s && Product(m, s) == MulMod(m, y, Product(m, s - {y}));
    if y != x {
      ProductSplit(m, s - {y}, x);
      ProductSplit(m, s - {x}, y);
      assert s - {y} - {x} == s - {x} - {y};
      var rest := Product(m, s - {y} - {x});
      MulModAssociates(m, y, x, rest);
      MulModCommutes(m, x, y);
      MulModAssociates(m, x, y, rest);
    }
  }

  ghost function Scaled(m: Modulus, a: int, s: set<nat>): set<nat> {
    set x | x in s :: MulMod(m, a, x)
  }

  lemma {:induction false} ScaledSplit(m: Modulus, a: int, s: set<nat>, x: nat)
    requires Prime(m) && 0 < a < m && x in s && forall y <- s :: Residue(m, y)
    ensures MulMod(m, a, x) in Scaled(m, a, s)
    ensures Scaled(m, a, s) - {MulMod(m, a, x)} == Scaled(m, a, s - {x})
  {
    hide MulMod;
    forall y | y in s && MulMod(m, a, y) == MulMod(m, a, x)
      ensures y == x
    {
      MulModCancels(m, a, y, x);
    }
  }

  lemma {:induction false} ScaledProduct(m: Modulus, a: int, s: set<nat>)
    requires Prime(m) && 0 < a < m && forall y <- s :: Residue(m, y)
    ensures Product(m, Scaled(m, a, s)) == MulMod(m, PowMod(m, a, |s|), Product(m, s))
    ensures |Scaled(m, a, s)| == |s|
    decreases |s|
  {
    if s == {} {
      assert Scaled(m, a, s) == {};
      MulModOne(m, 1);
    } else {
      hide MulMod, Scaled, Residue, Prime;
      var x :| x in s;
      ScaledProduct(m, a, s - {x});
      ScaledSplit(m, a, s, x);
      ProductSplit(m, Scaled(m, a, s), MulMod(m, a, x));
      ProductSplit(m, s, x);
      MulModSwap(m, a, x, PowMod(m, a, |s - {x}|), Product(m, s - {x}));
    }
  }

  function Nonzero(n: nat): (s: set<nat>)
    ensures forall x :: x in s <==> 1 <= x <= n
    ensures |s| == n
  {
    if n == 0 then {} else Nonzero(n - 1) + {n}
  }

  lemma {:induction false} ProductNonzero(m: Modulus, s: set<nat>)
    requires Prime(m) && forall x <- s :: 0 < x < m
    ensures Product(m, s) != 0
    decreases |s|
  {
    hide MulMod;
    if s != {} {
      var x :| x in s && Product(m, s) == MulMod(m, x, Product(m, s - {x}));
      ProductNonzero(m, s - {x});
      NoZeroDivisors(m, x, Product(m, s - {x}));
    }
  }

  lemma SameSizeSubset<T>(s: set<T>, t: set<T>)
    requires s <= t && |s| == |t|
    ensures s == t
  {
    assert |t - s| == 0;
  }

  /** Fermat's little theorem. */
  lemma Fermat(m: Modulus, a: int)
    requires Prime(m) && 0 < a < m
    ensures PowMod(m, a, m - 1) == 1
  {
    hide MulMod, PowMod, Prime;
    var s := Nonzero(m - 1);
    ScaledProduct(m, a, s);
    forall y | y in Scaled(m, a, s)
      ensures y in s
    {
      var x :| x in s && y == MulMod(m, a, x);
      NoZeroDivisors(m, a, x);
    }
    SameSizeSubset(Scaled(m, a, s), s);
    var all := Product(m, s);
    ProductNonzero(m, s);
    MulModOne(m, all);
    MulModCommutes(m, PowMod(m, a, m - 1), all);
    MulModCancels(m, all, PowMod(m, a, m - 1), 1);
  }

  /** The power `m - 2` is the inverse. */
  lemma InverseIsPower(m: Modulus, a: int)
    requires Prime(m) && 0 < a < m
    ensures MulMod(m, a, PowMod(m, a, m - 2)) == 1
  {
    Fermat(m, a);
    hide MulMod;
    assert PowMod(m, a, m - 1) == MulMod(m, a, PowMod(m, a, m - 2));
  }
}
