/** Machine words: 64- and 128-bit values as bounded integers, and the bitwise operators on them. */
module Words {
  type U64 = x: int | 0 <= x < 0x1_0000_0000_0000_0000
  type U128 = x: int | 0 <= x < 0x1_0000_0000_0000_0000_0000_0000_0000_0000

  function Pow2(n: nat): (p: int)
    ensures p > 0
  {
    if n == 0 then 1 else 2 * Pow2(n - 1)
  }

  function And(x: nat, y: nat): nat {
    if x == 0 || y == 0 then 0 else 2 * And(x / 2, y / 2) + (x % 2) * (y % 2)
  }

  function Or(x: nat, y: nat): nat {
    if x == 0 then y else if y == 0 then x
    else 2 * Or(x / 2, y / 2) + (if x % 2 == 1 || y % 2 == 1 then 1 else 0)
  }

  function Xor(x: nat, y: nat): nat {
    if x == 0 then y else if y == 0 then x
    else 2 * Xor(x / 2, y / 2) + (if x % 2 != y % 2 then 1 else 0)
  }

  /** The conjunction of words of `n` bits is all ones exactly when both are. */
  lemma {:induction false} AndAllOnes(x: nat, y: nat, n: nat)
    requires x < Pow2(n) && y < Pow2(n)
    ensures And(x, y) < Pow2(n)
    ensures And(x, y) == Pow2(n) - 1 <==> x == y == Pow2(n) - 1
    decreases n
  {
    if x != 0 && y != 0 {
      AndAllOnes(x / 2, y / 2, n - 1);
      BitProduct(x, y);
    }
  }

  lemma BitProduct(x: nat, y: nat)
    ensures (x % 2) * (y % 2) == if x % 2 == 1 && y % 2 == 1 then 1 else 0
  {
  }

  lemma {:induction false} OrZero(x: nat, y: nat)
    ensures Or(x, y) == 0 <==> x == y == 0
    decreases x
  {
    if x != 0 && y != 0 {
      OrZero(x / 2, y / 2);
    }
  }

  /** `x ^ c` is all ones exactly when `x` is the complement of `c`. */
  lemma {:induction false} XorComplement(x: nat, c: nat, n: nat)
    requires x < Pow2(n) && c < Pow2(n)
    ensures Xor(x, c) < Pow2(n)
    ensures Xor(x, c) == Pow2(n) - 1 <==> x == Pow2(n) - 1 - c
    decreases n
  {
    if x != 0 && c != 0 {
      XorComplement(x / 2, c / 2, n - 1);
    }
  }

  /** With no common bits, `|` adds. */
  lemma {:induction false} OrDisjoint(x: nat, y: nat, n: nat)
    requires y < Pow2(n)
    ensures Or(x * Pow2(n), y) == x * Pow2(n) + y
    decreases n
  {
    if x == 0 {
      assert x * Pow2(n) == 0;
    } else if y != 0 {
      assert x * Pow2(n) == 2 * (x * Pow2(n - 1));
      OrDisjoint(x, y / 2, n - 1);
      Positive(x, Pow2(n));
    }
  }

  lemma Positive(x: int, y: int)
    requires x > 0 && y > 0
    ensures x * y > 0
  {
  }

  lemma MulBound(x: int, y: int, m: int, n: int)
    requires 0 <= x <= m && 0 <= y <= n
    ensures 0 <= x * y <= m * n
  {
    assert x * y <= m * y;
    assert m * y <= m * n;
  }

  lemma {:induction false} Pow2Add(m: nat, n: nat)
    ensures Pow2(m + n) == Pow2(m) * Pow2(n)
    decreases m
  {
    if m > 0 {
      Pow2Add(m - 1, n);
      assert 2 * (Pow2(m - 1) * Pow2(n)) == Pow2(m) * Pow2(n);
    }
  }

  lemma {:induction false} Pow2Monotone(m: nat, n: nat)
    requires m <= n
    ensures Pow2(m) <= Pow2(n)
    decreases n
  {
    if m < n {
      Pow2Monotone(m, n - 1);
    }
  }

  lemma Pow256()
    ensures Pow2(256) == 0x1_0000000000000000_0000000000000000_0000000000000000_0000000000000000
  {
    assert Pow2(8) == 0x100;
    hide Pow2;
    Pow2Add(8, 8);
    Pow2Add(16, 16);
    Pow2Add(32, 32);
    assert Pow2(64) == 0x10000000000000000;
    Pow2Add(64, 64);
    Pow2Add(128, 128);
  }

  lemma ScaleUp(a: int, x: int, y: int)
    requires a >= 0 && x <= y
    ensures a * x <= a * y
  {
  }

  lemma DivModUnique(x: int, m: int, q: int, r: int)
    requires 0 <= r < m && x == q * m + r
    ensures x / m == q && x % m == r
  {
    var d := x / m - q;
    assert x == (x / m) * m + x % m;
    assert d * m == r - x % m;
    if d >= 1 {
      ScaleUp(m, 1, d);
    } else if d <= -1 {
      ScaleUp(m, d, -1);
    }
  }

  /** Splitting off one more window: `s mod AB = s mod A + (s / A mod B) A`. */
  lemma SplitModulus(s: nat, a: int, b: int)
    requires a > 0 && b > 0
    ensures a * b > 0
    ensures s % (a * b) == s % a + (s / a % b) * a
    ensures s / (a * b) == s / a / b
  {
    Positive(a, b);
    var q := s / a;
    var t := s % a + (q % b) * a;
    assert q == (q / b) * b + q % b;
    assert s == q * a + s % a;
    assert q * a == (q / b) * b * a + (q % b) * a;
    assert (q / b) * b * a == (q / b) * (a * b);
    ScaleUp(a, q % b, b - 1);
    assert a * (q % b) == (q % b) * a && a * (b - 1) == a * b - a;
    DivModUnique(s, a * b, q / b, t);
  }

  lemma QuotientBelow(s: nat, a: int, b: int)
    requires a > 0 && s < a * b
    ensures s / a < b
  {
    var q := s / a;
    assert s == q * a + s % a;
    if q >= b {
      ScaleUp(a, b, q);
    }
  }

  lemma PowersOfTwo()
    ensures Pow2(4) == 0x10 && Pow2(52) == 0x10000000000000
  {
    assert Pow2(8) == 0x100;
    assert Pow2(16) == 0x10000;
    assert Pow2(24) == 0x1000000;
    assert Pow2(32) == 0x100000000;
    assert Pow2(40) == 0x10000000000;
    assert Pow2(48) == 0x1000000000000;
  }
}
