/** Digits of a scalar in windows of `w` bits, as Pippenger's algorithm uses them. */
module WnafFixed {
  import opened Words

  const WNAF_BITS: int := 256

  /** A scalar, by value; its limbs are not modelled. */
  type Scalar = x: int | 0 <= x < 0x1_0000000000000000_0000000000000000_0000000000000000_0000000000000000

  function WnafSize(w: nat): (n: nat)
    requires 1 <= w <= 30
    ensures (n - 1) * w < WNAF_BITS <= n * w
  {
    (WNAF_BITS + w - 1) / w
  }

  /** `count` bits of the scalar from `offset` up. */
  function GetBits(s: nat, offset: nat, count: nat): (r: nat)
    ensures r < Pow2(count)
  {
    s / Pow2(offset) % Pow2(count)
  }

  /** What lies below bit `k`, and what lies from it up. */
  function Low(s: nat, k: nat): nat {
    s % Pow2(k)
  }

  function High(s: nat, k: nat): int {
    s / Pow2(k)
  }

  /** `sum(2^(w i) * d[base + i], i < m)`. */
  function Weighted(d: seq<int>, base: nat, w: nat, m: nat): int
    requires base + m <= |d|
  {
    if m == 0 then 0 else Weighted(d, base, w, m - 1) + d[base + m - 1] * Pow2(w * (m - 1))
  }

  predicate Odd(x: int) {
    x % 2 == 1
  }

  /** Zero, or odd and below `2^w` in size. */
  predicate Digit(x: int, w: nat) {
    x == 0 || (Odd(x) && -Pow2(w) < x < Pow2(w))
  }

  // --- powers and windows ---

  lemma WindowStep(s: nat, w: nat, pos: nat)
    ensures Low(s, w * (pos + 1)) == Low(s, w * pos) + GetBits(s, w * pos, w) * Pow2(w * pos)
    ensures High(s, w * (pos + 1)) == High(s, w * pos) / Pow2(w)
    ensures Pow2(w * (pos + 1)) == Pow2(w * pos) * Pow2(w)
  {
    assert w * (pos + 1) == w * pos + w;
    Pow2Add(w * pos, w);
    SplitModulus(s, Pow2(w * pos), Pow2(w));
  }

  /** The last window has fewer bits, but nothing is lost. */
  lemma LastWindow(s: Scalar, w: nat, pos: nat, last: nat)
    requires w * pos + last == WNAF_BITS && last <= w
    ensures GetBits(s, w * pos, last) == GetBits(s, w * pos, w) == s / Pow2(w * pos)
  {
    Pow256();
    Pow2Add(w * pos, last);
    Pow2Monotone(last, w);
    QuotientBelow(s, Pow2(w * pos), Pow2(last));
    var q := s / Pow2(w * pos);
    DivModUnique(q, Pow2(last), 0, q);
    DivModUnique(q, Pow2(w), 0, q);
  }

  /** A number below the modulus is its own remainder. */
  lemma NothingAbove(s: nat, k: nat)
    requires High(s, k) == 0
    ensures Low(s, k) == s
  {
    var m := Pow2(k);
    assert s == (s / m) * m + s % m;
  }

  // --- sums of digits ---

  lemma {:induction false} WeightedSame(d: seq<int>, e: seq<int>, base: nat, w: nat, m: nat)
    requires base + m <= |d| && base + m <= |e|
    requires forall i :: base <= i < base + m ==> d[i] == e[i]
    ensures Weighted(d, base, w, m) == Weighted(e, base, w, m)
    decreases m
  {
    if m > 0 {
      WeightedSame(d, e, base, w, m - 1);
    }
  }

  lemma {:induction false} WeightedZeros(d: seq<int>, base: nat, w: nat, m: nat, n: nat)
    requires m <= n && base + n <= |d|
    requires forall i :: base + m <= i < base + n ==> d[i] == 0
    ensures Weighted(d, base, w, n) == Weighted(d, base, w, m)
    decreases n
  {
    if m < n {
      WeightedZeros(d, base, w, m, n - 1);
    }
  }

  lemma WeightedNext(d: seq<int>, base: nat, w: nat, m: nat, x: int)
    requires base + m < |d|
    ensures Weighted(d[base + m := x], base, w, m + 1) == Weighted(d, base, w, m) + x * Pow2(w * m)
  {
    WeightedSame(d, d[base + m := x], base, w, m);
  }

  /** Moving one unit of window `i + 1` down as `2^w` of window `i` keeps the sum. */
  lemma {:induction false} WeightedCarry(d: seq<int>, e: seq<int>, base: nat, w: nat, i: nat, c: int, m: nat)
    requires i + 2 <= m && base + m <= |d| == |e|
    requires e == d[base + i := d[base + i] + c * Pow2(w)][base + i + 1 := d[base + i + 1] - c]
    ensures Weighted(e, base, w, m) == Weighted(d, base, w, m)
    decreases m
  {
    if m > i + 2 {
      WeightedCarry(d, e, base, w, i, c, m - 1);
    } else {
      WeightedSame(d, e, base, w, i);
      var p := Pow2(w * i);
      WindowStep(0, w, i);
      assert Pow2(w * (i + 1)) == p * Pow2(w);
      assert Weighted(e, base, w, i + 1) == Weighted(e, base, w, i) + e[base + i] * p;
      assert Weighted(d, base, w, i + 1) == Weighted(d, base, w, i) + d[base + i] * p;
      CarryArithmetic(d[base + i], d[base + i + 1], c, Pow2(w), p);
    }
  }

  lemma CarryArithmetic(x: int, y: int, c: int, b: int, p: int)
    ensures (x + c * b) * p + (y - c) * (p * b) == x * p + y * (p * b)
  {
    assert (c * b) * p == c * (p * b);
  }

  // --- the recoding ---

  /** The digits written so far stand for the low windows of `s` plus the skew; all but the last two
      are final, the last one is odd and positive. */
  ghost predicate Recoded(d: seq<int>, base: nat, w: nat, s: nat, skew: nat, pos: nat) {
    && 1 <= pos && base + pos <= |d|
    && Weighted(d, base, w, pos) == Low(s, w * pos) + skew
    && (forall i :: base <= i < base + pos ==> Digit(d[i], w))
    && Odd(d[base + pos - 1]) && d[base + pos - 1] > 0
  }

  lemma FirstDigit(d: seq<int>, base: nat, w: nat, s: nat, skew: nat)
    requires w >= 1 && base < |d| && skew == 1 - s % 2 && d[base] == GetBits(s, 0, w) + skew
    ensures Recoded(d, base, w, s, skew, 1)
  {
    assert Pow2(w * 0) == 1 && w * 1 == w;
    assert Weighted(d, base, w, 1) == Weighted(d, base, w, 0) + d[base] * Pow2(w * 0);
    LowBits(s, w);
  }

  /** The low `w` bits are as odd as the number itself. */
  lemma LowBits(s: nat, w: nat)
    requires w >= 1
    ensures s % Pow2(w) % 2 == s % 2
    ensures s % 2 == 0 ==> s % Pow2(w) + 1 < Pow2(w)
  {
    var q, r, h := s / Pow2(w), s % Pow2(w), Pow2(w - 1);
    assert s == q * Pow2(w) + r;
    assert q * (2 * h) == 2 * (q * h);
    SameParity(s, r, q * h);
    SameParity(Pow2(w), 0, h);
  }

  lemma SameParity(x: int, y: int, k: int)
    requires x == 2 * k + y
    ensures x % 2 == y % 2
  {
  }

  /** Adding or taking `2^w` turns a nonzero digit of one sign into one of the other. */
  lemma OtherSign(x: int, w: nat)
    requires w >= 1 && Digit(x, w) && x != 0
    ensures var y := if x > 0 then x - Pow2(w) else x + Pow2(w); Digit(y, w) && (y > 0 <==> x < 0)
  {
    assert Pow2(w) == 2 * Pow2(w - 1);
  }

  lemma WindowDigit(val: nat, w: nat)
    requires w >= 1 && val < Pow2(w)
    ensures val % 2 == 0 ==> Digit(val + 1, w)
    ensures val % 2 == 1 ==> Digit(val, w)
  {
    assert Pow2(w) == 2 * Pow2(w - 1);
  }

  /** One more window: an even value borrows from the digit below. */
  lemma NextDigit(d: seq<int>, e: seq<int>, base: nat, w: nat, s: nat, skew: nat, pos: nat, val: nat)
    requires Recoded(d, base, w, s, skew, pos) && w >= 1 && base + pos < |d| == |e| && val == GetBits(s, w * pos, w)
    requires e == if val % 2 == 0 then d[base + pos - 1 := d[base + pos - 1] - Pow2(w)][base + pos := val + 1]
                  else d[base + pos := val]
    ensures Recoded(e, base, w, s, skew, pos + 1)
  {
    hide Weighted, Pow2, GetBits, Low;
    WindowStep(s, w, pos);
    WeightedNext(d, base, w, pos, val);
    WindowDigit(val, w);
    var f := d[base + pos := val];
    assert Weighted(f, base, w, pos + 1) == Low(s, w * (pos + 1)) + skew;
    if val % 2 == 0 {
      OtherSign(d[base + pos - 1], w);
      BorrowDigit(d, e, base, w, pos, val);
    }
  }

  lemma BorrowDigit(d: seq<int>, e: seq<int>, base: nat, w: nat, pos: nat, val: nat)
    requires pos >= 1 && base + pos < |d|
    requires e == d[base + pos - 1 := d[base + pos - 1] - Pow2(w)][base + pos := val + 1]
    ensures Weighted(e, base, w, pos + 1) == Weighted(d[base + pos := val], base, w, pos + 1)
  {
    hide Weighted, Pow2;
    var f := d[base + pos := val];
    assert e == f[base + pos - 1 := f[base + pos - 1] + -1 * Pow2(w)][base + pos := f[base + pos] - -1];
    WeightedCarry(f, e, base, w, pos - 1, -1, pos + 1);
  }

  /** Clearing a digit of 1 or -1 into a digit of the other sign below it. */
  lemma ClearDigit(d: seq<int>, e: seq<int>, base: nat, w: nat, s: nat, skew: nat, pos: nat, c: int)
    requires Recoded(d, base, w, s, skew, pos + 1) && w >= 1 && pos >= 2
    requires c == d[base + pos - 1] && ((c == 1 && d[base + pos - 2] < 0) || (c == -1 && d[base + pos - 2] > 0))
    requires e == d[base + pos - 2 := d[base + pos - 2] + c * Pow2(w)][base + pos - 1 := 0]
    ensures Recoded(e, base, w, s, skew, pos + 1)
  {
    hide Weighted, Pow2, Low;
    WeightedCarry(d, e, base, w, pos - 2, c, pos + 1);
    OtherSign(d[base + pos - 2], w);
    assert c * Pow2(w) == if c == 1 then Pow2(w) else -Pow2(w);
  }

  /** The position of the highest nonzero window, above which the digits are set to zero. */
  method TopWindow(wnaf: array<int>, base: nat, s: Scalar, w: nat, n: nat) returns (pos: nat)
    requires 1 <= w && n >= 1 && (n - 1) * w < WNAF_BITS <= n * w && base + n <= wnaf.Length
    modifies wnaf
    ensures forall i :: 0 <= i < wnaf.Length && !(base < i < base + n) ==> wnaf[i] == old(wnaf[i])
    ensures pos < n && High(s, w * (pos + 1)) == 0
    ensures forall i :: base + pos < i < base + n ==> wnaf[i] == 0
  {
    hide Pow2, GetBits, High;
    var last := WNAF_BITS - (n - 1) * w;
    pos := n - 1;
    Above(s, w, n);
    while pos > 0
      invariant 0 <= pos < n && High(s, w * (pos + 1)) == 0
      invariant forall i :: 0 <= i < wnaf.Length && !(base < i < base + n) ==> wnaf[i] == old(wnaf[i])
      invariant forall i :: base + pos < i < base + n ==> wnaf[i] == 0
    {
      var val := GetBits(s, pos * w, if pos == n - 1 then last else w);
      WindowBits(s, w, pos, n);
      if val != 0 {
        break;
      }
      wnaf[base + pos] := 0;
      pos := pos - 1;
    }
  }

  /** Set the digit before the last to zero if it is 1 or -1 and the one below it has the other sign; only
      earlier digits are touched, because the next step relies on the last one being odd. */
  method ClearPrevious(wnaf: array<int>, base: nat, w: nat, pos: nat, ghost s: nat, ghost skew: nat)
    requires w >= 1 && pos >= 1 && base + pos < wnaf.Length && Recoded(wnaf[..], base, w, s, skew, pos + 1)
    modifies wnaf
    ensures Recoded(wnaf[..], base, w, s, skew, pos + 1)
    ensures forall i :: 0 <= i < wnaf.Length && !(base <= i < base + pos) ==> wnaf[i] == old(wnaf[i])
  {
    hide Pow2, Recoded, Digit, Weighted;
    ghost var e := wnaf[..];
    if pos >= 2 && ((wnaf[base + pos - 1] == 1 && wnaf[base + pos - 2] < 0)
                    || (wnaf[base + pos - 1] == -1 && wnaf[base + pos - 2] > 0)) {
      if wnaf[base + pos - 1] == 1 {
        wnaf[base + pos - 2] := wnaf[base + pos - 2] + Pow2(w);
      } else {
        wnaf[base + pos - 2] := wnaf[base + pos - 2] - Pow2(w);
      }
      wnaf[base + pos - 1] := 0;
      ClearDigit(e, wnaf[..], base, w, s, skew, pos, e[base + pos - 1]);
    }
  }

  method RecodeFixed(wnaf: array<int>, base: nat, s: Scalar, w: nat) returns (skew: nat)
    requires 1 <= w <= 30 && base + WnafSize(w) <= wnaf.Length
    modifies wnaf
    ensures forall i :: 0 <= i < wnaf.Length && !(base <= i < base + WnafSize(w)) ==> wnaf[i] == old(wnaf[i])
    ensures Weighted(wnaf[..], base, w, WnafSize(w)) - skew == s && skew <= 1
    ensures forall i :: base <= i < base + WnafSize(w) ==> Digit(wnaf[i], w)
  {
    hide Pow2, GetBits, Recoded, Low, High, Digit, Weighted;
    var n := WnafSize(w);
    if s == 0 {
      for pos := 0 to n
        invariant forall i :: 0 <= i < wnaf.Length && !(base <= i < base + n) ==> wnaf[i] == old(wnaf[i])
        invariant forall i :: base <= i < base + pos ==> wnaf[i] == 0
      {
        wnaf[base + pos] := 0;
      }
      ZeroDigits(wnaf[..], base, w, n);
      return 0;
    }
    skew := if s % 2 == 0 then 1 else 0;
    wnaf[base] := GetBits(s, 0, w) + skew;
    var last := WNAF_BITS - (n - 1) * w;
    var max := TopWindow(wnaf, base, s, w, n);
    var pos := 1;
    FirstDigit(wnaf[..], base, w, s, skew);
    while pos <= max
      invariant 1 <= pos <= max + 1
      invariant forall i :: 0 <= i < wnaf.Length && !(base <= i < base + n) ==> wnaf[i] == old(wnaf[i])
      invariant forall i :: base + max < i < base + n ==> wnaf[i] == 0
      invariant Recoded(wnaf[..], base, w, s, skew, pos)
    {
      ghost var d := wnaf[..];
      var val := GetBits(s, pos * w, if pos == n - 1 then last else w);
      WindowBits(s, w, pos, n);
      if val % 2 == 0 {
        wnaf[base + pos - 1] := wnaf[base + pos - 1] - Pow2(w);
        wnaf[base + pos] := val + 1;
      } else {
        wnaf[base + pos] := val;
      }
      NextDigit(d, wnaf[..], base, w, s, skew, pos, val);
      ClearPrevious(wnaf, base, w, pos, s, skew);
      pos := pos + 1;
    }
    NothingAbove(s, w * (max + 1));
    WeightedZeros(wnaf[..], base, w, max + 1, n);
    RecodedDigits(wnaf[..], base, w, s, skew, max + 1);
  }

  lemma RecodedDigits(d: seq<int>, base: nat, w: nat, s: nat, skew: nat, pos: nat)
    requires Recoded(d, base, w, s, skew, pos)
    ensures Weighted(d, base, w, pos) == Low(s, w * pos) + skew
    ensures forall i :: base <= i < base + pos ==> Digit(d[i], w)
    ensures Digit(0, w)
  {
  }

  lemma ZeroDigits(d: seq<int>, base: nat, w: nat, n: nat)
    requires base + n <= |d| && forall i :: base <= i < base + n ==> d[i] == 0
    ensures Weighted(d, base, w, n) == 0 && Digit(0, w)
  {
    WeightedZeros(d, base, w, 0, n);
  }

  /** Nothing lies above the top window. */
  lemma Above(s: Scalar, w: nat, n: nat)
    requires n * w >= WNAF_BITS
    ensures High(s, w * n) == 0
  {
    assert w * n == n * w;
    Pow256();
    Pow2Monotone(WNAF_BITS, w * n);
    DivModUnique(s, Pow2(w * n), 0, s);
  }

  /** The bits the source reads for a window are that window, and if they are zero the next lower
      windows hold all of `s`. */
  lemma WindowBits(s: Scalar, w: nat, pos: nat, n: nat)
    requires 1 <= w && pos < n && (n - 1) * w < WNAF_BITS <= n * w
    ensures pos * w == w * pos
    ensures var last := WNAF_BITS - (n - 1) * w;
            GetBits(s, w * pos, if pos == n - 1 then last else w) == GetBits(s, w * pos, w)
    ensures High(s, w * (pos + 1)) == 0 && GetBits(s, w * pos, w) == 0 ==> High(s, w * pos) == 0
  {
    WindowStep(s, w, pos);
    if pos == n - 1 {
      LastWindow(s, w, pos, WNAF_BITS - (n - 1) * w);
    }
    ZeroParts(s / Pow2(w * pos), Pow2(w));
  }

  lemma ZeroParts(q: int, m: int)
    requires m > 0
    ensures q / m == 0 && q % m == 0 ==> q == 0
  {
    assert q == (q / m) * m + q % m;
  }
}
