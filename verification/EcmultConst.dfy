/** Constant-time multiplication: every digit odd, a fixed number of them, and a skew taken off at the end. */
module EcmultConst {
  import opened Words
  import opened Group
  import opened WnafFixed
  import V = WnafVar
  import S = Strauss
  import P = Pippenger

  const ORDER: int := V.ORDER

  /** More than half the group order. */
  predicate IsHigh(a: V.Reduced) {
    a > ORDER / 2
  }

  function WnafSizeBits(bits: nat, w: nat): (n: nat)
    requires w >= 1
    ensures n * w >= bits
  {
    (bits + w - 1) / w
  }

  /** Odd, and below `2^w` in size: never zero. */
  predicate OddDigit(x: int, w: nat) {
    Odd(x) && -Pow2(w) < x < Pow2(w)
  }

  /** The odd number the digits encode. */
  function Skewed(a: V.Reduced, skew: nat): int {
    if IsHigh(a) && a != ORDER - 1 then ORDER - (a + skew) else if IsHigh(a) then 1 else a + skew
  }

  function GlobalSign(a: V.Reduced): int {
    if IsHigh(a) && a != ORDER - 1 then -1 else 1
  }

  function Skew(a: V.Reduced): nat {
    if IsHigh(a) == (a % 2 == 0) then 2 else 1
  }

  /** The skewed number is odd, positive and short, and carries the scalar modulo the order. */
  lemma SkewedIsOdd(a: V.Reduced)
    ensures var s := Skewed(a, Skew(a));
            Odd(s) && 0 < s <= ORDER / 2 + 2
            && (GlobalSign(a) * s - Skew(a) == a || GlobalSign(a) * s - Skew(a) == a - ORDER)
  {
  }

  /** The scalar operations at the top of the recoding: add 1 or 2, then negate a high scalar.
      Minus one is only negated. */
  method MakeOdd(a: V.Reduced) returns (s: V.Reduced, globalSign: int, skew: nat)
    ensures s == Skewed(a, Skew(a)) && globalSign == GlobalSign(a) && skew == Skew(a)
  {
    s := a;
    var flip := IsHigh(s);
    var bit := if flip != (s % 2 != 0) then 1 else 0;
    var notNegOne := V.Negate(s) != 1;
    if notNegOne {
      s := s + if bit == 1 then 2 else 1;
    }
    globalSign := if flip then -1 else 1;
    if flip {
      s := V.Negate(s);
    }
    globalSign := globalSign * if notNegOne then 1 else -1;
    skew := if bit == 1 then 2 else 1;
  }

  function Rest(sign: int, last: int, s: int, b: int, p: int): int {
    sign * (last + s * b) * p
  }

  /** The digits written, with the next one still in hand, and what is left of the scalar. */
  ghost predicate Encoding(d: seq<int>, w: nat, s0: nat, sign: int, word: nat, last: int, s: nat) {
    && word <= |d|
    && Weighted(d, 0, w, word) + Rest(sign, last, s, Pow2(w), Pow2(w * word)) == sign * s0
    && Odd(last) && 0 < last < Pow2(w)
    && forall i :: 0 <= i < word ==> OddDigit(d[i], w)
  }

  lemma TakeWindow(s: nat, w: nat)
    ensures s == s % Pow2(w) + (s / Pow2(w)) * Pow2(w) && 0 <= s % Pow2(w) < Pow2(w) && s / Pow2(w) >= 0
  {
    var q := s / Pow2(w);
    assert s == q * Pow2(w) + s % Pow2(w);
    if q < 0 {
      ScaleUp(Pow2(w), q, -1);
    }
  }

  /** Step 4 of the recoding: an even window borrows one unit from the digit below it. */
  lemma EncodeStep(d: seq<int>, e: seq<int>, w: nat, s0: nat, sign: int, word: nat, last: int, s: nat, u: int, even: int, s': nat)
    requires Encoding(d, w, s0, sign, word, last, s) && w >= 1 && word < |d| && (sign == 1 || sign == -1)
    requires 0 <= u < Pow2(w) && s == u + s' * Pow2(w) && even == (if u % 2 == 0 then 1 else 0)
    requires e == d[word := (last - even * Pow2(w)) * sign]
    ensures Encoding(e, w, s0, sign, word + 1, u + even, s')
  {
    hide Weighted, Pow2, Rest, OddDigit;
    var x := (last - even * Pow2(w)) * sign;
    BorrowedDigit(last, even, sign, w);
    NextLast(u, w);
    WeightedNext(d, 0, w, word, x);
    WindowStep(0, w, word);
    EncodeArithmetic(sign, last, s, s', u, even, Pow2(w), Pow2(w * word));
  }

  lemma BorrowedDigit(last: int, even: int, sign: int, w: nat)
    requires w >= 1 && Odd(last) && 0 < last < Pow2(w) && (even == 0 || even == 1) && (sign == 1 || sign == -1)
    ensures OddDigit((last - even * Pow2(w)) * sign, w)
  {
    hide Pow2;
    HalfPower(w);
    SignedOdd(if even == 0 then last else last - Pow2(w), sign, Pow2(w));
  }

  lemma HalfPower(w: nat)
    requires w >= 1
    ensures Pow2(w) % 2 == 0
  {
  }

  lemma SignedOdd(y: int, sign: int, b: int)
    requires Odd(y) && -b < y < b && (sign == 1 || sign == -1)
    ensures Odd(y * sign) && -b < y * sign < b
  {
    if sign == -1 {
      assert y * sign == -y;
    }
  }

  lemma NextLast(u: int, w: nat)
    requires w >= 1 && 0 <= u < Pow2(w)
    ensures var last := u + if u % 2 == 0 then 1 else 0; Odd(last) && 0 < last < Pow2(w)
  {
    assert Pow2(w) == 2 * Pow2(w - 1);
  }

  lemma EncodeArithmetic(sign: int, last: int, s: int, s': int, u: int, even: int, b: int, p: int)
    requires s == u + s' * b
    ensures Rest(sign, last, s, b, p) == ((last - even * b) * sign) * p + Rest(sign, u + even, s', b, p * b)
  {
    var x := u + even + s' * b;
    var y := last - even * b;
    assert last + s * b == y + x * b by {
      assert x * b == s * b + even * b;
    }
    assert sign * (y + x * b) * p == (y * sign) * p + sign * x * (p * b) by {
      assert sign * (y + x * b) == y * sign + sign * x * b;
      assert sign * x * b * p == sign * x * (p * b);
    }
  }

  lemma StartEncoding(d: seq<int>, w: nat, s: nat, sign: int)
    requires w >= 1 && Odd(s) && (sign == 1 || sign == -1)
    ensures Encoding(d, w, s, sign, 0, s % Pow2(w), s / Pow2(w)) && s / Pow2(w) >= 0
  {
    TakeWindow(s, w);
    LowBits(s, w);
    assert w * 0 == 0 && Pow2(0) == 1;
  }

  lemma LastPositive(d: seq<int>, w: nat, s0: nat, sign: int, word: nat, last: int, s: nat)
    requires Encoding(d, w, s0, sign, word, last, s)
    ensures last > 0
  {
  }

  lemma WordsLeft(word: nat, size: nat, w: nat)
    requires w >= 1 && word * w < size
    ensures word < WnafSizeBits(size, w)
  {
    if word >= WnafSizeBits(size, w) {
      MulBound(WnafSizeBits(size, w), w, word, w);
    }
  }

  lemma WordsDone(word: nat, size: nat, w: nat)
    requires w >= 1 && size >= 1 && word >= 1 && word * w >= size && (word - 1) * w < size
    ensures word == WnafSizeBits(size, w) >= 1
  {
    DivModUnique(size + w - 1, w, word, size + w - 1 - word * w);
  }

  /** Digits below `2^w` in size cannot reach the next window. */
  lemma {:induction false} WeightedBound(d: seq<int>, w: nat, m: nat)
    requires m <= |d| && forall i :: 0 <= i < m ==> OddDigit(d[i], w)
    ensures -Pow2(w * m) < Weighted(d, 0, w, m) < Pow2(w * m)
    decreases m
  {
    if m == 0 {
      assert w * 0 == 0;
    } else {
      WeightedBound(d, w, m - 1);
      WindowStep(0, w, m - 1);
      assert OddDigit(d[m - 1], w);
      BoundStep(Weighted(d, 0, w, m - 1), d[m - 1], Pow2(w * (m - 1)), Pow2(w));
    }
  }

  lemma BoundStep(lower: int, x: int, p: int, b: int)
    requires -p < lower < p && -b < x < b
    ensures -(p * b) < lower + x * p < p * b
  {
    ScaleUp(p, x, b - 1);
    ScaleUp(p, 1 - b, x);
    assert p * (b - 1) == p * b - p && p * (1 - b) == p - p * b && p * x == x * p;
  }

  lemma SkewedIsShort(a: V.Reduced, size: nat)
    requires a < Pow2(size) && 1 <= size <= 256
    ensures Skewed(a, Skew(a)) <= Pow2(size) + 1
  {
    SkewedIsOdd(a);
    if IsHigh(a) && size < 256 {
      Pow256();
      Pow2Monotone(size, 255);
      assert Pow2(256) == 2 * Pow2(255);
    } else if IsHigh(a) {
      Pow256();
    }
  }

  /** When the words run out nothing is left of the scalar but a top digit of one. */
  lemma FinishEncoding(d: seq<int>, w: nat, s0: nat, sign: int, word: nat, u: int, s: nat, size: nat, a: V.Reduced)
    requires Encoding(d, w, s0, sign, word, u, s) && w >= 1 && word >= 1 && word * w >= size && (sign == 1 || sign == -1)
    requires s0 == Skewed(a, Skew(a)) && a < Pow2(size) && 1 <= size <= 256
    ensures s == 0 && u == 1
    ensures Weighted(d, 0, w, word) + sign * u * Pow2(w * word) == sign * s0
    ensures forall i :: 0 <= i < word ==> OddDigit(d[i], w)
    ensures OddDigit(u * sign, w)
  {
    hide Weighted, Pow2, Encoding, OddDigit, Rest;
    EncodingMeans(d, w, s0, sign, word, u, s);
    SkewedIsShort(a, size);
    WeightedBound(d, w, word);
    assert w * word == word * w;
    Pow2Monotone(size, w * word);
    Pow2Monotone(1, w * word);
    Pow2Monotone(1, w);
    V.PowersFromZero();
    OneDigit(sign, w);
    TopIsOne(Weighted(d, 0, w, word), sign, u, s, Pow2(w), Pow2(w * word), s0);
    assert u * sign == sign && sign * u == sign;
  }

  lemma EncodingMeans(d: seq<int>, w: nat, s0: nat, sign: int, word: nat, u: int, s: nat)
    requires Encoding(d, w, s0, sign, word, u, s) && w >= 1
    ensures word <= |d| && Odd(u) && u > 0
    ensures Weighted(d, 0, w, word) + Rest(sign, u, s, Pow2(w), Pow2(w * word)) == sign * s0
    ensures forall i :: 0 <= i < word ==> OddDigit(d[i], w)
  {
    hide Weighted, Pow2, OddDigit, Rest;
  }

  lemma OneDigit(sign: int, w: nat)
    requires (sign == 1 || sign == -1) && w >= 1
    ensures OddDigit(sign, w)
  {
  }

  lemma TopIsOne(lower: int, sign: int, u: int, s: nat, b: int, p: int, s0: int)
    requires (sign == 1 || sign == -1) && b >= 2 && p >= 2 && Odd(u) && u > 0
    requires -p < lower < p && lower + Rest(sign, u, s, b, p) == sign * s0 && s0 <= p + 1
    ensures s == 0 && u == 1 && Rest(sign, u, s, b, p) == sign * u * p
  {
    var x := u + s * b;
    assert sign * x * p == sign * (x * p);
    assert x * p <= 2 * p;
    if x >= 3 {
      MulBound(3, p, x, p);
    }
    if s >= 1 {
      MulBound(1, b, s, b);
    }
  }

  /** Digits that are all odd, whose sum less the skew is the scalar, or the scalar less the order. */
  method WnafConst(wnaf: array<int>, a: V.Reduced, w: nat, size: nat) returns (skew: nat)
    requires 1 <= w <= 30 && 1 <= size <= 256 && a < Pow2(size)
    requires WnafSizeBits(size, w) < wnaf.Length
    modifies wnaf
    ensures var n := WnafSizeBits(size, w) + 1;
            && (Weighted(wnaf[..], 0, w, n) - skew == a || Weighted(wnaf[..], 0, w, n) - skew == a - ORDER)
            && (forall i :: 0 <= i < n ==> OddDigit(wnaf[i], w))
            && Weighted(wnaf[..], 0, w, n) == GlobalSign(a) * Skewed(a, Skew(a))
    ensures skew == Skew(a)
  {
    hide Weighted, Pow2, Encoding;
    SkewedIsOdd(a);
    var s: nat, globalSign;
    s, globalSign, skew := MakeOdd(a);
    ghost var s0 := s;
    var word := 0;
    StartEncoding(wnaf[..], w, s, globalSign);
    var uLast := s % Pow2(w);
    s := s / Pow2(w);
    var u := 0;
    LastPositive(wnaf[..], w, s0, globalSign, 0, uLast, s);
    while word * w < size
      invariant word <= WnafSizeBits(size, w)
      invariant Encoding(wnaf[..], w, s0, globalSign, word, uLast, s)
      invariant word > 0 ==> u == uLast
      invariant uLast > 0 && (word > 0 ==> (word - 1) * w < size)
      decreases WnafSizeBits(size, w) - word
    {
      WordsLeft(word, size, w);
      TakeWindow(s, w);
      ghost var d, s1 := wnaf[..], s;
      u := s % Pow2(w);
      s := s / Pow2(w);
      ghost var u1 := u;
      var even := if u % 2 == 0 then 1 else 0;
      var sign := if uLast > 0 then 1 else -1;
      u := u + sign * even;
      ghost var last1 := uLast;
      uLast := uLast - sign * even * Pow2(w);
      wnaf[word] := uLast * globalSign;
      EncodeStep(d, wnaf[..], w, s0, globalSign, word, last1, s1, u1, even, s);
      word := word + 1;
      uLast := u;
      LastPositive(wnaf[..], w, s0, globalSign, word, uLast, s);
    }
    assert word > 0;
    WordsDone(word, size, w);
    ghost var d := wnaf[..];
    FinishEncoding(d, w, s0, globalSign, word, u, s, size, a);
    wnaf[word] := u * globalSign;
    WeightedNext(d, 0, w, word, u * globalSign);
  }

  // --- the multiplication ---

  /** The entry picked by a scan of the whole table, negated for a negative digit. */
  method ConstTableGet<G(!new)>(g: Group<G>, pre: seq<G>, n: int, ghost a: G) returns (r: G)
    requires Abelian(g) && S.OddTable(g, pre, 0, |pre|, a) && |pre| == S.TableSize(S.WINDOW_A)
    requires OddDigit(n, S.WINDOW_A - 1)
    ensures r == Times(g, n, a)
  {
    hide Abelian, Times;
    assert |pre| == 8 && -16 < n < 16;
    var absN := if n > 0 then n else -n;
    var idx := absN / 2;
    r := g.zero;
    for m := 0 to |pre|
      invariant m > idx ==> r == pre[idx]
    {
      r := if m == idx then pre[m] else r;
    }
    assert pre[0 + idx] == Times(g, 2 * idx + 1, a);
    TimesNeg(g, absN, a);
    r := if n != absN then g.neg(r) else r;
  }

  /** No smaller multiple of `a` than the order's is zero. */
  ghost predicate ExactOrder<G>(g: Group<G>, a: G) {
    forall k :: 0 < k < ORDER ==> Times(g, k, a) != g.zero
  }

  lemma NonzeroMultiple<G(!new)>(g: Group<G>, a: G, c: int)
    requires Abelian(g) && ExactOrder(g, a) && c != 0 && -ORDER < c < ORDER
    ensures Times(g, c, a) != g.zero
  {
    hide Abelian, Times;
    TimesNeg(g, c, a);
    NegZero(g);
  }

  lemma NegZero<G(!new)>(g: Group<G>)
    requires Abelian(g)
    ensures g.neg(g.zero) == g.zero
  {
    hide Abelian;
    Inverse(g, g.zero);
    Zero(g, g.neg(g.zero));
  }

  /** `k` doublings, by a formula that is wrong for the point at infinity: it is never doubled here. */
  method DoubleNonzero<G(!new)>(g: Group<G>, x: G, k: nat, ghost c: int, ghost a: G) returns (r: G)
    requires Abelian(g) && ExactOrder(g, a) && x == Times(g, c, a)
    requires c != 0 && -2 * ORDER < Pow2(k) * c < 2 * ORDER
    ensures r == Times(g, Pow2(k) * c, a)
  {
    hide Abelian, Times, ExactOrder;
    r := x;
    for j := 0 to k
      invariant r == Times(g, Pow2(j) * c, a)
    {
      HalfWay(j, k, c);
      NonzeroMultiple(g, a, Pow2(j) * c);
      assert r != g.zero;
      TimesAdd(g, Pow2(j) * c, Pow2(j) * c, a);
      assert Pow2(j + 1) * c == Pow2(j) * c + Pow2(j) * c by { DoubleCount(Pow2(j), c); }
      r := g.add(r, r);
    }
  }

  lemma HalfWay(j: nat, k: nat, c: int)
    requires j < k && c != 0 && -2 * ORDER < Pow2(k) * c < 2 * ORDER
    ensures Pow2(j) * c != 0 && -ORDER < Pow2(j) * c < ORDER
  {
    Pow2Monotone(j + 1, k);
    assert Pow2(j + 1) == 2 * Pow2(j);
    hide Pow2;
    if c > 0 {
      HalfProduct(Pow2(j), Pow2(k), c);
    } else {
      HalfProduct(Pow2(j), Pow2(k), -c);
      assert Pow2(j) * -c == -(Pow2(j) * c) && Pow2(k) * -c == -(Pow2(k) * c);
    }
  }

  lemma HalfProduct(p: int, q: int, x: int)
    requires 0 < p && 2 * p <= q && x > 0
    ensures 0 < 2 * (p * x) <= q * x
  {
    MulBound(2 * p, x, q, x);
    Positive(p, x);
    assert 2 * p * x == 2 * (p * x);
  }

  lemma DoubleCount(p: int, c: int)
    ensures 2 * p * c == p * c + p * c
  {
  }

  /** The digits from `i` up, as a number: odd, hence never zero, and of the sign of the top digit. */
  function UpperDigits(d: seq<int>, n: nat, i: nat): int
    requires i <= n <= |d|
  {
    P.Upper(d, 0, S.WINDOW_A - 1, n, i)
  }

  lemma UpperOdd(d: seq<int>, n: nat, i: nat)
    requires i < n <= |d| && OddDigit(d[i], S.WINDOW_A - 1)
    ensures Odd(UpperDigits(d, n, i))
  {
    hide UpperDigits, Pow2;
    TableOfEight();
    UpperNext(d, n, i);
    OddAboveEven(UpperDigits(d, n, i + 1), d[i]);
  }

  lemma OddAboveEven(u: int, x: int)
    requires Odd(x)
    ensures Odd(16 * u + x)
  {
  }

  /** What is multiplied before the last window is neither zero nor large enough to wrap around the order. */
  lemma PartialMultiple(d: seq<int>, n: nat, i: nat, s0: int)
    requires 1 <= i < n <= |d| && forall k :: 0 <= k < n ==> OddDigit(d[k], S.WINDOW_A - 1)
    requires -s0 <= Weighted(d, 0, S.WINDOW_A - 1, n) <= s0 && s0 <= ORDER / 2 + 2
    ensures var u := UpperDigits(d, n, i); u != 0 && -2 * ORDER < Pow2(S.WINDOW_A - 1) * u < 2 * ORDER
  {
    hide Weighted, Pow2, OddDigit;
    var w := S.WINDOW_A - 1;
    UpperOdd(d, n, i);
    P.UpperWeighted(d, 0, w, n, i);
    WeightedBound(d, w, i);
    Pow2Monotone(w, w * i);
    assert Pow2(w) == 16 by { TableOfEight(); }
    PartialSize(Weighted(d, 0, w, i), UpperDigits(d, n, i), Pow2(w * i), s0);
  }

  lemma PartialSize(lower: int, u: int, p: int, s0: int)
    requires p >= 16 && -p < lower < p && -s0 <= lower + p * u <= s0
    ensures -s0 - 16 <= 16 * u <= s0 + 16
  {
    var x := if u > 0 then u else -u;
    assert p * x == if u > 0 then p * u else -(p * u);
    if x >= 1 {
      MulBound(16, x - 1, p, x - 1);
      assert p * (x - 1) == p * x - p;
    }
  }

  /** One window: four doublings and a table entry. */
  method AddConstWindow<G(!new)>(g: Group<G>, pre: seq<G>, x: G, digit: int, ghost c: int, a: G) returns (r: G)
    requires Abelian(g) && ExactOrder(g, a) && S.OddTable(g, pre, 0, |pre|, a) && |pre| == S.TableSize(S.WINDOW_A)
    requires OddDigit(digit, S.WINDOW_A - 1) && x == Times(g, c, a)
    requires c != 0 && -2 * ORDER < Pow2(S.WINDOW_A - 1) * c < 2 * ORDER
    ensures r == Times(g, Pow2(S.WINDOW_A - 1) * c + digit, a)
  {
    hide ExactOrder, Abelian, Times, Pow2, S.TableSize, S.OddTable, OddDigit;
    r := DoubleNonzero(g, x, S.WINDOW_A - 1, c, a);
    var t := ConstTableGet(g, pre, digit, a);
    TimesAdd(g, Pow2(S.WINDOW_A - 1) * c, digit, a);
    r := g.add(r, t);
  }

  /** All windows, from the top digit down. */
  method AddConstWindows<G(!new)>(g: Group<G>, pre: seq<G>, wnaf: array<int>, n: nat, a: G, ghost s0: int) returns (r: G)
    requires Abelian(g) && ExactOrder(g, a) && S.OddTable(g, pre, 0, |pre|, a) && |pre| == S.TableSize(S.WINDOW_A)
    requires wnaf.Length == n + 1 && forall k :: 0 <= k <= n ==> OddDigit(wnaf[k], S.WINDOW_A - 1)
    requires -s0 <= Weighted(wnaf[..], 0, S.WINDOW_A - 1, n + 1) <= s0 && s0 <= ORDER / 2 + 2
    ensures r == Times(g, Weighted(wnaf[..], 0, S.WINDOW_A - 1, n + 1), a)
  {
    hide ExactOrder, Abelian, Times, Pow2, Weighted, S.TableSize, S.OddTable, OddDigit, UpperDigits;
    ghost var d := wnaf[..];
    r := ConstTableGet(g, pre, wnaf[n], a);
    TopDigit(d, n);
    for i := n downto 0
      invariant r == Times(g, UpperDigits(d, n + 1, i), a)
    {
      PartialMultiple(d, n + 1, i + 1, s0);
      r := AddConstWindow(g, pre, r, wnaf[i], UpperDigits(d, n + 1, i + 1), a);
      UpperNext(d, n + 1, i);
    }
    AllDigits(d, n + 1);
  }

  /** `q * a` for every scalar `q` below `2^size`, even, odd, high, and minus one, and every point of
      full order. */
  method EcmultConst<G(!new)>(g: Group<G>, a: G, scalar: V.Reduced, size: nat) returns (r: G)
    requires Abelian(g) && S.HasOrder(g) && ExactOrder(g, a) && 1 <= size <= 256 && scalar < Pow2(size)
    ensures r == Times(g, scalar, a)
  {
    hide ExactOrder, Abelian, Times, S.HasOrder, Pow2, Weighted, S.TableSize, S.OddTable, OddDigit, UpperDigits;
    var w := S.WINDOW_A - 1;
    var n := WnafSizeBits(size, w);
    var wnaf := new int[n + 1];
    var skew := WnafConst(wnaf, scalar, w, size);
    TableOfEight();
    var table := new G[8](_ => g.zero);
    S.OddMultiplesTable(g, table, 0, 8, a);
    var pre := table[..];
    ghost var d := wnaf[..];
    SkewedSize(scalar, Weighted(d, 0, w, n + 1));
    r := AddConstWindows(g, pre, wnaf, n, a, Skewed(scalar, skew));
    var correction := a;
    var a2 := g.add(a, a);
    correction := if skew == 2 then a2 else correction;
    Corrected(g, a, scalar, Weighted(d, 0, w, n + 1), skew);
    r := g.add(r, g.neg(correction));
  }

  /** Taking the skew off gives the multiple asked for. */
  lemma Corrected<G(!new)>(g: Group<G>, a: G, scalar: V.Reduced, total: int, skew: int)
    requires Abelian(g) && S.HasOrder(g) && (skew == 1 || skew == 2)
    requires total - skew == scalar || total - skew == scalar - ORDER
    ensures g.add(Times(g, total, a), g.neg(if skew == 2 then g.add(a, a) else a)) == Times(g, scalar, a)
  {
    hide Abelian, Times, S.HasOrder;
    TimesOne(g, a);
    TimesAdd(g, 1, 1, a);
    TimesNeg(g, skew, a);
    TimesAdd(g, total, -skew, a);
    S.TimesModOrder(g, scalar, a);
  }

  lemma TableOfEight()
    ensures S.TableSize(S.WINDOW_A) == 8 && Pow2(S.WINDOW_A - 1) == 16
  {
  }

  lemma SkewedSize(a: V.Reduced, total: int)
    requires total == GlobalSign(a) * Skewed(a, Skew(a))
    ensures var s0 := Skewed(a, Skew(a)); 0 < s0 <= ORDER / 2 + 2 && -s0 <= total <= s0
  {
    SkewedIsOdd(a);
  }

  lemma TopDigit(d: seq<int>, n: nat)
    requires |d| == n + 1
    ensures UpperDigits(d, n + 1, n) == d[n]
  {
    assert P.Upper(d, 0, S.WINDOW_A - 1, n + 1, n + 1) == 0;
    assert UpperDigits(d, n + 1, n) == d[n] + Pow2(S.WINDOW_A - 1) * 0;
  }

  lemma UpperNext(d: seq<int>, n: nat, i: nat)
    requires i < n <= |d|
    ensures UpperDigits(d, n, i) == Pow2(S.WINDOW_A - 1) * UpperDigits(d, n, i + 1) + d[i]
  {
  }

  lemma AllDigits(d: seq<int>, n: nat)
    requires n <= |d|
    ensures UpperDigits(d, n, 0) == Weighted(d, 0, S.WINDOW_A - 1, n)
  {
    P.UpperWeighted(d, 0, S.WINDOW_A - 1, n, 0);
    assert (S.WINDOW_A - 1) * 0 == 0 && Pow2(0) == 1 && Weighted(d, 0, S.WINDOW_A - 1, 0) == 0;
  }
}
