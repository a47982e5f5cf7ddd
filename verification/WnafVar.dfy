/** Sparse signed digits of a scalar: the windowed non-adjacent form that Strauss's algorithm uses. */
module WnafVar {
  import opened Words
  import opened WnafFixed

  /** The order of the group. */
  const ORDER: int := 0xFFFFFFFF_FFFFFFFF_FFFFFFFF_FFFFFFFE_BAAEDCE6_AF48A03B_BFD25E8C_D0364141

  type Reduced = x: int | 0 <= x < ORDER

  /** `scalar_negate`. */
  function Negate(a: Reduced): Reduced {
    if a == 0 then 0 else ORDER - a
  }

  const HALF: int := 0x80000000_00000000_00000000_00000000_00000000_00000000_00000000_00000000

  /** A scalar with its top bit set is negated first. */
  function Sign(a: Reduced): int {
    if a >= HALF then -1 else 1
  }

  function Magnitude(a: Reduced): nat {
    if a >= HALF then ORDER - a else a
  }

  /** The scalar itself, or the scalar less the order. */
  function Centered(a: Reduced): int {
    if a >= HALF then a - ORDER else a
  }

  /** Zero, or odd and below `2^(w-1)` in size. */
  predicate SparseDigit(x: int, w: nat)
    requires w >= 1
  {
    x == 0 || (Odd(x) && -Pow2(w - 1) < x < Pow2(w - 1))
  }

  lemma LowStep(s: nat, bit: nat, now: nat)
    ensures Low(s, bit + now) == Low(s, bit) + GetBits(s, bit, now) * Pow2(bit)
  {
    Pow2Add(bit, now);
    SplitModulus(s, Pow2(bit), Pow2(now));
  }

  /** With length 256 every scalar fits. */
  lemma FullLength(a: Reduced)
    ensures Magnitude(a) < Pow2(255)
  {
    Pow256();
    assert Pow2(256) == 2 * Pow2(255);
  }

  /** Where the scalar has no bit left at the top of a chunk, the chunk is below half its range. */
  lemma TopBitClear(s: nat, bit: nat, now: nat)
    requires now >= 1 && s < Pow2(bit + now - 1)
    ensures GetBits(s, bit, now) < Pow2(now - 1)
  {
    hide Pow2;
    Pow2Add(bit, now - 1);
    QuotientBelow(s, Pow2(bit), Pow2(now - 1));
    Pow2Monotone(now - 1, now);
    SmallModulus(s / Pow2(bit), Pow2(now));
  }

  lemma SmallModulus(x: nat, m: int)
    requires x < m
    ensures x % m == x
  {
    DivModUnique(x, m, 0, x);
  }

  /** The lowest bit of a chunk is the bit there. */
  lemma ChunkParity(s: nat, bit: nat, now: nat)
    requires now >= 1
    ensures GetBits(s, bit, now) % 2 == GetBits(s, bit, 1)
  {
    var x := s / Pow2(bit);
    var q, r, h := x / Pow2(now), x % Pow2(now), Pow2(now - 1);
    assert x == q * Pow2(now) + r;
    assert q * (2 * h) == 2 * (q * h);
    SameParity(x, r, q * h);
    assert Pow2(1) == 2;
  }

  /** The carry out of a chunk, and the digit it leaves. */
  lemma DigitOfChunk(word: nat, now: nat, w: nat, carry: nat)
    requires 1 <= now <= w && w >= 2 && word % 2 == 1 && word <= Pow2(now)
    requires carry == word / Pow2(w - 1) % 2
    ensures carry <= 1 && (now < w ==> carry == 0)
    ensures word < Pow2(now)
    ensures carry == 1 <==> word >= Pow2(w - 1)
    ensures SparseDigit(word - carry * Pow2(w), w) && Odd(word - carry * Pow2(w))
  {
    hide Pow2;
    Doubles(now);
    Doubles(w);
    Pow2Monotone(now, w);
    if now < w {
      Pow2Monotone(now, w - 1);
    }
    EvenBound(word, Pow2(now), Pow2(now - 1));
    HighHalf(word, Pow2(w - 1));
    Doubles(w - 1);
    SignedHalf(word, Pow2(w - 1), Pow2(w - 2));
  }

  /** Taking off a full range leaves an odd digit below half of it. */
  lemma SignedHalf(word: nat, h: int, q: int)
    requires word % 2 == 1 && h == 2 * q && word < 2 * h
    ensures word < h ==> -h < word
    ensures word >= h ==> -h < word - 2 * h < h && Odd(word - 2 * h)
  {
  }

  lemma Doubles(n: nat)
    requires n >= 1
    ensures Pow2(n) == 2 * Pow2(n - 1)
  {
  }

  lemma EvenBound(word: nat, p: int, h: int)
    requires word % 2 == 1 && word <= p == 2 * h
    ensures word < p
  {
  }

  /** The bit at the top of a word below twice `h`. */
  lemma HighHalf(word: nat, h: int)
    requires h > 0 && word < 2 * h
    ensures word / h % 2 == (if word < h then 0 else 1)
  {
    if word < h {
      DivModUnique(word, h, 0, word);
    } else {
      DivModUnique(word, h, 1, word - h);
    }
  }

  /** The digits below `bit`, the carry into `bit`, and how far apart the digits are. */
  ghost predicate Partial(d: seq<int>, len: nat, s: nat, sign: int, w: nat, bit: nat, carry: nat) {
    && w >= 1 && bit <= len <= |d| && carry <= 1
    && Weighted(d, 0, 1, bit) == sign * (Low(s, bit) - carry * Pow2(bit))
    && (forall i :: 0 <= i < len ==> SparseDigit(d[i], w))
    && (forall i :: bit <= i < len ==> d[i] == 0)
    && (forall i :: 0 <= i < bit && d[i] != 0 ==> i + w <= bit || bit == len)
    && (forall i, j :: 0 <= i < j < bit && d[i] != 0 && d[j] != 0 ==> i + w <= j)
  }

  lemma SkipBit(d: seq<int>, len: nat, s: nat, sign: int, w: nat, bit: nat, carry: nat)
    requires Partial(d, len, s, sign, w, bit, carry) && bit < len && GetBits(s, bit, 1) == carry
    ensures Partial(d, len, s, sign, w, bit + 1, carry)
  {
    hide GetBits, Low, SparseDigit;
    LowStep(s, bit, 1);
    assert Pow2(bit + 1) == 2 * Pow2(bit);
    assert Weighted(d, 0, 1, bit + 1) == Weighted(d, 0, 1, bit) + d[0 + bit] * Pow2(1 * bit);
    hide Weighted, Pow2;
    assert carry * (2 * Pow2(bit)) == 2 * (carry * Pow2(bit));
  }

  lemma SetDigit(d: seq<int>, e: seq<int>, len: nat, s: nat, sign: int, w: nat, bit: nat, now: nat, carry: nat, carry': nat, word: int)
    requires Partial(d, len, s, sign, w, bit, carry) && (sign == 1 || sign == -1)
    requires bit < bit + now <= len && (now == w || (now < w && bit + now == len && carry' == 0)) && carry' <= 1
    requires word == GetBits(s, bit, now) + carry - carry' * Pow2(w) && SparseDigit(word, w)
    requires e == d[bit := sign * word]
    ensures Partial(e, len, s, sign, w, bit + now, carry')
  {
    hide GetBits, Low, Weighted, Pow2, SparseDigit;
    SignedDigit(sign, word, w);
    SetDigitSum(d, s, sign, bit, now, carry, carry', w, word);
    WeightedZeros(e, 0, 1, bit + 1, bit + now);
  }

  lemma SetDigitSum(d: seq<int>, s: nat, sign: int, bit: nat, now: nat, carry: nat, carry': nat, w: nat, word: int)
    requires bit < |d| && (carry' == 0 || (carry' == 1 && now == w))
    requires Weighted(d, 0, 1, bit) == sign * (Low(s, bit) - carry * Pow2(bit))
    requires word == GetBits(s, bit, now) + carry - carry' * Pow2(w)
    ensures Weighted(d[bit := sign * word], 0, 1, bit + 1) == sign * (Low(s, bit + now) - carry' * Pow2(bit + now))
  {
    hide GetBits, Low, Weighted, Pow2;
    LowStep(s, bit, now);
    Pow2Add(bit, now);
    WeightedNext(d, 0, 1, bit, sign * word);
    ChunkArithmetic(sign, Low(s, bit), GetBits(s, bit, now), carry, carry', Pow2(bit), Pow2(now), Pow2(w));
  }

  lemma SignedDigit(sign: int, word: int, w: nat)
    requires w >= 1 && SparseDigit(word, w) && (sign == 1 || sign == -1)
    ensures SparseDigit(sign * word, w)
  {
    assert sign * word == if sign == 1 then word else -word;
  }

  lemma ChunkArithmetic(sign: int, low: int, b: int, carry: int, carry': int, p: int, pn: int, pw: int)
    requires carry' == 0 || (carry' == 1 && pn == pw)
    ensures sign * (low - carry * p) + sign * (b + carry - carry' * pw) * p == sign * ((low + b * p) - carry' * (p * pn))
  {
    assert (b + carry - carry' * pw) * p == b * p + carry * p - (carry' * pw) * p;
    assert (carry' * pw) * p == carry' * (p * pn);
    var x := b + carry - carry' * pw;
    assert sign * x * p == sign * (x * p);
    assert sign * (low - carry * p) + sign * (x * p) == sign * (low - carry * p + x * p);
  }

  // --- the carry that is left ---

  /** The carry into a bit: the bit below it. */
  function Incoming(s: nat, bit: nat): nat {
    if bit == 0 then 0 else GetBits(s, bit - 1, 1)
  }

  /** Reading windows from `bit` on, the last one reaches past the length: a bit equal to the one below it is
      skipped, any other starts a window. */
  predicate CutShort(s: nat, bit: nat, len: nat, w: nat)
    requires w >= 1
    decreases len - bit
  {
    bit < len && if GetBits(s, bit, 1) == Incoming(s, bit) then CutShort(s, bit + 1, len, w)
                 else len - bit < w || CutShort(s, bit + w, len, w)
  }

  /** The carry left at the top: a window cut short leaves none, any other end the topmost bit. */
  function LastCarry(s: nat, len: nat, w: nat): nat
    requires w >= 1
  {
    if CutShort(s, 0, len, w) then 0 else Incoming(s, len)
  }

  /** The length is enough for the scalar: no carry is left and no bit lies above. */
  predicate LongEnough(a: Reduced, len: nat, w: nat)
    requires w >= 1
  {
    LastCarry(Magnitude(a), len, w) == 0 && Magnitude(a) < Pow2(len)
  }

  /** What the digits sum to, whatever the length. */
  function DigitSum(a: Reduced, len: nat, w: nat): int
    requires w >= 1
  {
    Sign(a) * (Low(Magnitude(a), len) - LastCarry(Magnitude(a), len, w) * Pow2(len))
  }

  lemma IncomingIsBit(s: nat, bit: nat)
    ensures Incoming(s, bit) <= 1
  {
    hide GetBits;
    if bit > 0 {
      OneBit(s, bit - 1);
    }
  }

  lemma LastCarryIsBit(s: nat, len: nat, w: nat)
    requires w >= 1
    ensures LastCarry(s, len, w) <= 1
  {
    hide Incoming, CutShort;
    IncomingIsBit(s, len);
  }

  /** One bit more than the magnitude has is enough. */
  lemma SpareIsEnough(a: Reduced, len: nat, w: nat)
    requires w >= 1 && len >= 1 && Magnitude(a) < Pow2(len - 1)
    ensures LongEnough(a, len, w)
  {
    hide GetBits, CutShort, Pow2, Magnitude;
    TopBitClear(Magnitude(a), len - 1, 1);
    PowersFromZero();
    Pow2Monotone(len - 1, len);
  }

  lemma PowersFromZero()
    ensures Pow2(0) == 1 && Pow2(1) == 2
  {
  }

  /** The digits sum to the scalar modulo the order exactly if the length is enough; then they sum to the
      scalar or the scalar less the order. */
  lemma SumIsScalar(a: Reduced, len: nat, w: nat)
    requires w >= 1 && len <= 256
    ensures (DigitSum(a, len, w) - a) % ORDER == 0 <==> LongEnough(a, len, w)
    ensures DigitSum(a, len, w) == Centered(a) <==> LongEnough(a, len, w)
  {
    hide Pow2, LastCarry, Low;
    var s, c := Magnitude(a), LastCarry(Magnitude(a), len, w);
    LastCarryIsBit(s, len, w);
    FullLength(a);
    LowPart(s, len);
    if len == 256 {
      SpareIsEnough(a, 256, w);
    }
    MissingPart(s, len, c);
    MissingModulus(a, s - Low(s, len) + c * Pow2(len), DigitSum(a, len, w));
  }

  /** What lies above the length is a multiple of its power. */
  lemma LowPart(s: nat, len: nat)
    ensures 0 <= s - Low(s, len) <= s && (s < Pow2(len) ==> Low(s, len) == s)
    ensures s >= Pow2(len) ==> s - Low(s, len) > 0
  {
    hide Pow2;
    var q, r := s / Pow2(len), s % Pow2(len);
    assert s == q * Pow2(len) + r;
    if s < Pow2(len) {
      DivModUnique(s, Pow2(len), 0, s);
    }
  }

  /** What the digits miss is below the order, and nothing exactly if the length is enough. */
  lemma MissingPart(s: nat, len: nat, c: nat)
    requires s < Pow2(255) && len <= 256 && c <= 1 && (len == 256 ==> c == 0)
    requires 0 <= s - Low(s, len) <= s && (s < Pow2(len) ==> Low(s, len) == s) && (s >= Pow2(len) ==> s - Low(s, len) > 0)
    ensures 0 <= s - Low(s, len) + c * Pow2(len) < ORDER
    ensures s - Low(s, len) + c * Pow2(len) == 0 <==> c == 0 && s < Pow2(len)
  {
    hide Pow2, Low;
    TopPowers();
    if len <= 254 {
      Pow2Monotone(len, 254);
    }
  }

  lemma TopPowers()
    ensures 3 * Pow2(254) < ORDER && Pow2(255) == 2 * Pow2(254) && Pow2(256) == 2 * Pow2(255)
  {
    hide Pow2;
    Pow256();
    Doubles(256);
    Doubles(255);
  }

  lemma MissingModulus(a: Reduced, d: int, sum: int)
    requires 0 <= d < ORDER && sum == Sign(a) * (Magnitude(a) - d)
    ensures (sum - a) % ORDER == 0 <==> d == 0
    ensures sum == Centered(a) <==> d == 0
  {
    if a >= HALF {
      assert sum - a == d - ORDER;
      DivModUnique(d - ORDER, ORDER, -1, d);
    } else {
      assert sum - a == -d;
      if d > 0 {
        DivModUnique(-d, ORDER, -1, ORDER - d);
      }
    }
  }

  /** A length that is not enough: thirteen in four bits, with windows of three, comes out as minus three. */
  lemma TooShort()
    ensures LastCarry(13, 4, 3) == 1 && DigitSum(13, 4, 3) == -3 && !LongEnough(13, 4, 3)
  {
    PowersFromZero();
    assert Pow2(2) == 4 && Pow2(3) == 8 && Pow2(4) == 16;
    assert GetBits(13, 0, 1) == 1 && GetBits(13, 2, 1) == 1 && GetBits(13, 3, 1) == 1;
    assert !CutShort(13, 4, 4, 3);
    assert !CutShort(13, 3, 4, 3);
    assert !CutShort(13, 0, 4, 3);
  }

  /** For every length and every scalar: the digits sum to the scalar modulo the order exactly if the
      length is enough, which a debugging build checks. */
  method EcmultWnaf(wnaf: array<int>, len: nat, a: Reduced, w: nat) returns (bits: nat)
    requires len <= 256 && len <= wnaf.Length && 2 <= w <= 31
    modifies wnaf
    ensures Weighted(wnaf[..], 0, 1, len) == DigitSum(a, len, w)
    ensures (Weighted(wnaf[..], 0, 1, len) - a) % ORDER == 0 <==> LongEnough(a, len, w)
    ensures Weighted(wnaf[..], 0, 1, len) == Centered(a) <==> LongEnough(a, len, w)
    ensures forall i :: 0 <= i < len ==> SparseDigit(wnaf[i], w)
    ensures forall i, j :: 0 <= i < j < len && wnaf[i] != 0 && wnaf[j] != 0 ==> i + w <= j
    ensures bits <= len && (forall i :: bits <= i < len ==> wnaf[i] == 0) && (bits > 0 ==> wnaf[bits - 1] != 0)
    ensures forall i :: len <= i < wnaf.Length ==> wnaf[i] == old(wnaf[i])
  {
    hide GetBits, Low, Weighted, Pow2, Partial, SparseDigit, Centered, CutShort, LongEnough, DigitSum, LastCarry, Incoming;
    var s, sign := Magnitude(a), Sign(a);
    var lastSet: int := -1;
    var bit: nat, carry: nat := 0, 0;
    for i := 0 to len
      invariant forall k :: 0 <= k < i ==> wnaf[k] == 0
      invariant forall k :: len <= k < wnaf.Length ==> wnaf[k] == old(wnaf[k])
    {
      wnaf[i] := 0;
    }
    StartPartial(wnaf[..], len, s, sign, w);
    StartCarry(s, len, w);
    while bit < len
      invariant -1 <= lastSet < bit <= len
      invariant Partial(wnaf[..], len, s, sign, w, bit, carry)
      invariant CarryAt(s, len, w, bit, carry)
      invariant forall i :: lastSet < i < len ==> wnaf[i] == 0
      invariant lastSet >= 0 ==> wnaf[lastSet] != 0
      invariant forall k :: len <= k < wnaf.Length ==> wnaf[k] == old(wnaf[k])
    {
      if GetBits(s, bit, 1) == carry {
        SkipBit(wnaf[..], len, s, sign, w, bit, carry);
        SkipCarry(s, len, w, bit, carry);
        bit := bit + 1;
        continue;
      }
      var now := if w > len - bit then len - bit else w;
      var word := GetBits(s, bit, now) + carry;
      ghost var carry0, d := carry, wnaf[..];
      CarryBound(d, len, s, sign, w, bit, carry);
      NextWord(s, bit, now, carry);
      carry := word / Pow2(w - 1) % 2;
      DigitOfChunk(word, now, w, carry);
      WindowCarry(s, len, w, bit, now, carry0, carry);
      word := word - carry * Pow2(w);
      wnaf[bit] := sign * word;
      NonzeroDigit(sign, word);
      SetDigit(d, wnaf[..], len, s, sign, w, bit, now, carry0, carry, word);
      lastSet := bit;
      bit := bit + now;
    }
    Finished(wnaf[..], len, a, w, carry);
    SumIsScalar(a, len, w);
    bits := lastSet + 1;
  }

  /** The carry the loop holds at `bit`. */
  ghost predicate CarryAt(s: nat, len: nat, w: nat, bit: nat, carry: nat) {
    && w >= 1 && bit <= len
    && (bit < len ==> carry == Incoming(s, bit) && (CutShort(s, 0, len, w) <==> CutShort(s, bit, len, w)))
    && (bit == len ==> carry == LastCarry(s, len, w))
  }

  lemma StartCarry(s: nat, len: nat, w: nat)
    requires w >= 1
    ensures CarryAt(s, len, w, 0, 0)
  {
  }

  lemma SkipCarry(s: nat, len: nat, w: nat, bit: nat, carry: nat)
    requires CarryAt(s, len, w, bit, carry) && bit < len && GetBits(s, bit, 1) == carry
    ensures CarryAt(s, len, w, bit + 1, carry)
  {
    hide GetBits;
    assert Incoming(s, bit + 1) == carry;
    assert CutShort(s, bit, len, w) <==> CutShort(s, bit + 1, len, w);
  }

  lemma WindowCarry(s: nat, len: nat, w: nat, bit: nat, now: nat, carry: nat, carry': nat)
    requires CarryAt(s, len, w, bit, carry) && bit < len && w >= 2 && GetBits(s, bit, 1) != carry
    requires now == (if w > len - bit then len - bit else w) && carry' == (GetBits(s, bit, now) + carry) / Pow2(w - 1) % 2
    requires now < w ==> carry' == 0
    ensures CarryAt(s, len, w, bit + now, carry')
  {
    hide GetBits, Pow2;
    if now == w {
      IncomingIsBit(s, bit);
      TopBitRead(s, bit, w, carry);
    }
  }

  /** The carry out of a full window is the topmost bit read. */
  lemma TopBitRead(s: nat, bit: nat, w: nat, carry: nat)
    requires w >= 2 && carry <= 1 && GetBits(s, bit, 1) != carry
    ensures (GetBits(s, bit, w) + carry) / Pow2(w - 1) % 2 == GetBits(s, bit + w - 1, 1)
  {
    hide Pow2;
    PowersFromZero();
    Doubles(w);
    Doubles(w - 1);
    Pow2Add(bit, w - 1);
    var x, h := s / Pow2(bit), Pow2(w - 1);
    SplitModulus(s, Pow2(bit), h);
    SplitModulus(x, h, 2);
    ChunkParity(s, bit, w);
    TopOfSum(x % (2 * h), x % h, x / h % 2, h, Pow2(w - 2), carry);
  }

  lemma TopOfSum(chunk: nat, r: nat, t: nat, h: nat, half: nat, carry: nat)
    requires chunk == r + t * h && r < h == 2 * half && t <= 1 && carry <= 1 && chunk % 2 != carry
    ensures (chunk + carry) / h % 2 == t
  {
    assert chunk == if t == 0 then r else r + h;
    RoomForCarry(r, half, carry, chunk, t);
    DivModUnique(chunk + carry, h, t, r + carry);
  }

  lemma RoomForCarry(r: nat, half: nat, carry: nat, chunk: nat, t: nat)
    requires r < 2 * half && carry <= 1 && t <= 1 && chunk == (if t == 0 then r else r + 2 * half) && chunk % 2 != carry
    ensures r + carry < 2 * half
  {
    assert r % 2 == chunk % 2;
  }

  lemma NonzeroDigit(sign: int, word: int)
    requires (sign == 1 || sign == -1) && Odd(word)
    ensures sign * word != 0
  {
  }

  lemma StartPartial(d: seq<int>, len: nat, s: nat, sign: int, w: nat)
    requires len <= |d| && w >= 1 && forall i :: 0 <= i < len ==> d[i] == 0
    ensures Partial(d, len, s, sign, w, 0, 0)
  {
    assert Pow2(0) == 1;
  }

  lemma CarryBound(d: seq<int>, len: nat, s: nat, sign: int, w: nat, bit: nat, carry: nat)
    requires Partial(d, len, s, sign, w, bit, carry)
    ensures carry <= 1
  {
  }

  /** The word read at a bit that differs from the carry is odd. */
  lemma NextWord(s: nat, bit: nat, now: nat, carry: nat)
    requires now >= 1 && carry <= 1 && GetBits(s, bit, 1) != carry
    ensures var word := GetBits(s, bit, now) + carry; word % 2 == 1 && word <= Pow2(now)
  {
    hide GetBits, Pow2;
    OneBit(s, bit);
    ChunkParity(s, bit, now);
    OddSum(GetBits(s, bit, now), GetBits(s, bit, 1), carry);
    ChunkRange(s, bit, now);
  }

  lemma OneBit(s: nat, bit: nat)
    ensures GetBits(s, bit, 1) < 2
  {
    assert Pow2(1) == 2;
  }

  lemma ChunkRange(s: nat, bit: nat, now: nat)
    ensures GetBits(s, bit, now) < Pow2(now)
  {
  }

  lemma OddSum(x: nat, b: nat, carry: nat)
    requires x % 2 == b < 2 && carry <= 1 && b != carry
    ensures (x + carry) % 2 == 1
  {
  }

  lemma Finished(d: seq<int>, len: nat, a: Reduced, w: nat, carry: nat)
    requires Partial(d, len, Magnitude(a), Sign(a), w, len, carry) && CarryAt(Magnitude(a), len, w, len, carry)
    ensures Weighted(d, 0, 1, len) == DigitSum(a, len, w)
    ensures forall i :: 0 <= i < len ==> SparseDigit(d[i], w)
    ensures forall i, j :: 0 <= i < j < len && d[i] != 0 && d[j] != 0 ==> i + w <= j
  {
    hide Weighted, Pow2, Low, SparseDigit, LastCarry;
  }
}
