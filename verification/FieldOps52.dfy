/** Normalization, comparison, negation and addition of 5x52 field elements. */
module FieldOps52 {
  import opened Words
  import opened Limbs52

  /** The low limb of the prime; its other limbs are all ones. */
  const P0: int := 0xFFFFEFFFFFC2F

  /** The one representation of a value below the prime. */
  predicate Canonical(n: seq<int>) {
    && |n| == 5
    && 0 <= n[0] < B && 0 <= n[1] < B && 0 <= n[2] < B && 0 <= n[3] < B && 0 <= n[4] < TWO48
    && Value(n) < P
  }

  /** Limbs after one carry pass: reduced, except for a few bits above the 48th of the last. */
  predicate Passed(n: seq<int>) {
    && |n| == 5
    && 0 <= n[0] < B && 0 <= n[1] < B && 0 <= n[2] < B && 0 <= n[3] < B && 0 <= n[4] <= TWO48 + 0xFFF
  }

  // --- reduced limbs as numbers ---

  lemma ValueRange(n: seq<int>)
    requires Passed(n)
    ensures n[4] * B4 <= Value(n) < (n[4] + 1) * B4
  {
  }

  /** The source's test for a value at or above the prime. */
  lemma AtLeastPrime(n: seq<int>)
    requires Passed(n) && n[4] < TWO48
    ensures Value(n) >= P <==> n[4] == MAX48 && n[3] == n[2] == n[1] == MAX52 && n[0] >= P0
  {
  }

  lemma ZeroValue(n: seq<int>)
    requires Passed(n)
    ensures Value(n) == 0 <==> n[0] == n[1] == n[2] == n[3] == n[4] == 0
  {
  }

  lemma PrimeValue(n: seq<int>)
    requires Passed(n)
    ensures Value(n) == P <==> n[0] == P0 && n[1] == n[2] == n[3] == MAX52 && n[4] == MAX48
  {
  }

  /** A value below twice the prime is zero modulo the prime only as 0 or as the prime. */
  lemma ZeroModPrime(v: int)
    requires 0 <= v < 2 * P
    ensures v % P == 0 <==> v == 0 || v == P
  {
  }

  lemma CanonicalResidue(n: seq<int>, was: int, lost: int, k: int)
    requires Canonical(n) && was - lost == Value(n) + k * P && (lost == 0 || lost == WORD)
    ensures Value(n) == (was - lost) % P
    ensures Value(n) == was % P <==> lost == 0
  {
    ResidueOf(Value(n), was - lost, k);
    LostShows(was, lost);
  }

  lemma ResidueOf(v: int, w: int, k: int)
    requires 0 <= v < P && w == v + k * P
    ensures v == w % P
  {
    DivModUnique(w, P, k, v);
  }

  /** Equal canonical values have equal limbs: there is one canonical form. */
  lemma CanonicalUnique(n: seq<int>, m: seq<int>)
    requires Canonical(n) && Canonical(m) && Value(n) == Value(m)
    ensures n == m
  {
    assert n[4] == m[4];
    assert n[3] == m[3];
    assert n[2] == m[2];
    assert n[1] == m[1];
  }

  // --- normalization ---

  /** One more than the largest word. */
  const WORD: int := 0x1_0000_0000_0000_0000

  /** Folding what lies above bit 256 into the first word does not overflow it. */
  predicate FirstWordFits(n: seq<int>)
    requires |n| == 5
  {
    n[0] + n[4] / TWO48 * R4 < WORD
  }

  /** What the first pass loses when it does: the carry out of the first word. */
  function Lost(n: seq<int>): int
    requires |n| == 5
  {
    if FirstWordFits(n) then 0 else WORD
  }

  lemma SmallMagnitudeFits(n: seq<int>)
    requires HasMagnitude(n, 2047)
    ensures FirstWordFits(n)
  {
  }

  /** Carrying upwards from the first limb on. */
  function Carried(n0: int, n1: int, n2: int, n3: int, n4: int): (t: seq<int>)
    requires n0 >= 0 && n1 >= 0 && n2 >= 0 && n3 >= 0 && n4 >= 0
    ensures |t| == 5 && 0 <= t[0] < B && 0 <= t[1] < B && 0 <= t[2] < B && 0 <= t[3] < B && n4 <= t[4]
    ensures Value(t) == Value([n0, n1, n2, n3, n4])
    ensures n0 < 4097 * B && n1 < 4096 * B && n2 < 4096 * B && n3 < 4096 * B ==> t[4] <= n4 + 4096
  {
    var c1 := n1 + n0 / B;
    var c2 := n2 + c1 / B;
    var c3 := n3 + c2 / B;
    [n0 % B, c1 % B, c2 % B, c3 % B, n4 + c3 / B]
  }

  /** The first pass: fold what lies above bit 256 back once and carry upwards.  Of all its sums only the
      first can wrap around. */
  function Pass(n: seq<int>): (t: seq<int>)
    requires HasMagnitude(n, 2048)
    ensures Passed(t) && Value(n) - Lost(n) == Value(t) + n[4] / TWO48 * P
  {
    FirstWord(n[0], n[4] / TWO48);
    Carried((n[0] + n[4] / TWO48 * R4) % WORD, n[1], n[2], n[3], n[4] % TWO48)
  }

  lemma FirstWord(n0: int, x: int)
    requires 0 <= n0 <= 4096 * MAX52 && 0 <= x <= 4095
    ensures (n0 + x * R4) % WORD == if n0 + x * R4 < WORD then n0 + x * R4 else n0 + x * R4 - WORD
  {
  }

  /** The first word wraps around; the others are assigned without, so none of them can overflow. */
  method FirstPass(n: array<U64>) returns (t0: U64, t1: U64, t2: U64, t3: U64, t4: U64)
    requires n.Length == 5 && HasMagnitude(n[..], 2048)
    ensures [t0, t1, t2, t3, t4] == Pass(n[..])
  {
    hide HasMagnitude, Carried;
    LimbBounds(n[..]);
    t0, t1, t2, t3, t4 := n[0], n[1], n[2], n[3], n[4];
    var x: U64 := t4 / TWO48;
    t4 := t4 % TWO48;
    t0 := (t0 + x * R4) % WORD;
    t0, t1, t2, t3, t4 := CarryUp(t0, t1, t2, t3, t4);
  }

  lemma LimbBounds(n: seq<int>)
    requires HasMagnitude(n, 2048)
    ensures 0 <= n[0] <= 4096 * MAX52 && 0 <= n[1] <= 4096 * MAX52 && 0 <= n[2] <= 4096 * MAX52 && 0 <= n[3] <= 4096 * MAX52
    ensures 0 <= n[4] <= 4096 * MAX48
  {
  }

  /** The carry chain both passes share. */
  method CarryUp(n0: U64, n1: U64, n2: U64, n3: U64, n4: U64) returns (t0: U64, t1: U64, t2: U64, t3: U64, t4: U64)
    requires n1 <= 4096 * MAX52 && n2 <= 4096 * MAX52 && n3 <= 4096 * MAX52 && n4 <= 2 * TWO48
    ensures [t0, t1, t2, t3, t4] == Carried(n0, n1, n2, n3, n4)
  {
    hide Value;
    t0, t1, t2, t3, t4 := n0, n1, n2, n3, n4;
    t1 := t1 + t0 / B;
    t0 := t0 % B;
    t2 := t2 + t1 / B;
    t1 := t1 % B;
    t3 := t3 + t2 / B;
    t2 := t2 % B;
    t4 := t4 + t3 / B;
    t3 := t3 % B;
  }

  /** A lost carry always shows: the residue is another one. */
  lemma LostShows(v: int, lost: int)
    requires lost == 0 || lost == WORD
    ensures (v - lost) % P == v % P <==> lost == 0
    ensures (v - WORD) % P == 0 <==> v % P == WORD
  {
    var q, r := v / P, v % P;
    if r >= WORD {
      DivModUnique(v - WORD, P, q, r - WORD);
    } else {
      DivModUnique(v - WORD, P, q - 1, r - WORD + P);
    }
  }

  /** The second pass, after adding `x` times `2^256 - P`. */
  method FinalPass(s0: U64, s1: U64, s2: U64, s3: U64, s4: U64, x: U64)
      returns (t0: U64, t1: U64, t2: U64, t3: U64, t4: U64)
    requires Passed([s0, s1, s2, s3, s4]) && x <= 1
    requires x == 1 <==> Value([s0, s1, s2, s3, s4]) >= P
    ensures Canonical([t0, t1, t2, t3, t4])
    ensures Value([s0, s1, s2, s3, s4]) == Value([t0, t1, t2, t3, t4]) + x * P
  {
    hide Value, Carried;
    t0, t1, t2, t3, t4 := CarryUp(s0 + x * R4, s1, s2, s3, s4);
    Reduced([s0, s1, s2, s3, s4], [t0, t1, t2, t3, t4], x);
    t4 := t4 % TWO48;
  }

  /** With the prime taken off, what is left fits below bit 256; what was added shows above it. */
  lemma Reduced(n: seq<int>, t: seq<int>, x: int)
    requires Passed(n) && 0 <= x <= 1 && (x == 1 <==> Value(n) >= P)
    requires t == Carried(n[0] + x * R4, n[1], n[2], n[3], n[4])
    ensures Canonical([t[0], t[1], t[2], t[3], t[4] % TWO48])
    ensures Value(n) == Value([t[0], t[1], t[2], t[3], t[4] % TWO48]) + x * P
  {
    hide Carried;
    ValueRange(n);
    assert Value(t) == Value(n) + x * R4;
    assert t[4] / TWO48 == x;
  }

  /** `(t4 >> 48) | ((t4 == ..) & (m == ..) & (t0 >= ..))`. */
  method NeedsReduction(t0: U64, t1: U64, t2: U64, t3: U64, t4: U64, m: nat) returns (x: U64)
    requires Passed([t0, t1, t2, t3, t4]) && m == And(And(t1, t2), t3)
    ensures x == if Value([t0, t1, t2, t3, t4]) >= P then 1 else 0
  {
    PowersOfTwo();
    AndAllOnes(t1, t2, 52);
    AndAllOnes(And(t1, t2), t3, 52);
    ValueRange([t0, t1, t2, t3, t4]);
    if t4 < TWO48 {
      AtLeastPrime([t0, t1, t2, t3, t4]);
    }
    x := Or(t4 / TWO48, if t4 == MAX48 && m == MAX52 && t0 >= P0 then 1 else 0);
  }

  /** Normalizing gives the canonical representation of the value modulo the prime, exactly if the first
      word does not overflow. */
  method FeNormalize(n: array<U64>)
    requires n.Length == 5 && HasMagnitude(n[..], 2048)
    modifies n
    ensures Canonical(n[..]) && Value(n[..]) == (Value(old(n[..])) - Lost(old(n[..]))) % P
    ensures Value(n[..]) == Value(old(n[..])) % P <==> FirstWordFits(old(n[..]))
  {
    hide Value, And, Pass;
    ghost var was := n[..];
    var t0, t1, t2, t3, t4 := FirstPass(n);
    var m := And(And(t1, t2), t3);
    var x := NeedsReduction(t0, t1, t2, t3, t4, m);
    t0, t1, t2, t3, t4 := FinalPass(t0, t1, t2, t3, t4, x);
    n[0], n[1], n[2], n[3], n[4] := t0, t1, t2, t3, t4;
    assert n[..] == [t0, t1, t2, t3, t4];
    CanonicalResidue(n[..], Value(was), Lost(was), x + was[4] / TWO48);
  }

  method FeNormalizeWeak(n: array<U64>)
    requires n.Length == 5 && HasMagnitude(n[..], 2048)
    modifies n
    ensures HasMagnitude(n[..], 1) && Congruent(Value(n[..]), Value(old(n[..])) - Lost(old(n[..])))
    ensures Congruent(Value(n[..]), Value(old(n[..]))) <==> FirstWordFits(old(n[..]))
  {
    hide Value, Pass, Congruent;
    ghost var was := n[..];
    var t0, t1, t2, t3, t4 := FirstPass(n);
    n[0], n[1], n[2], n[3], n[4] := t0, t1, t2, t3, t4;
    assert n[..] == [t0, t1, t2, t3, t4];
    CongruentByMultiple(Value(n[..]), Value(was) - Lost(was), was[4] / TWO48);
    CongruentUnlessLost(Value(n[..]), Value(was), Lost(was));
  }

  lemma CongruentUnlessLost(v: int, w: int, lost: int)
    requires Congruent(v, w - lost) && (lost == 0 || lost == WORD)
    ensures Congruent(v, w) <==> lost == 0
  {
    if lost == WORD {
      LostShows(v - w + WORD, WORD);
    }
  }

  /** The same as `FeNormalize`, with a branch instead of the unconditional second pass. */
  method FeNormalizeVar(n: array<U64>)
    requires n.Length == 5 && HasMagnitude(n[..], 2048)
    modifies n
    ensures Canonical(n[..]) && Value(n[..]) == (Value(old(n[..])) - Lost(old(n[..]))) % P
    ensures Value(n[..]) == Value(old(n[..])) % P <==> FirstWordFits(old(n[..]))
  {
    hide Value, And, Pass;
    ghost var was := n[..];
    var t0, t1, t2, t3, t4 := FirstPass(n);
    var m := And(And(t1, t2), t3);
    var x := NeedsReduction(t0, t1, t2, t3, t4, m);
    if x != 0 {
      t0, t1, t2, t3, t4 := FinalPass(t0, t1, t2, t3, t4, 1);
    } else {
      ValueRange([t0, t1, t2, t3, t4]);
    }
    n[0], n[1], n[2], n[3], n[4] := t0, t1, t2, t3, t4;
    assert n[..] == [t0, t1, t2, t3, t4];
    CanonicalResidue(n[..], Value(was), Lost(was), x + was[4] / TWO48);
  }

  // --- zero tests ---

  /** `z0` and `z1` after the first pass: a raw value of zero, and a raw value of the prime. */
  lemma ZeroMasks(t: seq<U64>, z0: nat, z1: nat)
    requires Passed(t)
    requires z0 == Or(Or(Or(Or(t[0], t[1]), t[2]), t[3]), t[4])
    requires z1 == And(And(And(And(Xor(t[0], 0x1000003D0), t[1]), t[2]), t[3]), Xor(t[4], 0xF000000000000))
    ensures z0 == 0 <==> Value(t) == 0
    ensures z1 == MAX52 <==> Value(t) == P
  {
    hide Value, And, Or, Xor, Pow2;
    OrZero(t[0], t[1]);
    OrZero(Or(t[0], t[1]), t[2]);
    OrZero(Or(Or(t[0], t[1]), t[2]), t[3]);
    OrZero(Or(Or(Or(t[0], t[1]), t[2]), t[3]), t[4]);
    ZeroValue(t);
    PowersOfTwo();
    var a, b := Xor(t[0], 0x1000003D0), Xor(t[4], 0xF000000000000);
    XorComplement(t[0], 0x1000003D0, 52);
    XorComplement(t[4], 0xF000000000000, 52);
    AndAllOnes(a, t[1], 52);
    AndAllOnes(And(a, t[1]), t[2], 52);
    AndAllOnes(And(And(a, t[1]), t[2]), t[3], 52);
    AndAllOnes(And(And(And(a, t[1]), t[2]), t[3]), b, 52);
    PrimeValue(t);
  }

  /** One limb already tells most values from zero. */
  lemma LowLimbDecides(t: seq<U64>)
    requires Passed(t) && t[0] != 0 && Xor(t[0], 0x1000003D0) != MAX52
    ensures Value(t) != 0 && Value(t) != P
  {
    ZeroValue(t);
    PrimeValue(t);
    PowersOfTwo();
    XorComplement(t[0], 0x1000003D0, 52);
  }

  lemma ZeroAfterPass(n: seq<int>)
    requires HasMagnitude(n, 2048)
    ensures (Value(n) - Lost(n)) % P == 0 <==> Value(Pass(n)) == 0 || Value(Pass(n)) == P
  {
    hide Pass, Value, FirstWordFits;
    var v := Value(Pass(n));
    ValueRange(Pass(n));
    PassedBelowTwoPrimes(Pass(n));
    ZeroModPrime(v);
    ResidueOf(v % P, Value(n) - Lost(n), v / P + n[4] / TWO48);
  }

  lemma PassedBelowTwoPrimes(n: seq<int>)
    requires Passed(n)
    ensures 0 <= Value(n) < 2 * P
  {
  }

  /** All that is left after the first pass is the carry it loses. */
  predicate LooksZero(n: seq<int>)
    requires |n| == 5
  {
    n[0] + n[4] / TWO48 * R4 == WORD && n[1] == n[2] == n[3] == 0 && n[4] % TWO48 == 0
  }

  /** Where the first word overflows, its limb is left so small that nothing carries out of it. */
  lemma OverflowLeavesLittle(n: seq<int>)
    requires HasMagnitude(n, 2048) && !FirstWordFits(n)
    ensures Pass(n) == Carried(n[0] + n[4] / TWO48 * R4 - WORD, n[1], n[2], n[3], n[4] % TWO48)
    ensures Pass(n)[0] == n[0] + n[4] / TWO48 * R4 - WORD < P0 - R4
  {
    hide Value, Carried;
    FirstWord(n[0], n[4] / TWO48);
    LowLimb(n[0] + n[4] / TWO48 * R4 - WORD, n[1], n[2], n[3], n[4] % TWO48);
  }

  lemma CarriedZero(n0: int, n1: int, n2: int, n3: int, n4: int)
    requires n0 >= 0 && n1 >= 0 && n2 >= 0 && n3 >= 0 && n4 >= 0 && n0 < B
    ensures Carried(n0, n1, n2, n3, n4) == [0, 0, 0, 0, 0] <==> n0 == n1 == n2 == n3 == n4 == 0
  {
    hide Value;
  }

  /** The lowest limb of a number in reduced limbs. */
  lemma LowestLimb(t: seq<int>)
    requires Passed(t)
    ensures Value(t) % B == t[0]
  {
    DivModUnique(Value(t), B, t[1] + t[2] * B + t[3] * B2 + t[4] * B3, t[0]);
  }

  /** Of the overflowing elements only those that look zero have the lost carry for their residue, and none
      is zero modulo the prime. */
  lemma OverflowResidues(n: seq<int>)
    requires HasMagnitude(n, 2048) && !FirstWordFits(n)
    ensures Value(n) % P == WORD <==> LooksZero(n)
    ensures Value(n) % P != 0
  {
    hide Value, Pass, Carried, Passed;
    var t := Pass(n);
    OverflowLeavesLittle(n);
    LowestLimb(t);
    ZeroAfterPass(n);
    LostShows(Value(n), WORD);
    ZeroIsFlat(t);
    CarriedZero(t[0], n[1], n[2], n[3], n[4] % TWO48);
    NotThePrime(Value(t), t[0]);
    PassedBelowTwoPrimes(t);
    NotZero(Value(n), Value(t), n[4] / TWO48, t[0]);
  }

  lemma ZeroIsFlat(t: seq<int>)
    requires Passed(t)
    ensures Value(t) == 0 <==> t == [0, 0, 0, 0, 0]
  {
    ZeroValue(t);
  }

  lemma NotThePrime(v: int, low: int)
    requires v % B == low < P0 - R4
    ensures v != P
  {
  }

  /** A residue of zero would leave the first pass one of two values, whose lowest limbs are large. */
  lemma NotZero(was: int, v: int, x: int, low: int)
    requires was - WORD == v + x * P && 0 <= v < 2 * P && v % B == low < P0 - R4
    ensures was % P != 0
  {
    if was % P == 0 {
      var q := was / P - x;
      assert was == (was / P) * P;
      assert v + WORD == q * P;
      SmallMultiple(v + WORD, q);
    }
  }

  lemma SmallMultiple(v: int, q: int)
    requires v == q * P && WORD <= v < 2 * P + WORD
    ensures v == P || v == 2 * P
  {
    if q >= 3 {
      MulBound(3, P, q, P);
    }
  }

  /** A zero test is right exactly if the element does not look zero, which is to say for all elements but
      a few whose residue is the lost carry. */
  lemma ZeroTestRight(n: seq<int>, zero: bool)
    requires HasMagnitude(n, 2048) && (zero <==> (Value(n) - Lost(n)) % P == 0)
    ensures zero <==> Value(n) % P == 0 || LooksZero(n)
    ensures LooksZero(n) ==> Value(n) % P == WORD
    ensures (zero <==> Value(n) % P == 0) <==> !LooksZero(n)
  {
    hide Value;
    LostShows(Value(n), Lost(n));
    if !FirstWordFits(n) {
      OverflowResidues(n);
    }
  }

  /** An element that looks zero and is not. */
  lemma ZeroTestFails(n: seq<int>)
    requires n == [WORD - R4, 0, 0, 0, TWO48]
    ensures HasMagnitude(n, 2048) && LooksZero(n) && Value(n) % P == WORD
    ensures (Value(n) - Lost(n)) % P == 0
  {
    hide Value;
    OverflowResidues(n);
    LostShows(Value(n), WORD);
  }

  method FeNormalizesToZero(n: array<U64>) returns (zero: bool)
    requires n.Length == 5 && HasMagnitude(n[..], 2048)
    ensures zero <==> Value(n[..]) % P == 0 || LooksZero(n[..])
    ensures (zero <==> Value(n[..]) % P == 0) <==> !LooksZero(n[..])
  {
    hide Value, And, Or, Xor, Pass, LooksZero;
    var t0, t1, t2, t3, t4 := FirstPass(n);
    var z0, z1 := t0, Xor(t0, 0x1000003D0);
    z0, z1 := Or(z0, t1), And(z1, t1);
    z0, z1 := Or(z0, t2), And(z1, t2);
    z0, z1 := Or(z0, t3), And(z1, t3);
    z0, z1 := Or(z0, t4), And(z1, Xor(t4, 0xF000000000000));
    ZeroMasks([t0, t1, t2, t3, t4], z0, z1);
    ZeroAfterPass(n[..]);
    zero := z0 == 0 || z1 == MAX52;
    ZeroTestRight(n[..], zero);
  }

  /** The low limb alone rules most values out before the others are looked at. */
  method FeNormalizesToZeroVar(n: array<U64>) returns (zero: bool)
    requires n.Length == 5 && HasMagnitude(n[..], 2048)
    ensures zero <==> Value(n[..]) % P == 0 || LooksZero(n[..])
    ensures (zero <==> Value(n[..]) % P == 0) <==> !LooksZero(n[..])
  {
    hide Value, And, Or, Xor, HasMagnitude, Passed, FirstWordFits, Lost, Carried, LooksZero;
    LimbBounds(n[..]);
    ghost var t := Pass(n[..]);
    var t0, t4 := n[0], n[4];
    var y: U64 := t4 / TWO48;
    t0 := (t0 + y * R4) % WORD;
    var z0 := t0 % B;
    var z1 := Xor(z0, 0x1000003D0);
    ZeroAfterPass(n[..]);
    LowLimb(t0, n[1], n[2], n[3], t4 % TWO48);
    if z0 != 0 && z1 != MAX52 {
      LowLimbDecides(t);
      ZeroTestRight(n[..], false);
      return false;
    }
    zero := OtherLimbs(t0, n[1], n[2], n[3], t4 % TWO48, z0, z1);
    ZeroTestRight(n[..], zero);
  }

  lemma LowLimb(n0: int, n1: int, n2: int, n3: int, n4: int)
    requires n0 >= 0 && n1 >= 0 && n2 >= 0 && n3 >= 0 && n4 >= 0
    ensures Carried(n0, n1, n2, n3, n4)[0] == n0 % B
  {
  }

  /** The rest of the test, when the low limb left it open. */
  method OtherLimbs(n0: U64, n1: U64, n2: U64, n3: U64, n4: U64, low: nat, low': nat) returns (zero: bool)
    requires n1 <= 4096 * MAX52 && n2 <= 4096 * MAX52 && n3 <= 4096 * MAX52 && n4 < TWO48
    requires Passed(Carried(n0, n1, n2, n3, n4)) && low == n0 % B && low' == Xor(low, 0x1000003D0)
    ensures zero <==> Value(Carried(n0, n1, n2, n3, n4)) == 0 || Value(Carried(n0, n1, n2, n3, n4)) == P
  {
    hide Value, And, Or, Xor, Passed;
    var t0, t1, t2, t3, t4 := n0, n1, n2, n3, n4;
    var z0, z1 := low, low';
    t1 := t1 + t0 / B;
    t2 := t2 + t1 / B;
    t1 := t1 % B;
    z0, z1 := Or(z0, t1), And(z1, t1);
    t3 := t3 + t2 / B;
    t2 := t2 % B;
    z0, z1 := Or(z0, t2), And(z1, t2);
    t4 := t4 + t3 / B;
    t3 := t3 % B;
    z0, z1 := Or(z0, t3), And(z1, t3);
    z0, z1 := Or(z0, t4), And(z1, Xor(t4, 0xF000000000000));
    ZeroMasks([low, t1, t2, t3, t4], z0, z1);
    zero := z0 == 0 || z1 == MAX52;
  }

  // --- comparison, negation, addition ---

  /** Canonical limbs compare like numbers, most significant limb first. */
  lemma LimbOrder(n: seq<int>, m: seq<int>, i: nat)
    requires Canonical(n) && Canonical(m) && i < 5
    requires forall k :: i < k < 5 ==> n[k] == m[k]
    requires n[i] < m[i]
    ensures Value(n) < Value(m)
  {
  }

  method FeCmpVar(a: array<U64>, b: array<U64>) returns (c: int)
    requires a.Length == 5 && b.Length == 5 && Canonical(a[..]) && Canonical(b[..])
    ensures c == if Value(a[..]) > Value(b[..]) then 1 else if Value(a[..]) < Value(b[..]) then -1 else 0
  {
    hide Canonical, Value;
    for i := 5 downto 0
      invariant forall k :: i <= k < 5 ==> a[k] == b[k]
    {
      if a[i] > b[i] {
        LimbOrder(b[..], a[..], i);
        return 1;
      }
      if a[i] < b[i] {
        LimbOrder(a[..], b[..], i);
        return -1;
      }
    }
    assert a[..] == b[..];
    return 0;
  }

  /** The limbs of the negative: multiples of the prime's limbs less those of the element. */
  function Negated(a: seq<int>, m: int): seq<int>
    requires |a| == 5
  {
    [P0 * 2 * (m + 1) - a[0], MAX52 * 2 * (m + 1) - a[1], MAX52 * 2 * (m + 1) - a[2], MAX52 * 2 * (m + 1) - a[3],
     MAX48 * 2 * (m + 1) - a[4]]
  }

  function Sum(a: seq<int>, b: seq<int>): seq<int>
    requires |a| == 5 && |b| == 5
  {
    [a[0] + b[0], a[1] + b[1], a[2] + b[2], a[3] + b[3], a[4] + b[4]]
  }

  /** `r` may be `a`. */
  method FeNegate(r: array<U64>, a: array<U64>, m: nat)
    requires r.Length == 5 && a.Length == 5 && m < 2048 && HasMagnitude(a[..], m)
    modifies r
    ensures r[..] == Negated(old(a[..]), m) && HasMagnitude(r[..], m + 1)
    ensures Value(r[..]) + Value(old(a[..])) == 2 * (m + 1) * P
  {
    r[0] := P0 * 2 * (m + 1) - a[0];
    r[1] := MAX52 * 2 * (m + 1) - a[1];
    r[2] := MAX52 * 2 * (m + 1) - a[2];
    r[3] := MAX52 * 2 * (m + 1) - a[3];
    r[4] := MAX48 * 2 * (m + 1) - a[4];
  }

  method FeAdd(r: array<U64>, a: array<U64>, m: nat, k: nat)
    requires r.Length == 5 && a.Length == 5 && m + k <= 2048 && HasMagnitude(r[..], m) && HasMagnitude(a[..], k)
    modifies r
    ensures r[..] == Sum(old(r[..]), old(a[..])) && HasMagnitude(r[..], m + k)
    ensures Value(r[..]) == Value(old(r[..])) + Value(old(a[..]))
  {
    hide Value, HasMagnitude;
    ghost var s := Sum(r[..], a[..]);
    SumFits(r[..], a[..], m, k);
    r[0] := r[0] + a[0];
    r[1] := r[1] + a[1];
    r[2] := r[2] + a[2];
    r[3] := r[3] + a[3];
    r[4] := r[4] + a[4];
    assert r[..] == s;
  }

  lemma SumFits(a: seq<int>, b: seq<int>, m: nat, k: nat)
    requires HasMagnitude(a, m) && HasMagnitude(b, k) && m + k <= 2048
    ensures HasMagnitude(Sum(a, b), m + k) && Value(Sum(a, b)) == Value(a) + Value(b)
    ensures a[0] + b[0] < WORD && a[1] + b[1] < WORD && a[2] + b[2] < WORD && a[3] + b[3] < WORD && a[4] + b[4] < WORD
  {
    SumValue(a, b);
    hide Value;
  }

  lemma SumValue(a: seq<int>, b: seq<int>)
    requires |a| == 5 && |b| == 5
    ensures Value(Sum(a, b)) == Value(a) + Value(b)
  {
  }

  lemma DifferenceIsZero(v: int, w: int, d: int, k: int)
    requires d == k * P - v + w
    ensures d % P == 0 <==> v % P == w % P
  {
    var q, r, s, t := v / P, v % P, w / P, w % P;
    assert d == (k - q + s) * P + (t - r);
    ResidueOf(d % P, d, d / P);
  }

  /** Equality of field elements, whatever their representations: the difference never looks zero. */
  method FeEqual(a: array<U64>, b: array<U64>) returns (eq: bool)
    requires a.Length == 5 && b.Length == 5 && HasMagnitude(a[..], 1) && HasMagnitude(b[..], 2046)
    ensures eq <==> Value(a[..]) % P == Value(b[..]) % P
  {
    hide Value, HasMagnitude, Negated, Sum, LooksZero;
    var na := new U64[5];
    FeNegate(na, a, 1);
    FeAdd(na, b, 2, 2046);
    DifferenceIsZero(Value(a[..]), Value(b[..]), Value(na[..]), 4);
    DifferenceShows(a[..], b[..]);
    eq := FeNormalizesToZero(na);
  }

  /** The second limb of the difference is never zero. */
  lemma DifferenceShows(a: seq<int>, b: seq<int>)
    requires HasMagnitude(a, 1) && HasMagnitude(b, 2046)
    ensures !LooksZero(Sum(Negated(a, 1), b))
  {
  }

  /** `fe_verify` admits magnitude 2048; there the carry can be lost, and the residue with it. */
  lemma Magnitude2048Overflows(n: seq<int>)
    requires n == [4096 * MAX52, 4096 * MAX52, 4096 * MAX52, 4096 * MAX52, 4096 * MAX48]
    ensures HasMagnitude(n, 2048) && !FirstWordFits(n)
    ensures Value(Pass(n)) % P != Value(n) % P
  {
    hide Value, Pass;
    ResidueOf(Value(Pass(n)) % P, Value(n) - WORD, Value(Pass(n)) / P + n[4] / TWO48);
    LostShows(Value(n), WORD);
  }
}
