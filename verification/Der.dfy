/** The strict DER encoding of an ECDSA signature: X.690, sections 8.1.3 (lengths), 8.3 (integers), 8.9. */
module Der {
  import V = WnafVar
  import opened Words

  type Byte = x: int | 0 <= x < 256
  type Bytes = seq<Byte>
  type Scalar = V.Reduced

  const ORDER: int := V.ORDER

  // --- the encoding ---

  /** An unsigned big-endian number. */
  function Value(b: Bytes): nat {
    if |b| == 0 then 0 else 256 * Value(b[..|b| - 1]) + b[|b| - 1]
  }

  /** The shortest unsigned encoding: no leading zero byte, and nothing at all for zero. */
  function Minimal(n: nat): Bytes {
    if n == 0 then [] else Minimal(n / 256) + [n % 256]
  }

  /** Lengths of more than 126 octets have no encoding. */
  predicate HasLength(n: nat) {
    |Minimal(n)| <= 126
  }

  /** A definite length in the fewest octets. */
  function Length(n: nat): Bytes {
    if n < 128 then [n] else if HasLength(n) then [128 + |Minimal(n)|] + Minimal(n) else []
  }

  /** The contents octets of an integer: a sign bit, and no more octets than needed. */
  predicate IntegerContents(b: Bytes) {
    && |b| > 0
    && !(|b| > 1 && b[0] == 0 && b[1] < 128)
    && !(|b| > 1 && b[0] == 255 && b[1] >= 128)
  }

  /** The contents octets of a number that is not negative. */
  function Unsigned(n: nat): Bytes {
    var m := Minimal(n);
    if n == 0 || m[0] >= 128 then [0] + m else m
  }

  function Integer(b: Bytes): Bytes {
    [0x02] + Length(|b|) + b
  }

  /** A sequence of two integers. */
  function Pair(b: Bytes, c: Bytes): Bytes {
    [0x30] + Length(|Integer(b) + Integer(c)|) + Integer(b) + Integer(c)
  }

  // --- numbers and their bytes ---

  lemma {:induction false} ValueMinimal(n: nat)
    ensures Value(Minimal(n)) == n
    ensures n > 0 ==> |Minimal(n)| > 0 && Minimal(n)[0] != 0
  {
    if n > 0 {
      ValueMinimal(n / 256);
      assert Minimal(n)[..|Minimal(n)| - 1] == Minimal(n / 256);
    }
  }

  lemma {:induction false} MinimalValue(b: Bytes)
    requires |b| > 0 ==> b[0] != 0
    ensures Minimal(Value(b)) == b
    ensures |b| > 0 ==> Value(b) > 0
    decreases |b|
  {
    if |b| > 0 {
      var c := b[..|b| - 1];
      MinimalValue(c);
      assert (256 * Value(c) + b[|b| - 1]) / 256 == Value(c);
      assert c + [b[|b| - 1]] == b;
    }
  }

  lemma {:induction false} ValueOfZero(b: Bytes)
    ensures Value([0] + b) == Value(b)
    decreases |b|
  {
    if |b| > 0 {
      ValueOfZero(b[..|b| - 1]);
      assert ([0] + b)[..|b|] == [0] + b[..|b| - 1];
    } else {
      assert ([0] + b)[..0] == [];
    }
  }

  lemma OctetMore(k: nat)
    ensures Pow2(8 * (k + 1)) == 256 * Pow2(8 * k)
  {
    hide Pow2;
    OneOctet();
    Pow2Add(8, 8 * k);
  }

  lemma {:induction false} MinimalLength(n: nat, k: nat)
    ensures |Minimal(n)| <= k <==> n < Pow2(8 * k)
    decreases k
  {
    if n > 0 && k > 0 {
      MinimalLength(n / 256, k - 1);
      OctetMore(k - 1);
    } else if n > 0 {
      assert |Minimal(n)| >= 1;
    }
  }

  /** The nonnegative integers among the contents octets are exactly the unsigned encodings. */
  lemma UnsignedUnique(b: Bytes)
    requires IntegerContents(b) && b[0] < 128
    ensures b == Unsigned(Value(b))
  {
    if b[0] != 0 {
      MinimalValue(b);
    } else {
      assert b == [0] + b[1..];
      ValueOfZero(b[1..]);
      MinimalValue(b[1..]);
    }
  }

  lemma UnsignedContents(n: nat)
    ensures IntegerContents(Unsigned(n)) && Unsigned(n)[0] < 128 && Value(Unsigned(n)) == n
  {
    ValueMinimal(n);
    ValueOfZero(Minimal(n));
  }

  /** Scalars take at most 33 octets. */
  lemma ScalarLength(n: Scalar)
    ensures |Unsigned(n)| <= 33
  {
    hide Pow2;
    Words.Pow256();
    MinimalLength(n, 32);
  }

  lemma SmallLength(n: nat)
    requires n < 128
    ensures HasLength(n) && Length(n) == [n]
  {
    OneOctet();
    hide Pow2;
    MinimalLength(n, 1);
  }

  lemma {:induction false} PrefixValue(b: Bytes, i: nat)
    requires i <= |b|
    ensures Value(b[..i]) <= Value(b)
    decreases |b|
  {
    if i < |b| {
      PrefixValue(b[..|b| - 1], i);
      assert b[..|b| - 1][..i] == b[..i];
    } else {
      assert b[..i] == b;
    }
  }

  lemma ValueNext(b: Bytes, i: nat)
    requires i < |b|
    ensures Value(b[..i + 1]) == 256 * Value(b[..i]) + b[i]
  {
    assert b[..i + 1][..i] == b[..i];
  }

  // --- parsing ---

  const PTRDIFF_MAX: int := 0x7FFF_FFFF_FFFF_FFFF
  const INT_MAX: int := 0x7FFF_FFFF

  /** An input whose octets pointers can be subtracted across. */
  predicate Input(sig: Bytes) {
    |sig| <= PTRDIFF_MAX
  }

  /** A `size_t` returned as an `int` keeps its low 32 bits. */
  function ToInt(n: nat): int {
    var m := n % 0x1_0000_0000;
    if m <= INT_MAX then m else m - 0x1_0000_0000
  }

  lemma ToIntKeeps(n: nat)
    ensures ToInt(n) == n <==> n <= INT_MAX
    ensures ToInt(n) <= n && -INT_MAX - 1 <= ToInt(n) <= INT_MAX
  {
  }

  /** A length stands at `pos`; a long one does not reach past the end. */
  predicate LengthAt(sig: Bytes, pos: nat, n: nat) {
    && HasLength(n)
    && pos + |Length(n)| <= |sig|
    && sig[pos..pos + |Length(n)|] == Length(n)
    && (n < 128 || pos + |Length(n)| + n <= |sig|)
  }

  lemma ShortLengthAt(sig: Bytes, pos: nat, n: nat)
    requires LengthAt(sig, pos, n)
    ensures pos < |sig| && (n < 128 ==> sig[pos] == n)
    ensures n >= 128 ==> var k := |Minimal(n)|;
              && 1 <= k <= 126 && sig[pos] == 128 + k && pos + 1 + k + n <= |sig|
              && sig[pos + 1..pos + 1 + k] == Minimal(n) && sig[pos + 1] != 0
  {
    hide Value, Minimal;
    assert sig[pos..pos + |Length(n)|][0] == sig[pos];
    if n >= 128 {
      ValueMinimal(n);
      var k := |Minimal(n)|;
      assert sig[pos..pos + 1 + k][1..] == sig[pos + 1..pos + 1 + k];
      assert sig[pos + 1..pos + 1 + k][0] == sig[pos + 1];
    }
  }

  lemma LongLengthAt(sig: Bytes, pos: nat, k: nat, n: nat)
    requires 1 <= k <= 126 && pos + 1 + k + n <= |sig| && sig[pos] == 128 + k && sig[pos + 1] != 0
    requires n == Value(sig[pos + 1..pos + 1 + k]) && n >= 128
    ensures LengthAt(sig, pos, n) && |Length(n)| == 1 + k
  {
    MinimalValue(sig[pos + 1..pos + 1 + k]);
    assert sig[pos..pos + 1 + k] == [sig[pos]] + sig[pos + 1..pos + 1 + k];
  }

  /** No length fits when the octets read so far already point past the end. */
  lemma NoLongLength(sig: Bytes, pos: nat, k: nat, i: nat)
    requires pos + 1 + k <= |sig| && sig[pos] == 128 + k && 1 <= i <= k
    requires Value(sig[pos + 1..pos + 1 + k][..i]) + k > |sig| - (pos + 1)
    ensures forall n :: !LengthAt(sig, pos, n)
  {
    forall n
      ensures !LengthAt(sig, pos, n)
    {
      if LengthAt(sig, pos, n) {
        ShortLengthAt(sig, pos, n);
        ValueMinimal(n);
        PrefixValue(sig[pos + 1..pos + 1 + k], i);
      }
    }
  }

  lemma OnlyLength(sig: Bytes, pos: nat, k: nat)
    requires pos + 1 + k <= |sig| && sig[pos] == 128 + k && k <= 127
    ensures forall n :: LengthAt(sig, pos, n) ==> n >= 128 && 1 <= k <= 126 && n == Value(sig[pos + 1..pos + 1 + k]) && sig[pos + 1] != 0
  {
    forall n | LengthAt(sig, pos, n)
      ensures n >= 128 && 1 <= k <= 126 && n == Value(sig[pos + 1..pos + 1 + k]) && sig[pos + 1] != 0
    {
      ShortLengthAt(sig, pos, n);
      ValueMinimal(n);
    }
  }

  /** More length octets than a `size_t` holds would mean a longer input. */
  lemma FewOctets(sig: Bytes, pos: nat, n: nat)
    requires Input(sig) && LengthAt(sig, pos, n)
    ensures |Minimal(n)| <= 8
  {
    assert n <= 127 || n <= |sig|;
    hide Minimal, Pow2, Length, HasLength;
    SizeWidth();
    MinimalLength(n, 8);
  }

  lemma SizeWidth()
    ensures Pow2(64) == 0x1_0000_0000_0000_0000 && Pow2(56) == 0x100_0000_0000_0000
  {
    hide Pow2;
    OneOctet();
    Pow2Add(8, 8);
    Pow2Add(16, 16);
    Pow2Add(16, 8);
    Pow2Add(32, 24);
    Pow2Add(32, 32);
  }

  lemma OneOctet()
    ensures Pow2(8) == 0x100
  {
  }

  /** What the octets read so far can come to. */
  lemma {:induction false} ValueBound(b: Bytes)
    ensures Value(b) < Pow2(8 * |b|)
    decreases |b|
  {
    if |b| > 0 {
      ValueBound(b[..|b| - 1]);
      OctetMore(|b| - 1);
    }
  }

  /** Eight octets at most fit a `size_t`; adding what is left to read may still wrap, to zero. */
  lemma FitsSize(b: Bytes, k: nat)
    requires k <= |b| <= 8
    ensures Value(b[..k]) < 0x1_0000_0000_0000_0000
    ensures k < |b| ==> Value(b[..k]) < 0x100_0000_0000_0000
  {
    hide Pow2, Value;
    SizeWidth();
    ValueBound(b[..k]);
    Pow2Monotone(8 * k, 64);
    if k < |b| {
      Pow2Monotone(8 * k, 56);
    }
  }

  /** Reads the length that stands at `pos`, as an `int`, or gives -1 when there is none. */
  method ReadLen(sig: Bytes, pos: nat) returns (next: nat, len: int, ghost full: nat)
    requires Input(sig) && pos <= |sig|
    ensures next <= |sig|
    ensures LengthAt(sig, pos, full) ==> len == ToInt(full) && next == pos + |Length(full)|
    ensures !LengthAt(sig, pos, full) ==> len == -1
    ensures forall n :: LengthAt(sig, pos, n) ==> n == full
  {
    hide Value, Minimal, Length, LengthAt, ToInt;
    next, full := pos, 0;
    forall n | LengthAt(sig, pos, n)
      ensures pos < |sig| && (n < 128 ==> sig[pos] == n) && (n >= 128 ==> 128 < sig[pos] <= 254)
      ensures n >= 128 ==> sig[pos] <= 136 && pos + 1 + (sig[pos] - 128) <= |sig|
    {
      ShortLengthAt(sig, pos, n);
      FewOctets(sig, pos, n);
    }
    if next >= |sig| {
      return next, -1, full;
    }
    var b1 := sig[next];
    next := next + 1;
    if b1 == 0xFF {
      return next, -1, full;
    }
    if b1 < 128 {
      ShortForm(sig, pos);
      ToIntKeeps(b1);
      return next, b1, b1;
    }
    if b1 == 0x80 {
      return next, -1, full;
    }
    var lenleft := b1 - 128;
    if lenleft > |sig| - next {
      return next, -1, full;
    }
    OnlyLength(sig, pos, lenleft);
    if sig[next] == 0 {
      return next, -1, full;
    }
    if lenleft > 8 {
      return next, -1, full;
    }
    next, len, full := LongForm(sig, pos, lenleft);
  }

  /** The octets of a long form, most significant first. */
  method LongForm(sig: Bytes, pos: nat, k: nat) returns (next: nat, len: int, ghost full: nat)
    requires Input(sig) && 1 <= k <= 8 && pos + 1 + k <= |sig| && sig[pos] == 128 + k && sig[pos + 1] != 0
    ensures next <= |sig|
    ensures LengthAt(sig, pos, full) ==> len == ToInt(full) && next == pos + |Length(full)|
    ensures !LengthAt(sig, pos, full) ==> len == -1
    ensures forall n :: LengthAt(sig, pos, n) ==> n == full
  {
    hide Value, Minimal, Length, LengthAt, ToInt;
    OnlyLength(sig, pos, k);
    next, full := pos + 1, 0;
    ghost var b := sig[pos + 1..pos + 1 + k];
    var lenleft := k;
    var ret := 0;
    EmptyValue();
    assert b[..0] == [];
    while lenleft > 0
      invariant 0 <= lenleft <= k && next == pos + 1 + k - lenleft
      invariant ret == Value(b[..k - lenleft]) && ret >= 0
      invariant lenleft < k ==> ret + lenleft <= |sig| - next || (lenleft == 0 && ret == 0xFFFF_FFFF_FFFF_FFFF)
    {
      ValueNext(b, k - lenleft);
      FitsSize(b, k - lenleft + 1);
      ret := ret * 256 + sig[next];
      if (ret + lenleft) % 0x1_0000_0000_0000_0000 > |sig| - next {
        NoLongLength(sig, pos, k, k - lenleft + 1);
        return next, -1, full;
      }
      next := next + 1;
      lenleft := lenleft - 1;
    }
    assert b[..k] == b;
    if ret < 128 {
      return next, -1, full;
    }
    if ret == 0xFFFF_FFFF_FFFF_FFFF {
      NoLongLength(sig, pos, k, k);
      ToIntTop();
    } else {
      LongLengthAt(sig, pos, k, ret);
    }
    return next, ToInt(ret), ret;
  }

  lemma ToIntTop()
    ensures ToInt(0xFFFF_FFFF_FFFF_FFFF) == -1
  {
  }

  lemma EmptyValue()
    ensures Value([]) == 0
  {
  }

  lemma ShortForm(sig: Bytes, pos: nat)
    requires pos < |sig| && sig[pos] < 128
    ensures LengthAt(sig, pos, sig[pos]) && |Length(sig[pos])| == 1
  {
    SmallLength(sig[pos]);
    assert sig[pos..pos + 1] == [sig[pos]];
  }

  // --- integers ---

  /** An integer that is negative, or not below the group order. */
  predicate Overflows(b: Bytes)
    requires |b| > 0
  {
    b[0] >= 128 || Value(b) >= ORDER
  }

  /** What the parser makes of an integer: zero if it overflows. */
  function ScalarOf(b: Bytes): Scalar
    requires |b| > 0
  {
    if Overflows(b) then 0 else Value(b)
  }

  predicate IntegerAt(sig: Bytes, pos: nat, b: Bytes) {
    && IntegerContents(b) && HasLength(|b|)
    && pos + |Integer(b)| <= |sig|
    && sig[pos..pos + |Integer(b)|] == Integer(b)
  }

  /** The tag, the length and the contents of an integer, one by one. */
  lemma IntegerParts(sig: Bytes, pos: nat, b: Bytes)
    requires IntegerAt(sig, pos, b)
    ensures pos < |sig| && sig[pos] == 2 && LengthAt(sig, pos + 1, |b|)
    ensures var q := pos + 1 + |Length(|b|)|; q + |b| <= |sig| && sig[q..q + |b|] == b && pos + |Integer(b)| == q + |b|
  {
    hide Integer, Length, HasLength, IntegerContents;
    IntegerShape(b);
    var l, q := |Length(|b|)|, pos + |Integer(b)|;
    Slice(sig, pos, q, 1, 1 + l);
    Slice(sig, pos, q, 1 + l, 1 + l + |b|);
    assert sig[pos..q][0] == sig[pos];
  }

  lemma IntegerShape(b: Bytes)
    ensures var l := |Length(|b|)|; var x := Integer(b);
            |x| == 1 + l + |b| && x[0] == 2 && x[1..1 + l] == Length(|b|) && x[1 + l..1 + l + |b|] == b
  {
    hide Length;
  }

  lemma Slice(s: Bytes, a: nat, b: nat, c: nat, d: nat)
    requires c <= d <= b - a && a <= b <= |s|
    ensures s[a..b][c..d] == s[a + c..a + d]
  {
    var t := s[a..b];
    assert |t[c..d]| == d - c == |s[a + c..a + d]|;
    forall i | 0 <= i < d - c
      ensures t[c..d][i] == s[a + c..a + d][i]
    {
      assert t[c + i] == s[a + (c + i)];
    }
  }

  lemma IntegerFromParts(sig: Bytes, pos: nat, b: Bytes)
    requires pos < |sig| && sig[pos] == 2 && LengthAt(sig, pos + 1, |b|) && IntegerContents(b)
    requires var q := pos + 1 + |Length(|b|)|; q + |b| <= |sig| && sig[q..q + |b|] == b
    ensures IntegerAt(sig, pos, b) && pos + |Integer(b)| == pos + 1 + |Length(|b|)| + |b|
  {
    var l := |Length(|b|)|;
    assert sig[pos..pos + 1 + l + |b|] == [sig[pos]] + sig[pos + 1..pos + 1 + l] + sig[pos + 1 + l..pos + 1 + l + |b|];
  }

  lemma DropZero(b: Bytes)
    requires |b| > 0 && b[0] == 0
    ensures Value(b) == Value(b[1..])
  {
    assert b == [0] + b[1..];
    ValueOfZero(b[1..]);
  }

  /** More than 32 significant octets exceed the order; 32 or fewer fit the source's buffer. */
  lemma LongOverflows(b: Bytes)
    requires |b| > 32 && b[0] != 0
    ensures Value(b) >= ORDER
  {
    MinimalValue(b);
    MinimalLength(Value(b), 32);
    Words.Pow256();
  }

  /** Leading zeros do not change a number. */
  lemma {:induction false} Padded(zeros: Bytes, b: Bytes)
    requires forall i :: 0 <= i < |zeros| ==> zeros[i] == 0
    ensures Value(zeros + b) == Value(b)
    decreases |zeros|
  {
    if |zeros| == 0 {
      assert zeros + b == b;
    } else {
      Padded(zeros[1..], b);
      assert (zeros + b)[1..] == zeros[1..] + b;
      DropZero(zeros + b);
    }
  }

  /** What the parser takes for an integer: its contents are as long as the `int` read for their length. */
  predicate IntegerTaken(sig: Bytes, pos: nat, n: nat, b: Bytes) {
    && pos < |sig| && sig[pos] == 2 && LengthAt(sig, pos + 1, n) && |b| == ToInt(n) && IntegerContents(b)
    && var q := pos + 1 + |Length(n)|; q + |b| <= |sig| && sig[q..q + |b|] == b
  }

  /** With no more left than an `int` counts, that is an integer and nothing else. */
  lemma TakenWhole(sig: Bytes, pos: nat, n: nat, b: Bytes)
    requires pos <= |sig| && |sig| - pos <= INT_MAX
    ensures IntegerTaken(sig, pos, n, b) <==> n == |b| && IntegerAt(sig, pos, b)
    ensures IntegerTaken(sig, pos, n, b) ==> pos + 1 + |Length(n)| + |b| == pos + |Integer(b)|
  {
    hide Integer, Length, Minimal, IntegerContents, ToInt;
    ToIntKeeps(n);
    if IntegerTaken(sig, pos, n, b) {
      IntegerFromParts(sig, pos, b);
    }
    if n == |b| && IntegerAt(sig, pos, b) {
      IntegerParts(sig, pos, b);
    }
  }

  method ParseInteger(sig: Bytes, pos: nat) returns (ok: bool, next: nat, r: Scalar, ghost n: nat, ghost b: Bytes)
    requires Input(sig) && pos <= |sig|
    ensures next <= |sig|
    ensures ok ==> IntegerTaken(sig, pos, n, b) && next == pos + 1 + |Length(n)| + |b| && r == ScalarOf(b)
    ensures forall m, c :: IntegerTaken(sig, pos, m, c) ==> ok && m == n && c == b
  {
    hide Value, LengthAt, Length, IntegerContents, ToInt;
    next, r, n, b := pos, 0, 0, [];
    if next == |sig| || sig[next] != 0x02 {
      return false, next, 0, 0, [];
    }
    var rlen;
    next, rlen, n := ReadLen(sig, next + 1);
    forall m, c | IntegerTaken(sig, pos, m, c)
      ensures |c| > 0 && m == n
    {
      Nonempty(c);
    }
    if rlen <= 0 || next + rlen > |sig| {
      return false, next, 0, n, [];
    }
    b := sig[next..next + rlen];
    Paddings(b);
    if sig[next] == 0x00 && rlen > 1 && sig[next + 1] < 0x80 {
      return false, next, 0, n, b;
    }
    if sig[next] == 0xFF && rlen > 1 && sig[next + 1] >= 0x80 {
      return false, next, 0, n, b;
    }
    r, next := ReadScalar(sig, next, rlen);
    ok := true;
  }

  lemma Nonempty(b: Bytes)
    requires IntegerContents(b)
    ensures |b| > 0
  {
  }

  lemma Paddings(b: Bytes)
    requires |b| > 0
    ensures IntegerContents(b) <==> !(b[0] == 0 && |b| > 1 && b[1] < 128) && !(b[0] == 255 && |b| > 1 && b[1] >= 128)
  {
  }

  /** The contents octets, read as a scalar. */
  method ReadScalar(sig: Bytes, pos: nat, len: nat) returns (r: Scalar, next: nat)
    requires pos + len <= |sig| && len > 0
    ensures next == pos + len && r == ScalarOf(sig[pos..pos + len])
    ensures r == if sig[pos] >= 128 || Value(sig[pos..pos + len]) >= ORDER then 0 else Value(sig[pos..pos + len])
  {
    hide Value;
    var overflow := sig[pos] >= 128;
    var rlen := len;
    next := pos;
    while rlen > 0 && sig[next] == 0
      invariant next + rlen == pos + len
      invariant Value(sig[next..next + rlen]) == Value(sig[pos..pos + len])
      decreases rlen
    {
      DropZero(sig[next..next + rlen]);
      assert sig[next..next + rlen][1..] == sig[next + 1..next + rlen];
      rlen := rlen - 1;
      next := next + 1;
    }
    if rlen > 32 {
      LongOverflows(sig[next..next + rlen]);
      overflow := true;
    }
    r := 0;
    if !overflow {
      var zeros: Bytes := seq(32 - rlen, _ => 0);
      var ra := zeros + sig[next..next + rlen];
      Padded(zeros, sig[next..next + rlen]);
      overflow := Value(ra) >= ORDER;
      r := if overflow then 0 else Value(ra);
    }
    next := next + rlen;
  }

  // --- signatures ---

  predicate SignatureOf(sig: Bytes, b: Bytes, c: Bytes) {
    && IntegerContents(b) && IntegerContents(c)
    && HasLength(|b|) && HasLength(|c|) && HasLength(|Integer(b) + Integer(c)|)
    && sig == Pair(b, c)
  }

  lemma PairParts(sig: Bytes, b: Bytes, c: Bytes)
    requires SignatureOf(sig, b, c)
    ensures var n := |Integer(b) + Integer(c)|; var q := 1 + |Length(n)|;
            && |sig| == q + n && sig[0] == 0x30 && LengthAt(sig, 1, n)
            && IntegerAt(sig, q, b) && IntegerAt(sig, q + |Integer(b)|, c)
            && q + |Integer(b)| + |Integer(c)| == |sig|
  {
    hide Integer, Length, Minimal, IntegerContents, HasLength;
    var n := |Integer(b) + Integer(c)|;
    var l := |Length(n)|;
    assert sig[1..1 + l] == Length(n);
    assert sig[1 + l..1 + l + |Integer(b)|] == Integer(b);
    assert sig[1 + l + |Integer(b)|..1 + l + |Integer(b)| + |Integer(c)|] == Integer(c);
  }

  lemma PairFromParts(sig: Bytes, n: nat, b: Bytes, c: Bytes)
    requires |sig| > 0 && sig[0] == 0x30 && LengthAt(sig, 1, n) && 1 + |Length(n)| + n == |sig|
    requires IntegerAt(sig, 1 + |Length(n)|, b) && IntegerAt(sig, 1 + |Length(n)| + |Integer(b)|, c)
    requires 1 + |Length(n)| + |Integer(b)| + |Integer(c)| == |sig|
    ensures SignatureOf(sig, b, c)
  {
    hide Length, Integer, IntegerContents, HasLength;
    var l := |Length(n)|;
    assert n == |Integer(b) + Integer(c)|;
    assert sig == [sig[0]] + sig[1..1 + l] + sig[1 + l..1 + l + |Integer(b)|]
                  + sig[1 + l + |Integer(b)|..1 + l + |Integer(b)| + |Integer(c)|];
  }

  /** A sequence of two integers whose contents an `int` can count. */
  predicate Readable(sig: Bytes, b: Bytes, c: Bytes) {
    SignatureOf(sig, b, c) && |Integer(b) + Integer(c)| <= INT_MAX
  }

  /** Only one length stands at a place. */
  lemma OneLength(sig: Bytes, pos: nat, m: nat, n: nat)
    requires LengthAt(sig, pos, m) && LengthAt(sig, pos, n)
    ensures m == n
  {
    hide LengthAt, Value, Minimal;
    ShortLengthAt(sig, pos, m);
    ShortLengthAt(sig, pos, n);
    ValueMinimal(m);
    ValueMinimal(n);
  }

  /** A sequence whose contents an `int` cannot count is not readable in any other way either. */
  lemma LongIsRefused(sig: Bytes, b: Bytes, c: Bytes)
    requires SignatureOf(sig, b, c)
    ensures |Integer(b) + Integer(c)| > INT_MAX <==> forall d, e :: !Readable(sig, d, e)
  {
    hide SignatureOf, Integer, LengthAt, IntegerAt, Length;
    PairParts(sig, b, c);
    forall d, e | SignatureOf(sig, d, e)
      ensures |Integer(d) + Integer(e)| == |Integer(b) + Integer(c)|
    {
      PairParts(sig, d, e);
      OneLength(sig, 1, |Integer(b) + Integer(c)|, |Integer(d) + Integer(e)|);
    }
    assert |Integer(b) + Integer(c)| <= INT_MAX ==> Readable(sig, b, c);
  }

  /** There are such sequences: the first integer fills the contents. */
  lemma LongSignature(n: nat)
    requires INT_MAX <= n < 0x1_0000_0000
    ensures var b: Bytes, c: Bytes := seq(n, _ => 1), [1];
            && Input(Pair(b, c)) && SignatureOf(Pair(b, c), b, c)
            && forall d, e :: !Readable(Pair(b, c), d, e)
  {
    hide Minimal, Length, HasLength, Pair, Pow2;
    var b: Bytes, c: Bytes := seq(n, _ => 1), [1];
    ShortLength(n);
    ShortLength(1);
    ShortLength(|Integer(b) + Integer(c)|);
    PairLength(b, c);
    LongIsRefused(Pair(b, c), b, c);
  }

  lemma ShortLength(n: nat)
    requires n < 0x100_0000_0000_0000
    ensures HasLength(n) && 1 <= |Length(n)| <= 8
  {
    hide Pow2, Minimal;
    SizeWidth();
    MinimalLength(n, 7);
  }

  lemma PairLength(b: Bytes, c: Bytes)
    ensures |Pair(b, c)| == 1 + |Length(|Integer(b) + Integer(c)|)| + |Integer(b)| + |Integer(c)|
  {
    hide Length, Integer;
  }

  /** What a readable sequence looks like to the parser. */
  lemma ReadableParts(sig: Bytes, b: Bytes, c: Bytes)
    requires Readable(sig, b, c)
    ensures var n := |Integer(b) + Integer(c)|; var q := 1 + |Length(n)|; var q2 := q + |Integer(b)|;
            && |sig| == q + n && sig[0] == 0x30 && LengthAt(sig, 1, n) && ToInt(n) == n
            && IntegerTaken(sig, q, |b|, b) && q2 <= |sig| && IntegerTaken(sig, q2, |c|, c)
            && q + 1 + |Length(|b|)| + |b| == q2 && q2 + 1 + |Length(|c|)| + |c| == |sig|
  {
    hide Length, Integer, SignatureOf, IntegerTaken, ToInt, LengthAt;
    PairParts(sig, b, c);
    var n := |Integer(b) + Integer(c)|;
    ToIntKeeps(n);
    var q := 1 + |Length(n)|;
    TakenWhole(sig, q, |b|, b);
    TakenWhole(sig, q + |Integer(b)|, |c|, c);
  }

  /** A contents length that ends with the input is one an `int` can count. */
  lemma WholeLength(sig: Bytes, n: nat)
    requires LengthAt(sig, 1, n) && 1 + |Length(n)| + ToInt(n) == |sig|
    ensures ToInt(n) == n <= INT_MAX
  {
    hide Length, ToInt;
    ToIntKeeps(n);
  }

  /** Accepts exactly the readable sequences of two integers, and returns their scalars. */
  method SigParse(sig: Bytes) returns (ok: bool, r: Scalar, s: Scalar)
    requires Input(sig)
    ensures ok ==> exists b, c :: Readable(sig, b, c) && r == ScalarOf(b) && s == ScalarOf(c)
    ensures forall b, c :: Readable(sig, b, c) ==> ok && r == ScalarOf(b) && s == ScalarOf(c)
  {
    hide Value, LengthAt, IntegerTaken, Length, Integer, IntegerContents, Readable, ScalarOf, ToInt;
    ok, r, s := false, 0, 0;
    ghost var b, c, n, bn, cn;
    forall d, e | Readable(sig, d, e)
      ensures var n := |Integer(d) + Integer(e)|; var q := 1 + |Length(n)|; var q2 := q + |Integer(d)|;
              && |sig| == q + n && sig[0] == 0x30 && LengthAt(sig, 1, n) && ToInt(n) == n
              && IntegerTaken(sig, q, |d|, d) && q2 <= |sig| && IntegerTaken(sig, q2, |e|, e)
              && q + 1 + |Length(|d|)| + |d| == q2 && q2 + 1 + |Length(|e|)| + |e| == |sig|
    {
      ReadableParts(sig, d, e);
    }
    if 0 == |sig| || sig[0] != 0x30 {
      return;
    }
    var pos, rlen;
    pos, rlen, n := ReadLen(sig, 1);
    if rlen < 0 || pos + rlen > |sig| {
      return;
    }
    if pos + rlen != |sig| {
      return;
    }
    WholeLength(sig, n);
    var found;
    ghost var q := pos;
    found, pos, r, bn, b := ParseInteger(sig, pos);
    if !found {
      return;
    }
    TakenWhole(sig, q, bn, b);
    ghost var q2 := pos;
    found, pos, s, cn, c := ParseInteger(sig, pos);
    if !found {
      return;
    }
    TakenWhole(sig, q2, cn, c);
    if pos != |sig| {
      return;
    }
    PairFromParts(sig, n, b, c);
    ok := true;
    assert Readable(sig, b, c) by { ReadableFromParts(sig, n, b, c); }
  }

  lemma ReadableFromParts(sig: Bytes, n: nat, b: Bytes, c: Bytes)
    requires SignatureOf(sig, b, c) && n <= INT_MAX && |Integer(b)| + |Integer(c)| == n
    ensures Readable(sig, b, c)
  {
    hide Integer;
  }

  // --- the serializer ---

  /** The encoding of two scalars. */
  function Encode(r: Scalar, s: Scalar): Bytes {
    Pair(Unsigned(r), Unsigned(s))
  }

  lemma ScalarInteger(r: Scalar)
    ensures var b := Unsigned(r);
            && IntegerContents(b) && HasLength(|b|) && |b| <= 33 && Integer(b) == [0x02, |b|] + b
            && !Overflows(b) && ScalarOf(b) == r
  {
    hide Unsigned, Minimal, Value, Length, HasLength, IntegerContents;
    UnsignedContents(r);
    ScalarLength(r);
    SmallLength(|Unsigned(r)|);
    ShortInteger(Unsigned(r));
  }

  lemma ShortInteger(b: Bytes)
    requires |b| < 128 && Length(|b|) == [|b|]
    ensures Integer(b) == [0x02, |b|] + b
  {
    hide Length;
  }

  lemma PairOctets(b: Bytes, c: Bytes)
    requires |b| <= 33 && |c| <= 33 && Integer(b) == [0x02, |b|] + b && Integer(c) == [0x02, |c|] + c
    ensures |Integer(b) + Integer(c)| == 4 + |c| + |b|
    ensures Length(4 + |c| + |b|) == [4 + |c| + |b|] ==>
              Pair(b, c) == [0x30, 4 + |c| + |b|, 0x02, |b|] + b + [0x02, |c|] + c
  {
    hide Length, Integer;
  }

  /** The encoding of scalars, octet by octet. */
  lemma EncodeOctets(r: Scalar, s: Scalar)
    ensures var b, c := Unsigned(r), Unsigned(s);
            && Encode(r, s) == [0x30, 4 + |c| + |b|, 0x02, |b|] + b + [0x02, |c|] + c
            && Readable(Encode(r, s), b, c)
  {
    hide Unsigned, Length, HasLength, IntegerContents, Integer, Minimal, Pair;
    ScalarInteger(r);
    ScalarInteger(s);
    var b, c := Unsigned(r), Unsigned(s);
    PairOctets(b, c);
    SmallLength(4 + |c| + |b|);
  }

  /** The fixed 32 octets of a scalar, as `scalar_get_b32` gives them. */
  function B32(n: Scalar): (b: Bytes)
    ensures |b| == 32 && Value(b) == n
  {
    ScalarLength(n);
    Words.Pow256();
    MinimalLength(n, 32);
    ValueMinimal(n);
    var m := Minimal(n);
    var zeros: Bytes := seq(32 - |m|, _ => 0);
    Padded(zeros, m);
    zeros + m
  }

  /** Stripping redundant leading zeros from the 33-octet buffer leaves the unsigned encoding. */
  method Strip(n: Scalar) returns (b: Bytes)
    ensures b == Unsigned(n) && |b| <= 33
  {
    hide Value, Unsigned;
    var buffer: Bytes := [0] + B32(n);
    DropZero(buffer);
    assert buffer[1..] == B32(n);
    var len, p := 33, 0;
    while len > 1 && buffer[p] == 0 && buffer[p + 1] < 0x80
      invariant 1 <= len <= 33 && p + len == 33
      invariant Value(buffer[p..]) == n && buffer[p] < 0x80
    {
      DropZero(buffer[p..]);
      assert buffer[p..][1..] == buffer[p + 1..];
      len := len - 1;
      p := p + 1;
    }
    b := buffer[p..];
    UnsignedUnique(b);
  }

  /** Writes the encoding if it fits, and reports its size either way. */
  method SigSerialize(sig: array<Byte>, size: nat, r: Scalar, s: Scalar) returns (size': nat, ok: bool)
    requires size <= sig.Length
    modifies sig
    ensures size' == |Encode(r, s)| && (ok <==> size' <= size)
    ensures ok ==> sig[..size'] == Encode(r, s) && sig[size'..] == old(sig[size'..])
    ensures !ok ==> sig[..] == old(sig[..])
  {
    hide Encode, Unsigned;
    EncodeOctets(r, s);
    var rp := Strip(r);
    var sp := Strip(s);
    var lenR, lenS := |rp|, |sp|;
    size' := 6 + lenS + lenR;
    if size < size' {
      return size', false;
    }
    WritePair(sig, rp, sp);
    ok := true;
  }

  method WritePair(sig: array<Byte>, rp: Bytes, sp: Bytes)
    requires |rp| <= 33 && |sp| <= 33 && 6 + |rp| + |sp| <= sig.Length
    modifies sig
    ensures sig[..6 + |rp| + |sp|] == [0x30, 4 + |sp| + |rp|, 0x02, |rp|] + rp + [0x02, |sp|] + sp
    ensures forall i :: 6 + |rp| + |sp| <= i < sig.Length ==> sig[i] == old(sig[i])
  {
    var lenR, lenS := |rp|, |sp|;
    sig[0] := 0x30;
    sig[1] := 4 + lenS + lenR;
    sig[2] := 0x02;
    sig[3] := lenR;
    Copy(sig, 4, rp);
    assert sig[..4 + lenR] == [0x30, 4 + lenS + lenR, 0x02, lenR] + rp;
    WriteSecond(sig, 4 + lenR, sp);
  }

  /** The second integer, behind what is written already. */
  method WriteSecond(sig: array<Byte>, pos: nat, sp: Bytes)
    requires |sp| <= 33 && pos + 2 + |sp| <= sig.Length
    modifies sig
    ensures sig[..pos + 2 + |sp|] == old(sig[..pos]) + [0x02, |sp|] + sp
    ensures forall i :: pos + 2 + |sp| <= i < sig.Length ==> sig[i] == old(sig[i])
  {
    sig[pos] := 0x02;
    sig[pos + 1] := |sp|;
    Copy(sig, pos + 2, sp);
    assert sig[..pos + 2 + |sp|] == old(sig[..pos]) + [0x02, |sp|] + sp;
  }

  /** `memcpy`. */
  method Copy(dst: array<Byte>, pos: nat, src: Bytes)
    requires pos + |src| <= dst.Length
    modifies dst
    ensures forall i :: 0 <= i < |src| ==> dst[pos + i] == src[i]
    ensures forall i :: 0 <= i < pos || pos + |src| <= i < dst.Length ==> dst[i] == old(dst[i])
  {
    for i := 0 to |src|
      invariant forall k :: 0 <= k < i ==> dst[pos + k] == src[k]
      invariant forall k :: 0 <= k < pos || pos + i <= k < dst.Length ==> dst[k] == old(dst[k])
    {
      dst[pos + i] := src[i];
    }
  }

  // --- round trip and uniqueness ---

  /** Every pair of scalars has an encoding, and the encoding stands for that pair only. */
  lemma RoundTrip(r: Scalar, s: Scalar)
    ensures exists b, c :: Readable(Encode(r, s), b, c) && !Overflows(b) && !Overflows(c) && ScalarOf(b) == r && ScalarOf(c) == s
    ensures |Encode(r, s)| <= 72
  {
    hide Unsigned;
    EncodeOctets(r, s);
    ScalarInteger(r);
    ScalarInteger(s);
  }

  /** Whatever is accepted without an overflow is octet for octet what the serializer writes. */
  lemma EncodingIsUnique(sig: Bytes, b: Bytes, c: Bytes)
    requires SignatureOf(sig, b, c) && !Overflows(b) && !Overflows(c)
    ensures sig == Encode(ScalarOf(b), ScalarOf(c))
  {
    UnsignedUnique(b);
    UnsignedUnique(c);
  }

  /** Parsing what was serialized gives the two scalars back. */
  method SerializeThenParse(r: Scalar, s: Scalar) returns (r': Scalar, s': Scalar, ok: bool)
    ensures ok && r' == r && s' == s
  {
    hide Encode, Readable, ScalarOf, Overflows;
    var sig := new Byte[72](_ => 0);
    RoundTrip(r, s);
    var size;
    size, ok := SigSerialize(sig, 72, r, s);
    ok, r', s' := SigParse(sig[..size]);
  }
}
