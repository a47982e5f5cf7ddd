/** Choosing windows and batch sizes for multi-scalar multiplication, and running the batches. */
module MultiVar {
  import opened Words
  import opened Wrappers
  import opened Group
  import opened WnafFixed
  import V = WnafVar
  import S = Strauss
  import P = Pippenger

  const SIZE_MAX: int := 0xFFFF_FFFF_FFFF_FFFF
  const MAX_BUCKET_WINDOW: nat := 12
  const PIPPENGER_THRESHOLD: nat := 160
  const MAX_POINTS_PER_BATCH: nat := 10_000_000

  type Size = x: int | 0 <= x <= SIZE_MAX

  // --- windows ---

  function BucketWindow(n: nat): nat {
    if n <= 1 then 1
    else if n <= 11 then 2
    else if n <= 45 then 3
    else if n <= 100 then 4
    else if n <= 275 then 5
    else if n <= 625 then 6
    else if n <= 1850 then 7
    else if n <= 3400 then 8
    else if n <= 9630 then 9
    else if n <= 17900 then 10
    else if n <= 32800 then 11
    else MAX_BUCKET_WINDOW
  }

  function BucketWindowInv(w: nat): Size {
    match w
    case 1 => 1
    case 2 => 11
    case 3 => 45
    case 4 => 100
    case 5 => 275
    case 6 => 625
    case 7 => 1850
    case 8 => 3400
    case 9 => 9630
    case 10 => 17900
    case 11 => 32800
    case 12 => SIZE_MAX
    case _ => 0
  }

  /** The two tables are inverse to each other: window `w` is enough for exactly the counts up to its maximum. */
  lemma WindowsInverse(n: Size, w: nat)
    requires 1 <= w <= MAX_BUCKET_WINDOW
    ensures 1 <= BucketWindow(n) <= MAX_BUCKET_WINDOW
    ensures BucketWindow(n) <= w <==> n <= BucketWindowInv(w)
    ensures BucketWindow(n) == w <==> BucketWindowInv(w - 1) < n <= BucketWindowInv(w) || (n == 0 && w == 1)
  {
  }

  // --- scratch space ---

  /** The sizes of the C structures, which depend on the platform. */
  datatype Sizes = Sizes(ge: nat, gej: nat, fe: nat, scalar: nat, word: nat, pointState: nat, state: nat, straussState: nat)

  function EntrySize(z: Sizes, w: nat): (e: nat)
    requires 1 <= w <= MAX_BUCKET_WINDOW
    ensures e >= z.scalar
  {
    z.ge + z.scalar + z.pointState + (WnafSize(w + 1) + 1) * z.word
  }

  function PippengerScratchSize(z: Sizes, n: nat, w: nat): nat
    requires 1 <= w <= MAX_BUCKET_WINDOW
  {
    Pow2(w) * z.gej + z.state + (n + 1) * EntrySize(z, w)
  }

  /** The batch of `n` points fits at the window it will use. */
  predicate Fits(z: Sizes, alloc: nat, n: Size) {
    WindowsInverse(n, 1);
    PippengerScratchSize(z, n, BucketWindow(n)) <= alloc
  }

  /** How many points fit at window `w`. */
  lemma PointsAt(z: Sizes, alloc: nat, w: nat, n: nat)
    requires z.scalar > 0 && 1 <= w <= MAX_BUCKET_WINDOW
    ensures var overhead := Pow2(w) * z.gej + EntrySize(z, w) + z.state;
            PippengerScratchSize(z, n, w) <= alloc <==> overhead <= alloc && n <= (alloc - overhead) / EntrySize(z, w)
  {
    var e := EntrySize(z, w);
    var overhead := Pow2(w) * z.gej + e + z.state;
    assert (n + 1) * e == n * e + e;
    if overhead <= alloc {
      QuotientFits(alloc - overhead, e, n);
    }
  }

  lemma QuotientFits(space: nat, e: nat, n: nat)
    requires e > 0
    ensures n * e <= space <==> n <= space / e
  {
    var q := space / e;
    assert space == q * e + space % e;
    if n <= q {
      MulBound(n, e, q, e);
    } else {
      MulBound(q + 1, e, n, e);
      assert (q + 1) * e == q * e + e;
    }
  }

  /** The counts whose window is `w` fit exactly up to what is left beside the overhead. */
  lemma RoomAtWindow(z: Sizes, alloc: nat, w: nat, entry: nat, overhead: nat)
    requires z.scalar > 0 && 1 <= w <= MAX_BUCKET_WINDOW
    requires entry == EntrySize(z, w) && overhead == Pow2(w) * z.gej + entry + z.state
    ensures entry > 0
    ensures forall n: Size :: BucketWindowInv(w - 1) < n <= BucketWindowInv(w) ==>
              (Fits(z, alloc, n) <==> overhead <= alloc && n <= (alloc - overhead) / entry)
    ensures BucketWindowInv(w - 1) < BucketWindowInv(w)
  {
    hide PippengerScratchSize, EntrySize, Pow2, WnafSize, Fits;
    forall n: Size | BucketWindowInv(w - 1) < n <= BucketWindowInv(w)
      ensures Fits(z, alloc, n) <==> overhead <= alloc && n <= (alloc - overhead) / entry
    {
      WindowsInverse(n, w);
      PointsAt(z, alloc, w, n);
      FitsAt(z, alloc, n);
    }
  }

  /** The largest count such that it and every smaller one above `k` fit. */
  ghost function LargestFrom(z: Sizes, alloc: Size, k: Size): Size
    decreases SIZE_MAX - k
  {
    if k == SIZE_MAX || !Fits(z, alloc, k + 1) then k else LargestFrom(z, alloc, k + 1)
  }

  ghost function Largest(z: Sizes, alloc: Size): Size {
    LargestFrom(z, alloc, 0)
  }

  lemma {:induction false} LargestIs(z: Sizes, alloc: Size, k: Size, res: Size)
    requires k <= res && (forall n :: k < n <= res ==> Fits(z, alloc, n)) && (res < SIZE_MAX ==> !Fits(z, alloc, res + 1))
    ensures LargestFrom(z, alloc, k) == res
    decreases res - k
  {
    hide Fits;
    if k < res {
      LargestIs(z, alloc, k + 1, res);
    }
  }

  lemma {:induction false} LargestFits(z: Sizes, alloc: Size, k: Size, n: Size)
    requires k < n <= LargestFrom(z, alloc, k)
    ensures Fits(z, alloc, n)
    decreases n - k
  {
    hide Fits;
    if k + 1 < n {
      LargestFits(z, alloc, k + 1, n);
    }
  }

  lemma WindowEnds()
    ensures BucketWindowInv(0) == 0 && BucketWindowInv(MAX_BUCKET_WINDOW) == SIZE_MAX
  {
  }

  lemma LargestFound(z: Sizes, alloc: Size, res: Size)
    requires (forall n :: 1 <= n <= res ==> Fits(z, alloc, n)) && (res < SIZE_MAX ==> !Fits(z, alloc, res + 1))
    ensures res == Largest(z, alloc)
  {
    hide Fits;
    LargestIs(z, alloc, 0, res);
  }

  /** The largest count such that it and every smaller one fit. */
  method PippengerMaxPoints(z: Sizes, alloc: Size) returns (res: Size)
    requires z.scalar > 0
    ensures forall n :: 1 <= n <= res ==> Fits(z, alloc, n)
    ensures res < SIZE_MAX ==> !Fits(z, alloc, res + 1)
  {
    hide PippengerScratchSize, EntrySize, Pow2, WnafSize, Fits, BucketWindowInv;
    WindowEnds();
    res := 0;
    for w := 1 to MAX_BUCKET_WINDOW + 1
      invariant res == BucketWindowInv(w - 1)
      invariant forall n :: 1 <= n <= res ==> Fits(z, alloc, n)
    {
      var maxPoints := BucketWindowInv(w);
      var entry := EntrySize(z, w);
      var overhead := Pow2(w) * z.gej + entry + z.state;
      RoomAtWindow(z, alloc, w, entry, overhead);
      if overhead > alloc {
        return;
      }
      SmallQuotient(alloc - overhead, entry);
      var points: Size := (alloc - overhead) / entry;
      points := if points > maxPoints then maxPoints else points;
      if points > res {
        res := points;
      }
      if points < maxPoints {
        return;
      }
    }
  }

  lemma FitsAt(z: Sizes, alloc: nat, n: Size)
    ensures 1 <= BucketWindow(n) <= MAX_BUCKET_WINDOW
    ensures Fits(z, alloc, n) <==> PippengerScratchSize(z, n, BucketWindow(n)) <= alloc
  {
    WindowsInverse(n, 1);
  }

  function StraussScratchSize(z: Sizes, n: nat): nat {
    n * ((z.ge + z.gej + z.fe) * S.TableSize(S.WINDOW_A) + z.straussState + z.gej + z.scalar)
  }

  function StraussRoom(z: Sizes, alloc: Size): (res: Size)
    requires z.scalar > 0
    ensures forall n: nat :: n <= res <==> StraussScratchSize(z, n) <= alloc
  {
    StraussFits(z, alloc);
    alloc / StraussScratchSize(z, 1)
  }

  /** Exactly the counts that fit. */
  method StraussMaxPoints(z: Sizes, alloc: Size) returns (res: Size)
    requires z.scalar > 0
    ensures forall n: nat :: n <= res <==> StraussScratchSize(z, n) <= alloc
  {
    StraussFits(z, alloc);
    res := alloc / StraussScratchSize(z, 1);
  }

  lemma RoomIs(z: Sizes, alloc: Size, res: Size)
    requires z.scalar > 0 && forall n: nat :: n <= res <==> StraussScratchSize(z, n) <= alloc
    ensures res == StraussRoom(z, alloc)
  {
    hide StraussScratchSize;
    var room := StraussRoom(z, alloc);
    assert StraussScratchSize(z, room) <= alloc && StraussScratchSize(z, res) <= alloc;
  }

  lemma StraussFits(z: Sizes, alloc: Size)
    requires z.scalar > 0
    ensures StraussScratchSize(z, 1) > 0 && 0 <= alloc / StraussScratchSize(z, 1) <= alloc
    ensures forall n: nat :: n <= alloc / StraussScratchSize(z, 1) <==> StraussScratchSize(z, n) <= alloc
  {
    hide S.TableSize;
    var point := StraussScratchSize(z, 1);
    StraussPointSize(z);
    forall n: nat
      ensures StraussScratchSize(z, n) == n * point
      ensures n * point <= alloc <==> n <= alloc / point
    {
      QuotientFits(alloc, point, n);
    }
    SmallQuotient(alloc, point);
  }

  lemma StraussPointSize(z: Sizes)
    requires z.scalar > 0
    ensures StraussScratchSize(z, 1) > 0
  {
    assert (z.ge + z.gej + z.fe) * S.TableSize(S.WINDOW_A) >= 0;
  }

  lemma SmallQuotient(a: nat, b: nat)
    requires b > 0
    ensures 0 <= a / b <= a
  {
    QuotientFits(a, b, 0);
    if a / b > a {
      QuotientFits(a, b, a + 1);
      MulBound(a + 1, 1, a + 1, b);
    }
  }

  // --- what the scratch space is for ---

  const ALIGNMENT: nat := 16
  const SCRATCH_OBJECTS: nat := 6

  /** What a batch by buckets allocates, in order: points, scalars, its state, the points' states, the digits
      and the buckets. */
  function PippengerArrays(z: Sizes, n: nat, w: nat): (a: seq<nat>)
    requires 1 <= w <= MAX_BUCKET_WINDOW
    ensures |a| == SCRATCH_OBJECTS
  {
    [(n + 1) * z.ge, (n + 1) * z.scalar, z.state, (n + 1) * z.pointState, (n + 1) * WnafSize(w + 1) * z.word, Pow2(w) * z.gej]
  }

  /** What a batch by interleaved digits allocates: points, scalars, three tables of odd multiples and the
      points' states. */
  function StraussArrays(z: Sizes, n: nat): (a: seq<nat>)
    ensures |a| == SCRATCH_OBJECTS
  {
    var t := S.TableSize(S.WINDOW_A);
    [n * z.gej, n * z.scalar, n * t * z.gej, n * t * z.fe, n * t * z.ge, n * z.straussState]
  }

  function Total(a: seq<nat>): nat {
    if |a| == 0 then 0 else Total(a[..|a| - 1]) + a[|a| - 1]
  }

  /** `scratch_alloc` rounds every size up. */
  function Aligned(size: nat): (r: nat)
    ensures size <= r < size + ALIGNMENT && r % ALIGNMENT == 0
  {
    (size + ALIGNMENT - 1) / ALIGNMENT * ALIGNMENT
  }

  function AlignedSizes(a: seq<nat>): (r: seq<nat>)
    ensures |r| == |a| && forall i :: 0 <= i < |a| ==> r[i] == Aligned(a[i])
  {
    seq(|a|, i requires 0 <= i < |a| => Aligned(a[i]))
  }

  lemma TotalOfSix(a: seq<nat>)
    requires |a| == 6
    ensures Total(a) == a[0] + a[1] + a[2] + a[3] + a[4] + a[5]
  {
    assert a[..5][..4] == a[..4] && a[..4][..3] == a[..3] && a[..3][..2] == a[..2] && a[..2][..1] == a[..1];
    assert Total(a[..1]) == a[0] && Total(a[..2]) == a[0] + a[1] && Total(a[..3]) == a[0] + a[1] + a[2];
    assert Total(a[..4]) == Total(a[..3]) + a[3] && Total(a[..5]) == Total(a[..4]) + a[4];
  }

  /** The arrays add up to the scratch size; by buckets one `int` for each entry is left over. */
  lemma PippengerArraysFill(z: Sizes, n: nat, w: nat)
    requires 1 <= w <= MAX_BUCKET_WINDOW
    ensures Total(PippengerArrays(z, n, w)) + (n + 1) * z.word == PippengerScratchSize(z, n, w)
  {
    hide Total, WnafSize, Pow2;
    TotalOfSix(PippengerArrays(z, n, w));
    Distribute(n + 1, z.ge, z.scalar, z.pointState, WnafSize(w + 1), z.word);
  }

  lemma Distribute(m: int, a: int, b: int, c: int, k: int, x: int)
    ensures m * (a + b + c + (k + 1) * x) == m * a + m * b + m * c + m * k * x + m * x
  {
    assert (k + 1) * x == k * x + x;
    assert m * (k * x) == m * k * x;
    assert m * (a + b + c + k * x + x) == m * a + m * b + m * c + m * (k * x) + m * x;
  }

  lemma StraussArraysFill(z: Sizes, n: nat)
    ensures Total(StraussArrays(z, n)) == StraussScratchSize(z, n)
  {
    hide Total, S.TableSize;
    TotalOfSix(StraussArrays(z, n));
    DistributeTables(n, S.TableSize(S.WINDOW_A), z.ge, z.gej, z.fe, z.straussState + z.gej + z.scalar);
    assert n * (z.straussState + z.gej + z.scalar) == n * z.straussState + n * z.gej + n * z.scalar;
  }

  lemma DistributeTables(n: int, t: int, a: int, b: int, c: int, rest: int)
    ensures n * ((a + b + c) * t + rest) == n * t * a + n * t * b + n * t * c + n * rest
  {
    assert (a + b + c) * t == t * a + t * b + t * c;
    assert n * (t * a) == n * t * a && n * (t * b) == n * t * b && n * (t * c) == n * t * c;
    assert n * (t * a + t * b + t * c + rest) == n * (t * a) + n * (t * b) + n * (t * c) + n * rest;
  }

  /** In a frame of the scratch size, with room to align every object, no allocation fails. */
  lemma AllocationsFit(a: seq<nat>, size: nat)
    requires |a| == SCRATCH_OBJECTS && Total(a) <= size
    ensures Total(AlignedSizes(a)) <= size + SCRATCH_OBJECTS * ALIGNMENT
  {
    hide Total, Aligned;
    TotalOfSix(a);
    TotalOfSix(AlignedSizes(a));
  }

  // --- the callback and what it stands for ---

  datatype Term<G> = Term(sc: V.Reduced, pt: G)

  /** The callback answers for `k` indices from `lo` on. */
  predicate Answered<G>(cb: nat -> Option<Term<G>>, lo: nat, k: nat) {
    forall i :: lo <= i < lo + k ==> cb(i).Some?
  }

  function ScalarsOf<G>(cb: nat -> Option<Term<G>>, lo: nat, k: nat): (c: seq<V.Reduced>)
    requires Answered(cb, lo, k)
    ensures |c| == k && forall i :: 0 <= i < k ==> c[i] == cb(lo + i).value.sc
  {
    if k == 0 then [] else ScalarsOf(cb, lo, k - 1) + [assert cb(lo + k - 1).Some?; cb(lo + k - 1).value.sc]
  }

  function PointsOf<G>(cb: nat -> Option<Term<G>>, lo: nat, k: nat): (p: seq<G>)
    requires Answered(cb, lo, k)
    ensures |p| == k
  {
    seq(k, i requires 0 <= i < k => assert cb(lo + i).Some?; cb(lo + i).value.pt)
  }

  /** The plain sum of the terms for `k` indices from `lo` on. */
  function SumOf<G>(g: Group<G>, cb: nat -> Option<Term<G>>, lo: nat, k: nat): G
    requires Answered(cb, lo, k)
  {
    Combine(g, ScalarsOf(cb, lo, k), PointsOf(cb, lo, k))
  }

  function Range(lo: nat, k: nat): (r: seq<nat>)
    ensures |r| == k
  {
    seq(k, i requires 0 <= i < k => lo + i)
  }

  lemma {:induction false} CombineConcat<G(!new)>(g: Group<G>, c: seq<int>, d: seq<int>, p: seq<G>, q: seq<G>)
    requires Abelian(g) && |c| == |p| && |d| == |q|
    ensures Combine(g, c + d, p + q) == g.add(Combine(g, c, p), Combine(g, d, q))
    decreases |d|
  {
    hide Abelian, Times;
    if |d| == 0 {
      assert c + d == c && p + q == p;
      Zero(g, Combine(g, c, p));
    } else {
      var m := |d| - 1;
      CombineConcat(g, c, d[..m], p, q[..m]);
      assert (c + d)[..|c| + m] == c + d[..m] && (p + q)[..|c| + m] == p + q[..m];
      Assoc(g, Combine(g, c, p), Combine(g, d[..m], q[..m]), Times(g, d[m], q[m]));
    }
  }

  lemma SumConcat<G(!new)>(g: Group<G>, cb: nat -> Option<Term<G>>, lo: nat, k: nat, l: nat)
    requires Abelian(g) && Answered(cb, lo, k) && Answered(cb, lo + k, l)
    ensures Answered(cb, lo, k + l)
    ensures SumOf(g, cb, lo, k + l) == g.add(SumOf(g, cb, lo, k), SumOf(g, cb, lo + k, l))
    ensures Range(lo, k + l) == Range(lo, k) + Range(lo + k, l)
  {
    hide Abelian, Combine, ScalarsOf, PointsOf;
    TermsConcat(cb, lo, k, l);
    CombineConcat(g, ScalarsOf(cb, lo, k), ScalarsOf(cb, lo + k, l), PointsOf(cb, lo, k), PointsOf(cb, lo + k, l));
  }

  lemma TermsConcat<G>(cb: nat -> Option<Term<G>>, lo: nat, k: nat, l: nat)
    requires Answered(cb, lo, k) && Answered(cb, lo + k, l)
    ensures Answered(cb, lo, k + l)
    ensures ScalarsOf(cb, lo, k + l) == ScalarsOf(cb, lo, k) + ScalarsOf(cb, lo + k, l)
    ensures PointsOf(cb, lo, k + l) == PointsOf(cb, lo, k) + PointsOf(cb, lo + k, l)
  {
  }

  lemma OneMore<G>(cb: nat -> Option<Term<G>>, lo: nat, k: nat)
    requires Answered(cb, lo, k) && cb(lo + k).Some?
    ensures Answered(cb, lo, k + 1)
    ensures ScalarsOf(cb, lo, k + 1) == ScalarsOf(cb, lo, k) + [cb(lo + k).value.sc]
    ensures PointsOf(cb, lo, k + 1) == PointsOf(cb, lo, k) + [cb(lo + k).value.pt]
    ensures Range(lo, k + 1) == Range(lo, k) + [lo + k]
  {
  }

  /** The generator's term in front. */
  lemma GeneratorFirst<G(!new)>(g: Group<G>, x: int, base: G, c: seq<int>, p: seq<G>)
    requires Abelian(g) && |c| == |p|
    ensures Combine(g, [x] + c, [base] + p) == g.add(Combine(g, c, p), Times(g, x, base))
  {
    hide Abelian, Times;
    CombineConcat(g, [x], c, [base], p);
    assert [x][..0] == [] && [base][..0] == [];
    Zero(g, Times(g, x, base));
    Comm(g, Times(g, x, base), Combine(g, c, p));
  }

  lemma NoTerms<G(!new)>(g: Group<G>, cb: nat -> Option<Term<G>>, lo: nat, base: G)
    requires Abelian(g)
    ensures Answered(cb, lo, 0) && SumOf(g, cb, lo, 0) == g.zero && Times(g, 0, base) == g.zero
    ensures g.add(g.zero, g.zero) == g.zero
  {
    Zero(g, g.zero);
  }

  /** Ask for the batch's terms in order; stop at the first the callback refuses. */
  method Gather<G>(cb: nat -> Option<Term<G>>, n: nat, offset: nat)
      returns (ok: bool, sc: seq<V.Reduced>, pt: seq<G>, ghost asked: seq<nat>)
    ensures ok <==> Answered(cb, offset, n)
    ensures ok ==> sc == ScalarsOf(cb, offset, n) && pt == PointsOf(cb, offset, n) && asked == Range(offset, n)
  {
    hide ScalarsOf, PointsOf, Range;
    sc, pt, asked := [], [], [];
    EmptyTerms(cb, offset);
    for i := 0 to n
      invariant Answered(cb, offset, i)
      invariant sc == ScalarsOf(cb, offset, i) && pt == PointsOf(cb, offset, i) && asked == Range(offset, i)
    {
      asked := asked + [offset + i];
      var term := cb(i + offset);
      if term.None? {
        return false, [], [], asked;
      }
      OneMore(cb, offset, i);
      sc, pt := sc + [term.value.sc], pt + [term.value.pt];
    }
    ok := true;
  }

  lemma EmptyTerms<G>(cb: nat -> Option<Term<G>>, lo: nat)
    ensures ScalarsOf(cb, lo, 0) == [] && PointsOf(cb, lo, 0) == [] && Range(lo, 0) == []
  {
  }

  // --- batches ---

  /** A size that wraps to one that fits: the frame is granted, and the arrays run past it. */
  predicate Overruns(size: nat, alloc: Size) {
    size > alloc && size % (SIZE_MAX + 1) <= alloc
  }

  lemma NoOverrun(size: nat, alloc: Size)
    ensures size % (SIZE_MAX + 1) <= alloc <==> size <= alloc || Overruns(size, alloc)
  {
    if size <= alloc {
      DivModUnique(size, SIZE_MAX + 1, 0, size);
    }
  }

  /** A batch by buckets.  The scratch frame is granted exactly if its size, as a `size_t`, fits. */
  method PippengerBatch<G(!new,==)>(g: Group<G>, z: Sizes, alloc: Size, base: G, ng: Option<V.Reduced>,
                                    cb: nat -> Option<Term<G>>, n: Size, offset: nat)
      returns (overrun: bool, ok: bool, r: G, ghost asked: seq<nat>)
    requires Abelian(g) && z.scalar > 0
    ensures 1 <= BucketWindow(n) <= MAX_BUCKET_WINDOW
    ensures overrun <==> (ng.Some? || n > 0) && Overruns(PippengerScratchSize(z, n, BucketWindow(n)), alloc)
    ensures ok <==> (ng.None? && n == 0) || (Fits(z, alloc, n) && Answered(cb, offset, n))
    ensures ok ==> Answered(cb, offset, n) && asked == Range(offset, n)
                   && r == g.add(SumOf(g, cb, offset, n), Times(g, S.GeneratorScalar(ng), base))
  {
    hide Abelian, Combine, Times, Fits, PippengerScratchSize, Overruns;
    NoTerms(g, cb, offset, base);
    FitsAt(z, alloc, n);
    overrun, r, asked := false, g.zero, [];
    if ng.None? && n == 0 {
      return false, true, r, Range(offset, 0);
    }
    var w := BucketWindow(n);
    var size := PippengerScratchSize(z, n, w);
    NoOverrun(size, alloc);
    OverrunIsLarge(size, alloc);
    if size % (SIZE_MAX + 1) > alloc {
      return false, false, r, asked;
    }
    if size > alloc {
      return true, false, r, asked;
    }
    var sc, pt;
    ok, sc, pt, asked := Gather(cb, n, offset);
    if !ok {
      return;
    }
    r := PippengerRun(g, w, n, base, ng, sc, pt);
  }

  method PippengerRun<G(!new,==)>(g: Group<G>, w: nat, n: nat, base: G, ng: Option<V.Reduced>, sc: seq<V.Reduced>, pt: seq<G>)
      returns (r: G)
    requires Abelian(g) && 1 <= w <= MAX_BUCKET_WINDOW && |sc| == |pt| == n
    ensures r == g.add(Combine(g, sc, pt), Times(g, S.GeneratorScalar(ng), base))
  {
    hide Abelian, Combine, Times, Pow2, P.Slot, WnafSize;
    var entries := n + 1;
    var scalars: seq<Scalar>, points := sc, pt;
    if ng.Some? {
      GeneratorFirst(g, ng.value, base, sc, pt);
      scalars, points := [ng.value] + scalars, [base] + points;
    } else {
      NothingAdded(g, Combine(g, sc, pt), base);
    }
    SlotLength(|scalars|, entries, WnafSize(w + 1));
    var ps := new P.PointState[entries](_ => P.PointState(0, 0));
    var wnaf := new int[P.Slot(entries, WnafSize(w + 1), 0)];
    var buckets := new G[Pow2(w)](_ => g.zero);
    r := P.PippengerWnaf(g, buckets, w, wnaf, ps, scalars, points);
  }

  lemma NothingAdded<G(!new)>(g: Group<G>, x: G, base: G)
    requires Abelian(g)
    ensures g.add(x, Times(g, 0, base)) == x
  {
    Zero(g, x);
  }

  lemma SlotLength(k: nat, m: nat, n: nat)
    requires k <= m
    ensures 0 <= P.Slot(k, n, 0) <= P.Slot(m, n, 0)
  {
    MulBound(k, n, m, n);
  }

  lemma OverrunIsLarge(size: nat, alloc: Size)
    ensures Overruns(size, alloc) ==> size > alloc
  {
  }

  /** A batch by interleaved digits. */
  method StraussBatch<G(!new,==)>(g: Group<G>, preG: seq<G>, z: Sizes, alloc: Size, base: G, ng: Option<V.Reduced>,
                                  cb: nat -> Option<Term<G>>, n: Size, offset: nat)
      returns (overrun: bool, ok: bool, r: G, ghost asked: seq<nat>)
    requires Abelian(g) && S.HasOrder(g) && S.OddTable(g, preG, 0, S.TableSize(S.WINDOW_G), base)
    ensures overrun <==> (ng.Some? || n > 0) && Overruns(StraussScratchSize(z, n), alloc)
    ensures ok <==> (ng.None? && n == 0) || (StraussScratchSize(z, n) <= alloc && Answered(cb, offset, n))
    ensures ok ==> Answered(cb, offset, n) && asked == Range(offset, n)
                   && r == g.add(SumOf(g, cb, offset, n), Times(g, S.GeneratorScalar(ng), base))
  {
    hide Abelian, S.HasOrder, S.OddTable, S.TableSize, Combine, Times, StraussScratchSize, Overruns;
    NoTerms(g, cb, offset, base);
    overrun, r, asked := false, g.zero, [];
    if ng.None? && n == 0 {
      return false, true, r, Range(offset, 0);
    }
    var size := StraussScratchSize(z, n);
    NoOverrun(size, alloc);
    OverrunIsLarge(size, alloc);
    if size % (SIZE_MAX + 1) > alloc {
      return false, false, r, asked;
    }
    if size > alloc {
      return true, false, r, asked;
    }
    var sc, pt;
    ok, sc, pt, asked := Gather(cb, n, offset);
    if !ok {
      return;
    }
    TableRoom(n);
    var pre := new G[n * S.TableSize(S.WINDOW_A)](_ => g.zero);
    r := S.StraussWnaf(g, preG, base, pre, pt, sc, ng);
  }

  lemma TableRoom(n: nat)
    ensures n * S.TableSize(S.WINDOW_A) >= 0
  {
  }

  /** Splitting `n` points into as few batches of at most `max` as will do, of nearly equal size. */
  lemma BatchCounts(n: nat, max: nat)
    requires n >= 1 && max >= 1
    ensures var batches := (n + max - 1) / max;
            batches >= 1 && batches * max >= n
            && var size := (n + batches - 1) / batches; 1 <= size <= max && batches * size >= n
  {
    Ceiling(n, max);
    var batches := (n + max - 1) / max;
    Ceiling(n, batches);
    var size := (n + batches - 1) / batches;
    if size > max {
      MulBound(batches, max, batches, size - 1);
    }
  }

  lemma Ceiling(n: nat, m: nat)
    requires n >= 1 && m >= 1
    ensures var q := (n + m - 1) / m; q >= 1 && q * m >= n && m * q >= n && m * (q - 1) < n
  {
    var q := (n + m - 1) / m;
    assert n + m - 1 == q * m + (n + m - 1) % m;
    if q <= 0 {
      MulBound(-q, m, -q, m);
    }
    assert m * (q - 1) == q * m - m;
  }

  /** `(n + m - 1) / m` in `size_t`. */
  function RoundUp(n: Size, m: Size): Size
    requires m > 0
  {
    SmallQuotient((n + m - 1) % (SIZE_MAX + 1), m);
    (n + m - 1) % (SIZE_MAX + 1) / m
  }

  /** Where the sum wraps, the quotient is zero. */
  lemma RoundUpWraps(n: Size, m: Size)
    requires n > 0 && m > 0
    ensures RoundUp(n, m) > 0 <==> n + m - 1 <= SIZE_MAX
    ensures RoundUp(n, m) > 0 ==> RoundUp(n, m) == (n + m - 1) / m
  {
    if n + m - 1 <= SIZE_MAX {
      Ceiling(n, m);
    } else {
      DivModUnique(n + m - 1 - (SIZE_MAX + 1), m, 0, n + m - 1 - (SIZE_MAX + 1));
    }
  }

  function PerBatch(most: Size): Size {
    if most > MAX_POINTS_PER_BATCH then MAX_POINTS_PER_BATCH else most
  }

  /** The size of the batches for `n` points, at most `max` each; zero if the rounding wraps. */
  function BatchSize(n: Size, max: Size): Size
    requires max > 0 && RoundUp(n, max) > 0
  {
    RoundUp(n, RoundUp(n, max))
  }

  /** Nothing is divided by zero. */
  ghost predicate Divisible(z: Sizes, alloc: Size, n: Size)
    requires z.scalar > 0
  {
    n > 0 && Largest(z, alloc) > 0 ==>
      && RoundUp(n, PerBatch(Largest(z, alloc))) > 0
      && (BatchSize(n, PerBatch(Largest(z, alloc))) < PIPPENGER_THRESHOLD && StraussRoom(z, alloc) > 0 ==>
            RoundUp(n, StraussRoom(z, alloc)) > 0)
  }

  ghost predicate BucketsAsked(z: Sizes, alloc: Size, n: Size) {
    && n > 0 && Largest(z, alloc) > 0 && RoundUp(n, PerBatch(Largest(z, alloc))) > 0
    && BatchSize(n, PerBatch(Largest(z, alloc))) >= PIPPENGER_THRESHOLD
  }

  ghost predicate UsesBuckets(z: Sizes, alloc: Size, n: Size)
    requires z.scalar > 0 && n > 0 && Largest(z, alloc) > 0 && Divisible(z, alloc, n)
  {
    BatchSize(n, PerBatch(Largest(z, alloc))) >= PIPPENGER_THRESHOLD
  }

  /** The scratch space has room for a batch of the kind the count asks for. */
  ghost predicate HasRoom(z: Sizes, alloc: Size, n: Size)
    requires z.scalar > 0 && Divisible(z, alloc, n)
  {
    n > 0 ==> Largest(z, alloc) > 0 && (UsesBuckets(z, alloc, n) || StraussRoom(z, alloc) > 0)
  }

  /** How many of `n` points the batches take: all, or none where the size of the batches wraps to zero. */
  ghost function Taken(z: Sizes, alloc: Size, n: Size): Size
    requires z.scalar > 0 && Divisible(z, alloc, n) && HasRoom(z, alloc, n)
  {
    if n == 0 || UsesBuckets(z, alloc, n) || BatchSize(n, StraussRoom(z, alloc)) > 0 then n else 0
  }

  /** All points are taken exactly if the counts of points and of batches add up in a `size_t`, which they
      do for up to `2^63` points. */
  lemma TakenExactly(z: Sizes, alloc: Size, n: Size)
    requires z.scalar > 0 && Divisible(z, alloc, n) && HasRoom(z, alloc, n)
    ensures Taken(z, alloc, n) == n <==> n == 0 || UsesBuckets(z, alloc, n) || n + RoundUp(n, StraussRoom(z, alloc)) - 1 <= SIZE_MAX
    ensures n <= 0x8000_0000_0000_0000 ==> Taken(z, alloc, n) == n
  {
    hide Largest, StraussRoom, RoundUp;
    if n > 0 && !UsesBuckets(z, alloc, n) {
      var room := StraussRoom(z, alloc);
      var batches := RoundUp(n, room);
      RoundUpWraps(n, room);
      RoundUpWraps(n, batches);
      FewBatches(n, room);
    }
  }

  lemma FewBatches(n: nat, m: nat)
    requires n > 0 && m > 0
    ensures (n + m - 1) / m <= n
  {
    Ceiling(n, m);
    var q := (n + m - 1) / m;
    if q > n {
      MulBound(1, n, m, q - 1);
    }
  }

  /** Nothing is divided by zero exactly if the rounded sums fit a `size_t`; with room for two points or more
      the largest count already stops the program. */
  lemma DivisibleExactly(z: Sizes, alloc: Size, n: Size)
    requires z.scalar > 0
    ensures Divisible(z, alloc, n) <==>
              n == 0 || Largest(z, alloc) == 0
              || (&& n + PerBatch(Largest(z, alloc)) - 1 <= SIZE_MAX
                  && (BucketsAsked(z, alloc, n) || StraussRoom(z, alloc) == 0 || n + StraussRoom(z, alloc) - 1 <= SIZE_MAX))
    ensures Largest(z, alloc) >= 2 ==> !Divisible(z, alloc, SIZE_MAX)
  {
    hide Largest, StraussRoom, RoundUp;
    if n > 0 && Largest(z, alloc) > 0 {
      RoundUpWraps(n, PerBatch(Largest(z, alloc)));
      if StraussRoom(z, alloc) > 0 {
        RoundUpWraps(n, StraussRoom(z, alloc));
      }
    }
    if Largest(z, alloc) >= 2 {
      RoundUpWraps(SIZE_MAX, PerBatch(Largest(z, alloc)));
    }
  }

  /** Nothing is taken of a count: its batches come out empty. */
  ghost predicate Skipped(z: Sizes, alloc: Size, n: Size)
    requires z.scalar > 0
  {
    n > 0 && Divisible(z, alloc, n) && HasRoom(z, alloc, n) && Taken(z, alloc, n) == 0
  }

  /** Such counts exist exactly if the scratch space has room for a point but for fewer than `2^32`. */
  lemma HugeCountsSkipped(z: Sizes, alloc: Size)
    requires z.scalar > 0 && Largest(z, alloc) > 0
    ensures (exists n: Size :: Skipped(z, alloc, n)) <==> 0 < StraussRoom(z, alloc) < 0x1_0000_0000
  {
    hide Largest, StraussRoom, RoundUp, Skipped;
    if 0 < StraussRoom(z, alloc) < 0x1_0000_0000 {
      SkippedAt(z, alloc);
    }
    forall n: Size | Skipped(z, alloc, n)
      ensures 0 < StraussRoom(z, alloc) < 0x1_0000_0000
    {
      SkippedNeedsLittleRoom(z, alloc, n);
    }
  }

  lemma SkippedAt(z: Sizes, alloc: Size)
    requires z.scalar > 0 && Largest(z, alloc) > 0 && 0 < StraussRoom(z, alloc) < 0x1_0000_0000
    ensures exists n: Size :: Skipped(z, alloc, n)
  {
    hide Largest, StraussRoom, RoundUp;
    var most, room := PerBatch(Largest(z, alloc)), StraussRoom(z, alloc);
    var top := if most > room then most else room;
    var n: Size := SIZE_MAX + 1 - top;
    SmallProduct(top, most);
    SmallProduct(top, room);
    RoundsToNothing(n, most, top);
    RoundsToNothing(n, room, top);
    assert Skipped(z, alloc, n);
  }

  lemma SmallProduct(x: nat, y: nat)
    requires 0 < x < 0x1_0000_0000 && y <= x
    ensures x * y < SIZE_MAX + 1 - x
  {
    MulBound(x, y, 0xFFFF_FFFF, 0xFFFF_FFFF);
  }

  lemma RoundsToNothing(n: Size, m: Size, top: Size)
    requires 0 < m <= top && n == SIZE_MAX + 1 - top && top * m < n
    ensures RoundUp(n, m) > 0 && BatchSize(n, m) == 0
  {
    hide RoundUp;
    RoundUpWraps(n, m);
    Ceiling(n, m);
    var q := (n + m - 1) / m;
    if q <= top {
      MulBound(q, m, top, m);
    }
    RoundUpWraps(n, RoundUp(n, m));
  }

  lemma SkippedNeedsLittleRoom(z: Sizes, alloc: Size, n: Size)
    requires z.scalar > 0 && Skipped(z, alloc, n)
    ensures 0 < StraussRoom(z, alloc) < 0x1_0000_0000
  {
    hide Largest, StraussRoom, RoundUp;
    var room := StraussRoom(z, alloc);
    RoundUpWraps(n, room);
    RoundUpWraps(n, RoundUp(n, room));
    if room >= 0x1_0000_0000 {
      QuotientFits(n + room - 1, room, 0x1_0000_0000);
      MulBound(0x1_0000_0000, 0x1_0000_0000, 0x1_0000_0000, room);
    }
  }

  /** What the batches so far have come to. */
  ghost predicate Progress<G(!new)>(g: Group<G>, base: G, ng: Option<V.Reduced>, cb: nat -> Option<Term<G>>,
                                    i: nat, done: nat, r: G, asked: seq<nat>) {
    && Answered(cb, 0, done) && asked == Range(0, done)
    && (i == 0 ==> done == 0)
    && r == if i == 0 then g.zero else g.add(SumOf(g, cb, 0, done), Times(g, S.GeneratorScalar(ng), base))
  }

  lemma Advance<G(!new)>(g: Group<G>, base: G, ng: Option<V.Reduced>, cb: nat -> Option<Term<G>>,
                         i: nat, done: nat, r: G, asked: seq<nat>, k: nat, offset: nat, tmp: G, more: seq<nat>)
    requires Abelian(g) && Progress(g, base, ng, cb, i, done, r, asked)
    requires (k > 0 || i == 0 ==> offset == done) && Answered(cb, offset, k) && more == Range(offset, k)
    requires tmp == g.add(SumOf(g, cb, offset, k), Times(g, if i == 0 then S.GeneratorScalar(ng) else 0, base))
    ensures Progress(g, base, ng, cb, i + 1, done + k, g.add(r, tmp), asked + more)
  {
    hide Abelian, Combine, Times, SumOf;
    NoTerms(g, cb, offset, base);
    if i == 0 {
      Zero(g, tmp);
      assert asked + more == more;
    } else if k == 0 {
      Zero(g, r);
      assert asked + more == asked;
    } else {
      SumConcat(g, cb, 0, done, k);
      Swap(g, SumOf(g, cb, 0, done), Times(g, S.GeneratorScalar(ng), base), SumOf(g, cb, offset, k), g.zero);
      Zero(g, Times(g, S.GeneratorScalar(ng), base));
    }
  }

  /** Run the batches one after the other; the generator goes with the first. */
  method RunBatches<G(!new,==)>(g: Group<G>, preG: seq<G>, z: Sizes, alloc: Size, base: G, ng: Option<V.Reduced>,
                                cb: nat -> Option<Term<G>>, total: Size, batches: nat, size: Size, buckets: bool)
      returns (ok: bool, r: G, ghost asked: seq<nat>)
    requires Abelian(g) && S.HasOrder(g) && S.OddTable(g, preG, 0, S.TableSize(S.WINDOW_G), base) && z.scalar > 0
    requires batches >= 1 && total >= 1 && (size > 0 ==> batches * size >= total) && (buckets ==> size > 0)
    requires forall k: Size :: k <= size ==> if buckets then k == 0 || Fits(z, alloc, k) else StraussScratchSize(z, k) <= alloc
    ensures ok <==> size == 0 || Answered(cb, 0, total)
    ensures ok && size > 0 ==>
              asked == Range(0, total) && r == g.add(SumOf(g, cb, 0, total), Times(g, S.GeneratorScalar(ng), base))
    ensures ok && size == 0 ==> asked == [] && r == Times(g, S.GeneratorScalar(ng), base)
  {
    hide Abelian, S.HasOrder, S.OddTable, S.TableSize, Combine, Times, StraussScratchSize, PippengerScratchSize, Fits, SumOf, Range,
         Progress, Overruns;
    var n: Size := total;
    r, asked := g.zero, [];
    StartProgress(g, base, ng, cb);
    for i := 0 to batches
      invariant n <= total
      invariant Progress(g, base, ng, cb, i, total - n, r, asked)
      invariant (n > 0 ==> total - n == size * i) && (n == 0 ==> i > 0 && size > 0)
    {
      var nbp: Size := if n < size then n else size;
      var offset := size * i;
      var tmp, done, overrun;
      ghost var more;
      var gen := if i == 0 then ng else None;
      if buckets {
        overrun, done, tmp, more := PippengerBatch(g, z, alloc, base, gen, cb, nbp, offset);
      } else {
        overrun, done, tmp, more := StraussBatch(g, preG, z, alloc, base, gen, cb, nbp, offset);
      }
      FittingNeverOverruns(z, alloc, nbp, buckets);
      assert !overrun;
      if !done {
        assert !Answered(cb, offset, nbp);
        return false, r, asked;
      }
      Advance(g, base, ng, cb, i, total - n, r, asked, nbp, offset, tmp, more);
      r := g.add(r, tmp);
      asked := asked + more;
      n := n - nbp;
      assert size * (i + 1) == size * i + size;
    }
    assert size * batches == batches * size;
    NothingTaken(g, base, ng, cb);
    Finish(g, base, ng, cb, batches, total - n, r, asked);
    ok := true;
  }

  lemma NothingTaken<G(!new)>(g: Group<G>, base: G, ng: Option<V.Reduced>, cb: nat -> Option<Term<G>>)
    requires Abelian(g)
    ensures Answered(cb, 0, 0) && Range(0, 0) == []
    ensures g.add(SumOf(g, cb, 0, 0), Times(g, S.GeneratorScalar(ng), base)) == Times(g, S.GeneratorScalar(ng), base)
  {
    hide Abelian, Times;
    NoTerms(g, cb, 0, base);
    Zero(g, Times(g, S.GeneratorScalar(ng), base));
    Comm(g, g.zero, Times(g, S.GeneratorScalar(ng), base));
  }

  /** No batch that fits runs past its frame. */
  lemma FittingNeverOverruns(z: Sizes, alloc: Size, k: Size, buckets: bool)
    requires if buckets then k == 0 || Fits(z, alloc, k) else StraussScratchSize(z, k) <= alloc
    ensures 1 <= BucketWindow(k) <= MAX_BUCKET_WINDOW
    ensures buckets && k > 0 ==> !Overruns(PippengerScratchSize(z, k, BucketWindow(k)), alloc)
    ensures !buckets ==> !Overruns(StraussScratchSize(z, k), alloc)
  {
    hide PippengerScratchSize, StraussScratchSize, Fits;
    FitsAt(z, alloc, k);
  }

  lemma StartProgress<G(!new)>(g: Group<G>, base: G, ng: Option<V.Reduced>, cb: nat -> Option<Term<G>>)
    ensures Progress(g, base, ng, cb, 0, 0, g.zero, [])
  {
  }

  lemma Finish<G(!new)>(g: Group<G>, base: G, ng: Option<V.Reduced>, cb: nat -> Option<Term<G>>,
                        i: nat, done: nat, r: G, asked: seq<nat>)
    requires i > 0 && Progress(g, base, ng, cb, i, done, r, asked)
    ensures Answered(cb, 0, done) && asked == Range(0, done)
    ensures r == g.add(SumOf(g, cb, 0, done), Times(g, S.GeneratorScalar(ng), base))
  {
  }

  /** Succeeds exactly if the scratch space has room for a batch and the callback answers.  Every index
      taken is asked for exactly once, in order, and the generator is added once.  A division by zero
      stops the program. */
  method EcmultMultiVar<G(!new,==)>(g: Group<G>, preG: seq<G>, z: Sizes, alloc: Size, base: G, ng: Option<V.Reduced>,
                                    cb: nat -> Option<Term<G>>, n: Size)
      returns (trap: bool, ok: bool, r: G, ghost asked: seq<nat>)
    requires Abelian(g) && S.HasOrder(g) && S.OddTable(g, preG, 0, S.TableSize(S.WINDOW_G), base) && z.scalar > 0
    ensures trap <==> !Divisible(z, alloc, n)
    ensures Divisible(z, alloc, n) ==> (ok <==> HasRoom(z, alloc, n) && Answered(cb, 0, Taken(z, alloc, n)))
    ensures Divisible(z, alloc, n) && ok ==>
              && asked == Range(0, Taken(z, alloc, n))
              && r == g.add(SumOf(g, cb, 0, Taken(z, alloc, n)), Times(g, S.GeneratorScalar(ng), base))
  {
    hide Abelian, S.HasOrder, S.OddTable, S.TableSize, Combine, Times, StraussScratchSize, Fits, SumOf, Range, Largest, StraussRoom,
         RoundUp;
    NoTerms(g, cb, 0, base);
    trap, r, asked := false, g.zero, Range(0, 0);
    if ng.None? && n == 0 {
      return false, true, r, asked;
    } else if n == 0 {
      r := S.Ecmult(g, preG, base, r, 0, ng);
      TimesZeroPoint(g, 0);
      return false, true, r, asked;
    }
    var most := PippengerMaxPoints(z, alloc);
    LargestFound(z, alloc, most);
    var maxPoints := most;
    if maxPoints == 0 {
      return false, false, r, asked;
    } else if maxPoints > MAX_POINTS_PER_BATCH {
      maxPoints := MAX_POINTS_PER_BATCH;
    }
    var batches := RoundUp(n, maxPoints);
    if batches == 0 {
      return true, false, r, asked;
    }
    var size := RoundUp(n, batches);
    if size >= PIPPENGER_THRESHOLD {
      BucketBatches(z, alloc, n, maxPoints, size);
      ok, r, asked := RunBatches(g, preG, z, alloc, base, ng, cb, n, batches, size, true);
    } else {
      maxPoints := StraussMaxPoints(z, alloc);
      RoomIs(z, alloc, maxPoints);
      if maxPoints == 0 {
        return false, false, r, asked;
      }
      batches := RoundUp(n, maxPoints);
      if batches == 0 {
        return true, false, r, asked;
      }
      size := RoundUp(n, batches);
      PlainBatches(z, alloc, n, size);
      NothingTaken(g, base, ng, cb);
      ok, r, asked := RunBatches(g, preG, z, alloc, base, ng, cb, n, batches, size, false);
    }
  }

  /** Rounding that does not wrap covers all points with batches of at most the maximum. */
  lemma Rounded(n: Size, max: Size)
    requires n > 0 && max > 0 && RoundUp(n, max) > 0
    ensures BatchSize(n, max) <= max && (BatchSize(n, max) > 0 ==> RoundUp(n, max) * BatchSize(n, max) >= n)
  {
    hide RoundUp;
    RoundUpWraps(n, max);
    RoundUpWraps(n, RoundUp(n, max));
    BatchCounts(n, max);
  }

  lemma BucketBatches(z: Sizes, alloc: Size, n: Size, max: Size, size: Size)
    requires n > 0 && max == PerBatch(Largest(z, alloc)) > 0 && RoundUp(n, max) > 0 && size == BatchSize(n, max) > 0
    ensures RoundUp(n, max) * size >= n && forall k: Size :: k <= size ==> k == 0 || Fits(z, alloc, k)
  {
    hide Fits, RoundUp, LargestFrom;
    Rounded(n, max);
    forall k: Size | 0 < k <= size
      ensures Fits(z, alloc, k)
    {
      LargestFits(z, alloc, 0, k);
    }
  }

  lemma PlainBatches(z: Sizes, alloc: Size, n: Size, size: Size)
    requires z.scalar > 0 && n > 0 && StraussRoom(z, alloc) > 0
    requires RoundUp(n, StraussRoom(z, alloc)) > 0 && size == BatchSize(n, StraussRoom(z, alloc))
    ensures size > 0 ==> RoundUp(n, StraussRoom(z, alloc)) * size >= n
    ensures forall k: Size :: k <= size ==> StraussScratchSize(z, k) <= alloc
  {
    hide RoundUp, StraussScratchSize;
    Rounded(n, StraussRoom(z, alloc));
  }
}
