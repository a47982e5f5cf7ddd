/** Pippenger's algorithm: multi-scalar multiplication by sorting points into buckets. */
module Pippenger {
  import opened Words
  import opened Group
  import opened WnafFixed

  datatype PointState = PointState(skew: nat, inputPos: nat)

  // --- one window, coordinate by coordinate ---

  /** The bucket a nonzero digit goes to. */
  function Bucket(x: int): int {
    if x > 0 then (x - 1) / 2 else (-(x + 1)) / 2
  }

  function DigitSign(x: int): int {
    if x > 0 then 1 else if x < 0 then -1 else 0
  }

  lemma DigitParts(x: int, w: nat)
    requires w >= 1 && Digit(x, w)
    ensures x == if x == 0 then 0 else DigitSign(x) * (2 * Bucket(x) + 1)
    ensures x != 0 ==> 0 <= Bucket(x) < Pow2(w - 1)
  {
  }

  /** What point `k` adds to bucket `j` in a window. */
  function InBucket(x: int, skew: int, j: int): int {
    (if x != 0 && Bucket(x) == j then DigitSign(x) else 0) - (if j == 0 then skew else 0)
  }

  /** What the first `np` points have added to bucket `j`. */
  function BucketCoefs(xs: seq<int>, skews: seq<int>, np: nat, j: int): (c: seq<int>)
    requires |xs| == |skews|
    ensures |c| == |xs|
    ensures forall k :: 0 <= k < |c| ==> c[k] == if k < np then InBucket(xs[k], skews[k], j) else 0
  {
    seq(|xs|, k requires 0 <= k < |xs| => if k < np then InBucket(xs[k], skews[k], j) else 0)
  }

  /** What a point has in the running sum from bucket `j` up, and in the sum of those sums. */
  function RunningPart(x: int, j: int): int {
    if x != 0 && Bucket(x) >= j then DigitSign(x) else 0
  }

  function SumPart(x: int, j: int): int {
    if x != 0 && Bucket(x) >= j then DigitSign(x) * (Bucket(x) - j + 1) else 0
  }

  lemma SumPartStep(x: int, j: int)
    ensures SumPart(x, j + 1) + RunningPart(x, j) == SumPart(x, j)
  {
    assert DigitSign(x) * (Bucket(x) - j) + DigitSign(x) == DigitSign(x) * (Bucket(x) - j + 1);
  }

  lemma LastPart(x: int, skew: int, w: nat)
    requires w >= 1 && Digit(x, w)
    ensures 2 * SumPart(x, 1) + RunningPart(x, 1) + InBucket(x, skew, 0) == x - skew
  {
    DigitParts(x, w);
  }

  /** The sum of the buckets from `j` up, without the skew. */
  function RunningCoefs(xs: seq<int>, j: int): (c: seq<int>)
    ensures |c| == |xs|
    ensures forall k :: 0 <= k < |c| ==> c[k] == RunningPart(xs[k], j)
  {
    seq(|xs|, k requires 0 <= k < |xs| => RunningPart(xs[k], j))
  }

  /** `m` times `rc`, plus every running sum from `j` up. */
  function SumCoefs(xs: seq<int>, rc: seq<int>, m: int, j: int): (c: seq<int>)
    requires |rc| == |xs|
    ensures |c| == |xs|
    ensures forall k :: 0 <= k < |c| ==> c[k] == m * rc[k] + SumPart(xs[k], j)
  {
    seq(|xs|, k requires 0 <= k < |xs| => m * rc[k] + SumPart(xs[k], j))
  }

  function Scale(c: seq<int>, m: int): (d: seq<int>)
    ensures |d| == |c| && forall k :: 0 <= k < |d| ==> d[k] == m * c[k]
  {
    seq(|c|, k requires 0 <= k < |c| => m * c[k])
  }

  /** `r` after a window: shifted up by `w` bits, plus the digits, less the skew. */
  function WindowCoefs(xs: seq<int>, skews: seq<int>, rc: seq<int>, m: int): (c: seq<int>)
    requires |xs| == |rc| == |skews|
    ensures |c| == |xs| && forall k :: 0 <= k < |c| ==> c[k] == m * rc[k] + xs[k] - skews[k]
  {
    seq(|xs|, k requires 0 <= k < |xs| => m * rc[k] + xs[k] - skews[k])
  }

  lemma DoubleCoefs<G(!new)>(g: Group<G>, c: seq<int>, m: int, pts: seq<G>)
    requires Abelian(g) && |c| == |pts|
    ensures var r := Combine(g, Scale(c, m), pts); g.add(r, r) == Combine(g, Scale(c, 2 * m), pts)
  {
    hide Abelian, Combine, Scale, Plus;
    CombinePlus(g, Scale(c, m), Scale(c, m), pts);
    PlusScale(c, m);
  }

  lemma PlusScale(c: seq<int>, m: int)
    ensures Plus(Scale(c, m), Scale(c, m)) == Scale(c, 2 * m)
  {
    forall k | 0 <= k < |c|
      ensures m * c[k] + m * c[k] == 2 * m * c[k]
    {
      Twice(m, c[k]);
    }
  }

  lemma Twice(m: int, x: int)
    ensures m * x + m * x == 2 * m * x
  {
  }

  lemma RunningStep<G(!new)>(g: Group<G>, xs: seq<int>, skews: seq<int>, j: int, pts: seq<G>)
    requires Abelian(g) && |xs| == |skews| == |pts| && j >= 1
    ensures g.add(Combine(g, RunningCoefs(xs, j + 1), pts), Combine(g, BucketCoefs(xs, skews, |xs|, j), pts))
         == Combine(g, RunningCoefs(xs, j), pts)
  {
    hide Abelian, Bucket, DigitSign, Combine;
    CombinePlus(g, RunningCoefs(xs, j + 1), BucketCoefs(xs, skews, |xs|, j), pts);
    assert Plus(RunningCoefs(xs, j + 1), BucketCoefs(xs, skews, |xs|, j)) == RunningCoefs(xs, j);
  }

  lemma SumStep<G(!new)>(g: Group<G>, xs: seq<int>, rc: seq<int>, m: int, j: int, pts: seq<G>)
    requires Abelian(g) && |xs| == |rc| == |pts|
    ensures g.add(Combine(g, SumCoefs(xs, rc, m, j + 1), pts), Combine(g, RunningCoefs(xs, j), pts))
         == Combine(g, SumCoefs(xs, rc, m, j), pts)
  {
    hide Abelian, RunningPart, SumPart, Combine;
    CombinePlus(g, SumCoefs(xs, rc, m, j + 1), RunningCoefs(xs, j), pts);
    var c := Plus(SumCoefs(xs, rc, m, j + 1), RunningCoefs(xs, j));
    forall k | 0 <= k < |xs|
      ensures c[k] == SumCoefs(xs, rc, m, j)[k]
    {
      SumPartStep(xs[k], j);
    }
    assert c == SumCoefs(xs, rc, m, j);
  }

  /** The last bucket, and the doubling left out of the earlier ones. */
  lemma LastStep<G(!new)>(g: Group<G>, xs: seq<int>, skews: seq<int>, rc: seq<int>, m: int, w: nat, pts: seq<G>)
    requires Abelian(g) && |xs| == |skews| == |rc| == |pts|
    requires w >= 1 && forall k :: 0 <= k < |xs| ==> Digit(xs[k], w)
    ensures var running := g.add(Combine(g, RunningCoefs(xs, 1), pts), Combine(g, BucketCoefs(xs, skews, |xs|, 0), pts));
            var r := Combine(g, SumCoefs(xs, rc, m, 1), pts);
            g.add(g.add(r, r), running) == Combine(g, WindowCoefs(xs, skews, rc, 2 * m), pts)
  {
    hide Abelian, RunningPart, SumPart, InBucket, Digit, Combine;
    var a, b, s := RunningCoefs(xs, 1), BucketCoefs(xs, skews, |xs|, 0), SumCoefs(xs, rc, m, 1);
    CombinePlus(g, a, b, pts);
    CombinePlus(g, s, s, pts);
    CombinePlus(g, Plus(s, s), Plus(a, b), pts);
    forall k | 0 <= k < |xs|
      ensures Plus(Plus(s, s), Plus(a, b))[k] == WindowCoefs(xs, skews, rc, 2 * m)[k]
    {
      LastPart(xs[k], skews[k], w);
      assert 2 * (m * rc[k]) == 2 * m * rc[k];
    }
    assert Plus(Plus(s, s), Plus(a, b)) == WindowCoefs(xs, skews, rc, 2 * m);
  }

  /** Adding point `np` to its bucket. */
  lemma BucketStep<G(!new)>(g: Group<G>, xs: seq<int>, skews: seq<int>, np: nat, j: int, pts: seq<G>)
    requires Abelian(g) && |xs| == |skews| == |pts| && np < |xs|
    ensures Combine(g, BucketCoefs(xs, skews, np + 1, j), pts)
         == g.add(Combine(g, BucketCoefs(xs, skews, np, j), pts), Times(g, InBucket(xs[np], skews[np], j), pts[np]))
  {
    hide Abelian, InBucket, Combine, Times;
    var k := InBucket(xs[np], skews[np], j);
    CombinePlus(g, BucketCoefs(xs, skews, np, j), Only(|xs|, np, k), pts);
    CombineOnly(g, pts, np, k);
    assert Plus(BucketCoefs(xs, skews, np, j), Only(|xs|, np, k)) == BucketCoefs(xs, skews, np + 1, j);
  }

  // --- the algorithm ---

  /** The digits of window `i` of the first `no` recoded scalars. */
  ghost predicate WindowDigits(wnaf: seq<int>, n: nat, i: nat, no: nat, xs: seq<int>) {
    && |xs| == no && i < n
    && forall k :: 0 <= k < no ==> 0 <= Slot(k, n, i) < |wnaf| && xs[k] == wnaf[Slot(k, n, i)]
  }

  /** Where window `i` of point `k` is stored. */
  function Slot(k: nat, n: nat, i: nat): int {
    k * n + i
  }

  ghost predicate PointStates<G>(ps: seq<PointState>, no: nat, pt: seq<G>, cp: seq<G>) {
    && |cp| == no <= |ps|
    && forall k :: 0 <= k < no ==> ps[k].inputPos < |pt| && cp[k] == pt[ps[k].inputPos]
  }

  ghost predicate Skews(ps: seq<PointState>, i: nat, skews: seq<int>) {
    && |skews| <= |ps|
    && forall k :: 0 <= k < |skews| ==> skews[k] == (if i == 0 then ps[k].skew else 0) && ps[k].skew <= 1
  }

  /** One addition to a bucket. */
  method AddTo<G(!new)>(g: Group<G>, buckets: array<G>, idx: nat, x: G)
    requires idx < buckets.Length
    modifies buckets
    ensures buckets[..] == old(buckets[..])[idx := g.add(old(buckets[idx]), x)]
  {
    buckets[idx] := g.add(buckets[idx], x);
  }

  /** The two additions a point can make, seen from any bucket. */
  lemma TwoAdditions<G(!new)>(g: Group<G>, b: G, x: int, skew: int, j: int, point: G)
    requires Abelian(g) && 0 <= skew <= 1
    ensures var b1 := if j == 0 && skew == 1 then g.add(b, g.neg(point)) else b;
            var b2 := if x != 0 && Bucket(x) == j then g.add(b1, if x > 0 then point else g.neg(point)) else b1;
            b2 == g.add(b, Times(g, InBucket(x, skew, j), point))
  {
    hide Abelian, Times, Bucket;
    TimesOne(g, point);
    assert Times(g, 0, point) == g.zero by { TimesNought(g, point); }
    Zero(g, b);
    var s := if x != 0 && Bucket(x) == j then DigitSign(x) else 0;
    if j == 0 && skew == 1 {
      Assoc(g, b, Times(g, -1, point), Times(g, s, point));
      TimesAdd(g, -1, s, point);
      Zero(g, g.add(b, g.neg(point)));
    }
  }

  lemma TimesNought<G(!new)>(g: Group<G>, x: G)
    ensures Times(g, 0, x) == g.zero
  {
  }

  method FillBuckets<G(!new)>(g: Group<G>, buckets: array<G>, bucketWindow: nat, wnaf: array<int>, n: nat, i: nat,
                              ps: array<PointState>, no: nat, pt: seq<G>,
                              ghost xs: seq<int>, ghost skews: seq<int>, ghost cp: seq<G>)
    requires Abelian(g) && buckets.Length >= Pow2(bucketWindow)
    requires (buckets as object) != wnaf && (buckets as object) != ps
    requires WindowDigits(wnaf[..], n, i, no, xs) && PointStates(ps[..], no, pt, cp)
    requires |skews| == no && Skews(ps[..], i, skews)
    requires forall k :: 0 <= k < no ==> Digit(xs[k], bucketWindow + 1)
    modifies buckets
    ensures forall j :: 0 <= j < Pow2(bucketWindow) ==> buckets[j] == Combine(g, BucketCoefs(xs, skews, no, j), cp)
  {
    hide Abelian, Combine, Times, Digit, Pow2;
    var size := Pow2(bucketWindow);
    for j := 0 to size
      invariant forall l :: 0 <= l < j ==> buckets[l] == g.zero
    {
      buckets[j] := g.zero;
    }
    forall j | 0 <= j < size
      ensures buckets[j] == Combine(g, BucketCoefs(xs, skews, 0, j), cp)
    {
      CombineNone(g, cp);
      assert BucketCoefs(xs, skews, 0, j) == Nothing(no);
    }
    for np := 0 to no
      invariant forall j :: 0 <= j < size ==> buckets[j] == Combine(g, BucketCoefs(xs, skews, np, j), cp)
    {
      ghost var before := buckets[..];
      var x := wnaf[Slot(np, n, i)];
      var state := ps[np];
      var point := pt[state.inputPos];
      if i == 0 {
        if state.skew != 0 {
          FirstBucket(bucketWindow);
          AddTo(g, buckets, 0, g.neg(point));
        }
      }
      DigitParts(x, bucketWindow + 1);
      if x > 0 {
        AddTo(g, buckets, (x - 1) / 2, point);
      } else if x < 0 {
        AddTo(g, buckets, (-(x + 1)) / 2, g.neg(point));
      }
      forall j | 0 <= j < size
        ensures buckets[j] == Combine(g, BucketCoefs(xs, skews, np + 1, j), cp)
      {
        BucketStep(g, xs, skews, np, j, cp);
        TwoAdditions(g, before[j], x, skews[np], j, point);
      }
    }
  }

  lemma FirstBucket(w: nat)
    ensures Pow2(w) >= 1
  {
  }

  lemma DoublePower(k: nat)
    ensures Pow2(k + 1) == 2 * Pow2(k)
  {
  }

  lemma ScaleOne(c: seq<int>)
    ensures Scale(c, Pow2(0)) == c
  {
  }

  /** `k` doublings. */
  method ShiftUp<G(!new)>(g: Group<G>, r: G, k: nat, ghost rc: seq<int>, ghost cp: seq<G>) returns (r': G)
    requires Abelian(g) && |rc| == |cp| && r == Combine(g, rc, cp)
    ensures r' == Combine(g, Scale(rc, Pow2(k)), cp)
  {
    ScaleOne(rc);
    hide Abelian, Combine, Pow2, Scale;
    r' := r;
    for j := 0 to k
      invariant r' == Combine(g, Scale(rc, Pow2(j)), cp)
    {
      DoubleCoefs(g, rc, Pow2(j), cp);
      DoublePower(j);
      r' := g.add(r', r');
    }
  }

  /** One window: shift the result, then add `sum((2 j + 1) buckets[j])` by running sums. */
  method AddWindow<G(!new)>(g: Group<G>, buckets: array<G>, bucketWindow: nat, r: G,
                            ghost xs: seq<int>, ghost skews: seq<int>, ghost rc: seq<int>, ghost cp: seq<G>)
      returns (r': G)
    requires Abelian(g) && buckets.Length >= Pow2(bucketWindow)
    requires |xs| == |skews| == |rc| == |cp| && r == Combine(g, rc, cp)
    requires forall j :: 0 <= j < Pow2(bucketWindow) ==> buckets[j] == Combine(g, BucketCoefs(xs, skews, |xs|, j), cp)
    requires forall k :: 0 <= k < |xs| ==> Digit(xs[k], bucketWindow + 1)
    ensures r' == Combine(g, WindowCoefs(xs, skews, rc, Pow2(bucketWindow + 1)), cp)
  {
    hide Abelian, Combine, Times, Digit, Pow2, Scale, SumCoefs, RunningCoefs, WindowCoefs, BucketCoefs;
    var m := Pow2(bucketWindow);
    NoneAbove(xs, rc, m, bucketWindow);
    CombineNone(g, cp);
    r' := ShiftUp(g, r, bucketWindow, rc, cp);
    var running := g.zero;
    var j := m - 1;
    while j > 0
      invariant 0 <= j < m
      invariant running == Combine(g, RunningCoefs(xs, j + 1), cp)
      invariant r' == Combine(g, SumCoefs(xs, rc, m, j + 1), cp)
    {
      RunningStep(g, xs, skews, j, cp);
      SumStep(g, xs, rc, m, j, cp);
      running := g.add(running, buckets[j]);
      r' := g.add(r', running);
      j := j - 1;
    }
    LastStep(g, xs, skews, rc, m, bucketWindow + 1, cp);
    DoublePower(bucketWindow);
    running := g.add(running, buckets[0]);
    r' := g.add(r', r');
    r' := g.add(r', running);
  }

  /** No digit belongs above the last bucket. */
  lemma NoneAbove(xs: seq<int>, rc: seq<int>, m: int, bucketWindow: nat)
    requires |rc| == |xs| && forall k :: 0 <= k < |xs| ==> Digit(xs[k], bucketWindow + 1)
    ensures RunningCoefs(xs, Pow2(bucketWindow)) == Nothing(|xs|)
    ensures SumCoefs(xs, rc, m, Pow2(bucketWindow)) == Scale(rc, m)
  {
    forall k | 0 <= k < |xs|
      ensures RunningPart(xs[k], Pow2(bucketWindow)) == SumPart(xs[k], Pow2(bucketWindow)) == 0
    {
      DigitParts(xs[k], bucketWindow + 1);
    }
  }

  // --- from windows to scalars ---

  /** The digits from window `i` up, as a number. */
  function Upper(d: seq<int>, base: int, w: nat, n: nat, i: nat): int
    requires 0 <= base && base + n <= |d| && i <= n
    decreases n - i
  {
    if i == n then 0 else d[base + i] + Pow2(w) * Upper(d, base, w, n, i + 1)
  }

  lemma {:induction false} UpperWeighted(d: seq<int>, base: int, w: nat, n: nat, i: nat)
    requires 0 <= base && base + n <= |d| && i <= n
    ensures Weighted(d, base, w, i) + Pow2(w * i) * Upper(d, base, w, n, i) == Weighted(d, base, w, n)
    decreases n - i
  {
    if i < n {
      UpperWeighted(d, base, w, n, i + 1);
      WindowStep(0, w, i);
      var u := Upper(d, base, w, n, i + 1);
      assert Weighted(d, base, w, i + 1) == Weighted(d, base, w, i) + d[base + i] * Pow2(w * i);
      assert Upper(d, base, w, n, i) == d[base + i] + Pow2(w) * u;
      hide Weighted, Upper, Pow2;
      Distribute(Pow2(w * i), d[base + i], Pow2(w), u);
    }
  }

  lemma Distribute(p: int, x: int, b: int, u: int)
    ensures p * (x + b * u) == x * p + (p * b) * u
  {
    assert p * (b * u) == (p * b) * u;
  }

  /** The first `no` recoded scalars, as the algorithm keeps them. */
  ghost predicate Recodings(wnaf: seq<int>, ps: seq<PointState>, w: nat, n: nat, no: nat, cs: seq<int>) {
    && |cs| == no <= |ps|
    && forall k :: 0 <= k < no ==> Recoding(wnaf, Slot(k, n, 0), ps[k].skew, w, n, cs[k])
  }

  ghost predicate Recoding(wnaf: seq<int>, base: int, skew: nat, w: nat, n: nat, s: int) {
    && 0 <= base && base + n <= |wnaf| && skew <= 1
    && Weighted(wnaf, base, w, n) - skew == s
    && forall i :: base <= i < base + n ==> Digit(wnaf[i], w)
  }

  /** The coefficients once windows `i` and up are in. */
  ghost function UpperCoefs(wnaf: seq<int>, ps: seq<PointState>, w: nat, n: nat, i: nat, cs: seq<int>): (c: seq<int>)
    requires Recodings(wnaf, ps, w, n, |cs|, cs) && i <= n
    ensures |c| == |cs|
  {
    seq(|cs|, k requires 0 <= k < |cs| =>
      assert Recoding(wnaf, Slot(k, n, 0), ps[k].skew, w, n, cs[k]);
      Upper(wnaf, Slot(k, n, 0), w, n, i) - if i == 0 then ps[k].skew else 0)
  }

  lemma SlotsApart(k: nat, no: nat, n: nat)
    requires k < no
    ensures Slot(k, n, 0) + n <= Slot(no, n, 0)
  {
    MulBound(k + 1, n, no, n);
    assert (k + 1) * n == k * n + n;
  }

  /** Recoding one more scalar leaves the earlier ones as they are. */
  lemma RecodingKept(d: seq<int>, e: seq<int>, ps: seq<PointState>, qs: seq<PointState>, w: nat, n: nat, no: nat, cs: seq<int>)
    requires Recodings(d, ps, w, n, no, cs) && |e| == |d| && |qs| == |ps|
    requires forall i :: 0 <= i < |d| && i < Slot(no, n, 0) ==> e[i] == d[i]
    requires forall k :: 0 <= k < no ==> qs[k] == ps[k]
    ensures Recodings(e, qs, w, n, no, cs)
  {
    forall k | 0 <= k < no
      ensures Recoding(e, Slot(k, n, 0), qs[k].skew, w, n, cs[k])
    {
      assert Recoding(d, Slot(k, n, 0), ps[k].skew, w, n, cs[k]);
      SlotsApart(k, no, n);
      WeightedSame(d, e, Slot(k, n, 0), w, n);
    }
  }

  lemma RecodingAdded(d: seq<int>, ps: seq<PointState>, w: nat, n: nat, no: nat, cs: seq<int>, s: int)
    requires Recodings(d, ps, w, n, no, cs) && no < |ps|
    requires Recoding(d, Slot(no, n, 0), ps[no].skew, w, n, s)
    ensures Recodings(d, ps, w, n, no + 1, cs + [s])
  {
  }

  /** A scalar of zero, or the point at infinity, adds nothing. */
  lemma SkippedPoint<G(!new)>(g: Group<G>, sc: seq<int>, pt: seq<G>, np: nat)
    requires Abelian(g) && |sc| == |pt| && np < |sc| && (sc[np] == 0 || pt[np] == g.zero)
    ensures Combine(g, sc[..np + 1], pt[..np + 1]) == Combine(g, sc[..np], pt[..np])
  {
    TimesZeroPoint(g, sc[np]);
    Zero(g, Combine(g, sc[..np], pt[..np]));
    assert sc[..np + 1][..np] == sc[..np] && pt[..np + 1][..np] == pt[..np];
  }

  lemma TakenPoint<G(!new)>(g: Group<G>, sc: seq<int>, pt: seq<G>, np: nat, cs: seq<int>, cp: seq<G>)
    requires |sc| == |pt| && |cs| == |cp| && np < |sc|
    requires Combine(g, cs, cp) == Combine(g, sc[..np], pt[..np])
    ensures Combine(g, cs + [sc[np]], cp + [pt[np]]) == Combine(g, sc[..np + 1], pt[..np + 1])
  {
    assert sc[..np + 1][..np] == sc[..np] && pt[..np + 1][..np] == pt[..np];
    assert (cs + [sc[np]])[..|cs|] == cs && (cp + [pt[np]])[..|cp|] == cp;
  }

  /** Recode the scalars that contribute. */
  method RecodeAll<G(!new,==)>(g: Group<G>, w: nat, n: nat, wnaf: array<int>, ps: array<PointState>,
                               sc: seq<Scalar>, pt: seq<G>)
      returns (no: nat, ghost cs: seq<int>, ghost cp: seq<G>)
    requires Abelian(g) && 1 <= w <= 30 && n == WnafSize(w) && |sc| == |pt|
    requires wnaf.Length >= Slot(|sc|, n, 0) && ps.Length >= |sc|
    modifies wnaf, ps
    ensures |cs| == |cp| && Combine(g, cs, cp) == Combine(g, sc, pt)
    ensures Recodings(wnaf[..], ps[..], w, n, no, cs) && PointStates(ps[..], no, pt, cp)
  {
    hide Abelian, Combine, Recoding, Recodings, Slot;
    no, cs, cp := 0, [], [];
    assert Combine(g, cs, cp) == Combine(g, sc[..0], pt[..0]);
    NoRecodings(wnaf[..], ps[..], w, n);
    for np := 0 to |sc|
      invariant no <= np && |cs| == |cp|
      invariant Combine(g, cs, cp) == Combine(g, sc[..np], pt[..np])
      invariant Recodings(wnaf[..], ps[..], w, n, no, cs) && PointStates(ps[..], no, pt, cp)
    {
      if sc[np] == 0 || pt[np] == g.zero {
        SkippedPoint(g, sc, pt, np);
        continue;
      }
      ghost var d, qs := wnaf[..], ps[..];
      SlotBase(no, |sc|, n);
      var skew := RecodeFixed(wnaf, Slot(no, n, 0), sc[np], w);
      ps[no] := PointState(skew, np);
      RecodingKept(d, wnaf[..], qs, ps[..], w, n, no, cs);
      RecodedHere(wnaf[..], Slot(no, n, 0), skew, w, n, sc[np]);
      RecodingAdded(wnaf[..], ps[..], w, n, no, cs, sc[np]);
      TakenPoint(g, sc, pt, np, cs, cp);
      cs, cp := cs + [sc[np]], cp + [pt[np]];
      no := no + 1;
    }
    assert sc[..|sc|] == sc && pt[..|pt|] == pt;
  }

  lemma SlotBase(no: nat, m: nat, n: nat)
    requires no < m
    ensures 0 <= Slot(no, n, 0) && Slot(no, n, 0) + n <= Slot(m, n, 0)
  {
    SlotsApart(no, m, n);
    assert no * n >= 0;
  }

  lemma NoRecodings(d: seq<int>, ps: seq<PointState>, w: nat, n: nat)
    ensures Recodings(d, ps, w, n, 0, [])
  {
  }

  lemma RecodedHere(d: seq<int>, base: int, skew: nat, w: nat, n: nat, s: int)
    requires 0 <= base && base + n <= |d| && skew <= 1 && Weighted(d, base, w, n) - skew == s
    requires forall i :: base <= i < base + n ==> Digit(d[i], w)
    ensures Recoding(d, base, skew, w, n, s)
  {
  }

  /** The digits and skews of one window, and what adding the window does to the coefficients. */
  lemma WindowOf(wnaf: seq<int>, ps: seq<PointState>, w: nat, n: nat, i: nat, cs: seq<int>)
      returns (xs: seq<int>, skews: seq<int>)
    requires Recodings(wnaf, ps, w, n, |cs|, cs) && i < n
    ensures WindowDigits(wnaf, n, i, |cs|, xs) && |skews| == |cs| && Skews(ps, i, skews)
    ensures forall k :: 0 <= k < |cs| ==> Digit(xs[k], w)
    ensures WindowCoefs(xs, skews, UpperCoefs(wnaf, ps, w, n, i + 1, cs), Pow2(w)) == UpperCoefs(wnaf, ps, w, n, i, cs)
  {
    forall k | 0 <= k < |cs|
      ensures 0 <= Slot(k, n, i) < |wnaf| && Digit(wnaf[Slot(k, n, i)], w) && ps[k].skew <= 1
      ensures Slot(k, n, i) == Slot(k, n, 0) + i
    {
      assert Recoding(wnaf, Slot(k, n, 0), ps[k].skew, w, n, cs[k]);
    }
    xs := seq(|cs|, k requires 0 <= k < |cs| => wnaf[Slot(k, n, i)]);
    skews := seq(|cs|, k requires 0 <= k < |cs| => if i == 0 then ps[k].skew else 0);
    assert WindowCoefs(xs, skews, UpperCoefs(wnaf, ps, w, n, i + 1, cs), Pow2(w)) == UpperCoefs(wnaf, ps, w, n, i, cs);
  }

  lemma AllUpper(wnaf: seq<int>, ps: seq<PointState>, w: nat, n: nat, cs: seq<int>)
    requires Recodings(wnaf, ps, w, n, |cs|, cs)
    ensures UpperCoefs(wnaf, ps, w, n, 0, cs) == cs
    ensures n > 0 ==> UpperCoefs(wnaf, ps, w, n, n, cs) == Nothing(|cs|)
  {
    forall k | 0 <= k < |cs|
      ensures UpperCoefs(wnaf, ps, w, n, 0, cs)[k] == cs[k]
    {
      assert Recoding(wnaf, Slot(k, n, 0), ps[k].skew, w, n, cs[k]);
      UpperWeighted(wnaf, Slot(k, n, 0), w, n, 0);
      assert w * 0 == 0 && Weighted(wnaf, Slot(k, n, 0), w, 0) == 0;
    }
  }

  /** All windows of the recoded scalars, highest first. */
  method AllWindows<G(!new)>(g: Group<G>, buckets: array<G>, bucketWindow: nat, n: nat, wnaf: array<int>,
                             ps: array<PointState>, no: nat, pt: seq<G>, ghost cs: seq<int>, ghost cp: seq<G>)
      returns (r: G)
    requires Abelian(g) && n > 0 && |cs| == |cp| == no && buckets.Length >= Pow2(bucketWindow)
    requires (buckets as object) != wnaf && (buckets as object) != ps
    requires Recodings(wnaf[..], ps[..], bucketWindow + 1, n, no, cs) && PointStates(ps[..], no, pt, cp)
    modifies buckets
    ensures r == Combine(g, cs, cp)
  {
    hide Abelian, Combine, Recodings, Pow2, Digit, UpperCoefs, WindowCoefs, BucketCoefs, PointStates, WindowDigits, Skews;
    AllUpper(wnaf[..], ps[..], bucketWindow + 1, n, cs);
    CombineNone(g, cp);
    ghost var d, qs, w := wnaf[..], ps[..], bucketWindow + 1;
    r := g.zero;
    for i := n downto 0
      invariant wnaf[..] == d && ps[..] == qs
      invariant r == Combine(g, UpperCoefs(d, qs, w, n, i, cs), cp)
    {
      ghost var xs, skews := WindowOf(d, qs, w, n, i, cs);
      FillBuckets(g, buckets, bucketWindow, wnaf, n, i, ps, no, pt, xs, skews, cp);
      r := AddWindow(g, buckets, bucketWindow, r, xs, skews, UpperCoefs(d, qs, w, n, i + 1, cs), cp);
    }
  }

  /** The result is the plain sum of the scalar multiples, for any points and any bucket window. */
  method PippengerWnaf<G(!new,==)>(g: Group<G>, buckets: array<G>, bucketWindow: nat, wnaf: array<int>,
                                   ps: array<PointState>, sc: seq<Scalar>, pt: seq<G>) returns (r: G)
    requires Abelian(g) && 1 <= bucketWindow <= 29 && |sc| == |pt|
    requires buckets.Length >= Pow2(bucketWindow) && ps.Length >= |sc|
    requires wnaf.Length >= Slot(|sc|, WnafSize(bucketWindow + 1), 0)
    requires (buckets as object) != wnaf && (buckets as object) != ps
    modifies buckets, wnaf, ps
    ensures r == Combine(g, sc, pt)
  {
    hide Abelian, Combine, Recodings, Pow2, PointStates, Slot;
    var n := WnafSize(bucketWindow + 1);
    assert n > 0;
    var no, cs, cp := RecodeAll(g, bucketWindow + 1, n, wnaf, ps, sc, pt);
    if no == 0 {
      NoPoints(g, wnaf[..], ps[..], bucketWindow + 1, n, cs, cp);
      return g.zero;
    }
    RecodingsLength(wnaf[..], ps[..], bucketWindow + 1, n, no, cs);
    r := AllWindows(g, buckets, bucketWindow, n, wnaf, ps, no, pt, cs, cp);
  }

  lemma NoPoints<G>(g: Group<G>, d: seq<int>, ps: seq<PointState>, w: nat, n: nat, cs: seq<int>, cp: seq<G>)
    requires Recodings(d, ps, w, n, 0, cs) && |cs| == |cp|
    ensures Combine(g, cs, cp) == g.zero
  {
  }

  lemma RecodingsLength(d: seq<int>, ps: seq<PointState>, w: nat, n: nat, no: nat, cs: seq<int>)
    requires Recodings(d, ps, w, n, no, cs)
    ensures |cs| == no
  {
  }
}
