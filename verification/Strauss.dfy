/** Strauss's algorithm: several scalar multiplications, and one of the generator, in one pass of
    doublings, with tables of odd multiples. */
module Strauss {
  import opened Words
  import opened Wrappers
  import opened Group
  import opened WnafFixed
  import opened WnafVar
  import P = Pippenger

  const WINDOW_A: nat := 5
  const WINDOW_G: nat := 16
  const LEN: nat := 256

  /** A contributing point: the digits of its scalar, how many are in use, and which input it is. */
  datatype StraussPoint = StraussPoint(wnaf: seq<int>, bits: nat, inputPos: nat)

  function TableSize(w: nat): nat
    requires w >= 2
  {
    Pow2(w - 2)
  }

  /** A multiple of the group order adds nothing. */
  ghost predicate HasOrder<G(!new)>(g: Group<G>) {
    forall x :: Times(g, ORDER, x) == g.zero
  }

  lemma OrderOf<G(!new)>(g: Group<G>, x: G)
    requires HasOrder(g)
    ensures Times(g, ORDER, x) == g.zero
  {
  }

  lemma TimesModOrder<G(!new)>(g: Group<G>, k: int, x: G)
    requires Abelian(g) && HasOrder(g)
    ensures Times(g, k - ORDER, x) == Times(g, k, x)
  {
    hide Abelian, Times, HasOrder;
    OrderOf(g, x);
    TimesAdd(g, k - ORDER, ORDER, x);
    Zero(g, Times(g, k - ORDER, x));
  }

  // --- tables of odd multiples ---

  ghost predicate OddTable<G>(g: Group<G>, pre: seq<G>, base: nat, size: nat, a: G) {
    && base + size <= |pre|
    && forall i :: 0 <= i < size ==> pre[base + i] == Times(g, 2 * i + 1, a)
  }

  method OddMultiplesTable<G(!new)>(g: Group<G>, pre: array<G>, base: nat, size: nat, a: G)
    requires Abelian(g) && size >= 1 && base + size <= pre.Length
    modifies pre
    ensures OddTable(g, pre[..], base, size, a)
    ensures forall i :: 0 <= i < pre.Length && !(base <= i < base + size) ==> pre[i] == old(pre[i])
  {
    hide Abelian, Times;
    TimesOne(g, a);
    var d := g.add(a, a);
    TimesAdd(g, 1, 1, a);
    pre[base] := a;
    for i := 1 to size
      invariant forall k :: 0 <= k < i ==> pre[base + k] == Times(g, 2 * k + 1, a)
      invariant forall k :: 0 <= k < pre.Length && !(base <= k < base + size) ==> pre[k] == old(pre[k])
    {
      TimesAdd(g, 2 * (i - 1) + 1, 2, a);
      pre[base + i] := g.add(pre[base + i - 1], d);
    }
  }

  /** The table entry for an odd digit, negated for a negative one. */
  function TableGet<G>(g: Group<G>, pre: seq<G>, base: nat, n: int): G
    requires Odd(n) && base + (if n > 0 then (n - 1) / 2 else (-n - 1) / 2) < |pre|
  {
    if n > 0 then pre[base + (n - 1) / 2] else g.neg(pre[base + (-n - 1) / 2])
  }

  lemma DigitInTable(n: int, w: nat)
    requires w >= 2 && SparseDigit(n, w) && n != 0
    ensures Odd(n) && (if n > 0 then (n - 1) / 2 else (-n - 1) / 2) < TableSize(w)
  {
    assert Pow2(w - 1) == 2 * Pow2(w - 2);
  }

  lemma TableGetIsMultiple<G(!new)>(g: Group<G>, pre: seq<G>, base: nat, w: nat, n: int, a: G)
    requires Abelian(g) && w >= 2 && OddTable(g, pre, base, TableSize(w), a)
    requires SparseDigit(n, w) && n != 0
    ensures Odd(n) && base + (if n > 0 then (n - 1) / 2 else (-n - 1) / 2) < |pre|
    ensures TableGet(g, pre, base, n) == Times(g, n, a)
  {
    hide Abelian, Times;
    DigitInTable(n, w);
    var i := if n > 0 then (n - 1) / 2 else (-n - 1) / 2;
    assert pre[base + i] == Times(g, 2 * i + 1, a);
    TimesNeg(g, -n, a);
  }

  // --- one doubling step, coordinate by coordinate ---

  /** Digits for every entry, the points first and the generator last. */
  ghost predicate DigitRows(rows: seq<seq<int>>) {
    forall k :: 0 <= k < |rows| ==> |rows[k]| == LEN
  }

  /** Row `k` from digit `i` up, as a number. */
  function RowUpper(row: seq<int>, i: nat): int
    requires |row| == LEN && i <= LEN
  {
    P.Upper(row, 0, 1, LEN, i)
  }

  /** The coefficients when the first `np` entries have digit `i` in and the others not yet. */
  ghost function StepCoefs(rows: seq<seq<int>>, i: nat, np: nat): (c: seq<int>)
    requires DigitRows(rows) && i < LEN
    ensures |c| == |rows|
  {
    seq(|rows|, k requires 0 <= k < |rows| => 2 * RowUpper(rows[k], i + 1) + if k < np then rows[k][i] else 0)
  }

  ghost function RowCoefs(rows: seq<seq<int>>, i: nat): (c: seq<int>)
    requires DigitRows(rows) && i <= LEN
    ensures |c| == |rows|
  {
    seq(|rows|, k requires 0 <= k < |rows| => RowUpper(rows[k], i))
  }

  lemma StepDone(rows: seq<seq<int>>, i: nat)
    requires DigitRows(rows) && i < LEN
    ensures StepCoefs(rows, i, |rows|) == RowCoefs(rows, i)
  {
    assert Pow2(1) == 2;
  }

  lemma DoubleStep<G(!new)>(g: Group<G>, rows: seq<seq<int>>, i: nat, pts: seq<G>)
    requires Abelian(g) && DigitRows(rows) && |rows| == |pts| && i < LEN
    ensures var r := Combine(g, RowCoefs(rows, i + 1), pts); g.add(r, r) == Combine(g, StepCoefs(rows, i, 0), pts)
  {
    hide Abelian, Combine;
    var c := RowCoefs(rows, i + 1);
    CombinePlus(g, c, c, pts);
    assert Plus(c, c) == StepCoefs(rows, i, 0);
  }

  /** Adding entry `np`'s table value, or nothing for a digit of zero. */
  lemma AddStep<G(!new)>(g: Group<G>, rows: seq<seq<int>>, i: nat, np: nat, pts: seq<G>)
    requires Abelian(g) && DigitRows(rows) && |rows| == |pts| && i < LEN && np < |rows|
    ensures g.add(Combine(g, StepCoefs(rows, i, np), pts), Times(g, rows[np][i], pts[np]))
         == Combine(g, StepCoefs(rows, i, np + 1), pts)
    ensures rows[np][i] == 0 ==> Combine(g, StepCoefs(rows, i, np), pts) == Combine(g, StepCoefs(rows, i, np + 1), pts)
  {
    hide Abelian, Combine, Times;
    var only := Only(|rows|, np, rows[np][i]);
    CombinePlus(g, StepCoefs(rows, i, np), only, pts);
    CombineOnly(g, pts, np, rows[np][i]);
    assert Plus(StepCoefs(rows, i, np), only) == StepCoefs(rows, i, np + 1);
    if rows[np][i] == 0 {
      assert StepCoefs(rows, i, np) == StepCoefs(rows, i, np + 1);
    }
  }

  /** Above the last digit in use there is nothing; from digit 0 up there is everything. */
  lemma UpperEnds(rows: seq<seq<int>>, bits: nat)
    requires DigitRows(rows) && bits <= LEN
    requires forall k, i :: 0 <= k < |rows| && bits <= i < LEN ==> rows[k][i] == 0
    ensures RowCoefs(rows, bits) == Nothing(|rows|)
    ensures forall k :: 0 <= k < |rows| ==> RowCoefs(rows, 0)[k] == Weighted(rows[k], 0, 1, LEN)
  {
    forall k | 0 <= k < |rows|
      ensures RowUpper(rows[k], bits) == 0
      ensures RowUpper(rows[k], 0) == Weighted(rows[k], 0, 1, LEN)
    {
      UpperOfZeros(rows[k], bits);
      P.UpperWeighted(rows[k], 0, 1, LEN, 0);
      assert Pow2(1 * 0) == 1 && Weighted(rows[k], 0, 1, 0) == 0;
    }
  }

  lemma {:induction false} UpperOfZeros(row: seq<int>, i: nat)
    requires |row| == LEN && i <= LEN && forall j :: i <= j < LEN ==> row[j] == 0
    ensures RowUpper(row, i) == 0
    decreases LEN - i
  {
    if i < LEN {
      UpperOfZeros(row, i + 1);
    }
  }

  // --- the algorithm ---

  /** What an entry's digits promise. */
  ghost predicate Row(row: seq<int>, w: nat, bits: nat, s: int)
    requires w >= 2
  {
    && |row| == LEN && bits <= LEN
    && Weighted(row, 0, 1, LEN) == s
    && (forall i :: 0 <= i < LEN ==> SparseDigit(row[i], w))
    && (forall i :: bits <= i < LEN ==> row[i] == 0)
  }

  lemma CenteredMultiple<G(!new)>(g: Group<G>, a: Reduced, x: G)
    requires Abelian(g) && HasOrder(g)
    ensures Times(g, Centered(a), x) == Times(g, a, x)
  {
    hide Times;
    TimesModOrder(g, a, x);
  }

  ghost predicate Points<G>(ps: seq<StraussPoint>, a: seq<G>, bits: nat, cs: seq<int>, cp: seq<G>) {
    && |ps| == |cs| == |cp|
    && forall k :: 0 <= k < |ps| ==>
         && ps[k].inputPos < |a| && cp[k] == a[ps[k].inputPos]
         && ps[k].bits <= bits && Row(ps[k].wnaf, WINDOW_A, ps[k].bits, cs[k])
  }

  lemma CountedPoint<G(!new)>(g: Group<G>, na: seq<Reduced>, a: seq<G>, np: nat, cs: seq<int>, cp: seq<G>)
    requires Abelian(g) && HasOrder(g) && |na| == |a| && |cs| == |cp| && np < |na|
    requires Combine(g, cs, cp) == Combine(g, na[..np], a[..np])
    ensures Combine(g, cs + [Centered(na[np])], cp + [a[np]]) == Combine(g, na[..np + 1], a[..np + 1])
  {
    hide HasOrder, Abelian, Times;
    CenteredMultiple(g, na[np], a[np]);
    assert na[..np + 1][..np] == na[..np] && a[..np + 1][..np] == a[..np];
    assert (cs + [Centered(na[np])])[..|cs|] == cs && (cp + [a[np]])[..|cp|] == cp;
  }

  method Digits(a: Reduced, w: nat) returns (row: seq<int>, bits: nat)
    requires 2 <= w <= 31
    ensures Row(row, w, bits, Centered(a))
  {
    hide Weighted, Pow2, SparseDigit, Centered, LongEnough, DigitSum;
    var wnaf := new int[LEN];
    FullLength(a);
    SpareIsEnough(a, LEN, w);
    bits := EcmultWnaf(wnaf, LEN, a, w);
    row := wnaf[..];
  }

  /** The digits of the scalars that contribute. */
  method RecodePoints<G(!new,==)>(g: Group<G>, a: seq<G>, na: seq<Reduced>)
      returns (ps: seq<StraussPoint>, bits: nat, ghost cs: seq<int>, ghost cp: seq<G>)
    requires Abelian(g) && HasOrder(g) && |na| == |a|
    ensures Points(ps, a, bits, cs, cp) && bits <= LEN && |ps| <= |a|
    ensures Combine(g, cs, cp) == Combine(g, na, a)
  {
    hide Abelian, HasOrder, Combine, Row;
    ps, bits, cs, cp := [], 0, [], [];
    assert Combine(g, cs, cp) == Combine(g, na[..0], a[..0]);
    for np := 0 to |na|
      invariant Points(ps, a, bits, cs, cp) && bits <= LEN && |ps| <= np
      invariant Combine(g, cs, cp) == Combine(g, na[..np], a[..np])
    {
      if na[np] == 0 || a[np] == g.zero {
        P.SkippedPoint(g, na, a, np);
        continue;
      }
      var row, b := Digits(na[np], WINDOW_A);
      RowBits(row, WINDOW_A, b, Centered(na[np]));
      if b > bits {
        bits := b;
      }
      ps := ps + [StraussPoint(row, b, np)];
      CountedPoint(g, na, a, np, cs, cp);
      cs, cp := cs + [Centered(na[np])], cp + [a[np]];
    }
    assert na[..|na|] == na && a[..|a|] == a;
  }

  lemma RowBits(row: seq<int>, w: nat, bits: nat, s: int)
    requires w >= 2 && Row(row, w, bits, s)
    ensures |row| == LEN && bits <= LEN
  {
  }

  ghost predicate Tables<G>(g: Group<G>, pre: seq<G>, no: nat, cp: seq<G>) {
    no <= |cp| && forall k :: 0 <= k < no ==> OddTable(g, pre, k * TableSize(WINDOW_A), TableSize(WINDOW_A), cp[k])
  }

  lemma EightEntries()
    ensures TableSize(WINDOW_A) == 8
  {
  }

  /** A table of odd multiples for each contributing point, one after the other. */
  method BuildTables<G(!new)>(g: Group<G>, pre: array<G>, ps: seq<StraussPoint>, a: seq<G>, bits: nat,
                              ghost cs: seq<int>, ghost cp: seq<G>)
    requires Abelian(g) && Points(ps, a, bits, cs, cp) && pre.Length >= |ps| * TableSize(WINDOW_A)
    modifies pre
    ensures Tables(g, pre[..], |ps|, cp)
  {
    hide Abelian, Row, Times, TableSize;
    EightEntries();
    for np := 0 to |ps|
      invariant Tables(g, pre[..], np, cp)
    {
      ghost var before := pre[..];
      OddMultiplesTable(g, pre, np * TableSize(WINDOW_A), TableSize(WINDOW_A), a[ps[np].inputPos]);
      forall k | 0 <= k < np
        ensures OddTable(g, pre[..], k * TableSize(WINDOW_A), TableSize(WINDOW_A), cp[k])
      {
        assert OddTable(g, before, k * TableSize(WINDOW_A), TableSize(WINDOW_A), cp[k]);
      }
    }
  }

  /** The rows of all points, and the generator's row last. */
  ghost function Rows(ps: seq<StraussPoint>, rowG: seq<int>): (rows: seq<seq<int>>)
    ensures |rows| == |ps| + 1 && rows[|ps|] == rowG
    ensures forall k :: 0 <= k < |ps| ==> rows[k] == ps[k].wnaf
  {
    seq(|ps|, k requires 0 <= k < |ps| => ps[k].wnaf) + [rowG]
  }

  /** Everything the doubling loop relies on. */
  ghost predicate Ready<G(!new)>(g: Group<G>, ps: seq<StraussPoint>, pre: seq<G>, cs: seq<int>, cp: seq<G>, bits: nat,
                                 rowG: seq<int>, bitsG: nat, sg: int, preG: seq<G>, base: G) {
    && |ps| == |cs| == |cp| && bitsG <= bits <= LEN
    && (forall k :: 0 <= k < |ps| ==> ps[k].bits <= bits && Row(ps[k].wnaf, WINDOW_A, ps[k].bits, cs[k]))
    && Tables(g, pre, |ps|, cp)
    && Row(rowG, WINDOW_G, bitsG, sg) && OddTable(g, preG, 0, TableSize(WINDOW_G), base)
  }

  lemma RowsReady<G(!new)>(g: Group<G>, ps: seq<StraussPoint>, pre: seq<G>, cs: seq<int>, cp: seq<G>, bits: nat,
                           rowG: seq<int>, bitsG: nat, sg: int, preG: seq<G>, base: G)
    requires Abelian(g) && Ready(g, ps, pre, cs, cp, bits, rowG, bitsG, sg, preG, base)
    ensures var rows := Rows(ps, rowG);
            && DigitRows(rows)
            && RowCoefs(rows, bits) == Nothing(|rows|)
            && RowCoefs(rows, 0) == cs + [sg]
  {
    hide Tables, OddTable, Abelian, Weighted, SparseDigit, RowCoefs;
    var rows := Rows(ps, rowG);
    forall k | 0 <= k < |rows|
      ensures |rows[k]| == LEN && Weighted(rows[k], 0, 1, LEN) == (cs + [sg])[k]
      ensures forall i :: bits <= i < LEN ==> rows[k][i] == 0
    {
      if k < |ps| {
        assert Row(ps[k].wnaf, WINDOW_A, ps[k].bits, cs[k]);
      }
    }
    UpperEnds(rows, bits);
  }

  /** One digit of a row: the table entry to add, if any. */
  lemma RowDigit<G(!new)>(g: Group<G>, row: seq<int>, w: nat, bits: nat, s: int, pre: seq<G>, b: nat, x: G, i: nat)
    requires Abelian(g) && w >= 2 && Row(row, w, bits, s) && OddTable(g, pre, b, TableSize(w), x)
    requires i < LEN
    ensures var n := row[i];
            if i < bits && n != 0 then
              && Odd(n) && b + (if n > 0 then (n - 1) / 2 else (-n - 1) / 2) < |pre|
              && TableGet(g, pre, b, n) == Times(g, n, x)
            else n == 0
  {
    hide Abelian, Times, Weighted, TableSize, OddTable;
    if i < bits && row[i] != 0 {
      TableGetIsMultiple(g, pre, b, w, row[i], x);
    }
  }

  lemma PointReady<G(!new)>(g: Group<G>, ps: seq<StraussPoint>, pre: seq<G>, cs: seq<int>, cp: seq<G>, bits: nat,
                            rowG: seq<int>, bitsG: nat, sg: int, preG: seq<G>, base: G, np: nat)
    requires Ready(g, ps, pre, cs, cp, bits, rowG, bitsG, sg, preG, base) && np < |ps|
    ensures |cs| == |cp| == |ps| && Row(ps[np].wnaf, WINDOW_A, ps[np].bits, cs[np]) && Tables(g, pre, |ps|, cp)
  {
    hide Row, OddTable, TableSize;
  }

  lemma PointTable<G(!new)>(g: Group<G>, pre: seq<G>, no: nat, cp: seq<G>, np: nat)
    requires Tables(g, pre, no, cp) && np < no
    ensures OddTable(g, pre, np * TableSize(WINDOW_A), TableSize(WINDOW_A), cp[np])
  {
    hide OddTable, TableSize;
  }

  method AddPoint<G(!new)>(g: Group<G>, ps: seq<StraussPoint>, pre: array<G>, np: nat, i: nat, r: G,
                           ghost bits: nat, ghost rowG: seq<int>, ghost bitsG: nat, ghost preG: seq<G>, ghost base: G,
                           ghost cs: seq<int>, ghost cp: seq<G>, ghost sg: int)
      returns (r': G)
    requires Abelian(g) && Ready(g, ps, pre[..], cs, cp, bits, rowG, bitsG, sg, preG, base)
    requires DigitRows(Rows(ps, rowG)) && |cp| == |ps| && np < |ps| && i < LEN
    requires r == Combine(g, StepCoefs(Rows(ps, rowG), i, np), cp + [base])
    ensures r' == Combine(g, StepCoefs(Rows(ps, rowG), i, np + 1), cp + [base])
  {
    hide Abelian, Combine, Times, Ready, StepCoefs, RowCoefs, Row, TableGet, TableSize;
    AddStep(g, Rows(ps, rowG), i, np, cp + [base]);
    PointReady(g, ps, pre[..], cs, cp, bits, rowG, bitsG, sg, preG, base, np);
    PointTable(g, pre[..], |ps|, cp, np);
    RowBits(ps[np].wnaf, WINDOW_A, ps[np].bits, cs[np]);
    RowDigit(g, ps[np].wnaf, WINDOW_A, ps[np].bits, cs[np], pre[..], np * TableSize(WINDOW_A), cp[np], i);
    assert Rows(ps, rowG)[np] == ps[np].wnaf && (cp + [base])[np] == cp[np];
    var n := ps[np].wnaf[i];
    r' := r;
    if i < ps[np].bits && n != 0 {
      r' := g.add(r, TableGet(g, pre[..], np * TableSize(WINDOW_A), n));
    }
  }

  method AddGenerator<G(!new)>(g: Group<G>, rowG: seq<int>, bitsG: nat, preG: seq<G>, base: G, i: nat, r: G,
                               ghost ps: seq<StraussPoint>, ghost cp: seq<G>, ghost sg: int)
      returns (r': G)
    requires Abelian(g) && Row(rowG, WINDOW_G, bitsG, sg) && OddTable(g, preG, 0, TableSize(WINDOW_G), base)
    requires DigitRows(Rows(ps, rowG)) && |cp| == |ps| && |rowG| == LEN && i < LEN
    requires r == Combine(g, StepCoefs(Rows(ps, rowG), i, |ps|), cp + [base])
    ensures r' == Combine(g, RowCoefs(Rows(ps, rowG), i), cp + [base])
  {
    hide Abelian, Combine, Times, StepCoefs, RowCoefs, Row, OddTable, TableGet, TableSize;
    AddStep(g, Rows(ps, rowG), i, |ps|, cp + [base]);
    StepDone(Rows(ps, rowG), i);
    RowDigit(g, rowG, WINDOW_G, bitsG, sg, preG, 0, base, i);
    assert (cp + [base])[|ps|] == base;
    var n := rowG[i];
    r' := r;
    if i < bitsG && n != 0 {
      r' := g.add(r, TableGet(g, preG, 0, n));
    }
  }

  /** The doubling loop. */
  method DoubleAndAdd<G(!new)>(g: Group<G>, ps: seq<StraussPoint>, pre: array<G>, bits: nat,
                               rowG: seq<int>, bitsG: nat, preG: seq<G>, base: G,
                               ghost cs: seq<int>, ghost cp: seq<G>, ghost sg: int)
      returns (r: G)
    requires Abelian(g) && Ready(g, ps, pre[..], cs, cp, bits, rowG, bitsG, sg, preG, base)
    ensures |cs| == |cp| && r == Combine(g, cs + [sg], cp + [base])
  {
    hide Abelian, Combine, Times, Ready, StepCoefs, RowCoefs, Row, OddTable, TableGet, TableSize, Rows, DigitRows;
    RowLengths(g, ps, pre[..], cs, cp, bits, rowG, bitsG, sg, preG, base);
    RowsReady(g, ps, pre[..], cs, cp, bits, rowG, bitsG, sg, preG, base);
    ghost var rows, pts := Rows(ps, rowG), cp + [base];
    r := g.zero;
    CombineNone(g, pts);
    for i := bits downto 0
      invariant r == Combine(g, RowCoefs(rows, i), pts)
    {
      DoubleStep(g, rows, i, pts);
      r := g.add(r, r);
      for np := 0 to |ps|
        invariant r == Combine(g, StepCoefs(rows, i, np), pts)
      {
        r := AddPoint(g, ps, pre, np, i, r, bits, rowG, bitsG, preG, base, cs, cp, sg);
      }
      r := AddGenerator(g, rowG, bitsG, preG, base, i, r, ps, cp, sg);
    }
  }

  lemma RowLengths<G(!new)>(g: Group<G>, ps: seq<StraussPoint>, pre: seq<G>, cs: seq<int>, cp: seq<G>, bits: nat,
                            rowG: seq<int>, bitsG: nat, sg: int, preG: seq<G>, base: G)
    requires Ready(g, ps, pre, cs, cp, bits, rowG, bitsG, sg, preG, base)
    ensures bits <= LEN && |cs| == |cp| == |ps| && |rowG| == LEN
    ensures Row(rowG, WINDOW_G, bitsG, sg) && OddTable(g, preG, 0, TableSize(WINDOW_G), base)
  {
  }

  /** A missing generator scalar counts as zero. */
  function GeneratorScalar(ng: Option<Reduced>): Reduced {
    if ng.Some? then ng.value else 0
  }

  method GeneratorDigits(ng: Option<Reduced>) returns (row: seq<int>, bits: nat)
    ensures Row(row, WINDOW_G, bits, Centered(GeneratorScalar(ng)))
  {
    if ng.Some? {
      row, bits := Digits(ng.value, WINDOW_G);
    } else {
      row, bits := seq(LEN, _ => 0), 0;
      WeightedZeros(row, 0, 1, 0, LEN);
    }
  }

  lemma MakeReady<G(!new)>(g: Group<G>, ps: seq<StraussPoint>, pre: seq<G>, a: seq<G>, cs: seq<int>, cp: seq<G>, b: nat, bits: nat,
                           rowG: seq<int>, bitsG: nat, sg: int, preG: seq<G>, base: G)
    requires Points(ps, a, b, cs, cp) && Tables(g, pre, |ps|, cp) && b <= bits <= LEN && bitsG <= bits
    requires Row(rowG, WINDOW_G, bitsG, sg) && OddTable(g, preG, 0, TableSize(WINDOW_G), base)
    ensures Ready(g, ps, pre, cs, cp, bits, rowG, bitsG, sg, preG, base)
  {
    hide Row, OddTable;
  }

  lemma WithGenerator<G(!new)>(g: Group<G>, cs: seq<int>, cp: seq<G>, s: Reduced, base: G)
    requires Abelian(g) && HasOrder(g) && |cs| == |cp|
    ensures Combine(g, cs + [Centered(s)], cp + [base]) == g.add(Combine(g, cs, cp), Times(g, s, base))
  {
    hide Abelian, HasOrder, Times;
    CenteredMultiple(g, s, base);
    assert (cs + [Centered(s)])[..|cs|] == cs && (cp + [base])[..|cp|] == cp;
  }

  /** `sum(na[i] * a[i]) + ng * G`, for any number of points, zero scalars and points at infinity included. */
  method StraussWnaf<G(!new,==)>(g: Group<G>, preG: seq<G>, base: G, pre: array<G>,
                                 a: seq<G>, na: seq<Reduced>, ng: Option<Reduced>)
      returns (r: G)
    requires Abelian(g) && HasOrder(g) && |na| == |a|
    requires OddTable(g, preG, 0, TableSize(WINDOW_G), base)
    requires pre.Length >= |a| * TableSize(WINDOW_A)
    modifies pre
    ensures r == g.add(Combine(g, na, a), Times(g, GeneratorScalar(ng), base))
  {
    hide Abelian, HasOrder, Combine, Times, Row, OddTable, Ready, TableSize;
    var ps, b, cs, cp := RecodePoints(g, a, na);
    FewerPoints(|ps|, |a|);
    BuildTables(g, pre, ps, a, b, cs, cp);
    var rowG, bitsG := GeneratorDigits(ng);
    RowBits(rowG, WINDOW_G, bitsG, Centered(GeneratorScalar(ng)));
    var bits := if bitsG > b then bitsG else b;
    MakeReady(g, ps, pre[..], a, cs, cp, b, bits, rowG, bitsG, Centered(GeneratorScalar(ng)), preG, base);
    r := DoubleAndAdd(g, ps, pre, bits, rowG, bitsG, preG, base, cs, cp, Centered(GeneratorScalar(ng)));
    WithGenerator(g, cs, cp, GeneratorScalar(ng), base);
  }

  lemma FewerPoints(no: nat, num: nat)
    requires no <= num
    ensures no * TableSize(WINDOW_A) <= num * TableSize(WINDOW_A)
  {
  }

  /** `na * a + ng * G`. */
  method Ecmult<G(!new,==)>(g: Group<G>, preG: seq<G>, base: G, a: G, na: Reduced, ng: Option<Reduced>) returns (r: G)
    requires Abelian(g) && HasOrder(g)
    requires OddTable(g, preG, 0, TableSize(WINDOW_G), base)
    ensures r == g.add(Times(g, na, a), Times(g, GeneratorScalar(ng), base))
  {
    hide Abelian, HasOrder, OddTable, Times;
    var pre := new G[TableSize(WINDOW_A)](_ => g.zero);
    r := StraussWnaf(g, preG, base, pre, [a], [na], ng);
    Zero(g, Times(g, na, a));
    assert Combine(g, [na][..0], [a][..0]) == g.zero;
  }
}
