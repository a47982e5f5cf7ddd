/** Multiplication of the generator from a comb table, with blinding. */
module EcmultGen {
  import opened Words
  import opened Group
  import opened WnafFixed
  import V = WnafVar
  import S = Strauss

  const ORDER: int := V.ORDER

  /** `k * G + o * nums`: every point met here. */
  function Mix<G>(g: Group<G>, k: int, o: int, base: G, nums: G): G {
    g.add(Times(g, k, base), Times(g, o, nums))
  }

  lemma MixAdd<G(!new)>(g: Group<G>, k: int, o: int, k': int, o': int, base: G, nums: G)
    requires Abelian(g)
    ensures g.add(Mix(g, k, o, base, nums), Mix(g, k', o', base, nums)) == Mix(g, k + k', o + o', base, nums)
  {
    hide Abelian, Times;
    Swap(g, Times(g, k, base), Times(g, o, nums), Times(g, k', base), Times(g, o', nums));
    TimesAdd(g, k, k', base);
    TimesAdd(g, o, o', nums);
  }

  lemma MixBase<G(!new)>(g: Group<G>, k: int, base: G, nums: G)
    requires Abelian(g)
    ensures Mix(g, k, 0, base, nums) == Times(g, k, base)
  {
    hide Abelian;
    Zero(g, Times(g, k, base));
  }

  lemma MixNums<G(!new)>(g: Group<G>, o: int, base: G, nums: G)
    requires Abelian(g)
    ensures Mix(g, 0, o, base, nums) == Times(g, o, nums)
  {
    hide Abelian;
    Zero(g, Times(g, o, nums));
  }

  /** The offset of row `j`, in units of `nums`. */
  function Offset(j: nat): int {
    if j < 63 then Pow2(j) else 1 - Pow2(63)
  }

  /** The offsets of the first `j` rows together; all 64 cancel. */
  function Offsets(j: nat): int
    requires j <= 64
  {
    if j < 64 then Pow2(j) - 1 else 0
  }

  lemma OffsetsAdd(j: nat)
    requires j < 64
    ensures Offsets(j + 1) == Offsets(j) + Offset(j)
  {
    assert Pow2(j + 1) == 2 * Pow2(j);
  }

  /** Entry `i` of row `j`. */
  function Entry<G>(g: Group<G>, j: nat, i: nat, base: G, nums: G): G {
    Mix(g, i * Pow2(4 * j), Offset(j), base, nums)
  }

  ghost predicate Table<G>(g: Group<G>, prec: seq<G>, rows: nat, base: G, nums: G) {
    && rows * 16 <= |prec|
    && forall j, i :: 0 <= j < rows && 0 <= i < 16 ==> prec[j * 16 + i] == Entry(g, j, i, base, nums)
  }

  lemma TimesDouble<G(!new)>(g: Group<G>, k: int, x: G)
    requires Abelian(g)
    ensures g.add(Times(g, k, x), Times(g, k, x)) == Times(g, 2 * k, x)
  {
    hide Abelian, Times;
    TimesAdd(g, k, k, x);
  }

  lemma EntryZero<G(!new)>(g: Group<G>, j: nat, base: G, nums: G)
    requires Abelian(g)
    ensures Entry(g, j, 0, base, nums) == Times(g, Offset(j), nums)
  {
    hide Abelian, Times, Offset;
    MixNums(g, Offset(j), base, nums);
    assert 0 * Pow2(4 * j) == 0;
  }

  lemma EntryNext<G(!new)>(g: Group<G>, j: nat, i: nat, base: G, nums: G)
    requires Abelian(g)
    ensures Entry(g, j, i + 1, base, nums) == g.add(Entry(g, j, i, base, nums), Times(g, Pow2(4 * j), base))
  {
    hide Abelian, Times, Offset, Mix;
    MixBase(g, Pow2(4 * j), base, nums);
    MixAdd(g, i * Pow2(4 * j), Offset(j), Pow2(4 * j), 0, base, nums);
    assert (i + 1) * Pow2(4 * j) == i * Pow2(4 * j) + Pow2(4 * j);
  }

  lemma NextOffset(j: nat)
    ensures j < 62 ==> Offset(j + 1) == 2 * Offset(j)
    ensures j == 62 ==> Offset(j + 1) == 1 - 2 * Offset(j)
  {
    assert Pow2(j + 1) == 2 * Pow2(j);
  }

  /** Row `j`: the offset, and one more of the row's base for each entry. */
  method FillRow<G(!new)>(g: Group<G>, prec: array<G>, j: nat, gbase: G, numsbase: G, ghost base: G, ghost nums: G)
    requires Abelian(g) && j < 64 && prec.Length == 1024 && Table(g, prec[..], j, base, nums)
    requires gbase == Times(g, Pow2(4 * j), base) && numsbase == Times(g, Offset(j), nums)
    modifies prec
    ensures Table(g, prec[..], j + 1, base, nums)
  {
    hide Abelian, Times, Offset, Entry, Pow2;
    ghost var before := prec[..];
    EntryZero(g, j, base, nums);
    prec[j * 16] := numsbase;
    for i := 1 to 16
      invariant forall k :: 0 <= k < j * 16 ==> prec[k] == before[k]
      invariant forall k :: 0 <= k < i ==> prec[j * 16 + k] == Entry(g, j, k, base, nums)
    {
      EntryNext(g, j, i - 1, base, nums);
      prec[j * 16 + i] := g.add(prec[j * 16 + i - 1], gbase);
    }
    forall l, k | 0 <= l < j && 0 <= k < 16
      ensures prec[l * 16 + k] == Entry(g, l, k, base, nums)
    {
      assert before[l * 16 + k] == Entry(g, l, k, base, nums);
    }
  }

  method BuildTable<G(!new)>(g: Group<G>, base: G, nums: G) returns (prec: array<G>)
    requires Abelian(g)
    ensures fresh(prec) && prec.Length == 1024 && Table(g, prec[..], 64, base, nums)
  {
    hide Abelian, Times, Offset, Entry, Pow2;
    TimesOne(g, base);
    TimesOne(g, nums);
    FirstRow();
    prec := new G[1024](_ => g.zero);
    var gbase, numsbase := base, nums;
    for j := 0 to 64
      invariant Table(g, prec[..], j, base, nums)
      invariant gbase == Times(g, Pow2(4 * j), base)
      invariant j < 64 ==> numsbase == Times(g, Offset(j), nums)
    {
      FillRow(g, prec, j, gbase, numsbase, base, nums);
      for i := 0 to 4
        invariant gbase == Times(g, Pow2(4 * j + i), base)
        invariant Table(g, prec[..], j + 1, base, nums)
      {
        TimesDouble(g, Pow2(4 * j + i), base);
        Pow2Add(1, 4 * j + i);
        assert Pow2(1) == 2 by { PowOne(); }
        gbase := g.add(gbase, gbase);
      }
      assert 4 * j + 4 == 4 * (j + 1);
      TimesDouble(g, Offset(j), nums);
      NextOffset(j);
      numsbase := g.add(numsbase, numsbase);
      if j == 62 {
        TimesNeg(g, 2 * Offset(j), nums);
        TimesAdd(g, -2 * Offset(j), 1, nums);
        numsbase := g.neg(numsbase);
        numsbase := g.add(numsbase, nums);
      }
    }
  }

  lemma FirstRow()
    ensures Pow2(4 * 0) == 1 && Offset(0) == 1
  {
  }

  lemma PowOne()
    ensures Pow2(1) == 2
  {
  }

  lemma AddNibble<G(!new)>(g: Group<G>, blind: int, s: nat, j: nat, base: G, nums: G)
    requires Abelian(g) && j < 64
    ensures g.add(Mix(g, Low(s, 4 * j) - blind, Offsets(j), base, nums), Entry(g, j, GetBits(s, j * 4, 4), base, nums))
         == Mix(g, Low(s, 4 * (j + 1)) - blind, Offsets(j + 1), base, nums)
  {
    hide Abelian, Mix, Offset, Offsets, Low, GetBits;
    WindowStep(s, 4, j);
    OffsetsAdd(j);
    MixAdd(g, Low(s, 4 * j) - blind, Offsets(j), GetBits(s, 4 * j, 4) * Pow2(4 * j), Offset(j), base, nums);
  }

  /** What the 64 additions come to: the blinding value is taken off again and the offsets are gone. */
  lemma Unblinded<G(!new)>(g: Group<G>, a: V.Reduced, blind: V.Reduced, base: G, nums: G)
    requires Abelian(g) && S.HasOrder(g)
    ensures Mix(g, Low((a + blind) % ORDER, 256) - blind, Offsets(64), base, nums) == Times(g, a, base)
  {
    hide Abelian, S.HasOrder, Times, Mix, Low;
    var s := (a + blind) % ORDER;
    LowOfScalar(s);
    AddMod(a, blind);
    MixBase(g, s - blind, base, nums);
    S.TimesModOrder(g, a, base);
  }

  lemma LowOfScalar(s: V.Reduced)
    ensures Low(s, 256) == s
  {
    Pow256();
    DivModUnique(s, Pow2(256), 0, s);
  }

  lemma AddMod(a: V.Reduced, b: V.Reduced)
    ensures (a + b) % ORDER == if a + b < ORDER then a + b else a + b - ORDER
  {
  }

  class Context<G(!new)> {
    const g: Group<G>
    const base: G
    const nums: G
    var prec: array?<G>
    var initial: G
    var blind: V.Reduced

    ghost predicate Built()
      reads this, prec
    {
      && prec != null && prec.Length == 1024
      && Table(g, prec[..], 64, base, nums)
    }

    /** The table is there and the initial point undoes the blinding value. */
    ghost predicate Valid()
      reads this, prec
    {
      Built() && initial == Times(g, -(blind as int), base)
    }

    /** `ecmult_gen_context_init`. */
    constructor (g: Group<G>, base: G, nums: G)
      ensures this.g == g && this.base == base && this.nums == nums && prec == null
    {
      this.g, this.base, this.nums := g, base, nums;
      prec, initial, blind := null, g.zero, 0;
    }

    /** `a * G`, whatever blinding value is in force. */
    method Gen(a: V.Reduced) returns (r: G)
      requires Valid() && Abelian(g) && S.HasOrder(g)
      ensures r == Times(g, a, base)
    {
      r := GenFrom(g, prec, initial, blind, a, base, nums);
    }

    /** Set up blinding with the value the generator of random bits gave; `reset` is a null seed. */
    method Blind(reset: bool, b: V.Reduced)
      requires Built() && (reset || Valid()) && Abelian(g) && S.HasOrder(g) && b != 0
      modifies this
      ensures Valid() && prec == old(prec) && blind == V.Negate(b)
    {
      hide Abelian, S.HasOrder, Times, Table;
      if reset {
        TimesOne(g, base);
        initial := g.neg(base);
        blind := 1;
      }
      var gb := Gen(b);
      NegatedBlind(g, b, base);
      blind := V.Negate(b);
      initial := gb;
    }

    /** Build the table once and blind with the default seed. */
    method Build(b: V.Reduced)
      requires Abelian(g) && S.HasOrder(g) && b != 0
      requires prec != null ==> Valid()
      modifies this
      ensures Valid()
      ensures old(prec) != null ==> prec == old(prec) && initial == old(initial) && blind == old(blind)
    {
      if prec != null {
        return;
      }
      var table := BuildTable(g, base, nums);
      prec := table;
      Blind(true, b);
    }
  }

  lemma NegatedBlind<G(!new)>(g: Group<G>, b: V.Reduced, base: G)
    requires Abelian(g) && S.HasOrder(g)
    ensures Times(g, b, base) == Times(g, -(V.Negate(b) as int), base)
  {
    hide Abelian, S.HasOrder, Times;
    S.TimesModOrder(g, b, base);
  }

  method GenFrom<G(!new)>(g: Group<G>, prec: array<G>, initial: G, blind: V.Reduced, a: V.Reduced,
                          ghost base: G, ghost nums: G) returns (r: G)
    requires Abelian(g) && S.HasOrder(g) && prec.Length == 1024 && Table(g, prec[..], 64, base, nums)
    requires initial == Times(g, -(blind as int), base)
    ensures r == Times(g, a, base)
  {
    hide Abelian, S.HasOrder, Times, Mix, Entry, Offset, Offsets, Low, GetBits, Pow2;
    StartMix(g, (a + blind) % ORDER, blind, base, nums);
    r := initial;
    var gnb: V.Reduced := (a + blind) % ORDER;
    for j := 0 to 64
      invariant r == Mix(g, Low(gnb, 4 * j) - blind, Offsets(j), base, nums)
    {
      var bits := GetBits(gnb, j * 4, 4);
      Nibble(gnb, j);
      var adds := g.zero;
      for i := 0 to 16
        invariant i > bits ==> adds == prec[j * 16 + bits]
      {
        adds := if i == bits then prec[j * 16 + i] else adds;
      }
      AddNibble(g, blind, gnb, j, base, nums);
      r := g.add(r, adds);
    }
    Unblinded(g, a, blind, base, nums);
  }

  lemma Nibble(s: nat, j: nat)
    ensures GetBits(s, j * 4, 4) < 16
  {
    assert Pow2(4) == 16;
  }

  lemma StartMix<G(!new)>(g: Group<G>, s: nat, blind: int, base: G, nums: G)
    requires Abelian(g)
    ensures Mix(g, Low(s, 4 * 0) - blind, Offsets(0), base, nums) == Times(g, -blind, base)
  {
    hide Abelian, Times;
    assert Pow2(0) == 1;
    MixBase(g, -blind, base, nums);
  }
}
