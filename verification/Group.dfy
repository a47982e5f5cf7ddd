/** Abelian groups, multiples of their elements, and linear combinations of a fixed list of points.

    Points of the curve are elements of any abelian group: projective coordinates and the formulas that
    add them are not modelled. */
module Group {
  datatype Group<!G> = Group(zero: G, add: (G, G) -> G, neg: G -> G)

  ghost predicate Abelian<G(!new)>(g: Group<G>) {
    && (forall x, y, z :: g.add(g.add(x, y), z) == g.add(x, g.add(y, z)))
    && (forall x, y :: g.add(x, y) == g.add(y, x))
    && (forall x :: g.add(x, g.zero) == x)
    && (forall x :: g.add(x, g.neg(x)) == g.zero)
  }

  lemma Assoc<G(!new)>(g: Group<G>, x: G, y: G, z: G)
    requires Abelian(g)
    ensures g.add(g.add(x, y), z) == g.add(x, g.add(y, z))
  {
  }

  lemma Comm<G(!new)>(g: Group<G>, x: G, y: G)
    requires Abelian(g)
    ensures g.add(x, y) == g.add(y, x)
  {
  }

  lemma Zero<G(!new)>(g: Group<G>, x: G)
    requires Abelian(g)
    ensures g.add(x, g.zero) == x == g.add(g.zero, x)
  {
  }

  lemma Inverse<G(!new)>(g: Group<G>, x: G)
    requires Abelian(g)
    ensures g.add(x, g.neg(x)) == g.zero == g.add(g.neg(x), x)
  {
  }

  /** Sums of two pairs, added crosswise. */
  lemma Swap<G(!new)>(g: Group<G>, a: G, b: G, c: G, d: G)
    requires Abelian(g)
    ensures g.add(g.add(a, b), g.add(c, d)) == g.add(g.add(a, c), g.add(b, d))
  {
    hide Abelian;
    Assoc(g, a, b, g.add(c, d));
    Assoc(g, b, c, d);
    Comm(g, b, c);
    Assoc(g, c, b, d);
    Assoc(g, a, c, g.add(b, d));
  }

  lemma Cancel<G(!new)>(g: Group<G>, x: G, y: G, z: G)
    requires Abelian(g) && g.add(x, y) == g.add(x, z)
    ensures y == z
  {
    hide Abelian;
    Assoc(g, g.neg(x), x, y);
    Assoc(g, g.neg(x), x, z);
    Inverse(g, x);
    Zero(g, y);
    Zero(g, z);
  }

  // --- multiples ---

  function Times<G>(g: Group<G>, k: int, x: G): G
    decreases if k < 0 then -k else k
  {
    if k == 0 then g.zero
    else if k > 0 then g.add(Times(g, k - 1, x), x)
    else g.add(Times(g, k + 1, x), g.neg(x))
  }

  lemma TimesSucc<G(!new)>(g: Group<G>, k: int, x: G)
    requires Abelian(g)
    ensures Times(g, k + 1, x) == g.add(Times(g, k, x), x)
  {
    hide Abelian;
    if k < 0 {
      Assoc(g, Times(g, k + 1, x), g.neg(x), x);
      Inverse(g, x);
      Zero(g, Times(g, k + 1, x));
    }
  }

  lemma {:induction false} TimesAdd<G(!new)>(g: Group<G>, k: int, l: int, x: G)
    requires Abelian(g)
    ensures Times(g, k + l, x) == g.add(Times(g, k, x), Times(g, l, x))
    decreases if l < 0 then -l else l
  {
    hide Abelian;
    if l == 0 {
      Zero(g, Times(g, k, x));
    } else if l > 0 {
      TimesAdd(g, k, l - 1, x);
      TimesSucc(g, k + l - 1, x);
      Assoc(g, Times(g, k, x), Times(g, l - 1, x), x);
    } else {
      TimesAdd(g, k, l + 1, x);
      TimesSucc(g, k + l, x);
      Assoc(g, Times(g, k, x), Times(g, l + 1, x), g.neg(x));
      Assoc(g, Times(g, k + l, x), x, g.neg(x));
      Inverse(g, x);
      Zero(g, Times(g, k + l, x));
    }
  }

  lemma TimesOne<G(!new)>(g: Group<G>, x: G)
    requires Abelian(g)
    ensures Times(g, 1, x) == x && Times(g, -1, x) == g.neg(x)
  {
    hide Abelian;
    Zero(g, x);
    Zero(g, g.neg(x));
    assert Times(g, 0, x) == g.zero;
  }

  lemma TimesNeg<G(!new)>(g: Group<G>, k: int, x: G)
    requires Abelian(g)
    ensures Times(g, -k, x) == g.neg(Times(g, k, x))
  {
    hide Abelian;
    TimesAdd(g, k, -k, x);
    Inverse(g, Times(g, k, x));
    Cancel(g, Times(g, k, x), Times(g, -k, x), g.neg(Times(g, k, x)));
  }

  lemma {:induction false} TimesTimes<G(!new)>(g: Group<G>, k: int, l: int, x: G)
    requires Abelian(g)
    ensures Times(g, k, Times(g, l, x)) == Times(g, k * l, x)
    decreases if k < 0 then -k else k
  {
    hide Abelian;
    if k > 0 {
      TimesTimes(g, k - 1, l, x);
      TimesAdd(g, (k - 1) * l, l, x);
      assert (k - 1) * l + l == k * l;
    } else if k < 0 {
      TimesTimes(g, k + 1, l, x);
      TimesAdd(g, (k + 1) * l, -l, x);
      TimesNeg(g, l, x);
      assert (k + 1) * l + -l == k * l;
    }
  }

  lemma {:induction false} TimesZeroPoint<G(!new)>(g: Group<G>, k: int)
    requires Abelian(g)
    ensures Times(g, k, g.zero) == g.zero
    decreases if k < 0 then -k else k
  {
    hide Abelian;
    if k > 0 {
      TimesZeroPoint(g, k - 1);
      Zero(g, g.zero);
    } else if k < 0 {
      TimesZeroPoint(g, k + 1);
      Inverse(g, g.zero);
    }
  }

  // --- linear combinations ---

  /** `sum(c[i] * pts[i])`. */
  function Combine<G>(g: Group<G>, c: seq<int>, pts: seq<G>): G
    requires |c| == |pts|
  {
    var n := |c|;
    if n == 0 then g.zero else g.add(Combine(g, c[..n - 1], pts[..n - 1]), Times(g, c[n - 1], pts[n - 1]))
  }

  function Plus(c: seq<int>, d: seq<int>): (e: seq<int>)
    requires |c| == |d|
    ensures |e| == |c| && forall i :: 0 <= i < |e| ==> e[i] == c[i] + d[i]
  {
    seq(|c|, i requires 0 <= i < |c| => c[i] + d[i])
  }

  function Nothing(n: nat): (c: seq<int>)
    ensures |c| == n && forall i :: 0 <= i < n ==> c[i] == 0
  {
    seq(n, _ => 0)
  }

  function Only(n: nat, i: nat, k: int): (c: seq<int>)
    requires i < n
    ensures |c| == n && c[i] == k && forall j :: 0 <= j < n && j != i ==> c[j] == 0
  {
    seq(n, j => if j == i then k else 0)
  }

  lemma {:induction false} CombinePlus<G(!new)>(g: Group<G>, c: seq<int>, d: seq<int>, pts: seq<G>)
    requires Abelian(g) && |c| == |d| == |pts|
    ensures Combine(g, Plus(c, d), pts) == g.add(Combine(g, c, pts), Combine(g, d, pts))
    decreases |c|
  {
    hide Abelian;
    var n := |c|;
    if n == 0 {
      Zero(g, g.zero);
    } else {
      CombinePlus(g, c[..n - 1], d[..n - 1], pts[..n - 1]);
      assert Plus(c, d)[..n - 1] == Plus(c[..n - 1], d[..n - 1]);
      TimesAdd(g, c[n - 1], d[n - 1], pts[n - 1]);
      Swap(g, Combine(g, c[..n - 1], pts[..n - 1]), Combine(g, d[..n - 1], pts[..n - 1]),
           Times(g, c[n - 1], pts[n - 1]), Times(g, d[n - 1], pts[n - 1]));
    }
  }

  lemma {:induction false} CombineNone<G(!new)>(g: Group<G>, pts: seq<G>)
    requires Abelian(g)
    ensures Combine(g, Nothing(|pts|), pts) == g.zero
    decreases |pts|
  {
    hide Abelian;
    var n := |pts|;
    if n > 0 {
      CombineNone(g, pts[..n - 1]);
      assert Nothing(n)[..n - 1] == Nothing(n - 1);
      Zero(g, g.zero);
    }
  }

  lemma {:induction false} CombineOnly<G(!new)>(g: Group<G>, pts: seq<G>, i: nat, k: int)
    requires Abelian(g) && i < |pts|
    ensures Combine(g, Only(|pts|, i, k), pts) == Times(g, k, pts[i])
    decreases |pts|
  {
    hide Abelian;
    var n := |pts|;
    var c := Only(n, i, k);
    if i == n - 1 {
      CombineNone(g, pts[..n - 1]);
      assert c[..n - 1] == Nothing(n - 1);
      Zero(g, Times(g, k, pts[i]));
    } else {
      CombineOnly(g, pts[..n - 1], i, k);
      assert c[..n - 1] == Only(n - 1, i, k);
      Zero(g, Times(g, k, pts[i]));
    }
  }
}
