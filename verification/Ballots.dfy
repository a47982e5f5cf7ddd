/** Votes, certified blocks and the safety argument over a set of ballots.

    Everything here speaks of the signatures that exist, not of any replica's memory. */
module Ballots {
  import opened BlockTree
  import opened CoreSpec

  /** A signature of `voter` on `blk`. */
  datatype Ballot = Ballot(voter: ReplicaId, blk: Blk)

  datatype Config = Config(n: nat, faulty: set<ReplicaId>) {
    predicate Valid() {
      n > 0 && (forall r <- faulty :: r < n) && |faulty| <= (n - 1) / 3
    }

    predicate Honest(r: ReplicaId) {
      r < n && r !in faulty
    }
  }

  function Voters(cfg: Config, V: set<Ballot>, b: Blk): set<ReplicaId> {
    set r: nat | r < cfg.n && Ballot(r, b) in V
  }

  predicate Certified(cfg: Config, V: set<Ballot>, b: Blk)
    requires cfg.Valid()
  {
    b.Genesis? || |Voters(cfg, V, b)| >= Majority(cfg.n)
  }

  // --- quorums ---

  lemma {:induction false} RangeCardinality(n: nat)
    ensures |AllReplicas(n)| == n
  {
    if n > 0 {
      RangeCardinality(n - 1);
    }
  }

  lemma SubsetCardinality<T>(a: set<T>, b: set<T>)
    requires a <= b
    ensures |a| <= |b|
  {
    assert b == a + (b - a);
  }

  /** Two quorums share an honest replica. */
  lemma QuorumsMeet(cfg: Config, Q1: set<ReplicaId>, Q2: set<ReplicaId>) returns (r: ReplicaId)
    requires cfg.Valid()
    requires Q1 <= AllReplicas(cfg.n) && Q2 <= AllReplicas(cfg.n)
    requires |Q1| >= Majority(cfg.n) && |Q2| >= Majority(cfg.n)
    ensures r in Q1 && r in Q2 && cfg.Honest(r)
  {
    RangeCardinality(cfg.n);
    SubsetCardinality(Q1 + Q2, AllReplicas(cfg.n));
    assert |Q1 + Q2| + |Q1 * Q2| == |Q1| + |Q2|;
    if Q1 * Q2 <= cfg.faulty {
      SubsetCardinality(Q1 * Q2, cfg.faulty);
      assert false;
    }
    r :| r in Q1 * Q2 && r !in cfg.faulty;
  }

  // --- what honest ballots obey ---

  /** The height a replica is locked at once it has processed `v`. */
  function LockFloor(v: Blk): nat {
    if HasQcRef(v) && HasQcRef(QcRef(v)) then Height(QcRef(QcRef(v))) else 0
  }

  /** A certified block at height `h` or above lies strictly below `w` on `w`'s branch. */
  ghost predicate SafeBelow(cfg: Config, V: set<Ballot>, w: Blk, h: nat)
    requires cfg.Valid()
  {
    exists l :: IsAncestor(l, w) && l != w && Certified(cfg, V, l) && Height(l) >= h
  }

  /** The certificate a block carries is for a certified block strictly below it on its branch. */
  predicate Justified(cfg: Config, V: set<Ballot>, b: Blk)
    requires cfg.Valid()
  {
    && HasParent(b)
    && (HasQcRef(b) ==> IsAncestor(QcRef(b), Parent(b)) && Certified(cfg, V, QcRef(b)))
  }

  ghost predicate OncePerHeight(cfg: Config, V: set<Ballot>) {
    forall r, v, w :: cfg.Honest(r) && Ballot(r, v) in V && Ballot(r, w) in V && Height(v) == Height(w) ==> v == w
  }

  ghost predicate BallotsJustified(cfg: Config, V: set<Ballot>)
    requires cfg.Valid()
  {
    forall r, v :: cfg.Honest(r) && Ballot(r, v) in V ==> Justified(cfg, V, v)
  }

  /** A replica that voted for `v` and later for the higher `w` found a certified block below `w`
      at or above the height it was locked at, unless `w` already was certified. */
  ghost predicate LockRespected(cfg: Config, V: set<Ballot>)
    requires cfg.Valid()
  {
    forall r, v, w ::
      cfg.Honest(r) && Ballot(r, v) in V && Ballot(r, w) in V && Height(v) < Height(w) ==>
        Certified(cfg, V, w) || SafeBelow(cfg, V, w, LockFloor(v))
  }

  /** `Q` is the quorum that certified `x`, all of whose honest members respected their locks. */
  ghost predicate FirstQuorum(cfg: Config, V: set<Ballot>, x: Blk, Q: set<ReplicaId>)
    requires cfg.Valid()
  {
    && Q <= Voters(cfg, V, x)
    && |Q| >= Majority(cfg.n)
    && forall r, v :: r in Q && cfg.Honest(r) && Ballot(r, v) in V && Height(v) < Height(x) ==>
                        SafeBelow(cfg, V, x, LockFloor(v))
  }

  ghost predicate HaveFirstQuorums(cfg: Config, V: set<Ballot>)
    requires cfg.Valid()
  {
    forall x :: Certified(cfg, V, x) && !x.Genesis? ==> exists Q :: FirstQuorum(cfg, V, x, Q)
  }

  ghost predicate BallotInv(cfg: Config, V: set<Ballot>) {
    && cfg.Valid()
    && OncePerHeight(cfg, V)
    && BallotsJustified(cfg, V)
    && LockRespected(cfg, V)
    && HaveFirstQuorums(cfg, V)
  }

  // --- the safety theorem over ballots ---

  lemma VotersInRange(cfg: Config, V: set<Ballot>, b: Blk)
    ensures Voters(cfg, V, b) <= AllReplicas(cfg.n)
  {
  }

  /** An honest replica voted for every certified block but the genesis, so the block is justified. */
  lemma CertifiedIsJustified(cfg: Config, V: set<Ballot>, b: Blk)
    requires BallotInv(cfg, V) && Certified(cfg, V, b) && !b.Genesis?
    ensures Justified(cfg, V, b)
  {
    VotersInRange(cfg, V, b);
    var r := QuorumsMeet(cfg, Voters(cfg, V, b), Voters(cfg, V, b));
    assert Ballot(r, b) in V;
  }

  /** At most one block is certified at each height. */
  lemma OneCertifiedPerHeight(cfg: Config, V: set<Ballot>, x: Blk, y: Blk)
    requires BallotInv(cfg, V)
    requires Certified(cfg, V, x) && Certified(cfg, V, y) && Height(x) == Height(y)
    ensures x == y
  {
    if !x.Genesis? && !y.Genesis? {
      VotersInRange(cfg, V, x);
      VotersInRange(cfg, V, y);
      var r := QuorumsMeet(cfg, Voters(cfg, V, x), Voters(cfg, V, y));
      assert Ballot(r, x) in V && Ballot(r, y) in V;
    } else {
      if !x.Genesis? { CertifiedIsJustified(cfg, V, x); }
      if !y.Genesis? { CertifiedIsJustified(cfg, V, y); }
    }
  }

  lemma ThreeChainCertified(cfg: Config, V: set<Ballot>, b: Blk, b1: Blk, b2: Blk)
    requires BallotInv(cfg, V) && ThreeChain(b, b1, b2) && Certified(cfg, V, b2)
    ensures Certified(cfg, V, b) && Certified(cfg, V, b1)
  {
    CertifiedIsJustified(cfg, V, b2);
    CertifiedIsJustified(cfg, V, b1);
  }

  /** Once a three-chain on `b` is complete, every certified block at or above `b` extends `b`. */
  lemma {:induction false} CertifiedExtendsCommitted(cfg: Config, V: set<Ballot>, b: Blk, b1: Blk, b2: Blk, x: Blk)
    requires BallotInv(cfg, V) && ThreeChain(b, b1, b2) && Certified(cfg, V, b2)
    requires Certified(cfg, V, x) && Height(x) >= Height(b)
    ensures IsAncestor(b, x)
    decreases Height(x)
  {
    ThreeChainCertified(cfg, V, b, b1, b2);
    if Height(x) == Height(b) {
      OneCertifiedPerHeight(cfg, V, x, b);
    } else if Height(x) == Height(b1) {
      OneCertifiedPerHeight(cfg, V, x, b1);
    } else if Height(x) == Height(b2) {
      OneCertifiedPerHeight(cfg, V, x, b2);
      assert IsAncestor(b, b1);
    } else {
      var Q :| FirstQuorum(cfg, V, x, Q);
      VotersInRange(cfg, V, x);
      VotersInRange(cfg, V, b2);
      var r := QuorumsMeet(cfg, Q, Voters(cfg, V, b2));
      assert Ballot(r, b2) in V;
      assert SafeBelow(cfg, V, x, LockFloor(b2));
      var l :| IsAncestor(l, x) && l != x && Certified(cfg, V, l) && Height(l) >= LockFloor(b2);
      AncestorHeight(l, x);
      CertifiedExtendsCommitted(cfg, V, b, b1, b2, l);
      AncestorTransitive(b, l, x);
    }
  }

  // --- casting a ballot ---

  lemma CertifiedMonotone(cfg: Config, V: set<Ballot>, V': set<Ballot>, b: Blk)
    requires cfg.Valid() && V <= V' && Certified(cfg, V, b)
    ensures Certified(cfg, V', b)
  {
    SubsetCardinality(Voters(cfg, V, b), Voters(cfg, V', b));
  }

  lemma SafeBelowMonotone(cfg: Config, V: set<Ballot>, V': set<Ballot>, w: Blk, h: nat)
    requires cfg.Valid() && V <= V' && SafeBelow(cfg, V, w, h)
    ensures SafeBelow(cfg, V', w, h)
  {
    var l :| IsAncestor(l, w) && l != w && Certified(cfg, V, l) && Height(l) >= h;
    CertifiedMonotone(cfg, V, V', l);
  }

  /** What must hold when an honest replica signs `w`. */
  ghost predicate MaySign(cfg: Config, V: set<Ballot>, r: ReplicaId, w: Blk)
    requires cfg.Valid()
  {
    && Justified(cfg, V, w)
    && (forall v :: Ballot(r, v) in V ==> Height(v) < Height(w))
    && (forall v :: Ballot(r, v) in V ==> Certified(cfg, V, w) || SafeBelow(cfg, V, w, LockFloor(v)))
  }

  lemma CastKeepsBallotInv(cfg: Config, V: set<Ballot>, r: ReplicaId, w: Blk)
    requires BallotInv(cfg, V)
    requires cfg.Honest(r) ==> MaySign(cfg, V, r, w)
    ensures BallotInv(cfg, V + {Ballot(r, w)})
  {
    var V' := V + {Ballot(r, w)};
    CastKeepsJustified(cfg, V, r, w);
    CastKeepsLocks(cfg, V, r, w);
    CastKeepsFirstQuorums(cfg, V, r, w);
  }

  lemma CastKeepsJustified(cfg: Config, V: set<Ballot>, r: ReplicaId, w: Blk)
    requires BallotInv(cfg, V)
    requires cfg.Honest(r) ==> MaySign(cfg, V, r, w)
    ensures BallotsJustified(cfg, V + {Ballot(r, w)})
  {
    var V' := V + {Ballot(r, w)};
    forall s, v | cfg.Honest(s) && Ballot(s, v) in V'
      ensures Justified(cfg, V', v)
    {
      assert Justified(cfg, V, v);
      if HasQcRef(v) { CertifiedMonotone(cfg, V, V', QcRef(v)); }
    }
  }

  lemma CastKeepsLocks(cfg: Config, V: set<Ballot>, r: ReplicaId, w: Blk)
    requires BallotInv(cfg, V)
    requires cfg.Honest(r) ==> MaySign(cfg, V, r, w)
    ensures LockRespected(cfg, V + {Ballot(r, w)})
  {
    hide Certified, SafeBelow, OncePerHeight, BallotsJustified, HaveFirstQuorums, MaySign, Height, LockFloor;
    var V' := V + {Ballot(r, w)};
    forall s, v, x | cfg.Honest(s) && Ballot(s, v) in V' && Ballot(s, x) in V' && Height(v) < Height(x)
      ensures Certified(cfg, V', x) || SafeBelow(cfg, V', x, LockFloor(v))
    {
      CastKeepsLock(cfg, V, r, w, s, v, x);
      if Certified(cfg, V, x) {
        CertifiedMonotone(cfg, V, V', x);
      } else {
        SafeBelowMonotone(cfg, V, V', x, LockFloor(v));
      }
    }
  }

  lemma CastKeepsLock(cfg: Config, V: set<Ballot>, r: ReplicaId, w: Blk, s: ReplicaId, v: Blk, x: Blk)
    requires BallotInv(cfg, V)
    requires cfg.Honest(r) ==> MaySign(cfg, V, r, w)
    requires cfg.Honest(s) && Ballot(s, v) in V + {Ballot(r, w)} && Ballot(s, x) in V + {Ballot(r, w)} && Height(v) < Height(x)
    ensures Certified(cfg, V, x) || SafeBelow(cfg, V, x, LockFloor(v))
  {
    hide Certified, SafeBelow, OncePerHeight, BallotsJustified, HaveFirstQuorums, Justified, Height, LockFloor;
  }

  lemma CastKeepsFirstQuorums(cfg: Config, V: set<Ballot>, r: ReplicaId, w: Blk)
    requires BallotInv(cfg, V)
    requires cfg.Honest(r) ==> MaySign(cfg, V, r, w)
    ensures HaveFirstQuorums(cfg, V + {Ballot(r, w)})
  {
    var V' := V + {Ballot(r, w)};
    forall x | Certified(cfg, V', x) && !x.Genesis?
      ensures exists Q :: FirstQuorum(cfg, V', x, Q)
    {
      var Q: set<ReplicaId>;
      if Certified(cfg, V, x) {
        Q :| FirstQuorum(cfg, V, x, Q);
      } else {
        Q := Voters(cfg, V', x);
      }
      forall s, v | s in Q && cfg.Honest(s) && Ballot(s, v) in V' && Height(v) < Height(x)
        ensures SafeBelow(cfg, V', x, LockFloor(v))
      {
        assert SafeBelow(cfg, V, x, LockFloor(v));
        SafeBelowMonotone(cfg, V, V', x, LockFloor(v));
      }
      assert FirstQuorum(cfg, V', x, Q);
    }
  }
}
