/** What every step of an honest replica keeps, relative to the ballots that exist. */
module ReplicaInv {
  import opened Wrappers
  import opened BlockTree
  import opened CoreSpec
  import opened Ballots

  ghost predicate Configured(cfg: Config, c: Core) {
    && cfg.Valid()
    && cfg.Honest(c.id)
    && c.nreplicas == cfg.n
    && c.nmajority == Majority(cfg.n)
  }

  /** Delivered blocks are justified and their parents are delivered. */
  ghost predicate Structure(cfg: Config, V: set<Ballot>, st: Storage)
    requires cfg.Valid()
  {
    && IsDelivered(st, Genesis)
    && (forall b :: IsDelivered(st, b) && b.Node? ==> Justified(cfg, V, b))
    && Closed(st)
  }

  ghost predicate Pointers(cfg: Config, V: set<Ballot>, c: Core)
    requires cfg.Valid()
  {
    && Delivered(c, c.hqc) && Certified(cfg, V, c.hqc) && c.hqcCert.obj == c.hqc
    && Delivered(c, c.lock) && Certified(cfg, V, c.lock)
    && Delivered(c, c.exec)
  }

  /** Decided blocks lie strictly below the lock, and the lock strictly below `hqc`. */
  ghost predicate Ordered(c: Core) {
    && (c.lock.Node? ==> Height(c.lock) < Height(c.hqc))
    && (c.exec.Node? ==> Height(c.exec) < Height(c.lock))
  }

  /** The decided blocks are exactly the ancestors of `exec`, handed over once each, lowest first. */
  ghost predicate DecidedExactly(c: Core) {
    && (forall b :: Decided(c, b) <==> IsAncestor(b, c.exec))
    && c.committed == Branch(c.exec, 0)
    && c.log == Finalities(c.id, c.committed)
  }

  ghost predicate ExecCommitted(cfg: Config, V: set<Ballot>, c: Core)
    requires cfg.Valid()
  {
    c.exec.Genesis? || exists b1, b2 :: ThreeChain(c.exec, b1, b2) && Certified(cfg, V, b2)
  }

  ghost predicate OwnBallots(V: set<Ballot>, c: Core) {
    forall v :: Ballot(c.id, v) in V ==>
      Delivered(c, v) && Height(v) <= c.vheight && LockFloor(v) <= Height(c.lock)
  }

  /** Counted votes are ballots, and running certificates are for their own block. */
  ghost predicate Counted(cfg: Config, V: set<Ballot>, st: Storage) {
    && Genesis in st && st[Genesis].voted == AllReplicas(cfg.n)
    && (forall b <- st :: b.Node? ==> st[b].voted <= Voters(cfg, V, b))
    && (forall b <- st :: st[b].selfQc.Some? ==> st[b].selfQc.value.obj == b && |st[b].selfQc.value.rids| == cfg.n)
  }

  ghost predicate RepInv(cfg: Config, V: set<Ballot>, c: Core) {
    && Configured(cfg, c)
    && Structure(cfg, V, c.storage)
    && Pointers(cfg, V, c)
    && Ordered(c)
    && DecidedExactly(c)
    && ExecCommitted(cfg, V, c)
    && OwnBallots(V, c)
    && Counted(cfg, V, c.storage)
  }

  lemma InitInv(cfg: Config, id: ReplicaId)
    requires cfg.Valid() && cfg.Honest(id)
    ensures RepInv(cfg, {}, Init(id, cfg.n))
  {
  }

  lemma RepMeans(cfg: Config, V: set<Ballot>, c: Core)
    requires RepInv(cfg, V, c)
    ensures cfg.Valid() && c.id < cfg.n && c.nreplicas == cfg.n && c.nmajority == Majority(cfg.n) && c.hqcCert.obj == c.hqc
  {
  }

  // --- facts about delivered blocks ---

  lemma {:induction false} GenesisIsAncestor(cfg: Config, V: set<Ballot>, c: Core, b: Blk)
    requires cfg.Valid() && Structure(cfg, V, c.storage) && Delivered(c, b)
    ensures IsAncestor(Genesis, b)
    decreases b
  {
    if b.Node? {
      assert Justified(cfg, V, b);
      assert ParentsDelivered(c.storage, b) && Parent(b) in b.parents;
      GenesisIsAncestor(cfg, V, c, Parent(b));
    }
  }

  /** The block a delivered block's certificate names: certified, delivered, strictly lower. */
  lemma QcRefFacts(cfg: Config, V: set<Ballot>, c: Core, b: Blk)
    requires cfg.Valid() && Structure(cfg, V, c.storage) && Delivered(c, b) && HasQcRef(b)
    ensures HasParent(b) && IsAncestor(QcRef(b), Parent(b)) && IsAncestor(QcRef(b), b)
    ensures Certified(cfg, V, QcRef(b)) && Delivered(c, QcRef(b)) && Height(QcRef(b)) < Height(b)
  {
    assert Justified(cfg, V, b);
    AncestorHeight(QcRef(b), Parent(b));
    AncestorTransitive(QcRef(b), Parent(b), b);
    AncestorDelivered(c.storage, QcRef(b), b);
  }

  lemma DecidedBelowLock(cfg: Config, V: set<Ballot>, c: Core, b: Blk)
    requires RepInv(cfg, V, c) && Decided(c, b) && b.Node?
    ensures Height(b) < Height(c.lock) < Height(c.hqc)
  {
    AncestorHeight(b, c.exec);
    if c.exec.Genesis? { assert false; }
  }

  // --- update ---

  lemma RaiseHqcInv(cfg: Config, V: set<Ballot>, c: Core, b: Blk, cert: Cert)
    requires RepInv(cfg, V, c) && Delivered(c, b) && Certified(cfg, V, b) && cert.obj == b
    ensures RepInv(cfg, V, UpdateHqc(c, b, cert))
  {
  }

  lemma RaiseLockInv(cfg: Config, V: set<Ballot>, c: Core, b: Blk)
    requires RepInv(cfg, V, c) && Delivered(c, b) && Certified(cfg, V, b) && Height(b) < Height(c.hqc)
    ensures RepInv(cfg, V, RaiseLock(c, b))
  {
  }

  lemma {:induction false} BranchMembers(b: Blk, h: nat, x: Blk)
    ensures x in Branch(b, h) <==> IsAncestor(x, b) && Height(x) > h
    decreases b
  {
    if Height(b) > h {
      BranchMembers(Parent(b), h, x);
      if x == b {
        assert Branch(b, h)[|Branch(b, h)| - 1] == b;
      } else if x in Branch(Parent(b), h) {
        var k :| 0 <= k < |Branch(Parent(b), h)| && Branch(Parent(b), h)[k] == x;
        assert Branch(b, h)[k] == x;
      }
    } else if IsAncestor(x, b) {
      AncestorHeight(x, b);
    }
  }

  lemma {:induction false} BranchSplits(b: Blk, a: Blk)
    requires IsAncestor(a, b)
    ensures Branch(b, 0) == Branch(a, 0) + Branch(b, Height(a))
    decreases b
  {
    AncestorHeight(a, b);
    if a != b {
      AncestorHeight(a, Parent(b));
      BranchSplits(Parent(b), a);
      var upper := Branch(Parent(b), Height(a));
      assert Branch(b, Height(a)) == upper + [b];
      assert Branch(a, 0) + (upper + [b]) == (Branch(a, 0) + upper) + [b];
    }
  }

  lemma {:induction false} FinalitiesConcat(id: ReplicaId, s: seq<Blk>, t: seq<Blk>)
    ensures Finalities(id, s + t) == Finalities(id, s) + Finalities(id, t)
    decreases |t|
  {
    hide BlockFinalities;
    if |t| == 0 {
      assert s + t == s;
    } else {
      var t' := t[..|t| - 1];
      FinalitiesConcat(id, s, t');
      assert (s + t)[..|s + t| - 1] == s + t';
    }
  }

  /** The commit walk always ends at `exec`: the exception is unreachable. */
  lemma CommitReachesExec(cfg: Config, V: set<Ballot>, c: Core, b: Blk, b1: Blk, b2: Blk)
    requires BallotInv(cfg, V) && RepInv(cfg, V, c)
    requires ThreeChain(b, b1, b2) && Certified(cfg, V, b2) && Delivered(c, b) && !Decided(c, b)
    ensures WalkTo(b, Height(c.exec)) == c.exec && IsAncestor(c.exec, b)
  {
    ThreeChainCertified(cfg, V, b, b1, b2);
    if c.exec.Genesis? {
      GenesisIsAncestor(cfg, V, c, b);
    } else {
      var e1, e2 :| ThreeChain(c.exec, e1, e2) && Certified(cfg, V, e2);
      ThreeChainCertified(cfg, V, c.exec, e1, e2);
      if Height(b) < Height(c.exec) {
        CertifiedExtendsCommitted(cfg, V, b, b1, b2, c.exec);
        assert false;
      }
      CertifiedExtendsCommitted(cfg, V, c.exec, e1, e2, b);
    }
    WalkDecidesAncestor(c.exec, b);
  }

  lemma CommitDecides(cfg: Config, V: set<Ballot>, c: Core, b: Blk)
    requires cfg.Valid() && Structure(cfg, V, c.storage) && DecidedExactly(c)
    requires Delivered(c, b) && IsAncestor(c.exec, b) && WalkTo(b, Height(c.exec)) == c.exec
    ensures DecidedExactly(Commit(c, b).core)
  {
    var c' := Commit(c, b).core;
    forall x
      ensures Decided(c', x) <==> IsAncestor(x, b)
    {
      BranchMembers(b, Height(c.exec), x);
      assert Decided(c, x) <==> IsAncestor(x, c.exec);
      if IsAncestor(x, b) {
        AncestorDelivered(c.storage, x, b);
        if Height(x) <= Height(c.exec) {
          AncestorsComparable(x, c.exec, b);
        }
      } else if IsAncestor(x, c.exec) {
        AncestorTransitive(x, c.exec, b);
      }
    }
    BranchSplits(b, c.exec);
    FinalitiesConcat(c.id, c.committed, Branch(b, Height(c.exec)));
  }

  lemma MarkingKeepsStorage(cfg: Config, V: set<Ballot>, st: Storage, blks: seq<Blk>)
    requires cfg.Valid() && Structure(cfg, V, st) && Counted(cfg, V, st)
    ensures Structure(cfg, V, MarkDecided(st, blks)) && Counted(cfg, V, MarkDecided(st, blks))
    ensures forall b :: IsDelivered(MarkDecided(st, blks), b) <==> IsDelivered(st, b)
  {
    var st' := MarkDecided(st, blks);
    forall b | IsDelivered(st', b)
      ensures ParentsDelivered(st', b)
    {
      assert IsDelivered(st, b);
    }
  }

  lemma CommitInv(cfg: Config, V: set<Ballot>, c: Core, b: Blk, b1: Blk, b2: Blk)
    requires BallotInv(cfg, V) && RepInv(cfg, V, c)
    requires ThreeChain(b, b1, b2) && Certified(cfg, V, b2) && Delivered(c, b) && !Decided(c, b)
    requires Height(b) < Height(c.lock)
    ensures Commit(c, b).outcome.Ok? && RepInv(cfg, V, Commit(c, b).core)
  {
    CommitReachesExec(cfg, V, c, b, b1, b2);
    CommitDecides(cfg, V, c, b);
    MarkingKeepsStorage(cfg, V, c.storage, Branch(b, Height(c.exec)));
  }

  lemma UpdateExecInv(cfg: Config, V: set<Ballot>, c: Core, blk1: Blk, blk2: Blk)
    requires BallotInv(cfg, V) && RepInv(cfg, V, c) && Delivered(c, blk1)
    requires Certified(cfg, V, blk2) && Height(blk1) <= Height(c.lock)
    ensures UpdateExec(c, blk1, blk2).outcome.Ok?
    ensures RepInv(cfg, V, UpdateExec(c, blk1, blk2).core)
  {
    if HasQcRef(blk1) {
      var blk := QcRef(blk1);
      QcRefFacts(cfg, V, c, blk1);
      if !Decided(c, blk) && ThreeChain(blk, blk1, blk2) {
        CommitInv(cfg, V, c, blk, blk1, blk2);
      }
    }
  }

  lemma UpdateLockInv(cfg: Config, V: set<Ballot>, c: Core, blk2: Blk)
    requires BallotInv(cfg, V) && RepInv(cfg, V, c) && Delivered(c, blk2)
    requires Certified(cfg, V, blk2) && Height(blk2) <= Height(c.hqc)
    ensures UpdateLock(c, blk2).outcome.Ok?
    ensures RepInv(cfg, V, UpdateLock(c, blk2).core)
    ensures HasQcRef(blk2) ==> Height(QcRef(blk2)) <= Height(UpdateLock(c, blk2).core.lock)
  {
    hide BallotInv, Structure, Pointers, Ordered, DecidedExactly, ExecCommitted, OwnBallots, Counted;
    if HasQcRef(blk2) {
      var blk1 := QcRef(blk2);
      QcRefFacts(cfg, V, c, blk2);
      if Decided(c, blk1) {
        if blk1.Node? { DecidedBelowLock(cfg, V, c, blk1); }
      } else {
        RaiseLockInv(cfg, V, c, blk1);
        UpdateExecInv(cfg, V, RaiseLock(c, blk1), blk1, blk2);
      }
    }
  }

  /** `update` never throws, keeps the invariant and locks the replica high enough. */
  lemma UpdateInv(cfg: Config, V: set<Ballot>, c: Core, nblk: Blk)
    requires BallotInv(cfg, V) && RepInv(cfg, V, c) && Delivered(c, nblk)
    ensures Update(c, nblk).outcome.Ok?
    ensures RepInv(cfg, V, Update(c, nblk).core)
    ensures LockFloor(nblk) <= Height(Update(c, nblk).core.lock)
  {
    hide BallotInv, Structure, Pointers, Ordered, DecidedExactly, ExecCommitted, OwnBallots, Counted;
    if HasQcRef(nblk) {
      var blk2 := QcRef(nblk);
      QcRefFacts(cfg, V, c, nblk);
      if Decided(c, blk2) {
        if HasQcRef(blk2) {
          QcRefFacts(cfg, V, c, blk2);
          DecidedBelowLock(cfg, V, c, blk2);
        }
      } else {
        RaiseHqcInv(cfg, V, c, blk2, nblk.qc.value);
        UpdateLockInv(cfg, V, UpdateHqc(c, blk2, nblk.qc.value), blk2);
      }
    }
  }

  // --- the handlers ---

  lemma RepInvMonotone(cfg: Config, V: set<Ballot>, V': set<Ballot>, c: Core)
    requires RepInv(cfg, V, c) && V <= V'
    requires forall v :: Ballot(c.id, v) in V' ==> Ballot(c.id, v) in V
    ensures RepInv(cfg, V', c)
  {
    AgreesWithMoreBallots(cfg, V, V', c);
  }

  /** Everything but `OwnBallots` survives any new ballots. */
  lemma AgreesWithMoreBallots(cfg: Config, V: set<Ballot>, V': set<Ballot>, c: Core)
    requires RepInv(cfg, V, c) && V <= V'
    ensures Structure(cfg, V', c.storage) && Pointers(cfg, V', c) && ExecCommitted(cfg, V', c) && Counted(cfg, V', c.storage)
  {
    forall b | IsDelivered(c.storage, b) && b.Node?
      ensures Justified(cfg, V', b)
    {
      assert Justified(cfg, V, b);
      if HasQcRef(b) { CertifiedMonotone(cfg, V, V', QcRef(b)); }
    }
    CertifiedMonotone(cfg, V, V', c.hqc);
    CertifiedMonotone(cfg, V, V', c.lock);
    if !c.exec.Genesis? {
      var b1, b2 :| ThreeChain(c.exec, b1, b2) && Certified(cfg, V, b2);
      CertifiedMonotone(cfg, V, V', b2);
    }
    forall b <- c.storage | b.Node?
      ensures c.storage[b].voted <= Voters(cfg, V', b)
    {
      assert c.storage[b].voted <= Voters(cfg, V, b);
    }
  }

  lemma ReplaceStorage(cfg: Config, V: set<Ballot>, c: Core, st: Storage, tails: set<Blk>)
    requires RepInv(cfg, V, c)
    requires Structure(cfg, V, st) && Counted(cfg, V, st)
    requires forall b :: IsDelivered(c.storage, b) ==> IsDelivered(st, b)
    requires forall b :: IsDecided(st, b) <==> IsDecided(c.storage, b)
    ensures RepInv(cfg, V, c.(storage := st, tails := tails))
  {
  }

  lemma FetchInv(cfg: Config, V: set<Ballot>, c: Core, b: Blk)
    requires RepInv(cfg, V, c)
    ensures RepInv(cfg, V, Fetch(c, b))
  {
    var st := c.storage[b := BlkState(false, false, {}, None)];
    if b !in c.storage {
      forall x | IsDelivered(st, x)
        ensures ParentsDelivered(st, x)
      {
        assert IsDelivered(c.storage, x);
      }
      ReplaceStorage(cfg, V, c, st, c.tails);
    }
  }

  lemma DeliverInv(cfg: Config, V: set<Ballot>, c: Core, b: Blk)
    requires RepInv(cfg, V, c) && b in c.storage && Justified(cfg, V, b)
    ensures RepInv(cfg, V, OnDeliver(c, b).core)
  {
    hide Grows, Configured, Pointers, Ordered, DecidedExactly, ExecCommitted, OwnBallots, Justified, Height;
    var c' := OnDeliver(c, b).core;
    forall x | IsDelivered(c'.storage, x)
      ensures ParentsDelivered(c'.storage, x)
    {
      assert x != b ==> IsDelivered(c.storage, x);
      assert ParentsDelivered(c.storage, x);
    }
    ReplaceStorage(cfg, V, c, c'.storage, c'.tails);
  }

  lemma ReceiveVoteInv(cfg: Config, V: set<Ballot>, c: Core, v: Vote)
    requires RepInv(cfg, V, c) && v.voter < cfg.n && Ballot(v.voter, v.blk) in V
    ensures RepInv(cfg, V, OnReceiveVote(c, v).core)
  {
    hide OnReceiveVote, RepInv, Grows, AddPart, EmptyCert, UpdateHqc, Counting;
    if Delivered(c, v.blk) && |c.storage[v.blk].voted| < c.nmajority && v.voter !in c.storage[v.blk].voted {
      CountedVote(c, v);
      CountedFacts(cfg, V, c, v);
      var s := c.storage[v.blk];
      var qc := if s.selfQc.Some? then s.selfQc.value else EmptyCert(c.nreplicas, v.blk);
      CountingInv(cfg, V, c, v.blk, v.voter, qc);
      if v.cert.obj == qc.obj {
        var qc' := AddPart(qc, v.voter, v.cert.sig);
        CountingInv(cfg, V, c, v.blk, v.voter, qc');
        if |s.voted| + 1 == c.nmajority {
          RaiseHqcInv(cfg, V, Counting(c, v.blk, v.voter, qc'), v.blk, qc');
        }
      }
    } else {
      IgnoredVote(c, v);
    }
  }

  /** What counting a vote relies on. */
  lemma CountedFacts(cfg: Config, V: set<Ballot>, c: Core, v: Vote)
    requires RepInv(cfg, V, c) && v.voter < cfg.n && Ballot(v.voter, v.blk) in V
    requires Delivered(c, v.blk) && |c.storage[v.blk].voted| < c.nmajority && v.voter !in c.storage[v.blk].voted
    ensures v.blk.Node? && c.storage[v.blk].voted + {v.voter} <= Voters(cfg, V, v.blk) && cfg.Valid()
    ensures var qc := if c.storage[v.blk].selfQc.Some? then c.storage[v.blk].selfQc.value else EmptyCert(c.nreplicas, v.blk);
            qc.obj == v.blk && |qc.rids| == cfg.n
    ensures |c.storage[v.blk].voted| + 1 == c.nmajority ==> Certified(cfg, V, v.blk)
  {
    hide Structure, Pointers, Ordered, DecidedExactly, ExecCommitted, OwnBallots;
    RangeCardinality(cfg.n);
    SubsetCardinality(c.storage[v.blk].voted + {v.voter}, Voters(cfg, V, v.blk));
  }

  lemma CountingInv(cfg: Config, V: set<Ballot>, c: Core, b: Blk, voter: ReplicaId, qc: Cert)
    requires RepInv(cfg, V, c) && Delivered(c, b) && b.Node? && c.storage[b].voted + {voter} <= Voters(cfg, V, b)
    requires qc.obj == b && |qc.rids| == cfg.n
    ensures RepInv(cfg, V, Counting(c, b, voter, qc)) && Delivered(Counting(c, b, voter, qc), b)
  {
    hide RepInv, Grows;
    CountInv(cfg, V, c, b, c.storage[b].(voted := c.storage[b].voted + {voter}, selfQc := Some(qc)));
  }

  lemma CountInv(cfg: Config, V: set<Ballot>, c: Core, b: Blk, s: BlkState)
    requires RepInv(cfg, V, c) && b in c.storage && b.Node?
    requires s.delivered == c.storage[b].delivered && s.decision == c.storage[b].decision
    requires s.voted <= Voters(cfg, V, b)
    requires s.selfQc.Some? ==> s.selfQc.value.obj == b && |s.selfQc.value.rids| == cfg.n
    ensures RepInv(cfg, V, c.(storage := c.storage[b := s]))
  {
    var st := c.storage[b := s];
    forall x | IsDelivered(st, x)
      ensures ParentsDelivered(st, x)
    {
      assert IsDelivered(c.storage, x) && ParentsDelivered(c.storage, x);
    }
    ReplaceStorage(cfg, V, c, st, c.tails);
  }

  /** The voting rule gives what the safety argument asks of an honest signature. */
  lemma VotingRuleIsSafe(cfg: Config, V: set<Ballot>, c: Core, b: Blk)
    requires RepInv(cfg, V, c) && Delivered(c, b) && MayVote(c, b)
    ensures MaySign(cfg, V, c.id, b)
  {
    assert Justified(cfg, V, b);
    forall v | Ballot(c.id, v) in V
      ensures Certified(cfg, V, b) || SafeBelow(cfg, V, b, LockFloor(v))
    {
      assert LockFloor(v) <= Height(c.lock);
      if HasQcRef(b) && Height(QcRef(b)) > Height(c.lock) {
        QcRefFacts(cfg, V, c, b);
      } else {
        WalkDecidesAncestor(c.lock, b);
      }
    }
  }

  lemma SignInv(cfg: Config, V: set<Ballot>, c: Core, b: Blk)
    requires RepInv(cfg, V, c) && Delivered(c, b) && Height(b) > c.vheight && LockFloor(b) <= Height(c.lock)
    ensures RepInv(cfg, V, c.(vheight := Height(b)))
    ensures RepInv(cfg, V + {Ballot(c.id, b)}, c.(vheight := Height(b)))
  {
    AgreesWithMoreBallots(cfg, V, V + {Ballot(c.id, b)}, c);
  }

  lemma ReceiveProposalInv(cfg: Config, V: set<Ballot>, c: Core, b: Blk)
    requires BallotInv(cfg, V) && RepInv(cfg, V, c)
    ensures var e := OnReceiveProposal(c, b);
            var V' := if e.vote.Some? then V + {Ballot(c.id, b)} else V;
            && BallotInv(cfg, V') && RepInv(cfg, V', e.core)
            && e.outcome == (if Delivered(c, b) then Ok else Throw(BlockNotDelivered))
  {
    hide BallotInv, Structure, Pointers, Ordered, DecidedExactly, ExecCommitted, OwnBallots, Counted, MaySign;
    if Delivered(c, b) {
      UpdateInv(cfg, V, c, b);
      var u := Update(c, b).core;
      if MayVote(u, b) {
        VotingRuleIsSafe(cfg, V, u, b);
        SignInv(cfg, V, u, b);
        CastKeepsBallotInv(cfg, V, c.id, b);
      }
    }
  }

  /** A block proposed on a branch through `hqc` is justified. */
  lemma ProposalJustified(cfg: Config, V: set<Ballot>, c: Core, cmds: seq<Cmd>, parents: seq<Blk>, extra: seq<nat>)
    requires RepInv(cfg, V, c) && parents != [] && IsAncestor(c.hqc, parents[0])
    ensures Justified(cfg, V, NewBlock(c, cmds, parents, extra))
  {
  }

  lemma DraftInv(cfg: Config, V: set<Ballot>, c: Core, b: Blk)
    requires RepInv(cfg, V, c) && b.Node?
    ensures RepInv(cfg, V, Draft(c, b)) && b in Draft(c, b).storage
  {
    var c0 := c.(tails := c.tails - SetOf(b.parents));
    ReplaceStorage(cfg, V, c, c.storage, c0.tails);
    FetchInv(cfg, V, c0, b);
    var c1 := Fetch(c0, b);
    CountInv(cfg, V, c1, b, c1.storage[b].(selfQc := Some(EmptyCert(c.nreplicas, b))));
  }

  /** The vote a proposer casts for its own block, which it does not check against the lock, always
      satisfies the rule other replicas vote by. */
  lemma SelfVoteFollowsRule(cfg: Config, V: set<Ballot>, c: Core, b: Blk)
    requires RepInv(cfg, V, c) && Delivered(c, b) && Height(b) > c.vheight
    requires HasQcRef(b) && QcRef(b) == c.hqc
    ensures MayVote(c, b)
  {
    if c.lock.Genesis? {
      GenesisIsAncestor(cfg, V, c, b);
      WalkDecidesAncestor(Genesis, b);
    }
  }

  /** `update` on a block carrying the replica's own `hqc` leaves `hqc` as it is. */
  lemma UpdateOwnHqc(c: Core, b: Blk)
    requires HasQcRef(b) && QcRef(b) == c.hqc
    ensures Update(c, b).core.hqc == c.hqc
  {
  }

  lemma SignOwnInv(cfg: Config, V: set<Ballot>, c: Core, b: Blk)
    requires BallotInv(cfg, V) && RepInv(cfg, V, c) && Delivered(c, b)
    requires HasQcRef(b) && QcRef(b) == c.hqc && LockFloor(b) <= Height(c.lock)
    requires c.storage[b].selfQc == Some(EmptyCert(c.nreplicas, b))
    ensures var e := SignOwn(c, b);
            var V' := if e.vote.Some? then V + {Ballot(c.id, b)} else V;
            && BallotInv(cfg, V') && RepInv(cfg, V', e.core) && Delivered(e.core, b)
            && e.outcome == (if Height(b) > c.vheight then Ok else Throw(NotAboveVheight))
  {
    hide BallotInv, Structure, Pointers, Ordered, DecidedExactly, ExecCommitted, OwnBallots, Counted, MaySign;
    if Height(b) > c.vheight {
      SelfVoteFollowsRule(cfg, V, c, b);
      VotingRuleIsSafe(cfg, V, c, b);
      SignInv(cfg, V, c, b);
      CastKeepsBallotInv(cfg, V, c.id, b);
      ReceiveVoteInv(cfg, V + {Ballot(c.id, b)}, c.(vheight := Height(b)), SelfVote(c.id, b));
    }
  }

  lemma DraftDelivered(cfg: Config, V: set<Ballot>, c: Core, b: Blk)
    requires RepInv(cfg, V, c) && b.Node? && Justified(cfg, V, b)
    ensures var d := OnDeliver(Draft(c, b), b);
            && RepInv(cfg, V, d.core) && d.core.id == c.id && d.core.hqc == c.hqc
            && d.outcome in {Ok, Throw(BlockNotDelivered), Throw(QcBlockNotFetched)}
            && d.core.storage[b].selfQc == Some(EmptyCert(d.core.nreplicas, b))
  {
    hide RepInv;
    DraftInv(cfg, V, c, b);
    DeliverInv(cfg, V, Draft(c, b), b);
  }

  lemma UpdateAndSignInv(cfg: Config, V: set<Ballot>, c: Core, b: Blk)
    requires BallotInv(cfg, V) && RepInv(cfg, V, c) && Delivered(c, b)
    requires HasQcRef(b) && QcRef(b) == c.hqc
    requires c.storage[b].selfQc == Some(EmptyCert(c.nreplicas, b))
    ensures var u := Update(c, b);
            var e := SignOwn(u.core, b);
            var V' := if e.vote.Some? then V + {Ballot(c.id, b)} else V;
            && u.outcome.Ok? && u.core.id == c.id && u.core.hqc == c.hqc
            && BallotInv(cfg, V') && RepInv(cfg, V', e.core) && Delivered(e.core, b)
            && e.outcome == (if Height(b) > c.vheight then Ok else Throw(NotAboveVheight))
            && (e.vote.Some? <==> e.outcome.Ok?)
  {
    hide BallotInv, RepInv, SignOwn;
    UpdateInv(cfg, V, c, b);
    UpdateOwnHqc(c, b);
    SignOwnInv(cfg, V, Update(c, b).core, b);
  }

  /** Proposing on a branch through `hqc` keeps every invariant and signs at most one block. */
  lemma ProposeInv(cfg: Config, V: set<Ballot>, c: Core, cmds: seq<Cmd>, parents: seq<Blk>, extra: seq<nat>)
    requires BallotInv(cfg, V) && RepInv(cfg, V, c)
    requires parents != [] && IsAncestor(c.hqc, parents[0])
    ensures var e := OnPropose(c, cmds, parents, extra);
            var b := NewBlock(c, cmds, parents, extra);
            var V' := if e.vote.Some? then V + {Ballot(c.id, b)} else V;
            && BallotInv(cfg, V') && RepInv(cfg, V', e.core)
            && e.outcome != Throw(SafetyBreached)
            && (e.vote.Some? <==> e.outcome.Ok?)
            && (e.outcome.Ok? ==> Delivered(e.core, b) && IsAncestor(e.core.hqc, b))
  {
    hide BallotInv, RepInv, Draft, OnDeliver, SignOwn, Update, UpdateFrame, Grows, Justified;
    RepMeans(cfg, V, c);
    ProposalJustified(cfg, V, c, cmds, parents, extra);
    var b := NewBlock(c, cmds, parents, extra);
    DraftDelivered(cfg, V, c, b);
    var d := OnDeliver(Draft(c, b), b);
    if d.outcome.Ok? {
      UpdateAndSignInv(cfg, V, d.core, b);
      AncestorTransitive(c.hqc, Parent(b), b);
    }
  }
}
