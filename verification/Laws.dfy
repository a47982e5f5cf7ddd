/** What every handler does, field by field and in terms of blocks, heights and ancestors only: a reference
    for `CoreSpec` and `HighTail` that names none of their functions but the handlers themselves. */
module Laws {
  import opened Wrappers
  import opened BlockTree
  import opened CoreSpec
  import opened Ballots
  import opened ReplicaInv
  import opened HighTail

  // --- quorums ---

  /** The quorum is what is left without the largest number of faulty replicas that three times over stays
      below the whole, and the honest replicas alone make one. */
  lemma MajorityExactly(n: nat, f: nat)
    requires 3 * f < n <= 3 * f + 3
    ensures Majority(n) == n - f
  {
  }

  lemma HonestQuorum(cfg: Config)
    requires cfg.Valid()
    ensures |AllReplicas(cfg.n) - cfg.faulty| >= Majority(cfg.n)
  {
    RangeCardinality(cfg.n);
    assert cfg.faulty <= AllReplicas(cfg.n);
    assert |AllReplicas(cfg.n) - cfg.faulty| == |AllReplicas(cfg.n)| - |cfg.faulty|;
  }

  // --- the start ---

  /** A new replica knows genesis, which everyone has voted for and which is decided, and nothing else. */
  lemma InitExactly(id: ReplicaId, n: nat)
    requires n > 0
    ensures var c := Init(id, n);
            && c.id == id && c.nreplicas == n && c.nmajority == Majority(n)
            && c.hqc == c.lock == c.exec == Genesis && c.hqcCert.obj == Genesis && c.hqcCert.sigs == map[]
            && c.vheight == 0 && c.tails == {Genesis} && !c.voteDisabled && c.committed == [] && c.log == []
            && c.storage.Keys == {Genesis} && Delivered(c, Genesis) && Decided(c, Genesis)
            && (forall r: nat :: r in c.storage[Genesis].voted <==> r < n)
  {
  }

  // --- update ---

  /** The block's certificate, that block's certificate and that one's are for consecutive blocks. */
  predicate ThreeInRow(n: Blk) {
    && HasQcRef(n) && HasQcRef(QcRef(n)) && HasQcRef(QcRef(QcRef(n)))
    && HasParent(QcRef(n)) && Parent(QcRef(n)) == QcRef(QcRef(n))
    && HasParent(QcRef(QcRef(n))) && Parent(QcRef(QcRef(n))) == QcRef(QcRef(QcRef(n)))
  }

  function Third(n: Blk): Blk
    requires ThreeInRow(n)
  {
    QcRef(QcRef(QcRef(n)))
  }

  /** The lock once `n` has been processed. */
  function LockAfter(lock: Blk, n: Blk): Blk {
    if HasQcRef(n) && HasQcRef(QcRef(n)) && Height(QcRef(QcRef(n))) > Height(lock) then QcRef(QcRef(n)) else lock
  }

  /** The early returns on decided blocks: whatever they skip is decided, or no higher than the lock. */
  lemma DecidedSkipsNothing(cfg: Config, V: set<Ballot>, c: Core, n: Blk)
    requires RepInv(cfg, V, c) && Delivered(c, n) && HasQcRef(n)
    ensures Decided(c, QcRef(n)) ==> Height(QcRef(n)) <= Height(c.hqc)
    ensures Decided(c, QcRef(n)) && HasQcRef(QcRef(n)) ==> Decided(c, QcRef(QcRef(n)))
    ensures HasQcRef(QcRef(n)) && Decided(c, QcRef(QcRef(n))) ==> Height(QcRef(QcRef(n))) <= Height(c.lock)
    ensures ThreeInRow(n) && Decided(c, QcRef(QcRef(n))) ==> Decided(c, Third(n))
  {
    hide Ordered, Pointers, ExecCommitted, OwnBallots, Counted, Justified, Certified;
    var b2 := QcRef(n);
    QcRefFacts(cfg, V, c, n);
    if Decided(c, b2) && b2.Node? {
      DecidedBelowLock(cfg, V, c, b2);
    }
    if HasQcRef(b2) {
      var b1 := QcRef(b2);
      QcRefFacts(cfg, V, c, b2);
      if Decided(c, b2) {
        AncestorTransitive(b1, b2, c.exec);
      }
      if Decided(c, b1) && b1.Node? {
        DecidedBelowLock(cfg, V, c, b1);
      }
      if ThreeInRow(n) && Decided(c, b1) {
        QcRefFacts(cfg, V, c, b1);
        AncestorTransitive(Third(n), b1, c.exec);
      }
    }
  }

  /** Unfolding the three steps, given what the early returns skip. */
  lemma UpdateUnfolded(c: Core, n: Blk)
    requires Update(c, n).outcome.Ok?
    requires HasQcRef(n) ==>
               && (Decided(c, QcRef(n)) ==> Height(QcRef(n)) <= Height(c.hqc))
               && (Decided(c, QcRef(n)) && HasQcRef(QcRef(n)) ==> Decided(c, QcRef(QcRef(n))))
               && (HasQcRef(QcRef(n)) && Decided(c, QcRef(QcRef(n))) ==> Height(QcRef(QcRef(n))) <= Height(c.lock))
               && (ThreeInRow(n) && Decided(c, QcRef(QcRef(n))) ==> Decided(c, Third(n)))
    ensures var u := Update(c, n).core;
            && (if HasQcRef(n) && Height(QcRef(n)) > Height(c.hqc) then u.hqc == QcRef(n) && u.hqcCert == n.qc.value
                else u.hqc == c.hqc && u.hqcCert == c.hqcCert)
            && u.lock == LockAfter(c.lock, n)
            && u.exec == if ThreeInRow(n) && !Decided(c, Third(n)) then Third(n) else c.exec
  {
    hide Grows, UpdateFrame, Height, Branch, WalkTo, MarkDecided, Finalities;
  }

  /** What `update` does with a delivered block: `hqc` and its certificate, the lock, and what is decided. */
  lemma UpdateExactly(cfg: Config, V: set<Ballot>, c: Core, n: Blk)
    requires BallotInv(cfg, V) && RepInv(cfg, V, c) && Delivered(c, n)
    ensures Update(c, n).outcome.Ok?
    ensures var u := Update(c, n).core;
            && (if HasQcRef(n) && Height(QcRef(n)) > Height(c.hqc) then u.hqc == QcRef(n) && u.hqcCert == n.qc.value
                else u.hqc == c.hqc && u.hqcCert == c.hqcCert)
            && u.lock == LockAfter(c.lock, n)
            && u.exec == (if ThreeInRow(n) && !Decided(c, Third(n)) then Third(n) else c.exec)
            && (forall b :: Decided(u, b) <==> Decided(c, b) || (ThreeInRow(n) && IsAncestor(b, Third(n))))
            && (forall b :: b in u.committed <==> b.Node? && Decided(u, b))
  {
    hide BallotInv, RepInv, Update, UpdateFrame, Grows, LockAfter, Height, IsAncestor, ThreeInRow;
    UpdateInv(cfg, V, c, n);
    if HasQcRef(n) {
      DecidedSkipsNothing(cfg, V, c, n);
    }
    UpdateUnfolded(c, n);
    DecidedAfter(cfg, V, c, n);
    CommittedAreDecided(cfg, V, Update(c, n).core);
  }

  lemma DecidedAfter(cfg: Config, V: set<Ballot>, c: Core, n: Blk)
    requires BallotInv(cfg, V) && RepInv(cfg, V, c) && Delivered(c, n) && RepInv(cfg, V, Update(c, n).core)
    requires Update(c, n).core.exec == if ThreeInRow(n) && !Decided(c, Third(n)) then Third(n) else c.exec
    ensures forall b :: Decided(Update(c, n).core, b) <==> Decided(c, b) || (ThreeInRow(n) && IsAncestor(b, Third(n)))
  {
    hide BallotInv, Update, UpdateFrame, Grows, Structure, Pointers, Ordered, ExecCommitted, OwnBallots, Counted;
    var u := Update(c, n).core;
    if ThreeInRow(n) && !Decided(c, Third(n)) {
      ExecBelowThird(cfg, V, c, n);
    }
    forall b
      ensures Decided(u, b) <==> Decided(c, b) || (ThreeInRow(n) && IsAncestor(b, Third(n)))
    {
      if ThreeInRow(n) {
        if Decided(c, Third(n)) {
          if IsAncestor(b, Third(n)) { AncestorTransitive(b, Third(n), c.exec); }
        } else if IsAncestor(b, c.exec) {
          AncestorTransitive(b, c.exec, Third(n));
        }
      }
    }
  }

  /** A block to be committed extends the executed one. */
  lemma ExecBelowThird(cfg: Config, V: set<Ballot>, c: Core, n: Blk)
    requires BallotInv(cfg, V) && RepInv(cfg, V, c) && Delivered(c, n) && ThreeInRow(n) && !Decided(c, Third(n))
    ensures IsAncestor(c.exec, Third(n))
  {
    hide BallotInv, Pointers, Ordered, ExecCommitted, OwnBallots, Counted, DecidedExactly, Justified, Certified, IsAncestor, Height;
    QcRefFacts(cfg, V, c, n);
    QcRefFacts(cfg, V, c, QcRef(n));
    QcRefFacts(cfg, V, c, QcRef(QcRef(n)));
    CommitReachesExec(cfg, V, c, Third(n), QcRef(QcRef(n)), QcRef(n));
  }

  /** What was handed over is what is decided, apart from genesis. */
  lemma CommittedAreDecided(cfg: Config, V: set<Ballot>, c: Core)
    requires RepInv(cfg, V, c)
    ensures forall b :: b in c.committed <==> b.Node? && Decided(c, b)
  {
    hide Ordered, ExecCommitted, OwnBallots, Counted;
    forall b
      ensures b in c.committed <==> b.Node? && Decided(c, b)
    {
      BranchMembers(c.exec, 0, b);
      if IsAncestor(b, c.exec) && b.Node? {
        AncestorDelivered(c.storage, b, c.exec);
        assert Justified(cfg, V, b);
      }
    }
  }

  // --- received proposals ---

  /** A replica accepts a delivered block exactly if it is above its last vote, and certified above the lock
      or on the locked branch.  Its vote leaves unless voting is disabled; `vheight` rises all the same. */
  lemma ProposalExactly(cfg: Config, V: set<Ballot>, c: Core, b: Blk)
    requires BallotInv(cfg, V) && RepInv(cfg, V, c) && Delivered(c, b)
    ensures var e := OnReceiveProposal(c, b);
            var lock := LockAfter(c.lock, b);
            var accepts := && Height(b) > c.vheight
                           && ((HasQcRef(b) && Height(QcRef(b)) > Height(lock)) || IsAncestor(lock, b));
            && e.outcome == Ok
            && e.vote == (if accepts && !c.voteDisabled then Some(Vote(c.id, b, PartCert(b, Sig(c.id, b)))) else None)
            && e.core == Update(c, b).core.(vheight := if accepts then Height(b) else c.vheight)
  {
    hide BallotInv, RepInv, Update, Grows, LockAfter, Height, IsAncestor, WalkTo, OnlyDecides;
    UpdateExactly(cfg, V, c, b);
    WalkDecidesAncestor(LockAfter(c.lock, b), b);
  }

  lemma UndeliveredProposal(c: Core, b: Blk)
    requires !Delivered(c, b)
    ensures OnReceiveProposal(c, b) == Effect(c, Throw(BlockNotDelivered), None)
  {
    hide Grows;
  }

  // --- storing and delivering blocks ---

  lemma FetchExactly(c: Core, b: Blk)
    ensures var c' := Fetch(c, b);
            && c' == c.(storage := c'.storage)
            && c'.storage.Keys == c.storage.Keys + {b}
            && (forall x <- c.storage :: c'.storage[x] == c.storage[x])
            && (b !in c.storage ==> c'.storage[b] == BlkState(false, false, {}, None))
  {
    hide Grows;
  }

  /** Delivery succeeds exactly if all parents are delivered and the certified block is stored; the block
      takes its parents' place among the tails. */
  lemma DeliverExactly(c: Core, b: Blk)
    requires b in c.storage && !Delivered(c, b)
    ensures var e := OnDeliver(c, b);
            var parents := if b.Node? then b.parents else [];
            && (if !(forall p <- parents :: Delivered(c, p)) then e.outcome == Throw(BlockNotDelivered)
                else if b.Node? && b.qc.Some? && b.qc.value.obj !in c.storage then e.outcome == Throw(QcBlockNotFetched)
                else e.outcome == Ok)
            && (e.outcome.Throw? ==> e.core == c)
            && (e.outcome.Ok? ==>
                  && e.core == c.(storage := e.core.storage, tails := e.core.tails)
                  && e.core.storage == c.storage[b := c.storage[b].(delivered := true)]
                  && forall x :: x in e.core.tails <==> x == b || (x in c.tails && x !in parents))
  {
    hide Grows;
    var parents := if b.Node? then b.parents else [];
    if forall p <- parents :: Delivered(c, p) {
      assert ParentsDelivered(c.storage, b);
    } else {
      var p :| p in parents && !Delivered(c, p);
      assert !ParentsDelivered(c.storage, b);
    }
  }

  lemma DeliveredTwice(c: Core, b: Blk)
    requires Delivered(c, b)
    ensures OnDeliver(c, b) == Effect(c, Ok, None)
  {
    hide Grows;
  }

  // --- votes ---

  /** A vote counts exactly if its block is delivered and short of the quorum and its voter new.  It joins
      the running certificate if it names the same block; the vote that fills the quorum raises `hqc`. */
  lemma VoteExactly(c: Core, v: Vote)
    requires Delivered(c, v.blk) && |c.storage[v.blk].voted| < c.nmajority && v.voter !in c.storage[v.blk].voted
    ensures var e := OnReceiveVote(c, v);
            var s := c.storage[v.blk];
            var obj := if s.selfQc.Some? then s.selfQc.value.obj else v.blk;
            var sigs := if s.selfQc.Some? then s.selfQc.value.sigs else map[];
            && e.vote == None && e.core == c.(storage := e.core.storage, hqc := e.core.hqc, hqcCert := e.core.hqcCert)
            && e.core.storage.Keys == c.storage.Keys
            && (forall x <- c.storage :: x != v.blk ==> e.core.storage[x] == c.storage[x])
            && var s' := e.core.storage[v.blk];
            && s'.voted == s.voted + {v.voter} && s'.delivered == s.delivered && s'.decision == s.decision && s'.selfQc.Some?
            && s'.selfQc.value.obj == obj
            && (if v.cert.obj != obj then
                  e.outcome == Throw(PartCertMismatch) && s'.selfQc.value.sigs == sigs && e.core.hqc == c.hqc && e.core.hqcCert == c.hqcCert
                else
                  && e.outcome == Ok
                  && s'.selfQc.value.sigs == (if v.voter in sigs then sigs else sigs[v.voter := v.cert.sig])
                  && (if |s.voted| + 1 == c.nmajority && Height(v.blk) > Height(c.hqc)
                      then e.core.hqc == v.blk && e.core.hqcCert == s'.selfQc.value
                      else e.core.hqc == c.hqc && e.core.hqcCert == c.hqcCert))
  {
    hide OnReceiveVote, Grows, Height;
    CountedVote(c, v);
  }

  lemma OtherVotes(c: Core, v: Vote)
    requires Delivered(c, v.blk) ==> |c.storage[v.blk].voted| >= c.nmajority || v.voter in c.storage[v.blk].voted
    ensures OnReceiveVote(c, v) == Effect(c, if Delivered(c, v.blk) then Ok else Throw(BlockNotDelivered), None)
  {
    hide Grows;
  }

  /** Every vote a replica signs passes verification. */
  lemma OwnVotesVerify(id: ReplicaId, n: nat, b: Blk)
    requires id < n
    ensures VoteVerifies(Vote(id, b, PartCert(b, Sig(id, b))), n)
  {
  }

  // --- proposing ---

  /** The block a proposer signs: these parents, these commands, its highest certificate and this extra. */
  lemma ProposedBlock(c: Core, cmds: seq<Cmd>, parents: seq<Blk>, extra: seq<nat>)
    ensures var e := OnPropose(c, cmds, parents, extra);
            && (e.outcome.Ok? ==> e.vote.Some?)
            && (e.vote.Some? ==>
                  var v := e.vote.value;
                  && v.voter == c.id && v.cert == PartCert(v.blk, Sig(c.id, v.blk)) && v.blk.Node?
                  && v.blk.parents == parents && v.blk.cmds == cmds && v.blk.extra == extra && v.blk.qc == Some(c.hqcCert))
    ensures parents == [] ==> OnPropose(c, cmds, parents, extra) == Effect(c, Throw(EmptyParents), None)
  {
    hide Grows, Draft, OnDeliver, Update, UpdateFrame;
  }

  function VotedFor(c: Core, b: Blk): set<ReplicaId> {
    if b in c.storage then c.storage[b].voted else {}
  }

  /** The own vote: `vheight` rises, and the vote counts like any other. */
  lemma SignExactly(c: Core, b: Blk)
    requires Delivered(c, b) && c.storage[b].selfQc.Some? && c.storage[b].selfQc.value.obj == b
    ensures var e := SignOwn(c, b);
            if Height(b) <= c.vheight then e == Effect(c, Throw(NotAboveVheight), None)
            else
              && e.outcome == Ok && e.vote == Some(Vote(c.id, b, PartCert(b, Sig(c.id, b))))
              && e.core == c.(vheight := Height(b), storage := e.core.storage, hqc := e.core.hqc, hqcCert := e.core.hqcCert)
              && Delivered(e.core, b) && (forall x :: Decided(e.core, x) <==> Decided(c, x))
              && VotedFor(e.core, b) == VotedFor(c, b) + (if |VotedFor(c, b)| < c.nmajority then {c.id} else {})
              && e.core.hqc == (if |VotedFor(c, b)| + 1 == c.nmajority && c.id !in VotedFor(c, b) && Height(b) > Height(c.hqc)
                                then b else c.hqc)
  {
    hide OnReceiveVote, Grows, Height;
    if Height(b) > c.vheight {
      var c1 := c.(vheight := Height(b));
      var v := SelfVote(c.id, b);
      if |c.storage[b].voted| < c.nmajority && c.id !in c.storage[b].voted {
        VoteExactly(c1, v);
      } else {
        OtherVotes(c1, v);
        if |c.storage[b].voted| < c.nmajority {
          assert c.storage[b].voted + {c.id} == c.storage[b].voted;
        }
      }
    }
  }

  lemma DraftExactly(c: Core, b: Blk)
    requires b.Node?
    ensures var d := Draft(c, b);
            && d == c.(storage := d.storage, tails := d.tails)
            && (forall x :: x in d.tails <==> x in c.tails && x !in b.parents)
            && d.storage.Keys == c.storage.Keys + {b}
            && (forall x :: Delivered(d, x) <==> Delivered(c, x)) && (forall x :: Decided(d, x) <==> Decided(c, x))
            && VotedFor(d, b) == VotedFor(c, b) && d.storage[b].selfQc.Some? && d.storage[b].selfQc.value.obj == b
  {
    hide Grows;
  }

  /** The draft, delivered. */
  lemma IntroducedExactly(cfg: Config, V: set<Ballot>, c: Core, b: Blk)
    requires RepInv(cfg, V, c) && b.Node? && b.qc == Some(c.hqcCert)
    ensures var d := OnDeliver(Draft(c, b), b);
            && b in d.core.storage
            && d.outcome == (if forall p <- b.parents :: Delivered(c, p) then Ok else Throw(BlockNotDelivered))
            && d.core == c.(storage := d.core.storage, tails := d.core.tails)
            && (forall x :: x in d.core.tails <==> (x in c.tails && x !in b.parents) || (x == b && d.outcome.Ok? && !Delivered(c, b)))
            && (d.outcome.Ok? ==> Delivered(d.core, b)) && (forall x :: Decided(d.core, x) <==> Decided(c, x))
            && VotedFor(d.core, b) == VotedFor(c, b)
            && d.core.storage[b].selfQc.Some? && d.core.storage[b].selfQc.value.obj == b
  {
    hide Draft, OnDeliver, Grows, RepInv;
    DraftExactly(c, b);
    var d := Draft(c, b);
    KnownParents(cfg, V, c, b);
    if Delivered(c, b) {
      DeliveredTwice(d, b);
    } else {
      DeliverExactly(d, b);
    }
  }

  lemma KnownParents(cfg: Config, V: set<Ballot>, c: Core, b: Blk)
    requires RepInv(cfg, V, c)
    ensures c.hqc in c.storage && c.hqcCert.obj == c.hqc
    ensures Delivered(c, b) && b.Node? ==> forall p <- b.parents :: Delivered(c, p)
  {
    hide Ordered, ExecCommitted, OwnBallots, Counted, DecidedExactly;
    if Delivered(c, b) {
      assert ParentsDelivered(c.storage, b);
    }
  }

  /** Proposing on a branch through `hqc`, step by step: the block, its delivery, the update it brings, the
      own vote, and the tails. */
  lemma ProposeExactly(cfg: Config, V: set<Ballot>, c: Core, cmds: seq<Cmd>, parents: seq<Blk>, extra: seq<nat>)
    requires BallotInv(cfg, V) && RepInv(cfg, V, c) && parents != [] && IsAncestor(c.hqc, parents[0])
    ensures var e := OnPropose(c, cmds, parents, extra);
            var b := Node(parents, cmds, Some(c.hqcCert), extra);
            var introduced := forall p <- parents :: Delivered(c, p);
            var h := Height(parents[0]) + 1;
            && e.outcome == (if !introduced then Throw(BlockNotDelivered) else if h <= c.vheight then Throw(NotAboveVheight) else Ok)
            && e.vote == (if e.outcome.Ok? then Some(Vote(c.id, b, PartCert(b, Sig(c.id, b)))) else None)
            && e.core.vheight == (if e.outcome.Ok? then h else c.vheight)
            && (forall x :: x in e.core.tails <==> (x in c.tails && x !in parents) || (x == b && introduced && !Delivered(c, b)))
            && (introduced ==> Delivered(e.core, b) && e.core.lock == LockAfter(c.lock, b)
                               && forall x :: Decided(e.core, x) <==> Decided(c, x) || (ThreeInRow(b) && IsAncestor(x, Third(b))))
            && (e.outcome.Ok? ==>
                  VotedFor(e.core, b) == VotedFor(c, b) + (if |VotedFor(c, b)| < c.nmajority then {c.id} else {}))
            && e.core.hqc == (if e.outcome.Ok? && |VotedFor(c, b)| + 1 == c.nmajority && c.id !in VotedFor(c, b) then b else c.hqc)
  {
    hide BallotInv, RepInv, Draft, OnDeliver, SignOwn, Update, UpdateFrame, Grows, LockAfter, ThreeInRow, Justified, VotedFor, IsAncestor;
    var b := Node(parents, cmds, Some(c.hqcCert), extra);
    RepMeans(cfg, V, c);
    ProposalJustified(cfg, V, c, cmds, parents, extra);
    IntroducedExactly(cfg, V, c, b);
    DraftDelivered(cfg, V, c, b);
    var d := OnDeliver(Draft(c, b), b);
    if d.outcome.Ok? {
      UpdateExactly(cfg, V, d.core, b);
      var u := Update(d.core, b).core;
      UpdateKeepsVotes(d.core, b, b);
      AncestorHeight(c.hqc, parents[0]);
      SignExactly(u, b);
    }
  }

  /** `update` leaves deliveries, votes and running certificates alone. */
  lemma UpdateKeepsVotes(c: Core, n: Blk, b: Blk)
    ensures var u := Update(c, n).core;
            && u.vheight == c.vheight && u.tails == c.tails && u.id == c.id && u.nmajority == c.nmajority
            && VotedFor(u, b) == VotedFor(c, b) && (Delivered(u, b) <==> Delivered(c, b))
            && (b in c.storage ==> b in u.storage && u.storage[b].selfQc == c.storage[b].selfQc)
  {
    hide Update, Grows;
  }

  // --- the pace maker ---

  /** Where the tail stands after `hqc` moved from `hqc` to `hqc'`: unmoved, or a highest block among `hqc'` and
      the tails that extend it. */
  predicate TailFollowsHqc(hqc: Blk, t: Blk, hqc': Blk, tails: set<Blk>, t': Blk) {
    if hqc' == hqc then t' == t
    else && IsAncestor(hqc', t') && (t' == hqc' || t' in tails)
         && forall x <- tails :: IsAncestor(hqc', x) ==> Height(x) <= Height(t')
  }

  lemma TailAfterUpdateExactly(c: Core, t: Blk, c': Core, t': Blk)
    ensures TailAfterUpdate(c, t, c', t') <==> TailFollowsHqc(c.hqc, t, c'.hqc, c'.tails, t')
  {
    hide Height;
  }

  /** A received proposal that extends `hqc` and is higher than the tail becomes the tail; any other leaves it. */
  lemma ReceiveTailExactly(c: Core, t: Blk, c': Core, b: Blk, t': Blk)
    ensures ReceiveTail(c, t, c', b, t') <==>
              exists t1 :: && TailFollowsHqc(c.hqc, t, c'.hqc, c'.tails, t1)
                           && t' == if IsAncestor(c'.hqc, b) && Height(b) > Height(t1) then b else t1
    ensures ReceiveTail(c, t, c', b, t') && IsAncestor(c'.hqc, b) ==> Height(t') >= Height(b)
    ensures ReceiveTail(c, t, c', b, t') && c'.hqc == c.hqc ==>
              t' == if IsAncestor(c.hqc, b) && Height(b) > Height(t) then b else t
  {
    hide TailAfterUpdate, TailFollowsHqc, Height, IsAncestor;
    forall t1
      ensures TailAfterUpdate(c, t, c', t1) <==> TailFollowsHqc(c.hqc, t, c'.hqc, c'.tails, t1)
      ensures c'.hqc == c.hqc && TailFollowsHqc(c.hqc, t, c'.hqc, c'.tails, t1) ==> t1 == t
    {
      TailAfterUpdateExactly(c, t, c', t1);
      UnmovedTail(c.hqc, t, c'.tails, t1);
    }
    if ReceiveTail(c, t, c', b, t') {
      var t1 :| TailAfterUpdate(c, t, c', t1) && t' == TailAfterReceive(c'.hqc, t1, b);
      assert TailFollowsHqc(c.hqc, t, c'.hqc, c'.tails, t1);
    }
    if t1 :| TailFollowsHqc(c.hqc, t, c'.hqc, c'.tails, t1)
             && t' == if IsAncestor(c'.hqc, b) && Height(b) > Height(t1) then b else t1 {
      assert TailAfterUpdate(c, t, c', t1) && t' == TailAfterReceive(c'.hqc, t1, b);
    }
  }

  lemma UnmovedTail(hqc: Blk, t: Blk, tails: set<Blk>, t1: Blk)
    ensures TailFollowsHqc(hqc, t, hqc, tails, t1) <==> t1 == t
  {
  }

  // --- decisions ---

  /** How many commands the first `k` blocks carry. */
  function CommandsIn(blks: seq<Blk>, k: nat): nat
    requires k <= |blks|
  {
    if k == 0 then 0 else CommandsIn(blks, k - 1) + if blks[k - 1].Node? then |blks[k - 1].cmds| else 0
  }

  lemma {:induction false} CommandsInPrefix(blks: seq<Blk>, m: nat, k: nat)
    requires k <= m <= |blks|
    ensures CommandsIn(blks[..m], k) == CommandsIn(blks, k) <= CommandsIn(blks, m)
    decreases k, m
  {
    if k > 0 {
      CommandsInPrefix(blks, m, k - 1);
    }
    if k < m {
      CommandsInGrows(blks, k, m);
    }
  }

  lemma {:induction false} CommandsInGrows(blks: seq<Blk>, k: nat, m: nat)
    requires k <= m <= |blks|
    ensures CommandsIn(blks, k) <= CommandsIn(blks, m)
    decreases m
  {
    if k < m {
      CommandsInGrows(blks, k, m - 1);
    }
  }

  /** One decision for each command of each block, in order: its index, height, command and block. */
  lemma {:induction false} DecisionsExactly(id: ReplicaId, blks: seq<Blk>, k: nat, i: nat)
    ensures |Finalities(id, blks)| == CommandsIn(blks, |blks|)
    ensures k < |blks| && blks[k].Node? && i < |blks[k].cmds| ==>
              && CommandsIn(blks, k) + i < |Finalities(id, blks)|
              && Finalities(id, blks)[CommandsIn(blks, k) + i] == Finality(id, 1, i, Height(blks[k]), blks[k].cmds[i], blks[k])
    decreases |blks|
  {
    hide Height;
    if |blks| > 0 {
      var m := |blks| - 1;
      DecisionsExactly(id, blks[..m], k, i);
      CommandsInPrefix(blks, m, m);
      if k < m {
        CommandsInPrefix(blks, m, k);
      }
    }
  }
}
