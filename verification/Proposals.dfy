/** What honest replicas propose is accepted by every replica that holds the block's ancestors. */
module Proposals {
  import opened Wrappers
  import opened BlockTree
  import opened CoreSpec
  import opened Ballots
  import opened ReplicaInv
  import opened HighTail
  import opened Certificates
  import opened Network

  /** Valid signatures of configured replicas, the ones the bitmap names. */
  predicate SoundCert(cfg: Config, V: set<Ballot>, cert: Cert) {
    && CertShape(cert) && SignaturesExist(cert, V)
    && forall r <- cert.sigs :: r < cfg.n && cert.sigs[r] == Sig(r, cert.obj)
  }

  predicate FullCert(cfg: Config, cert: Cert)
    requires cfg.Valid()
  {
    cert.obj.Genesis? || |cert.sigs| >= Majority(cfg.n)
  }

  lemma SoundVerifies(cfg: Config, V: set<Ballot>, cert: Cert)
    requires cfg.Valid() && SoundCert(cfg, V, cert)
    ensures Verifies(cert, cfg.n, Majority(cfg.n)) <==> |cert.sigs| >= Majority(cfg.n)
  {
  }

  /** Sound, and full too in runs where no proposal resets a certificate that holds votes. */
  predicate GoodCert(cfg: Config, V: set<Ballot>, strict: bool, cert: Cert)
    requires cfg.Valid()
  {
    SoundCert(cfg, V, cert) && (strict ==> FullCert(cfg, cert))
  }

  predicate InOrder(strict: bool, c: Core, b: Blk)
    requires b in c.storage
  {
    PartlyCollected(c, b) && (strict ==> Collected(c, b))
  }

  /** Running certificates hold what was counted; every certificate a replica may pass on is good. */
  ghost predicate CertInv(cfg: Config, V: set<Ballot>, strict: bool, c: Core)
    requires cfg.Valid()
  {
    && GoodCert(cfg, V, strict, c.hqcCert)
    && (forall b <- c.storage :: b.Node? ==> InOrder(strict, c, b))
    && (forall b :: Delivered(c, b) && HasQcRef(b) && QcRef(b).Node? ==> GoodCert(cfg, V, strict, b.qc.value))
  }

  /** A certificate that passed the checks before delivery is good. */
  lemma AdmissibleIsGood(cfg: Config, V: set<Ballot>, b: Blk)
    requires cfg.Valid() && Admissible(cfg, V, b) && HasQcRef(b) && QcRef(b).Node?
    ensures GoodCert(cfg, V, true, b.qc.value)
  {
  }

  /** No replica proposes a block that has counted votes already. */
  predicate FreshProposal(c: Core, tail: Blk, e: Event) {
    e.Propose? ==>
      var b := NewBlock(c, e.cmds, [tail], e.extra);
      b in c.storage ==> c.storage[b].voted == {}
  }

  lemma GoodWithMoreBallots(cfg: Config, V: set<Ballot>, V': set<Ballot>, strict: bool, c: Core)
    requires cfg.Valid() && CertInv(cfg, V, strict, c) && V <= V'
    ensures CertInv(cfg, V', strict, c)
  {
    forall b | Delivered(c, b) && HasQcRef(b) && QcRef(b).Node?
      ensures GoodCert(cfg, V', strict, b.qc.value)
    {
      assert GoodCert(cfg, V, strict, b.qc.value);
    }
  }

  lemma UpdateKeepsCerts(cfg: Config, V: set<Ballot>, strict: bool, c: Core, b: Blk)
    requires cfg.Valid() && CertInv(cfg, V, strict, c) && Delivered(c, b)
    ensures CertInv(cfg, V, strict, Update(c, b).core)
  {
    var c' := Update(c, b).core;
    assert c'.hqcCert == c.hqcCert || (HasQcRef(b) && QcRef(b).Node? && c'.hqcCert == b.qc.value);
    hide Grows, Update, GoodCert, CertShape, HoldsSome;
    SameVotesKeepCerts(cfg, V, strict, c, c');
  }

  /** Nothing a certificate depends on changed. */
  lemma SameVotesKeepCerts(cfg: Config, V: set<Ballot>, strict: bool, c: Core, c': Core)
    requires cfg.Valid() && CertInv(cfg, V, strict, c) && GoodCert(cfg, V, strict, c'.hqcCert)
    requires OnlyDecides(c.storage, c'.storage) && c'.nreplicas == c.nreplicas
    ensures CertInv(cfg, V, strict, c')
  {
    hide GoodCert, CertShape, HoldsSome;
    forall b <- c'.storage | b.Node?
      ensures InOrder(strict, c', b)
    {
      assert InOrder(strict, c, b);
      assert c'.storage[b].(decision := c.storage[b].decision) == c.storage[b];
    }
    forall b | Delivered(c', b)
      ensures Delivered(c, b)
    {
      assert c'.storage[b].(decision := c.storage[b].decision) == c.storage[b];
    }
  }

  lemma FetchKeepsCerts(cfg: Config, V: set<Ballot>, strict: bool, c: Core, b: Blk)
    requires cfg.Valid() && CertInv(cfg, V, strict, c)
    ensures CertInv(cfg, V, strict, Fetch(c, b))
  {
    hide GoodCert, CertShape, Grows;
    var c' := Fetch(c, b);
    forall x <- c'.storage | x.Node?
      ensures InOrder(strict, c', x)
    {
      if x in c.storage { assert InOrder(strict, c, x); }
    }
    assert forall x :: Delivered(c', x) ==> Delivered(c, x);
  }

  lemma DeliverKeepsCerts(cfg: Config, V: set<Ballot>, strict: bool, c: Core, b: Blk)
    requires cfg.Valid() && CertInv(cfg, V, strict, c) && b in c.storage
    requires HasQcRef(b) && QcRef(b).Node? ==> GoodCert(cfg, V, strict, b.qc.value)
    ensures CertInv(cfg, V, strict, OnDeliver(c, b).core)
  {
    hide GoodCert, CertShape, Grows, OnDeliver;
    var c' := OnDeliver(c, b).core;
    forall x <- c'.storage | x.Node?
      ensures InOrder(strict, c', x)
    {
      assert InOrder(strict, c, x);
    }
    assert forall x :: Delivered(c', x) ==> x == b || Delivered(c, x);
  }

  lemma CollectedIsSound(cfg: Config, V: set<Ballot>, c: Core, b: Blk)
    requires RepInv(cfg, V, c) && b in c.storage && b.Node? && PartlyCollected(c, b) && c.storage[b].selfQc.Some?
    ensures SoundCert(cfg, V, c.storage[b].selfQc.value)
  {
    assert c.storage[b].voted <= Voters(cfg, V, b);
  }

  lemma ReceiveVoteKeepsCerts(cfg: Config, V: set<Ballot>, strict: bool, c: Core, v: Vote)
    requires RepInv(cfg, V, c) && CertInv(cfg, V, strict, c)
    requires VoteVerifies(v, cfg.n) && Ballot(v.voter, v.blk) in V
    ensures CertInv(cfg, V, strict, OnReceiveVote(c, v).core)
  {
    hide OnReceiveVote, RepInv, GoodCert, HoldsSome, Grows, Completes;
    var c' := OnReceiveVote(c, v).core;
    ReceiveVoteInv(cfg, V, c, v);
    VoteChangesOnlyItsBlock(cfg, V, c, v);
    if c'.hqcCert != c.hqcCert {
      CompletionIsGood(cfg, V, strict, c, v);
    }
    RepMeans(cfg, V, c);
    forall b <- c'.storage | b.Node?
      ensures InOrder(strict, c', b)
    {
      assert InOrder(strict, c, b);
      CollectVote(c, b, v);
    }
  }

  lemma CompletionIsGood(cfg: Config, V: set<Ballot>, strict: bool, c: Core, v: Vote)
    requires RepInv(cfg, V, c) && RepInv(cfg, V, OnReceiveVote(c, v).core) && CertInv(cfg, V, strict, c)
    requires VoteVerifies(v, cfg.n) && v.blk.Node? && v.blk in c.storage && Completes(c, v.blk, v)
    requires v.blk in OnReceiveVote(c, v).core.storage
    requires OnReceiveVote(c, v).core.storage[v.blk].selfQc == Some(OnReceiveVote(c, v).core.hqcCert)
    ensures GoodCert(cfg, V, strict, OnReceiveVote(c, v).core.hqcCert)
  {
    hide OnReceiveVote, RepInv, HoldsSome, SoundCert, Grows;
    var c' := OnReceiveVote(c, v).core;
    assert InOrder(strict, c, v.blk);
    RepMeans(cfg, V, c);
    CollectVote(c, v.blk, v);
    CompleteVerifies(c, v.blk, v);
    CollectedIsSound(cfg, V, c', v.blk);
    SoundVerifies(cfg, V, c'.hqcCert);
  }

  lemma VoteChangesOnlyItsBlock(cfg: Config, V: set<Ballot>, c: Core, v: Vote)
    requires RepInv(cfg, V, c)
    ensures var c' := OnReceiveVote(c, v).core;
            && c'.storage.Keys == c.storage.Keys
            && (forall b :: Delivered(c', b) <==> Delivered(c, b))
            && (c'.hqcCert == c.hqcCert || (v.blk.Node? && v.blk in c.storage && Completes(c, v.blk, v)
                                            && c'.storage[v.blk].selfQc == Some(c'.hqcCert)))
  {
    hide OnReceiveVote, Grows, AddPart, EmptyCert, RepInv, Height;
    if Delivered(c, v.blk) && |c.storage[v.blk].voted| < c.nmajority && v.voter !in c.storage[v.blk].voted {
      CountedVote(c, v);
      GenesisIsFull(cfg, V, c);
    } else {
      IgnoredVote(c, v);
    }
  }

  lemma GenesisIsFull(cfg: Config, V: set<Ballot>, c: Core)
    requires RepInv(cfg, V, c)
    ensures Genesis in c.storage && |c.storage[Genesis].voted| >= c.nmajority
  {
    hide Structure, Pointers, Ordered, DecidedExactly, ExecCommitted, OwnBallots;
    RangeCardinality(cfg.n);
  }

  lemma CountedConfigured(n: nat, b: Blk, voted: set<ReplicaId>, selfQc: Option<Cert>)
    requires HoldsSome(n, b, voted, selfQc)
    ensures forall r <- voted :: r < n
  {
  }

  lemma EmptyIsSound(c: Core, b: Blk)
    requires b in c.storage && c.storage[b].selfQc == Some(EmptyCert(c.nreplicas, b))
    requires forall r <- c.storage[b].voted :: r < c.nreplicas
    ensures PartlyCollected(c, b)
  {
  }

  lemma DraftKeepsCerts(cfg: Config, V: set<Ballot>, strict: bool, c: Core, b: Blk)
    requires cfg.Valid() && CertInv(cfg, V, strict, c) && b.Node?
    requires strict && b in c.storage ==> c.storage[b].voted == {}
    ensures CertInv(cfg, V, strict, Draft(c, b))
  {
    hide GoodCert, Grows, HoldsSome;
    var c0 := c.(tails := c.tails - SetOf(b.parents));
    SameVotesKeepCerts(cfg, V, strict, c, c0);
    FetchKeepsCerts(cfg, V, strict, c0, b);
    DraftStartsOver(c, b);
    var c1, d := Fetch(c0, b), Draft(c, b);
    assert InOrder(strict, c1, b);
    CountedConfigured(c1.nreplicas, b, c1.storage[b].voted, c1.storage[b].selfQc);
    StartedOver(d, b);
    EmptyIsSound(d, b);
    forall x <- d.storage | x.Node?
      ensures InOrder(strict, d, x)
    {
      if x != b { assert InOrder(strict, c1, x); }
    }
    assert forall x :: Delivered(d, x) ==> Delivered(c1, x);
  }

  lemma DraftDeliveredCerts(cfg: Config, V: set<Ballot>, strict: bool, c: Core, b: Blk)
    requires cfg.Valid() && CertInv(cfg, V, strict, c) && HasQcRef(b) && b.qc.value == c.hqcCert
    requires strict && b in c.storage ==> c.storage[b].voted == {}
    ensures CertInv(cfg, V, strict, OnDeliver(Draft(c, b), b).core)
  {
    DraftKeepsCerts(cfg, V, strict, c, b);
    DeliverKeepsCerts(cfg, V, strict, Draft(c, b), b);
  }

  lemma SignKeepsCerts(cfg: Config, V: set<Ballot>, strict: bool, c: Core, b: Blk)
    requires RepInv(cfg, V, c) && CertInv(cfg, V, strict, c) && Delivered(c, b) && Height(b) > c.vheight
    requires LockFloor(b) <= Height(c.lock)
    ensures CertInv(cfg, V + {Ballot(c.id, b)}, strict, SignOwn(c, b).core)
  {
    SignInv(cfg, V, c, b);
    var V' := V + {Ballot(c.id, b)};
    var c1 := c.(vheight := Height(b));
    assert c.id < cfg.n;
    GoodWithMoreBallots(cfg, V, V', strict, c);
    SameVotesKeepCerts(cfg, V', strict, c, c1);
    ReceiveVoteKeepsCerts(cfg, V', strict, c1, SelfVote(c.id, b));
  }

  lemma UpdateAndSignKeepsCerts(cfg: Config, V: set<Ballot>, strict: bool, c: Core, b: Blk)
    requires BallotInv(cfg, V) && RepInv(cfg, V, c) && CertInv(cfg, V, strict, c) && Delivered(c, b)
    ensures var u := Update(c, b);
            && u.core.id == c.id && CertInv(cfg, V, strict, u.core)
            && (if SignOwn(u.core, b).vote.Some? then CertInv(cfg, V + {Ballot(c.id, b)}, strict, SignOwn(u.core, b).core)
                else SignOwn(u.core, b).core == u.core)
  {
    hide BallotInv, RepInv, CertInv, SignOwn, Update, Grows;
    RepMeans(cfg, V, c);
    UpdateInv(cfg, V, c, b);
    UpdateKeepsCerts(cfg, V, strict, c, b);
    if Height(b) > Update(c, b).core.vheight {
      SignKeepsCerts(cfg, V, strict, Update(c, b).core, b);
    } else {
      NotSigned(Update(c, b).core, b);
    }
  }

  lemma NotSigned(c: Core, b: Blk)
    requires Height(b) <= c.vheight
    ensures SignOwn(c, b).core == c
  {
  }

  lemma ProposeKeepsCerts(cfg: Config, V: set<Ballot>, strict: bool, c: Core, cmds: seq<Cmd>, parents: seq<Blk>, extra: seq<nat>)
    requires BallotInv(cfg, V) && RepInv(cfg, V, c) && CertInv(cfg, V, strict, c)
    requires parents != [] && IsAncestor(c.hqc, parents[0])
    requires var b := NewBlock(c, cmds, parents, extra); strict && b in c.storage ==> c.storage[b].voted == {}
    ensures var e := OnPropose(c, cmds, parents, extra);
            var V' := if e.vote.Some? then V + {Ballot(c.id, NewBlock(c, cmds, parents, extra))} else V;
            CertInv(cfg, V', strict, e.core)
  {
    hide BallotInv, RepInv, CertInv, Draft, OnDeliver, Update, UpdateFrame, Grows, Justified, SignOwn, IsAncestor;
    RepMeans(cfg, V, c);
    ProposalJustified(cfg, V, c, cmds, parents, extra);
    var b := NewBlock(c, cmds, parents, extra);
    DraftDelivered(cfg, V, c, b);
    DraftDeliveredCerts(cfg, V, strict, c, b);
    var d := OnDeliver(Draft(c, b), b);
    if d.outcome.Ok? {
      UpdateAndSignKeepsCerts(cfg, V, strict, d.core, b);
      UpdateInv(cfg, V, d.core, b);
      assert OnPropose(c, cmds, parents, extra) == SignOwn(Update(d.core, b).core, b);
    }
  }

  lemma ReceiveProposalKeepsCerts(cfg: Config, V: set<Ballot>, strict: bool, c: Core, b: Blk)
    requires RepInv(cfg, V, c) && CertInv(cfg, V, strict, c)
    ensures CertInv(cfg, V, strict, OnReceiveProposal(c, b).core)
  {
    hide Grows, Update;
    if Delivered(c, b) {
      UpdateKeepsCerts(cfg, V, strict, c, b);
      var u := Update(c, b).core;
      SameVotesKeepCerts(cfg, V, strict, u, u.(vheight := Height(b)));
    }
  }

  lemma HqcCertGood(cfg: Config, V: set<Ballot>, strict: bool, c: Core)
    requires cfg.Valid() && CertInv(cfg, V, strict, c)
    ensures GoodCert(cfg, V, strict, c.hqcCert)
  {
  }

  lemma GoodEitherWay(cfg: Config, V: set<Ballot>, strict: bool, cert: Cert)
    requires cfg.Valid() && GoodCert(cfg, V, true, cert)
    ensures GoodCert(cfg, V, strict, cert)
  {
  }

  lemma StepKeepsCerts(cfg: Config, V: set<Ballot>, strict: bool, r: Replica, e: Event)
    requires BallotInv(cfg, V) && ReplicaOk(cfg, V, r) && CertInv(cfg, V, strict, r.core)
    requires !e.Forge? && (strict ==> FreshProposal(r.core, r.tail, e))
    requires e.Deliver? ==> e.blk in r.core.storage && Deliverable(cfg, V, e.blk)
    requires e.ReceiveVote? ==> VoteVerifies(e.vote, cfg.n) && Ballot(e.vote.voter, e.vote.blk) in V
    ensures var f := CoreStep(r.core, r.tail, e);
            var V' := if f.vote.Some? then V + {Ballot(f.vote.value.voter, f.vote.value.blk)} else V;
            CertInv(cfg, V', strict, f.core)
  {
    hide BallotInv, RepInv, CertInv, Grows, OnPropose, OnReceiveProposal, OnReceiveVote, OnDeliver, Fetch, GoodCert, Admissible,
         BlockVerifies, CertShape, SignaturesExist;
    RepMeans(cfg, V, r.core);
    HqcCertGood(cfg, V, strict, r.core);
    if e.Deliver? && HasQcRef(e.blk) && QcRef(e.blk).Node? {
      AdmissibleIsGood(cfg, V, e.blk);
      GoodEitherWay(cfg, V, strict, e.blk.qc.value);
    }
    match e
    case FetchBlock(_, b) => FetchKeepsCerts(cfg, V, strict, r.core, b);
    case Deliver(_, b) => DeliverKeepsCerts(cfg, V, strict, r.core, b);
    case Propose(_, cmds, extra) => ProposeKeepsCerts(cfg, V, strict, r.core, cmds, [r.tail], extra);
    case ReceiveProposal(_, b) =>
      ReceiveProposalKeepsCerts(cfg, V, strict, r.core, b);
      var c' := OnReceiveProposal(r.core, b).core;
      GoodWithMoreBallots(cfg, V, V + {Ballot(r.core.id, b)}, strict, c');
    case ReceiveVote(_, v) => ReceiveVoteKeepsCerts(cfg, V, strict, r.core, v);
    case SetVoteDisabled(_, flag) => SameVotesKeepCerts(cfg, V, strict, r.core, r.core.(voteDisabled := flag));
  }

  // --- runs ---

  /** A run in which every proposed block is new or has no counted votes yet. */
  ghost predicate FreshRun(cfg: Config, gs: seq<Global>, es: seq<Event>) {
    && Run(cfg, gs, es)
    && forall k :: 0 <= k < |es| && es[k].Propose? && es[k].i in gs[k].reps ==>
                     FreshProposal(gs[k].reps[es[k].i].core, gs[k].reps[es[k].i].tail, es[k])
  }

  lemma {:induction false} RunKeepsCerts(cfg: Config, gs: seq<Global>, es: seq<Event>, strict: bool, k: nat, i: ReplicaId)
    requires Run(cfg, gs, es) && (strict ==> FreshRun(cfg, gs, es)) && k < |gs| && i in Honest(cfg)
    ensures i in gs[k].reps && CertInv(cfg, gs[k].votes, strict, gs[k].reps[i].core)
  {
    hide RepInv, BallotInv, TailInv, TailStep, Grows, Deliverable, CoreStep, CertInv, FreshProposal, GlobalInv, Takes;
    HonestAt(cfg, gs, es, k, i);
    if k == 0 {
      InitCerts(cfg, strict, i);
    } else {
      RunKeepsCerts(cfg, gs, es, strict, k - 1, i);
      HonestAt(cfg, gs, es, k - 1, i);
      EventKeepsCerts(cfg, gs[k - 1], es[k - 1], gs[k], strict, i);
    }
  }

  lemma HonestAt(cfg: Config, gs: seq<Global>, es: seq<Event>, k: nat, i: ReplicaId)
    requires Run(cfg, gs, es) && k < |gs| && i in Honest(cfg)
    ensures cfg.Valid() && GlobalInv(cfg, gs[k]) && i in gs[k].reps && i < cfg.n
    ensures k < |es| ==> Next(cfg, gs[k], es[k], gs[k + 1])
    ensures k == 0 ==> gs[k].reps[i].core == Init(i, cfg.n) && gs[k].votes == {}
  {
    hide Next, GlobalInv;
    RunInv(cfg, gs, es, k);
    assert forall r: nat :: r in AllReplicas(cfg.n) <==> r < cfg.n;
  }

  lemma EventKeepsCerts(cfg: Config, g: Global, e: Event, g': Global, strict: bool, i: ReplicaId)
    requires cfg.Valid() && GlobalInv(cfg, g) && Next(cfg, g, e, g') && i in g.reps && i in g'.reps
    requires CertInv(cfg, g.votes, strict, g.reps[i].core)
    requires strict && e.Propose? && e.i in g.reps ==> FreshProposal(g.reps[e.i].core, g.reps[e.i].tail, e)
    ensures CertInv(cfg, g'.votes, strict, g'.reps[i].core)
  {
    hide RepInv, BallotInv, TailInv, TailStep, Grows, Deliverable, CoreStep, CertInv;
    if e.Forge? || e.i != i {
      GoodWithMoreBallots(cfg, g.votes, g'.votes, strict, g.reps[i].core);
    } else {
      assert ReplicaOk(cfg, g.votes, g.reps[i]);
      StepKeepsCerts(cfg, g.votes, strict, g.reps[i], e);
    }
  }

  lemma InitCerts(cfg: Config, strict: bool, i: ReplicaId)
    requires cfg.Valid() && i < cfg.n
    ensures CertInv(cfg, {}, strict, Init(i, cfg.n))
  {
  }

  /** What an honest replica proposes next passes the checks every other replica makes before it
      delivers a block, and the premise it does not check, exactly if the certificate at hand has enough
      signatures or is genesis's; nothing else can be wrong with it. */
  lemma ProposalDeliverableExactly(cfg: Config, gs: seq<Global>, es: seq<Event>, k: nat, i: ReplicaId,
                                   cmds: seq<Cmd>, extra: seq<nat>)
    requires Run(cfg, gs, es) && k < |gs| && i in Honest(cfg)
    ensures i in gs[k].reps
    ensures var r := gs[k].reps[i];
            var b := NewBlock(r.core, cmds, [r.tail], extra);
            && (Deliverable(cfg, gs[k].votes, b) <==> r.core.hqc.Genesis? || |r.core.hqcCert.sigs| >= Majority(cfg.n))
            && OnOwnBranch(b) && Height(QcRef(b)) < Height(b)
  {
    hide RepInv, BallotInv, TailInv, CertInv, Run, Deliverable, NewBlock;
    HonestAt(cfg, gs, es, k, i);
    RunKeepsCerts(cfg, gs, es, false, k, i);
    var r := gs[k].reps[i];
    assert ReplicaOk(cfg, gs[k].votes, r);
    NextProposal(cfg, gs[k].votes, r, cmds, extra);
  }

  lemma NextProposal(cfg: Config, V: set<Ballot>, r: Replica, cmds: seq<Cmd>, extra: seq<nat>)
    requires cfg.Valid() && RepInv(cfg, V, r.core) && TailInv(r.core, r.tail) && CertInv(cfg, V, false, r.core)
    ensures var b := NewBlock(r.core, cmds, [r.tail], extra);
            && (Deliverable(cfg, V, b) <==> r.core.hqc.Genesis? || |r.core.hqcCert.sigs| >= Majority(cfg.n))
            && OnOwnBranch(b) && Height(QcRef(b)) < Height(b)
  {
    assert r.core.hqcCert.obj == r.core.hqc && IsAncestor(r.core.hqc, r.tail) && SoundCert(cfg, V, r.core.hqcCert);
    hide RepInv, TailInv, CertInv, Verifies, IsAncestor, SoundCert;
    SoundVerifies(cfg, V, r.core.hqcCert);
    SoundShape(cfg, V, r.core.hqcCert);
    AncestorHeight(r.core.hqc, r.tail);
  }

  lemma SoundShape(cfg: Config, V: set<Ballot>, cert: Cert)
    requires SoundCert(cfg, V, cert)
    ensures CertShape(cert) && SignaturesExist(cert, V)
  {
  }

  /** In a run where no proposal resets a certificate that holds votes, it always does. */
  lemma ProposalsAreDeliverable(cfg: Config, gs: seq<Global>, es: seq<Event>, k: nat, i: ReplicaId,
                                cmds: seq<Cmd>, extra: seq<nat>)
    requires FreshRun(cfg, gs, es) && k < |gs| && i in Honest(cfg)
    ensures i in gs[k].reps
    ensures var r := gs[k].reps[i];
            Deliverable(cfg, gs[k].votes, NewBlock(r.core, cmds, [r.tail], extra))
  {
    hide Deliverable, Run, RepInv, NewBlock;
    HonestAt(cfg, gs, es, k, i);
    RunKeepsCerts(cfg, gs, es, true, k, i);
    ProposalDeliverableExactly(cfg, gs, es, k, i, cmds, extra);
    HqcCertObject(cfg, gs[k], i);
  }

  lemma HqcCertObject(cfg: Config, g: Global, i: ReplicaId)
    requires GlobalInv(cfg, g) && i in g.reps
    ensures g.reps[i].core.hqcCert.obj == g.reps[i].core.hqc
  {
    assert ReplicaOk(cfg, g.votes, g.reps[i]);
  }
}
