/** A run in which a replica proposes a block that another replica proposed and voted for first. */
module RepeatedProposal {
  import opened Wrappers
  import opened BlockTree
  import opened CoreSpec
  import opened Ballots
  import opened HighTail
  import opened Network
  import opened Proposals
  import opened Scenarios

  /** The block both replica 1 and replica 0 come up with. */
  const TWICE: Blk := Node([Genesis], [], Some(EmptyCert(4, Genesis)), [])

  lemma TwiceFacts()
    ensures Height(TWICE) == 1 && Height(Genesis) == 0 && QcRef(TWICE) == Genesis && EmptyCert(4, TWICE).obj == TWICE
    ensures FOUR.Valid() && forall V :: Deliverable(FOUR, V, TWICE)
  {
    FourReplicas();
    EmptyCertShape(4);
  }

  /** A replica that knows genesis and this one block, with what it collected for the block. */
  predicate HoldsTwice(c: Core, id: ReplicaId, vheight: nat, s: BlkState) {
    && c.id == id && c.nreplicas == 4 && c.nmajority == 3 && !c.voteDisabled
    && c.hqc == c.lock == c.exec == Genesis && c.hqcCert == EmptyCert(4, Genesis) && c.vheight == vheight
    && c.tails == {TWICE} && c.storage.Keys == {Genesis, TWICE}
    && c.storage[TWICE] == s && c.storage[Genesis].delivered && c.storage[Genesis].decision
  }

  /** Voted for by `voted`, but certified by `signed` only. */
  function CollectedTwice(voted: set<ReplicaId>, signed: ReplicaId): BlkState {
    BlkState(true, false, voted, Some(AddPart(EmptyCert(4, TWICE), signed, Sig(signed, TWICE))))
  }

  lemma Hold(id: ReplicaId)
    ensures TWICE in Fetch(Init(id, 4), TWICE).storage
    ensures HoldsTwice(OnDeliver(Fetch(Init(id, 4), TWICE), TWICE).core, id, 0, BlkState(true, false, {}, None))
  {
    hide Grows, EmptyCert, AllReplicas;
    var c := Fetch(Init(id, 4), TWICE);
    FourReplicas();
    TwiceFacts();
    assert SetOf([Genesis]) == {Genesis};
    assert c.storage.Keys == {Genesis, TWICE};
    assert ParentsDelivered(c.storage, TWICE);
  }

  lemma FirstVote(c: Core)
    requires HoldsTwice(c, 0, 0, BlkState(true, false, {}, None))
    ensures HoldsTwice(OnReceiveVote(c, SelfVote(1, TWICE)).core, 0, 0, CollectedTwice({1}, 1))
  {
    hide OnReceiveVote, Grows, AddPart, EmptyCert, UpdateHqc;
    TwiceFacts();
    CountedVote(c, SelfVote(1, TWICE));
    assert {} + {1 as nat} == {1};
  }

  lemma Drafted(c: Core)
    requires HoldsTwice(c, 0, 0, CollectedTwice({1}, 1))
    ensures HoldsTwice(OnDeliver(Draft(c, TWICE), TWICE).core, 0, 0, BlkState(true, false, {1}, Some(EmptyCert(4, TWICE))))
    ensures OnDeliver(Draft(c, TWICE), TWICE).outcome.Ok?
  {
    hide Grows, AddPart, EmptyCert;
    assert SetOf([Genesis]) == {Genesis} && {TWICE} - {Genesis} == {TWICE};
  }

  lemma Signed(c: Core)
    requires HoldsTwice(c, 0, 0, BlkState(true, false, {1}, Some(EmptyCert(4, TWICE))))
    ensures SignOwn(c, TWICE).outcome.Ok? && SignOwn(c, TWICE).vote == Some(SelfVote(0, TWICE))
    ensures HoldsTwice(SignOwn(c, TWICE).core, 0, 1, CollectedTwice({0, 1}, 0))
  {
    TwiceFacts();
    hide OnReceiveVote, Grows, AddPart, EmptyCert, UpdateHqc, Height, Deliverable;
    CountedVote(c.(vheight := 1), SelfVote(0, TWICE));
    assert {1 as nat} + {0} == {0, 1};
  }

  lemma ProposedAgain(c: Core)
    requires HoldsTwice(c, 0, 0, CollectedTwice({1}, 1))
    ensures NewBlock(c, [], [Genesis], []) == TWICE
    ensures var e := OnPropose(c, [], [Genesis], []);
            && e.outcome.Ok? && e.vote == Some(SelfVote(0, TWICE)) && HoldsTwice(e.core, 0, 1, CollectedTwice({0, 1}, 0))
  {
    hide OnDeliver, Draft, SignOwn, UpdateFrame, Grows, CollectedTwice, EmptyCert, Height, Deliverable;
    TwiceFacts();
    Drafted(c);
    var d := OnDeliver(Draft(c, TWICE), TWICE).core;
    assert Update(d, TWICE) == Effect(d, Ok, None);
    Signed(d);
  }

  lemma TwoSignatures()
    ensures |AddPart(AddPart(EmptyCert(4, TWICE), 0, Sig(0, TWICE)), 2, Sig(2, TWICE)).sigs| == 2
  {
    var q := AddPart(AddPart(EmptyCert(4, TWICE), 0, Sig(0, TWICE)), 2, Sig(2, TWICE));
    assert q.sigs == map[0 := Sig(0, TWICE), 2 := Sig(2, TWICE)];
  }

  /** The third counted vote completes a certificate with two signatures. */
  lemma Completed(c: Core)
    requires HoldsTwice(c, 0, 1, CollectedTwice({0, 1}, 0))
    ensures var e := OnReceiveVote(c, SelfVote(2, TWICE));
            && e.outcome.Ok? && e.core.hqc == TWICE && |e.core.hqcCert.sigs| == 2 && e.core.tails == {TWICE}
  {
    hide OnReceiveVote, Grows, AddPart, EmptyCert, Height;
    TwiceFacts();
    TwoSignatures();
    CountedVote(c, SelfVote(2, TWICE));
    assert |{0 as nat, 1}| == 2;
  }

  /** A reachable state where replica 1 and the replicas in `signers` signed the block. */
  ghost predicate At(g: Global, signers: set<ReplicaId>) {
    && Reachable(FOUR, true, g) && {0, 2} <= g.reps.Keys
    && forall r <- signers :: Ballot(r, TWICE) in g.votes
  }

  /** Replica `i` fetches and delivers the block. */
  lemma ObtainTwice(g: Global, signers: set<ReplicaId>, i: ReplicaId) returns (g': Global)
    requires At(g, signers) && i in g.reps
    requires g.reps[i].core == Init(i, 4) && g.reps[i].tail == Genesis
    ensures At(g', signers) && forall j <- g.reps :: j != i ==> j in g'.reps && g'.reps[j] == g.reps[j]
    ensures i in g'.reps && HoldsTwice(g'.reps[i].core, i, 0, BlkState(true, false, {}, None)) && g'.reps[i].tail == Genesis
  {
    hide Reachable, Deliverable, HoldsTwice, Fetch, OnDeliver, Init, Height;
    TwiceFacts();
    Hold(i);
    var g1 := TakeStep(FOUR, true, g, FetchBlock(i, TWICE), Genesis);
    g' := TakeStep(FOUR, true, g1, Deliver(i, TWICE), Genesis);
  }

  /** Replica 0 counts the vote of replica 1. */
  lemma CountFirst(g: Global) returns (g': Global)
    requires At(g, {1}) && g.reps[0].tail == Genesis && HoldsTwice(g.reps[0].core, 0, 0, BlkState(true, false, {}, None))
    ensures At(g', {1}) && g'.reps[2] == g.reps[2]
    ensures HoldsTwice(g'.reps[0].core, 0, 0, CollectedTwice({1}, 1)) && g'.reps[0].tail == Genesis
  {
    hide Reachable, CollectedTwice, OnReceiveVote;
    FourReplicas();
    FirstVote(g.reps[0].core);
    g' := TakeStep(FOUR, true, g, ReceiveVote(0, SelfVote(1, TWICE)), Genesis);
  }

  /** Replica 0 proposes the block itself. */
  lemma ProposeAgain(g: Global) returns (g': Global)
    requires At(g, {1}) && g.reps[0].tail == Genesis && HoldsTwice(g.reps[0].core, 0, 0, CollectedTwice({1}, 1))
    ensures At(g', {0, 1}) && g'.reps[2] == g.reps[2]
    ensures HoldsTwice(g'.reps[0].core, 0, 1, CollectedTwice({0, 1}, 0)) && g'.reps[0].tail == TWICE
  {
    hide Reachable, CollectedTwice, OnPropose, HoldsTwice, NewBlock;
    FourReplicas();
    ProposedAgain(g.reps[0].core);
    g' := TakeStep(FOUR, true, g, Propose(0, [], []), TWICE);
  }

  /** Replica 2 votes for the block it received. */
  lemma VoteForTwice(g: Global) returns (g': Global)
    requires At(g, {0, 1}) && g.reps[2].tail == Genesis && HoldsTwice(g.reps[2].core, 2, 0, BlkState(true, false, {}, None))
    ensures At(g', {0, 1, 2}) && g'.reps[0] == g.reps[0]
  {
    hide Reachable, Height, Grows, EmptyCert;
    FourReplicas();
    TwiceFacts();
    var c := g.reps[2].core;
    assert Update(c, TWICE) == Effect(c, Ok, None);
    WalkDecidesAncestor(Genesis, TWICE);
    var f := OnReceiveProposal(c, TWICE);
    assert f == Effect(c.(vheight := 1), Ok, Some(SelfVote(2, TWICE)));
    assert TailAfterUpdate(c, Genesis, f.core, Genesis);
    assert ReceiveTail(c, Genesis, f.core, TWICE, TWICE);
    g' := TakeStep(FOUR, true, g, ReceiveProposal(2, TWICE), TWICE);
  }

  /** Replica 0 counts the third vote, and proposes with the certificate that has two signatures. */
  lemma CountThird(g: Global) returns (g': Global)
    requires At(g, {0, 1, 2}) && g.reps[0].tail == TWICE && HoldsTwice(g.reps[0].core, 0, 1, CollectedTwice({0, 1}, 0))
    ensures Reachable(FOUR, true, g') && 0 in g'.reps
    ensures g'.reps[0].core.hqc == TWICE && |g'.reps[0].core.hqcCert.sigs| == 2
  {
    hide Reachable, CollectedTwice, OnReceiveVote, Height;
    FourReplicas();
    Completed(g.reps[0].core);
    var f := OnReceiveVote(g.reps[0].core, SelfVote(2, TWICE));
    assert TailChoice(TWICE, {TWICE}, TWICE);
    g' := TakeStep(FOUR, true, g, ReceiveVote(0, SelfVote(2, TWICE)), TWICE);
  }

  /** A reachable state in which replica 0's next proposal, whatever its content, is refused everywhere. */
  ghost predicate Refused(g: Global) {
    && FOUR.Valid() && Reachable(FOUR, true, g) && 0 in Honest(FOUR) && 0 in g.reps && g.reps[0].core.hqc == TWICE
    && forall cmds, extra :: !Deliverable(FOUR, g.votes, NewBlock(g.reps[0].core, cmds, [g.reps[0].tail], extra))
  }

  lemma TooFewIsRefused(g: Global)
    requires Reachable(FOUR, true, g) && 0 in g.reps && g.reps[0].core.hqc == TWICE && |g.reps[0].core.hqcCert.sigs| == 2
    ensures Refused(g)
  {
    FourReplicas();
    var gs, es :| RunBy(FOUR, true, gs, es) && gs[|es|] == g;
    CheckedRuns(FOUR, gs, es);
    hide Run, RunBy, Deliverable, NewBlock;
    forall cmds, extra
      ensures !Deliverable(FOUR, g.votes, NewBlock(g.reps[0].core, cmds, [g.reps[0].tail], extra))
    {
      ProposalDeliverableExactly(FOUR, gs, es, |es|, 0, cmds, extra);
    }
  }

  /** Replica 1 signs the block; replica 0 counts that vote, proposes the block itself, counts its own
      vote and, third, replica 2's.  It then proposes what no replica delivers. */
  lemma RepeatedProposalRun()
    ensures exists g :: Refused(g)
  {
    hide Reachable, Refused, HoldsTwice, CollectedTwice, Init;
    FourReplicas();
    StartReachable(FOUR, true);
    var g := TakeForge(FOUR, true, Start(FOUR), 1, TWICE);
    g := ObtainTwice(g, {1}, 0);
    g := CountFirst(g);
    g := ProposeAgain(g);
    g := ObtainTwice(g, {0, 1}, 2);
    g := VoteForTwice(g);
    g := CountThird(g);
    TooFewIsRefused(g);
  }
}
