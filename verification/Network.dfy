/** Whole runs: honest replicas, at most (n-1)/3 faulty ones, and messages in any order. */
module Network {
  import opened Wrappers
  import opened BlockTree
  import opened CoreSpec
  import opened Ballots
  import opened ReplicaInv
  import opened HighTail

  /** A replica: its core, its pace maker's tail and the exceptions its handlers have raised so far. */
  datatype Replica = Replica(core: Core, tail: Blk, raised: set<Error>)

  /** The honest replicas' states and the signatures that exist. */
  datatype Global = Global(reps: map<ReplicaId, Replica>, votes: set<Ballot>)

  datatype Event =
    | Forge(r: ReplicaId, blk: Blk)                      // a faulty replica signs anything
    | FetchBlock(i: ReplicaId, blk: Blk)
    | Deliver(i: ReplicaId, blk: Blk)
    | Propose(i: ReplicaId, cmds: seq<Cmd>, extra: seq<nat>)
    | ReceiveProposal(i: ReplicaId, blk: Blk)
    | ReceiveVote(i: ReplicaId, vote: Vote)
    | SetVoteDisabled(i: ReplicaId, flag: bool)

  /** Signatures of honest replicas are not forged. */
  predicate SignaturesExist(cert: Cert, V: set<Ballot>) {
    forall r <- cert.sigs :: cert.sigs[r].Sig? ==> Ballot(cert.sigs[r].signer, cert.sigs[r].msg) in V
  }

  /** What `async_deliver_blk` checks of a block before delivery. */
  predicate Admissible(cfg: Config, V: set<Ballot>, b: Blk)
    requires cfg.Valid()
  {
    && HasParent(b)
    && BlockVerifies(b, cfg.n, Majority(cfg.n))
    && (HasQcRef(b) ==> CertShape(b.qc.value) && SignaturesExist(b.qc.value, V))
  }

  /** The premise it leaves unchecked: the certified block lies on the block's own branch. */
  predicate OnOwnBranch(b: Blk) {
    HasParent(b) && HasQcRef(b) ==> IsAncestor(QcRef(b), Parent(b))
  }

  predicate Deliverable(cfg: Config, V: set<Ballot>, b: Blk)
    requires cfg.Valid()
  {
    Admissible(cfg, V, b) && OnOwnBranch(b)
  }

  function Honest(cfg: Config): set<ReplicaId> {
    AllReplicas(cfg.n) - cfg.faulty
  }

  ghost predicate InitGlobal(cfg: Config, g: Global)
    requires cfg.Valid()
  {
    && g.reps.Keys == Honest(cfg)
    && g.votes == {}
    && forall i <- g.reps :: g.reps[i] == Replica(Init(i, cfg.n), Genesis, {})
  }

  /** The step a replica's core takes on an event; the event may end in an exception. */
  function CoreStep(c: Core, tail: Blk, e: Event): (f: Effect)
    ensures f.vote.Some? ==> f.vote.value.voter == c.id
  {
    match e
    case Forge(_, _) => Effect(c, Ok, None)
    case FetchBlock(_, b) => Effect(Fetch(c, b), Ok, None)
    case Deliver(_, b) => if b in c.storage then OnDeliver(c, b) else Effect(c, Ok, None)
    case Propose(_, cmds, extra) => OnPropose(c, cmds, [tail], extra)
    case ReceiveProposal(_, b) => OnReceiveProposal(c, b)
    case ReceiveVote(_, v) => OnReceiveVote(c, v)
    case SetVoteDisabled(_, flag) => Effect(c.(voteDisabled := flag), Ok, None)
  }

  ghost predicate TailStep(c: Core, t: Blk, e: Event, f: Effect, t': Blk) {
    match e
    case Propose(_, cmds, extra) =>
      if f.outcome.Ok? then t' == NewBlock(c, cmds, [t], extra) else TailAfterUpdate(c, t, f.core, t')
    case ReceiveProposal(_, b) => if f.outcome.Ok? then ReceiveTail(c, t, f.core, b, t') else TailAfterUpdate(c, t, f.core, t')
    case ReceiveVote(_, _) => TailAfterUpdate(c, t, f.core, t')
    case _ => t' == t
  }

  /** What the network guarantees of an event. */
  predicate Enabled(cfg: Config, g: Global, e: Event)
    requires cfg.Valid()
  {
    match e
    case Forge(r, _) => r < cfg.n && r in cfg.faulty
    case Deliver(i, b) => i in g.reps && b in g.reps[i].core.storage && Deliverable(cfg, g.votes, b)
    case ReceiveVote(i, v) => i in g.reps && VoteVerifies(v, cfg.n) && Ballot(v.voter, v.blk) in g.votes
    case _ => e.i in g.reps
  }

  /** What an event changes: one replica and what it signs, or, for a forged signature, nothing else. */
  ghost predicate Takes(g: Global, e: Event, g': Global)
    requires e.Forge? || e.i in g.reps
  {
    if e.Forge? then g' == g.(votes := g.votes + {Ballot(e.r, e.blk)})
    else
      var r := g.reps[e.i];
      var f := CoreStep(r.core, r.tail, e);
      && g'.votes == (if f.vote.Some? then g.votes + {Ballot(f.vote.value.voter, f.vote.value.blk)} else g.votes)
      && g'.reps.Keys == g.reps.Keys
      && (forall j <- g.reps :: j != e.i ==> g'.reps[j] == g.reps[j])
      && g'.reps[e.i].core == f.core
      && g'.reps[e.i].raised == r.raised + (if f.outcome.Throw? then {f.outcome.error} else {})
      && TailStep(r.core, r.tail, e, f, g'.reps[e.i].tail)
  }

  ghost predicate Next(cfg: Config, g: Global, e: Event, g': Global)
    requires cfg.Valid()
  {
    Enabled(cfg, g, e) && Takes(g, e, g')
  }

  ghost predicate ReplicaOk(cfg: Config, V: set<Ballot>, r: Replica) {
    RepInv(cfg, V, r.core) && TailInv(r.core, r.tail) && SafetyBreached !in r.raised
  }

  ghost predicate GlobalInv(cfg: Config, g: Global) {
    && BallotInv(cfg, g.votes)
    && g.reps.Keys == Honest(cfg)
    && (forall i <- g.reps :: g.reps[i].core.id == i)
    && (forall i <- g.reps :: ReplicaOk(cfg, g.votes, g.reps[i]))
  }

  lemma InitGlobalInv(cfg: Config, g: Global)
    requires cfg.Valid() && InitGlobal(cfg, g)
    ensures GlobalInv(cfg, g)
  {
    forall i <- g.reps
      ensures ReplicaOk(cfg, g.votes, g.reps[i])
    {
      InitInv(cfg, i);
    }
    forall b
      ensures Voters(cfg, {}, b) == {}
    {
    }
  }

  lemma DeliverableIsJustified(cfg: Config, V: set<Ballot>, b: Blk)
    requires cfg.Valid() && Deliverable(cfg, V, b)
    ensures Justified(cfg, V, b)
  {
    if HasQcRef(b) && !QcRef(b).Genesis? {
      var cert := b.qc.value;
      forall r <- cert.sigs
        ensures r in Voters(cfg, V, cert.obj)
      {
        assert cert.rids[r];
      }
      SubsetCardinality(cert.sigs.Keys, Voters(cfg, V, cert.obj));
    }
  }

  /** In a state all of whose delivered blocks are in order, deliver a block with a certified certificate and
      let the voting rule accept it.  The vote is one the safety argument allows exactly if the certificate
      lies on the block's own branch: the first vote for a block off its branch is the first to break it. */
  lemma VoteSafeOnBranch(cfg: Config, V: set<Ballot>, c: Core, b: Blk)
    requires BallotInv(cfg, V) && RepInv(cfg, V, c) && b in c.storage
    requires HasParent(b) && (HasQcRef(b) ==> Certified(cfg, V, QcRef(b))) && OnDeliver(c, b).outcome.Ok?
    requires MayVote(Update(OnDeliver(c, b).core, b).core, b)
    ensures MaySign(cfg, V, c.id, b) <==> OnOwnBranch(b)
  {
    hide BallotInv, RepInv, OnDeliver, Update, MayVote, IsAncestor, Certified;
    RepMeans(cfg, V, c);
    if OnOwnBranch(b) {
      assert Justified(cfg, V, b);
      DeliverInv(cfg, V, c, b);
      var d := OnDeliver(c, b).core;
      UpdateInv(cfg, V, d, b);
      VotingRuleIsSafe(cfg, V, Update(d, b).core, b);
    }
  }

  lemma ReceiveVoteStep(cfg: Config, V: set<Ballot>, r: Replica, v: Vote, t': Blk)
    requires ReplicaOk(cfg, V, r)
    requires v.voter < cfg.n && Ballot(v.voter, v.blk) in V
    requires TailAfterUpdate(r.core, r.tail, OnReceiveVote(r.core, v).core, t')
    ensures ReplicaOk(cfg, V, Replica(OnReceiveVote(r.core, v).core, t', r.raised))
  {
    var c' := OnReceiveVote(r.core, v).core;
    ReceiveVoteInv(cfg, V, r.core, v);
    assert Delivered(c', c'.hqc);
    hide OnReceiveVote, RepInv;
    UpdateKeepsTail(r.core, r.tail, c', t');
  }

  lemma ReceiveProposalStep(cfg: Config, V: set<Ballot>, r: Replica, b: Blk, t': Blk)
    requires BallotInv(cfg, V) && ReplicaOk(cfg, V, r)
    requires var f := OnReceiveProposal(r.core, b);
             if f.outcome.Ok? then ReceiveTail(r.core, r.tail, f.core, b, t') else TailAfterUpdate(r.core, r.tail, f.core, t')
    ensures var f := OnReceiveProposal(r.core, b);
            var V' := if f.vote.Some? then V + {Ballot(r.core.id, b)} else V;
            && BallotInv(cfg, V') && ReplicaOk(cfg, V', Replica(f.core, t', r.raised))
            && f.outcome != Throw(SafetyBreached)
  {
    var c' := OnReceiveProposal(r.core, b).core;
    ReceiveProposalInv(cfg, V, r.core, b);
    assert Delivered(c', c'.hqc);
    hide RepInv, BallotInv, Update;
    if Delivered(r.core, b) {
      ReceiveKeepsTail(r.core, r.tail, c', b, t');
    }
  }

  lemma ProposeStep(cfg: Config, V: set<Ballot>, r: Replica, cmds: seq<Cmd>, extra: seq<nat>, t': Blk)
    requires BallotInv(cfg, V) && ReplicaOk(cfg, V, r)
    requires var f := OnPropose(r.core, cmds, [r.tail], extra);
             if f.outcome.Ok? then t' == NewBlock(r.core, cmds, [r.tail], extra) else TailAfterUpdate(r.core, r.tail, f.core, t')
    ensures var f := OnPropose(r.core, cmds, [r.tail], extra);
            var V' := if f.vote.Some? then V + {Ballot(r.core.id, NewBlock(r.core, cmds, [r.tail], extra))} else V;
            && BallotInv(cfg, V') && ReplicaOk(cfg, V', Replica(f.core, t', r.raised))
            && f.outcome != Throw(SafetyBreached)
  {
    var c' := OnPropose(r.core, cmds, [r.tail], extra).core;
    ProposeGrows(r.core, cmds, [r.tail], extra);
    ProposeInv(cfg, V, r.core, cmds, [r.tail], extra);
    assert Delivered(c', c'.hqc);
    hide RepInv, BallotInv, OnPropose;
    if OnPropose(r.core, cmds, [r.tail], extra).outcome.Throw? {
      UpdateKeepsTail(r.core, r.tail, c', t');
    }
  }

  lemma OkMeans(cfg: Config, V: set<Ballot>, r: Replica)
    requires ReplicaOk(cfg, V, r)
    ensures cfg.Valid() && RepInv(cfg, V, r.core) && TailInv(r.core, r.tail) && SafetyBreached !in r.raised
  {
  }

  lemma GrowsKeepsId(c: Core, c': Core)
    requires Grows(c, c')
    ensures c'.id == c.id
  {
  }

  lemma TailStays(c: Core, t: Blk, c': Core)
    requires TailInv(c, t) && Grows(c, c') && c'.hqc == c.hqc
    ensures TailInv(c', t)
  {
  }

  lemma FetchKeepsPointers(c: Core, b: Blk)
    ensures Fetch(c, b) == c.(storage := Fetch(c, b).storage)
  {
  }

  lemma DeliverNeverBreaches(c: Core, b: Blk)
    requires b in c.storage
    ensures OnDeliver(c, b).outcome != Throw(SafetyBreached)
  {
  }

  lemma VoteDisabledInv(cfg: Config, V: set<Ballot>, r: Replica, flag: bool)
    requires ReplicaOk(cfg, V, r)
    ensures ReplicaOk(cfg, V, Replica(r.core.(voteDisabled := flag), r.tail, r.raised))
    ensures Grows(r.core, r.core.(voteDisabled := flag))
  {
    hide Structure, Counted, IsAncestor, Height, Finalities, Branch;
  }

  /** One replica's step: the ballots, its core and its tail all stay in order, and the
      "safety breached" exception is not raised. */
  lemma ReplicaStep(cfg: Config, V: set<Ballot>, r: Replica, e: Event, t': Blk)
    requires BallotInv(cfg, V) && ReplicaOk(cfg, V, r)
    requires !e.Forge?
    requires e.Deliver? ==> e.blk in r.core.storage && Deliverable(cfg, V, e.blk)
    requires e.ReceiveVote? ==> VoteVerifies(e.vote, cfg.n) && Ballot(e.vote.voter, e.vote.blk) in V
    requires TailStep(r.core, r.tail, e, CoreStep(r.core, r.tail, e), t')
    ensures var f := CoreStep(r.core, r.tail, e);
            var V' := if f.vote.Some? then V + {Ballot(f.vote.value.voter, f.vote.value.blk)} else V;
            && BallotInv(cfg, V') && ReplicaOk(cfg, V', Replica(f.core, t', r.raised))
            && f.outcome != Throw(SafetyBreached) && Grows(r.core, f.core) && f.core.id == r.core.id
  {
    hide BallotInv, RepInv, TailInv, Grows, OnPropose, OnReceiveProposal, OnReceiveVote, Fetch, OnDeliver, TailAfterUpdate;
    OkMeans(cfg, V, r);
    var f := CoreStep(r.core, r.tail, e);
    if Grows(r.core, f.core) { GrowsKeepsId(r.core, f.core); }
    match e
    case FetchBlock(_, b) =>
      FetchInv(cfg, V, r.core, b);
      FetchKeepsPointers(r.core, b);
      TailStays(r.core, r.tail, Fetch(r.core, b));
    case Deliver(_, b) =>
      DeliverableIsJustified(cfg, V, b);
      DeliverInv(cfg, V, r.core, b);
      TailStays(r.core, r.tail, OnDeliver(r.core, b).core);
      DeliverNeverBreaches(r.core, b);
    case Propose(_, cmds, extra) =>
      ProposeGrows(r.core, cmds, [r.tail], extra);
      ProposeStep(cfg, V, r, cmds, extra, t');
    case ReceiveProposal(_, b) =>
      ReceiveProposalStep(cfg, V, r, b, t');
    case ReceiveVote(_, v) =>
      ReceiveVoteStep(cfg, V, r, v, t');
    case SetVoteDisabled(_, flag) =>
      VoteDisabledInv(cfg, V, r, flag);
  }

  lemma ForgeKeepsInv(cfg: Config, g: Global, e: Event, g': Global)
    requires GlobalInv(cfg, g) && Next(cfg, g, e, g') && e.Forge?
    ensures GlobalInv(cfg, g')
    ensures g'.reps == g.reps
  {
    hide RepInv, BallotInv, TailInv;
    CastKeepsBallotInv(cfg, g.votes, e.r, e.blk);
    forall i <- g.reps
      ensures ReplicaOk(cfg, g'.votes, g'.reps[i])
    {
      RepInvMonotone(cfg, g.votes, g'.votes, g.reps[i].core);
    }
  }

  lemma StepKeepsInv(cfg: Config, g: Global, e: Event, g': Global)
    requires GlobalInv(cfg, g) && Next(cfg, g, e, g')
    ensures GlobalInv(cfg, g')
    ensures forall i <- g.reps :: Grows(g.reps[i].core, g'.reps[i].core)
  {
    hide RepInv, BallotInv, TailInv, TailStep, Grows, Deliverable, CoreStep;
    if e.Forge? {
      ForgeKeepsInv(cfg, g, e, g');
    } else {
      ReplicaStep(cfg, g.votes, g.reps[e.i], e, g'.reps[e.i].tail);
    }
    forall i <- g.reps
      ensures ReplicaOk(cfg, g'.votes, g'.reps[i]) && Grows(g.reps[i].core, g'.reps[i].core)
    {
      if e.Forge? || i != e.i {
        GrowsReflexive(g.reps[i].core);
        if !e.Forge? {
          RepInvMonotone(cfg, g.votes, g'.votes, g.reps[i].core);
        }
      }
    }
  }

  // --- runs ---

  /** A run: `gs[k + 1]` follows from `gs[k]` by `es[k]`. */
  ghost predicate Run(cfg: Config, gs: seq<Global>, es: seq<Event>) {
    && cfg.Valid()
    && |gs| == |es| + 1
    && InitGlobal(cfg, gs[0])
    && forall k :: 0 <= k < |es| ==> Next(cfg, gs[k], es[k], gs[k + 1])
  }

  lemma {:induction false} RunInv(cfg: Config, gs: seq<Global>, es: seq<Event>, k: nat)
    requires Run(cfg, gs, es) && k < |gs|
    ensures GlobalInv(cfg, gs[k]) && gs[k].reps.Keys == Honest(cfg)
  {
    hide Next, RepInv, BallotInv, TailInv;
    if k == 0 {
      InitGlobalInv(cfg, gs[0]);
    } else {
      RunInv(cfg, gs, es, k - 1);
      StepKeepsInv(cfg, gs[k - 1], es[k - 1], gs[k]);
    }
  }

  /** In no run does any honest replica raise "safety breached". */
  lemma NoSafetyBreach(cfg: Config, gs: seq<Global>, es: seq<Event>, k: nat, i: ReplicaId)
    requires Run(cfg, gs, es) && k < |gs| && i in gs[k].reps
    ensures SafetyBreached !in gs[k].reps[i].raised
  {
    RunInv(cfg, gs, es, k);
    assert ReplicaOk(cfg, gs[k].votes, gs[k].reps[i]);
  }

  /** What a replica committed stays committed, in place. */
  lemma {:induction false} CommitsOnlyGrow(cfg: Config, gs: seq<Global>, es: seq<Event>, k: nat, m: nat, i: ReplicaId)
    requires Run(cfg, gs, es) && k <= m < |gs| && i in Honest(cfg)
    ensures i in gs[k].reps && i in gs[m].reps
    ensures gs[k].reps[i].core.committed <= gs[m].reps[i].core.committed
  {
    hide GlobalInv, Next;
    assert forall r: nat :: r in AllReplicas(cfg.n) <==> r < cfg.n;
    RunInv(cfg, gs, es, m);
    if k < m {
      CommitsOnlyGrow(cfg, gs, es, k, m - 1, i);
      RunInv(cfg, gs, es, m - 1);
      StepKeepsInv(cfg, gs[m - 1], es[m - 1], gs[m]);
    }
  }

  lemma {:induction false} BranchPrefix(a: Blk, b: Blk)
    requires IsAncestor(a, b)
    ensures Branch(a, 0) <= Branch(b, 0)
  {
    BranchSplits(b, a);
  }

  lemma {:induction false} CommitHeights(b: Blk, k: nat)
    requires k < |Branch(b, 0)|
    ensures Height(Branch(b, 0)[k]) == k + 1 && IsAncestor(Branch(b, 0)[k], b)
    decreases b
  {
    BranchLength(b);
    if k < |Branch(b, 0)| - 1 {
      CommitHeights(Parent(b), k);
    }
  }

  lemma {:induction false} BranchLength(b: Blk)
    ensures |Branch(b, 0)| == Height(b)
    decreases b
  {
    if Height(b) > 0 {
      BranchLength(Parent(b));
    }
  }

  /** Two executed blocks, of any two replicas, are on one branch. */
  lemma ExecsComparable(cfg: Config, V: set<Ballot>, c: Core, d: Core)
    requires BallotInv(cfg, V) && RepInv(cfg, V, c) && RepInv(cfg, V, d)
    ensures IsAncestor(c.exec, d.exec) || IsAncestor(d.exec, c.exec)
  {
    if c.exec.Genesis? {
      GenesisIsAncestor(cfg, V, d, d.exec);
    } else if d.exec.Genesis? {
      GenesisIsAncestor(cfg, V, c, c.exec);
    } else {
      var c1, c2 :| ThreeChain(c.exec, c1, c2) && Certified(cfg, V, c2);
      var d1, d2 :| ThreeChain(d.exec, d1, d2) && Certified(cfg, V, d2);
      ThreeChainCertified(cfg, V, c.exec, c1, c2);
      ThreeChainCertified(cfg, V, d.exec, d1, d2);
      if Height(c.exec) <= Height(d.exec) {
        CertifiedExtendsCommitted(cfg, V, c.exec, c1, c2, d.exec);
      } else {
        CertifiedExtendsCommitted(cfg, V, d.exec, d1, d2, c.exec);
      }
    }
  }

  /** What `do_decide` reports, apart from the reporting replica's own name. */
  datatype Decision = Decision(decision: int, cmdIdx: nat, height: nat, cmd: Cmd, blk: Blk)

  function Decisions(log: seq<Finality>): seq<Decision> {
    seq(|log|, k requires 0 <= k < |log| => Decision(log[k].decision, log[k].cmdIdx, log[k].height, log[k].cmd, log[k].blk))
  }

  lemma DecisionsConcat(p: seq<Finality>, q: seq<Finality>)
    ensures Decisions(p + q) == Decisions(p) + Decisions(q)
  {
  }

  lemma BlockDecisions(i: ReplicaId, j: ReplicaId, b: Blk)
    ensures Decisions(BlockFinalities(i, b)) == Decisions(BlockFinalities(j, b))
  {
    hide Height;
  }

  lemma {:induction false} DecisionsIgnoreReplica(i: ReplicaId, j: ReplicaId, blks: seq<Blk>)
    ensures Decisions(Finalities(i, blks)) == Decisions(Finalities(j, blks))
    decreases |blks|
  {
    hide Decisions, BlockFinalities;
    if |blks| > 0 {
      var rest, last := blks[..|blks| - 1], blks[|blks| - 1];
      DecisionsIgnoreReplica(i, j, rest);
      BlockDecisions(i, j, last);
      DecisionsConcat(Finalities(i, rest), BlockFinalities(i, last));
      DecisionsConcat(Finalities(j, rest), BlockFinalities(j, last));
    }
  }

  /** Agreement: at any two moments of any run, the blocks committed by any two honest replicas, and
      the decisions they report, are prefixes one of the other. */
  lemma Agreement(cfg: Config, gs: seq<Global>, es: seq<Event>, k: nat, m: nat, i: ReplicaId, j: ReplicaId)
    requires Run(cfg, gs, es) && k <= m < |gs| && i in Honest(cfg) && j in Honest(cfg)
    ensures i in gs[k].reps && j in gs[m].reps
    ensures var c, d := gs[k].reps[i].core, gs[m].reps[j].core;
            || (c.committed <= d.committed && Decisions(c.log) <= Decisions(d.log))
            || (d.committed <= c.committed && Decisions(d.log) <= Decisions(c.log))
  {
    CommitsOnlyGrow(cfg, gs, es, k, m, i);
    RunInv(cfg, gs, es, k);
    RunInv(cfg, gs, es, m);
    var c, c', d := gs[k].reps[i].core, gs[m].reps[i].core, gs[m].reps[j].core;
    assert ReplicaOk(cfg, gs[k].votes, gs[k].reps[i]);
    assert ReplicaOk(cfg, gs[m].votes, gs[m].reps[i]);
    assert ReplicaOk(cfg, gs[m].votes, gs[m].reps[j]);
    CommittedComparable(cfg, gs[m].votes, c', d);
    if c.committed <= d.committed {
      DecisionsPrefix(i, c.committed, j, d.committed);
    } else {
      DecisionsPrefix(j, d.committed, i, c.committed);
    }
  }

  lemma CommittedComparable(cfg: Config, V: set<Ballot>, c: Core, d: Core)
    requires BallotInv(cfg, V) && RepInv(cfg, V, c) && RepInv(cfg, V, d)
    ensures c.committed <= d.committed || d.committed <= c.committed
  {
    ExecsComparable(cfg, V, c, d);
    if IsAncestor(c.exec, d.exec) {
      BranchPrefix(c.exec, d.exec);
    } else {
      BranchPrefix(d.exec, c.exec);
    }
  }

  lemma DecisionsPrefix(i: ReplicaId, s: seq<Blk>, j: ReplicaId, t: seq<Blk>)
    requires s <= t
    ensures Decisions(Finalities(i, s)) <= Decisions(Finalities(j, t))
  {
    assert t == s + t[|s|..];
    FinalitiesConcat(j, s, t[|s|..]);
    DecisionsIgnoreReplica(i, j, s);
    assert Decisions(Finalities(j, s)) <= Decisions(Finalities(j, t));
  }

  /** Every replica commits blocks one height at a time: the k-th committed block has height k + 1. */
  lemma CommitsOncePerHeight(cfg: Config, gs: seq<Global>, es: seq<Event>, k: nat, i: ReplicaId, p: nat)
    requires Run(cfg, gs, es) && k < |gs| && i in Honest(cfg)
    ensures i in gs[k].reps
    ensures p < |gs[k].reps[i].core.committed| ==> Height(gs[k].reps[i].core.committed[p]) == p + 1
    ensures forall b :: b in gs[k].reps[i].core.committed <==> b.Node? && Decided(gs[k].reps[i].core, b)
  {
    RunInv(cfg, gs, es, k);
    var c := gs[k].reps[i].core;
    assert ReplicaOk(cfg, gs[k].votes, gs[k].reps[i]);
    if p < |c.committed| {
      CommitHeights(c.exec, p);
    }
    forall b
      ensures b in c.committed <==> b.Node? && Decided(c, b)
    {
      BranchMembers(c.exec, 0, b);
      if IsAncestor(b, c.exec) && b.Node? {
        AncestorDelivered(c.storage, b, c.exec);
        assert Justified(cfg, gs[k].votes, b);
      }
    }
  }

  /** Honest proposers meet the premise of delivery: what they sign carries a certificate for a
      certified block on its own branch. */
  lemma HonestBlocksOnOwnBranch(cfg: Config, gs: seq<Global>, es: seq<Event>, k: nat, i: ReplicaId, b: Blk)
    requires Run(cfg, gs, es) && k < |gs| && i in Honest(cfg) && Ballot(i, b) in gs[k].votes
    ensures HasParent(b) && (HasQcRef(b) ==> IsAncestor(QcRef(b), Parent(b)) && Certified(cfg, gs[k].votes, QcRef(b)))
  {
    RunInv(cfg, gs, es, k);
    assert Justified(cfg, gs[k].votes, b);
  }

  /** At any moment of any run two certified blocks of one height are the same block. */
  lemma OneCertificatePerHeight(cfg: Config, gs: seq<Global>, es: seq<Event>, k: nat, x: Blk, y: Blk)
    requires Run(cfg, gs, es) && k < |gs|
    requires Certified(cfg, gs[k].votes, x) && Certified(cfg, gs[k].votes, y) && Height(x) == Height(y)
    ensures x == y
  {
    RunInv(cfg, gs, es, k);
    OneCertifiedPerHeight(cfg, gs[k].votes, x, y);
  }

  /** Decided, locked and highest certified blocks stay strictly ordered in every reachable state, so
      the early returns of `update` on a decided block skip no raise of `hqc` or of the lock. */
  lemma DecidedLockHqcOrdered(cfg: Config, gs: seq<Global>, es: seq<Event>, k: nat, i: ReplicaId, b: Blk)
    requires Run(cfg, gs, es) && k < |gs| && i in Honest(cfg)
    ensures i in gs[k].reps
    ensures var c := gs[k].reps[i].core;
            && (c.lock.Node? ==> Height(c.lock) < Height(c.hqc))
            && (Decided(c, b) && b.Node? ==> Height(b) < Height(c.lock))
            && (Decided(c, b) ==> UpdateHqc(c, b, c.hqcCert) == c && RaiseLock(c, b) == c)
            && IsAncestor(c.hqc, gs[k].reps[i].tail)
  {
    RunInv(cfg, gs, es, k);
    var c := gs[k].reps[i].core;
    assert ReplicaOk(cfg, gs[k].votes, gs[k].reps[i]);
    if Decided(c, b) && b.Node? {
      DecidedBelowLock(cfg, gs[k].votes, c, b);
    }
  }
}
