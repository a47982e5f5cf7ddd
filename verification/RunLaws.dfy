/** What happens in runs: what a replica does with each event, and what that leaves behind. */
module RunLaws {
  import opened Wrappers
  import opened BlockTree
  import opened CoreSpec
  import opened Ballots
  import opened ReplicaInv
  import opened HighTail
  import opened Network
  import opened Laws

  /** What is known before and after a step of a run. */
  lemma AtStep(cfg: Config, gs: seq<Global>, es: seq<Event>, k: nat, i: ReplicaId)
    requires Run(cfg, gs, es) && k < |es| && !es[k].Forge? && es[k].i == i
    ensures Next(cfg, gs[k], es[k], gs[k + 1])
    ensures i in gs[k].reps && i in gs[k + 1].reps && gs[k].reps[i].core.id == i
    ensures BallotInv(cfg, gs[k].votes) && RepInv(cfg, gs[k].votes, gs[k].reps[i].core)
    ensures TailInv(gs[k].reps[i].core, gs[k].reps[i].tail)
    ensures BallotInv(cfg, gs[k + 1].votes) && RepInv(cfg, gs[k + 1].votes, gs[k + 1].reps[i].core)
  {
    hide BallotInv, RepInv, TailInv, Takes;
    RunInv(cfg, gs, es, k);
    RunInv(cfg, gs, es, k + 1);
    assert ReplicaOk(cfg, gs[k].votes, gs[k].reps[i]);
    assert ReplicaOk(cfg, gs[k + 1].votes, gs[k + 1].reps[i]);
  }

  function ErrorOf(o: Outcome): set<Error> {
    match o
    case Ok => {}
    case Throw(e) => {e}
  }

  /** Which handler an event runs, and what becomes of its exception.  The other replicas do not notice. */
  lemma HandlerOfEvent(cfg: Config, gs: seq<Global>, es: seq<Event>, k: nat, i: ReplicaId)
    requires Run(cfg, gs, es) && k < |es| && !es[k].Forge? && es[k].i == i
    ensures i in gs[k].reps && i in gs[k + 1].reps && gs[k + 1].reps.Keys == gs[k].reps.Keys
    ensures forall j <- gs[k].reps :: j != i ==> gs[k + 1].reps[j] == gs[k].reps[j]
    ensures var c, c' := gs[k].reps[i].core, gs[k + 1].reps[i].core;
            var thrown := gs[k + 1].reps[i].raised;
            match es[k]
            case FetchBlock(_, b) => c' == Fetch(c, b) && thrown == gs[k].reps[i].raised
            case Deliver(_, b) =>
              b in c.storage && c' == OnDeliver(c, b).core && thrown == gs[k].reps[i].raised + ErrorOf(OnDeliver(c, b).outcome)
            case Propose(_, cmds, extra) =>
              var e := OnPropose(c, cmds, [gs[k].reps[i].tail], extra);
              c' == e.core && thrown == gs[k].reps[i].raised + ErrorOf(e.outcome)
            case ReceiveProposal(_, b) =>
              c' == OnReceiveProposal(c, b).core && thrown == gs[k].reps[i].raised + ErrorOf(OnReceiveProposal(c, b).outcome)
            case ReceiveVote(_, v) =>
              c' == OnReceiveVote(c, v).core && thrown == gs[k].reps[i].raised + ErrorOf(OnReceiveVote(c, v).outcome)
            case SetVoteDisabled(_, flag) => c' == c.(voteDisabled := flag) && thrown == gs[k].reps[i].raised
    ensures es[k].FetchBlock? || es[k].Deliver? || es[k].ReceiveVote? || es[k].SetVoteDisabled? ==> gs[k + 1].votes == gs[k].votes
  {
    hide BallotInv, RepInv, TailInv, TailStep, Grows, Fetch, OnDeliver, OnPropose, OnReceiveProposal, OnReceiveVote, Deliverable;
    AtStep(cfg, gs, es, k, i);
  }

  /** A received proposal: the lock follows, the replica votes exactly by the rule, and a block three
      certificates deep is committed. */
  lemma ProposalHandled(cfg: Config, gs: seq<Global>, es: seq<Event>, k: nat, i: ReplicaId, b: Blk)
    requires Run(cfg, gs, es) && k < |es| && es[k] == ReceiveProposal(i, b)
    requires i in gs[k].reps && Delivered(gs[k].reps[i].core, b)
    ensures i in gs[k + 1].reps
    ensures var c, c' := gs[k].reps[i].core, gs[k + 1].reps[i].core;
            var lock := LockAfter(c.lock, b);
            var accepts := && Height(b) > c.vheight
                           && ((HasQcRef(b) && Height(QcRef(b)) > Height(lock)) || IsAncestor(lock, b));
            && c'.lock == lock && c'.vheight == (if accepts then Height(b) else c.vheight)
            && gs[k + 1].votes == gs[k].votes + (if accepts && !c.voteDisabled then {Ballot(i, b)} else {})
            && (ThreeInRow(b) ==> Decided(c', Third(b)) && (Third(b).Node? ==> Third(b) in c'.committed))
            && (forall x :: x in c'.committed <==> x in c.committed || (ThreeInRow(b) && x.Node? && IsAncestor(x, Third(b))))
  {
    hide BallotInv, RepInv, TailInv, TailStep, Grows, OnReceiveProposal, LockAfter, Height, IsAncestor, ThreeInRow, Update,
         UpdateFrame;
    AtStep(cfg, gs, es, k, i);
    var c := gs[k].reps[i].core;
    ProposalExactly(cfg, gs[k].votes, c, b);
    UpdateExactly(cfg, gs[k].votes, c, b);
    CommittedAreDecided(cfg, gs[k].votes, c);
    ThirdIsItself(b);
  }

  lemma ThirdIsItself(b: Blk)
    ensures ThreeInRow(b) ==> IsAncestor(Third(b), Third(b))
  {
    hide ThreeInRow;
  }

  /** A proposal: the block has these commands and extends the tail, and unless the replica has voted at its
      height it is signed and becomes the tail. */
  lemma ProposalMade(cfg: Config, gs: seq<Global>, es: seq<Event>, k: nat, i: ReplicaId, cmds: seq<Cmd>, extra: seq<nat>)
    requires Run(cfg, gs, es) && k < |es| && es[k] == Propose(i, cmds, extra) && i in gs[k].reps
    ensures i in gs[k + 1].reps
    ensures var r, r' := gs[k].reps[i], gs[k + 1].reps[i];
            var b := Node([r.tail], cmds, Some(r.core.hqcCert), extra);
            && Delivered(r'.core, b)
            && if Height(r.tail) + 1 > r.core.vheight then
                 && gs[k + 1].votes == gs[k].votes + {Ballot(i, b)} && r'.core.vheight == Height(b) == Height(r.tail) + 1
                 && r'.tail == b && r'.raised == r.raised
               else
                 gs[k + 1].votes == gs[k].votes && r'.core.vheight == r.core.vheight && r'.raised == r.raised + {NotAboveVheight}
  {
    hide BallotInv, RepInv, Grows, OnPropose, LockAfter, IsAncestor, ThreeInRow, VotedFor, TailsDelivered, TailAfterUpdate;
    AtStep(cfg, gs, es, k, i);
    var r := gs[k].reps[i];
    ProposeExactly(cfg, gs[k].votes, r.core, cmds, [r.tail], extra);
  }

  /** While `hqc` stays, the tail never falls. */
  lemma TailStaysUp(cfg: Config, gs: seq<Global>, es: seq<Event>, k: nat, i: ReplicaId)
    requires Run(cfg, gs, es) && k < |es| && i in gs[k].reps && i in gs[k + 1].reps
    requires gs[k + 1].reps[i].core.hqc == gs[k].reps[i].core.hqc
    ensures Height(gs[k + 1].reps[i].tail) >= Height(gs[k].reps[i].tail)
  {
    hide BallotInv, RepInv, TailInv, Grows, OnPropose, OnReceiveProposal, OnReceiveVote, Fetch, OnDeliver, IsAncestor, ReceiveTail;
    assert Next(cfg, gs[k], es[k], gs[k + 1]);
    if !es[k].Forge? && es[k].i == i && es[k].ReceiveProposal? {
      ReceiveTailExactly(gs[k].reps[i].core, gs[k].reps[i].tail, gs[k + 1].reps[i].core, es[k].blk, gs[k + 1].reps[i].tail);
    }
  }

  lemma {:induction false} TailStaysUpFor(cfg: Config, gs: seq<Global>, es: seq<Event>, k: nat, m: nat, i: ReplicaId)
    requires Run(cfg, gs, es) && k <= m < |gs| && i in Honest(cfg)
    requires forall j :: k <= j <= m && i in gs[j].reps && i in gs[m].reps ==> gs[j].reps[i].core.hqc == gs[m].reps[i].core.hqc
    ensures i in gs[k].reps && i in gs[m].reps && Height(gs[m].reps[i].tail) >= Height(gs[k].reps[i].tail)
    decreases m
  {
    hide GlobalInv, Next, Height, InitGlobal;
    RunInv(cfg, gs, es, k);
    RunInv(cfg, gs, es, m);
    if k < m {
      RunInv(cfg, gs, es, m - 1);
      assert gs[m - 1].reps[i].core.hqc == gs[m].reps[i].core.hqc;
      TailStaysUp(cfg, gs, es, m - 1, i);
      TailStaysUpFor(cfg, gs, es, k, m - 1, i);
    }
  }

  /** The tail is at least as high as every proposal handled since `hqc` last rose that extends `hqc`. */
  lemma TailKeepsUp(cfg: Config, gs: seq<Global>, es: seq<Event>, k: nat, m: nat, i: ReplicaId, b: Blk)
    requires Run(cfg, gs, es) && k < m < |gs| && i in Honest(cfg) && es[k] == ReceiveProposal(i, b)
    requires i in gs[k].reps && Delivered(gs[k].reps[i].core, b)
    requires forall j :: k < j <= m && i in gs[j].reps && i in gs[m].reps ==> gs[j].reps[i].core.hqc == gs[m].reps[i].core.hqc
    requires i in gs[m].reps && IsAncestor(gs[m].reps[i].core.hqc, b)
    ensures Height(gs[m].reps[i].tail) >= Height(b)
  {
    hide BallotInv, RepInv, TailInv, Grows, OnReceiveProposal, Height, IsAncestor, ReceiveTail, Update;
    AtStep(cfg, gs, es, k, i);
    ProposalExactly(cfg, gs[k].votes, gs[k].reps[i].core, b);
    ReceiveTailExactly(gs[k].reps[i].core, gs[k].reps[i].tail, gs[k + 1].reps[i].core, b, gs[k + 1].reps[i].tail);
    TailStaysUpFor(cfg, gs, es, k + 1, m, i);
  }

  /** What a replica has reported, in every reachable state: one decision for each command of each committed
      block, in order, with the replica's name, the command's index, the block's height and the command. */
  lemma DecisionsOfRun(cfg: Config, gs: seq<Global>, es: seq<Event>, k: nat, i: ReplicaId, p: nat, q: nat)
    requires Run(cfg, gs, es) && k < |gs| && i in Honest(cfg)
    ensures i in gs[k].reps
    ensures var c := gs[k].reps[i].core;
            && |c.log| == CommandsIn(c.committed, |c.committed|)
            && (p < |c.committed| ==> c.committed[p].Node?)
            && (p < |c.committed| && q < |c.committed[p].cmds| ==>
                  && CommandsIn(c.committed, p) + q < |c.log|
                  && c.log[CommandsIn(c.committed, p) + q] == Finality(i, 1, q, p + 1, c.committed[p].cmds[q], c.committed[p]))
  {
    hide BallotInv, Structure, Pointers, Ordered, ExecCommitted, OwnBallots, Counted, TailInv, Finalities, CommandsIn, Height, Branch;
    RunInv(cfg, gs, es, k);
    var c := gs[k].reps[i].core;
    assert ReplicaOk(cfg, gs[k].votes, gs[k].reps[i]);
    DecisionsExactly(i, c.committed, p, q);
    CommitsOncePerHeight(cfg, gs, es, k, i, p);
  }

  /** Every replica takes part in the start and in every step, as a new replica does at first. */
  lemma EveryoneStarts(cfg: Config, gs: seq<Global>, es: seq<Event>, k: nat, i: ReplicaId)
    requires Run(cfg, gs, es) && k < |gs|
    ensures i in gs[k].reps <==> i < cfg.n && i !in cfg.faulty
    ensures i in gs[0].reps ==> gs[0].reps[i] == Replica(Init(i, cfg.n), Genesis, {}) && gs[0].votes == {}
  {
    hide BallotInv, RepInv, TailInv, Next, Init;
    RunInv(cfg, gs, es, k);
  }

  /** A replica may be asked for anything but an undeliverable block or a vote nobody signed, and a faulty
      one may sign anything. */
  lemma AlwaysEnabled(cfg: Config, g: Global, i: ReplicaId, b: Blk, cmds: seq<Cmd>, extra: seq<nat>, flag: bool)
    requires cfg.Valid() && g.reps.Keys == Honest(cfg)
    ensures i in g.reps ==> && Enabled(cfg, g, FetchBlock(i, b)) && Enabled(cfg, g, Propose(i, cmds, extra))
                            && Enabled(cfg, g, ReceiveProposal(i, b)) && Enabled(cfg, g, SetVoteDisabled(i, flag))
    ensures i < cfg.n && i !in g.reps ==> Enabled(cfg, g, Forge(i, b))
    ensures i in g.reps ==> forall r: nat :: r < cfg.n && Ballot(r, b) in g.votes ==>
                              Enabled(cfg, g, ReceiveVote(i, Vote(r, b, PartCert(b, Sig(r, b)))))
  {
  }
}
