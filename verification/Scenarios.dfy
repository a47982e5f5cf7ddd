/** Reachable states, built step by step, for the concrete runs of `RepeatedProposal` and `OffBranch`. */
module Scenarios {
  import opened BlockTree
  import opened CoreSpec
  import opened Ballots
  import opened HighTail
  import opened Network

  /** Enabled events; `checked` says whether delivery insists on the premise the program does not check. */
  predicate Allowed(cfg: Config, checked: bool, g: Global, e: Event)
    requires cfg.Valid()
  {
    if checked || !e.Deliver? then Enabled(cfg, g, e)
    else e.i in g.reps && e.blk in g.reps[e.i].core.storage && Admissible(cfg, g.votes, e.blk)
  }

  ghost predicate RunBy(cfg: Config, checked: bool, gs: seq<Global>, es: seq<Event>) {
    && cfg.Valid()
    && |gs| == |es| + 1
    && InitGlobal(cfg, gs[0])
    && forall k :: 0 <= k < |es| ==> Allowed(cfg, checked, gs[k], es[k]) && Takes(gs[k], es[k], gs[k + 1])
  }

  ghost predicate Reachable(cfg: Config, checked: bool, g: Global) {
    exists gs, es :: RunBy(cfg, checked, gs, es) && gs[|es|] == g
  }

  /** With the check these are the runs the theorems speak of. */
  lemma CheckedRuns(cfg: Config, gs: seq<Global>, es: seq<Event>)
    requires RunBy(cfg, true, gs, es)
    ensures Run(cfg, gs, es)
  {
    forall k | 0 <= k < |es|
      ensures Next(cfg, gs[k], es[k], gs[k + 1])
    {
      assert Allowed(cfg, true, gs[k], es[k]);
    }
  }

  function Start(cfg: Config): Global
    requires cfg.n > 0
  {
    Global(map i | i in Honest(cfg) :: Replica(Init(i, cfg.n), Genesis, {}), {})
  }

  lemma StartReachable(cfg: Config, checked: bool)
    requires cfg.Valid()
    ensures Reachable(cfg, checked, Start(cfg))
  {
    var gs, es: seq<Event> := [Start(cfg)], [];
    assert RunBy(cfg, checked, gs, es);
  }

  lemma StepReachable(cfg: Config, checked: bool, g: Global, e: Event, g': Global)
    requires cfg.Valid() && Reachable(cfg, checked, g) && Allowed(cfg, checked, g, e) && Takes(g, e, g')
    ensures Reachable(cfg, checked, g')
  {
    hide Takes, Deliverable, Admissible;
    var gs, es :| RunBy(cfg, checked, gs, es) && gs[|es|] == g;
    var hs, fs := gs + [g'], es + [e];
    forall k | 0 <= k < |fs|
      ensures Allowed(cfg, checked, hs[k], fs[k]) && Takes(hs[k], fs[k], hs[k + 1])
    {
      if k < |es| {
        assert hs[k] == gs[k] && hs[k + 1] == gs[k + 1] && fs[k] == es[k];
      }
    }
    assert RunBy(cfg, checked, hs, fs);
  }

  /** Replica `e.i` takes `e`, and its pace maker settles on `t'`. */
  lemma TakeStep(cfg: Config, checked: bool, g: Global, e: Event, t': Blk) returns (g': Global)
    requires cfg.Valid() && Reachable(cfg, checked, g) && Allowed(cfg, checked, g, e)
    requires !e.Forge? && e.i in g.reps
    requires TailStep(g.reps[e.i].core, g.reps[e.i].tail, e, CoreStep(g.reps[e.i].core, g.reps[e.i].tail, e), t')
    ensures Reachable(cfg, checked, g') && g'.reps.Keys == g.reps.Keys
    ensures forall j <- g.reps :: j != e.i ==> g'.reps[j] == g.reps[j]
    ensures var f := CoreStep(g.reps[e.i].core, g.reps[e.i].tail, e);
            && g'.reps[e.i].core == f.core && g'.reps[e.i].tail == t'
            && g'.votes == if f.vote.Some? then g.votes + {Ballot(f.vote.value.voter, f.vote.value.blk)} else g.votes
  {
    hide Allowed, TailStep, CoreStep, Reachable;
    var r := g.reps[e.i];
    var f := CoreStep(r.core, r.tail, e);
    g' := Global(g.reps[e.i := Replica(f.core, t', r.raised + (if f.outcome.Throw? then {f.outcome.error} else {}))],
                 if f.vote.Some? then g.votes + {Ballot(f.vote.value.voter, f.vote.value.blk)} else g.votes);
    assert Takes(g, e, g');
    StepReachable(cfg, checked, g, e, g');
  }

  /** A faulty replica signs. */
  lemma TakeForge(cfg: Config, checked: bool, g: Global, r: ReplicaId, b: Blk) returns (g': Global)
    requires cfg.Valid() && Reachable(cfg, checked, g) && r < cfg.n && r in cfg.faulty
    ensures Reachable(cfg, checked, g') && g' == g.(votes := g.votes + {Ballot(r, b)})
  {
    hide Reachable;
    g' := g.(votes := g.votes + {Ballot(r, b)});
    assert Takes(g, Forge(r, b), g');
    StepReachable(cfg, checked, g, Forge(r, b), g');
  }

  /** The `hqc` callback always finds a tail. */
  lemma {:induction false} TailExists(hqc: Blk, tails: set<Blk>)
    ensures exists t :: TailChoice(hqc, tails, t)
    decreases |tails|
  {
    if tails == {} {
      assert TailChoice(hqc, tails, hqc);
    } else {
      var x :| x in tails;
      TailExists(hqc, tails - {x});
      var t :| TailChoice(hqc, tails - {x}, t);
      var best := if IsAncestor(hqc, x) && Height(x) > Height(t) then x else t;
      assert TailChoice(hqc, tails, best);
    }
  }

  lemma TailAfterExists(c: Core, t: Blk, c': Core) returns (t': Blk)
    ensures TailAfterUpdate(c, t, c', t')
  {
    TailExists(c'.hqc, c'.tails);
    var t1 :| TailChoice(c'.hqc, c'.tails, t1);
    t' := if c'.hqc == c.hqc then t else t1;
  }

  /** Replica `i` handles a proposal, without an exception. */
  lemma TakeProposal(cfg: Config, checked: bool, g: Global, i: ReplicaId, b: Blk) returns (g': Global)
    requires cfg.Valid() && Reachable(cfg, checked, g) && i in g.reps && OnReceiveProposal(g.reps[i].core, b).outcome.Ok?
    ensures Reachable(cfg, checked, g') && g'.reps.Keys == g.reps.Keys
    ensures forall j <- g.reps :: j != i ==> g'.reps[j] == g.reps[j]
    ensures var f := OnReceiveProposal(g.reps[i].core, b);
            && g'.reps[i].core == f.core
            && g'.votes == if f.vote.Some? then g.votes + {Ballot(f.vote.value.voter, f.vote.value.blk)} else g.votes
  {
    hide Reachable, OnReceiveProposal, TailAfterUpdate, Takes, IsAncestor, Height;
    var r := g.reps[i];
    var f := OnReceiveProposal(r.core, b);
    var t := TailAfterExists(r.core, r.tail, f.core);
    var t' := TailAfterReceive(f.core.hqc, t, b);
    assert ReceiveTail(r.core, r.tail, f.core, b, t');
    g' := TakeStep(cfg, checked, g, ReceiveProposal(i, b), t');
  }

  /** Four replicas, replica 1 faulty. */
  const FOUR: Config := Config(4, {1})

  lemma FourReplicas()
    ensures FOUR.Valid() && Majority(4) == 3 && Honest(FOUR) == {0, 2, 3}
  {
    assert AllReplicas(4) == {0, 1, 2, 3};
  }

  lemma EmptyCertShape(n: nat)
    ensures CertShape(EmptyCert(n, Genesis)) && EmptyCert(n, Genesis).sigs == map[] && EmptyCert(n, Genesis).obj == Genesis
  {
  }
}
