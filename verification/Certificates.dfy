/** Vote collection: what the running certificate of a block holds, when it completes, and when the
    certificates honest replicas propose with are accepted by everyone. */
module Certificates {
  import opened Wrappers
  import opened BlockTree
  import opened CoreSpec
  import opened Ballots

  /** A running certificate for `b` holds valid signatures of voters that were counted. */
  predicate HoldsSome(n: nat, b: Blk, voted: set<ReplicaId>, selfQc: Option<Cert>) {
    && (forall r <- voted :: r < n)
    && (selfQc.Some? ==>
          var q := selfQc.value;
          && q.obj == b && |q.rids| == n && CertShape(q) && q.sigs.Keys <= voted
          && forall r <- q.sigs :: q.sigs[r] == Sig(r, b))
  }

  /** The voters whose signature the running certificate holds. */
  function Holders(selfQc: Option<Cert>): set<ReplicaId> {
    if selfQc.Some? then selfQc.value.sigs.Keys else {}
  }

  /** It holds exactly the valid signatures of the voters counted. */
  predicate HoldsVotes(n: nat, b: Blk, voted: set<ReplicaId>, selfQc: Option<Cert>) {
    HoldsSome(n, b, voted, selfQc) && Holders(selfQc) == voted
  }

  predicate PartlyCollected(c: Core, b: Blk)
    requires b in c.storage
  {
    HoldsSome(c.nreplicas, b, c.storage[b].voted, c.storage[b].selfQc)
  }

  predicate Collected(c: Core, b: Blk)
    requires b in c.storage
  {
    HoldsVotes(c.nreplicas, b, c.storage[b].voted, c.storage[b].selfQc)
  }

  /** The vote that makes `b`'s certificate complete. */
  predicate Completes(c: Core, b: Blk, v: Vote) {
    && Delivered(c, b) && v.blk == b
    && v.voter !in c.storage[b].voted && |c.storage[b].voted| + 1 == c.nmajority
  }

  /** A valid vote keeps the certificate sound, and in step exactly if it was. */
  lemma CollectVote(c: Core, b: Blk, v: Vote)
    requires b in c.storage && PartlyCollected(c, b)
    requires VoteVerifies(v, c.nreplicas)
    ensures var c' := OnReceiveVote(c, v).core;
            b in c'.storage && PartlyCollected(c', b) && (Collected(c', b) <==> Collected(c, b))
  {
    hide OnReceiveVote, Grows, HoldsSome, AddPart, EmptyCert, Height, UpdateHqc;
    if Delivered(c, v.blk) && |c.storage[v.blk].voted| < c.nmajority && v.voter !in c.storage[v.blk].voted {
      CountedVote(c, v);
      if v.blk == b {
        StartCollecting(c.nreplicas, b, c.storage[b].voted, c.storage[b].selfQc);
        AddPartCollects(c.nreplicas, b, c.storage[b].voted, Running(c, b), v.voter);
      }
    } else {
      IgnoredVote(c, v);
    }
  }

  /** The certificate the next vote is added to. */
  function Running(c: Core, b: Blk): Cert
    requires b in c.storage
  {
    if c.storage[b].selfQc.Some? then c.storage[b].selfQc.value else EmptyCert(c.nreplicas, b)
  }

  lemma StartCollecting(n: nat, b: Blk, voted: set<ReplicaId>, selfQc: Option<Cert>)
    requires HoldsSome(n, b, voted, selfQc)
    ensures var qc := if selfQc.Some? then selfQc.value else EmptyCert(n, b);
            HoldsSome(n, b, voted, Some(qc)) && Holders(Some(qc)) == Holders(selfQc) && qc.obj == b
  {
  }

  lemma AddPartCollects(n: nat, b: Blk, voted: set<ReplicaId>, qc: Cert, r: ReplicaId)
    requires HoldsSome(n, b, voted, Some(qc)) && r < n && r !in voted
    ensures var qc' := AddPart(qc, r, Sig(r, b));
            && HoldsSome(n, b, voted + {r}, Some(qc')) && qc'.sigs.Keys == qc.sigs.Keys + {r}
            && (qc'.sigs.Keys == voted + {r} <==> qc.sigs.Keys == voted)
  {
    var qc' := AddPart(qc, r, Sig(r, b));
    assert qc'.sigs.Keys == qc.sigs.Keys + {r};
  }

  datatype Verdict = Accepted | Rejected | UnknownReplica

  /** Every replica the bitmap names below `k` is known and signed. */
  predicate SignedUpTo(cert: Cert, n: nat, k: nat) {
    forall i :: 0 <= i < k && i < |cert.rids| && cert.rids[i] ==>
                  i < n && i in cert.sigs && cert.sigs[i] == Sig(i, cert.obj)
  }

  /** The loop over the bitmap; a missing entry of `sigs` is a blank signature, which never verifies, and
      looking up the key of an unknown replica throws. */
  method VerifyCert(cert: Cert, n: nat, majority: nat) returns (v: Verdict)
    ensures v.Accepted? <==> Verifies(cert, n, majority)
    ensures v.UnknownReplica? <==>
              && |cert.sigs| >= majority && SignedUpTo(cert, n, n)
              && exists i :: n <= i < |cert.rids| && cert.rids[i]
  {
    if |cert.sigs| < majority {
      return Rejected;
    }
    for i := 0 to |cert.rids|
      invariant SignedUpTo(cert, n, i)
    {
      if cert.rids[i] {
        if i >= n {
          return UnknownReplica;
        }
        var sig := if i in cert.sigs then cert.sigs[i] else Malformed;
        if sig != Sig(i, cert.obj) {
          return Rejected;
        }
      }
    }
    return Accepted;
  }

  /** The completed certificate passes verification exactly if it was in step with the votes, and `hqc`
      rises with it all the same. */
  lemma CompleteVerifies(c: Core, b: Blk, v: Vote)
    requires b in c.storage && PartlyCollected(c, b) && VoteVerifies(v, c.nreplicas) && Completes(c, b, v)
    ensures var c' := OnReceiveVote(c, v).core;
            && c'.storage[b].selfQc.Some?
            && (Verifies(c'.storage[b].selfQc.value, c.nreplicas, c.nmajority) <==> Collected(c, b))
            && c'.hqc == UpdateHqc(c, b, c'.storage[b].selfQc.value).hqc
            && c'.hqcCert == UpdateHqc(c, b, c'.storage[b].selfQc.value).hqcCert
  {
    assert v.cert == PartCert(b, Sig(v.voter, b));
    StartCollecting(c.nreplicas, b, c.storage[b].voted, c.storage[b].selfQc);
    hide OnReceiveVote, Grows, AddPart, EmptyCert, Height, Verifies, HoldsSome, UpdateHqc, Running;
    CompletedState(c, b, v);
    var voted, qc := c.storage[b].voted, Running(c, b);
    RunningHolds(c, b);
    AddPartCollects(c.nreplicas, b, voted, qc, v.voter);
    EnoughSignatures(c.nreplicas, b, voted + {v.voter}, AddPart(qc, v.voter, Sig(v.voter, b)));
  }

  lemma RunningHolds(c: Core, b: Blk)
    requires b in c.storage && PartlyCollected(c, b)
    ensures HoldsSome(c.nreplicas, b, c.storage[b].voted, Some(Running(c, b)))
    ensures Running(c, b).sigs.Keys == Holders(c.storage[b].selfQc)
  {
    StartCollecting(c.nreplicas, b, c.storage[b].voted, c.storage[b].selfQc);
  }

  lemma CompletedState(c: Core, b: Blk, v: Vote)
    requires Completes(c, b, v) && Running(c, b).obj == b && v.cert == PartCert(b, Sig(v.voter, b))
    ensures var c' := OnReceiveVote(c, v).core;
            var qc := AddPart(Running(c, b), v.voter, Sig(v.voter, b));
            && b in c'.storage && c'.storage[b].selfQc == Some(qc)
            && c'.hqc == UpdateHqc(c, b, qc).hqc && c'.hqcCert == UpdateHqc(c, b, qc).hqcCert
  {
    hide OnReceiveVote, Grows, AddPart, EmptyCert, Height, UpdateHqc;
    CountedVote(c, v);
    var qc := AddPart(Running(c, b), v.voter, Sig(v.voter, b));
    SameHqc(c, Counting(c, b, v.voter, qc), b, qc);
  }

  lemma SameHqc(c: Core, c': Core, b: Blk, qc: Cert)
    requires c' == c.(storage := c'.storage)
    ensures UpdateHqc(c', b, qc).hqc == UpdateHqc(c, b, qc).hqc
    ensures UpdateHqc(c', b, qc).hqcCert == UpdateHqc(c, b, qc).hqcCert
  {
  }

  /** A sound certificate passes for as many voters as it could hold exactly if it holds them all. */
  lemma EnoughSignatures(n: nat, b: Blk, voted: set<ReplicaId>, q: Cert)
    requires HoldsSome(n, b, voted, Some(q))
    ensures Verifies(q, n, |voted|) <==> q.sigs.Keys == voted
  {
    assert |q.sigs| == |q.sigs.Keys|;
    if q.sigs.Keys < voted {
      SubsetCardinality(q.sigs.Keys, voted);
      assert |voted - q.sigs.Keys| > 0;
    }
  }

  // --- sequences of votes ---

  function Collect(c: Core, votes: seq<Vote>): Core
    decreases |votes|
  {
    if votes == [] then c else Collect(OnReceiveVote(c, votes[0]).core, votes[1..])
  }

  /** How many votes of the sequence complete `b`'s certificate. */
  function Completions(c: Core, b: Blk, votes: seq<Vote>): nat
    decreases |votes|
  {
    if votes == [] then 0
    else (if Completes(c, b, votes[0]) then 1 else 0) + Completions(OnReceiveVote(c, votes[0]).core, b, votes[1..])
  }

  /** Who voted for `b`, duplicates and late votes included. */
  function VotersFor(b: Blk, votes: seq<Vote>): set<ReplicaId> {
    set k | 0 <= k < |votes| && votes[k].blk == b :: votes[k].voter
  }

  lemma NoVoters(b: Blk)
    ensures VotersFor(b, []) == {}
  {
  }

  lemma VotersForFirst(b: Blk, votes: seq<Vote>)
    requires votes != []
    ensures VotersFor(b, votes) == (if votes[0].blk == b then {votes[0].voter} else {}) + VotersFor(b, votes[1..])
  {
    var rest := votes[1..];
    forall r
      ensures r in VotersFor(b, votes) <==> (votes[0].blk == b && r == votes[0].voter) || r in VotersFor(b, rest)
    {
      if r in VotersFor(b, votes) {
        var k :| 0 <= k < |votes| && votes[k].blk == b && votes[k].voter == r;
        if k > 0 { assert rest[k - 1] == votes[k]; }
      }
      if r in VotersFor(b, rest) {
        var k :| 0 <= k < |rest| && rest[k].blk == b && rest[k].voter == r;
        assert votes[k + 1] == rest[k];
      }
    }
  }

  /** Over any sequence of valid votes, for any blocks, with duplicates and late votes: the certificate
      holds exactly the counted voters, the first `nmajority` distinct ones are counted, and the
      certificate completes once if that many voted and never otherwise. */
  lemma {:induction false} VoteCollection(c: Core, b: Blk, votes: seq<Vote>)
    requires Delivered(c, b) && Collected(c, b)
    requires |c.storage[b].voted| <= c.nmajority
    requires forall v <- votes :: VoteVerifies(v, c.nreplicas)
    ensures var c' := Collect(c, votes);
            var all := c.storage[b].voted + VotersFor(b, votes);
            && Delivered(c', b) && Collected(c', b)
            && c.storage[b].voted <= c'.storage[b].voted <= all
            && |c'.storage[b].voted| == (if |all| < c.nmajority then |all| else c.nmajority)
            && Completions(c, b, votes) == (if |c.storage[b].voted| < c.nmajority <= |all| then 1 else 0)
    decreases |votes|
  {
    hide OnReceiveVote, HoldsSome, VoteVerifies, Completes, VotersFor, PartlyCollected, Collected;
    var voted := c.storage[b].voted;
    if votes == [] {
      NoVoters(b);
      assert voted + VotersFor(b, votes) == voted;
    } else {
      var v := votes[0];
      VotersForFirst(b, votes);
      CollectedIsPartly(c, b);
      CollectVote(c, b, v);
      OneVote(c, b, v);
      CountOneMore(c.nmajority, voted, v.blk == b, v.voter, VotersFor(b, votes[1..]));
      VoteCollection(OnReceiveVote(c, v).core, b, votes[1..]);
    }
  }

  lemma CollectedIsPartly(c: Core, b: Blk)
    requires b in c.storage && Collected(c, b)
    ensures PartlyCollected(c, b)
  {
  }

  /** How one vote, then those of `rest`, add up. */
  lemma CountOneMore(n: nat, voted: set<ReplicaId>, here: bool, r: ReplicaId, rest: set<ReplicaId>)
    requires |voted| <= n
    ensures var voted1 := if here && |voted| < n then voted + {r} else voted;
            var all, all1 := voted + ((if here then {r} else {}) + rest), voted1 + rest;
            && |voted1| <= n && voted <= voted1 && all1 <= all
            && (if |all1| < n then |all1| else n) == (if |all| < n then |all| else n)
            && (if |voted| < n == |voted1| then 1 else 0) + (if |voted1| < n <= |all1| then 1 else 0)
               == (if |voted| < n <= |all| then 1 else 0)
  {
    var voted1 := if here && |voted| < n then voted + {r} else voted;
    var all, all1 := voted + ((if here then {r} else {}) + rest), voted1 + rest;
    if r in voted {
      assert voted + {r} == voted;
    } else {
      assert |voted + {r}| == |voted| + 1;
    }
    SubsetCardinality(voted1, all1);
    SubsetCardinality(all1, all);
    if |voted| < n {
      assert all1 == all;
    }
  }

  /** A counted vote adds its voter to its block and leaves the others alone. */
  lemma VoteAdds(c: Core, v: Vote)
    requires Delivered(c, v.blk) && |c.storage[v.blk].voted| < c.nmajority && v.voter !in c.storage[v.blk].voted
    ensures var c1 := OnReceiveVote(c, v).core;
            && c1.nreplicas == c.nreplicas && c1.nmajority == c.nmajority && c1.storage.Keys == c.storage.Keys
            && c1.storage[v.blk].voted == c.storage[v.blk].voted + {v.voter} && c1.storage[v.blk].delivered
            && forall b <- c.storage :: b != v.blk ==> c1.storage[b] == c.storage[b]
  {
    hide OnReceiveVote, Grows, AddPart, EmptyCert, Height, UpdateHqc;
    CountedVote(c, v);
  }

  lemma OneVote(c: Core, b: Blk, v: Vote)
    requires Delivered(c, b)
    ensures var c1 := OnReceiveVote(c, v).core;
            && Delivered(c1, b) && c1.nreplicas == c.nreplicas && c1.nmajority == c.nmajority
            && c1.storage[b].voted == (if v.blk == b && |c.storage[b].voted| < c.nmajority
                                       then c.storage[b].voted + {v.voter} else c.storage[b].voted)
            && (Completes(c, b, v) <==> |c.storage[b].voted| < c.nmajority == |c1.storage[b].voted|)
  {
    hide OnReceiveVote, Grows, AddPart, EmptyCert, Height, UpdateHqc;
    var voted := c.storage[b].voted;
    if v.voter in voted {
      assert voted + {v.voter} == voted;
    } else {
      assert |voted + {v.voter}| == |voted| + 1;
    }
    if Delivered(c, v.blk) && |c.storage[v.blk].voted| < c.nmajority && v.voter !in c.storage[v.blk].voted {
      VoteAdds(c, v);
    } else {
      IgnoredVote(c, v);
    }
  }

  // --- proposing the same block again ---

  /** A certificate that starts empty: counting the proposer keeps it in order iff nobody was counted before. */
  lemma SelfVoteAfterReset(c: Core, b: Blk)
    requires Delivered(c, b) && c.nmajority > 0 && c.id < c.nreplicas
    requires c.storage[b].selfQc == Some(EmptyCert(c.nreplicas, b))
    requires forall r <- c.storage[b].voted :: r < c.nreplicas
    ensures b in OnReceiveVote(c, SelfVote(c.id, b)).core.storage
    ensures Collected(OnReceiveVote(c, SelfVote(c.id, b)).core, b) <==> c.storage[b].voted == {}
  {
    hide Grows, CertShape, Height;
    var e := EmptyCert(c.nreplicas, b);
    if c.storage[b].voted == {} {
      StartCollecting(c.nreplicas, b, {}, None);
      AddPartCollects(c.nreplicas, b, {}, e, c.id);
      assert {} + {c.id} == {c.id};
    } else {
      var r :| r in c.storage[b].voted;
      assert r !in e.sigs && (r != c.id ==> r !in AddPart(e, c.id, Sig(c.id, b)).sigs);
    }
  }

  /** `on_propose` gives its block a fresh certificate without forgetting who had voted, so the
      certificate stays in step with the votes exactly when no vote had been counted yet. */
  lemma ReproposalLosesParts(c: Core, cmds: seq<Cmd>, parents: seq<Blk>, extra: seq<nat>)
    requires c.id < c.nreplicas && c.nmajority > 0 && parents != []
    requires var b := NewBlock(c, cmds, parents, extra);
             b in c.storage ==> forall r <- c.storage[b].voted :: r < c.nreplicas
    ensures var b := NewBlock(c, cmds, parents, extra);
            var c' := OnPropose(c, cmds, parents, extra).core;
            && b in c'.storage
            && (Collected(c', b) <==> (b !in c.storage || c.storage[b].voted == {}))
  {
    hide Grows, Update, OnDeliver, OnReceiveVote, HoldsSome, Fetch;
    var b := NewBlock(c, cmds, parents, extra);
    var d := OnDeliver(Draft(c, b), b);
    DraftStartsOver(c, b);
    if d.outcome.Ok? {
      var u := Update(d.core, b);
      if u.outcome.Ok? && Height(b) > u.core.vheight {
        SelfVoteAfterReset(u.core.(vheight := Height(b)), b);
      } else {
        StartedOver(u.core, b);
      }
    } else {
      StartedOver(d.core, b);
    }
  }

  lemma DraftStartsOver(c: Core, b: Blk)
    requires b.Node?
    ensures var d := Draft(c, b);
            && d.storage[b].voted == (if b in c.storage then c.storage[b].voted else {})
            && d.storage[b].selfQc == Some(EmptyCert(c.nreplicas, b))
            && d.id == c.id && d.nreplicas == c.nreplicas && d.nmajority == c.nmajority
  {
    hide Grows;
  }

  lemma StartedOver(c: Core, b: Blk)
    requires b in c.storage && c.storage[b].selfQc == Some(EmptyCert(c.nreplicas, b))
    requires forall r <- c.storage[b].voted :: r < c.nreplicas
    ensures Collected(c, b) <==> c.storage[b].voted == {}
  {
  }
}
