/** Why the premise of delivery is needed: a run in which delivery makes only the checks the program makes,
    a faulty replica proposes one block whose certificate lies off the block's own branch, and two honest
    replicas commit different blocks at height 1. */
module OffBranch {
  import opened Wrappers
  import opened BlockTree
  import opened CoreSpec
  import opened Ballots
  import opened Network
  import opened Scenarios

  /** The certificate of replicas 0, 1 and 2. */
  function CertBy012(b: Blk): Cert {
    if b.Genesis? then EmptyCert(4, Genesis)
    else Cert(b, [true, true, true, false], map[0 := Sig(0, b), 1 := Sig(1, b), 2 := Sig(2, b)])
  }

  function Child(parent: Blk, certified: Blk, tag: nat): Blk {
    Node([parent], [], Some(CertBy012(certified)), [tag])
  }

  predicate SignedBy012(b: Blk, V: set<Ballot>) {
    b.Genesis? || (Ballot(0, b) in V && Ballot(1, b) in V && Ballot(2, b) in V)
  }

  lemma CertBy012Shape(b: Blk)
    requires b.Node?
    ensures CertShape(CertBy012(b)) && |CertBy012(b).sigs| == 3
  {
    assert CertBy012(b).sigs.Keys == {0, 1, 2};
    assert |CertBy012(b).sigs| == |CertBy012(b).sigs.Keys|;
  }

  lemma CertBy012Verifies(b: Blk, V: set<Ballot>)
    requires b.Node? && SignedBy012(b, V)
    ensures Verifies(CertBy012(b), 4, 3) && CertShape(CertBy012(b)) && SignaturesExist(CertBy012(b), V)
  {
    CertBy012Shape(b);
  }

  lemma ChildAdmissible(parent: Blk, certified: Blk, tag: nat, V: set<Ballot>)
    requires SignedBy012(certified, V)
    ensures FOUR.Valid() && Admissible(FOUR, V, Child(parent, certified, tag))
    ensures QcRef(Child(parent, certified, tag)) == certified && Height(Child(parent, certified, tag)) == Height(parent) + 1
  {
    hide Verifies, CertShape, EmptyCert, AllReplicas;
    FourReplicas();
    EmptyCertShape(4);
    if certified.Node? {
      CertBy012Verifies(certified, V);
    }
  }

  /** A replica that has delivered `D`, decided only genesis, and voted up to height `vheight`. */
  ghost predicate Quiet(c: Core, i: ReplicaId, D: set<Blk>, hqc: Blk, lock: Blk, vheight: nat) {
    && c.id == i && c.nreplicas == 4 && c.nmajority == 3 && !c.voteDisabled
    && c.hqc == hqc && c.lock == lock && c.exec == Genesis && c.vheight == vheight && c.committed == []
    && c.storage.Keys == D && Genesis in D
    && forall b <- D :: c.storage[b].delivered && (c.storage[b].decision <==> b.Genesis?)
  }

  function Higher(a: Blk, b: Blk): Blk {
    if Height(b) > Height(a) then b else a
  }

  /** `hqc` and the lock once a child that certifies `q` has been processed. */
  function NextHqc(hqc: Blk, q: Blk): Blk {
    if q.Genesis? then hqc else Higher(hqc, q)
  }

  function NextLock(lock: Blk, q: Blk): Blk {
    if q.Node? && HasQcRef(q) then Higher(lock, QcRef(q)) else lock
  }

  /** A certificate for `q` commits nothing. */
  predicate CommitsNothing(q: Blk) {
    HasQcRef(q) && HasQcRef(QcRef(q)) ==> QcRef(QcRef(q)).Genesis? || !ThreeChain(QcRef(QcRef(q)), QcRef(q), q)
  }

  lemma QuietDelivery(c: Core, i: ReplicaId, D: set<Blk>, hqc: Blk, lock: Blk, vheight: nat, b: Blk)
    requires Quiet(c, i, D, hqc, lock, vheight) && HasParent(b) && HasQcRef(b)
    requires b.parents == [Parent(b)] && Parent(b) in D && QcRef(b) in D
    ensures b in Fetch(c, b).storage && Quiet(OnDeliver(Fetch(c, b), b).core, i, D + {b}, hqc, lock, vheight)
  {
    hide Grows;
    var c1 := Fetch(c, b);
    assert ParentsDelivered(c1.storage, b);
    assert OnDeliver(c1, b).core.storage.Keys == D + {b};
  }

  lemma GenesisHeight()
    ensures Height(Genesis) == 0
  {
  }

  lemma QuietUpdate(c: Core, i: ReplicaId, D: set<Blk>, hqc: Blk, lock: Blk, vheight: nat, b: Blk)
    requires Quiet(c, i, D, hqc, lock, vheight) && HasQcRef(b) && CommitsNothing(QcRef(b))
    requires QcRef(b) in D && (HasQcRef(QcRef(b)) ==> QcRef(QcRef(b)) in D)
    requires HasQcRef(QcRef(b)) && HasQcRef(QcRef(QcRef(b))) ==> QcRef(QcRef(QcRef(b))) in D
    ensures Update(c, b).outcome.Ok?
    ensures Quiet(Update(c, b).core, i, D, NextHqc(hqc, QcRef(b)), NextLock(lock, QcRef(b)), vheight)
  {
    hide Grows, UpdateFrame, Commit, ThreeChain, Height;
    GenesisHeight();
  }

  /** Replica `i` obtains `b`. */
  lemma Obtain(g: Global, i: ReplicaId, D: set<Blk>, hqc: Blk, lock: Blk, vheight: nat, b: Blk) returns (g': Global)
    requires FOUR.Valid() && Reachable(FOUR, false, g) && i in g.reps && Quiet(g.reps[i].core, i, D, hqc, lock, vheight)
    requires HasQcRef(b) && Admissible(FOUR, g.votes, b)
    requires b.parents == [Parent(b)] && Parent(b) in D && QcRef(b) in D
    ensures Reachable(FOUR, false, g') && i in g'.reps && Quiet(g'.reps[i].core, i, D + {b}, hqc, lock, vheight)
    ensures g'.votes == g.votes && g'.reps.Keys == g.reps.Keys && forall j <- g.reps :: j != i ==> g'.reps[j] == g.reps[j]
  {
    QuietDelivery(g.reps[i].core, i, D, hqc, lock, vheight, b);
    hide Reachable, Quiet, Admissible, Fetch, OnDeliver;
    var g1 := TakeStep(FOUR, false, g, FetchBlock(i, b), g.reps[i].tail);
    g' := TakeStep(FOUR, false, g1, Deliver(i, b), g.reps[i].tail);
  }

  /** What the voting rule asks, once the certificate of `b` has been processed. */
  predicate Votable(lock: Blk, vheight: nat, b: Blk)
    requires HasQcRef(b)
  {
    && Height(b) > vheight
    && (Height(QcRef(b)) > Height(NextLock(lock, QcRef(b))) || IsAncestor(NextLock(lock, QcRef(b)), b))
  }

  predicate ChainIn(D: set<Blk>, b: Blk) {
    && HasQcRef(b) && QcRef(b) in D && (HasQcRef(QcRef(b)) ==> QcRef(QcRef(b)) in D)
    && (HasQcRef(QcRef(b)) && HasQcRef(QcRef(QcRef(b))) ==> QcRef(QcRef(QcRef(b))) in D)
  }

  lemma QuietVote(c: Core, i: ReplicaId, D: set<Blk>, hqc: Blk, lock: Blk, vheight: nat, b: Blk)
    requires Quiet(c, i, D, hqc, lock, vheight) && b in D && ChainIn(D, b) && CommitsNothing(QcRef(b))
    requires Votable(lock, vheight, b)
    ensures var f := OnReceiveProposal(c, b);
            && f.outcome.Ok? && f.vote == Some(SelfVote(i, b))
            && Quiet(f.core, i, D, NextHqc(hqc, QcRef(b)), NextLock(lock, QcRef(b)), Height(b))
  {
    hide Update, UpdateFrame, Grows, Height, NextHqc, NextLock, WalkTo, Quiet, CommitsNothing, IsAncestor;
    QuietUpdate(c, i, D, hqc, lock, vheight, b);
    WalkDecidesAncestor(NextLock(lock, QcRef(b)), b);
    var u := Update(c, b).core;
    QuietIs(c, i, D, hqc, lock, vheight, b);
    QuietIs(u, i, D, NextHqc(hqc, QcRef(b)), NextLock(lock, QcRef(b)), vheight, b);
    QuietVoted(u, i, D, NextHqc(hqc, QcRef(b)), NextLock(lock, QcRef(b)), vheight, Height(b));
  }

  lemma QuietIs(c: Core, i: ReplicaId, D: set<Blk>, hqc: Blk, lock: Blk, vheight: nat, b: Blk)
    requires Quiet(c, i, D, hqc, lock, vheight) && b in D
    ensures Delivered(c, b) && c.lock == lock && c.vheight == vheight && !c.voteDisabled && c.id == i
  {
  }

  lemma QuietVoted(c: Core, i: ReplicaId, D: set<Blk>, hqc: Blk, lock: Blk, vheight: nat, h: nat)
    requires Quiet(c, i, D, hqc, lock, vheight)
    ensures Quiet(c.(vheight := h), i, D, hqc, lock, h)
  {
  }

  /** Replica `i` votes for `b`. */
  lemma VoteFor(g: Global, i: ReplicaId, D: set<Blk>, hqc: Blk, lock: Blk, vheight: nat, b: Blk) returns (g': Global)
    requires FOUR.Valid() && Reachable(FOUR, false, g) && i in g.reps && Quiet(g.reps[i].core, i, D, hqc, lock, vheight)
    requires b in D && ChainIn(D, b) && CommitsNothing(QcRef(b)) && Votable(lock, vheight, b)
    ensures Reachable(FOUR, false, g') && i in g'.reps
    ensures Quiet(g'.reps[i].core, i, D, NextHqc(hqc, QcRef(b)), NextLock(lock, QcRef(b)), Height(b))
    ensures g'.votes == g.votes + {Ballot(i, b)}
    ensures g'.reps.Keys == g.reps.Keys && forall j <- g.reps :: j != i ==> g'.reps[j] == g.reps[j]
  {
    var c := g.reps[i].core;
    QuietVote(c, i, D, hqc, lock, vheight, b);
    hide *;
    g' := TakeProposal(FOUR, false, g, i, b);
  }

  /** Replicas 0 and 2 stand at the same point. */
  ghost predicate Both(g: Global, D: set<Blk>, hqc: Blk, lock: Blk, vheight: nat) {
    && FOUR.Valid() && Reachable(FOUR, false, g) && 0 in g.reps && 2 in g.reps
    && Quiet(g.reps[0].core, 0, D, hqc, lock, vheight) && Quiet(g.reps[2].core, 2, D, hqc, lock, vheight)
  }

  lemma BothObtain(g: Global, D: set<Blk>, hqc: Blk, lock: Blk, vheight: nat, b: Blk) returns (g': Global)
    requires Both(g, D, hqc, lock, vheight)
    requires HasQcRef(b) && Admissible(FOUR, g.votes, b)
    requires b.parents == [Parent(b)] && Parent(b) in D && QcRef(b) in D
    ensures Both(g', D + {b}, hqc, lock, vheight) && g'.votes == g.votes
  {
    hide Reachable, Quiet, Admissible;
    var g1 := Obtain(g, 0, D, hqc, lock, vheight, b);
    g' := Obtain(g1, 2, D, hqc, lock, vheight, b);
  }

  /** Replicas 0 and 2 vote for `b`, and so does the faulty replica 1. */
  lemma BothVote(g: Global, D: set<Blk>, hqc: Blk, lock: Blk, vheight: nat, b: Blk) returns (g': Global)
    requires Both(g, D, hqc, lock, vheight)
    requires b in D && ChainIn(D, b) && CommitsNothing(QcRef(b)) && Votable(lock, vheight, b)
    ensures Both(g', D, NextHqc(hqc, QcRef(b)), NextLock(lock, QcRef(b)), Height(b))
    ensures g.votes <= g'.votes && SignedBy012(b, g'.votes)
  {
    hide Reachable, Quiet, ChainIn, CommitsNothing, Votable, NextHqc, NextLock;
    var g1 := VoteFor(g, 0, D, hqc, lock, vheight, b);
    var g2 := VoteFor(g1, 2, D, hqc, lock, vheight, b);
    g' := TakeForge(FOUR, false, g2, 1, b);
  }

  /** The block a certificate for `q` commits. */
  ghost predicate CommitsTo(D: set<Blk>, q: Blk, target: Blk) {
    && HasQcRef(q) && HasQcRef(QcRef(q)) && QcRef(QcRef(q)) == target && ThreeChain(target, QcRef(q), q)
    && q in D && QcRef(q) in D && target in D && q.Node? && QcRef(q).Node? && target.Node?
    && IsAncestor(Genesis, target)
  }

  lemma CommitUpdate(c: Core, i: ReplicaId, D: set<Blk>, hqc: Blk, lock: Blk, vheight: nat, b: Blk, target: Blk)
    requires Quiet(c, i, D, hqc, lock, vheight) && HasQcRef(b) && CommitsTo(D, QcRef(b), target)
    ensures Update(c, b).outcome.Ok? && Update(c, b).core.committed == Branch(target, 0)
  {
    hide Grows, UpdateFrame, ThreeChain, Height, MarkDecided, Finalities, WalkTo, Branch, IsAncestor;
    GenesisHeight();
    WalkDecidesAncestor(Genesis, target);
    assert [] + Branch(target, 0) == Branch(target, 0);
  }

  /** Replica `i` receives `b` and commits up to `target`. */
  lemma CommitWith(g: Global, i: ReplicaId, D: set<Blk>, hqc: Blk, lock: Blk, vheight: nat, b: Blk, target: Blk) returns (g': Global)
    requires FOUR.Valid() && Reachable(FOUR, false, g) && i in g.reps && Quiet(g.reps[i].core, i, D, hqc, lock, vheight)
    requires b in D && HasQcRef(b) && CommitsTo(D, QcRef(b), target)
    ensures Reachable(FOUR, false, g') && i in g'.reps && g'.reps[i].core.committed == Branch(target, 0)
    ensures g'.reps.Keys == g.reps.Keys && forall j <- g.reps :: j != i ==> g'.reps[j] == g.reps[j]
  {
    var c := g.reps[i].core;
    CommitUpdate(c, i, D, hqc, lock, vheight, b, target);
    assert Delivered(c, b);
    hide Reachable, Quiet, CommitsTo, Update, UpdateFrame, Grows, MayVote, Branch;
    assert OnReceiveProposal(c, b).outcome.Ok? && OnReceiveProposal(c, b).core.committed == Branch(target, 0);
    hide OnReceiveProposal;
    g' := TakeProposal(FOUR, false, g, i, b);
  }

  lemma ChildFacts(parent: Blk, certified: Blk, tag: nat)
    ensures var b := Child(parent, certified, tag);
            && HasParent(b) && Parent(b) == parent && b.parents == [parent] && b.extra == [tag]
            && HasQcRef(b) && QcRef(b) == certified && Height(b) == Height(parent) + 1
            && (forall a :: IsAncestor(a, b) <==> a == b || IsAncestor(a, parent))
  {
  }

  /** A certificate that a child may carry. */
  predicate MayCarry(D: set<Blk>, q: Blk) {
    && q in D && CommitsNothing(q) && (HasQcRef(q) ==> QcRef(q) in D)
    && (HasQcRef(q) && HasQcRef(QcRef(q)) ==> QcRef(QcRef(q)) in D)
  }

  /** All three obtain a new block and vote for it. */
  lemma Extend(g: Global, D: set<Blk>, hqc: Blk, lock: Blk, vheight: nat, p: Blk, q: Blk, tag: nat) returns (g': Global)
    requires Both(g, D, hqc, lock, vheight) && SignedBy012(q, g.votes) && p in D && MayCarry(D, q)
    requires Height(p) >= vheight
    requires Height(q) > Height(NextLock(lock, q)) || IsAncestor(NextLock(lock, q), p)
    ensures Both(g', D + {Child(p, q, tag)}, NextHqc(hqc, q), NextLock(lock, q), Height(p) + 1)
    ensures g.votes <= g'.votes && SignedBy012(Child(p, q, tag), g'.votes)
  {
    var b := Child(p, q, tag);
    hide Both, Child, Admissible, NextHqc, NextLock, CommitsNothing, Height, SignedBy012, IsAncestor;
    ChildFacts(p, q, tag);
    ChildAdmissible(p, q, tag, g.votes);
    var g1 := BothObtain(g, D, hqc, lock, vheight, b);
    g' := BothVote(g1, D + {b}, hqc, lock, vheight, b);
  }

  /** All three obtain a new block. */
  lemma Learn(g: Global, D: set<Blk>, hqc: Blk, lock: Blk, vheight: nat, p: Blk, q: Blk, tag: nat) returns (g': Global)
    requires Both(g, D, hqc, lock, vheight) && SignedBy012(q, g.votes) && p in D && q in D
    ensures Both(g', D + {Child(p, q, tag)}, hqc, lock, vheight) && g'.votes == g.votes
  {
    var b := Child(p, q, tag);
    ChildFacts(p, q, tag);
    ChildAdmissible(p, q, tag, g.votes);
    hide Both, Child, Admissible, Height, SignedBy012, IsAncestor;
    g' := BothObtain(g, D, hqc, lock, vheight, b);
  }

  /** What three blocks in a row, each certifying its parent, do to `hqc` and the lock. */
  lemma ThreeRaise(hqc: Blk, lock: Blk, p: Blk, q: Blk, b1: Blk, b2: Blk)
    requires HasQcRef(b1) && QcRef(b1) == q && b2.Node? && HasQcRef(b2) && QcRef(b2) == b1
    requires Height(b1) == Height(p) + 1 && Height(b2) == Height(p) + 2
    requires Height(hqc) <= Height(p) && Height(lock) <= Height(p) && Height(q) <= Height(p)
    requires HasQcRef(q) ==> Height(QcRef(q)) <= Height(p)
    ensures NextHqc(NextHqc(hqc, q), b1) == b1 && NextHqc(b1, b2) == b2
    ensures NextLock(NextLock(NextLock(lock, q), b1), b2) == b1
    ensures Height(NextLock(NextLock(lock, q), b1)) <= Height(p)
  {
    hide Height;
  }

  lemma TwoCarried(D: set<Blk>, p: Blk, q: Blk, b1: Blk, b2: Blk)
    requires MayCarry(D, q) && b1 in D && b2 in D && (q.Genesis? || p != q)
    requires HasParent(b1) && Parent(b1) == p && HasQcRef(b1) && QcRef(b1) == q && HasQcRef(b2) && QcRef(b2) == b1
    ensures MayCarry(D, b1) && MayCarry(D, b2)
  {
  }

  /** All three vote for three blocks in a row, starting on any block. */
  lemma Certify(g: Global, D: set<Blk>, hqc: Blk, lock: Blk, vheight: nat, p: Blk, q: Blk, tag: nat,
                b1: Blk, b2: Blk, b3: Blk) returns (g': Global)
    requires b1 == Child(p, q, tag) && b2 == Child(b1, b1, tag) && b3 == Child(b2, b2, tag)
    requires Both(g, D, hqc, lock, vheight) && SignedBy012(q, g.votes) && p in D && MayCarry(D, q)
    requires Height(p) >= vheight && (q.Genesis? || p != q)
    requires Height(hqc) <= Height(p) && Height(lock) <= Height(p) && Height(q) <= Height(p)
    requires HasQcRef(q) ==> Height(QcRef(q)) <= Height(p)
    requires Height(q) > Height(NextLock(lock, q)) || IsAncestor(NextLock(lock, q), p)
    ensures Both(g', D + {b1} + {b2} + {b3}, b2, b1, Height(p) + 3)
    ensures g.votes <= g'.votes && SignedBy012(b2, g'.votes) && SignedBy012(b3, g'.votes)
  {
    ChildFacts(p, q, tag);
    ChildFacts(b1, b1, tag);
    ThreeRaise(hqc, lock, p, q, b1, b2);
    TwoCarried(D + {b1} + {b2}, p, q, b1, b2);
    hide Both, Child, CommitsNothing, Height, IsAncestor, NextHqc, NextLock;
    var g1 := Extend(g, D, hqc, lock, vheight, p, q, tag);
    var g2 := Extend(g1, D + {b1}, NextHqc(hqc, q), NextLock(lock, q), Height(b1), b1, b1, tag);
    g' := Extend(g2, D + {b1} + {b2}, b1, NextLock(NextLock(lock, q), b1), Height(b2), b2, b2, tag);
  }

  // --- the run ---

  const A1: Blk := Child(Genesis, Genesis, 0)
  const A2: Blk := Child(A1, A1, 0)
  const A3: Blk := Child(A2, A2, 0)
  const X1: Blk := Child(Genesis, Genesis, 1)
  const X2: Blk := Child(X1, Genesis, 1)
  const X3: Blk := Child(X2, Genesis, 1)
  const Y4: Blk := Child(X3, A2, 1)      // its certificate is for A2, which is not on its branch
  const Y5: Blk := Child(Y4, Y4, 1)
  const Y6: Blk := Child(Y5, Y5, 1)

  /** The shape of the first branch. */
  lemma FirstBranch()
    ensures QcRef(A1) == Genesis && QcRef(A2) == A1 == Parent(A2) && QcRef(A3) == A2 == Parent(A3)
    ensures HasQcRef(A1) && HasQcRef(A2) && HasQcRef(A3) && HasParent(A2) && HasParent(A3)
    ensures Height(Genesis) == 0 && Height(A1) == 1 && Height(A2) == 2 && Height(A3) == 3
    ensures A1.extra == A2.extra == A3.extra == [0] && IsAncestor(Genesis, A1)
    ensures Branch(A1, 0) == [A1]
  {
    ChildFacts(Genesis, Genesis, 0);
    ChildFacts(A1, A1, 0);
    ChildFacts(A2, A2, 0);
    assert Height(Genesis) == 0;
  }

  /** The shape of the second branch. */
  lemma SecondBranch()
    ensures QcRef(Y4) == A2 && QcRef(Y5) == Y4 == Parent(Y5) && QcRef(Y6) == Y5 == Parent(Y6)
    ensures HasQcRef(Y4) && HasQcRef(Y5) && HasQcRef(Y6) && HasParent(Y5) && HasParent(Y6)
    ensures Height(X3) == 3 && Height(Y4) == 4 && Height(Y5) == 5 && Height(Y6) == 6
    ensures HasParent(Y4) && Parent(Y4) == X3 && X3 != A2 && IsAncestor(Genesis, Y4)
    ensures Branch(Y4, 0) == [X1, X2, X3, Y4]
  {
    hide Child;
    ChildFacts(Genesis, Genesis, 1);
    ChildFacts(X1, Genesis, 1);
    ChildFacts(X2, Genesis, 1);
    ChildFacts(X3, A2, 1);
    ChildFacts(Y4, Y4, 1);
    ChildFacts(Y5, Y5, 1);
    ChildFacts(A1, A1, 0);
    assert Height(Genesis) == 0;
    assert Branch(X1, 0) == [X1];
    assert Branch(X2, 0) == [X1, X2];
    assert Branch(X3, 0) == [X1, X2, X3];
  }

  lemma GenesisSigned(V: set<Ballot>)
    ensures SignedBy012(Genesis, V)
  {
  }

  lemma StartsTogether()
    ensures Both(Start(FOUR), {Genesis}, Genesis, Genesis, 0)
  {
    hide Reachable, InitGlobal, AllReplicas, EmptyCert, Majority;
    FourReplicas();
    StartReachable(FOUR, false);
  }

  /** The first branch is certified, and replicas 0 and 2 lock its first block. */
  lemma FirstPhase() returns (g: Global)
    ensures Both(g, {Genesis} + {A1} + {A2} + {A3}, A2, A1, 3) && SignedBy012(A2, g.votes) && SignedBy012(A3, g.votes)
  {
    hide Both, Child, Reachable, SignedBy012;
    StartsTogether();
    FirstBranch();
    GenesisSigned(Start(FOUR).votes);
    g := Certify(Start(FOUR), {Genesis}, Genesis, Genesis, 0, Genesis, Genesis, 0, A1, A2, A3);
  }

  /** The second branch grows to the height of the first, with genesis's certificate only. */
  lemma Detour(g: Global, D: set<Blk>, hqc: Blk, lock: Blk, vheight: nat) returns (g': Global)
    requires Both(g, D, hqc, lock, vheight) && Genesis in D
    ensures Both(g', D + {X1} + {X2} + {X3}, hqc, lock, vheight) && g'.votes == g.votes
  {
    hide Both, Child, SignedBy012;
    GenesisSigned(g.votes);
    var g1 := Learn(g, D, hqc, lock, vheight, Genesis, Genesis, 1);
    var g2 := Learn(g1, D + {X1}, hqc, lock, vheight, X1, Genesis, 1);
    g' := Learn(g2, D + {X1} + {X2}, hqc, lock, vheight, X2, Genesis, 1);
  }

  /** `Y4` passes the voting rule by its certificate, and its branch is certified in turn. */
  lemma SecondPhase(g: Global, D: set<Blk>) returns (g': Global)
    requires Both(g, D, A2, A1, 3) && SignedBy012(A2, g.votes) && {Genesis, A1, A2, X3} <= D
    ensures Both(g', D + {Y4} + {Y5} + {Y6}, Y5, Y4, 6) && g.votes <= g'.votes && SignedBy012(Y6, g'.votes)
  {
    hide Both, Child, SignedBy012, IsAncestor;
    FirstBranch();
    SecondBranch();
    g' := Certify(g, D, A2, A1, 3, X3, A2, 1, Y4, Y5, Y6);
  }

  /** Both branches are certified. */
  lemma Prepare() returns (g: Global, D: set<Blk>)
    ensures Both(g, D, Y5, Y4, 6) && SignedBy012(A3, g.votes) && SignedBy012(Y6, g.votes)
    ensures {A1, A2, A3, Y4, Y5, Y6} <= D
  {
    hide *;
    var g1 := FirstPhase();
    var D1 := {Genesis} + {A1} + {A2} + {A3};
    var g2 := Detour(g1, D1, A2, A1, 3);
    var D2 := D1 + {X1} + {X2} + {X3};
    g := SecondPhase(g2, D2);
    D := D2 + {Y4} + {Y5} + {Y6};
    StaysSigned(A3, g1.votes, g.votes);
  }

  lemma StaysSigned(b: Blk, V: set<Ballot>, V': set<Ballot>)
    requires SignedBy012(b, V) && V <= V'
    ensures SignedBy012(b, V')
  {
  }

  lemma Targets(D: set<Blk>)
    requires {A1, A2, A3, Y4, Y5, Y6} <= D
    ensures CommitsTo(D, A3, A1) && CommitsTo(D, Y6, Y4)
  {
    hide Child, IsAncestor;
    FirstBranch();
    SecondBranch();
  }

  /** Replica 0 commits one branch, replica 2 the other. */
  lemma CommitApart(g: Global, D: set<Blk>, hqc: Blk, lock: Blk, vheight: nat, q: Blk, target: Blk, r: Blk, target': Blk)
    returns (g': Global)
    requires Both(g, D, hqc, lock, vheight) && SignedBy012(q, g.votes) && SignedBy012(r, g.votes)
    requires forall D' :: D <= D' ==> CommitsTo(D', q, target) && CommitsTo(D', r, target')
    ensures Reachable(FOUR, false, g') && 0 in g'.reps && 2 in g'.reps
    ensures g'.reps[0].core.committed == Branch(target, 0) && g'.reps[2].core.committed == Branch(target', 0)
  {
    assert CommitsTo(D, q, target) && CommitsTo(D, r, target');
    ChildFacts(q, q, 0);
    ChildFacts(r, r, 1);
    var x, y := Child(q, q, 0), Child(r, r, 1);
    hide Child, SignedBy012, IsAncestor, ThreeChain, Quiet, Reachable, Branch, Height;
    var g1 := Learn(g, D, hqc, lock, vheight, q, q, 0);
    var g2 := Learn(g1, D + {x}, hqc, lock, vheight, r, r, 1);
    hide CommitsTo;
    var D' := D + {x} + {y};
    assert D <= D' && CommitsTo(D', q, target);
    var g3 := CommitWith(g2, 0, D', hqc, lock, vheight, x, target);
    g' := CommitWith(g3, 2, D', hqc, lock, vheight, y, target');
  }

  predicate Disagree(s: seq<Blk>, t: seq<Blk>) {
    !(s <= t) && !(t <= s)
  }

  lemma BranchesDisagree()
    ensures Disagree(Branch(A1, 0), Branch(Y4, 0))
  {
    hide Child;
    ChildFacts(Genesis, Genesis, 0);
    ChildFacts(Genesis, Genesis, 1);
    FirstBranch();
    SecondBranch();
    var s, t := Branch(A1, 0), Branch(Y4, 0);
    assert s[0] == A1 && t[0] == X1 && [0 as nat] != [1];
  }

  /** Without the premise, agreement fails with one faulty replica out of four. */
  lemma AgreementNeedsPremise()
    ensures FOUR.Valid()
    ensures exists g, i, j :: && Reachable(FOUR, false, g) && i in Honest(FOUR) && j in Honest(FOUR)
                              && i in g.reps && j in g.reps && Disagree(g.reps[i].core.committed, g.reps[j].core.committed)
  {
    FourReplicas();
    hide *;
    var g0, D := Prepare();
    forall D' | D <= D'
      ensures CommitsTo(D', A3, A1) && CommitsTo(D', Y6, Y4)
    {
      Targets(D');
    }
    var g := CommitApart(g0, D, Y5, Y4, 6, A3, A1, Y6, Y4);
    BranchesDisagree();
    assert Disagree(g.reps[0].core.committed, g.reps[2].core.committed);
  }
}
