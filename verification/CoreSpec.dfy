/** The replica state machine as a function of its state.

    `Core` is the state of one replica, with the fields the source scatters over `HotStuffCore` and
    its `Block` objects; every handler is a function from the old state to the new state and the
    exception, if any, that it ends with. */
module CoreSpec {
  import opened Wrappers
  import opened BlockTree

  datatype Error =
    | BlockNotDelivered
    | QcBlockNotFetched
    | EmptyParents
    | PartCertMismatch
    | NotAboveVheight
    | SafetyBreached

  datatype Outcome = Ok | Throw(error: Error)

  datatype PartCert = PartCert(obj: Blk, sig: Sig)

  datatype Vote = Vote(voter: ReplicaId, blk: Blk, cert: PartCert)

  datatype Finality = Finality(rid: ReplicaId, decision: int, cmdIdx: nat, height: nat, cmd: Cmd, blk: Blk)

  /** The mutable part of a stored block. */
  datatype BlkState = BlkState(delivered: bool, decision: bool, voted: set<ReplicaId>, selfQc: Option<Cert>)

  datatype Core = Core(
    id: ReplicaId,
    nreplicas: nat,
    nmajority: nat,
    storage: Storage,
    hqc: Blk,
    hqcCert: Cert,
    lock: Blk,
    exec: Blk,
    vheight: nat,
    tails: set<Blk>,
    voteDisabled: bool,
    committed: seq<Blk>,   // the do_consensus calls, in order
    log: seq<Finality>)    // the do_decide calls, in order

  /** What a handler leaves behind: the state, how it ended and the vote it signed, if any. */
  datatype Effect = Effect(core: Core, outcome: Outcome, vote: Option<Vote>)

  type Storage = map<Blk, BlkState>

  predicate IsDelivered(st: Storage, b: Blk) {
    b in st && st[b].delivered
  }

  predicate IsDecided(st: Storage, b: Blk) {
    b in st && st[b].decision
  }

  predicate Delivered(c: Core, b: Blk) {
    IsDelivered(c.storage, b)
  }

  predicate Decided(c: Core, b: Blk) {
    IsDecided(c.storage, b)
  }

  predicate ParentsDelivered(st: Storage, b: Blk) {
    b.Node? ==> forall p <- b.parents :: IsDelivered(st, p)
  }

  ghost predicate Closed(st: Storage) {
    forall b :: IsDelivered(st, b) ==> ParentsDelivered(st, b)
  }

  lemma {:induction false} AncestorDelivered(st: Storage, a: Blk, b: Blk)
    requires Closed(st) && IsDelivered(st, b) && IsAncestor(a, b)
    ensures IsDelivered(st, a)
    decreases b
  {
    if a != b {
      assert ParentsDelivered(st, b) && Parent(b) in b.parents;
      AncestorDelivered(st, a, Parent(b));
    }
  }

  /** No handler forgets anything: pointers only rise and what was delivered, decided or committed stays. */
  ghost predicate Grows(c: Core, c': Core) {
    && c'.id == c.id && c'.nreplicas == c.nreplicas && c'.nmajority == c.nmajority
    && Height(c'.hqc) >= Height(c.hqc) && Height(c'.lock) >= Height(c.lock) && c'.vheight >= c.vheight
    && (Height(c'.hqc) == Height(c.hqc) ==> c'.hqc == c.hqc)
    && c.committed <= c'.committed && c.log <= c'.log
    && (forall b :: Delivered(c, b) ==> Delivered(c', b))
    && (forall b :: Decided(c, b) ==> Decided(c', b))
    && (TailsDelivered(c) ==> TailsDelivered(c'))
  }

  predicate TailsDelivered(c: Core) {
    forall b <- c.tails :: Delivered(c, b)
  }

  // --- certificates ---

  function Majority(n: nat): nat
    requires n > 0
  {
    n - (n - 1) / 3
  }

  function EmptyCert(n: nat, b: Blk): Cert {
    Cert(b, seq(n, _ => false), map[])
  }

  /** `sigs.insert` keeps an entry that is there.  The bitmap has a bit for every configured replica. */
  function AddPart(cert: Cert, rid: ReplicaId, sig: Sig): (cert': Cert)
    ensures cert'.obj == cert.obj && rid in cert'.sigs && |cert'.rids| == |cert.rids|
  {
    Cert(cert.obj,
         if rid < |cert.rids| then cert.rids[rid := true] else cert.rids,
         if rid in cert.sigs then cert.sigs else cert.sigs[rid := sig])
  }

  /** The bitmap names exactly the replicas whose signature the certificate holds. */
  predicate CertShape(cert: Cert) {
    && (forall i :: 0 <= i < |cert.rids| ==> (cert.rids[i] <==> i in cert.sigs))
    && (forall i <- cert.sigs :: i < |cert.rids|)
  }

  predicate Verifies(cert: Cert, n: nat, majority: nat) {
    && |cert.sigs| >= majority
    && forall i :: 0 <= i < |cert.rids| && cert.rids[i] ==>
                     i < n && i in cert.sigs && cert.sigs[i] == Sig(i, cert.obj)
  }

  predicate BlockVerifies(b: Blk, n: nat, majority: nat) {
    HasQcRef(b) ==> QcRef(b).Genesis? || Verifies(b.qc.value, n, majority)
  }

  predicate VoteVerifies(v: Vote, n: nat) {
    v.voter < n && v.cert.sig == Sig(v.voter, v.cert.obj) && v.cert.obj == v.blk
  }

  // --- initial state ---

  function AllReplicas(n: nat): (s: set<ReplicaId>)
    ensures forall r: nat :: r in s <==> r < n
  {
    if n == 0 then {} else AllReplicas(n - 1) + {n - 1}
  }

  function Init(id: ReplicaId, n: nat): Core
    requires n > 0
  {
    var cert := EmptyCert(n, Genesis);
    Core(id, n, Majority(n),
         map[Genesis := BlkState(true, true, AllReplicas(n), Some(cert))],
         Genesis, cert, Genesis, Genesis, 0, {Genesis}, false, [], [])
  }

  // --- delivery ---

  function Fetch(c: Core, b: Blk): (c': Core)
    ensures Grows(c, c') && b in c'.storage
  {
    if b in c.storage then c else c.(storage := c.storage[b := BlkState(false, false, {}, None)])
  }

  function SetOf(s: seq<Blk>): set<Blk> {
    set b | b in s
  }

  function OnDeliver(c: Core, b: Blk): (e: Effect)
    requires b in c.storage
    ensures Grows(c, e.core) && e.vote.None?
    ensures e.core == c.(storage := e.core.storage, tails := e.core.tails)
    ensures e.core.storage.Keys == c.storage.Keys
    ensures e.outcome.Ok? <==> Delivered(e.core, b)
    ensures e.core.storage == c.storage[b := c.storage[b].(delivered := Delivered(e.core, b))]
  {
    if c.storage[b].delivered then Effect(c, Ok, None)
    else if !ParentsDelivered(c.storage, b) then Effect(c, Throw(BlockNotDelivered), None)
    else if HasQcRef(b) && QcRef(b) !in c.storage then Effect(c, Throw(QcBlockNotFetched), None)
    else
      var parents := if b.Node? then SetOf(b.parents) else {};
      Effect(c.(storage := c.storage[b := c.storage[b].(delivered := true)],
                tails := c.tails - parents + {b}),
             Ok, None)
  }

  // --- the three-step update ---

  function UpdateHqc(c: Core, b: Blk, cert: Cert): (c': Core)
    ensures c' == c.(hqc := c'.hqc, hqcCert := c'.hqcCert) && Height(c'.hqc) >= Height(b)
  {
    if Height(b) > Height(c.hqc) then c.(hqc := b, hqcCert := cert) else c
  }

  function RaiseLock(c: Core, b: Blk): Core {
    if Height(b) > Height(c.lock) then c.(lock := b) else c
  }

  /** The blocks of `b`'s branch above height `h`, lowest first. */
  function Branch(b: Blk, h: nat): seq<Blk> {
    if Height(b) <= h then [] else Branch(Parent(b), h) + [b]
  }

  function BlockFinalities(id: ReplicaId, b: Blk): seq<Finality> {
    if b.Genesis? then [] else seq(|b.cmds|, i requires 0 <= i < |b.cmds| => Finality(id, 1, i, Height(b), b.cmds[i], b))
  }

  function Finalities(id: ReplicaId, blks: seq<Blk>): seq<Finality> {
    if |blks| == 0 then []
    else Finalities(id, blks[..|blks| - 1]) + BlockFinalities(id, blks[|blks| - 1])
  }

  function MarkDecided(storage: Storage, blks: seq<Blk>): Storage {
    map b | b in storage :: if b in blks then storage[b].(decision := true) else storage[b]
  }

  /** Nothing about the stored blocks changed but decisions, and those were only made. */
  predicate OnlyDecides(st: Storage, st': Storage) {
    && st'.Keys == st.Keys
    && forall b <- st :: st'[b].(decision := st[b].decision) == st[b] && (st[b].decision ==> st'[b].decision)
  }

  /** What `update` never touches. */
  ghost predicate UpdateFrame(c: Core, c': Core) {
    && OnlyDecides(c.storage, c'.storage)
    && c'.id == c.id && c'.nreplicas == c.nreplicas && c'.nmajority == c.nmajority
    && c'.vheight == c.vheight && c'.tails == c.tails && c'.voteDisabled == c.voteDisabled
    && Grows(c, c')
  }

  function Commit(c: Core, b: Blk): (e: Effect)
    ensures UpdateFrame(c, e.core)
    ensures e.core.hqc == c.hqc && e.core.hqcCert == c.hqcCert && e.vote.None?
  {
    if WalkTo(b, Height(c.exec)) != c.exec then Effect(c, Throw(SafetyBreached), None)
    else
      var queue := Branch(b, Height(c.exec));
      Effect(c.(storage := MarkDecided(c.storage, queue),
                exec := b,
                committed := c.committed + queue,
                log := c.log + Finalities(c.id, queue)),
             Ok, None)
  }

  /** `b2`, `b1`, `b` are consecutive blocks, each certified by its child. */
  predicate ThreeChain(b: Blk, b1: Blk, b2: Blk) {
    && HasParent(b2) && HasQcRef(b2) && Parent(b2) == b1 == QcRef(b2)
    && HasParent(b1) && HasQcRef(b1) && Parent(b1) == b == QcRef(b1)
  }

  function Update(c: Core, nblk: Blk): (e: Effect)
    ensures UpdateFrame(c, e.core) && e.vote.None?
  {
    if !HasQcRef(nblk) then Effect(c, Ok, None) else
    var blk2 := QcRef(nblk);
    if Decided(c, blk2) then Effect(c, Ok, None) else
    UpdateLock(UpdateHqc(c, blk2, nblk.qc.value), blk2)
  }

  function UpdateLock(c: Core, blk2: Blk): (e: Effect)
    ensures UpdateFrame(c, e.core)
    ensures e.core.hqc == c.hqc && e.core.hqcCert == c.hqcCert && e.vote.None?
  {
    if !HasQcRef(blk2) then Effect(c, Ok, None) else
    var blk1 := QcRef(blk2);
    if Decided(c, blk1) then Effect(c, Ok, None) else
    UpdateExec(RaiseLock(c, blk1), blk1, blk2)
  }

  function UpdateExec(c: Core, blk1: Blk, blk2: Blk): (e: Effect)
    ensures UpdateFrame(c, e.core)
    ensures e.core.hqc == c.hqc && e.core.hqcCert == c.hqcCert && e.vote.None?
  {
    if !HasQcRef(blk1) then Effect(c, Ok, None) else
    var blk := QcRef(blk1);
    if Decided(c, blk) || !ThreeChain(blk, blk1, blk2) then Effect(c, Ok, None) else
    Commit(c, blk)
  }

  // --- votes ---

  /** One more voter and a new running certificate. */
  function Counting(c: Core, b: Blk, voter: ReplicaId, qc: Cert): (c': Core)
    requires b in c.storage
    ensures Grows(c, c') && c' == c.(storage := c'.storage) && c'.storage.Keys == c.storage.Keys
  {
    c.(storage := c.storage[b := c.storage[b].(voted := c.storage[b].voted + {voter}, selfQc := Some(qc))])
  }

  function OnReceiveVote(c: Core, v: Vote): (e: Effect)
    ensures Grows(c, e.core) && e.vote.None?
    ensures e.core.hqc == c.hqc || e.core.hqc == v.blk
    ensures e.outcome.Ok? || (e.outcome == Throw(BlockNotDelivered) && e.core == c) || e.outcome == Throw(PartCertMismatch)
  {
    if !Delivered(c, v.blk) then Effect(c, Throw(BlockNotDelivered), None)
    else if |c.storage[v.blk].voted| >= c.nmajority || v.voter in c.storage[v.blk].voted then Effect(c, Ok, None)
    else CountVote(c, v)
  }

  /** The first vote of a voter, before the block has its quorum. */
  function CountVote(c: Core, v: Vote): (e: Effect)
    requires Delivered(c, v.blk)
    ensures Grows(c, e.core) && e.vote.None?
    ensures e.core.hqc == c.hqc || e.core.hqc == v.blk
    ensures e.outcome.Ok? || e.outcome == Throw(PartCertMismatch)
  {
    var s := c.storage[v.blk];
    var qc := if s.selfQc.Some? then s.selfQc.value else EmptyCert(c.nreplicas, v.blk);
    if v.cert.obj != qc.obj then
      Effect(Counting(c, v.blk, v.voter, qc), Throw(PartCertMismatch), None)
    else
      var qc' := AddPart(qc, v.voter, v.cert.sig);
      var c1 := Counting(c, v.blk, v.voter, qc');
      Effect(if |s.voted| + 1 == c.nmajority then UpdateHqc(c1, v.blk, qc') else c1, Ok, None)
  }

  /** What the first vote of a voter comes to before the quorum. */
  lemma CountedVote(c: Core, v: Vote)
    requires Delivered(c, v.blk) && |c.storage[v.blk].voted| < c.nmajority && v.voter !in c.storage[v.blk].voted
    ensures var s := c.storage[v.blk];
            var qc := if s.selfQc.Some? then s.selfQc.value else EmptyCert(c.nreplicas, v.blk);
            var e := OnReceiveVote(c, v);
            if v.cert.obj != qc.obj then
              e.outcome == Throw(PartCertMismatch) && e.core == Counting(c, v.blk, v.voter, qc)
            else
              var qc' := AddPart(qc, v.voter, v.cert.sig);
              var c1 := Counting(c, v.blk, v.voter, qc');
              e.outcome == Ok && e.core == if |s.voted| + 1 == c.nmajority then UpdateHqc(c1, v.blk, qc') else c1
  {
    hide Grows, AddPart, EmptyCert, UpdateHqc;
  }

  /** Other votes change nothing. */
  lemma IgnoredVote(c: Core, v: Vote)
    requires Delivered(c, v.blk) ==> |c.storage[v.blk].voted| >= c.nmajority || v.voter in c.storage[v.blk].voted
    ensures OnReceiveVote(c, v).core == c
  {
    hide Grows;
  }

  function SelfVote(id: ReplicaId, b: Blk): Vote {
    Vote(id, b, PartCert(b, Sig(id, b)))
  }

  // --- proposals ---

  /** The rule a replica votes by: above its last vote, and either justified by a certificate above
      the lock or on the locked branch. */
  predicate MayVote(c: Core, b: Blk) {
    && Height(b) > c.vheight
    && ((HasQcRef(b) && Height(QcRef(b)) > Height(c.lock)) || WalkTo(b, Height(c.lock)) == c.lock)
  }

  function OnReceiveProposal(c: Core, b: Blk): (e: Effect)
    ensures Grows(c, e.core)
    ensures e.vote.Some? ==> e.vote.value == SelfVote(c.id, b)
  {
    if !Delivered(c, b) then Effect(c, Throw(BlockNotDelivered), None) else
    var u := Update(c, b);
    if u.outcome.Throw? then u
    else if !MayVote(u.core, b) then u
    else Effect(u.core.(vheight := Height(b)), Ok, if c.voteDisabled then None else Some(SelfVote(c.id, b)))
  }

  function NewBlock(c: Core, cmds: seq<Cmd>, parents: seq<Blk>, extra: seq<nat>): Blk {
    Node(parents, cmds, Some(c.hqcCert), extra)
  }

  /** The state after `on_propose` stored its block and gave it an empty certificate. */
  function Draft(c: Core, b: Blk): (c': Core)
    requires b.Node?
    ensures Grows(c, c') && b in c'.storage
  {
    var c1 := Fetch(c.(tails := c.tails - SetOf(b.parents)), b);
    c1.(storage := c1.storage[b := c1.storage[b].(selfQc := Some(EmptyCert(c.nreplicas, b)))])
  }

  /** The self-vote: the proposer checks only the height, not the lock. */
  function SignOwn(c: Core, b: Blk): (e: Effect)
    ensures Grows(c, e.core)
    ensures e.core.hqc == c.hqc || e.core.hqc == b
    ensures e.vote == if Height(b) > c.vheight then Some(SelfVote(c.id, b)) else None
  {
    if Height(b) <= c.vheight then Effect(c, Throw(NotAboveVheight), None)
    else OnReceiveVote(c.(vheight := Height(b)), SelfVote(c.id, b)).(vote := Some(SelfVote(c.id, b)))
  }

  function OnPropose(c: Core, cmds: seq<Cmd>, parents: seq<Blk>, extra: seq<nat>): (e: Effect)
    ensures e.vote.Some? ==> e.vote.value == SelfVote(c.id, NewBlock(c, cmds, parents, extra))
  {
    if parents == [] then Effect(c, Throw(EmptyParents), None) else
    var b := NewBlock(c, cmds, parents, extra);
    var d := OnDeliver(Draft(c, b), b);
    if d.outcome.Throw? then d else
    var u := Update(d.core, b);
    if u.outcome.Throw? then u else
    SignOwn(u.core, b)
  }

  lemma GrowsTransitive(c1: Core, c2: Core, c3: Core)
    requires Grows(c1, c2) && Grows(c2, c3)
    ensures Grows(c1, c3)
  {
  }

  lemma GrowsReflexive(c: Core)
    ensures Grows(c, c)
  {
  }

  lemma ProposeGrows(c: Core, cmds: seq<Cmd>, parents: seq<Blk>, extra: seq<nat>)
    ensures Grows(c, OnPropose(c, cmds, parents, extra).core)
  {
    hide Grows, Fetch, OnReceiveVote, SignOwn, Draft;
    if parents == [] {
      GrowsReflexive(c);
    } else {
      var b := NewBlock(c, cmds, parents, extra);
      var c1 := Draft(c, b);
      var d := OnDeliver(c1, b);
      GrowsTransitive(c, c1, d.core);
      if d.outcome.Ok? {
        var u := Update(d.core, b);
        assert Grows(d.core, u.core);
        GrowsTransitive(c, d.core, u.core);
        GrowsTransitive(c, u.core, SignOwn(u.core, b).core);
      }
    }
  }
}
