/** The replica as the program has it: heap-allocated blocks, a pace maker and handlers that change
    both in place.  Every handler is proved to take the step that `CoreSpec` defines. */
module ReplicaCode {
  import opened Wrappers
  import opened BlockTree
  import opened CoreSpec
  import opened HighTail

  class Block {
    const hash: Blk
    var parents: seq<Block>
    var qcRef: Block?
    var selfQc: Option<Cert>
    var height: nat
    var delivered: bool
    var decision: bool
    var voted: set<ReplicaId>

    constructor (hash: Blk)
      ensures this.hash == hash
      ensures !delivered && !decision && voted == {} && selfQc == None
      ensures parents == [] && qcRef == null && height == 0
    {
      this.hash := hash;
      parents := [];
      qcRef := null;
      selfQc := None;
      height := 0;
      delivered := false;
      decision := false;
      voted := {};
    }
  }

  /** A delivered block's derived fields agree with its content. */
  ghost predicate LinkedBlock(st: map<Blk, Block>, h: Blk)
    requires h in st
    reads st.Values
  {
    var b := st[h];
    && b.height == Height(h)
    && match h
       case Genesis => b.parents == [] && b.qcRef == b && b.decision
       case Node(parents, _, qc, _) =>
         && |b.parents| == |parents| > 0
         && (forall k :: 0 <= k < |parents| ==> parents[k] in st && st[parents[k]] == b.parents[k] && b.parents[k].delivered)
         && (if qc.None? then b.qcRef == null
             else qc.value.obj in st && st[qc.value.obj] == b.qcRef && st[qc.value.obj].delivered)
  }

  ghost predicate Linked(st: map<Blk, Block>)
    reads st.Values
  {
    && (forall h <- st :: st[h].hash == h)
    && (forall h <- st :: st[h].delivered ==> LinkedBlock(st, h))
  }

  ghost function BlockView(b: Block): BlkState
    reads b
  {
    BlkState(b.delivered, b.decision, b.voted, b.selfQc)
  }

  ghost function StorageView(st: map<Blk, Block>): Storage
    reads st.Values
  {
    map h <- st :: BlockView(st[h])
  }

  ghost predicate Known(st: map<Blk, Block>, b: Block)
    reads st.Values
  {
    b.hash in st && st[b.hash] == b && st[b.hash].delivered
  }

  ghost function Hashes(st: map<Blk, Block>, s: set<Block>): set<Blk> {
    set h <- st | st[h] in s
  }

  /** What a delivered block's fields say about its content. */
  lemma Links(st: map<Blk, Block>, b: Block)
    requires Linked(st) && Known(st, b)
    ensures b.height == Height(b.hash)
    ensures b.hash.Node? ==> HasParent(b.hash) && |b.parents| > 0 && Known(st, b.parents[0]) && b.parents[0].hash == Parent(b.hash)
    ensures HasQcRef(b.hash) ==> b.qcRef != null && Known(st, b.qcRef) && b.qcRef.hash == QcRef(b.hash)
    ensures !HasQcRef(b.hash) ==> b.qcRef == null || (b.hash.Genesis? && b.qcRef == b && b.decision)
  {
    assert LinkedBlock(st, b.hash);
  }

  /** Deciding blocks disturbs no link. */
  twostate lemma DecidingKeepsLinks(st: map<Blk, Block>)
    requires old(Linked(st))
    requires forall h <- st :: st[h].parents == old(st[h].parents) && st[h].qcRef == old(st[h].qcRef)
    requires forall h <- st :: st[h].height == old(st[h].height) && st[h].delivered == old(st[h].delivered)
    requires forall h <- st :: old(st[h].decision) ==> st[h].decision
    ensures Linked(st)
  {
    forall h <- st | st[h].delivered
      ensures LinkedBlock(st, h)
    {
      assert old(LinkedBlock(st, h));
    }
  }

  lemma HashesMatch(st: map<Blk, Block>)
    requires Linked(st)
    ensures forall h <- st :: st[h].hash == h
  {
  }

  lemma LinkedExtends(st: map<Blk, Block>, b: Block)
    requires Linked(st) && b.hash !in st && !b.delivered
    ensures Linked(st[b.hash := b])
  {
    var st' := st[b.hash := b];
    forall h <- st' | st'[h].delivered
      ensures LinkedBlock(st', h)
    {
      assert LinkedBlock(st, h);
    }
  }

  lemma StorageExtends(st: map<Blk, Block>, tails: set<Block>, b: Block)
    requires b.hash !in st && b !in tails && Linked(st)
    ensures StorageView(st[b.hash := b]) == StorageView(st)[b.hash := BlockView(b)]
    ensures Hashes(st[b.hash := b], tails) == Hashes(st, tails)
  {
    hide LinkedBlock;
  }

  /** Blocks that were not delivered may change freely, as long as those delivered now are linked. */
  twostate lemma DeliveringKeepsLinks(st: map<Blk, Block>)
    requires old(Linked(st))
    requires forall h <- st | old(st[h].delivered) :: st[h].parents == old(st[h].parents) && st[h].qcRef == old(st[h].qcRef)
    requires forall h <- st | old(st[h].delivered) :: st[h].height == old(st[h].height) && st[h].delivered
    requires forall h <- st :: st[h].decision == old(st[h].decision)
    requires forall h <- st | st[h].delivered && !old(st[h].delivered) :: LinkedBlock(st, h)
    ensures Linked(st)
  {
    forall h <- st | st[h].delivered
      ensures LinkedBlock(st, h)
    {
      if old(st[h].delivered) { assert old(LinkedBlock(st, h)); }
    }
  }

  ghost predicate ParentsLinked(st: map<Blk, Block>, h: Blk, parents: seq<Block>)
    requires h.Node?
    reads st.Values
  {
    && |parents| == |h.parents|
    && forall k :: 0 <= k < |parents| ==> h.parents[k] in st && parents[k] == st[h.parents[k]] && st[h.parents[k]].delivered
  }

  ghost predicate QcLinked(st: map<Blk, Block>, h: Blk, qcRef: Block?)
    requires h.Node?
    reads st.Values
  {
    if h.qc.None? then qcRef == null else QcRef(h) in st && st[QcRef(h)].delivered && qcRef == st[QcRef(h)]
  }

  lemma FirstParentHeight(st: map<Blk, Block>, h: Blk, parents: seq<Block>)
    requires Linked(st) && HasParent(h) && ParentsLinked(st, h, parents)
    ensures parents[0].height + 1 == Height(h)
  {
    Links(st, parents[0]);
  }

  lemma TailHashes(st: map<Blk, Block>, tails: set<Block>, b: Block, parents: seq<Block>)
    requires Linked(st) && b.hash in st && st[b.hash] == b && b.hash.Node? && ParentsLinked(st, b.hash, parents)
    ensures Hashes(st, tails - (set p | p in parents) + {b}) == Hashes(st, tails) - SetOf(b.hash.parents) + {b.hash}
  {
    forall h <- st
      ensures st[h] in parents <==> h in b.hash.parents
    {
      if h in b.hash.parents {
        var k :| 0 <= k < |b.hash.parents| && b.hash.parents[k] == h;
        assert parents[k] == st[h];
      }
    }
  }

  function Contents(blocks: seq<Block>): seq<Blk> {
    seq(|blocks|, i requires 0 <= i < |blocks| => blocks[i].hash)
  }

  lemma TailsWithout(st: map<Blk, Block>, tails: set<Block>, parents: seq<Block>)
    requires Linked(st) && forall p <- parents :: p.hash in st && st[p.hash] == p
    ensures Hashes(st, tails - (set p | p in parents)) == Hashes(st, tails) - SetOf(Contents(parents))
  {
    forall h <- st
      ensures st[h] in parents <==> h in Contents(parents)
    {
      if h in Contents(parents) {
        var k :| 0 <= k < |parents| && Contents(parents)[k] == h;
        assert parents[k] == st[h];
      }
      if st[h] in parents {
        var k :| 0 <= k < |parents| && parents[k] == st[h];
        assert Contents(parents)[k] == h;
      }
    }
  }

  lemma SelfVoteIsCounted(c: Core, b: Blk)
    requires Delivered(c, b) && (c.storage[b].selfQc.Some? ==> c.storage[b].selfQc.value.obj == b)
    ensures OnReceiveVote(c, SelfVote(c.id, b)).outcome.Ok?
  {
  }

  lemma StateOf(st: map<Blk, Block>, b: Block)
    requires b.hash in st && st[b.hash] == b
    ensures (IsDelivered(StorageView(st), b.hash) <==> b.delivered) && (IsDecided(StorageView(st), b.hash) <==> b.decision)
  {
  }

  lemma SameTail(c: Core, t: Blk)
    ensures TailAfterUpdate(c, t, c, t)
  {
  }

  lemma ReceivedTail(c: Core, t: Blk, c1: Core, t1: Blk, c2: Core, b: Blk)
    requires TailAfterUpdate(c, t, c1, t1) && c2.hqc == c1.hqc && c2.tails == c1.tails
    ensures ReceiveTail(c, t, c2, b, TailAfterReceive(c2.hqc, t1, b))
  {
    assert TailAfterUpdate(c, t, c2, t1);
  }

  lemma DeliveredIsKnown(st: map<Blk, Block>, h: Blk)
    requires Linked(st) && IsDelivered(StorageView(st), h)
    ensures h in st && Known(st, st[h])
  {
  }

  lemma GenesisLinked(b: Block, n: nat)
    requires n > 0 && b.hash == Genesis && b.parents == [] && b.qcRef == b && b.height == 0
    requires b.delivered && b.decision && b.voted == AllReplicas(n) && b.selfQc == Some(EmptyCert(n, Genesis))
    ensures Linked(map[Genesis := b]) && Known(map[Genesis := b], b)
    ensures StorageView(map[Genesis := b]) == map[Genesis := BlkState(true, true, AllReplicas(n), Some(EmptyCert(n, Genesis)))]
    ensures Hashes(map[Genesis := b], {b}) == {Genesis} && EmptyCert(n, Genesis).obj == Genesis
  {
    hide AllReplicas;
    var st := map[Genesis := b];
    assert LinkedBlock(st, Genesis);
  }

  ghost function DecidedIn(s: BlkState, h: Blk, blks: seq<Blk>): BlkState {
    if h in blks then s.(decision := true) else s
  }

  /** Follow `parents[0]` down to height `h` or below. */
  method WalkDown(ghost st: map<Blk, Block>, start: Block, h: nat) returns (b: Block)
    requires Linked(st) && Known(st, start)
    ensures Known(st, b) && b.hash == WalkTo(start.hash, h)
  {
    b := start;
    while b.height > h
      invariant Known(st, b) && WalkTo(start.hash, h) == WalkTo(b.hash, h)
      decreases b.height
    {
      assert LinkedBlock(st, b.hash);
      ghost var k := b.hash;
      b := b.parents[0];
      assert b.hash == k.parents[0];
    }
    assert LinkedBlock(st, b.hash);
  }

  /** The pace maker that proposes on the highest known branch through `hqc`. */
  class PMHighTail {
    var hqcTail: Block

    constructor (b0: Block)
      ensures hqcTail == b0
    {
      hqcTail := b0;
    }

    method CheckAncestry(ghost st: map<Blk, Block>, a: Block, b: Block) returns (r: bool)
      requires Linked(st) && Known(st, a) && Known(st, b)
      ensures r <==> IsAncestor(a.hash, b.hash)
    {
      assert LinkedBlock(st, a.hash);
      var w := WalkDown(st, b, a.height);
      WalkDecidesAncestor(a.hash, b.hash);
      r := w == a;
    }

    /** The callback on a raised `hqc`. */
    method OnHqcUpdate(ghost st: map<Blk, Block>, hqc: Block, tails: set<Block>)
      requires Linked(st) && Known(st, hqc) && (forall t <- tails :: Known(st, t))
      modifies this
      ensures Known(st, hqcTail)
      ensures TailChoice(hqc.hash, Hashes(st, tails), hqcTail.hash)
      ensures hqcTail == hqc || (hqcTail in tails && IsAncestor(hqc.hash, hqcTail.hash))
      ensures forall t <- tails :: IsAncestor(hqc.hash, t.hash) ==> Height(t.hash) <= Height(hqcTail.hash)
    {
      hide Linked, LinkedBlock, IsAncestor, Height;
      HashesMatch(st);
      hqcTail := hqc;
      var rest := tails;
      while rest != {}
        invariant rest <= tails
        invariant Known(st, hqcTail)
        invariant hqcTail == hqc || (hqcTail in tails && IsAncestor(hqc.hash, hqcTail.hash))
        invariant forall t <- tails :: t !in rest && IsAncestor(hqc.hash, t.hash) ==> Height(t.hash) <= Height(hqcTail.hash)
      {
        var tail :| tail in rest;
        rest := rest - {tail};
        Links(st, tail);
        Links(st, hqcTail);
        var follows := CheckAncestry(st, hqc, tail);
        if follows && tail.height > hqcTail.height {
          hqcTail := tail;
        }
      }
    }

    /** The callback on an own proposal. */
    method OnProposal(blk: Block)
      modifies this
      ensures hqcTail == blk
    {
      hqcTail := blk;
    }

    /** The callback on a received proposal. */
    method OnReceiveProposal(ghost st: map<Blk, Block>, hqc: Block, blk: Block)
      requires Linked(st) && Known(st, hqc) && Known(st, blk) && Known(st, hqcTail)
      modifies this
      ensures Known(st, hqcTail)
      ensures hqcTail.hash == TailAfterReceive(hqc.hash, old(hqcTail.hash), blk.hash)
      ensures hqcTail == if IsAncestor(hqc.hash, blk.hash) && Height(blk.hash) > Height(old(hqcTail).hash) then blk else old(hqcTail)
    {
      assert LinkedBlock(st, blk.hash) && LinkedBlock(st, hqcTail.hash);
      var follows := CheckAncestry(st, hqc, blk);
      if follows && blk.height > hqcTail.height {
        hqcTail := blk;
      }
    }

    method GetParents() returns (parents: seq<Block>)
      ensures parents == [hqcTail]
    {
      parents := [hqcTail];
    }
  }

  /** One block more of the branch is collected. */
  lemma BranchStep(b: Blk, h: nat, done: seq<Blk>)
    requires Height(b) > h
    ensures b.Node? && HasParent(b) && Height(Parent(b)) < Height(b) && WalkTo(Parent(b), h) == WalkTo(b, h)
    ensures Branch(Parent(b), h) + ([b] + done) == Branch(b, h) + done
  {
  }

  lemma BranchEnds(b: Blk, h: nat, done: seq<Blk>)
    requires Height(b) <= h
    ensures Branch(b, h) + done == done && WalkTo(b, h) == b
  {
  }

  lemma TakeOneMore(id: ReplicaId, blks: seq<Blk>, n: nat)
    requires 0 < n <= |blks|
    ensures blks[..n] == blks[..n - 1] + [blks[n - 1]]
    ensures SetOf(blks[..n]) == SetOf(blks[..n - 1]) + {blks[n - 1]}
    ensures Finalities(id, blks[..n]) == Finalities(id, blks[..n - 1]) + BlockFinalities(id, blks[n - 1])
  {
    assert blks[..n][..n - 1] == blks[..n - 1];
    assert blks[..n] == blks[..n - 1] + [blks[n - 1]];
  }

  lemma TakeNone(id: ReplicaId, blks: seq<Blk>)
    ensures SetOf(blks[..0]) == {} && Finalities(id, blks[..0]) == []
    ensures blks[..|blks|] == blks
    ensures forall b :: b in SetOf(blks) <==> b in blks
  {
  }

  class HotStuffCore {
    const id: ReplicaId
    const b0: Block
    const pm: PMHighTail
    const nreplicas: nat
    const nmajority: nat
    var storage: map<Blk, Block>
    var hqc: Block
    var hqcCert: Cert
    var bLock: Block
    var bExec: Block
    var vheight: nat
    var tails: set<Block>
    var voteDisabled: bool
    var committed: seq<Blk>
    var log: seq<Finality>

    ghost predicate Valid()
      reads this, pm, storage.Values
    {
      && Linked(storage)
      && Known(storage, b0) && b0.hash == Genesis
      && Known(storage, hqc) && Known(storage, bLock) && Known(storage, bExec) && Known(storage, pm.hqcTail)
      && (forall t <- tails :: Known(storage, t))
      && hqcCert.obj == hqc.hash
      && (forall h <- storage :: storage[h].selfQc.Some? ==> storage[h].selfQc.value.obj == h)
    }

    /** Blocks may be added, linked, voted for and decided without touching what the replica points at. */
    twostate lemma StaysValid()
      requires old(Valid()) && unchanged(this`hqc, this`hqcCert, this`bLock, this`bExec, this`tails) && unchanged(pm)
      requires Linked(storage)
      requires forall h <- old(storage) :: h in storage && storage[h] == old(storage[h])
      requires forall h <- old(storage) :: old(storage[h].delivered) ==> storage[h].delivered
      requires forall h <- storage :: storage[h].selfQc.Some? ==> storage[h].selfQc.value.obj == h
      ensures Valid()
    {
      hide Linked, LinkedBlock;
    }

    ghost function View(): Core
      reads this, storage.Values
    {
      Core(id, nreplicas, nmajority, StorageView(storage), hqc.hash, hqcCert, bLock.hash, bExec.hash, vheight,
           Hashes(storage, tails), voteDisabled, committed, log)
    }

    constructor (id: ReplicaId, n: nat)
      requires n > 0
      ensures Valid() && View() == Init(id, n) && pm.hqcTail.hash == Genesis
      ensures fresh(pm) && fresh(storage.Values)
    {
      hide Linked, LinkedBlock, Known, StorageView, Hashes, BlockView, AllReplicas, EmptyCert, Majority, Height, IsAncestor;
      var genesis := new Block(Genesis);
      var pacer := new PMHighTail(genesis);
      this.id := id;
      b0, pm := genesis, pacer;
      nreplicas, nmajority := n, Majority(n);
      storage := map[Genesis := genesis];
      hqc, hqcCert := genesis, EmptyCert(n, Genesis);
      bLock, bExec := genesis, genesis;
      vheight := 0;
      tails := {genesis};
      voteDisabled := false;
      committed, log := [], [];
      new;
      genesis.delivered, genesis.decision := true, true;
      genesis.qcRef, genesis.selfQc := genesis, Some(hqcCert);
      genesis.voted := AllReplicas(n);
      GenesisLinked(genesis, n);
    }

    method UpdateHqc(b: Block, cert: Cert)
      requires Valid() && Known(storage, b) && cert.obj == b.hash
      modifies this`hqc, this`hqcCert, pm
      ensures Valid()
      ensures View() == CoreSpec.UpdateHqc(old(View()), b.hash, cert)
      ensures TailAfterUpdate(old(View()), old(pm.hqcTail.hash), View(), pm.hqcTail.hash)
    {
      hide LinkedBlock, Linked, TailChoice, StorageView, Hashes, IsAncestor, Height;
      Links(storage, b);
      Links(storage, hqc);
      if b.height > hqc.height {
        SetHqc(b, cert);
        TellHqc();
      }
    }

    method SetHqc(b: Block, cert: Cert)
      requires Valid() && Known(storage, b) && cert.obj == b.hash
      modifies this`hqc, this`hqcCert
      ensures Valid() && hqc == b && View() == old(View()).(hqc := b.hash, hqcCert := cert)
    {
      hide LinkedBlock, Linked, StorageView, Hashes;
      hqc, hqcCert := b, cert;
    }

    /** `on_hqc_update`. */
    method TellHqc()
      requires Valid()
      modifies pm
      ensures Valid() && View() == old(View()) && TailChoice(hqc.hash, View().tails, pm.hqcTail.hash)
    {
      hide LinkedBlock, Linked, StorageView, TailChoice;
      pm.OnHqcUpdate(storage, hqc, tails);
    }

    method DecideCommands(b: Block)
      modifies this`log
      ensures log == old(log) + BlockFinalities(id, b.hash)
      ensures b.hash.Node? ==>
                && |log| == |old(log)| + |b.hash.cmds|
                && forall i :: 0 <= i < |b.hash.cmds| ==>
                     log[|old(log)| + i] == Finality(id, 1, i, Height(b.hash), b.hash.cmds[i], b.hash)
    {
      if b.hash.Node? {
        var i := 0;
        while i < |b.hash.cmds|
          invariant 0 <= i <= |b.hash.cmds|
          invariant log == old(log) + BlockFinalities(id, b.hash)[..i]
        {
          log := log + [Finality(id, 1, i, Height(b.hash), b.hash.cmds[i], b.hash)];
          i := i + 1;
        }
      }
    }

    /** The first loop of the commit: collect the branch of `blk` above `bExec`. */
    method CommitQueue(blk: Block) returns (queue: seq<Block>, end: Block)
      requires Valid() && Known(storage, blk)
      ensures end.hash == WalkTo(blk.hash, Height(bExec.hash)) && Known(storage, end)
      ensures |queue| == |Branch(blk.hash, Height(bExec.hash))|
      ensures forall k :: 0 <= k < |queue| ==>
                Known(storage, queue[k]) && queue[k].hash == Branch(blk.hash, Height(bExec.hash))[|queue| - 1 - k]
    {
      hide Linked, LinkedBlock, Branch, WalkTo, Height, HasParent;
      Links(storage, bExec);
      Links(storage, blk);
      ghost var h := Height(bExec.hash);
      assert Branch(blk.hash, h) + [] == Branch(blk.hash, h);
      ghost var done: seq<Blk> := [];
      queue := [];
      var b := blk;
      while b.height > bExec.height
        invariant Known(storage, b) && b.height == Height(b.hash)
        invariant WalkTo(b.hash, h) == WalkTo(blk.hash, h)
        invariant Branch(b.hash, h) + done == Branch(blk.hash, h)
        invariant |queue| == |done|
        invariant forall k :: 0 <= k < |queue| ==> Known(storage, queue[k]) && queue[k].hash == done[|queue| - 1 - k]
        decreases b.height
      {
        BranchStep(b.hash, h, done);
        Links(storage, b);
        queue := queue + [b];
        done := [b.hash] + done;
        b := b.parents[0];
        Links(storage, b);
      }
      BranchEnds(b.hash, h, done);
      end := b;
    }

    method DecideBlock(b: Block)
      modifies b`decision, this`committed, this`log
      ensures b.decision
      ensures committed == old(committed) + [b.hash]
      ensures log == old(log) + BlockFinalities(id, b.hash)
    {
      b.decision := true;
      committed := committed + [b.hash];
      DecideCommands(b);
    }

    /** The second loop, and what it does to the stored blocks. */
    method CommitAll(queue: seq<Block>, ghost blks: seq<Blk>)
      requires Linked(storage)
      requires |queue| == |blks|
      requires forall k :: 0 <= k < |queue| ==> Known(storage, queue[k]) && queue[k].hash == blks[|queue| - 1 - k]
      modifies storage.Values`decision, this`committed, this`log
      ensures Linked(storage)
      ensures StorageView(storage) == MarkDecided(old(StorageView(storage)), blks)
      ensures committed == old(committed) + blks
      ensures log == old(log) + Finalities(id, blks)
    {
      hide LinkedBlock, Finalities;
      DecideAll(queue, blks);
      DecidingKeepsLinks(storage);
      assert forall h <- storage :: BlockView(storage[h]) == DecidedIn(old(BlockView(storage[h])), h, blks);
      assert StorageView(storage) == MarkDecided(old(StorageView(storage)), blks);
    }

    /** Decide the collected blocks, lowest first. */
    method DecideAll(queue: seq<Block>, ghost blks: seq<Blk>)
      requires Linked(storage)
      requires |queue| == |blks|
      requires forall k :: 0 <= k < |queue| ==> Known(storage, queue[k]) && queue[k].hash == blks[|queue| - 1 - k]
      modifies storage.Values`decision, this`committed, this`log
      ensures forall h <- storage :: storage[h].decision == (old(storage[h].decision) || h in blks)
      ensures committed == old(committed) + blks
      ensures log == old(log) + Finalities(id, blks)
    {
      hide LinkedBlock, BlockFinalities, Finalities, SetOf;
      TakeNone(id, blks);
      var i := |queue|;
      ghost var done: set<Blk> := {};
      assert forall h <- storage :: storage[h].hash == h;
      while i > 0
        invariant 0 <= i <= |queue|
        invariant forall h <- storage :: storage[h].decision == (old(storage[h].decision) || h in done)
        invariant done == SetOf(blks[..|blks| - i])
        invariant committed == old(committed) + blks[..|blks| - i]
        invariant log == old(log) + Finalities(id, blks[..|blks| - i])
      {
        i := i - 1;
        var b := queue[i];
        assert storage[b.hash] == b;
        ghost var n := |blks| - i;
        TakeOneMore(id, blks, n);
        done := done + {b.hash};
        DecideBlock(b);
      }
    }

    method Commit(blk: Block) returns (o: Outcome)
      requires Valid() && Known(storage, blk)
      modifies this, storage.Values`decision
      ensures Valid() && storage == old(storage)
      ensures View() == CoreSpec.Commit(old(View()), blk.hash).core
      ensures o == CoreSpec.Commit(old(View()), blk.hash).outcome
    {
      hide LinkedBlock, Linked, Height, WalkTo, Branch, Finalities, MarkDecided, StorageView, UpdateFrame;
      ghost var blks := Branch(blk.hash, Height(bExec.hash));
      var queue, end := CommitQueue(blk);
      if end != bExec {
        o := Throw(SafetyBreached);
      } else {
        Apply(queue, blks);
        SetExec(blk);
        o := Ok;
      }
    }

    /** The second loop, as a step of the replica. */
    method Apply(queue: seq<Block>, ghost blks: seq<Blk>)
      requires Valid() && |queue| == |blks|
      requires forall k :: 0 <= k < |queue| ==> Known(storage, queue[k]) && queue[k].hash == blks[|queue| - 1 - k]
      modifies storage.Values`decision, this`committed, this`log
      ensures Valid()
      ensures View() == old(View()).(storage := MarkDecided(old(View()).storage, blks),
                                     committed := old(committed) + blks, log := old(log) + Finalities(id, blks))
    {
      hide Linked, LinkedBlock, Finalities, MarkDecided, StorageView, Hashes;
      CommitAll(queue, blks);
      StaysValid();
    }

    method SetExec(b: Block)
      requires Valid() && Known(storage, b)
      modifies this`bExec
      ensures Valid() && View() == old(View()).(exec := b.hash)
    {
      hide LinkedBlock, Linked, StorageView, Hashes;
      bExec := b;
    }

    method UpdateExec(blk1: Block, blk2: Block) returns (o: Outcome)
      requires Valid() && Known(storage, blk1) && Known(storage, blk2)
      requires HasQcRef(blk2.hash) && QcRef(blk2.hash) == blk1.hash && !blk1.decision
      modifies this, storage.Values`decision
      ensures Valid() && storage == old(storage)
      ensures View() == CoreSpec.UpdateExec(old(View()), blk1.hash, blk2.hash).core
      ensures o == CoreSpec.UpdateExec(old(View()), blk1.hash, blk2.hash).outcome
    {
      hide LinkedBlock, Linked, Height, UpdateFrame, CoreSpec.Commit;
      Links(storage, blk2);
      Links(storage, blk1);
      var blk := blk1.qcRef;
      if blk == null || blk.decision {
        return Ok;
      }
      if blk2.parents[0] != blk1 || blk1.parents[0] != blk {
        return Ok;
      }
      o := Commit(blk);
    }

    method RaiseLock(b: Block)
      requires Valid() && Known(storage, b)
      modifies this`bLock
      ensures Valid()
      ensures View() == CoreSpec.RaiseLock(old(View()), b.hash)
    {
      hide Linked, LinkedBlock, Height, StorageView, Hashes;
      Links(storage, b);
      Links(storage, bLock);
      if b.height > bLock.height {
        SetLock(b);
      }
    }

    method SetLock(b: Block)
      requires Valid() && Known(storage, b)
      modifies this`bLock
      ensures Valid() && View() == old(View()).(lock := b.hash)
    {
      hide LinkedBlock, Linked, StorageView, Hashes;
      bLock := b;
    }

    method UpdateLock(blk2: Block) returns (o: Outcome)
      requires Valid() && Known(storage, blk2)
      modifies this, storage.Values`decision
      ensures Valid() && storage == old(storage)
      ensures View() == CoreSpec.UpdateLock(old(View()), blk2.hash).core
      ensures o == CoreSpec.UpdateLock(old(View()), blk2.hash).outcome
    {
      hide LinkedBlock, Linked, Height, UpdateFrame, CoreSpec.UpdateExec, CoreSpec.RaiseLock, Hashes, Grows, OnlyDecides;
      Links(storage, blk2);
      var blk1 := blk2.qcRef;
      if blk1 == null || blk1.decision {
        return Ok;
      }
      RaiseLock(blk1);
      o := UpdateExec(blk1, blk2);
    }

    /** The three-step rule: raise `hqc`, raise the lock, commit.  `hqc` changes before anything else,
        and its callback reads only what the rest leaves alone. */
    method Update(nblk: Block) returns (o: Outcome)
      requires Valid() && Known(storage, nblk)
      modifies this, pm, storage.Values`decision
      ensures Valid() && storage == old(storage)
      ensures View() == CoreSpec.Update(old(View()), nblk.hash).core
      ensures o == CoreSpec.Update(old(View()), nblk.hash).outcome
      ensures TailAfterUpdate(old(View()), old(pm.hqcTail.hash), View(), pm.hqcTail.hash)
    {
      hide LinkedBlock, Linked, Height, CoreSpec.UpdateLock, CoreSpec.UpdateHqc, TailAfterUpdate, Hashes, Grows, OnlyDecides,
           UpdateFrame, StorageView, BlockView, IsDecided, IsDelivered;
      Links(storage, nblk);
      var blk2 := nblk.qcRef;
      if blk2 == null {
        assert nblk.hash.Node? ==> !HasQcRef(nblk.hash);
        SameTail(View(), pm.hqcTail.hash);
        return Ok;
      }
      StateOf(storage, blk2);
      if blk2.decision {
        SameTail(View(), pm.hqcTail.hash);
        return Ok;
      }
      o := UpdateWith(blk2, nblk.hash.qc.value);
    }

    method UpdateWith(blk2: Block, cert: Cert) returns (o: Outcome)
      requires Valid() && Known(storage, blk2) && cert.obj == blk2.hash
      modifies this, pm, storage.Values`decision
      ensures Valid() && storage == old(storage)
      ensures var e := CoreSpec.UpdateLock(CoreSpec.UpdateHqc(old(View()), blk2.hash, cert), blk2.hash);
              View() == e.core && o == e.outcome
      ensures TailAfterUpdate(old(View()), old(pm.hqcTail.hash), View(), pm.hqcTail.hash)
    {
      hide LinkedBlock, Linked, Height, CoreSpec.UpdateLock, CoreSpec.UpdateHqc, TailChoice, Hashes, Grows, OnlyDecides, StorageView;
      UpdateHqc(blk2, cert);
      o := UpdateLock(blk2);
    }

    /** `storage->add_blk`: an already known block wins. */
    method AddBlk(h: Blk) returns (b: Block)
      requires Valid()
      modifies this`storage
      ensures Valid() && h in storage && b == storage[h]
      ensures if h in old(storage) then storage == old(storage) else fresh(b) && storage == old(storage)[h := b]
      ensures View() == Fetch(old(View()), h)
    {
      if h in storage {
        HashesMatch(storage);
        b := storage[h];
      } else {
        b := new Block(h);
        Insert(b);
      }
    }

    method Insert(b: Block)
      requires Valid() && b.hash !in storage
      requires BlockView(b) == BlkState(false, false, {}, None)
      modifies this`storage
      ensures Valid() && storage == old(storage)[b.hash := b]
      ensures View() == old(View()).(storage := old(View()).storage[b.hash := BlkState(false, false, {}, None)])
    {
      assert b !in tails;
      hide Linked, LinkedBlock, StorageView, Hashes, Known;
      StorageExtends(storage, tails, b);
      LinkedExtends(storage, b);
      storage := storage[b.hash := b];
      StaysValid();
    }

    /** Look up the parents of a block, which all must be delivered. */
    method FindParents(h: Blk) returns (ok: bool, parents: seq<Block>)
      requires HasParent(h)
      ensures ok <==> ParentsDelivered(StorageView(storage), h)
      ensures ok ==> ParentsLinked(storage, h, parents)
    {
      ok, parents := true, [];
      var i := 0;
      while ok && i < |h.parents|
        invariant 0 <= i <= |h.parents|
        invariant ok ==> i == |parents|
        invariant ok ==> forall k :: 0 <= k < i ==>
                    h.parents[k] in storage && parents[k] == storage[h.parents[k]] && parents[k].delivered
        invariant !ok ==> !ParentsDelivered(StorageView(storage), h)
      {
        var p := h.parents[i];
        if p in storage && storage[p].delivered {
          parents := parents + [storage[p]];
          i := i + 1;
        } else {
          assert p in h.parents && !IsDelivered(StorageView(storage), p);
          ok := false;
        }
      }
      if ok {
        forall p <- h.parents
          ensures IsDelivered(StorageView(storage), p)
        {
          var k :| 0 <= k < |h.parents| && h.parents[k] == p;
        }
      }
    }

    /** The caller passes blocks that have a parent, `parents[0]` being read unchecked, and whose certified
        block is delivered if it is there at all. */
    method OnDeliverBlk(blk: Block) returns (o: Outcome, valid: bool)
      requires Valid() && blk.hash in storage && storage[blk.hash] == blk
      requires !blk.delivered ==> HasParent(blk.hash)
      requires !blk.delivered && HasQcRef(blk.hash) && QcRef(blk.hash) in storage ==> storage[QcRef(blk.hash)].delivered
      modifies this`tails, blk
      ensures Valid()
      ensures View() == OnDeliver(old(View()), blk.hash).core
      ensures o == OnDeliver(old(View()), blk.hash).outcome
      ensures valid <==> o.Ok? && !old(blk.delivered)
    {
      hide Grows, Linked, LinkedBlock, StorageView, Hashes, ParentsDelivered, SetOf, Height;
      StorageAt(storage);
      if blk.delivered {
        return Ok, false;
      }
      var ok, parents := FindParents(blk.hash);
      if !ok {
        return Throw(BlockNotDelivered), false;
      }
      FirstParentHeight(storage, blk.hash, parents);
      var height := parents[0].height + 1;
      var qcRef: Block? := null;
      if blk.hash.qc.Some? {
        if QcRef(blk.hash) !in storage {
          return Throw(QcBlockNotFetched), false;
        }
        qcRef := storage[QcRef(blk.hash)];
      }
      Deliver(blk, parents, height, qcRef);
      return Ok, true;
    }

    method Deliver(blk: Block, parents: seq<Block>, height: nat, qcRef: Block?)
      requires Valid() && blk.hash in storage && storage[blk.hash] == blk && !blk.delivered
      requires HasParent(blk.hash) && ParentsLinked(storage, blk.hash, parents) && height == Height(blk.hash)
      requires QcLinked(storage, blk.hash, qcRef)
      modifies this`tails, blk
      ensures Valid()
      ensures View() == old(View()).(storage := View().storage, tails := old(View()).tails - SetOf(blk.hash.parents) + {blk.hash})
      ensures View().storage == old(View()).storage[blk.hash := old(View()).storage[blk.hash].(delivered := true)]
    {
      hide Linked, LinkedBlock, StorageView, Hashes, SetOf, Height, ParentsLinked, QcLinked;
      LinkUp(blk, parents, height, qcRef);
      AddTail(blk, parents);
    }

    method LinkUp(blk: Block, parents: seq<Block>, height: nat, qcRef: Block?)
      requires Valid() && blk.hash in storage && storage[blk.hash] == blk && !blk.delivered
      requires HasParent(blk.hash) && ParentsLinked(storage, blk.hash, parents) && height == Height(blk.hash)
      requires QcLinked(storage, blk.hash, qcRef)
      modifies blk`parents, blk`height, blk`qcRef, blk`delivered
      ensures Valid() && Known(storage, blk) && ParentsLinked(storage, blk.hash, parents)
      ensures View() == old(View()).(storage := old(View()).storage[blk.hash := old(View()).storage[blk.hash].(delivered := true)])
    {
      hide Linked, LinkedBlock, StorageView, Hashes, Height, ParentsLinked, QcLinked;
      SetLinks(storage, blk, parents, height, qcRef);
      StaysValid();
    }

    method AddTail(blk: Block, parents: seq<Block>)
      requires Valid() && Known(storage, blk) && blk.hash.Node? && ParentsLinked(storage, blk.hash, parents)
      modifies this`tails
      ensures Valid() && View() == old(View()).(tails := old(View()).tails - SetOf(blk.hash.parents) + {blk.hash})
    {
      hide LinkedBlock, Linked, StorageView, Hashes, SetOf;
      TailHashes(storage, tails, blk, parents);
      tails := tails - (set p | p in parents) + {blk};
    }

    method OnReceiveVote(vote: Vote) returns (o: Outcome)
      requires Valid()
      modifies this`hqc, this`hqcCert, pm, storage.Values`voted, storage.Values`selfQc
      ensures Valid()
      ensures View() == CoreSpec.OnReceiveVote(old(View()), vote).core
      ensures o == CoreSpec.OnReceiveVote(old(View()), vote).outcome
      ensures TailAfterUpdate(old(View()), old(pm.hqcTail.hash), View(), pm.hqcTail.hash)
    {
      hide Linked, LinkedBlock, Grows, TailChoice, Hashes;
      HashesMatch(storage);
      if vote.blk !in storage || !storage[vote.blk].delivered {
        return Throw(BlockNotDelivered);
      }
      var blk := storage[vote.blk];
      if |blk.voted| >= nmajority || vote.voter in blk.voted {
        return Ok;
      }
      o := CountVote(blk, vote);
    }

    /** A first vote of this voter, before the block has its quorum. */
    method CountVote(blk: Block, vote: Vote) returns (o: Outcome)
      requires Valid() && Known(storage, blk) && blk.hash == vote.blk
      requires |blk.voted| < nmajority && vote.voter !in blk.voted
      modifies this`hqc, this`hqcCert, pm, blk`voted, blk`selfQc
      ensures Valid()
      ensures View() == CoreSpec.OnReceiveVote(old(View()), vote).core
      ensures o == CoreSpec.OnReceiveVote(old(View()), vote).outcome
      ensures TailAfterUpdate(old(View()), old(pm.hqcTail.hash), View(), pm.hqcTail.hash)
    {
      assert View().storage[blk.hash] == BlockView(blk);
      assert blk.selfQc.Some? ==> blk.selfQc.value.obj == blk.hash;
      CountedVote(View(), vote);
      hide Linked, LinkedBlock, Grows, TailAfterUpdate, Hashes, StorageView, CoreSpec.UpdateHqc, AddPart, CoreSpec.OnReceiveVote,
           EmptyCert, Counting, BlockView;
      var last := |blk.voted| + 1 == nmajority;
      var qc := if blk.selfQc.Some? then blk.selfQc.value else EmptyCert(nreplicas, blk.hash);
      o := if vote.cert.obj != qc.obj then Throw(PartCertMismatch) else Ok;
      if o.Ok? {
        qc := AddPart(qc, vote.voter, vote.cert.sig);
      }
      AddVote(blk, vote.voter, qc, o.Ok? && last);
    }

    method AddVote(blk: Block, voter: ReplicaId, qc: Cert, complete: bool)
      requires Valid() && Known(storage, blk) && qc.obj == blk.hash
      modifies this`hqc, this`hqcCert, pm, blk`voted, blk`selfQc
      ensures Valid()
      ensures var c := Counting(old(View()), blk.hash, voter, qc);
              View() == if complete then CoreSpec.UpdateHqc(c, blk.hash, qc) else c
      ensures TailAfterUpdate(old(View()), old(pm.hqcTail.hash), View(), pm.hqcTail.hash)
    {
      hide Linked, LinkedBlock, TailChoice, Hashes, StorageView, BlockView, CoreSpec.UpdateHqc;
      Count(blk, voter, qc);
      if complete {
        UpdateHqc(blk, qc);
      }
    }

    method Count(blk: Block, voter: ReplicaId, qc: Cert)
      requires Valid() && Known(storage, blk) && qc.obj == blk.hash
      modifies blk`voted, blk`selfQc
      ensures Valid()
      ensures View() == Counting(old(View()), blk.hash, voter, qc)
    {
      HashesMatch(storage);
      hide Linked, LinkedBlock, StorageView, Hashes, Known;
      SetVotes(storage, blk, blk.voted + {voter}, Some(qc));
      StaysValid();
    }

    method OnReceiveProposal(blk: Block) returns (o: Outcome, vote: Option<Vote>)
      requires Valid() && blk.hash in storage && storage[blk.hash] == blk
      modifies this, pm, storage.Values`decision
      ensures Valid()
      ensures View() == CoreSpec.OnReceiveProposal(old(View()), blk.hash).core
      ensures o == CoreSpec.OnReceiveProposal(old(View()), blk.hash).outcome
      ensures vote == CoreSpec.OnReceiveProposal(old(View()), blk.hash).vote
      ensures if o.Ok? then ReceiveTail(old(View()), old(pm.hqcTail.hash), View(), blk.hash, pm.hqcTail.hash)
              else TailAfterUpdate(old(View()), old(pm.hqcTail.hash), View(), pm.hqcTail.hash)
    {
      hide LinkedBlock, Linked, Grows, OnlyDecides, CoreSpec.Update, TailAfterUpdate, TailAfterReceive, MayVote, Height, Hashes,
           StorageView, BlockView, IsDelivered, ReceiveTail;
      StateOf(storage, blk);
      SameTail(View(), pm.hqcTail.hash);
      vote := None;
      if !blk.delivered {
        return Throw(BlockNotDelivered), None;
      }
      o := Update(blk);
      if o.Ok? {
        ghost var c, t := View(), pm.hqcTail.hash;
        vote := Respond(blk);
        ReceivedTail(old(View()), old(pm.hqcTail.hash), c, t, View(), blk.hash);
      }
    }

    /** The opinion on `blk`, the pace maker's callback and the vote. */
    method Respond(blk: Block) returns (vote: Option<Vote>)
      requires Valid() && Known(storage, blk)
      modifies this`vheight, pm
      ensures Valid()
      ensures View() == if MayVote(old(View()), blk.hash) then old(View()).(vheight := Height(blk.hash)) else old(View())
      ensures vote == if MayVote(old(View()), blk.hash) && !voteDisabled then Some(SelfVote(id, blk.hash)) else None
      ensures pm.hqcTail.hash == TailAfterReceive(hqc.hash, old(pm.hqcTail.hash), blk.hash)
    {
      hide LinkedBlock, Linked, StorageView, Hashes, TailAfterReceive, MayVote, Height;
      var opinion := Decide(blk);
      TellReceived(blk);
      vote := if opinion && !voteDisabled then Some(SelfVote(id, blk.hash)) else None;
    }

    /** `on_receive_proposal_`. */
    method TellReceived(blk: Block)
      requires Valid() && Known(storage, blk)
      modifies pm
      ensures Valid() && View() == old(View())
      ensures pm.hqcTail.hash == TailAfterReceive(hqc.hash, old(pm.hqcTail.hash), blk.hash)
    {
      hide LinkedBlock, Linked, StorageView, Hashes, TailAfterReceive;
      pm.OnReceiveProposal(storage, hqc, blk);
    }

    /** Settle whether to vote for `blk`; a vote raises `vheight`, even if it is not sent. */
    method Decide(blk: Block) returns (opinion: bool)
      requires Valid() && Known(storage, blk)
      modifies this`vheight
      ensures Valid()
      ensures opinion <==> MayVote(old(View()), blk.hash)
      ensures View() == if opinion then old(View()).(vheight := Height(blk.hash)) else old(View())
    {
      opinion := Opinion(blk);
      if opinion {
        RaiseVheight(blk);
      }
    }

    /** Whether to vote for `blk`. */
    method Opinion(blk: Block) returns (opinion: bool)
      requires Valid() && Known(storage, blk)
      ensures opinion <==> MayVote(View(), blk.hash)
      ensures opinion <==> && Height(blk.hash) > vheight
                           && ((HasQcRef(blk.hash) && Height(QcRef(blk.hash)) > Height(bLock.hash))
                               || IsAncestor(bLock.hash, blk.hash))
    {
      Links(storage, blk);
      Links(storage, bLock);
      WalkDecidesAncestor(bLock.hash, blk.hash);
      if HasQcRef(blk.hash) { Links(storage, blk.qcRef); }
      assert blk.hash.Genesis? ==> Height(blk.hash) == 0;
      hide LinkedBlock, Linked, Height, WalkTo, StorageView, Hashes;
      opinion := false;
      if blk.height > vheight {
        if blk.qcRef != null && blk.qcRef.height > bLock.height {
          opinion := true;
        } else {
          var b := WalkDown(storage, blk, bLock.height);
          opinion := b == bLock;
        }
      }
    }

    method EraseTails(parents: seq<Block>)
      requires Valid() && (forall p <- parents :: p.hash in storage && storage[p.hash] == p)
      modifies this`tails
      ensures Valid()
      ensures View() == old(View()).(tails := old(View()).tails - SetOf(Contents(parents)))
    {
      hide LinkedBlock, Linked, Hashes, SetOf, StorageView;
      TailsWithout(storage, tails, parents);
      tails := tails - (set p | p in parents);
    }

    /** Store the new block and give it an empty running certificate, whatever it had collected before. */
    method DraftBlock(h: Blk, parents: seq<Block>) returns (b: Block)
      requires Valid() && h.Node? && h.parents == Contents(parents)
      requires forall p <- parents :: p.hash in storage && storage[p.hash] == p
      modifies this`tails, this`storage, storage.Values`voted, storage.Values`selfQc
      ensures Valid() && View() == Draft(old(View()), h)
      ensures h in storage && b == storage[h] && b.hash == h
      ensures if h in old(storage) then storage == old(storage) else fresh(b) && storage == old(storage)[h := b]
    {
      hide LinkedBlock, Linked, Grows, Hashes, SetOf, StorageView;
      EraseTails(parents);
      b := AddBlk(h);
      HashesMatch(storage);
      ResetCert(b);
    }

    method ResetCert(b: Block)
      requires Valid() && b.hash in storage && storage[b.hash] == b
      modifies b`voted, b`selfQc
      ensures Valid()
      ensures View() == old(View()).(storage := old(View()).storage[b.hash :=
                                       old(View()).storage[b.hash].(selfQc := Some(EmptyCert(nreplicas, b.hash)))])
    {
      HashesMatch(storage);
      assert StorageView(storage)[b.hash] == BlockView(b);
      hide Linked, LinkedBlock, StorageView, Hashes, Known;
      SetVotes(storage, b, b.voted, Some(EmptyCert(nreplicas, b.hash)));
      StaysValid();
    }

    /** The self-vote and the pace maker's callback. */
    method SignOwn(b: Block) returns (o: Outcome, vote: Option<Vote>)
      requires Valid() && Known(storage, b)
      modifies this`vheight, this`hqc, this`hqcCert, pm, storage.Values`voted, storage.Values`selfQc
      ensures Valid()
      ensures var e := CoreSpec.SignOwn(old(View()), b.hash); View() == e.core && o == e.outcome && vote == e.vote
      ensures o.Ok? ==> pm.hqcTail == b
      ensures o.Ok? ==> vote == Some(SelfVote(id, b.hash))
      ensures o.Throw? ==> View() == old(View()) && pm.hqcTail == old(pm.hqcTail)
    {
      hide LinkedBlock, Linked, Grows, TailChoice, Hashes, StorageView, Height, CoreSpec.OnReceiveVote, SelfVote, BlockView;
      Links(storage, b);
      if b.height <= vheight {
        return Throw(NotAboveVheight), None;
      }
      RaiseVheight(b);
      o := CountOwn(b);
      vote := Some(SelfVote(id, b.hash));
    }

    /** The own vote is counted like any other, and never mismatches the certificate. */
    method CountOwn(b: Block) returns (o: Outcome)
      requires Valid() && Known(storage, b)
      modifies this`hqc, this`hqcCert, pm, storage.Values`voted, storage.Values`selfQc
      ensures Valid() && pm.hqcTail == b && o.Ok?
      ensures var e := CoreSpec.OnReceiveVote(old(View()), SelfVote(id, b.hash)); View() == e.core && o == e.outcome
    {
      assert View().storage[b.hash] == BlockView(b);
      SelfVoteIsCounted(View(), b.hash);
      hide LinkedBlock, Linked, Grows, TailAfterUpdate, Hashes, StorageView, CoreSpec.OnReceiveVote, SelfVote, BlockView;
      o := OnReceiveVote(SelfVote(id, b.hash));
      TellProposal(b);
    }

    method TellProposal(b: Block)
      requires Valid() && Known(storage, b)
      modifies pm
      ensures Valid() && View() == old(View()) && pm.hqcTail == b
    {
      hide LinkedBlock, Linked, StorageView, Hashes;
      pm.OnProposal(b);
    }

    method RaiseVheight(b: Block)
      requires Valid() && Known(storage, b)
      modifies this`vheight
      ensures Valid() && View() == old(View()).(vheight := Height(b.hash))
    {
      hide LinkedBlock, Linked, Height, StorageView, Hashes;
      Links(storage, b);
      vheight := b.height;
    }

    /** Draft and deliver a new block. */
    method Introduce(h: Blk, parents: seq<Block>) returns (o: Outcome, b: Block)
      requires Valid() && HasParent(h) && h.parents == Contents(parents) && h.qc == Some(hqcCert)
      requires forall p <- parents :: p.hash in storage && storage[p.hash] == p
      modifies this`tails, this`storage, storage.Values
      ensures Valid() && h in storage && b == storage[h] && b.hash == h
      ensures if h in old(storage) then storage == old(storage) else fresh(b) && storage == old(storage)[h := b]
      ensures fresh(storage.Values - old(storage.Values))
      ensures var d := OnDeliver(Draft(old(View()), h), h);
              View() == d.core && o == d.outcome && (o.Ok? ==> Known(storage, b))
    {
      hide LinkedBlock, Linked, Grows, Draft, Hashes, IsAncestor, StorageView, OnDeliver, ParentsDelivered;
      b := DraftBlock(h, parents);
      var valid;
      o, valid := OnDeliverBlk(b);
      if o.Ok? {
        DeliveredIsKnown(storage, h);
      }
    }

    /** The next proposal, on the branch the pace maker keeps through `hqc`. */
    method ProposeNext(cmds: seq<Cmd>, extra: seq<nat>) returns (o: Outcome, bnew: Block?, vote: Option<Vote>)
      requires Valid()
      modifies this, pm, storage.Values
      ensures Valid()
      ensures var e := CoreSpec.OnPropose(old(View()), cmds, [old(pm.hqcTail.hash)], extra);
              View() == e.core && o == e.outcome && vote == e.vote
      ensures o.Ok? ==> pm.hqcTail.hash == NewBlock(old(View()), cmds, [old(pm.hqcTail.hash)], extra)
      ensures o.Ok? ==> bnew != null && pm.hqcTail == bnew && bnew.hash == Node([old(pm.hqcTail.hash)], cmds, Some(old(hqcCert)), extra)
      ensures o.Ok? ==> vote == Some(Vote(id, bnew.hash, PartCert(bnew.hash, Sig(id, bnew.hash))))
      ensures o.Throw? ==> TailAfterUpdate(old(View()), old(pm.hqcTail.hash), View(), pm.hqcTail.hash)
    {
      hide LinkedBlock, Linked, Grows, CoreSpec.OnPropose, TailChoice, Hashes, StorageView, IsAncestor;
      var parents := pm.GetParents();
      assert Contents(parents) == [pm.hqcTail.hash];
      o, bnew, vote := OnPropose(cmds, parents, extra);
    }

    /** Propose on `parents`. */
    method OnPropose(cmds: seq<Cmd>, parents: seq<Block>, extra: seq<nat>)
      returns (o: Outcome, bnew: Block?, vote: Option<Vote>)
      requires Valid()
      requires forall p <- parents :: p.hash in storage && storage[p.hash] == p
      modifies this, pm, storage.Values
      ensures Valid()
      ensures var e := CoreSpec.OnPropose(old(View()), cmds, Contents(parents), extra);
              View() == e.core && o == e.outcome && vote == e.vote
      ensures o.Ok? ==> bnew != null && bnew.hash == NewBlock(old(View()), cmds, Contents(parents), extra) && pm.hqcTail == bnew
      ensures o.Ok? ==> bnew.hash == Node(Contents(parents), cmds, Some(old(hqcCert)), extra)
      ensures o.Ok? ==> vote == Some(Vote(id, bnew.hash, PartCert(bnew.hash, Sig(id, bnew.hash))))
      ensures o.Throw? ==> TailAfterUpdate(old(View()), old(pm.hqcTail.hash), View(), pm.hqcTail.hash)
    {
      hide LinkedBlock, Linked, Grows, Draft, CoreSpec.Update, CoreSpec.SignOwn, TailChoice, Hashes, StorageView, OnDeliver,
           IsAncestor, Known;
      if |parents| == 0 {
        return Throw(EmptyParents), null, None;
      }
      var h := Node(seq(|parents|, i requires 0 <= i < |parents| => parents[i].hash), cmds, Some(hqcCert), extra);
      assert h.parents == Contents(parents);
      o, bnew, vote := ProposeBlock(h, parents);
    }

    method ProposeBlock(h: Blk, parents: seq<Block>) returns (o: Outcome, b: Block, vote: Option<Vote>)
      requires Valid() && HasParent(h) && h.parents == Contents(parents) && h.qc == Some(hqcCert)
      requires forall p <- parents :: p.hash in storage && storage[p.hash] == p
      modifies this, pm, storage.Values
      ensures Valid() && b.hash == h
      ensures var d := OnDeliver(Draft(old(View()), h), h);
              var u := CoreSpec.Update(d.core, h);
              var e := if d.outcome.Throw? then d else if u.outcome.Throw? then u else CoreSpec.SignOwn(u.core, h);
              View() == e.core && o == e.outcome && vote == e.vote
      ensures o.Ok? ==> pm.hqcTail == b
      ensures o.Ok? ==> vote == Some(SelfVote(id, h))
      ensures o.Throw? ==> TailAfterUpdate(old(View()), old(pm.hqcTail.hash), View(), pm.hqcTail.hash)
    {
      hide LinkedBlock, Linked, Grows, Draft, CoreSpec.Update, CoreSpec.SignOwn, TailChoice, Hashes, StorageView, OnDeliver,
           IsAncestor, UpdateFrame, Known;
      o, b := Introduce(h, parents);
      vote := None;
      if o.Ok? {
        o, vote := UpdateAndSign(b);
      }
    }

    method UpdateAndSign(b: Block) returns (o: Outcome, vote: Option<Vote>)
      requires Valid() && Known(storage, b)
      modifies this, pm, storage.Values
      ensures Valid()
      ensures var u := CoreSpec.Update(old(View()), b.hash);
              var e := if u.outcome.Throw? then u else CoreSpec.SignOwn(u.core, b.hash);
              View() == e.core && o == e.outcome && vote == e.vote
      ensures o.Ok? ==> pm.hqcTail == b
      ensures o.Ok? ==> vote == Some(SelfVote(id, b.hash))
      ensures o.Throw? ==> TailAfterUpdate(old(View()), old(pm.hqcTail.hash), View(), pm.hqcTail.hash)
    {
      hide LinkedBlock, Linked, Grows, CoreSpec.Update, CoreSpec.SignOwn, TailChoice, Hashes, StorageView, UpdateFrame;
      vote := None;
      o := Update(b);
      if o.Ok? {
        o, vote := SignOwn(b);
      }
    }
  }

  lemma StorageAt(st: map<Blk, Block>)
    ensures StorageView(st).Keys == st.Keys && forall h <- st :: StorageView(st)[h] == BlockView(st[h])
  {
  }

  method SetVotes(ghost st: map<Blk, Block>, blk: Block, voted: set<ReplicaId>, selfQc: Option<Cert>)
    requires Linked(st) && blk.hash in st && st[blk.hash] == blk
    modifies blk`voted, blk`selfQc
    ensures Linked(st) && blk.voted == voted && blk.selfQc == selfQc
    ensures StorageView(st) == old(StorageView(st))[blk.hash := old(StorageView(st)[blk.hash]).(voted := voted, selfQc := selfQc)]
  {
    hide Linked, LinkedBlock, StorageView;
    WriteVotes(st, blk, voted, selfQc);
    DecidingKeepsLinks(st);
  }

  method WriteVotes(ghost st: map<Blk, Block>, blk: Block, voted: set<ReplicaId>, selfQc: Option<Cert>)
    requires Linked(st) && blk.hash in st && st[blk.hash] == blk
    modifies blk`voted, blk`selfQc
    ensures blk.voted == voted && blk.selfQc == selfQc
    ensures StorageView(st) == old(StorageView(st))[blk.hash := old(StorageView(st)[blk.hash]).(voted := voted, selfQc := selfQc)]
  {
    assert forall h <- st :: h != blk.hash ==> st[h] != blk;
    hide Linked, LinkedBlock;
    blk.voted, blk.selfQc := voted, selfQc;
  }

  method SetLinks(ghost st: map<Blk, Block>, blk: Block, parents: seq<Block>, height: nat, qcRef: Block?)
    requires Linked(st) && blk.hash in st && st[blk.hash] == blk && !blk.delivered
    requires HasParent(blk.hash) && ParentsLinked(st, blk.hash, parents) && height == Height(blk.hash)
    requires QcLinked(st, blk.hash, qcRef)
    modifies blk`parents, blk`height, blk`qcRef, blk`delivered
    ensures blk.delivered && Linked(st) && ParentsLinked(st, blk.hash, parents)
    ensures StorageView(st) == old(StorageView(st))[blk.hash := old(StorageView(st)[blk.hash]).(delivered := true)]
  {
    assert !blk.delivered && forall h <- st :: st[h] == blk ==> h == blk.hash;
    hide Linked, StorageView;
    WriteLinks(st, blk, parents, height, qcRef);
    hide LinkedBlock, ParentsLinked, QcLinked, Height, HasParent;
    DeliveringKeepsLinks(st);
  }

  method WriteLinks(ghost st: map<Blk, Block>, blk: Block, parents: seq<Block>, height: nat, qcRef: Block?)
    requires (forall h <- st :: st[h] == blk ==> h == blk.hash) && blk.hash in st && st[blk.hash] == blk && !blk.delivered
    requires HasParent(blk.hash) && ParentsLinked(st, blk.hash, parents) && height == Height(blk.hash)
    requires QcLinked(st, blk.hash, qcRef)
    modifies blk`parents, blk`height, blk`qcRef, blk`delivered
    ensures blk.delivered && LinkedBlock(st, blk.hash) && ParentsLinked(st, blk.hash, parents)
    ensures StorageView(st) == old(StorageView(st))[blk.hash := old(StorageView(st)[blk.hash]).(delivered := true)]
  {
    hide Height;
    blk.parents, blk.height, blk.qcRef := parents, height, qcRef;
    blk.delivered := true;
  }
}
