/** Blocks, certificates and the ancestor relation.

    A block is identified by its hash, and a hash covers the parent hashes, the commands, the
    certificate and the extra bytes.  With an injective hash a block therefore is its content, and
    that is how it is modelled: `Blk` is an inductive datatype, so no block can be its own ancestor.
    A signature is a term naming its signer and the block signed. */
module BlockTree {
  import opened Wrappers

  type ReplicaId = nat
  type Cmd = nat

  datatype Sig = Sig(signer: ReplicaId, msg: Blk) | Malformed

  /** A quorum certificate: the certified block, the bitmap of contributors and their signatures. */
  datatype Cert = Cert(obj: Blk, rids: seq<bool>, sigs: map<ReplicaId, Sig>)

  datatype Blk =
    | Genesis
    | Node(parents: seq<Blk>, cmds: seq<Cmd>, qc: Option<Cert>, extra: seq<nat>)

  predicate HasParent(b: Blk) {
    b.Node? && |b.parents| > 0
  }

  function Parent(b: Blk): Blk
    requires HasParent(b)
  {
    b.parents[0]
  }

  function Height(b: Blk): nat {
    if HasParent(b) then Height(Parent(b)) + 1 else 0
  }

  /** The ancestor relation along `parents[0]`, reflexive. */
  predicate IsAncestor(a: Blk, b: Blk)
    decreases b
  {
    a == b || (HasParent(b) && IsAncestor(a, Parent(b)))
  }

  /** Where the walk `for (b = b; b.height > h; b = b.parents[0])` ends. */
  function WalkTo(b: Blk, h: nat): Blk {
    if Height(b) <= h then b else WalkTo(Parent(b), h)
  }

  predicate HasQcRef(b: Blk) {
    b.Node? && b.qc.Some?
  }

  function QcRef(b: Blk): Blk
    requires HasQcRef(b)
  {
    b.qc.value.obj
  }

  lemma {:induction false} AncestorHeight(a: Blk, b: Blk)
    requires IsAncestor(a, b)
    ensures Height(a) <= Height(b)
    ensures Height(a) == Height(b) ==> a == b
    decreases b
  {
    if a != b {
      AncestorHeight(a, Parent(b));
    }
  }

  lemma {:induction false} AncestorTransitive(a: Blk, b: Blk, c: Blk)
    requires IsAncestor(a, b) && IsAncestor(b, c)
    ensures IsAncestor(a, c)
    decreases c
  {
    if b != c {
      AncestorTransitive(a, b, Parent(c));
    }
  }

  lemma {:induction false} AncestorsComparable(a: Blk, b: Blk, c: Blk)
    requires IsAncestor(a, c) && IsAncestor(b, c) && Height(a) <= Height(b)
    ensures IsAncestor(a, b)
    decreases c
  {
    AncestorHeight(a, c);
    AncestorHeight(b, c);
    if b != c {
      AncestorHeight(b, Parent(c));
      AncestorsComparable(a, b, Parent(c));
    }
  }

  /** The height-guided walk of the source decides the ancestor relation. */
  lemma {:induction false} WalkDecidesAncestor(a: Blk, b: Blk)
    ensures WalkTo(b, Height(a)) == a <==> IsAncestor(a, b)
    ensures IsAncestor(WalkTo(b, Height(a)), b)
    decreases b
  {
    if IsAncestor(a, b) {
      AncestorHeight(a, b);
    }
    if Height(b) > Height(a) {
      WalkDecidesAncestor(a, Parent(b));
    }
  }
}
