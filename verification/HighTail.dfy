/** `PMHighTail` as a relation: which block the next proposal extends.

    The registered callbacks run when the promise resolves, inside the core's handlers.  Ties between
    equally high tails fall as the iteration order of the tail set decides, so the choice is a relation. */
module HighTail {
  import opened BlockTree
  import opened CoreSpec

  /** The outcome of the `hqc` callback: a highest block among `hqc` and the tails that extend it. */
  predicate TailChoice(hqc: Blk, tails: set<Blk>, t: Blk) {
    && (t == hqc || (t in tails && IsAncestor(hqc, t)))
    && forall x <- tails :: IsAncestor(hqc, x) ==> Height(x) <= Height(t)
  }

  /** The callback fires exactly when `hqc` rises. */
  predicate TailAfterUpdate(c: Core, t: Blk, c': Core, t': Blk) {
    if c'.hqc == c.hqc then t' == t else TailChoice(c'.hqc, c'.tails, t')
  }

  function TailAfterReceive(hqc: Blk, t: Blk, b: Blk): Blk {
    if IsAncestor(hqc, b) && Height(b) > Height(t) then b else t
  }

  ghost predicate ReceiveTail(c: Core, t: Blk, c': Core, b: Blk, t': Blk) {
    exists t1 :: TailAfterUpdate(c, t, c', t1) && t' == TailAfterReceive(c'.hqc, t1, b)
  }

  /** The next proposal extends `hqc`. */
  ghost predicate TailInv(c: Core, t: Blk) {
    && IsAncestor(c.hqc, t)
    && Delivered(c, t)
    && TailsDelivered(c)
  }

  lemma UpdateKeepsTail(c: Core, t: Blk, c': Core, t': Blk)
    requires TailInv(c, t) && TailAfterUpdate(c, t, c', t')
    requires Grows(c, c') && Delivered(c', c'.hqc)
    ensures TailInv(c', t')
  {
  }

  lemma ReceiveKeepsTail(c: Core, t: Blk, c': Core, b: Blk, t': Blk)
    requires TailInv(c, t) && ReceiveTail(c, t, c', b, t')
    requires Grows(c, c') && Delivered(c', c'.hqc) && Delivered(c', b)
    ensures TailInv(c', t')
  {
    var t1 :| TailAfterUpdate(c, t, c', t1) && t' == TailAfterReceive(c'.hqc, t1, b);
    UpdateKeepsTail(c, t, c', t1);
  }
}
