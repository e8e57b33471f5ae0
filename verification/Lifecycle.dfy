/** A block's way through the node: generated from a chain and a book, validated and imported there. */
module Lifecycle {
  import opened Book
  import opened Import
  import opened Overflow
  import opened Pool
  import opened Processing
  import opened Staking
  import opened Transactions
  import opened Wrappers

  /** Importing what is generated, on the chain and the book it was generated from. */
  function ImportOf(c: Source, header: nat, queue: seq<Bytes>, at: U64, index: U64): BlockImport {
    BlockImport(c.p, Ledger(c.opening, c.db, c.book), Selected(c, header, queue), at, index)
  }

  ghost predicate SentByValidators(c: Source, txs: seq<Transaction>) {
    forall i :: 0 <= i < |txs| ==> Sender(c.p, txs[i]) in c.book.valsArray
  }

  lemma {:induction false} FillTakesFromValidators(c: Source, d: Draft, queue: seq<Bytes>)
    requires SentByValidators(c, d.chosen)
    ensures SentByValidators(c, Fill(c, d, queue).0.chosen)
    decreases |queue|
  {
    if c.maxBlockBytes <= d.len || queue == [] {
    } else {
      FillTakesFromValidators(c, Consider(c, d, queue[0]), queue[1..]);
    }
  }

  lemma {:induction false} ValidatorsDoNotBond(b: BlockImport, n: nat)
    requires n <= |b.txs|
    requires forall i :: 0 <= i < |b.txs| ==> Sender(b.p, b.txs[i]) in b.opening.book.valsArray
    ensures b.After(n).book == b.opening.book
  {
    if n == 0 {
    } else {
      ValidatorsDoNotBond(b, n - 1);
      StepByParts(b.p, b.After(n - 1), b.txs[n - 1], b.at, b.index);
      hide Step, Transfer, Added;
    }
  }

  /**
    * Only validators' transactions are selected, and a validator's staking transaction is skipped: a
    * generated block never registers anyone.
    */
  lemma GeneratedBlockKeepsBook(c: Source, header: nat, queue: seq<Bytes>, at: U64, index: U64)
    ensures var b := ImportOf(c, header, queue, at, index);
            && b.After(|b.txs|).book == c.book
            && forall i :: 0 <= i < |b.txs| ==> !Bonds(b, i)
  {
    var b := ImportOf(c, header, queue, at, index);
    FillTakesFromValidators(c, Draft([], c.opening, header), queue);
    ValidatorsDoNotBond(b, |b.txs|);
    forall i | 0 <= i < |b.txs|
      ensures !Bonds(b, i)
    {
      ValidatorsDoNotBond(b, i);
    }
  }

  /**
    * A generated block that is not empty is accepted by its own chain exactly when its transactions are
    * signed and new; accepted, it takes exactly the gas of its applied transactions out of the supply if
    * and only if nobody in it pays itself.
    */
  lemma GeneratedBlockPaysItsGasIff(c: Source, header: nat, queue: seq<Bytes>, block: Block, at: U64)
    requires Selected(c, header, queue) != [] && Holds(c.p, block, Selected(c, header, queue)) && block.index != 0
    ensures var b := ImportOf(c, header, queue, at, block.index);
            && (Validation(c.p, c.db, c.opening, block) == None <==> SignedAndNew(c, b.txs))
            && (SignedAndNew(c, b.txs) && b.NoneWraps(|b.txs|) && Supply(c.opening) < TWO_TO_THE_64 ==>
                  (Supply(b.After(|b.txs|).balances) == Supply(c.opening) - b.GasPaid(|b.txs|)
                   <==> b.SelfNeutral(|b.txs|)))
  {
    var b := ImportOf(c, header, queue, at, block.index);
    GeneratedBlockIsValidIff(c, header, queue, block);
    SelectionReplaysIff(c, header, queue);
    if SignedAndNew(c, b.txs) && b.NoneWraps(|b.txs|) && Supply(c.opening) < TWO_TO_THE_64 {
      SupplyFallsByGasIff(b);
    }
  }
}
