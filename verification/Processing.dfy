/** The balance replay of ValidateBlock (blockchain/processing.go), as a function. */
module Processing {
  import opened Overflow
  import opened Transactions
  import opened Wrappers

  datatype Reason =
    | BadSignature | UnknownSender | InsufficientBalance | AlreadyIncluded | BalanceUnderflow
    | NoMerkleRoot | WrongMerkleRoot

  /** Passed carries the balances as the replay sees them: the opening ones, less what was debited. */
  datatype Outcome = Passed(view: Balances) | Failed(reason: Reason, at: nat)

  predicate IsIncluded(p: Primitives, db: map<Bytes, Entry>, t: Transaction) {
    Key(p, t) in db && db[Key(p, t)].Included?
  }

  /** One transaction of the replay. */
  function Check(p: Primitives, db: map<Bytes, Entry>, view: Balances, t: Transaction, at: nat): Outcome {
    var sender := Sender(p, t);
    if !p.signatureValid(t) then Failed(BadSignature, at)
    else if sender !in view then Failed(UnknownSender, at)
    else
      var required := AddU64O(t.amount, t.gas);
      var left := SubU64O(view[sender], required.0);
      if required.0 > view[sender] && required.1 then Failed(InsufficientBalance, at)
      else if IsIncluded(p, db, t) then Failed(AlreadyIncluded, at)
      else if !left.1 then Failed(BalanceUnderflow, at)
      else Passed(view[sender := left.0])
  }

  /** The replay of the first n transactions. */
  function Replay(p: Primitives, db: map<Bytes, Entry>, opening: Balances, txs: seq<Transaction>, n: nat): Outcome
    requires n <= |txs|
  {
    if n == 0 then Passed(opening) else
      match Replay(p, db, opening, txs, n - 1)
      case Failed(reason, at) => Failed(reason, at)
      case Passed(view) => Check(p, db, view, txs[n - 1], n - 1)
  }

  /** ValidateBlock's answer: None accepts. */
  function Validation(p: Primitives, db: map<Bytes, Entry>, opening: Balances, block: Block): Option<Outcome> {
    if block.index == 0 then None else
      var txs := block.transactions;
      match Replay(p, db, opening, txs, |txs|)
      case Failed(reason, at) => Some(Failed(reason, at))
      case Passed(_) =>
        match p.merkleRoot(txs, block.receiptsContracts)
        case None => Some(Failed(NoMerkleRoot, |txs|))
        case Some(root) =>
          if root != block.merkleRootReceipt then Some(Failed(WrongMerkleRoot, |txs|)) else None
  }

  /** A transaction passes exactly when it is signed, new, and covered by what its sender has left. */
  lemma CheckIff(p: Primitives, db: map<Bytes, Entry>, view: Balances, t: Transaction, at: nat)
    ensures Check(p, db, view, t, at).Passed? <==>
            && p.signatureValid(t) && !IsIncluded(p, db, t)
            && Sender(p, t) in view && Required(t) <= view[Sender(p, t)]
    ensures Check(p, db, view, t, at).Passed? ==>
            Check(p, db, view, t, at).view == view[Sender(p, t) := view[Sender(p, t)] - Required(t)]
  {
  }

  lemma {:induction false} FailureSticks(
      p: Primitives, db: map<Bytes, Entry>, opening: Balances, txs: seq<Transaction>, n: nat, m: nat)
    requires n <= m <= |txs|
    ensures Replay(p, db, opening, txs, n).Failed? ==>
            Replay(p, db, opening, txs, m) == Replay(p, db, opening, txs, n)
    decreases m
  {
    if n < m {
      FailureSticks(p, db, opening, txs, n, m - 1);
    }
  }

  /** One more transaction: the replay goes on, or fails for good. */
  lemma ReplayNext(p: Primitives, db: map<Bytes, Entry>, opening: Balances, txs: seq<Transaction>, i: nat)
    requires i < |txs| && Replay(p, db, opening, txs, i).Passed?
    ensures var next := Check(p, db, Replay(p, db, opening, txs, i).view, txs[i], i);
            && Replay(p, db, opening, txs, i + 1) == next
            && (next.Failed? ==> Replay(p, db, opening, txs, |txs|) == next)
  {
    FailureSticks(p, db, opening, txs, i + 1, |txs|);
  }

  /** The replay of a prefix does not look at the rest. */
  lemma {:induction false} ReplayPrefix(
      p: Primitives, db: map<Bytes, Entry>, opening: Balances, txs: seq<Transaction>, more: seq<Transaction>, n: nat)
    requires n <= |txs|
    ensures Replay(p, db, opening, txs + more, n) == Replay(p, db, opening, txs, n)
  {
    if n == 0 {
    } else {
      ReplayPrefix(p, db, opening, txs, more, n - 1);
    }
  }

  // ----- The replay against plain sums -----

  /** What a wallet sends in the first n transactions, gas included. */
  function SpentBy(p: Primitives, txs: seq<Transaction>, n: nat, w: Wallet): nat
    requires n <= |txs|
  {
    if n == 0 then 0 else
      SpentBy(p, txs, n - 1, w) + if Sender(p, txs[n - 1]) == w then Required(txs[n - 1]) else 0
  }

  /** A passing replay leaves each wallet its opening balance less what it sent. */
  lemma {:induction false} ReplayView(
      p: Primitives, db: map<Bytes, Entry>, opening: Balances, txs: seq<Transaction>, n: nat)
    requires n <= |txs| && Replay(p, db, opening, txs, n).Passed?
    ensures var view := Replay(p, db, opening, txs, n).view;
            && view.Keys == opening.Keys
            && forall w :: w in opening ==> view[w] == opening[w] - SpentBy(p, txs, n, w)
  {
    if n == 0 {
    } else {
      ReplayView(p, db, opening, txs, n - 1);
      CheckIff(p, db, Replay(p, db, opening, txs, n - 1).view, txs[n - 1], n - 1);
    }
  }

  ghost predicate Admissible(p: Primitives, db: map<Bytes, Entry>, opening: Balances, t: Transaction) {
    p.signatureValid(t) && !IsIncluded(p, db, t) && Sender(p, t) in opening
  }

  ghost predicate Payable(p: Primitives, db: map<Bytes, Entry>, opening: Balances, txs: seq<Transaction>, n: nat)
    requires n <= |txs|
  {
    && (forall i :: 0 <= i < n ==> Admissible(p, db, opening, txs[i]))
    && (forall w :: w in opening ==> SpentBy(p, txs, n, w) <= opening[w])
  }

  /**
    * The step-by-step replay accepts exactly when every transaction is signed, new and from a known
    * wallet, and no wallet sends more in the whole block than it opened with.
    */
  lemma {:induction false} ReplayIffPayable(
      p: Primitives, db: map<Bytes, Entry>, opening: Balances, txs: seq<Transaction>, n: nat)
    requires n <= |txs|
    ensures Replay(p, db, opening, txs, n).Passed? <==> Payable(p, db, opening, txs, n)
  {
    if n == 0 {
    } else {
      var t := txs[n - 1];
      var w := Sender(p, t);
      ReplayIffPayable(p, db, opening, txs, n - 1);
      if Payable(p, db, opening, txs, n) {
        PayablePrefix(p, db, opening, txs, n);
      }
      var before := Replay(p, db, opening, txs, n - 1);
      if before.Passed? {
        ReplayView(p, db, opening, txs, n - 1);
        CheckIff(p, db, before.view, t, n - 1);
        assert SpentBy(p, txs, n, w) == SpentBy(p, txs, n - 1, w) + Required(t);
      }
    }
  }

  lemma PayablePrefix(p: Primitives, db: map<Bytes, Entry>, opening: Balances, txs: seq<Transaction>, n: nat)
    requires 0 < n <= |txs| && Payable(p, db, opening, txs, n)
    ensures Payable(p, db, opening, txs, n - 1)
  {
    forall w | w in opening
      ensures SpentBy(p, txs, n - 1, w) <= opening[w]
    {
      assert SpentBy(p, txs, n - 1, w) <= SpentBy(p, txs, n, w);
    }
  }

  /** What the first n transactions debit in all. */
  function Debits(txs: seq<Transaction>, n: nat): nat
    requires n <= |txs|
  {
    if n == 0 then 0 else Debits(txs, n - 1) + Required(txs[n - 1])
  }

  /** The replay takes exactly its debits out of the opening supply. */
  lemma {:induction false} ReplayConserves(
      p: Primitives, db: map<Bytes, Entry>, opening: Balances, txs: seq<Transaction>, n: nat)
    requires n <= |txs| && Replay(p, db, opening, txs, n).Passed?
    ensures Supply(Replay(p, db, opening, txs, n).view) + Debits(txs, n) == Supply(opening)
  {
    if n == 0 {
    } else {
      ReplayConserves(p, db, opening, txs, n - 1);
      var view := Replay(p, db, opening, txs, n - 1).view;
      CheckIff(p, db, view, txs[n - 1], n - 1);
      SupplyUpdate(view, Sender(p, txs[n - 1]), view[Sender(p, txs[n - 1])] - Required(txs[n - 1]));
    }
  }

  // ----- The verdict in plain terms -----

  /**
    * ValidateBlock accepts exactly the genesis block, and the blocks that can be paid and carry the Merkle
    * root of their transactions and receipts.
    */
  lemma ValidationIff(p: Primitives, db: map<Bytes, Entry>, opening: Balances, b: Block)
    ensures Validation(p, db, opening, b) == None <==>
            || b.index == 0
            || (&& Payable(p, db, opening, b.transactions, |b.transactions|)
                && p.merkleRoot(b.transactions, b.receiptsContracts) == Some(b.merkleRootReceipt))
    ensures b.index != 0 && Payable(p, db, opening, b.transactions, |b.transactions|) ==>
              match p.merkleRoot(b.transactions, b.receiptsContracts)
              case None => Validation(p, db, opening, b) == Some(Failed(NoMerkleRoot, |b.transactions|))
              case Some(root) => root != b.merkleRootReceipt ==>
                Validation(p, db, opening, b) == Some(Failed(WrongMerkleRoot, |b.transactions|))
  {
    ReplayIffPayable(p, db, opening, b.transactions, |b.transactions|);
  }

  /** The reason to reject a transaction: the first of these conditions that fails, in this order. */
  lemma ReasonIff(p: Primitives, db: map<Bytes, Entry>, view: Balances, t: Transaction, at: nat)
    ensures var out := Check(p, db, view, t, at);
            var sum := t.amount + t.gas;
            var known := Sender(p, t) in view;
            var covered := known && (sum <= view[Sender(p, t)] || TWO_TO_THE_64 <= sum);
            && (out == Failed(BadSignature, at) <==> !p.signatureValid(t))
            && (out == Failed(UnknownSender, at) <==> p.signatureValid(t) && !known)
            && (out == Failed(InsufficientBalance, at) <==> p.signatureValid(t) && known && !covered)
            && (out == Failed(AlreadyIncluded, at) <==> p.signatureValid(t) && covered && IsIncluded(p, db, t))
            && (out == Failed(BalanceUnderflow, at) <==>
                  && p.signatureValid(t) && covered && !IsIncluded(p, db, t)
                  && TWO_TO_THE_64 <= sum && view[Sender(p, t)] < sum - TWO_TO_THE_64)
            && (out.Failed? ==> out.at == at)
  {
  }

  /** The failure reported is that of the first transaction that fails. */
  lemma {:induction false} ReplayFailsFirst(
      p: Primitives, db: map<Bytes, Entry>, opening: Balances, txs: seq<Transaction>, n: nat)
    requires n <= |txs| && Replay(p, db, opening, txs, n).Failed?
    ensures var out := Replay(p, db, opening, txs, n);
            && out.at < n && Replay(p, db, opening, txs, out.at).Passed?
            && Check(p, db, Replay(p, db, opening, txs, out.at).view, txs[out.at], out.at) == out
  {
    hide Check;
    if Replay(p, db, opening, txs, n - 1).Failed? {
      ReplayFailsFirst(p, db, opening, txs, n - 1);
    } else {
      CheckFailsHere(p, db, Replay(p, db, opening, txs, n - 1).view, txs[n - 1], n - 1);
    }
  }

  lemma CheckFailsHere(p: Primitives, db: map<Bytes, Entry>, view: Balances, t: Transaction, at: nat)
    ensures Check(p, db, view, t, at).Failed? ==> Check(p, db, view, t, at).at == at
  {
  }
}
