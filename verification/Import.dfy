/** The transaction loop of ImportBlock (networking/import.go), as a function, and what it conserves. */
module Import {
  import opened Book
  import opened Overflow
  import opened Processing
  import opened Transactions
  import opened Wrappers

  datatype Ledger = Ledger(balances: Balances, db: map<Bytes, Entry>, book: Book)

  /** Unknown: the sender has no account. Already: the sender is a validator and stakes again. */
  datatype Effect = Unknown | Already | Applied

  function EffectOf(p: Primitives, s: Ledger, t: Transaction): Effect {
    if Sender(p, t) !in s.balances then Unknown
    else if t.recipient == POS && Sender(p, t) in s.book.valsArray then Already
    else Applied
  }

  /** Raw uint64 debit and credit; both balances are read before either is written. */
  function Transfer(b: Balances, sender: Wallet, t: Transaction): Balances {
    b[sender := Wrap64(Balance(b, sender) - Required(t))]
     [t.recipient := Wrap64(Balance(b, t.recipient) + t.amount)]
  }

  lemma TransferByParts(b: Balances, sender: Wallet, t: Transaction)
    requires sender in b
    ensures b[sender := Wrap64(b[sender] - Wrap64(t.amount + t.gas))]
             [t.recipient := Wrap64((if t.recipient in b then b[t.recipient] else 0) + t.amount)]
            == Transfer(b, sender, t)
  {
  }

  /** One turn of the loop; at is the chain's current block, index the imported block's. */
  function Step(p: Primitives, s: Ledger, t: Transaction, at: U64, index: U64): Ledger {
    if EffectOf(p, s, t) != Applied then s else
      Ledger(
        Transfer(s.balances, Sender(p, t), t),
        s.db[Key(p, t) := Included(index)],
        if t.recipient == POS then Added(p, s.book, Sender(p, t), Int64(at), t.pubSchnorrKey, t) else s.book)
  }

  lemma StepByParts(p: Primitives, s: Ledger, t: Transaction, at: U64, index: U64)
    ensures Sender(p, t) !in s.balances ==> Step(p, s, t, at, index) == s
    ensures t.recipient == POS && Sender(p, t) in s.book.valsArray ==> Step(p, s, t, at, index) == s
    ensures Sender(p, t) in s.balances && !(t.recipient == POS && Sender(p, t) in s.book.valsArray) ==>
              Step(p, s, t, at, index)
              == Ledger(Transfer(s.balances, Sender(p, t), t), s.db[Key(p, t) := Included(index)],
                        if t.recipient == POS then Added(p, s.book, Sender(p, t), Int64(at), t.pubSchnorrKey, t)
                        else s.book)
  {
  }

  // ----- The genesis block -----

  datatype GenesisWallet = GenesisWallet(address: Wallet, pubSchnorrKey: Bytes)

  /** The transaction the genesis validators are registered with: an amount, and no sender. */
  const FAKE_TRANSACTION := Transaction([], 0, "", 10000, 0, 0, [], [])

  /** The genesis branch for the first n wallets. */
  function Genesis(p: Primitives, s: Ledger, wallets: seq<GenesisWallet>, n: nat): Ledger
    requires n <= |wallets|
  {
    if n == 0 then s else
      var before, w := Genesis(p, s, wallets, n - 1), wallets[n - 1];
      Ledger(before.balances[w.address := Wrap64(20000 + n)], before.db,
             Added(p, before.book, w.address, -300, w.pubSchnorrKey, FAKE_TRANSACTION))
  }

  /** Different wallets get 20001, 20002 and so on, and those that register stake 10000 and act at once. */
  lemma {:induction false} GenesisEntry(
      p: Primitives, s: Ledger, wallets: seq<GenesisWallet>, n: nat, i: nat, currentBlock: U64)
    requires i < n <= |wallets| < TWO_TO_THE_32 && currentBlock < TWO_TO_THE_63
    requires forall j, k :: 0 <= j < k < |wallets| ==> wallets[j].address != wallets[k].address
    ensures var after, w := Genesis(p, s, wallets, n), wallets[i].address;
            && w in after.balances && after.balances[w] == 20001 + i && after.db == s.db
            && (w !in s.book.valsArray && Registers(p, w, wallets[i].pubSchnorrKey) ==>
                  && w in after.book.valsArray && after.book.valsArray[w].stake == 10000
                  && after.book.valsArray[w].startDynasty == -300
                  && w in ShardMembers(after.book, 1) && CheckDynasty(after.book, w, currentBlock))
    decreases n
  {
    hide Registers;
    if i < n - 1 {
      GenesisEntry(p, s, wallets, n - 1, i, currentBlock);
    } else {
      NotYet(p, s, wallets, i);
    }
  }

  /** Before its turn a wallet has what it had. */
  lemma {:induction false} NotYet(p: Primitives, s: Ledger, wallets: seq<GenesisWallet>, i: nat)
    requires i < |wallets| && forall j, k :: 0 <= j < k < |wallets| ==> wallets[j].address != wallets[k].address
    ensures Genesis(p, s, wallets, i).db == s.db
    ensures forall w :: (forall j :: 0 <= j < i ==> wallets[j].address != w) ==>
              (w in Genesis(p, s, wallets, i).book.valsArray <==> w in s.book.valsArray)
  {
    hide Registers;
    if i != 0 {
      NotYet(p, s, wallets, i - 1);
    }
  }

  // ----- Any other block -----

  /** ImportBlock's loop over txs from an opening ledger. */
  datatype BlockImport = BlockImport(p: Primitives, opening: Ledger, txs: seq<Transaction>, at: U64, index: U64) {
    /** The ledger after the first n transactions. */
    function After(n: nat): Ledger
      requires n <= |txs|
    {
      if n == 0 then opening else Step(p, After(n - 1), txs[n - 1], at, index)
    }

    function Effect(i: nat): Effect
      requires i < |txs|
    {
      EffectOf(p, After(i), txs[i])
    }

    /** The replay ValidateBlock makes of the first n transactions. */
    function Replayed(n: nat): Outcome
      requires n <= |txs|
    {
      Replay(p, opening.db, opening.balances, txs, n)
    }

    predicate Accepted() {
      Replayed(|txs|).Passed?
    }

    /** The gas of the applied transactions among the first n. */
    function GasPaid(n: nat): nat
      requires n <= |txs|
    {
      if n == 0 then 0 else GasPaid(n - 1) + if Effect(n - 1) == Applied then txs[n - 1].gas else 0
    }

    predicate PaysItself(i: nat)
      requires i < |txs|
    {
      Sender(p, txs[i]) == txs[i].recipient
    }

    /** What senders paid themselves, gas included, in the applied ones of the first n transactions. */
    function SelfPaid(n: nat): nat
      requires n <= |txs|
    {
      if n == 0 then 0 else
        SelfPaid(n - 1)
        + if Effect(n - 1) == Applied && PaysItself(n - 1) then txs[n - 1].amount + txs[n - 1].gas else 0
    }

    /** The same for all of the first n transactions: this can be told before the import. */
    function SelfAmounts(n: nat): nat
      requires n <= |txs|
    {
      if n == 0 then 0 else
        SelfAmounts(n - 1) + if PaysItself(n - 1) then txs[n - 1].amount + txs[n - 1].gas else 0
    }

    /** None of the first n transactions pays its own sender anything. */
    ghost predicate SelfNeutral(n: nat)
      requires n <= |txs|
    {
      forall i :: 0 <= i < n && PaysItself(i) ==> txs[i].amount + txs[i].gas == 0
    }

    /** The transaction registers its sender, unless the sender is a validator by then. */
    predicate Joins(i: nat)
      requires i < |txs|
    {
      txs[i].recipient == POS && Registers(p, Sender(p, txs[i]), txs[i].pubSchnorrKey)
    }

    /** A wallet is in the book, or one of the first n transactions puts it there. */
    ghost predicate Registered(n: nat, w: Wallet)
      requires n <= |txs|
    {
      w in opening.book.valsArray || exists k :: 0 <= k < n && Joins(k) && Sender(p, txs[k]) == w
    }

    /** In an accepted block only a validator's staking transactions are skipped. */
    ghost predicate Lands(i: nat)
      requires i < |txs|
    {
      txs[i].recipient == POS ==> !Registered(i, Sender(p, txs[i]))
    }

    /** No sum wraps among the first n transactions, skipped ones aside. */
    ghost predicate NoneWraps(n: nat)
      requires n <= |txs|
    {
      forall i :: 0 <= i < n && Lands(i) ==> !Wraps(txs[i])
    }
  }

  // ----- One transfer, exactly -----

  /** By how much one transfer misses "the supply falls by the gas". */
  function Excess(b: Balances, sender: Wallet, t: Transaction): int {
    var creditWraps := TWO_TO_THE_64 <= Balance(b, t.recipient) + t.amount;
    (if sender == t.recipient then t.amount + t.gas
     else (if Wraps(t) then TWO_TO_THE_64 else 0)
          + (if Balance(b, sender) < Required(t) then TWO_TO_THE_64 else 0))
    - if creditWraps then TWO_TO_THE_64 else 0
  }

  lemma TransferSupply(b: Balances, sender: Wallet, t: Transaction)
    ensures Supply(Transfer(b, sender, t)) == Supply(b) - t.gas + Excess(b, sender, t)
  {
    var debited := b[sender := Wrap64(Balance(b, sender) - Required(t))];
    SupplyUpdate(b, sender, Wrap64(Balance(b, sender) - Required(t)));
    SupplyUpdate(debited, t.recipient, Wrap64(Balance(b, t.recipient) + t.amount));
  }

  /**
    * When a transfer takes exactly its gas out of the supply: between two accounts, when the sum and the
    * debit wrap as often as the credit; from an account to itself, when amount and gas are both zero or
    * add up to 2^64 with the credit wrapping.
    */
  predicate TakesItsGas(b: Balances, sender: Wallet, t: Transaction) {
    var creditWraps := TWO_TO_THE_64 <= Balance(b, t.recipient) + t.amount;
    if sender == t.recipient then
      t.amount + t.gas == if creditWraps then TWO_TO_THE_64 else 0
    else
      (if Wraps(t) then 1 else 0) + (if Balance(b, sender) < Required(t) then 1 else 0)
      == if creditWraps then 1 else 0
  }

  lemma TransferTakesGasIff(b: Balances, sender: Wallet, t: Transaction)
    ensures Supply(Transfer(b, sender, t)) == Supply(b) - t.gas <==> TakesItsGas(b, sender, t)
  {
    TransferSupply(b, sender, t);
  }

  /** The sender pays amount and gas, the recipient gets the amount, nothing else changes. */
  ghost predicate MovesExactly(before: Balances, after: Balances, sender: Wallet, t: Transaction) {
    && sender in before && after.Keys == before.Keys + {t.recipient}
    && sender in after && after[sender] == before[sender] - t.amount - t.gas
    && after[t.recipient] == Balance(before, t.recipient) + t.amount
    && forall w :: w in before && w != sender && w != t.recipient ==> after[w] == before[w]
  }

  /** When a transfer that was validated is what it says: no wrap, and to oneself nothing at all. */
  predicate IsExact(b: Balances, sender: Wallet, t: Transaction) {
    if sender == t.recipient then t.amount + t.gas == 0
    else !Wraps(t) && Balance(b, t.recipient) + t.amount < TWO_TO_THE_64
  }

  lemma CoveredTransferIsExactIff(b: Balances, sender: Wallet, t: Transaction)
    requires sender in b && Required(t) <= b[sender]
    ensures MovesExactly(b, Transfer(b, sender, t), sender, t) <==> IsExact(b, sender, t)
  {
  }

  /** Whoever it pays, a transaction that passes the check moves amount and gas exactly when it is exact. */
  lemma CheckedTransferIsExactIff(p: Primitives, db: map<Bytes, Entry>, b: Balances, t: Transaction, at: nat)
    requires Check(p, db, b, t, at).Passed?
    ensures MovesExactly(b, Transfer(b, Sender(p, t), t), Sender(p, t), t) <==> IsExact(b, Sender(p, t), t)
  {
    CheckIff(p, db, b, t, at);
    CoveredTransferIsExactIff(b, Sender(p, t), t);
  }

  /** An account that sends to itself gains the amount instead of paying the gas. */
  lemma SelfTransferMints(p: Primitives, db: map<Bytes, Entry>, t: Transaction)
    requires t.recipient == Sender(p, t) && t.amount == 10 && t.gas == 1
    requires p.signatureValid(t) && !IsIncluded(p, db, t)
    ensures var opening: Balances := map[Sender(p, t) := 100];
            && Replay(p, db, opening, [t], 1).Passed?
            && Transfer(opening, Sender(p, t), t) == map[Sender(p, t) := 110]
  {
    var opening: Balances := map[Sender(p, t) := 100];
    assert Replay(p, db, opening, [t], 0) == Passed(opening);
  }

  /** When amount + gas wraps to zero, an empty account can pay out 2^64 - 1. */
  lemma WrappedTransferMints(p: Primitives, db: map<Bytes, Entry>, t: Transaction, other: Wallet)
    requires t.recipient == other != Sender(p, t) && t.amount == TWO_TO_THE_64 - 1 && t.gas == 1
    requires p.signatureValid(t) && !IsIncluded(p, db, t)
    ensures var opening: Balances := map[Sender(p, t) := 0];
            && Replay(p, db, opening, [t], 1).Passed?
            && Transfer(opening, Sender(p, t), t) == map[Sender(p, t) := 0, other := TWO_TO_THE_64 - 1]
  {
    var opening: Balances := map[Sender(p, t) := 0];
    assert Replay(p, db, opening, [t], 0) == Passed(opening);
  }

  /** When sum and credit both wrap the supply is right, but the recipient loses what it had and nobody pays. */
  lemma WrappedTransferTakes(p: Primitives, db: map<Bytes, Entry>, t: Transaction, other: Wallet)
    requires t.recipient == other != Sender(p, t) && t.amount == TWO_TO_THE_64 - 1 && t.gas == 1
    requires p.signatureValid(t) && !IsIncluded(p, db, t)
    ensures var opening: Balances := map[Sender(p, t) := 0, other := 1];
            && Replay(p, db, opening, [t], 1).Passed?
            && TakesItsGas(opening, Sender(p, t), t)
            && Transfer(opening, Sender(p, t), t) == map[Sender(p, t) := 0, other := 0]
  {
    var opening: Balances := map[Sender(p, t) := 0, other := 1];
    assert Replay(p, db, opening, [t], 0) == Passed(opening);
  }

  // ----- Which transactions are applied -----

  lemma {:induction false} AccountsStay(b: BlockImport, n: nat)
    requires n <= |b.txs|
    ensures b.opening.balances.Keys <= b.After(n).balances.Keys
  {
    if n == 0 {
    } else {
      AccountsStay(b, n - 1);
    }
  }

  lemma SenderIsKnown(b: BlockImport, i: nat)
    requires i < |b.txs| && b.Accepted()
    ensures Sender(b.p, b.txs[i]) in b.After(i).balances
  {
    ReplayIffPayable(b.p, b.opening.db, b.opening.balances, b.txs, |b.txs|);
    assert Admissible(b.p, b.opening.db, b.opening.balances, b.txs[i]);
    AccountsStay(b, i);
  }

  /** The book grows by exactly the wallets whose transactions register them. */
  lemma {:induction false} RegisteredIff(b: BlockImport, n: nat, w: Wallet)
    requires n <= |b.txs| && b.Accepted()
    ensures w in b.After(n).book.valsArray <==> b.Registered(n, w)
  {
    if n == 0 {
    } else {
      RegisteredIff(b, n - 1, w);
      SenderIsKnown(b, n - 1);
      RegisteredNext(b, n, w);
      StepByParts(b.p, b.After(n - 1), b.txs[n - 1], b.at, b.index);
      hide Step, Transfer, Registers, BlockImport.Registered, BlockImport.Accepted;
    }
  }

  lemma RegisteredNext(b: BlockImport, n: nat, w: Wallet)
    requires 0 < n <= |b.txs|
    ensures b.Registered(n, w) <==> b.Registered(n - 1, w) || (b.Joins(n - 1) && Sender(b.p, b.txs[n - 1]) == w)
  {
    hide BlockImport.Joins;
  }

  /** Which transactions of an accepted block are applied can be told before the import. */
  lemma AppliedIff(b: BlockImport, i: nat)
    requires i < |b.txs| && b.Accepted()
    ensures b.Effect(i) == Applied <==> b.Lands(i)
    ensures b.Effect(i) != Unknown
  {
    SenderIsKnown(b, i);
    RegisteredIff(b, i, Sender(b.p, b.txs[i]));
    hide BlockImport.Registered, BlockImport.Accepted;
  }

  /** Who stakes in a block that is imported at some height acts from 200 blocks after that height on. */
  lemma StakerActsIff(b: BlockImport, i: nat, currentBlock: U64)
    requires i < |b.txs| && b.Accepted() && b.Joins(i) && b.Lands(i)
    requires b.at < TWO_TO_THE_63 - 200 && currentBlock < TWO_TO_THE_63
    ensures var book, sender := b.After(i + 1).book, Sender(b.p, b.txs[i]);
            && (CheckDynasty(book, sender, currentBlock) <==> b.at + 200 < currentBlock)
            && sender in book.valsArray && book.valsArray[sender].stake == b.txs[i].amount
            && sender in book.valsWithdraw && book.valsWithdraw[sender] == b.txs[i]
  {
    AppliedIff(b, i);
    var s, t := b.After(i), b.txs[i];
    RegisteredIff(b, i, Sender(b.p, t));
    StepByParts(b.p, s, t, b.at, b.index);
    assert b.After(i + 1) == Step(b.p, s, t, b.at, b.index);
    hide BlockImport.Accepted, BlockImport.Effect, Step, Transfer;
    NewValidatorActsIff(b.p, s.book, Sender(b.p, t), Int64(b.at), t.pubSchnorrKey, t, currentBlock);
  }

  /** In an accepted block a payment to oneself is always applied. */
  lemma SelfPaymentApplies(b: BlockImport, i: nat)
    requires i < |b.txs| && b.Accepted() && b.PaysItself(i)
    ensures b.Effect(i) == Applied && b.Lands(i)
  {
    AppliedIff(b, i);
  }

  /** Of two places that hold the same transaction the first is applied if the second is. */
  lemma EarlierLands(b: BlockImport, i: nat, j: nat)
    requires i < j < |b.txs| && b.txs[i] == b.txs[j] && b.Lands(j)
    ensures b.Lands(i)
  {
  }

  ghost predicate AppliedAt(b: BlockImport, i: nat, t: Transaction)
    requires i < |b.txs|
  {
    b.txs[i] == t && b.Effect(i) == Applied
  }

  /**
    * An accepted block applies a transaction at two places exactly when it lists it at two places and, if
    * it is a staking transaction, its sender is not registered before the second.
    */
  lemma PaidTwiceIff(b: BlockImport, t: Transaction)
    requires b.Accepted()
    ensures (exists i, j :: 0 <= i < j < |b.txs| && AppliedAt(b, i, t) && AppliedAt(b, j, t))
            <==> exists i, j :: 0 <= i < j < |b.txs| && b.txs[i] == t && b.txs[j] == t && b.Lands(j)
  {
    hide BlockImport.Accepted, BlockImport.Effect, BlockImport.Lands;
    if i, j :| 0 <= i < j < |b.txs| && AppliedAt(b, i, t) && AppliedAt(b, j, t) {
      AppliedIff(b, j);
    }
    if i, j :| 0 <= i < j < |b.txs| && b.txs[i] == t && b.txs[j] == t && b.Lands(j) {
      EarlierLands(b, i, j);
      AppliedIff(b, i);
      AppliedIff(b, j);
      assert AppliedAt(b, i, t) && AppliedAt(b, j, t);
    }
  }

  // ----- Import follows the replay -----

  /** Every account is at least as rich as the replay says. */
  ghost predicate Covers(ledger: Balances, view: Balances) {
    forall w :: w in view && w != POS ==> w in ledger && view[w] <= ledger[w]
  }

  /** Neither the debit nor, outside the staking account, the credit of this step wraps. */
  ghost predicate StepIsExact(p: Primitives, b: Balances, t: Transaction) {
    && Sender(p, t) in b && Required(t) <= b[Sender(p, t)]
    && (t.recipient != POS ==> Balance(b, t.recipient) + t.amount < TWO_TO_THE_64)
  }

  /** What a step takes out of circulation: gas, and what goes to the staking account. */
  function Outflow(p: Primitives, s: Ledger, t: Transaction): nat {
    if EffectOf(p, s, t) != Applied then 0 else t.gas + if t.recipient == POS then t.amount else 0
  }

  /** What a step brings into circulation: an account that pays itself gets its gas and its amount back. */
  function Inflow(p: Primitives, s: Ledger, t: Transaction): nat {
    if EffectOf(p, s, t) == Applied && Sender(p, t) == t.recipient then t.amount + t.gas else 0
  }

  /** A transfer that can be paid, seen from circulation. */
  lemma TransferCirculating(b: Balances, sender: Wallet, t: Transaction)
    requires sender in b && sender != POS && !Wraps(t) && t.amount + t.gas <= b[sender]
    requires Circulating(b) + (if sender == t.recipient then t.amount else 0) < TWO_TO_THE_64
    ensures t.recipient != POS ==> Balance(b, t.recipient) + t.amount < TWO_TO_THE_64
    ensures Circulating(Transfer(b, sender, t))
         == Circulating(b) - t.gas - (if t.recipient == POS then t.amount else 0)
            + if sender == t.recipient then t.amount + t.gas else 0
  {
    if sender != t.recipient {
      TwoBalances(b, sender, t.recipient);
    }
    var debited := b[sender := Wrap64(Balance(b, sender) - Required(t))];
    CirculatingUpdate(b, sender, Wrap64(Balance(b, sender) - Required(t)));
    CirculatingUpdate(debited, t.recipient, Wrap64(Balance(b, t.recipient) + t.amount));
  }

  lemma TransferCovers(b: Balances, view: Balances, sender: Wallet, t: Transaction)
    requires Covers(b, view) && sender in b && sender in view && sender != POS
    requires !Wraps(t) && t.amount + t.gas <= view[sender]
    requires t.recipient != POS ==> Balance(b, t.recipient) + t.amount < TWO_TO_THE_64
    ensures Covers(Transfer(b, sender, t), view[sender := view[sender] - Required(t)])
  {
  }

  lemma StepCovers(
      p: Primitives, db: map<Bytes, Entry>, s: Ledger, view: Balances, t: Transaction, i: nat, at: U64, index: U64)
    requires Covers(s.balances, view) && Circulating(s.balances) + Inflow(p, s, t) < TWO_TO_THE_64
    requires Check(p, db, view, t, i).Passed? && (EffectOf(p, s, t) == Applied ==> !Wraps(t))
    ensures StepIsExact(p, s.balances, t) || EffectOf(p, s, t) == Already
    ensures Covers(Step(p, s, t, at, index).balances, Check(p, db, view, t, i).view)
    ensures Circulating(Step(p, s, t, at, index).balances)
         == Circulating(s.balances) - Outflow(p, s, t) + Inflow(p, s, t)
  {
    CheckIff(p, db, view, t, i);
    if EffectOf(p, s, t) == Applied {
      TransferCirculating(s.balances, Sender(p, t), t);
      TransferCovers(s.balances, view, Sender(p, t), t);
    }
  }

  ghost predicate ImportStepIsSafe(b: BlockImport, i: nat)
    requires i < |b.txs|
  {
    && (b.Effect(i) != Already ==> StepIsExact(b.p, b.After(i).balances, b.txs[i]))
    && Circulating(b.After(i + 1).balances)
       == Circulating(b.After(i).balances) - Outflow(b.p, b.After(i), b.txs[i]) + Inflow(b.p, b.After(i), b.txs[i])
  }

  /**
    * What validation accepts, import can apply: before every transaction each account holds at least
    * what the replay allows it, so no debit underflows and no credit outside the staking account
    * overflows, and circulating money grows at most by what accounts pay themselves.
    */
  lemma {:induction false} ImportFollowsReplay(b: BlockImport, n: nat)
    requires n <= |b.txs| && b.Accepted() && b.NoneWraps(n)
    requires Circulating(b.opening.balances) + b.SelfAmounts(n) < TWO_TO_THE_64
    ensures b.Replayed(n).Passed? && Covers(b.After(n).balances, b.Replayed(n).view)
    ensures Circulating(b.After(n).balances) <= Circulating(b.opening.balances) + b.SelfAmounts(n)
    ensures 0 < n ==> ImportStepIsSafe(b, n - 1)
  {
    ReplayedSoFar(b, n);
    if n == 0 {
    } else {
      assert b.NoneWraps(n - 1);
      ImportFollowsReplay(b, n - 1);
      StepFollowsReplay(b, n);
    }
  }

  lemma ReplayedSoFar(b: BlockImport, n: nat)
    requires n <= |b.txs| && b.Accepted()
    ensures b.Replayed(n).Passed?
    ensures 0 < n ==> b.Replayed(n - 1).Passed?
                      && b.Replayed(n) == Check(b.p, b.opening.db, b.Replayed(n - 1).view, b.txs[n - 1], n - 1)
  {
    hide Check;
    FailureSticks(b.p, b.opening.db, b.opening.balances, b.txs, n, |b.txs|);
    if 0 < n {
      FailureSticks(b.p, b.opening.db, b.opening.balances, b.txs, n - 1, |b.txs|);
    }
  }

  lemma StepFollowsReplay(b: BlockImport, n: nat)
    requires 0 < n <= |b.txs| && b.Accepted() && b.NoneWraps(n)
    requires Circulating(b.opening.balances) + b.SelfAmounts(n) < TWO_TO_THE_64
    requires b.Replayed(n - 1).Passed? && Covers(b.After(n - 1).balances, b.Replayed(n - 1).view)
    requires Circulating(b.After(n - 1).balances) <= Circulating(b.opening.balances) + b.SelfAmounts(n - 1)
    ensures b.Replayed(n).Passed? && Covers(b.After(n).balances, b.Replayed(n).view)
    ensures Circulating(b.After(n).balances) <= Circulating(b.opening.balances) + b.SelfAmounts(n)
    ensures ImportStepIsSafe(b, n - 1)
  {
    ReplayedSoFar(b, n);
    AppliedIff(b, n - 1);
    hide Covers, Transfer, StepIsExact, Check, Replay, BlockImport.Replayed, BlockImport.Accepted, BlockImport.Lands;
    hide Circulating;
    var s, t := b.After(n - 1), b.txs[n - 1];
    StepCovers(b.p, b.opening.db, s, b.Replayed(n - 1).view, t, n - 1, b.at, b.index);
  }

  // ----- What a whole block does to the supply -----

  /** Whatever wraps, the supply is right modulo 2^64 up to what accounts paid themselves. */
  lemma {:induction false} SupplyModulo(b: BlockImport, n: nat) returns (k: int)
    requires n <= |b.txs|
    ensures Supply(b.After(n).balances)
            == Supply(b.opening.balances) - b.GasPaid(n) + b.SelfPaid(n) + k * TWO_TO_THE_64
  {
    if n == 0 {
      k := 0;
    } else {
      k := SupplyModulo(b, n - 1);
      if b.Effect(n - 1) == Applied {
        var before, t := b.After(n - 1).balances, b.txs[n - 1];
        TransferSupply(before, Sender(b.p, t), t);
        var k' := ExcessModulo(before, Sender(b.p, t), t);
        k := k + k';
      }
    }
  }

  lemma ExcessModulo(b: Balances, sender: Wallet, t: Transaction) returns (k: int)
    ensures Excess(b, sender, t) == (if sender == t.recipient then t.amount + t.gas else 0) + k * TWO_TO_THE_64
  {
    k := (if sender != t.recipient && Wraps(t) then 1 else 0)
       + (if sender != t.recipient && Balance(b, sender) < Required(t) then 1 else 0)
       - (if TWO_TO_THE_64 <= Balance(b, t.recipient) + t.amount then 1 else 0);
  }

  lemma {:induction false} AcceptedSelfPaid(b: BlockImport, n: nat)
    requires n <= |b.txs| && b.Accepted()
    ensures b.SelfPaid(n) == b.SelfAmounts(n)
  {
    if n == 0 {
    } else {
      AcceptedSelfPaid(b, n - 1);
      hide BlockImport.Accepted, BlockImport.Effect;
      if b.PaysItself(n - 1) {
        SelfPaymentApplies(b, n - 1);
      }
    }
  }

  lemma {:induction false} SelfAmountsWithinDebits(b: BlockImport, n: nat)
    requires n <= |b.txs| && b.Accepted() && b.NoneWraps(n)
    ensures b.SelfAmounts(n) <= Debits(b.txs, n)
  {
    if n == 0 {
    } else {
      assert b.NoneWraps(n - 1);
      SelfAmountsWithinDebits(b, n - 1);
      hide BlockImport.Accepted, BlockImport.Lands;
      if b.PaysItself(n - 1) {
        SelfPaymentApplies(b, n - 1);
      }
    }
  }

  lemma {:induction false} NoSelfAmountsIff(b: BlockImport, n: nat)
    requires n <= |b.txs|
    ensures b.SelfAmounts(n) == 0 <==> b.SelfNeutral(n)
  {
    hide BlockImport.PaysItself;
    if n == 0 {
    } else {
      NoSelfAmountsIff(b, n - 1);
      if b.SelfNeutral(n) {
        assert b.SelfNeutral(n - 1);
      }
    }
  }

  /** One exact step, seen from the supply: nothing wraps, the staking account's credit included. */
  lemma ExactStepSupply(b: Balances, sender: Wallet, t: Transaction)
    requires sender in b && !Wraps(t) && t.amount + t.gas <= b[sender]
    requires Supply(b) + (if sender == t.recipient then t.amount else 0) < TWO_TO_THE_64
    ensures Supply(Transfer(b, sender, t)) == Supply(b) - t.gas + if sender == t.recipient then t.amount + t.gas else 0
  {
    TransferSupply(b, sender, t);
    SupplyUpdate(b, sender, 0);
    if sender != t.recipient {
      TwoBalances(b, sender, t.recipient);
    }
  }

  lemma AppliedDoesNotWrap(b: BlockImport, n: nat, i: nat)
    requires i < n <= |b.txs| && b.Accepted() && b.NoneWraps(n) && b.Effect(i) == Applied
    ensures !Wraps(b.txs[i])
  {
    AppliedIff(b, i);
    hide BlockImport.Accepted, BlockImport.Lands, BlockImport.Effect;
  }

  /** Before the first sum that wraps, an applied transaction is covered by its sender's account. */
  lemma AppliedIsCovered(b: BlockImport, n: nat)
    requires 0 < n <= |b.txs| && b.Accepted() && b.NoneWraps(n) && b.Effect(n - 1) == Applied
    requires Supply(b.opening.balances) + b.SelfAmounts(n) < TWO_TO_THE_64
    ensures var before, t := b.After(n - 1).balances, b.txs[n - 1];
            Sender(b.p, t) in before && !Wraps(t) && t.amount + t.gas <= before[Sender(b.p, t)]
  {
    AppliedDoesNotWrap(b, n, n - 1);
    CirculatingWithinSupply(b.opening.balances);
    ImportFollowsReplay(b, n);
    hide BlockImport.Accepted, BlockImport.NoneWraps, BlockImport.Replayed, BlockImport.After, Covers, Supply;
    hide Circulating;
  }

  lemma SupplyStep(b: BlockImport, n: nat)
    requires 0 < n <= |b.txs| && b.Accepted() && b.NoneWraps(n)
    requires Supply(b.opening.balances) + b.SelfAmounts(n) < TWO_TO_THE_64
    requires Supply(b.After(n - 1).balances)
          == Supply(b.opening.balances) - b.GasPaid(n - 1) + b.SelfAmounts(n - 1)
    ensures Supply(b.After(n).balances) == Supply(b.opening.balances) - b.GasPaid(n) + b.SelfAmounts(n)
  {
    if b.Effect(n - 1) == Applied {
      AppliedIsCovered(b, n);
    } else if b.PaysItself(n - 1) {
      SelfPaymentApplies(b, n - 1);
    }
    hide BlockImport.Accepted, BlockImport.NoneWraps, Transfer, Supply;
    if b.Effect(n - 1) == Applied {
      ExactStepSupply(b.After(n - 1).balances, Sender(b.p, b.txs[n - 1]), b.txs[n - 1]);
    }
  }

  /** As long as supply and self-payments fit 64 bits, the supply moves by gas and self-payments alone. */
  lemma {:induction false} ImportSupply(b: BlockImport, n: nat)
    requires n <= |b.txs| && b.Accepted() && b.NoneWraps(n)
    requires Supply(b.opening.balances) + b.SelfAmounts(n) < TWO_TO_THE_64
    ensures Supply(b.After(n).balances) == Supply(b.opening.balances) - b.GasPaid(n) + b.SelfAmounts(n)
  {
    hide BlockImport.Accepted, Step, Supply, BlockImport.Lands;
    if n == 0 {
    } else {
      assert b.NoneWraps(n - 1);
      ImportSupply(b, n - 1);
      SupplyStep(b, n);
    }
  }

  lemma CirculatingWithinSupply(b: Balances)
    ensures Circulating(b) <= Supply(b)
  {
    if POS in b {
      MapSums.SumSplit(b, POS);
    } else {
      assert b - {POS} == b;
    }
  }

  /**
    * Importing a validated block takes exactly the gas of its applied transactions out of the supply
    * if and only if none of its transactions pays its own sender anything.
    */
  lemma SupplyFallsByGasIff(b: BlockImport)
    requires b.Accepted() && b.NoneWraps(|b.txs|) && Supply(b.opening.balances) < TWO_TO_THE_64
    ensures Supply(b.After(|b.txs|).balances) == Supply(b.opening.balances) - b.GasPaid(|b.txs|)
            <==> b.SelfNeutral(|b.txs|)
  {
    var n := |b.txs|;
    SelfAmountsWithinDebits(b, n);
    NoSelfAmountsIff(b, n);
    if b.SelfNeutral(n) {
      ImportSupply(b, n);
    } else {
      var k := SupplyModulo(b, n);
      AcceptedSelfPaid(b, n);
      ReplayConserves(b.p, b.opening.db, b.opening.balances, b.txs, n);
      assert 0 < b.SelfPaid(n) < TWO_TO_THE_64;
    }
  }

  // ----- When every transaction moves what it says -----

  ghost predicate MovesItsAmount(b: BlockImport, i: nat)
    requires i < |b.txs|
  {
    MovesExactly(b.After(i).balances, b.After(i + 1).balances, Sender(b.p, b.txs[i]), b.txs[i])
  }

  /** The sum does not wrap, and a payment to oneself is of nothing. */
  ghost predicate Faultless(b: BlockImport, i: nat)
    requires i < |b.txs|
  {
    !Wraps(b.txs[i]) && (b.PaysItself(i) ==> b.txs[i].amount + b.txs[i].gas == 0)
  }

  /** Up to the first sum that wraps, supply stays within 64 bits and the ledger covers the replay. */
  lemma LedgerBefore(b: BlockImport, i: nat)
    requires i < |b.txs| && b.Accepted() && b.NoneWraps(i)
    requires Supply(b.opening.balances) + b.SelfAmounts(i) < TWO_TO_THE_64
    ensures var s, t := b.After(i).balances, b.txs[i];
            Supply(s) < TWO_TO_THE_64 && Sender(b.p, t) in s && Required(t) <= s[Sender(b.p, t)]
  {
    CirculatingWithinSupply(b.opening.balances);
    ImportFollowsReplay(b, i);
    ImportSupply(b, i);
    ReplayedSoFar(b, i + 1);
    hide BlockImport.Accepted, BlockImport.Replayed, Transfer;
    CheckIff(b.p, b.opening.db, b.Replayed(i).view, b.txs[i], i);
  }

  /**
    * An applied transaction of a validated block, staking included, moves exactly its amount and gas if
    * and only if its sum does not wrap and it is no payment to its own sender.
    */
  lemma ValidatedTransferIsExactIff(b: BlockImport, i: nat)
    requires i < |b.txs| && b.Accepted() && b.NoneWraps(i) && b.Effect(i) == Applied
    requires Supply(b.opening.balances) + b.SelfAmounts(i) < TWO_TO_THE_64
    ensures MovesItsAmount(b, i) <==> Faultless(b, i)
    ensures Faultless(b, i) ==>
              Balance(b.After(i).balances, b.txs[i].recipient) + b.txs[i].amount < TWO_TO_THE_64
  {
    LedgerBefore(b, i);
    var s, t, sender := b.After(i), b.txs[i], Sender(b.p, b.txs[i]);
    assert b.After(i + 1) == Step(b.p, s, t, b.at, b.index);
    hide BlockImport.Accepted, BlockImport.NoneWraps;
    CoveredTransferIsExactIff(s.balances, sender, t);
    SupplyUpdate(s.balances, sender, 0);
    if sender != t.recipient {
      TwoBalances(s.balances, sender, t.recipient);
    }
    hide Transfer, MovesExactly;
  }

  ghost predicate AllMove(b: BlockImport, n: nat)
    requires n <= |b.txs|
  {
    forall i :: 0 <= i < n && b.Lands(i) ==> MovesItsAmount(b, i)
  }

  ghost predicate AllFaultless(b: BlockImport, n: nat)
    requires n <= |b.txs|
  {
    forall i :: 0 <= i < n && b.Lands(i) ==> Faultless(b, i)
  }

  lemma OneMoreLands(b: BlockImport, n: nat)
    requires 0 < n <= |b.txs|
    ensures AllMove(b, n) <==> AllMove(b, n - 1) && (b.Lands(n - 1) ==> MovesItsAmount(b, n - 1))
    ensures AllFaultless(b, n) <==> AllFaultless(b, n - 1) && (b.Lands(n - 1) ==> Faultless(b, n - 1))
  {
    hide MovesItsAmount, Faultless, BlockImport.Lands;
  }

  lemma NoneYet(b: BlockImport)
    ensures AllMove(b, 0) && AllFaultless(b, 0)
  {
  }

  lemma FaultlessSoFar(b: BlockImport, n: nat)
    requires n <= |b.txs| && b.Accepted() && AllFaultless(b, n)
    ensures b.NoneWraps(n) && b.SelfAmounts(n) == 0
  {
    forall i | 0 <= i < n && b.PaysItself(i)
      ensures b.txs[i].amount + b.txs[i].gas == 0
    {
      SelfPaymentApplies(b, i);
    }
    hide BlockImport.Lands, BlockImport.Accepted;
    NoSelfAmountsIff(b, n);
  }

  lemma {:induction false} ExactSoFar(b: BlockImport, n: nat)
    requires n <= |b.txs| && b.Accepted() && Supply(b.opening.balances) < TWO_TO_THE_64
    ensures AllMove(b, n) <==> AllFaultless(b, n)
  {
    if n == 0 {
      NoneYet(b);
    }
    hide AllMove, AllFaultless, MovesItsAmount, Faultless, BlockImport.Accepted, BlockImport.Lands, Supply;
    if n != 0 {
      ExactSoFar(b, n - 1);
      OneMoreLands(b, n);
      if AllFaultless(b, n - 1) && b.Lands(n - 1) {
        FaultlessSoFar(b, n - 1);
        AppliedIff(b, n - 1);
        ValidatedTransferIsExactIff(b, n - 1);
      }
    }
  }

  /**
    * Validation makes the raw arithmetic of import exact, for every applied transaction of a block, if and
    * only if no applied transaction's sum wraps and none pays its own sender anything.
    */
  lemma ValidationMakesImportExactIff(b: BlockImport)
    requires b.Accepted() && Supply(b.opening.balances) < TWO_TO_THE_64
    ensures (forall i :: 0 <= i < |b.txs| && b.Effect(i) == Applied ==> MovesItsAmount(b, i))
            <==> (forall i :: 0 <= i < |b.txs| && b.Lands(i) ==> Faultless(b, i))
  {
    ExactSoFar(b, |b.txs|);
    hide BlockImport.Accepted, BlockImport.Lands, BlockImport.Effect, Faultless, MovesItsAmount;
    forall i | 0 <= i < |b.txs|
      ensures b.Effect(i) == Applied <==> b.Lands(i)
    {
      AppliedIff(b, i);
    }
  }
}
