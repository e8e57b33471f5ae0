/**
  * Runs of the node after genesis: blocks imported on its shards' chains, stakes bonded and withdrawn.
  * Wealth is the money outside the staking account on all chains, plus the registered stakes.
  */
module Staking {
  import opened Book
  import opened Import
  import opened MapSums
  import opened Overflow
  import opened Processing
  import opened Transactions
  import opened Wrappers

  datatype Chain = Chain(balances: Balances, db: map<Bytes, Entry>, currentBlock: U64)

  datatype World = World(chains: map<U32, Chain>, book: Book)

  datatype Action =
    | ImportBlock(shard: U32, block: Block)
    | MoneyWithdraw(shard: U32, wallet: Wallet)
    | Withdraw(wallet: Wallet, currentBlock: int)
    | SetShard(wallet: Wallet, to: U32)
    | AddMempoolTransaction(shard: U32, raw: Bytes)
    | NextBlock(shard: U32)

  /** What happens to a bond: it is made, and it ends paid back or lost. */
  datatype Fact =
    | Bonded(wallet: Wallet, amount: U64)
    | Repaid(wallet: Wallet, amount: U64)
    | Lost(wallet: Wallet, amount: U64)

  // ----- CheckWithdraw -----

  datatype Refund = NotAllowed | NotDue | Paid | NoAccount

  /** Which way CheckWithdraw goes; the waiting-period comparison is the source's. */
  function RefundOf(p: Primitives, b: Book, balances: Balances, currentBlock: U64, wallet: Wallet): Refund {
    if wallet !in b.valsWithdraw || wallet !in b.valsArray then NotAllowed
    else if !(Wrap64(b.valsArray[wallet].endDynasty + 2903040) > currentBlock) then NotDue
    else if p.address(b.valsWithdraw[wallet].sender, 1) != wallet then NotAllowed
    else if wallet !in balances then NoAccount
    else Paid
  }

  function BookAfterRefund(p: Primitives, b: Book, balances: Balances, currentBlock: U64, wallet: Wallet): Book {
    if RefundOf(p, b, balances, currentBlock, wallet) in {Paid, NoAccount} then Removed(b, wallet) else b
  }

  function BalancesAfterRefund(
      p: Primitives, b: Book, balances: Balances, currentBlock: U64, wallet: Wallet): Balances
  {
    if RefundOf(p, b, balances, currentBlock, wallet) == Paid
    then balances[wallet := Wrap64(balances[wallet] + b.valsWithdraw[wallet].amount)] else balances
  }

  /**
    * A registered wallet is paid what it staked exactly when its time has come, the recorded transaction
    * leads back to it and it has an account; it leaves the book, account or not, exactly when the first two
    * hold. Otherwise nothing changes.
    */
  lemma WithdrawalIff(p: Primitives, b: Book, balances: Balances, currentBlock: U64, wallet: Wallet)
    requires wallet in b.valsArray && wallet in b.valsWithdraw
    requires -2903040 <= b.valsArray[wallet].endDynasty < TWO_TO_THE_63 - 2903040
    ensures var due := currentBlock < b.valsArray[wallet].endDynasty + 2903040;
            var mine := p.address(b.valsWithdraw[wallet].sender, 1) == wallet;
            var refund := RefundOf(p, b, balances, currentBlock, wallet);
            var book := BookAfterRefund(p, b, balances, currentBlock, wallet);
            var after := BalancesAfterRefund(p, b, balances, currentBlock, wallet);
            && (wallet !in book.valsArray <==> due && mine)
            && (due && mine && wallet in balances
                && balances[wallet] + b.valsWithdraw[wallet].amount < TWO_TO_THE_64 ==>
                  after.Keys == balances.Keys && after[wallet] == balances[wallet] + b.valsWithdraw[wallet].amount)
            && (forall w :: w in balances && w != wallet ==> w in after && after[w] == balances[w])
            && (!(due && mine && wallet in balances) ==> after == balances)
            && (!(due && mine) ==> book == b)
            && (refund in {Paid, NotDue} <==> !due || (mine && wallet in balances))
            && book.valsWithdraw == b.valsWithdraw
            && forall w :: w in b.valsArray && w != wallet ==>
                 w in book.valsArray && book.valsArray[w] == b.valsArray[w]
  {
  }

  /** Nobody else can withdraw. */
  lemma OthersCannotWithdraw(p: Primitives, b: Book, balances: Balances, currentBlock: U64, wallet: Wallet)
    requires wallet !in b.valsArray || wallet !in b.valsWithdraw
    ensures BookAfterRefund(p, b, balances, currentBlock, wallet) == b
    ensures BalancesAfterRefund(p, b, balances, currentBlock, wallet) == balances
    ensures RefundOf(p, b, balances, currentBlock, wallet) !in {Paid, NotDue}
  {
  }

  // ----- Actions -----

  function Importing(p: Primitives, w: World, shard: U32, block: Block): BlockImport
    requires shard in w.chains
  {
    var c := w.chains[shard];
    BlockImport(p, Ledger(c.balances, c.db, w.book), block.transactions, c.currentBlock, block.index)
  }

  predicate Imports(p: Primitives, w: World, shard: U32, block: Block) {
    && shard in w.chains && block.index != 0
    && Validation(p, w.chains[shard].db, w.chains[shard].balances, block) == None
  }

  function Act(p: Primitives, w: World, a: Action): World {
    match a
    case ImportBlock(shard, block) =>
      if !Imports(p, w, shard, block) then w else
        var s := Importing(p, w, shard, block).After(|block.transactions|);
        World(w.chains[shard := w.chains[shard].(balances := s.balances, db := s.db)], s.book)
    case MoneyWithdraw(shard, wallet) =>
      if shard !in w.chains then w else
        var c := w.chains[shard];
        World(w.chains[shard := c.(balances := BalancesAfterRefund(p, w.book, c.balances, c.currentBlock, wallet))],
              BookAfterRefund(p, w.book, c.balances, c.currentBlock, wallet))
    case Withdraw(wallet, currentBlock) =>
      if wallet !in w.book.valsArray then w else
        var v := w.book.valsArray[wallet].(endDynasty := currentBlock);
        w.(book := w.book.(valsArray := w.book.valsArray[wallet := v]))
    case SetShard(wallet, to) =>
      if wallet !in w.book.valsArray then w else
        w.(book := w.book.(valsArray := w.book.valsArray[wallet := w.book.valsArray[wallet].(shard := to)]))
    case AddMempoolTransaction(shard, raw) =>
      if shard !in w.chains || p.hash(raw) in w.chains[shard].db then w else
        var c := w.chains[shard];
        w.(chains := w.chains[shard := c.(db := c.db[p.hash(raw) := Stored(raw)])])
    case NextBlock(shard) =>
      if shard !in w.chains then w else
        w.(chains := w.chains[shard := w.chains[shard].(currentBlock := Wrap64(w.chains[shard].currentBlock + 1))])
  }

  function Run(p: Primitives, w: World, run: seq<Action>): World {
    if run == [] then w else Act(p, Run(p, w, run[..|run| - 1]), run[|run| - 1])
  }

  // ----- Bonds -----

  /** The i-th transaction of an import registers its sender. */
  predicate Bonds(b: BlockImport, i: nat)
    requires i < |b.txs|
  {
    var t := b.txs[i];
    b.Effect(i) == Applied && t.recipient == POS && Registers(b.p, Sender(b.p, t), t.pubSchnorrKey)
  }

  function ImportFacts(b: BlockImport, n: nat): seq<Fact>
    requires n <= |b.txs|
  {
    if n == 0 then [] else
      ImportFacts(b, n - 1) + if Bonds(b, n - 1) then [Bonded(Sender(b.p, b.txs[n - 1]), b.txs[n - 1].amount)] else []
  }

  function Facts(p: Primitives, w: World, a: Action): seq<Fact> {
    match a
    case ImportBlock(shard, block) =>
      if Imports(p, w, shard, block) then ImportFacts(Importing(p, w, shard, block), |block.transactions|) else []
    case MoneyWithdraw(shard, wallet) =>
      if shard !in w.chains then [] else
        var c := w.chains[shard];
        var refund := RefundOf(p, w.book, c.balances, c.currentBlock, wallet);
        if refund == Paid then [Repaid(wallet, w.book.valsWithdraw[wallet].amount)]
        else if refund == NoAccount then [Lost(wallet, w.book.valsWithdraw[wallet].amount)]
        else []
    case _ => []
  }

  function History(p: Primitives, w: World, run: seq<Action>): seq<Fact> {
    if run == [] then [] else
      History(p, w, run[..|run| - 1]) + Facts(p, Run(p, w, run[..|run| - 1]), run[|run| - 1])
  }

  /**
    * The open bonds after a history; None if it opens a bond that is open, or ends one that is not
    * open or with another amount.
    */
  ghost function Settle(open: map<Wallet, nat>, h: seq<Fact>): Option<map<Wallet, nat>> {
    if h == [] then Some(open) else
      match Settle(open, h[..|h| - 1])
      case None => None
      case Some(bonds) => Enter(bonds, h[|h| - 1])
  }

  ghost function Enter(open: map<Wallet, nat>, f: Fact): Option<map<Wallet, nat>> {
    if f.Bonded? then
      if f.wallet in open then None else Some(open[f.wallet := f.amount])
    else
      if f.wallet in open && open[f.wallet] == f.amount then Some(open - {f.wallet}) else None
  }

  lemma {:induction false} SettleConcat(open: map<Wallet, nat>, h: seq<Fact>, g: seq<Fact>)
    requires Settle(open, h).Some?
    ensures Settle(open, h + g) == Settle(Settle(open, h).value, g)
  {
    if g == [] {
      assert h + g == h;
    } else {
      assert (h + g)[..|h + g| - 1] == h + g[..|g| - 1];
      SettleConcat(open, h, g[..|g| - 1]);
    }
  }

  lemma {:induction false} ImportSettles(b: BlockImport, n: nat)
    requires n <= |b.txs| && Consistent(b.opening.book)
    ensures Consistent(b.After(n).book)
    ensures Settle(Stakes(b.opening.book), ImportFacts(b, n)) == Some(Stakes(b.After(n).book))
  {
    if n == 0 {
    } else {
      ImportSettles(b, n - 1);
      var t := b.txs[n - 1];
      AddedStakes(b.p, b.After(n - 1).book, Sender(b.p, t), Int64(b.at), t.pubSchnorrKey, t);
      if Bonds(b, n - 1) {
        SettleConcat(Stakes(b.opening.book), ImportFacts(b, n - 1), [Bonded(Sender(b.p, t), t.amount)]);
        SettleOne(Stakes(b.After(n - 1).book), Bonded(Sender(b.p, t), t.amount));
      } else {
        assert ImportFacts(b, n) == ImportFacts(b, n - 1);
      }
    }
  }

  lemma SettleOne(open: map<Wallet, nat>, f: Fact)
    ensures Settle(open, [f]) == Enter(open, f)
  {
    assert [f][..0] == [];
  }

  /** The other actions move no money and no stake. */
  lemma QuietAct(p: Primitives, w: World, a: Action)
    requires !a.ImportBlock? && !a.MoneyWithdraw?
    ensures Stakes(Act(p, w, a).book) == Stakes(w.book)
    ensures ChainWealth(Act(p, w, a)) == ChainWealth(w)
    ensures Consistent(w.book) ==> Consistent(Act(p, w, a).book)
  {
    hide Circulating;
    assert Stakes(Act(p, w, a).book) == Stakes(w.book);
    assert ChainWealth(Act(p, w, a)) == ChainWealth(w);
  }

  lemma ActSettles(p: Primitives, w: World, a: Action)
    requires Consistent(w.book)
    ensures Consistent(Act(p, w, a).book)
    ensures Settle(Stakes(w.book), Facts(p, w, a)) == Some(Stakes(Act(p, w, a).book))
  {
    match a
    case ImportBlock(shard, block) =>
      if Imports(p, w, shard, block) {
        ImportSettles(Importing(p, w, shard, block), |block.transactions|);
      }
    case MoneyWithdraw(shard, wallet) =>
      if shard in w.chains {
        var c := w.chains[shard];
        if RefundOf(p, w.book, c.balances, c.currentBlock, wallet) in {Paid, NoAccount} {
          RemovedStakes(w.book, wallet);
          SettleOne(Stakes(w.book), Facts(p, w, a)[0]);
        }
      }
    case _ =>
      QuietAct(p, w, a);
  }

  /**
    * Over every run each bond is opened once and ended at most once, for the amount it was opened
    * with, and the registered stakes are exactly the open bonds.
    */
  lemma {:induction false} EveryBondSettlesOnce(p: Primitives, w: World, run: seq<Action>)
    requires Consistent(w.book)
    ensures Consistent(Run(p, w, run).book)
    ensures Settle(Stakes(w.book), History(p, w, run)) == Some(Stakes(Run(p, w, run).book))
  {
    if run == [] {
    } else {
      var before := run[..|run| - 1];
      EveryBondSettlesOnce(p, w, before);
      ActSettles(p, Run(p, w, before), run[|run| - 1]);
      SettleConcat(Stakes(w.book), History(p, w, before), Facts(p, Run(p, w, before), run[|run| - 1]));
    }
  }

  // ----- Reclaiming -----

  /** The registered wallets whose recorded transaction does not lead back to them. */
  ghost function Stuck(p: Primitives, b: Book): set<Wallet> {
    set w | w in b.valsArray && !Reclaimable(p, b, w)
  }

  /** A withdrawal whose time has come ends the bond exactly when the wallet is not stuck. */
  lemma DueRefundIff(p: Primitives, b: Book, balances: Balances, currentBlock: U64, wallet: Wallet)
    requires wallet in b.valsArray && Wrap64(b.valsArray[wallet].endDynasty + 2903040) > currentBlock
    ensures wallet !in BookAfterRefund(p, b, balances, currentBlock, wallet).valsArray <==> wallet !in Stuck(p, b)
  {
  }

  lemma {:induction false} ImportKeepsStuck(b: BlockImport, n: nat)
    requires n <= |b.txs|
    ensures Stuck(b.p, b.After(n).book) == Stuck(b.p, b.opening.book)
  {
    if n == 0 {
    } else {
      ImportKeepsStuck(b, n - 1);
      var book, t := b.After(n - 1).book, b.txs[n - 1];
      if Sender(b.p, t) !in book.valsArray && Registers(b.p, Sender(b.p, t), t.pubSchnorrKey) {
        RegisteredSenderReclaims(b.p, book, Int64(b.at), t);
      }
      hide Registers, Transfer;
    }
  }

  lemma ActKeepsStuck(p: Primitives, w: World, a: Action)
    ensures Stuck(p, Act(p, w, a).book) == Stuck(p, w.book)
  {
    if a.ImportBlock? && Imports(p, w, a.shard, a.block) {
      ImportKeepsStuck(Importing(p, w, a.shard, a.block), |a.block.transactions|);
    }
  }

  /**
    * No run registers a wallet that cannot withdraw, and none frees one: the set of stuck wallets is the
    * same after every run.
    */
  lemma {:induction false} StuckNeverChanges(p: Primitives, w: World, run: seq<Action>)
    ensures Stuck(p, Run(p, w, run).book) == Stuck(p, w.book)
  {
    if run == [] {
    } else {
      StuckNeverChanges(p, w, run[..|run| - 1]);
      ActKeepsStuck(p, Run(p, w, run[..|run| - 1]), run[|run| - 1]);
    }
  }

  /** Whoever the genesis branch registers is stuck, unless the address of no bytes is theirs. */
  lemma {:induction false} GenesisStuckIff(p: Primitives, s: Ledger, wallets: seq<GenesisWallet>, n: nat, w: Wallet)
    requires n <= |wallets| && w !in s.book.valsArray && w in Genesis(p, s, wallets, n).book.valsArray
    ensures w in Stuck(p, Genesis(p, s, wallets, n).book) <==> p.address([], 1) != w
  {
    if n == 0 {
    } else {
      hide Registers;
      if w in Genesis(p, s, wallets, n - 1).book.valsArray {
        GenesisStuckIff(p, s, wallets, n - 1, w);
      }
    }
  }

  /** So their stakes never come back, whatever happens afterwards. */
  lemma GenesisStakeStays(
      p: Primitives, s: Ledger, wallets: seq<GenesisWallet>, w: Wallet, world: World, run: seq<Action>)
    requires w !in s.book.valsArray && w in Genesis(p, s, wallets, |wallets|).book.valsArray
    requires p.address([], 1) != w && world.book == Genesis(p, s, wallets, |wallets|).book
    ensures w in Run(p, world, run).book.valsArray && w in Stuck(p, Run(p, world, run).book)
  {
    GenesisStuckIff(p, s, wallets, |wallets|, w);
    StuckNeverChanges(p, world, run);
  }

  // ----- Wealth -----

  ghost function ChainWealth(w: World): map<U32, nat> {
    map s | s in w.chains :: Circulating(w.chains[s].balances)
  }

  ghost function Wealth(w: World): nat {
    Sum(ChainWealth(w)) + Staked(w.book)
  }

  /** Gas, and what went to the staking account without a registration. */
  function ImportLeak(b: BlockImport, n: nat): nat
    requires n <= |b.txs|
  {
    if n == 0 then 0 else
      ImportLeak(b, n - 1) + if b.Effect(n - 1) != Applied then 0 else
        b.txs[n - 1].gas + if b.txs[n - 1].recipient == POS && !Bonds(b, n - 1) then b.txs[n - 1].amount else 0
  }

  function Leak(p: Primitives, w: World, a: Action): nat {
    match a
    case ImportBlock(shard, block) =>
      if Imports(p, w, shard, block) then ImportLeak(Importing(p, w, shard, block), |block.transactions|) else 0
    case MoneyWithdraw(shard, wallet) =>
      if shard !in w.chains then 0 else
        var c := w.chains[shard];
        if RefundOf(p, w.book, c.balances, c.currentBlock, wallet) == NoAccount
        then w.book.valsWithdraw[wallet].amount else 0
    case _ => 0
  }

  function Leaks(p: Primitives, w: World, run: seq<Action>): nat {
    if run == [] then 0 else
      Leaks(p, w, run[..|run| - 1]) + Leak(p, Run(p, w, run[..|run| - 1]), run[|run| - 1])
  }

  /** What the senders of an imported block pay themselves: import lets them keep it and their gas. */
  function Gain(p: Primitives, w: World, a: Action): nat {
    if a.ImportBlock? && Imports(p, w, a.shard, a.block)
    then Importing(p, w, a.shard, a.block).SelfAmounts(|a.block.transactions|) else 0
  }

  function Gains(p: Primitives, w: World, run: seq<Action>): nat {
    if run == [] then 0 else
      Gains(p, w, run[..|run| - 1]) + Gain(p, Run(p, w, run[..|run| - 1]), run[|run| - 1])
  }

  /** No imported block holds a transaction whose amount + gas wraps. */
  ghost predicate Unwrapped(p: Primitives, w: World, a: Action) {
    a.ImportBlock? && Imports(p, w, a.shard, a.block) ==>
      Importing(p, w, a.shard, a.block).NoneWraps(|a.block.transactions|)
  }

  ghost predicate UnwrappedRun(p: Primitives, w: World, run: seq<Action>) {
    run == [] || (UnwrappedRun(p, w, run[..|run| - 1]) && Unwrapped(p, Run(p, w, run[..|run| - 1]), run[|run| - 1]))
  }

  lemma {:induction false} ImportWealth(b: BlockImport, n: nat)
    requires n <= |b.txs| && b.Accepted() && b.NoneWraps(n)
    requires Circulating(b.opening.balances) + b.SelfAmounts(n) < TWO_TO_THE_64
    ensures Circulating(b.After(n).balances) + Staked(b.After(n).book) + ImportLeak(b, n)
            == Circulating(b.opening.balances) + Staked(b.opening.book) + b.SelfAmounts(n)
  {
    if n == 0 {
    } else {
      assert b.NoneWraps(n - 1);
      ImportWealth(b, n - 1);
      ImportFollowsReplay(b, n);
      AcceptedSelfPaid(b, n);
      AcceptedSelfPaid(b, n - 1);
      StepWealth(b, n);
    }
  }

  lemma StepWealth(b: BlockImport, n: nat)
    requires 0 < n <= |b.txs| && ImportStepIsSafe(b, n - 1)
    ensures Circulating(b.After(n).balances) + Staked(b.After(n).book) + ImportLeak(b, n) + b.SelfPaid(n - 1)
            == Circulating(b.After(n - 1).balances) + Staked(b.After(n - 1).book) + ImportLeak(b, n - 1) + b.SelfPaid(n)
  {
    hide Transfer, StepIsExact;
    var t := b.txs[n - 1];
    AddedStakes(b.p, b.After(n - 1).book, Sender(b.p, t), Int64(b.at), t.pubSchnorrKey, t);
  }

  lemma ChainWealthUpdate(w: World, shard: U32, c: Chain)
    requires shard in w.chains
    ensures Sum(ChainWealth(w.(chains := w.chains[shard := c])))
            == Sum(ChainWealth(w)) - Circulating(w.chains[shard].balances) + Circulating(c.balances)
    ensures Circulating(w.chains[shard].balances) <= Sum(ChainWealth(w))
  {
    SumUpdate(ChainWealth(w), shard, Circulating(c.balances));
    SumAtLeast(ChainWealth(w), shard);
    assert ChainWealth(w.(chains := w.chains[shard := c])) == ChainWealth(w)[shard := Circulating(c.balances)];
  }

  lemma RefundWealth(p: Primitives, b: Book, balances: Balances, currentBlock: U64, wallet: Wallet)
    requires Consistent(b) && Circulating(balances) + Staked(b) < TWO_TO_THE_64
    ensures Circulating(BalancesAfterRefund(p, b, balances, currentBlock, wallet))
            + Staked(BookAfterRefund(p, b, balances, currentBlock, wallet))
            == Circulating(balances) + Staked(b)
               - if RefundOf(p, b, balances, currentBlock, wallet) == NoAccount
                 then b.valsWithdraw[wallet].amount else 0
  {
    var refund := RefundOf(p, b, balances, currentBlock, wallet);
    if refund in {Paid, NoAccount} {
      RemovedStakes(b, wallet);
      if refund == Paid {
        assert p.address(b.valsWithdraw[wallet].sender, 1) != POS;
        CirculatingUpdate(balances, wallet, Wrap64(balances[wallet] + b.valsWithdraw[wallet].amount));
      }
    }
  }

  lemma ActWealth(p: Primitives, w: World, a: Action)
    requires Consistent(w.book) && Wealth(w) + Gain(p, w, a) < TWO_TO_THE_64 && Unwrapped(p, w, a)
    ensures Wealth(Act(p, w, a)) == Wealth(w) - Leak(p, w, a) + Gain(p, w, a)
  {
    hide BlockImport.After, BalancesAfterRefund, BookAfterRefund, RefundOf, Circulating;
    var w' := Act(p, w, a);
    match a
    case ImportBlock(shard, block) =>
      if Imports(p, w, shard, block) {
        var b := Importing(p, w, shard, block);
        ChainWealthUpdate(w, shard, w'.chains[shard]);
        ImportWealth(b, |b.txs|);
        assert ChainWealth(w') == ChainWealth(w.(chains := w.chains[shard := w'.chains[shard]]));
      }
    case MoneyWithdraw(shard, wallet) =>
      if shard in w.chains {
        var c := w.chains[shard];
        ChainWealthUpdate(w, shard, w'.chains[shard]);
        RefundWealth(p, w.book, c.balances, c.currentBlock, wallet);
        assert ChainWealth(w') == ChainWealth(w.(chains := w.chains[shard := w'.chains[shard]]));
      }
    case _ =>
      QuietAct(p, w, a);
  }

  /**
    * Over every run the money outside the staking account plus the registered stakes falls by exactly
    * what leaks (gas, stakes sent without a registration, stakes withdrawn to a wallet with no account)
    * and rises by exactly what senders pay themselves; so it never grows where nobody does.
    */
  lemma {:induction false} WealthAccounts(p: Primitives, w: World, run: seq<Action>)
    requires Consistent(w.book) && UnwrappedRun(p, w, run) && Wealth(w) + Gains(p, w, run) < TWO_TO_THE_64
    ensures Wealth(Run(p, w, run)) == Wealth(w) - Leaks(p, w, run) + Gains(p, w, run)
  {
    if run == [] {
    } else {
      var before := run[..|run| - 1];
      WealthAccounts(p, w, before);
      EveryBondSettlesOnce(p, w, before);
      ActWealth(p, Run(p, w, before), run[|run| - 1]);
    }
  }

  ghost predicate NobodyPaysItself(p: Primitives, w: World, a: Action) {
    a.ImportBlock? && Imports(p, w, a.shard, a.block) ==>
      Importing(p, w, a.shard, a.block).SelfNeutral(|a.block.transactions|)
  }

  ghost predicate SelfNeutralRun(p: Primitives, w: World, run: seq<Action>) {
    run == []
    || (SelfNeutralRun(p, w, run[..|run| - 1]) && NobodyPaysItself(p, Run(p, w, run[..|run| - 1]), run[|run| - 1]))
  }

  lemma {:induction false} NoGainsIff(p: Primitives, w: World, run: seq<Action>)
    ensures Gains(p, w, run) == 0 <==> SelfNeutralRun(p, w, run)
  {
    if run == [] {
    } else {
      NoGainsIff(p, w, run[..|run| - 1]);
      var w', a := Run(p, w, run[..|run| - 1]), run[|run| - 1];
      if a.ImportBlock? && Imports(p, w', a.shard, a.block) {
        NoSelfAmountsIff(Importing(p, w', a.shard, a.block), |a.block.transactions|);
      }
    }
  }

  /** Wealth falls by exactly its leaks if and only if no imported block holds a payment to its own sender. */
  lemma WealthOnlyLeaksIff(p: Primitives, w: World, run: seq<Action>)
    requires Consistent(w.book) && UnwrappedRun(p, w, run) && Wealth(w) + Gains(p, w, run) < TWO_TO_THE_64
    ensures Wealth(Run(p, w, run)) == Wealth(w) - Leaks(p, w, run) <==> SelfNeutralRun(p, w, run)
  {
    WealthAccounts(p, w, run);
    NoGainsIff(p, w, run);
  }

  // ----- No transaction is applied by two blocks -----

  lemma {:induction false} AppliedIsIncluded(b: BlockImport, n: nat, i: nat)
    requires i < n <= |b.txs| && b.Effect(i) == Applied
    ensures IsIncluded(b.p, b.After(n).db, b.txs[i])
    ensures b.After(n).db[Key(b.p, b.txs[i])] == Included(b.index)
  {
    if i < n - 1 {
      AppliedIsIncluded(b, n - 1, i);
    }
  }

  lemma {:induction false} ImportKeepsIncluded(b: BlockImport, n: nat, t: Transaction)
    requires n <= |b.txs| && IsIncluded(b.p, b.opening.db, t)
    ensures IsIncluded(b.p, b.After(n).db, t)
  {
    if n == 0 {
    } else {
      ImportKeepsIncluded(b, n - 1, t);
    }
  }

  ghost predicate IncludedOn(p: Primitives, w: World, shard: U32, t: Transaction) {
    shard in w.chains && IsIncluded(p, w.chains[shard].db, t)
  }

  lemma {:induction false} IncludedForever(p: Primitives, w: World, run: seq<Action>, shard: U32, t: Transaction)
    requires IncludedOn(p, w, shard, t)
    ensures IncludedOn(p, Run(p, w, run), shard, t)
  {
    if run == [] {
    } else {
      var before := run[..|run| - 1];
      IncludedForever(p, w, before, shard, t);
      var a := run[|run| - 1];
      if a.ImportBlock? && a.shard == shard && Imports(p, Run(p, w, before), shard, a.block) {
        ImportKeepsIncluded(Importing(p, Run(p, w, before), shard, a.block), |a.block.transactions|, t);
      }
    }
  }

  /** Once a block has applied a transaction on a chain, that chain never imports a block with it again. */
  lemma NeverInTwoBlocks(
      p: Primitives, w: World, shard: U32, block: Block, i: nat, run: seq<Action>, later: Block)
    requires Imports(p, w, shard, block) && i < |block.transactions|
    requires Importing(p, w, shard, block).Effect(i) == Applied
    requires block.transactions[i] in later.transactions
    ensures !Imports(p, Run(p, Act(p, w, ImportBlock(shard, block)), run), shard, later)
  {
    var t := block.transactions[i];
    AppliedIsIncluded(Importing(p, w, shard, block), |block.transactions|, i);
    var w1 := Act(p, w, ImportBlock(shard, block));
    IncludedForever(p, w1, run, shard, t);
    var w2 := Run(p, w1, run);
    var c := w2.chains[shard];
    ReplayIffPayable(p, c.db, c.balances, later.transactions, |later.transactions|);
    var k :| 0 <= k < |later.transactions| && later.transactions[k] == t;
    assert !Admissible(p, c.db, c.balances, later.transactions[k]);
  }

  /** Inside one block nothing stops a repeat: validation passes and the transfer happens twice. */
  lemma RepeatedInOneBlock(p: Primitives, s: Ledger, t: Transaction, other: Wallet)
    requires p.signatureValid(t) && s.db == map[] && s.balances == map[Sender(p, t) := 100, other := 0]
    requires t.recipient == other && other !in {Sender(p, t), POS} && t.amount == 40 && t.gas == 1
    ensures var b := BlockImport(p, s, [t, t], 1, 1);
            b.Accepted() && b.After(2).balances == map[Sender(p, t) := 18, other := 80]
  {
    var b := BlockImport(p, s, [t, t], 1, 1);
    assert b.Replayed(0) == Passed(s.balances);
    assert b.Replayed(1) == Passed(map[Sender(p, t) := 59, other := 0]);
    assert b.After(0) == s;
    assert b.After(1).balances == map[Sender(p, t) := 59, other := 40];
  }

  // ----- What a run leaves of a validator, of the clock and of the mempool -----

  /** The end of dynasty the last Withdraw of a run gives the wallet; the one it had if there is none. */
  function LastEnd(run: seq<Action>, wallet: Wallet, end: int): int {
    if run == [] then end else
      var a := run[|run| - 1];
      if a.Withdraw? && a.wallet == wallet then a.currentBlock else LastEnd(run[..|run| - 1], wallet, end)
  }

  function LastShard(run: seq<Action>, wallet: Wallet, shard: U32): U32 {
    if run == [] then shard else
      var a := run[|run| - 1];
      if a.SetShard? && a.wallet == wallet then a.to else LastShard(run[..|run| - 1], wallet, shard)
  }

  lemma {:induction false} ImportKeepsEntry(b: BlockImport, n: nat, wallet: Wallet)
    requires n <= |b.txs| && wallet in b.opening.book.valsArray
    ensures var before, after := b.opening.book, b.After(n).book;
            && wallet in after.valsArray && after.valsArray[wallet] == before.valsArray[wallet]
            && (wallet in before.valsWithdraw ==>
                  wallet in after.valsWithdraw && after.valsWithdraw[wallet] == before.valsWithdraw[wallet])
  {
    hide Registers, Transfer;
    if n != 0 {
      ImportKeepsEntry(b, n - 1, wallet);
    }
  }

  /**
    * Until its money is withdrawn a validator stays in the book with the stake, the key and the recorded
    * transaction it came with, whatever is imported; its end is the last it asked for, its shard the last
    * it was given.
    */
  lemma {:induction false} ValidatorOverRun(p: Primitives, w: World, run: seq<Action>, wallet: Wallet)
    requires wallet in w.book.valsArray
    requires forall a :: a in run ==> !(a.MoneyWithdraw? && a.wallet == wallet)
    ensures var v, after := w.book.valsArray[wallet], Run(p, w, run).book;
            && wallet in after.valsArray
            && after.valsArray[wallet]
               == v.(endDynasty := LastEnd(run, wallet, v.endDynasty), shard := LastShard(run, wallet, v.shard))
            && (wallet in w.book.valsWithdraw ==>
                  wallet in after.valsWithdraw && after.valsWithdraw[wallet] == w.book.valsWithdraw[wallet])
  {
    if run != [] {
      var before, a := run[..|run| - 1], run[|run| - 1];
      assert a in run;
      ValidatorOverRun(p, w, before, wallet);
      var w' := Run(p, w, before);
      hide Run, RefundOf;
      if a.ImportBlock? && Imports(p, w', a.shard, a.block) {
        ImportKeepsEntry(Importing(p, w', a.shard, a.block), |a.block.transactions|, wallet);
      }
    }
  }

  /** How many blocks a run moves a shard's clock on by. */
  function Ticks(run: seq<Action>, shard: U32): nat {
    if run == [] then 0 else Ticks(run[..|run| - 1], shard) + if run[|run| - 1] == NextBlock(shard) then 1 else 0
  }

  /** A run opens and closes no chain, and each chain's current block is moved on by its own ticks only. */
  lemma {:induction false} ClockOverRun(p: Primitives, w: World, run: seq<Action>, shard: U32)
    ensures shard in Run(p, w, run).chains <==> shard in w.chains
    ensures shard in w.chains ==>
              Run(p, w, run).chains[shard].currentBlock
              == (w.chains[shard].currentBlock + Ticks(run, shard)) % TWO_TO_THE_64
  {
    if run != [] {
      ClockOverRun(p, w, run[..|run| - 1], shard);
      hide Run, RefundOf;
    }
  }

  lemma {:induction false} ImportKeepsStored(b: BlockImport, n: nat, k: Bytes)
    requires n <= |b.txs|
    ensures k in b.opening.db ==> k in b.After(n).db
    ensures k in b.After(n).db && b.After(n).db[k].Stored? ==>
              k in b.opening.db && b.opening.db[k] == b.After(n).db[k]
  {
    if n != 0 {
      ImportKeepsStored(b, n - 1, k);
    }
  }

  lemma ActKeepsStored(p: Primitives, w: World, a: Action, shard: U32, k: Bytes)
    requires shard in w.chains
    ensures shard in Act(p, w, a).chains
    ensures var before, after := w.chains[shard].db, Act(p, w, a).chains[shard].db;
            && (k in before ==> k in after)
            && (a.AddMempoolTransaction? && a.shard == shard && p.hash(a.raw) == k ==> k in after)
            && (k in after && after[k].Stored? ==>
                  || (k in before && before[k] == after[k])
                  || (a == AddMempoolTransaction(shard, after[k].raw) && p.hash(after[k].raw) == k && k !in before))
  {
    hide RefundOf;
    if a.ImportBlock? && a.shard == shard && Imports(p, w, shard, a.block) {
      ImportKeepsStored(Importing(p, w, shard, a.block), |a.block.transactions|, k);
    }
  }

  /**
    * What is filed stays filed, every submitted transaction is, and bytes are filed only under their own hash
    * and only if they were there or have been submitted to this shard.
    */
  lemma {:induction false} FilesOverRun(p: Primitives, w: World, run: seq<Action>, shard: U32, k: Bytes)
    requires shard in w.chains
    ensures shard in Run(p, w, run).chains
    ensures var before, after := w.chains[shard].db, Run(p, w, run).chains[shard].db;
            && (k in before ==> k in after)
            && (forall raw :: AddMempoolTransaction(shard, raw) in run && p.hash(raw) == k ==> k in after)
            && (k in after && after[k].Stored? ==>
                  || (k in before && before[k] == after[k])
                  || (AddMempoolTransaction(shard, after[k].raw) in run && p.hash(after[k].raw) == k && k !in before))
  {
    if run != [] {
      var before, a := run[..|run| - 1], run[|run| - 1];
      FilesOverRun(p, w, before, shard, k);
      ActKeepsStored(p, Run(p, w, before), a, shard, k);
      hide Act;
      assert run == before + [a];
    }
  }
}
