/**
  * The node's mutable state: the validator book and a shard's chain, with the methods of package
  * blockchain that change them, and ImportBlock of package networking. Go maps and databases are map
  * fields. Each method is proved against the functions of the other modules.
  */
module Chain {
  import opened Book
  import opened Choice
  import opened Import
  import opened Overflow
  import opened Pool
  import opened Processing
  import opened Staking
  import opened Transactions
  import opened Wrappers

  lemma Overlay(b: Balances, tainted: Balances, w: Wallet, x: U64)
    ensures (b + tainted)[w := x] == b + tainted[w := x]
  {
  }

  class Blockchain {
    var balancesDb: Balances
    var blockDb: map<Bytes, Entry>
    var currentBlock: U64
    var genesisTimestamp: U64
    // the mempool and the block queue, in the order they pop
    var mempool: seq<Bytes>
    var priorityBlocks: seq<Bytes>
    const maxBlockBytes: nat

    constructor (index: U64)
      ensures balancesDb == map[] && blockDb == map[] && currentBlock == index && genesisTimestamp == 0
      ensures mempool == [] && priorityBlocks == [] && maxBlockBytes == 1000000
    {
      balancesDb, blockDb, currentBlock, genesisTimestamp := map[], map[], index, 0;
      mempool, priorityBlocks, maxBlockBytes := [], [], 1000000;
    }

    method GetWalletState(wallet: Wallet) returns (state: Option<U64>)
      ensures state == if wallet in balancesDb then Some(balancesDb[wallet]) else None
    {
      state := if wallet in balancesDb then Some(balancesDb[wallet]) else None;
    }

    method SetState(wallet: Wallet, balance: U64)
      modifies `balancesDb
      ensures balancesDb == old(balancesDb)[wallet := balance]
    {
      balancesDb := balancesDb[wallet := balance];
    }

    /** None accepts; otherwise the first reason to reject, and where. */
    method ValidateBlock(p: Primitives, block: Block) returns (error: Option<Outcome>)
      ensures error == Validation(p, blockDb, balancesDb, block)
    {
      var isTainted: map<Wallet, bool> := map[];
      var taintedState: Balances := map[];
      if block.index == 0 {
        return None;
      }
      var txs := block.transactions;
      ghost var view := balancesDb;
      for i := 0 to |txs|
        invariant isTainted.Keys == taintedState.Keys <= balancesDb.Keys
        invariant view == balancesDb + taintedState && Replay(p, blockDb, balancesDb, txs, i) == Passed(view)
      {
        var t := txs[i];
        var sender := Sender(p, t);
        ReplayNext(p, blockDb, balancesDb, txs, i);
        hide Replay;
        if !p.signatureValid(t) {
          return Some(Failed(BadSignature, i));
        }
        var balance: U64;
        if sender !in isTainted {
          var state := GetWalletState(sender);
          if state.None? {
            return Some(Failed(UnknownSender, i));
          }
          balance := state.value;
        } else {
          balance := taintedState[sender];
        }
        var (requiredBal, ok) := AddU64O(t.amount, t.gas);
        if requiredBal > balance && ok {
          return Some(Failed(InsufficientBalance, i));
        }
        if IsIncluded(p, blockDb, t) {
          return Some(Failed(AlreadyIncluded, i));
        }
        isTainted := isTainted[sender := true];
        var (newBal, ok2) := SubU64O(balance, requiredBal);
        if !ok2 {
          return Some(Failed(BalanceUnderflow, i));
        }
        Overlay(balancesDb, taintedState, sender, newBal);
        taintedState := taintedState[sender := newBal];
        view := view[sender := newBal];
      }
      var merkleRoot := p.merkleRoot(txs, block.receiptsContracts);
      if merkleRoot.None? {
        return Some(Failed(NoMerkleRoot, |txs|));
      }
      if merkleRoot.value != block.merkleRootReceipt {
        return Some(Failed(WrongMerkleRoot, |txs|));
      }
      return None;
    }

    /**
      * valid stands for ValidateTransaction. The transaction has been decoded from the bytes it came in,
      * and is filed under their hash.
      */
    method AddMempoolTransaction(p: Primitives, valid: Transaction -> bool, pb: Transaction, transaction: Bytes)
        returns (added: bool)
      requires pb == p.decode(transaction)
      modifies `blockDb, `mempool
      ensures added == (valid(p.decode(transaction)) && p.hash(transaction) !in old(blockDb))
      ensures blockDb == if added then old(blockDb)[p.hash(transaction) := Stored(transaction)] else old(blockDb)
      ensures multiset(mempool)
           == multiset(old(mempool)) + if added then multiset{p.hash(transaction)} else multiset{}
      ensures old(Filed(p, blockDb)) ==> Filed(p, blockDb)
    {
      if !valid(pb) {
        return false;
      }
      var dbKey := p.hash(transaction);
      if dbKey in blockDb {
        return false;
      }
      blockDb := blockDb[dbKey := Stored(transaction)];
      mempool := mempool + [dbKey];
      return true;
    }

    ghost function SourceFor(p: Primitives, book: Book, miner: Wallet, valid: Transaction -> bool): Source
      reads this
    {
      Source(p, blockDb, balancesDb, book, miner, valid, maxBlockBytes)
    }

    /** One turn of GenerateBlock's loop, up to its last `continue`: what is taken, and its sender's new balance. */
    method Candidate(
        p: Primitives, validators: ValidatorsBook, miner: Wallet, valid: Transaction -> bool,
        isTainted: map<Wallet, bool>, taintedState: Balances, txKey: Bytes, ghost d: Draft)
        returns (taken: Option<(Transaction, U64)>)
      requires isTainted.Keys == taintedState.Keys <= balancesDb.Keys && d.view == balancesDb + taintedState
      ensures taken.None? ==> Consider(SourceFor(p, validators.View(), miner, valid), d, txKey) == d
      ensures taken.Some? ==>
                var (t, newBal) := taken.value;
                && Sender(p, t) in balancesDb
                && Consider(SourceFor(p, validators.View(), miner, valid), d, txKey)
                   == Draft(d.chosen + [t], d.view[Sender(p, t) := newBal], d.len + |p.marshal(t)|)
    {
      if txKey !in blockDb {
        return None;
      }
      var rtx := Decoded(p, blockDb[txKey]);
      if !valid(rtx) {
        return None;
      }
      var senderWallet := Sender(p, rtx);
      var shardSender := validators.GetShard(senderWallet);
      var currentShard := validators.GetShard(miner);
      if shardSender.None? || currentShard.None? || shardSender != currentShard {
        return None;
      }
      var balance: U64;
      if senderWallet !in isTainted {
        var state := GetWalletState(senderWallet);
        if state.None? {
          return None;
        }
        balance := state.value;
      } else {
        balance := taintedState[senderWallet];
      }
      var (requiredBal, ok) := AddU64O(rtx.amount, rtx.gas);
      if requiredBal > balance && ok {
        return None;
      }
      var (newBal, ok2) := SubU64O(balance, requiredBal);
      if !ok2 {
        return None;
      }
      return Some((rtx, newBal));
    }

    /** GenerateBlock's loop. */
    method SelectTransactions(
        p: Primitives, validators: ValidatorsBook, miner: Wallet, valid: Transaction -> bool, header: nat)
        returns (transactions: seq<Transaction>, ghost draft: Draft)
      modifies `mempool
      ensures transactions == draft.chosen
      ensures (draft, mempool)
           == Fill(SourceFor(p, validators.View(), miner, valid), Draft([], balancesDb, header), old(mempool))
    {
      hide Consider, Fill, Sender;
      ghost var c := SourceFor(p, validators.View(), miner, valid);
      draft := Draft([], balancesDb, header);
      transactions := [];
      var currentLen: nat := header;
      var isTainted: map<Wallet, bool> := map[];
      var taintedState: Balances := map[];
      assert balancesDb + taintedState == balancesDb;
      ghost var result := Fill(c, draft, mempool);
      while currentLen < maxBlockBytes && mempool != []
        invariant isTainted.Keys == taintedState.Keys <= balancesDb.Keys
        invariant draft == Draft(transactions, balancesDb + taintedState, currentLen)
        invariant Fill(c, draft, mempool) == result
        decreases |mempool|
      {
        FillNext(c, draft, mempool);
        var txKey := mempool[0];
        mempool := mempool[1..];
        var taken := Candidate(p, validators, miner, valid, isTainted, taintedState, txKey, draft);
        draft := Consider(c, draft, txKey);
        if taken.None? {
          continue;
        }
        var (rtx, newBal) := taken.value;
        Overlay(balancesDb, taintedState, Sender(p, rtx), newBal);
        isTainted := isTainted[Sender(p, rtx) := true];
        taintedState := taintedState[Sender(p, rtx) := newBal];
        transactions := transactions + [rtx];
        currentLen := currentLen + |p.marshal(rtx)|;
      }
      FillStops(c, draft, mempool);
    }

    /** The block before it is filled: what its length is measured on. */
    function Header(timestamp: U64, miner: Wallet, prevHash: Bytes, shard: U32): Block
      reads this
    {
      Block(currentBlock, timestamp, miner, prevHash, shard, [], [], [])
    }

    /** None: there is no block to build on, or no Merkle root. */
    method GenerateBlock(
        p: Primitives, validators: ValidatorsBook, miner: Wallet, shard: U32, timestamp: U64,
        valid: Transaction -> bool)
        returns (block: Option<Block>, ghost draft: Draft)
      modifies `mempool, `priorityBlocks
      ensures old(priorityBlocks) == [] ==> block == None && priorityBlocks == [] && mempool == old(mempool)
      ensures old(priorityBlocks) != [] ==>
                var header := Header(timestamp, miner, old(priorityBlocks)[0], shard);
                && (draft, mempool)
                   == Fill(SourceFor(p, validators.View(), miner, valid),
                           Draft([], balancesDb, p.headerSize(header)), old(mempool))
                && priorityBlocks == old(priorityBlocks)[1..]
                && (block == None <==> RootOf(p, draft.chosen).None?)
                && (block.Some? ==>
                      && Holds(p, block.value, draft.chosen)
                      && block.value.index == currentBlock && block.value.prevHash == old(priorityBlocks)[0]
                      && block.value.miner == miner && block.value.shard == shard && block.value.timestamp == timestamp
                      && block.value.(transactions := [], merkleRootReceipt := []) == header)
    {
      block, draft := None, Draft([], balancesDb, 0);
      if priorityBlocks == [] {
        return;
      }
      hide Fill, Consider;
      var hash := priorityBlocks[0];
      priorityBlocks := priorityBlocks[1..];
      var header := Block(currentBlock, timestamp, miner, hash, shard, [], [], []);
      var transactions: seq<Transaction>;
      transactions, draft := SelectTransactions(p, validators, miner, valid, p.headerSize(header));
      var merkleRootReceipt := [];
      if |transactions| != 0 {
        var root := p.merkleRoot(transactions, []);
        if root.None? {
          return;
        }
        merkleRootReceipt := root.value;
      }
      block := Some(header.(transactions := transactions, merkleRootReceipt := merkleRootReceipt));
    }
  }

  class ValidatorsBook {
    var valsWithdraw: map<Wallet, Transaction>
    var valsArray: map<Wallet, Validator>

    ghost function View(): Book
      reads this
    {
      Book(valsArray, valsWithdraw)
    }

    constructor ()
      ensures View() == Book(map[], map[]) && Consistent(View())
    {
      valsWithdraw, valsArray := map[], map[];
    }

    method CheckIsValidator(wallet: Wallet) returns (known: bool)
      ensures known == (wallet in valsArray)
    {
      known := wallet in valsArray;
    }

    method GetShard(wallet: Wallet) returns (shard: Option<U32>)
      ensures shard == if wallet in valsArray then Some(valsArray[wallet].shard) else None
    {
      shard := if wallet in valsArray then Some(valsArray[wallet].shard) else None;
    }

    /** Returns whether the wallet was a validator already; the shard argument is not used. */
    method AddValidator(
        p: Primitives, wallet: Wallet, dynasty: int, pubSchnorrKey: Bytes, t: Transaction, shard: U32)
        returns (exist: bool)
      modifies this
      ensures exist == (wallet in old(valsArray))
      ensures exist ==> View() == old(View())
      ensures View() == Added(p, old(View()), wallet, dynasty, pubSchnorrKey, t)
    {
      if wallet in valsArray {
        return true;
      }
      if !p.isPoint(pubSchnorrKey) {
        return false;
      }
      if !p.isWalletValid(wallet) {
        return false;
      }
      var shardSender := p.shardOf(wallet);
      if shardSender.None? || shardSender.value != 1 {
        return false;
      }
      valsArray := valsArray[wallet := Validator(wallet, dynasty, -1, t.amount, 1, pubSchnorrKey)];
      valsWithdraw := valsWithdraw[wallet := t];
      return false;
    }

    method RemoveValidator(wallet: Wallet) returns (found: bool)
      modifies this
      ensures found == (wallet in old(valsArray))
      ensures View() == Removed(old(View()), wallet)
    {
      found := wallet in valsArray;
      valsArray := valsArray - {wallet};
    }

    method WithdrawValidator(wallet: Wallet, currentBlock: int) returns (found: bool)
      modifies `valsArray
      ensures found == (wallet in old(valsArray))
      ensures valsArray == if !found then old(valsArray) else
                old(valsArray)[wallet := old(valsArray)[wallet].(endDynasty := currentBlock)]
    {
      if wallet !in valsArray {
        return false;
      }
      valsArray := valsArray[wallet := valsArray[wallet].(endDynasty := currentBlock)];
      return true;
    }

    method SetShard(wallet: Wallet, shard: U32) returns (found: bool)
      modifies `valsArray
      ensures found == (wallet in old(valsArray))
      ensures valsArray == if !found then old(valsArray) else
                old(valsArray)[wallet := old(valsArray)[wallet].(shard := shard)]
    {
      if wallet !in valsArray {
        return false;
      }
      valsArray := valsArray[wallet := valsArray[wallet].(shard := shard)];
      return true;
    }

    /** Removes the validator before it looks for the account to pay. */
    method CheckWithdraw(p: Primitives, wallet: Wallet, bc: Blockchain) returns (done: bool)
      modifies this, bc`balancesDb
      ensures done == (RefundOf(p, old(View()), old(bc.balancesDb), bc.currentBlock, wallet) in {Paid, NotDue})
      ensures View() == BookAfterRefund(p, old(View()), old(bc.balancesDb), bc.currentBlock, wallet)
      ensures bc.balancesDb == BalancesAfterRefund(p, old(View()), old(bc.balancesDb), bc.currentBlock, wallet)
    {
      if wallet !in valsWithdraw {
        return false;
      }
      var t := valsWithdraw[wallet];
      var known := CheckIsValidator(wallet);
      if !known {
        return false;
      }
      if Wrap64(valsArray[wallet].endDynasty + 2903040) > bc.currentBlock {
        if p.address(t.sender, 1) != wallet {
          return false;
        }
        var found := RemoveValidator(wallet);
        var walletState := bc.GetWalletState(wallet);
        if walletState.None? {
          return false;
        }
        bc.SetState(wallet, Wrap64(walletState.value + t.amount));
      }
      return true;
    }

    /** Go iterates over the map in an arbitrary order. */
    method LenValidators(currentShard: U32) returns (countValidator: nat)
      ensures countValidator == |ShardMembers(View(), currentShard)|
    {
      countValidator := 0;
      var rest := valsArray.Keys;
      ghost var counted: set<Wallet> := {};
      while rest != {}
        invariant rest <= valsArray.Keys
        invariant counted == (set w | w in valsArray && w !in rest && valsArray[w].shard == currentShard)
        invariant countValidator == |counted|
        decreases rest
      {
        var w :| w in rest;
        rest := rest - {w};
        if valsArray[w].shard == currentShard {
          countValidator := countValidator + 1;
          counted := counted + {w};
        }
      }
      assert counted == ShardMembers(View(), currentShard);
    }

    // ChooseValidator is one Go function; its three parts are three methods here.

    /** The wallets in sort.Strings order, collected by an iteration in arbitrary order. */
    method SortedWallets() returns (allWallet: seq<Wallet>)
      ensures Ascending(allWallet) && multiset(allWallet) == multiset(valsArray.Keys)
    {
      allWallet := [];
      var rest := valsArray.Keys;
      while rest != {}
        invariant rest <= valsArray.Keys
        invariant multiset(allWallet) == multiset(valsArray.Keys - rest)
        invariant forall i, j :: 0 <= i < j < |allWallet| ==> allWallet[i] != allWallet[j]
        invariant forall w :: w in allWallet ==> w !in rest
        decreases rest
      {
        var w :| w in rest;
        assert valsArray.Keys - (rest - {w}) == (valsArray.Keys - rest) + {w};
        allWallet := allWallet + [w];
        rest := rest - {w};
      }
      assert valsArray.Keys - rest == valsArray.Keys;
      SortAscending(allWallet);
      allWallet := SortStrings(allWallet);
    }

    method EligibleStakes(allWallet: seq<Wallet>, currentBlock: U64, currentShard: U32)
        returns (ss: seq<Stake>, totalstake: U64)
      requires forall w :: w in allWallet ==> w in valsArray
      ensures ss == Eligible(View(), allWallet, currentBlock, currentShard)
      ensures totalstake == Counter(ss, |ss|)
    {
      totalstake := 0;
      ss := [];
      for i := 0 to |allWallet|
        invariant ss == Eligible(View(), allWallet[..i], currentBlock, currentShard)
        invariant totalstake == Counter(ss, |ss|)
      {
        var w := allWallet[i];
        assert allWallet[..i + 1][..i] == allWallet[..i];
        var val := valsArray[w];
        var inDynasty := CheckDynastyOf(val.wallet, currentBlock);
        if !inDynasty || val.shard != currentShard {
          continue;
        }
        CounterExtends(ss, Stake(w, val.stake));
        ss := ss + [Stake(w, val.stake)];
        totalstake := Wrap64(totalstake + val.stake);
      }
      assert allWallet[..|allWallet|] == allWallet;
    }

    static method PickFrom(ret: seq<Stake>, level: real) returns (chosen: Option<Wallet>)
      ensures chosen == Pick(ret, level, 0)
    {
      var counter: U64 := 0;
      for i := 0 to |ret|
        invariant counter == Counter(ret, i)
        invariant Pick(ret, level, 0) == Pick(ret, level, i)
      {
        counter := Wrap64(counter + ret[i].stake);
        if counter as real >= level {
          return Some(ret[i].wallet);
        }
      }
      return None;
    }

    /**
      * The choice does not depend on the order in which the map is iterated: it is the one made from
      * the wallets in ascending order, of which there is one list. None is "not enough stake" or "could
      * not be chosen".
      */
    method ChooseValidator(rng: Rng, currentBlock: int, currentShard: U32) returns (chosen: Option<Wallet>)
      requires Fair(rng)
      ensures forall order :: Ascending(order) && multiset(order) == multiset(valsArray.Keys) ==>
                (forall w :: w in order ==> w in valsArray)
                && chosen == Chosen(rng, View(), order, currentBlock, currentShard)
    {
      var allWallet := SortedWallets();
      forall w | w in allWallet
        ensures w in valsArray
      {
        assert w in multiset(allWallet);
      }
      forall order | Ascending(order) && multiset(order) == multiset(valsArray.Keys)
        ensures order == allWallet
      {
        AscendingUnique(order, allWallet);
      }
      var ss, totalstake := EligibleStakes(allWallet, Wrap64(currentBlock), currentShard);
      if totalstake < 1 {
        return None;
      }
      PermInRange(rng, currentBlock, |ss|);
      var perm := rng.perm(currentBlock, |ss|);
      var ret := new Stake[|ss|](_ => Stake("", 0));
      for i := 0 to |perm|
        invariant forall k :: 0 <= k < i ==> ret[k] == ss[perm[k]]
      {
        ret[i] := ss[perm[i]];
      }
      assert ret[..] == Lineup(rng, View(), allWallet, currentBlock, currentShard);
      chosen := PickFrom(ret[..], Level(rng, currentBlock, totalstake));
    }

    method CheckDynastyOf(wallet: Wallet, currentBlock: U64) returns (ok: bool)
      ensures ok == CheckDynasty(View(), wallet, currentBlock)
    {
      if wallet in valsArray {
        var v := valsArray[wallet];
        return Int64(v.startDynasty + 200) < Int64(currentBlock)
          && (Int64(v.endDynasty + 200) > Int64(currentBlock) || v.endDynasty == -1);
      }
      return false;
    }
  }

  ghost function LedgerOf(bc: Blockchain, validators: ValidatorsBook): Ledger
    reads bc, validators
  {
    Ledger(bc.balancesDb, bc.blockDb, validators.View())
  }

  /** One turn of ImportBlock's loop; randomShard stands for Go's random draw. */
  method ImportTransaction(
      p: Primitives, bc: Blockchain, validators: ValidatorsBook, t: Transaction, index: U64, randomShard: U32)
    modifies bc`balancesDb, bc`blockDb, validators
    ensures LedgerOf(bc, validators) == Step(p, old(LedgerOf(bc, validators)), t, bc.currentBlock, index)
  {
    StepByParts(p, LedgerOf(bc, validators), t, bc.currentBlock, index);
    hide Step, Transfer, Added;
    var sender := Sender(p, t);
    var senderBalance := bc.GetWalletState(sender);
    if senderBalance.None? {
      return;
    }
    if t.recipient == "DexmPoS" {
      var exist := validators.AddValidator(p, sender, Int64(bc.currentBlock), t.pubSchnorrKey, t, randomShard);
      if exist {
        return;
      }
    }
    PayRecipient(p, bc, t, senderBalance.value, index);
  }

  /** The rest of the turn: both balances are read before either is written. */
  method PayRecipient(p: Primitives, bc: Blockchain, t: Transaction, senderBalance: U64, index: U64)
    requires Sender(p, t) in bc.balancesDb && senderBalance == bc.balancesDb[Sender(p, t)]
    modifies bc`balancesDb, bc`blockDb
    ensures bc.balancesDb == Transfer(old(bc.balancesDb), Sender(p, t), t)
    ensures bc.blockDb == old(bc.blockDb)[Key(p, t) := Included(index)]
  {
    TransferByParts(bc.balancesDb, Sender(p, t), t);
    hide Transfer, Wrap64;
    var reciverState := bc.GetWalletState(t.recipient);
    var reciverBalance: U64 := if reciverState.Some? then reciverState.value else 0;

    bc.SetState(Sender(p, t), Wrap64(senderBalance - Wrap64(t.amount + t.gas)));
    bc.SetState(t.recipient, Wrap64(reciverBalance + t.amount));

    bc.blockDb := bc.blockDb - {Key(p, t)};
    bc.blockDb := bc.blockDb[Key(p, t) := Included(index)];
  }

  /** The genesis branch: wallets stands for the wallet files it reads. */
  method ImportGenesis(
      p: Primitives, bc: Blockchain, validators: ValidatorsBook, block: Block, wallets: seq<GenesisWallet>)
    modifies bc`balancesDb, bc`genesisTimestamp, validators
    ensures LedgerOf(bc, validators) == Genesis(p, old(LedgerOf(bc, validators)), wallets, |wallets|)
    ensures bc.genesisTimestamp == block.timestamp
  {
    hide Added;
    var balance: U64 := 20000;
    for i := 0 to |wallets|
      invariant balance == Wrap64(20000 + i)
      invariant bc.blockDb == old(bc.blockDb)
      invariant LedgerOf(bc, validators) == Genesis(p, old(LedgerOf(bc, validators)), wallets, i)
    {
      balance := Wrap64(balance + 1);
      WrapNext(20000 + i);
      bc.SetState(wallets[i].address, balance);
      var exist := validators.AddValidator(
        p, wallets[i].address, -300, wallets[i].pubSchnorrKey, FAKE_TRANSACTION, (i + 1) % TWO_TO_THE_32);
    }
    bc.genesisTimestamp := block.timestamp;
  }

  lemma WrapNext(x: nat)
    ensures Wrap64(Wrap64(x) + 1) == Wrap64(x + 1)
  {
  }

  /** The loop over a block's transactions. */
  method ImportTransactions(
      p: Primitives, bc: Blockchain, validators: ValidatorsBook, block: Block, randomShard: nat -> U32)
    modifies bc`balancesDb, bc`blockDb, validators
    ensures LedgerOf(bc, validators)
         == BlockImport(p, old(LedgerOf(bc, validators)), block.transactions, bc.currentBlock, block.index)
            .After(|block.transactions|)
  {
    hide Step;
    var txs := block.transactions;
    ghost var b := BlockImport(p, LedgerOf(bc, validators), txs, bc.currentBlock, block.index);
    for i := 0 to |txs|
      invariant LedgerOf(bc, validators) == b.After(i)
    {
      assert b.After(i + 1) == Step(p, b.After(i), txs[i], b.at, b.index);
      ImportTransaction(p, bc, validators, txs[i], block.index, randomShard(i));
    }
  }

  method ImportBlock(
      p: Primitives, bc: Blockchain, validators: ValidatorsBook, block: Block, randomShard: nat -> U32,
      wallets: seq<GenesisWallet>)
      returns (error: Option<Outcome>)
    modifies bc`balancesDb, bc`blockDb, bc`genesisTimestamp, validators
    ensures error == old(Validation(p, bc.blockDb, bc.balancesDb, block))
    ensures error.Some? ==> LedgerOf(bc, validators) == old(LedgerOf(bc, validators))
    ensures block.index == 0 ==>
              error == None && bc.genesisTimestamp == block.timestamp
              && LedgerOf(bc, validators) == Genesis(p, old(LedgerOf(bc, validators)), wallets, |wallets|)
    ensures block.index != 0 ==> bc.genesisTimestamp == old(bc.genesisTimestamp)
    ensures error.None? && block.index != 0 ==>
              LedgerOf(bc, validators)
              == BlockImport(p, old(LedgerOf(bc, validators)), block.transactions, bc.currentBlock, block.index)
                 .After(|block.transactions|)
  {
    error := bc.ValidateBlock(p, block);
    assert block.index == 0 ==> error == None;
    hide Validation, BlockImport.After, Genesis;
    if error.Some? {
      return;
    }
    if block.index == 0 {
      ImportGenesis(p, bc, validators, block, wallets);
      return;
    }
    ImportTransactions(p, bc, validators, block, randomShard);
  }
}
