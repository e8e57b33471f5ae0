/** The validator book (blockchain/validators.go) as a value, and its lookups. */
module Book {
  import opened MapSums
  import opened Overflow
  import opened Transactions
  import opened Wrappers

  datatype Validator = Validator(
    wallet: Wallet, startDynasty: int, endDynasty: int, stake: U64, shard: U32, schnorrPublicKey: Bytes)

  datatype Book = Book(valsArray: map<Wallet, Validator>, valsWithdraw: map<Wallet, Transaction>)

  /** AddValidator's checks on a wallet that is not in the book yet. */
  predicate Registers(p: Primitives, wallet: Wallet, pubSchnorrKey: Bytes) {
    p.isPoint(pubSchnorrKey) && p.isWalletValid(wallet) && p.shardOf(wallet) == Some(1)
  }

  /** AddValidator: a wallet already in the book keeps its first registration. */
  function Added(p: Primitives, b: Book, wallet: Wallet, dynasty: int, pubSchnorrKey: Bytes, t: Transaction): Book {
    if wallet !in b.valsArray && Registers(p, wallet, pubSchnorrKey) then
      Book(b.valsArray[wallet := Validator(wallet, dynasty, -1, t.amount, 1, pubSchnorrKey)],
           b.valsWithdraw[wallet := t])
    else b
  }

  function Removed(b: Book, wallet: Wallet): Book {
    b.(valsArray := b.valsArray - {wallet})
  }

  /** Each entry sits under its own wallet, and its stake is the amount of its recorded transaction. */
  ghost predicate Consistent(b: Book) {
    forall w :: w in b.valsArray ==>
      && b.valsArray[w].wallet == w
      && w in b.valsWithdraw
      && b.valsArray[w].stake == b.valsWithdraw[w].amount
  }

  /** The wallet CheckWithdraw derives from the recorded transaction is the validator's own. */
  ghost predicate Reclaimable(p: Primitives, b: Book, w: Wallet) {
    w in b.valsWithdraw && p.address(b.valsWithdraw[w].sender, 1) == w
  }

  ghost function Stakes(b: Book): map<Wallet, nat> {
    map w | w in b.valsArray :: b.valsArray[w].stake as nat
  }

  ghost function Staked(b: Book): nat {
    Sum(Stakes(b))
  }

  predicate InDynasty(v: Validator, currentBlock: U64) {
    && Int64(v.startDynasty + 200) < Int64(currentBlock)
    && (Int64(v.endDynasty + 200) > Int64(currentBlock) || v.endDynasty == -1)
  }

  predicate CheckDynasty(b: Book, wallet: Wallet, currentBlock: U64) {
    wallet in b.valsArray && InDynasty(b.valsArray[wallet], currentBlock)
  }

  ghost function ShardMembers(b: Book, shard: U32): set<Wallet> {
    set w | w in b.valsArray && b.valsArray[w].shard == shard
  }

  lemma AddedStakes(p: Primitives, b: Book, wallet: Wallet, dynasty: int, key: Bytes, t: Transaction)
    ensures var joins := wallet !in b.valsArray && Registers(p, wallet, key);
            && Stakes(Added(p, b, wallet, dynasty, key, t))
               == (if joins then Stakes(b)[wallet := t.amount] else Stakes(b))
            && Staked(Added(p, b, wallet, dynasty, key, t)) == Staked(b) + if joins then t.amount else 0
    ensures Consistent(b) ==> Consistent(Added(p, b, wallet, dynasty, key, t))
  {
    SumUpdate(Stakes(b), wallet, t.amount);
  }

  lemma RemovedStakes(b: Book, wallet: Wallet)
    requires wallet in b.valsArray
    ensures Stakes(Removed(b, wallet)) == Stakes(b) - {wallet}
    ensures Staked(Removed(b, wallet)) == Staked(b) - b.valsArray[wallet].stake
    ensures Consistent(b) ==> Consistent(Removed(b, wallet))
  {
    assert Stakes(Removed(b, wallet)) == Stakes(b) - {wallet};
    SumSplit(Stakes(b), wallet);
  }

  /**
    * A wallet derived from a key registers only when the key's shard is 1 modulo 256; then the check
    * CheckWithdraw makes, which derives the wallet again for shard 1, always succeeds.
    */
  lemma RegisteredSenderReclaims(p: Primitives, b: Book, dynasty: int, t: Transaction)
    requires Sender(p, t) !in b.valsArray && Registers(p, Sender(p, t), t.pubSchnorrKey)
    ensures Reclaimable(p, Added(p, b, Sender(p, t), dynasty, t.pubSchnorrKey, t), Sender(p, t))
  {
    assert p.shardOf(p.address(t.sender, t.shard)) == Some(t.shard % 256);
    assert p.address(t.sender, t.shard) == p.address(t.sender, t.shard % 256);
  }

  // ----- What a registration means -----

  /** Who gets into the book: a wallet of shard 1 with a valid address and a key that is a point. */
  lemma InBookIff(p: Primitives, b: Book, wallet: Wallet, dynasty: int, key: Bytes, t: Transaction, w: Wallet)
    ensures w in Added(p, b, wallet, dynasty, key, t).valsArray <==>
            || w in b.valsArray
            || (w == wallet && p.isPoint(key) && p.isWalletValid(wallet) && p.shardOf(wallet) == Some(1))
    ensures w in b.valsArray ==> Added(p, b, wallet, dynasty, key, t).valsArray[w] == b.valsArray[w]
  {
  }

  /** A transaction's sender registers exactly when its key is a point and it is of shard 1 modulo 256. */
  lemma SenderRegistersIff(p: Primitives, t: Transaction)
    ensures Registers(p, Sender(p, t), t.pubSchnorrKey) <==> p.isPoint(t.pubSchnorrKey) && t.shard % 256 == 1
  {
    assert p.shardOf(p.address(t.sender, t.shard)) == Some(t.shard % 256);
  }

  /** Far from the ends of int64, the dynasty is the blocks more than 200 after its start and before its end. */
  lemma InDynastyIff(v: Validator, currentBlock: U64)
    requires -TWO_TO_THE_63 <= v.startDynasty < TWO_TO_THE_63 - 200
    requires -TWO_TO_THE_63 <= v.endDynasty < TWO_TO_THE_63 - 200 && currentBlock < TWO_TO_THE_63
    ensures InDynasty(v, currentBlock) <==>
            v.startDynasty + 200 < currentBlock && (v.endDynasty == -1 || currentBlock < v.endDynasty + 200)
  {
  }

  /** A new validator is of shard 1, and acts from 200 blocks after its registration on. */
  lemma NewValidatorActsIff(
      p: Primitives, b: Book, wallet: Wallet, dynasty: int, key: Bytes, t: Transaction, currentBlock: U64)
    requires wallet !in b.valsArray && Registers(p, wallet, key)
    requires -TWO_TO_THE_63 <= dynasty < TWO_TO_THE_63 - 200 && currentBlock < TWO_TO_THE_63
    ensures var after := Added(p, b, wallet, dynasty, key, t);
            && (CheckDynasty(after, wallet, currentBlock) <==> dynasty + 200 < currentBlock)
            && (forall s: U32 :: wallet in ShardMembers(after, s) <==> s == 1)
            && after.valsArray[wallet].schnorrPublicKey == key && after.valsWithdraw[wallet] == t
  {
    InDynastyIff(Added(p, b, wallet, dynasty, key, t).valsArray[wallet], currentBlock);
    hide Registers, InDynasty;
  }

  /** A validator that withdraws at a block acts for 200 blocks more. */
  lemma WithdrawnActsIff(v: Validator, end: int, currentBlock: U64)
    requires -TWO_TO_THE_63 <= v.startDynasty < TWO_TO_THE_63 - 200
    requires 0 <= end < TWO_TO_THE_63 - 200 && currentBlock < TWO_TO_THE_63
    ensures InDynasty(v.(endDynasty := end), currentBlock) <==> v.startDynasty + 200 < currentBlock < end + 200
  {
    InDynastyIff(v.(endDynasty := end), currentBlock);
  }

  /** Every validator is a member of one shard. */
  lemma ShardsPartition(b: Book, w: Wallet)
    ensures w in b.valsArray <==> exists s: U32 :: w in ShardMembers(b, s)
    ensures forall s: U32, u: U32 :: w in ShardMembers(b, s) && w in ShardMembers(b, u) ==> s == u
  {
    if w in b.valsArray {
      assert w in ShardMembers(b, b.valsArray[w].shard);
    }
  }
}
