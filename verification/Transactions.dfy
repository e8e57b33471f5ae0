/** Transactions, blocks, account balances, and the library calls the node makes on them. */
module Transactions {
  import opened Address
  import opened Base58
  import opened MapSums
  import opened Overflow
  import opened Wrappers

  type Bytes = seq<Byte>
  type Wallet = string
  type Balances = map<Wallet, U64>

  const POS: Wallet := "DexmPoS"

  /** A transaction that calls no contract; rest is its signature and whatever else the ledger does not read. */
  datatype Transaction = Transaction(
    sender: Bytes, shard: U32, recipient: Wallet, amount: U64, gas: U32, nonce: U32, pubSchnorrKey: Bytes, rest: Bytes)

  datatype Block = Block(
    index: U64, timestamp: U64, miner: Wallet, prevHash: Bytes, shard: U32,
    transactions: seq<Transaction>, receiptsContracts: seq<Bytes>, merkleRootReceipt: Bytes)

  /** What BlockDb holds under a key: the bytes a transaction came in, or the block index ImportBlock leaves,
      which never decodes to a transaction. */
  datatype Entry = Stored(raw: Bytes) | Included(index: U64)

  /**
    * What the ledger calls and does not look into: the wallet package (address, isWalletValid,
    * shardOf), signature checks, SHA-256, encoding and decoding, Merkle roots, points. Several byte
    * strings may decode to one transaction; marshal gives one of them.
    */
  datatype Calls = Calls(
    address: (Bytes, U32) -> Wallet,
    isWalletValid: Wallet -> bool,
    shardOf: Wallet -> Option<nat>,
    signatureValid: Transaction -> bool,
    hash: Bytes -> Bytes,
    marshal: Transaction -> Bytes,
    decode: Bytes -> Transaction,
    headerSize: Block -> nat,
    merkleRoot: (seq<Transaction>, seq<Bytes>) -> Option<Bytes>,
    isPoint: Bytes -> bool)

  /** What the ledger relies on; the wallet package meets it (NodeCalls). */
  ghost predicate Lawful(p: Calls) {
    forall k: Bytes, s: U32 ::
      && p.address(k, s) != POS
      && p.isWalletValid(p.address(k, s))
      && p.shardOf(p.address(k, s)) == Some(s % 256)
      && p.address(k, s) == p.address(k, s % 256)
  }

  type Primitives = p: Calls | Lawful(p)
    witness NodeCalls(Hashes(_ => seq(20, _ => 0), _ => 0), _ => true, _ => [], _ => [],
                      _ => Transaction([], 0, "", 0, 0, 0, [], []), _ => 0, (_, _) => None, _ => true)

  lemma WalletLaws(h: Hashes, k: Bytes, s: U32)
    ensures var w := BytesToAddress(h, k, s);
            && w != POS && IsWalletValid(h, w) && 6 <= |w| && GetShardFromAddress(w) == Some(s % 256)
            && w == BytesToAddress(h, k, s % 256)
  {
    AddressWellFormed(h, k, s);
    AddressIdentity(h, k, s, k, s % 256);
    hide BytesToAddress, IsWalletValid, GetShardFromAddress;
  }

  /** The wallet package's own functions are lawful, whatever the hash functions are. */
  function NodeCalls(
      h: Hashes, signatureValid: Transaction -> bool, hash: Bytes -> Bytes, marshal: Transaction -> Bytes,
      decode: Bytes -> Transaction, headerSize: Block -> nat,
      merkleRoot: (seq<Transaction>, seq<Bytes>) -> Option<Bytes>, isPoint: Bytes -> bool): (p: Calls)
    ensures Lawful(p)
    ensures forall k: Bytes, s: U32 :: p.address(k, s) == BytesToAddress(h, k, s)
  {
    var p := Calls(
      (k, s: U32) => BytesToAddress(h, k, s),
      w => IsWalletValid(h, w),
      w => if |w| < 6 then None else GetShardFromAddress(w),
      signatureValid, hash, marshal, decode, headerSize, merkleRoot, isPoint);
    assert Lawful(p) by {
      hide BytesToAddress, IsWalletValid, GetShardFromAddress;
      forall k: Bytes, s: U32
        ensures && p.address(k, s) != POS
                && p.isWalletValid(p.address(k, s))
                && p.shardOf(p.address(k, s)) == Some(s % 256)
                && p.address(k, s) == p.address(k, s % 256)
      {
        WalletLaws(h, k, s);
      }
    }
    p
  }

  function Sender(p: Primitives, t: Transaction): (w: Wallet)
    ensures w != POS
  {
    p.address(t.sender, t.shard)
  }

  /** The key of a transaction once it is in a block: the hash of its own encoding. */
  function Key(p: Primitives, t: Transaction): Bytes {
    p.hash(p.marshal(t))
  }

  /** amount + gas as Go adds them. */
  function Required(t: Transaction): U64 {
    AddU64O(t.amount, t.gas).0
  }

  predicate Wraps(t: Transaction) {
    TWO_TO_THE_64 <= t.amount + t.gas
  }

  function Balance(b: Balances, w: Wallet): U64 {
    if w in b then b[w] else 0
  }

  /** All the money in a balances database. */
  ghost function Supply(b: Balances): nat {
    Sum(b)
  }

  /** The money outside the staking account. */
  ghost function Circulating(b: Balances): nat {
    Sum(b - {POS})
  }

  lemma SupplyUpdate(b: Balances, w: Wallet, x: U64)
    ensures Supply(b[w := x]) == Supply(b) - Balance(b, w) + x
    ensures Balance(b, w) <= Supply(b)
  {
    SumUpdate(b, w, x);
    if w in b {
      SumAtLeast(b, w);
    }
  }

  lemma CirculatingUpdate(b: Balances, w: Wallet, x: U64)
    ensures Circulating(b[w := x]) == Circulating(b) + if w == POS then 0 else x - Balance(b, w)
    ensures w != POS ==> Balance(b, w) <= Circulating(b)
  {
    var c: Balances := b - {POS};
    if w == POS {
      assert b[w := x] - {POS} == c;
    } else {
      assert b[w := x] - {POS} == c[w := x];
      SupplyUpdate(c, w, x);
    }
  }

  /** Two different accounts never hold more than the whole. */
  lemma TwoBalances(b: Balances, v: Wallet, w: Wallet)
    requires v != w
    ensures Balance(b, v) + Balance(b, w) <= Supply(b)
    ensures v != POS && w != POS ==> Balance(b, v) + Balance(b, w) <= Circulating(b)
  {
    PairWithin(b, v, w);
    PairWithin(b - {POS}, v, w);
  }

  lemma PairWithin(b: Balances, v: Wallet, w: Wallet)
    requires v != w
    ensures Balance(b, v) + Balance(b, w) <= Sum(b)
  {
    SupplyUpdate(b, v, 0);
    SupplyUpdate(b, w, 0);
    if v in b && w in b {
      SumAtLeastTwo(b, v, w);
    }
  }
}
