/** The selection loop of GenerateBlock (blockchain/pool.go), as a function. */
module Pool {
  import opened Book
  import opened Overflow
  import opened Processing
  import opened Transactions
  import opened Wrappers

  /** What an undecodable database entry decodes to: protobuf's all-zero transaction, signed by nobody. */
  const EMPTY := Transaction([], 0, "", 0, 0, 0, [], [])

  /** The chain state a block is generated from, and the filter ValidateTransaction applies. */
  datatype Source = Source(
    p: Primitives, db: map<Bytes, Entry>, opening: Balances, book: Book, miner: Wallet,
    valid: Transaction -> bool, maxBlockBytes: nat)

  /** The block so far: its transactions, the balances left, its length in bytes. */
  datatype Draft = Draft(chosen: seq<Transaction>, view: Balances, len: nat)

  function Decoded(p: Primitives, e: Entry): Transaction {
    if e.Stored? then p.decode(e.raw) else EMPTY
  }

  /** The sender and the miner are validators of the same shard. */
  predicate SameShard(book: Book, sender: Wallet, miner: Wallet) {
    && sender in book.valsArray && miner in book.valsArray
    && book.valsArray[sender].shard == book.valsArray[miner].shard
  }

  predicate Affordable(view: Balances, sender: Wallet, t: Transaction) {
    && sender in view
    && !(AddU64O(t.amount, t.gas).0 > view[sender] && AddU64O(t.amount, t.gas).1)
    && SubU64O(view[sender], AddU64O(t.amount, t.gas).0).1
  }

  /** One popped key: taken, or passed over. */
  function Consider(c: Source, d: Draft, key: Bytes): Draft {
    if key !in c.db then d else
      var t := Decoded(c.p, c.db[key]);
      var sender := Sender(c.p, t);
      if c.valid(t) && SameShard(c.book, sender, c.miner) && Affordable(d.view, sender, t) then
        Draft(d.chosen + [t], d.view[sender := d.view[sender] - Required(t)], d.len + |c.p.marshal(t)|)
      else d
  }

  /**
    * A popped key is taken exactly when it is stored, the filter lets its transaction through, sender and
    * miner are validators of one shard, and the sender has amount and gas left, or a balance that covers
    * what is left of a sum that wraps.
    */
  lemma TakenIff(c: Source, d: Draft, key: Bytes)
    ensures if key !in c.db then Consider(c, d, key) == d else
              var t := Decoded(c.p, c.db[key]);
              var sender, vals := Sender(c.p, t), c.book.valsArray;
              var sum := t.amount + t.gas;
              var debit := if sum < TWO_TO_THE_64 then sum else sum - TWO_TO_THE_64;
              if c.valid(t) && sender in vals && c.miner in vals && vals[sender].shard == vals[c.miner].shard
                 && sender in d.view && debit <= d.view[sender]
              then Consider(c, d, key)
                   == Draft(d.chosen + [t], d.view[sender := d.view[sender] - debit], d.len + |c.p.marshal(t)|)
              else Consider(c, d, key) == d
  {
  }

  /** The draft once the loop stops, and the keys still queued. */
  function Fill(c: Source, d: Draft, queue: seq<Bytes>): (r: (Draft, seq<Bytes>))
    ensures r.1 == [] || c.maxBlockBytes <= r.0.len
    ensures |r.1| <= |queue| && r.1 == queue[|queue| - |r.1|..]
    decreases |queue|
  {
    if c.maxBlockBytes <= d.len || queue == [] then (d, queue)
    else Fill(c, Consider(c, d, queue[0]), queue[1..])
  }

  lemma FillNext(c: Source, d: Draft, queue: seq<Bytes>)
    requires d.len < c.maxBlockBytes && queue != []
    ensures Fill(c, d, queue) == Fill(c, Consider(c, d, queue[0]), queue[1..])
  {
  }

  lemma FillStops(c: Source, d: Draft, queue: seq<Bytes>)
    requires c.maxBlockBytes <= d.len || queue == []
    ensures Fill(c, d, queue) == (d, queue)
  {
  }

  function TotalSize(p: Primitives, txs: seq<Transaction>): nat {
    if txs == [] then 0 else TotalSize(p, txs[..|txs| - 1]) + |p.marshal(txs[|txs| - 1])|
  }

  /** The draft's balances are the opening ones less what each sender spends; every sender has an account. */
  ghost predicate Spends(c: Source, d: Draft) {
    && d.view.Keys == c.opening.Keys
    && (forall i :: 0 <= i < |d.chosen| ==> Sender(c.p, d.chosen[i]) in c.opening)
    && forall w :: w in c.opening ==> d.view[w] == c.opening[w] - SpentBy(c.p, d.chosen, |d.chosen|, w)
  }

  /** The length is the header's and the transactions', and was under the limit before the last one. */
  ghost predicate Measured(c: Source, header: nat, d: Draft) {
    && d.len == header + TotalSize(c.p, d.chosen)
    && (d.chosen != [] ==> header + TotalSize(c.p, d.chosen[..|d.chosen| - 1]) < c.maxBlockBytes)
  }

  lemma {:induction false} SpentByPrefix(
      p: Primitives, txs: seq<Transaction>, more: seq<Transaction>, n: nat, w: Wallet)
    requires n <= |txs|
    ensures SpentBy(p, txs + more, n, w) == SpentBy(p, txs, n, w)
  {
    if n == 0 {
    } else {
      SpentByPrefix(p, txs, more, n - 1, w);
    }
  }

  lemma ChosenSpends(c: Source, d: Draft, t: Transaction, len: nat)
    requires Spends(c, d) && Affordable(d.view, Sender(c.p, t), t)
    ensures Spends(c, Draft(d.chosen + [t], d.view[Sender(c.p, t) := d.view[Sender(c.p, t)] - Required(t)], len))
  {
    forall w
      ensures SpentBy(c.p, d.chosen + [t], |d.chosen| + 1, w)
           == SpentBy(c.p, d.chosen, |d.chosen|, w) + if Sender(c.p, t) == w then Required(t) else 0
    {
      SpentByPrefix(c.p, d.chosen, [t], |d.chosen|, w);
    }
  }

  lemma ConsiderKeeps(c: Source, header: nat, d: Draft, key: Bytes)
    requires Spends(c, d) && Measured(c, header, d) && d.len < c.maxBlockBytes
    ensures Spends(c, Consider(c, d, key)) && Measured(c, header, Consider(c, d, key))
  {
    var d' := Consider(c, d, key);
    if d' != d {
      var t := Decoded(c.p, c.db[key]);
      ChosenSpends(c, d, t, d'.len);
      assert d'.chosen[..|d.chosen|] == d.chosen;
    }
  }

  /** Whatever is queued and however it is filed, what is selected can be paid for, and fits but for the last. */
  lemma {:induction false} FillKeeps(c: Source, header: nat, d: Draft, queue: seq<Bytes>)
    requires Spends(c, d) && Measured(c, header, d)
    ensures Spends(c, Fill(c, d, queue).0) && Measured(c, header, Fill(c, d, queue).0)
    decreases |queue|
  {
    if c.maxBlockBytes <= d.len || queue == [] {
    } else {
      ConsiderKeeps(c, header, d, queue[0]);
      FillKeeps(c, header, Consider(c, d, queue[0]), queue[1..]);
    }
  }

  function Selected(c: Source, header: nat, queue: seq<Bytes>): seq<Transaction> {
    Fill(c, Draft([], c.opening, header), queue).0.chosen
  }

  /** What the selection does not look at: a valid signature, and whether an earlier block holds it. */
  ghost predicate SignedAndNew(c: Source, txs: seq<Transaction>) {
    forall i :: 0 <= i < |txs| ==> c.p.signatureValid(txs[i]) && !IsIncluded(c.p, c.db, txs[i])
  }

  lemma SelectedKeeps(c: Source, header: nat, queue: seq<Bytes>)
    ensures Spends(c, Fill(c, Draft([], c.opening, header), queue).0)
    ensures Measured(c, header, Fill(c, Draft([], c.opening, header), queue).0)
  {
    FillKeeps(c, header, Draft([], c.opening, header), queue);
  }

  /** The replay accepts a selection exactly when every transaction in it is signed and new. */
  lemma SelectionReplaysIff(c: Source, header: nat, queue: seq<Bytes>)
    ensures var txs := Selected(c, header, queue);
            Replay(c.p, c.db, c.opening, txs, |txs|).Passed? <==> SignedAndNew(c, txs)
  {
    var txs := Selected(c, header, queue);
    SelectedKeeps(c, header, queue);
    hide Fill, Replay, SpentBy, IsIncluded;
    ReplayIffPayable(c.p, c.db, c.opening, txs, |txs|);
  }

  /** The Merkle root GenerateBlock writes; None when the tree cannot be built. */
  function RootOf(p: Primitives, txs: seq<Transaction>): Option<Bytes> {
    if txs == [] then Some([]) else p.merkleRoot(txs, [])
  }

  /** The block holds these transactions and the root GenerateBlock writes for them. */
  ghost predicate Holds(p: Primitives, block: Block, txs: seq<Transaction>) {
    block.transactions == txs && block.receiptsContracts == [] && RootOf(p, txs) == Some(block.merkleRootReceipt)
  }

  /**
    * The chain a block was generated from accepts it exactly when all its transactions are signed and new
    * and it is not empty; an empty one when the Merkle root of nothing is empty. Without its last
    * transaction it is shorter than the limit.
    */
  lemma GeneratedBlockIsValidIff(c: Source, header: nat, queue: seq<Bytes>, block: Block)
    requires Holds(c.p, block, Selected(c, header, queue)) && block.index != 0
    ensures var txs := Selected(c, header, queue);
            && (Validation(c.p, c.db, c.opening, block) == None <==>
                  if txs == [] then c.p.merkleRoot([], []) == Some([]) else SignedAndNew(c, txs))
            && (txs != [] ==> header + TotalSize(c.p, txs[..|txs| - 1]) < c.maxBlockBytes)
  {
    SelectedKeeps(c, header, queue);
    SelectionReplaysIff(c, header, queue);
    hide Fill, Replay;
  }

  /** Every stored transaction is filed under the hash of the bytes it came in. */
  ghost predicate Filed(p: Primitives, db: map<Bytes, Entry>) {
    forall k :: k in db && db[k].Stored? ==> p.hash(db[k].raw) == k
  }

  /** Every stored transaction came in its own encoding. */
  ghost predicate Canonical(p: Primitives, db: map<Bytes, Entry>) {
    forall k :: k in db && db[k].Stored? ==> p.marshal(p.decode(db[k].raw)) == db[k].raw
  }

  /** The filter lets each through, and its sender is a validator of the miner's shard. */
  ghost predicate Allowed(c: Source, txs: seq<Transaction>) {
    forall i :: 0 <= i < |txs| ==>
      && c.valid(txs[i]) && Sender(c.p, txs[i]) in c.book.valsArray && c.miner in c.book.valsArray
      && c.book.valsArray[Sender(c.p, txs[i])].shard == c.book.valsArray[c.miner].shard
  }

  lemma {:induction false} SelectedAreAllowed(c: Source, d: Draft, queue: seq<Bytes>)
    requires Allowed(c, d.chosen)
    ensures Allowed(c, Fill(c, d, queue).0.chosen)
    decreases |queue|
  {
    if c.maxBlockBytes <= d.len || queue == [] {
    } else {
      TakenIff(c, d, queue[0]);
      SelectedAreAllowed(c, Consider(c, d, queue[0]), queue[1..]);
    }
  }

  ghost predicate TakenFrom(c: Source, txs: seq<Transaction>) {
    forall i :: 0 <= i < |txs| ==> exists k :: k in c.db && txs[i] == Decoded(c.p, c.db[k])
  }

  lemma {:induction false} FillTakes(c: Source, d: Draft, queue: seq<Bytes>)
    requires TakenFrom(c, d.chosen)
    ensures TakenFrom(c, Fill(c, d, queue).0.chosen)
    decreases |queue|
  {
    if c.maxBlockBytes <= d.len || queue == [] {
    } else {
      var d' := Consider(c, d, queue[0]);
      if d' != d {
        assert d'.chosen[|d.chosen|] == Decoded(c.p, c.db[queue[0]]);
      }
      FillTakes(c, d', queue[1..]);
    }
  }

  /** From a database of canonical encodings only new transactions are selected, but for the empty one. */
  lemma CanonicalSelectionIsNew(c: Source, header: nat, queue: seq<Bytes>, i: nat)
    requires Filed(c.p, c.db) && Canonical(c.p, c.db)
    requires i < |Selected(c, header, queue)| && Selected(c, header, queue)[i] != EMPTY
    ensures !IsIncluded(c.p, c.db, Selected(c, header, queue)[i])
  {
    var txs := Selected(c, header, queue);
    FillTakes(c, Draft([], c.opening, header), queue);
    hide Fill;
    var k :| k in c.db && txs[i] == Decoded(c.p, c.db[k]);
    assert Key(c.p, txs[i]) == k;
  }

  /** From such a database, with nobody's signature on nothing, only the signatures can keep a block out. */
  lemma CanonicalSelectionIff(c: Source, header: nat, queue: seq<Bytes>)
    requires Filed(c.p, c.db) && Canonical(c.p, c.db) && !c.p.signatureValid(EMPTY)
    ensures var txs := Selected(c, header, queue);
            SignedAndNew(c, txs) <==> forall i :: 0 <= i < |txs| ==> c.p.signatureValid(txs[i])
  {
    var txs := Selected(c, header, queue);
    hide Selected, Filed, Canonical, IsIncluded;
    forall i | 0 <= i < |txs| && c.p.signatureValid(txs[i])
      ensures !IsIncluded(c.p, c.db, txs[i])
    {
      CanonicalSelectionIsNew(c, header, queue, i);
    }
  }

  /**
    * A transaction that an earlier block holds comes again in other bytes: it is queued under their hash,
    * selected, and the block made of it is rejected by the chain that made it.
    */
  lemma OtherBytesAreSelectedAgain(c: Source, header: nat, t: Transaction, raw: Bytes, block: Block)
    requires c.p.decode(raw) == t && c.p.hash(raw) in c.db && c.db[c.p.hash(raw)] == Stored(raw)
    requires Key(c.p, t) in c.db && c.db[Key(c.p, t)] == Included(7)
    requires c.valid(t) && c.p.signatureValid(t) && SameShard(c.book, Sender(c.p, t), c.miner)
    requires Balance(c.opening, Sender(c.p, t)) == 100 && t.amount == 10 && t.gas == 1 && header < c.maxBlockBytes
    requires Holds(c.p, block, [t]) && block.index != 0
    ensures Selected(c, header, [c.p.hash(raw)]) == [t]
    ensures Validation(c.p, c.db, c.opening, block) == Some(Failed(AlreadyIncluded, 0))
  {
    OneIsSelected(c, header, t, raw);
    assert block.transactions == [t];
    hide Selected, Holds;
    OneIsRejected(c, t);
    hide Replay;
  }

  lemma OneIsRejected(c: Source, t: Transaction)
    requires c.p.signatureValid(t) && IsIncluded(c.p, c.db, t)
    requires Balance(c.opening, Sender(c.p, t)) == 100 && t.amount == 10 && t.gas == 1
    ensures Replay(c.p, c.db, c.opening, [t], 1) == Failed(AlreadyIncluded, 0)
  {
    ReplayNext(c.p, c.db, c.opening, [t], 0);
    hide Replay;
  }

  lemma OneIsSelected(c: Source, header: nat, t: Transaction, raw: Bytes)
    requires c.p.decode(raw) == t && c.p.hash(raw) in c.db && c.db[c.p.hash(raw)] == Stored(raw)
    requires c.valid(t) && SameShard(c.book, Sender(c.p, t), c.miner)
    requires Balance(c.opening, Sender(c.p, t)) == 100 && t.amount == 10 && t.gas == 1 && header < c.maxBlockBytes
    ensures Selected(c, header, [c.p.hash(raw)]) == [t]
  {
    var d, key := Draft([], c.opening, header), c.p.hash(raw);
    assert Affordable(d.view, Sender(c.p, t), t);
    assert Consider(c, d, key).chosen == [t];
    var queue: seq<Bytes> := [key];
    assert queue[1..] == [];
    hide Fill, SameShard, Affordable;
    FillNext(c, d, queue);
    FillStops(c, Consider(c, d, key), []);
  }
}
