/** Merkle proofs of receipts, and paying the transactions that come with them (networking/merkleproof.go). */
module Merkle {
  import opened Import
  import opened Overflow
  import opened Transactions
  import opened Wrappers

  type Hash = Bytes -> Bytes

  /** A binary hash tree as gomerkle builds it: a leaf is the hash of its data. */
  datatype Tree = Leaf(data: Bytes) | Node(left: Tree, right: Tree) {
    function Root(h: Hash): Bytes {
      match this
      case Leaf(data) => h(data)
      case Node(left, right) => h(left.Root(h) + right.Root(h))
    }
  }

  datatype Side = GoLeft | GoRight

  /** One level of a proof: Go's map from "left" or "right" to the sibling's hash. */
  type Level = map<string, Bytes>

  ghost predicate IsPath(t: Tree, path: seq<Side>) {
    match t
    case Leaf(_) => path == []
    case Node(left, right) => path != [] && IsPath(if path[0] == GoLeft then left else right, path[1..])
  }

  function DataAt(t: Tree, path: seq<Side>): Bytes
    requires IsPath(t, path)
  {
    match t
    case Leaf(data) => data
    case Node(left, right) => DataAt(if path[0] == GoLeft then left else right, path[1..])
  }

  /** The siblings along a path, from the leaf up. */
  function ProofFor(h: Hash, t: Tree, path: seq<Side>): seq<Level>
    requires IsPath(t, path)
    decreases t
  {
    match t
    case Leaf(_) => []
    case Node(left, right) =>
      if path[0] == GoLeft then ProofFor(h, left, path[1..]) + [map["right" := right.Root(h)]]
      else ProofFor(h, right, path[1..]) + [map["left" := left.Root(h)]]
  }

  // ----- Climbing a proof -----

  function Up(h: Hash, p: Level, proofHash: Bytes): Option<Bytes> {
    if "left" in p then Some(h(p["left"] + proofHash))
    else if "right" in p then Some(h(proofHash + p["right"]))
    else None
  }

  /** The hash the first n levels lead to; None at a level with neither side. */
  function Climb(h: Hash, proof: seq<Level>, value: Bytes, n: nat): Option<Bytes>
    requires n <= |proof|
  {
    if n == 0 then Some(value) else
      match Climb(h, proof, value, n - 1)
      case None => None
      case Some(proofHash) => Up(h, proof[n - 1], proofHash)
  }

  lemma {:induction false} NoWayUp(h: Hash, proof: seq<Level>, value: Bytes, n: nat, m: nat)
    requires n <= m <= |proof| && Climb(h, proof, value, n).None?
    ensures Climb(h, proof, value, m).None?
    decreases m
  {
    if n < m {
      NoWayUp(h, proof, value, n, m - 1);
    }
  }

  method VerifyMerkleProof(h: Hash, proof: seq<Level>, root: Bytes, value: Bytes) returns (ok: bool)
    ensures ok == (Climb(h, proof, value, |proof|) == Some(root))
  {
    var proofHash := value;
    for i := 0 to |proof|
      invariant Climb(h, proof, value, i) == Some(proofHash)
    {
      var p := proof[i];
      if "left" in p {
        proofHash := h(p["left"] + proofHash);
      } else if "right" in p {
        proofHash := h(proofHash + p["right"]);
      } else {
        NoWayUp(h, proof, value, i + 1, |proof|);
        return false;
      }
    }
    return root == proofHash;
  }

  lemma {:induction false} ClimbPrefix(h: Hash, proof: seq<Level>, more: seq<Level>, value: Bytes, n: nat)
    requires n <= |proof|
    ensures Climb(h, proof + more, value, n) == Climb(h, proof, value, n)
  {
    if n == 0 {
    } else {
      ClimbPrefix(h, proof, more, value, n - 1);
    }
  }

  /** The proof of any leaf of any tree leads to the tree's root. */
  lemma {:induction false} ProofLeadsToRoot(h: Hash, t: Tree, path: seq<Side>)
    requires IsPath(t, path)
    ensures |ProofFor(h, t, path)| == |path| && OneEntryEach(ProofFor(h, t, path))
    ensures Climb(h, ProofFor(h, t, path), h(DataAt(t, path)), |path|) == Some(t.Root(h))
    decreases t
  {
    match t
    case Leaf(_) =>
    case Node(left, right) =>
      var child := if path[0] == GoLeft then left else right;
      ProofLeadsToRoot(h, child, path[1..]);
      var below := ProofFor(h, child, path[1..]);
      ClimbPrefix(h, below, ProofFor(h, t, path)[|below|..], h(DataAt(t, path)), |below|);
      assert ProofFor(h, t, path) == below + ProofFor(h, t, path)[|below|..];
  }

  // ----- Flattening into two lists -----

  function Rebuilt(mapLeaf: seq<string>, mapHash: seq<Bytes>, n: nat): (proof: seq<Level>)
    requires n <= |mapLeaf| <= |mapHash|
    ensures |proof| == n
    ensures forall i :: 0 <= i < n ==> proof[i] == map[mapLeaf[i] := mapHash[i]]
  {
    if n == 0 then [] else Rebuilt(mapLeaf, mapHash, n - 1) + [map[mapLeaf[n - 1] := mapHash[n - 1]]]
  }

  /** VerifyProof's loop; Go panics when there are fewer hashes than keys. */
  method RebuildProof(mapLeaf: seq<string>, mapHash: seq<Bytes>) returns (mapProof: seq<Level>)
    requires |mapLeaf| <= |mapHash|
    ensures mapProof == Rebuilt(mapLeaf, mapHash, |mapLeaf|)
  {
    mapProof := [];
    for i := 0 to |mapLeaf|
      invariant mapProof == Rebuilt(mapLeaf, mapHash, i)
    {
      mapProof := mapProof + [map[mapLeaf[i] := mapHash[i]]];
    }
  }

  ghost predicate OneEntryEach(proof: seq<Level>) {
    forall i :: 0 <= i < |proof| ==> |proof[i]| == 1
  }

  /** GenerateMerkleProof's loops: every entry of every level, in the order Go's map iteration gives. */
  method FlattenProof(proof: seq<Level>) returns (listLeaf: seq<string>, listHash: seq<Bytes>)
    ensures |listLeaf| == |listHash|
    ensures OneEntryEach(proof) ==> Rebuilt(listLeaf, listHash, |listLeaf|) == proof
  {
    listLeaf, listHash := [], [];
    for i := 0 to |proof|
      invariant |listLeaf| == |listHash|
      invariant OneEntryEach(proof) ==> Rebuilt(listLeaf, listHash, |listLeaf|) == proof[..i]
    {
      var p := proof[i];
      var keys := p.Keys;
      ghost var opening, hashes := listLeaf, listHash;
      while keys != {}
        invariant keys <= p.Keys && |listLeaf| == |listHash|
        invariant |p| == 1 && keys == p.Keys ==> listLeaf == opening && listHash == hashes
        invariant |p| == 1 && keys != p.Keys ==>
                    keys == {} && exists k ::
                      k in p && p == map[k := p[k]] && listLeaf == opening + [k] && listHash == hashes + [p[k]]
        decreases keys
      {
        var key :| key in keys;
        if |p| == 1 {
          OnlyKey(p, key);
        }
        listLeaf := listLeaf + [key];
        listHash := listHash + [p[key]];
        keys := keys - {key};
      }
      if OneEntryEach(proof) {
        assert |proof[i]| == 1;
        var k :| k in p;
        OnlyKey(p, k);
        RebuiltGrows(opening, hashes, k, p[k]);
      }
    }
    assert proof[..|proof|] == proof;
  }

  lemma OnlyKey(p: Level, k: string)
    requires |p| == 1 && k in p
    ensures p.Keys == {k} && p == map[k := p[k]]
  {
    assert |p.Keys - {k}| == 0;
    assert p.Keys == {k};
  }

  lemma RebuiltGrows(mapLeaf: seq<string>, mapHash: seq<Bytes>, k: string, x: Bytes)
    requires |mapLeaf| == |mapHash|
    ensures Rebuilt(mapLeaf + [k], mapHash + [x], |mapLeaf| + 1) == Rebuilt(mapLeaf, mapHash, |mapLeaf|) + [map[k := x]]
  {
    var a, b := Rebuilt(mapLeaf + [k], mapHash + [x], |mapLeaf| + 1), Rebuilt(mapLeaf, mapHash, |mapLeaf|);
    assert forall i :: 0 <= i < |mapLeaf| ==> a[i] == b[i];
  }

  /** What GenerateMerkleProof writes for a leaf, VerifyProof's rebuilding and climbing accepts. */
  method ProveAndVerify(h: Hash, t: Tree, path: seq<Side>) returns (ok: bool)
    requires IsPath(t, path)
    ensures ok
  {
    ProofLeadsToRoot(h, t, path);
    var listLeaf, listHash := FlattenProof(ProofFor(h, t, path));
    var mapProof := RebuildProof(listLeaf, listHash);
    ok := VerifyMerkleProof(h, mapProof, t.Root(h), h(DataAt(t, path)));
  }

  // ----- What an accepted proof binds -----

  ghost predicate Digests(h: Hash) {
    forall x: Bytes :: |h(x)| == 32
  }

  /** Two proofs that turn the same way at every level. */
  ghost predicate SameSides(a: seq<Level>, b: seq<Level>) {
    |a| == |b| && forall i :: 0 <= i < |a| ==> ("left" in a[i] <==> "left" in b[i])
  }

  lemma SameEnds(s: Bytes, t: Bytes, u: Bytes, v: Bytes)
    requires s + t == u + v && (|s| == |u| || |t| == |v|)
    ensures s == u && t == v
  {
    assert s == (s + t)[..|s|] && u == (u + v)[..|u|];
    assert t == (s + t)[|s|..] && v == (u + v)[|u|..];
  }

  /** One level up from different hashes of the same length: the same hash only through a collision. */
  lemma UpBinds(h: Hash, p: Level, q: Level, a: Bytes, b: Bytes) returns (x: Bytes, y: Bytes)
    requires ("left" in p <==> "left" in q) && |a| == |b|
    requires Up(h, p, a).Some? && Up(h, p, a) == Up(h, q, b)
    ensures a == b || (x != y && h(x) == h(y))
  {
    if "left" in p {
      x, y := p["left"] + a, q["left"] + b;
      if x == y {
        SameEnds(p["left"], a, q["left"], b);
      }
    } else {
      x, y := a + p["right"], b + q["right"];
      if x == y {
        SameEnds(a, p["right"], b, q["right"]);
      }
    }
  }

  /**
    * Two proofs with the same sides that lead from values of one length to the same hash start from the
    * same value, unless they exhibit two different byte strings with the same hash.
    */
  lemma {:induction false} ClimbBinds(h: Hash, a: seq<Level>, b: seq<Level>, v: Bytes, w: Bytes, n: nat)
      returns (x: Bytes, y: Bytes)
    requires Digests(h) && SameSides(a, b) && n <= |a| && |v| == |w| == 32
    requires Climb(h, a, v, n).Some? && Climb(h, a, v, n) == Climb(h, b, w, n)
    ensures v == w || (x != y && h(x) == h(y))
  {
    if n == 0 {
      x, y := [], [];
    } else {
      ClimbLength(h, a, v, n - 1);
      ClimbLength(h, b, w, n - 1);
      x, y := UpBinds(h, a[n - 1], b[n - 1], Climb(h, a, v, n - 1).value, Climb(h, b, w, n - 1).value);
      if !(x != y && h(x) == h(y)) {
        x, y := ClimbBinds(h, a, b, v, w, n - 1);
      }
    }
  }

  lemma ClimbLength(h: Hash, proof: seq<Level>, value: Bytes, n: nat)
    requires Digests(h) && n <= |proof| && |value| == 32 && Climb(h, proof, value, n).Some?
    ensures |Climb(h, proof, value, n).value| == 32
  {
  }

  // ----- VerifyProof -----

  datatype Receipt = Receipt(sender: Wallet, recipient: Wallet, amount: U64, nonce: U32)

  /** The receipt GenerateMerkleTree makes of a transaction. */
  function ReceiptOf(p: Primitives, t: Transaction): Receipt {
    Receipt(Sender(p, t), t.recipient, t.amount, t.nonce)
  }

  /** Two transactions have one receipt exactly when sender, recipient, amount and nonce agree. */
  lemma SameReceiptIff(p: Primitives, t: Transaction, u: Transaction)
    ensures ReceiptOf(p, t) == ReceiptOf(p, u) <==>
            Sender(p, t) == Sender(p, u) && t.recipient == u.recipient && t.amount == u.amount && t.nonce == u.nonce
  {
  }

  datatype Encoding = Encoding(hash: Hash, marshal: Receipt -> Bytes)

  /** A submitted proof: it carries a receipt and, beside it, the transaction to pay. */
  datatype MerkleProof = MerkleProof(
    mapLeaf: seq<string>, mapHash: seq<Bytes>, root: Bytes, leaf: Bytes, receipt: Receipt,
    transaction: Transaction, shard: U32)

  /** The signed roots stored for each shard, in the order the database iterates. */
  type Roots = map<U32, seq<seq<Bytes>>>

  ghost predicate IsRoot(roots: Roots, shard: U32, root: Bytes) {
    shard in roots && exists i :: 0 <= i < |roots[shard]| && root in roots[shard][i]
  }

  ghost predicate Proves(e: Encoding, roots: Roots, mp: MerkleProof, shard: U32) {
    && |mp.mapLeaf| <= |mp.mapHash| && IsRoot(roots, shard, mp.root) && e.hash(e.marshal(mp.receipt)) == mp.leaf
    && Climb(e.hash, Rebuilt(mp.mapLeaf, mp.mapHash, |mp.mapLeaf|), mp.leaf, |mp.mapLeaf|) == Some(mp.root)
  }

  method VerifyProof(e: Encoding, roots: Roots, mp: MerkleProof, shard: U32) returns (ok: bool)
    requires |mp.mapLeaf| <= |mp.mapHash|
    ensures ok == Proves(e, roots, mp, shard)
  {
    var merkleRootFound := false;
    if shard !in roots {
      return false;
    }
    var i := 0;
    while i < |roots[shard]| && !merkleRootFound
      invariant 0 <= i <= |roots[shard]|
      invariant merkleRootFound <==> exists j :: 0 <= j < i && mp.root in roots[shard][j]
    {
      var receipts := roots[shard][i];
      var j := 0;
      while j < |receipts| && !merkleRootFound
        invariant 0 <= j <= |receipts|
        invariant merkleRootFound <==> mp.root in receipts[..j]
      {
        merkleRootFound := mp.root == receipts[j];
        j := j + 1;
      }
      assert merkleRootFound <==> mp.root in receipts by {
        if merkleRootFound {
          assert mp.root in receipts[..j];
        } else {
          assert receipts[..j] == receipts;
        }
      }
      i := i + 1;
    }
    if !merkleRootFound {
      return false;
    }
    var mapProof := RebuildProof(mp.mapLeaf, mp.mapHash);
    if e.hash(e.marshal(mp.receipt)) != mp.leaf {
      return false;
    }
    ok := VerifyMerkleProof(e.hash, mapProof, mp.root, mp.leaf);
  }

  /**
    * Two accepted proofs with the same root and the same list of sides are of the same encoded receipt,
    * unless they exhibit two different byte strings with the same hash.
    */
  lemma ProofsBindReceipts(
      e: Encoding, roots: Roots, a: MerkleProof, b: MerkleProof, shard: U32, other: U32)
      returns (x: Bytes, y: Bytes)
    requires Digests(e.hash) && Proves(e, roots, a, shard) && Proves(e, roots, b, other)
    requires a.root == b.root && a.mapLeaf == b.mapLeaf
    ensures (a.leaf == b.leaf && e.marshal(a.receipt) == e.marshal(b.receipt))
         || (x != y && e.hash(x) == e.hash(y))
  {
    x, y := ClimbBinds(
      e.hash, Rebuilt(a.mapLeaf, a.mapHash, |a.mapLeaf|), Rebuilt(b.mapLeaf, b.mapHash, |b.mapLeaf|),
      a.leaf, b.leaf, |a.mapLeaf|);
    if a.leaf == b.leaf && e.marshal(a.receipt) != e.marshal(b.receipt) {
      x, y := e.marshal(a.receipt), e.marshal(b.receipt);
    }
  }

  /**
    * An accepted proof whose root is the root of a tree, with the sides of one of its paths, is of the
    * receipt at that leaf, unless it exhibits two different byte strings with the same hash.
    */
  lemma ProofIsOfALeaf(e: Encoding, roots: Roots, mp: MerkleProof, shard: U32, t: Tree, path: seq<Side>)
      returns (x: Bytes, y: Bytes)
    requires Digests(e.hash) && Proves(e, roots, mp, shard) && IsPath(t, path) && mp.root == t.Root(e.hash)
    requires SameSides(Rebuilt(mp.mapLeaf, mp.mapHash, |mp.mapLeaf|), ProofFor(e.hash, t, path))
    ensures e.marshal(mp.receipt) == DataAt(t, path) || (x != y && e.hash(x) == e.hash(y))
  {
    ProofLeadsToRoot(e.hash, t, path);
    x, y := ClimbBinds(
      e.hash, Rebuilt(mp.mapLeaf, mp.mapHash, |mp.mapLeaf|), ProofFor(e.hash, t, path),
      mp.leaf, e.hash(DataAt(t, path)), |mp.mapLeaf|);
    if !(x != y && e.hash(x) == e.hash(y)) {
      x, y := e.marshal(mp.receipt), DataAt(t, path);
    }
  }

  /** Nothing VerifyProof checks depends on that transaction. */
  lemma ProofIgnoresTransaction(e: Encoding, roots: Roots, mp: MerkleProof, shard: U32, t: Transaction)
    ensures Proves(e, roots, mp.(transaction := t), shard) <==> Proves(e, roots, mp, shard)
  {
  }

  // ----- CheckMerkleProof -----

  /** Accepted and Rejected are Go's (true, nil) and (false, nil); the others are errors. */
  datatype Verdict = Accepted | Rejected | UnknownSender | Insufficient

  type Chains = map<U32, Balances>

  datatype Progress = Progress(chains: Chains, verdict: Verdict)

  /** The sender's account covers amount and gas, or their sum wraps. */
  predicate Affords(b: Balances, sender: Wallet, t: Transaction) {
    sender in b && (Required(t) <= b[sender] || Wraps(t))
  }

  function PayOn(chains: Chains, shard: U32, sender: Wallet, t: Transaction): Progress
    requires shard in chains
  {
    var b := chains[shard];
    if sender !in b then Progress(chains, UnknownSender)
    else if !Affords(b, sender, t) then Progress(chains, Insufficient)
    else Progress(chains[shard := Transfer(b, sender, t)], Accepted)
  }

  ghost predicate AllOpen(chains: Chains, shards: seq<U32>) {
    forall i :: 0 <= i < |shards| ==> shards[i] in chains
  }

  /** The payments on the first n shards; the first failure ends them and keeps what was paid before. */
  function Pay(chains: Chains, shards: seq<U32>, sender: Wallet, t: Transaction, n: nat): (r: Progress)
    requires n <= |shards| && AllOpen(chains, shards)
    ensures r.chains.Keys == chains.Keys
  {
    if n == 0 then Progress(chains, Accepted) else
      var before := Pay(chains, shards, sender, t, n - 1);
      if before.verdict != Accepted then before else PayOn(before.chains, shards[n - 1], sender, t)
  }

  lemma {:induction false} PayStops(chains: Chains, shards: seq<U32>, sender: Wallet, t: Transaction, n: nat, m: nat)
    requires n <= m <= |shards| && AllOpen(chains, shards)
    ensures Pay(chains, shards, sender, t, n).verdict != Accepted ==>
            Pay(chains, shards, sender, t, m) == Pay(chains, shards, sender, t, n)
    decreases m
  {
    if n < m {
      PayStops(chains, shards, sender, t, n, m - 1);
    }
  }

  /** One more shard: the payments go on, or have failed for good. */
  lemma PayNext(chains: Chains, shards: seq<U32>, sender: Wallet, t: Transaction, n: nat)
    requires n < |shards| && AllOpen(chains, shards) && Pay(chains, shards, sender, t, n).verdict == Accepted
    ensures shards[n] in Pay(chains, shards, sender, t, n).chains
    ensures var next := PayOn(Pay(chains, shards, sender, t, n).chains, shards[n], sender, t);
            && Pay(chains, shards, sender, t, n + 1) == next
            && (next.verdict != Accepted ==> Pay(chains, shards, sender, t, |shards|) == next)
  {
    PayStops(chains, shards, sender, t, n + 1, |shards|);
  }

  /** How often a shard is among the first n; two interests may be the same number. */
  function Occurrences(shards: seq<U32>, n: nat, s: U32): nat
    requires n <= |shards|
  {
    if n == 0 then 0 else Occurrences(shards, n - 1, s) + if shards[n - 1] == s then 1 else 0
  }

  function TransferTimes(b: Balances, sender: Wallet, t: Transaction, k: nat): Balances {
    if k == 0 then b else Transfer(TransferTimes(b, sender, t, k - 1), sender, t)
  }

  /** The sender can pay k times in a row. */
  predicate AffordsTimes(b: Balances, sender: Wallet, t: Transaction, k: nat) {
    k == 0 || (AffordsTimes(b, sender, t, k - 1) && Affords(TransferTimes(b, sender, t, k - 1), sender, t))
  }

  /** Each shard on its own could be paid on as often as it is among the first n. */
  ghost predicate AffordsOnAll(chains: Chains, shards: seq<U32>, sender: Wallet, t: Transaction, n: nat)
    requires n <= |shards|
  {
    forall s :: s in chains ==> AffordsTimes(chains[s], sender, t, Occurrences(shards, n, s))
  }

  /** The chains with the payment made on each shard as often as it is among the first n. */
  ghost function PaidOn(chains: Chains, shards: seq<U32>, sender: Wallet, t: Transaction, n: nat): Chains
    requires n <= |shards|
  {
    map s | s in chains :: TransferTimes(chains[s], sender, t, Occurrences(shards, n, s))
  }

  lemma PaidOnNext(chains: Chains, shards: seq<U32>, sender: Wallet, t: Transaction, n: nat)
    requires 0 < n <= |shards| && shards[n - 1] in chains
    ensures var s, before := shards[n - 1], PaidOn(chains, shards, sender, t, n - 1);
            PaidOn(chains, shards, sender, t, n) == before[s := Transfer(before[s], sender, t)]
  {
    hide Transfer;
  }

  lemma AffordsNext(chains: Chains, shards: seq<U32>, sender: Wallet, t: Transaction, n: nat)
    requires 0 < n <= |shards| && shards[n - 1] in chains
    ensures AffordsOnAll(chains, shards, sender, t, n)
            <==> && AffordsOnAll(chains, shards, sender, t, n - 1)
                 && Affords(PaidOn(chains, shards, sender, t, n - 1)[shards[n - 1]], sender, t)
  {
    hide Transfer, Affords, TransferTimes;
    var last := shards[n - 1];
    forall s | s in chains && s != last
      ensures Occurrences(shards, n, s) == Occurrences(shards, n - 1, s)
    {
    }
    assert Occurrences(shards, n, last) == Occurrences(shards, n - 1, last) + 1;
  }

  /**
    * Paying goes through exactly when the sender can pay on each shard as often as it is asked to, and
    * then has made as many transfers on each.
    */
  lemma {:induction false} PaysIff(chains: Chains, shards: seq<U32>, sender: Wallet, t: Transaction, n: nat)
    requires n <= |shards| && AllOpen(chains, shards)
    ensures Pay(chains, shards, sender, t, n).verdict == Accepted <==> AffordsOnAll(chains, shards, sender, t, n)
    ensures Pay(chains, shards, sender, t, n).verdict == Accepted ==>
            Pay(chains, shards, sender, t, n).chains == PaidOn(chains, shards, sender, t, n)
  {
    hide Affords, Transfer, TransferTimes, AffordsTimes, PaidOn, AffordsOnAll;
    if n == 0 {
      NonePaidYet(chains, shards, sender, t);
    } else {
      OneMorePayment(chains, shards, sender, t, n);
      hide Pay;
      PaysIff(chains, shards, sender, t, n - 1);
      PaidOnNext(chains, shards, sender, t, n);
      AffordsNext(chains, shards, sender, t, n);
    }
  }

  lemma NonePaidYet(chains: Chains, shards: seq<U32>, sender: Wallet, t: Transaction)
    ensures PaidOn(chains, shards, sender, t, 0) == chains && AffordsOnAll(chains, shards, sender, t, 0)
  {
    hide Affords, Transfer;
  }

  lemma OneMorePayment(chains: Chains, shards: seq<U32>, sender: Wallet, t: Transaction, n: nat)
    requires 0 < n <= |shards| && AllOpen(chains, shards)
    ensures var before, s := Pay(chains, shards, sender, t, n - 1), shards[n - 1];
            && s in before.chains
            && (Pay(chains, shards, sender, t, n).verdict == Accepted
                <==> before.verdict == Accepted && Affords(before.chains[s], sender, t))
            && (Pay(chains, shards, sender, t, n).verdict == Accepted ==>
                  Pay(chains, shards, sender, t, n).chains == before.chains[s := Transfer(before.chains[s], sender, t)])
  {
    assert shards[n - 1] in chains;
  }

  /** k payments to another account can be made exactly when the balance covers k times amount and gas. */
  lemma {:induction false} AffordsTimesIff(b: Balances, sender: Wallet, t: Transaction, k: nat)
    requires sender in b && sender != t.recipient && !Wraps(t)
    ensures AffordsTimes(b, sender, t, k) <==> k * (t.amount + t.gas) <= b[sender]
    ensures sender in TransferTimes(b, sender, t, k)
    ensures AffordsTimes(b, sender, t, k) ==>
            TransferTimes(b, sender, t, k)[sender] == b[sender] - k * (t.amount + t.gas)
  {
    if k == 0 {
    } else {
      AffordsTimesIff(b, sender, t, k - 1);
      assert k * (t.amount + t.gas) == (k - 1) * (t.amount + t.gas) + (t.amount + t.gas);
    }
  }

  /** Where a payment has been made once, it has taken its gas out of the supply exactly when the transfer does. */
  lemma AcceptedCostsGasIff(chains: Chains, shards: seq<U32>, sender: Wallet, t: Transaction, s: U32)
    requires AllOpen(chains, shards) && s in chains && Occurrences(shards, |shards|, s) == 1
    requires Pay(chains, shards, sender, t, |shards|).verdict == Accepted
    ensures Supply(Pay(chains, shards, sender, t, |shards|).chains[s]) == Supply(chains[s]) - t.gas
            <==> TakesItsGas(chains[s], sender, t)
  {
    PaysIff(chains, shards, sender, t, |shards|);
    TransferTakesGasIff(chains[s], sender, t);
    hide Transfer;
    assert TransferTimes(chains[s], sender, t, 1) == Transfer(TransferTimes(chains[s], sender, t, 0), sender, t);
  }

  /** What CheckMerkleProof keeps: the burned leaves, and the balances of each shard. */
  datatype Store = Store(receiptBurned: set<Bytes>, shardsChain: Chains)

  /** One call: the roots known at the time, and the shards of interest in the order Go iterates over them. */
  datatype Call = Call(proof: MerkleProof, roots: Roots, interests: seq<U32>)

  ghost predicate Callable(s: Store, c: Call) {
    |c.proof.mapLeaf| <= |c.proof.mapHash| && AllOpen(s.shardsChain, c.interests)
  }

  ghost predicate Takes(e: Encoding, s: Store, c: Call) {
    c.proof.leaf !in s.receiptBurned && Proves(e, c.roots, c.proof, c.proof.shard)
  }

  function PayerOf(p: Primitives, mp: MerkleProof): Wallet {
    Sender(p, mp.transaction)
  }

  ghost function Handled(p: Primitives, e: Encoding, s: Store, c: Call): Store
    requires Callable(s, c)
  {
    if !Takes(e, s, c) then s else
      Store(s.receiptBurned + {c.proof.leaf},
            Pay(s.shardsChain, c.interests, PayerOf(p, c.proof), c.proof.transaction, |c.interests|).chains)
  }

  ghost function VerdictOn(p: Primitives, e: Encoding, s: Store, c: Call): Verdict
    requires Callable(s, c)
  {
    if !Takes(e, s, c) then Rejected
    else Pay(s.shardsChain, c.interests, PayerOf(p, c.proof), c.proof.transaction, |c.interests|).verdict
  }

  class ReceiptStore {
    var receiptBurned: map<Bytes, bool>
    var shardsChain: Chains

    ghost function View(): Store
      reads this
    {
      Store((set leaf | leaf in receiptBurned && receiptBurned[leaf]), shardsChain)
    }

    constructor (shardsChain: Chains)
      ensures View() == Store({}, shardsChain)
    {
      receiptBurned, this.shardsChain := map[], shardsChain;
    }

    /** interests are the shards the interest strings other than "0" parse to. */
    method CheckMerkleProof(p: Primitives, e: Encoding, roots: Roots, mp: MerkleProof, interests: seq<U32>)
        returns (verdict: Verdict)
      requires Callable(View(), Call(mp, roots, interests))
      modifies this
      ensures verdict == old(VerdictOn(p, e, View(), Call(mp, roots, interests)))
      ensures View() == Handled(p, e, old(View()), Call(mp, roots, interests))
    {
      if mp.leaf in receiptBurned && receiptBurned[mp.leaf] {
        return Rejected;
      }
      var proved := VerifyProof(e, roots, mp, mp.shard);
      if !proved {
        return Rejected;
      }
      BurnLeaf(mp.leaf);
      verdict := PayOnShards(p, mp, interests);
    }

    method BurnLeaf(leaf: Bytes)
      modifies `receiptBurned
      ensures View().receiptBurned == old(View()).receiptBurned + {leaf}
    {
      receiptBurned := receiptBurned[leaf := true];
    }

    /** The loop over the interests. */
    method PayOnShards(p: Primitives, mp: MerkleProof, interests: seq<U32>) returns (verdict: Verdict)
      requires AllOpen(shardsChain, interests)
      modifies `shardsChain
      ensures Progress(shardsChain, verdict)
           == Pay(old(shardsChain), interests, PayerOf(p, mp), mp.transaction, |interests|)
    {
      var t := mp.transaction;
      var sender := PayerOf(p, mp);
      for i := 0 to |interests|
        invariant Pay(old(shardsChain), interests, sender, t, i) == Progress(shardsChain, Accepted)
      {
        var shard := interests[i];
        PayNext(old(shardsChain), interests, sender, t, i);
        hide Pay, Transfer, Affords;
        var balances;
        balances, verdict := PayOnShard(shardsChain[shard], sender, t);
        if verdict != Accepted {
          return;
        }
        shardsChain := shardsChain[shard := balances];
      }
      return Accepted;
    }

    /** The body of the loop. */
    static method PayOnShard(opening: Balances, sender: Wallet, t: Transaction)
        returns (balances: Balances, verdict: Verdict)
      ensures sender !in opening ==> verdict == UnknownSender
      ensures sender in opening && !Affords(opening, sender, t) ==> verdict == Insufficient
      ensures Affords(opening, sender, t) ==> verdict == Accepted && balances == Transfer(opening, sender, t)
    {
      balances := opening;
      if sender !in balances {
        return balances, UnknownSender;
      }
      var senderBalance := balances[sender];
      var (requiredBal, ok) := AddU64O(t.amount, t.gas);
      if requiredBal > senderBalance && ok {
        return balances, Insufficient;
      }
      var reciverBalance: U64 := if t.recipient in balances then balances[t.recipient] else 0;
      TransferByParts(balances, sender, t);
      balances := balances[sender := Wrap64(senderBalance - Wrap64(t.amount + t.gas))];
      balances := balances[t.recipient := Wrap64(reciverBalance + t.amount)];
      return balances, Accepted;
    }
  }

  // ----- What is proved and what is paid -----

  /** Moving what the receipt says, with the gas of the transaction beside it. */
  ghost predicate MovesReceipt(before: Balances, after: Balances, r: Receipt, t: Transaction) {
    MovesExactly(before, after, r.sender, t.(recipient := r.recipient, amount := r.amount))
  }

  /** The balances after the sender of b has paid k times. */
  ghost predicate HasPaid(b: Balances, after: Balances, sender: Wallet, t: Transaction, k: nat) {
    && sender in b && k * (t.amount + t.gas) <= b[sender]
    && after.Keys == b.Keys + (if k == 0 then {} else {t.recipient})
    && after[sender] == b[sender] - k * (t.amount + t.gas)
    && Balance(after, t.recipient) == Balance(b, t.recipient) + k * t.amount
    && forall w :: w in b && w != sender && w != t.recipient ==> after[w] == b[w]
  }

  lemma PaysAgain(b: Balances, before: Balances, sender: Wallet, t: Transaction, k: nat)
    requires sender != t.recipient && !Wraps(t) && Supply(b) < TWO_TO_THE_64
    requires HasPaid(b, before, sender, t, k) && Affords(before, sender, t)
    ensures HasPaid(b, Transfer(before, sender, t), sender, t, k + 1)
  {
    Distribute(k + 1, t.amount, t.gas);
    TwoBalances(b, sender, t.recipient);
    CoveredTransferIsExactIff(before, sender, t);
    hide Transfer, Supply;
    var after := Transfer(before, sender, t);
    assert after.Keys == b.Keys + {t.recipient};
  }

  lemma {:induction false} TransferTimesExact(b: Balances, sender: Wallet, t: Transaction, k: nat)
    requires sender in b && sender != t.recipient && !Wraps(t) && Supply(b) < TWO_TO_THE_64
    requires AffordsTimes(b, sender, t, k)
    ensures HasPaid(b, TransferTimes(b, sender, t, k), sender, t, k)
  {
    if k == 0 {
      assert TransferTimes(b, sender, t, 0) == b;
    } else {
      TransferTimesExact(b, sender, t, k - 1);
      PaysAgain(b, TransferTimes(b, sender, t, k - 1), sender, t, k - 1);
    }
    hide HasPaid, Transfer, Supply, Affords;
  }

  lemma Distribute(k: nat, amount: nat, gas: nat)
    requires 0 < k
    ensures k * (amount + gas) == (k - 1) * (amount + gas) + amount + gas
    ensures k * amount == (k - 1) * amount + amount
    ensures k * (amount + gas) == k * amount + k * gas && 0 <= (k - 1) * amount && 0 <= (k - 1) * gas
    ensures k * gas == gas <==> k == 1 || gas == 0
  {
    if k * gas == gas && gas != 0 && k != 1 {
      MulStrict(k, gas);
    }
  }

  lemma MulStrict(k: nat, gas: nat)
    requires 1 < k && 0 < gas
    ensures gas < k * gas
  {
    assert k * gas == gas + (k - 1) * gas;
  }

  /** A movement of money is that of a receipt exactly when accounts, gain and cost are the receipt's. */
  lemma ReceiptMovedIff(
      before: Balances, after: Balances, sender: Wallet, t: Transaction, cost: nat, gain: nat, r: Receipt)
    requires sender in before && sender != t.recipient && 0 < cost && 0 < gain
    requires after.Keys == before.Keys + {t.recipient} && after[sender] == before[sender] - cost
    requires after[t.recipient] == Balance(before, t.recipient) + gain
    requires forall w :: w in before && w != sender && w != t.recipient ==> after[w] == before[w]
    ensures MovesReceipt(before, after, r, t)
            <==> r.sender == sender && r.recipient == t.recipient && r.amount == gain && r.amount + t.gas == cost
  {
    if MovesReceipt(before, after, r, t) {
      assert after[sender] < before[sender];
      assert r.sender == sender && r.recipient != sender;
      assert r.recipient == t.recipient;
    }
  }

  /** k payments move a receipt exactly when it is over k times the amount, and gas is paid only once. */
  lemma MovesReceiptTimesIff(b: Balances, sender: Wallet, t: Transaction, k: nat, r: Receipt)
    requires sender in b && sender != t.recipient && !Wraps(t) && Supply(b) < TWO_TO_THE_64
    requires 0 < k && AffordsTimes(b, sender, t, k) && 0 < t.amount
    ensures TransferTimes(b, sender, t, k) != b
    ensures MovesReceipt(b, TransferTimes(b, sender, t, k), r, t)
            <==> && r.sender == sender && r.recipient == t.recipient
                 && r.amount == k * t.amount && (k == 1 || t.gas == 0)
  {
    TransferTimesExact(b, sender, t, k);
    Distribute(k, t.amount, t.gas);
    hide TransferTimes, AffordsTimes, Supply;
    ReceiptMovedIff(b, TransferTimes(b, sender, t, k), sender, t, k * (t.amount + t.gas), k * t.amount, r);
    hide MovesReceipt;
  }

  /** On one of the chains what the receipt says is moved, and the others stay as they are. */
  ghost predicate MovesOn(before: Chains, after: Chains, r: Receipt, t: Transaction, s: U32) {
    && s in before && s in after && before[s] != after[s] && MovesReceipt(before[s], after[s], r, t)
    && forall o :: o in before && o != s ==> o in after && after[o] == before[o]
  }

  ghost predicate MovesOnce(before: Chains, after: Chains, r: Receipt, t: Transaction) {
    exists s :: MovesOn(before, after, r, t, s)
  }

  ghost predicate AllAre(shards: seq<U32>, s: U32) {
    forall i :: 0 <= i < |shards| ==> shards[i] == s
  }

  lemma {:induction false} OccurrencesOf(shards: seq<U32>, n: nat, s: U32)
    requires n <= |shards|
    ensures Occurrences(shards, n, s) <= n
    ensures Occurrences(shards, n, s) == n <==> forall i :: 0 <= i < n ==> shards[i] == s
    ensures Occurrences(shards, n, s) == 0 <==> forall i :: 0 <= i < n ==> shards[i] != s
  {
    if n == 0 {
    } else {
      OccurrencesOf(shards, n - 1, s);
    }
  }

  /** What an accepted payment leaves on one chain. */
  lemma PaidShard(chains: Chains, shards: seq<U32>, sender: Wallet, t: Transaction, r: Receipt, s: U32)
    requires AllOpen(chains, shards) && Pay(chains, shards, sender, t, |shards|).verdict == Accepted
    requires sender != t.recipient && 0 < t.amount && !Wraps(t)
    requires s in chains && Supply(chains[s]) < TWO_TO_THE_64
    ensures var after, k := Pay(chains, shards, sender, t, |shards|).chains, Occurrences(shards, |shards|, s);
            && s in after
            && (s !in shards ==> after[s] == chains[s])
            && (s in shards ==>
                  && 0 < k && after[s] != chains[s]
                  && (MovesReceipt(chains[s], after[s], r, t)
                      <==> && r.sender == sender && r.recipient == t.recipient
                           && r.amount == k * t.amount && (k == 1 || t.gas == 0)))
  {
    var k := Occurrences(shards, |shards|, s);
    PaysIff(chains, shards, sender, t, |shards|);
    OccurrencesOf(shards, |shards|, s);
    assert Pay(chains, shards, sender, t, |shards|).chains[s] == TransferTimes(chains[s], sender, t, k);
    assert AffordsTimes(chains[s], sender, t, k);
    hide Pay, PaidOn, AffordsOnAll, AllOpen;
    if s in shards {
      AffordsKnown(chains[s], sender, t, k);
      MovesReceiptTimesIff(chains[s], sender, t, k, r);
    } else {
      assert k == 0;
      assert TransferTimes(chains[s], sender, t, 0) == chains[s];
    }
  }

  /** Paying moves a receipt on one chain exactly when every interest is that one and the receipt adds up. */
  lemma MovesOnIff(chains: Chains, shards: seq<U32>, sender: Wallet, t: Transaction, r: Receipt, s: U32)
    requires AllOpen(chains, shards) && Pay(chains, shards, sender, t, |shards|).verdict == Accepted
    requires sender != t.recipient && 0 < t.amount && !Wraps(t)
    requires forall o :: o in chains ==> Supply(chains[o]) < TWO_TO_THE_64
    ensures MovesOn(chains, Pay(chains, shards, sender, t, |shards|).chains, r, t, s)
            <==> && shards != [] && AllAre(shards, s)
                 && r.sender == sender && r.recipient == t.recipient
                 && r.amount == |shards| * t.amount && (|shards| == 1 || t.gas == 0)
  {
    var after := Pay(chains, shards, sender, t, |shards|).chains;
    forall o | o in chains
      ensures o in after && (after[o] != chains[o] <==> o in shards)
    {
      PaidShard(chains, shards, sender, t, r, o);
    }
    OccurrencesOf(shards, |shards|, s);
    if s in chains {
      PaidShard(chains, shards, sender, t, r, s);
    }
    if shards != [] {
      assert shards[0] in chains && shards[0] in shards;
    }
    hide Pay, Occurrences, MovesReceipt, Supply;
  }

  lemma {:induction false} AffordsKnown(b: Balances, sender: Wallet, t: Transaction, k: nat)
    requires AffordsTimes(b, sender, t, k) && 0 < k
    ensures sender in b
  {
    if k == 1 {
      assert TransferTimes(b, sender, t, 0) == b;
    } else {
      AffordsKnown(b, sender, t, k - 1);
    }
  }

  /** All interests are one shard, the receipt is over what is paid there in all, and gas is paid only once. */
  ghost predicate PaysTheReceipt(p: Primitives, c: Call) {
    var r, t, n := c.proof.receipt, c.proof.transaction, |c.interests|;
    && n != 0 && AllAre(c.interests, c.interests[0])
    && r == ReceiptOf(p, t).(amount := r.amount, nonce := r.nonce)
    && r.amount == n * t.amount && (n == 1 || t.gas == 0)
  }

  /**
    * The proof is of a receipt; the transaction that came with it is paid, once for every interest. An
    * accepted call moves what was proved, once over all chains, exactly when it pays the receipt; with gas
    * to pay, exactly when there is one interest and the transaction's own receipt is the proved one.
    */
  lemma PaysWhatItProvesIff(p: Primitives, e: Encoding, s: Store, c: Call)
    requires Callable(s, c) && Takes(e, s, c) && VerdictOn(p, e, s, c) == Accepted
    requires PayerOf(p, c.proof) != c.proof.transaction.recipient
    requires 0 < c.proof.transaction.amount && !Wraps(c.proof.transaction)
    requires forall o :: o in s.shardsChain ==> Supply(s.shardsChain[o]) < TWO_TO_THE_64
    ensures MovesOnce(s.shardsChain, Handled(p, e, s, c).shardsChain, c.proof.receipt, c.proof.transaction)
            <==> PaysTheReceipt(p, c)
    ensures 0 < c.proof.transaction.gas ==>
              (PaysTheReceipt(p, c) <==>
                 |c.interests| == 1
                 && ReceiptOf(p, c.proof.transaction) == c.proof.receipt.(nonce := c.proof.transaction.nonce))
  {
    var r, t := c.proof.receipt, c.proof.transaction;
    var after := Handled(p, e, s, c).shardsChain;
    forall o
      ensures MovesOn(s.shardsChain, after, r, t, o)
              <==> c.interests != [] && AllAre(c.interests, o) && PaysTheReceipt(p, c)
    {
      MovesOnIff(s.shardsChain, c.interests, PayerOf(p, c.proof), t, r, o);
      hide MovesOn, Handled, Pay;
    }
    hide MovesOn, Handled, Takes, VerdictOn, Pay;
    if PaysTheReceipt(p, c) {
      assert MovesOn(s.shardsChain, after, r, t, c.interests[0]);
    }
  }

  /** A proof of a receipt over 1 pays a transaction over 10 of an account the receipt does not name. */
  lemma OtherTransactionIsPaid(p: Primitives, e: Encoding, roots: Roots, mp: MerkleProof, other: Wallet)
    requires Proves(e, roots, mp, mp.shard) && mp.receipt.amount == 1 && mp.receipt.sender != PayerOf(p, mp)
    requires mp.transaction.amount == 10 && mp.transaction.gas == 1
    requires mp.transaction.recipient == other != PayerOf(p, mp)
    ensures var s := Store({}, map[1 := map[PayerOf(p, mp) := 100]]);
            && VerdictOn(p, e, s, Call(mp, roots, [1])) == Accepted
            && Handled(p, e, s, Call(mp, roots, [1])).shardsChain[1] == map[PayerOf(p, mp) := 89, other := 10]
  {
    var chains: Chains := map[1 := map[PayerOf(p, mp) := 100]];
    PayNext(chains, [1], PayerOf(p, mp), mp.transaction, 0);
  }

  /** The transaction's receipt is the proved one, there are two interests: one receipt over 10 moves 20. */
  lemma ReceiptIsPaidTwice(p: Primitives, e: Encoding, roots: Roots, mp: MerkleProof, other: Wallet)
    requires Proves(e, roots, mp, mp.shard) && mp.receipt == ReceiptOf(p, mp.transaction)
    requires mp.transaction.amount == 10 && mp.transaction.gas == 1
    requires mp.transaction.recipient == other != PayerOf(p, mp)
    ensures var payer := PayerOf(p, mp);
            var s := Store({}, map[1 := map[payer := 100], 2 := map[payer := 100]]);
            && VerdictOn(p, e, s, Call(mp, roots, [1, 2])) == Accepted
            && Handled(p, e, s, Call(mp, roots, [1, 2])).shardsChain
               == map[1 := map[payer := 89, other := 10], 2 := map[payer := 89, other := 10]]
  {
    var payer, t := PayerOf(p, mp), mp.transaction;
    var opening: Balances := map[payer := 100];
    var paid: Balances := map[payer := 89, other := 10];
    var chains: Chains := map[1 := opening, 2 := opening];
    assert Affords(opening, payer, t) && Transfer(opening, payer, t) == paid;
    hide Affords, Transfer;
    PayNext(chains, [1, 2], payer, t, 0);
    assert Pay(chains, [1, 2], payer, t, 1) == Progress(map[1 := paid, 2 := opening], Accepted);
    PayNext(chains, [1, 2], payer, t, 1);
  }

  /** The same with no account on the second chain: the call fails, and the first chain has paid. */
  lemma FailingCallPays(p: Primitives, e: Encoding, roots: Roots, mp: MerkleProof, other: Wallet)
    requires Proves(e, roots, mp, mp.shard) && mp.transaction.amount == 10 && mp.transaction.gas == 1
    requires mp.transaction.recipient == other != PayerOf(p, mp)
    ensures var payer := PayerOf(p, mp);
            var s := Store({}, map[1 := map[payer := 100], 2 := map[]]);
            && VerdictOn(p, e, s, Call(mp, roots, [1, 2])) == UnknownSender
            && Handled(p, e, s, Call(mp, roots, [1, 2])).shardsChain
               == map[1 := map[payer := 89, other := 10], 2 := map[]]
  {
    var payer, t := PayerOf(p, mp), mp.transaction;
    var opening: Balances := map[payer := 100];
    var none: Balances := map[];
    var paid: Balances := map[payer := 89, other := 10];
    var chains: Chains := map[1 := opening, 2 := none];
    assert Affords(opening, payer, t) && Transfer(opening, payer, t) == paid;
    hide Affords, Transfer;
    PayNext(chains, [1, 2], payer, t, 0);
    assert Pay(chains, [1, 2], payer, t, 1) == Progress(map[1 := paid, 2 := none], Accepted);
    PayNext(chains, [1, 2], payer, t, 1);
  }

  /** Without interests a proved leaf is burned and nothing is paid. */
  lemma NoInterestsBurn(p: Primitives, e: Encoding, s: Store, mp: MerkleProof, roots: Roots)
    requires Callable(s, Call(mp, roots, [])) && Takes(e, s, Call(mp, roots, []))
    ensures VerdictOn(p, e, s, Call(mp, roots, [])) == Accepted
    ensures Handled(p, e, s, Call(mp, roots, [])) == Store(s.receiptBurned + {mp.leaf}, s.shardsChain)
  {
  }

  /** A failure comes from the first shard that cannot pay, after all before it have. */
  lemma {:induction false} FirstFailure(
      chains: Chains, shards: seq<U32>, sender: Wallet, t: Transaction, n: nat) returns (m: nat)
    requires n <= |shards| && AllOpen(chains, shards) && Pay(chains, shards, sender, t, n).verdict != Accepted
    ensures m < n && Pay(chains, shards, sender, t, m).verdict == Accepted
    ensures Pay(chains, shards, sender, t, n).chains == Pay(chains, shards, sender, t, m).chains
    ensures shards[m] in chains && !Affords(Pay(chains, shards, sender, t, m).chains[shards[m]], sender, t)
    ensures Pay(chains, shards, sender, t, n).verdict
         == if sender in Pay(chains, shards, sender, t, m).chains[shards[m]] then Insufficient else UnknownSender
  {
    hide Transfer;
    if Pay(chains, shards, sender, t, n - 1).verdict == Accepted {
      m := n - 1;
      PayNext(chains, shards, sender, t, m);
    } else {
      m := FirstFailure(chains, shards, sender, t, n - 1);
    }
  }

  /** A call that fails leaves every balance as it was exactly when the first shard already cannot pay. */
  lemma FailureLeavesBalancesIff(p: Primitives, e: Encoding, s: Store, c: Call)
    requires Callable(s, c) && VerdictOn(p, e, s, c) in {UnknownSender, Insufficient}
    requires var t := c.proof.transaction;
             PayerOf(p, c.proof) != t.recipient && !Wraps(t) && 0 < t.amount + t.gas
    ensures c.interests != []
    ensures Handled(p, e, s, c).shardsChain == s.shardsChain
            <==> !Affords(s.shardsChain[c.interests[0]], PayerOf(p, c.proof), c.proof.transaction)
  {
    var chains, shards, sender, t := s.shardsChain, c.interests, PayerOf(p, c.proof), c.proof.transaction;
    var m := FirstFailure(chains, shards, sender, t, |shards|);
    if m != 0 {
      FirstHasPaid(chains, shards, sender, t, m);
    }
    hide Affords, Transfer;
  }

  lemma PaymentsCost(b: Balances, sender: Wallet, t: Transaction, k: nat)
    requires sender != t.recipient && !Wraps(t) && 0 < t.amount + t.gas && 0 < k && AffordsTimes(b, sender, t, k)
    ensures TransferTimes(b, sender, t, k) != b
  {
    AffordsKnown(b, sender, t, k);
    AffordsTimesIff(b, sender, t, k);
    Distribute(k, t.amount, t.gas);
    hide TransferTimes, AffordsTimes;
    assert TransferTimes(b, sender, t, k)[sender] < b[sender];
  }

  lemma FirstHasPaid(chains: Chains, shards: seq<U32>, sender: Wallet, t: Transaction, m: nat)
    requires 0 < m <= |shards| && AllOpen(chains, shards) && Pay(chains, shards, sender, t, m).verdict == Accepted
    requires sender != t.recipient && !Wraps(t) && 0 < t.amount + t.gas
    ensures shards[0] in chains && Affords(chains[shards[0]], sender, t)
    ensures Pay(chains, shards, sender, t, m).chains != chains
  {
    PayStops(chains, shards, sender, t, 1, m);
    OneMorePayment(chains, shards, sender, t, 1);
    PaysIff(chains, shards, sender, t, m);
    OccurrencesOf(shards, m, shards[0]);
    var s, k := shards[0], Occurrences(shards, m, shards[0]);
    assert Pay(chains, shards, sender, t, m).chains[s] == TransferTimes(chains[s], sender, t, k);
    hide Pay, PaidOn, Transfer, TransferTimes, Affords;
    assert AffordsTimes(chains[s], sender, t, k);
    hide AffordsOnAll, AffordsTimes, Occurrences;
    PaymentsCost(chains[s], sender, t, k);
  }

  // ----- Runs -----

  ghost predicate RunCallable(s: Store, run: seq<Call>) {
    forall i :: 0 <= i < |run| ==>
      |run[i].proof.mapLeaf| <= |run[i].proof.mapHash| && AllOpen(s.shardsChain, run[i].interests)
  }

  /** The store after the first n calls. */
  ghost function After(p: Primitives, e: Encoding, s: Store, run: seq<Call>, n: nat): (r: Store)
    requires n <= |run| && RunCallable(s, run)
    ensures r.shardsChain.Keys == s.shardsChain.Keys
  {
    if n == 0 then s else Handled(p, e, After(p, e, s, run, n - 1), run[n - 1])
  }

  lemma {:induction false} BurnedForever(p: Primitives, e: Encoding, s: Store, run: seq<Call>, n: nat, m: nat)
    requires n <= m <= |run| && RunCallable(s, run)
    ensures After(p, e, s, run, n).receiptBurned <= After(p, e, s, run, m).receiptBurned
    decreases m
  {
    if n < m {
      BurnedForever(p, e, s, run, n, m - 1);
    }
  }

  /** Over every run, two calls that change anything have different leaves: a leaf is paid on at most once. */
  lemma LeafPaysOnce(p: Primitives, e: Encoding, s: Store, run: seq<Call>, i: nat, j: nat)
    requires i < j < |run| && RunCallable(s, run)
    requires After(p, e, s, run, i + 1) != After(p, e, s, run, i)
    requires After(p, e, s, run, j + 1) != After(p, e, s, run, j)
    ensures run[i].proof.leaf != run[j].proof.leaf
  {
    BurnedForever(p, e, s, run, i + 1, j);
    assert Takes(e, After(p, e, s, run, i), run[i]);
    assert Takes(e, After(p, e, s, run, j), run[j]);
  }

  /** A leaf is burned before the balances are looked at: a proof that could not be paid never pays later. */
  lemma UnpaidLeafIsSpent(p: Primitives, e: Encoding, s: Store, run: seq<Call>, i: nat, j: nat)
    requires i < j < |run| && RunCallable(s, run) && run[i].proof.leaf == run[j].proof.leaf
    requires VerdictOn(p, e, After(p, e, s, run, i), run[i]) in {UnknownSender, Insufficient}
    ensures VerdictOn(p, e, After(p, e, s, run, j), run[j]) == Rejected
    ensures After(p, e, s, run, j + 1) == After(p, e, s, run, j)
  {
    BurnedForever(p, e, s, run, i + 1, j);
    assert run[i].proof.leaf in After(p, e, s, run, i + 1).receiptBurned;
  }

  // ----- What is rejected -----

  /** A shard's account can pay when it covers amount and gas, or when their sum wraps. */
  lemma CanPayIff(b: Balances, sender: Wallet, t: Transaction)
    ensures Affords(b, sender, t) <==>
            sender in b && (t.amount + t.gas <= b[sender] || TWO_TO_THE_64 <= t.amount + t.gas)
  {
  }

  /** Some list of signed roots stored for the shard holds the root. */
  ghost predicate Stored(roots: Roots, shard: U32, root: Bytes) {
    shard in roots && exists list :: list in roots[shard] && root in list
  }

  lemma StoredIff(roots: Roots, shard: U32, root: Bytes)
    ensures IsRoot(roots, shard, root) <==> Stored(roots, shard, root)
  {
    if Stored(roots, shard, root) {
      var list :| list in roots[shard] && root in list;
      var i :| 0 <= i < |roots[shard]| && roots[shard][i] == list;
      assert root in roots[shard][i];
    }
  }

  /**
    * A proof is rejected, and nothing changes, exactly when its leaf is burned, its root is stored nowhere
    * for its shard, its leaf is not the hash of its receipt, or it does not lead from the leaf to the root.
    */
  lemma RejectedIff(p: Primitives, e: Encoding, s: Store, c: Call)
    requires Callable(s, c)
    ensures var mp := c.proof;
            VerdictOn(p, e, s, c) == Rejected <==>
            || mp.leaf in s.receiptBurned
            || !(mp.shard in c.roots && exists list :: list in c.roots[mp.shard] && mp.root in list)
            || e.hash(e.marshal(mp.receipt)) != mp.leaf
            || Climb(e.hash, Rebuilt(mp.mapLeaf, mp.mapHash, |mp.mapLeaf|), mp.leaf, |mp.mapLeaf|) != Some(mp.root)
    ensures VerdictOn(p, e, s, c) == Rejected ==> Handled(p, e, s, c) == s
    ensures VerdictOn(p, e, s, c) != Rejected ==>
              Handled(p, e, s, c).receiptBurned == s.receiptBurned + {c.proof.leaf}
  {
    StoredIff(c.roots, c.proof.shard, c.proof.root);
    PayVerdict(s.shardsChain, c.interests, PayerOf(p, c.proof), c.proof.transaction, |c.interests|);
    hide Pay, Climb, IsRoot;
  }

  lemma {:induction false} PayVerdict(chains: Chains, shards: seq<U32>, sender: Wallet, t: Transaction, n: nat)
    requires n <= |shards| && AllOpen(chains, shards)
    ensures Pay(chains, shards, sender, t, n).verdict != Rejected
  {
    if n == 0 {
    } else {
      PayVerdict(chains, shards, sender, t, n - 1);
    }
  }

  /** A proof whose root no stored list holds is rejected, whatever else it says. */
  lemma UnknownRootIsRejected(p: Primitives, e: Encoding, s: Store, c: Call)
    requires Callable(s, c)
    requires c.proof.shard in c.roots ==> forall list :: list in c.roots[c.proof.shard] ==> c.proof.root !in list
    ensures VerdictOn(p, e, s, c) == Rejected && Handled(p, e, s, c) == s
  {
    RejectedIff(p, e, s, c);
  }
}
