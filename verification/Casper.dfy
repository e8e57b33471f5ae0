/** Checkpoint voting (networking/casper.go): the ancestry walk, the count and the two-thirds threshold. */
module Casper {
  import opened Book
  import opened Chain
  import opened Overflow
  import opened Sequences
  import opened Sets
  import opened Transactions
  import opened Wrappers

  datatype Vote = Vote(source: Bytes, target: Bytes, sourceHeight: U64, targetHeight: U64, publicKey: Wallet)

  /** Hashing, and the previous-block hash an encoded block carries. */
  datatype Codec = Codec(hash: Bytes -> Bytes, prevHash: Bytes -> Bytes)

  /** SHA-256 has 32 bytes; no bytes at all decode to a block without a previous hash. */
  ghost predicate WellFormed(k: Codec) {
    (forall raw: Bytes :: |k.hash(raw)| == 32) && k.prevHash([]) == []
  }

  /** What voting reads of one shard's chain: encoded blocks by height. */
  datatype ShardChain = ShardChain(blocks: map<nat, Bytes>, currentBlock: U64, currentCheckpoint: U64)

  /** GetBlock, its error ignored: a missing block is no bytes. */
  function GetBlock(c: ShardChain, i: nat): Bytes {
    if i in c.blocks then c.blocks[i] else []
  }

  predicate IsJustified(currentCheckpoint: U64, index: nat) {
    index <= currentCheckpoint
  }

  // ----- The walk -----

  /** PastGenesis: where the source's unsigned counter, always >= 0, wraps below height zero. */
  datatype Verdict = Valid | Invalid | PastGenesis

  /** The loop of IsVoteValid from height i, looking for prevHash. */
  function Walk(k: Codec, c: ShardChain, source: Bytes, prevHash: Bytes, i: nat): Verdict
    decreases i
  {
    var raw := GetBlock(c, i);
    var equal := prevHash == k.hash(raw);
    if equal && k.hash(raw) == source then Valid
    else if equal && k.prevHash(raw) == [] then
      if i == 0 then PastGenesis else Walk(k, c, source, prevHash, i - 1)
    else if IsJustified(c.currentCheckpoint, i) then Invalid
    else Walk(k, c, source, if equal then k.prevHash(raw) else prevHash, i - 1)
  }

  /** From height zero the counter wraps at once. */
  function Verify(k: Codec, c: ShardChain, source: Bytes, targetHeight: nat): Verdict {
    if targetHeight == 0 then PastGenesis
    else Walk(k, c, source, k.prevHash(GetBlock(c, targetHeight)), targetHeight - 1)
  }

  /** The target hash is a parameter of the source that its body does not read. */
  method IsVoteValid(k: Codec, c: ShardChain, sourceHash: Bytes, targetHash: Bytes, targetHeight: nat)
      returns (verdict: Verdict)
    ensures verdict == Verify(k, c, sourceHash, targetHeight)
  {
    var prevHash := k.prevHash(GetBlock(c, targetHeight));
    var i := targetHeight - 1;
    while 0 <= i
      invariant -1 <= i
      invariant 0 <= i ==> Walk(k, c, sourceHash, prevHash, i) == Verify(k, c, sourceHash, targetHeight)
      invariant i == -1 ==> Verify(k, c, sourceHash, targetHeight) == PastGenesis
    {
      var byteBlock := GetBlock(c, i);
      var currentHash := k.hash(byteBlock);
      var equal := prevHash == currentHash;
      var isTheSource := currentHash == sourceHash;
      if isTheSource && equal {
        return Valid;
      }
      if equal {
        if |k.prevHash(byteBlock)| < 1 {
          i := i - 1;
          continue;
        }
        prevHash := k.prevHash(byteBlock);
      }
      if IsJustified(c.currentCheckpoint, i) {
        return Invalid;
      }
      i := i - 1;
    }
    return PastGenesis;
  }

  // ----- Ancestry, independently of the walk -----

  /** The last height a walk from i looks at: the first at or below the checkpoint. */
  function Floor(c: ShardChain, i: nat): nat {
    if i <= c.currentCheckpoint then i else c.currentCheckpoint
  }

  /**
    * path lists strictly decreasing heights, below a height and not under floor; what the first holds has
    * the hash h, what each of the others holds the hash its predecessor names, and the last is the source.
    */
  ghost predicate Descent(
      k: Codec, c: ShardChain, h: Bytes, below: nat, floor: nat, path: seq<nat>, source: Bytes)
    decreases |path|
  {
    && path != [] && floor <= path[0] < below
    && k.hash(GetBlock(c, path[0])) == h
    && if |path| == 1 then h == source
       else Descent(k, c, k.prevHash(GetBlock(c, path[0])), path[0], floor, path[1..], source)
  }

  ghost predicate IsAncestor(k: Codec, c: ShardChain, source: Bytes, targetHeight: nat) {
    targetHeight != 0 &&
    var h, floor := k.prevHash(GetBlock(c, targetHeight)), Floor(c, targetHeight - 1);
    exists path :: Descent(k, c, h, targetHeight, floor, path, source)
  }

  /** What is at two heights up to the target has the same hash only if it is the same. */
  ghost predicate NoCollision(k: Codec, c: ShardChain, top: nat) {
    forall i: nat, j: nat :: i <= top && j <= top && k.hash(GetBlock(c, i)) == k.hash(GetBlock(c, j)) ==>
      GetBlock(c, i) == GetBlock(c, j)
  }

  /** Everything on the way to a source is stored, unless the source is the hash of nothing. */
  lemma {:induction false} DescentIsStored(
      k: Codec, c: ShardChain, h: Bytes, below: nat, floor: nat, path: seq<nat>, source: Bytes)
    requires WellFormed(k) && Descent(k, c, h, below, floor, path, source) && source != k.hash([])
    ensures forall i :: i in path ==> i in c.blocks
    decreases |path|
  {
    if |path| == 1 {
    } else {
      DescentIsStored(k, c, k.prevHash(GetBlock(c, path[0])), path[0], floor, path[1..], source);
      assert path[1..][0] == path[1];
      assert |k.hash(GetBlock(c, path[1]))| == 32;
      assert path == [path[0]] + path[1..];
    }
  }

  /** A block without a previous hash is walked on from with the hash it has itself, which leads nowhere. */
  lemma {:induction false} WalkAfterDeadEnd(k: Codec, c: ShardChain, source: Bytes, dead: Bytes, i: nat)
    requires forall j :: 0 <= j <= i && k.hash(GetBlock(c, j)) == k.hash(dead) ==> GetBlock(c, j) == dead
    requires k.prevHash(dead) == [] && k.hash(dead) != source
    ensures !Walk(k, c, source, k.hash(dead), i).Valid?
    decreases i
  {
    if i != 0 {
      WalkAfterDeadEnd(k, c, source, dead, i - 1);
    }
  }

  lemma {:induction false} WalkFindsPath(
      k: Codec, c: ShardChain, source: Bytes, h: Bytes, i: nat) returns (path: seq<nat>)
    requires WellFormed(k) && NoCollision(k, c, i) && Walk(k, c, source, h, i).Valid?
    ensures Descent(k, c, h, i + 1, Floor(c, i), path, source)
    decreases i
  {
    var raw := GetBlock(c, i);
    if h == k.hash(raw) && h == source {
      path := [i];
    } else if h == k.hash(raw) {
      if k.prevHash(raw) == [] && i != 0 {
        WalkAfterDeadEnd(k, c, source, raw, i - 1);
      }
      var rest := WalkFindsPath(k, c, source, k.prevHash(raw), i - 1);
      path := [i] + rest;
      assert path[1..] == rest;
    } else {
      path := WalkFindsPath(k, c, source, h, i - 1);
    }
  }

  lemma {:induction false} PathIsFound(
      k: Codec, c: ShardChain, source: Bytes, h: Bytes, i: nat, path: seq<nat>)
    requires WellFormed(k) && NoCollision(k, c, i) && Descent(k, c, h, i + 1, Floor(c, i), path, source)
    ensures Walk(k, c, source, h, i).Valid?
    decreases i
  {
    var raw := GetBlock(c, i);
    if h == k.hash(raw) {
      assert GetBlock(c, path[0]) == raw;
      if h != source {
        assert path[1..][0] < path[0] <= i;
        assert |k.hash(GetBlock(c, path[1..][0]))| == 32;
        PathIsFound(k, c, source, k.prevHash(raw), i - 1, path[1..]);
      }
    } else {
      assert path[0] <= i - 1;
      PathIsFound(k, c, source, h, i - 1, path);
    }
  }

  /**
    * A vote is valid exactly when its source is an ancestor of the target, reached by previous-hash links
    * at decreasing heights, down to the first height at or below the checkpoint.
    */
  lemma VoteValidIff(k: Codec, c: ShardChain, source: Bytes, targetHeight: nat)
    requires WellFormed(k) && NoCollision(k, c, targetHeight)
    ensures Verify(k, c, source, targetHeight).Valid? <==> IsAncestor(k, c, source, targetHeight)
  {
    if targetHeight != 0 {
      var h := k.prevHash(GetBlock(c, targetHeight));
      var i := targetHeight - 1;
      if Verify(k, c, source, targetHeight).Valid? {
        var path := WalkFindsPath(k, c, source, h, i);
      }
      if IsAncestor(k, c, source, targetHeight) {
        var path :| Descent(k, c, h, targetHeight, Floor(c, i), path, source);
        PathIsFound(k, c, source, h, i, path);
      }
    }
  }

  // ----- Past genesis -----

  /** At every height down from floor there is what is at height zero. */
  ghost predicate Bottom(c: ShardChain, floor: nat) {
    forall j: nat :: j <= floor ==> GetBlock(c, j) == GetBlock(c, 0)
  }

  /** A walk for the hash of what is at the bottom finds it. */
  lemma {:induction false} WalkFindsBottom(k: Codec, c: ShardChain, i: nat)
    requires Bottom(c, Floor(c, i))
    ensures Walk(k, c, k.hash(GetBlock(c, 0)), k.hash(GetBlock(c, 0)), i).Valid?
    decreases i
  {
    if k.hash(GetBlock(c, i)) != k.hash(GetBlock(c, 0)) {
      WalkFindsBottom(k, c, i - 1);
    }
  }

  /** The walk for source passes the bottom, told from two walks that do not. */
  ghost predicate Passes(k: Codec, c: ShardChain, source: Bytes, h: Bytes, i: nat) {
    && k.prevHash(GetBlock(c, 0)) == [] && Bottom(c, Floor(c, i))
    && Walk(k, c, k.hash(GetBlock(c, 0)), h, i).Valid? && !Walk(k, c, source, h, i).Valid?
  }

  /** A matched block without a previous hash above the bottom: the walk goes on with the same hash. */
  lemma PassesDeadEnd(k: Codec, c: ShardChain, source: Bytes, i: nat)
    requires NoCollision(k, c, i) && 0 < i
    requires k.prevHash(GetBlock(c, i)) == [] && k.hash(GetBlock(c, i)) != source
    ensures Passes(k, c, source, k.hash(GetBlock(c, i)), i) <==> Passes(k, c, source, k.hash(GetBlock(c, i)), i - 1)
  {
    var raw := GetBlock(c, i);
    if raw == GetBlock(c, 0) {
      if Bottom(c, Floor(c, i - 1)) {
        WalkFindsBottom(k, c, i - 1);
      }
    } else {
      assert k.hash(raw) != k.hash(GetBlock(c, 0));
      WalkAfterDeadEnd(k, c, k.hash(GetBlock(c, 0)), raw, i - 1);
    }
  }

  lemma {:induction false} WalkPastGenesis(k: Codec, c: ShardChain, source: Bytes, h: Bytes, i: nat)
    requires NoCollision(k, c, i)
    ensures Walk(k, c, source, h, i).PastGenesis? <==> Passes(k, c, source, h, i)
    decreases i
  {
    var raw := GetBlock(c, i);
    var equal, dead := h == k.hash(raw), k.prevHash(raw) == [];
    if i == 0 || (equal && h == source) || (IsJustified(c.currentCheckpoint, i) && !(equal && dead)) {
    } else if equal && dead {
      PassesDeadEnd(k, c, source, i);
      WalkPastGenesis(k, c, source, h, i - 1);
    } else {
      WalkPastGenesis(k, c, source, if equal then k.prevHash(raw) else h, i - 1);
    }
  }

  /**
    * The walk leaves the chain at the bottom exactly when it starts there; or when height zero holds a
    * block without a previous hash that is an ancestor, every height up to the checkpoint holds the same,
    * and the source is no ancestor.
    */
  lemma PastGenesisIff(k: Codec, c: ShardChain, source: Bytes, targetHeight: nat)
    requires WellFormed(k) && NoCollision(k, c, targetHeight)
    ensures Verify(k, c, source, targetHeight).PastGenesis? <==>
            || targetHeight == 0
            || (&& k.prevHash(GetBlock(c, 0)) == [] && Bottom(c, Floor(c, targetHeight - 1))
                && IsAncestor(k, c, k.hash(GetBlock(c, 0)), targetHeight) && !IsAncestor(k, c, source, targetHeight))
  {
    if targetHeight != 0 {
      WalkPastGenesis(k, c, source, k.prevHash(GetBlock(c, targetHeight)), targetHeight - 1);
      VoteValidIff(k, c, source, targetHeight);
      VoteValidIff(k, c, k.hash(GetBlock(c, 0)), targetHeight);
    }
  }

  /** A chain of two blocks and a vote with an unknown source: the walk passes genesis. */
  lemma UnknownSourcePassesGenesis(k: Codec, c: ShardChain, genesis: Bytes, next: Bytes, source: Bytes)
    requires c.blocks == map[0 := genesis, 1 := next] && c.currentCheckpoint == 0
    requires k.prevHash(genesis) == [] && k.prevHash(next) == k.hash(genesis) && source != k.hash(genesis)
    ensures Verify(k, c, source, 1) == PastGenesis
  {
  }

  // ----- The count -----

  /** One call of CheckpointAgreement: what it reads besides the votes. */
  datatype Round = Round(codec: Codec, book: Book, chain: ShardChain, sourceHeight: U64, targetHeight: U64, shard: U32)

  /** The vote passes all the checks of the counting loop. */
  predicate Eligible(r: Round, v: Vote) {
    && v.sourceHeight == r.sourceHeight && v.targetHeight == r.targetHeight
    && v.publicKey in r.book.valsArray && r.book.valsArray[v.publicKey].shard == r.shard
    && CheckDynasty(r.book, v.publicKey, r.chain.currentBlock)
    && Verify(r.codec, r.chain, v.source, v.targetHeight).Valid?
  }

  /**
    * The checks in plain terms: the round's heights, a validator of the shard within its dynasty, and a
    * source that is an ancestor of what is stored at the target height.
    */
  lemma EligibleIff(r: Round, v: Vote)
    requires WellFormed(r.codec) && NoCollision(r.codec, r.chain, v.targetHeight)
    requires r.chain.currentBlock < TWO_TO_THE_63
    requires v.publicKey in r.book.valsArray ==>
               var w := r.book.valsArray[v.publicKey];
               && -TWO_TO_THE_63 <= w.startDynasty < TWO_TO_THE_63 - 200
               && -TWO_TO_THE_63 <= w.endDynasty < TWO_TO_THE_63 - 200
    ensures Eligible(r, v) <==>
            && v.sourceHeight == r.sourceHeight && v.targetHeight == r.targetHeight
            && v.publicKey in r.book.valsArray
            && var w := r.book.valsArray[v.publicKey];
            && w.shard == r.shard
            && w.startDynasty + 200 < r.chain.currentBlock
            && (w.endDynasty == -1 || r.chain.currentBlock < w.endDynasty + 200)
            && IsAncestor(r.codec, r.chain, v.source, v.targetHeight)
  {
    VoteValidIff(r.codec, r.chain, v.source, v.targetHeight);
    if v.publicKey in r.book.valsArray {
      InDynastyIff(r.book.valsArray[v.publicKey], r.chain.currentBlock);
    }
    hide Verify, IsAncestor, InDynasty;
  }

  /** How many eligible votes w has among the votes. */
  function Times(r: Round, votes: seq<Vote>, w: Wallet): nat {
    if votes == [] then 0 else
      var last := votes[|votes| - 1];
      Times(r, votes[..|votes| - 1], w) + if Eligible(r, last) && last.publicKey == w then 1 else 0
  }

  /** The wallets that cast exactly one eligible vote. */
  ghost function Counted(r: Round, votes: seq<Vote>): set<Wallet> {
    set w | w in ShardMembers(r.book, r.shard) && Times(r, votes, w) == 1
  }

  lemma {:induction false} VotersAreMembers(r: Round, votes: seq<Vote>, w: Wallet)
    ensures 0 < Times(r, votes, w) ==> w in ShardMembers(r.book, r.shard)
  {
    if votes == [] {
    } else {
      VotersAreMembers(r, votes[..|votes| - 1], w);
    }
  }

  lemma TimesOneMore(r: Round, votes: seq<Vote>, v: Vote, w: Wallet)
    ensures Times(r, votes + [v], w) == Times(r, votes, w) + if Eligible(r, v) && v.publicKey == w then 1 else 0
  {
    assert (votes + [v])[..|votes|] == votes;
  }

  function Weight(r: Round, w: Wallet): Vote -> int {
    v => if Eligible(r, v) && v.publicKey == w then 1 else 0
  }

  lemma {:induction false} TimesIsSum(r: Round, votes: seq<Vote>, w: Wallet)
    ensures Times(r, votes, w) == Sum(Map(Weight(r, w), votes))
  {
    hide Eligible;
    if votes == [] {
    } else {
      var n := |votes| - 1;
      TimesIsSum(r, votes[..n], w);
      assert Map(Weight(r, w), votes)[..n] == Map(Weight(r, w), votes[..n]);
    }
  }

  /** Counting does not depend on the order in which the votes came. */
  lemma OrderDoesNotMatter(r: Round, a: seq<Vote>, b: seq<Vote>, w: Wallet)
    requires multiset(a) == multiset(b)
    ensures Times(r, a, w) == Times(r, b, w)
  {
    TimesIsSum(r, a, w);
    TimesIsSum(r, b, w);
    SumRearranged(Weight(r, w), a, b);
  }

  /** Votes repeated by their own wallet only take that wallet out of the count. */
  lemma RepeatedVoteDropsItsVoter(r: Round, votes: seq<Vote>, v: Vote)
    requires Eligible(r, v)
    ensures Counted(r, votes + [v])
            == if Times(r, votes, v.publicKey) == 0 then Counted(r, votes) + {v.publicKey}
               else Counted(r, votes) - {v.publicKey}
  {
    forall w
      ensures Times(r, votes + [v], w) == Times(r, votes, w) + if v.publicKey == w then 1 else 0
    {
      TimesOneMore(r, votes, v, w);
    }
  }

  // ----- The target a vote names -----

  /** The votes differ at most in the targets they name. */
  ghost predicate SameButTargets(votes: seq<Vote>, others: seq<Vote>) {
    |votes| == |others| && forall i :: 0 <= i < |votes| ==> others[i] == votes[i].(target := others[i].target)
  }

  lemma {:induction false} TimesIgnoresTargets(r: Round, votes: seq<Vote>, others: seq<Vote>, w: Wallet)
    requires SameButTargets(votes, others)
    ensures Times(r, others, w) == Times(r, votes, w)
    decreases |votes|
  {
    if votes == [] {
    } else {
      TimesIgnoresTargets(r, votes[..|votes| - 1], others[..|votes| - 1], w);
    }
  }

  /** Which targets the votes name makes no difference to who is counted. */
  lemma TargetsAreIgnored(r: Round, votes: seq<Vote>, others: seq<Vote>)
    requires SameButTargets(votes, others)
    ensures Counted(r, others) == Counted(r, votes) && (Agrees(r, others) <==> Agrees(r, votes))
  {
    forall w
      ensures Times(r, others, w) == Times(r, votes, w)
    {
      TimesIgnoresTargets(r, votes, others, w);
    }
  }

  /** Three validators agree on three different targets. */
  lemma DifferentTargetsAgree(r: Round, a: Vote, b: Vote, c: Vote)
    requires Eligible(r, a) && Eligible(r, b) && Eligible(r, c)
    requires ShardMembers(r.book, r.shard) == {a.publicKey, b.publicKey, c.publicKey}
    requires a.publicKey != b.publicKey && b.publicKey != c.publicKey && a.publicKey != c.publicKey
    requires a.target != b.target && b.target != c.target && a.target != c.target
    ensures Agrees(r, [a, b, c])
  {
    hide Eligible;
    forall w
      ensures Times(r, [a, b, c], w)
           == (if a.publicKey == w then 1 else 0) + (if b.publicKey == w then 1 else 0)
              + if c.publicKey == w then 1 else 0
    {
      assert [a] == [] + [a] && [a, b] == [a] + [b] && [a, b, c] == [a, b] + [c];
      TimesOneMore(r, [], a, w);
      TimesOneMore(r, [a], b, w);
      TimesOneMore(r, [a, b], c, w);
    }
    assert Counted(r, [a, b, c]) == ShardMembers(r.book, r.shard);
  }

  /** What a vote says: which blocks are at its two heights, and that one descends from the other. */
  ghost predicate SaysTheTruth(k: Codec, c: ShardChain, v: Vote) {
    && k.hash(GetBlock(c, v.targetHeight)) == v.target && k.hash(GetBlock(c, v.sourceHeight)) == v.source
    && IsAncestor(k, c, v.source, v.targetHeight)
  }

  /**
    * An eligible vote's source is an ancestor of what is stored at its target height. It is one of the
    * target the vote names exactly when the stored block is that target, and at the height the vote names
    * exactly when that is stored there.
    */
  lemma EligibleVoteIsTrueIff(r: Round, v: Vote)
    requires WellFormed(r.codec) && NoCollision(r.codec, r.chain, r.targetHeight) && Eligible(r, v)
    ensures SaysTheTruth(r.codec, r.chain, v)
            <==> && v.target == r.codec.hash(GetBlock(r.chain, v.targetHeight))
                 && v.source == r.codec.hash(GetBlock(r.chain, v.sourceHeight))
  {
    VoteValidIff(r.codec, r.chain, v.source, v.targetHeight);
  }

  // ----- The threshold -----

  /** More than two thirds of the shard's validators are counted. */
  ghost predicate Agrees(r: Round, votes: seq<Vote>) {
    3 * |Counted(r, votes)| > 2 * |ShardMembers(r.book, r.shard)|
  }

  /**
    * Two agreements over the same validators of a shard, whatever their heights, chains and votes, share
    * more than a third of the validators.
    */
  lemma QuorumsIntersect(r: Round, votes: seq<Vote>, s: Round, others: seq<Vote>)
    requires ShardMembers(r.book, r.shard) == ShardMembers(s.book, s.shard)
    requires Agrees(r, votes) && Agrees(s, others)
    ensures 3 * |Counted(r, votes) * Counted(s, others)| > |ShardMembers(r.book, r.shard)|
  {
    Overlap(Counted(r, votes), Counted(s, others), ShardMembers(r.book, r.shard));
  }

  // ----- The store -----

  class ConnectionStore {
    var receivedVotes: seq<Vote>
    const validators: ValidatorsBook
    var shardsChain: map<U32, ShardChain>
    // CasperVotesDb and CurrentVote of each shard
    var casperVotesDb: map<(U32, U64), Vote>
    var currentVote: map<U32, U64>
    const codec: Codec

    ghost function RoundFor(sourceHeight: U64, targetHeight: U64, currentShard: U32): Round
      requires currentShard in shardsChain
      reads this, validators
    {
      Round(codec, validators.View(), shardsChain[currentShard], sourceHeight, targetHeight, currentShard)
    }

    constructor (codec: Codec, validators: ValidatorsBook, shardsChain: map<U32, ShardChain>)
      ensures this.codec == codec && this.validators == validators && this.shardsChain == shardsChain
      ensures receivedVotes == [] && casperVotesDb == map[]
      ensures currentVote == map s | s in shardsChain :: 0
    {
      this.codec, this.validators, this.shardsChain := codec, validators, shardsChain;
      receivedVotes, casperVotesDb := [], map[];
      currentVote := map s | s in shardsChain :: 0;
    }

    /** The checks of the counting loop, in its order. */
    method Accepts(vote: Vote, sourceHeight: U64, targetHeight: U64, currentShard: U32) returns (ok: bool)
      requires currentShard in shardsChain
      ensures ok == Eligible(RoundFor(sourceHeight, targetHeight, currentShard), vote)
    {
      if vote.sourceHeight != sourceHeight {
        return false;
      }
      if vote.targetHeight != targetHeight {
        return false;
      }
      var shardSender := validators.GetShard(vote.publicKey);
      if shardSender.None? || shardSender.value != currentShard {
        return false;
      }
      var inDynasty := validators.CheckDynastyOf(vote.publicKey, shardsChain[currentShard].currentBlock);
      if !inDynasty {
        return false;
      }
      var verdict := IsVoteValid(codec, shardsChain[currentShard], vote.source, vote.target, vote.targetHeight);
      return verdict.Valid?;
    }

    /** The first two loops: collect the voters, then delete those who voted twice. */
    method CountVotes(sourceHeight: U64, targetHeight: U64, currentShard: U32) returns (mapVote: set<Wallet>)
      requires currentShard in shardsChain
      ensures mapVote == Counted(RoundFor(sourceHeight, targetHeight, currentShard), receivedVotes)
    {
      ghost var r := RoundFor(sourceHeight, targetHeight, currentShard);
      mapVote := {};
      var userToRemove: seq<Wallet> := [];
      for i := 0 to |receivedVotes|
        invariant forall w :: w in mapVote <==> 0 < Times(r, receivedVotes[..i], w)
        invariant forall w :: w in userToRemove <==> 1 < Times(r, receivedVotes[..i], w)
      {
        var vote := receivedVotes[i];
        assert receivedVotes[..i + 1][..i] == receivedVotes[..i];
        var ok := Accepts(vote, sourceHeight, targetHeight, currentShard);
        if !ok {
          continue;
        }
        if vote.publicKey in mapVote {
          userToRemove := userToRemove + [vote.publicKey];
        }
        mapVote := mapVote + {vote.publicKey};
      }
      assert receivedVotes[..|receivedVotes|] == receivedVotes;
      for i := 0 to |userToRemove|
        invariant forall w :: w in mapVote <==> 0 < Times(r, receivedVotes, w) && w !in userToRemove[..i]
      {
        mapVote := mapVote - {userToRemove[i]};
      }
      forall w
        ensures w in mapVote <==> w in Counted(r, receivedVotes)
      {
        VotersAreMembers(r, receivedVotes, w);
      }
    }

    method CheckpointAgreement(sourceHeight: U64, targetHeight: U64, currentShard: U32) returns (agreed: bool)
      requires currentShard in shardsChain
      modifies `receivedVotes, `shardsChain
      ensures agreed == old(Agrees(RoundFor(sourceHeight, targetHeight, currentShard), receivedVotes))
      ensures receivedVotes == if agreed then [] else old(receivedVotes)
      ensures shardsChain == if !agreed then old(shardsChain) else
                old(shardsChain)[currentShard := old(shardsChain)[currentShard].(currentCheckpoint := targetHeight)]
    {
      var mapVote := CountVotes(sourceHeight, targetHeight, currentShard);
      var n := validators.LenValidators(currentShard);
      if |mapVote| > 2 * n / 3 {
        receivedVotes := [];
        shardsChain := shardsChain[currentShard := shardsChain[currentShard].(currentCheckpoint := targetHeight)];
        return true;
      }
      return false;
    }

    /** CurrentVote is read, never advanced, so every vote is stored at the same place. */
    method AddVote(vote: Vote, shard: U32)
      requires shard in currentVote
      modifies `receivedVotes, `casperVotesDb
      ensures vote.publicKey !in validators.valsArray ==>
                receivedVotes == old(receivedVotes) && casperVotesDb == old(casperVotesDb)
      ensures vote.publicKey in validators.valsArray ==>
                && receivedVotes == old(receivedVotes) + [vote]
                && casperVotesDb == old(casperVotesDb)[(shard, currentVote[shard]) := vote]
    {
      var known := validators.CheckIsValidator(vote.publicKey);
      if !known {
        return;
      }
      receivedVotes := receivedVotes + [vote];
      casperVotesDb := casperVotesDb[(shard, currentVote[shard]) := vote];
    }
  }
}
