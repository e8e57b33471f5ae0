/** The stake-weighted choice of ChooseValidator (blockchain/validators.go), as a function. */
module Choice {
  import opened Book
  import opened Overflow
  import opened Sequences
  import opened Transactions
  import opened Wrappers

  /** Go's seeded generator: r.Perm(n) and rand.Float64(), each a function of the seed. */
  datatype Rng = Rng(perm: (int, nat) -> seq<nat>, unit: int -> real)

  function Iota(n: nat): seq<nat> {
    seq(n, k => k)
  }

  ghost predicate Fair(rng: Rng) {
    && (forall seed: int, n: nat :: multiset(rng.perm(seed, n)) == multiset(Iota(n)))
    && (forall seed: int :: 0.0 <= rng.unit(seed) < 1.0)
  }

  datatype Stake = Stake(wallet: Wallet, stake: U64)

  // ----- sort.Strings -----

  predicate Before(a: string, b: string) {
    if a == "" then b != ""
    else b != "" && (a[0] < b[0] || (a[0] == b[0] && Before(a[1..], b[1..])))
  }

  ghost predicate Ascending(s: seq<string>) {
    forall i, j :: 0 <= i < j < |s| ==> Before(s[i], s[j])
  }

  lemma {:induction false} BeforeTotal(a: string, b: string)
    ensures a == b || Before(a, b) || Before(b, a)
    ensures !(Before(a, b) && Before(b, a)) && !Before(a, a)
  {
    if a != "" && b != "" {
      BeforeTotal(a[1..], b[1..]);
      assert a == [a[0]] + a[1..] && b == [b[0]] + b[1..];
    }
    if a != "" {
      BeforeIrreflexive(a);
    }
  }

  lemma {:induction false} BeforeIrreflexive(a: string)
    ensures !Before(a, a)
  {
    if a != "" {
      BeforeIrreflexive(a[1..]);
    }
  }

  lemma {:induction false} BeforeTransitive(a: string, b: string, c: string)
    requires Before(a, b) && Before(b, c)
    ensures Before(a, c)
  {
    if a != "" && a[0] == b[0] && b[0] == c[0] {
      BeforeTransitive(a[1..], b[1..], c[1..]);
    }
  }

  function Insert(s: seq<string>, w: string): seq<string> {
    if s == [] then [w]
    else if Before(w, s[0]) then [w] + s
    else [s[0]] + Insert(s[1..], w)
  }

  function SortStrings(s: seq<string>): seq<string> {
    if s == [] then [] else Insert(SortStrings(s[..|s| - 1]), s[|s| - 1])
  }

  lemma {:induction false} InsertPermutes(s: seq<string>, w: string)
    ensures multiset(Insert(s, w)) == multiset(s) + multiset{w}
  {
    hide Before;
    if s == [] || Before(w, s[0]) {
      assert Insert(s, w) == [w] + s;
    } else {
      InsertPermutes(s[1..], w);
      assert Insert(s, w) == [s[0]] + Insert(s[1..], w);
      assert multiset(s) == multiset{s[0]} + multiset(s[1..]) by {
        assert s == [s[0]] + s[1..];
      }
    }
  }

  lemma {:induction false} InsertAscending(s: seq<string>, w: string)
    requires Ascending(s) && w !in s
    ensures Ascending(Insert(s, w))
  {
    if s == [] {
    } else {
      SplitAscending(s);
      hide Ascending, Before;
      if Before(w, s[0]) {
        forall x | x in s[1..]
          ensures Before(w, x)
        {
          BeforeTransitive(w, s[0], x);
        }
        PrependAscending(w, s);
      } else {
        BeforeTotal(w, s[0]);
        InsertAscending(s[1..], w);
        InsertedMembers(s[1..], w);
        PrependAscending(s[0], Insert(s[1..], w));
      }
    }
  }

  lemma InsertedMembers(s: seq<string>, w: string)
    ensures forall x :: x in Insert(s, w) ==> x == w || x in s
  {
    InsertPermutes(s, w);
    forall x | x in Insert(s, w)
      ensures x == w || x in s
    {
      assert x in multiset(Insert(s, w));
    }
  }

  lemma SplitAscending(s: seq<string>)
    requires Ascending(s) && s != []
    ensures Ascending(s[1..]) && forall x :: x in s[1..] ==> Before(s[0], x)
  {
  }

  lemma PrependAscending(first: string, s: seq<string>)
    requires Ascending(s) && forall x :: x in s ==> Before(first, x)
    ensures Ascending([first] + s)
  {
  }

  lemma {:induction false} SortAscending(s: seq<string>)
    requires forall i, j :: 0 <= i < j < |s| ==> s[i] != s[j]
    ensures Ascending(SortStrings(s)) && multiset(SortStrings(s)) == multiset(s)
  {
    if s == [] {
    } else {
      var s' := s[..|s| - 1];
      SortAscending(s');
      var w := s[|s| - 1];
      assert w !in s';
      assert w !in SortStrings(s') by {
        assert w !in multiset(SortStrings(s'));
      }
      InsertPermutes(SortStrings(s'), w);
      InsertAscending(SortStrings(s'), w);
      assert s == s' + [w];
    }
  }

  /** There is one ascending list of given names, whatever order a map iteration gave them in. */
  lemma {:induction false} AscendingUnique(a: seq<string>, b: seq<string>)
    requires Ascending(a) && Ascending(b) && multiset(a) == multiset(b)
    ensures a == b
    decreases |a|
  {
    assert |a| == |multiset(a)| == |multiset(b)| == |b|;
    if a == [] {
    } else {
      assert a[0] in multiset(b) && b[0] in multiset(a);
      if a[0] != b[0] {
        BeforeTotal(a[0], b[0]);
      }
      assert a == [a[0]] + a[1..] && b == [b[0]] + b[1..];
      assert multiset(a[1..]) == multiset(a) - multiset{a[0]} == multiset(b[1..]);
      AscendingUnique(a[1..], b[1..]);
    }
  }

  // ----- The choice -----

  /** The wallets that take part, in the given order. */
  function Eligible(b: Book, order: seq<Wallet>, currentBlock: U64, shard: U32): (r: seq<Stake>)
    requires forall w :: w in order ==> w in b.valsArray
  {
    if order == [] then [] else
      var w := order[|order| - 1];
      Eligible(b, order[..|order| - 1], currentBlock, shard)
      + if CheckDynasty(b, b.valsArray[w].wallet, currentBlock) && b.valsArray[w].shard == shard
        then [Stake(w, b.valsArray[w].stake)] else []
  }

  function Amount(s: Stake): int {
    s.stake
  }

  /** What the running counter holds after the first n stakes. */
  function Counter(ss: seq<Stake>, n: nat): U64
    requires n <= |ss|
  {
    if n == 0 then 0 else Wrap64(Counter(ss, n - 1) + ss[n - 1].stake)
  }

  function Shuffled(ss: seq<Stake>, perm: seq<nat>): (r: seq<Stake>)
    requires forall k :: 0 <= k < |perm| ==> perm[k] < |ss|
    ensures |r| == |perm| && forall k :: 0 <= k < |r| ==> r[k] == ss[perm[k]]
  {
    seq(|perm|, k requires 0 <= k < |perm| => ss[perm[k]])
  }

  lemma {:induction false} CounterPrefix(ss: seq<Stake>, more: seq<Stake>, n: nat)
    requires n <= |ss|
    ensures Counter(ss + more, n) == Counter(ss, n)
  {
    if n == 0 {
    } else {
      CounterPrefix(ss, more, n - 1);
    }
  }

  lemma CounterExtends(ss: seq<Stake>, s: Stake)
    ensures Counter(ss + [s], |ss + [s]|) == Wrap64(Counter(ss, |ss|) + s.stake)
  {
    CounterPrefix(ss, [s], |ss|);
  }

  /** The first stake at or after position k whose counter reaches the level. */
  function Pick(ret: seq<Stake>, level: real, k: nat): Option<Wallet>
    requires k <= |ret|
    decreases |ret| - k
  {
    if k == |ret| then None
    else if Counter(ret, k + 1) as real >= level then Some(ret[k].wallet)
    else Pick(ret, level, k + 1)
  }

  lemma PermInRange(rng: Rng, seed: int, n: nat)
    requires Fair(rng)
    ensures |rng.perm(seed, n)| == n && forall k :: 0 <= k < n ==> rng.perm(seed, n)[k] < n
  {
    var perm := rng.perm(seed, n);
    assert |multiset(perm)| == |multiset(Iota(n))|;
    forall k | 0 <= k < |perm|
      ensures perm[k] < n
    {
      assert perm[k] in multiset(perm);
      assert perm[k] in Iota(n);
    }
  }

  /** The eligible stakes in the order the seed shuffles them into. */
  ghost function Lineup(rng: Rng, b: Book, order: seq<Wallet>, currentBlock: int, shard: U32): seq<Stake>
    requires Fair(rng) && forall w :: w in order ==> w in b.valsArray
  {
    var ss := Eligible(b, order, Wrap64(currentBlock), shard);
    PermInRange(rng, currentBlock, |ss|);
    Shuffled(ss, rng.perm(currentBlock, |ss|))
  }

  /** ChooseValidator's answer from the wallets in ascending order; None is its error. */
  ghost function Chosen(rng: Rng, b: Book, order: seq<Wallet>, currentBlock: int, shard: U32): Option<Wallet>
    requires Fair(rng) && forall w :: w in order ==> w in b.valsArray
  {
    var ss := Eligible(b, order, Wrap64(currentBlock), shard);
    var total := Counter(ss, |ss|);
    if total < 1 then None
    else Pick(Lineup(rng, b, order, currentBlock, shard), Level(rng, currentBlock, total), 0)
  }

  /** rand.Float64() * float64(total), over the reals. */
  function Level(rng: Rng, seed: int, total: int): real {
    rng.unit(seed) * total as real
  }

  /** The stake before position k, without wrap-around. */
  ghost function Prefix(ss: seq<Stake>, k: nat): int
    requires k <= |ss|
  {
    Sum(Map(Amount, ss[..k]))
  }

  lemma {:induction false} CounterIsPrefix(ss: seq<Stake>, n: nat)
    requires n <= |ss| && Prefix(ss, |ss|) < TWO_TO_THE_64
    ensures Counter(ss, n) == Prefix(ss, n)
    ensures 0 <= Prefix(ss, n) <= Prefix(ss, |ss|)
  {
    PrefixMonotone(ss, n, |ss|);
    if n == 0 {
    } else {
      CounterIsPrefix(ss, n - 1);
      PrefixStep(ss, n - 1);
    }
  }

  lemma PrefixStep(ss: seq<Stake>, k: nat)
    requires k < |ss|
    ensures Prefix(ss, k + 1) == Prefix(ss, k) + ss[k].stake
  {
    assert Map(Amount, ss[..k + 1]) == Map(Amount, ss[..k]) + [ss[k].stake];
    SumAppend(Map(Amount, ss[..k]), ss[k].stake);
  }

  lemma {:induction false} PrefixMonotone(ss: seq<Stake>, j: nat, k: nat)
    requires j <= k <= |ss|
    ensures 0 <= Prefix(ss, j) <= Prefix(ss, k)
    decreases k
  {
    if k == 0 {
    } else {
      PrefixStep(ss, k - 1);
      if j < k {
        PrefixMonotone(ss, j, k - 1);
      } else {
        PrefixMonotone(ss, j - 1, k - 1);
      }
    }
  }

  /** Shuffling keeps the total. */
  lemma ShuffledTotal(rng: Rng, b: Book, order: seq<Wallet>, currentBlock: int, shard: U32)
    requires Fair(rng) && forall w :: w in order ==> w in b.valsArray
    ensures var ss := Eligible(b, order, Wrap64(currentBlock), shard);
            var ret := Lineup(rng, b, order, currentBlock, shard);
            |ret| == |ss| && Prefix(ret, |ret|) == Prefix(ss, |ss|)
  {
    var ss := Eligible(b, order, Wrap64(currentBlock), shard);
    var ret := Lineup(rng, b, order, currentBlock, shard);
    PermInRange(rng, currentBlock, |ss|);
    var perm := rng.perm(currentBlock, |ss|);
    var at := (i: nat) => if i < |ss| then ss[i].stake as int else 0;
    SumRearranged(at, perm, Iota(|ss|));
    assert Map(at, perm) == Map(Amount, ret[..|ret|]);
    assert Map(at, Iota(|ss|)) == Map(Amount, ss[..|ss|]);
  }

  lemma {:induction false} PickFirst(ret: seq<Stake>, level: real, from: nat, k: nat)
    requires Prefix(ret, |ret|) < TWO_TO_THE_64
    requires from <= k < |ret| && level <= Prefix(ret, k + 1) as real
    requires from == k || Prefix(ret, k) as real < level
    ensures Pick(ret, level, from) == Some(ret[k].wallet)
    decreases k - from
  {
    CounterIsPrefix(ret, from + 1);
    if from < k {
      PrefixMonotone(ret, from + 1, k);
      PickFirst(ret, level, from + 1, k);
    }
  }

  lemma {:induction false} FindLevel(ret: seq<Stake>, level: real, n: nat) returns (k: nat)
    requires 0 < n <= |ret| && level <= Prefix(ret, n) as real
    ensures k < n && level <= Prefix(ret, k + 1) as real && (k == 0 || Prefix(ret, k) as real < level)
  {
    if n == 1 || Prefix(ret, n - 1) as real < level {
      k := n - 1;
    } else {
      k := FindLevel(ret, level, n - 1);
    }
  }

  lemma LevelWithinTotal(rng: Rng, seed: int, total: int)
    requires Fair(rng) && 0 < total
    ensures 0.0 <= Level(rng, seed, total) < total as real
  {
    var u, t := rng.unit(seed), total as real;
    ScaledDown(u, t);
    assert Level(rng, seed, total) == u * t;
  }

  lemma ScaledDown(u: real, t: real)
    requires 0.0 <= u < 1.0 && 0.0 < t
    ensures 0.0 <= u * t < t
  {
  }

  /** The levels that are validator k's: as many as its stake. */
  ghost predicate OwnsLevel(ret: seq<Stake>, k: nat, level: real)
    requires k < |ret|
  {
    Prefix(ret, k) as real < level <= Prefix(ret, k) as real + ret[k].stake as real
  }

  lemma PickByLevel(ret: seq<Stake>, level: real)
    requires Prefix(ret, |ret|) < TWO_TO_THE_64 && ret != [] && level <= Prefix(ret, |ret|) as real
    ensures exists k :: 0 <= k < |ret| && Pick(ret, level, 0) == Some(ret[k].wallet)
    ensures forall k :: 0 <= k < |ret| && OwnsLevel(ret, k, level) ==> Pick(ret, level, 0) == Some(ret[k].wallet)
  {
    var k := FindLevel(ret, level, |ret|);
    PickFirst(ret, level, 0, k);
    forall k | 0 <= k < |ret| && OwnsLevel(ret, k, level)
      ensures Pick(ret, level, 0) == Some(ret[k].wallet)
    {
      PrefixStep(ret, k);
      PickFirst(ret, level, 0, k);
    }
  }

  /**
    * With some stake, and no more than fits the counter, an eligible validator is always chosen, and
    * each owns the levels from the stake before it in the shuffled list up to its own stake further.
    */
  lemma StakeOwnsItsRange(rng: Rng, b: Book, order: seq<Wallet>, currentBlock: int, shard: U32)
    requires Fair(rng) && forall w :: w in order ==> w in b.valsArray
    requires var ss := Eligible(b, order, Wrap64(currentBlock), shard); 1 <= Prefix(ss, |ss|) < TWO_TO_THE_64
    ensures var ret := Lineup(rng, b, order, currentBlock, shard);
            var level := Level(rng, currentBlock, Prefix(ret, |ret|));
            && (exists k :: 0 <= k < |ret| && Chosen(rng, b, order, currentBlock, shard) == Some(ret[k].wallet))
            && (forall k :: 0 <= k < |ret| && OwnsLevel(ret, k, level) ==>
                  Chosen(rng, b, order, currentBlock, shard) == Some(ret[k].wallet))
  {
    var ss := Eligible(b, order, Wrap64(currentBlock), shard);
    CounterIsPrefix(ss, |ss|);
    ShuffledTotal(rng, b, order, currentBlock, shard);
    var ret := Lineup(rng, b, order, currentBlock, shard);
    LevelWithinTotal(rng, currentBlock, Prefix(ret, |ret|));
    PickByLevel(ret, Level(rng, currentBlock, Prefix(ret, |ret|)));
  }

  /** Everyone eligible is in the list, exactly those are, and with their own stake. */
  lemma {:induction false} EligibleExactly(b: Book, order: seq<Wallet>, currentBlock: U64, shard: U32, w: Wallet)
    requires Consistent(b) && forall w :: w in order ==> w in b.valsArray
    requires w in order
    ensures (exists s :: s in Eligible(b, order, currentBlock, shard) && s.wallet == w)
            <==> CheckDynasty(b, w, currentBlock) && b.valsArray[w].shard == shard
    ensures forall s :: s in Eligible(b, order, currentBlock, shard) && s.wallet == w ==>
              s.stake == b.valsArray[w].stake
    decreases |order|
  {
    var rest, last := order[..|order| - 1], order[|order| - 1];
    if w in rest {
      EligibleExactly(b, rest, currentBlock, shard, w);
    } else {
      OnlyListed(b, rest, currentBlock, shard);
    }
    if last == w && CheckDynasty(b, w, currentBlock) && b.valsArray[w].shard == shard {
      assert Stake(w, b.valsArray[w].stake) in Eligible(b, order, currentBlock, shard);
    }
  }

  lemma {:induction false} OnlyListed(b: Book, order: seq<Wallet>, currentBlock: U64, shard: U32)
    requires forall w :: w in order ==> w in b.valsArray
    ensures forall s :: s in Eligible(b, order, currentBlock, shard) ==> s.wallet in order
    decreases |order|
  {
    if order == [] {
    } else {
      OnlyListed(b, order[..|order| - 1], currentBlock, shard);
    }
  }

  // ----- The draw in plain terms -----

  /** The order of the wallets is the order of their first different character; a prefix comes first. */
  lemma {:induction false} BeforeIff(a: string, b: string)
    ensures Before(a, b) <==>
            exists k :: 0 <= k <= |a| && k <= |b| && a[..k] == b[..k]
                        && if k == |a| then k < |b| else k < |b| && a[k] < b[k]
  {
    if a == "" {
      assert a[..0] == b[..0];
    } else if b == "" {
    } else if a[0] != b[0] {
      assert a[..0] == b[..0];
      forall k | 0 < k <= |a| && k <= |b|
        ensures a[..k] != b[..k]
      {
        assert a[..k][0] != b[..k][0];
      }
    } else {
      BeforeIff(a[1..], b[1..]);
      forall k | 0 < k <= |a| && k <= |b|
        ensures a[..k] == b[..k] <==> a[1..][..k - 1] == b[1..][..k - 1]
      {
        assert a[..k] == [a[0]] + a[1..][..k - 1] && b[..k] == [b[0]] + b[1..][..k - 1];
      }
      if k :| 0 <= k <= |a[1..]| && k <= |b[1..]| && a[1..][..k] == b[1..][..k]
              && if k == |a[1..]| then k < |b[1..]| else k < |b[1..]| && a[1..][k] < b[1..][k] {
        assert a[..k + 1] == b[..k + 1];
      }
      if k :| 0 <= k <= |a| && k <= |b| && a[..k] == b[..k]
              && if k == |a| then k < |b| else k < |b| && a[k] < b[k] {
        assert k != 0;
        assert a[1..][..k - 1] == b[1..][..k - 1];
      }
    }
  }

  /** The lineup is the eligible list in the order of the generator's permutation for the block. */
  lemma LineupIsShuffled(rng: Rng, b: Book, order: seq<Wallet>, currentBlock: int, shard: U32, k: nat)
    requires Fair(rng) && forall w :: w in order ==> w in b.valsArray
    requires k < |Eligible(b, order, Wrap64(currentBlock), shard)|
    ensures var ss, ret := Eligible(b, order, Wrap64(currentBlock), shard), Lineup(rng, b, order, currentBlock, shard);
            var perm := rng.perm(currentBlock, |ss|);
            |ret| == |ss| == |perm| && perm[k] < |ss| && ret[k] == ss[perm[k]]
  {
    PermInRange(rng, currentBlock, |Eligible(b, order, Wrap64(currentBlock), shard)|);
  }

  /**
    * The draw, a number in [0, 1) times the total stake, chooses the validator in whose part of the shuffled
    * stakes it falls.
    */
  lemma DrawChooses(rng: Rng, b: Book, order: seq<Wallet>, currentBlock: int, shard: U32, k: nat)
    requires Fair(rng) && forall w :: w in order ==> w in b.valsArray
    requires var ss := Eligible(b, order, Wrap64(currentBlock), shard); 1 <= Prefix(ss, |ss|) < TWO_TO_THE_64
    requires var ret := Lineup(rng, b, order, currentBlock, shard);
             && k < |ret|
             && Prefix(ret, k) as real < rng.unit(currentBlock) * Prefix(ret, |ret|) as real
                <= Prefix(ret, k) as real + ret[k].stake as real
    ensures Chosen(rng, b, order, currentBlock, shard) == Some(Lineup(rng, b, order, currentBlock, shard)[k].wallet)
  {
    hide Eligible, Lineup, Chosen, Prefix, Fair;
    StakeOwnsItsRange(rng, b, order, currentBlock, shard);
    var ret := Lineup(rng, b, order, currentBlock, shard);
    assert OwnsLevel(ret, k, Level(rng, currentBlock, Prefix(ret, |ret|)));
  }

  /** Nobody is chosen exactly when nobody eligible has a stake. */
  lemma NoneWithoutStake(rng: Rng, b: Book, order: seq<Wallet>, currentBlock: int, shard: U32)
    requires Fair(rng) && forall w :: w in order ==> w in b.valsArray
    requires var ss := Eligible(b, order, Wrap64(currentBlock), shard); Prefix(ss, |ss|) < TWO_TO_THE_64
    ensures var ss := Eligible(b, order, Wrap64(currentBlock), shard);
            Chosen(rng, b, order, currentBlock, shard) == None <==> Prefix(ss, |ss|) == 0
  {
    var ss := Eligible(b, order, Wrap64(currentBlock), shard);
    CounterIsPrefix(ss, |ss|);
    if 1 <= Prefix(ss, |ss|) {
      StakeOwnsItsRange(rng, b, order, currentBlock, shard);
    }
    hide Eligible, Lineup, Prefix, Fair, Pick, Counter;
  }

  /** From wallets in ascending order the eligible ones come in ascending order, each once. */
  lemma {:induction false} EligibleAscends(b: Book, order: seq<Wallet>, currentBlock: U64, shard: U32)
    requires Ascending(order) && forall w :: w in order ==> w in b.valsArray
    ensures WalletsAscend(Eligible(b, order, currentBlock, shard))
    decreases |order|
  {
    hide CheckDynasty;
    if order != [] {
      var rest, last := order[..|order| - 1], order[|order| - 1];
      EligibleAscends(b, rest, currentBlock, shard);
      OnlyListed(b, rest, currentBlock, shard);
      var before := Eligible(b, rest, currentBlock, shard);
      forall i | 0 <= i < |before|
        ensures Before(before[i].wallet, last)
      {
        assert before[i] in before;
        var k :| 0 <= k < |rest| && rest[k] == before[i].wallet;
        assert Before(order[k], order[|order| - 1]);
      }
      AscendsWith(before, Stake(last, b.valsArray[last].stake));
    }
  }

  ghost predicate WalletsAscend(ss: seq<Stake>) {
    forall i, j :: 0 <= i < j < |ss| ==> Before(ss[i].wallet, ss[j].wallet)
  }

  lemma AscendsWith(ss: seq<Stake>, s: Stake)
    requires WalletsAscend(ss)
    requires forall i :: 0 <= i < |ss| ==> Before(ss[i].wallet, s.wallet)
    ensures WalletsAscend(ss + [s])
  {
    hide Before;
  }
}
