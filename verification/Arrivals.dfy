/**
  * Blocks that arrive out of order (networking/broadcast.go, BLOCK_PROPOSAL; blockchain/processing.go;
  * networking/server.go, AddGenesisToQueue). A block is its key and its parent's key.
  */
module Arrivals {
  import opened Sequences
  import opened Wrappers

  /** The hexadecimal hash a block is filed under. */
  datatype Id = Id(hex: string)

  datatype MissingBlockStruct = MissingBlockStruct(
    sequenceBlock: nat, arrivalOrder: real, hightestBlock: Id, blocksToRecalculate: seq<Id>)

  /** hashBlocks has heights; missingBlock is keyed by the block that is waited for. */
  datatype State = State(
    hashBlocks: map<Id, nat>, missingBlock: map<Id, MissingBlockStruct>, priorityBlocks: multiset<(Id, real)>)

  // ----- One arrival -----

  /** The recalculation loop after n turns; the height of prev is read again in every turn. */
  function Recalculated(heights: map<Id, nat>, prev: Id, blocks: seq<Id>, n: nat): (r: map<Id, nat>)
    requires n <= |blocks| && prev in heights
    ensures prev in r
  {
    if n == 0 then heights else
      var r := Recalculated(heights, prev, blocks, n - 1);
      r[blocks[n - 1] := r[prev] + (|blocks| - (n - 1))]
  }

  /** The heights after the block an entry waited for has arrived on top of prev. */
  function Closed(heights: map<Id, nat>, prev: Id, mb: MissingBlockStruct): map<Id, nat>
    requires prev in heights
  {
    var r := Recalculated(heights, prev, mb.blocksToRecalculate, |mb.blocksToRecalculate|);
    r[mb.hightestBlock := mb.sequenceBlock + r[prev]]
  }

  function Modified(mb: MissingBlockStruct, current: Id): MissingBlockStruct {
    MissingBlockStruct(mb.sequenceBlock + 1, mb.arrivalOrder, mb.hightestBlock, mb.blocksToRecalculate + [current])
  }

  function Step(s: State, current: Id, prev: Id, arrivalOrder: real): State {
    if current in s.missingBlock then
      var mb := s.missingBlock[current];
      if prev in s.hashBlocks then
        var heights := Closed(s.hashBlocks, prev, mb);
        State(heights, s.missingBlock - {current},
              s.priorityBlocks + multiset{(mb.hightestBlock, heights[mb.hightestBlock] as real + mb.arrivalOrder)})
      else
        s.(missingBlock := s.missingBlock[prev := Modified(mb, current)] - {current})
    else if prev in s.hashBlocks then
      State(s.hashBlocks[current := s.hashBlocks[prev] + 1], s.missingBlock,
            s.priorityBlocks + multiset{(current, s.hashBlocks[prev] as real + 1.0 + arrivalOrder)})
    else
      s.(missingBlock := s.missingBlock[prev := MissingBlockStruct(1, arrivalOrder, current, [])])
  }

  predicate ClosesGap(s: State, current: Id, prev: Id) {
    current in s.missingBlock && prev in s.hashBlocks
  }

  class ArrivingBlocks {
    var hashBlocks: map<Id, nat>
    var missingBlock: map<Id, MissingBlockStruct>
    var priorityBlocks: multiset<(Id, real)>

    ghost function View(): State
      reads this
    {
      State(hashBlocks, missingBlock, priorityBlocks)
    }

    constructor ()
      ensures View() == State(map[], map[], multiset{})
    {
      hashBlocks, missingBlock, priorityBlocks := map[], map[], multiset{};
    }

    method AddGenesisToQueue(hashBlock: Id)
      modifies `hashBlocks, `priorityBlocks
      ensures hashBlocks == old(hashBlocks)[hashBlock := 0]
      ensures priorityBlocks == old(priorityBlocks) + multiset{(hashBlock, 0.0)}
    {
      priorityBlocks := priorityBlocks + multiset{(hashBlock, 0.0)};
      hashBlocks := hashBlocks[hashBlock := 0];
    }

    method ModifyMissingBlock(key: Id, mb: MissingBlockStruct, hashCurrentBlock: Id)
      modifies `missingBlock
      ensures missingBlock == old(missingBlock)[key := Modified(mb, hashCurrentBlock)]
    {
      missingBlock := missingBlock[key := MissingBlockStruct(
        mb.sequenceBlock + 1, mb.arrivalOrder, mb.hightestBlock, mb.blocksToRecalculate + [hashCurrentBlock])];
    }

    method AddMissingBlock(key: Id, arrivalOrder: real, hightestBlock: Id)
      modifies `missingBlock
      ensures missingBlock == old(missingBlock)[key := MissingBlockStruct(1, arrivalOrder, hightestBlock, [])]
    {
      missingBlock := missingBlock[key := MissingBlockStruct(1, arrivalOrder, hightestBlock, [])];
    }

    method Recalculate(hashPrevBlock: Id, blocks: seq<Id>)
      requires hashPrevBlock in hashBlocks
      modifies `hashBlocks
      ensures hashBlocks == Recalculated(old(hashBlocks), hashPrevBlock, blocks, |blocks|)
    {
      for index := 0 to |blocks|
        invariant hashPrevBlock in hashBlocks
        invariant hashBlocks == Recalculated(old(hashBlocks), hashPrevBlock, blocks, index)
      {
        hashBlocks := hashBlocks[blocks[index] := hashBlocks[hashPrevBlock] + (|blocks| - index)];
      }
    }

    /** The block-proposal arm, from the two keys on. */
    method BlockProposal(hashCurrentBlock: Id, hashPrevBlock: Id, arrivalOrder: real)
      modifies this
      ensures View() == Step(old(View()), hashCurrentBlock, hashPrevBlock, arrivalOrder)
    {
      if hashCurrentBlock in missingBlock {
        var missing := missingBlock[hashCurrentBlock];
        if hashPrevBlock in hashBlocks {
          Recalculate(hashPrevBlock, missing.blocksToRecalculate);
          var hightestBlock := missing.hightestBlock;
          hashBlocks := hashBlocks[hightestBlock := missing.sequenceBlock + hashBlocks[hashPrevBlock]];
          var finalPriorityBlock := hashBlocks[hightestBlock] as real + missing.arrivalOrder;
          priorityBlocks := priorityBlocks + multiset{(missing.hightestBlock, finalPriorityBlock)};
          missingBlock := missingBlock - {hashCurrentBlock};
        } else {
          ModifyMissingBlock(hashPrevBlock, missing, hashCurrentBlock);
          missingBlock := missingBlock - {hashCurrentBlock};
        }
      } else {
        if hashPrevBlock in hashBlocks {
          priorityBlocks :=
            priorityBlocks + multiset{(hashCurrentBlock, hashBlocks[hashPrevBlock] as real + 1.0 + arrivalOrder)};
          hashBlocks := hashBlocks[hashCurrentBlock := hashBlocks[hashPrevBlock] + 1];
        } else {
          AddMissingBlock(hashPrevBlock, arrivalOrder, hashCurrentBlock);
        }
      }
    }
  }

  // ----- Runs -----

  datatype Arrival = Arrival(block: Id, order: real)

  /** A genesis key, what each block names as its parent, and the arrivals in order. */
  datatype Feed = Feed(genesis: Id, parent: Id -> Id, arrivals: seq<Arrival>) {
    function Start(): State {
      State(map[genesis := 0], map[], multiset{(genesis, 0.0)})
    }

    function After(n: nat): State
      requires n <= |arrivals|
    {
      if n == 0 then Start() else
        var a := arrivals[n - 1];
        Step(After(n - 1), a.block, parent(a.block), a.order)
    }

    ghost function Arrived(n: nat): set<Id>
      requires n <= |arrivals|
    {
      if n == 0 then {} else Arrived(n - 1) + {arrivals[n - 1].block}
    }

    /** d parent links, all from blocks among those given, lead from id to genesis. */
    ghost predicate Connected(arrived: set<Id>, id: Id, d: nat)
      decreases d
    {
      if d == 0 then id == genesis else id in arrived && Connected(arrived, parent(id), d - 1)
    }

    /** The arrival after the first n closes a gap. */
    predicate Closes(n: nat)
      requires n < |arrivals|
    {
      ClosesGap(After(n), arrivals[n].block, parent(arrivals[n].block))
    }

    /** Nothing below genesis is ever seen. */
    ghost predicate Rooted(arrived: set<Id>) {
      parent(genesis) != genesis && parent(genesis) !in arrived
    }

    /** From the highest block through blocksToRecalculate to the key, each block is the parent of the one before. */
    ghost predicate Unbroken(arrived: set<Id>, key: Id, mb: MissingBlockStruct) {
      var chain := Waiting(mb);
      && mb.sequenceBlock == |chain|
      && forall i :: 0 <= i < |chain| ==>
           chain[i] in arrived && parent(chain[i]) == Below(mb, key, i)
    }

    /** The recorded height is at most the true depth and at least half of it. */
    ghost predicate Recorded(arrived: set<Id>, heights: map<Id, nat>, id: Id)
      requires id in heights
    {
      exists d :: Connected(arrived, id, d) && heights[id] <= d <= 2 * heights[id]
    }

    ghost predicate InSync(n: nat)
      requires n <= |arrivals|
    {
      Exact(this, Arrived(n), After(n).hashBlocks)
    }
  }

  /** Every connected block is recorded at its true depth. */
  ghost predicate Exact(f: Feed, arrived: set<Id>, heights: map<Id, nat>) {
    forall id, d :: f.Connected(arrived, id, d) ==> id in heights && heights[id] == d
  }

  /** The blocks an entry holds back, highest first. */
  function Waiting(mb: MissingBlockStruct): seq<Id> {
    [mb.hightestBlock] + mb.blocksToRecalculate
  }

  /** What comes next on an entry's chain: a waiting block, or the key in the end. */
  function Below(mb: MissingBlockStruct, key: Id, i: nat): Id
    requires i < |Waiting(mb)|
  {
    if i + 1 < |Waiting(mb)| then Waiting(mb)[i + 1] else key
  }

  lemma {:induction false} ConnectedGrows(f: Feed, some: set<Id>, more: set<Id>, id: Id, d: nat)
    requires some <= more && f.Connected(some, id, d)
    ensures f.Connected(more, id, d)
    decreases d
  {
    if d == 0 {
    } else {
      ConnectedGrows(f, some, more, f.parent(id), d - 1);
    }
  }

  lemma {:induction false} DepthUnique(f: Feed, arrived: set<Id>, id: Id, d: nat, e: nat)
    requires f.Rooted(arrived) && f.Connected(arrived, id, d) && f.Connected(arrived, id, e)
    ensures d == e
    decreases d
  {
    if d == 0 || e == 0 {
    } else {
      DepthUnique(f, arrived, f.parent(id), d - 1, e - 1);
    }
  }

  // ----- Missing blocks -----

  lemma UnbrokenModified(f: Feed, arrived: set<Id>, current: Id, mb: MissingBlockStruct)
    requires f.Unbroken(arrived, current, mb) && current in arrived
    ensures f.Unbroken(arrived, f.parent(current), Modified(mb, current))
  {
    assert Waiting(Modified(mb, current)) == Waiting(mb) + [current];
  }

  ghost predicate AllUnbroken(f: Feed, arrived: set<Id>, missing: map<Id, MissingBlockStruct>) {
    forall key :: key in missing ==> f.Unbroken(arrived, key, missing[key])
  }

  lemma StepUnbroken(f: Feed, arrived: set<Id>, s: State, current: Id, order: real)
    requires AllUnbroken(f, arrived, s.missingBlock) && current in arrived
    ensures AllUnbroken(f, arrived, Step(s, current, f.parent(current), order).missingBlock)
  {
    if current in s.missingBlock {
      UnbrokenModified(f, arrived, current, s.missingBlock[current]);
    } else {
      assert f.Unbroken(arrived, f.parent(current), MissingBlockStruct(1, order, current, []));
    }
    hide Feed.Unbroken, Closed;
  }

  /**
    * Whatever the order of arrival, each entry is an unbroken chain of arrived blocks from its highest
    * block down to the missing key, and its sequence number is the length of that chain.
    */
  lemma {:induction false} MissingIsUnbroken(f: Feed, n: nat)
    requires n <= |f.arrivals|
    ensures AllUnbroken(f, f.Arrived(n), f.After(n).missingBlock)
  {
    if n == 0 {
    } else {
      MissingIsUnbroken(f, n - 1);
      assert AllUnbroken(f, f.Arrived(n), f.After(n - 1).missingBlock);
      StepUnbroken(f, f.Arrived(n), f.After(n - 1), f.arrivals[n - 1].block, f.arrivals[n - 1].order);
    }
  }

  // ----- Closing a gap -----

  lemma {:induction false} ChainConnected(
      f: Feed, arrived: set<Id>, current: Id, mb: MissingBlockStruct, d: nat, i: nat)
    requires f.Unbroken(arrived, current, mb) && f.Connected(arrived, current, d)
    requires i < |Waiting(mb)|
    ensures f.Connected(arrived, Waiting(mb)[i], d + (|Waiting(mb)| - i))
    decreases |Waiting(mb)| - i
  {
    assert f.parent(Waiting(mb)[i]) == Below(mb, current, i);
    if i == |Waiting(mb)| - 1 {
      assert f.Connected(arrived, f.parent(Waiting(mb)[i]), d);
    } else {
      ChainConnected(f, arrived, current, mb, d, i + 1);
    }
  }

  /** No block is twice on a chain that is connected to genesis, and its connecting parent is not on it. */
  lemma ChainDistinct(f: Feed, arrived: set<Id>, current: Id, mb: MissingBlockStruct, d: nat, i: nat, j: nat)
    requires f.Rooted(arrived) && f.Unbroken(arrived, current, mb)
    requires current in arrived && f.Connected(arrived, f.parent(current), d)
    requires i < j < |Waiting(mb)|
    ensures Waiting(mb)[i] != Waiting(mb)[j]
  {
    ChainConnected(f, arrived, current, mb, d + 1, i);
    ChainConnected(f, arrived, current, mb, d + 1, j);
    if Waiting(mb)[i] == Waiting(mb)[j] {
      DepthUnique(f, arrived, Waiting(mb)[i], d + 1 + (|Waiting(mb)| - i), d + 1 + (|Waiting(mb)| - j));
    }
  }

  lemma ChainAvoidsParent(f: Feed, arrived: set<Id>, current: Id, mb: MissingBlockStruct, d: nat)
    requires f.Rooted(arrived) && f.Unbroken(arrived, current, mb)
    requires current in arrived && f.Connected(arrived, f.parent(current), d)
    ensures f.parent(current) !in Waiting(mb)
  {
    if f.parent(current) in Waiting(mb) {
      var i :| 0 <= i < |Waiting(mb)| && Waiting(mb)[i] == f.parent(current);
      ChainConnected(f, arrived, current, mb, d + 1, i);
      DepthUnique(f, arrived, f.parent(current), d, d + 1 + (|Waiting(mb)| - i));
    }
  }

  lemma {:induction false} RecalculatedHeights(heights: map<Id, nat>, prev: Id, blocks: seq<Id>, n: nat)
    requires n <= |blocks| && prev in heights && prev !in blocks
    requires Distinct(blocks)
    ensures var r := Recalculated(heights, prev, blocks, n);
            && r[prev] == heights[prev]
            && (forall i :: 0 <= i < n ==> blocks[i] in r && r[blocks[i]] == heights[prev] + (|blocks| - i))
            && (forall id :: id in heights && id !in blocks ==> id in r && r[id] == heights[id])
            && (forall id :: id in r ==> id in heights || id in blocks)
  {
    if n == 0 {
    } else {
      RecalculatedHeights(heights, prev, blocks, n - 1);
    }
  }

  /** Consecutive heights along the parent links, counted up from prev as if current did not exist. */
  ghost predicate Stacked(before: map<Id, nat>, after: map<Id, nat>, prev: Id, chain: seq<Id>)
    requires prev in before
  {
    && (forall i :: 0 <= i < |chain| ==> chain[i] in after && after[chain[i]] == before[prev] + (|chain| - i))
    && (forall id :: id in before && id !in chain ==> id in after && after[id] == before[id])
    && (forall id :: id in after ==> id in before || id in chain)
  }

  lemma WaitingParts(mb: MissingBlockStruct)
    ensures var chain, blocks := Waiting(mb), mb.blocksToRecalculate;
            && |chain| == |blocks| + 1 && chain[0] == mb.hightestBlock
            && (forall i :: 0 < i < |chain| ==> chain[i] == blocks[i - 1])
            && (forall id :: id in chain <==> id == mb.hightestBlock || id in blocks)
  {
  }

  lemma BlocksDistinct(mb: MissingBlockStruct)
    requires Distinct(Waiting(mb))
    ensures Distinct(mb.blocksToRecalculate) && mb.hightestBlock !in mb.blocksToRecalculate
  {
    var chain, blocks := Waiting(mb), mb.blocksToRecalculate;
    assert forall i :: 0 <= i < |blocks| ==> blocks[i] == chain[i + 1] && chain[0] != chain[i + 1];
  }

  lemma ClosedStacks(heights: map<Id, nat>, prev: Id, mb: MissingBlockStruct)
    requires prev in heights && prev !in Waiting(mb) && Distinct(Waiting(mb)) && mb.sequenceBlock == |Waiting(mb)|
    ensures Stacked(heights, Closed(heights, prev, mb), prev, Waiting(mb))
  {
    WaitingParts(mb);
    BlocksDistinct(mb);
    hide Recalculated, Waiting, Distinct;
    RecalculatedHeights(heights, prev, mb.blocksToRecalculate, |mb.blocksToRecalculate|);
  }

  lemma ClosedHeights(f: Feed, arrived: set<Id>, current: Id, mb: MissingBlockStruct, d: nat, heights: map<Id, nat>)
    requires f.Rooted(arrived) && f.Unbroken(arrived, current, mb)
    requires current in arrived && f.Connected(arrived, f.parent(current), d) && f.parent(current) in heights
    ensures Stacked(heights, Closed(heights, f.parent(current), mb), f.parent(current), Waiting(mb))
  {
    hide Feed.Connected, Closed, Stacked, Waiting;
    ChainAvoidsParent(f, arrived, current, mb, d);
    forall i, j | 0 <= i < j < |Waiting(mb)|
      ensures Waiting(mb)[i] != Waiting(mb)[j]
    {
      ChainDistinct(f, arrived, current, mb, d, i, j);
    }
    ClosedStacks(heights, f.parent(current), mb);
  }

  // ----- Heights -----

  ghost predicate AllRecorded(f: Feed, arrived: set<Id>, heights: map<Id, nat>) {
    f.genesis in heights && forall id :: id in heights ==> f.Recorded(arrived, heights, id)
  }

  lemma AllRecordedGrows(f: Feed, some: set<Id>, more: set<Id>, heights: map<Id, nat>)
    requires some <= more && AllRecorded(f, some, heights)
    ensures AllRecorded(f, more, heights)
  {
    forall id | id in heights
      ensures f.Recorded(more, heights, id)
    {
      var d :| f.Connected(some, id, d) && heights[id] <= d <= 2 * heights[id];
      ConnectedGrows(f, some, more, id, d);
    }
  }

  lemma AppendRecorded(f: Feed, arrived: set<Id>, heights: map<Id, nat>, current: Id)
    requires AllRecorded(f, arrived, heights) && current in arrived && f.parent(current) in heights
    ensures AllRecorded(f, arrived, heights[current := heights[f.parent(current)] + 1])
  {
    var after := heights[current := heights[f.parent(current)] + 1];
    assert f.Recorded(arrived, heights, f.parent(current));
    var prev := f.parent(current);
    var d :| f.Connected(arrived, prev, d) && heights[prev] <= d <= 2 * heights[prev];
    assert f.Connected(arrived, current, d + 1);
    forall id | id in after
      ensures f.Recorded(arrived, after, id)
    {
      if id != current {
        assert f.Recorded(arrived, heights, id);
      }
    }
  }

  lemma StackedRecorded(
      f: Feed, arrived: set<Id>, before: map<Id, nat>, after: map<Id, nat>, prev: Id, chain: seq<Id>, d: nat)
    requires AllRecorded(f, arrived, before) && prev in before && Stacked(before, after, prev, chain)
    requires before[prev] <= d <= 2 * before[prev]
    requires forall i :: 0 <= i < |chain| ==> f.Connected(arrived, chain[i], d + 1 + (|chain| - i))
    ensures AllRecorded(f, arrived, after)
  {
    hide Feed.Connected;
    assert f.genesis in after;
    forall id | id in after
      ensures f.Recorded(arrived, after, id)
    {
      if id in chain {
        var i :| 0 <= i < |chain| && chain[i] == id;
        assert f.Connected(arrived, id, d + 1 + (|chain| - i));
      } else {
        assert f.Recorded(arrived, before, id);
      }
    }
  }

  lemma CloseRecorded(f: Feed, arrived: set<Id>, heights: map<Id, nat>, current: Id, mb: MissingBlockStruct)
    requires f.Rooted(arrived) && f.Unbroken(arrived, current, mb)
    requires AllRecorded(f, arrived, heights) && current in arrived && f.parent(current) in heights
    ensures AllRecorded(f, arrived, Closed(heights, f.parent(current), mb))
    ensures Stacked(heights, Closed(heights, f.parent(current), mb), f.parent(current), Waiting(mb))
  {
    hide Closed, Waiting, Stacked, Feed.Unbroken;
    var prev := f.parent(current);
    assert f.Recorded(arrived, heights, prev);
    var d: nat :| f.Connected(arrived, prev, d) && heights[prev] <= d <= 2 * heights[prev];
    assert f.Connected(arrived, current, d + 1);
    hide Feed.Connected;
    ClosedHeights(f, arrived, current, mb, d, heights);
    forall i | 0 <= i < |Waiting(mb)|
      ensures f.Connected(arrived, Waiting(mb)[i], d + 1 + (|Waiting(mb)| - i))
    {
      ChainConnected(f, arrived, current, mb, d + 1, i);
    }
    StackedRecorded(f, arrived, heights, Closed(heights, prev, mb), prev, Waiting(mb), d);
  }

  lemma HeightsStep(f: Feed, n: nat)
    requires 0 < n <= |f.arrivals|
    ensures var s, current := f.After(n - 1), f.arrivals[n - 1].block;
            && f.Arrived(n) == f.Arrived(n - 1) + {current}
            && f.After(n).hashBlocks
               == if f.Closes(n - 1) then Closed(s.hashBlocks, f.parent(current), s.missingBlock[current])
                  else if f.parent(current) in s.hashBlocks
                  then s.hashBlocks[current := s.hashBlocks[f.parent(current)] + 1]
                  else s.hashBlocks
  {
    hide Closed;
  }

  lemma StepRecorded(f: Feed, some: set<Id>, arrived: set<Id>, s: State, current: Id, order: real)
    requires some <= arrived && f.Rooted(arrived) && current in arrived
    requires AllRecorded(f, some, s.hashBlocks) && AllUnbroken(f, some, s.missingBlock)
    ensures AllRecorded(f, arrived, Step(s, current, f.parent(current), order).hashBlocks)
  {
    hide Closed, Waiting, Stacked, AllRecorded, Feed.Connected;
    AllRecordedGrows(f, some, arrived, s.hashBlocks);
    if ClosesGap(s, current, f.parent(current)) {
      assert f.Unbroken(arrived, current, s.missingBlock[current]);
      CloseRecorded(f, arrived, s.hashBlocks, current, s.missingBlock[current]);
    } else if current !in s.missingBlock && f.parent(current) in s.hashBlocks {
      AppendRecorded(f, arrived, s.hashBlocks, current);
    }
  }

  lemma StartRecorded(f: Feed)
    ensures AllRecorded(f, f.Arrived(0), f.After(0).hashBlocks)
  {
    assert f.Connected({}, f.genesis, 0);
  }

  /**
    * Whatever the order of arrival, every recorded block is connected to genesis through arrived blocks,
    * and its recorded height is between half its depth and its depth.
    */
  lemma {:induction false} HeightsWithinDepths(f: Feed, n: nat)
    requires n <= |f.arrivals| && f.Rooted(f.Arrived(n))
    ensures AllRecorded(f, f.Arrived(n), f.After(n).hashBlocks)
  {
    if n == 0 {
      StartRecorded(f);
    } else {
      var a := f.arrivals[n - 1];
      HeightsWithinDepths(f, n - 1);
      MissingIsUnbroken(f, n - 1);
      StepRecorded(f, f.Arrived(n - 1), f.Arrived(n), f.After(n - 1), a.block, a.order);
    }
  }

  /**
    * Closing a gap gives the blocks that waited consecutive heights along their parent links, the lowest
    * of them one more than the parent of the block that closed the gap; no other height changes.
    */
  lemma GapClosingStacks(f: Feed, n: nat)
    requires n < |f.arrivals| && f.Rooted(f.Arrived(n + 1)) && f.Closes(n)
    ensures var s, current := f.After(n), f.arrivals[n].block;
            var chain := Waiting(s.missingBlock[current]);
            && Stacked(s.hashBlocks, f.After(n + 1).hashBlocks, f.parent(current), chain)
            && forall i :: 0 <= i < |chain| ==> f.parent(chain[i]) == Below(s.missingBlock[current], current, i)
  {
    var s, current := f.After(n), f.arrivals[n].block;
    var mb := s.missingBlock[current];
    HeightsStep(f, n + 1);
    hide Closed, Waiting, Stacked, AllRecorded, Feed.After, Feed.Arrived, Below;
    HeightsWithinDepths(f, n);
    AllRecordedGrows(f, f.Arrived(n), f.Arrived(n + 1), s.hashBlocks);
    MissingIsUnbroken(f, n);
    CloseRecorded(f, f.Arrived(n + 1), s.hashBlocks, current, mb);
  }

  // ----- The queue -----

  ghost predicate Came(f: Feed, n: nat, id: Id, order: real)
    requires n <= |f.arrivals|
  {
    Arrival(id, order) in f.arrivals[..n]
  }

  /** A priority is a height, within the bounds of the block's depth, plus the order of one of its arrivals. */
  ghost predicate RanksByHeight(f: Feed, n: nat, id: Id, priority: real)
    requires n <= |f.arrivals|
  {
    exists order, d: nat ::
      && Came(f, n, id, order) && f.Connected(f.Arrived(n), id, d)
      && priority - order <= d as real <= 2.0 * (priority - order)
  }

  lemma {:induction false} MissingCame(f: Feed, n: nat, key: Id)
    requires n <= |f.arrivals| && key in f.After(n).missingBlock
    ensures Came(f, n, f.After(n).missingBlock[key].hightestBlock, f.After(n).missingBlock[key].arrivalOrder)
  {
    if n == 0 {
    } else {
      assert f.arrivals[..n] == f.arrivals[..n - 1] + [f.arrivals[n - 1]];
      var s, current := f.After(n - 1), f.arrivals[n - 1].block;
      hide Closed;
      if key in s.missingBlock {
        MissingCame(f, n - 1, key);
      }
      if current in s.missingBlock {
        MissingCame(f, n - 1, current);
      }
    }
  }

  /** A step queues at most one block, at its new height plus its own order of arrival. */
  lemma StepQueues(s: State, current: Id, prev: Id, order: real) returns (id: Id, own: real)
    ensures var s' := Step(s, current, prev, order);
            || s'.priorityBlocks == s.priorityBlocks
            || (&& id in s'.hashBlocks
                && s'.priorityBlocks == s.priorityBlocks + multiset{(id, s'.hashBlocks[id] as real + own)})
    ensures (id == current && own == order)
         || (&& current in s.missingBlock
             && id == s.missingBlock[current].hightestBlock && own == s.missingBlock[current].arrivalOrder)
  {
    if current in s.missingBlock {
      id, own := s.missingBlock[current].hightestBlock, s.missingBlock[current].arrivalOrder;
    } else {
      id, own := current, order;
    }
  }

  /**
    * What a step queues: nothing on a parent that is not recorded; the highest block of the entry when one
    * closes; else the block itself; each at the height recorded by then, plus its own order of arrival.
    */
  lemma StepQueuesExactly(s: State, current: Id, prev: Id, order: real)
    ensures var s' := Step(s, current, prev, order);
            var q, h := s'.priorityBlocks, s'.hashBlocks;
            if prev !in s.hashBlocks then q == s.priorityBlocks && h == s.hashBlocks
            else if current in s.missingBlock then
              var mb := s.missingBlock[current];
              mb.hightestBlock in h
              && q == s.priorityBlocks + multiset{(mb.hightestBlock, h[mb.hightestBlock] as real + mb.arrivalOrder)}
            else
              && current in h && h[current] == s.hashBlocks[prev] + 1
              && q == s.priorityBlocks + multiset{(current, h[current] as real + order)}
  {
  }

  /** A block that arrives is waited for no longer, and no entry but its own and its parent's changes. */
  lemma ArrivedIsNotAwaited(s: State, current: Id, prev: Id, order: real)
    requires current != prev
    ensures var s' := Step(s, current, prev, order);
            && current !in s'.missingBlock
            && (forall id :: id in s.missingBlock && id !in {current, prev} ==>
                  id in s'.missingBlock && s'.missingBlock[id] == s.missingBlock[id])
            && (prev !in s.hashBlocks ==> prev in s'.missingBlock)
            && (prev !in s.hashBlocks && current in s.missingBlock ==>
                  && s'.missingBlock[prev].hightestBlock == s.missingBlock[current].hightestBlock
                  && s'.missingBlock[prev].arrivalOrder == s.missingBlock[current].arrivalOrder)
            && (prev !in s.hashBlocks && current !in s.missingBlock ==>
                  s'.missingBlock[prev].hightestBlock == current && s'.missingBlock[prev].arrivalOrder == order)
  {
  }

  lemma RankStays(f: Feed, n: nat, id: Id, priority: real)
    requires 0 < n <= |f.arrivals| && RanksByHeight(f, n - 1, id, priority)
    ensures RanksByHeight(f, n, id, priority)
  {
    var order, d: nat :|
      && Came(f, n - 1, id, order) && f.Connected(f.Arrived(n - 1), id, d)
      && priority - order <= d as real <= 2.0 * (priority - order);
    assert f.arrivals[..n] == f.arrivals[..n - 1] + [f.arrivals[n - 1]];
    ConnectedGrows(f, f.Arrived(n - 1), f.Arrived(n), id, d);
    assert Came(f, n, id, order);
  }

  lemma RankAtHeight(f: Feed, n: nat, id: Id, order: real)
    requires n <= |f.arrivals| && Came(f, n, id, order)
    requires AllRecorded(f, f.Arrived(n), f.After(n).hashBlocks) && id in f.After(n).hashBlocks
    ensures RanksByHeight(f, n, id, f.After(n).hashBlocks[id] as real + order)
  {
    hide Feed.After, Feed.Arrived;
    var height := f.After(n).hashBlocks[id];
    assert f.Recorded(f.Arrived(n), f.After(n).hashBlocks, id);
    var d: nat :| f.Connected(f.Arrived(n), id, d) && height <= d <= 2 * height;
  }

  lemma NewlyQueued(f: Feed, n: nat, id: Id, priority: real)
    requires 0 < n <= |f.arrivals| && f.Rooted(f.Arrived(n))
    requires (id, priority) in f.After(n).priorityBlocks && (id, priority) !in f.After(n - 1).priorityBlocks
    ensures RanksByHeight(f, n, id, priority)
  {
    hide Step, AllRecorded, RanksByHeight, Feed.Rooted, Feed.Arrived;
    var s, a := f.After(n - 1), f.arrivals[n - 1];
    var queued, own := StepQueues(s, a.block, f.parent(a.block), a.order);
    assert f.After(n) == Step(s, a.block, f.parent(a.block), a.order);
    assert f.arrivals[..n] == f.arrivals[..n - 1] + [a];
    if a.block in s.missingBlock {
      MissingCame(f, n - 1, a.block);
    }
    HeightsWithinDepths(f, n);
    hide Feed.After;
    RankAtHeight(f, n, queued, own);
  }

  /**
    * Whatever the order of arrival, every queued block but genesis is connected, and is queued at a height
    * between half its depth and its depth, plus the order in which it arrived.
    */
  lemma {:induction false} QueueRanksByHeight(f: Feed, n: nat, id: Id, priority: real)
    requires n <= |f.arrivals| && f.Rooted(f.Arrived(n)) && (id, priority) in f.After(n).priorityBlocks
    ensures (id, priority) == (f.genesis, 0.0) || RanksByHeight(f, n, id, priority)
  {
    if n == 0 {
    } else {
      var s, a := f.After(n - 1), f.arrivals[n - 1];
      if (id, priority) in s.priorityBlocks {
        QueueRanksByHeight(f, n - 1, id, priority);
        if (id, priority) != (f.genesis, 0.0) {
          RankStays(f, n, id, priority);
        }
      } else {
        NewlyQueued(f, n, id, priority);
      }
    }
  }

  // ----- When the heights are the depths -----

  /** The parent of an arrived block is recorded, or has arrived, or is waited for. */
  ghost predicate ParentsKnown(f: Feed, arrived: set<Id>, s: State) {
    forall id :: id in arrived ==>
      f.parent(id) in s.hashBlocks || f.parent(id) in arrived || f.parent(id) in s.missingBlock
  }

  lemma {:induction false} NoNewConnection(f: Feed, arrived: set<Id>, current: Id, id: Id, d: nat)
    requires f.Connected(arrived + {current}, id, d)
    requires forall e :: !f.Connected(arrived, f.parent(current), e)
    ensures f.Connected(arrived, id, d)
    decreases d
  {
    if d == 0 {
    } else {
      NoNewConnection(f, arrived, current, f.parent(id), d - 1);
      assert id != current;
    }
  }

  lemma {:induction false} OnlyCurrentConnected(f: Feed, arrived: set<Id>, current: Id, id: Id, d: nat)
    requires f.Connected(arrived + {current}, id, d) && id != current
    requires forall x :: x in arrived ==> f.parent(x) != current
    ensures f.Connected(arrived, id, d)
    decreases d
  {
    if d == 0 {
    } else {
      OnlyCurrentConnected(f, arrived, current, f.parent(id), d - 1);
    }
  }

  lemma RecordedArrived(f: Feed, arrived: set<Id>, heights: map<Id, nat>)
    requires AllRecorded(f, arrived, heights)
    ensures forall id :: id in heights ==> id == f.genesis || id in arrived
  {
    forall id | id in heights
      ensures id == f.genesis || id in arrived
    {
      assert f.Recorded(arrived, heights, id);
    }
  }

  lemma GenesisHasNoParent(f: Feed, arrived: set<Id>, heights: map<Id, nat>)
    requires f.Rooted(arrived) && AllRecorded(f, arrived, heights)
    ensures f.parent(f.genesis) !in heights
  {
    RecordedArrived(f, arrived, heights);
  }

  lemma StepParentsKnown(f: Feed, arrived: set<Id>, s: State, current: Id, order: real)
    requires ParentsKnown(f, arrived, s)
    requires !ClosesGap(s, current, f.parent(current))
    ensures ParentsKnown(f, arrived + {current}, Step(s, current, f.parent(current), order))
  {
  }

  /** A block that connects without closing a gap connects nothing else. */
  lemma AppendExact(f: Feed, arrived: set<Id>, s: State, current: Id, id: Id, d: nat)
    requires f.Rooted(arrived + {current}) && AllRecorded(f, arrived, s.hashBlocks)
    requires ParentsKnown(f, arrived, s) && Exact(f, arrived, s.hashBlocks)
    requires current !in s.missingBlock && f.parent(current) in s.hashBlocks
    requires f.Connected(arrived + {current}, id, d)
    ensures var heights := s.hashBlocks[current := s.hashBlocks[f.parent(current)] + 1];
            id in heights && heights[id] == d
  {
    var prev := f.parent(current);
    GenesisHasNoParent(f, arrived, s.hashBlocks);
    if id == current {
      assert f.Recorded(arrived, s.hashBlocks, prev);
      var e: nat :| f.Connected(arrived, prev, e);
      ConnectedGrows(f, arrived, arrived + {current}, prev, e);
      DepthUnique(f, arrived + {current}, prev, d - 1, e);
    } else if current in arrived {
      assert arrived + {current} == arrived;
    } else {
      RecordedArrived(f, arrived, s.hashBlocks);
      hide Feed.Connected, AllRecorded;
      OnlyCurrentConnected(f, arrived, current, id, d);
    }
  }

  lemma StepExact(f: Feed, arrived: set<Id>, s: State, current: Id, order: real)
    requires f.Rooted(arrived + {current}) && AllRecorded(f, arrived, s.hashBlocks)
    requires ParentsKnown(f, arrived, s) && Exact(f, arrived, s.hashBlocks)
    requires !ClosesGap(s, current, f.parent(current))
    ensures Exact(f, arrived + {current}, Step(s, current, f.parent(current), order).hashBlocks)
  {
    hide Feed.Connected, Feed.Rooted, AllRecorded, ParentsKnown;
    forall id, d | f.Connected(arrived + {current}, id, d)
      ensures var heights := Step(s, current, f.parent(current), order).hashBlocks;
              id in heights && heights[id] == d
    {
      if f.parent(current) in s.hashBlocks {
        AppendExact(f, arrived, s, current, id, d);
      } else {
        NoNewConnection(f, arrived, current, id, d);
      }
    }
  }

  lemma {:induction false} ExactWithoutClosing(f: Feed, n: nat)
    requires n <= |f.arrivals| && f.Rooted(f.Arrived(n)) && forall i :: 0 <= i < n ==> !f.Closes(i)
    ensures Exact(f, f.Arrived(n), f.After(n).hashBlocks) && ParentsKnown(f, f.Arrived(n), f.After(n))
  {
    if n == 0 {
      StartExact(f);
    } else {
      var a, some, s := f.arrivals[n - 1], f.Arrived(n - 1), f.After(n - 1);
      ExactWithoutClosing(f, n - 1);
      HeightsWithinDepths(f, n - 1);
      assert !f.Closes(n - 1);
      StepExact(f, some, s, a.block, a.order);
      StepParentsKnown(f, some, s, a.block, a.order);
    }
  }

  lemma StartExact(f: Feed)
    ensures Exact(f, f.Arrived(0), f.After(0).hashBlocks) && ParentsKnown(f, f.Arrived(0), f.After(0))
  {
  }

  lemma ClosingBreaksExact(f: Feed, some: set<Id>, arrived: set<Id>, s: State, current: Id)
    requires some <= arrived && f.Rooted(arrived) && current in arrived
    requires AllRecorded(f, some, s.hashBlocks) && AllUnbroken(f, some, s.missingBlock)
    requires ClosesGap(s, current, f.parent(current)) && Exact(f, some, s.hashBlocks)
    ensures !Exact(f, arrived, Closed(s.hashBlocks, f.parent(current), s.missingBlock[current]))
  {
    hide Closed, Exact, Waiting, Stacked;
    var prev, mb := f.parent(current), s.missingBlock[current];
    assert f.Unbroken(arrived, current, mb);
    AllRecordedGrows(f, some, arrived, s.hashBlocks);
    CloseRecorded(f, arrived, s.hashBlocks, current, mb);
    assert f.Recorded(some, s.hashBlocks, prev);
    var d: nat :| f.Connected(some, prev, d);
    ExactAt(f, some, s.hashBlocks, prev, d);
    ConnectedGrows(f, some, arrived, prev, d);
    assert f.Connected(arrived, current, d + 1);
    WaitingParts(mb);
    hide *;
    ChainConnected(f, arrived, current, mb, d + 1, 0);
    var heights := Closed(s.hashBlocks, prev, mb);
    StackedTop(s.hashBlocks, heights, prev, Waiting(mb));
    if Exact(f, arrived, heights) {
      ExactAt(f, arrived, heights, Waiting(mb)[0], d + 1 + |Waiting(mb)|);
      assert false;
    }
  }

  lemma ExactAt(f: Feed, arrived: set<Id>, heights: map<Id, nat>, id: Id, d: nat)
    requires Exact(f, arrived, heights) && f.Connected(arrived, id, d)
    ensures id in heights && heights[id] == d
  {
  }

  lemma StackedTop(before: map<Id, nat>, after: map<Id, nat>, prev: Id, chain: seq<Id>)
    requires prev in before && Stacked(before, after, prev, chain) && chain != []
    ensures chain[0] in after && after[chain[0]] == before[prev] + |chain|
  {
  }

  /**
    * The recorded heights are the true depths of all connected blocks, after every arrival, if and only
    * if no arrival closes a gap.
    */
  lemma InSyncIffNoGapCloses(f: Feed)
    requires f.Rooted(f.Arrived(|f.arrivals|))
    ensures (forall n :: 0 <= n <= |f.arrivals| ==> f.InSync(n))
            <==> (forall n :: 0 <= n < |f.arrivals| ==> !f.Closes(n))
  {
    if forall n :: 0 <= n < |f.arrivals| ==> !f.Closes(n) {
      forall n | 0 <= n <= |f.arrivals|
        ensures f.InSync(n)
      {
        ArrivedGrows(f, n, |f.arrivals|);
        ExactWithoutClosing(f, n);
      }
    } else {
      var n :| 0 <= n < |f.arrivals| && f.Closes(n);
      ArrivedGrows(f, n, |f.arrivals|);
      ArrivedGrows(f, n + 1, |f.arrivals|);
      HeightsWithinDepths(f, n);
      MissingIsUnbroken(f, n);
      HeightsStep(f, n + 1);
      if f.InSync(n) {
        ClosingBreaksExact(f, f.Arrived(n), f.Arrived(n + 1), f.After(n), f.arrivals[n].block);
        assert !f.InSync(n + 1);
      }
    }
  }

  lemma {:induction false} ArrivedGrows(f: Feed, n: nat, m: nat)
    requires n <= m <= |f.arrivals|
    ensures f.Arrived(n) <= f.Arrived(m)
    decreases m
  {
    if n < m {
      ArrivedGrows(f, n, m - 1);
    }
  }

  /**
    * Two blocks arrive before the one below them: when that one comes, only the lower of the two is
    * recorded, one too low; the other waits for a block that has already been here.
    */
  lemma ClosedGapLosesBlocks(f: Feed, one: Id, two: Id, three: Id, x: real, y: real, z: real)
    requires |{f.genesis, one, two, three}| == 4
    requires f.parent(one) == f.genesis && f.parent(two) == one && f.parent(three) == two
    requires f.arrivals == [Arrival(two, x), Arrival(three, y), Arrival(one, z)]
    ensures f.After(3).hashBlocks == map[f.genesis := 0, two := 1]
    ensures f.After(3).missingBlock == map[two := MissingBlockStruct(1, y, three, [])]
    ensures f.Connected(f.Arrived(3), one, 1) && f.Connected(f.Arrived(3), two, 2)
    ensures f.Connected(f.Arrived(3), three, 3)
  {
    FourDistinct(f.genesis, one, two, three);
    assert f.After(0) == f.Start();
    assert f.After(1).missingBlock == map[one := MissingBlockStruct(1, x, two, [])];
    assert f.After(2).missingBlock
        == map[one := MissingBlockStruct(1, x, two, []), two := MissingBlockStruct(1, y, three, [])];
    assert f.Arrived(1) == {two} && f.Arrived(2) == {two, three} && f.Arrived(3) == {one, two, three};
    assert f.Connected(f.Arrived(3), f.genesis, 0);
  }

  lemma FourDistinct(a: Id, b: Id, c: Id, d: Id)
    requires |{a, b, c, d}| == 4
    ensures a != b && a != c && a != d && b != c && b != d && c != d
  {
  }

  // ----- The keys as the source computes them -----

  /**
    * handleBroadcast hashes the block into h2 but reads the hash of the previous block again, so both
    * keys are the parent's. This is the state after the first n arrivals, given their parents.
    */
  function SameKeys(genesis: Id, parents: seq<Arrival>, n: nat): State
    requires n <= |parents|
  {
    if n == 0 then State(map[genesis := 0], map[], multiset{(genesis, 0.0)}) else
      var a := parents[n - 1];
      Step(SameKeys(genesis, parents, n - 1), a.block, a.block, a.order)
  }

  function Times(parents: seq<Arrival>, n: nat, id: Id): nat
    requires n <= |parents|
  {
    if n == 0 then 0 else Times(parents, n - 1, id) + if parents[n - 1].block == id then 1 else 0
  }

  lemma SameKeyStep(s: State, genesis: Id, count: nat, id: Id, order: real)
    requires s.hashBlocks == map[genesis := count] && genesis !in s.missingBlock
    ensures var s' := Step(s, id, id, order);
            && s'.hashBlocks == map[genesis := count + if id == genesis then 1 else 0]
            && s'.missingBlock.Keys
               == if id == genesis then s.missingBlock.Keys
                  else if id in s.missingBlock then s.missingBlock.Keys - {id} else s.missingBlock.Keys + {id}
  {
  }

  /** With both keys the parent's, no block is ever recorded: genesis's height counts its children. */
  lemma {:induction false} SameKeysRecordNothing(genesis: Id, parents: seq<Arrival>, n: nat)
    requires n <= |parents|
    ensures SameKeys(genesis, parents, n).hashBlocks == map[genesis := Times(parents, n, genesis)]
    ensures genesis !in SameKeys(genesis, parents, n).missingBlock
  {
    if n == 0 {
    } else {
      SameKeysRecordNothing(genesis, parents, n - 1);
      var s, a := SameKeys(genesis, parents, n - 1), parents[n - 1];
      SameKeyStep(s, genesis, Times(parents, n - 1, genesis), a.block, a.order);
      hide Step;
    }
  }

  lemma SameKeysToggle(genesis: Id, parents: seq<Arrival>, n: nat)
    requires 0 < n <= |parents|
    ensures var before, id := SameKeys(genesis, parents, n - 1).missingBlock.Keys, parents[n - 1].block;
            SameKeys(genesis, parents, n).missingBlock.Keys
            == if id == genesis then before else if id in before then before - {id} else before + {id}
  {
    SameKeysRecordNothing(genesis, parents, n - 1);
    var s, a := SameKeys(genesis, parents, n - 1), parents[n - 1];
    SameKeyStep(s, genesis, Times(parents, n - 1, genesis), a.block, a.order);
    hide Step;
  }

  predicate Odd(n: nat) {
    n % 2 == 1
  }

  lemma OddFlips(n: nat)
    ensures !Odd(0) && Odd(n + 1) == !Odd(n)
  {
  }

  /** With both keys the parent's, a parent other than genesis is waited for after an odd number of its children. */
  lemma {:induction false} SameKeysOnlyCount(genesis: Id, parents: seq<Arrival>, n: nat, id: Id)
    requires n <= |parents|
    ensures id in SameKeys(genesis, parents, n).missingBlock.Keys <==> id != genesis && Odd(Times(parents, n, id))
  {
    hide Odd, Step;
    OddFlips(0);
    if n == 0 {
    } else {
      SameKeysOnlyCount(genesis, parents, n - 1, id);
      SameKeysToggle(genesis, parents, n);
      OddFlips(Times(parents, n - 1, id));
      hide SameKeys;
    }
  }

  // ----- The whole queue, while no gap closes -----

  /** How many parent links lead to genesis, if they do. */
  ghost function DepthOf(f: Feed, arrived: set<Id>, id: Id): Option<nat> {
    if exists d :: f.Connected(arrived, id, d) then
      var d: nat :| f.Connected(arrived, id, d);
      Some(d)
    else None
  }

  lemma DepthOfIs(f: Feed, arrived: set<Id>, id: Id, d: nat)
    requires f.Rooted(arrived) && f.Connected(arrived, id, d)
    ensures DepthOf(f, arrived, id) == Some(d)
  {
    var e: nat :| f.Connected(arrived, id, e) && DepthOf(f, arrived, id) == Some(e);
    DepthUnique(f, arrived, id, d, e);
  }

  /** A queue with an arrival at its depth plus its order, if its parent is connected. */
  function Grown(q: multiset<(Id, real)>, a: Arrival, parentDepth: Option<nat>): multiset<(Id, real)> {
    match parentDepth
    case None => q
    case Some(d) => q + multiset{(a.block, (d + 1) as real + a.order)}
  }

  /** Genesis, and each of the first n arrivals that connects when it comes. */
  ghost function Expected(f: Feed, n: nat): multiset<(Id, real)>
    requires n <= |f.arrivals|
  {
    if n == 0 then multiset{(f.genesis, 0.0)} else
      var a := f.arrivals[n - 1];
      Grown(Expected(f, n - 1), a, DepthOf(f, f.Arrived(n - 1), f.parent(a.block)))
  }

  lemma QueuesAtDepth(f: Feed, arrived: set<Id>, s: State, a: Arrival)
    requires f.Rooted(arrived) && AllRecorded(f, arrived, s.hashBlocks) && Exact(f, arrived, s.hashBlocks)
    requires !ClosesGap(s, a.block, f.parent(a.block))
    ensures Step(s, a.block, f.parent(a.block), a.order).priorityBlocks
         == Grown(s.priorityBlocks, a, DepthOf(f, arrived, f.parent(a.block)))
  {
    var prev := f.parent(a.block);
    StepQueuesExactly(s, a.block, prev, a.order);
    hide Step;
    if prev in s.hashBlocks {
      assert f.Recorded(arrived, s.hashBlocks, prev);
      var d: nat :| f.Connected(arrived, prev, d);
      ExactAt(f, arrived, s.hashBlocks, prev, d);
      DepthOfIs(f, arrived, prev, d);
      hide DepthOf;
    }
  }

  lemma QueueStep(f: Feed, n: nat)
    requires 0 < n <= |f.arrivals| && f.Rooted(f.Arrived(n - 1)) && !f.Closes(n - 1)
    requires AllRecorded(f, f.Arrived(n - 1), f.After(n - 1).hashBlocks)
    requires Exact(f, f.Arrived(n - 1), f.After(n - 1).hashBlocks)
    requires f.After(n - 1).priorityBlocks == Expected(f, n - 1)
    ensures f.After(n).priorityBlocks == Expected(f, n)
  {
    var s, a := f.After(n - 1), f.arrivals[n - 1];
    assert f.After(n) == Step(s, a.block, f.parent(a.block), a.order);
    hide Step, DepthOf, AllRecorded, Exact, Feed.After, Feed.Rooted, ClosesGap, Grown;
    QueuesAtDepth(f, f.Arrived(n - 1), s, a);
  }

  /** While no gap closes every arrival that connects is queued, once, at its true depth, and nothing else is. */
  lemma {:induction false} QueueWithoutClosing(f: Feed, n: nat)
    requires n <= |f.arrivals| && f.Rooted(f.Arrived(n)) && forall i :: 0 <= i < n ==> !f.Closes(i)
    ensures f.After(n).priorityBlocks == Expected(f, n)
  {
    if n == 0 {
    } else {
      ArrivedGrows(f, n - 1, n);
      QueueWithoutClosing(f, n - 1);
      ExactWithoutClosing(f, n - 1);
      HeightsWithinDepths(f, n - 1);
      assert !f.Closes(n - 1);
      QueueStep(f, n);
    }
  }
}
