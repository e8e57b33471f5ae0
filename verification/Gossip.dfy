/** Forwarding and deduplication of broadcast messages (networking/server.go). */
module Gossip {
  import opened Base58
  import opened Overflow
  import opened Radix
  import opened Sets

  const MAX_MESSAGES_SAVE: nat := 5000

  // ----- Forwarding -----

  /** env.TTL-- on a uint32. */
  function Decremented(ttl: U32): U32 {
    if ttl == 0 then TWO_TO_THE_32 - 1 else ttl - 1
  }

  predicate Forwards(ttl: U32) {
    1 <= Decremented(ttl) <= 64
  }

  class Relay {
    var clients: set<nat>
    // the clients that asked for a shard's messages, connected or not
    var interestedClients: map<string, set<nat>>
    var isOpen: map<nat, bool>

    ghost function Open(among: set<nat>): set<nat>
      reads this
    {
      set k | k in among && k in isOpen && isOpen[k]
    }

    ghost function Audience(shard: string): set<nat>
      reads this
    {
      if |clients| < 50 then clients
      else if shard in interestedClients then interestedClients[shard] else {}
    }

    constructor ()
      ensures clients == {} && interestedClients == map[] && isOpen == map[]
    {
      clients, interestedClients, isOpen := {}, map[], map[];
    }

    /** The broadcast arm of run, for a message whose signature is valid: who it is sent to, and with what TTL. */
    method Broadcast(ttl: U32, shard: string) returns (receivers: set<nat>, newTtl: U32)
      ensures newTtl == Decremented(ttl)
      ensures receivers == if Forwards(ttl) then Open(Audience(shard)) else {}
      // in plain terms: from 2 to 65, to all clients of a small node, else to those that asked for the shard
      ensures forall k :: k in receivers <==>
                && 2 <= ttl <= 65 && k in isOpen && isOpen[k]
                && if |clients| < 50 then k in clients
                   else shard in interestedClients && k in interestedClients[shard]
      ensures 2 <= ttl ==> newTtl == ttl - 1
      ensures |receivers| <= |Audience(shard)|
    {
      newTtl := if ttl == 0 then TWO_TO_THE_32 - 1 else ttl - 1;
      receivers := {};
      if newTtl < 1 || newTtl > 64 {
        return;
      }
      var rest: set<nat> := {};
      if |clients| < 50 {
        rest := clients;
      } else if shard in interestedClients {
        rest := interestedClients[shard];
      }
      ghost var all := rest;
      while rest != {}
        invariant rest <= all && receivers == Open(all - rest)
        decreases rest
      {
        var k :| k in rest;
        rest := rest - {k};
        if k in isOpen && isOpen[k] {
          receivers := receivers + {k};
        }
      }
      assert all - rest == all;
      SubsetSize(receivers, all);
    }
  }

  /** What a message still in flight can cost: its own handling and that of everything it may turn into. */
  function Cost(fanOut: nat, ttl: U32): nat {
    if Forwards(ttl) then Pow(fanOut + 1, ttl) else 1
  }

  function TotalCost(fanOut: nat, flight: seq<U32>): nat {
    if flight == [] then 0 else TotalCost(fanOut, flight[..|flight| - 1]) + Cost(fanOut, flight[|flight| - 1])
  }

  /** One node handles one message in flight: it is gone, and at most fanOut copies are sent if it forwards. */
  ghost predicate Handles(fanOut: nat, before: seq<U32>, after: seq<U32>, k: nat, copies: nat) {
    && k < |before| && copies <= fanOut && (!Forwards(before[k]) ==> copies == 0)
    && after == before[..k] + before[k + 1..] + seq(copies, _ => Decremented(before[k]))
  }

  lemma {:induction false} TotalCostConcat(fanOut: nat, a: seq<U32>, b: seq<U32>)
    ensures TotalCost(fanOut, a + b) == TotalCost(fanOut, a) + TotalCost(fanOut, b)
  {
    if b == [] {
      assert a + b == a;
    } else {
      assert (a + b)[..|a + b| - 1] == a + b[..|b| - 1];
      TotalCostConcat(fanOut, a, b[..|b| - 1]);
    }
  }

  lemma {:induction false} CopiesCost(fanOut: nat, ttl: U32, copies: nat)
    ensures TotalCost(fanOut, seq(copies, _ => ttl)) == copies * Cost(fanOut, ttl)
  {
    if copies == 0 {
    } else {
      assert seq(copies, _ => ttl)[..copies - 1] == seq(copies - 1, _ => ttl);
      CopiesCost(fanOut, ttl, copies - 1);
    }
  }

  lemma ForwardingCostsLess(fanOut: nat, ttl: U32, copies: nat)
    requires copies <= fanOut && (!Forwards(ttl) ==> copies == 0)
    ensures copies * Cost(fanOut, Decremented(ttl)) < Cost(fanOut, ttl)
  {
    if Forwards(ttl) {
      var one := Pow(fanOut + 1, ttl - 1);
      PowPositive(fanOut + 1, ttl - 1);
      assert Cost(fanOut, ttl - 1) <= one;
      MulMonotone(copies, fanOut, Cost(fanOut, ttl - 1));
      MulMonotone(Cost(fanOut, ttl - 1), one, fanOut);
      assert Cost(fanOut, ttl) == fanOut * one + one;
    }
  }

  lemma HandlingCosts(fanOut: nat, before: seq<U32>, after: seq<U32>, k: nat, copies: nat)
    requires Handles(fanOut, before, after, k, copies)
    ensures TotalCost(fanOut, after) < TotalCost(fanOut, before)
  {
    var sent := seq(copies, _ => Decremented(before[k]));
    assert before == before[..k] + ([before[k]] + before[k + 1..]);
    TotalCostConcat(fanOut, before[..k], [before[k]] + before[k + 1..]);
    TotalCostConcat(fanOut, [before[k]], before[k + 1..]);
    assert [before[k]][..0] == [];
    assert TotalCost(fanOut, [before[k]]) == Cost(fanOut, before[k]);
    TotalCostConcat(fanOut, before[..k] + before[k + 1..], sent);
    TotalCostConcat(fanOut, before[..k], before[k + 1..]);
    CopiesCost(fanOut, Decremented(before[k]), copies);
    ForwardingCostsLess(fanOut, before[k], copies);
  }

  ghost predicate Step(fanOut: nat, before: seq<U32>, after: seq<U32>) {
    exists k, copies :: Handles(fanOut, before, after, k, copies)
  }

  ghost predicate IsRun(fanOut: nat, run: seq<seq<U32>>) {
    run != [] && forall i :: 0 <= i < |run| - 1 ==> Step(fanOut, run[i], run[i + 1])
  }

  /**
    * Whatever the nodes do, forwarding ends: a run has no more steps than the total cost of the messages
    * it starts from, with any TTLs.
    */
  lemma {:induction false} ForwardingEnds(fanOut: nat, run: seq<seq<U32>>)
    requires IsRun(fanOut, run)
    ensures |run| - 1 + TotalCost(fanOut, run[|run| - 1]) <= TotalCost(fanOut, run[0])
  {
    if |run| == 1 {
    } else {
      var shorter := run[..|run| - 1];
      forall i | 0 <= i < |shorter| - 1
        ensures Step(fanOut, shorter[i], shorter[i + 1])
      {
        assert Step(fanOut, run[i], run[i + 1]);
      }
      ForwardingEnds(fanOut, shorter);
      assert Step(fanOut, run[|run| - 2], run[|run| - 2 + 1]);
      var k, copies :| Handles(fanOut, run[|run| - 2], run[|run| - 1], k, copies);
      HandlingCosts(fanOut, run[|run| - 2], run[|run| - 1], k, copies);
    }
  }

  // ----- Deduplication -----

  type Digest = seq<Byte>

  function Remembered(window: seq<Digest>, hash: Digest): seq<Digest> {
    if hash in window then window
    else if |window| + 1 > MAX_MESSAGES_SAVE then (window + [hash])[1..]
    else window + [hash]
  }

  class Inbox {
    var hashMessages: seq<Digest>

    constructor ()
      ensures hashMessages == []
    {
      hashMessages := [];
    }

    method CheckDuplicatedMessage(hash: Digest) returns (duplicate: bool)
      modifies this
      ensures duplicate == (hash in old(hashMessages))
      ensures hashMessages == Remembered(old(hashMessages), hash)
    {
      var alreadyReceived := false;
      var i := 0;
      while i < |hashMessages| && !alreadyReceived
        invariant 0 <= i <= |hashMessages|
        invariant alreadyReceived == (hash in hashMessages[..i])
        invariant hashMessages == old(hashMessages)
      {
        alreadyReceived := hashMessages[i] == hash;
        i := i + 1;
      }
      if alreadyReceived {
        return true;
      }
      assert hashMessages[..i] == hashMessages;
      hashMessages := hashMessages + [hash];
      if |hashMessages| > MAX_MESSAGES_SAVE {
        hashMessages := hashMessages[1..];
      }
      return false;
    }
  }

  /** The window after the first n messages. */
  function Window(messages: seq<Digest>, n: nat): seq<Digest>
    requires n <= |messages|
  {
    if n == 0 then [] else Remembered(Window(messages, n - 1), messages[n - 1])
  }

  predicate Accepted(messages: seq<Digest>, i: nat)
    requires i < |messages|
  {
    messages[i] !in Window(messages, i)
  }

  /** The hashes accepted among the first n messages, in order. */
  function AcceptedHashes(messages: seq<Digest>, n: nat): seq<Digest>
    requires n <= |messages|
  {
    if n == 0 then [] else
      AcceptedHashes(messages, n - 1) + if Accepted(messages, n - 1) then [messages[n - 1]] else []
  }

  function Latest(s: seq<Digest>): seq<Digest> {
    if |s| <= MAX_MESSAGES_SAVE then s else s[|s| - MAX_MESSAGES_SAVE..]
  }

  lemma LatestOfMore(s: seq<Digest>, x: Digest)
    requires x !in Latest(s)
    ensures Latest(s + [x]) == Remembered(Latest(s), x)
  {
  }

  lemma LatestHolds(s: seq<Digest>)
    ensures forall i :: 0 <= i < |s| && |s| - MAX_MESSAGES_SAVE <= i ==> s[i] in Latest(s)
  {
    forall i | 0 <= i < |s| && |s| - MAX_MESSAGES_SAVE <= i
      ensures s[i] in Latest(s)
    {
      if MAX_MESSAGES_SAVE < |s| {
        assert Latest(s)[i - (|s| - MAX_MESSAGES_SAVE)] == s[i];
      }
    }
  }

  /** After any run the window is the last 5000 accepted hashes. */
  lemma {:induction false} WindowIsLatest(messages: seq<Digest>, n: nat)
    requires n <= |messages|
    ensures Window(messages, n) == Latest(AcceptedHashes(messages, n))
  {
    if n == 0 {
    } else {
      WindowIsLatest(messages, n - 1);
      if Accepted(messages, n - 1) {
        LatestOfMore(AcceptedHashes(messages, n - 1), messages[n - 1]);
      } else {
        assert AcceptedHashes(messages, n) == AcceptedHashes(messages, n - 1);
      }
      hide Latest;
    }
  }

  /** A hash is accepted again only after at least 5000 others have been accepted in between. */
  lemma {:induction false} AcceptedFarApart(messages: seq<Digest>, n: nat, i: nat, j: nat)
    requires n <= |messages| && i < j < |AcceptedHashes(messages, n)|
    requires AcceptedHashes(messages, n)[i] == AcceptedHashes(messages, n)[j]
    ensures 5000 < j - i
  {
    var before := AcceptedHashes(messages, n - 1);
    if j < |before| {
      AcceptedFarApart(messages, n - 1, i, j);
    } else {
      WindowIsLatest(messages, n - 1);
      var hash := messages[n - 1];
      assert hash !in Latest(before);
      LatestHolds(before);
    }
  }

  lemma WindowHasNoRepeats(messages: seq<Digest>, n: nat, i: nat, j: nat)
    requires n <= |messages| && i < j < |Window(messages, n)|
    ensures Window(messages, n)[i] != Window(messages, n)[j] && |Window(messages, n)| <= 5000
  {
    WindowIsLatest(messages, n);
    var all := AcceptedHashes(messages, n);
    var start := |all| - |Window(messages, n)|;
    assert Window(messages, n)[i] == all[start + i] && Window(messages, n)[j] == all[start + j];
    if all[start + i] == all[start + j] {
      AcceptedFarApart(messages, n, start + i, start + j);
    }
  }
}
