/**
  * n-party Schnorr signatures (wallet/schnorr.go) over any cyclic group. Scalars are residues modulo
  * the group order; a point is a multiple of the base point, represented by that multiple.
  */
module Schnorr {
  import opened Sequences
  import Radix

  type Order = x: nat | 0 < x witness 1

  datatype Point = Multiple(of: int)

  const BASE := Multiple(1)

  /** The group order, the text of a point, and the hash of a text. */
  datatype Curve = Curve(order: Order, text: Point -> string, hash: string -> int) {
    function Reduce(x: int): int { x % order }

    predicate IsScalar(x: int) { 0 <= x < order }

    function ScalarAdd(a: int, b: int): int { Reduce(a + b) }
    function ScalarSub(a: int, b: int): int { Reduce(a - b) }
    function ScalarMul(a: int, b: int): int { Reduce(a * b) }
    function PointAdd(p: Point, q: Point): Point { Multiple(Reduce(p.of + q.of)) }
    function PointMul(k: int, p: Point): Point { Multiple(Reduce(k * p.of)) }

    function Challenge(m: string, p: Point, r: Point): int {
      Reduce(hash(m + text(p) + text(r)))
    }

    /** first + rest[0] + ... as the loops add them. */
    function PointSum(first: Point, rest: seq<Point>): Point {
      if rest == [] then first else PointAdd(PointSum(first, rest[..|rest| - 1]), rest[|rest| - 1])
    }

    function ScalarSum(first: int, rest: seq<int>): int {
      if rest == [] then first else ScalarAdd(ScalarSum(first, rest[..|rest| - 1]), rest[|rest| - 1])
    }

    function Signed(m: string, x: int, otherR: seq<Point>, otherP: seq<Point>, k: int): int {
      var e := Challenge(m, PointSum(PointMul(x, BASE), otherP), PointSum(PointMul(k, BASE), otherR));
      ScalarSub(k, ScalarMul(e, x))
    }

    predicate Verifies(m: string, sSignature: int, p: Point, r: Point) {
      r == PointAdd(PointMul(sSignature, BASE), PointMul(Challenge(m, p, r), p))
    }
  }

  // ----- The code -----

  method Sign(c: Curve, m: string, x: int, otherR: seq<Point>, otherP: seq<Point>, k: int) returns (s: int)
    ensures s == c.Signed(m, x, otherR, otherP, k)
  {
    var myR := c.PointMul(k, BASE);
    var myP := c.PointMul(x, BASE);
    var aggregateR := SumLoop(c, myR, otherR);
    var aggregateP := SumLoop(c, myP, otherP);
    var e := c.Challenge(m, aggregateP, aggregateR);
    s := c.ScalarSub(k, c.ScalarMul(e, x));
  }

  method SumLoop(c: Curve, first: Point, rest: seq<Point>) returns (sum: Point)
    ensures sum == c.PointSum(first, rest)
  {
    sum := first;
    for i := 0 to |rest|
      invariant sum == c.PointSum(first, rest[..i])
    {
      assert rest[..i + 1][..i] == rest[..i];
      sum := c.PointAdd(sum, rest[i]);
    }
    assert rest[..|rest|] == rest;
  }

  /** Go indexes the first element: the lists are not empty. */
  method CreateSignature(c: Curve, rs: seq<Point>, ss: seq<int>) returns (aggregateR: Point, aggregateS: int)
    requires rs != [] && ss != []
    ensures aggregateR == c.PointSum(rs[0], rs[1..]) && aggregateS == c.ScalarSum(ss[0], ss[1..])
  {
    aggregateR := SumLoop(c, rs[0], rs[1..]);
    aggregateS := ss[0];
    var rest := ss[1..];
    for i := 0 to |rest|
      invariant aggregateS == c.ScalarSum(ss[0], rest[..i])
    {
      assert rest[..i + 1][..i] == rest[..i];
      aggregateS := c.ScalarAdd(aggregateS, rest[i]);
    }
    assert rest[..|rest|] == rest;
  }

  /** The signature's own R is not looked at: the verifier adds the signers' up again. */
  method VerifySignature(
      c: Curve, message: string, rSignature: Point, sSignature: int, allP: seq<Point>, allR: seq<Point>)
      returns (v: bool)
    requires allP != [] && allR != []
    ensures v == c.Verifies(message, sSignature, c.PointSum(allP[0], allP[1..]), c.PointSum(allR[0], allR[1..]))
  {
    var aggregateP := SumLoop(c, allP[0], allP[1..]);
    var aggregateR := SumLoop(c, allR[0], allR[1..]);
    v := c.Verifies(message, sSignature, aggregateP, aggregateR);
  }

  // ----- Residues -----

  lemma Quotient(c: Curve, x: int) returns (k: int)
    ensures x == c.Reduce(x) + k * c.order && c.IsScalar(c.Reduce(x))
  {
    k := x / c.order;
  }

  lemma SameResidue(c: Curve, x: int, y: int, k: int)
    requires x == y + k * c.order
    ensures c.Reduce(x) == c.Reduce(y)
  {
    var i := Quotient(c, x);
    var j := Quotient(c, y);
    var d := j + k - i;
    assert c.Reduce(x) - c.Reduce(y) == d * c.order by {
      assert (j + k - i) * c.order == j * c.order + k * c.order - i * c.order;
    }
    if 1 <= d {
      Radix.MulMonotone(1, d, c.order);
    } else if d <= -1 {
      Radix.MulMonotone(1, -d, c.order);
    }
  }

  lemma ReduceScalar(c: Curve, x: int)
    requires c.IsScalar(x)
    ensures c.Reduce(x) == x
  {
    Radix.DivModUnique(0, x, c.order);
  }

  lemma ReducedIsScalar(c: Curve, x: int)
    ensures c.IsScalar(c.Reduce(x))
  {
  }

  lemma ReduceAdd(c: Curve, x: int, y: int)
    ensures c.Reduce(c.Reduce(x) + y) == c.Reduce(x + y)
  {
    var k := Quotient(c, x);
    SameResidue(c, x + y, c.Reduce(x) + y, k);
  }

  lemma ReduceSub(c: Curve, x: int, y: int)
    ensures c.Reduce(x - c.Reduce(y)) == c.Reduce(x - y)
  {
    var k := Quotient(c, y);
    SameResidue(c, x - c.Reduce(y), x - y, k);
  }

  lemma ReduceMul(c: Curve, x: int, y: int)
    ensures c.Reduce(y * c.Reduce(x)) == c.Reduce(y * x)
  {
    var k := Quotient(c, x);
    assert y * x == y * c.Reduce(x) + (y * k) * c.order by {
      assert y * (c.Reduce(x) + k * c.order) == y * c.Reduce(x) + y * (k * c.order);
      assert y * (k * c.order) == (y * k) * c.order;
    }
    SameResidue(c, y * x, y * c.Reduce(x), y * k);
  }

  // ----- Sums in any order -----

  function LogOf(p: Point): int { p.of }

  lemma {:induction false} PointSumReduces(c: Curve, first: Point, rest: seq<Point>)
    requires c.IsScalar(first.of)
    ensures c.PointSum(first, rest).of == c.Reduce(first.of + Sum(Map(LogOf, rest)))
  {
    hide Curve.Reduce;
    if rest == [] {
      ReduceScalar(c, first.of);
    } else {
      var n := |rest| - 1;
      PointSumReduces(c, first, rest[..n]);
      assert Map(LogOf, rest) == Map(LogOf, rest[..n]) + [rest[n].of];
      SumAppend(Map(LogOf, rest[..n]), rest[n].of);
      ReduceAdd(c, first.of + Sum(Map(LogOf, rest[..n])), rest[n].of);
    }
  }

  lemma {:induction false} ScalarSumReduces(c: Curve, first: int, rest: seq<int>)
    requires c.IsScalar(first)
    ensures c.ScalarSum(first, rest) == c.Reduce(first + Sum(rest))
  {
    hide Curve.Reduce;
    if rest == [] {
      ReduceScalar(c, first);
    } else {
      var n := |rest| - 1;
      ScalarSumReduces(c, first, rest[..n]);
      ReduceAdd(c, first + Sum(rest[..n]), rest[n]);
    }
  }

  lemma OwnFirst(first: Point, rest: seq<Point>, all: seq<Point>)
    requires multiset([first] + rest) == multiset(all)
    ensures first.of + Sum(Map(LogOf, rest)) == Sum(Map(LogOf, all))
  {
    SumRearranged(LogOf, [first] + rest, all);
    var logs := Map(LogOf, [first] + rest);
    assert logs[1..] == Map(LogOf, rest);
    SumHead(logs);
  }

  /** Own point first, then the others: the sum of all, whatever the order. */
  lemma PointSumOfAll(c: Curve, first: Point, rest: seq<Point>, all: seq<Point>)
    requires c.IsScalar(first.of) && multiset([first] + rest) == multiset(all)
    ensures c.PointSum(first, rest).of == c.Reduce(Sum(Map(LogOf, all)))
  {
    PointSumReduces(c, first, rest);
    OwnFirst(first, rest, all);
  }

  lemma ScalarSumOfAll(c: Curve, all: seq<int>, listed: seq<int>)
    requires listed != [] && c.IsScalar(listed[0]) && multiset(listed) == multiset(all)
    ensures c.ScalarSum(listed[0], listed[1..]) == c.Reduce(Sum(all))
  {
    hide Curve.Reduce;
    ScalarSumReduces(c, listed[0], listed[1..]);
    SumOfRearranged(listed, all);
    SumHead(listed);
  }

  // ----- The protocol -----

  /** A signer's private key and nonce. */
  datatype Signer = Signer(x: int, k: int)

  function KeyOf(s: Signer): int { s.x }
  function NonceOf(s: Signer): int { s.k }

  function AllP(c: Curve, signers: seq<Signer>): seq<Point> { Map((s: Signer) => c.PointMul(s.x, BASE), signers) }
  function AllR(c: Curve, signers: seq<Signer>): seq<Point> { Map((s: Signer) => c.PointMul(s.k, BASE), signers) }

  ghost predicate HaveKeys(c: Curve, signers: seq<Signer>) {
    forall i :: 0 <= i < |signers| ==> c.IsScalar(signers[i].x) && c.IsScalar(signers[i].k)
  }

  /** Each signature comes from Sign with the other signers' points, in whatever order it met them. */
  ghost predicate Honest(
      c: Curve, m: string, signers: seq<Signer>, otherR: seq<seq<Point>>, otherP: seq<seq<Point>>, sigs: seq<int>)
  {
    && |signers| == |otherR| == |otherP| == |sigs|
    && forall i :: 0 <= i < |signers| ==>
         && multiset([AllR(c, signers)[i]] + otherR[i]) == multiset(AllR(c, signers))
         && multiset([AllP(c, signers)[i]] + otherP[i]) == multiset(AllP(c, signers))
         && sigs[i] == c.Signed(m, signers[i].x, otherR[i], otherP[i], signers[i].k)
  }

  function KeySum(signers: seq<Signer>): int { Sum(Map(KeyOf, signers)) }
  function NonceSum(signers: seq<Signer>): int { Sum(Map(NonceOf, signers)) }

  lemma LogsOfPublicPoints(c: Curve, signers: seq<Signer>)
    requires HaveKeys(c, signers)
    ensures Map(LogOf, AllP(c, signers)) == Map(KeyOf, signers)
    ensures Map(LogOf, AllR(c, signers)) == Map(NonceOf, signers)
    ensures forall i :: 0 <= i < |signers| ==> c.IsScalar(AllP(c, signers)[i].of) && c.IsScalar(AllR(c, signers)[i].of)
  {
    forall i | 0 <= i < |signers|
      ensures AllP(c, signers)[i].of == signers[i].x && AllR(c, signers)[i].of == signers[i].k
    {
      ReduceScalar(c, signers[i].x);
      ReduceScalar(c, signers[i].k);
    }
  }

  /** Signatures on one challenge add up to the nonces less the challenge times the keys. */
  lemma {:induction false} SignaturesAddUp(c: Curve, signers: seq<Signer>, sigs: seq<int>, e: int)
    requires |signers| == |sigs|
    requires forall i :: 0 <= i < |sigs| ==> sigs[i] == c.ScalarSub(signers[i].k, c.ScalarMul(e, signers[i].x))
    ensures c.Reduce(Sum(sigs)) == c.Reduce(NonceSum(signers) - e * KeySum(signers))
    decreases |sigs|
  {
    hide Curve.Reduce;
    if sigs == [] {
    } else {
      var n := |sigs| - 1;
      SignaturesAddUp(c, signers[..n], sigs[..n], e);
      AddUpStep(c, Sum(sigs[..n]), NonceSum(signers[..n]), KeySum(signers[..n]), e, sigs[n], signers[n]);
      assert Map(KeyOf, signers) == Map(KeyOf, signers[..n]) + [signers[n].x];
      assert Map(NonceOf, signers) == Map(NonceOf, signers[..n]) + [signers[n].k];
      SumAppend(Map(KeyOf, signers[..n]), signers[n].x);
      SumAppend(Map(NonceOf, signers[..n]), signers[n].k);
    }
  }

  lemma AddUpStep(c: Curve, sum: int, nonces: int, keys: int, e: int, sig: int, s: Signer)
    requires c.Reduce(sum) == c.Reduce(nonces - e * keys) && sig == c.ScalarSub(s.k, c.ScalarMul(e, s.x))
    ensures c.Reduce(sum + sig) == c.Reduce(nonces + s.k - e * (keys + s.x))
  {
    hide Curve.Reduce;
    ReduceSub(c, s.k, e * s.x);
    ReduceAdd(c, sum, sig);
    ReduceAdd(c, nonces - e * keys, sig);
    ReduceAdd(c, s.k - e * s.x, nonces - e * keys);
    assert e * (keys + s.x) == e * keys + e * s.x;
  }

  /** A scalar passes verification exactly when it is r less the challenge times p. */
  lemma VerifiesIff(c: Curve, m: string, s: int, p: Point, r: Point)
    requires c.IsScalar(s) && c.IsScalar(r.of)
    ensures c.Verifies(m, s, p, r) <==> s == c.Reduce(r.of - c.Challenge(m, p, r) * p.of)
  {
    var ep := c.Challenge(m, p, r) * p.of;
    ReduceScalar(c, s);
    ReduceScalar(c, r.of);
    ReduceAdd(c, ep, s);
    ReduceSub(c, r.of, ep);
    // r == (s + ep) mod order, and s == (r - ep) mod order
    ReduceSub(c, s + ep - ep, 0);
    if r.of == c.Reduce(s + ep) {
      ReduceAdd(c, s + ep, -ep);
    }
    if s == c.Reduce(r.of - ep) {
      ReduceAdd(c, r.of - ep, ep);
    }
  }

  /** The aggregate of honest signatures is the sum of the nonces less the challenge times the sum of the keys. */
  lemma AggregateOfHonest(
      c: Curve, m: string, signers: seq<Signer>, otherR: seq<seq<Point>>, otherP: seq<seq<Point>>, sigs: seq<int>,
      ss: seq<int>, allP: seq<Point>, allR: seq<Point>)
    requires signers != [] && HaveKeys(c, signers) && Honest(c, m, signers, otherR, otherP, sigs)
    requires ss != [] && multiset(ss) == multiset(sigs)
    requires allP != [] && multiset(allP) == multiset(AllP(c, signers))
    requires allR != [] && multiset(allR) == multiset(AllR(c, signers))
    ensures var p, r := c.PointSum(allP[0], allP[1..]), c.PointSum(allR[0], allR[1..]);
            c.IsScalar(r.of) && c.ScalarSum(ss[0], ss[1..]) == c.Reduce(r.of - c.Challenge(m, p, r) * p.of)
  {
    hide Curve.Reduce, Curve.PointSum, Curve.Challenge, Curve.ScalarSum, Curve.Verifies;
    var p, r := c.PointSum(allP[0], allP[1..]), c.PointSum(allR[0], allR[1..]);
    LogsOfPublicPoints(c, signers);
    AggregatePoint(c, AllP(c, signers), allP);
    AggregatePoint(c, AllR(c, signers), allR);
    SameChallenge(c, m, signers, otherR, otherP, sigs, p, r);
    hide Honest, HaveKeys, Map;
    AggregateScalar(c, signers, sigs, ss, c.Challenge(m, p, r), p, r);
  }

  /**
    * For any number of signers, with every list in any order, VerifySignature accepts the scalar
    * CreateSignature makes of the honest signatures, and no other.
    */
  lemma OnlyTheAggregateVerifies(
      c: Curve, m: string, signers: seq<Signer>, otherR: seq<seq<Point>>, otherP: seq<seq<Point>>, sigs: seq<int>,
      ss: seq<int>, allP: seq<Point>, allR: seq<Point>, s: int)
    requires signers != [] && HaveKeys(c, signers) && Honest(c, m, signers, otherR, otherP, sigs)
    requires ss != [] && multiset(ss) == multiset(sigs)
    requires allP != [] && multiset(allP) == multiset(AllP(c, signers))
    requires allR != [] && multiset(allR) == multiset(AllR(c, signers))
    requires c.IsScalar(s)
    ensures c.Verifies(m, s, c.PointSum(allP[0], allP[1..]), c.PointSum(allR[0], allR[1..]))
            <==> s == c.ScalarSum(ss[0], ss[1..])
  {
    hide Curve.Reduce, Curve.PointSum, Curve.Challenge, Curve.ScalarSum, Curve.Verifies, Honest, HaveKeys, Map;
    AggregateOfHonest(c, m, signers, otherR, otherP, sigs, ss, allP, allR);
    VerifiesIff(c, m, s, c.PointSum(allP[0], allP[1..]), c.PointSum(allR[0], allR[1..]));
  }

  lemma AggregatePoint(c: Curve, points: seq<Point>, all: seq<Point>)
    requires all != [] && multiset(all) == multiset(points) && forall p :: p in points ==> c.IsScalar(p.of)
    ensures c.PointSum(all[0], all[1..]).of == c.Reduce(Sum(Map(LogOf, points)))
    ensures c.IsScalar(c.PointSum(all[0], all[1..]).of)
  {
    hide Curve.Reduce;
    assert [all[0]] + all[1..] == all;
    assert all[0] in multiset(points);
    PointSumOfAll(c, all[0], all[1..], points);
    ReducedIsScalar(c, Sum(Map(LogOf, points)));
  }

  lemma SameChallenge(
      c: Curve, m: string, signers: seq<Signer>, otherR: seq<seq<Point>>, otherP: seq<seq<Point>>, sigs: seq<int>,
      p: Point, r: Point)
    requires HaveKeys(c, signers) && Honest(c, m, signers, otherR, otherP, sigs)
    requires p.of == c.Reduce(Sum(Map(LogOf, AllP(c, signers)))) && r.of == c.Reduce(Sum(Map(LogOf, AllR(c, signers))))
    ensures forall i :: 0 <= i < |sigs| ==>
              sigs[i] == c.ScalarSub(signers[i].k, c.ScalarMul(c.Challenge(m, p, r), signers[i].x))
  {
    hide Curve.Reduce, Curve.PointSum, Curve.Challenge, Curve.PointMul;
    LogsOfPublicPoints(c, signers);
    forall i | 0 <= i < |sigs|
      ensures sigs[i] == c.ScalarSub(signers[i].k, c.ScalarMul(c.Challenge(m, p, r), signers[i].x))
    {
      PointSumOfAll(c, AllP(c, signers)[i], otherP[i], AllP(c, signers));
      PointSumOfAll(c, AllR(c, signers)[i], otherR[i], AllR(c, signers));
    }
  }

  lemma AggregateScalar(c: Curve, signers: seq<Signer>, sigs: seq<int>, ss: seq<int>, e: int, p: Point, r: Point)
    requires ss != [] && multiset(ss) == multiset(sigs) && |signers| == |sigs|
    requires forall i :: 0 <= i < |sigs| ==> sigs[i] == c.ScalarSub(signers[i].k, c.ScalarMul(e, signers[i].x))
    requires p.of == c.Reduce(KeySum(signers)) && r.of == c.Reduce(NonceSum(signers))
    ensures c.ScalarSum(ss[0], ss[1..]) == c.Reduce(r.of - e * p.of)
  {
    hide Curve.Reduce;
    assert ss[0] in multiset(sigs);
    assert ss[0] in sigs;
    forall i | 0 <= i < |sigs|
      ensures c.IsScalar(sigs[i])
    {
      ReducedIsScalar(c, signers[i].k - c.ScalarMul(e, signers[i].x));
    }
    ScalarSumOfAll(c, sigs, ss);
    SignaturesAddUp(c, signers, sigs, e);
    ReduceMul(c, KeySum(signers), e);
    ReduceAdd(c, NonceSum(signers), -(e * p.of));
    ReduceSub(c, NonceSum(signers), e * p.of);
    ReduceSub(c, NonceSum(signers), e * KeySum(signers));
  }

  // ----- The equations in plain arithmetic -----

  /** Verification is R = s*G + H(m || P || R)*P, on the multiples of the base point. */
  lemma VerifiesEquation(c: Curve, m: string, s: int, p: Point, r: Point)
    ensures c.Verifies(m, s, p, r) <==>
            r.of == ((s % c.order) + ((c.hash(m + c.text(p) + c.text(r)) % c.order) * p.of) % c.order) % c.order
  {
    assert s * BASE.of == s;
  }

  /** Signing is k - H(m || P || R)*x, with the sums of the signer's own point and the others. */
  lemma SignedEquation(c: Curve, m: string, x: int, otherR: seq<Point>, otherP: seq<Point>, k: int)
    ensures var p := Multiple((x + Sum(Map(LogOf, otherP))) % c.order);
            var r := Multiple((k + Sum(Map(LogOf, otherR))) % c.order);
            c.Signed(m, x, otherR, otherP, k)
            == (k - (c.hash(m + c.text(p) + c.text(r)) % c.order) * x % c.order) % c.order
  {
    PublicSum(c, x, otherP);
    PublicSum(c, k, otherR);
    hide Curve.PointSum;
  }

  lemma PublicSum(c: Curve, x: int, others: seq<Point>)
    ensures c.PointSum(c.PointMul(x, BASE), others) == Multiple((x + Sum(Map(LogOf, others))) % c.order)
  {
    hide Curve.PointSum;
    assert x * BASE.of == x;
    ReducedIsScalar(c, x);
    PointSumReduces(c, c.PointMul(x, BASE), others);
    hide Curve.Reduce;
    ReduceAdd(c, x, Sum(Map(LogOf, others)));
    assert c.Reduce(x + Sum(Map(LogOf, others))) == (x + Sum(Map(LogOf, others))) % c.order by {
      ReduceIs(c, x + Sum(Map(LogOf, others)));
    }
  }

  lemma ReduceIs(c: Curve, x: int)
    ensures c.Reduce(x) == x % c.order
  {
  }

  // ----- A signature and another message -----

  lemma SameResidueIff(c: Curve, x: int, y: int)
    ensures c.Reduce(x) == c.Reduce(y) <==> c.Reduce(x - y) == 0
  {
    var i := Quotient(c, x);
    var j := Quotient(c, y);
    var k := Quotient(c, x - y);
    hide Curve.Reduce;
    if c.Reduce(x) == c.Reduce(y) {
      assert x - y == (i - j) * c.order;
      SameResidue(c, x - y, 0, i - j);
      ReduceScalar(c, 0);
    }
    if c.Reduce(x - y) == 0 {
      SameResidue(c, x, y, k);
    }
  }

  /** Reducing both factors of a product first changes nothing in the end. */
  lemma ReduceProduct(c: Curve, x: int, y: int)
    ensures c.Reduce(c.Reduce(x) * c.Reduce(y)) == c.Reduce(x * y)
  {
    hide Curve.Reduce;
    ReduceMul(c, y, c.Reduce(x));
    ReduceMul(c, x, y);
    assert c.Reduce(x) * y == y * c.Reduce(x) && x * y == y * x;
  }

  lemma DifferenceOfProducts(c: Curve, h: int, h': int, keys: int, r: int)
    ensures c.Reduce(r - c.Reduce(h) * c.Reduce(keys)) == c.Reduce(r - c.Reduce(h') * c.Reduce(keys))
            <==> c.Reduce((h' - h) * keys) == 0
  {
    var a, b := c.Reduce(h) * c.Reduce(keys), c.Reduce(h') * c.Reduce(keys);
    hide Curve.Reduce;
    SameResidueIff(c, r - a, r - b);
    assert (r - a) - (r - b) == b - a;
    ReduceProduct(c, h, keys);
    ReduceProduct(c, h', keys);
    ReduceSub(c, b, a);
    ReduceAdd(c, b, -c.Reduce(a));
    ReduceSub(c, b, h * keys);
    ReduceAdd(c, h' * keys, -c.Reduce(h * keys));
    ReduceAdd(c, b, -c.Reduce(h * keys));
    ReduceSub(c, h' * keys, h * keys);
    assert (h' - h) * keys == h' * keys - h * keys;
  }

  lemma KeysPoint(c: Curve, signers: seq<Signer>, allP: seq<Point>)
    requires HaveKeys(c, signers) && allP != [] && multiset(allP) == multiset(AllP(c, signers))
    ensures c.PointSum(allP[0], allP[1..]).of == c.Reduce(KeySum(signers))
  {
    hide Curve.Reduce, Curve.PointSum;
    LogsOfPublicPoints(c, signers);
    forall p | p in AllP(c, signers)
      ensures c.IsScalar(p.of)
    {
    }
    AggregatePoint(c, AllP(c, signers), allP);
  }

  /** The scalar that passes for one message passes for another exactly when the challenges agree on the keys. */
  lemma OtherChallengeIff(c: Curve, m: string, other: string, p: Point, r: Point, keys: int, s: int)
    requires p.of == c.Reduce(keys) && c.IsScalar(r.of) && s == c.Reduce(r.of - c.Challenge(m, p, r) * p.of)
    ensures var h, h' := c.hash(m + c.text(p) + c.text(r)), c.hash(other + c.text(p) + c.text(r));
            c.Verifies(other, s, p, r) <==> c.Reduce((h' - h) * keys) == 0
  {
    var h, h' := c.hash(m + c.text(p) + c.text(r)), c.hash(other + c.text(p) + c.text(r));
    assert c.Challenge(m, p, r) == c.Reduce(h) && c.Challenge(other, p, r) == c.Reduce(h');
    hide Curve.Challenge, Curve.Verifies;
    ReducedIsScalar(c, r.of - c.Challenge(m, p, r) * p.of);
    VerifiesIff(c, other, s, p, r);
    hide Curve.Reduce;
    DifferenceOfProducts(c, h, h', keys, r.of);
  }

  /**
    * The aggregate of honest signatures on one message is accepted for another exactly when the difference
    * of the two hashes times the sum of the keys is zero modulo the order.
    */
  lemma OtherMessageIff(
      c: Curve, m: string, signers: seq<Signer>, otherR: seq<seq<Point>>, otherP: seq<seq<Point>>, sigs: seq<int>,
      ss: seq<int>, allP: seq<Point>, allR: seq<Point>, other: string)
    requires signers != [] && HaveKeys(c, signers) && Honest(c, m, signers, otherR, otherP, sigs)
    requires ss != [] && multiset(ss) == multiset(sigs)
    requires allP != [] && multiset(allP) == multiset(AllP(c, signers))
    requires allR != [] && multiset(allR) == multiset(AllR(c, signers))
    ensures var p, r := c.PointSum(allP[0], allP[1..]), c.PointSum(allR[0], allR[1..]);
            var h, h' := c.hash(m + c.text(p) + c.text(r)), c.hash(other + c.text(p) + c.text(r));
            c.Verifies(other, c.ScalarSum(ss[0], ss[1..]), p, r) <==> c.Reduce((h' - h) * KeySum(signers)) == 0
  {
    hide *;
    AggregateOfHonest(c, m, signers, otherR, otherP, sigs, ss, allP, allR);
    KeysPoint(c, signers, allP);
    var p, r := c.PointSum(allP[0], allP[1..]), c.PointSum(allR[0], allR[1..]);
    OtherChallengeIff(c, m, other, p, r, KeySum(signers), c.ScalarSum(ss[0], ss[1..]));
  }
}
