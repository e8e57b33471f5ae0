/** Positional numbers in an arbitrary base, most significant digit first. */
module Radix {
  function Pow(b: nat, e: nat): nat {
    if e == 0 then 1 else b * Pow(b, e - 1)
  }

  ghost predicate Digits(b: nat, s: seq<nat>) {
    forall k :: 0 <= k < |s| ==> s[k] < b
  }

  function Value(b: nat, s: seq<nat>): nat {
    if |s| == 0 then 0 else Value(b, s[..|s| - 1]) * b + s[|s| - 1]
  }

  /** The shortest numeral of n; zero is the empty numeral. */
  function Numeral(b: nat, n: nat): (s: seq<nat>)
    requires 2 <= b
    ensures Digits(b, s)
    ensures s == [] || s[0] != 0
    decreases n
  {
    if n == 0 then [] else
      DivShrinks(n, b);
      Numeral(b, n / b) + [n % b]
  }

  /** How many zeros a sequence starts with. */
  function Zeros(s: seq<nat>): (z: nat)
    ensures z <= |s|
    ensures forall k :: 0 <= k < z ==> s[k] == 0
    ensures z < |s| ==> s[z] != 0
  {
    if s == [] || s[0] != 0 then 0 else 1 + Zeros(s[1..])
  }

  lemma DivShrinks(n: nat, b: nat)
    requires 0 < n && 2 <= b
    ensures n / b < n
  {
    MulMonotone(2, b, n / b);
  }

  lemma MulMonotone(x: nat, y: nat, c: nat)
    requires x <= y
    ensures x * c <= y * c
  {
  }

  lemma {:induction false} PowAdd(b: nat, d: nat, e: nat)
    ensures Pow(b, d + e) == Pow(b, d) * Pow(b, e)
  {
    if d == 0 {
    } else {
      PowAdd(b, d - 1, e);
      assert b * Pow(b, d - 1 + e) == b * (Pow(b, d - 1) * Pow(b, e)) == (b * Pow(b, d - 1)) * Pow(b, e);
    }
  }

  lemma {:induction false} PowPow(b: nat, d: nat, e: nat)
    ensures Pow(b, d * e) == Pow(Pow(b, d), e)
  {
    if e == 0 {
      assert d * e == 0;
    } else {
      PowPow(b, d, e - 1);
      assert d * e == d + d * (e - 1);
      PowAdd(b, d, d * (e - 1));
    }
  }

  lemma {:induction false} PowMonotoneBase(a: nat, b: nat, e: nat)
    requires a <= b
    ensures Pow(a, e) <= Pow(b, e)
    ensures a < b && 0 < e ==> Pow(a, e) < Pow(b, e)
  {
    if e == 0 {
    } else {
      PowMonotoneBase(a, b, e - 1);
      MulMonotone(Pow(a, e - 1), Pow(b, e - 1), a);
      if a < b {
        PowPositive(b, e - 1);
        MulMonotone(a + 1, b, Pow(b, e - 1));
        assert (a + 1) * Pow(b, e - 1) == a * Pow(b, e - 1) + Pow(b, e - 1);
      }
    }
  }

  lemma {:induction false} PowPositive(b: nat, e: nat)
    requires 0 < b
    ensures 0 < Pow(b, e)
  {
    if e == 0 {
    } else {
      PowPositive(b, e - 1);
      MulMonotone(1, b, Pow(b, e - 1));
    }
  }

  lemma PowMonotoneExp(b: nat, d: nat, e: nat)
    requires 0 < b && d <= e
    ensures Pow(b, d) <= Pow(b, e)
  {
    PowAdd(b, e - d, d);
    PowPositive(b, e - d);
    MulMonotone(1, Pow(b, e - d), Pow(b, d));
  }

  lemma {:induction false} ValueConcat(b: nat, s: seq<nat>, t: seq<nat>)
    ensures Value(b, s + t) == Value(b, s) * Pow(b, |t|) + Value(b, t)
  {
    if t == [] {
      assert s + t == s;
    } else {
      var t' := t[..|t| - 1];
      assert (s + t)[..|s + t| - 1] == s + t';
      ValueConcat(b, s, t');
      assert (Value(b, s) * Pow(b, |t'|) + Value(b, t')) * b
          == Value(b, s) * (b * Pow(b, |t'|)) + Value(b, t') * b;
    }
  }

  lemma {:induction false} ValueZeros(b: nat, s: seq<nat>)
    requires forall k :: 0 <= k < |s| ==> s[k] == 0
    ensures Value(b, s) == 0
  {
    if s == [] {
    } else {
      ValueZeros(b, s[..|s| - 1]);
    }
  }

  lemma {:induction false} ValueBound(b: nat, s: seq<nat>)
    requires Digits(b, s)
    ensures Value(b, s) < Pow(b, |s|)
  {
    if s == [] {
    } else {
      ValueBound(b, s[..|s| - 1]);
      MulMonotone(Value(b, s[..|s| - 1]) + 1, Pow(b, |s| - 1), b);
    }
  }

  lemma ValueLeading(b: nat, s: seq<nat>)
    requires 0 < |s| && s[0] != 0
    ensures Pow(b, |s| - 1) <= Value(b, s)
  {
    assert s == s[..1] + s[1..];
    ValueConcat(b, s[..1], s[1..]);
    assert Value(b, s[..1]) == Value(b, s[..1][..0]) * b + s[0] == s[0];
    MulMonotone(1, s[0], Pow(b, |s| - 1));
  }

  lemma DivMod(n: nat, b: nat) returns (q: nat, r: nat)
    requires 0 < b
    ensures q == n / b && r == n % b && n == q * b + r
  {
    q, r := n / b, n % b;
  }

  lemma AppendDigit(b: nat, s: seq<nat>, d: nat)
    ensures Value(b, s + [d]) == Value(b, s) * b + d
  {
    assert (s + [d])[..|s + [d]| - 1] == s;
  }

  lemma {:induction false} NumeralValue(b: nat, n: nat)
    requires 2 <= b
    ensures Value(b, Numeral(b, n)) == n
  {
    if n == 0 {
    } else {
      DivShrinks(n, b);
      var q, r := DivMod(n, b);
      NumeralValue(b, q);
      AppendDigit(b, Numeral(b, q), r);
    }
  }

  /** A numeral without a leading zero is the one Numeral builds. */
  lemma {:induction false} NumeralUnique(b: nat, s: seq<nat>)
    requires 2 <= b && Digits(b, s)
    requires s == [] || s[0] != 0
    ensures Numeral(b, Value(b, s)) == s
    decreases |s|
  {
    if s == [] {
    } else {
      var s', d := s[..|s| - 1], s[|s| - 1];
      var v := Value(b, s');
      DivModUnique(v, d, b);
      NumeralUnique(b, s');
      ValueLeading(b, s);
      PowPositive(b, |s| - 1);
      assert s == s' + [d];
    }
  }

  lemma DivModUnique(q: nat, r: nat, b: nat)
    requires r < b
    ensures (q * b + r) / b == q && (q * b + r) % b == r
  {
    var n := q * b + r;
    assert n == b * (n / b) + n % b;
    if n / b < q {
      MulMonotone(n / b + 1, q, b);
    } else if q < n / b {
      MulMonotone(q + 1, n / b, b);
    }
  }

  /** Rewrites a digit string in base b as one in base c; leading zeros are kept one for one. */
  function Recode(b: nat, c: nat, s: seq<nat>): (r: seq<nat>)
    requires 2 <= c
    ensures Digits(c, r)
  {
    var z := Zeros(s);
    seq(z, _ => 0) + Numeral(c, Value(b, s[z..]))
  }

  lemma {:induction false} ZerosConcat(z: nat, s: seq<nat>)
    requires s == [] || s[0] != 0
    ensures Zeros(seq(z, _ => 0) + s) == z
  {
    if z == 0 {
      assert seq(z, _ => 0) + s == s;
    } else {
      ZerosConcat(z - 1, s);
      assert (seq(z, _ => 0) + s)[1..] == seq(z - 1, _ => 0) + s;
    }
  }

  /** Zeros in front are kept, and the rest is rewritten. */
  lemma RecodeAfterZeros(b: nat, c: nat, z: nat, s: seq<nat>)
    requires 2 <= c && (s == [] || s[0] != 0)
    ensures Recode(b, c, seq(z, _ => 0) + s) == seq(z, _ => 0) + Numeral(c, Value(b, s))
  {
    hide Value, Numeral, Zeros;
    ZerosConcat(z, s);
    assert (seq(z, _ => 0) + s)[z..] == s;
  }

  /** Rewriting to another base and back is the identity. */
  lemma RecodeBack(b: nat, c: nat, s: seq<nat>)
    requires 2 <= b && 2 <= c && Digits(b, s)
    ensures Recode(c, b, Recode(b, c, s)) == s
  {
    var z := Zeros(s);
    var rest := s[z..];
    var n := Value(b, rest);
    assert s == seq(z, _ => 0) + rest;
    RecodeAfterZeros(b, c, z, rest);
    RecodeAfterZeros(c, b, z, Numeral(c, n));
    hide Recode, Value, Zeros;
    NumeralValue(c, n);
    NumeralUnique(b, rest);
  }

  /** A digit string read from the front, each digit times the power of its place. */
  function Positional(b: nat, s: seq<nat>): nat {
    if s == [] then 0 else s[0] * Pow(b, |s| - 1) + Positional(b, s[1..])
  }

  lemma {:induction false} ValueIsPositional(b: nat, s: seq<nat>)
    ensures Value(b, s) == Positional(b, s)
  {
    if s == [] {
    } else {
      ValueIsPositional(b, s[1..]);
      assert s == [s[0]] + s[1..];
      ValueConcat(b, [s[0]], s[1..]);
      AppendDigit(b, [], s[0]);
      assert [] + [s[0]] == [s[0]];
    }
  }

  lemma ZerosInFront(b: nat, z: nat, s: seq<nat>)
    ensures Value(b, seq(z, _ => 0) + s) == Value(b, s)
  {
    ValueZeros(b, seq(z, _ => 0));
    ValueConcat(b, seq(z, _ => 0), s);
  }
}
