/** Lists without repeats, and sums over lists that do not depend on the order. */
module Sequences {
  function Sum(s: seq<int>): int {
    if s == [] then 0 else Sum(s[..|s| - 1]) + s[|s| - 1]
  }

  function Map<A, B>(f: A -> B, s: seq<A>): (r: seq<B>)
    ensures |r| == |s| && forall k :: 0 <= k < |s| ==> r[k] == f(s[k])
  {
    seq(|s|, k requires 0 <= k < |s| => f(s[k]))
  }

  ghost predicate Distinct<T>(s: seq<T>) {
    forall i, j :: 0 <= i < j < |s| ==> s[i] != s[j]
  }

  lemma SumAppend(s: seq<int>, x: int)
    ensures Sum(s + [x]) == Sum(s) + x
  {
    assert (s + [x])[..|s + [x]| - 1] == s;
  }

  lemma {:induction false} SumConcat(s: seq<int>, t: seq<int>)
    ensures Sum(s + t) == Sum(s) + Sum(t)
  {
    if t == [] {
      assert s + t == s;
    } else {
      var t' := t[..|t| - 1];
      SumConcat(s, t');
      SumAppend(s + t', t[|t| - 1]);
      assert s + t == s + t' + [t[|t| - 1]];
    }
  }

  function Without<A>(s: seq<A>, k: nat): (r: seq<A>)
    requires k < |s|
    ensures |r| == |s| - 1
  {
    s[..k] + s[k + 1..]
  }

  lemma WithoutMultiset<A>(s: seq<A>, k: nat)
    requires k < |s|
    ensures multiset(s) == multiset(Without(s, k)) + multiset{s[k]}
  {
    assert s == s[..k] + [s[k]] + s[k + 1..];
  }

  lemma SumWithout<A>(f: A -> int, s: seq<A>, k: nat)
    requires k < |s|
    ensures Sum(Map(f, s)) == Sum(Map(f, Without(s, k))) + f(s[k])
  {
    var front, back := Map(f, s[..k]), Map(f, s[k + 1..]);
    assert Map(f, s) == front + [f(s[k])] + back;
    assert Map(f, Without(s, k)) == front + back;
    SumConcat(front + [f(s[k])], back);
    SumAppend(front, f(s[k]));
    SumConcat(front, back);
  }

  /** The element of b that stands for the last of a; without the two the lists are still rearranged. */
  lemma Partner<A>(a: seq<A>, b: seq<A>) returns (k: nat)
    requires multiset(a) == multiset(b) && a != []
    ensures k < |b| && b[k] == a[|a| - 1]
    ensures multiset(Without(a, |a| - 1)) == multiset(Without(b, k))
  {
    hide Without;
    assert a[|a| - 1] in multiset(b);
    k :| 0 <= k < |b| && b[k] == a[|a| - 1];
    WithoutMultiset(a, |a| - 1);
    WithoutMultiset(b, k);
    assert multiset(Without(a, |a| - 1)) == multiset(a) - multiset{b[k]} == multiset(Without(b, k));
  }

  /** Rearranging a list does not change the sum of a function over it. */
  lemma {:induction false} SumRearranged<A>(f: A -> int, a: seq<A>, b: seq<A>)
    requires multiset(a) == multiset(b)
    ensures Sum(Map(f, a)) == Sum(Map(f, b))
    decreases |a|
  {
    assert |a| == |multiset(a)| == |multiset(b)| == |b|;
    if a == [] {
    } else {
      hide Without, Sum, Map;
      var k := Partner(a, b);
      SumRearranged(f, Without(a, |a| - 1), Without(b, k));
      SumWithout(f, a, |a| - 1);
      SumWithout(f, b, k);
    }
  }

  lemma SumOfRearranged(a: seq<int>, b: seq<int>)
    requires multiset(a) == multiset(b)
    ensures Sum(a) == Sum(b)
  {
    var id := (x: int) => x;
    SumRearranged(id, a, b);
    assert Map(id, a) == a && Map(id, b) == b;
  }

  lemma SumHead(s: seq<int>)
    requires s != []
    ensures Sum(s) == s[0] + Sum(s[1..])
  {
    assert s == [s[0]] + s[1..];
    SumConcat([s[0]], s[1..]);
    SumAppend([], s[0]);
    assert [] + [s[0]] == [s[0]];
  }
}
