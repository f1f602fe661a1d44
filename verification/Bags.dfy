/** Sequences up to the order of their elements: what is left without one of them, and sums and
    images that do not depend on the order. */
module Bags {

  function Without<T>(s: seq<T>, k: nat): (r: seq<T>)
    requires k < |s|
    ensures |r| == |s| - 1
  {
    s[..k] + s[k + 1..]
  }

  lemma WithoutBag<T>(s: seq<T>, k: nat)
    requires k < |s|
    ensures multiset(s) == multiset(Without(s, k)) + multiset{s[k]}
  {
    assert s == s[..k] + [s[k]] + s[k + 1..];
  }

  lemma Cancelled<T>(a: multiset<T>, b: multiset<T>, c: multiset<T>)
    requires a + c == b + c
    ensures a == b
  {
    assert a == (a + c) - c && b == (b + c) - c;
  }

  // A place where t has the last element of s, and the same rests.
  lemma LastPlace<T>(s: seq<T>, t: seq<T>) returns (k: nat)
    requires multiset(s) == multiset(t) && s != []
    ensures k < |t| && t[k] == s[|s| - 1] && multiset(s[..|s| - 1]) == multiset(Without(t, k))
  {
    hide Without;
    var n := |s| - 1;
    assert s[n] in multiset(t);
    k :| 0 <= k < |t| && t[k] == s[n];
    assert s == s[..n] + [s[n]];
    WithoutBag(t, k);
    Cancelled(multiset(s[..n]), multiset(Without(t, k)), multiset{s[n]});
  }

  lemma NoElements<T>(s: seq<T>)
    requires multiset(s) == multiset{}
    ensures s == []
  {
    assert |multiset(s)| == |s|;
  }

  function Mapped<T, U>(g: T -> U, s: seq<T>): (r: seq<U>)
    ensures |r| == |s| && forall i :: 0 <= i < |s| ==> r[i] == g(s[i])
  {
    seq(|s|, i requires 0 <= i < |s| => g(s[i]))
  }

  lemma MappedLast<T, U>(g: T -> U, s: seq<T>)
    requires s != []
    ensures multiset(Mapped(g, s)) == multiset(Mapped(g, s[..|s| - 1])) + multiset{g(s[|s| - 1])}
  {
    assert Mapped(g, s) == Mapped(g, s[..|s| - 1]) + [g(s[|s| - 1])];
  }

  lemma MappedWithout<T, U>(g: T -> U, t: seq<T>, k: nat)
    requires k < |t|
    ensures multiset(Mapped(g, t)) == multiset(Mapped(g, Without(t, k))) + multiset{g(t[k])}
  {
    WithoutBag(Mapped(g, t), k);
    assert Without(Mapped(g, t), k) == Mapped(g, Without(t, k));
  }

  lemma {:induction false} SameMapped<T, U>(g: T -> U, s: seq<T>, t: seq<T>)
    requires multiset(s) == multiset(t)
    ensures multiset(Mapped(g, s)) == multiset(Mapped(g, t))
    decreases |s|
  {
    hide Mapped, Without;
    if s == [] {
      NoElements(t);
    } else {
      var k := LastPlace(s, t);
      MappedLast(g, s);
      MappedWithout(g, t, k);
      SameMapped(g, s[..|s| - 1], Without(t, k));
    }
  }

  function SumOver<T>(g: T -> nat, s: seq<T>): nat {
    if s == [] then 0 else SumOver(g, s[..|s| - 1]) + g(s[|s| - 1])
  }

  lemma {:induction false} SumOverConcat<T>(g: T -> nat, s: seq<T>, t: seq<T>)
    ensures SumOver(g, s + t) == SumOver(g, s) + SumOver(g, t)
    decreases |t|
  {
    if t == [] {
      assert s + t == s;
    } else {
      SumOverConcat(g, s, t[..|t| - 1]);
      assert (s + t)[..|s + t| - 1] == s + t[..|t| - 1];
    }
  }

  lemma SumOverOne<T>(g: T -> nat, x: T)
    ensures SumOver(g, [x]) == g(x)
  {
    assert [x][..0] == [];
  }

  lemma SumOverWithout<T>(g: T -> nat, s: seq<T>, k: nat)
    requires k < |s|
    ensures SumOver(g, s) == SumOver(g, Without(s, k)) + g(s[k])
  {
    var a, b := s[..k], s[k + 1..];
    assert s == a + [s[k]] + b;
    SumOverMiddle(g, a, s[k], b);
  }

  lemma SumOverMiddle<T>(g: T -> nat, a: seq<T>, x: T, b: seq<T>)
    ensures SumOver(g, a + [x] + b) == SumOver(g, a + b) + g(x)
  {
    hide SumOver;
    SumOverConcat(g, a + [x], b);
    SumOverConcat(g, a, [x]);
    SumOverConcat(g, a, b);
    SumOverOne(g, x);
  }

  // The sum does not depend on the order.
  lemma {:induction false} SameSum<T>(g: T -> nat, s: seq<T>, t: seq<T>)
    requires multiset(s) == multiset(t)
    ensures SumOver(g, s) == SumOver(g, t)
    decreases |s|
  {
    hide Without;
    if s == [] {
      NoElements(t);
    } else {
      var k := LastPlace(s, t);
      SumOverWithout(g, t, k);
      SameSum(g, s[..|s| - 1], Without(t, k));
    }
  }
}
