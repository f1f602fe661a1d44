/** Code lengths of least cost. */
module LeastCost {
  import opened Bags
  import opened Rfc1951

  // Weights times lengths.
  function Cost(w: seq<nat>, l: seq<nat>): nat
    requires |w| == |l|
  {
    if w == [] then 0 else Cost(w[..|w| - 1], l[..|l| - 1]) + w[|w| - 1] * l[|l| - 1]
  }

  ghost predicate Within(l: seq<nat>, m: nat) {
    forall i :: 0 <= i < |l| ==> l[i] <= m
  }

  // The words of m bits that code words of these lengths take up.
  function Space(l: seq<nat>, m: nat): nat
    requires Within(l, m)
  {
    if l == [] then 0 else Space(l[..|l| - 1], m) + Pow2(m - l[|l| - 1])
  }

  // Lengths that the Kraft inequality allows.
  ghost predicate Code(l: seq<nat>, m: nat) {
    Within(l, m) && Space(l, m) <= Pow2(m)
  }

  // No code for symbols of these weights costs less than c.
  ghost predicate Cheapest(w: seq<nat>, c: nat) {
    forall l: seq<nat>, m: nat :: |l| == |w| && Code(l, m) ==> Cost(w, l) >= c
  }

  // ---- one length changed, or taken out ----

  lemma {:induction false} CostUpdate(w: seq<nat>, l: seq<nat>, k: nat, v: nat)
    requires k < |w| == |l|
    ensures Cost(w, l[k := v]) + w[k] * l[k] == Cost(w, l) + w[k] * v
  {
    var n := |l| - 1;
    if k < n {
      CostUpdate(w[..n], l[..n], k, v);
      assert l[k := v][..n] == l[..n][k := v];
    } else {
      assert l[k := v][..n] == l[..n];
    }
  }

  lemma {:induction false} SpaceUpdate(l: seq<nat>, m: nat, k: nat, v: nat)
    requires k < |l| && Within(l, m) && v <= m
    ensures Within(l[k := v], m) && Space(l[k := v], m) + Pow2(m - l[k]) == Space(l, m) + Pow2(m - v)
  {
    hide Pow2;
    var n := |l| - 1;
    if k < n {
      SpaceUpdate(l[..n], m, k, v);
      assert l[k := v][..n] == l[..n][k := v];
    } else {
      assert l[k := v][..n] == l[..n];
    }
  }

  lemma WithoutLast(s: seq<nat>, k: nat)
    requires k < |s| - 1
    ensures Without(s, k)[..|s| - 2] == Without(s[..|s| - 1], k) && Without(s, k)[|s| - 2] == s[|s| - 1]
  {
  }

  lemma {:induction false} CostWithout(w: seq<nat>, l: seq<nat>, k: nat)
    requires k < |w| == |l|
    ensures Cost(w, l) == Cost(Without(w, k), Without(l, k)) + w[k] * l[k]
  {
    var n := |l| - 1;
    if k < n {
      CostWithout(w[..n], l[..n], k);
      WithoutLast(w, k);
      WithoutLast(l, k);
    } else {
      assert Without(w, k) == w[..n] && Without(l, k) == l[..n];
    }
  }

  lemma {:induction false} SpaceWithout(l: seq<nat>, m: nat, k: nat)
    requires k < |l| && Within(l, m)
    ensures Within(Without(l, k), m) && Space(l, m) == Space(Without(l, k), m) + Pow2(m - l[k])
  {
    hide Pow2;
    var n := |l| - 1;
    if k < n {
      SpaceWithout(l[..n], m, k);
      WithoutLast(l, k);
    } else {
      assert Without(l, k) == l[..n];
    }
  }

  // ---- the order of the symbols ----

  // The same weights in another order, with their lengths.
  lemma {:induction false} Reordered(s: seq<nat>, t: seq<nat>, l: seq<nat>, m: nat) returns (r: seq<nat>)
    requires multiset(s) == multiset(t) && |l| == |t| && Within(l, m)
    ensures |r| == |s| && Within(r, m) && Cost(s, r) == Cost(t, l) && Space(r, m) == Space(l, m)
    decreases |s|
  {
    hide Pow2, Without;
    if s == [] {
      NoElements(t);
      r := [];
    } else {
      var n := |s| - 1;
      var k := LastPlace(s, t);
      CostWithout(t, l, k);
      SpaceWithout(l, m, k);
      var rest := Reordered(s[..n], Without(t, k), Without(l, k), m);
      r := rest + [l[k]];
      assert r[..n] == rest;
    }
  }

  lemma SameCheapest(s: seq<nat>, t: seq<nat>, c: nat)
    requires multiset(s) == multiset(t) && Cheapest(s, c)
    ensures Cheapest(t, c)
  {
    hide Cost, Space, Within;
    forall l: seq<nat>, m: nat | |l| == |t| && Code(l, m) ensures Cost(t, l) >= c {
      CodeWithin(l, m);
      var r := Reordered(s, t, l, m);
      assert Code(r, m);
    }
  }

  lemma CodeWithin(l: seq<nat>, m: nat)
    requires Code(l, m)
    ensures Within(l, m)
  {
  }

  // ---- two least weights ----

  lemma {:induction false} SpaceHalves(l: seq<nat>, m: nat)
    requires m > 0 && Within(l, m - 1)
    ensures Within(l, m) && Space(l, m) == 2 * Space(l, m - 1)
  {
    if l != [] {
      SpaceHalves(l[..|l| - 1], m);
      assert Pow2(m - l[|l| - 1]) == 2 * Pow2(m - 1 - l[|l| - 1]);
    }
  }

  // Without a word of m bits, m - 1 are enough.
  lemma ShorterWords(l: seq<nat>, m: nat)
    requires m > 0 && Code(l, m) && Within(l, m - 1)
    ensures Code(l, m - 1)
  {
    SpaceHalves(l, m);
    assert Pow2(m) == 2 * Pow2(m - 1);
  }

  // A single word of m bits can be one bit shorter.
  lemma OneLongest(w: seq<nat>, l: seq<nat>, m: nat, i: nat)
    requires |w| == |l| && m > 0 && Code(l, m) && i < |l| && l[i] == m
    requires forall j :: 0 <= j < |l| && j != i ==> l[j] != m
    ensures Code(l[i := m - 1], m - 1) && Cost(w, l[i := m - 1]) <= Cost(w, l)
  {
    hide Cost, Space;
    var r := l[i := m - 1];
    assert Within(r, m - 1);
    SpaceUpdate(l, m, i, m - 1);
    SpaceHalves(r, m);
    SmallPowers(m);
    CostUpdate(w, l, i, m - 1);
    Smaller(w[i], m - 1, m);
  }

  lemma SmallPowers(m: nat)
    requires m > 0
    ensures Pow2(0) == 1 && Pow2(1) == 2 && Pow2(m) == 2 * Pow2(m - 1)
  {
  }

  lemma Smaller(w: nat, a: nat, b: nat)
    requires a <= b
    ensures w * a <= w * b
  {
  }

  // A longest word goes to a symbol that weighs no more.
  lemma Exchanged(w: seq<nat>, l: seq<nat>, m: nat, i: nat, k: nat)
    requires |w| == |l| && Code(l, m) && i < |l| && k < |l| && i != k && l[i] == m && w[k] <= w[i]
    ensures Code(l[i := l[k]][k := m], m) && Cost(w, l[i := l[k]][k := m]) <= Cost(w, l)
  {
    hide Cost, Space, Pow2;
    SpaceUpdate(l, m, i, l[k]);
    SpaceUpdate(l[i := l[k]], m, k, m);
    CostUpdate(w, l, i, l[k]);
    CostUpdate(w, l[i := l[k]], k, m);
    Uncrossed(w[k], w[i], l[k], m);
  }

  lemma Uncrossed(u: nat, v: nat, a: nat, b: nat)
    requires u <= v && a <= b
    ensures u * b + v * a <= u * a + v * b
  {
    assert (v - u) * (b - a) >= 0;
  }

  // The two symbols at the end, the least ones, get two longest words.
  lemma BothLongest(w: seq<nat>, l: seq<nat>, m: nat, i: nat, j: nat) returns (r: seq<nat>)
    requires |w| == |l| >= 2 && Code(l, m) && i < j < |l| && l[i] == m == l[j]
    requires forall q :: 0 <= q < |w| ==> w[|w| - 2] <= w[q]
    requires forall q :: 0 <= q < |w| && q != |w| - 2 ==> w[|w| - 1] <= w[q]
    ensures |r| == |l| && Code(r, m) && Cost(w, r) <= Cost(w, l) && r[|r| - 2] == m == r[|r| - 1]
  {
    hide Cost, Code;
    var a, b := |l| - 2, |l| - 1;
    r := l;
    var other := j;
    if l[a] != m {
      Exchanged(w, r, m, i, a);
      r := r[i := r[a]][a := m];
    } else if j == a {
      other := i;
    }
    if other != b && r[b] != m {
      Exchanged(w, r, m, other, b);
      r := r[other := r[b]][b := m];
    }
  }

  lemma CostLast(w: seq<nat>, l: seq<nat>, u: nat, v: nat)
    requires |w| == |l|
    ensures Cost(w + [u], l + [v]) == Cost(w, l) + u * v
  {
    assert (w + [u])[..|w|] == w && (l + [v])[..|l|] == l;
  }

  lemma SpaceLast(l: seq<nat>, m: nat, v: nat)
    requires Within(l, m) && v <= m
    ensures Within(l + [v], m) && Space(l + [v], m) == Space(l, m) + Pow2(m - v)
  {
    assert (l + [v])[..|l|] == l;
  }

  // Two words of m bits for the one of m - 1 bits they grow from.
  lemma Joined(rest: seq<nat>, a: nat, b: nat, l: seq<nat>, m: nat)
    requires m > 0 && |l| == |rest| && Code(l + [m] + [m], m)
    ensures Code(l + [m - 1], m)
    ensures Cost(rest + [a] + [b], l + [m] + [m]) == Cost(rest + [a + b], l + [m - 1]) + a + b
  {
    hide Cost, Space, Pow2;
    assert Within(l, m) by {
      assert forall i :: 0 <= i < |l| ==> l[i] == (l + [m] + [m])[i];
    }
    SpaceLast(l, m, m);
    SpaceLast(l + [m], m, m);
    SpaceLast(l, m, m - 1);
    SmallPowers(m);
    CostLast(rest, l, a, m);
    CostLast(rest + [a], l + [m], b, m);
    CostLast(rest, l, a + b, m - 1);
    SumTimes(a, b, m);
  }

  lemma SumTimes(a: nat, b: nat, m: nat)
    requires m > 0
    ensures a * m + b * m == (a + b) * (m - 1) + a + b
  {
  }

  // A code for weights of which the last two are least costs no less than the merged one and their sum.
  lemma {:induction false} MergedCost(rest: seq<nat>, a: nat, b: nat, c: nat, l: seq<nat>, m: nat)
    requires Cheapest(rest + [a + b], c) && a <= b && forall q :: 0 <= q < |rest| ==> b <= rest[q]
    requires |l| == |rest| + 2 && Code(l, m)
    ensures Cost(rest + [a, b], l) >= c + a + b
    decreases m
  {
    hide Cost, Cheapest, Code;
    var w := rest + [a, b];
    NotAllEmpty(l, m);
    if i :| 0 <= i < |l| && l[i] == m {
      if j :| 0 <= j < |l| && j != i && l[j] == m {
        var r := BothLongest(w, l, m, if i < j then i else j, if i < j then j else i);
        var front := r[..|rest|];
        assert r == front + [m] + [m] && w == rest + [a] + [b];
        Joined(rest, a, b, front, m);
        CheapestMeans(rest + [a + b], c, front + [m - 1], m);
      } else {
        OneLongest(w, l, m, i);
        MergedCost(rest, a, b, c, l[i := m - 1], m - 1);
      }
    } else {
      NoneLongest(l, m);
      MergedCost(rest, a, b, c, l, m - 1);
    }
  }

  lemma NoneLongest(l: seq<nat>, m: nat)
    requires m > 0 && Code(l, m) && forall i :: 0 <= i < |l| ==> l[i] != m
    ensures Code(l, m - 1)
  {
    hide Space;
    ShorterWords(l, m);
  }

  // Two empty words are no code.
  lemma NotAllEmpty(l: seq<nat>, m: nat)
    requires |l| >= 2 && Code(l, m)
    ensures m > 0
  {
    if m == 0 {
      TwoEmpty(l);
    }
  }

  lemma TwoEmpty(l: seq<nat>)
    requires |l| >= 2 && Within(l, 0)
    ensures Space(l, 0) >= 2
  {
    var n := |l| - 1;
    assert l[..n][n - 1] == 0;
  }

  lemma CheapestMeans(w: seq<nat>, c: nat, l: seq<nat>, m: nat)
    requires Cheapest(w, c) && |l| == |w| && Code(l, m)
    ensures Cost(w, l) >= c
  {
  }

  // What merging the two least weights costs is their sum.
  lemma MergeCheapest(rest: seq<nat>, a: nat, b: nat, c: nat)
    requires Cheapest(rest + [a + b], c) && a <= b && forall q :: 0 <= q < |rest| ==> b <= rest[q]
    ensures Cheapest(rest + [a, b], c + (a + b))
  {
    hide Cost, Code;
    forall l: seq<nat>, m: nat | |l| == |rest| + 2 && Code(l, m) ensures Cost(rest + [a, b], l) >= c + a + b {
      MergedCost(rest, a, b, c, l, m);
    }
  }
}
