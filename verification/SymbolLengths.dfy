/** Leaf depths as code lengths. */
module SymbolLengths {
  import opened Bags
  import opened Rfc1951
  import opened Canonical
  import opened HuffHeap
  import opened HuffTree
  import opened HuffMerge
  import opened TreeShape
  import opened TreeCost
  import opened CodeLens
  import LeastCost
  import LimitLengths

  // ---- code lengths by symbol ----

  // Each leaf's depth at its symbol, zero elsewhere.
  function LengthsFrom(ns: seq<Node>, n: nat): (l: seq<nat>)
    ensures |l| == n
  {
    if ns == [] then seq(n, _ => 0)
    else
      var rest, last := LengthsFrom(ns[..|ns| - 1], n), ns[|ns| - 1];
      if last.child < n then rest[last.child := last.depth] else rest
  }

  ghost predicate Distinct(s: seq<nat>) {
    forall i, j :: 0 <= i < j < |s| ==> s[i] != s[j]
  }

  lemma {:induction false} AtSymbol(ns: seq<Node>, n: nat, k: nat)
    requires k < |ns| && Distinct(Children(ns)) && ns[k].child < n
    ensures LengthsFrom(ns, n)[ns[k].child] == ns[k].depth
  {
    if k < |ns| - 1 {
      AtSymbol(ns[..|ns| - 1], n, k);
      assert Children(ns)[k] != Children(ns)[|ns| - 1];
    }
  }

  lemma {:induction false} NotASymbol(ns: seq<Node>, n: nat, x: nat)
    requires x < n && x !in Children(ns)
    ensures LengthsFrom(ns, n)[x] == 0
  {
    if ns != [] {
      NotASymbol(ns[..|ns| - 1], n, x);
      assert Children(ns)[|ns| - 1] != x;
    }
  }

  lemma {:induction false} CountUpdate(s: seq<nat>, i: nat, v: nat, l: nat)
    requires i < |s|
    ensures Count(s[i := v], l) + (if s[i] == l then 1 else 0) == Count(s, l) + (if v == l then 1 else 0)
  {
    var last := |s| - 1;
    if i < last {
      CountUpdate(s[..last], i, v, l);
      assert s[i := v][..last] == s[..last][i := v];
    } else {
      assert s[i := v][..last] == s[..last];
    }
  }

  lemma ZeroCount(n: nat, l: nat)
    requires l > 0
    ensures Count(seq(n, _ => 0), l) == 0
  {
    CountZero(seq(n, _ => 0), l);
  }

  // As many symbols as leaves have l bits.
  lemma {:induction false} CountFrom(ns: seq<Node>, n: nat, l: nat)
    requires Distinct(Children(ns)) && l > 0 && forall i :: 0 <= i < |ns| ==> ns[i].child < n
    ensures Count(LengthsFrom(ns, n), l) == Count(Depths(ns), l)
  {
    if ns == [] {
      ZeroCount(n, l);
    } else {
      var rest, last := ns[..|ns| - 1], ns[|ns| - 1];
      assert Children(rest) == Children(ns)[..|ns| - 1];
      assert Depths(ns)[..|ns| - 1] == Depths(rest);
      CountFrom(rest, n, l);
      NotASymbol(rest, n, last.child);
      CountUpdate(LengthsFrom(rest, n), last.child, last.depth, l);
    }
  }

  lemma {:induction false} OnceEach(s: seq<nat>, x: nat)
    requires Distinct(s)
    ensures multiset(s)[x] <= 1
  {
    if s != [] {
      var rest := s[..|s| - 1];
      OnceEach(rest, x);
      assert s == rest + [s[|s| - 1]];
      assert s[|s| - 1] !in rest;
    }
  }

  lemma SameBagDistinct(s: seq<nat>, t: seq<nat>)
    requires multiset(s) == multiset(t) && Distinct(t)
    ensures Distinct(s)
    ensures forall x :: x in s <==> x in t
  {
    forall i, j | 0 <= i < j < |s| ensures s[i] != s[j] {
      OnceEach(t, s[i]);
      if s[i] == s[j] {
        Twice(s, i, j);
      }
    }
    forall x ensures x in s <==> x in t {
      assert x in multiset(s) <==> x in multiset(t);
    }
  }

  // Code lengths of n symbols: those of syms get 1 to max bits and fill a prefix code, the others
  // get none; bl_count counts them.
  ghost predicate CodeLengths(lengths: seq<nat>, syms: seq<nat>, blCount: seq<nat>, max: nat) {
    && 1 <= max < |blCount| && blCount[0] == 0
    && (forall x :: 0 <= x < |lengths| ==> (lengths[x] > 0 <==> x in syms))
    && (forall x :: 0 <= x < |lengths| ==> lengths[x] <= max)
    && (forall l :: 1 <= l <= max ==> blCount[l] == Count(lengths, l))
    && Kraft(Counts(lengths), max) == Pow2(max)
  }

  lemma LengthsOfCode(ns: seq<Node>, blCount: seq<nat>, max: nat, syms: seq<nat>, n: nat)
    requires LimitedCode(ns, blCount, max, syms) && Symbols(syms) && forall i :: 0 <= i < |syms| ==> syms[i] < n
    ensures CodeLengths(LengthsFrom(ns, n), syms, blCount, max)
    ensures forall x :: x in Children(ns) <==> x in syms
  {
    hide Kraft, Count, LengthsFrom;
    SameBagDistinct(Children(ns), syms);
    var lengths := LengthsFrom(ns, n);
    forall i | 0 <= i < |ns| ensures ns[i].child < n {
      assert Children(ns)[i] in syms;
    }
    forall x | 0 <= x < n ensures lengths[x] <= max && (lengths[x] > 0 <==> x in syms) {
      if x in Children(ns) {
        var k :| 0 <= k < |ns| && Children(ns)[k] == x;
        AtSymbol(ns, n, k);
        assert 1 <= Depths(ns)[k] <= max;
      } else {
        NotASymbol(ns, n, x);
      }
    }
    forall l: nat | 1 <= l ensures Count(lengths, l) == Count(Depths(ns), l) {
      CountFrom(ns, n, l);
    }
    LimitLengths.KraftSame(Counts(lengths), Counts(Depths(ns)), max);
  }

  // Every symbol's frequency, doubled as often as its code has bits, is 2^total.
  ghost predicate LengthsWeigh(lengths: seq<nat>, syms: seq<nat>, f: seq<nat>, total: nat) {
    forall x :: x in syms ==> x < |f| && x < |lengths| && f[x] * Pow2(lengths[x]) == Pow2(total)
  }

  lemma WeighedLengths(ns: seq<Node>, syms: seq<nat>, n: nat, blCount: seq<nat>, max: nat, f: seq<nat>, total: nat)
    requires LimitedCode(ns, blCount, max, syms) && Symbols(syms) && forall i :: 0 <= i < |syms| ==> syms[i] < n
    requires DeepAsWeighed(ns, f, total)
    ensures LengthsWeigh(LengthsFrom(ns, n), syms, f, total)
  {
    hide Kraft, Count, LengthsFrom, Pow2;
    SameBagDistinct(Children(ns), syms);
    forall x | x in syms ensures x < |f| && x < n && f[x] * Pow2(LengthsFrom(ns, n)[x]) == Pow2(total) {
      assert x in Children(ns);
      var k :| 0 <= k < |ns| && Children(ns)[k] == x;
      var i :| 0 <= i < |syms| && syms[i] == x;
      AtSymbol(ns, n, k);
    }
  }

  // ---- frequencies and lengths ----

  // Of two symbols, the more frequent one has no longer code.
  ghost predicate ByFrequency(lengths: seq<nat>, syms: seq<nat>, f: seq<nat>) {
    && (forall x :: x in syms ==> x < |f| && x < |lengths|)
    && forall x, y :: x in syms && y in syms && f[x] > f[y] ==> lengths[x] <= lengths[y]
  }

  lemma LengthsByFrequency(ns: seq<Node>, syms: seq<nat>, n: nat, blCount: seq<nat>, max: nat, f: seq<nat>)
    requires LimitedCode(ns, blCount, max, syms) && Symbols(syms) && forall i :: 0 <= i < |syms| ==> syms[i] < n
    requires RareDeep(ns, f)
    ensures ByFrequency(LengthsFrom(ns, n), syms, f)
  {
    hide Kraft, Count, LengthsFrom;
    SameBagDistinct(Children(ns), syms);
    forall x | x in syms ensures x < |f| && x < n && exists k :: 0 <= k < |ns| && ns[k] == Node(x, LengthsFrom(ns, n)[x]) {
      assert x in Children(ns);
      var k :| 0 <= k < |ns| && Children(ns)[k] == x;
      var i :| 0 <= i < |syms| && syms[i] == x;
      AtSymbol(ns, n, k);
      assert ns[k] == Node(x, LengthsFrom(ns, n)[x]);
    }
  }

  // ---- the cost of the lengths ----

  // The frequencies of syms times their lengths.
  function CodeCost(f: seq<nat>, lengths: seq<nat>, syms: seq<nat>): nat {
    LeastCost.Cost(Mapped(LimitLengths.At(f), syms), Mapped(LimitLengths.At(lengths), syms))
  }

  function SymbolCost(f: seq<nat>, lengths: seq<nat>, x: nat): nat {
    LimitLengths.At(f)(x) * LimitLengths.At(lengths)(x)
  }

  function Product(f: seq<nat>, lengths: seq<nat>): nat -> nat {
    (x: nat) => SymbolCost(f, lengths, x)
  }

  lemma {:induction false} CostIsSum(f: seq<nat>, lengths: seq<nat>, syms: seq<nat>)
    ensures CodeCost(f, lengths, syms) == SumOver(Product(f, lengths), syms)
  {
    if syms != [] {
      var n := |syms| - 1;
      CostIsSum(f, lengths, syms[..n]);
      assert Mapped(LimitLengths.At(f), syms)[..n] == Mapped(LimitLengths.At(f), syms[..n]);
      assert Mapped(LimitLengths.At(lengths), syms)[..n] == Mapped(LimitLengths.At(lengths), syms[..n]);
    }
  }

  lemma {:induction false} NodesAreSum(ns: seq<Node>, f: seq<nat>, lengths: seq<nat>)
    requires Known(ns, f)
    requires forall k :: 0 <= k < |ns| ==> ns[k].child < |lengths| && lengths[ns[k].child] == ns[k].depth
    ensures NodeCost(ns, f) == SumOver(Product(f, lengths), Children(ns))
  {
    if ns != [] {
      var rest, last := ns[..|ns| - 1], ns[|ns| - 1];
      NodesAreSum(rest, f, lengths);
      assert Children(ns) == Children(rest) + [last.child];
      NodeIsProduct(rest, last, f, lengths);
      hide SumOver, NodeCost, SymbolCost, Children;
      SumOverConcat(Product(f, lengths), Children(rest), [last.child]);
      SumOverOne(Product(f, lengths), last.child);
      assert ns == rest + [last];
    }
  }

  lemma NodeIsProduct(rest: seq<Node>, m: Node, f: seq<nat>, lengths: seq<nat>)
    requires Known(rest + [m], f) && m.child < |lengths| && lengths[m.child] == m.depth
    ensures Known(rest, f) && NodeCost(rest + [m], f) == NodeCost(rest, f) + Product(f, lengths)(m.child)
  {
    var ns := rest + [m];
    assert ns[|rest|] == m && ns[..|rest|] == rest;
    assert forall i :: 0 <= i < |rest| ==> rest[i] == ns[i];
  }

  // No code for syms costs less under f.
  ghost predicate LeastCode(lengths: seq<nat>, syms: seq<nat>, f: seq<nat>) {
    LeastCost.Cheapest(Mapped(LimitLengths.At(f), syms), CodeCost(f, lengths, syms))
  }

  // Leaves that no code for their symbols beats.
  ghost predicate LeastLeaves(ns: seq<Node>, syms: seq<nat>, f: seq<nat>) {
    && Known(ns, f) && multiset(Children(ns)) == multiset(syms)
    && LeastCost.Cheapest(Mapped(LimitLengths.At(f), syms), NodeCost(ns, f))
  }

  lemma LeavesLeast(ns: seq<Node>, syms: seq<nat>, n: nat, f: seq<nat>)
    requires LeastLeaves(ns, syms, f) && Symbols(syms) && forall i :: 0 <= i < |syms| ==> syms[i] < n
    ensures LeastCode(LengthsFrom(ns, n), syms, f)
  {
    hide LengthsFrom, CodeCost, NodeCost, SumOver, LeastCost.Cheapest;
    SameBagDistinct(Children(ns), syms);
    var lengths := LengthsFrom(ns, n);
    forall k | 0 <= k < |ns| ensures ns[k].child < n && lengths[ns[k].child] == ns[k].depth {
      assert Children(ns)[k] in syms;
      AtSymbol(ns, n, k);
    }
    NodesAreSum(ns, f, lengths);
    SameSum(Product(f, lengths), Children(ns), syms);
    CostIsSum(f, lengths, syms);
  }

  // The words of the heap have the frequencies of their symbols.
  lemma HeapFreqs(s: seq<Word>, syms: seq<nat>, f: seq<nat>)
    requires SymbolsWeigh(s, f) && multiset(Labels(s)) == multiset(syms)
    ensures multiset(Freqs(s)) == multiset(Mapped(LimitLengths.At(f), syms))
  {
    hide Freq, Label;
    forall i | 0 <= i < |s| ensures Freqs(s)[i] == LimitLengths.At(f)(Labels(s)[i]) {
      assert s[i] in s;
    }
    assert Freqs(s) == Mapped(LimitLengths.At(f), Labels(s));
    SameMapped(LimitLengths.At(f), Labels(s), syms);
  }

  // The leaves of build_huff_tree's tree cost least.
  lemma TreeLeast(t: Shape, f: seq<nat>, wt: seq<nat>, s: seq<Word>)
    requires t.Valid() && GradedTree(t.ch, t.root, f, wt, SumFreq(s)) && SymbolsWeigh(s, f)
    requires multiset(Labels(s)) == multiset(t.syms)
    requires LeastCost.Cheapest(Freqs(s), WeightFrom(wt, t.root + 1))
    ensures LeastLeaves(t.Leaves(HEAP_TREE_SIZE), t.syms, f)
  {
    hide FullTree, SlotsWeigh, SymbolsWeigh, Labels, Freqs, NodeCost, WeightFrom, LeastCost.Cheapest, Shape.Leaves;
    t.LeafSymbols();
    LeafCost(t, f, wt);
    HeapFreqs(s, t.syms, f);
    LeastCost.SameCheapest(Freqs(s), Mapped(LimitLengths.At(f), t.syms), WeightFrom(wt, t.root + 1));
  }

  // ---- codes of least cost that the limit rules out ----

  // Lengths for syms that the Kraft inequality allows.
  ghost predicate SomeCode(lengths: seq<nat>, syms: seq<nat>) {
    && (forall x :: 0 <= x < |lengths| ==> (lengths[x] > 0 <==> x in syms))
    && exists m: nat :: LeastCost.Within(lengths, m) && Kraft(Counts(lengths), m) <= Pow2(m)
  }

  // Some code of least cost has a code word longer than max bits.
  ghost predicate LimitMatters(syms: seq<nat>, f: seq<nat>, n: nat, max: nat) {
    exists l: seq<nat> :: |l| == n && SomeCode(l, syms) && LeastCode(l, syms, f) && !LeastCost.Within(l, max)
  }

  // The leaves share out all words of as many bits as the deepest has.
  ghost predicate WholeLeaves(ns: seq<Node>, m: nat) {
    && Kraft(Counts(Depths(ns)), m) == Pow2(m)
    && forall i :: 0 <= i < |ns| ==> 1 <= ns[i].depth <= m
  }

  lemma LeavesWhole(t: Shape)
    requires t.Valid()
    ensures WholeLeaves(t.Leaves(HEAP_TREE_SIZE), MAX_HISTHEAP_SIZE)
  {
    hide FullTree, Kraft, Count, Pow2, Shape.Leaves;
    var ns := t.Leaves(HEAP_TREE_SIZE);
    forall i | 0 <= i < |ns| ensures 1 <= ns[i].depth <= MAX_HISTHEAP_SIZE {
      t.LeafDepth(HEAP_TREE_SIZE, i);
    }
    forall l: nat | l > MAX_HISTHEAP_SIZE ensures t.LeafCount(HEAP_TREE_SIZE, l) == 0 {
      CountZero(Depths(ns), l);
    }
    t.KraftWhole(MAX_HISTHEAP_SIZE);
  }

  lemma LimitPassed(ns: seq<Node>, syms: seq<nat>, n: nat, f: seq<nat>, m: nat, max: nat, k: nat)
    requires LeastLeaves(ns, syms, f) && WholeLeaves(ns, m) && k < |ns| && ns[k].depth > max
    requires Symbols(syms) && forall i :: 0 <= i < |syms| ==> syms[i] < n
    ensures LimitMatters(syms, f, n, max)
  {
    hide Kraft, Count, LengthsFrom, LeastLeaves, LeastCode, Pow2;
    LeastMeans(ns, syms, f);
    SameBagDistinct(Children(ns), syms);
    var lengths := LengthsFrom(ns, n);
    forall i | 0 <= i < |ns| ensures ns[i].child < n {
      assert Children(ns)[i] in syms;
    }
    forall x | 0 <= x < n ensures lengths[x] <= m && (lengths[x] > 0 <==> x in syms) {
      if x in Children(ns) {
        var i :| 0 <= i < |ns| && Children(ns)[i] == x;
        AtSymbol(ns, n, i);
      } else {
        NotASymbol(ns, n, x);
      }
    }
    forall l: nat | 1 <= l ensures Count(lengths, l) == Count(Depths(ns), l) {
      CountFrom(ns, n, l);
    }
    LimitLengths.KraftSame(Counts(lengths), Counts(Depths(ns)), m);
    LeavesLeast(ns, syms, n, f);
    AtSymbol(ns, n, k);
    assert lengths[ns[k].child] > max;
    assert SomeCode(lengths, syms);
  }

  lemma LeastMeans(ns: seq<Node>, syms: seq<nat>, f: seq<nat>)
    requires LeastLeaves(ns, syms, f)
    ensures multiset(Children(ns)) == multiset(syms)
  {
  }
}
