/** build_huff_tree and its weights. */
module HuffMerge {
  import opened Bags
  import opened Rfc1951
  import opened HuffHeap
  import opened HuffTree
  import LeastCost
  import LimitLengths

  // ---- frequencies ----

  function Freq(w: Word): nat {
    w / 0x10000
  }

  function SumFreq(s: seq<Word>): nat {
    SumOver(Freq, s)
  }

  lemma MergedSum(s: seq<Word>, t: seq<Word>, h1: Word, h2: Word, w: Word)
    requires multiset(t) + multiset{h1, h2} == multiset(s) + multiset{w}
    ensures SumFreq(t) + Freq(h1) + Freq(h2) == SumFreq(s) + Freq(w)
  {
    hide Freq, SumOver;
    SameSum(Freq, t + [h1, h2], s + [w]);
    assert t + [h1, h2] == t + [h1] + [h2];
    SumOverConcat(Freq, t + [h1], [h2]);
    SumOverConcat(Freq, t, [h1]);
    SumOverConcat(Freq, s, [w]);
    SumOverOne(Freq, h1);
    SumOverOne(Freq, h2);
    SumOverOne(Freq, w);
  }

  lemma RestSum(s: seq<Word>, rest: seq<Word>, h: Word)
    requires multiset(rest) + multiset{h} == multiset(s)
    ensures SumFreq(s) == SumFreq(rest) + Freq(h)
  {
    hide Freq, SumOver;
    SameSum(Freq, s, rest + [h]);
    SumOverConcat(Freq, rest, [h]);
    SumOverOne(Freq, h);
  }

  // Merging adds the frequencies, as long as they fit.
  lemma MergedFreq(h1: Word, h2: Word, p: nat)
    requires Label(h1) + Label(h2) < 0x10000 && p < 0x10000 && Freq(h1) + Freq(h2) < 0x1_0000_0000_0000
    ensures Freq(MergedWord(h1, h2, p)) == Freq(h1) + Freq(h2)
  {
  }

  // ---- frequencies that are powers of two ----

  ghost predicate PowerOf2(v: nat) {
    exists e: nat :: v == Pow2(e)
  }

  ghost predicate Multiple(v: nat, e: nat) {
    exists m: nat :: v == m * Pow2(e)
  }

  // All of them powers of two, and so is their sum.
  ghost predicate Dyadic(s: seq<Word>, total: nat) {
    && (forall w :: w in s ==> PowerOf2(Freq(w)))
    && SumFreq(s) == Pow2(total) && total <= 47
  }

  // A greater power of two is a multiple of twice the smaller.
  lemma {:induction false} GreaterPower(a: nat, b: nat)
    requires a < b
    ensures Multiple(Pow2(b), a + 1)
  {
    if b == a + 1 {
      assert Pow2(b) == 1 * Pow2(a + 1);
    } else {
      GreaterPower(a, b - 1);
      var m: nat :| Pow2(b - 1) == m * Pow2(a + 1);
      assert Pow2(b) == 2 * (m * Pow2(a + 1)) == (2 * m) * Pow2(a + 1);
    }
  }

  lemma MultipleSum(u: nat, v: nat, e: nat)
    requires Multiple(u, e) && Multiple(v, e)
    ensures Multiple(u + v, e)
  {
    var m: nat :| u == m * Pow2(e);
    var n: nat :| v == n * Pow2(e);
    assert u + v == (m + n) * Pow2(e);
  }

  lemma {:induction false} SumMultiple(s: seq<Word>, e: nat)
    requires forall w :: w in s ==> Multiple(Freq(w), e)
    ensures Multiple(SumFreq(s), e)
  {
    hide Freq, Multiple;
    if s == [] {
      ZeroMultiple(e);
    } else {
      SumMultiple(s[..|s| - 1], e);
      MultipleSum(SumFreq(s[..|s| - 1]), Freq(s[|s| - 1]), e);
    }
  }

  lemma ZeroMultiple(e: nat)
    ensures Multiple(0, e)
  {
    assert 0 == 0 * Pow2(e);
  }

  // 2^a is no difference of multiples of 2^(a + 1).
  lemma NoDifference(a: nat, u: nat, v: nat)
    requires Multiple(u, a + 1) && Multiple(v, a + 1)
    ensures Pow2(a) + u != v
  {
    var m: nat :| u == m * Pow2(a + 1);
    var n: nat :| v == n * Pow2(a + 1);
    if Pow2(a) + u == v {
      assert (n - m) * Pow2(a + 1) == Pow2(a);
      HalfUnit(n - m, Pow2(a));
    }
  }

  lemma HalfUnit(k: int, p: int)
    requires p >= 1
    ensures k * (2 * p) != p
  {
    if k >= 1 {
      assert (k - 1) * (2 * p) >= 0;
    } else {
      assert -k * (2 * p) >= 0;
    }
  }

  lemma SmallerFreq(u: Word, v: Word)
    requires u <= v
    ensures Freq(u) <= Freq(v)
  {
  }

  // The two least words have the same frequency.
  lemma LeastEqual(s: seq<Word>, total: nat, h1: Word, h2: Word, rest: seq<Word>)
    requires Dyadic(s, total) && Least(h1, s) && multiset(rest) + multiset{h1} == multiset(s) && Least(h2, rest)
    ensures Freq(h1) == Freq(h2)
  {
    hide Freq, Multiple, SumFreq;
    assert h2 in multiset(rest) && h2 in multiset(s);
    var i :| 0 <= i < |s| && s[i] == h2;
    SmallerFreq(h1, h2);
    var a: nat :| Freq(h1) == Pow2(a);
    if Freq(h1) < Freq(h2) {
      forall w | w in rest ensures Multiple(Freq(w), a + 1) {
        assert w in multiset(rest) && w in multiset(s);
        var j :| 0 <= j < |rest| && rest[j] == w;
        SmallerFreq(h2, w);
        var e: nat :| Freq(w) == Pow2(e);
        Pow2Less(a, e);
        GreaterPower(a, e);
      }
      SumMultiple(rest, a + 1);
      RestSum(s, rest, h1);
      SumAtLeast(rest, h2);
      Pow2Less(a, total);
      GreaterPower(a, total);
      NoDifference(a, SumFreq(rest), SumFreq(s));
    }
  }

  lemma {:induction false} SumAtLeast(s: seq<Word>, w: Word)
    requires w in s
    ensures SumFreq(s) >= Freq(w)
  {
    hide Freq;
    if s[|s| - 1] != w {
      SumAtLeast(s[..|s| - 1], w);
    }
  }

  // ---- weights of the nodes ----

  // Sums of 48 bits keep clear of the labels.
  const FREQ_BOUND := 0x1_0000_0000_0000

  // The weight of a node with this label: that of its symbol in f, or that of its two children.
  ghost predicate Weighs(f: seq<nat>, wt: seq<nat>, tag: nat, v: nat) {
    if tag <= MAX_HISTHEAP_SIZE then tag < |f| && v == f[tag]
    else tag < |wt| && v == wt[tag] + wt[tag - 1]
  }

  ghost predicate HeapWeighs(s: seq<Word>, f: seq<nat>, wt: seq<nat>) {
    forall w :: w in s ==> Weighs(f, wt, Label(w), Freq(w))
  }

  ghost predicate SlotsWeigh(ch: seq<nat>, f: seq<nat>, wt: seq<nat>, from: nat) {
    && |ch| == |wt| == HEAP_TREE_SIZE
    && forall q :: from <= q < HEAP_TREE_SIZE ==> Weighs(f, wt, ch[q], wt[q])
  }

  // No slot is heavier than one before it.
  ghost predicate Falling(wt: seq<nat>, from: nat) {
    forall q, r :: from <= q <= r < |wt| ==> wt[q] >= wt[r]
  }

  ghost predicate NoLighter(s: seq<Word>, v: nat) {
    forall w :: w in s ==> Freq(w) >= v
  }

  // What the merges keep while the frequencies add up to less than 2^48: the slots above p are no
  // heavier than the words left in the heap, and fall.
  ghost predicate Graded(s: seq<Word>, ch: seq<nat>, p: nat, f: seq<nat>, wt: seq<nat>, sum: nat) {
    && SumFreq(s) == sum < FREQ_BOUND && HeapWeighs(s, f, wt) && SlotsWeigh(ch, f, wt, p + 1)
    && Falling(wt, p + 1) && (p + 1 < |wt| ==> NoLighter(s, wt[p + 1]))
  }

  // The two children of a node weigh the same.
  ghost predicate EqualPairs(wt: seq<nat>, p: nat) {
    forall q :: p < q < |wt| && q % 2 == 0 ==> wt[q] == wt[q - 1]
  }

  // What they keep besides when the frequencies are powers of two that add up to one.
  ghost predicate Balanced(s: seq<Word>, p: nat, wt: seq<nat>, total: nat) {
    Dyadic(s, total) && EqualPairs(wt, p)
  }

  // A tree with these weights, which add up to that of its root.
  ghost predicate GradedTree(ch: seq<nat>, root: nat, f: seq<nat>, wt: seq<nat>, sum: nat) {
    SlotsWeigh(ch, f, wt, root) && Falling(wt, root) && root < HEAP_TREE_SIZE && wt[root] == sum
  }

  // A tree in which the weight halves with every step down.
  ghost predicate Weighted(ch: seq<nat>, root: nat, f: seq<nat>, wt: seq<nat>, total: nat) {
    SlotsWeigh(ch, f, wt, root) && EqualPairs(wt, root) && root < HEAP_TREE_SIZE && wt[root] == Pow2(total)
  }

  lemma MergedDyadic(s: seq<Word>, t: seq<Word>, total: nat, h1: Word, h2: Word, p: nat)
    requires Dyadic(s, total) && h1 in s && Freq(h1) == Freq(h2)
    requires p < 0x10000 && Freq(MergedWord(h1, h2, p)) == Freq(h1) + Freq(h2)
    requires multiset(t) + multiset{h1, h2} == multiset(s) + multiset{MergedWord(h1, h2, p)}
    ensures Dyadic(t, total)
  {
    hide Freq, Label, MergedWord, SumFreq;
    var m := MergedWord(h1, h2, p);
    MergedSum(s, t, h1, h2, m);
    var e: nat :| Freq(h1) == Pow2(e);
    assert Freq(m) == Pow2(e + 1);
    forall w | w in t ensures PowerOf2(Freq(w)) {
      FromMerge(s, t, h1, h2, m, w);
    }
  }

  lemma FromMerge(s: seq<Word>, t: seq<Word>, h1: Word, h2: Word, m: Word, w: Word)
    requires multiset(t) + multiset{h1, h2} == multiset(s) + multiset{m} && w in t
    ensures w in s || w == m
  {
    assert w in multiset(t);
    assert w in multiset(s) + multiset{m};
  }

  lemma SmallTotal(total: nat)
    requires total <= 47
    ensures Pow2(total) < FREQ_BOUND
  {
    hide Pow2;
    SmallPowers();
    LimitLengths.Pow2Sum(16, 16);
    LimitLengths.Pow2Sum(32, 15);
    Pow2Less(total, 47);
    Pow2Less(47, total);
  }

  lemma SmallPowers()
    ensures Pow2(16) == 0x10000 && Pow2(15) == 0x8000
  {
    assert Pow2(15) == 0x8000;
    assert Pow2(16) == 2 * Pow2(15);
  }

  // The words of the heap weigh what they did, and the merged one what its children do.
  lemma MergeHeap(s: seq<Word>, t: seq<Word>, ch: seq<nat>, p: nat, f: seq<nat>, wt: seq<nat>, syms: seq<nat>,
                  h1: Word, h2: Word)
    requires HeapWeighs(s, f, wt) && Forest(Labels(s), ch, p, syms) && |wt| == HEAP_TREE_SIZE
    requires MAX_HISTHEAP_SIZE + 1 < p <= HEAP_TREE_NODE_START
    requires multiset(t) + multiset{h1, h2} == multiset(s) + multiset{MergedWord(h1, h2, p)}
    requires Freq(MergedWord(h1, h2, p)) == Freq(h1) + Freq(h2)
    ensures HeapWeighs(t, f, wt[p := Freq(h1)][p - 1 := Freq(h2)])
  {
    hide Freq, Label, MergedWord, Forest, Labels;
    var wt' := wt[p := Freq(h1)][p - 1 := Freq(h2)];
    forall w | w in t ensures Weighs(f, wt', Label(w), Freq(w)) {
      FromMerge(s, t, h1, h2, MergedWord(h1, h2, p), w);
      if w in s {
        LabelBound(s, ch, p, syms, w);
      }
    }
  }

  lemma MergeSlots(labels: seq<nat>, ch: seq<nat>, p: nat, f: seq<nat>, wt: seq<nat>, syms: seq<nat>,
                   l1: nat, l2: nat, u: nat, v: nat)
    requires SlotsWeigh(ch, f, wt, p + 1) && Forest(labels, ch, p, syms)
    requires MAX_HISTHEAP_SIZE + 1 < p <= HEAP_TREE_NODE_START
    requires Weighs(f, wt, l1, u) && l1 != p && l1 != p + 1 && l1 != p - 1
    requires Weighs(f, wt, l2, v) && l2 != p && l2 != p + 1 && l2 != p - 1
    ensures SlotsWeigh(ch[p := l1][p - 1 := l2], f, wt[p := u][p - 1 := v], p - 1)
  {
    hide Forest, Weighs;
    SlotsAbove(labels, ch, p, syms);
    WeighsKept(f, wt, p, l1, u, u, v);
    WeighsKept(f, wt, p, l2, v, u, v);
    forall q | p < q < HEAP_TREE_SIZE ensures Weighs(f, wt[p := u][p - 1 := v], ch[q], wt[q]) {
      WeighsKept(f, wt, p, ch[q], wt[q], u, v);
    }
  }

  lemma WeighsKept(f: seq<nat>, wt: seq<nat>, p: nat, tag: nat, w: nat, u: nat, v: nat)
    requires 1 <= p < |wt| && Weighs(f, wt, tag, w) && tag != p && tag != p + 1 && tag != p - 1
    ensures Weighs(f, wt[p := u][p - 1 := v], tag, w)
  {
  }

  lemma LabelBound(s: seq<Word>, ch: seq<nat>, p: nat, syms: seq<nat>, w: Word)
    requires Forest(Labels(s), ch, p, syms) && w in s
    ensures Label(w) < MAX_HISTHEAP_SIZE || p + 2 <= Label(w) <= HEAP_TREE_NODE_START
  {
    var i :| 0 <= i < |s| && s[i] == w;
    assert Labels(s)[i] == Label(w);
    ForestLabel(Labels(s), ch, p, syms, Label(w));
  }

  lemma SlotsAbove(labels: seq<nat>, ch: seq<nat>, p: nat, syms: seq<nat>)
    requires Forest(labels, ch, p, syms)
    ensures |ch| == HEAP_TREE_SIZE && p <= HEAP_TREE_NODE_START
    ensures forall q :: p < q < |ch| && ch[q] > MAX_HISTHEAP_SIZE ==> p + 2 < ch[q] <= HEAP_TREE_NODE_START
  {
  }

  // The least word is no heavier than the second, and that one no heavier than the others.
  lemma LeastTwo(s: seq<Word>, t: seq<Word>, h1: Word, h2: Word, rest: seq<Word>, m: Word)
    requires Least(h1, s) && multiset(rest) + multiset{h1} == multiset(s) && Least(h2, rest)
    requires multiset(t) + multiset{h1, h2} == multiset(s) + multiset{m} && Freq(m) >= Freq(h2)
    ensures h1 in s && h2 in s && Freq(h1) <= Freq(h2) && NoLighter(t, Freq(h2))
    ensures SumFreq(s) >= Freq(h1) + Freq(h2)
  {
    hide Freq, SumFreq;
    assert h2 in multiset(rest) && h2 in multiset(s);
    var i :| 0 <= i < |s| && s[i] == h2;
    SmallerFreq(h1, h2);
    RestSum(s, rest, h1);
    SumAtLeast(rest, h2);
    forall w | w in t ensures Freq(w) >= Freq(h2) {
      if w != m {
        assert w in multiset(t) && (multiset(t) + multiset{h1, h2})[w] == multiset(s)[w];
        OtherWord(multiset(s), multiset(rest), multiset(t), h1, h2, m, w);
        var j :| 0 <= j < |rest| && rest[j] == w;
        SmallerFreq(h2, w);
      }
    }
  }

  lemma OtherWord(s: multiset<Word>, rest: multiset<Word>, t: multiset<Word>, h1: Word, h2: Word, m: Word, w: Word)
    requires rest + multiset{h1} == s && t + multiset{h1, h2} == s + multiset{m} && w in t && w != m
    ensures w in rest
  {
    assert (rest + multiset{h1})[w] == s[w];
    assert (t + multiset{h1, h2})[w] == (s + multiset{m})[w];
    assert multiset{h1, h2} == multiset{h1} + multiset{h2};
  }

  // The sum of a merge stays the same, so the merged frequencies never reach the labels.
  lemma MergedFits(s: seq<Word>, ch: seq<nat>, p: nat, syms: seq<nat>, h1: Word, h2: Word, rest: seq<Word>)
    requires Forest(Labels(s), ch, p, syms) && p <= HEAP_TREE_NODE_START && SumFreq(s) < FREQ_BOUND
    requires Least(h1, s) && multiset(rest) + multiset{h1} == multiset(s) && Least(h2, rest)
    ensures Freq(MergedWord(h1, h2, p)) == Freq(h1) + Freq(h2)
  {
    hide Freq, Label, Labels, MergedWord, SumFreq, Forest;
    assert h2 in multiset(rest) && h2 in multiset(s);
    LabelBound(s, ch, p, syms, h1);
    LabelBound(s, ch, p, syms, h2);
    RestSum(s, rest, h1);
    SumAtLeast(rest, h2);
    MergedFreq(h1, h2, p);
  }

  lemma FallingMore(wt: seq<nat>, p: nat, u: nat, v: nat)
    requires 1 <= p < |wt| && Falling(wt, p + 1) && u <= v && (p + 1 < |wt| ==> wt[p + 1] <= u)
    ensures Falling(wt[p := u][p - 1 := v], p - 1)
  {
  }

  // The merge of the two least words.
  lemma MergeGraded(s: seq<Word>, t: seq<Word>, ch: seq<nat>, p: nat, f: seq<nat>, wt: seq<nat>, sum: nat,
                    syms: seq<nat>, h1: Word, h2: Word, rest: seq<Word>)
    requires Graded(s, ch, p, f, wt, sum) && Forest(Labels(s), ch, p, syms)
    requires MAX_HISTHEAP_SIZE + 1 < p <= HEAP_TREE_NODE_START
    requires Least(h1, s) && multiset(rest) + multiset{h1} == multiset(s) && Least(h2, rest)
    requires multiset(t) + multiset{h1, h2} == multiset(s) + multiset{MergedWord(h1, h2, p)}
    ensures |wt| == |ch| == HEAP_TREE_SIZE && Freq(MergedWord(h1, h2, p)) == Freq(h1) + Freq(h2)
    ensures Graded(t, ch[p := Label(h1)][p - 1 := Label(h2)], p - 2, f, wt[p := Freq(h1)][p - 1 := Freq(h2)], sum)
  {
    hide Freq, Label, Labels, MergedWord, SumFreq, Forest, Weighs, Falling;
    MergedFits(s, ch, p, syms, h1, h2, rest);
    LeastTwo(s, t, h1, h2, rest, MergedWord(h1, h2, p));
    LabelBound(s, ch, p, syms, h1);
    LabelBound(s, ch, p, syms, h2);
    MergedSum(s, t, h1, h2, MergedWord(h1, h2, p));
    MergeHeap(s, t, ch, p, f, wt, syms, h1, h2);
    MergeSlots(Labels(s), ch, p, f, wt, syms, Label(h1), Label(h2), Freq(h1), Freq(h2));
    FallingMore(wt, p, Freq(h1), Freq(h2));
  }

  // The merge of two nodes of equal weight.
  lemma MergeBalanced(s: seq<Word>, t: seq<Word>, p: nat, wt: seq<nat>, total: nat, h1: Word, h2: Word, rest: seq<Word>)
    requires Balanced(s, p, wt, total) && 2 <= p < |wt| && p < 0x10000 && p % 2 == 0
    requires Least(h1, s) && multiset(rest) + multiset{h1} == multiset(s) && Least(h2, rest)
    requires multiset(t) + multiset{h1, h2} == multiset(s) + multiset{MergedWord(h1, h2, p)}
    requires Freq(MergedWord(h1, h2, p)) == Freq(h1) + Freq(h2)
    ensures Balanced(t, p - 2, wt[p := Freq(h1)][p - 1 := Freq(h2)], total)
  {
    hide Freq, MergedWord, SumFreq, Dyadic;
    LeastEqual(s, total, h1, h2, rest);
    MergedDyadic(s, t, total, h1, h2, p);
  }

  // ---- the cost of the code ----

  function Freqs(s: seq<Word>): (v: seq<nat>) {
    Mapped(Freq, s)
  }

  // A code for the words of start costs paid more than one for the words of s, at the least.
  ghost predicate Reduces(start: seq<Word>, s: seq<Word>, paid: nat) {
    forall c: nat :: LeastCost.Cheapest(Freqs(s), c) ==> LeastCost.Cheapest(Freqs(start), c + paid)
  }

  // The weights of the slots from q on.
  function WeightFrom(wt: seq<nat>, q: nat): nat
    decreases |wt| - q
  {
    if q >= |wt| then 0 else wt[q] + WeightFrom(wt, q + 1)
  }

  lemma {:induction false} WeightKept(wt: seq<nat>, q: nat, k: nat, v: nat)
    requires k < q && k < |wt|
    ensures WeightFrom(wt[k := v], q) == WeightFrom(wt, q)
    decreases |wt| - q
  {
    if q < |wt| {
      WeightKept(wt, q + 1, k, v);
    }
  }

  lemma WeightTwo(wt: seq<nat>, p: nat, u: nat, v: nat)
    requires 1 <= p < |wt|
    ensures WeightFrom(wt[p := u][p - 1 := v], p - 1) == WeightFrom(wt, p + 1) + u + v
  {
    var wt' := wt[p := u][p - 1 := v];
    WeightKept(wt, p + 1, p, u);
    WeightKept(wt[p := u], p + 1, p - 1, v);
    assert WeightFrom(wt', p) == u + WeightFrom(wt', p + 1);
  }

  lemma ReducesMore(start: seq<Word>, s: seq<Word>, paid: nat, more: nat, t: seq<Word>)
    requires Reduces(start, s, paid)
    requires forall c: nat :: LeastCost.Cheapest(Freqs(t), c) ==> LeastCost.Cheapest(Freqs(s), c + more)
    ensures Reduces(start, t, paid + more)
  {
    hide LeastCost.Cheapest, Freqs;
    forall c: nat | LeastCost.Cheapest(Freqs(t), c) ensures LeastCost.Cheapest(Freqs(start), c + (paid + more)) {
      assert LeastCost.Cheapest(Freqs(s), c + more);
      assert c + more + paid == c + (paid + more);
    }
  }

  lemma WithoutTwo(s: seq<Word>, t: seq<Word>, h1: Word, h2: Word, rest: seq<Word>, m: Word) returns (others: seq<Word>)
    requires multiset(rest) + multiset{h1} == multiset(s) && h2 in rest
    requires multiset(t) + multiset{h1, h2} == multiset(s) + multiset{m}
    ensures multiset(others + [h1, h2]) == multiset(s) && multiset(others + [m]) == multiset(t)
    ensures forall w :: w in others ==> w in rest
  {
    var k :| 0 <= k < |rest| && rest[k] == h2;
    others := Without(rest, k);
    WithoutBag(rest, k);
    var bag := multiset(others);
    assert multiset(rest) == bag + multiset{h2};
    TwoOut(bag, multiset(s), multiset(t), h1, h2, m);
    assert multiset(others + [h1, h2]) == bag + multiset{h1, h2};
    assert multiset(others + [m]) == bag + multiset{m};
  }

  lemma TwoOut(others: multiset<Word>, s: multiset<Word>, t: multiset<Word>, h1: Word, h2: Word, m: Word)
    requires others + multiset{h2} + multiset{h1} == s && t + multiset{h1, h2} == s + multiset{m}
    ensures others + multiset{h1, h2} == s && others + multiset{m} == t
  {
    var two := multiset{h1, h2};
    assert two == multiset{h2} + multiset{h1};
    assert others + two == others + multiset{h2} + multiset{h1};
    assert others + multiset{m} + two == others + two + multiset{m};
    Cancelled(others + multiset{m}, t, two);
  }

  // The others are no lighter than the second word.
  lemma OthersNoLighter(others: seq<Word>, rest: seq<Word>, h2: Word)
    requires Least(h2, rest) && forall w :: w in others ==> w in rest
    ensures forall q :: 0 <= q < |others| ==> Freq(h2) <= Freqs(others)[q]
  {
    hide Freq;
    forall q | 0 <= q < |others| ensures Freq(h2) <= Freqs(others)[q] {
      var w := others[q];
      assert w in others;
      var j :| 0 <= j < |rest| && rest[j] == w;
      SmallerFreq(h2, w);
    }
  }

  lemma FreqsTwo(others: seq<Word>, h1: Word, h2: Word, m: Word)
    requires Freq(m) == Freq(h1) + Freq(h2)
    ensures Freqs(others + [h1, h2]) == Freqs(others) + [Freq(h1), Freq(h2)]
    ensures Freqs(others + [m]) == Freqs(others) + [Freq(h1) + Freq(h2)]
  {
    hide Freq;
  }

  lemma MergedCheapest(s: seq<nat>, t: seq<nat>, others: seq<nat>, u: nat, v: nat, c: nat)
    requires multiset(t) == multiset(others + [u + v]) && multiset(s) == multiset(others + [u, v])
    requires u <= v && (forall q :: 0 <= q < |others| ==> v <= others[q]) && LeastCost.Cheapest(t, c)
    ensures LeastCost.Cheapest(s, c + (u + v))
  {
    hide LeastCost.Cheapest;
    LeastCost.SameCheapest(t, others + [u + v], c);
    LeastCost.MergeCheapest(others, u, v, c);
    LeastCost.SameCheapest(others + [u, v], s, c + (u + v));
  }

  // The least word of s and the least of the rest leave for m.
  ghost predicate TwoTaken(s: seq<Word>, t: seq<Word>, h1: Word, h2: Word, rest: seq<Word>, m: Word) {
    && Least(h1, s) && multiset(rest) + multiset{h1} == multiset(s) && Least(h2, rest)
    && multiset(t) + multiset{h1, h2} == multiset(s) + multiset{m}
  }

  // The frequencies before and after a merge.
  lemma MergedFreqs(s: seq<Word>, t: seq<Word>, h1: Word, h2: Word, rest: seq<Word>, m: Word) returns (others: seq<nat>)
    requires TwoTaken(s, t, h1, h2, rest, m) && Freq(m) == Freq(h1) + Freq(h2)
    ensures multiset(Freqs(t)) == multiset(others + [Freq(h1) + Freq(h2)])
    ensures multiset(Freqs(s)) == multiset(others + [Freq(h1), Freq(h2)])
    ensures Freq(h1) <= Freq(h2) && forall q :: 0 <= q < |others| ==> Freq(h2) <= others[q]
  {
    hide Freq, Mapped, Least;
    LeastIn(h2, rest);
    var words := WithoutTwo(s, t, h1, h2, rest, m);
    SameMapped(Freq, words + [h1, h2], s);
    SameMapped(Freq, t, words + [m]);
    FreqsTwo(words, h1, h2, m);
    OthersNoLighter(words, rest, h2);
    others := Freqs(words);
    LeastTwo(s, t, h1, h2, rest, m);
  }

  // One merge costs the two frequencies.
  lemma MergeReduces(start: seq<Word>, s: seq<Word>, t: seq<Word>, paid: nat, h1: Word, h2: Word, rest: seq<Word>, m: Word)
    requires Reduces(start, s, paid) && Freq(m) == Freq(h1) + Freq(h2)
    requires TwoTaken(s, t, h1, h2, rest, m)
    ensures Reduces(start, t, paid + (Freq(h1) + Freq(h2)))
  {
    hide Freq, LeastCost.Cheapest, Reduces, Freqs, TwoTaken;
    var others := MergedFreqs(s, t, h1, h2, rest, m);
    FreqsReduce(start, s, t, paid, others, Freq(h1), Freq(h2));
  }

  lemma FreqsReduce(start: seq<Word>, s: seq<Word>, t: seq<Word>, paid: nat, others: seq<nat>, u: nat, v: nat)
    requires Reduces(start, s, paid)
    requires multiset(Freqs(t)) == multiset(others + [u + v]) && multiset(Freqs(s)) == multiset(others + [u, v])
    requires u <= v && forall q :: 0 <= q < |others| ==> v <= others[q]
    ensures Reduces(start, t, paid + (u + v))
  {
    hide Freqs, LeastCost.Cheapest, Reduces;
    forall c: nat | LeastCost.Cheapest(Freqs(t), c) ensures LeastCost.Cheapest(Freqs(s), c + (u + v)) {
      MergedCheapest(Freqs(s), Freqs(t), others, u, v, c);
    }
    ReducesMore(start, s, paid, u + v, t);
  }

  lemma LeastIn(w: Word, s: seq<Word>)
    requires Least(w, s)
    ensures w in s
  {
  }

  // ---- build_huff_tree ----

  // The loop's body: two words leave the heap for slots p and p - 1.
  method MergeInto(heap: array<Word>, size: nat, tree: array<Node>, p: nat, ghost syms: seq<nat>, ghost f: seq<nat>,
                   ghost wt: seq<nat>, ghost total: nat, ghost start: seq<Word>) returns (ghost wt': seq<nat>)
    requires 2 <= size && size + 1 < heap.Length && tree.Length == HEAP_TREE_SIZE == |wt|
    requires MAX_HISTHEAP_SIZE + 1 < p <= HEAP_TREE_NODE_START
    requires Ordered(heap[..], size, 1) && heap[size + 1] == TOP
    requires Forest(Labels(heap[1..size + 1]), Children(tree[..]), p, syms)
    requires forall q :: 0 <= q < tree.Length ==> tree[q].depth == 0
    modifies heap, tree
    ensures Ordered(heap[..], size - 1, 1) && heap[size] == TOP
    ensures Forest(Labels(heap[1..size]), Children(tree[..]), p - 2, syms)
    ensures forall q :: 0 <= q < tree.Length ==> tree[q].depth == 0
    ensures |wt'| == HEAP_TREE_SIZE
    ensures old(Graded(heap[1..size + 1], Children(tree[..]), p, f, wt, SumFreq(start))) ==>
              Graded(heap[1..size], Children(tree[..]), p - 2, f, wt', SumFreq(start))
    ensures old(Graded(heap[1..size + 1], Children(tree[..]), p, f, wt, SumFreq(start))
             && Balanced(heap[1..size + 1], p, wt, total)) ==>
              Balanced(heap[1..size], p - 2, wt', total)
    ensures old(Graded(heap[1..size + 1], Children(tree[..]), p, f, wt, SumFreq(start))
             && Reduces(start, heap[1..size + 1], WeightFrom(wt, p + 1))) ==>
              Reduces(start, heap[1..size], WeightFrom(wt', p - 1))
  {
    hide Ordered, Forest, Labels, MergedWord, Label, Least, Children, Graded, Balanced, Freq, Reduces, WeightFrom;
    ghost var s, ch := heap[1..size + 1], Children(tree[..]);
    EvenPointer(Labels(s), ch, p, syms);
    var h1, h2, rest := MergeLeast(heap, size, p);
    ghost var t := heap[1..size];
    LabelsMerged(s, t, h1, h2, p, rest);
    Merged(Labels(s), ch, p, syms, Label(h1), Label(h2), Labels(t));
    wt' := wt[p := Freq(h1)][p - 1 := Freq(h2)];
    if Graded(s, ch, p, f, wt, SumFreq(start)) {
      MergeGraded(s, t, ch, p, f, wt, SumFreq(start), syms, h1, h2, rest);
      if Balanced(s, p, wt, total) {
        MergeBalanced(s, t, p, wt, total, h1, h2, rest);
      }
      if Reduces(start, s, WeightFrom(wt, p + 1)) {
        MergeReduces(start, s, t, WeightFrom(wt, p + 1), h1, h2, rest, MergedWord(h1, h2, p));
        WeightTwo(wt, p, Freq(h1), Freq(h2));
      }
    }
    SetChildren(tree, p, Label(h1), Label(h2));
  }

  lemma EvenPointer(labels: seq<nat>, ch: seq<nat>, p: nat, syms: seq<nat>)
    requires Forest(labels, ch, p, syms)
    ensures p % 2 == 0
  {
  }

  // build_huff_tree, with the heap and the tree of the union in arrays of their own. While the
  // frequencies add up to less than 2^48, no slot of the tree is heavier than one before it, and no
  // code costs less than the slots below the root weigh; if they are powers of two that add up to
  // one, the weights halve with every step down.
  method BuildHuffTree(heap: array<Word>, heapSize: nat, tree: array<Node>, ghost syms: seq<nat>, ghost f: seq<nat>,
                       ghost total: nat) returns (root: nat, ghost wt: seq<nat>)
    requires 2 <= heapSize <= MAX_HISTHEAP_SIZE && heap.Length == tree.Length == HEAP_TREE_SIZE
    requires Ordered(heap[..], heapSize, 1) && heap[heapSize + 1] == TOP
    requires Symbols(syms) && multiset(Labels(heap[1..heapSize + 1])) == multiset(syms)
    requires forall q :: 0 <= q < tree.Length ==> tree[q].depth == 0
    modifies heap, tree
    ensures FullTree(Children(tree[..]), root, syms)
    ensures forall q :: 0 <= q < tree.Length ==> tree[q].depth == 0
    // the slots of the tree do not overlap the heap and its sentinel
    ensures root == HEAP_TREE_NODE_START - 2 * (heapSize - 1) > heapSize + 1
    ensures old(SumFreq(heap[1..heapSize + 1]) < FREQ_BOUND && SymbolsWeigh(heap[1..heapSize + 1], f)) ==>
              GradedTree(Children(tree[..]), root, f, wt, old(SumFreq(heap[1..heapSize + 1])))
    ensures old(SumFreq(heap[1..heapSize + 1]) < FREQ_BOUND && SymbolsWeigh(heap[1..heapSize + 1], f)) ==>
              LeastCost.Cheapest(old(Freqs(heap[1..heapSize + 1])), WeightFrom(wt, root + 1))
    ensures old(Dyadic(heap[1..heapSize + 1], total) && SymbolsWeigh(heap[1..heapSize + 1], f)) ==>
              Weighted(Children(tree[..]), root, f, wt, total)
  {
    hide Ordered, Forest, FullTree, Labels, Label, Symbols, Pointers, Children, Graded, Balanced, Freq, SumFreq, Dyadic,
      SymbolsWeigh, Weighted, GradedTree, Reduces, WeightFrom, LeastCost.Cheapest, Freqs;
    var size, p := heapSize, HEAP_TREE_NODE_START;
    ghost var start := heap[1..size + 1];
    wt := seq(HEAP_TREE_SIZE, _ => 0);
    ForestStart(Labels(start), Children(tree[..]), syms);
    GradedStart(start, Children(tree[..]), f, wt, total);
    while size > 1
      invariant 1 <= size <= heapSize && p == HEAP_TREE_NODE_START - 2 * (heapSize - size) && |wt| == HEAP_TREE_SIZE
      invariant Ordered(heap[..], size, 1) && heap[size + 1] == TOP
      invariant Forest(Labels(heap[1..size + 1]), Children(tree[..]), p, syms)
      invariant forall q :: 0 <= q < tree.Length ==> tree[q].depth == 0
      invariant SumFreq(start) < FREQ_BOUND && SymbolsWeigh(start, f) ==>
                  Graded(heap[1..size + 1], Children(tree[..]), p, f, wt, SumFreq(start))
      invariant Dyadic(start, total) && SymbolsWeigh(start, f) ==> Balanced(heap[1..size + 1], p, wt, total)
      invariant SumFreq(start) < FREQ_BOUND && SymbolsWeigh(start, f) ==>
                  Reduces(start, heap[1..size + 1], WeightFrom(wt, p + 1))
    {
      wt := MergeInto(heap, size, tree, p, syms, f, wt, total, start);
      size := size - 1;
      p := p - 2;
    }
    ghost var ch := Children(tree[..]);
    ForestSize(Labels(heap[1..2]), ch, p, syms);
    Rooted(Labels(heap[1..2]), ch, p, syms);
    if SumFreq(start) < FREQ_BOUND && SymbolsWeigh(start, f) {
      GradedRoot(heap[1..2], ch, p, f, wt, SumFreq(start), syms);
      ReducedToOne(start, heap[1..2], wt, p, Freq(heap[1]));
      if Balanced(heap[1..2], p, wt, total) {
        BalancedRoot(heap[1..2], ch, p, f, wt, total, SumFreq(start));
      }
    }
    wt := wt[p := Freq(heap[1])];
    SetChild(tree, p, Label(heap[1]));
    root := p;
  }

  // A single word costs nothing more.
  lemma ReducedToOne(start: seq<Word>, s: seq<Word>, wt: seq<nat>, p: nat, v: nat)
    requires Reduces(start, s, WeightFrom(wt, p + 1)) && p < |wt|
    ensures LeastCost.Cheapest(Freqs(start), WeightFrom(wt[p := v], p + 1))
  {
    hide Freq, WeightFrom, LeastCost.Cost, LeastCost.Code;
    WeightKept(wt, p + 1, p, v);
    assert LeastCost.Cheapest(Freqs(s), 0);
  }

  ghost predicate SymbolsWeigh(s: seq<Word>, f: seq<nat>) {
    forall w :: w in s ==> Label(w) < MAX_HISTHEAP_SIZE && Label(w) < |f| && Freq(w) == f[Label(w)]
  }

  lemma GradedStart(s: seq<Word>, ch: seq<nat>, f: seq<nat>, wt: seq<nat>, total: nat)
    requires |ch| == |wt| == HEAP_TREE_SIZE
    ensures SumFreq(s) < FREQ_BOUND && SymbolsWeigh(s, f) ==> Graded(s, ch, HEAP_TREE_NODE_START, f, wt, SumFreq(s))
    ensures Dyadic(s, total) ==> Balanced(s, HEAP_TREE_NODE_START, wt, total) && SumFreq(s) < FREQ_BOUND
    ensures Reduces(s, s, WeightFrom(wt, HEAP_TREE_NODE_START + 1))
  {
    hide Freq, Label, SumFreq, PowerOf2, Pow2, LeastCost.Cheapest, Freqs;
    if Dyadic(s, total) {
      SmallTotal(total);
    }
  }

  lemma GradedRoot(s: seq<Word>, ch: seq<nat>, p: nat, f: seq<nat>, wt: seq<nat>, sum: nat, syms: seq<nat>)
    requires |s| == 1 && Graded(s, ch, p, f, wt, sum) && Forest(Labels(s), ch, p, syms)
    ensures |wt| == |ch| == HEAP_TREE_SIZE && p < HEAP_TREE_SIZE
    ensures GradedTree(ch[p := Label(s[0])], p, f, wt[p := Freq(s[0])], sum)
  {
    SumOverOne(Freq, s[0]);
    assert s == [s[0]];
    hide Freq, Label, Labels, Forest, Weighs, SumOver;
    assert s[0] in s;
    LabelBound(s, ch, p, syms, s[0]);
    SlotsAbove(Labels(s), ch, p, syms);
    RootPlaced(f, wt, p, Label(s[0]), Freq(s[0]), Freq(s[0]));
    forall q | p < q < HEAP_TREE_SIZE ensures Weighs(f, wt[p := Freq(s[0])], ch[q], wt[q]) {
      RootPlaced(f, wt, p, ch[q], wt[q], Freq(s[0]));
    }
  }

  lemma BalancedRoot(s: seq<Word>, ch: seq<nat>, p: nat, f: seq<nat>, wt: seq<nat>, total: nat, sum: nat)
    requires |s| == 1 && Balanced(s, p, wt, total) && |wt| == |ch| == HEAP_TREE_SIZE && p < HEAP_TREE_SIZE
    requires GradedTree(ch[p := Label(s[0])], p, f, wt[p := Freq(s[0])], sum)
    requires p % 2 == 0
    ensures Weighted(ch[p := Label(s[0])], p, f, wt[p := Freq(s[0])], total)
  {
    hide Freq, Label, SumOver, Weighs, Falling;
    SumOverOne(Freq, s[0]);
    assert s == [s[0]];
  }

  lemma RootPlaced(f: seq<nat>, wt: seq<nat>, p: nat, tag: nat, u: nat, v: nat)
    requires p < |wt| && Weighs(f, wt, tag, u) && (tag <= MAX_HISTHEAP_SIZE || tag > p + 1)
    ensures Weighs(f, wt[p := v], tag, u)
  {
  }
}
