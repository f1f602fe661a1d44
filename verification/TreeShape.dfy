/** The leaves of a full binary tree, their depths and their weights. */
module TreeShape {
  import opened Rfc1951
  import opened Canonical
  import opened HuffTree
  import opened HuffMerge
  import LeastCost

  lemma {:induction false} PointersAll(p: nat, x: nat)
    requires p <= HEAP_TREE_NODE_START && p % 2 == 0 && p + 2 <= x <= HEAP_TREE_NODE_START && x % 2 == 0
    ensures multiset(Pointers(p))[x] == 1
    decreases HEAP_TREE_NODE_START - p
  {
    var rest := Pointers(p + 2);
    if x == p + 2 {
      assert x !in rest;
    } else {
      PointersAll(p + 2, x);
    }
  }

  lemma Twice(s: seq<nat>, i: nat, j: nat)
    requires i < j < |s| && s[i] == s[j]
    ensures multiset(s)[s[i]] >= 2
  {
    assert s == s[..i] + [s[i]] + s[i + 1..];
    assert s[i + 1..][j - i - 1] == s[j];
    assert s[i] in multiset(s[i + 1..]);
  }

  function Depths(ns: seq<Node>): (d: seq<nat>)
    ensures |d| == |ns| && forall i :: 0 <= i < |ns| ==> d[i] == ns[i].depth
  {
    seq(|ns|, i requires 0 <= i < |ns| => ns[i].depth)
  }

  lemma PairAdded(s: set<int>, a: int, b: int)
    requires s !! {a, b} && a != b
    ensures |s + {a, b}| == |s| + 2
  {
    assert s + {a, b} == s + {a} + {b};
  }

  lemma Snoc(s: seq<nat>, y: nat, x: nat)
    ensures multiset(s + [y])[x] == multiset(s)[x] + (if x == y then 1 else 0)
  {
  }

  // The depth of a leaf is that of its frequency: the frequency, doubled as often, is 2^total.
  ghost predicate DeepAsWeighed(ns: seq<Node>, f: seq<nat>, total: nat) {
    forall i :: 0 <= i < |ns| ==>
      ns[i].child < |f| && f[ns[i].child] * Pow2(ns[i].depth) == Pow2(total)
  }

  ghost predicate Known(ns: seq<Node>, f: seq<nat>) {
    forall i :: 0 <= i < |ns| ==> ns[i].child < |f|
  }

  function Fibonacci(n: nat): nat {
    if n < 2 then n else Fibonacci(n - 1) + Fibonacci(n - 2)
  }

  lemma {:induction false} FibonacciGrows(a: nat, b: nat)
    requires a <= b
    ensures Fibonacci(a) <= Fibonacci(b)
  {
    if a < b {
      FibonacciGrows(a, b - 1);
      assert b >= 2 ==> Fibonacci(b - 2) >= 0;
    }
  }

  lemma MoreTimes(a: nat, u: nat, v: nat)
    requires u >= v
    ensures a * u >= a * v
  {
  }

  lemma NextFibonacci(d: nat, u: nat, v: nat, w: nat)
    requires d >= 1 && u >= v + w
    ensures Fibonacci(d) * u + Fibonacci(d - 1) * v >= Fibonacci(d + 1) * v + Fibonacci(d) * w
  {
    var a, b := Fibonacci(d), Fibonacci(d - 1);
    assert Fibonacci(d + 1) == a + b;
    MoreTimes(a, u, v + w);
    Regrouped(a, b, v, w);
  }

  lemma Regrouped(a: nat, b: nat, v: nat, w: nat)
    ensures a * (v + w) + b * v == (a + b) * v + a * w
  {
  }

  lemma LastFibonacci(d: nat, u: nat, v: nat)
    requires d >= 1 && u >= 2 && v >= 1
    ensures Fibonacci(d) * u + Fibonacci(d - 1) * v >= Fibonacci(d + 2)
  {
    var a, b := Fibonacci(d), Fibonacci(d - 1);
    assert Fibonacci(d + 2) == 2 * a + b;
    MoreTimes(a, u, 2);
    MoreTimes(b, v, 1);
  }

  // Of two leaves, that of a more frequent symbol is no deeper.
  ghost predicate RareDeep(ns: seq<Node>, f: seq<nat>) {
    && Known(ns, f)
    && forall i, j :: 0 <= i < |ns| && 0 <= j < |ns| && f[ns[i].child] > f[ns[j].child] ==> ns[i].depth <= ns[j].depth
  }

  // No leaf's symbol is more frequent than that of a leaf before it.
  ghost predicate FrequentFirst(ns: seq<Node>, f: seq<nat>) {
    && Known(ns, f)
    && forall i, j :: 0 <= i < j < |ns| ==> f[ns[i].child] >= f[ns[j].child]
  }

  lemma Doubled(w: nat, d: nat)
    ensures w * Pow2(d + 1) == (2 * w) * Pow2(d)
  {
    assert Pow2(d + 1) == 2 * Pow2(d);
    assert w * (2 * Pow2(d)) == (2 * w) * Pow2(d);
  }

  lemma CountLast(ns: seq<Node>, n: Node, d: nat)
    ensures Count(Depths(ns + [n]), d) == Count(Depths(ns), d) + (if n.depth == d then 1 else 0)
  {
    var l := Depths(ns + [n]);
    assert l[..|l| - 1] == Depths(ns);
  }

  datatype Shape = Shape(ch: seq<nat>, root: nat, syms: seq<nat>) {

    ghost predicate Valid()
      ensures Valid() ==> |ch| == HEAP_TREE_SIZE && root < HEAP_TREE_NODE_START
    {
      FullTree(ch, root, syms)
    }

    predicate Slot(q: nat) {
      root <= q < HEAP_TREE_SIZE
    }

    predicate Inner(q: nat)
      requires q < |ch|
    {
      ch[q] > MAX_HISTHEAP_SIZE
    }

    predicate ParentOf(s: nat, q: nat) {
      Slot(s) && s < |ch| && Inner(s) && (ch[s] == q || ch[s] == q + 1)
    }

    // The pointer of the pair that slot q belongs to.
    function PairOf(q: nat): nat {
      if q % 2 == 0 then q else q + 1
    }

    lemma PairCount(q: nat)
      requires Valid() && Slot(q) && q > root
      ensures multiset(ch[root..])[PairOf(q)] == 1
    {
      PointersAll(root, PairOf(q));
      assert PairOf(q) !in syms;
    }

    lemma ParentPair(s: nat, q: nat)
      requires Valid() && ParentOf(s, q)
      ensures ch[s] == PairOf(q) && s < q
    {
    }

    lemma HasParent(q: nat)
      requires Valid() && Slot(q) && q > root
      ensures exists s: nat :: ParentOf(s, q)
    {
      PairCount(q);
      assert PairOf(q) in multiset(ch[root..]);
      var k :| 0 <= k < |ch[root..]| && ch[root..][k] == PairOf(q);
      assert ParentOf(root + k, q);
    }

    lemma OneParent(s: nat, s': nat, q: nat)
      requires Valid() && Slot(q) && q > root && ParentOf(s, q) && ParentOf(s', q)
      ensures s == s'
    {
      PairCount(q);
      ParentPair(s, q);
      ParentPair(s', q);
      if s < s' {
        Twice(ch[root..], s - root, s' - root);
      } else if s' < s {
        Twice(ch[root..], s' - root, s - root);
      }
    }

    ghost function Parent(q: nat): (s: nat)
      requires Valid() && Slot(q) && q > root
      ensures ParentOf(s, q) && s < q
    {
      HasParent(q);
      var s: nat :| ParentOf(s, q);
      ParentPair(s, q);
      s
    }

    ghost function Depth(q: nat): (d: nat)
      requires Valid() && Slot(q)
      decreases q
    {
      if q == root then 0 else 1 + Depth(Parent(q))
    }

    lemma EvenRoot()
      requires Valid()
      ensures root % 2 == 0
      ensures forall s: nat :: Slot(s) && Inner(s) ==> s + 2 <= ch[s]
    {
    }

    // Every step down skips a pair.
    lemma {:induction false} DepthBound(q: nat)
      requires Valid() && Slot(q)
      ensures Depth(q) <= (q - root + 1) / 2
      decreases q
    {
      if q > root {
        var s := Parent(q);
        DepthBound(s);
        ParentPair(s, q);
        EvenRoot();
        hide FullTree, ParentOf;
        assert s <= PairOf(q) - 2;
      }
    }

    // The children of an inner slot.
    lemma ChildrenOf(s: nat)
      requires Valid() && Slot(s) && Inner(s)
      ensures s < ch[s] - 1 && Slot(ch[s]) && ch[s] - 1 > root
      ensures Parent(ch[s]) == s && Parent(ch[s] - 1) == s
      ensures Depth(ch[s]) == Depth(s) + 1 && Depth(ch[s] - 1) == Depth(s) + 1
    {
      assert ParentOf(s, ch[s]) && ParentOf(s, ch[s] - 1);
      OneParent(s, Parent(ch[s]), ch[s]);
      OneParent(s, Parent(ch[s] - 1), ch[s] - 1);
    }

    // The leaves below i in the order of their slots.
    ghost function Leaves(i: nat): (ns: seq<Node>)
      requires Valid() && root <= i <= HEAP_TREE_SIZE
      decreases i
    {
      if i == root then []
      else if Inner(i - 1) then Leaves(i - 1)
      else Leaves(i - 1) + [Node(ch[i - 1], Depth(i - 1))]
    }

    lemma LeavesAfter(i: nat)
      requires Valid() && Slot(i)
      ensures Leaves(i + 1) == if Inner(i) then Leaves(i) else Leaves(i) + [Node(ch[i], Depth(i))]
    {
    }

    // Inner slots below i of depth d, and slots of depth d with a parent below i.
    ghost function InnerCount(i: nat, d: nat): nat
      requires Valid() && root <= i <= HEAP_TREE_SIZE
      decreases i
    {
      if i == root then 0
      else InnerCount(i - 1, d) + (if Inner(i - 1) && Depth(i - 1) == d then 1 else 0)
    }

    ghost function Reached(i: nat, d: nat): set<int>
      requires Valid() && root <= i <= HEAP_TREE_SIZE
    {
      set q | root < q < HEAP_TREE_SIZE && Parent(q) < i && Depth(q) == d
    }

    lemma {:induction false} ReachedTwice(i: nat, d: nat)
      requires Valid() && root <= i <= HEAP_TREE_SIZE
      ensures |Reached(i, d + 1)| == 2 * InnerCount(i, d)
      decreases i
    {
      if i == root {
        assert Reached(i, d + 1) == {};
      } else {
        ReachedTwice(i - 1, d);
        ReachedStep(i - 1, d);
      }
    }

    // The slots whose parent is i.
    lemma PairIs(i: nat, q: nat)
      requires Valid() && Slot(i) && root < q < HEAP_TREE_SIZE
      ensures Parent(q) == i <==> Inner(i) && (q == ch[i] - 1 || q == ch[i])
      ensures Parent(q) == i ==> Depth(q) == Depth(i) + 1
    {
      hide FullTree, Depth;
      DepthStep(q);
      if Inner(i) {
        ChildrenOf(i);
      }
    }

    lemma ReachedPair(i: nat, d: nat)
      requires Valid() && Slot(i) && Inner(i) && Depth(i) == d
      ensures Reached(i + 1, d + 1) == Reached(i, d + 1) + {ch[i] - 1, ch[i]}
      ensures Reached(i, d + 1) !! {ch[i] - 1, ch[i]}
    {
      hide FullTree, Depth, ParentOf;
      ChildrenOf(i);
      var before, after := Reached(i, d + 1), Reached(i + 1, d + 1);
      forall q | root < q < HEAP_TREE_SIZE
        ensures q in after <==> q in before || q == ch[i] - 1 || q == ch[i]
      {
        PairIs(i, q);
      }
    }

    lemma ReachedSame(i: nat, d: nat)
      requires Valid() && Slot(i) && !(Inner(i) && Depth(i) == d)
      ensures Reached(i + 1, d + 1) == Reached(i, d + 1)
    {
      hide FullTree, Depth, ParentOf;
      var before, after := Reached(i, d + 1), Reached(i + 1, d + 1);
      forall q | root < q < HEAP_TREE_SIZE ensures q in after <==> q in before {
        PairIs(i, q);
      }
    }

    lemma ReachedStep(i: nat, d: nat)
      requires Valid() && Slot(i)
      ensures |Reached(i + 1, d + 1)| == |Reached(i, d + 1)| + (if Inner(i) && Depth(i) == d then 2 else 0)
    {
      hide FullTree, Depth, Reached, ParentOf;
      if Inner(i) && Depth(i) == d {
        ReachedPair(i, d);
        PairAdded(Reached(i, d + 1), ch[i] - 1, ch[i]);
      } else {
        ReachedSame(i, d);
      }
    }

    ghost function SlotsAt(i: nat, d: nat): set<int>
      requires Valid() && root <= i <= HEAP_TREE_SIZE
    {
      set q | root <= q < i && Depth(q) == d
    }

    ghost function LeafCount(i: nat, d: nat): nat
      requires Valid() && root <= i <= HEAP_TREE_SIZE
    {
      Count(Depths(Leaves(i)), d)
    }

    lemma LeafCountStep(i: nat, d: nat)
      requires Valid() && Slot(i)
      ensures LeafCount(i + 1, d) == LeafCount(i, d) + (if !Inner(i) && Depth(i) == d then 1 else 0)
    {
      hide FullTree, Depth, Leaves, Count;
      LeavesAfter(i);
      if !Inner(i) {
        CountLast(Leaves(i), Node(ch[i], Depth(i)), d);
      }
    }

    lemma NoLeaves(d: nat)
      requires Valid()
      ensures LeafCount(root, d) == 0
    {
    }

    lemma {:induction false} SlotsSplit(i: nat, d: nat)
      requires Valid() && root <= i <= HEAP_TREE_SIZE
      ensures |SlotsAt(i, d)| == LeafCount(i, d) + InnerCount(i, d)
      decreases i
    {
      hide FullTree, Depth, LeafCount;
      if i == root {
        assert SlotsAt(i, d) == {};
        NoLeaves(d);
      } else {
        SlotsSplit(i - 1, d);
        LeafCountStep(i - 1, d);
        assert SlotsAt(i, d) == SlotsAt(i - 1, d) + (if Depth(i - 1) == d then {i - 1} else {});
      }
    }

    lemma {:induction false} LeafLabel(i: nat, x: nat)
      requires Valid() && root <= i <= HEAP_TREE_SIZE
      ensures multiset(Children(Leaves(i)))[x] == if x <= MAX_HISTHEAP_SIZE then multiset(ch[root..i])[x] else 0
      decreases i
    {
      hide FullTree, Depth, Leaves;
      LeavesStep(i);
      if i > root {
        LeafLabel(i - 1, x);
        Snoc(ch[root..i - 1], ch[i - 1], x);
        assert ch[root..i] == ch[root..i - 1] + [ch[i - 1]];
        if !Inner(i - 1) {
          Snoc(Children(Leaves(i - 1)), ch[i - 1], x);
        }
      }
    }

    lemma LeavesStep(i: nat)
      requires Valid() && root <= i <= HEAP_TREE_SIZE
      ensures i == root ==> Children(Leaves(i)) == []
      ensures i > root && Inner(i - 1) ==> Children(Leaves(i)) == Children(Leaves(i - 1))
      ensures i > root && !Inner(i - 1) ==> Children(Leaves(i)) == Children(Leaves(i - 1)) + [ch[i - 1]]
    {
      hide FullTree, Depth;
    }

    // The leaves are the symbols, none twice, and none at the root.
    lemma LeafSymbols()
      requires Valid()
      ensures multiset(Children(Leaves(HEAP_TREE_SIZE))) == multiset(syms)
      ensures |Leaves(HEAP_TREE_SIZE)| == |syms|
    {
      var all := Children(Leaves(HEAP_TREE_SIZE));
      assert ch[root..HEAP_TREE_SIZE] == ch[root..];
      var a: multiset<nat>, b: multiset<nat> := multiset(all), multiset(syms);
      forall x: nat ensures a[x] == b[x] {
        LeafLabel(HEAP_TREE_SIZE, x);
        if x <= MAX_HISTHEAP_SIZE {
          assert x !in Pointers(root);
        } else {
          assert x !in syms;
        }
      }
      assert |multiset(all)| == |all| && |multiset(syms)| == |syms|;
    }

    lemma LeafDeep(q: nat)
      requires Valid() && Slot(q) && !Inner(q)
      ensures 1 <= Depth(q) <= MAX_HISTHEAP_SIZE
    {
      DepthBound(q);
      RootHigh();
    }

    lemma {:induction false} LeafDepth(i: nat, k: nat)
      requires Valid() && root <= i <= HEAP_TREE_SIZE && k < |Leaves(i)|
      ensures 1 <= Leaves(i)[k].depth <= MAX_HISTHEAP_SIZE
      decreases i
    {
      hide FullTree, Depth;
      if !Inner(i - 1) && k == |Leaves(i)| - 1 {
        LeafDeep(i - 1);
      } else {
        LeafDepth(i - 1, k);
      }
    }

    lemma SomeSymbols()
      requires Valid()
      ensures |syms| >= 2
    {
    }

    lemma RootHigh()
      requires Valid()
      ensures root > MAX_HISTHEAP_SIZE && Inner(root)
    {
    }

    lemma RootDepth()
      requires Valid()
      ensures Depth(root) == 0
    {
    }

    // Slots of the next depth are the children of the inner slots of this one.
    lemma NextLevel(d: nat)
      requires Valid()
      ensures LeafCount(HEAP_TREE_SIZE, d + 1) + InnerCount(HEAP_TREE_SIZE, d + 1) == 2 * InnerCount(HEAP_TREE_SIZE, d)
    {
      hide FullTree, Depth, LeafCount, InnerCount;
      ReachedTwice(HEAP_TREE_SIZE, d);
      SlotsSplit(HEAP_TREE_SIZE, d + 1);
      RootDepth();
      var all, reached := SlotsAt(HEAP_TREE_SIZE, d + 1), Reached(HEAP_TREE_SIZE, d + 1);
      assert all == reached;
    }

    lemma {:induction false} OneRoot(i: nat)
      requires Valid() && root < i <= HEAP_TREE_SIZE
      ensures InnerCount(i, 0) == 1
      decreases i
    {
      if i > root + 1 {
        OneRoot(i - 1);
      } else {
        assert InnerCount(root, 0) == 0;
      }
    }

    // The leaves of up to l bits and the inner slots of depth l share out all words of l bits.
    lemma {:induction false} LevelSum(l: nat)
      requires Valid()
      ensures Kraft(Counts(Depths(Leaves(HEAP_TREE_SIZE))), l) + InnerCount(HEAP_TREE_SIZE, l) == Pow2(l)
    {
      if l == 0 {
        OneRoot(HEAP_TREE_SIZE);
      } else {
        LevelSum(l - 1);
        NextLevel(l - 1);
      }
    }

    lemma {:induction false} NoInner(i: nat, d: nat)
      requires Valid() && root <= i <= HEAP_TREE_SIZE && d > MAX_HISTHEAP_SIZE
      ensures InnerCount(i, d) == 0
      decreases i
    {
      if i > root {
        NoInner(i - 1, d);
        DepthBound(i - 1);
      }
    }

    // Two to the depth, times the weight, is the weight of the root.
    lemma {:induction false} WeightHalves(f: seq<nat>, wt: seq<nat>, total: nat, q: nat)
      requires Valid() && Weighted(ch, root, f, wt, total) && Slot(q)
      ensures |wt| == HEAP_TREE_SIZE && wt[q] * Pow2(Depth(q)) == Pow2(total)
      decreases q
    {
      hide FullTree, Depth, Weighted, Pow2;
      RootDepth();
      if q > root {
        DepthStep(q);
        WeightHalves(f, wt, total, Parent(q));
        ParentWeight(f, wt, total, q);
        Doubled(wt[q], Depth(Parent(q)));
      } else {
        RootWeight(f, wt, total);
      }
    }

    lemma DepthStep(q: nat)
      requires Valid() && Slot(q) && q > root
      ensures Slot(Parent(q)) && Depth(q) == Depth(Parent(q)) + 1
    {
    }

    lemma RootWeight(f: seq<nat>, wt: seq<nat>, total: nat)
      requires Valid() && Weighted(ch, root, f, wt, total)
      ensures |wt| == HEAP_TREE_SIZE && wt[root] * Pow2(0) == Pow2(total)
    {
    }

    lemma ParentWeight(f: seq<nat>, wt: seq<nat>, total: nat, q: nat)
      requires Valid() && Weighted(ch, root, f, wt, total) && Slot(q) && q > root
      ensures |wt| == HEAP_TREE_SIZE && wt[Parent(q)] == 2 * wt[q]
    {
      PairWeight(f, wt, q);
      EvenRoot();
      hide FullTree, ParentOf, Depth;
      assert wt[PairOf(q)] == wt[PairOf(q) - 1];
    }

    // A parent weighs what its children do.
    lemma PairWeight(f: seq<nat>, wt: seq<nat>, q: nat)
      requires Valid() && SlotsWeigh(ch, f, wt, root) && Slot(q) && q > root
      ensures |wt| == HEAP_TREE_SIZE && root < PairOf(q) - 1 < PairOf(q) < HEAP_TREE_SIZE
      ensures Parent(q) < PairOf(q) - 1 && wt[Parent(q)] == wt[PairOf(q)] + wt[PairOf(q) - 1]
    {
      EvenRoot();
      var s := Parent(q);
      ParentPair(s, q);
      assert Weighs(f, wt, ch[s], wt[s]);
      hide FullTree;
    }

    lemma {:induction false} LeafWeights(f: seq<nat>, wt: seq<nat>, total: nat, i: nat)
      requires Valid() && Weighted(ch, root, f, wt, total) && root <= i <= HEAP_TREE_SIZE
      ensures DeepAsWeighed(Leaves(i), f, total)
      decreases i
    {
      hide FullTree, Depth, Pow2;
      if i > root {
        LeafWeights(f, wt, total, i - 1);
        LeavesAfter(i - 1);
        if !Inner(i - 1) {
          WeightHalves(f, wt, total, i - 1);
          assert Weighs(f, wt, ch[i - 1], wt[i - 1]);
        }
      }
    }

    // The heavier of two slots is no deeper than the other.
    lemma {:induction false} HeavierHigher(f: seq<nat>, wt: seq<nat>, sum: nat, q: nat, r: nat)
      requires Valid() && GradedTree(ch, root, f, wt, sum) && Slot(q) && Slot(r) && wt[q] > wt[r]
      ensures Depth(q) <= Depth(r)
      decreases q
    {
      hide FullTree, Depth, ParentOf, Weighs;
      RootDepth();
      assert q < r;
      DepthStep(r);
      if q > root {
        DepthStep(q);
        PairWeight(f, wt, q);
        PairWeight(f, wt, r);
        if PairOf(q) == PairOf(r) {
          SamePair(q, r);
        } else {
          HeavierPair(f, wt, sum, q, r);
          HeavierHigher(f, wt, sum, Parent(q), Parent(r));
        }
      }
    }

    lemma SamePair(q: nat, r: nat)
      requires Valid() && Slot(q) && Slot(r) && q > root && r > root && PairOf(q) == PairOf(r)
      ensures Parent(q) == Parent(r)
    {
      ParentPair(Parent(q), q);
      assert ParentOf(Parent(q), r);
      OneParent(Parent(q), Parent(r), r);
    }

    lemma HeavierPair(f: seq<nat>, wt: seq<nat>, sum: nat, q: nat, r: nat)
      requires Valid() && GradedTree(ch, root, f, wt, sum) && Slot(q) && Slot(r) && root < q < r && PairOf(q) != PairOf(r)
      requires PairOf(q) < HEAP_TREE_SIZE && PairOf(r) < HEAP_TREE_SIZE && wt[q] > wt[r]
      ensures wt[PairOf(q)] + wt[PairOf(q) - 1] > wt[PairOf(r)] + wt[PairOf(r) - 1]
    {
      hide FullTree, Weighs;
      assert PairOf(q) <= PairOf(r) - 2;
      var a, b := PairOf(q), PairOf(r);
      assert wt[a] >= wt[b - 1] >= wt[b] && wt[a - 1] >= wt[a];
    }

    // Every step up from slot q adds up the last two weights, like the numbers of Fibonacci.
    lemma {:induction false} HeavyRoot(f: seq<nat>, wt: seq<nat>, sum: nat, q: nat)
      requires Valid() && GradedTree(ch, root, f, wt, sum) && Slot(q) && q > root
      ensures Depth(q) >= 1 && sum >= Fibonacci(Depth(q)) * wt[Parent(q)] + Fibonacci(Depth(q) - 1) * wt[q]
      decreases q
    {
      hide FullTree, Depth, ParentOf, Weighs, Falling;
      RootDepth();
      DepthStep(q);
      var s := Parent(q);
      if s > root {
        DepthStep(s);
        HeavyRoot(f, wt, sum, s);
        GrandWeight(f, wt, sum, q);
        NextFibonacci(Depth(s), wt[Parent(s)], wt[s], wt[q]);
      }
    }

    // A grandparent weighs at least its child and its grandchild together.
    lemma GrandWeight(f: seq<nat>, wt: seq<nat>, sum: nat, q: nat)
      requires Valid() && GradedTree(ch, root, f, wt, sum) && Slot(q) && q > root && Parent(q) > root
      ensures wt[Parent(Parent(q))] >= wt[Parent(q)] + wt[q]
    {
      hide FullTree, Depth, ParentOf, Weighs;
      PairWeight(f, wt, q);
      PairWeight(f, wt, Parent(q));
      EvenRoot();
      PairBefore(q);
    }

    lemma PairBefore(q: nat)
      requires Valid() && Slot(q) && q > root && Parent(q) > root
      ensures PairOf(Parent(q)) <= q
    {
      ParentPair(Parent(q), q);
      EvenRoot();
    }

    lemma {:induction false} SlotPositive(f: seq<nat>, wt: seq<nat>, sum: nat, q: nat)
      requires Valid() && GradedTree(ch, root, f, wt, sum) && Slot(q)
      requires forall x :: x in syms ==> x < |f| && f[x] >= 1
      ensures wt[q] >= 1
      decreases HEAP_TREE_SIZE - q
    {
      if Inner(q) {
        ChildrenOf(q);
        SlotPositive(f, wt, sum, ch[q]);
        PairWeight(f, wt, ch[q]);
      } else {
        LeafWeight(f, wt, q);
        LeafIsSymbol(q);
      }
    }

    lemma LeafIsSymbol(q: nat)
      requires Valid() && Slot(q) && !Inner(q)
      ensures ch[q] in syms
    {
      assert ch[root..][q - root] == ch[q];
      assert ch[q] in multiset(ch[root..]);
      assert ch[q] !in Pointers(root);
    }

    // A leaf of depth d takes frequencies of a sum that grows like the numbers of Fibonacci.
    lemma DeepHeavy(f: seq<nat>, wt: seq<nat>, sum: nat, q: nat)
      requires Valid() && GradedTree(ch, root, f, wt, sum) && Slot(q)
      requires forall x :: x in syms ==> x < |f| && f[x] >= 1
      ensures sum >= Fibonacci(Depth(q) + 2)
    {
      hide FullTree, Depth, ParentOf, Weighs, Falling;
      SlotPositive(f, wt, sum, q);
      RootDepth();
      if q > root {
        DepthStep(q);
        HeavyRoot(f, wt, sum, q);
        PairWeight(f, wt, q);
        SlotPositive(f, wt, sum, PairOf(q));
        SlotPositive(f, wt, sum, PairOf(q) - 1);
        LastFibonacci(Depth(q), wt[Parent(q)], wt[q]);
      }
    }

    // The slot that a leaf comes from.
    lemma {:induction false} LeafSlot(i: nat, k: nat) returns (q: nat)
      requires Valid() && root <= i <= HEAP_TREE_SIZE && k < |Leaves(i)|
      ensures root <= q < i && !Inner(q) && Leaves(i)[k] == Node(ch[q], Depth(q))
      decreases i
    {
      hide FullTree, Depth;
      if !Inner(i - 1) && k == |Leaves(i)| - 1 {
        q := i - 1;
      } else {
        q := LeafSlot(i - 1, k);
      }
    }

    // Of two symbols, the one that is more frequent is no deeper.
    lemma LeavesByWeight(f: seq<nat>, wt: seq<nat>, sum: nat)
      requires Valid() && GradedTree(ch, root, f, wt, sum)
      ensures RareDeep(Leaves(HEAP_TREE_SIZE), f)
    {
      hide FullTree, Depth, Leaves, Falling;
      var ns := Leaves(HEAP_TREE_SIZE);
      forall i, j | 0 <= i < |ns| && 0 <= j < |ns|
        ensures ns[i].child < |f| && ns[j].child < |f|
        ensures f[ns[i].child] > f[ns[j].child] ==> ns[i].depth <= ns[j].depth
      {
        var q := LeafSlot(HEAP_TREE_SIZE, i);
        var r := LeafSlot(HEAP_TREE_SIZE, j);
        LeafWeight(f, wt, q);
        LeafWeight(f, wt, r);
        if wt[q] > wt[r] {
          HeavierHigher(f, wt, sum, q, r);
        }
      }
    }

    lemma LeafWeight(f: seq<nat>, wt: seq<nat>, q: nat)
      requires Valid() && SlotsWeigh(ch, f, wt, root) && Slot(q) && !Inner(q)
      ensures ch[q] < |f| && |wt| == HEAP_TREE_SIZE && wt[q] == f[ch[q]]
    {
      assert Weighs(f, wt, ch[q], wt[q]);
      hide FullTree;
    }

    // In the order of their slots, the symbols get no more frequent.
    lemma {:induction false} LeavesFall(f: seq<nat>, wt: seq<nat>, sum: nat, i: nat)
      requires Valid() && GradedTree(ch, root, f, wt, sum) && root <= i <= HEAP_TREE_SIZE
      ensures FrequentFirst(Leaves(i), f)
      ensures i > root ==> forall k :: 0 <= k < |Leaves(i)| ==> f[Leaves(i)[k].child] >= wt[i - 1]
      decreases i
    {
      hide FullTree, Depth, Weighs;
      if i > root {
        LeavesFall(f, wt, sum, i - 1);
        if !Inner(i - 1) {
          LeafWeight(f, wt, i - 1);
        }
      }
    }

    // Below the deepest leaf the sum is whole.
    lemma KraftWhole(top: nat)
      requires Valid() && forall l :: l > top ==> LeafCount(HEAP_TREE_SIZE, l) == 0
      ensures Kraft(Counts(Depths(Leaves(HEAP_TREE_SIZE))), top) == Pow2(top)
    {
      hide FullTree, Kraft, Count, Depths, Leaves, InnerCount;
      var c := Counts(Depths(Leaves(HEAP_TREE_SIZE)));
      assert forall l: nat :: c(l) == LeafCount(HEAP_TREE_SIZE, l);
      var deep := if top > MAX_HISTHEAP_SIZE then top else MAX_HISTHEAP_SIZE + 1;
      LevelSum(deep);
      NoInner(HEAP_TREE_SIZE, deep);
      KraftDown(c, top, deep);
    }
  }

  lemma {:induction false} KraftDown(c: nat -> nat, low: nat, high: nat)
    requires low <= high && Kraft(c, high) == Pow2(high) && forall l :: low < l <= high ==> c(l) == 0
    ensures Kraft(c, low) == Pow2(low)
  {
    if low < high {
      KraftDown(c, low, high - 1);
    }
  }
}
