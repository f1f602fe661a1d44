/** What the leaves of a tree cost. */
module TreeCost {
  import opened Bags
  import opened HuffTree
  import opened HuffMerge
  import opened TreeShape

  // Frequencies times depths.
  ghost function NodeCost(ns: seq<Node>, f: seq<nat>): nat
    requires Known(ns, f)
  {
    if ns == [] then 0
    else NodeCost(ns[..|ns| - 1], f) + f[ns[|ns| - 1].child] * ns[|ns| - 1].depth
  }

  // The pointers of the inner slots below i.
  ghost function InnerPointers(t: Shape, i: nat): seq<nat>
    requires t.Valid() && t.root <= i <= HEAP_TREE_SIZE
    decreases i
  {
    if i == t.root then []
    else if t.Inner(i - 1) then InnerPointers(t, i - 1) + [t.ch[i - 1]]
    else InnerPointers(t, i - 1)
  }

  lemma {:induction false} InnerPointer(t: Shape, i: nat, x: nat)
    requires t.Valid() && t.root <= i <= HEAP_TREE_SIZE
    ensures multiset(InnerPointers(t, i))[x] == if x > MAX_HISTHEAP_SIZE then multiset(t.ch[t.root..i])[x] else 0
    decreases i
  {
    hide FullTree;
    if i > t.root {
      InnerPointer(t, i - 1, x);
      Snoc(t.ch[t.root..i - 1], t.ch[i - 1], x);
      assert t.ch[t.root..i] == t.ch[t.root..i - 1] + [t.ch[i - 1]];
      if t.Inner(i - 1) {
        Snoc(InnerPointers(t, i - 1), t.ch[i - 1], x);
      }
    }
  }

  // Every pair of slots has its pointer.
  lemma AllPointers(t: Shape)
    requires t.Valid()
    ensures multiset(InnerPointers(t, HEAP_TREE_SIZE)) == multiset(Pointers(t.root))
  {
    assert t.ch[t.root..HEAP_TREE_SIZE] == t.ch[t.root..];
    var a: multiset<nat>, b: multiset<nat> := multiset(InnerPointers(t, HEAP_TREE_SIZE)), multiset(Pointers(t.root));
    forall x: nat ensures a[x] == b[x] {
      InnerPointer(t, HEAP_TREE_SIZE, x);
      if x <= MAX_HISTHEAP_SIZE {
        assert x !in Pointers(t.root);
      } else {
        assert x !in t.syms;
      }
    }
  }

  // The weight of a pair, times the depth of its parent.
  ghost function PairCost(t: Shape, wt: seq<nat>, x: nat): nat {
    if t.Valid() && t.Slot(x) && 1 <= x < |wt| && t.Depth(x) >= 1 then (wt[x] + wt[x - 1]) * (t.Depth(x) - 1) else 0
  }

  ghost function PairCosts(t: Shape, wt: seq<nat>): nat -> nat {
    (x: nat) => PairCost(t, wt, x)
  }

  // The slots below i, weight times depth.
  ghost function Mass(t: Shape, wt: seq<nat>, i: nat): nat
    requires t.Valid() && t.root <= i <= HEAP_TREE_SIZE == |wt|
    decreases i
  {
    if i == t.root then 0 else Mass(t, wt, i - 1) + wt[i - 1] * t.Depth(i - 1)
  }

  lemma PairCostIs(t: Shape, wt: seq<nat>, x: nat, d: nat)
    requires t.Valid() && t.Slot(x) && 1 <= x < |wt| && t.Depth(x) == d + 1
    ensures PairCost(t, wt, x) == (wt[x] + wt[x - 1]) * d
  {
    hide FullTree, Shape.Depth;
  }

  lemma ChildrenWeight(t: Shape, f: seq<nat>, wt: seq<nat>, q: nat)
    requires t.Valid() && SlotsWeigh(t.ch, f, wt, t.root) && t.Slot(q) && t.Inner(q)
    ensures |wt| == HEAP_TREE_SIZE && 1 <= t.ch[q] < |wt| && wt[q] == wt[t.ch[q]] + wt[t.ch[q] - 1]
  {
    assert Weighs(f, wt, t.ch[q], wt[q]);
    hide FullTree;
  }

  lemma InnerCost(t: Shape, f: seq<nat>, wt: seq<nat>, q: nat)
    requires t.Valid() && SlotsWeigh(t.ch, f, wt, t.root) && t.Slot(q) && t.Inner(q)
    ensures |wt| == HEAP_TREE_SIZE && PairCost(t, wt, t.ch[q]) == wt[q] * t.Depth(q)
  {
    hide FullTree, Shape.Depth, SlotsWeigh, PairCost;
    ChildrenWeight(t, f, wt, q);
    t.ChildrenOf(q);
    PairCostIs(t, wt, t.ch[q], t.Depth(q));
  }

  lemma InnerStep(t: Shape, f: seq<nat>, wt: seq<nat>, i: nat)
    requires t.Valid() && SlotsWeigh(t.ch, f, wt, t.root) && t.Slot(i) && t.Inner(i)
    ensures |wt| == HEAP_TREE_SIZE && t.Leaves(i + 1) == t.Leaves(i)
    ensures SumOver(PairCosts(t, wt), InnerPointers(t, i + 1))
         == SumOver(PairCosts(t, wt), InnerPointers(t, i)) + wt[i] * t.Depth(i)
  {
    hide FullTree, Shape.Depth, SlotsWeigh, PairCost, Shape.Leaves, SumOver;
    InnerCost(t, f, wt, i);
    t.LeavesAfter(i);
    SumOverConcat(PairCosts(t, wt), InnerPointers(t, i), [t.ch[i]]);
    SumOverOne(PairCosts(t, wt), t.ch[i]);
  }

  lemma LeafStep(t: Shape, f: seq<nat>, wt: seq<nat>, i: nat)
    requires t.Valid() && SlotsWeigh(t.ch, f, wt, t.root) && t.Slot(i) && !t.Inner(i)
    requires Known(t.Leaves(i), f)
    ensures |wt| == HEAP_TREE_SIZE && InnerPointers(t, i + 1) == InnerPointers(t, i)
    ensures Known(t.Leaves(i + 1), f)
    ensures NodeCost(t.Leaves(i + 1), f) == NodeCost(t.Leaves(i), f) + wt[i] * t.Depth(i)
  {
    hide FullTree, Shape.Depth, SlotsWeigh, Shape.Leaves;
    t.LeavesAfter(i);
    t.LeafWeight(f, wt, i);
    assert t.Leaves(i + 1)[..|t.Leaves(i + 1)| - 1] == t.Leaves(i);
  }

  // Leaves and inner slots make up the mass.
  lemma {:induction false} MassSplit(t: Shape, f: seq<nat>, wt: seq<nat>, i: nat)
    requires t.Valid() && SlotsWeigh(t.ch, f, wt, t.root) && t.root <= i <= HEAP_TREE_SIZE
    ensures |wt| == HEAP_TREE_SIZE && Known(t.Leaves(i), f)
    ensures Mass(t, wt, i) == NodeCost(t.Leaves(i), f) + SumOver(PairCosts(t, wt), InnerPointers(t, i))
    decreases i
  {
    hide FullTree, Shape.Depth, Weighs, PairCosts;
    if i > t.root {
      hide Shape.Leaves, InnerPointers, NodeCost, SumOver;
      MassSplit(t, f, wt, i - 1);
      if t.Inner(i - 1) {
        InnerStep(t, f, wt, i - 1);
      } else {
        LeafStep(t, f, wt, i - 1);
      }
    }
  }

  // A pair is as deep as its parent and one more.
  lemma PairMass(t: Shape, wt: seq<nat>, x: nat)
    requires t.Valid() && |wt| == HEAP_TREE_SIZE && x % 2 == 0 && t.root + 2 <= x < HEAP_TREE_SIZE
    ensures wt[x - 1] * t.Depth(x - 1) + wt[x] * t.Depth(x) == PairCost(t, wt, x) + wt[x - 1] + wt[x]
  {
    t.SamePair(x - 1, x);
    t.DepthStep(x);
    t.DepthStep(x - 1);
    hide FullTree, Shape.Depth, PairCost;
    PairCostIs(t, wt, x, t.Depth(x) - 1);
    Spread(wt[x - 1], wt[x], t.Depth(x));
  }

  lemma Spread(u: nat, v: nat, d: nat)
    requires d >= 1
    ensures u * d + v * d == (v + u) * (d - 1) + u + v
  {
  }

  lemma PointersStep(g: nat -> nat, p: nat)
    requires p < HEAP_TREE_NODE_START && p % 2 == 0
    ensures SumOver(g, Pointers(p)) == g(p + 2) + SumOver(g, Pointers(p + 2))
  {
    hide SumOver;
    var x: nat := p + 2;
    assert Pointers(p) == [x] + Pointers(x);
    SumOverConcat<nat>(g, [x], Pointers(x));
    SumOverOne<nat>(g, x);
  }

  lemma WeightStep(wt: seq<nat>, p: nat)
    requires p + 2 < |wt|
    ensures WeightFrom(wt, p + 1) == wt[p + 1] + wt[p + 2] + WeightFrom(wt, p + 3)
  {
    assert WeightFrom(wt, p + 2) == wt[p + 2] + WeightFrom(wt, p + 3);
  }

  lemma MassStep(t: Shape, wt: seq<nat>, p: nat)
    requires t.Valid() && |wt| == HEAP_TREE_SIZE && p % 2 == 0 && t.root <= p < HEAP_TREE_NODE_START
    ensures Mass(t, wt, p + 3) == Mass(t, wt, p + 1) + PairCost(t, wt, p + 2) + wt[p + 1] + wt[p + 2]
  {
    PairMass(t, wt, p + 2);
    hide FullTree, Shape.Depth, PairCost;
    assert Mass(t, wt, p + 3) == Mass(t, wt, p + 2) + wt[p + 2] * t.Depth(p + 2);
  }

  // The mass, pair by pair.
  lemma {:induction false} MassPairs(t: Shape, wt: seq<nat>, p: nat)
    requires t.Valid() && |wt| == HEAP_TREE_SIZE && p % 2 == 0 && t.root <= p <= HEAP_TREE_NODE_START
    ensures Mass(t, wt, HEAP_TREE_SIZE)
         == Mass(t, wt, p + 1) + SumOver(PairCosts(t, wt), Pointers(p)) + WeightFrom(wt, p + 1)
    decreases HEAP_TREE_NODE_START - p
  {
    hide FullTree, Shape.Depth, PairCost, Mass;
    if p == HEAP_TREE_NODE_START {
      assert Pointers(p) == [];
    } else {
      hide SumOver, Pointers, WeightFrom;
      MassPairs(t, wt, p + 2);
      MassStep(t, wt, p);
      PointersStep(PairCosts(t, wt), p);
      WeightStep(wt, p);
    }
  }

  // What the leaves cost is what the merges cost.
  lemma LeafCost(t: Shape, f: seq<nat>, wt: seq<nat>)
    requires t.Valid() && SlotsWeigh(t.ch, f, wt, t.root)
    ensures Known(t.Leaves(HEAP_TREE_SIZE), f)
    ensures NodeCost(t.Leaves(HEAP_TREE_SIZE), f) == WeightFrom(wt, t.root + 1)
  {
    t.EvenRoot();
    t.RootDepth();
    hide FullTree, Shape.Depth, Shape.Leaves, Weighs, PairCost, SumOver, Pointers, InnerPointers, WeightFrom;
    MassSplit(t, f, wt, HEAP_TREE_SIZE);
    MassPairs(t, wt, t.root);
    AllPointers(t);
    SameSum(PairCosts(t, wt), InnerPointers(t, HEAP_TREE_SIZE), Pointers(t.root));
    assert Mass(t, wt, t.root + 1) == 0;
  }
}
