/** fix_code_lens: the code lengths of a tree. */
module CodeLens {
  import opened Counters
  import opened Rfc1951
  import opened Canonical
  import opened HuffCodes
  import opened HuffTree
  import opened TreeShape
  import opened LimitLengths

  // ---- the walk over the tree ----

  // Slots below i are walked over; their leaves have moved to the slots from the root to j.
  ghost predicate Walked(ns: seq<Node>, t: Shape, i: nat, j: nat) {
    && t.Valid() && |ns| == HEAP_TREE_SIZE && t.root <= i <= HEAP_TREE_SIZE
    && j == t.root + |t.Leaves(i)| <= i && ns[t.root..j] == t.Leaves(i)
    && (forall q :: i <= q < HEAP_TREE_SIZE ==> ns[q].child == t.ch[q])
    && (forall q :: i <= q < HEAP_TREE_SIZE ==>
          (q == t.root || t.Parent(q) < i) ==> ns[q].depth == t.Depth(q))
  }

  lemma WalkStart(ns: seq<Node>, t: Shape)
    requires t.Valid() && |ns| == HEAP_TREE_SIZE && Children(ns) == t.ch && ns[t.root].depth == 0
    ensures Walked(ns, t, t.root, t.root)
  {
  }

  lemma WalkReads(ns: seq<Node>, t: Shape, i: nat, j: nat)
    requires Walked(ns, t, i, j) && i < HEAP_TREE_SIZE
    ensures t.Valid() && t.Slot(i) && ns[i] == Node(t.ch[i], t.Depth(i)) && t.root <= j <= i
  {
    hide FullTree;
  }

  function DepthSet(ns: seq<Node>, c: nat, d: nat): seq<Node>
    requires 1 <= c < |ns|
  {
    var ns' := ns[c := ns[c].(depth := d)];
    ns'[c - 1 := ns'[c - 1].(depth := d)]
  }

  lemma DepthSetAt(ns: seq<Node>, c: nat, d: nat)
    requires 1 <= c < |ns|
    ensures |DepthSet(ns, c, d)| == |ns|
    ensures forall q :: 0 <= q < |ns| ==> DepthSet(ns, c, d)[q].child == ns[q].child
    ensures forall q :: 0 <= q < |ns| && q != c && q != c - 1 ==> DepthSet(ns, c, d)[q] == ns[q]
    ensures DepthSet(ns, c, d)[c].depth == d && DepthSet(ns, c, d)[c - 1].depth == d
  {
  }

  lemma WalkInner(ns: seq<Node>, t: Shape, i: nat, j: nat)
    requires Walked(ns, t, i, j) && i < HEAP_TREE_SIZE && t.Inner(i)
    ensures i + 2 <= t.ch[i] < HEAP_TREE_SIZE && t.Slot(i)
    ensures Walked(DepthSet(ns, t.ch[i], 1 + t.Depth(i)), t, i + 1, j)
  {
    hide FullTree, Shape.Depth, Shape.Leaves;
    t.ChildrenOf(i);
    t.EvenRoot();
    t.LeavesAfter(i);
    DepthSetAt(ns, t.ch[i], 1 + t.Depth(i));
    var ns' := DepthSet(ns, t.ch[i], 1 + t.Depth(i));
    hide DepthSet;
    assert ns'[t.root..j] == ns[t.root..j];
    forall q | i + 1 <= q < HEAP_TREE_SIZE && t.Parent(q) < i + 1
      ensures ns'[q].depth == t.Depth(q)
    {
      t.PairIs(i, q);
    }
  }

  lemma WalkLeaf(ns: seq<Node>, t: Shape, i: nat, j: nat)
    requires Walked(ns, t, i, j) && i < HEAP_TREE_SIZE && !t.Inner(i)
    ensures Walked(ns[j := ns[i]], t, i + 1, j + 1)
  {
    hide FullTree, Shape.Depth, Shape.Leaves;
    WalkReads(ns, t, i, j);
    t.LeavesAfter(i);
    var ns' := ns[j := ns[i]];
    assert ns'[t.root..j + 1] == ns[t.root..j] + [ns[i]];
    forall q | i + 1 <= q < HEAP_TREE_SIZE && t.Parent(q) < i + 1
      ensures ns'[q].depth == t.Depth(q)
    {
      t.PairIs(i, q);
    }
  }

  // code_len_count of the leaves below i, none of them deeper than code_len.
  ghost predicate Tallied(count: seq<nat>, t: Shape, i: nat, codeLen: nat) {
    && t.Valid() && t.root <= i <= HEAP_TREE_SIZE && codeLen <= MAX_HISTHEAP_SIZE < |count|
    && (forall l :: 1 <= l <= codeLen ==> count[l] == t.LeafCount(i, l))
    && (forall l: nat :: l > codeLen ==> t.LeafCount(i, l) == 0)
    && (codeLen > 0 ==> count[codeLen] > 0)
  }

  lemma TallyStart(count: seq<nat>, t: Shape)
    requires t.Valid() && |count| > MAX_HISTHEAP_SIZE
    ensures Tallied(count, t, t.root, 0)
  {
  }

  lemma TallyInner(count: seq<nat>, t: Shape, i: nat, codeLen: nat)
    requires Tallied(count, t, i, codeLen) && i < HEAP_TREE_SIZE && t.Inner(i)
    ensures Tallied(count, t, i + 1, codeLen)
  {
    hide FullTree, Shape.LeafCount;
    var next := i + 1;
    forall l: nat ensures t.LeafCount(next, l) == t.LeafCount(i, l) {
      t.LeafCountStep(i, l);
    }
  }

  // Zeros from the old greatest depth up to the depth of the new leaf.
  ghost predicate Stretched(count: seq<nat>, before: seq<nat>, codeLen: nat, top: nat) {
    && |count| == |before| && codeLen <= top < |count|
    && (forall l :: 0 <= l <= codeLen ==> count[l] == before[l])
    && (forall l :: codeLen < l <= top ==> count[l] == 0)
  }

  lemma TallyLeaf(before: seq<nat>, count: seq<nat>, t: Shape, i: nat, codeLen: nat, top: nat, d: nat)
    requires Tallied(before, t, i, codeLen) && i < HEAP_TREE_SIZE && !t.Inner(i) && d == t.Depth(i)
    requires Stretched(count, before, codeLen, top) && top == if d > codeLen then d else codeLen
    ensures 1 <= d <= MAX_HISTHEAP_SIZE
    ensures Tallied(count[d := count[d] + 1], t, i + 1, top)
  {
    hide FullTree, Shape.LeafCount, Shape.Depth;
    t.LeafDeep(i);
    var next := i + 1;
    forall l: nat ensures t.LeafCount(next, l) == t.LeafCount(i, l) + (if d == l then 1 else 0) {
      t.LeafCountStep(i, l);
    }
  }

  // tree[child].depth and tree[child - 1].depth
  method SetDepths(tree: array<Node>, child: nat, depth: nat)
    requires 1 <= child < tree.Length
    modifies tree
    ensures tree[..] == DepthSet(old(tree[..]), child, depth)
  {
    tree[child] := tree[child].(depth := depth);
    tree[child - 1] := tree[child - 1].(depth := depth);
  }

  method MoveNode(tree: array<Node>, j: nat, i: nat)
    requires j <= i < tree.Length
    modifies tree
    ensures tree[..] == old(tree[..])[j := old(tree[i])] && tree[i] == old(tree[i])
  {
    tree[j] := tree[i];
  }

  // while (code_len < depth) code_len_count[++code_len] = 0
  method Stretch(count: array<nat>, codeLen: nat, depth: nat) returns (top: nat)
    requires codeLen < count.Length && depth < count.Length
    modifies count
    ensures top == if depth > codeLen then depth else codeLen
    ensures Stretched(count[..], old(count[..]), codeLen, top)
  {
    top := codeLen;
    while top < depth
      invariant codeLen <= top && (top <= depth || top == codeLen)
      invariant Stretched(count[..], old(count[..]), codeLen, top)
    {
      top := top + 1;
      count[top] := 0;
    }
  }

  // The first loop of fix_code_lens: depths, the leaves moved together, and their lengths counted.
  method WalkTree(tree: array<Node>, root: nat, count: array<nat>, ghost t: Shape) returns (j: nat, codeLen: nat)
    requires tree.Length == HEAP_TREE_SIZE == count.Length
    requires t.Valid() && t.root == root && Children(tree[..]) == t.ch && tree[root].depth == 0
    modifies tree, count
    ensures Walked(tree[..], t, HEAP_TREE_SIZE, j) && Tallied(count[..], t, HEAP_TREE_SIZE, codeLen)
  {
    hide Walked, Tallied, Stretched, DepthSet, FullTree, Children;
    j, codeLen := root, 0;
    WalkStart(tree[..], t);
    TallyStart(count[..], t);
    for i := root to HEAP_TREE_SIZE
      invariant Walked(tree[..], t, i, j) && Tallied(count[..], t, i, codeLen) && codeLen < HEAP_TREE_SIZE
    {
      WalkReads(tree[..], t, i, j);
      var child := tree[i].child;
      if child > MAX_HISTHEAP_SIZE {
        WalkInner(tree[..], t, i, j);
        TallyInner(count[..], t, i, codeLen);
        SetDepths(tree, child, 1 + tree[i].depth);
      } else {
        WalkLeaf(tree[..], t, i, j);
        t.LeafDeep(i);
        MoveNode(tree, j, i);
        j := j + 1;
        var depth := tree[i].depth;
        ghost var before := count[..];
        var top := Stretch(count, codeLen, depth);
        TallyLeaf(before, count[..], t, i, codeLen, top, depth);
        Increment(count, depth);
        codeLen := top;
      }
    }
  }

  // ---- the limit ----

  // A complete code of n symbols whose longest codes have codeLen bits.
  ghost predicate Complete(count: seq<nat>, codeLen: nat, n: nat) {
    && 1 <= codeLen < |count| && count[codeLen] > 0
    && KraftOf(count, codeLen) == Pow2(codeLen) && Total(count, codeLen) == n
  }

  // The search for the longest length below max_code_len that has a code; 0 for none.
  method ShorterLength(count: array<nat>, max: nat) returns (i: nat)
    requires 1 <= max <= count.Length
    ensures i < max && (i > 0 ==> count[i] != 0)
    ensures forall l :: i < l < max ==> count[l] == 0
  {
    i := max - 1;
    while i != 0 && count[i] == 0
      invariant i < max && forall l :: i < l < max ==> count[l] == 0
    {
      i := i - 1;
    }
  }

  // The four updates of the limiting loop.
  method ShortenOne(count: array<nat>, i: nat, codeLen: nat)
    requires 1 <= i && i + 1 < codeLen < count.Length && count[i] >= 1 && count[codeLen] >= 2
    modifies count
    ensures count[..] == Shortened(old(count[..]), i, codeLen)
  {
    count[i] := count[i] - 1;
    count[i + 1] := count[i + 1] + 2;
    count[codeLen - 1] := count[codeLen - 1] + 1;
    count[codeLen] := count[codeLen] - 2;
  }

  lemma ShortenedCode(s: seq<nat>, i: nat, top: nat, n: nat)
    requires Complete(s, top, n) && 1 <= i && i + 1 < top && s[i] >= 1 && s[top] >= 2
    ensures Shortened(s, i, top)[top] < s[top]
    ensures Complete(Shortened(s, i, top), if Shortened(s, i, top)[top] == 0 then top - 1 else top, n)
  {
    hide Kraft;
    ShortenedKeeps(s, i, top);
    var r := Shortened(s, i, top);
    assert r[top] == s[top] - 2 && r[top - 1] > 0;
    KraftLast(r, top);
  }

  lemma KraftLast(s: seq<nat>, l: nat)
    requires 1 <= l < |s|
    ensures KraftOf(s, l) == 2 * KraftOf(s, l - 1) + s[l] && Total(s, l) == Total(s, l - 1) + s[l]
    ensures Pow2(l) == 2 * Pow2(l - 1)
  {
  }

  lemma CompleteMeans(s: seq<nat>, top: nat, n: nat)
    requires Complete(s, top, n)
    ensures 1 <= top < |s| && s[top] >= 2 && n <= Pow2(top)
  {
    LongestPaired(s, top);
    TotalBound(s, top);
  }

  // The limiting loop. Its second assertion, that a shorter code exists, fails in the end just when
  // there are more symbols than words of max bits; its first never fails.
  method LimitCounts(count: array<nat>, top: nat, max: nat, ghost n: nat) returns (codeLen: nat, ok: bool)
    requires 1 <= max && Complete(count[..], top, n)
    modifies count
    ensures ok <==> n <= Pow2(max)
    ensures ok ==> codeLen <= max && Complete(count[..], codeLen, n)
    ensures top <= max ==> ok && codeLen == top && count[..] == old(count[..])
    ensures top < count.Length && Limited(old(count[..]), top, max) == if ok then Some((count[..], codeLen)) else None
  {
    hide Complete, Shortened, Pow2, Limited, LongestBelow;
    codeLen := top;
    CompleteMeans(count[..], codeLen, n);
    while codeLen > max
      invariant Complete(count[..], codeLen, n) && codeLen < count.Length
      invariant top <= max ==> codeLen == top && count[..] == old(count[..])
      invariant top < count.Length && Limited(old(count[..]), top, max) == Limited(count[..], codeLen, max)
      decreases codeLen, if codeLen < count.Length then count[codeLen] else 0
    {
      CompleteMeans(count[..], codeLen, n);
      assert count[codeLen] > 1;
      var i := ShorterLength(count, max);
      LimitedStep(count[..], codeLen, max, i);
      if i == 0 {
        NoShorter(count[..], max, codeLen, n);
        return codeLen, false;
      }
      ShortenedCode(count[..], i, codeLen, n);
      ShortenOne(count, i, codeLen);
      if count[codeLen] == 0 {
        codeLen := codeLen - 1;
      }
    }
    CompleteMeans(count[..], codeLen, n);
    Pow2Monotone(codeLen, max);
    LimitedDone(count[..], codeLen, max);
    ok := true;
  }

  lemma LimitedStep(s: seq<nat>, top: nat, max: nat, i: nat)
    requires 1 <= max < top < |s| && s[top] >= 2 && i < max && (i > 0 ==> s[i] > 0)
    requires forall l :: i < l < max ==> s[l] == 0
    ensures i == 0 ==> Limited(s, top, max) == None
    ensures
      i > 0 ==>
        var r := Shortened(s, i, top);
        Limited(s, top, max) == if r[top] == 0 then Limited(r, top - 1, max) else Limited(r, top, max)
  {
    assert LongestBelow(s, max) == i;
  }

  lemma LimitedDone(s: seq<nat>, top: nat, max: nat)
    requires 1 <= max && top <= max && top < |s|
    ensures Limited(s, top, max) == Some((s, top))
  {
  }

  lemma NoShorter(s: seq<nat>, max: nat, top: nat, n: nat)
    requires Complete(s, top, n) && 1 <= max < top && forall l :: 1 <= l < max ==> s[l] == 0
    ensures n > Pow2(max)
  {
    if n <= Pow2(max) {
      ShorterCode(s, max, top);
    }
  }

  // ---- handing out the limited lengths ----

  ghost predicate Rising(ds: seq<nat>) {
    forall i, j :: 0 <= i < j < |ds| ==> ds[i] <= ds[j]
  }

  // Lengths ds are dealt from orig, none above k; count is left, and nothing of it below k.
  ghost predicate Dealt(ds: seq<nat>, count: seq<nat>, orig: seq<nat>, codeLen: nat, k: nat) {
    && codeLen < |count| == |orig| && 1 <= k
    && (forall l :: 1 <= l <= codeLen ==> Count(ds, l) + count[l] == orig[l])
    && (forall i :: 0 <= i < |ds| ==> 1 <= ds[i] <= codeLen)
    && (forall l :: 1 <= l < k && l <= codeLen ==> count[l] == 0)
    && Rising(ds) && (forall i :: 0 <= i < |ds| ==> ds[i] <= k)
  }

  lemma DealtStart(count: seq<nat>, codeLen: nat)
    requires codeLen < |count|
    ensures Dealt([], count, count, codeLen, 1)
  {
  }

  lemma DealtStep(ds: seq<nat>, count: seq<nat>, orig: seq<nat>, codeLen: nat, k: nat)
    requires Dealt(ds, count, orig, codeLen, k) && k <= codeLen && count[k] > 0
    ensures Dealt(ds + [k], count[k := count[k] - 1], orig, codeLen, k)
    ensures Total(count[k := count[k] - 1], codeLen) == Total(count, codeLen) - 1
  {
    KraftUpdate(count, k, count[k] - 1, codeLen);
    var ds' := ds + [k];
    assert ds'[..|ds'| - 1] == ds;
  }

  lemma DealtLeft(ds: seq<nat>, count: seq<nat>, orig: seq<nat>, codeLen: nat, k: nat)
    requires Dealt(ds, count, orig, codeLen, k) && Total(count, codeLen) > 0
    ensures k <= codeLen < |count|
  {
    if k > codeLen {
      NoShortCodes(count, codeLen);
    }
  }

  lemma DealtAll(ds: seq<nat>, count: seq<nat>, orig: seq<nat>, codeLen: nat, k: nat)
    requires Dealt(ds, count, orig, codeLen, k) && Total(count, codeLen) == 0
    ensures LengthsCounted(ds, orig, codeLen) && Rising(ds)
  {
    forall l | 1 <= l <= codeLen ensures count[l] == 0 {
      NoneLeft(count, codeLen, l);
    }
  }

  lemma {:induction false} NoneLeft(count: seq<nat>, codeLen: nat, l: nat)
    requires 1 <= l <= codeLen < |count| && Total(count, codeLen) == 0
    ensures count[l] == 0
  {
    if l < codeLen {
      NoneLeft(count, codeLen - 1, l);
    }
  }

  // count[l] of the lengths are l, for l from 1 to codeLen, and they have no other length.
  ghost predicate LengthsCounted(ds: seq<nat>, count: seq<nat>, codeLen: nat) {
    && codeLen < |count|
    && (forall l :: 1 <= l <= codeLen ==> Count(ds, l) == count[l])
    && (forall i :: 0 <= i < |ds| ==> 1 <= ds[i] <= codeLen)
  }

  // for (; code_len_count[k] == 0; k++), stopped at code_len
  method SkipEmpty(count: array<nat>, codeLen: nat, from: nat, ghost ds: seq<nat>, ghost orig: seq<nat>) returns (k: nat)
    requires Dealt(ds, count[..], orig, codeLen, from)
    ensures Dealt(ds, count[..], orig, codeLen, k)
    ensures k > codeLen || count[k] > 0
  {
    k := from;
    while k <= codeLen && count[k] == 0
      invariant Dealt(ds, count[..], orig, codeLen, k)
    {
      k := k + 1;
    }
  }

  method SetDepth(tree: array<Node>, i: nat, k: nat)
    requires i < tree.Length
    modifies tree
    ensures Children(tree[..]) == old(Children(tree[..]))
    ensures tree[i].depth == k && forall q :: 0 <= q < tree.Length && q != i ==> tree[q] == old(tree[q])
  {
    tree[i] := tree[i].(depth := k);
  }

  method TakeOne(count: array<nat>, k: nat)
    requires k < count.Length && count[k] > 0
    modifies count
    ensures count[..] == old(count[..])[k := old(count[k]) - 1]
  {
    count[k] := count[k] - 1;
  }

  // The leaves get the lengths in increasing order.
  method DealLengths(tree: array<Node>, root: nat, j: nat, count: array<nat>, codeLen: nat)
    requires root <= j <= tree.Length && codeLen < count.Length && Total(count[..], codeLen) == j - root
    modifies tree, count
    ensures Children(tree[..]) == old(Children(tree[..]))
    ensures LengthsCounted(Depths(tree[root..j]), old(count[..]), codeLen) && Rising(Depths(tree[root..j]))
  {
    hide Dealt, LengthsCounted, Total, Children;
    ghost var orig := count[..];
    DealtStart(orig, codeLen);
    var k := SkipEmpty(count, codeLen, 1, [], orig);
    assert Depths(tree[root..root]) == [];
    for i := root to j
      invariant Dealt(Depths(tree[root..i]), count[..], orig, codeLen, k)
      invariant k > codeLen || count[k] > 0
      invariant Total(count[..], codeLen) == j - i
      invariant Children(tree[..]) == old(Children(tree[..]))
    {
      ghost var ds := Depths(tree[root..i]);
      DealtLeft(ds, count[..], orig, codeLen, k);
      DealtStep(ds, count[..], orig, codeLen, k);
      SetDepth(tree, i, k);
      assert Depths(tree[root..i + 1]) == ds + [k];
      TakeOne(count, k);
      k := SkipEmpty(count, codeLen, k, ds + [k], orig);
    }
    DealtAll(Depths(tree[root..j]), count[..], orig, codeLen, k);
  }

  // bl_count up to max_code_len; the entries above stay as they were.
  method CopyCounts(count: array<nat>, codeLen: nat, blCount: array<nat>, max: nat)
    requires codeLen <= max < blCount.Length && codeLen < count.Length && count != blCount
    modifies blCount
    ensures blCount[0] == 0
    ensures forall l :: 1 <= l <= max ==> blCount[l] == if l <= codeLen then count[l] else 0
  {
    blCount[0] := 0;
    for i := 1 to codeLen + 1
      invariant blCount[0] == 0 && forall l :: 1 <= l < i ==> blCount[l] == count[l]
    {
      blCount[i] := count[i];
    }
    for i := codeLen + 1 to max + 1
      invariant blCount[0] == 0
      invariant forall l :: 1 <= l < i ==> blCount[l] == if l <= codeLen then count[l] else 0
    {
      blCount[i] := 0;
    }
  }

  // ---- fix_code_lens ----

  // The symbols' code lengths: a complete prefix code within max bits, counted in bl_count.
  ghost predicate LimitedCode(ns: seq<Node>, blCount: seq<nat>, max: nat, syms: seq<nat>) {
    && 1 <= max < |blCount| && blCount[0] == 0
    && multiset(Children(ns)) == multiset(syms)
    && LengthsCounted(Depths(ns), blCount, max)
    && Kraft(Counts(Depths(ns)), max) == Pow2(max)
  }

  lemma {:induction false} TotalOfLengths(ds: seq<nat>, s: seq<nat>, top: nat)
    requires LengthsCounted(ds, s, top)
    ensures Total(s, top) == |ds|
    decreases |ds|
  {
    if ds == [] {
      NoneCounted(s, top);
    } else {
      var rest, d := ds[..|ds| - 1], ds[|ds| - 1];
      var s' := s[d := Count(rest, d)];
      TotalOfLengths(rest, s', top);
      KraftUpdate(s, d, Count(rest, d), top);
    }
  }

  lemma {:induction false} NoneCounted(s: seq<nat>, l: nat)
    requires l < |s| && forall i :: 1 <= i <= l ==> s[i] == 0
    ensures Total(s, l) == 0
  {
    if l > 0 {
      NoneCounted(s, l - 1);
    }
  }

  lemma {:induction false} CountZero(ds: seq<nat>, l: nat)
    requires forall i :: 0 <= i < |ds| ==> ds[i] != l
    ensures Count(ds, l) == 0
  {
    if ds != [] {
      CountZero(ds[..|ds| - 1], l);
    }
  }

  lemma {:induction false} KraftUp(c: nat -> nat, low: nat, high: nat)
    requires low <= high && Kraft(c, low) == Pow2(low) && forall l :: low < l <= high ==> c(l) == 0
    ensures Kraft(c, high) == Pow2(high)
  {
    if low < high {
      KraftUp(c, low, high - 1);
    }
  }

  // The counts of the leaves are a complete code.
  lemma TreeComplete(count: seq<nat>, t: Shape, codeLen: nat)
    requires Tallied(count, t, HEAP_TREE_SIZE, codeLen)
    ensures LengthsCounted(Depths(t.Leaves(HEAP_TREE_SIZE)), count, codeLen)
    ensures Complete(count, codeLen, |t.syms|)
  {
    hide FullTree, Kraft, Total, Count, Shape.Leaves;
    var ds := Depths(t.Leaves(HEAP_TREE_SIZE));
    t.LeafSymbols();
    t.SomeSymbols();
    forall i | 0 <= i < |ds| ensures 1 <= ds[i] <= codeLen {
      t.LeafDepth(HEAP_TREE_SIZE, i);
      Counted(ds, i);
      assert t.LeafCount(HEAP_TREE_SIZE, ds[i]) > 0;
    }
    assert ds[0] <= codeLen;
    t.KraftWhole(codeLen);
    KraftSame(At(count), Counts(ds), codeLen);
    TotalOfLengths(ds, count, codeLen);
  }

  lemma Counted(ds: seq<nat>, i: nat)
    requires i < |ds|
    ensures Count(ds, ds[i]) > 0
  {
    CountSplit(ds, i, ds[i]);
  }

  lemma LimitedComplete(ns: seq<Node>, count: seq<nat>, codeLen: nat, blCount: seq<nat>, max: nat, syms: seq<nat>)
    requires LengthsCounted(Depths(ns), count, codeLen) && Complete(count, codeLen, |syms|) && codeLen <= max < |blCount|
    requires multiset(Children(ns)) == multiset(syms) && blCount[0] == 0
    requires forall l :: 1 <= l <= max ==> blCount[l] == if l <= codeLen then count[l] else 0
    ensures LimitedCode(ns, blCount, max, syms)
  {
    hide Kraft, Total, Count, Children, Depths;
    var ds := Depths(ns);
    forall l: nat | l > codeLen ensures Count(ds, l) == 0 {
      CountZero(ds, l);
    }
    KraftSame(At(count), Counts(ds), codeLen);
    KraftUp(Counts(ds), codeLen, max);
  }

  lemma WalkDone(ns: seq<Node>, t: Shape, j: nat)
    requires Walked(ns, t, HEAP_TREE_SIZE, j)
    ensures t.root <= j <= |ns| && ns[t.root..j] == t.Leaves(HEAP_TREE_SIZE) && j - t.root == |t.syms|
    ensures multiset(Children(t.Leaves(HEAP_TREE_SIZE))) == multiset(t.syms)
  {
    t.LeafSymbols();
  }

  lemma LongestLeaf(leaves: seq<Node>, count: seq<nat>, codeLen: nat, n: nat)
    requires LengthsCounted(Depths(leaves), count, codeLen) && Complete(count, codeLen, n)
    ensures exists i :: 0 <= i < |leaves| && leaves[i].depth == codeLen
  {
    if forall i :: 0 <= i < |leaves| ==> leaves[i].depth != codeLen {
      CountZero(Depths(leaves), codeLen);
    }
  }

  lemma CompleteSum(s: seq<nat>, top: nat, n: nat)
    requires Complete(s, top, n)
    ensures top < |s| && Total(s, top) == n
  {
  }

  lemma SameChildren(leaves: seq<Node>, before: seq<Node>, after: seq<Node>, root: nat, j: nat)
    requires root <= j <= |before| && before[root..j] == leaves && Children(after) == Children(before)
    ensures |after| == |before| && Children(after[root..j]) == Children(leaves)
  {
    assert Children(after[root..j]) == Children(after)[root..j];
    assert Children(before[root..j]) == Children(before)[root..j];
  }

  // The leaves in their order, with lengths that rise.
  ghost predicate Redealt(ns: seq<Node>, leaves: seq<Node>) {
    Children(ns) == Children(leaves) && Rising(Depths(ns))
  }

  // How many leaves of the tree have each depth up to top.
  ghost function TreeCounts(t: Shape, top: nat): (c: seq<nat>)
    requires t.Valid()
    ensures |c| == top + 1
  {
    seq(top + 1, (l: nat) => t.LeafCount(HEAP_TREE_SIZE, l))
  }

  // bl_count has these numbers, limited, for the deepest leaves of depth top.
  ghost predicate LimitedTree(blCount: seq<nat>, t: Shape, top: nat, max: nat)
    requires t.Valid()
  {
    && 1 <= max < |blCount| && t.LeafCount(HEAP_TREE_SIZE, top) > 0
    && (forall l: nat :: l > top ==> t.LeafCount(HEAP_TREE_SIZE, l) == 0)
    && Limited(TreeCounts(t, top), top, max).Some?
    && var (s, codeLen) := Limited(TreeCounts(t, top), top, max).value;
       forall l :: 1 <= l <= max ==> blCount[l] == if l <= codeLen then s[l] else 0
  }

  lemma CountsLimited(before: seq<nat>, count: seq<nat>, codeLen: nat, blCount: seq<nat>, t: Shape, top: nat, max: nat)
    requires Tallied(before, t, HEAP_TREE_SIZE, top) && top > 0 && 1 <= max < |blCount|
    requires Limited(before, top, max) == Some((count, codeLen))
    requires forall l :: 1 <= l <= max ==> blCount[l] == if l <= codeLen then count[l] else 0
    ensures t.Valid() && LimitedTree(blCount, t, top, max)
  {
    hide FullTree, Shape.LeafCount;
    LimitedSame(before, TreeCounts(t, top), top, max);
    hide Limited;
  }

  lemma TallyPositive(count: seq<nat>, t: Shape, codeLen: nat, n: nat)
    requires Tallied(count, t, HEAP_TREE_SIZE, codeLen) && Complete(count, codeLen, n)
    ensures codeLen > 0 && t.Valid()
  {
  }

  // fix_code_lens: fails just when there are more symbols than words of max_code_len bits.
  method FixCodeLens(tree: array<Node>, root: nat, count: array<nat>, blCount: array<nat>, max: nat, ghost t: Shape)
    returns (j: nat, ok: bool)
    requires tree.Length == HEAP_TREE_SIZE == count.Length && count != blCount && 1 <= max < blCount.Length
    requires t.Valid() && t.root == root && Children(tree[..]) == t.ch && tree[root].depth == 0
    modifies tree, count, blCount
    ensures ok <==> |t.syms| <= Pow2(max)
    ensures root <= j <= tree.Length && j - root == |t.syms|
    ensures ok ==> LimitedCode(tree[root..j], blCount[..], max, t.syms)
    ensures ok ==> exists top: nat :: LimitedTree(blCount[..], t, top, max)
    // a tree within the limit keeps its depths
    ensures (forall i :: 0 <= i < |t.Leaves(HEAP_TREE_SIZE)| ==> t.Leaves(HEAP_TREE_SIZE)[i].depth <= max)
        ==> ok && tree[root..j] == t.Leaves(HEAP_TREE_SIZE)
    // and other leaves keep their order and get their lengths in increasing order
    ensures ok ==> tree[root..j] == t.Leaves(HEAP_TREE_SIZE) || Redealt(tree[root..j], t.Leaves(HEAP_TREE_SIZE))
  {
    hide Walked, Tallied, FullTree, Children, Complete, LengthsCounted, Pow2, Shape.Leaves, LimitedCode,
      Rising, LimitedTree, Limited;
    var codeLen;
    j, codeLen := WalkTree(tree, root, count, t);
    WalkDone(tree[..], t, j);
    TreeComplete(count[..], t, codeLen);
    TallyPositive(count[..], t, codeLen, |t.syms|);
    ghost var top, tallies := codeLen, count[..];
    ghost var leaves := t.Leaves(HEAP_TREE_SIZE);
    LongestLeaf(leaves, count[..], codeLen, |t.syms|);
    var limited := codeLen > max;
    codeLen, ok := LimitCounts(count, codeLen, max, |t.syms|);
    if ok {
      CompleteSum(count[..], codeLen, |t.syms|);
      CopyCounts(count, codeLen, blCount, max);
      ghost var dealt := count[..];
      CountsLimited(tallies, dealt, codeLen, blCount[..], t, top, max);
      if limited {
        ghost var before := tree[..];
        DealLengths(tree, root, j, count, codeLen);
        SameChildren(leaves, before, tree[..], root, j);
      }
      LimitedComplete(tree[root..j], dealt, codeLen, blCount[..], max, t.syms);
    }
  }
}
