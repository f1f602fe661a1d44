/** build_huff_tree: merging the two least words of the heap until one tree is left, with children
    in the slots of the same array. */
module HuffTree {
  import opened Bags
  import opened HuffHeap

  const MAX_HISTHEAP_SIZE := 286
  const HEAP_TREE_SIZE := 859
  const HEAP_TREE_NODE_START := 858

  // struct tree_node; an internal node's children are at child and child - 1.
  datatype Node = Node(child: nat, depth: nat)

  function Children(t: seq<Node>): (c: seq<nat>)
    ensures |c| == |t| && forall i :: 0 <= i < |t| ==> c[i] == t[i].child
  {
    seq(|t|, i requires 0 <= i < |t| => t[i].child)
  }

  // The pointers in use when the slots above p are: p + 2, p + 4, ..., 858.
  function Pointers(p: nat): (s: seq<nat>)
    requires p <= HEAP_TREE_NODE_START && p % 2 == 0
    ensures forall x :: x in s ==> p + 2 <= x <= HEAP_TREE_NODE_START && x % 2 == 0
    ensures |s| == (HEAP_TREE_NODE_START - p) / 2
    decreases HEAP_TREE_NODE_START - p
  {
    if p == HEAP_TREE_NODE_START then [] else [p + 2] + Pointers(p + 2)
  }

  // A symbol is its own label, and no label is there twice.
  ghost predicate Symbols(syms: seq<nat>) {
    && (forall i :: 0 <= i < |syms| ==> syms[i] < MAX_HISTHEAP_SIZE)
    && (forall i, j :: 0 <= i < j < |syms| ==> syms[i] != syms[j])
  }

  // Children are behind their parents.
  ghost predicate Behind(ch: seq<nat>, from: nat)
    requires |ch| == HEAP_TREE_SIZE
  {
    forall s :: from <= s < |ch| && ch[s] > MAX_HISTHEAP_SIZE ==> s + 1 < ch[s] <= HEAP_TREE_NODE_START && ch[s] % 2 == 0
  }

  // The slots from root on hold a full binary tree: every symbol is at one leaf, and every pair of
  // slots after the root is the children of one internal node.
  ghost predicate FullTree(ch: seq<nat>, root: nat, syms: seq<nat>) {
    && |ch| == HEAP_TREE_SIZE && MAX_HISTHEAP_SIZE < root < HEAP_TREE_NODE_START && root % 2 == 0
    && Symbols(syms) && Behind(ch, root)
    && ch[root] == root + 2 && |syms| == 1 + (HEAP_TREE_NODE_START - root) / 2
    && multiset(ch[root..]) == multiset(syms) + multiset(Pointers(root))
  }

  // What the loop keeps: every symbol and every pointer is in the heap or in a slot above p.
  ghost predicate Forest(labels: seq<nat>, ch: seq<nat>, p: nat, syms: seq<nat>) {
    && |ch| == HEAP_TREE_SIZE && p <= HEAP_TREE_NODE_START && p % 2 == 0
    && Symbols(syms) && Behind(ch, p + 1)
    && |labels| + (HEAP_TREE_NODE_START - p) / 2 == |syms| <= MAX_HISTHEAP_SIZE
    && multiset(labels) + multiset(ch[p + 1..]) == multiset(syms) + multiset(Pointers(p))
  }

  lemma ForestLabel(labels: seq<nat>, ch: seq<nat>, p: nat, syms: seq<nat>, x: nat)
    requires Forest(labels, ch, p, syms) && x in labels
    ensures x < MAX_HISTHEAP_SIZE || (p + 2 <= x <= HEAP_TREE_NODE_START && x % 2 == 0)
  {
    assert x in multiset(labels);
    assert x in multiset(syms) + multiset(Pointers(p));
    assert x in syms || x in Pointers(p);
  }

  // One merge: labels l1 and l2 leave the heap for slots p and p - 1, and the pointer p enters.
  lemma Merged(labels: seq<nat>, ch: seq<nat>, p: nat, syms: seq<nat>, l1: nat, l2: nat, labels': seq<nat>)
    requires Forest(labels, ch, p, syms) && |labels| >= 2 && l1 in labels && l2 in labels
    requires multiset(labels') + multiset{l1, l2} == multiset(labels) + multiset{p}
    requires |labels'| + 1 == |labels|
    ensures 2 <= p && Forest(labels', ch[p := l1][p - 1 := l2], p - 2, syms)
  {
    ForestLabel(labels, ch, p, syms, l1);
    ForestLabel(labels, ch, p, syms, l2);
    var ch' := ch[p := l1][p - 1 := l2];
    var above := ch[p + 1..];
    assert ch'[p - 1..] == [l2, l1] + above;
    assert Pointers(p - 2) == [p] + Pointers(p);
    BagMoved(multiset(labels), multiset(above), multiset(syms), multiset(Pointers(p)), multiset(labels'), l1, l2, p);
    assert multiset([l2, l1] + above) == multiset{l1, l2} + multiset(above);
    assert multiset([p] + Pointers(p)) == multiset{p} + multiset(Pointers(p));
    BehindKept(ch, p, l1, l2);
  }

  lemma BehindKept(ch: seq<nat>, p: nat, l1: nat, l2: nat)
    requires |ch| == HEAP_TREE_SIZE && 2 <= p <= HEAP_TREE_NODE_START && Behind(ch, p + 1)
    requires l1 < MAX_HISTHEAP_SIZE || (p + 2 <= l1 <= HEAP_TREE_NODE_START && l1 % 2 == 0)
    requires l2 < MAX_HISTHEAP_SIZE || (p + 2 <= l2 <= HEAP_TREE_NODE_START && l2 % 2 == 0)
    ensures Behind(ch[p := l1][p - 1 := l2], p - 1)
  {
  }

  lemma BagMoved(heap: multiset<nat>, slots: multiset<nat>, syms: multiset<nat>, ptrs: multiset<nat>,
                 heap': multiset<nat>, l1: nat, l2: nat, p: nat)
    requires heap + slots == syms + ptrs && heap' + multiset{l1, l2} == heap + multiset{p}
    ensures heap' + (multiset{l1, l2} + slots) == syms + (multiset{p} + ptrs)
  {
    assert heap' + (multiset{l1, l2} + slots) == (heap' + multiset{l1, l2}) + slots;
    assert (heap + multiset{p}) + slots == (heap + slots) + multiset{p};
  }

  lemma LastPointer(labels: seq<nat>, ch: seq<nat>, p: nat, syms: seq<nat>)
    requires Forest(labels, ch, p, syms) && |labels| == 1 && |syms| >= 2
    ensures labels[0] == p + 2 && MAX_HISTHEAP_SIZE < p < HEAP_TREE_NODE_START
  {
    assert Pointers(p)[0] == p + 2;
    assert p + 2 in multiset(Pointers(p));
    assert p + 2 in multiset(labels) + multiset(ch[p + 1..]);
    assert p + 2 !in ch[p + 1..];
    assert p + 2 in multiset(labels);
  }

  lemma Rooted(labels: seq<nat>, ch: seq<nat>, p: nat, syms: seq<nat>)
    requires Forest(labels, ch, p, syms) && |labels| == 1 && |syms| >= 2
    ensures FullTree(ch[p := labels[0]], p, syms)
  {
    LastPointer(labels, ch, p, syms);
    var ch' := ch[p := labels[0]];
    assert ch'[p..] == labels + ch[p + 1..];
  }

  // ((h1 + h2) & ~0xFFFF) | node_ptr: the frequencies added, with a pointer for a label.
  function MergedWord(h1: Word, h2: Word, p: nat): (w: Word)
    requires p < 0x10000
    ensures Label(w) == p
  {
    (h1 + h2) % WORD / 0x10000 * 0x10000 + p
  }

  lemma FirstDropped(s: seq<Word>, last: nat)
    requires |s| >= 2 && last == |s| - 1
    ensures multiset(s[..last][0 := s[last]]) + multiset{s[0]} == multiset(s)
  {
    assert s == s[..last] + [s[last]];
  }

  lemma LabelsOf(s: seq<Word>, t: seq<Word>, h1: Word, h2: Word, w: Word)
    requires multiset(t) + multiset{h1, h2} == multiset(s) + multiset{w}
    ensures multiset(Labels(t)) + multiset{Label(h1), Label(h2)} == multiset(Labels(s)) + multiset{Label(w)}
  {
    SameLabels(t + [h1, h2], s + [w]);
    assert Labels(t + [h1, h2]) == Labels(t) + [Label(h1), Label(h2)];
    assert Labels(s + [w]) == Labels(s) + [Label(w)];
  }

  lemma SameLabels(s: seq<Word>, t: seq<Word>)
    requires multiset(s) == multiset(t)
    ensures multiset(Labels(s)) == multiset(Labels(t))
  {
    hide Label;
    SameMapped(Label, s, t);
    assert Labels(s) == Mapped(Label, s) && Labels(t) == Mapped(Label, t);
  }

  ghost predicate Least(w: Word, s: seq<Word>) {
    w in s && forall i :: 0 <= i < |s| ==> w <= s[i]
  }

  // The least word of an ordered heap.
  lemma LeastWord(h: seq<Word>, size: nat)
    requires 1 <= size < |h| && Ordered(h, size, 1)
    ensures Least(h[1], h[1..size + 1])
  {
    assert h[1..size + 1][0] == h[1];
    var s := h[1..size + 1];
    forall i | 0 <= i < |s| ensures h[1] <= s[i] {
      RootLeast(h, size, i + 1);
    }
  }

  lemma BagKept(was: seq<Word>, h: seq<Word>, size: nat)
    requires size + 1 < |was| && Rearranged(was, h, size, 1)
    ensures |h| == |was| && multiset(h[1..size + 1]) == multiset(was[1..size + 1]) && h[size + 1] == was[size + 1]
  {
  }

  // The last word moved to the top, and the sentinel in its place.
  function OverTop(h: seq<Word>, size: nat): seq<Word>
    requires 1 <= size < |h|
  {
    var top: seq<Word> := h[1 := h[size]];
    top[size := TOP]
  }

  lemma OrderedBelow(h: seq<Word>, size: nat, w: Word)
    requires 1 <= size < |h| && Ordered(h, size, 1)
    ensures Ordered(h[1 := w], size, 2)
    ensures w == h[size] ==> Ordered(OverTop(h, size), size - 1, 2)
  {
  }

  lemma FirstTaken(h: seq<Word>, size: nat)
    requires 2 <= size < |h| && Ordered(h, size, 1)
    ensures Ordered(OverTop(h, size), size - 1, 2) && OverTop(h, size)[size] == TOP
    ensures multiset(OverTop(h, size)[1..size]) + multiset{h[1]} == multiset(h[1..size + 1])
    ensures Least(h[1], h[1..size + 1])
  {
    hide Ordered;
    LeastWord(h, size);
    OrderedBelow(h, size, h[size]);
    var s := h[1..size + 1];
    FirstDropped(s, size - 1);
    assert OverTop(h, size)[1..size] == s[..size - 1][0 := s[size - 1]];
  }

  method MoveLast(heap: array<Word>, size: nat)
    requires 1 <= size < heap.Length
    modifies heap
    ensures heap[..] == OverTop(old(heap[..]), size)
  {
    heap[1] := heap[size];
    heap[size] := TOP;
  }

  // Takes out the least word and sifts the last one down in its place.
  method TakeLeast(heap: array<Word>, size: nat) returns (h1: Word)
    requires 2 <= size && size + 1 < heap.Length && Ordered(heap[..], size, 1) && heap[size + 1] == TOP
    modifies heap
    ensures Ordered(heap[..], size - 1, 1) && heap[size] == TOP
    ensures multiset(heap[1..size]) + multiset{h1} == old(multiset(heap[1..size + 1]))
    ensures Least(h1, old(heap[1..size + 1]))
  {
    hide SameBag, Rearranged, Ordered, Least, OverTop;
    FirstTaken(heap[..], size);
    h1 := heap[1];
    MoveLast(heap, size);
    ghost var before := heap[..];
    Heapify(heap, size - 1, 1);
    BagKept(before, heap[..], size - 1);
  }

  // Puts the merged word in place of the least one.
  method ReplaceLeast(heap: array<Word>, size: nat, h1: Word, p: nat) returns (h2: Word)
    requires 1 <= size && size + 1 < heap.Length && Ordered(heap[..], size, 1) && heap[size + 1] == TOP
    requires p < 0x10000
    modifies heap
    ensures Ordered(heap[..], size, 1) && heap[size + 1] == TOP
    ensures multiset(heap[1..size + 1]) + multiset{h2} == old(multiset(heap[1..size + 1])) + multiset{MergedWord(h1, h2, p)}
    ensures Least(h2, old(heap[1..size + 1]))
  {
    hide SameBag, Rearranged, Ordered, Least, MergedWord;
    LeastWord(heap[..], size);
    h2 := heap[1];
    ghost var h, s := heap[..], heap[1..size + 1];
    assert s[0] == h2;
    var w := MergedWord(h1, h2, p);
    OrderedBelow(h, size, w);
    heap[1] := w;
    ghost var before := heap[..];
    assert before == h[1 := w];
    assert before[1..size + 1] == s[0 := w];
    Heapify(heap, size, 1);
    BagKept(before, heap[..], size);
  }

  // One turn of the loop: the two least words become one.
  method MergeLeast(heap: array<Word>, size: nat, p: nat) returns (h1: Word, h2: Word, ghost rest: seq<Word>)
    requires 2 <= size && size + 1 < heap.Length && Ordered(heap[..], size, 1) && heap[size + 1] == TOP
    requires p < 0x10000
    modifies heap
    ensures Ordered(heap[..], size - 1, 1) && heap[size] == TOP
    ensures multiset(heap[1..size]) + multiset{h1, h2} == old(multiset(heap[1..size + 1])) + multiset{MergedWord(h1, h2, p)}
    ensures Least(h1, old(heap[1..size + 1]))
    ensures multiset(rest) + multiset{h1} == old(multiset(heap[1..size + 1])) && Least(h2, rest)
  {
    hide Ordered, Least, MergedWord;
    h1 := TakeLeast(heap, size);
    rest := heap[1..size];
    h2 := ReplaceLeast(heap, size - 1, h1, p);
    BothTaken(multiset(rest), multiset(heap[1..size]), h1, h2, MergedWord(h1, h2, p));
  }

  lemma BothTaken(rest: multiset<Word>, after: multiset<Word>, h1: Word, h2: Word, w: Word)
    requires after + multiset{h2} == rest + multiset{w}
    ensures after + multiset{h1, h2} == rest + multiset{h1} + multiset{w}
  {
    assert after + multiset{h1, h2} == (after + multiset{h2}) + multiset{h1};
    assert (rest + multiset{w}) + multiset{h1} == rest + multiset{h1} + multiset{w};
  }

  lemma LabelsMerged(s: seq<Word>, t: seq<Word>, h1: Word, h2: Word, p: nat, rest: seq<Word>)
    requires p < 0x10000 && |t| + 1 == |s|
    requires multiset(t) + multiset{h1, h2} == multiset(s) + multiset{MergedWord(h1, h2, p)}
    requires Least(h1, s) && multiset(rest) + multiset{h1} == multiset(s) && Least(h2, rest)
    ensures multiset(Labels(t)) + multiset{Label(h1), Label(h2)} == multiset(Labels(s)) + multiset{p}
    ensures Label(h1) in Labels(s) && Label(h2) in Labels(s)
  {
    hide Label, MergedWord;
    LabelsOf(s, t, h1, h2, MergedWord(h1, h2, p));
    assert h2 in multiset(rest);
    assert h2 in multiset(s);
    var i :| 0 <= i < |s| && s[i] == h1;
    var j :| 0 <= j < |s| && s[j] == h2;
    assert Labels(s)[i] == Label(h1) && Labels(s)[j] == Label(h2);
  }

  lemma ForestSize(labels: seq<nat>, ch: seq<nat>, p: nat, syms: seq<nat>)
    requires Forest(labels, ch, p, syms)
    ensures p <= HEAP_TREE_NODE_START && |labels| + (HEAP_TREE_NODE_START - p) / 2 == |syms| <= MAX_HISTHEAP_SIZE
  {
  }

  lemma ForestStart(labels: seq<nat>, ch: seq<nat>, syms: seq<nat>)
    requires Symbols(syms) && multiset(labels) == multiset(syms) && |ch| == HEAP_TREE_SIZE
    requires |labels| <= MAX_HISTHEAP_SIZE
    ensures Forest(labels, ch, HEAP_TREE_NODE_START, syms)
  {
    assert |multiset(labels)| == |labels| && |multiset(syms)| == |syms|;
    assert ch[HEAP_TREE_NODE_START + 1..] == [];
  }

  // store_u16 into a slot
  method SetChild(tree: array<Node>, q: nat, v: nat)
    requires q < tree.Length
    modifies tree
    ensures Children(tree[..]) == old(Children(tree[..]))[q := v]
    ensures forall i :: 0 <= i < tree.Length ==> tree[i].depth == old(tree[i].depth)
  {
    tree[q] := tree[q].(child := v);
  }

  method SetChildren(tree: array<Node>, p: nat, l1: nat, l2: nat)
    requires 1 <= p < tree.Length
    modifies tree
    ensures Children(tree[..]) == old(Children(tree[..]))[p := l1][p - 1 := l2]
    ensures forall i :: 0 <= i < tree.Length ==> tree[i].depth == old(tree[i].depth)
  {
    SetChild(tree, p, l1);
    SetChild(tree, p - 1, l2);
  }
}
