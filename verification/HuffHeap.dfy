/** The heap of proc_heap_base.c: 64-bit words, frequency above a 16-bit label, the least word at
    the root. */
module HuffHeap {

  const WORD := 0x1_0000_0000_0000_0000
  type Word = x: nat | x < 0x1_0000_0000_0000_0000

  // The sentinel behind the last word of the heap.
  const TOP: Word := 0xFFFF_FFFF_FFFF_FFFF

  function Label(w: Word): nat {
    w % 0x10000
  }

  function Labels(s: seq<Word>): (l: seq<nat>)
    ensures |l| == |s| && forall i :: 0 <= i < |s| ==> l[i] == Label(s[i])
  {
    seq(|s|, i requires 0 <= i < |s| => Label(s[i]))
  }

  // Parents numbered from on are no greater than their children.
  ghost predicate Ordered(h: seq<Word>, size: nat, from: nat)
    requires size < |h|
  {
    forall c :: 2 <= c <= size && from <= c / 2 ==> h[c / 2] <= h[c]
  }

  // Ordered but for the node at index, which may be too great for its place.
  ghost predicate Sinking(h: seq<Word>, size: nat, from: nat, index: nat)
    requires size < |h|
  {
    && (forall c :: 2 <= c <= size && from <= c / 2 && c / 2 != index ==> h[c / 2] <= h[c])
    && (forall c :: 2 <= c <= size && from <= index / 2 && c / 2 == index ==> h[index / 2] <= h[c])
  }

  lemma SwapDown(h: seq<Word>, size: nat, from: nat, index: nat, child: nat)
    requires size < |h| && 1 <= from <= index <= size && child <= size && child / 2 == index
    requires Sinking(h, size, from, index) && h[child] < h[index]
    requires forall c :: 2 <= c <= size && c / 2 == index ==> h[child] <= h[c]
    ensures Sinking(h[index := h[child]][child := h[index]], size, from, child)
  {
  }

  lemma RootLeast(h: seq<Word>, size: nat, c: nat)
    requires 1 <= c <= size < |h| && Ordered(h, size, 1)
    ensures h[1] <= h[c]
  {
    if c > 1 {
      RootLeast(h, size, c / 2);
    }
  }

  // The words and labels of a part of the heap, in any order.
  ghost predicate SameBag(s: seq<Word>, t: seq<Word>) {
    multiset(s) == multiset(t) && multiset(Labels(s)) == multiset(Labels(t))
  }

  lemma Exchanged(s: seq<Word>, i: nat, j: nat)
    requires i < |s| && j < |s|
    ensures SameBag(s[i := s[j]][j := s[i]], s)
  {
    var l := Labels(s);
    assert Labels(s[i := s[j]][j := s[i]]) == l[i := l[j]][j := l[i]];
  }

  method Exchange(heap: array<Word>, i: nat, j: nat, ghost size: nat)
    requires 1 <= i <= size < heap.Length && 1 <= j <= size
    modifies heap
    ensures heap[..] == old(heap[..])[i := old(heap[j])][j := old(heap[i])]
    ensures SameBag(heap[1..size + 1], old(heap[1..size + 1]))
  {
    hide SameBag;
    ghost var s := heap[1..size + 1];
    Exchanged(s, i - 1, j - 1);
    heap[i], heap[j] := heap[j], heap[i];
    assert heap[1..size + 1] == s[i - 1 := s[j - 1]][j - 1 := s[i - 1]];
  }

  // Only words from index to size differ, and those are the same words.
  ghost predicate Rearranged(was: seq<Word>, h: seq<Word>, size: nat, index: nat)
    requires 1 <= index && size < |was|
  {
    && |h| == |was| && SameBag(h[1..size + 1], was[1..size + 1])
    && forall q :: 0 <= q < |h| && !(index <= q <= size) ==> h[q] == was[q]
  }

  lemma RearrangedTrans(a: seq<Word>, b: seq<Word>, c: seq<Word>, size: nat, index: nat, index': nat)
    requires 1 <= index <= index' && size < |a|
    requires Rearranged(a, b, size, index) && Rearranged(b, c, size, index')
    ensures Rearranged(a, c, size, index)
  {
  }

  // One turn of heapify's loop, when the smaller child is smaller than its parent.
  method SinkOne(heap: array<Word>, i: nat, child: nat, size: nat, ghost from: nat)
    requires 1 <= from <= i <= size < heap.Length && child <= size && child / 2 == i
    requires Sinking(heap[..], size, from, i) && heap[child] < heap[i]
    requires forall c :: 2 <= c <= size && c / 2 == i ==> heap[child] <= heap[c]
    modifies heap
    ensures Sinking(heap[..], size, from, child)
    ensures Rearranged(old(heap[..]), heap[..], size, i)
  {
    hide SameBag, Sinking;
    SwapDown(heap[..], size, from, i, child);
    Exchange(heap, i, child, size);
  }

  // heapify: sift the word at index down to its place.
  method Heapify(heap: array<Word>, size: nat, index: nat)
    requires 1 <= index && 1 <= size && size + 1 < heap.Length && heap[size + 1] == TOP
    requires Ordered(heap[..], size, index + 1)
    modifies heap
    ensures Ordered(heap[..], size, index)
    ensures Rearranged(old(heap[..]), heap[..], size, index)
  {
    hide Ordered, Sinking, Rearranged, SameBag;
    ghost var was := heap[..];
    SinkStart(was, size, index);
    var i, child := index, 2 * index;
    while child <= size
      invariant index <= i && child == 2 * i && heap[size + 1] == TOP
      invariant Sinking(heap[..], size, index, i) && Rearranged(was, heap[..], size, index)
      decreases size - i
    {
      child := if heap[child] <= heap[child + 1] then child else child + 1;
      if heap[i] > heap[child] {
        ghost var h := heap[..];
        SinkOne(heap, i, child, size, index);
        RearrangedTrans(was, h, heap[..], size, index, i);
        SentinelKept(h, heap[..], size, i);
        i := child;
        child := 2 * i;
      } else {
        break;
      }
    }
    SinkDone(heap[..], size, index, i);
  }

  lemma SentinelKept(was: seq<Word>, h: seq<Word>, size: nat, index: nat)
    requires 1 <= index && size + 1 < |was| && Rearranged(was, h, size, index)
    ensures |h| == |was| && h[size + 1] == was[size + 1]
  {
  }

  lemma SinkStart(h: seq<Word>, size: nat, index: nat)
    requires size < |h| && 1 <= index && Ordered(h, size, index + 1)
    ensures Sinking(h, size, index, index) && Rearranged(h, h, size, index)
  {
  }

  lemma SinkDone(h: seq<Word>, size: nat, index: nat, i: nat)
    requires size < |h| && Sinking(h, size, index, i)
    requires forall c :: 2 <= c <= size && c / 2 == i ==> h[i] <= h[c]
    ensures Ordered(h, size, index)
  {
  }

  lemma SameBagSelf(s: seq<Word>)
    ensures SameBag(s, s)
  {
  }

  // build_heap
  method BuildHeap(heap: array<Word>, size: nat)
    requires 1 <= size && size + 1 < heap.Length
    modifies heap
    ensures Ordered(heap[..], size, 1) && heap[size + 1] == TOP
    ensures Rearranged(old(heap[..])[size + 1 := TOP], heap[..], size, 1)
  {
    hide SameBag;
    heap[size + 1] := TOP;
    ghost var was := heap[..];
    assert was == old(heap[..])[size + 1 := TOP];
    SameBagSelf(heap[1..size + 1]);
    var i: nat := size / 2;
    while i > 0
      invariant i <= size / 2 && Ordered(heap[..], size, i + 1) && heap[size + 1] == TOP
      invariant Rearranged(was, heap[..], size, 1)
    {
      ghost var h := heap[..];
      Heapify(heap, size, i);
      BagStep(was, h, heap[..], size, i);
      i := i - 1;
    }
  }

  lemma BagStep(was: seq<Word>, h: seq<Word>, h': seq<Word>, size: nat, i: nat)
    requires 1 <= i && size < |was| && Rearranged(was, h, size, 1) && Rearranged(h, h', size, i)
    ensures Rearranged(was, h', size, 1)
  {
    RearrangedTrans(was, h, h', size, 1, i);
  }
}
