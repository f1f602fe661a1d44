/** The init_heap functions and gen_huff_code_lens. */
module HuffGen {
  import opened Bags
  import opened Rfc1951
  import opened Canonical
  import opened HuffCodes
  import opened HuffHeap
  import opened HuffTree
  import opened HuffMerge
  import opened TreeShape
  import opened CodeLens
  import opened SymbolLengths
  import LeastCost
  import LimitLengths

  // ---- filling the heap ----

  // (freq << FREQ_SHIFT) | sym in 64 bits
  function FreqWord(freq: nat, sym: nat): (w: Word)
    requires sym < 0x10000
    ensures Label(w) == sym
    ensures freq < 0x1_0000_0000_0000 ==> Freq(w) == freq
  {
    WordParts(freq, sym);
    (freq * 0x10000 + sym) % WORD
  }

  lemma WordParts(freq: nat, sym: nat)
    requires sym < 0x10000
    ensures (freq * 0x10000 + sym) % WORD % 0x10000 == sym
    ensures freq < 0x1_0000_0000_0000 ==> (freq * 0x10000 + sym) % WORD / 0x10000 == freq
  {
    var v := freq * 0x10000 + sym;
    var q := v / WORD;
    assert v % WORD == (freq - q * 0x1_0000_0000_0000) * 0x10000 + sym;
    if freq < 0x1_0000_0000_0000 {
      assert v < WORD;
    }
  }

  // The words of the symbols s of a histogram.
  function WordsOf(h: seq<nat>, s: seq<nat>): (w: seq<Word>)
    requires |h| <= MAX_HISTHEAP_SIZE && forall i :: 0 <= i < |s| ==> s[i] < |h|
    ensures |w| == |s|
  {
    seq(|s|, i requires 0 <= i < |s| => FreqWord(h[s[i]], s[i]))
  }

  // The symbols below n that occur, and all of them from start on.
  function Chosen(h: seq<nat>, start: nat, n: nat): (s: seq<nat>)
    requires n <= |h|
    ensures forall i :: 0 <= i < |s| ==> s[i] < n
    ensures |s| <= n
  {
    if n == 0 then []
    else Chosen(h, start, n - 1) + (if h[n - 1] != 0 || n - 1 >= start then [n - 1] else [])
  }

  // The symbols that get a code: at least two of them.
  function Coded(h: seq<nat>, start: nat): seq<nat>
    requires |h| >= 2
  {
    var s := Chosen(h, start, |h|);
    if |s| == 0 then [0, 1]
    else if |s| == 1 then s + [if h[0] == 0 then 0 else 1]
    else s
  }

  // The frequencies of these symbols: one for a symbol that only joins.
  function Padded(h: seq<nat>, start: nat): (f: seq<nat>)
    requires |h| >= 2
    ensures |f| == |h|
  {
    var s := Chosen(h, start, |h|);
    if |s| == 0 then h[0 := 1][1 := 1]
    else if |s| == 1 then h[if h[0] == 0 then 0 else 1 := 1]
    else h
  }

  function SumUpTo(h: seq<nat>, n: nat): nat
    requires n <= |h|
  {
    if n == 0 then 0 else SumUpTo(h, n - 1) + h[n - 1]
  }

  lemma {:induction false} ChosenDistinct(h: seq<nat>, start: nat, n: nat)
    requires n <= |h|
    ensures forall i, j :: 0 <= i < j < |Chosen(h, start, n)| ==> Chosen(h, start, n)[i] != Chosen(h, start, n)[j]
  {
    if n > 0 {
      ChosenDistinct(h, start, n - 1);
    }
  }

  lemma {:induction false} ChosenIff(h: seq<nat>, start: nat, n: nat, x: nat)
    requires n <= |h|
    ensures x in Chosen(h, start, n) <==> x < n && (h[x] != 0 || x >= start)
  {
    if n > 0 {
      ChosenIff(h, start, n - 1, x);
    }
  }

  // The symbol that joins a single one is another one.
  lemma OtherSymbol(h: seq<nat>, start: nat)
    requires |h| >= 2 && |Chosen(h, start, |h|)| == 1
    ensures Chosen(h, start, |h|)[0] != if h[0] == 0 then 0 else 1
  {
    hide Chosen;
    var s := Chosen(h, start, |h|);
    ChosenIff(h, start, |h|, s[0]);
    ChosenIff(h, start, |h|, 0);
    ChosenIff(h, start, |h|, 1);
    assert s == [s[0]];
  }

  lemma CodedDistinct(h: seq<nat>, start: nat)
    requires 2 <= |h| <= MAX_HISTHEAP_SIZE
    ensures Symbols(Coded(h, start)) && 2 <= |Coded(h, start)| <= |h|
    ensures forall i :: 0 <= i < |Coded(h, start)| ==> Coded(h, start)[i] < |h|
  {
    hide Chosen;
    ChosenDistinct(h, start, |h|);
    if |Chosen(h, start, |h|)| == 1 {
      OtherSymbol(h, start);
    }
  }

  // A symbol that occurs gets a code.
  lemma CodedIf(h: seq<nat>, start: nat, x: nat)
    requires 2 <= |h| && x < |h| && (h[x] != 0 || x >= start)
    ensures x in Coded(h, start)
  {
    hide Chosen;
    ChosenIff(h, start, |h|, x);
  }

  method PutWord(heap: array<Word>, size: nat, freq: nat, sym: nat) returns (size': nat)
    requires size + 1 < heap.Length && sym < 0x10000
    modifies heap
    ensures size' == size + 1 && heap[1..size' + 1] == old(heap[1..size + 1]) + [FreqWord(freq, sym)]
    ensures Labels(heap[1..size' + 1]) == old(Labels(heap[1..size + 1])) + [sym]
  {
    hide Label, Freq;
    ghost var before := heap[1..size + 1];
    heap[size + 1] := FreqWord(freq, sym);
    assert heap[1..size + 2] == before + [FreqWord(freq, sym)];
    size' := size + 1;
  }

  method FillHeap(heap: array<Word>, histogram: array<nat>, histSize: nat, completeStart: nat) returns (heapSize: nat)
    requires heap.Length == HEAP_TREE_SIZE && 2 <= histSize <= MAX_HISTHEAP_SIZE && histSize <= histogram.Length
    modifies heap
    ensures heapSize == |Chosen(histogram[..histSize], completeStart, histSize)| <= MAX_HISTHEAP_SIZE
    ensures Labels(heap[1..heapSize + 1]) == Chosen(histogram[..histSize], completeStart, histSize)
    ensures heap[1..heapSize + 1]
         == WordsOf(histogram[..histSize], Chosen(histogram[..histSize], completeStart, histSize))
  {
    hide Labels, Chosen, FreqWord;
    ghost var h := histogram[..histSize];
    heapSize := 0;
    NothingChosen(h, completeStart, heap[1..1]);
    for i := 0 to histSize
      invariant heapSize == |Chosen(h, completeStart, i)|
      invariant Labels(heap[1..heapSize + 1]) == Chosen(h, completeStart, i)
      invariant heap[1..heapSize + 1] == WordsOf(h, Chosen(h, completeStart, i))
    {
      ChosenNext(h, completeStart, i);
      assert histogram[i] == h[i];
      if histogram[i] != 0 || i >= completeStart {
        heapSize := PutWord(heap, heapSize, histogram[i], i);
      }
    }
  }

  // The words that join those of the chosen symbols.
  function Joining(h: seq<nat>, chosen: nat): seq<Word>
    requires |h| >= 2
  {
    if chosen == 0 then [FreqWord(1, 0), FreqWord(1, 1)]
    else if chosen == 1 then [FreqWord(1, if h[0] == 0 then 0 else 1)]
    else []
  }

  lemma PaddedWords(h: seq<nat>, start: nat)
    requires 2 <= |h| <= MAX_HISTHEAP_SIZE
    ensures forall i :: 0 <= i < |Coded(h, start)| ==> Coded(h, start)[i] < |h|
    ensures WordsOf(Padded(h, start), Coded(h, start))
         == WordsOf(h, Chosen(h, start, |h|)) + Joining(h, |Chosen(h, start, |h|)|)
  {
    hide Chosen, FreqWord;
    CodedDistinct(h, start);
    if |Chosen(h, start, |h|)| == 1 {
      OtherSymbol(h, start);
    }
  }

  // make sure heap has at least two elements in it
  method PadHeap(heap: array<Word>, size: nat, first: nat, ghost h: seq<nat>, ghost start: nat) returns (heapSize: nat)
    requires heap.Length == HEAP_TREE_SIZE && 2 <= |h| <= MAX_HISTHEAP_SIZE && first == h[0]
    requires size == |Chosen(h, start, |h|)| && Labels(heap[1..size + 1]) == Chosen(h, start, |h|)
    requires heap[1..size + 1] == WordsOf(h, Chosen(h, start, |h|))
    modifies heap
    ensures heapSize == |Coded(h, start)| && heapSize + 1 < heap.Length
    ensures Labels(heap[1..heapSize + 1]) == Coded(h, start)
    ensures forall i :: 0 <= i < |Coded(h, start)| ==> Coded(h, start)[i] < |h|
    ensures heap[1..heapSize + 1] == WordsOf(Padded(h, start), Coded(h, start))
  {
    hide Labels, Chosen, FreqWord;
    CodedDistinct(h, start);
    PaddedWords(h, start);
    heapSize := size;
    if heapSize < 2 {
      if heapSize == 0 {
        heapSize := PutWord(heap, heapSize, 1, 0);
        heapSize := PutWord(heap, heapSize, 1, 1);
      } else {
        heapSize := PutWord(heap, heapSize, 1, if first == 0 then 0 else 1);
      }
    }
  }

  // init_heap32, init_heap64 and init_heap64_complete: complete_start is hist_size in the first two
  // and 0 in the last, which needs no padding
  method InitHeap(heap: array<Word>, histogram: array<nat>, histSize: nat, completeStart: nat) returns (heapSize: nat)
    requires heap.Length == HEAP_TREE_SIZE && 2 <= histSize <= MAX_HISTHEAP_SIZE && histSize <= histogram.Length
    modifies heap
    ensures heapSize == |Coded(histogram[..histSize], completeStart)| && 2 <= heapSize <= MAX_HISTHEAP_SIZE
    ensures Ordered(heap[..], heapSize, 1) && heap[heapSize + 1] == TOP
    ensures multiset(Labels(heap[1..heapSize + 1])) == multiset(Coded(histogram[..histSize], completeStart))
    ensures forall i :: 0 <= i < |Coded(histogram[..histSize], completeStart)| ==>
              Coded(histogram[..histSize], completeStart)[i] < histSize
    ensures multiset(heap[1..heapSize + 1])
         == multiset(WordsOf(Padded(histogram[..histSize], completeStart), Coded(histogram[..histSize], completeStart)))
  {
    hide Label, Ordered, Rearranged, Labels, Coded, Symbols, Chosen, WordsOf, Padded;
    ghost var h := histogram[..histSize];
    heapSize := FillHeap(heap, histogram, histSize, completeStart);
    heapSize := PadHeap(heap, heapSize, histogram[0], h, completeStart);
    CodedDistinct(h, completeStart);
    ghost var before: seq<Word> := heap[..];
    BuildHeap(heap, heapSize);
    BagOfLabels(before, heap[..], heapSize);
  }

  // 0, 1, ..., n - 1
  function AllBelow(n: nat): (s: seq<nat>)
    ensures |s| == n && forall i :: 0 <= i < n ==> s[i] == i
  {
    seq(n, i => i)
  }

  lemma {:induction false} ChosenAll(h: seq<nat>, n: nat)
    requires n <= |h|
    ensures Chosen(h, 0, n) == AllBelow(n)
  {
    if n > 0 {
      ChosenAll(h, n - 1);
    }
  }

  // With a code for every symbol nothing is padded.
  lemma AllCodedWords(h: seq<nat>)
    requires |h| >= 2
    ensures Coded(h, 0) == AllBelow(|h|) && Padded(h, 0) == h
  {
    ChosenAll(h, |h|);
  }

  // The heap of a histogram holds its frequencies.
  lemma HeapGiven(s: seq<Word>, f: seq<nat>, syms: seq<nat>)
    requires |f| <= MAX_HISTHEAP_SIZE && forall i :: 0 <= i < |syms| ==> syms[i] < |f|
    requires multiset(s) == multiset(WordsOf(f, syms))
    requires forall i :: 0 <= i < |f| ==> f[i] < FREQ_BOUND
    ensures SymbolsWeigh(s, f) && SumFreq(s) == SumOver(LimitLengths.At(f), syms)
  {
    hide Freq, Label, FreqWord;
    var words := WordsOf(f, syms);
    SameSum(Freq, s, words);
    WordsSum(f, syms);
    forall w | w in s ensures Label(w) < |f| && Freq(w) == f[Label(w)] {
      assert w in multiset(s) && w in multiset(words);
      var i :| 0 <= i < |words| && words[i] == w;
      assert w == FreqWord(f[syms[i]], syms[i]);
    }
  }

  lemma {:induction false} WordsSum(f: seq<nat>, syms: seq<nat>)
    requires |f| <= MAX_HISTHEAP_SIZE && forall i :: 0 <= i < |syms| ==> syms[i] < |f|
    requires forall i :: 0 <= i < |f| ==> f[i] < FREQ_BOUND
    ensures SumFreq(WordsOf(f, syms)) == SumOver(LimitLengths.At(f), syms)
  {
    hide Freq, FreqWord;
    if syms != [] {
      var rest := syms[..|syms| - 1];
      WordsSum(f, rest);
      assert WordsOf(f, syms)[..|syms| - 1] == WordsOf(f, rest);
    }
  }

  lemma SumMore(f: seq<nat>, s: seq<nat>, x: nat)
    ensures SumOver(LimitLengths.At(f), s + [x]) == SumOver(LimitLengths.At(f), s) + LimitLengths.At(f)(x)
  {
    assert (s + [x])[..|s|] == s;
  }

  // It adds up to no more than the histogram and the two that may join.
  lemma {:induction false} ChosenSum(h: seq<nat>, start: nat, n: nat)
    requires n <= |h|
    ensures SumOver(LimitLengths.At(h), Chosen(h, start, n)) <= SumUpTo(h, n)
  {
    if n == 0 {
      assert Chosen(h, start, 0) == [];
    } else {
      hide SumOver;
      ChosenSum(h, start, n - 1);
      SumMore(h, Chosen(h, start, n - 1), n - 1);
      assert Chosen(h, start, n - 1) + [] == Chosen(h, start, n - 1);
    }
  }

  lemma {:induction false} SumUpToBound(h: seq<nat>, n: nat, i: nat)
    requires i < n <= |h|
    ensures h[i] <= SumUpTo(h, n)
  {
    if i < n - 1 {
      SumUpToBound(h, n - 1, i);
    }
  }

  lemma {:induction false} SumElsewhere(h: seq<nat>, k: nat, v: nat, syms: seq<nat>)
    requires k < |h| && k !in syms
    ensures SumOver(LimitLengths.At(h[k := v]), syms) == SumOver(LimitLengths.At(h), syms)
  {
    if syms != [] {
      SumElsewhere(h, k, v, syms[..|syms| - 1]);
    }
  }

  lemma SumTwo(f: seq<nat>)
    requires |f| >= 2
    ensures SumOver(LimitLengths.At(f), [0, 1]) == f[0] + f[1]
  {
    var s: seq<nat> := [0];
    assert s + [1] == [0, 1];
    SumMore(f, s, 1);
    SumMore(f, [], 0);
    assert s == [] + [0];
  }

  lemma SumJoined(h: seq<nat>, s: seq<nat>, k: nat)
    requires k < |h| && k !in s
    ensures SumOver(LimitLengths.At(h[k := 1]), s + [k]) == SumOver(LimitLengths.At(h), s) + 1
  {
    hide SumOver;
    SumElsewhere(h, k, 1, s);
    SumMore(h[k := 1], s, k);
  }

  lemma NonePadded(h: seq<nat>, start: nat)
    requires |h| >= 2 && |Chosen(h, start, |h|)| == 0
    ensures Coded(h, start) == [0, 1] && Padded(h, start)[0] == 1 == Padded(h, start)[1]
  {
    hide Chosen;
  }

  lemma OnePadded(h: seq<nat>, start: nat) returns (k: nat)
    requires |h| >= 2 && |Chosen(h, start, |h|)| == 1
    ensures k < 2 && k !in Chosen(h, start, |h|)
    ensures Coded(h, start) == Chosen(h, start, |h|) + [k] && Padded(h, start) == h[k := 1]
  {
    OtherSymbol(h, start);
    hide Chosen;
    k := if h[0] == 0 then 0 else 1;
  }

  lemma NotPadded(h: seq<nat>, start: nat)
    requires |h| >= 2 && |Chosen(h, start, |h|)| >= 2
    ensures Coded(h, start) == Chosen(h, start, |h|) && Padded(h, start) == h
  {
    hide Chosen;
  }

  lemma PaddedSum(h: seq<nat>, start: nat)
    requires |h| >= 2
    ensures SumOver(LimitLengths.At(Padded(h, start)), Coded(h, start)) <= SumUpTo(h, |h|) + 2
  {
    hide Chosen, SumUpTo, SumOver, LimitLengths.At, Padded, Coded;
    ChosenSum(h, start, |h|);
    if |Chosen(h, start, |h|)| == 0 {
      NonePadded(h, start);
      SumTwo(Padded(h, start));
    } else if |Chosen(h, start, |h|)| == 1 {
      var k := OnePadded(h, start);
      SumJoined(h, Chosen(h, start, |h|), k);
    } else {
      NotPadded(h, start);
    }
  }

  lemma {:induction false} AllSum(h: seq<nat>, n: nat)
    requires n <= |h|
    ensures SumOver(LimitLengths.At(h), AllBelow(n)) == SumUpTo(h, n)
  {
    if n > 0 {
      AllSum(h, n - 1);
      assert AllBelow(n)[..n - 1] == AllBelow(n - 1);
    }
  }

  // What init_heap makes of a histogram that adds up to less than 2^48.
  lemma HistogramGiven(s: seq<Word>, h: seq<nat>, start: nat)
    requires 2 <= |h| <= MAX_HISTHEAP_SIZE && SumUpTo(h, |h|) + 2 < FREQ_BOUND
    requires forall i :: 0 <= i < |Coded(h, start)| ==> Coded(h, start)[i] < |h|
    requires multiset(s) == multiset(WordsOf(Padded(h, start), Coded(h, start)))
    ensures GivenBy(s, Padded(h, start))
  {
    hide SumOver, SumFreq, SumUpTo, Coded, WordsOf, Chosen, SymbolsWeigh;
    forall i | 0 <= i < |h| ensures Padded(h, start)[i] < FREQ_BOUND {
      SumUpToBound(h, |h|, i);
    }
    HeapGiven(s, Padded(h, start), Coded(h, start));
    PaddedSum(h, start);
  }

  // ... of one that adds up to little,
  lemma HistogramLight(s: seq<Word>, h: seq<nat>, start: nat, max: nat)
    requires 2 <= |h| <= MAX_HISTHEAP_SIZE && start == |h|
    requires SumUpTo(h, |h|) + 2 < FREQ_BOUND && SumUpTo(h, |h|) + 2 < Fibonacci(max + 3)
    requires forall i :: 0 <= i < |Coded(h, start)| ==> Coded(h, start)[i] < |h|
    requires multiset(s) == multiset(WordsOf(Padded(h, start), Coded(h, start)))
    ensures LightEnough(s, Coded(h, start), Padded(h, start), max)
  {
    hide Fibonacci, SumOver, SumFreq, SumUpTo, WordsOf, Chosen, SymbolsWeigh;
    forall i | 0 <= i < |h| ensures Padded(h, start)[i] < FREQ_BOUND {
      SumUpToBound(h, |h|, i);
    }
    HeapGiven(s, Padded(h, start), Coded(h, start));
    PaddedSum(h, start);
    forall x | x in Coded(h, start) ensures x < |h| && Padded(h, start)[x] >= 1 {
      ChosenIff(h, start, |h|, x);
    }
  }

  // ... and of one in which every symbol gets a code.
  lemma AllGiven(s: seq<Word>, h: seq<nat>)
    requires |h| <= MAX_HISTHEAP_SIZE && SumUpTo(h, |h|) < FREQ_BOUND
    requires multiset(s) == multiset(WordsOf(h, AllBelow(|h|)))
    ensures GivenBy(s, h)
  {
    hide SumOver, SumFreq, SumUpTo, WordsOf, SymbolsWeigh;
    forall i | 0 <= i < |h| ensures h[i] < FREQ_BOUND {
      SumUpToBound(h, |h|, i);
    }
    HeapGiven(s, h, AllBelow(|h|));
    AllSum(h, |h|);
  }

  // Frequencies that add up to less than 2^48, in a heap of these symbols.
  ghost predicate GivenBy(s: seq<Word>, f: seq<nat>) {
    SumFreq(s) < FREQ_BOUND && SymbolsWeigh(s, f)
  }

  lemma NothingChosen(h: seq<nat>, start: nat, s: seq<Word>)
    requires s == []
    ensures Chosen(h, start, 0) == [] && Labels(s) == []
  {
  }

  lemma ChosenNext(h: seq<nat>, start: nat, n: nat)
    requires n < |h|
    ensures Chosen(h, start, n + 1) == Chosen(h, start, n) + (if h[n] != 0 || n >= start then [n] else [])
  {
  }

  lemma BagOfLabels(before: seq<Word>, after: seq<Word>, size: nat)
    requires size + 1 < |before| && Rearranged(before[size + 1 := TOP], after, size, 1)
    ensures |after| == |before| && multiset(Labels(after[1..size + 1])) == multiset(Labels(before[1..size + 1]))
    ensures multiset(after[1..size + 1]) == multiset(before[1..size + 1])
  {
    assert before[size + 1 := TOP][1..size + 1] == before[1..size + 1];
  }

  // ---- code lengths in the tables ----

  // memset(codes, 0, codes_count * sizeof(*codes))
  method ClearCodes(codes: array<HuffCode>, off: nat, codesCount: nat)
    requires off + codesCount <= codes.Length
    modifies codes
    ensures forall q :: off <= q < off + codesCount ==> codes[q] == HuffCode(0, 0, 0)
    ensures forall q :: 0 <= q < codes.Length && !(off <= q < off + codesCount) ==> codes[q] == old(codes[q])
  {
    for i := off to off + codesCount
      invariant forall q :: off <= q < i ==> codes[q] == HuffCode(0, 0, 0)
      invariant forall q :: 0 <= q < codes.Length && !(off <= q < i) ==> codes[q] == old(codes[q])
    {
      codes[i] := HuffCode(0, 0, 0);
    }
  }

  // Entries cleared or already set have their lengths; the entries outside keep what they had.
  ghost predicate Stored(codes: seq<HuffCode>, off: nat, n: nat, codesCount: nat, ns: seq<Node>, was: seq<HuffCode>) {
    && off + n <= |codes| == |was| && codesCount <= n
    && (forall q :: off <= q < off + n && (q - off < codesCount || q - off in Children(ns)) ==>
          codes[q].length == LengthsFrom(ns, n)[q - off])
    && (forall q :: off <= q < off + codesCount ==> codes[q].code == 0 && codes[q].extraBitCount == 0)
    && (forall q :: 0 <= q < |codes| && !(off <= q < off + n) ==> codes[q] == was[q])
  }

  lemma StoredNone(codes: seq<HuffCode>, off: nat, n: nat, codesCount: nat, was: seq<HuffCode>)
    requires off + n <= |codes| == |was| && codesCount <= n
    requires forall q :: off <= q < off + codesCount ==> codes[q] == HuffCode(0, 0, 0)
    requires forall q :: 0 <= q < |codes| && !(off <= q < off + codesCount) ==> codes[q] == was[q]
    ensures Stored(codes, off, n, codesCount, [], was)
  {
  }

  lemma StoredNext(codes: seq<HuffCode>, off: nat, n: nat, codesCount: nat, ns: seq<Node>, was: seq<HuffCode>, m: Node)
    requires Stored(codes, off, n, codesCount, ns, was) && m.child < n
    ensures off + m.child < |codes|
    ensures Stored(codes[off + m.child := codes[off + m.child].(length := m.depth)],
                   off, n, codesCount, ns + [m], was)
  {
    var ns' := ns + [m];
    assert ns'[..|ns'| - 1] == ns;
    assert Children(ns') == Children(ns) + [m.child];
  }

  lemma StoredAll(codes: seq<HuffCode>, off: nat, n: nat, codesCount: nat, ns: seq<Node>, was: seq<HuffCode>)
    requires Stored(codes, off, n, codesCount, ns, was)
    requires forall x :: codesCount <= x < n ==> x in Children(ns)
    ensures off + n <= |codes| == |was| && Lengths(codes[off..off + n]) == LengthsFrom(ns, n)
    ensures forall q :: off <= q < off + codesCount ==> codes[q].code == 0 && codes[q].extraBitCount == 0
    ensures forall q :: 0 <= q < |codes| && !(off <= q < off + n) ==> codes[q] == was[q]
  {
  }

  method SetLength(codes: array<HuffCode>, q: nat, length: nat)
    requires q < codes.Length
    modifies codes
    ensures codes[..] == old(codes[..])[q := old(codes[q]).(length := length)]
  {
    codes[q] := codes[q].(length := length);
  }

  // codes[tree[node_ptr].child].length = tree[node_ptr].depth for the leaves
  method StoreLengths(codes: array<HuffCode>, off: nat, codesCount: nat, tree: array<Node>, root: nat, j: nat, ghost n: nat)
    requires off + n <= codes.Length && codesCount <= n && root <= j <= tree.Length
    requires forall p :: root <= p < j ==> tree[p].child < n
    modifies codes
    ensures Stored(codes[..], off, n, codesCount, tree[root..j], old(codes[..]))
  {
    hide Stored;
    ClearCodes(codes, off, codesCount);
    StoredNone(codes[..], off, n, codesCount, old(codes[..]));
    assert tree[root..root] == [];
    for p := root to j
      invariant Stored(codes[..], off, n, codesCount, tree[root..p], old(codes[..]))
    {
      StoredNext(codes[..], off, n, codesCount, tree[root..p], old(codes[..]), tree[p]);
      assert tree[root..p + 1] == tree[root..p] + [tree[p]];
      SetLength(codes, off + tree[p].child, tree[p].depth);
    }
  }

  // Lengths in the leaves' order rise while the frequencies fall.
  lemma RedealtRare(ns: seq<Node>, leaves: seq<Node>, f: seq<nat>)
    requires Redealt(ns, leaves) && FrequentFirst(leaves, f)
    ensures RareDeep(ns, f)
  {
    assert forall i :: 0 <= i < |ns| ==> ns[i].child == Children(ns)[i] == Children(leaves)[i] == leaves[i].child;
    assert forall i :: 0 <= i < |ns| ==> ns[i].depth == Depths(ns)[i];
  }

  ghost predicate DeeperThan(leaves: seq<Node>, max: nat) {
    exists k :: 0 <= k < |leaves| && leaves[k].depth > max
  }

  // Too little for a code of more than max bits.
  ghost predicate LightEnough(s: seq<Word>, syms: seq<nat>, f: seq<nat>, max: nat) {
    SumFreq(s) < Fibonacci(max + 3) && forall x :: x in syms ==> x < |f| && f[x] >= 1
  }

  lemma NotTooDeep(t: Shape, f: seq<nat>, wt: seq<nat>, s: seq<Word>, max: nat)
    requires t.Valid() && GradedTree(t.ch, t.root, f, wt, SumFreq(s)) && LightEnough(s, t.syms, f, max)
    ensures !DeeperThan(t.Leaves(HEAP_TREE_SIZE), max)
  {
    hide FullTree, Fibonacci, SumFreq, Shape.Leaves, GradedTree;
    var ns := t.Leaves(HEAP_TREE_SIZE);
    forall k | 0 <= k < |ns| ensures ns[k].depth <= max {
      var q := t.LeafSlot(HEAP_TREE_SIZE, k);
      t.DeepHeavy(f, wt, SumFreq(s), q);
      if ns[k].depth > max {
        FibonacciGrows(max + 3, ns[k].depth + 2);
      }
    }
  }

  lemma GradedLeaves(t: Shape, f: seq<nat>, wt: seq<nat>, s: seq<Word>)
    requires t.Valid() && GradedTree(t.ch, t.root, f, wt, SumFreq(s)) && SymbolsWeigh(s, f)
    requires multiset(Labels(s)) == multiset(t.syms)
    requires LeastCost.Cheapest(Freqs(s), WeightFrom(wt, t.root + 1))
    ensures LeastLeaves(t.Leaves(HEAP_TREE_SIZE), t.syms, f)
    ensures RareDeep(t.Leaves(HEAP_TREE_SIZE), f) && FrequentFirst(t.Leaves(HEAP_TREE_SIZE), f)
  {
    hide FullTree, GradedTree, SymbolsWeigh, Labels, Freqs, WeightFrom, LeastCost.Cheapest, Shape.Leaves, RareDeep,
      FrequentFirst, LeastLeaves;
    TreeLeast(t, f, wt, s);
    t.LeavesByWeight(f, wt, SumFreq(s));
    t.LeavesFall(f, wt, SumFreq(s), HEAP_TREE_SIZE);
  }

  // build_huff_tree and fix_code_lens on a zeroed tree. The leaves of the tree cost least; they are
  // the result unless one of them is too deep.
  method LeafLengths(heap: array<Word>, heapSize: nat, blCount: array<nat>, tree: array<Node>, max: nat,
                     ghost syms: seq<nat>, ghost f: seq<nat>, ghost total: nat)
    returns (root: nat, j: nat, ok: bool, ghost leaves: seq<Node>)
    requires heap.Length == tree.Length == HEAP_TREE_SIZE && 2 <= heapSize <= MAX_HISTHEAP_SIZE && heapSize == |syms|
    requires Ordered(heap[..], heapSize, 1) && heap[heapSize + 1] == TOP
    requires Symbols(syms) && multiset(Labels(heap[1..heapSize + 1])) == multiset(syms)
    requires (forall q :: 0 <= q < tree.Length ==> tree[q].depth == 0) && 1 <= max < blCount.Length
    modifies heap, blCount, tree
    ensures ok <==> heapSize <= Pow2(max)
    ensures root <= j <= tree.Length
    ensures ok ==> LimitedCode(tree[root..j], blCount[..], max, syms)
    ensures WholeLeaves(leaves, MAX_HISTHEAP_SIZE) && (ok ==> tree[root..j] == leaves || DeeperThan(leaves, max))
    ensures old(GivenBy(heap[1..heapSize + 1], f)) ==> LeastLeaves(leaves, syms, f) && (ok ==> RareDeep(tree[root..j], f))
    ensures old(GivenBy(heap[1..heapSize + 1], f) && LightEnough(heap[1..heapSize + 1], syms, f, max)) ==>
              !DeeperThan(leaves, max)
    ensures old(Dyadic(heap[1..heapSize + 1], total) && SymbolsWeigh(heap[1..heapSize + 1], f)) ==>
              EnoughWeight(syms, f, total, max) ==> ok && DeepAsWeighed(tree[root..j], f, total)
  {
    hide Label, Labels, Ordered, Symbols, FullTree, Children, SumFreq, Freq, SymbolsWeigh, Dyadic, Weighted, GradedTree,
      EnoughWeight, DeepAsWeighed, LimitedCode, LeastLeaves, WholeLeaves, RareDeep, FrequentFirst, Redealt, DeeperThan,
      GivenBy, LightEnough, Pow2, Shape.Leaves, Shape.Depth, Shape.Valid, Freqs, WeightFrom, LeastCost.Cheapest;
    var count := new nat[tree.Length](_ => 0);
    ghost var wt;
    ghost var given := heap[1..heapSize + 1];
    root, wt := BuildHuffTree(heap, heapSize, tree, syms, f, total);
    ghost var t := Shape(Children(tree[..]), root, syms);
    ShapeValid(t);
    leaves := t.Leaves(HEAP_TREE_SIZE);
    LeavesWhole(t);
    if Weighted(t.ch, root, f, wt, total) && EnoughWeight(syms, f, total, max) {
      WeighedLeaves(t, f, wt, total, max);
    }
    GivenMeans(given, f);
    if GivenBy(given, f) {
      GradedLeaves(t, f, wt, given);
      if LightEnough(given, syms, f, max) {
        NotTooDeep(t, f, wt, given, max);
      }
    }
    j, ok := FixCodeLens(tree, root, count, blCount, max, t);
    NotDeeperThan(leaves, max);
    if GivenBy(given, f) && ok && Redealt(tree[root..j], leaves) {
      RedealtRare(tree[root..j], leaves, f);
    }
  }

  lemma GivenMeans(s: seq<Word>, f: seq<nat>)
    ensures GivenBy(s, f) <==> SumFreq(s) < FREQ_BOUND && SymbolsWeigh(s, f)
  {
  }

  lemma NotDeeperThan(leaves: seq<Node>, max: nat)
    ensures DeeperThan(leaves, max) || forall i :: 0 <= i < |leaves| ==> leaves[i].depth <= max
  {
  }

  // No symbol is so rare that its code would be longer than max bits.
  ghost predicate EnoughWeight(syms: seq<nat>, f: seq<nat>, total: nat, max: nat) {
    forall x :: x in syms ==> x < |f| && f[x] * Pow2(max) >= Pow2(total)
  }

  lemma WeighedLeaves(t: Shape, f: seq<nat>, wt: seq<nat>, total: nat, max: nat)
    requires t.Valid() && Weighted(t.ch, t.root, f, wt, total) && EnoughWeight(t.syms, f, total, max)
    ensures DeepAsWeighed(t.Leaves(HEAP_TREE_SIZE), f, total)
    ensures forall i :: 0 <= i < |t.Leaves(HEAP_TREE_SIZE)| ==> t.Leaves(HEAP_TREE_SIZE)[i].depth <= max
  {
    hide FullTree, Pow2, Shape.Leaves, Weighted;
    t.LeafWeights(f, wt, total, HEAP_TREE_SIZE);
    t.LeafSymbols();
    var ns := t.Leaves(HEAP_TREE_SIZE);
    forall i | 0 <= i < |ns| ensures ns[i].depth <= max {
      assert Children(ns)[i] in multiset(Children(ns));
      assert ns[i].child in multiset(t.syms);
      NotDeeper(f[ns[i].child], ns[i].depth, total, max);
    }
  }

  lemma NotDeeper(v: nat, d: nat, total: nat, max: nat)
    requires v * Pow2(d) == Pow2(total) && v * Pow2(max) >= Pow2(total)
    ensures d <= max
  {
    if d > max {
      Pow2Less(max, d);
      if v == 0 {
        assert false;
      }
      StrictProduct(v, Pow2(max), Pow2(d));
    }
  }

  lemma StrictProduct(v: nat, a: nat, b: nat)
    requires v > 0 && a < b
    ensures v * a < v * b
  {
    assert v * (b - a) > 0;
  }

  lemma ShapeValid(t: Shape)
    requires FullTree(t.ch, t.root, t.syms)
    ensures t.Valid() && t.root < |t.ch|
  {
  }

  // gen_huff_code_lens for the n entries from codes[off] on; codes_count of them are cleared.
  method GenHuffCodeLens(heap: array<Word>, heapSize: nat, blCount: array<nat>, codes: array<HuffCode>, off: nat,
                         codesCount: nat, max: nat, ghost syms: seq<nat>, ghost n: nat, ghost f: seq<nat>,
                         ghost total: nat) returns (ok: bool)
    requires heap.Length == HEAP_TREE_SIZE && 2 <= heapSize <= MAX_HISTHEAP_SIZE && heapSize == |syms|
    requires Ordered(heap[..], heapSize, 1) && heap[heapSize + 1] == TOP
    requires Symbols(syms) && multiset(Labels(heap[1..heapSize + 1])) == multiset(syms)
    requires 1 <= max < blCount.Length && off + n <= codes.Length && codesCount <= n
    requires (forall i :: 0 <= i < |syms| ==> syms[i] < n) && forall x :: codesCount <= x < n ==> x in syms
    modifies heap, blCount, codes
    ensures ok <==> heapSize <= Pow2(max)
    ensures ok ==> CodeLengths(Lengths(codes[off..off + n]), syms, blCount[..], max)
    // frequencies that are powers of two and add up to one decide the lengths
    ensures old(Dyadic(heap[1..heapSize + 1], total) && SymbolsWeigh(heap[1..heapSize + 1], f)) ==>
              EnoughWeight(syms, f, total, max) ==> ok && LengthsWeigh(Lengths(codes[off..off + n]), syms, f, total)
    // a more frequent symbol never gets a longer code, and no code costs less unless it is too long
    ensures old(GivenBy(heap[1..heapSize + 1], f)) ==> ok ==>
              ByFrequency(Lengths(codes[off..off + n]), syms, f)
    ensures old(GivenBy(heap[1..heapSize + 1], f)) ==> ok ==>
              LeastCode(Lengths(codes[off..off + n]), syms, f) || LimitMatters(syms, f, n, max)
    // which takes frequencies of some sum
    ensures old(GivenBy(heap[1..heapSize + 1], f) && LightEnough(heap[1..heapSize + 1], syms, f, max)) ==> ok ==>
              LeastCode(Lengths(codes[off..off + n]), syms, f)
    ensures ok ==> forall q :: off <= q < off + codesCount ==> codes[q].code == 0 && codes[q].extraBitCount == 0
    ensures forall q :: 0 <= q < codes.Length && !(off <= q < off + n) ==> codes[q] == old(codes[q])
  {
    hide Label, Labels, Ordered, Symbols, Children, SumFreq, Freq, SymbolsWeigh, Dyadic, EnoughWeight, DeepAsWeighed,
      LimitedCode, LeastLeaves, WholeLeaves, RareDeep, DeeperThan, GivenBy, LightEnough, Pow2, Stored, CodeLengths, LengthsFrom,
      Lengths, LengthsWeigh, ByFrequency, LeastCode, LimitMatters;
    var tree := new Node[heap.Length](_ => Node(0, 0));
    var root, j;
    ghost var leaves;
    ghost var given := heap[1..heapSize + 1];
    root, j, ok, leaves := LeafLengths(heap, heapSize, blCount, tree, max, syms, f, total);
    if ok {
      ghost var ns := tree[root..j];
      LengthsOfCode(ns, blCount[..], max, syms, n);
      LeavesInRange(ns, syms, n);
      forall p | root <= p < j ensures tree[p].child < n {
        assert tree[p] == ns[p - root];
      }
      StoreLengths(codes, off, codesCount, tree, root, j, n);
      StoredAll(codes[..], off, n, codesCount, ns, old(codes[..]));
      if DeepAsWeighed(ns, f, total) {
        WeighedLengths(ns, syms, n, blCount[..], max, f, total);
      }
      if GivenBy(given, f) {
        LengthsByFrequency(ns, syms, n, blCount[..], max, f);
        LeastOrLimited(ns, leaves, syms, n, f, max);
        if LightEnough(given, syms, f, max) {
          LeavesLeast(ns, syms, n, f);
        }
      }
    }
  }

  lemma LeastOrLimited(ns: seq<Node>, leaves: seq<Node>, syms: seq<nat>, n: nat, f: seq<nat>, max: nat)
    requires LeastLeaves(leaves, syms, f) && WholeLeaves(leaves, MAX_HISTHEAP_SIZE)
    requires Symbols(syms) && forall i :: 0 <= i < |syms| ==> syms[i] < n
    requires ns == leaves || DeeperThan(leaves, max)
    ensures LeastCode(LengthsFrom(ns, n), syms, f) || LimitMatters(syms, f, n, max)
  {
    hide LeastLeaves, WholeLeaves, LimitMatters, LeastCode, LengthsFrom;
    LeavesLeast(leaves, syms, n, f);
    if DeeperThan(leaves, max) {
      var k :| 0 <= k < |leaves| && leaves[k].depth > max;
      LimitPassed(leaves, syms, n, f, MAX_HISTHEAP_SIZE, max, k);
    }
  }

  lemma LeavesInRange(ns: seq<Node>, syms: seq<nat>, n: nat)
    requires (forall x :: x in Children(ns) <==> x in syms) && forall i :: 0 <= i < |syms| ==> syms[i] < n
    ensures forall i :: 0 <= i < |ns| ==> ns[i].child < n
  {
    forall i | 0 <= i < |ns| ensures ns[i].child < n {
      assert Children(ns)[i] in syms;
    }
  }
}
