/** create_hufftables_icf, and a whole block. */
module DeflateBlock {
  import opened Rfc1951
  import opened Bits
  import opened BitBuf
  import opened Canonical
  import opened HuffCodes
  import opened IcfCodes
  import opened IcfTables
  import opened Inflate
  import opened EncodeDf
  import opened HuffHeap
  import opened HuffTree
  import opened HuffGen
  import opened SymbolLengths
  import opened Flatten
  import opened RunLength
  import opened DynamicHeader
  import opened WriteHeader
  import opened FixedCodes
  import opened BlockSize
  import opened ShortestCodes
  import HuffMerge
  import Lz77
  import TreeShape

  const MAX_DEFLATE_CODE_LEN := 15

  // A code of all words of max bits for the symbols of the histogram, and others up to two.
  ghost predicate CodesFor(lengths: seq<nat>, hist: seq<nat>) {
    && |lengths| == |hist| && Fits(lengths) && Kraft(Counts(lengths), MAX_BITS) == Pow2(MAX_BITS)
    && |hist| >= 2 && (forall x :: 0 <= x < |hist| ==> (lengths[x] > 0 <==> x in Coded(hist, |hist|)))
    && (forall x :: 0 <= x < |hist| && hist[x] > 0 ==> lengths[x] > 0)
    && LastUsed(lengths, |lengths|) > 0
  }

  lemma {:induction false} LastUsedFrom(lengths: seq<nat>, n: nat, x: nat)
    requires x < n <= |lengths| && lengths[x] > 0
    ensures x <= LastUsed(lengths, n) < n
  {
    if lengths[n - 1] == 0 {
      LastUsedFrom(lengths, n - 1, x);
    }
  }

  lemma CodesForHistogram(lengths: seq<nat>, hist: seq<nat>, blCount: seq<nat>)
    requires 2 <= |hist| == |lengths| <= MAX_HISTHEAP_SIZE
    requires CodeLengths(lengths, Coded(hist, |hist|), blCount, 15)
    ensures CodesFor(lengths, hist)
  {
    hide Kraft, Count, Coded, Pow2;
    forall x | 0 <= x < |hist| && hist[x] > 0 ensures lengths[x] > 0 {
      CodedIf(hist, |hist|, x);
    }
    CodedDistinct(hist, |hist|);
    var s := Coded(hist, |hist|);
    var x := if s[0] == 0 then s[1] else s[0];
    assert x in s && x > 0;
    LastUsedFrom(lengths, |lengths|, x);
  }

  lemma EnoughWords(n: nat)
    requires n <= MAX_HISTHEAP_SIZE
    ensures n <= Pow2(15)
  {
    assert Pow2(15) == 32768;
  }

  // The more frequent symbol has no longer code. Unless all codes of least cost are too long ones, no
  // code is shorter for these symbols; they are not as long for less than 2584 = Fibonacci(18) of them.
  ghost predicate ShortestWithin(lengths: seq<nat>, hist: seq<nat>) {
    |hist| >= 2 && (
      (SumUpTo(hist, |hist|) + 2 < 2584 ==> Shortest(lengths, hist))
      && (SumUpTo(hist, |hist|) + 2 < HuffMerge.FREQ_BOUND ==>
            ByFrequency(lengths, Coded(hist, |hist|), Padded(hist, |hist|)))
      && (SumUpTo(hist, |hist|) + 2 < HuffMerge.FREQ_BOUND ==>
            Shortest(lengths, hist)
            || LimitMatters(Coded(hist, |hist|), Padded(hist, |hist|), |hist|, 15)))
  }

  lemma FibonacciBound()
    ensures TreeShape.Fibonacci(15 + 3) == 2584
  {
    assert TreeShape.Fibonacci(6) == 8 && TreeShape.Fibonacci(7) == 13;
    assert TreeShape.Fibonacci(8) == 21 && TreeShape.Fibonacci(9) == 34;
    assert TreeShape.Fibonacci(10) == 55 && TreeShape.Fibonacci(11) == 89;
    assert TreeShape.Fibonacci(12) == 144 && TreeShape.Fibonacci(13) == 233;
    assert TreeShape.Fibonacci(14) == 377 && TreeShape.Fibonacci(15) == 610;
    assert TreeShape.Fibonacci(16) == 987 && TreeShape.Fibonacci(17) == 1597;
  }

  lemma CodedMeans(lengths: seq<nat>, hist: seq<nat>)
    requires CodesFor(lengths, hist)
    ensures 2 <= |hist| == |lengths| && forall x :: 0 <= x < |hist| ==> (lengths[x] > 0 <==> x in Coded(hist, |hist|))
  {
    hide Coded, Fits, Kraft;
  }

  // init_heap, gen_huff_code_lens and set_huff_codes or set_dist_huff_codes for n symbols
  method CodesOfHistogram(hist: array<nat>, n: nat, table: array<HuffCode>, off: nat, dist: bool) returns (maxCode: nat)
    requires 2 <= n <= MAX_HISTHEAP_SIZE && n <= hist.Length && off + n <= table.Length
    modifies table
    ensures CodesFor(Lengths(table[off..off + n]), hist[..n]) && ShortestWithin(Lengths(table[off..off + n]), hist[..n])
    ensures forall q :: off <= q < off + n ==> Assigned(table[q], HuffCode(0, 0, 0), Lengths(table[off..off + n]), q - off, dist)
    ensures forall q :: 0 <= q < table.Length && !(off <= q < off + n) ==> table[q] == old(table[q])
    ensures maxCode == LastUsed(Lengths(table[off..off + n]), n)
  {
    hide Coded, CodesFor, CodeLengths, Fits, Kraft, Assigned, Lengths, Labels, Ordered, Symbols, LastUsed, Count,
      Pow2, Padded, WordsOf, SumUpTo, Shortest, LeastCode, LimitMatters, GivenBy, LightEnough, TreeShape.Fibonacci,
      ByFrequency;
    var heap := new Word[HEAP_TREE_SIZE](_ => 0);
    var blCount := new nat[MAX_DEFLATE_CODE_LEN + 1](_ => 0);
    ghost var h := hist[..n];
    var heapSize := InitHeap(heap, hist, n, n);
    CodedDistinct(h, n);
    EnoughWords(heapSize);
    ghost var given, f := heap[1..heapSize + 1], Padded(h, n);
    if SumUpTo(h, n) + 2 < HuffMerge.FREQ_BOUND {
      HistogramGiven(given, h, n);
      if SumUpTo(h, n) + 2 < 2584 {
        FibonacciBound();
        HistogramLight(given, h, n, MAX_DEFLATE_CODE_LEN);
      }
    }
    var ok := GenHuffCodeLens(heap, heapSize, blCount, table, off, n, MAX_DEFLATE_CODE_LEN, Coded(h, n), n, f, 0);
    ghost var before := table[..];
    ghost var lengths := Lengths(table[off..off + n]);
    CodesForHistogram(lengths, h, blCount[..]);
    CodedMeans(lengths, h);
    if LeastCode(lengths, Coded(h, n), f) {
      LeastIsShortest(lengths, h);
    }
    LengthsReady(table[..], off, lengths, Coded(h, n), blCount[..]);
    maxCode := SetHuffCodes(table, off, n, blCount, dist, MAX_DEFLATE_CODE_LEN);
    forall q | off <= q < off + n ensures Assigned(table[q], HuffCode(0, 0, 0), lengths, q - off, dist) {
      AssignedAfter(table[q], before[q], lengths, q - off, dist);
    }
  }

  lemma LengthsReady(table: seq<HuffCode>, off: nat, lengths: seq<nat>, syms: seq<nat>, blCount: seq<nat>)
    requires off + |lengths| <= |table| && Lengths(table[off..off + |lengths|]) == lengths
    requires CodeLengths(lengths, syms, blCount, 15)
    ensures Fits(lengths) && |blCount| > 15 && blCount[0] == 0
    ensures forall q :: off <= q < off + |lengths| ==> table[q].length <= 15
    ensures forall l :: 1 <= l <= 15 ==> blCount[l] == Count(lengths, l)
  {
    hide Kraft, Count, Pow2;
    forall q | off <= q < off + |lengths| ensures table[q].length <= MAX_DEFLATE_CODE_LEN {
      assert lengths[q - off] == table[off..off + |lengths|][q - off].length;
    }
  }

  lemma AssignedAfter(h: HuffCode, before: HuffCode, lengths: seq<nat>, i: nat, dist: bool)
    requires i < |lengths| && Assigned(h, before, lengths, i, dist) && before.extraBitCount == 0
    ensures Assigned(h, HuffCode(0, 0, 0), lengths, i, dist)
  {
  }

  // ---- create_hufftables_icf ----

  lemma TablesCoded(table: seq<HuffCode>, c: BlockCodes)
    requires |table| == TABLE_SIZE && c.ll == Lengths(table[LIT_TABLE..LIT_TABLE + LIT_LEN])
    requires c.dd == Lengths(table[..DIST_LEN]) && Fits(c.ll) && Fits(c.dd)
    requires forall q :: LIT_TABLE <= q < LIT_TABLE + LIT_LEN ==>
               Assigned(table[q], HuffCode(0, 0, 0), c.ll, q - LIT_TABLE, false)
    requires forall q :: 0 <= q < DIST_LEN ==> Assigned(table[q], HuffCode(0, 0, 0), c.dd, q, true)
    ensures CodeTables(table, c)
  {
    hide Fits, StoresCode, Lengths;
  }

  lemma CodesForMeans(lengths: seq<nat>, hist: seq<nat>)
    requires CodesFor(lengths, hist)
    ensures |lengths| == |hist| && Fits(lengths) && LastUsed(lengths, |lengths|) > 0
    ensures forall x :: 0 <= x < |hist| && hist[x] > 0 ==> lengths[x] > 0 && LastUsed(lengths, |lengths|) >= x
  {
    hide Fits, Kraft;
    forall x | 0 <= x < |hist| && hist[x] > 0 ensures LastUsed(lengths, |lengths|) >= x {
      LastUsedFrom(lengths, |lengths|, x);
    }
  }

  lemma SameSlice<T>(s: seq<T>, t: seq<T>, from: nat, end: nat)
    requires from <= end <= |s| && end <= |t| && forall q :: from <= q < end ==> s[q] == t[q]
    ensures s[from..end] == t[from..end]
  {
  }

  // The symbols of the tokens, and at least one end of block.
  function BlockHistogram(numbers: seq<nat>): (h: seq<nat>)
    requires |numbers| == LL_NUMBERS
    ensures |h| == LIT_LEN
  {
    seq(LIT_LEN, (s: nat) requires s < LIT_LEN => if s == 256 && Folded(numbers, s) == 0 then 1 else Folded(numbers, s))
  }

  // The codes of both alphabets.
  method CreateCodes(llHist: array<nat>, dHist: array<nat>, table: array<HuffCode>)
    returns (maxLl: nat, maxD: nat, ghost c: BlockCodes)
    requires llHist.Length == LL_NUMBERS && dHist.Length == DIST_LEN && llHist != dHist
    requires table.Length == TABLE_SIZE
    modifies llHist, table
    ensures c.ll == Lengths(table[LIT_TABLE..LIT_TABLE + LIT_LEN]) && c.dd == Lengths(table[..DIST_LEN])
    ensures CodeTables(table[..], c)
    // symbols that occur have codes, and so has the end of the block
    ensures |c.ll| == LIT_LEN && |c.dd| == DIST_LEN && c.ll[256] > 0
    ensures CodesFor(c.ll, BlockHistogram(old(llHist[..]))) && CodesFor(c.dd, dHist[..])
    ensures ShortestWithin(c.ll, BlockHistogram(old(llHist[..]))) && ShortestWithin(c.dd, dHist[..])
    ensures forall sym :: 0 <= sym < LIT_LEN && Folded(old(llHist[..]), sym) > 0 ==> c.ll[sym] > 0
    ensures forall sym :: 0 <= sym < DIST_LEN && dHist[sym] > 0 ==> c.dd[sym] > 0
    // the two assertions of create_hufftables_icf
    ensures 256 <= maxLl == LastUsed(c.ll, LIT_LEN) && 0 < maxD == LastUsed(c.dd, DIST_LEN)
    // what is counted, and nothing behind the last symbols
    ensures llHist[..LIT_LEN] == BlockHistogram(old(llHist[..]))
    ensures forall sym :: maxLl < sym < LIT_LEN ==> llHist[sym] == 0
    ensures forall sym :: maxD < sym < DIST_LEN ==> dHist[sym] == 0
  {
    hide CodesFor, ShortestWithin, Fits, Assigned, Lengths, LastUsed, Folded, CodeTables;
    ghost var numbers := llHist[..];
    FlattenLL(llHist);
    if llHist[256] == 0 {
      llHist[256] := 1;
    }
    ghost var hist := llHist[..LIT_LEN];
    maxLl := CodesOfHistogram(llHist, LIT_LEN, table, LIT_TABLE, false);
    ghost var lits := table[..];
    maxD := CodesOfHistogram(dHist, DIST_LEN, table, 0, true);
    SameSlice(lits, table[..], LIT_TABLE, LIT_TABLE + LIT_LEN);
    assert table[0..0 + DIST_LEN] == table[..DIST_LEN];
    c := BlockCodes(Lengths(table[LIT_TABLE..LIT_TABLE + LIT_LEN]), Lengths(table[..DIST_LEN]));
    CodesForMeans(c.ll, hist);
    CodesForMeans(c.dd, dHist[..DIST_LEN]);
    TablesCoded(table[..], c);
    assert hist[256] > 0;
    assert llHist[..LIT_LEN] == hist && dHist[..DIST_LEN] == dHist[..];
    assert hist == BlockHistogram(numbers);
    forall sym | 0 <= sym < LIT_LEN && Folded(numbers, sym) > 0 ensures c.ll[sym] > 0 {
      assert hist[sym] > 0;
    }
  }

  // ---- from the match finder to the bits of a block ----

  // The codes of the token histograms have the symbols of all the tokens.
  lemma TokensCovered(tokens: seq<Icf>, numbers: seq<nat>, dists: seq<nat>, c: BlockCodes)
    requires Lz77.Meaningful(tokens) && |numbers| == LL_NUMBERS && |dists| == DIST_LEN
    requires forall s :: 0 <= s < LL_NUMBERS ==> numbers[s] == Lz77.CountLitLen(tokens, s)
    requires forall s :: 0 <= s < DIST_LEN ==> dists[s] == Lz77.CountDist(tokens, s)
    requires LIT_LEN <= |c.ll| && DIST_LEN <= |c.dd| && c.ll[256] > 0
    requires forall sym :: 0 <= sym < LIT_LEN && Folded(numbers, sym) > 0 ==> c.ll[sym] > 0
    requires forall sym :: 0 <= sym < DIST_LEN && dists[sym] > 0 ==> c.dd[sym] > 0
    ensures AllCovered(c, tokens + [END_TOKEN])
  {
    hide Folded, Meaning, LenSym, SymbolOf;
    var all := tokens + [END_TOKEN];
    forall i | 0 <= i < |all| ensures Covers(c, all[i]) {
      if i < |tokens| {
        NumbersBounded(tokens);
        var sym := SymbolOf(tokens[i].litLen);
        FoldedCounts(numbers, tokens, sym);
        SymbolCounted(tokens, i);
        DistCounted(tokens, i);
        TokenCovers(c, tokens[i]);
      } else {
        EndCovered(c);
      }
    }
  }

  lemma NumbersBounded(tokens: seq<Icf>)
    requires Lz77.Meaningful(tokens)
    ensures forall i :: 0 <= i < |tokens| ==> tokens[i].litLen < LL_NUMBERS
  {
  }

  lemma TokenCovers(c: BlockCodes, t: Icf)
    requires Meaning(t).Some? && LIT_LEN <= |c.ll| && DIST_LEN <= |c.dd| && t.litLen < LL_NUMBERS
    requires c.ll[SymbolOf(t.litLen)] > 0 && (t.litDist < DIST_LEN ==> c.dd[t.litDist] > 0)
    ensures Covers(c, t)
  {
  }

  lemma EndCovered(c: BlockCodes)
    requires LIT_LEN <= |c.ll| && c.ll[256] > 0
    ensures Covers(c, END_TOKEN)
  {
  }

  lemma StreamTokens(s: Lz77.IcfStream)
    requires s.Valid()
    ensures Lz77.Meaningful(s.tokens) && s.blockStart <= s.totalIn <= |s.input|
    ensures Expand(s.input[..s.blockStart], Lz77.Items(s.tokens)) == Some(s.input[..s.totalIn])
    ensures s.llHist.Length == LL_NUMBERS && s.dHist.Length == DIST_LEN && s.llHist != s.dHist
    ensures forall x :: 0 <= x < LL_NUMBERS ==> s.llHist[..][x] == Lz77.CountLitLen(s.tokens, x)
    ensures forall x :: 0 <= x < DIST_LEN ==> s.dHist[..][x] == Lz77.CountDist(s.tokens, x)
  {
    hide Meaning, Expand;
  }

  // ---- the header ----

  lemma {:induction false} NotUsedAbove(lengths: seq<nat>, n: nat, x: nat)
    requires n <= |lengths| && LastUsed(lengths, n) < x < n
    ensures lengths[x] == 0
  {
    if x < n - 1 {
      NotUsedAbove(lengths, n - 1, x);
    }
  }

  // Cut behind their last used symbols and filled up with zeros, the lengths are what they were.
  lemma CutAndFilled(ll: seq<nat>, dd: seq<nat>, maxLl: nat, maxD: nat, final: bool)
    requires |ll| == LITERALS && |dd| == DISTANCES && 256 <= maxLl == LastUsed(ll, LITERALS) && maxD == LastUsed(dd, DISTANCES)
    ensures maxLl < LITERALS && maxD < DISTANCES
    ensures |ll[..maxLl + 1] + dd[..maxD + 1]| == maxLl - 256 + 257 + maxD + 1
    ensures SplitLengths(final, ll[..maxLl + 1] + dd[..maxD + 1], maxLl - 256, maxD) == Some(Header(final, ll, dd))
  {
    LastUsedBelow(ll, LITERALS);
    LastUsedBelow(dd, DISTANCES);
    hide LastUsed;
    forall x | maxLl < x < LITERALS ensures ll[x] == 0 {
      NotUsedAbove(ll, LITERALS, x);
    }
    forall x | maxD < x < DISTANCES ensures dd[x] == 0 {
      NotUsedAbove(dd, DISTANCES, x);
    }
    var lengths := ll[..maxLl + 1] + dd[..maxD + 1];
    assert lengths[..maxLl + 1] == ll[..maxLl + 1] && lengths[maxLl + 1..] == dd[..maxD + 1];
    assert ll[..maxLl + 1] + Repeat(0, LITERALS - 1 - maxLl) == ll;
    assert dd[..maxD + 1] + Repeat(0, DISTANCES - 1 - maxD) == dd;
  }

  lemma {:induction false} LastUsedBelow(lengths: seq<nat>, n: nat)
    requires 0 < n <= |lengths|
    ensures LastUsed(lengths, n) < n
  {
    if n > 1 {
      LastUsedBelow(lengths, n - 1);
    }
  }

  lemma CombinedShort(c: BlockCodes, combined: seq<nat>, maxLl: nat, maxD: nat)
    requires |c.ll| == LIT_LEN && |c.dd| == DIST_LEN && Fits(c.ll) && Fits(c.dd) && maxLl < LIT_LEN && maxD < DIST_LEN
    requires combined == c.ll[..maxLl + 1] + c.dd[..maxD + 1]
    ensures forall i :: 0 <= i < |combined| ==> combined[i] <= 15
  {
    hide Kraft;
  }

  lemma BothFit(table: seq<HuffCode>, c: BlockCodes)
    requires CodeTables(table, c) && |c.ll| == LIT_LEN && |c.dd| == DIST_LEN
    ensures Fits(c.ll) && Fits(c.dd) && |c.ll| == LIT_LEN == LITERALS && |c.dd| == DIST_LEN == DISTANCES
  {
    hide Fits;
  }

  lemma LengthsCut(table: seq<HuffCode>, c: BlockCodes, maxLl: nat, maxD: nat)
    requires |table| == TABLE_SIZE && maxLl < LIT_LEN && maxD < DIST_LEN
    requires c.ll == Lengths(table[LIT_TABLE..LIT_TABLE + LIT_LEN]) && c.dd == Lengths(table[..DIST_LEN])
    ensures Lengths(table[LIT_TABLE..LIT_TABLE + maxLl + 1]) == c.ll[..maxLl + 1]
    ensures Lengths(table[..maxD + 1]) == c.dd[..maxD + 1]
  {
    var lits := table[LIT_TABLE..LIT_TABLE + LIT_LEN];
    assert table[LIT_TABLE..LIT_TABLE + maxLl + 1] == lits[..maxLl + 1];
    assert table[..maxD + 1] == table[..DIST_LEN][..maxD + 1];
  }

  // The lengths up to the last symbols in use, and the header that create_header writes for them.
  ghost predicate MadeFor(header: seq<bool>, final: bool, c: BlockCodes) {
    && |c.ll| == LIT_LEN && |c.dd| == DIST_LEN
    && 256 <= LastUsed(c.ll, LIT_LEN) < LIT_LEN && LastUsed(c.dd, DIST_LEN) < DIST_LEN
    && HeaderFor(header, final, LastUsed(c.ll, LIT_LEN) - 256, LastUsed(c.dd, DIST_LEN),
                 RlSymbols(c.ll[..LastUsed(c.ll, LIT_LEN) + 1] + c.dd[..LastUsed(c.dd, DIST_LEN) + 1]))
  }

  // The run length coded lengths as a header.
  method WriteLengths(bb: BitBuf2, table: array<HuffCode>, maxLl: nat, maxD: nat, final: bool, ghost c: BlockCodes)
    requires bb.Valid() && bb.count < 8 && bb.out + HEADER_ROOM <= bb.buf.Length
    requires table.Length == TABLE_SIZE && CodeTables(table[..], c)
    requires c.ll == Lengths(table[LIT_TABLE..LIT_TABLE + LIT_LEN]) && c.dd == Lengths(table[..DIST_LEN])
    requires |c.ll| == LIT_LEN && |c.dd| == DIST_LEN
    requires 256 <= maxLl == LastUsed(c.ll, LIT_LEN) && maxD == LastUsed(c.dd, DIST_LEN)
    modifies bb`out, bb`bits, bb`count, bb.buf
    ensures bb.Valid() && bb.count < 8 && old(bb.Contents()) <= bb.Contents()
    ensures HeaderIs(bb.Contents()[|old(bb.Contents())|..], Header(final, c.ll, c.dd))
    ensures MadeFor(bb.Contents()[|old(bb.Contents())|..], final, c)
    ensures |bb.Contents()| + 64 <= |old(bb.Contents())| + 8 * 294
    ensures old(bb.out) <= bb.out && bb.buf[..old(bb.out)] == old(bb.buf[..bb.out])
  {
    hide CodeTables, Fits, Lengths, LastUsed, HeaderIs, HeaderFor, RlExpand, RlSymbols, CountCode, SplitLengths, BytesBits,
      BitsOf;
    BothFit(table[..], c);
    CutAndFilled(c.ll, c.dd, maxLl, maxD, final);
    var n := maxLl + maxD + 2;
    var combined := CombineLengths(table, LIT_TABLE, maxLl + 1, table, maxD + 1);
    LengthsCut(table[..], c, maxLl, maxD);
    ghost var lengths := combined[..n];
    CombinedShort(c, lengths, maxLl, maxD);
    assert forall i :: 0 <= i < n ==> combined[i] == lengths[i];
    var counts := new nat[HUFF_LEN](_ => 0);
    var tokens := new RlCode[LIT_LEN + DIST_LEN](_ => RlCode(0, 0));
    var length := RlEncode(combined, n, counts, tokens);
    CreateHeader(bb, tokens, length, counts, maxLl - 256, maxD, final, lengths);
  }

  // ---- how long the block would be ----

  // One turn: what a symbol adds to compressed_len or static_compressed_len.
  lemma SymbolAdds(sum: nat, h: seq<nat>, w: nat -> nat, n: nat, width: nat)
    requires n < |h| && sum == Weighted32(h, w, n) && w(n) == width
    ensures sum + Times32(width, h[n]) == Weighted32(h, w, n + 1)
  {
  }

  // The loops over literals and lengths, for compressed_len and static_compressed_len.
  method SumLitLengths(table: array<HuffCode>, llHist: array<nat>, maxLl: nat, ghost ll: seq<nat>)
    returns (compressedLen: nat, staticCompressedLen: nat)
    requires table.Length == TABLE_SIZE && llHist.Length == LL_NUMBERS && maxLl < LIT_LEN
    requires |ll| == LIT_LEN && forall i :: 0 <= i < LIT_LEN ==> table[LIT_TABLE + i].length == ll[i]
    ensures compressedLen == Weighted32(llHist[..LIT_LEN], LlWeight(ll), maxLl + 1)
    ensures staticCompressedLen == Weighted32(llHist[..LIT_LEN], LlWeight(FixedLl()), maxLl + 1)
  {
    ghost var h := llHist[..LIT_LEN];
    NoWeight(h, LlWeight(ll));
    NoWeight(h, LlWeight(FixedLl()));
    hide StaticEntry, Weighted32, Times32, FixedLl, LlWeight, LengthExtraBits;
    compressedLen, staticCompressedLen := 0, 0;
    for i := 0 to maxLl + 1
      invariant compressedLen == Weighted32(h, LlWeight(ll), i)
      invariant staticCompressedLen == Weighted32(h, LlWeight(FixedLl()), i)
    {
      LlWeightIs(ll, i);
      // the loop up to 256 has no extra bits
      var extra := if i <= 256 then 0 else LengthExtraBits(i);
      var width, staticWidth := table[LIT_TABLE + i].length + extra, StaticEntry(LIT_TABLE + i).length + extra;
      SymbolAdds(compressedLen, h, LlWeight(ll), i, width);
      SymbolAdds(staticCompressedLen, h, LlWeight(FixedLl()), i, staticWidth);
      compressedLen := compressedLen + Times32(width, llHist[i]);
      staticCompressedLen := staticCompressedLen + Times32(staticWidth, llHist[i]);
    }
  }

  // The loop over distances.
  method SumDistLengths(table: array<HuffCode>, dHist: array<nat>, maxD: nat, ghost dd: seq<nat>)
    returns (compressedLen: nat, staticCompressedLen: nat)
    requires table.Length == TABLE_SIZE && dHist.Length == DIST_LEN && maxD < DIST_LEN
    requires |dd| == DIST_LEN && forall i :: 0 <= i < DIST_LEN ==> table[i].length == dd[i]
    ensures compressedLen == Weighted32(dHist[..], DWeight(dd), maxD + 1)
    ensures staticCompressedLen == Weighted32(dHist[..], DWeight(FixedDd()), maxD + 1)
  {
    ghost var d := dHist[..];
    NoWeight(d, DWeight(dd));
    NoWeight(d, DWeight(FixedDd()));
    hide StaticEntry, Weighted32, Times32, FixedDd, DWeight, DistanceExtraBits;
    compressedLen, staticCompressedLen := 0, 0;
    for i := 0 to maxD + 1
      invariant compressedLen == Weighted32(d, DWeight(dd), i)
      invariant staticCompressedLen == Weighted32(d, DWeight(FixedDd()), i)
    {
      DWeightIs(dd, i);
      var width, staticWidth := table[i].length + DistanceExtraBits(i), StaticEntry(i).length + DistanceExtraBits(i);
      SymbolAdds(compressedLen, d, DWeight(dd), i, width);
      SymbolAdds(staticCompressedLen, d, DWeight(FixedDd()), i, staticWidth);
      compressedLen := compressedLen + Times32(width, dHist[i]);
      staticCompressedLen := staticCompressedLen + Times32(staticWidth, dHist[i]);
    }
  }

  // compressed_len and static_compressed_len, without the header of the former
  method SumLengths(table: array<HuffCode>, llHist: array<nat>, dHist: array<nat>, maxLl: nat, maxD: nat, ghost c: BlockCodes)
    returns (compressedLen: nat, staticCompressedLen: nat)
    requires table.Length == TABLE_SIZE && llHist.Length == LL_NUMBERS && dHist.Length == DIST_LEN
    requires |c.ll| == LIT_LEN && forall i :: 0 <= i < LIT_LEN ==> table[LIT_TABLE + i].length == c.ll[i]
    requires |c.dd| == DIST_LEN && forall i :: 0 <= i < DIST_LEN ==> table[i].length == c.dd[i]
    requires maxLl < LIT_LEN && maxD < DIST_LEN
    ensures compressedLen == Weighted32(llHist[..LIT_LEN], LlWeight(c.ll), maxLl + 1)
                             + Weighted32(dHist[..], DWeight(c.dd), maxD + 1)
    ensures staticCompressedLen == 3 + Weighted32(llHist[..LIT_LEN], LlWeight(FixedLl()), maxLl + 1)
                                     + Weighted32(dHist[..], DWeight(FixedDd()), maxD + 1)
  {
    hide Weighted32, FixedLl, FixedDd, LlWeight, DWeight;
    var ll, staticLl := SumLitLengths(table, llHist, maxLl, c.ll);
    var dd, staticDd := SumDistLengths(table, dHist, maxD, c.dd);
    compressedLen, staticCompressedLen := ll + dd, 3 + staticLl + staticDd;
  }

  lemma LengthsAt(table: seq<HuffCode>, c: BlockCodes)
    requires |table| == TABLE_SIZE
    requires c.ll == Lengths(table[LIT_TABLE..LIT_TABLE + LIT_LEN]) && c.dd == Lengths(table[..DIST_LEN])
    ensures |c.ll| == LIT_LEN && forall i :: 0 <= i < LIT_LEN ==> table[LIT_TABLE + i].length == c.ll[i]
    ensures |c.dd| == DIST_LEN && forall i :: 0 <= i < DIST_LEN ==> table[i].length == c.dd[i]
  {
    var lits := table[LIT_TABLE..LIT_TABLE + LIT_LEN];
    assert forall i :: 0 <= i < LIT_LEN ==> lits[i] == table[LIT_TABLE + i];
  }

  lemma NoWeight(h: seq<nat>, w: nat -> nat)
    ensures Weighted32(h, w, 0) == 0
  {
  }

  lemma LlWeightIs(ll: seq<nat>, i: nat)
    requires i < |ll| && i < LIT_LEN
    ensures LlWeight(ll)(i) == ll[i] + (if i <= 256 then 0 else LengthExtraBits(i))
    ensures LlWeight(FixedLl())(i) == StaticEntry(LIT_TABLE + i).length + (if i <= 256 then 0 else LengthExtraBits(i))
  {
    LengthsAre(i);
    hide FixedLl, StaticCode;
  }

  lemma DWeightIs(dd: seq<nat>, i: nat)
    requires i < |dd| && i < DIST_LEN
    ensures DWeight(dd)(i) == dd[i] + DistanceExtraBits(i)
    ensures DWeight(FixedDd())(i) == StaticEntry(i).length + DistanceExtraBits(i)
  {
    hide DistanceExtraBits, StaticDistCode;
  }

  // ---- create_hufftables_icf ----

  ghost predicate IsBlock(bits: seq<bool>, final: bool, items: seq<Item>) {
    forall rest: seq<bool> :: ReadCompressedBlock(bits + rest) == Some((final, items, rest))
  }

  // Behind these bits, data in the codes make a block.
  ghost predicate Starts(header: seq<bool>, final: bool, c: BlockCodes) {
    forall data: seq<bool>, items: seq<Item> :: InflatesTo(c, data, items) ==> IsBlock(header + data, final, items)
  }

  lemma HeaderThenData(header: seq<bool>, data: seq<bool>, final: bool, c: BlockCodes, items: seq<Item>)
    requires HeaderIs(header, Header(final, c.ll, c.dd)) && InflatesTo(c, data, items)
    ensures IsBlock(header + data, final, items)
  {
    hide ReadHeader, ReadBlock, ReadCompressedBlock;
    forall rest: seq<bool> ensures ReadCompressedBlock(header + data + rest) == Some((final, items, rest)) {
      assert header + data + rest == header + (data + rest);
      assert ReadDynamicBlock(header + data + rest) == Some((final, items, rest));
      DynamicIsCompressed(header + data + rest);
    }
  }

  lemma DynamicStarts(header: seq<bool>, final: bool, c: BlockCodes)
    requires HeaderIs(header, Header(final, c.ll, c.dd))
    ensures Starts(header, final, c)
  {
    hide HeaderIs, InflatesTo, IsBlock;
    forall data: seq<bool>, items: seq<Item> | InflatesTo(c, data, items) ensures IsBlock(header + data, final, items) {
      HeaderThenData(header, data, final, c, items);
    }
  }

  lemma FixedStarts(final: bool)
    ensures Starts(BitsOf(if final then 3 else 2, 3), final, Fixed())
  {
    hide InflatesTo, ReadCompressedBlock, BitsOf;
    var header := BitsOf(if final then 3 else 2, 3);
    forall data: seq<bool>, items: seq<Item> | InflatesTo(Fixed(), data, items) ensures IsBlock(header + data, final, items) {
      forall rest: seq<bool> ensures ReadCompressedBlock(header + data + rest) == Some((final, items, rest)) {
        FixedRead(final, data, items, rest);
      }
    }
  }

  // memcpy of static_hufftables
  method CopyStatic(table: array<HuffCode>)
    requires table.Length == TABLE_SIZE
    modifies table
    ensures CodeTables(table[..], Fixed())
  {
    hide StaticEntry, CodeTables;
    for q := 0 to TABLE_SIZE
      invariant forall k :: 0 <= k < q ==> table[k] == StaticEntry(k)
    {
      table[q] := StaticEntry(q);
    }
    StaticTables(table[..]);
  }

  // The static tables, the state of the bit buffer before the other header, and three bits.
  method UseStatic(bb: BitBuf2, table: array<HuffCode>, out: nat, bits: nat, count: nat, final: bool, ghost before: seq<bool>)
    requires bb.Valid() && table.Length == TABLE_SIZE && bb.start <= out && out + 8 <= bb.buf.Length
    requires count < 8 && bits < Pow2(count) && before == BytesBits(bb.buf[bb.start..out]) + BitsOf(bits, count)
    modifies table, bb`out, bb`bits, bb`count, bb.buf
    ensures CodeTables(table[..], Fixed())
    ensures bb.Valid() && bb.count < 8 && bb.Contents() == before + BitsOf(if final then 3 else 2, 3)
  {
    assert Pow2(3) == 8;
    hide BytesBits, BitsOf, Pow2, CodeTables;
    CopyStatic(table);
    bb.Restore(out, bits, count);
    bb.WriteBits(if final then 3 else 2, 3);
  }

  lemma CodesCover(h: seq<nat>, d: seq<nat>)
    requires |h| == LIT_LEN && |d| == DIST_LEN
    ensures |Fixed().ll| >= LIT_LEN && |Fixed().dd| >= DIST_LEN
    ensures forall sym :: 0 <= sym < LIT_LEN ==> Fixed().ll[sym] > 0
    ensures forall sym :: 0 <= sym < DIST_LEN ==> Fixed().dd[sym] > 0
  {
    forall sym | 0 <= sym < LIT_LEN ensures Fixed().ll[sym] > 0 {
      LengthsAre(sym);
    }
  }

  lemma WholeSums(h: seq<nat>, d: seq<nat>, c: BlockCodes, maxLl: nat, maxD: nat)
    requires |h| == LIT_LEN && |d| == DIST_LEN && maxLl < LIT_LEN && maxD < DIST_LEN
    requires forall sym :: maxLl < sym < LIT_LEN ==> h[sym] == 0
    requires forall sym :: maxD < sym < DIST_LEN ==> d[sym] == 0
    ensures Weighted32(h, LlWeight(c.ll), maxLl + 1) + Weighted32(d, DWeight(c.dd), maxD + 1) == DataSum32(h, d, c)
  {
    hide Weighted32, LlWeight, DWeight;
    Weighted32UpTo(h, LlWeight(c.ll), maxLl + 1, LIT_LEN);
    Weighted32UpTo(d, DWeight(c.dd), maxD + 1, DIST_LEN);
  }

  // Codes for the symbols of both histograms, and shortest ones.
  ghost predicate MadeFrom(c: BlockCodes, h: seq<nat>, d: seq<nat>) {
    CodesFor(c.ll, h) && CodesFor(c.dd, d) && ShortestWithin(c.ll, h) && ShortestWithin(c.dd, d)
  }

  // With few symbols no other codes that cover them give shorter data.
  lemma NoShorterData(c: BlockCodes, h: seq<nat>, d: seq<nat>, other: BlockCodes)
    requires |h| == LIT_LEN && |d| == DIST_LEN && MadeFrom(c, h, d)
    requires SumUpTo(h, LIT_LEN) + 2 < 2584 && SumUpTo(d, DIST_LEN) + 2 < 2584
    requires Covering(other.ll, h) && Fits(other.ll) && Covering(other.dd, d) && Fits(other.dd)
    ensures DataSum(h, d, c) <= DataSum(h, d, other)
  {
    hide SumUpTo, Shortest, LimitMatters, Coded, Padded, Fits, DataSum, Kraft, Covering;
    ShortestData(h, d, c, other);
  }

  // The fixed codes are taken exactly if their data and three bits are no longer than the dynamic
  // block, or than that and before bits, when its header was written. compressedLen is the length
  // of what is taken. All are summed up as the program does.
  ghost predicate ShorterTaken(fixed: bool, compressedLen: nat, h: seq<nat>, d: seq<nat>, dynamic: BlockCodes,
                               header: seq<bool>, before: nat)
    requires |h| == LIT_LEN && |d| == DIST_LEN
  {
    && (header == [] <==> 3 + DataSum32(h, d, Fixed()) <= DataSum32(h, d, dynamic))
    && (fixed <==>
          3 + DataSum32(h, d, Fixed()) <= DataSum32(h, d, dynamic) + (if header == [] then 0 else before + |header|))
    && compressedLen == if fixed then 3 + DataSum32(h, d, Fixed()) else before + |header| + DataSum32(h, d, dynamic)
  }

  // The header that create_hufftables_icf writes for these histograms behind that many bits, and
  // the codes of the data behind it: dynamic ones made for them, or the fixed ones.
  ghost predicate HeaderTaken(header: seq<bool>, final: bool, c: BlockCodes, fixed: bool, compressedLen: nat, h: seq<nat>,
                              d: seq<nat>, before: nat)
    requires |h| == LIT_LEN && |d| == DIST_LEN
  {
    exists dynamic: BlockCodes, long: seq<bool> ::
      && MadeFrom(dynamic, h, d) && ShorterTaken(fixed, compressedLen, h, d, dynamic, long, before)
      && (long != [] ==> HeaderIs(long, Header(final, dynamic.ll, dynamic.dd)) && MadeFor(long, final, dynamic))
      && c == (if fixed then Fixed() else dynamic)
      && header == (if fixed then BitsOf(if final then 3 else 2, 3) else long)
  }

  // How often the symbols occur in tokens.
  function TokenSymbols(tokens: seq<Icf>): (h: seq<nat>)
    requires InTables(tokens)
    ensures |h| == LIT_LEN
  {
    seq(LIT_LEN, (s: nat) => CountSymbol(tokens, s))
  }

  function TokenDistances(tokens: seq<Icf>): (d: seq<nat>)
    ensures |d| == DIST_LEN
  {
    seq(DIST_LEN, (s: nat) => Lz77.CountDist(tokens, s))
  }

  // The bits of a block for tokens up to the end of the block: the header taken for the symbols that
  // occur in them, and the tokens in its codes.
  ghost predicate BlockOf(bits: seq<bool>, final: bool, all: seq<Icf>, before: nat) {
    exists header: seq<bool>, c: BlockCodes, fixed: bool, compressedLen: nat, table: seq<HuffCode> ::
      && InTables(all) && ExpandedTables(table, c) && bits == header + AllBits(table, all)
      && HeaderTaken(header, final, c, fixed, compressedLen, TokenSymbols(all), TokenDistances(all), before)
  }

  // create_hufftables_icf: dynamic codes made for the histograms, or the fixed codes when they are
  // not longer. The bits of the dynamic header are counted together with those that are in the
  // buffer already.
  method CreateHufftablesIcf(bb: BitBuf2, table: array<HuffCode>, llHist: array<nat>, dHist: array<nat>, final: bool)
    returns (compressedLen: nat, ghost c: BlockCodes, ghost fixed: bool, ghost dynamic: BlockCodes, ghost header: seq<bool>)
    requires bb.Valid() && bb.count < 8 && bb.out + HEADER_ROOM <= bb.buf.Length
    requires llHist.Length == LL_NUMBERS && dHist.Length == DIST_LEN && llHist != dHist
    requires table.Length == TABLE_SIZE
    modifies llHist, table, bb`out, bb`bits, bb`count, bb.buf
    requires bb.buf as object != llHist && bb.buf as object != dHist
    ensures CodeTables(table[..], c) && LIT_LEN <= |c.ll| && DIST_LEN <= |c.dd| && c.ll[256] > 0
    ensures forall sym :: 0 <= sym < LIT_LEN && Folded(old(llHist[..]), sym) > 0 ==> c.ll[sym] > 0
    ensures forall sym :: 0 <= sym < DIST_LEN && old(dHist[sym]) > 0 ==> c.dd[sym] > 0
    ensures bb.Valid() && bb.count < 8 && old(bb.Contents()) <= bb.Contents()
    ensures Starts(bb.Contents()[|old(bb.Contents())|..], final, c)
    ensures |bb.Contents()| + 64 <= |old(bb.Contents())| + 8 * 294
    // the choice, and what it is made from
    ensures c == if fixed then Fixed() else dynamic
    ensures fixed ==> bb.Contents() == old(bb.Contents()) + BitsOf(if final then 3 else 2, 3)
    ensures !fixed ==> bb.Contents() == old(bb.Contents()) + header
    ensures header != [] ==> HeaderIs(header, Header(final, dynamic.ll, dynamic.dd)) && MadeFor(header, final, dynamic)
    ensures MadeFrom(dynamic, BlockHistogram(old(llHist[..])), old(dHist[..]))
    ensures
      ShorterTaken(fixed, compressedLen, BlockHistogram(old(llHist[..])), old(dHist[..]), dynamic, header, |old(bb.Contents())|)
  {
    hide CodeTables, HeaderIs, Starts, InflatesTo, Lengths, LastUsed, Folded, BytesBits, BitsOf, Pow2, DataSum32,
      Weighted32,
      LlWeight, DWeight, FixedLl, FixedDd, BlockHistogram, Fixed, CodesFor, ShortestWithin, MadeFor;
    var out, bits, count := bb.out, bb.bits, bb.count;
    ghost var before, bytes := bb.Contents(), bb.buf[..bb.out];
    ghost var numbers, d := llHist[..], dHist[..];
    var maxLl, maxD;
    maxLl, maxD, c := CreateCodes(llHist, dHist, table);
    dynamic, header, fixed := c, [], false;
    ghost var h := llHist[..LIT_LEN];
    LastUsedBelow(c.ll, LIT_LEN);
    LastUsedBelow(c.dd, DIST_LEN);
    FixedParts();
    LengthsAt(table[..], c);
    var staticCompressedLen;
    compressedLen, staticCompressedLen := SumLengths(table, llHist, dHist, maxLl, maxD, c);
    WholeSums(h, d, c, maxLl, maxD);
    WholeSums(h, d, Fixed(), maxLl, maxD);
    if staticCompressedLen > compressedLen {
      WriteLengths(bb, table, maxLl, maxD, final, c);
      header := bb.Contents()[|before|..];
      compressedLen := compressedLen + 8 * (bb.out - bb.start) + bb.count;
      HeaderLong(header, Header(final, c.ll, c.dd));
      DynamicStarts(header, final, c);
    }
    if staticCompressedLen <= compressedLen {
      fixed, c := true, Fixed();
      assert bb.buf[bb.start..out] == bb.buf[..out][bb.start..];
      UseStatic(bb, table, out, bits, count, final, before);
      FixedStarts(final);
      CodesCover(h, d);
      compressedLen := staticCompressedLen;
    }
  }

  // ---- the block as a whole ----

  // The histogram is that of the tokens with the end of the block.
  lemma HistogramOf(numbers: seq<nat>, tokens: seq<Icf>, s: nat)
    requires Lz77.Meaningful(tokens) && |numbers| == LL_NUMBERS && s < LIT_LEN
    requires forall s :: 0 <= s < LL_NUMBERS ==> numbers[s] == Lz77.CountLitLen(tokens, s)
    ensures forall i :: 0 <= i < |tokens + [END_TOKEN]| ==> (tokens + [END_TOKEN])[i].litLen < LL_NUMBERS
    ensures BlockHistogram(numbers)[s] == CountSymbol(tokens + [END_TOKEN], s)
  {
    NumbersBounded(tokens);
    NoEnd(tokens);
    FoldedCounts(numbers, tokens, s);
    EndSymbol();
    OneSymbolMore(tokens, s);
    HistogramAt(numbers, s);
  }

  lemma HistogramAt(numbers: seq<nat>, s: nat)
    requires |numbers| == LL_NUMBERS && s < LIT_LEN
    ensures BlockHistogram(numbers)[s] == if s == 256 && Folded(numbers, s) == 0 then 1 else Folded(numbers, s)
  {
    hide Folded;
  }

  lemma OneSymbolMore(tokens: seq<Icf>, s: nat)
    requires forall i :: 0 <= i < |tokens| ==> tokens[i].litLen < LL_NUMBERS
    ensures forall i :: 0 <= i < |tokens + [END_TOKEN]| ==> (tokens + [END_TOKEN])[i].litLen < LL_NUMBERS
    ensures CountSymbol(tokens + [END_TOKEN], s)
         == CountSymbol(tokens, s) + (if SymbolOf(END_TOKEN.litLen) == s then 1 else 0)
  {
    hide SymbolOf;
    var all := tokens + [END_TOKEN];
    assert all[..|all| - 1] == tokens;
  }

  lemma NoDistanceMore(tokens: seq<Icf>, s: nat)
    requires s < DIST_LEN
    ensures Lz77.CountDist(tokens + [END_TOKEN], s) == Lz77.CountDist(tokens, s)
  {
    var all := tokens + [END_TOKEN];
    assert all[..|all| - 1] == tokens;
  }

  lemma EndSymbol()
    ensures SymbolOf(END_TOKEN.litLen) == 256
  {
  }

  lemma {:induction false} NoEnd(tokens: seq<Icf>)
    requires Lz77.Meaningful(tokens) && forall i :: 0 <= i < |tokens| ==> tokens[i].litLen < LL_NUMBERS
    ensures CountSymbol(tokens, 256) == 0
  {
    if tokens != [] {
      NoEnd(tokens[..|tokens| - 1]);
      NotTheEnd(tokens[|tokens| - 1]);
    }
  }

  lemma NotTheEnd(t: Icf)
    requires Meaning(t).Some? && t.litLen < LL_NUMBERS
    ensures SymbolOf(t.litLen) != 256
  {
    hide LenSym;
    if t.litLen > 256 {
      LenSymMeans(t.litLen - 254);
    }
  }

  lemma BlockLength(table: seq<HuffCode>, c: BlockCodes, tokens: seq<Icf>, numbers: seq<nat>, dists: seq<nat>)
    requires ExpandedTables(table, c) && AllCovered(c, tokens + [END_TOKEN])
    requires Lz77.Meaningful(tokens) && |numbers| == LL_NUMBERS && |dists| == DIST_LEN
    requires forall s :: 0 <= s < LL_NUMBERS ==> numbers[s] == Lz77.CountLitLen(tokens, s)
    requires forall s :: 0 <= s < DIST_LEN ==> dists[s] == Lz77.CountDist(tokens, s)
    ensures |table| == TABLE_SIZE && InTables(tokens + [END_TOKEN])
    ensures |AllBits(table, tokens + [END_TOKEN])| == DataSum(BlockHistogram(numbers), dists, c)
  {
    hide ExpandedTables, Covers, TokenBits, BlockHistogram, DataSum, TokenWidth, Meaning, SymbolOf, CountSymbol,
      Lz77.CountDist, Lz77.CountLitLen, AllWidths, AllBits;
    HistogramOf(numbers, tokens, 0);
    forall s | 0 <= s < LIT_LEN ensures BlockHistogram(numbers)[s] == CountSymbol(tokens + [END_TOKEN], s) {
      HistogramOf(numbers, tokens, s);
    }
    forall s | 0 <= s < DIST_LEN ensures dists[s] == Lz77.CountDist(tokens + [END_TOKEN], s) {
      NoDistanceMore(tokens, s);
    }
    AllLength(table, c, tokens + [END_TOKEN]);
    SumsAre(BlockHistogram(numbers), dists, c, tokens + [END_TOKEN]);
  }

  lemma AllInTables(tokens: seq<Icf>)
    requires Lz77.Meaningful(tokens)
    ensures InTables(tokens + [END_TOKEN])
  {
    hide DistanceBase, DistanceExtraBits, Pow2;
  }

  // The histograms of the match finder, folded, count the symbols of its tokens and the end.
  lemma SymbolsCounted(tokens: seq<Icf>, numbers: seq<nat>, dists: seq<nat>)
    requires Lz77.Meaningful(tokens) && |numbers| == LL_NUMBERS && |dists| == DIST_LEN && InTables(tokens + [END_TOKEN])
    requires forall s :: 0 <= s < LL_NUMBERS ==> numbers[s] == Lz77.CountLitLen(tokens, s)
    requires forall s :: 0 <= s < DIST_LEN ==> dists[s] == Lz77.CountDist(tokens, s)
    ensures BlockHistogram(numbers) == TokenSymbols(tokens + [END_TOKEN]) && dists == TokenDistances(tokens + [END_TOKEN])
  {
    hide Meaning, SymbolOf, CountSymbol, Lz77.CountDist, Lz77.CountLitLen, InTables;
    var all := tokens + [END_TOKEN];
    forall s | 0 <= s < LIT_LEN ensures BlockHistogram(numbers)[s] == TokenSymbols(all)[s] {
      HistogramOf(numbers, tokens, s);
    }
    forall s | 0 <= s < DIST_LEN ensures dists[s] == TokenDistances(all)[s] {
      NoDistanceMore(tokens, s);
    }
    hide BlockHistogram, TokenSymbols;
  }

  lemma IsTaken(header: seq<bool>, final: bool, c: BlockCodes, fixed: bool, compressedLen: nat, h: seq<nat>, d: seq<nat>,
                before: nat, dynamic: BlockCodes, long: seq<bool>)
    requires |h| == LIT_LEN && |d| == DIST_LEN && MadeFrom(dynamic, h, d)
    requires ShorterTaken(fixed, compressedLen, h, d, dynamic, long, before)
    requires long != [] ==> HeaderIs(long, Header(final, dynamic.ll, dynamic.dd)) && MadeFor(long, final, dynamic)
    requires c == if fixed then Fixed() else dynamic
    requires header == if fixed then BitsOf(if final then 3 else 2, 3) else long
    ensures HeaderTaken(header, final, c, fixed, compressedLen, h, d, before)
  {
    hide MadeFrom, ShorterTaken, HeaderIs, MadeFor, Fixed, BitsOf;
  }

  // Tables and header for tokens and their histograms.
  method BlockTables(bb: BitBuf2, table: array<HuffCode>, llHist: array<nat>, dHist: array<nat>, final: bool,
                     ghost tokens: seq<Icf>)
    returns (compressedLen: nat, ghost c: BlockCodes, ghost fixed: bool)
    requires bb.Valid() && bb.count < 8 && table.Length == TABLE_SIZE && bb.out + HEADER_ROOM <= bb.buf.Length
    requires llHist.Length == LL_NUMBERS && dHist.Length == DIST_LEN && llHist != dHist
    requires bb.buf as object != llHist && bb.buf as object != dHist
    requires Lz77.Meaningful(tokens)
    requires forall x :: 0 <= x < LL_NUMBERS ==> llHist[..][x] == Lz77.CountLitLen(tokens, x)
    requires forall x :: 0 <= x < DIST_LEN ==> dHist[..][x] == Lz77.CountDist(tokens, x)
    modifies llHist, table, bb`out, bb`bits, bb`count, bb.buf
    ensures bb.Valid() && bb.count < 8 && old(bb.Contents()) <= bb.Contents()
    ensures Starts(bb.Contents()[|old(bb.Contents())|..], final, c)
    ensures CodeTables(table[..], c) && AllCovered(c, tokens + [END_TOKEN])
    ensures LIT_LEN <= |c.ll| && DIST_LEN <= |c.dd| && c.ll[256] > 0
    ensures |bb.Contents()| + 64 <= |old(bb.Contents())| + 8 * 294
    ensures
      var all := tokens + [END_TOKEN];
      && InTables(all)
      && HeaderTaken(bb.Contents()[|old(bb.Contents())|..], final, c, fixed, compressedLen, TokenSymbols(all),
                     TokenDistances(all), |old(bb.Contents())|)
    // the data will make up the length, unless a 32-bit product is cut
    ensures Rare(BlockHistogram(old(llHist[..]))) && Rare(old(dHist[..])) ==>
              compressedLen + (if fixed then |old(bb.Contents())| else 0)
              == |bb.Contents()| + DataSum(BlockHistogram(old(llHist[..])), old(dHist[..]), c)
  {
    hide *;
    ghost var numbers, dists, before := llHist[..], dHist[..], bb.Contents();
    ghost var dynamic, header;
    compressedLen, c, fixed, dynamic, header := CreateHufftablesIcf(bb, table, llHist, dHist, final);
    TokensCovered(tokens, numbers, dists, c);
    AllInTables(tokens);
    SymbolsCounted(tokens, numbers, dists);
    IsTaken(bb.Contents()[|before|..], final, c, fixed, compressedLen, TokenSymbols(tokens + [END_TOKEN]),
            TokenDistances(tokens + [END_TOKEN]), |before|, dynamic, header);
    if Rare(BlockHistogram(numbers)) && Rare(dists) {
      TablesFit(table[..], c);
      ShorterLength(fixed, compressedLen, BlockHistogram(numbers), dists, c, dynamic, header, |before|);
    }
  }

  lemma ShorterLength(fixed: bool, compressedLen: nat, h: seq<nat>, d: seq<nat>, c: BlockCodes, dynamic: BlockCodes,
                      header: seq<bool>, before: nat)
    requires |h| == LIT_LEN && |d| == DIST_LEN && ShorterTaken(fixed, compressedLen, h, d, dynamic, header, before)
    requires c == (if fixed then Fixed() else dynamic) && Rare(h) && Rare(d) && Fits(c.ll) && Fits(c.dd)
    ensures compressedLen == DataSum(h, d, c) + if fixed then 3 else before + |header|
  {
    hide DataSum, DataSum32, Fixed, Fits;
    DataUncut(h, d, c);
  }

  lemma TablesFit(table: seq<HuffCode>, c: BlockCodes)
    requires CodeTables(table, c)
    ensures Fits(c.ll) && Fits(c.dd)
  {
    hide Fits;
  }

  // Tables and header from the histograms of the match finder, then its tokens. With room for the
  // whole block, the bits are a block, as section 3.2.3 of RFC 1951 reads it, of the bytes that the
  // match finder consumed. They are exactly as many as create_hufftables_icf returned, unless one of
  // its products is cut; it counts the bits before a dynamic block as well.
  method CompressBlock(s: Lz77.IcfStream, bb: BitBuf2, table: array<HuffCode>, final: bool)
    returns (done: bool, compressedLen: nat, ghost fixed: bool, ghost items: seq<Item>)
    requires s.Valid() && bb.Valid() && bb.count < 8 && table.Length == TABLE_SIZE
    requires bb.out + HEADER_ROOM <= bb.buf.Length
    requires bb.buf as object != s.llHist && bb.buf as object != s.dHist
    modifies s.llHist, table, bb`out, bb`bits, bb`count, bb.buf
    ensures bb.Valid() && bb.count < 8 && (!done ==> bb.IsFull())
    ensures |bb.Contents()| <= |old(bb.Contents())| + 8 * 286 + 48 * (|s.tokens| + 1)
    ensures s.blockStart <= s.totalIn <= |s.input|
    ensures Expand(s.input[..s.blockStart], items) == Some(s.input[..s.totalIn])
    ensures done ==> Compressed(old(bb.Contents()), bb.Contents(), final, items, s.tokens)
    ensures s.llHist.Length == LL_NUMBERS
    ensures done && Rare(BlockHistogram(old(s.llHist[..]))) && Rare(old(s.dHist[..])) ==>
              |bb.Contents()| == compressedLen + if fixed then |old(bb.Contents())| else 0
  {
    hide *;
    StreamTokens(s);
    items := Lz77.Items(s.tokens);
    ghost var numbers, dists, before := s.llHist[..], s.dHist[..], bb.Contents();
    ghost var c;
    compressedLen, c, fixed := BlockTables(bb, table, s.llHist, s.dHist, final, s.tokens);
    ghost var middle := bb.Contents();
    done := EncodeBlock(s.tokens, bb, table, c);
    if done {
      BlockLength(table[..], c, s.tokens, numbers, dists);
      BlockWritten(before, middle, bb.Contents(), final, c, fixed, compressedLen, table[..], s.tokens);
    }
  }

  // What has been written is a block that stands for these items, and it is the one for the tokens.
  ghost predicate Compressed(before: seq<bool>, now: seq<bool>, final: bool, items: seq<Item>, tokens: seq<Icf>) {
    && before <= now && IsBlock(now[|before|..], final, items)
    && BlockOf(now[|before|..], final, tokens + [END_TOKEN], |before|)
  }

  lemma BlockWritten(before: seq<bool>, middle: seq<bool>, now: seq<bool>, final: bool, c: BlockCodes, fixed: bool,
                     compressedLen: nat, table: seq<HuffCode>, tokens: seq<Icf>)
    requires before <= middle <= now && Lz77.Meaningful(tokens)
    requires ExpandedTables(table, c) && Starts(middle[|before|..], final, c)
    requires InflatesTo(c, now[|middle|..], Lz77.Items(tokens))
    requires
      var all := tokens + [END_TOKEN];
      && InTables(all) && now == middle + AllBits(table, all)
      && HeaderTaken(middle[|before|..], final, c, fixed, compressedLen, TokenSymbols(all), TokenDistances(all), |before|)
    ensures Compressed(before, now, final, Lz77.Items(tokens), tokens)
  {
    hide HeaderTaken, ExpandedTables, TokenSymbols, TokenDistances, AllBits, InTables, Starts, InflatesTo, IsBlock, BlockOf,
      Lz77.Items, Lz77.Meaningful;
    Appended(before, middle, now);
    StartedBlock(middle[|before|..], now[|middle|..], final, c, Lz77.Items(tokens));
    IsBlockOf(middle[|before|..], now[|middle|..], final, c, fixed, compressedLen, table, tokens + [END_TOKEN], |before|);
  }

  lemma IsBlockOf(header: seq<bool>, data: seq<bool>, final: bool, c: BlockCodes, fixed: bool, compressedLen: nat,
                  table: seq<HuffCode>, all: seq<Icf>, before: nat)
    requires InTables(all) && ExpandedTables(table, c) && data == AllBits(table, all)
    requires HeaderTaken(header, final, c, fixed, compressedLen, TokenSymbols(all), TokenDistances(all), before)
    ensures BlockOf(header + data, final, all, before)
  {
    hide HeaderTaken, ExpandedTables, TokenSymbols, TokenDistances, AllBits, InTables;
  }

  lemma StartedBlock(header: seq<bool>, data: seq<bool>, final: bool, c: BlockCodes, items: seq<Item>)
    requires Starts(header, final, c) && InflatesTo(c, data, items)
    ensures IsBlock(header + data, final, items)
  {
    hide InflatesTo, IsBlock;
  }

  lemma Appended(before: seq<bool>, middle: seq<bool>, after: seq<bool>)
    requires before <= middle <= after
    ensures before <= after && after[|before|..] == middle[|before|..] + after[|middle|..]
  {
  }
}
