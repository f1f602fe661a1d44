/** A fixed block longer than the dynamic one. */
module FixedTaken {
  import opened Rfc1951
  import opened Bits
  import opened BitBuf
  import opened Canonical
  import opened HuffCodes
  import opened IcfTables
  import opened Inflate
  import opened EncodeDf
  import opened HuffGen
  import opened SymbolLengths
  import opened Flatten
  import opened RunLength
  import opened DynamicHeader
  import opened WriteHeader
  import opened FixedCodes
  import opened BlockSize
  import opened DeflateBlock
  import LimitLengths

  // ---- two symbols ----

  // Only a and b are not zero.
  ghost predicate OnlyTwo(s: seq<nat>, a: nat, b: nat) {
    a < |s| && b < |s| && a != b && forall x :: 0 <= x < |s| ==> (s[x] > 0 <==> x == a || x == b)
  }

  lemma {:induction false} NoWords(c: nat -> nat, l: nat)
    requires forall i :: i >= 1 ==> c(i) == 0
    ensures Kraft(c, l) == 0
  {
    if l > 0 {
      NoWords(c, l - 1);
    }
  }

  lemma TwoSum(lengths: seq<nat>, a: nat, b: nat, m: nat)
    requires OnlyTwo(lengths, a, b) && lengths[a] <= m && lengths[b] <= m
    ensures Kraft(Counts(lengths), m) == Pow2(m - lengths[a]) + Pow2(m - lengths[b])
  {
    hide Kraft, Pow2, Count;
    var none := seq(|lengths|, _ => 0);
    var one := none[a := lengths[a]];
    assert lengths == one[b := lengths[b]];
    forall i: nat | i >= 1
      ensures Count(none, i) == 0
      ensures Count(one, i) == Count(none, i) + (if i == lengths[a] then 1 else 0)
      ensures Count(lengths, i) == Count(one, i) + (if i == lengths[b] then 1 else 0)
    {
      ZeroCount(|lengths|, i);
      CountUpdate(none, a, lengths[a], i);
      CountUpdate(one, b, lengths[b], i);
    }
    NoWords(Counts(none), m);
    LimitLengths.KraftPlus(Counts(none), Counts(one), lengths[a], m);
    LimitLengths.KraftPlus(Counts(one), Counts(lengths), lengths[b], m);
  }

  lemma {:induction false} HalfAtMost(m: nat, k: nat)
    requires 1 <= k <= m
    ensures Pow2(m) >= 2 * Pow2(m - k) && (k >= 2 ==> Pow2(m) >= 4 * Pow2(m - k))
  {
    if k > 1 {
      HalfAtMost(m, k - 1);
      assert Pow2(m - (k - 1)) == 2 * Pow2(m - k);
    }
  }

  // The two symbols of a complete code have one bit each.
  lemma OneBitEach(lengths: seq<nat>, a: nat, b: nat, m: nat)
    requires OnlyTwo(lengths, a, b) && lengths[a] <= m && lengths[b] <= m
    requires Kraft(Counts(lengths), m) == Pow2(m)
    ensures lengths[a] == 1 == lengths[b]
  {
    hide Kraft, Counts, Pow2;
    TwoSum(lengths, a, b, m);
    HalfAtMost(m, lengths[a]);
    HalfAtMost(m, lengths[b]);
  }

  // The symbols that occur are those that get a code,
  lemma TwoCoded(h: seq<nat>, a: nat, b: nat, x: nat)
    requires OnlyTwo(h, a, b) && |h| >= 2
    ensures x in Coded(h, |h|) <==> x == a || x == b
  {
    ChosenIff(h, |h|, |h|, a);
    ChosenIff(h, |h|, |h|, b);
    ChosenIff(h, |h|, |h|, x);
    hide Chosen;
    var s := Chosen(h, |h|, |h|);
    if |s| == 1 {
      assert s == [s[0]];
    }
  }

  // ... or the first two.
  lemma NoneCoded(h: seq<nat>, x: nat)
    requires |h| >= 2 && forall i :: 0 <= i < |h| ==> h[i] == 0
    ensures x in Coded(h, |h|) <==> x == 0 || x == 1
  {
    var s := Chosen(h, |h|, |h|);
    hide Chosen;
    assert s != [] ==> s[0] in s;
    if s != [] {
      ChosenIff(h, |h|, |h|, s[0]);
    }
  }

  // ---- the histogram: twelve times literal 0, and the end of the block ----

  lemma {:induction false} NoSum(h: seq<nat>, from: nat, n: nat)
    requires from + n <= |h| && forall i :: from <= i < from + n ==> h[i] == 0
    ensures SumRange(h, from, n) == 0
  {
    if n > 0 {
      NoSum(h, from, n - 1);
    }
  }

  lemma FoldedNumbers(numbers: seq<nat>, s: nat)
    requires |numbers| == LL_NUMBERS && s < LIT_LEN && numbers[0] == 12
    requires forall i :: 0 < i < LL_NUMBERS ==> numbers[i] == 0
    ensures Folded(numbers, s) == if s == 0 then 12 else 0
  {
    NumbersInTable(s);
    hide Numbers;
    if s == 0 {
      assert SumRange(numbers, 0, 0) == 0;
    } else {
      FirstBehind(s);
      NoSum(numbers, FirstNumber(s), Numbers(s));
    }
  }

  lemma FirstBehind(s: nat)
    requires s > 0
    ensures FirstNumber(s) > 0
  {
  }

  lemma Histograms(numbers: seq<nat>)
    requires |numbers| == LL_NUMBERS && numbers[0] == 12 && forall i :: 0 < i < LL_NUMBERS ==> numbers[i] == 0
    ensures OnlyTwo(BlockHistogram(numbers), 0, 256)
    ensures BlockHistogram(numbers)[0] == 12 && BlockHistogram(numbers)[256] == 1
  {
    hide Folded;
    forall s | 0 <= s < LIT_LEN
      ensures BlockHistogram(numbers)[s] == if s == 0 then 12 else if s == 256 then 1 else 0
    {
      HistogramAt(numbers, s);
      FoldedNumbers(numbers, s);
    }
  }

  // ---- the data ----

  lemma {:induction false} TwoWeighted(h: seq<nat>, w: nat -> nat, a: nat, b: nat, n: nat)
    requires OnlyTwo(h, a, b) && a < b && n <= |h|
    ensures Weighted(h, w, n) == (if a < n then h[a] * w(a) else 0) + (if b < n then h[b] * w(b) else 0)
  {
    if n > 0 {
      TwoWeighted(h, w, a, b, n - 1);
      assert 0 * w(n - 1) == 0;
    }
  }

  lemma TrueData(h: seq<nat>, d: seq<nat>, c: BlockCodes)
    requires |h| == LIT_LEN <= |c.ll| && |d| == DIST_LEN && OnlyTwo(h, 0, 256) && h[0] == 12 && h[256] == 1
    requires forall i :: 0 <= i < DIST_LEN ==> d[i] == 0
    ensures DataSum(h, d, c) == 12 * c.ll[0] + c.ll[256]
  {
    hide OnlyTwo;
    TwoWeighted(h, LlWeight(c.ll), 0, 256, LIT_LEN);
    WeightedNone(d, DWeight(c.dd), DIST_LEN);
  }

  lemma FewSymbols(h: seq<nat>, d: seq<nat>)
    requires |h| == LIT_LEN && |d| == DIST_LEN && OnlyTwo(h, 0, 256) && h[0] == 12 && h[256] == 1
    requires forall i :: 0 <= i < DIST_LEN ==> d[i] == 0
    ensures Rare(h) && Rare(d)
  {
  }

  lemma DataOf(h: seq<nat>, d: seq<nat>, c: BlockCodes)
    requires |h| == LIT_LEN <= |c.ll| && |d| == DIST_LEN && OnlyTwo(h, 0, 256) && h[0] == 12 && h[256] == 1
    requires (forall i :: 0 <= i < DIST_LEN ==> d[i] == 0) && Fits(c.ll) && Fits(c.dd)
    ensures DataSum32(h, d, c) == DataSum(h, d, c) == 12 * c.ll[0] + c.ll[256]
  {
    hide OnlyTwo, Fits, DataSum, DataSum32, Rare;
    TrueData(h, d, c);
    FewSymbols(h, d);
    DataUncut(h, d, c);
  }

  lemma FixedData()
    ensures |Fixed().ll| == 288 && Fixed().ll[0] == 8 && Fixed().ll[256] == 7
    ensures Fits(Fixed().ll) && Fits(Fixed().dd)
  {
    FixedFits();
    DistFits();
    FixedParts();
    LengthsAre(0);
    LengthsAre(256);
    hide FixedLl;
  }

  // ---- the codes ----

  lemma Codes(c: BlockCodes, h: seq<nat>, d: seq<nat>)
    requires CodesFor(c.ll, h) && CodesFor(c.dd, d) && |h| == LIT_LEN && |d| == DIST_LEN && OnlyTwo(h, 0, 256)
    requires forall i :: 0 <= i < DIST_LEN ==> d[i] == 0
    ensures |c.ll| == LIT_LEN && OnlyTwo(c.ll, 0, 256) && c.ll[0] == 1 == c.ll[256]
    ensures |c.dd| == DIST_LEN && OnlyTwo(c.dd, 0, 1) && c.dd[0] == 1 == c.dd[1]
    ensures Fits(c.ll) && Fits(c.dd)
  {
    hide Kraft, Counts, Coded, Pow2, LastUsed;
    forall x | 0 <= x < LIT_LEN ensures c.ll[x] > 0 <==> x == 0 || x == 256 {
      TwoCoded(h, 0, 256, x);
    }
    forall x | 0 <= x < DIST_LEN ensures c.dd[x] > 0 <==> x == 0 || x == 1 {
      NoneCoded(d, x);
    }
    OneBitEach(c.ll, 0, 256, MAX_BITS);
    OneBitEach(c.dd, 0, 1, MAX_BITS);
  }

  lemma {:induction false} LastOfTwo(lengths: seq<nat>, a: nat, b: nat, n: nat)
    requires OnlyTwo(lengths, a, b) && a < b < n <= |lengths|
    ensures LastUsed(lengths, n) == b
  {
    if n - 1 > b {
      LastOfTwo(lengths, a, b, n - 1);
    }
  }

  // ---- the header ----

  // A one, 255 zeros and three ones.
  function Combined(): (s: seq<nat>)
    ensures |s| == 259
  {
    [1] + Repeat(0, 255) + [1, 1, 1]
  }

  // 138 zeros and 117.
  function Runs(): seq<RlCode> {
    [RlCode(1, 0), RlCode(18, 127), RlCode(18, 106), RlCode(1, 0), RlCode(1, 0), RlCode(1, 0)]
  }

  lemma CombinedIs(c: BlockCodes)
    requires |c.ll| == LIT_LEN && OnlyTwo(c.ll, 0, 256) && c.ll[0] == 1 == c.ll[256]
    requires |c.dd| == DIST_LEN && OnlyTwo(c.dd, 0, 1) && c.dd[0] == 1 == c.dd[1]
    ensures c.ll[..257] + c.dd[..2] == Combined()
  {
  }

  lemma ZeroRun()
    ensures RunSymbols(0, 255) == [RlCode(18, 127), RlCode(18, 106)]
  {
    ZeroSteps(255);
    ZeroSteps(117);
  }

  lemma OneRun()
    ensures RunSymbols(1, 1) == [RlCode(1, 0)]
    ensures RunSymbols(1, 3) == [RlCode(1, 0), RlCode(1, 0), RlCode(1, 0)]
  {
    CopySteps(1, 2);
    CopySteps(1, 1);
    CopySteps(1, 0);
  }

  lemma CombinedRuns(a: seq<nat>, b: seq<nat>)
    requires a == Combined()[1..] && b == a[255..]
    ensures Combined()[0] == 1 && a[0] == 0 == a[254] && a[255] == 1 && |a| == 258
    ensures b == [1, 1, 1] && b[3..] == []
    ensures forall k :: 0 <= k < 255 ==> a[k] == 0
  {
  }

  lemma RunsAre()
    ensures RlSymbols(Combined()) == Runs()
  {
    var s := Combined();
    var a, b := s[1..], s[1..][255..];
    CombinedRuns(a, b);
    hide Combined, RlSymbols, RunSymbols, Runs;
    NextRun(s, 1);
    NextRun(a, 255);
    NextRun(b, 3);
    ZeroRun();
    OneRun();
    NoRuns();
  }

  lemma NoRuns()
    ensures RlSymbols([]) == []
    ensures [RlCode(1, 0)] + ([RlCode(18, 127), RlCode(18, 106)] + ([RlCode(1, 0), RlCode(1, 0), RlCode(1, 0)] + [])) == Runs()
  {
  }

  lemma OneCount(symbols: seq<RlCode>, s: RlCode, c: nat)
    ensures CountCode(symbols + [s], c) == CountCode(symbols, c) + (if s.code == c then 1 else 0)
  {
    assert (symbols + [s])[..|symbols|] == symbols;
  }

  lemma RunCounts(c: nat)
    ensures CountCode(Runs(), c) == if c == 1 then 4 else if c == 18 then 2 else 0
  {
    hide CountCode;
    var s0: seq<RlCode> := [];
    var s1, s2 := s0 + [RlCode(1, 0)], s0 + [RlCode(1, 0)] + [RlCode(18, 127)];
    var s3 := s2 + [RlCode(18, 106)];
    var s4, s5 := s3 + [RlCode(1, 0)], s3 + [RlCode(1, 0)] + [RlCode(1, 0)];
    assert Runs() == s5 + [RlCode(1, 0)];
    NoneCounted(c);
    OneCount(s0, RlCode(1, 0), c);
    OneCount(s1, RlCode(18, 127), c);
    OneCount(s2, RlCode(18, 106), c);
    OneCount(s3, RlCode(1, 0), c);
    OneCount(s4, RlCode(1, 0), c);
    OneCount(s5, RlCode(1, 0), c);
  }

  lemma NoneCounted(c: nat)
    ensures CountCode([], c) == 0
  {
  }

  lemma RunCodes(cl: seq<nat>)
    requires CompleteFor(cl, SymbolCounts(Runs()))
    ensures OnlyTwo(cl, 1, 18) && cl[1] == 1 == cl[18]
  {
    hide Kraft, Counts, Coded, Pow2, CountCode;
    var counts := SymbolCounts(Runs());
    forall c | 0 <= c < HUFF_LEN ensures counts[c] == (if c == 1 then 4 else if c == 18 then 2 else 0) {
      RunCounts(c);
    }
    forall c | 0 <= c < HUFF_LEN ensures cl[c] > 0 <==> c == 1 || c == 18 {
      TwoCoded(counts, 1, 18, c);
    }
    OneBitEach(cl, 1, 18, 7);
  }

  lemma OrderOf(i: nat)
    requires i < HUFF_LEN
    ensures OrderAt(i) == 1 <==> i == 17
    ensures OrderAt(i) == 18 <==> i == 2
  {
  }

  lemma LastLength(cl: seq<nat>, hclen: nat)
    requires CodesUpTo(cl, hclen, Runs()) && OnlyTwo(cl, 1, 18) && |cl| == HUFF_LEN
    ensures hclen == 14
  {
    hide OrderAt, CompleteFor;
    OrderOf(17);
    OrderOf(hclen + 3);
    assert cl[OrderAt(17)] > 0;
    assert hclen + 4 > 17;
  }

  lemma SymbolsLength(cl: seq<nat>)
    requires |cl| == HUFF_LEN && cl[1] == 1 == cl[18]
    ensures |SymbolsBits(cl, Runs())| == 20
  {
    hide CodeBits;
    var s := Runs();
    SymbolLength(cl, RlCode(1, 0));
    SymbolLength(cl, RlCode(18, 127));
    SymbolLength(cl, RlCode(18, 106));
    hide SymbolBits;
    var s5: seq<RlCode> := [RlCode(1, 0)];
    var s4, s3 := [RlCode(1, 0)] + s5, [RlCode(1, 0), RlCode(1, 0)] + s5;
    var s2 := [RlCode(18, 106)] + s3;
    var s1 := [RlCode(18, 127)] + s2;
    SymbolsFirst(cl, s[0], s1);
    SymbolsFirst(cl, s[1], s2);
    SymbolsFirst(cl, s[2], s3);
    assert s == [s[0]] + s1 && s3 == [s[3]] + s4;
    SymbolsFirst(cl, s[3], s4);
    SymbolsFirst(cl, s[4], s5);
    SymbolsFirst(cl, s[5], []);
    assert s5 == [s[5]] + [];
  }

  lemma SymbolLength(cl: seq<nat>, s: RlCode)
    requires s.code < |cl|
    ensures |SymbolBits(cl, s)| == cl[s.code] + RlExtraBits(s.code)
  {
    hide CodeBits;
  }

  lemma SymbolsFirst(cl: seq<nat>, s: RlCode, rest: seq<RlCode>)
    requires s.code < |cl| && forall i :: 0 <= i < |rest| ==> rest[i].code < |cl|
    ensures forall i :: 0 <= i < |[s] + rest| ==> ([s] + rest)[i].code < |cl|
    ensures |SymbolsBits(cl, [s] + rest)| == |SymbolBits(cl, s)| + |SymbolsBits(cl, rest)|
  {
    assert ([s] + rest)[1..] == rest;
    hide SymbolBits;
  }

  // 17 bits, 18 lengths of three bits, and 20 bits of the six symbols.
  lemma HeaderLength(header: seq<bool>, final: bool, c: BlockCodes)
    requires MadeFor(header, final, c) && |c.ll| == LIT_LEN && OnlyTwo(c.ll, 0, 256) && c.ll[0] == 1 == c.ll[256]
    requires |c.dd| == DIST_LEN && OnlyTwo(c.dd, 0, 1) && c.dd[0] == 1 == c.dd[1]
    ensures |header| == 91
  {
    hide RlSymbols, CompleteFor, HeaderBits, OnlyTwo, LastUsed, Combined;
    LastOfTwo(c.ll, 0, 256, LIT_LEN);
    LastOfTwo(c.dd, 0, 1, DIST_LEN);
    CombinedIs(c);
    RunsAre();
    var cl: seq<nat>, hclen: nat :| CodesUpTo(cl, hclen, Runs()) && header == HeaderBits(final, 0, 1, hclen, cl, Runs());
    UpToMeans(cl, hclen);
    RunCodes(cl);
    LastLength(cl, hclen);
    SymbolsLength(cl);
    HeaderParts(final, cl);
  }

  lemma UpToMeans(cl: seq<nat>, hclen: nat)
    requires CodesUpTo(cl, hclen, Runs())
    ensures |cl| == HUFF_LEN && CompleteFor(cl, SymbolCounts(Runs()))
  {
  }

  lemma HeaderParts(final: bool, cl: seq<nat>)
    requires |cl| == HUFF_LEN
    ensures |HeaderBits(final, 0, 1, 14, cl, Runs())| == 17 + 54 + |SymbolsBits(cl, Runs())|
  {
    hide StartBits, CodeLengthCodeBits, SymbolsBits;
  }

  // Between two pending bits and more, the fixed block of 106 bits is taken before the dynamic one
  // of 104 bits.
  method LongerBlockTaken(bb: BitBuf2, table: array<HuffCode>, llHist: array<nat>, dHist: array<nat>, final: bool)
    returns (compressedLen: nat, ghost fixed: bool, ghost dynamic: BlockCodes, ghost header: seq<bool>)
    requires bb.Valid() && bb.count < 8 && bb.out + HEADER_ROOM <= bb.buf.Length && |bb.Contents()| >= 2
    requires llHist.Length == LL_NUMBERS && dHist.Length == DIST_LEN && llHist != dHist && table.Length == TABLE_SIZE
    requires bb.buf as object != llHist && bb.buf as object != dHist
    requires llHist[0] == 12 && forall i :: 0 < i < LL_NUMBERS ==> llHist[i] == 0
    requires forall i :: 0 <= i < DIST_LEN ==> dHist[i] == 0
    modifies llHist, table, bb`out, bb`bits, bb`count, bb.buf
    ensures fixed && HeaderIs(header, Header(final, dynamic.ll, dynamic.dd))
    ensures
      var h, d := BlockHistogram(old(llHist[..])), old(dHist[..]);
      |header| + DataSum(h, d, dynamic) == 104 && 3 + DataSum(h, d, Fixed()) == 106 == compressedLen
  {
    hide CodeTables, HeaderIs, Starts, BlockHistogram, DataSum, DataSum32, Fits, CodesFor, ShortestWithin, MadeFor, OnlyTwo, Folded,
      Fixed;
    ghost var numbers, d := llHist[..], dHist[..];
    ghost var c;
    compressedLen, c, fixed, dynamic, header := CreateHufftablesIcf(bb, table, llHist, dHist, final);
    Histograms(numbers);
    Codes(dynamic, BlockHistogram(numbers), d);
    DataOf(BlockHistogram(numbers), d, dynamic);
    FixedData();
    DataOf(BlockHistogram(numbers), d, Fixed());
    HeaderLength(header, final, dynamic);
  }
}
