/** isal_create_hufftables: codes that fit the bit buffer. */
module HuffTables {
  import opened Rfc1951
  import opened Canonical
  import opened HuffCodes
  import opened HuffHeap
  import opened HuffTree
  import opened HuffMerge
  import opened HuffGen
  import opened SymbolLengths
  import Bags
  import BitBuf
  import RunLength
  import IcfCodes
  import CodeLens
  import LimitLengths

  const MAX_BITBUF_BIT_WRITE := BitBuf.MAX_BITBUF_BIT_WRITE
  const MAX_DEFLATE_CODE_LEN := 15
  const MAX_SAFE_LIT_CODE_LEN := 13
  const MAX_SAFE_DIST_CODE_LEN := 12

  // ---- are_hufftables_useable ----

  ghost predicate IsMax(m: nat, s: seq<nat>) {
    (forall i :: 0 <= i < |s| ==> s[i] <= m) && (m == 0 || m in s)
  }

  // Lengths of length codes with their extra bits, symbols 257 to 284.
  function LengthSizes(ll: seq<nat>): (s: seq<nat>)
    requires |ll| == LIT_LEN
    ensures |s| == 28
  {
    seq(28, i requires 0 <= i < 28 => ll[257 + i] + LengthExtraBits(257 + i))
  }

  function DistanceSizes(dd: seq<nat>): (s: seq<nat>)
    requires |dd| == DIST_LEN
    ensures |s| == DIST_LEN
  {
    seq(DIST_LEN, i requires 0 <= i < DIST_LEN => dd[i] + DistanceExtraBits(i))
  }

  // The three greatest sizes that the function adds up.
  ghost predicate Sizes(ll: seq<nat>, dd: seq<nat>, lit: nat, len: nat, dist: nat) {
    && |ll| == LIT_LEN && |dd| == DIST_LEN
    && IsMax(lit, ll) && IsMax(len, LengthSizes(ll)) && IsMax(dist, DistanceSizes(dd))
  }

  lemma IsMaxMore(m: nat, s: seq<nat>, v: nat)
    requires IsMax(m, s)
    ensures IsMax(if v > m then v else m, s + [v])
  {
  }

  lemma ExtraBitsSteps(i: nat)
    requires 257 <= i < 284
    ensures LengthExtraBits(257) == 0
    ensures LengthExtraBits(i + 1) == LengthExtraBits(i) + (if i >= 264 && i % 4 == 0 then 1 else 0)
  {
  }

  lemma DistanceSteps(i: nat)
    requires i < 29
    ensures DistanceExtraBits(0) == 0
    ensures DistanceExtraBits(i + 1) == DistanceExtraBits(i) + (if i >= 3 && i % 2 == 1 then 1 else 0)
  {
  }

  method LongestCode(table: array<HuffCode>) returns (m: nat)
    requires table.Length == LIT_LEN
    ensures IsMax(m, Lengths(table[..]))
  {
    hide IsMax;
    m := 0;
    ghost var ll := Lengths(table[..]);
    NoMax();
    for i := 0 to LIT_LEN
      invariant IsMax(m, ll[..i])
    {
      IsMaxMore(m, ll[..i], ll[i]);
      assert ll[..i + 1] == ll[..i] + [ll[i]];
      if table[i].length > m {
        m := table[i].length;
      }
    }
    assert ll[..LIT_LEN] == ll;
  }

  lemma NoMax()
    ensures IsMax(0, [])
  {
  }

  lemma LengthSizesAre(ll: seq<nat>)
    requires |ll| == LIT_LEN
    ensures forall i :: 0 <= i < 28 ==> LengthSizes(ll)[i] == ll[257 + i] + LengthExtraBits(257 + i)
  {
    hide LengthExtraBits;
  }

  method LongestLength(table: array<HuffCode>) returns (m: nat)
    requires table.Length == LIT_LEN
    ensures IsMax(m, LengthSizes(Lengths(table[..])))
  {
    hide IsMax, LengthExtraBits, LengthSizes;
    m := 0;
    var extra, gain := 0, 264;
    ghost var sizes := LengthSizes(Lengths(table[..]));
    LengthSizesAre(Lengths(table[..]));
    NoMax();
    ExtraBitsSteps(257);
    assert sizes[..0] == [];
    for i := 257 to 285
      invariant IsMax(m, sizes[..i - 257]) && (i < 285 ==> extra == LengthExtraBits(i))
      invariant gain >= 264 && gain % 4 == 0 && i <= gain && (gain == 264 || gain - 4 < i)
    {
      IsMaxMore(m, sizes[..i - 257], sizes[i - 257]);
      assert sizes[..i - 256] == sizes[..i - 257] + [sizes[i - 257]];
      if table[i].length + extra > m {
        m := table[i].length + extra;
      }
      if i < 284 {
        ExtraBitsSteps(i);
      }
      if i == gain {
        gain := gain + 4;
        extra := extra + 1;
      }
    }
    assert sizes[..28] == sizes;
  }

  method LongestDistance(table: array<HuffCode>) returns (m: nat)
    requires table.Length == DIST_LEN
    ensures IsMax(m, DistanceSizes(Lengths(table[..])))
  {
    hide IsMax, DistanceExtraBits;
    m := 0;
    var extra, gain := 0, 3;
    ghost var sizes := DistanceSizes(Lengths(table[..]));
    NoMax();
    DistanceSteps(0);
    assert sizes[..0] == [];
    for i := 0 to DIST_LEN
      invariant IsMax(m, sizes[..i]) && (i < DIST_LEN ==> extra == DistanceExtraBits(i))
      invariant gain >= 3 && gain % 2 == 1 && i <= gain && (gain == 3 || gain - 2 < i)
    {
      IsMaxMore(m, sizes[..i], sizes[i]);
      assert sizes[..i + 1] == sizes[..i] + [sizes[i]];
      if table[i].length + extra > m {
        m := table[i].length + extra;
      }
      if i < 29 {
        DistanceSteps(i);
      }
      if i == gain {
        gain := gain + 2;
        extra := extra + 1;
      }
    }
    assert sizes[..DIST_LEN] == sizes;
  }

  // Whether the three greatest sizes together do not fit (the function returns 0 when they do).
  method AreHufftablesUseable(lit: array<HuffCode>, dist: array<HuffCode>)
    returns (tooLong: bool, ghost maxLit: nat, ghost maxLen: nat, ghost maxDist: nat)
    requires lit.Length == LIT_LEN && dist.Length == DIST_LEN
    ensures Sizes(Lengths(lit[..]), Lengths(dist[..]), maxLit, maxLen, maxDist)
    ensures tooLong <==> maxLit + maxLen + maxDist > 56
    ensures tooLong <==> !Passing(Lengths(lit[..]), Lengths(dist[..]))
  {
    hide IsMax;
    var a := LongestCode(lit);
    var b := LongestLength(lit);
    var c := LongestDistance(dist);
    maxLit, maxLen, maxDist := a, b, c;
    tooLong := a + b + c > MAX_BITBUF_BIT_WRITE;
    if Passing(Lengths(lit[..]), Lengths(dist[..])) {
      PassingSizes(Lengths(lit[..]), Lengths(dist[..]), a, b, c);
    }
  }

  // ---- one literal, one length and one distance in the bit buffer ----

  // Bits of a literal, a length symbol and a distance symbol with their extra bits.
  function TripleBits(ll: seq<nat>, dd: seq<nat>, lit: nat, sym: nat, dist: nat): nat
    requires |ll| == LIT_LEN && |dd| == DIST_LEN && lit < LIT_LEN && sym < LIT_LEN && dist < DIST_LEN
  {
    ll[lit] + (ll[sym] + LengthExtraBits(sym)) + (dd[dist] + DistanceExtraBits(dist))
  }

  // All literals, lengths and distances fit together, for length symbols below top.
  ghost predicate FitBelow(ll: seq<nat>, dd: seq<nat>, top: nat)
    requires |ll| == LIT_LEN && |dd| == DIST_LEN && top <= LIT_LEN
  {
    forall lit, sym, dist :: 0 <= lit < 256 && 257 <= sym < top && 0 <= dist < DIST_LEN ==>
      TripleBits(ll, dd, lit, sym, dist) <= 56
  }

  ghost predicate AllFit(ll: seq<nat>, dd: seq<nat>)
    requires |ll| == LIT_LEN && |dd| == DIST_LEN
  {
    FitBelow(ll, dd, LIT_LEN)
  }

  lemma SizeBounds(ll: seq<nat>, dd: seq<nat>, lit: nat, len: nat, dist: nat)
    requires Sizes(ll, dd, lit, len, dist)
    ensures forall i :: 0 <= i < LIT_LEN ==> ll[i] <= lit
    ensures forall i :: 257 <= i < 285 ==> ll[i] + LengthExtraBits(i) <= len
    ensures forall i :: 0 <= i < DIST_LEN ==> dd[i] + DistanceExtraBits(i) <= dist
  {
    hide LengthExtraBits, DistanceExtraBits;
    forall i | 257 <= i < 285 ensures ll[i] + LengthExtraBits(i) <= len {
      assert LengthSizes(ll)[i - 257] == ll[i] + LengthExtraBits(i);
    }
    forall i | 0 <= i < DIST_LEN ensures dd[i] + DistanceExtraBits(i) <= dist {
      assert DistanceSizes(dd)[i] == dd[i] + DistanceExtraBits(i);
    }
  }

  // Tables that pass the test fit, but for the symbol of length 258, which the test leaves out.
  lemma PassedFit(ll: seq<nat>, dd: seq<nat>, lit: nat, len: nat, dist: nat)
    requires Sizes(ll, dd, lit, len, dist) && lit + len + dist <= 56
    ensures FitBelow(ll, dd, 285)
  {
    SizeBounds(ll, dd, lit, len, dist);
    hide LengthExtraBits, DistanceExtraBits;
  }

  // With that symbol they fit if and only if its code leaves room for the longest literal and
  // distance.
  lemma PassedFitExactly(ll: seq<nat>, dd: seq<nat>, lit: nat, len: nat, dist: nat, longest: nat)
    requires Sizes(ll, dd, lit, len, dist) && lit + len + dist <= 56
    requires IsMax(longest, ll[..256]) && longest > 0 && dist > 0
    ensures AllFit(ll, dd) <==> longest + ll[285] + dist <= 56
  {
    PassedFit(ll, dd, lit, len, dist);
    SizeBounds(ll, dd, lit, len, dist);
    assert LengthExtraBits(285) == 0;
    hide LengthExtraBits, DistanceExtraBits;
    var a :| 0 <= a < 256 && ll[..256][a] == longest;
    var d :| 0 <= d < DIST_LEN && DistanceSizes(dd)[d] == dist;
    assert TripleBits(ll, dd, a, 285, d) == longest + ll[285] + dist;
    assert forall i :: 0 <= i < 256 ==> ll[i] == ll[..256][i];
  }

  lemma ExtraBitsBound(sym: nat)
    ensures LengthExtraBits(sym) <= 5 && DistanceExtraBits(sym) <= 13
  {
  }

  // With lengths of at most 13 and 12 bits everything fits: 13 + 18 + 25.
  lemma SafeFit(ll: seq<nat>, dd: seq<nat>)
    requires |ll| == LIT_LEN && forall i :: 0 <= i < LIT_LEN ==> ll[i] <= 13
    requires |dd| == DIST_LEN && forall i :: 0 <= i < DIST_LEN ==> dd[i] <= 12
    ensures AllFit(ll, dd)
  {
    hide LengthExtraBits, DistanceExtraBits;
    forall lit, sym, dist | 0 <= lit < 256 && 257 <= sym < LIT_LEN && 0 <= dist < DIST_LEN
      ensures TripleBits(ll, dd, lit, sym, dist) <= 56
    {
      ExtraBitsBound(sym);
      ExtraBitsBound(dist);
    }
  }

  // ---- tables that pass and do not fit ----

  lemma {:induction false} CountConcat(a: seq<nat>, b: seq<nat>, l: nat)
    ensures Count(a + b, l) == Count(a, l) + Count(b, l)
    decreases |b|
  {
    if b == [] {
      assert a + b == a;
    } else {
      CountConcat(a, b[..|b| - 1], l);
      assert (a + b)[..|a + b| - 1] == a + b[..|b| - 1];
    }
  }

  lemma {:induction false} CountRun(v: nat, n: nat, l: nat)
    ensures Count(RunLength.Repeat(v, n), l) == if v == l then n else 0
  {
    if n > 0 {
      CountRun(v, n - 1, l);
      assert RunLength.Repeat(v, n)[..n - 1] == RunLength.Repeat(v, n - 1);
    }
  }

  // from, from + 1, ...: a chain of codes.
  function Chain(from: nat, n: nat): (s: seq<nat>)
    ensures |s| == n && forall i :: 0 <= i < n ==> s[i] == from + i
  {
    seq(n, i requires 0 <= i < n => from + i)
  }

  lemma {:induction false} CountChain(from: nat, n: nat, l: nat)
    ensures Count(Chain(from, n), l) == if from <= l < from + n then 1 else 0
  {
    if n > 0 {
      CountChain(from, n - 1, l);
      assert Chain(from, n)[..n - 1] == Chain(from, n - 1);
    }
  }

  // Literals of 8, 9 and 10 to 15 bits, lengths of 8 bits, and 15 bits for the length 258.
  function LongLl(): (ll: seq<nat>)
    ensures |ll| == LIT_LEN
  {
    RunLength.Repeat(8, 204) + RunLength.Repeat(9, 46) + RunLength.Repeat(15, 1) + Chain(9, 6)
    + RunLength.Repeat(8, 28) + RunLength.Repeat(15, 1)
  }

  // Distances of 4 and 5 bits, and of 2 to 15 bits up to the longest distances.
  function LongDd(): (dd: seq<nat>)
    ensures |dd| == DIST_LEN
  {
    RunLength.Repeat(4, 1) + RunLength.Repeat(5, 14) + Chain(2, 14) + RunLength.Repeat(15, 1)
  }

  lemma CountLongLl(l: nat)
    ensures Counts(LongLl())(l)
         == (if l == 8 then 232 else if l == 9 then 47 else if 10 <= l <= 14 then 1 else if l == 15 then 2 else 0)
  {
    hide Count, RunLength.Repeat, Chain;
    var a, b, c, d := RunLength.Repeat(8, 204), RunLength.Repeat(9, 46), RunLength.Repeat(15, 1), Chain(9, 6);
    var e := RunLength.Repeat(8, 28);
    CountConcat(a, b, l);
    CountConcat(a + b, c, l);
    CountConcat(a + b + c, d, l);
    CountConcat(a + b + c + d, e, l);
    CountConcat(a + b + c + d + e, c, l);
    CountRun(8, 204, l);
    CountRun(9, 46, l);
    CountRun(15, 1, l);
    CountChain(9, 6, l);
    CountRun(8, 28, l);
  }

  lemma CountLongDd(l: nat)
    ensures Counts(LongDd())(l)
         == (if l == 4 then 2 else if l == 5 then 15 else if 2 <= l <= 14 then 1 else if l == 15 then 2 else 0)
  {
    hide Count, RunLength.Repeat, Chain;
    var a, b, c, d := RunLength.Repeat(4, 1), RunLength.Repeat(5, 14), Chain(2, 14), RunLength.Repeat(15, 1);
    CountConcat(a, b, l);
    CountConcat(a + b, c, l);
    CountConcat(a + b + c, d, l);
    CountRun(4, 1, l);
    CountRun(5, 14, l);
    CountChain(2, 14, l);
    CountRun(15, 1, l);
  }

  lemma KraftSteps(c: nat -> nat)
    ensures Kraft(c, 3) == 4 * c(1) + 2 * c(2) + c(3)
    ensures Kraft(c, 6) == 8 * Kraft(c, 3) + 4 * c(4) + 2 * c(5) + c(6)
    ensures Kraft(c, 9) == 8 * Kraft(c, 6) + 4 * c(7) + 2 * c(8) + c(9)
    ensures Kraft(c, 12) == 8 * Kraft(c, 9) + 4 * c(10) + 2 * c(11) + c(12)
    ensures Kraft(c, 15) == 8 * Kraft(c, 12) + 4 * c(13) + 2 * c(14) + c(15)
  {
    assert Kraft(c, 1) == 2 * Kraft(c, 0) + c(1) && Kraft(c, 2) == 2 * Kraft(c, 1) + c(2);
    assert Kraft(c, 4) == 2 * Kraft(c, 3) + c(4) && Kraft(c, 5) == 2 * Kraft(c, 4) + c(5);
    assert Kraft(c, 7) == 2 * Kraft(c, 6) + c(7) && Kraft(c, 8) == 2 * Kraft(c, 7) + c(8);
    assert Kraft(c, 10) == 2 * Kraft(c, 9) + c(10) && Kraft(c, 11) == 2 * Kraft(c, 10) + c(11);
    assert Kraft(c, 13) == 2 * Kraft(c, 12) + c(13) && Kraft(c, 14) == 2 * Kraft(c, 13) + c(14);
  }

  lemma Pow2Max()
    ensures Pow2(MAX_BITS) == 32768
  {
    assert Pow2(15) == 32768;
  }

  lemma LongLlSum()
    ensures Kraft(Counts(LongLl()), 15) == 32768
  {
    hide Kraft, Counts, LongLl;
    KraftSteps(Counts(LongLl()));
    CountLongLl(1); CountLongLl(2); CountLongLl(3); CountLongLl(4); CountLongLl(5);
    CountLongLl(6); CountLongLl(7); CountLongLl(8); CountLongLl(9); CountLongLl(10);
    CountLongLl(11); CountLongLl(12); CountLongLl(13); CountLongLl(14); CountLongLl(15);
  }

  lemma LongLlComplete()
    ensures Kraft(Counts(LongLl()), MAX_BITS) == Pow2(MAX_BITS) && Fits(LongLl())
  {
    hide Kraft, Counts, Pow2;
    LongLlSum();
    Pow2Max();
  }

  lemma LongDdSum()
    ensures Kraft(Counts(LongDd()), 15) == 32768
  {
    hide Kraft, Counts, LongDd;
    KraftSteps(Counts(LongDd()));
    CountLongDd(1); CountLongDd(2); CountLongDd(3); CountLongDd(4); CountLongDd(5);
    CountLongDd(6); CountLongDd(7); CountLongDd(8); CountLongDd(9); CountLongDd(10);
    CountLongDd(11); CountLongDd(12); CountLongDd(13); CountLongDd(14); CountLongDd(15);
  }

  lemma LongDdComplete()
    ensures Kraft(Counts(LongDd()), MAX_BITS) == Pow2(MAX_BITS) && Fits(LongDd())
  {
    hide Kraft, Counts, Pow2;
    LongDdSum();
    Pow2Max();
  }

  // Two complete codes within 15 bits that pass the test, 15 + 13 + 28 = 56, and do not fit
  // together: a literal of 15 bits, the length 258 of 15 bits, and a distance of 28.
  lemma PassedWithoutFitting()
    ensures Sizes(LongLl(), LongDd(), 15, 13, 28) && 15 + 13 + 28 <= 56
    ensures !AllFit(LongLl(), LongDd())
    ensures Fits(LongLl()) && Kraft(Counts(LongLl()), MAX_BITS) == Pow2(MAX_BITS)
    ensures Fits(LongDd()) && Kraft(Counts(LongDd()), MAX_BITS) == Pow2(MAX_BITS)
  {
    hide Fits, Kraft, Count, Sizes, LongLl, LongDd, Pow2, Counts;
    LongLlComplete();
    LongDdComplete();
    LongSizes();
    LongTriple();
  }

  lemma LongTriple()
    ensures TripleBits(LongLl(), LongDd(), 250, 285, 29) == 58
  {
    assert LongLl()[250] == 15 && LongLl()[285] == 15 && LongDd()[29] == 15;
  }

  lemma LongSizes()
    ensures Sizes(LongLl(), LongDd(), 15, 13, 28)
  {
    var ll, dd := LongLl(), LongDd();
    assert ll[250] == 15;
    assert forall i :: 257 <= i < 285 ==> ll[i] == 8;
    assert LengthSizes(ll)[27] == 13;
    forall i | 0 <= i < 28 ensures LengthSizes(ll)[i] <= 13 {
      ExtraBitsBound(257 + i);
    }
    assert dd[29] == 15 && dd[28] == 15;
    assert DistanceSizes(dd)[29] == 28;
    forall i | 0 <= i < DIST_LEN ensures DistanceSizes(dd)[i] <= 28 {
      ExtraBitsBound(i);
    }
  }

  // ---- isal_create_hufftables ----

  // convert_dist_to_dist_sym
  function ConvertDistToDistSym(dist: nat): nat
    requires 1 <= dist <= 32768
  {
    var msb := if dist > 4 then BsrLess(dist) else 0;
    msb * 2 + (dist - 1) / Pow2(msb)
  }

  function BsrLess(dist: nat): nat
    requires 4 < dist
  {
    IcfCodes.BsrAtLeast(dist - 1);
    IcfCodes.Bsr(dist - 1) - 2
  }

  // It is the symbol that get_dist_icf_code computes.
  lemma SameDistSym(dist: nat)
    requires 1 <= dist <= 32768
    ensures ConvertDistToDistSym(dist) == IcfCodes.DistIcfCode(dist).0 < DIST_LEN
  {
    hide DistanceBase, DistanceExtraBits, IcfCodes.Bsr;
    IcfCodes.DistIcfCodeMeans(dist);
    if 2 < dist <= 4 {
      SmallBsr();
    }
  }

  lemma SmallBsr()
    ensures IcfCodes.Bsr(2) == 2 && IcfCodes.Bsr(3) == 2 && Pow2(0) == 1
  {
    assert IcfCodes.Bsr(1) == 1 + IcfCodes.Bsr(0);
  }

  // A complete code within max bits in which every symbol has a code.
  ghost predicate AllCoded(lengths: seq<nat>, max: nat) {
    && Fits(lengths) && Kraft(Counts(lengths), max) == Pow2(max)
    && forall i :: 0 <= i < |lengths| ==> 1 <= lengths[i] <= max
  }

  lemma CompleteHistogram(lengths: seq<nat>, hist: seq<nat>, blCount: seq<nat>, max: nat)
    requires 2 <= |hist| == |lengths| <= MAX_HISTHEAP_SIZE && max <= MAX_BITS
    requires CodeLengths(lengths, Coded(hist, 0), blCount, max)
    ensures AllCoded(lengths, max) && |blCount| > max && blCount[0] == 0
    ensures forall l :: 1 <= l <= max ==> blCount[l] == Count(lengths, l)
  {
    hide Kraft, Count, Coded, Pow2;
    forall i | 0 <= i < |lengths| ensures 1 <= lengths[i] {
      CodedIf(hist, 0, i);
    }
    forall l: nat | max < l ensures Count(lengths, l) == 0 {
      CodeLens.CountZero(lengths, l);
    }
    CodeLens.KraftUp(Counts(lengths), max, MAX_BITS);
  }

  // ---- every complete code is the code of some histogram ----

  // Twice the frequency for every bit less.
  function Histogram(lengths: seq<nat>): (h: seq<nat>)
    ensures |h| == |lengths|
  {
    seq(|lengths|, i requires 0 <= i < |lengths| => if lengths[i] <= MAX_BITS then Pow2(MAX_BITS - lengths[i]) else 0)
  }

  // The Kraft sum, symbol by symbol.
  lemma {:induction false} KraftOfHistogram(lengths: seq<nat>, n: nat)
    requires n <= |lengths| && forall i :: 0 <= i < |lengths| ==> 1 <= lengths[i] <= MAX_BITS
    ensures SumUpTo(Histogram(lengths), n) == Kraft(Counts(lengths[..n]), MAX_BITS)
  {
    hide Pow2, Kraft, Count;
    if n == 0 {
      EmptyCounts();
      assert lengths[..0] == [];
      NoKraft(Counts(lengths[..0]), MAX_BITS);
    } else {
      KraftOfHistogram(lengths, n - 1);
      CountNext(lengths, n - 1);
      LimitLengths.KraftPlus(Counts(lengths[..n - 1]), Counts(lengths[..n]), lengths[n - 1], MAX_BITS);
    }
  }

  lemma {:induction false} NoKraft(c: nat -> nat, l: nat)
    requires forall i :: c(i) == 0
    ensures Kraft(c, l) == 0
  {
    if l > 0 {
      NoKraft(c, l - 1);
    }
  }

  lemma HistogramValues(lengths: seq<nat>)
    requires forall i :: 0 <= i < |lengths| ==> 1 <= lengths[i] <= MAX_BITS
    ensures forall i :: 0 <= i < |lengths| ==> Histogram(lengths)[i] == Pow2(MAX_BITS - lengths[i]) <= 0x8000
  {
    forall i | 0 <= i < |lengths| ensures Pow2(MAX_BITS - lengths[i]) <= 0x8000 {
      CodesFit15(MAX_BITS - lengths[i]);
    }
  }

  // The heap of such a histogram: powers of two that add up to 2^15.
  lemma Realized(s: seq<Word>, lengths: seq<nat>, n: nat)
    requires AllCoded(lengths, MAX_BITS) && n == |lengths| <= MAX_HISTHEAP_SIZE
    requires multiset(s) == multiset(WordsOf(Histogram(lengths), AllBelow(n)))
    ensures Dyadic(s, MAX_BITS) && SymbolsWeigh(s, Histogram(lengths))
    ensures forall syms: seq<nat> :: (forall x :: x in syms ==> x < n) ==>
              EnoughWeight(syms, Histogram(lengths), MAX_BITS, MAX_BITS)
  {
    hide Freq, Label, Pow2, Kraft, Fits, Bags.SumOver, Count, WordsOf;
    var h := Histogram(lengths);
    HistogramValues(lengths);
    HeapGiven(s, h, AllBelow(n));
    AllSum(h, n);
    KraftOfHistogram(lengths, n);
    assert lengths[..n] == lengths;
    forall w | w in s ensures PowerOf2(Freq(w)) {
      assert h[Label(w)] == Pow2(MAX_BITS - lengths[Label(w)]);
    }
    forall i | 0 <= i < n ensures h[i] * Pow2(MAX_BITS) >= Pow2(MAX_BITS) {
      AtLeastOne(h[i], Pow2(MAX_BITS));
    }
  }

  lemma AtLeastOne(v: nat, p: nat)
    requires v >= 1
    ensures v * p >= p
  {
  }

  lemma RealizedLengths(lengths: seq<nat>, expected: seq<nat>, n: nat)
    requires AllCoded(expected, MAX_BITS) && |lengths| == n == |expected| && 2 <= n <= MAX_HISTHEAP_SIZE
    requires LengthsWeigh(lengths, Coded(Histogram(expected), 0), Histogram(expected), MAX_BITS)
    ensures lengths == expected
  {
    hide Pow2, Kraft, Fits, Coded;
    HistogramValues(expected);
    EveryCoded(Histogram(expected));
    forall x | 0 <= x < n ensures lengths[x] == expected[x] {
      SameExponent(MAX_BITS - expected[x], lengths[x], MAX_BITS);
    }
  }

  lemma SameExponent(a: nat, b: nat, total: nat)
    requires Pow2(a) * Pow2(b) == Pow2(total)
    ensures a + b == total
  {
    LimitLengths.Pow2Sum(a, b);
    Pow2Less(a + b, total);
    Pow2Less(total, a + b);
  }

  lemma ManyWords(n: nat, max: nat)
    requires n <= MAX_HISTHEAP_SIZE && 9 <= max
    ensures n <= Pow2(max)
  {
    assert Pow2(9) == 512;
    Pow2Monotone(9, max);
  }

  // init_heap64_complete, gen_huff_code_lens and set_huff_codes; count may hold anything before.
  method CompleteCodes(hist: array<nat>, n: nat, count: array<nat>, table: array<HuffCode>, codesCount: nat, max: nat,
                       ghost expected: seq<nat>) returns (maxCode: nat)
    requires 2 <= n <= MAX_HISTHEAP_SIZE && hist.Length == n == table.Length && codesCount <= n
    requires count.Length == MAX_BITS + 1 && count != hist && 9 <= max <= MAX_BITS
    modifies count, table
    ensures AllCoded(Lengths(table[..]), max) && maxCode == LastUsed(Lengths(table[..]), n)
    ensures forall q :: 0 <= q < n ==> StoresCode(table[q], Lengths(table[..]), q)
    ensures max == MAX_BITS && AllCoded(expected, MAX_BITS) && hist[..] == Histogram(expected) ==>
              Lengths(table[..]) == expected
    ensures SumUpTo(hist[..], n) < FREQ_BOUND ==> ByFrequency(Lengths(table[..]), AllBelow(n), hist[..])
    ensures SumUpTo(hist[..], n) < FREQ_BOUND ==>
              LeastCode(Lengths(table[..]), AllBelow(n), hist[..]) || LimitMatters(AllBelow(n), hist[..], n, max)
  {
    hide Coded, CodeLengths, Fits, Kraft, Assigned, Lengths, Labels, Ordered, Symbols, LastUsed, Count, Pow2, AllCoded,
      Histogram, Dyadic, SymbolsWeigh, EnoughWeight, LengthsWeigh, WordsOf, ByFrequency, LeastCode, LimitMatters,
      GivenBy, SumUpTo, Padded;
    var heap := new Word[HEAP_TREE_SIZE](_ => 0);
    ghost var h := hist[..n];
    var heapSize := InitHeap(heap, hist, n, 0);
    CodedDistinct(h, 0);
    EveryCoded(h);
    ManyWords(heapSize, max);
    assert h == hist[..];
    AllCodedWords(h);
    if AllCoded(expected, MAX_BITS) && h == Histogram(expected) {
      Realized(heap[1..heapSize + 1], expected, n);
    }
    if SumUpTo(h, n) < FREQ_BOUND {
      AllGiven(heap[1..heapSize + 1], h);
    }
    var ok := GenHuffCodeLens(heap, heapSize, count, table, 0, codesCount, max, Coded(h, 0), n, h, MAX_BITS);
    assert table[0..0 + n] == table[..];
    ghost var before, lengths := table[..], Lengths(table[..]);
    if max == MAX_BITS && AllCoded(expected, MAX_BITS) && h == Histogram(expected) {
      RealizedLengths(lengths, expected, n);
    }
    CompleteHistogram(lengths, h, count[..], max);
    CodedMeans(before, lengths, max);
    maxCode := SetHuffCodes(table, 0, n, count, false, max);
    assert table[0..0 + n] == table[..];
    forall q | 0 <= q < n ensures StoresCode(table[q], lengths, q) {
      AssignedMeans(table[q], before[q], lengths, q);
    }
  }

  lemma EveryCoded(h: seq<nat>)
    requires |h| >= 2
    ensures forall x :: 0 <= x < |h| ==> x in Coded(h, 0)
  {
    hide Coded;
    forall x | 0 <= x < |h| ensures x in Coded(h, 0) {
      CodedIf(h, 0, x);
    }
  }

  lemma CodedMeans(table: seq<HuffCode>, lengths: seq<nat>, max: nat)
    requires AllCoded(lengths, max) && lengths == Lengths(table)
    ensures Fits(lengths) && forall q :: 0 <= q < |table| ==> table[q].length <= max
  {
    hide Kraft, Fits;
  }

  lemma AssignedMeans(h: HuffCode, before: HuffCode, lengths: seq<nat>, i: nat)
    requires i < |lengths| && Assigned(h, before, lengths, i, false)
    ensures StoresCode(h, lengths, i)
  {
  }

  // The lengths pass the test.
  ghost predicate Passing(ll: seq<nat>, dd: seq<nat>) {
    exists lit: nat, len: nat, dist: nat :: Sizes(ll, dd, lit, len, dist) && lit + len + dist <= 56
  }

  lemma MaxIsMax(a: nat, b: nat, s: seq<nat>)
    requires IsMax(a, s) && IsMax(b, s)
    ensures a == b
  {
  }

  lemma PassingSizes(ll: seq<nat>, dd: seq<nat>, lit: nat, len: nat, dist: nat)
    requires Passing(ll, dd)
    ensures Sizes(ll, dd, lit, len, dist) ==> lit + len + dist <= 56
  {
    hide IsMax;
    var lit': nat, len': nat, dist': nat :| Sizes(ll, dd, lit', len', dist') && lit' + len' + dist' <= 56;
    if Sizes(ll, dd, lit, len, dist) {
      MaxIsMax(lit, lit', ll);
      MaxIsMax(len, len', LengthSizes(ll));
      MaxIsMax(dist, dist', DistanceSizes(dd));
    }
  }

  // Some other length symbol is rarer than that of length 258.
  ghost predicate RarerLength(litHist: seq<nat>)
    requires |litHist| == LIT_LEN
  {
    exists s :: 257 <= s < 285 && litHist[s] < litHist[285]
  }

  // Then its code is no longer than one that the test looks at.
  lemma RarerFits(litHist: seq<nat>, ll: seq<nat>, dd: seq<nat>, lit: nat, len: nat, dist: nat)
    requires |litHist| == LIT_LEN && RarerLength(litHist) && ByFrequency(ll, AllBelow(LIT_LEN), litHist)
    requires Sizes(ll, dd, lit, len, dist) && lit + len + dist <= 56
    ensures AllFit(ll, dd)
  {
    hide LengthSizes, DistanceSizes, IsMax, LengthExtraBits, DistanceExtraBits;
    PassedFit(ll, dd, lit, len, dist);
    SizeBounds(ll, dd, lit, len, dist);
    var s :| 257 <= s < 285 && litHist[s] < litHist[285];
    assert AllBelow(LIT_LEN)[s] == s && AllBelow(LIT_LEN)[285] == 285;
    assert ll[285] <= ll[s];
    LastExtraBits();
    forall a, sym, d | 0 <= a < 256 && 257 <= sym < LIT_LEN && 0 <= d < DIST_LEN
      ensures TripleBits(ll, dd, a, sym, d) <= 56
    {
      if sym == 285 {
        assert ll[a] <= lit && dd[d] + DistanceExtraBits(d) <= dist;
      }
    }
  }

  lemma LastExtraBits()
    ensures LengthExtraBits(285) == 0
  {
  }

  // A complete code within max bits for all symbols of the histogram: the more frequent one has no
  // longer code, and no code costs less unless that is too long.
  ghost predicate MadeCode(lengths: seq<nat>, hist: seq<nat>, max: nat)
    requires |lengths| == |hist|
  {
    AllCoded(lengths, max)
    && (SumUpTo(hist, |hist|) < FREQ_BOUND ==>
          ByFrequency(lengths, AllBelow(|hist|), hist)
          && (LeastCode(lengths, AllBelow(|hist|), hist) || LimitMatters(AllBelow(|hist|), hist, |hist|, max)))
  }

  // The codes of the first try, within 15 bits, if they pass, and otherwise shorter ones.
  ghost predicate TablesMade(retried: bool, ll: seq<nat>, dd: seq<nat>, litHist: seq<nat>, distHist: seq<nat>)
    requires |ll| == |litHist| == LIT_LEN && |dd| == |distHist| == DIST_LEN
  {
    exists ll1: seq<nat>, dd1: seq<nat> ::
      && |ll1| == LIT_LEN && |dd1| == DIST_LEN && MadeCode(ll1, litHist, 15) && MadeCode(dd1, distHist, 15)
      && (retried <==> !Passing(ll1, dd1))
      && if retried then MadeCode(ll, litHist, 13) && MadeCode(dd, distHist, 12) else ll == ll1 && dd == dd1
  }

  // The tables of isal_create_hufftables: complete codes in which a literal and a distance fit the
  // bit buffer together with any length below 258. After the second try they fit with 258 as well;
  // after the first, PassedFitExactly says when by the lengths. By the histogram they do if some
  // other length symbol is rarer than that of 258.
  method CreateHufftables(litHist: array<nat>, distHist: array<nat>, lit: array<HuffCode>, dist: array<HuffCode>,
                          ghost ll: seq<nat>, ghost dd: seq<nat>)
    returns (retried: bool, maxLitLenSym: nat, maxDistSym: nat, ghost maxLit: nat, ghost maxLen: nat, ghost maxDist: nat)
    requires litHist.Length == LIT_LEN == lit.Length && distHist.Length == DIST_LEN == dist.Length && lit != dist
    modifies lit, dist
    ensures MadeCode(Lengths(lit[..]), litHist[..], if retried then 13 else 15)
    ensures MadeCode(Lengths(dist[..]), distHist[..], if retried then 12 else 15)
    ensures forall q :: 0 <= q < LIT_LEN ==> StoresCode(lit[q], Lengths(lit[..]), q)
    ensures forall q :: 0 <= q < DIST_LEN ==> StoresCode(dist[q], Lengths(dist[..]), q)
    ensures maxLitLenSym == LastUsed(Lengths(lit[..]), LIT_LEN) && maxDistSym == LastUsed(Lengths(dist[..]), DIST_LEN)
    ensures FitBelow(Lengths(lit[..]), Lengths(dist[..]), 285)
    ensures retried ==> AllFit(Lengths(lit[..]), Lengths(dist[..]))
    ensures !retried ==> Sizes(Lengths(lit[..]), Lengths(dist[..]), maxLit, maxLen, maxDist)
    ensures !retried ==> maxLit + maxLen + maxDist <= 56
    ensures RarerLength(litHist[..]) && SumUpTo(litHist[..], LIT_LEN) < FREQ_BOUND ==>
              AllFit(Lengths(lit[..]), Lengths(dist[..]))
    ensures TablesMade(retried, Lengths(lit[..]), Lengths(dist[..]), litHist[..], distHist[..])
    // the first try gives every complete code to the histograms that are made for it
    ensures AllCoded(ll, MAX_BITS) && AllCoded(dd, MAX_BITS) && litHist[..] == Histogram(ll)
         && distHist[..] == Histogram(dd) && Passing(ll, dd)
        ==> !retried && Lengths(lit[..]) == ll && Lengths(dist[..]) == dd
  {
    hide AllCoded, Sizes, FitBelow, Lengths, StoresCode, Histogram, Passing, IcfCodes.DistIcfCode, LastUsed,
      ByFrequency, LeastCode, LimitMatters, SumUpTo, RarerLength, MadeCode, TablesMade;
    var count := new nat[MAX_BITS + 1](_ => 0);
    SameDistSym(32768);
    var maxDistCodes := ConvertDistToDistSym(32768);
    maxLitLenSym := CompleteCodes(litHist, LIT_LEN, count, lit, LIT_LEN, MAX_DEFLATE_CODE_LEN, ll);
    maxDistSym := CompleteCodes(distHist, DIST_LEN, count, dist, maxDistCodes, MAX_DEFLATE_CODE_LEN, dd);
    ghost var ll1, dd1 := Lengths(lit[..]), Lengths(dist[..]);
    IsMadeCode(ll1, litHist[..], MAX_DEFLATE_CODE_LEN);
    IsMadeCode(dd1, distHist[..], MAX_DEFLATE_CODE_LEN);
    retried, maxLit, maxLen, maxDist := AreHufftablesUseable(lit, dist);
    if Passing(ll, dd) {
      PassingSizes(ll, dd, maxLit, maxLen, maxDist);
    }
    if retried {
      maxLitLenSym := CompleteCodes(litHist, LIT_LEN, count, lit, LIT_LEN, MAX_SAFE_LIT_CODE_LEN, ll);
      maxDistSym := CompleteCodes(distHist, DIST_LEN, count, dist, maxDistCodes, MAX_SAFE_DIST_CODE_LEN, dd);
      CodedBounds(Lengths(lit[..]), MAX_SAFE_LIT_CODE_LEN);
      CodedBounds(Lengths(dist[..]), MAX_SAFE_DIST_CODE_LEN);
      IsMadeCode(Lengths(lit[..]), litHist[..], MAX_SAFE_LIT_CODE_LEN);
      IsMadeCode(Lengths(dist[..]), distHist[..], MAX_SAFE_DIST_CODE_LEN);
      SafeFit(Lengths(lit[..]), Lengths(dist[..]));
      FitLess(Lengths(lit[..]), Lengths(dist[..]));
    } else {
      PassedFit(Lengths(lit[..]), Lengths(dist[..]), maxLit, maxLen, maxDist);
      if RarerLength(litHist[..]) && SumUpTo(litHist[..], LIT_LEN) < FREQ_BOUND {
        RarerFits(litHist[..], Lengths(lit[..]), Lengths(dist[..]), maxLit, maxLen, maxDist);
      }
    }
    AreMade(retried, Lengths(lit[..]), Lengths(dist[..]), litHist[..], distHist[..], ll1, dd1);
  }

  lemma MadeCoded(lengths: seq<nat>, hist: seq<nat>, max: nat)
    requires |lengths| == |hist| && MadeCode(lengths, hist, max)
    ensures AllCoded(lengths, max)
  {
  }

  lemma IsMadeCode(lengths: seq<nat>, hist: seq<nat>, max: nat)
    requires |lengths| == |hist| && AllCoded(lengths, max)
    requires SumUpTo(hist, |hist|) < FREQ_BOUND ==>
               ByFrequency(lengths, AllBelow(|hist|), hist)
               && (LeastCode(lengths, AllBelow(|hist|), hist) || LimitMatters(AllBelow(|hist|), hist, |hist|, max))
    ensures MadeCode(lengths, hist, max)
  {
  }

  lemma AreMade(retried: bool, ll: seq<nat>, dd: seq<nat>, litHist: seq<nat>, distHist: seq<nat>, ll1: seq<nat>,
                dd1: seq<nat>)
    requires |ll| == |ll1| == |litHist| == LIT_LEN && |dd| == |dd1| == |distHist| == DIST_LEN
    requires MadeCode(ll1, litHist, 15) && MadeCode(dd1, distHist, 15) && (retried <==> !Passing(ll1, dd1))
    requires if retried then MadeCode(ll, litHist, 13) && MadeCode(dd, distHist, 12) else ll == ll1 && dd == dd1
    ensures TablesMade(retried, ll, dd, litHist, distHist)
  {
    hide MadeCode, Passing;
  }

  lemma CodedBounds(lengths: seq<nat>, max: nat)
    requires AllCoded(lengths, max)
    ensures forall i :: 0 <= i < |lengths| ==> lengths[i] <= max
  {
  }

  lemma FitLess(ll: seq<nat>, dd: seq<nat>)
    requires |ll| == LIT_LEN && |dd| == DIST_LEN && AllFit(ll, dd)
    ensures FitBelow(ll, dd, 285)
  {
    hide TripleBits;
  }

  // Histograms for which the tables of isal_create_hufftables do not fit: twice the frequency for
  // every bit less than in LongLl and LongDd.
  method TooLongTables(lit: array<HuffCode>, dist: array<HuffCode>)
    requires lit.Length == LIT_LEN && dist.Length == DIST_LEN && lit != dist
    modifies lit, dist
    ensures !AllFit(Lengths(lit[..]), Lengths(dist[..]))
  {
    hide AllCoded, Sizes, AllFit, LongLl, LongDd, Passing, Fits, Kraft, Lengths, StoresCode, FitBelow, Pow2;
    PassedWithoutFitting();
    LongCoded();
    ItPasses();
    var litHist := new nat[LIT_LEN](i requires 0 <= i < LIT_LEN => Histogram(LongLl())[i]);
    var distHist := new nat[DIST_LEN](i requires 0 <= i < DIST_LEN => Histogram(LongDd())[i]);
    assert litHist[..] == Histogram(LongLl()) && distHist[..] == Histogram(LongDd());
    hide Histogram;
    var retried, s, d, maxLit, maxLen, maxDist := CreateHufftables(litHist, distHist, lit, dist, LongLl(), LongDd());
  }

  lemma LongCoded()
    ensures AllCoded(LongLl(), MAX_BITS) && AllCoded(LongDd(), MAX_BITS)
  {
    hide Kraft, Fits, Pow2, Counts;
    LongLlComplete();
    LongDdComplete();
  }

  lemma ItPasses()
    ensures Passing(LongLl(), LongDd())
  {
    hide Sizes, LongLl, LongDd;
    PassedWithoutFitting();
    assert Sizes(LongLl(), LongDd(), 15, 13, 28);
  }
}
