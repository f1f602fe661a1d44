/** How long the data of a block are. */
module BlockSize {
  import opened Rfc1951
  import opened Canonical
  import opened HuffCodes
  import opened IcfCodes
  import opened IcfTables
  import opened Inflate
  import opened EncodeDf
  import opened Flatten
  import Lz77

  // Every symbol as often as it occurs, with its weight.
  function Weighted(h: seq<nat>, w: nat -> nat, n: nat): nat
    requires n <= |h|
  {
    if n == 0 then 0 else Weighted(h, w, n - 1) + h[n - 1] * w(n - 1)
  }

  // Code and extra bits of a symbol.
  function LlWeight(ll: seq<nat>): nat -> nat {
    (s: nat) => if s < |ll| then ll[s] + LengthExtraBits(s) else 0
  }

  function DWeight(dd: seq<nat>): nat -> nat {
    (s: nat) => if s < |dd| then dd[s] + DistanceExtraBits(s) else 0
  }

  function DataSum(h: seq<nat>, d: seq<nat>, c: BlockCodes): nat
    requires |h| == LIT_LEN && |d| == DIST_LEN
  {
    Weighted(h, LlWeight(c.ll), LIT_LEN) + Weighted(d, DWeight(c.dd), DIST_LEN)
  }

  // ---- the same in the program's 32-bit products ----

  function Times32(a: nat, b: nat): nat {
    a * b % 0x1_0000_0000
  }

  function Weighted32(h: seq<nat>, w: nat -> nat, n: nat): nat
    requires n <= |h|
  {
    if n == 0 then 0 else Weighted32(h, w, n - 1) + Times32(w(n - 1), h[n - 1])
  }

  function DataSum32(h: seq<nat>, d: seq<nat>, c: BlockCodes): nat
    requires |h| == LIT_LEN && |d| == DIST_LEN
  {
    Weighted32(h, LlWeight(c.ll), LIT_LEN) + Weighted32(d, DWeight(c.dd), DIST_LEN)
  }

  // One that occurs 2^28 times with 16 bits counts for nothing.
  lemma ProductCut()
    ensures Times32(16, 0x1000_0000) == 0 && Times32(16, 0xFFF_FFFF) == 0xFFFF_FFF0
  {
  }

  // No symbol occurs 2^27 times.
  ghost predicate Rare(h: seq<nat>) {
    forall i :: 0 <= i < |h| ==> h[i] < 0x800_0000
  }

  // Then no product with the size of a symbol, which is below 32, is cut.
  lemma NotCut(a: nat, b: nat)
    requires a < 32 && b < 0x800_0000
    ensures Times32(a, b) == b * a
  {
    assert a * b <= 32 * b;
  }

  lemma {:induction false} WeightedUncut(h: seq<nat>, w: nat -> nat, n: nat)
    requires n <= |h| && Rare(h) && forall s :: 0 <= s < n ==> w(s) < 32
    ensures Weighted32(h, w, n) == Weighted(h, w, n)
  {
    hide Times32;
    if n > 0 {
      WeightedUncut(h, w, n - 1);
      NotCut(w(n - 1), h[n - 1]);
    }
  }

  lemma ExtraBelow(s: nat)
    ensures LengthExtraBits(s) <= 5 && DistanceExtraBits(s) <= 13
  {
  }

  lemma DataUncut(h: seq<nat>, d: seq<nat>, c: BlockCodes)
    requires |h| == LIT_LEN && |d| == DIST_LEN && Rare(h) && Rare(d) && Fits(c.ll) && Fits(c.dd)
    ensures DataSum32(h, d, c) == DataSum(h, d, c)
  {
    hide LengthExtraBits, DistanceExtraBits, Weighted, Weighted32, Kraft;
    forall s: nat ensures LlWeight(c.ll)(s) < 32 && DWeight(c.dd)(s) < 32 {
      ExtraBelow(s);
    }
    WeightedUncut(h, LlWeight(c.ll), LIT_LEN);
    WeightedUncut(d, DWeight(c.dd), DIST_LEN);
  }

  // Symbols behind the last one in use add nothing.
  lemma {:induction false} Weighted32UpTo(h: seq<nat>, w: nat -> nat, n: nat, m: nat)
    requires n <= m <= |h| && forall i :: n <= i < m ==> h[i] == 0
    ensures Weighted32(h, w, m) == Weighted32(h, w, n)
  {
    if n < m {
      Weighted32UpTo(h, w, n, m - 1);
      assert w(m - 1) * 0 == 0;
    }
  }

  // ---- sums of the true products ----

  lemma {:induction false} WeightedMore(h: seq<nat>, h': seq<nat>, w: nat -> nat, n: nat, s: nat)
    requires n <= |h| == |h'| && forall i :: 0 <= i < |h| ==> h'[i] == h[i] + (if i == s then 1 else 0)
    ensures Weighted(h', w, n) == Weighted(h, w, n) + (if s < n then w(s) else 0)
  {
    if n > 0 {
      WeightedMore(h, h', w, n - 1, s);
      if s == n - 1 {
        OneTimesMore(h[s], w(s));
      }
    }
  }

  lemma OneTimesMore(a: nat, b: nat)
    ensures (a + 1) * b == a * b + b
  {
  }

  lemma {:induction false} WeightedNone(h: seq<nat>, w: nat -> nat, n: nat)
    requires n <= |h| && forall i :: 0 <= i < |h| ==> h[i] == 0
    ensures Weighted(h, w, n) == 0
  {
    if n > 0 {
      WeightedNone(h, w, n - 1);
      assert 0 * w(n - 1) == 0;
    }
  }

  // ---- the bits of the tokens ----

  function TokenWidth(c: BlockCodes, t: Icf): nat
    requires t.litLen < LL_NUMBERS
  {
    LlWeight(c.ll)(SymbolOf(t.litLen)) + (if t.litDist < DIST_LEN then DWeight(c.dd)(t.litDist) else 0)
  }

  function AllWidths(c: BlockCodes, tokens: seq<Icf>): nat
    requires forall i :: 0 <= i < |tokens| ==> tokens[i].litLen < LL_NUMBERS
  {
    if tokens == [] then 0 else AllWidths(c, tokens[..|tokens| - 1]) + TokenWidth(c, tokens[|tokens| - 1])
  }

  lemma ShortLength(table: seq<HuffCode>, c: BlockCodes, t: Icf)
    requires ExpandedTables(table, c) && Covers(c, t) && t.litLen <= 256
    ensures t.litDist < 288 && |TokenBits(table, t)| == TokenWidth(c, t)
  {
    TokenShape(c, t);
    hide Fits, CodeBits, DistanceEntries, ElementOf, Covers, Used, StoresLength, Pow2;
    var lsym := table[LIT_TABLE + t.litLen];
    assert StoresLitLen(lsym, c.ll, t.litLen);
  }

  lemma PairLength(table: seq<HuffCode>, c: BlockCodes, t: Icf)
    requires ExpandedTables(table, c) && Covers(c, t) && 256 < t.litLen < LL_NUMBERS
    ensures t.litDist < 288 && |TokenBits(table, t)| == TokenWidth(c, t)
  {
    hide Fits, CodeOf, ElementOf, Covers, Used, LenSym, LengthBase, LengthExtraBits, DistanceBase, DistanceExtraBits, Pow2,
      ExpandedTables, TokenBits, Writable;
    TokenShape(c, t);
    BothFit(table, c);
    PairBits(table, c, t);
    LengthBitsAre(c.ll, t.litLen - 254);
  }

  lemma {:induction false} AllLength(table: seq<HuffCode>, c: BlockCodes, tokens: seq<Icf>)
    requires ExpandedTables(table, c) && AllCovered(c, tokens) && forall i :: 0 <= i < |tokens| ==> tokens[i].litLen < LL_NUMBERS
    ensures |table| == TABLE_SIZE && InTables(tokens) && |AllBits(table, tokens)| == AllWidths(c, tokens)
    decreases |tokens|
  {
    hide ExpandedTables, Covers, TokenBits, TokenWidth;
    BothFit(table, c);
    CoveredInTables(c, tokens);
    if tokens != [] {
      var last := |tokens| - 1;
      AllLength(table, c, tokens[..last]);
      assert tokens == tokens[..last] + [tokens[last]];
      AllBitsSnoc(table, tokens[..last], tokens[last]);
      if tokens[last].litLen <= 256 {
        ShortLength(table, c, tokens[last]);
      } else {
        PairLength(table, c, tokens[last]);
      }
    }
  }

  // The histograms tell how many bits the tokens take.
  lemma {:induction false} SumsAre(h: seq<nat>, d: seq<nat>, c: BlockCodes, tokens: seq<Icf>)
    requires |h| == LIT_LEN && |d| == DIST_LEN && forall i :: 0 <= i < |tokens| ==> tokens[i].litLen < LL_NUMBERS
    requires forall s :: 0 <= s < LIT_LEN ==> h[s] == CountSymbol(tokens, s)
    requires forall s :: 0 <= s < DIST_LEN ==> d[s] == Lz77.CountDist(tokens, s)
    ensures DataSum(h, d, c) == AllWidths(c, tokens)
    decreases |tokens|
  {
    hide SymbolOf, LlWeight, DWeight;
    if tokens == [] {
      WeightedNone(h, LlWeight(c.ll), LIT_LEN);
      WeightedNone(d, DWeight(c.dd), DIST_LEN);
    } else {
      var before, t := tokens[..|tokens| - 1], tokens[|tokens| - 1];
      var h' := seq(LIT_LEN, (s: nat) => CountSymbol(before, s));
      var d' := seq(DIST_LEN, (s: nat) => Lz77.CountDist(before, s));
      SumsAre(h', d', c, before);
      WeightedMore(h', h, LlWeight(c.ll), LIT_LEN, SymbolOf(t.litLen));
      WeightedMore(d', d, DWeight(c.dd), DIST_LEN, t.litDist);
    }
  }
}
