/** The shortest codes of a histogram. */
module ShortestCodes {
  import opened Bags
  import opened Rfc1951
  import opened Canonical
  import opened HuffCodes
  import opened HuffTree
  import opened HuffGen
  import opened SymbolLengths
  import opened BlockSize
  import opened EncodeDf
  import LeastCost
  import LimitLengths

  // The symbols that occur have lengths.
  ghost predicate Covering(lengths: seq<nat>, h: seq<nat>) {
    |lengths| == |h| && forall x :: 0 <= x < |h| && h[x] > 0 ==> lengths[x] > 0
  }

  // The bits of all symbols of the histogram.
  function SymbolBits(h: seq<nat>, lengths: seq<nat>): nat {
    Weighted(h, LimitLengths.At(lengths), |h|)
  }

  // No prefix code for the symbols that occur needs fewer bits.
  ghost predicate Shortest(lengths: seq<nat>, h: seq<nat>) {
    forall l: seq<nat> :: Covering(l, h) && Fits(l) ==> SymbolBits(h, lengths) <= SymbolBits(h, l)
  }

  // ---- other codes for some of the symbols ----

  lemma {:induction false} SameMappedAt(l: seq<nat>, k: nat, v: nat, syms: seq<nat>)
    requires k < |l| && k !in syms
    ensures Mapped(LimitLengths.At(l[k := v]), syms) == Mapped(LimitLengths.At(l), syms)
  {
  }

  // Codes of some symbols take up no more than those of all.
  lemma {:induction false} PartSpace(l: seq<nat>, syms: seq<nat>, m: nat)
    requires LeastCost.Within(l, m) && SymbolLengths.Distinct(syms)
    requires forall x :: x in syms ==> x < |l| && l[x] > 0
    ensures LeastCost.Within(Mapped(LimitLengths.At(l), syms), m)
    ensures LeastCost.Space(Mapped(LimitLengths.At(l), syms), m) <= Kraft(Counts(l), m)
    decreases |syms|
  {
    hide Pow2, Kraft, Count;
    if syms != [] {
      var n := |syms| - 1;
      var x := syms[n];
      assert x in syms && x !in syms[..n];
      var less := l[x := 0];
      assert forall y :: y in syms[..n] ==> y in syms && y != x;
      PartSpace(less, syms[..n], m);
      SameMappedAt(l, x, 0, syms[..n]);
      var all := Mapped(LimitLengths.At(l), syms);
      assert all[..n] == Mapped(LimitLengths.At(l), syms[..n]) && all[n] == l[x];
      forall i: nat | i >= 1 ensures Count(l, i) == Count(less, i) + (if i == l[x] then 1 else 0) {
        CountUpdate(l, x, 0, i);
      }
      LimitLengths.KraftPlus(Counts(less), Counts(l), l[x], m);
    }
  }

  lemma OccurringDistinct(h: seq<nat>)
    ensures SymbolLengths.Distinct(Chosen(h, |h|, |h|))
    ensures forall x: nat :: x in Chosen(h, |h|, |h|) <==> x < |h| && h[x] != 0
  {
    hide Chosen;
    ChosenDistinct(h, |h|, |h|);
    forall x: nat ensures x in Chosen(h, |h|, |h|) <==> x < |h| && h[x] != 0 {
      ChosenIff(h, |h|, |h|, x);
    }
  }

  // ---- the bits of the symbols that occur ----

  lemma {:induction false} OccurringSum(h: seq<nat>, l: seq<nat>, n: nat)
    requires n <= |h|
    ensures Weighted(h, LimitLengths.At(l), n) == SumOver(Product(h, l), Chosen(h, |h|, n))
  {
    if n == 0 {
      assert Chosen(h, |h|, 0) == [];
    } else {
      OccurringSum(h, l, n - 1);
      OccurringStep(h, l, n - 1);
    }
  }

  lemma OccurringStep(h: seq<nat>, l: seq<nat>, n: nat)
    requires n < |h|
    ensures SumOver(Product(h, l), Chosen(h, |h|, n + 1))
         == SumOver(Product(h, l), Chosen(h, |h|, n)) + h[n] * LimitLengths.At(l)(n)
  {
    ChosenNext(h, |h|, n);
    hide Chosen;
    if h[n] != 0 {
      var x: nat := n;
      assert (Chosen(h, |h|, n) + [x])[..|Chosen(h, |h|, n)|] == Chosen(h, |h|, n);
      assert Product(h, l)(x) == h[n] * LimitLengths.At(l)(n);
    } else {
      assert Chosen(h, |h|, n) + [] == Chosen(h, |h|, n);
      assert 0 * LimitLengths.At(l)(n) == 0;
    }
  }

  lemma OccurringCost(h: seq<nat>, l: seq<nat>)
    ensures SymbolBits(h, l) == CodeCost(h, l, Chosen(h, |h|, |h|))
  {
    hide Chosen, SumOver;
    OccurringSum(h, l, |h|);
    CostIsSum(h, l, Chosen(h, |h|, |h|));
  }

  // ---- the code of a histogram ----

  lemma ManySymbols(h: seq<nat>, lengths: seq<nat>, l: seq<nat>)
    requires |h| >= 2 && |Chosen(h, |h|, |h|)| >= 2 && LeastCode(lengths, Coded(h, |h|), Padded(h, |h|))
    requires Covering(l, h) && Fits(l)
    ensures SymbolBits(h, lengths) <= SymbolBits(h, l)
  {
    hide Chosen, Coded, Padded, LeastCost.Cost, LeastCost.Space, Kraft, SymbolBits, Pow2, Count;
    NotPadded(h, |h|);
    OccurringDistinct(h);
    var syms := Chosen(h, |h|, |h|);
    PartSpace(l, syms, MAX_BITS);
    OccurringCost(h, lengths);
    OccurringCost(h, l);
    LeastCost.CheapestMeans(Mapped(LimitLengths.At(h), syms), CodeCost(h, lengths, syms),
                            Mapped(LimitLengths.At(l), syms), MAX_BITS);
  }

  lemma TwoWords(w: seq<nat>, c: nat)
    requires |w| == 2 && LeastCost.Cheapest(w, c)
    ensures c <= w[0] + w[1]
  {
    var l: seq<nat> := [1, 1];
    assert l[..1] == [1] && w[..1] == [w[0]] && [w[0]][..0] == [] && [1][..0] == [];
    assert LeastCost.Cost(w[..1], l[..1]) == w[0];
    assert LeastCost.Space(l[..1], 1) == 1;
    LeastCost.CheapestMeans(w, c, l, 1);
  }

  lemma TwoCost(f: seq<nat>, lengths: seq<nat>, x: nat, k: nat)
    ensures Mapped(LimitLengths.At(f), [x, k]) == [LimitLengths.At(f)(x), LimitLengths.At(f)(k)]
    ensures CodeCost(f, lengths, [x, k])
         == LimitLengths.At(f)(x) * LimitLengths.At(lengths)(x) + LimitLengths.At(f)(k) * LimitLengths.At(lengths)(k)
  {
    hide LimitLengths.At;
    var s: seq<nat> := [x];
    assert s + [k] == [x, k];
    CostIsSum(f, lengths, [x, k]);
    SumOverConcat(Product(f, lengths), s, [k]);
    SumOverOne(Product(f, lengths), x);
    SumOverOne(Product(f, lengths), k);
  }

  // A single symbol gets a code of one bit.
  lemma OneSymbol(h: seq<nat>, lengths: seq<nat>, l: seq<nat>)
    requires |h| >= 2 && |Chosen(h, |h|, |h|)| == 1 && LeastCode(lengths, Coded(h, |h|), Padded(h, |h|))
    requires |lengths| == |h| && forall x :: 0 <= x < |h| ==> (lengths[x] > 0 <==> x in Coded(h, |h|))
    requires Covering(l, h)
    ensures SymbolBits(h, lengths) <= SymbolBits(h, l)
  {
    hide Chosen, Coded, Padded, SymbolBits, CodeCost;
    OccurringDistinct(h);
    var k := OnePadded(h, |h|);
    var syms := Chosen(h, |h|, |h|);
    var x := syms[0];
    assert syms == [x] && x in syms && Coded(h, |h|) == [x, k];
    var f := Padded(h, |h|);
    TwoCost(f, lengths, x, k);
    TwoWords(Mapped(LimitLengths.At(f), [x, k]), CodeCost(f, lengths, [x, k]));
    assert x in Coded(h, |h|) && k in Coded(h, |h|);
    OneCost(h, lengths, x);
    OneCost(h, l, x);
    OccurringCost(h, lengths);
    OccurringCost(h, l);
    AtLeastOnce(h[x], lengths[x], l[x]);
  }

  lemma OneCost(h: seq<nat>, lengths: seq<nat>, x: nat)
    ensures CodeCost(h, lengths, [x]) == LimitLengths.At(h)(x) * LimitLengths.At(lengths)(x)
  {
    CostIsSum(h, lengths, [x]);
    SumOverOne(Product(h, lengths), x);
  }

  lemma AtLeastOnce(v: nat, a: nat, b: nat)
    requires v * a <= v && b >= 1
    ensures v * a <= v * b
  {
    assert v * (b - 1) >= 0;
  }

  lemma NoSymbol(h: seq<nat>, lengths: seq<nat>)
    requires |h| >= 2 && |Chosen(h, |h|, |h|)| == 0
    ensures SymbolBits(h, lengths) == 0
  {
    OccurringDistinct(h);
    hide Chosen;
    assert forall x :: 0 <= x < |h| && h[x] != 0 ==> x in Chosen(h, |h|, |h|);
    WeightedNone(h, LimitLengths.At(lengths), |h|);
  }

  // A code of least cost for the symbols of a histogram, padded to two, is a shortest one.
  lemma LeastIsShortest(lengths: seq<nat>, h: seq<nat>)
    requires |h| >= 2 && LeastCode(lengths, Coded(h, |h|), Padded(h, |h|))
    requires |lengths| == |h| && forall x :: 0 <= x < |h| ==> (lengths[x] > 0 <==> x in Coded(h, |h|))
    ensures Shortest(lengths, h)
  {
    hide Chosen, Coded, Padded, LeastCode, SymbolBits, Fits;
    forall l: seq<nat> | Covering(l, h) && Fits(l) ensures SymbolBits(h, lengths) <= SymbolBits(h, l) {
      if |Chosen(h, |h|, |h|)| == 0 {
        NoSymbol(h, lengths);
      } else if |Chosen(h, |h|, |h|)| == 1 {
        OneSymbol(h, lengths, l);
      } else {
        ManySymbols(h, lengths, l);
      }
    }
  }

  // ---- the data of a block ----

  function ExtraWeight(extra: nat -> nat, lengths: seq<nat>): nat -> nat {
    (s: nat) => if s < |lengths| then lengths[s] + extra(s) else 0
  }

  // Extra bits do not depend on the code.
  lemma {:induction false} ExtraApart(h: seq<nat>, extra: nat -> nat, lengths: seq<nat>, n: nat)
    requires n <= |h| && n <= |lengths|
    ensures Weighted(h, ExtraWeight(extra, lengths), n)
         == Weighted(h, LimitLengths.At(lengths), n) + Weighted(h, extra, n)
  {
    if n > 0 {
      ExtraApart(h, extra, lengths, n - 1);
      Spread(h[n - 1], lengths[n - 1], extra(n - 1));
    }
  }

  lemma Spread(v: nat, a: nat, b: nat)
    ensures v * (a + b) == v * a + v * b
  {
  }

  lemma {:induction false} SameWeight(h: seq<nat>, w: nat -> nat, w': nat -> nat, n: nat)
    requires n <= |h| && forall s :: 0 <= s < n ==> w(s) == w'(s)
    ensures Weighted(h, w, n) == Weighted(h, w', n)
  {
    if n > 0 {
      SameWeight(h, w, w', n - 1);
    }
  }

  lemma DataApart(h: seq<nat>, d: seq<nat>, c: BlockCodes)
    requires |h| == LIT_LEN == |c.ll| && |d| == DIST_LEN == |c.dd|
    ensures DataSum(h, d, c)
         == SymbolBits(h, c.ll) + SymbolBits(d, c.dd)
            + Weighted(h, s => LengthExtraBits(s), LIT_LEN) + Weighted(d, s => DistanceExtraBits(s), DIST_LEN)
  {
    hide Weighted, LengthExtraBits, DistanceExtraBits;
    var le, de := (s: nat) => LengthExtraBits(s), (s: nat) => DistanceExtraBits(s);
    ExtraApart(h, le, c.ll, LIT_LEN);
    ExtraApart(d, de, c.dd, DIST_LEN);
    SameWeight(h, LlWeight(c.ll), ExtraWeight(le, c.ll), LIT_LEN);
    SameWeight(d, DWeight(c.dd), ExtraWeight(de, c.dd), DIST_LEN);
    SameWeight(h, le, s => LengthExtraBits(s), LIT_LEN);
    SameWeight(d, de, s => DistanceExtraBits(s), DIST_LEN);
  }

  // With shortest codes for both histograms, no other codes make the data of the block shorter.
  lemma ShortestData(h: seq<nat>, d: seq<nat>, c: BlockCodes, other: BlockCodes)
    requires |h| == LIT_LEN == |c.ll| && |d| == DIST_LEN == |c.dd| && Shortest(c.ll, h) && Shortest(c.dd, d)
    requires Covering(other.ll, h) && Fits(other.ll) && Covering(other.dd, d) && Fits(other.dd)
    ensures DataSum(h, d, c) <= DataSum(h, d, other)
  {
    hide Weighted, DataSum, Fits, SymbolBits;
    DataApart(h, d, c);
    DataApart(h, d, other);
    assert SymbolBits(h, c.ll) <= SymbolBits(h, other.ll) && SymbolBits(d, c.dd) <= SymbolBits(d, other.dd);
  }
}
