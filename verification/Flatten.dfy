/** flatten_ll: the histogram of lit_len numbers folded in place into one of the 286 literal and
    length symbols. */
module Flatten {
  import opened Rfc1951
  import opened HuffCodes
  import opened IcfCodes
  import opened IcfTables
  import Lz77

  const LL_NUMBERS := 513

  function SumRange(h: seq<nat>, from: nat, n: nat): nat
    requires from + n <= |h|
    decreases n
  {
    if n == 0 then 0 else SumRange(h, from, n - 1) + h[from + n - 1]
  }

  // The lit_len numbers of a symbol: where they start, and how many they are.
  function FirstNumber(sym: nat): nat {
    if sym <= 256 then sym else 254 + LengthBase(sym)
  }

  function Numbers(sym: nat): nat {
    if sym <= 256 then 1 else if sym == 284 then 31 else Pow2(LengthExtraBits(sym))
  }

  lemma NumbersInTable(sym: nat)
    requires sym < LIT_LEN
    ensures FirstNumber(sym) + Numbers(sym) <= LL_NUMBERS
    ensures sym <= 264 ==> FirstNumber(sym) == sym && Numbers(sym) == 1
    ensures sym == 285 ==> FirstNumber(sym) == 512 && Numbers(sym) == 1
  {
    Powers();
  }

  lemma Powers()
    ensures Pow2(0) == 1 && Pow2(1) == 2 && Pow2(2) == 4 && Pow2(3) == 8 && Pow2(4) == 16 && Pow2(5) == 32
  {
  }

  function Folded(h: seq<nat>, sym: nat): nat
    requires |h| == LL_NUMBERS && sym < LIT_LEN
  {
    NumbersInTable(sym);
    SumRange(h, FirstNumber(sym), Numbers(sym))
  }

  // The assignments for the symbols of one and two extra bits.
  method FoldShort(s: array<nat>)
    requires s.Length == LL_NUMBERS
    modifies s
    ensures forall q :: 0 <= q < LL_NUMBERS && !(265 <= q <= 272) ==> s[q] == old(s[q])
    ensures s[265] == old(s[265] + s[266]) && s[266] == old(s[267] + s[268])
    ensures s[267] == old(s[269] + s[270]) && s[268] == old(s[271] + s[272])
    ensures s[269] == old(s[273] + s[274] + s[275] + s[276])
    ensures s[270] == old(s[277] + s[278] + s[279] + s[280])
    ensures s[271] == old(s[281] + s[282] + s[283] + s[284])
    ensures s[272] == old(s[285] + s[286] + s[287] + s[288])
  {
    s[265] := s[265] + s[266];
    s[266] := s[267] + s[268];
    s[267] := s[269] + s[270];
    s[268] := s[271] + s[272];
    s[269] := s[273] + s[274] + s[275] + s[276];
    s[270] := s[277] + s[278] + s[279] + s[280];
    s[271] := s[281] + s[282] + s[283] + s[284];
    s[272] := s[285] + s[286] + s[287] + s[288];
  }

  lemma SumTwo(h: seq<nat>, from: nat)
    requires from + 2 <= |h|
    ensures SumRange(h, from, 2) == h[from] + h[from + 1]
  {
    assert SumRange(h, from, 1) == SumRange(h, from, 0) + h[from];
  }

  lemma SumFour(h: seq<nat>, from: nat)
    requires from + 4 <= |h|
    ensures SumRange(h, from, 4) == h[from] + h[from + 1] + h[from + 2] + h[from + 3]
  {
    SumTwo(h, from);
    assert SumRange(h, from, 3) == SumRange(h, from, 2) + h[from + 2];
  }

  lemma ShortSums(h: seq<nat>)
    requires |h| == LL_NUMBERS
    ensures Folded(h, 265) == h[265] + h[266] && Folded(h, 266) == h[267] + h[268]
    ensures Folded(h, 267) == h[269] + h[270] && Folded(h, 268) == h[271] + h[272]
    ensures Folded(h, 269) == h[273] + h[274] + h[275] + h[276]
    ensures Folded(h, 270) == h[277] + h[278] + h[279] + h[280]
    ensures Folded(h, 271) == h[281] + h[282] + h[283] + h[284]
    ensures Folded(h, 272) == h[285] + h[286] + h[287] + h[288]
  {
    Powers();
    hide Pow2, SumRange;
    SumTwo(h, 265);
    SumTwo(h, 267);
    SumTwo(h, 269);
    SumTwo(h, 271);
    SumFour(h, 273);
    SumFour(h, 277);
    SumFour(h, 281);
    SumFour(h, 285);
  }

  // Where the numbers of a symbol above 272 start; 513 is the end of the table.
  function Start(sym: nat): nat {
    if sym == 285 then LL_NUMBERS else 254 + LengthBase(sym)
  }

  lemma StartStep(sym: nat)
    requires 273 <= sym <= 284
    ensures 289 <= Start(sym) && Start(sym) + Width(sym) == Start(sym + 1) <= LL_NUMBERS
    ensures Width(sym) == if sym < 277 then 8 else if sym < 281 then 16 else 32
  {
    Powers();
    NextStart(sym - EXPAND_FROM);
    StartBounds(sym - EXPAND_FROM);
  }

  function Width(sym: nat): nat {
    Pow2(LengthExtraBits(sym))
  }

  // One of the last three loops: four symbols of width numbers each, read from p on.
  method FoldLong(s: array<nat>, ghost h: seq<nat>, from: nat, width: nat, start: nat) returns (p: nat)
    requires s.Length == LL_NUMBERS == |h| && 273 <= from && from + 4 <= 285 && start == Start(from)
    requires forall i :: from <= i < from + 4 ==> Width(i) == width
    requires forall q :: 289 <= q < LL_NUMBERS ==> s[q] == h[q]
    modifies s
    ensures p == Start(from + 4)
    ensures forall q :: 0 <= q < LL_NUMBERS && !(from <= q < from + 4) ==> s[q] == old(s[q])
    ensures forall q :: from <= q < from + 4 ==> RawSum(h, q) == s[q]
  {
    hide Width, Start, SumRange, RawSum;
    p := start;
    for i := from to from + 4
      invariant p == Start(i)
      invariant forall q :: 0 <= q < LL_NUMBERS && !(from <= q < i) ==> s[q] == old(s[q])
      invariant forall q :: from <= q < i ==> RawSum(h, q) == s[q]
    {
      StartStep(i);
      RawIs(h, i);
      var x := SumFrom(s, h, p, width);
      p := p + width;
      s[i] := x;
    }
  }

  // The sum of all numbers that the loops read for a symbol.
  function RawSum(h: seq<nat>, sym: nat): nat
    requires |h| == LL_NUMBERS && 273 <= sym <= 284
  {
    StartStep(sym);
    SumRange(h, Start(sym), Width(sym))
  }

  lemma RawIs(h: seq<nat>, sym: nat)
    requires |h| == LL_NUMBERS && 273 <= sym <= 284
    ensures Start(sym) + Width(sym) <= LL_NUMBERS && RawSum(h, sym) == SumRange(h, Start(sym), Width(sym))
  {
    hide Start, Width;
    StartStep(sym);
  }

  // x = *p++; for (j = 1; j < width; j++) x += *p++
  method SumFrom(s: array<nat>, ghost h: seq<nat>, p: nat, width: nat) returns (x: nat)
    requires s.Length == LL_NUMBERS == |h| && width > 0 && 289 <= p && p + width <= LL_NUMBERS
    requires forall q :: 289 <= q < LL_NUMBERS ==> s[q] == h[q]
    ensures x == SumRange(h, p, width)
  {
    x := s[p];
    assert SumRange(h, p, 1) == SumRange(h, p, 0) + h[p];
    for j := 1 to width
      invariant x == SumRange(h, p, j)
    {
      x := x + s[p + j];
    }
  }

  method FlattenLL(s: array<nat>)
    requires s.Length == LL_NUMBERS
    modifies s
    ensures forall sym :: 0 <= sym < LIT_LEN ==> s[sym] == Folded(old(s[..]), sym)
  {
    hide Folded, SumRange, RawSum, Start, Width;
    ghost var h := s[..];
    FoldShort(s);
    ShortSums(h);
    StartIs();
    Widths();
    var p := 289;
    p := FoldLong(s, h, 273, 8, p);
    p := FoldLong(s, h, 277, 16, p);
    p := FoldLong(s, h, 281, 32, p);
    LastSum(h);
    s[284] := s[284] - s[512];
    s[285] := s[512];
    forall sym | 0 <= sym < LIT_LEN ensures s[sym] == Folded(h, sym) {
      FoldedAre(h, sym);
    }
  }

  lemma StartIs()
    ensures Start(273) == 289
  {
  }

  lemma Widths()
    ensures forall i :: 273 <= i < 277 ==> Width(i) == 8
    ensures forall i :: 277 <= i < 281 ==> Width(i) == 16
    ensures forall i :: 281 <= i < 285 ==> Width(i) == 32
  {
    Powers();
  }

  lemma LastSum(h: seq<nat>)
    requires |h| == LL_NUMBERS
    ensures RawSum(h, 284) == Folded(h, 284) + h[512]
  {
    Powers();
    assert SumRange(h, 481, 32) == SumRange(h, 481, 31) + h[512];
  }

  lemma FoldedAre(h: seq<nat>, sym: nat)
    requires |h| == LL_NUMBERS && sym < LIT_LEN
    ensures sym <= 264 ==> Folded(h, sym) == h[sym]
    ensures 273 <= sym < 284 ==> Folded(h, sym) == RawSum(h, sym)
    ensures sym == 285 ==> Folded(h, sym) == h[512]
  {
    NumbersInTable(sym);
    hide Pow2, LengthBase;
    if sym <= 264 || sym == 285 {
      var q := FirstNumber(sym);
      assert SumRange(h, q, 1) == SumRange(h, q, 0) + h[q];
    }
  }

  // ---- what the folded histogram counts ----

  // The literal and length symbol (section 3.2.5 of RFC 1951) of a lit_len number.
  function SymbolOf(number: nat): (sym: nat)
    requires number < LL_NUMBERS
    ensures sym < LIT_LEN
  {
    if number <= 256 then number
    else
      LenSymMeans(number - 254);
      LenSym(number - 254)
  }

  // The numbers of a symbol are those from its first one on.
  lemma NumbersOf(sym: nat, number: nat)
    requires sym < LIT_LEN && number < LL_NUMBERS
    ensures SymbolOf(number) == sym <==> FirstNumber(sym) <= number < FirstNumber(sym) + Numbers(sym)
  {
    Powers();
    if number > 256 {
      LenSymMeans(number - 254);
      SymbolRange(sym, number - 254);
    }
  }

  lemma SymbolRange(sym: nat, length: nat)
    requires sym < LIT_LEN && 3 <= length <= 258
    ensures LenSym(length) == sym <==>
              sym > 256 && LengthBase(sym) <= length < LengthBase(sym) + Numbers(sym)
  {
    Powers();
  }

  // Tokens whose lit_len number is one of n from from on.
  function CountIn(tokens: seq<Icf>, from: nat, n: nat): nat {
    if tokens == [] then 0
    else
      var last := tokens[|tokens| - 1].litLen;
      CountIn(tokens[..|tokens| - 1], from, n) + (if from <= last < from + n then 1 else 0)
  }

  function CountSymbol(tokens: seq<Icf>, sym: nat): nat
    requires forall i :: 0 <= i < |tokens| ==> tokens[i].litLen < LL_NUMBERS
  {
    if tokens == [] then 0
    else
      CountSymbol(tokens[..|tokens| - 1], sym) + (if SymbolOf(tokens[|tokens| - 1].litLen) == sym then 1 else 0)
  }

  lemma {:induction false} CountInMore(tokens: seq<Icf>, from: nat, n: nat)
    ensures CountIn(tokens, from, n + 1) == CountIn(tokens, from, n) + Lz77.CountLitLen(tokens, from + n)
    ensures CountIn(tokens, from, 0) == 0
  {
    if tokens != [] {
      CountInMore(tokens[..|tokens| - 1], from, n);
    }
  }

  lemma {:induction false} SumCounts(h: seq<nat>, tokens: seq<Icf>, from: nat, n: nat)
    requires from + n <= |h| && forall s :: 0 <= s < |h| ==> h[s] == Lz77.CountLitLen(tokens, s)
    ensures SumRange(h, from, n) == CountIn(tokens, from, n)
  {
    CountInMore(tokens, from, if n == 0 then 0 else n - 1);
    if n > 0 {
      SumCounts(h, tokens, from, n - 1);
    }
  }

  lemma {:induction false} CountInSymbol(tokens: seq<Icf>, sym: nat)
    requires sym < LIT_LEN && forall i :: 0 <= i < |tokens| ==> tokens[i].litLen < LL_NUMBERS
    ensures CountIn(tokens, FirstNumber(sym), Numbers(sym)) == CountSymbol(tokens, sym)
  {
    hide FirstNumber, Numbers, SymbolOf;
    if tokens != [] {
      CountInSymbol(tokens[..|tokens| - 1], sym);
      NumbersOf(sym, tokens[|tokens| - 1].litLen);
    }
  }

  // The folded histogram of the tokens' numbers is the histogram of their symbols.
  lemma FoldedCounts(h: seq<nat>, tokens: seq<Icf>, sym: nat)
    requires |h| == LL_NUMBERS && sym < LIT_LEN && forall s :: 0 <= s < |h| ==> h[s] == Lz77.CountLitLen(tokens, s)
    requires forall i :: 0 <= i < |tokens| ==> tokens[i].litLen < LL_NUMBERS
    ensures Folded(h, sym) == CountSymbol(tokens, sym)
  {
    NumbersInTable(sym);
    hide FirstNumber, Numbers;
    SumCounts(h, tokens, FirstNumber(sym), Numbers(sym));
    CountInSymbol(tokens, sym);
  }

  lemma {:induction false} SymbolCounted(tokens: seq<Icf>, i: nat)
    requires i < |tokens| && forall k :: 0 <= k < |tokens| ==> tokens[k].litLen < LL_NUMBERS
    ensures CountSymbol(tokens, SymbolOf(tokens[i].litLen)) > 0
  {
    if i < |tokens| - 1 {
      SymbolCounted(tokens[..|tokens| - 1], i);
    }
  }

  lemma {:induction false} DistCounted(tokens: seq<Icf>, i: nat)
    requires i < |tokens|
    ensures Lz77.CountDist(tokens, tokens[i].litDist) > 0
  {
    if i < |tokens| - 1 {
      DistCounted(tokens[..|tokens| - 1], i);
    }
  }
}
