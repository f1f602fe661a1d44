/** expand_hufftables_icf: one table lookup per length token gives code and extra bits of a length
    between 3 and 258. */
module IcfTables {
  import opened Rfc1951
  import opened Bits
  import opened Canonical
  import opened HuffCodes

  // struct hufftables_icf: 31 distance entries, then 513 literal and length entries.
  const LIT_TABLE := 31
  const TABLE_SIZE := 544
  const EXPAND_FROM := 265

  // convert_length_to_len_sym
  function LenSym(length: nat): nat
    requires 3 <= length <= 258
  {
    if length < 11 then 257 + length - 3
    else if length < 19 then 261 + (length - 3) / 2
    else if length < 35 then 265 + (length - 3) / 4
    else if length < 67 then 269 + (length - 3) / 8
    else if length < 131 then 273 + (length - 3) / 16
    else if length < 258 then 277 + (length - 3) / 32
    else 285
  }

  // The symbol's range of lengths holds the length (section 3.2.5 of RFC 1951).
  lemma LenSymMeans(length: nat)
    requires 3 <= length <= 258
    ensures
      var sym := LenSym(length);
      && 257 <= sym <= 285 && LengthBase(sym) <= length
      && length - LengthBase(sym) < Pow2(LengthExtraBits(sym))
  {
    assert Pow2(1) == 2 && Pow2(2) == 4 && Pow2(3) == 8 && Pow2(4) == 16 && Pow2(5) == 32;
  }

  // Expanded symbol number i, from 265 on: where its lengths start, and how many there are.
  lemma ExpandedRange(i: nat, j: nat)
    requires i < 20 && j < Pow2(1 + i / 4) && LengthBase(EXPAND_FROM + i) + j < 258
    ensures LengthExtraBits(EXPAND_FROM + i) == 1 + i / 4
    ensures LenSym(LengthBase(EXPAND_FROM + i) + j) == EXPAND_FROM + i
  {
    assert Pow2(1) == 2 && Pow2(2) == 4 && Pow2(3) == 8 && Pow2(4) == 16 && Pow2(5) == 32;
    match i
    case 0 => case 1 => case 2 => case 3 => case 4 => case 5 => case 6 => case 7 => case 8 => case 9 =>
    case 10 => case 11 => case 12 => case 13 => case 14 => case 15 => case 16 => case 17 => case 18 => case 19 =>
  }

  lemma NextStart(i: nat)
    requires i < 20
    ensures LengthBase(EXPAND_FROM + i) + Pow2(1 + i / 4) == if i < 19 then LengthBase(EXPAND_FROM + i + 1) else 259
  {
    assert Pow2(1) == 2 && Pow2(2) == 4 && Pow2(3) == 8 && Pow2(4) == 16 && Pow2(5) == 32;
    match i
    case 0 => case 1 => case 2 => case 3 => case 4 => case 5 => case 6 => case 7 => case 8 => case 9 =>
    case 10 => case 11 => case 12 => case 13 => case 14 => case 15 => case 16 => case 17 => case 18 => case 19 =>
  }

  // code | (j << len) with len + eb bits
  function ExpandedEntry(orig: HuffCode, j: nat, eb: nat): HuffCode {
    FromCodeAndExtra(BitOr(orig.code, Shl(j, orig.length)), orig.length + eb)
  }

  // The entry of a length between 11 and 257, made from the entries of symbols 265..285.
  function LengthEntry(orig: seq<HuffCode>, length: nat): HuffCode
    requires |orig| == 21 && 11 <= length <= 257
  {
    LenSymMeans(length);
    var sym := LenSym(length);
    ExpandedEntry(orig[sym - EXPAND_FROM], length - LengthBase(sym), LengthExtraBits(sym))
  }

  // The innermost loop: the entries of symbol 265 + i.
  method ExpandSymbol(t: array<HuffCode>, ghost orig: seq<HuffCode>, i: nat, eb: nat, h: HuffCode, start: nat)
    returns (p: nat)
    requires t.Length == TABLE_SIZE && |orig| == 21 && i < 20 && eb == 1 + i / 4 && h == orig[i]
    requires start == LIT_TABLE + 254 + LengthBase(EXPAND_FROM + i)
    modifies t
    ensures p == start + Pow2(eb) <= TABLE_SIZE
    ensures forall q :: start <= q < p && q < TABLE_SIZE - 1 ==> t[q] == LengthEntry(orig, q - LIT_TABLE - 254)
    ensures forall q :: 0 <= q < TABLE_SIZE && !(start <= q < p) ==> t[q] == old(t[q])
  {
    NextStart(i);
    StartBounds(i);
    hide *;
    p := start;
    for j := 0 to Pow2(eb)
      invariant p == start + j
      invariant forall q :: start <= q < p && q < TABLE_SIZE - 1 ==> t[q] == LengthEntry(orig, q - LIT_TABLE - 254)
      invariant forall q :: 0 <= q < TABLE_SIZE && !(start <= q < p) ==> t[q] == old(t[q])
    {
      t[p] := ExpandedEntry(h, j, eb);
      if p < TABLE_SIZE - 1 {
        EntryOfSymbol(orig, i, j);
      }
      p := p + 1;
    }
  }

  lemma StartBounds(i: nat)
    requires i < 20
    ensures 11 <= LengthBase(EXPAND_FROM + i) && LengthBase(EXPAND_FROM + i) + Pow2(1 + i / 4) <= 259
  {
    NextStart(i);
    match i
    case 0 => case 1 => case 2 => case 3 => case 4 => case 5 => case 6 => case 7 => case 8 => case 9 =>
    case 10 => case 11 => case 12 => case 13 => case 14 => case 15 => case 16 => case 17 => case 18 => case 19 =>
  }

  lemma EntryOfSymbol(orig: seq<HuffCode>, i: nat, j: nat)
    requires |orig| == 21 && i < 20 && j < Pow2(1 + i / 4) && LengthBase(EXPAND_FROM + i) + j < 258
    ensures 11 <= LengthBase(EXPAND_FROM + i) + j
    ensures LengthEntry(orig, LengthBase(EXPAND_FROM + i) + j) == ExpandedEntry(orig[i], j, 1 + i / 4)
  {
    StartBounds(i);
    ExpandedRange(i, j);
  }

  // expand_hufftables_icf
  method ExpandHufftablesIcf(t: array<HuffCode>)
    requires t.Length == TABLE_SIZE
    modifies t
    ensures forall q :: 0 <= q < LIT_TABLE + EXPAND_FROM && q != DIST_LEN ==> t[q] == old(t[q])
    ensures t[DIST_LEN] == HuffCode(0, 0, 0)
    ensures forall q :: LIT_TABLE + EXPAND_FROM <= q < TABLE_SIZE - 1 ==>
              t[q] == LengthEntry(old(t[LIT_TABLE + EXPAND_FROM..LIT_TABLE + LIT_LEN]), q - LIT_TABLE - 254)
    ensures t[TABLE_SIZE - 1] == old(t[LIT_TABLE + 285])
  {
    hide ExpandedEntry, LengthEntry, LengthBase, Pow2;
    var orig := t[LIT_TABLE + EXPAND_FROM..LIT_TABLE + LIT_LEN];
    var p := LIT_TABLE + EXPAND_FROM;
    var i := 0;
    FirstStart();
    for eb := 1 to 6
      invariant i == 4 * (eb - 1)
      invariant p == if i < 20 then LIT_TABLE + 254 + LengthBase(EXPAND_FROM + i) else TABLE_SIZE
      invariant forall q :: 0 <= q < LIT_TABLE + EXPAND_FROM ==> t[q] == old(t[q])
      invariant forall q :: LIT_TABLE + EXPAND_FROM <= q < p && q < TABLE_SIZE - 1 ==>
                  t[q] == LengthEntry(orig, q - LIT_TABLE - 254)
    {
      for k := 0 to 4
        invariant i == 4 * (eb - 1) + k
        invariant p == if i < 20 then LIT_TABLE + 254 + LengthBase(EXPAND_FROM + i) else TABLE_SIZE
        invariant forall q :: 0 <= q < LIT_TABLE + EXPAND_FROM ==> t[q] == old(t[q])
        invariant forall q :: LIT_TABLE + EXPAND_FROM <= q < p && q < TABLE_SIZE - 1 ==>
                    t[q] == LengthEntry(orig, q - LIT_TABLE - 254)
      {
        NextStart(i);
        StartBounds(i);
        p := ExpandSymbol(t, orig, i, eb, orig[i], p);
        i := i + 1;
      }
    }
    t[p - 1] := orig[i];
    t[DIST_LEN] := HuffCode(0, 0, 0);
  }

  lemma FirstStart()
    ensures LengthBase(EXPAND_FROM) == 11
  {
  }
}
