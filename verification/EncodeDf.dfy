/** encode_deflate_icf_base: tokens to bits, with the tables that create_hufftables_icf makes. */
module EncodeDf {
  import opened Rfc1951
  import opened Bits
  import opened BitBuf
  import opened Canonical
  import opened HuffCodes
  import opened IcfCodes
  import opened IcfTables
  import opened Inflate
  import Lz77

  // Code lengths of the two alphabets of a block.
  datatype BlockCodes = BlockCodes(ll: seq<nat>, dd: seq<nat>) {
    ghost predicate Valid() {
      LIT_LEN <= |ll| && DIST_LEN <= |dd| && Fits(ll) && Fits(dd)
    }
  }

  // Entries of the distance table: code, and the symbol's extra bit count.
  ghost predicate DistanceEntries(t: seq<HuffCode>, dd: seq<nat>)
    requires |t| == TABLE_SIZE && DIST_LEN <= |dd|
  {
    forall q :: 0 <= q < DIST_LEN ==> StoresDistance(t[q], dd, q)
  }

  ghost predicate StoresDistance(h: HuffCode, dd: seq<nat>, sym: nat)
    requires sym < |dd|
  {
    StoresCode(h, dd, sym) && (dd[sym] > 0 ==> h.extraBitCount == DistanceExtraBits(sym))
  }

  ghost predicate StoresPlain(h: HuffCode, ll: seq<nat>, sym: nat)
    requires sym < |ll|
  {
    StoresCode(h, ll, sym) && h.extraBitCount == 0
  }

  // The tables as set_huff_codes and set_dist_huff_codes leave them.
  ghost predicate CodeTables(t: seq<HuffCode>, c: BlockCodes) {
    && |t| == TABLE_SIZE && c.Valid() && DistanceEntries(t, c.dd)
    && forall q :: LIT_TABLE <= q < LIT_TABLE + LIT_LEN ==> StoresPlain(t[q], c.ll, q - LIT_TABLE)
  }

  // The entry writes the code of the length with its extra bits.
  ghost predicate StoresLength(h: HuffCode, ll: seq<nat>, length: nat)
    requires LIT_LEN <= |ll| && 3 <= length <= 258
  {
    LenSymMeans(length);
    var sym := LenSym(length);
    && h.length == ll[sym] + LengthExtraBits(sym)
    && h.CodeAndExtra() < Pow2(h.length)
    && BitsOf(h.CodeAndExtra(), h.length)
       == CodeBits(ll, sym) + BitsOf(length - LengthBase(sym), LengthExtraBits(sym))
  }

  // The entry of lit_len number i: a literal, the end of the block, or a length.
  ghost predicate StoresLitLen(h: HuffCode, ll: seq<nat>, i: nat)
    requires LIT_LEN <= |ll| && i <= 512
  {
    if i <= 256 then StoresPlain(h, ll, i)
    else Used(ll, LenSym(i - 254)) ==> StoresLength(h, ll, i - 254)
  }

  // The tables after expand_hufftables_icf.
  ghost predicate ExpandedTables(t: seq<HuffCode>, c: BlockCodes) {
    && |t| == TABLE_SIZE && c.Valid() && DistanceEntries(t, c.dd)
    && t[DIST_LEN] == HuffCode(0, 0, 0)
    && forall q :: LIT_TABLE <= q < TABLE_SIZE ==> StoresLitLen(t[q], c.ll, q - LIT_TABLE)
  }

  lemma PlainLength(h: HuffCode, ll: seq<nat>, length: nat)
    requires LIT_LEN <= |ll| && 3 <= length <= 258 && Used(ll, LenSym(length))
    requires LengthExtraBits(LenSym(length)) == 0 && StoresPlain(h, ll, LenSym(length))
    ensures StoresLength(h, ll, length)
  {
    hide CodeBits, LenSym;
    LenSymMeans(length);
    assert BitsOf(h.code, h.length) + [] == BitsOf(h.code, h.length);
  }

  lemma ExtendedLength(orig: seq<HuffCode>, ll: seq<nat>, length: nat)
    requires LIT_LEN <= |ll| && 11 <= length <= 257 && |orig| == 21
    requires Used(ll, LenSym(length)) && EXPAND_FROM <= LenSym(length) < LIT_LEN
    requires StoresCode(orig[LenSym(length) - EXPAND_FROM], ll, LenSym(length))
    ensures StoresLength(LengthEntry(orig, length), ll, length)
  {
    hide CodeBits, BitsOf, Shl, BitOr, Pow2, LenSym, LengthBase, LengthExtraBits;
    LenSymMeans(length);
    var sym := LenSym(length);
    var h, j, eb := orig[sym - EXPAND_FROM], length - LengthBase(sym), LengthExtraBits(sym);
    BitOrShifted(h.code, j, h.length);
    BitsAppend(h.code, j, h.length, eb);
    SumBound(h.code, j, h.length, eb);
  }

  lemma ShortSymbols(length: nat)
    requires 3 <= length <= 258
    ensures length <= 10 ==> LenSym(length) == 254 + length
    ensures length <= 10 || length == 258 ==> LengthExtraBits(LenSym(length)) == 0
    ensures length == 258 <==> LenSym(length) == 285
    ensures 11 <= length <= 257 <==> EXPAND_FROM <= LenSym(length) <= 284
  {
  }

  ghost predicate ExpandedFrom(t': seq<HuffCode>, t: seq<HuffCode>) {
    && |t| == |t'| == TABLE_SIZE
    && (forall q :: 0 <= q < LIT_TABLE + EXPAND_FROM && q != DIST_LEN ==> t'[q] == t[q])
    && t'[DIST_LEN] == HuffCode(0, 0, 0)
    && (forall q :: LIT_TABLE + EXPAND_FROM <= q < TABLE_SIZE - 1 ==>
          t'[q] == LengthEntry(t[LIT_TABLE + EXPAND_FROM..LIT_TABLE + LIT_LEN], q - LIT_TABLE - 254))
    && t'[TABLE_SIZE - 1] == t[LIT_TABLE + 285]
  }

  lemma EntryExpanded(t: seq<HuffCode>, t': seq<HuffCode>, c: BlockCodes, q: nat)
    requires CodeTables(t, c) && ExpandedFrom(t', t) && LIT_TABLE <= q < TABLE_SIZE
    ensures StoresLitLen(t'[q], c.ll, q - LIT_TABLE)
  {
    hide Fits, StoresPlain, StoresLength, LengthEntry, LenSym, LengthExtraBits, DistanceEntries, Used;
    var i := q - LIT_TABLE;
    if i > 256 && Used(c.ll, LenSym(i - 254)) {
      var length := i - 254;
      LenSymMeans(length);
      ShortSymbols(length);
      var sym := LenSym(length);
      assert StoresPlain(t[LIT_TABLE + sym], c.ll, sym);
      if length <= 10 || length == 258 {
        PlainLength(t[LIT_TABLE + sym], c.ll, length);
      } else {
        var orig := t[LIT_TABLE + EXPAND_FROM..LIT_TABLE + LIT_LEN];
        assert orig[sym - EXPAND_FROM] == t[LIT_TABLE + sym];
        PlainStores(t[LIT_TABLE + sym], c.ll, sym);
        ExtendedLength(orig, c.ll, length);
      }
    } else if i <= 256 {
      assert StoresPlain(t[q], c.ll, i);
    }
  }

  lemma PlainStores(h: HuffCode, ll: seq<nat>, sym: nat)
    requires sym < |ll| && StoresPlain(h, ll, sym)
    ensures StoresCode(h, ll, sym)
  {
  }

  lemma TablesExpanded(t: seq<HuffCode>, t': seq<HuffCode>, c: BlockCodes)
    requires CodeTables(t, c) && ExpandedFrom(t', t)
    ensures ExpandedTables(t', c)
  {
    hide Fits, StoresPlain, StoresDistance, StoresLitLen, LengthEntry;
    forall q | LIT_TABLE <= q < TABLE_SIZE ensures StoresLitLen(t'[q], c.ll, q - LIT_TABLE) {
      EntryExpanded(t, t', c, q);
    }
  }

  // expand_hufftables_icf makes the tables the encoder needs.
  method ExpandTables(t: array<HuffCode>, ghost c: BlockCodes)
    requires t.Length == TABLE_SIZE && CodeTables(t[..], c)
    modifies t
    ensures ExpandedTables(t[..], c)
  {
    hide CodeTables, ExpandedTables, LengthEntry;
    ghost var before := t[..];
    ExpandHufftablesIcf(t);
    assert before[LIT_TABLE + EXPAND_FROM..LIT_TABLE + LIT_LEN]
        == old(t[LIT_TABLE + EXPAND_FROM..LIT_TABLE + LIT_LEN]);
    TablesExpanded(before, t[..], c);
  }

  // ---- tokens ----

  const END_TOKEN := Icf(256, NULL_DIST_SYM, 0)

  // What a token stands for, the end of the block included.
  function ElementOf(t: Icf): Option<Element> {
    if t == END_TOKEN then Some(EndOfBlock)
    else
      match Meaning(t)
      case None => None
      case Some(item) => Some(Data(item))
  }

  // The codes have the symbols of the token.
  ghost predicate Covers(c: BlockCodes, t: Icf) {
    && ElementOf(t).Some?
    && (t.litLen <= 256 ==> Used(c.ll, t.litLen))
    && (t.litLen > 256 ==> Used(c.ll, LenSym(t.litLen - 254)) && Used(c.dd, t.litDist))
  }

  // The three numbers that the loop writes for a token, with their lengths.
  function TokenBits(table: seq<HuffCode>, t: Icf): seq<bool>
    requires |table| == TABLE_SIZE && t.litLen < 513 && t.litDist < 288
  {
    var lsym, dsym := table[LIT_TABLE + t.litLen], table[t.litDist];
    BitsOf(lsym.CodeAndExtra(), lsym.length) + BitsOf(dsym.code, dsym.length)
    + BitsOf(t.distExtra, dsym.extraBitCount)
  }

  // What write_bits_unsafe asks of the numbers, and the space check asks of the lengths.
  predicate Writable(table: seq<HuffCode>, t: Icf)
    requires |table| == TABLE_SIZE && t.litLen < 513 && t.litDist < 288
  {
    var lsym, dsym := table[LIT_TABLE + t.litLen], table[t.litDist];
    && lsym.length <= 20 && dsym.length <= 15 && dsym.extraBitCount <= 13
    && lsym.CodeAndExtra() < Pow2(lsym.length) && dsym.code < Pow2(dsym.length)
    && t.distExtra < Pow2(dsym.extraBitCount)
  }

  lemma TokenShape(c: BlockCodes, t: Icf)
    requires Covers(c, t)
    ensures t.litLen <= 256 ==> t.litDist == DIST_LEN && t.distExtra == 0 && Used(c.ll, t.litLen)
    ensures t.litLen <= 256 ==>
              ElementOf(t).value == if t.litLen == 256 then EndOfBlock else Data(Literal(t.litLen as bv8))
    ensures t.litLen > 256 ==>
              && 3 <= t.litLen - 254 <= 258 && t.litDist < 30
              && t.distExtra < Pow2(DistanceExtraBits(t.litDist))
              && Used(c.ll, LenSym(t.litLen - 254)) && Used(c.dd, t.litDist)
              && ElementOf(t).value == Data(Pair(t.litLen - 254, DistanceBase(t.litDist) + t.distExtra))
    ensures t.litLen < 513 && t.litDist < 288
  {
    hide Used, DistanceBase, DistanceExtraBits, LenSym;
  }

  lemma LiteralEntry(h: HuffCode, ll: seq<nat>, sym: nat)
    requires sym < |ll| && StoresPlain(h, ll, sym) && Used(ll, sym) && Fits(ll)
    ensures h.length <= 15 && h.CodeAndExtra() == h.code < Pow2(h.length)
    ensures BitsOf(h.CodeAndExtra(), h.length) == CodeBits(ll, sym)
  {
    hide CodeBits, BitsOf, Pow2;
  }

  lemma LiteralToken(table: seq<HuffCode>, c: BlockCodes, t: Icf, rest: seq<bool>)
    requires ExpandedTables(table, c) && Covers(c, t) && t.litLen <= 256
    ensures t.litDist < 288 && Writable(table, t)
    ensures ReadElement(c.ll, c.dd, TokenBits(table, t) + rest) == Some((ElementOf(t).value, rest))
  {
    TokenShape(c, t);
    var lsym := table[LIT_TABLE + t.litLen];
    hide Fits, CodeBits, ReadElement, StoresPlain, DistanceEntries, ElementOf, Covers, Used, StoresLength;
    assert StoresPlain(lsym, c.ll, t.litLen);
    LiteralEntry(lsym, c.ll, t.litLen);
    LiteralRead(c.ll, c.dd, t.litLen, rest);
    assert TokenBits(table, t) == CodeBits(c.ll, t.litLen);
  }

  // A length code with its extra bits.
  function LengthBits(ll: seq<nat>, length: nat): seq<bool>
    requires LIT_LEN <= |ll| && 3 <= length <= 258
  {
    LenSymMeans(length);
    var sym := LenSym(length);
    CodeBits(ll, sym) + BitsOf(length - LengthBase(sym), LengthExtraBits(sym))
  }

  lemma LengthFits(h: HuffCode, ll: seq<nat>, length: nat)
    requires LIT_LEN <= |ll| && 3 <= length <= 258 && StoresLength(h, ll, length) && Fits(ll)
    ensures h.length <= 20 && h.CodeAndExtra() < Pow2(h.length)
    ensures BitsOf(h.CodeAndExtra(), h.length) == LengthBits(ll, length)
  {
    hide CodeBits, BitsOf, Pow2, LenSym, LengthBase;
    LenSymMeans(length);
  }

  lemma DistanceExtraBound(sym: nat)
    ensures DistanceExtraBits(sym) <= 13
  {
  }

  lemma DistanceFits(h: HuffCode, dd: seq<nat>, sym: nat)
    requires sym < |dd| && StoresDistance(h, dd, sym) && Used(dd, sym) && Fits(dd)
    ensures h.length <= 15 && h.code < Pow2(h.length)
    ensures h.extraBitCount == DistanceExtraBits(sym) <= 13
    ensures BitsOf(h.code, h.length) == CodeBits(dd, sym)
  {
    hide CodeBits, BitsOf, Pow2, Kraft, DistanceExtraBits;
    DistanceExtraBound(sym);
  }

  // The two entries of a pair.
  lemma PairEntries(table: seq<HuffCode>, c: BlockCodes, t: Icf)
    requires ExpandedTables(table, c) && Covers(c, t) && t.litLen > 256
    ensures 3 <= t.litLen - 254 <= 258 && t.litDist < 30
    ensures StoresLength(table[LIT_TABLE + t.litLen], c.ll, t.litLen - 254)
    ensures StoresDistance(table[t.litDist], c.dd, t.litDist)
  {
    TokenShape(c, t);
    hide Fits, StoresLength, StoresDistance, StoresPlain, ElementOf, Covers, Used, LenSym;
    assert StoresLitLen(table[LIT_TABLE + t.litLen], c.ll, t.litLen);
  }

  lemma PairBits(table: seq<HuffCode>, c: BlockCodes, t: Icf)
    requires ExpandedTables(table, c) && Covers(c, t) && t.litLen > 256
    ensures t.litLen < 513 && t.litDist < 30 && Writable(table, t)
    ensures TokenBits(table, t)
         == LengthBits(c.ll, t.litLen - 254) + DistanceBits(c.dd, t.litDist, t.distExtra)
  {
    hide Fits, CodeBits, BitsOf, StoresLength, StoresDistance, ElementOf, Covers, Used, LenSym, LengthBits,
      DistanceBits, TokenBits, Writable, LengthExtraBits, DistanceBase, DistanceExtraBits, Pow2, ExpandedTables;
    TokenShape(c, t);
    PairEntries(table, c, t);
    BothFit(table, c);
    var lsym, dsym := table[LIT_TABLE + t.litLen], table[t.litDist];
    LengthFits(lsym, c.ll, t.litLen - 254);
    DistanceFits(dsym, c.dd, t.litDist);
    PairBitsAre(table, t, LengthBits(c.ll, t.litLen - 254), c.dd);
  }

  lemma PairBitsAre(table: seq<HuffCode>, t: Icf, length: seq<bool>, dd: seq<nat>)
    requires |table| == TABLE_SIZE && 256 < t.litLen < 513 && t.litDist < 30 && DIST_LEN <= |dd|
    requires
      var lsym, dsym := table[LIT_TABLE + t.litLen], table[t.litDist];
      && lsym.length <= 20 && lsym.CodeAndExtra() < Pow2(lsym.length)
      && BitsOf(lsym.CodeAndExtra(), lsym.length) == length
      && dsym.length <= 15 && dsym.code < Pow2(dsym.length) && dsym.extraBitCount == DistanceExtraBits(t.litDist) <= 13
      && BitsOf(dsym.code, dsym.length) == CodeBits(dd, t.litDist) && t.distExtra < Pow2(DistanceExtraBits(t.litDist))
    ensures Writable(table, t)
    ensures TokenBits(table, t) == length + DistanceBits(dd, t.litDist, t.distExtra)
  {
    hide CodeBits, BitsOf, DistanceExtraBits, Pow2;
  }

  lemma PairToken(table: seq<HuffCode>, c: BlockCodes, t: Icf, rest: seq<bool>)
    requires ExpandedTables(table, c) && Covers(c, t) && t.litLen > 256
    ensures t.litLen < 513 && t.litDist < 288 && Writable(table, t)
    ensures ReadElement(c.ll, c.dd, TokenBits(table, t) + rest) == Some((ElementOf(t).value, rest))
  {
    hide *;
    TokenShape(c, t);
    PairBits(table, c, t);
    LenSymMeans(t.litLen - 254);
    var sym := LenSym(t.litLen - 254);
    BothFit(table, c);
    LengthBitsAre(c.ll, t.litLen - 254);
    PairRead(c.ll, c.dd, sym, t.litLen - 254 - LengthBase(sym), t.litDist, t.distExtra, rest);
  }

  lemma LengthBitsAre(ll: seq<nat>, length: nat)
    requires LIT_LEN <= |ll| && 3 <= length <= 258
    ensures 257 <= LenSym(length) <= 285 && length >= LengthBase(LenSym(length))
    ensures LengthBits(ll, length) == CodeBits(ll, LenSym(length))
              + BitsOf(length - LengthBase(LenSym(length)), LengthExtraBits(LenSym(length)))
  {
    hide CodeBits, BitsOf, LengthBase, LenSym, LengthExtraBits;
    LenSymMeans(length);
  }

  lemma BothFit(table: seq<HuffCode>, c: BlockCodes)
    requires ExpandedTables(table, c)
    ensures |table| == TABLE_SIZE && Fits(c.ll) && Fits(c.dd) && LIT_LEN <= |c.ll| && DIST_LEN <= |c.dd|
  {
    hide Fits;
  }

  lemma SomeBits(table: seq<HuffCode>, c: BlockCodes, t: Icf)
    requires ExpandedTables(table, c) && Covers(c, t) && t.litLen < 513 && t.litDist < 288
    ensures |TokenBits(table, t)| > 0
  {
    hide Fits, StoresDistance, Pow2, LenSym, CodeBits, BitsOf;
    TokenShape(c, t);
    assert StoresLitLen(table[LIT_TABLE + t.litLen], c.ll, t.litLen);
  }

  // A token that the codes cover is written within the space of the bit buffer and is read back.
  lemma TokenRead(table: seq<HuffCode>, c: BlockCodes, t: Icf, rest: seq<bool>)
    requires ExpandedTables(table, c) && Covers(c, t)
    ensures t.litLen < 513 && t.litDist < 288 && Writable(table, t)
    ensures ReadElement(c.ll, c.dd, TokenBits(table, t) + rest) == Some((ElementOf(t).value, rest))
    ensures |TokenBits(table, t)| > 0
  {
    hide *;
    TokenShape(c, t);
    if t.litLen <= 256 {
      LiteralToken(table, c, t, rest);
    } else {
      PairToken(table, c, t, rest);
    }
    SomeBits(table, c, t);
  }

  // ---- the loop over the tokens ----

  predicate InTables(tokens: seq<Icf>) {
    forall i :: 0 <= i < |tokens| ==> tokens[i].litLen < 513 && tokens[i].litDist < 288
  }

  function AllBits(table: seq<HuffCode>, tokens: seq<Icf>): seq<bool>
    requires |table| == TABLE_SIZE && InTables(tokens)
  {
    if tokens == [] then [] else TokenBits(table, tokens[0]) + AllBits(table, tokens[1..])
  }

  lemma {:induction false} AllBitsSnoc(table: seq<HuffCode>, tokens: seq<Icf>, t: Icf)
    requires |table| == TABLE_SIZE && InTables(tokens + [t])
    ensures InTables(tokens) && t.litLen < 513 && t.litDist < 288
    ensures AllBits(table, tokens + [t]) == AllBits(table, tokens) + TokenBits(table, t)
  {
    hide TokenBits;
    var all := tokens + [t];
    assert all[|tokens|] == t;
    assert forall i :: 0 <= i < |tokens| ==> all[i] == tokens[i];
    if tokens == [] {
      assert all[1..] == [] && AllBits(table, []) == [];
    } else {
      assert all[1..] == tokens[1..] + [t];
      AllBitsSnoc(table, tokens[1..], t);
    }
  }

  ghost predicate AllCovered(c: BlockCodes, tokens: seq<Icf>) {
    forall i :: 0 <= i < |tokens| ==> Covers(c, tokens[i])
  }

  lemma CoveredInTables(c: BlockCodes, tokens: seq<Icf>)
    requires AllCovered(c, tokens)
    ensures InTables(tokens)
  {
    forall i | 0 <= i < |tokens| ensures tokens[i].litLen < 513 && tokens[i].litDist < 288 {
      TokenShape(c, tokens[i]);
    }
  }

  // No token takes more than 48 bits.
  lemma {:induction false} AllBitsShort(table: seq<HuffCode>, c: BlockCodes, tokens: seq<Icf>)
    requires ExpandedTables(table, c) && AllCovered(c, tokens)
    ensures |table| == TABLE_SIZE && InTables(tokens) && |AllBits(table, tokens)| <= 48 * |tokens|
    decreases |tokens|
  {
    hide ExpandedTables, Covers, TokenBits, Writable;
    BothFit(table, c);
    CoveredInTables(c, tokens);
    if tokens != [] {
      TokenRead(table, c, tokens[0], []);
      TokenBitsShort(table, tokens[0]);
      AllBitsShort(table, c, tokens[1..]);
    }
  }

  lemma TokenBitsShort(table: seq<HuffCode>, t: Icf)
    requires |table| == TABLE_SIZE && t.litLen < 513 && t.litDist < 288 && Writable(table, t)
    ensures |TokenBits(table, t)| <= 48
  {
    hide Pow2, BitsOf;
  }

  lemma OneMore(table: seq<HuffCode>, tokens: seq<Icf>, start: nat, next: nat)
    requires |table| == TABLE_SIZE && start <= next < |tokens| && InTables(tokens)
    ensures InTables(tokens[start..next]) && InTables(tokens[start..next + 1])
    ensures tokens[next].litLen < 513 && tokens[next].litDist < 288
    ensures AllBits(table, tokens[start..next + 1]) == AllBits(table, tokens[start..next]) + TokenBits(table, tokens[next])
  {
    hide TokenBits;
    assert tokens[start..next + 1] == tokens[start..next] + [tokens[next]];
    AllBitsSnoc(table, tokens[start..next], tokens[next]);
  }

  lemma NothingWritten(table: seq<HuffCode>, tokens: seq<Icf>, start: nat)
    requires |table| == TABLE_SIZE && start <= |tokens|
    ensures InTables(tokens[start..start]) && AllBits(table, tokens[start..start]) == []
  {
  }

  lemma TokenCovered(c: BlockCodes, tokens: seq<Icf>, i: nat)
    requires AllCovered(c, tokens) && i < |tokens|
    ensures Covers(c, tokens[i])
  {
  }

  // The body of the loop: one token into the bit buffer.
  method EncodeToken(t: Icf, bb: BitBuf2, table: array<HuffCode>)
    requires bb.Valid() && bb.count < 8 && !bb.IsFull()
    requires table.Length == TABLE_SIZE && t.litLen < 513 && t.litDist < 288 && Writable(table[..], t)
    modifies bb`out, bb`bits, bb`count, bb.buf
    ensures bb.Valid() && bb.count < 8
    ensures bb.Contents() == old(bb.Contents()) + TokenBits(table[..], t)
  {
    hide BitsOf, BytesBits, Pow2, BitBuf2.Contents;
    var lsym, dsym := table[LIT_TABLE + t.litLen], table[t.litDist];
    bb.WriteBitsUnsafe(lsym.CodeAndExtra(), lsym.length);
    bb.WriteBitsUnsafe(dsym.code, dsym.length);
    bb.WriteBitsUnsafe(t.distExtra, dsym.extraBitCount);
    bb.FlushBits();
  }

  // encode_deflate_icf_base from token number start on
  method EncodeDeflateIcfBase(tokens: seq<Icf>, start: nat, end: nat, bb: BitBuf2, table: array<HuffCode>,
                              ghost c: BlockCodes) returns (next: nat)
    requires start <= end <= |tokens| && bb.Valid() && bb.count < 8
    requires table.Length == TABLE_SIZE && ExpandedTables(table[..], c) && AllCovered(c, tokens)
    modifies bb`out, bb`bits, bb`count, bb.buf
    ensures bb.Valid() && bb.count < 8 && start <= next <= end
    ensures next < end ==> bb.IsFull()
    ensures InTables(tokens[start..next])
    ensures bb.Contents() == old(bb.Contents()) + AllBits(table[..], tokens[start..next])
  {
    hide *;
    BothFit(table[..], c);
    CoveredInTables(c, tokens);
    ghost var before, h := bb.Contents(), table[..];
    next := start;
    NothingWritten(h, tokens, start);
    while next < end && !bb.IsFull()
      invariant bb.Valid() && bb.count < 8 && start <= next <= end && table[..] == h
      invariant InTables(tokens[start..next])
      invariant bb.Contents() == before + AllBits(h, tokens[start..next])
    {
      TokenCovered(c, tokens, next);
      TokenRead(h, c, tokens[next], []);
      EncodeToken(tokens[next], bb, table);
      OneMore(h, tokens, start, next);
      next := next + 1;
    }
  }

  // ---- the block is read back ----

  // The bits of a block's tokens and its end are read back, under sections 3.1.1, 3.2.2 and
  // 3.2.5 of RFC 1951, to the literals and pairs that the tokens mean.
  lemma {:induction false} BlockRead(table: seq<HuffCode>, c: BlockCodes, tokens: seq<Icf>, rest: seq<bool>)
    requires ExpandedTables(table, c) && AllCovered(c, tokens + [END_TOKEN]) && Lz77.Meaningful(tokens)
    ensures InTables(tokens + [END_TOKEN])
    ensures ReadBlock(c.ll, c.dd, AllBits(table, tokens + [END_TOKEN]) + rest)
         == Some((Lz77.Items(tokens), rest))
  {
    hide *;
    var all := tokens + [END_TOKEN];
    CoveredInTables(c, all);
    BothFit(table, c);
    FirstToken(table, c, tokens);
    var t, after := all[0], all[1..];
    var tail := AllBits(table, after) + rest;
    TokenRead(table, c, t, tail);
    assert AllBits(table, all) + rest == TokenBits(table, t) + tail;
    if tokens != [] {
      MeaningfulRest(tokens);
      NotEnd(t);
      assert after == tokens[1..] + [END_TOKEN];
      BlockRead(table, c, tokens[1..], rest);
      BlockStep(c.ll, c.dd, AllBits(table, all) + rest, Meaning(t).value, tail, Lz77.Items(tokens[1..]), rest);
    } else {
      assert tail == rest;
      EndIs();
      NoItems();
      BlockEnd(c.ll, c.dd, AllBits(table, all) + rest, rest);
    }
  }

  lemma FirstToken(table: seq<HuffCode>, c: BlockCodes, tokens: seq<Icf>)
    requires |table| == TABLE_SIZE && AllCovered(c, tokens + [END_TOKEN]) && InTables(tokens + [END_TOKEN])
    ensures
      var all := tokens + [END_TOKEN];
      && Covers(c, all[0]) && AllCovered(c, all[1..]) && InTables(all[1..])
      && all[0].litLen < 513 && all[0].litDist < 288
      && AllBits(table, all) == TokenBits(table, all[0]) + AllBits(table, all[1..])
    ensures tokens == [] ==> AllBits(table, (tokens + [END_TOKEN])[1..]) == []
  {
    hide Covers, TokenBits;
  }

  lemma MeaningfulRest(tokens: seq<Icf>)
    requires Lz77.Meaningful(tokens) && tokens != []
    ensures Meaning(tokens[0]).Some? && Lz77.Meaningful(tokens[1..])
    ensures Lz77.Items(tokens) == [Meaning(tokens[0]).value] + Lz77.Items(tokens[1..])
  {
    hide Meaning;
  }

  lemma EndIs()
    ensures ElementOf(END_TOKEN) == Some(EndOfBlock)
  {
  }

  lemma NoItems()
    ensures Lz77.Meaningful([]) && Lz77.Items([]) == []
  {
  }

  lemma NotEnd(t: Icf)
    requires Meaning(t).Some?
    ensures t != END_TOKEN && ElementOf(t) == Some(Data(Meaning(t).value))
  {
  }

  // However the stream goes on, the bits are a block of these items.
  ghost predicate InflatesTo(c: BlockCodes, bits: seq<bool>, items: seq<Item>) {
    forall rest: seq<bool> :: ReadBlock(c.ll, c.dd, bits + rest) == Some((items, rest))
  }

  // expand_hufftables_icf, then the tokens of a block and its end: when the bit buffer has room for
  // them all, what it gained is a block that inflates to the items of the tokens.
  method EncodeBlock(tokens: seq<Icf>, bb: BitBuf2, table: array<HuffCode>, ghost c: BlockCodes) returns (done: bool)
    requires bb.Valid() && bb.count < 8 && Lz77.Meaningful(tokens)
    requires table.Length == TABLE_SIZE && CodeTables(table[..], c) && AllCovered(c, tokens + [END_TOKEN])
    modifies table, bb`out, bb`bits, bb`count, bb.buf
    ensures bb.Valid() && bb.count < 8 && (!done ==> bb.IsFull())
    ensures done ==> old(bb.Contents()) <= bb.Contents()
    ensures done ==> InflatesTo(c, bb.Contents()[|old(bb.Contents())|..], Lz77.Items(tokens))
    ensures ExpandedTables(table[..], c) && InTables(tokens + [END_TOKEN])
    ensures done ==> bb.Contents() == old(bb.Contents()) + AllBits(table[..], tokens + [END_TOKEN])
    ensures |bb.Contents()| <= |old(bb.Contents())| + 48 * (|tokens| + 1)
  {
    hide *;
    ExpandTables(table, c);
    BothFit(table[..], c);
    var all := tokens + [END_TOKEN];
    CoveredInTables(c, all);
    var next := EncodeDeflateIcfBase(all, 0, |all|, bb, table, c);
    FirstShort(table[..], c, all, next);
    done := next == |all|;
    if done {
      assert all[0..next] == all;
      BlockInflates(table[..], c, tokens);
      assert bb.Contents()[|old(bb.Contents())|..] == AllBits(table[..], all);
    }
  }

  lemma FirstShort(table: seq<HuffCode>, c: BlockCodes, tokens: seq<Icf>, n: nat)
    requires ExpandedTables(table, c) && AllCovered(c, tokens) && n <= |tokens|
    ensures |table| == TABLE_SIZE && InTables(tokens[0..n]) && |AllBits(table, tokens[0..n])| <= 48 * |tokens|
  {
    hide ExpandedTables, Covers, AllBits;
    AllBitsShort(table, c, tokens[0..n]);
  }

  lemma BlockInflates(table: seq<HuffCode>, c: BlockCodes, tokens: seq<Icf>)
    requires ExpandedTables(table, c) && AllCovered(c, tokens + [END_TOKEN]) && Lz77.Meaningful(tokens)
    ensures |table| == TABLE_SIZE && InTables(tokens + [END_TOKEN])
    ensures InflatesTo(c, AllBits(table, tokens + [END_TOKEN]), Lz77.Items(tokens))
  {
    hide ExpandedTables, AllCovered, ReadBlock, Covers, InTables, AllBits;
    BothFit(table, c);
    CoveredInTables(c, tokens + [END_TOKEN]);
    forall rest: seq<bool>
      ensures ReadBlock(c.ll, c.dd, AllBits(table, tokens + [END_TOKEN]) + rest) == Some((Lz77.Items(tokens), rest))
    {
      BlockRead(table, c, tokens, rest);
    }
  }
}
