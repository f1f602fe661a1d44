/** The lookup tables of struct isal_hufftables. */
module PackedTables {
  import opened Rfc1951
  import opened Bits
  import opened BitBuf
  import opened Canonical
  import opened HuffCodes
  import opened IcfCodes
  import opened IcfTables
  import opened Inflate
  import opened EncodeDf
  import HuffTables
  import WriteHeader

  const LENGTH_BITS := 5
  const IGZIP_LEN_TABLE_SIZE := 256
  const IGZIP_LIT_TABLE_SIZE := 257
  const IGZIP_DIST_TABLE_SIZE := 2

  // struct isal_hufftables; the header is for a final block
  datatype Hufftables = Hufftables(lenTable: seq<nat>, distTable: seq<nat>, litTable: seq<nat>, litTableSizes: seq<nat>,
                                   dcodes: seq<nat>, dcodesSizes: seq<nat>,
                                   deflateHdr: seq<Byte>, deflateHdrCount: nat, deflateHdrExtraBits: nat) {
    ghost predicate Valid() {
      && |lenTable| == 256 && |distTable| == 2 && |litTable| == |litTableSizes| == 257 && |dcodes| == |dcodesSizes| == 30
      && deflateHdrCount < |deflateHdr| && deflateHdrExtraBits < 8
      && deflateHdr[deflateHdrCount] < Pow2(deflateHdrExtraBits)
    }

    function HeaderBits(): seq<bool>
      requires deflateHdrCount < |deflateHdr|
    {
      BytesBits(deflateHdr[..deflateHdrCount]) + BitsOf(deflateHdr[deflateHdrCount], deflateHdrExtraBits)
    }
  }

  // ---- packed entries ----

  // (extra << (length + LENGTH_BITS)) | (code << LENGTH_BITS) | (length + n)
  function PackedEntry(h: HuffCode, extra: nat, n: nat): nat {
    BitOr(BitOr(Shl(extra, h.length + LENGTH_BITS), Shl(h.code, LENGTH_BITS)), h.length + n)
  }

  // code_len >> 5 and code_len & 0x1F
  function Unpacked(v: nat): (nat, nat) {
    (Shr(v, LENGTH_BITS), Low(v, LENGTH_BITS))
  }

  // A number and how many of its bits are to be written, at most max.
  ghost predicate Gives(p: (nat, nat), bits: seq<bool>, max: nat) {
    p.1 <= max && p.0 < Pow2(p.1) && BitsOf(p.0, p.1) == bits
  }

  lemma {:induction false} ShlAdd(v: nat, m: nat, n: nat)
    ensures Shl(v, m + n) == Shl(Shl(v, m), n)
  {
    if n > 0 {
      ShlAdd(v, m, n - 1);
    }
  }

  lemma {:induction false} BitOrShl(a: nat, b: nat, n: nat)
    ensures BitOr(Shl(a, n), Shl(b, n)) == Shl(BitOr(a, b), n)
  {
    if n > 0 {
      BitOrShl(a, b, n - 1);
      DoubledOr(Shl(a, n - 1), Shl(b, n - 1));
    }
  }

  lemma DoubledOr(a: nat, b: nat)
    ensures BitOr(2 * a, 2 * b) == 2 * BitOr(a, b)
  {
  }

  lemma {:induction false} SplitSum(c: nat, x: nat, n: nat)
    requires c < Pow2(n)
    ensures Low(c + Shl(x, n), n) == c && Shr(c + Shl(x, n), n) == x
  {
    if n > 0 {
      SplitSum(c / 2, x, n - 1);
      assert (c + Shl(x, n)) / 2 == c / 2 + Shl(x, n - 1);
    }
  }

  lemma FieldWidth()
    ensures Pow2(LENGTH_BITS) == 32
  {
  }

  lemma EntryIs(h: HuffCode, extra: nat, n: nat)
    requires h.code < Pow2(h.length) && h.length + n < 32
    ensures PackedEntry(h, extra, n) == h.length + n + Shl(h.code + Shl(extra, h.length), LENGTH_BITS)
  {
    hide BitOr, Shl, Pow2;
    FieldWidth();
    ShlAdd(extra, h.length, LENGTH_BITS);
    BitOrShl(Shl(extra, h.length), h.code, LENGTH_BITS);
    BitOrComm(Shl(extra, h.length), h.code);
    BitOrShifted(h.code, extra, h.length);
    BitOrComm(Shl(h.code + Shl(extra, h.length), LENGTH_BITS), h.length + n);
    BitOrShifted(h.length + n, h.code + Shl(extra, h.length), LENGTH_BITS);
  }

  // A packed entry gives the stored code followed by the extra bits.
  lemma PackedMeans(h: HuffCode, extra: nat, n: nat, max: nat)
    requires h.code < Pow2(h.length) && extra < Pow2(n) && h.length + n <= max < 32
    ensures Gives(Unpacked(PackedEntry(h, extra, n)), BitsOf(h.code, h.length) + BitsOf(extra, n), max)
  {
    hide BitOr, Shl, Shr, Low, Pow2, BitsOf, PackedEntry;
    FieldWidth();
    EntryIs(h, extra, n);
    SplitSum(h.length + n, h.code + Shl(extra, h.length), LENGTH_BITS);
    SumBound(h.code, extra, h.length, n);
    BitsAppend(h.code, extra, h.length, n);
  }

  // ---- create_code_tables ----

  method CreateCodeTables(codes: array<nat>, sizes: array<nat>, length: nat, table: array<HuffCode>)
    requires length <= table.Length && codes.Length == sizes.Length == length && codes != sizes
    modifies codes, sizes
    ensures forall k :: 0 <= k < length ==> codes[k] == table[k].code && sizes[k] == table[k].length
  {
    for i := 0 to length
      invariant forall k :: 0 <= k < i ==> codes[k] == table[k].code && sizes[k] == table[k].length
    {
      codes[i] := table[i].code;
      sizes[i] := table[i].length;
    }
  }

  // ---- create_packed_len_table ----

  // Length symbols below 285 have their lengths in order, without gaps.
  lemma LengthRange(sym: nat, j: nat)
    requires 257 <= sym <= 284
    ensures 3 <= LengthBase(sym) && LengthBase(sym) + Pow2(LengthExtraBits(sym)) == if sym < 284 then LengthBase(sym + 1) else 259
    ensures sym < 284 ==> LengthBase(sym + 1) <= 227
    ensures j < Pow2(LengthExtraBits(sym)) && LengthBase(sym) + j < 258 ==> LenSym(LengthBase(sym) + j) == sym
  {
    if sym < EXPAND_FROM {
      assert Pow2(0) == 1;
      match sym
      case 257 => case 258 => case 259 => case 260 => case 261 => case 262 => case 263 => case 264 =>
    } else {
      var i: nat := sym - EXPAND_FROM;
      NextStart(i);
      RangeBounds(i);
      if j < Pow2(LengthExtraBits(sym)) && LengthBase(sym) + j < 258 {
        ExpandedRange(i, j);
      }
    }
  }

  lemma RangeBounds(i: nat)
    requires i < 20
    ensures LengthExtraBits(EXPAND_FROM + i) == 1 + i / 4 && 3 <= LengthBase(EXPAND_FROM + i) <= 227
  {
    match i
    case 0 => case 1 => case 2 => case 3 => case 4 => case 5 => case 6 => case 7 => case 8 => case 9 =>
    case 10 => case 11 => case 12 => case 13 => case 14 => case 15 => case 16 => case 17 => case 18 => case 19 =>
  }

  // The entry of a length.
  function LenEntry(lit: seq<HuffCode>, length: nat): nat
    requires |lit| == LIT_LEN && 3 <= length <= 258
  {
    LenSymMeans(length);
    var sym := LenSym(length);
    PackedEntry(lit[sym], length - LengthBase(sym), LengthExtraBits(sym))
  }

  // The entries of one symbol, as long as the count is at most 254.
  method PackSymbol(packed: array<nat>, from: nat, sym: nat, n: nat, lit: array<HuffCode>) returns (count: nat)
    requires packed.Length == IGZIP_LEN_TABLE_SIZE && lit.Length == LIT_LEN && 257 <= sym <= 284
    requires n == LengthExtraBits(sym) && from == LengthBase(sym) - 3
    requires forall k :: 0 <= k < from && k < 255 ==> packed[k] == LenEntry(lit[..], k + 3)
    modifies packed
    ensures count == if sym < 284 then LengthBase(sym + 1) - 3 else 255
    ensures forall k :: 0 <= k < count && k < 255 ==> packed[k] == LenEntry(lit[..], k + 3)
  {
    LengthRange(sym, 0);
    hide *;
    count := from;
    var extra := 0;
    while extra < Pow2(n)
      invariant 0 <= extra <= Pow2(n) && count == from + extra <= 255
      invariant forall k :: 0 <= k < count && k < 255 ==> packed[k] == LenEntry(lit[..], k + 3)
    {
      if count > 254 {
        break;
      }
      LengthRange(sym, extra);
      EntryOfLength(lit[..], sym, extra);
      packed[count] := PackedEntry(lit[sym], extra, n);
      count := count + 1;
      extra := extra + 1;
    }
  }

  lemma EntryOfLength(lit: seq<HuffCode>, sym: nat, j: nat)
    requires |lit| == LIT_LEN && 257 <= sym <= 284 && j < Pow2(LengthExtraBits(sym)) && LengthBase(sym) + j < 258
    ensures 3 <= LengthBase(sym) && LenEntry(lit, LengthBase(sym) + j) == PackedEntry(lit[sym], j, LengthExtraBits(sym))
  {
    hide PackedEntry;
    LengthRange(sym, j);
  }

  method CreatePackedLenTable(packed: array<nat>, lit: array<HuffCode>)
    requires packed.Length == IGZIP_LEN_TABLE_SIZE && lit.Length == LIT_LEN
    modifies packed
    ensures forall k :: 0 <= k < IGZIP_LEN_TABLE_SIZE ==> packed[k] == LenEntry(lit[..], k + 3)
  {
    LengthRange(257, 0);
    FirstLength(lit[..]);
    LastLength(lit[..]);
    hide *;
    var count, extraBitsCount, gainExtraBits := 0, 0, 264;
    for i := 257 to 285
      invariant count == if i < 285 then LengthBase(i) - 3 else 255
      invariant i < 285 ==> extraBitsCount == LengthExtraBits(i)
      invariant gainExtraBits >= 264 && gainExtraBits % 4 == 0 && i <= gainExtraBits
      invariant gainExtraBits == 264 || gainExtraBits - 4 < i
      invariant forall k :: 0 <= k < count && k < 255 ==> packed[k] == LenEntry(lit[..], k + 3)
    {
      count := PackSymbol(packed, count, i, extraBitsCount, lit);
      if i < 284 {
        HuffTables.ExtraBitsSteps(i);
      }
      if i == gainExtraBits {
        gainExtraBits := gainExtraBits + 4;
        extraBitsCount := extraBitsCount + 1;
      }
    }
    packed[count] := BitOr(Shl(lit[285].code, LENGTH_BITS), lit[285].length);
  }

  lemma FirstLength(lit: seq<HuffCode>)
    ensures LengthBase(257) == 3 && LengthExtraBits(257) == 0
  {
  }

  lemma LastLength(lit: seq<HuffCode>)
    requires |lit| == LIT_LEN
    ensures LenEntry(lit, 258) == BitOr(Shl(lit[285].code, LENGTH_BITS), lit[285].length)
  {
    hide BitOr;
    NoShift(lit[285].length + LENGTH_BITS);
    BitOrZero(Shl(lit[285].code, LENGTH_BITS));
  }

  lemma {:induction false} NoShift(n: nat)
    ensures Shl(0, n) == 0
  {
    if n > 0 {
      NoShift(n - 1);
    }
  }

  // ---- create_packed_dist_table ----

  // Distance symbols have their distances in order, without gaps.
  lemma NextDistance(sym: nat)
    requires sym < 30
    ensures DistanceBase(sym) + Pow2(DistanceExtraBits(sym)) == if sym < 29 then DistanceBase(sym + 1) else 32769
  {
    if sym < 2 {
      assert Pow2(0) == 1;
    } else {
      var e: nat := (sym - 2) / 2;
      var high := sym - 2 * e;
      DistanceTable(e, high);
      if sym < 29 {
        NextPair(sym, e, high);
      } else {
        assert Pow2(13) == 8192;
      }
    }
  }

  lemma NextPair(sym: nat, e: nat, high: nat)
    requires 2 <= sym < 29 && e == (sym - 2) / 2 && high == sym - 2 * e
    ensures DistanceBase(sym) + Pow2(DistanceExtraBits(sym)) == DistanceBase(sym + 1)
  {
    hide DistanceBase, DistanceExtraBits;
    DistanceTable(e, high);
    if high == 2 {
      DistanceTable(e, 3);
    } else {
      DistanceTable(e + 1, 2);
      assert Pow2(e + 1) == 2 * Pow2(e);
    }
  }

  lemma {:induction false} DistancesOrdered(a: nat, b: nat)
    requires a < b < 30
    ensures DistanceBase(a) + Pow2(DistanceExtraBits(a)) <= DistanceBase(b)
    decreases b
  {
    hide DistanceBase, DistanceExtraBits, Pow2;
    if a < b - 1 {
      DistancesOrdered(a, b - 1);
      NextDistance(b - 1);
    } else {
      NextDistance(a);
    }
  }

  // A distance has no other symbol and extra bits.
  lemma DistanceSymbol(sym: nat, extra: nat)
    requires sym < 30 && extra < Pow2(DistanceExtraBits(sym))
    ensures 1 <= DistanceBase(sym) + extra <= 32768
    ensures DistIcfCode(DistanceBase(sym) + extra) == (sym, extra)
  {
    hide DistanceExtraBits, Pow2, DistIcfCode;
    SymbolRange(sym);
    hide DistanceBase;
    var dist := DistanceBase(sym) + extra;
    DistIcfCodeMeans(dist);
    var (code, extra') := DistIcfCode(dist);
    if code < sym {
      DistancesOrdered(code, sym);
    } else if sym < code {
      DistancesOrdered(sym, code);
    }
  }

  // A literal or a pair has no other token.
  lemma TokenUnique(t: Icf, t': Icf)
    requires Meaning(t).Some? && Meaning(t) == Meaning(t')
    ensures t == t'
  {
    if t.litLen < 256 {
      ByteValue(t.litLen);
      ByteValue(t'.litLen);
    } else {
      PairUnique(t);
      PairUnique(t');
    }
    hide DistanceBase, DistanceExtraBits, Pow2, DistIcfCode;
  }

  lemma ByteValue(v: nat)
    requires v < 256
    ensures (v as bv8) as nat == v
  {
    assert v % 256 == v;
  }

  lemma PairUnique(t: Icf)
    requires Meaning(t).Some? && Meaning(t).value.Pair?
    ensures 1 <= Meaning(t).value.distance <= 32768
    ensures t == Icf(Meaning(t).value.length + 254, DistIcfCode(Meaning(t).value.distance).0, DistIcfCode(Meaning(t).value.distance).1)
  {
    hide DistanceBase, DistanceExtraBits, Pow2, DistIcfCode;
    DistanceSymbol(t.litDist, t.distExtra);
  }

  lemma SymbolRange(sym: nat)
    requires sym < 30
    ensures 1 <= DistanceBase(sym) && DistanceBase(sym) + Pow2(DistanceExtraBits(sym)) <= 32769
  {
    hide DistanceBase, DistanceExtraBits, Pow2;
    NextDistance(sym);
    NextDistance(29);
    if sym < 29 {
      DistancesOrdered(sym, 29);
    }
    if sym > 0 {
      DistancesOrdered(0, sym);
    }
    FirstDistance();
  }

  function DistEntry(table: seq<HuffCode>, dist: nat): nat
    requires |table| == DIST_LEN && 1 <= dist <= 32768
  {
    DistIcfCodeMeans(dist);
    var (sym, extra) := DistIcfCode(dist);
    PackedEntry(table[sym], extra, DistanceExtraBits(sym))
  }

  lemma EntryOfDistance(table: seq<HuffCode>, sym: nat, extra: nat)
    requires |table| == DIST_LEN && sym < 30 && extra < Pow2(DistanceExtraBits(sym))
    ensures 1 <= DistanceBase(sym) + extra <= 32768
    ensures DistEntry(table, DistanceBase(sym) + extra) == PackedEntry(table[sym], extra, DistanceExtraBits(sym))
  {
    hide PackedEntry, DistIcfCode, DistanceBase, DistanceExtraBits, Pow2;
    DistanceSymbol(sym, extra);
  }

  method CreatePackedDistTable(packed: array<nat>, length: nat, table: array<HuffCode>)
    requires length <= packed.Length && length <= 32768 && table.Length == DIST_LEN
    modifies packed
    ensures forall k :: 0 <= k < length ==> packed[k] == DistEntry(table[..], k + 1)
  {
    FirstDistance();
    hide DistEntry, PackedEntry, DistanceBase, DistanceExtraBits, Pow2;
    var count, extraBitsCount, gainExtraBits := 0, 0, 3;
    for i := 0 to DIST_LEN
      invariant count == (if i < DIST_LEN then DistanceBase(i) - 1 else 32768) <= length
      invariant i < DIST_LEN ==> extraBitsCount == DistanceExtraBits(i)
      invariant gainExtraBits >= 3 && gainExtraBits % 2 == 1 && i <= gainExtraBits
      invariant gainExtraBits == 3 || gainExtraBits - 2 < i
      invariant forall k :: 0 <= k < count ==> packed[k] == DistEntry(table[..], k + 1)
    {
      NextDistance(i);
      for extra := 0 to Pow2(extraBitsCount)
        invariant count == DistanceBase(i) - 1 + extra <= length
        invariant forall k :: 0 <= k < count ==> packed[k] == DistEntry(table[..], k + 1)
      {
        if count >= length {
          return;
        }
        EntryOfDistance(table[..], i, extra);
        packed[count] := PackedEntry(table[i], extra, extraBitsCount);
        count := count + 1;
      }
      if i < 29 {
        HuffTables.DistanceSteps(i);
      }
      if i == gainExtraBits {
        gainExtraBits := gainExtraBits + 2;
        extraBitsCount := extraBitsCount + 1;
      }
    }
  }

  lemma FirstDistance()
    ensures DistanceBase(0) == 1 && DistanceExtraBits(0) == 0
  {
  }

  // ---- lookups ----

  function GetLitCode(t: Hufftables, lit: nat): (nat, nat)
    requires lit <= 256 && |t.litTable| == |t.litTableSizes| == IGZIP_LIT_TABLE_SIZE
  {
    (t.litTable[lit], t.litTableSizes[lit])
  }

  function GetLenCode(t: Hufftables, length: nat): (nat, nat)
    requires 3 <= length <= 258 && |t.lenTable| == IGZIP_LEN_TABLE_SIZE
  {
    Unpacked(t.lenTable[length - 3])
  }

  lemma DistanceSymbolBelow(dist: nat)
    requires 1 <= dist <= 32768
    ensures DistIcfCode(dist).0 < 30
    ensures dist > 2 ==> Bsr(dist - 1) >= 2
  {
    hide DistIcfCode, DistanceBase, DistanceExtraBits, Pow2;
    DistIcfCodeMeans(dist);
    if dist > 2 {
      BsrAtLeast(dist - 1);
    }
  }

  // compute_dist_code, which finds symbol and extra bits as compute_dist_icf_code does
  function ComputeDistCode(t: Hufftables, dist: nat): (nat, nat)
    requires IGZIP_DIST_TABLE_SIZE < dist <= 32768 && |t.dcodes| == |t.dcodesSizes| == DIST_LEN
  {
    DistanceSymbolBelow(dist);
    var (sym, extraBits) := DistIcfCode(dist);
    var len := t.dcodesSizes[sym];
    (BitOr(t.dcodes[sym], Shl(extraBits, len)), len + Bsr(dist - 1) - 2)
  }

  function GetDistCode(t: Hufftables, dist: nat): (nat, nat)
    requires 1 <= dist <= 32768 && |t.distTable| == IGZIP_DIST_TABLE_SIZE && |t.dcodes| == |t.dcodesSizes| == DIST_LEN
  {
    if dist <= IGZIP_DIST_TABLE_SIZE then Unpacked(t.distTable[dist - 1]) else ComputeDistCode(t, dist)
  }

  // A distance code with its extra bits.
  function DistBits(dd: seq<nat>, dist: nat): seq<bool>
    requires DIST_LEN <= |dd| && 1 <= dist <= 32768
  {
    DistIcfCodeMeans(dist);
    DistanceBits(dd, DistIcfCode(dist).0, DistIcfCode(dist).1)
  }

  // What the lookups give for the symbols that have codes.
  ghost predicate GivesLit(t: Hufftables, c: BlockCodes, lit: nat)
    requires t.Valid() && c.Valid() && lit <= 256
  {
    Used(c.ll, lit) ==> Gives(GetLitCode(t, lit), CodeBits(c.ll, lit), 15)
  }

  ghost predicate GivesLen(t: Hufftables, c: BlockCodes, length: nat)
    requires t.Valid() && c.Valid() && 3 <= length <= 258
  {
    Used(c.ll, LenSym(length)) ==> Gives(GetLenCode(t, length), LengthBits(c.ll, length), 20)
  }

  ghost predicate GivesDist(t: Hufftables, c: BlockCodes, dist: nat)
    requires t.Valid() && c.Valid() && 1 <= dist <= 32768
  {
    Used(c.dd, DistIcfCode(dist).0) ==> Gives(GetDistCode(t, dist), DistBits(c.dd, dist), 28)
  }

  ghost predicate Holds(t: Hufftables, c: BlockCodes) {
    && t.Valid() && c.Valid()
    && (forall lit :: 0 <= lit <= 256 ==> GivesLit(t, c, lit))
    && (forall length :: 3 <= length <= 258 ==> GivesLen(t, c, length))
    && (forall dist :: 1 <= dist <= 32768 ==> GivesDist(t, c, dist))
  }

  // The tables are those of these code tables.
  ghost predicate MadeFrom(t: Hufftables, lit: seq<HuffCode>, dist: seq<HuffCode>) {
    && t.Valid() && |lit| == LIT_LEN && |dist| == DIST_LEN
    && (forall k :: 0 <= k <= 256 ==> t.litTable[k] == lit[k].code && t.litTableSizes[k] == lit[k].length)
    && (forall k :: 0 <= k < DIST_LEN ==> t.dcodes[k] == dist[k].code && t.dcodesSizes[k] == dist[k].length)
    && (forall k :: 0 <= k < IGZIP_LEN_TABLE_SIZE ==> t.lenTable[k] == LenEntry(lit, k + 3))
    && (forall k :: 0 <= k < IGZIP_DIST_TABLE_SIZE ==> t.distTable[k] == DistEntry(dist, k + 1))
  }

  ghost predicate Codes(lit: seq<HuffCode>, dist: seq<HuffCode>, c: BlockCodes) {
    && c.Valid() && |lit| == LIT_LEN && |dist| == DIST_LEN
    && (forall q :: 0 <= q < LIT_LEN ==> StoresCode(lit[q], c.ll, q))
    && (forall q :: 0 <= q < DIST_LEN ==> StoresCode(dist[q], c.dd, q))
  }

  lemma StoredFits(h: HuffCode, lengths: seq<nat>, sym: nat)
    requires sym < |lengths| && StoresCode(h, lengths, sym) && Used(lengths, sym) && Fits(lengths)
    ensures h.length <= 15 && Gives((h.code, h.length), CodeBits(lengths, sym), 15)
  {
    hide Pow2, BitsOf, CodeBits;
  }

  lemma LitGiven(t: Hufftables, lit: seq<HuffCode>, dist: seq<HuffCode>, c: BlockCodes, sym: nat)
    requires MadeFrom(t, lit, dist) && Codes(lit, dist, c) && sym <= 256
    ensures GivesLit(t, c, sym)
  {
    hide StoresCode, Fits, LenEntry, DistEntry, CodeBits, Gives;
    if Used(c.ll, sym) {
      StoredFits(lit[sym], c.ll, sym);
    }
  }

  lemma LenGiven(t: Hufftables, lit: seq<HuffCode>, dist: seq<HuffCode>, c: BlockCodes, length: nat)
    requires MadeFrom(t, lit, dist) && Codes(lit, dist, c) && 3 <= length <= 258
    ensures GivesLen(t, c, length)
  {
    hide StoresCode, Fits, PackedEntry, DistEntry, CodeBits, LenSym, LengthBase, LengthExtraBits, Unpacked, Pow2, BitsOf,
      Used;
    LenSymMeans(length);
    var sym := LenSym(length);
    if Used(c.ll, sym) {
      StoredFits(lit[sym], c.ll, sym);
      HuffTables.ExtraBitsBound(sym);
      PackedMeans(lit[sym], length - LengthBase(sym), LengthExtraBits(sym), 20);
      assert t.lenTable[length - 3] == LenEntry(lit, length);
    }
  }

  lemma ExtraCount(dist: nat)
    requires 2 < dist <= 32768
    ensures Bsr(dist - 1) >= 2 && DistIcfCode(dist).0 < 30 && DistanceExtraBits(DistIcfCode(dist).0) == Bsr(dist - 1) - 2
  {
    hide DistanceBase, DistanceExtraBits, Bsr, Pow2;
    var v := dist - 1;
    BsrBounds(v);
    BsrAtLeast(v);
    var e := Bsr(v) - 2;
    SmallExponent(e, v);
    DivMod(v, Pow2(e));
    DistanceTable(e, v / Pow2(e));
    DistIcfCodeMeans(dist);
  }

  lemma ComputedMeans(code: nat, len: nat, extra: nat, n: nat)
    requires code < Pow2(len) && extra < Pow2(n) && len <= 15 && n <= 13
    ensures Gives((BitOr(code, Shl(extra, len)), len + n), BitsOf(code, len) + BitsOf(extra, n), 28)
  {
    hide BitOr, Shl, Pow2, BitsOf;
    WriteHeader.Joined(code, extra, len, n);
  }

  lemma ShortGiven(t: Hufftables, lit: seq<HuffCode>, dist: seq<HuffCode>, c: BlockCodes, d: nat)
    requires MadeFrom(t, lit, dist) && Codes(lit, dist, c) && 1 <= d <= IGZIP_DIST_TABLE_SIZE
    ensures GivesDist(t, c, d)
  {
    hide StoresCode, Fits, PackedEntry, LenEntry, CodeBits, DistIcfCode, DistanceExtraBits, Unpacked, Pow2, BitsOf, Used,
      DistanceBase;
    DistIcfCodeMeans(d);
    var (sym, extra) := DistIcfCode(d);
    if Used(c.dd, sym) {
      StoredFits(dist[sym], c.dd, sym);
      HuffTables.ExtraBitsBound(sym);
      PackedMeans(dist[sym], extra, DistanceExtraBits(sym), 28);
      assert t.distTable[d - 1] == DistEntry(dist, d);
    }
  }

  lemma LongGiven(t: Hufftables, lit: seq<HuffCode>, dist: seq<HuffCode>, c: BlockCodes, d: nat)
    requires MadeFrom(t, lit, dist) && Codes(lit, dist, c) && IGZIP_DIST_TABLE_SIZE < d <= 32768
    ensures GivesDist(t, c, d)
  {
    hide StoresCode, Fits, LenEntry, DistEntry, CodeBits, DistanceExtraBits, Pow2, BitsOf, Used, DistanceBase, BitOr, Shl,
      Bsr, Gives;
    DistIcfCodeMeans(d);
    ExtraCount(d);
    var (sym, extra) := DistIcfCode(d);
    if Used(c.dd, sym) {
      StoredFits(dist[sym], c.dd, sym);
      GivesIs(dist[sym].code, dist[sym].length, CodeBits(c.dd, sym));
      HuffTables.ExtraBitsBound(sym);
      ComputedMeans(dist[sym].code, dist[sym].length, extra, DistanceExtraBits(sym));
      assert t.dcodes[sym] == dist[sym].code && t.dcodesSizes[sym] == dist[sym].length;
    }
  }

  lemma GivesIs(code: nat, len: nat, bits: seq<bool>)
    requires Gives((code, len), bits, 15)
    ensures len <= 15 && code < Pow2(len) && BitsOf(code, len) == bits
  {
  }

  // The lookups give the canonical codes with their extra bits.
  lemma TablesHold(t: Hufftables, lit: seq<HuffCode>, dist: seq<HuffCode>, c: BlockCodes)
    requires MadeFrom(t, lit, dist) && Codes(lit, dist, c)
    ensures Holds(t, c)
  {
    hide StoresCode, Fits, LenEntry, DistEntry, GivesLit, GivesLen, GivesDist;
    forall sym | 0 <= sym <= 256 ensures GivesLit(t, c, sym) {
      LitGiven(t, lit, dist, c, sym);
    }
    forall length | 3 <= length <= 258 ensures GivesLen(t, c, length) {
      LenGiven(t, lit, dist, c, length);
    }
    forall d | 1 <= d <= 32768 ensures GivesDist(t, c, d) {
      if d <= IGZIP_DIST_TABLE_SIZE {
        ShortGiven(t, lit, dist, c, d);
      } else {
        LongGiven(t, lit, dist, c, d);
      }
    }
  }
}
