/** Section 3.2.6 of RFC 1951, the fixed Huffman codes, and the table static_hufftables, eight
    entries to a row, left to right. */
module FixedCodes {
  import opened Rfc1951
  import opened Bits
  import opened Canonical
  import opened HuffCodes
  import opened IcfTables
  import opened Inflate
  import opened EncodeDf
  import opened DynamicHeader
  import opened RunLength
  import CrcTables
  import opened PackedTables
  import HuffTables

  function FixedLength(sym: nat): nat {
    if sym < 144 then 8 else if sym < 256 then 9 else if sym < 280 then 7 else 8
  }

  function FixedLl(): (ll: seq<nat>)
    ensures |ll| == 288
  {
    Repeat(8, 144) + Repeat(9, 112) + Repeat(7, 24) + Repeat(8, 8)
  }

  function FixedDd(): (dd: seq<nat>)
    ensures |dd| == 32
  {
    Repeat(5, 32)
  }

  function Fixed(): BlockCodes {
    BlockCodes(FixedLl(), FixedDd())
  }

  lemma FixedParts()
    ensures Fixed().ll == FixedLl() && Fixed().dd == FixedDd()
  {
  }

  // The codes as the standard lists them.
  function FixedCode(sym: nat): nat
    requires sym < 288
  {
    if sym < 144 then 0x30 + sym
    else if sym < 256 then 0x190 + (sym - 144)
    else if sym < 280 then sym - 256
    else 0xC0 + (sym - 280)
  }

  // ---- the lengths are those of a code that fits ----

  lemma LengthsAre(sym: nat)
    requires sym < 288
    ensures FixedLl()[sym] == FixedLength(sym)
  {
  }

  lemma CountPrefix(sym: nat, l: nat)
    requires sym <= 288
    ensures Count(FixedLl()[..sym], l)
         == (if l == 8 then Min(sym, 144) + Above(sym, 280) else if l == 9 then Min(Above(sym, 144), 112)
             else if l == 7 then Min(Above(sym, 256), 24) else 0)
  {
    hide Count;
    var a, b, c, d := Min(sym, 144), Min(Above(sym, 144), 112), Min(Above(sym, 256), 24), Above(sym, 280);
    assert FixedLl()[..sym] == Repeat(8, a) + Repeat(9, b) + Repeat(7, c) + Repeat(8, d);
    CountFour(a, b, c, d, l);
  }

  // How far a is above b.
  function Above(a: nat, b: nat): nat {
    if a > b then a - b else 0
  }

  lemma CountFour(a: nat, b: nat, c: nat, d: nat, l: nat)
    ensures Count(Repeat(8, a) + Repeat(9, b) + Repeat(7, c) + Repeat(8, d), l)
         == (if l == 8 then a + d else if l == 9 then b else if l == 7 then c else 0)
  {
    hide Count, Repeat;
    HuffTables.CountConcat(Repeat(8, a), Repeat(9, b), l);
    HuffTables.CountConcat(Repeat(8, a) + Repeat(9, b), Repeat(7, c), l);
    HuffTables.CountConcat(Repeat(8, a) + Repeat(9, b) + Repeat(7, c), Repeat(8, d), l);
    HuffTables.CountRun(8, a, l);
    HuffTables.CountRun(9, b, l);
    HuffTables.CountRun(7, c, l);
    HuffTables.CountRun(8, d, l);
  }

  lemma FixedCounts(l: nat)
    ensures Counts(FixedLl())(l) == (if l == 8 then 152 else if l == 9 then 112 else if l == 7 then 24 else 0)
  {
    hide Count, FixedLl;
    CountPrefix(288, l);
    assert FixedLl()[..288] == FixedLl();
  }

  lemma FixedSum()
    ensures Kraft(Counts(FixedLl()), 15) == 32768
    ensures Kraft(Counts(FixedLl()), 6) == 0 && Kraft(Counts(FixedLl()), 7) == 24 && Kraft(Counts(FixedLl()), 8) == 200
  {
    hide Kraft, Counts, FixedLl;
    var c := Counts(FixedLl());
    HuffTables.KraftSteps(c);
    KraftNext(c, 7);
    KraftNext(c, 8);
    FixedCounts(1); FixedCounts(2); FixedCounts(3); FixedCounts(4); FixedCounts(5);
    FixedCounts(6); FixedCounts(7); FixedCounts(8); FixedCounts(9); FixedCounts(10);
    FixedCounts(11); FixedCounts(12); FixedCounts(13); FixedCounts(14); FixedCounts(15);
  }

  lemma KraftNext(c: nat -> nat, l: nat)
    requires l > 0
    ensures Kraft(c, l) == 2 * Kraft(c, l - 1) + c(l)
  {
  }

  lemma FixedFits()
    ensures Fits(FixedLl())
  {
    hide Kraft, Counts, Pow2;
    FixedSum();
    HuffTables.Pow2Max();
    forall i | 0 <= i < 288 ensures FixedLl()[i] <= MAX_BITS {
      LengthsAre(i);
    }
  }

  // The canonical codes of these lengths are those of the standard.
  lemma FixedCodeIs(sym: nat)
    requires sym < 288
    ensures CodeOf(FixedLl(), sym) == FixedCode(sym)
  {
    hide Kraft, Counts, FixedLl, FirstCode, Count;
    FixedSum();
    LengthsAre(sym);
    FirstIsKraft(Counts(FixedLl()), FixedLength(sym) - 1);
    CountPrefix(sym, FixedLength(sym));
  }

  lemma DistSum(l: nat)
    requires l <= 15
    ensures Kraft(Counts(FixedDd()), l) == if l < 5 then 0 else Pow2(l)
    decreases l
  {
    hide Count;
    HuffTables.CountRun(5, 32, l);
    if l > 0 {
      DistSum(l - 1);
      assert Pow2(5) == 32;
    }
  }

  lemma DistFits()
    ensures Fits(FixedDd())
  {
    DistSum(15);
    hide Kraft, Counts, Pow2;
  }

  lemma DistCodeIs(sym: nat)
    requires sym < 32
    ensures CodeOf(FixedDd(), sym) == sym
  {
    hide Kraft, Count, FirstCode;
    FirstIsKraft(Counts(FixedDd()), 4);
    DistSum(4);
    assert FixedDd()[..sym] == Repeat(5, sym);
    HuffTables.CountRun(5, sym, 5);
  }

  // ---- static_hufftables ----

  function ShortRow(i: bv16): bv128 {
    match i
    case 0 => 0x000c008c004c00cc002c00ac006c00ec
    case 1 => 0x001c009c005c00dc003c00bc007c00fc
    case 2 => 0x00020082004200c2002200a2006200e2
    case 3 => 0x00120092005200d2003200b2007200f2
    case 4 => 0x000a008a004a00ca002a00aa006a00ea
    case 5 => 0x001a009a005a00da003a00ba007a00fa
    case 6 => 0x00060086004600c6002600a6006600e6
    case 7 => 0x00160096005600d6003600b6007600f6
    case _ => 0x000e008e004e00ce002e00ae006e00ee
  }

  function NextRow(i: bv16): bv128 {
    match i
    case 9 => 0x001e009e005e00de003e00be007e00fe
    case 10 => 0x00010081004100c1002100a1006100e1
    case 11 => 0x00110091005100d1003100b1007100f1
    case 12 => 0x00090089004900c9002900a9006900e9
    case 13 => 0x00190099005900d9003900b9007900f9
    case 14 => 0x00050085004500c5002500a5006500e5
    case 15 => 0x00150095005500d5003500b5007500f5
    case 16 => 0x000d008d004d00cd002d00ad006d00ed
    case _ => 0x001d009d005d00dd003d00bd007d00fd
  }

  function LongRow(i: bv16): bv128 {
    match i
    case 18 => 0x00130113009301930053015300d301d3
    case 19 => 0x0033013300b301b30073017300f301f3
    case 20 => 0x000b010b008b018b004b014b00cb01cb
    case 21 => 0x002b012b00ab01ab006b016b00eb01eb
    case 22 => 0x001b011b009b019b005b015b00db01db
    case 23 => 0x003b013b00bb01bb007b017b00fb01fb
    case _ => 0x00070107008701870047014700c701c7
  }

  function LongerRow(i: bv16): bv128 {
    match i
    case 25 => 0x0027012700a701a70067016700e701e7
    case 26 => 0x00170117009701970057015700d701d7
    case 27 => 0x0037013700b701b70077017700f701f7
    case 28 => 0x000f010f008f018f004f014f00cf01cf
    case 29 => 0x002f012f00af01af006f016f00ef01ef
    case 30 => 0x001f011f009f019f005f015f00df01df
    case _ => 0x003f013f00bf01bf007f017f00ff01ff
  }

  function LengthRow(i: bv16): bv128 {
    match i
    case 32 => 0x00000040002000600010005000300070
    case 33 => 0x00080048002800680018005800380078
    case 34 => 0x00040044002400640014005400340074
    case _ => 0x00030083004300c3002300a3006300e3
  }

  function StaticRow(i: bv16): bv128 {
    if i < 9 then ShortRow(i) else if i < 18 then NextRow(i) else if i < 25 then LongRow(i) else if i < 32 then LongerRow(i) else LengthRow(i)
  }

  // Eight entries to a row, left to right.
  function StaticCode(sym: bv16): bv16 {
    CrcTables.Column16(StaticRow(sym >> 3), (sym & 7) as bv8)
  }

  function StaticDistCode(sym: nat): nat
    requires sym < 30
  {
    match sym
    case 0 => 0x00 case 1 => 0x10 case 2 => 0x08 case 3 => 0x18 case 4 => 0x04 case 5 => 0x14 case 6 => 0x0c
    case 7 => 0x1c case 8 => 0x02 case 9 => 0x12 case 10 => 0x0a case 11 => 0x1a case 12 => 0x06 case 13 => 0x16
    case 14 => 0x0e case 15 => 0x1e case 16 => 0x01 case 17 => 0x11 case 18 => 0x09 case 19 => 0x19 case 20 => 0x05
    case 21 => 0x15 case 22 => 0x0d case 23 => 0x1d case 24 => 0x03 case 25 => 0x13 case 26 => 0x0b case 27 => 0x1b
    case 28 => 0x07 case _ => 0x17
  }

  // The entries of the table are the codes, reversed.
  lemma ShortEntries(x: bv16)
    requires x < 72
    ensures StaticCode(x) == BitRev8((x + 0x30) as bv8) as bv16
  {
    BitRev8Reverses((x + 0x30) as bv8);
    hide BitRev8, NextRow, LongRow, LongerRow, LengthRow;
  }

  lemma NextEntries(x: bv16)
    requires 72 <= x < 144
    ensures StaticCode(x) == BitRev8((x + 0x30) as bv8) as bv16
  {
    BitRev8Reverses((x + 0x30) as bv8);
    hide BitRev8, ShortRow, LongRow, LongerRow, LengthRow;
  }

  lemma LongEntriesLow(x: bv16)
    requires 144 <= x < 200
    ensures StaticCode(x) == 2 * (BitRev8(x as bv8) as bv16) + 1
  {
    BitRev8Reverses(x as bv8);
    hide BitRev8, ShortRow, NextRow, LongerRow, LengthRow;
  }

  lemma LongEntriesHigh(x: bv16)
    requires 200 <= x < 256
    ensures StaticCode(x) == 2 * (BitRev8(x as bv8) as bv16) + 1
  {
    BitRev8Reverses(x as bv8);
    hide BitRev8, ShortRow, NextRow, LongRow, LengthRow;
  }

  lemma FirstEntries(x: bv16)
    requires x < 144
    ensures StaticCode(x) == BitRev8((x + 0x30) as bv8) as bv16
  {
    hide StaticCode, BitRev8;
    if x < 72 {
      ShortEntries(x);
    } else {
      NextEntries(x);
    }
  }

  lemma LongEntries(x: bv16)
    requires 144 <= x < 256
    ensures StaticCode(x) == 2 * (BitRev8(x as bv8) as bv16) + 1
  {
    hide StaticCode, BitRev8;
    if x < 200 {
      LongEntriesLow(x);
    } else {
      LongEntriesHigh(x);
    }
  }

  lemma LengthEntries(x: bv16)
    requires 256 <= x < 280
    ensures StaticCode(x) == (BitRev8((x - 256) as bv8) >> 1) as bv16
  {
    BitRev8Reverses((x - 256) as bv8);
    hide BitRev8;
  }

  lemma LastEntries(x: bv16)
    requires 280 <= x < 288
    ensures StaticCode(x) == BitRev8((x - 88) as bv8) as bv16
  {
    BitRev8Reverses((x - 88) as bv8);
    hide BitRev8;
  }

  // bit_reverse of codes of 5, 7, 8 and 9 bits
  lemma ShiftedByte(r: nat)
    ensures Shr(BitOr(Shl(r, 8), 0), 8) == r && Shr(BitOr(Shl(r, 8), 0), 9) == r / 2 && Shr(BitOr(Shl(r, 8), 0), 11) == r / 8
  {
    hide Shr, Shl, BitOr;
    BitOrZero(Shl(r, 8));
    OnePower(8);
    SplitSum(0, r, 8);
    ShrOuter(Shl(r, 8), 8);
    ShrOuter(Shl(r, 8), 9);
    ShrOuter(Shl(r, 8), 10);
  }

  lemma ShiftedLong(r: nat)
    ensures Shr(BitOr(Shl(r, 8), 128), 7) == 2 * r + 1
  {
    assert Pow2(8) == 256;
    SevenAndEight(r);
    hide Shr, Shl, BitOr, Pow2;
    BitOrComm(Shl(r, 8), 128);
    BitOrShifted(128, r, 8);
    OnePower(7);
    SplitSum(0, 2 * r + 1, 7);
  }

  lemma OnePower(n: nat)
    ensures Pow2(n) > 0
  {
  }

  lemma SevenAndEight(r: nat)
    ensures 128 + Shl(r, 8) == Shl(2 * r + 1, 7)
  {
  }

  lemma NoBits()
    ensures BitRev8(0) as nat == 0 && BitRev8(1) as nat == 128
  {
  }

  lemma ReversedIs(code: nat, length: nat, lo: bv8, hi: bv8)
    requires code < 0x10000 && length <= 16 && lo == (code % 256) as bv8 && hi == (code / 256) as bv8
    ensures BitReverse(code, length) == Shr(BitOr(Shl(BitRev8(lo) as nat, 8), BitRev8(hi) as nat), 16 - length)
  {
    hide BitRev8, Shr, Shl, BitOr;
  }

  lemma ReverseShort(code: nat)
    requires code < 256
    ensures BitReverse(code, 8) == BitRev8(code as bv8) as nat
    ensures BitReverse(code, 7) == BitRev8(code as bv8) as nat / 2
    ensures BitReverse(code, 5) == BitRev8(code as bv8) as nat / 8
  {
    NoBits();
    hide BitRev8, Shr, Shl, BitOr, BitReverse;
    assert code % 256 == code && code / 256 == 0;
    ReversedIs(code, 8, code as bv8, 0);
    ReversedIs(code, 7, code as bv8, 0);
    ReversedIs(code, 5, code as bv8, 0);
    ShiftedByte(BitRev8(code as bv8) as nat);
  }

  lemma ReverseLong(lo: nat)
    requires lo < 256
    ensures BitReverse(256 + lo, 9) == 2 * (BitRev8(lo as bv8) as nat) + 1
  {
    NoBits();
    hide BitRev8, Shr, Shl, BitOr, BitReverse;
    assert (256 + lo) % 256 == lo && (256 + lo) / 256 == 1;
    ReversedIs(256 + lo, 9, lo as bv8, 1);
    ShiftedLong(BitRev8(lo as bv8) as nat);
  }

  lemma WordOf(sym: nat)
    requires sym < 288
    ensures (sym as bv16) as nat == sym
  {
    assert sym % 65536 == sym;
  }

  // Words and bytes as numbers.
  lemma AddedByte(x: bv16)
    requires x < 144
    ensures ((x + 0x30) as bv8) as nat == x as nat + 0x30
  {
  }

  lemma LowByte(x: bv16)
    requires x < 256
    ensures (x as bv8) as nat == x as nat
  {
  }

  lemma LessByte(x: bv16)
    requires 256 <= x < 288
    ensures ((x - 256) as bv8) as nat == x as nat - 256
    ensures ((x - 88) as bv8) as nat == x as nat - 88
  {
  }

  lemma SameByte(a: bv8, v: nat)
    requires a as nat == v
    ensures v < 256 && v as bv8 == a
  {
    RoundTrip(a);
  }

  lemma RoundTrip(a: bv8)
    ensures (a as nat) as bv8 == a
  {
  }

  lemma DoubleWord(r: bv8)
    ensures (2 * (r as bv16) + 1) as nat == 2 * (r as nat) + 1
    ensures ((r >> 1) as bv16) as nat == r as nat / 2
    ensures (r as bv16) as nat == r as nat
  {
  }

  // Entry by entry, the code of the table is the code of the standard, reversed.
  lemma StaticIs(sym: nat)
    requires sym < 288
    ensures FixedCode(sym) < 0x200
    ensures StaticCode(sym as bv16) as nat == BitReverse(FixedCode(sym), FixedLength(sym))
  {
    hide StaticCode, BitRev8, BitReverse;
    WordOf(sym);
    if sym < 144 {
      ShortIs(sym as bv16, sym);
    } else if sym < 256 {
      LongIs(sym as bv16, sym);
    } else if sym < 280 {
      LengthIs(sym as bv16, sym);
    } else {
      LastIs(sym as bv16, sym);
    }
  }

  lemma ShortLink(c: bv16, y: bv8, code: nat)
    requires c == BitRev8(y) as bv16 && y as nat == code
    ensures c as nat == BitReverse(code, 8)
  {
    hide BitRev8, BitReverse;
    SameByte(y, code);
    DoubleWord(BitRev8(y));
    ReverseShort(code);
  }

  lemma LongLink(c: bv16, y: bv8, code: nat)
    requires c == 2 * (BitRev8(y) as bv16) + 1 && y as nat == code
    ensures c as nat == BitReverse(256 + code, 9)
  {
    hide BitRev8, BitReverse;
    SameByte(y, code);
    DoubleOf(c, BitRev8(y));
    ReverseLong(code);
  }

  lemma DoubleOf(c: bv16, r: bv8)
    requires c == 2 * (r as bv16) + 1
    ensures c as nat == 2 * (r as nat) + 1
  {
    DoubleWord(r);
  }

  lemma WordRanges(x: bv16)
    ensures x as nat < 144 ==> x < 144
    ensures 144 <= x as nat < 256 ==> 144 <= x < 256
  {
  }

  lemma ShortIs(x: bv16, sym: nat)
    requires x as nat == sym < 144
    ensures StaticCode(x) as nat == BitReverse(0x30 + sym, 8)
  {
    WordRanges(x);
    hide StaticCode, BitRev8, BitReverse;
    FirstEntries(x);
    AddedByte(x);
    ShortLink(StaticCode(x), (x + 0x30) as bv8, 0x30 + sym);
  }

  lemma LongIs(x: bv16, sym: nat)
    requires 144 <= x as nat == sym < 256
    ensures StaticCode(x) as nat == BitReverse(0x100 + sym, 9)
  {
    WordRanges(x);
    hide StaticCode, BitRev8, BitReverse;
    LongEntries(x);
    LowByte(x);
    LongLink(StaticCode(x), x as bv8, sym);
  }

  lemma LengthIs(x: bv16, sym: nat)
    requires 256 <= x as nat == sym < 280
    ensures StaticCode(x) as nat == BitReverse(sym - 256, 7)
  {
    hide StaticCode, BitRev8, BitReverse;
    LengthEntries(x);
    LessByte(x);
    SameByte((x - 256) as bv8, sym - 256);
    DoubleWord(BitRev8((x - 256) as bv8));
    ReverseShort(sym - 256);
  }

  lemma LastIs(x: bv16, sym: nat)
    requires 280 <= x as nat == sym < 288
    ensures StaticCode(x) as nat == BitReverse(sym - 88, 8)
  {
    hide StaticCode, BitRev8, BitReverse;
    LastEntries(x);
    LessByte(x);
    SameByte((x - 88) as bv8, sym - 88);
    DoubleWord(BitRev8((x - 88) as bv8));
    ReverseShort(sym - 88);
  }

  lemma StaticDistIs(sym: nat)
    requires sym < 30
    ensures StaticDistCode(sym) == BitReverse(sym, 5)
  {
    hide BitReverse, BitRev8;
    ReverseShort(sym);
    DistReversed(sym);
  }

  lemma DistReversed(sym: nat)
    requires sym < 30
    ensures StaticDistCode(sym) == BitRev8(sym as bv8) as nat / 8
  {
    match sym
    case 0 => case 1 => case 2 => case 3 => case 4 => case 5 => case 6 => case 7 => case 8 => case 9 =>
    case 10 => case 11 => case 12 => case 13 => case 14 => case 15 => case 16 => case 17 => case 18 => case 19 =>
    case 20 => case 21 => case 22 => case 23 => case 24 => case 25 => case 26 => case 27 => case 28 => case 29 =>
  }

  // ---- the table as a whole ----

  function StaticEntry(q: nat): HuffCode {
    if q < DIST_LEN then HuffCode(StaticDistCode(q), if q < 4 then 0 else q / 2 - 1, 5)
    else if q < LIT_TABLE then HuffCode(0, 0, 0)
    else if q < LIT_TABLE + 288 then HuffCode(StaticCode((q - LIT_TABLE) as bv16) as nat, 0, FixedLength(q - LIT_TABLE))
    else HuffCode(0, 0, 0)
  }

  lemma LitStored(sym: nat)
    requires sym < 288
    ensures StoresPlain(StaticEntry(LIT_TABLE + sym), FixedLl(), sym) && FixedLl()[sym] > 0
  {
    hide StaticCode, BitReverse, CodeOf, FixedLl, CodeBits, Fits;
    LengthsAre(sym);
    FixedFits();
    StaticIs(sym);
    FixedCodeIs(sym);
    CodeStored(FixedLl(), sym);
  }

  lemma DistStored(sym: nat)
    requires sym < 30
    ensures StoresDistance(StaticEntry(sym), FixedDd(), sym) && FixedDd()[sym] > 0
  {
    hide StaticDistCode, BitReverse, CodeOf, CodeBits, Fits;
    DistFits();
    StaticDistIs(sym);
    DistCodeIs(sym);
    CodeStored(FixedDd(), sym);
    assert DistanceExtraBits(sym) == if sym < 4 then 0 else sym / 2 - 1;
  }

  // static_hufftables holds the codes of section 3.2.6 of RFC 1951.
  lemma StaticTables(t: seq<HuffCode>)
    requires |t| == TABLE_SIZE && forall q :: 0 <= q < TABLE_SIZE ==> t[q] == StaticEntry(q)
    ensures CodeTables(t, Fixed())
  {
    hide StaticEntry, StoresPlain, StoresDistance, FixedLl, FixedDd, Fits;
    FixedFits();
    DistFits();
    forall q | 0 <= q < DIST_LEN ensures StoresDistance(t[q], FixedDd(), q) {
      DistStored(q);
    }
    forall q | LIT_TABLE <= q < LIT_TABLE + LIT_LEN ensures StoresPlain(t[q], FixedLl(), q - LIT_TABLE) {
      LitStored(q - LIT_TABLE);
    }
  }

  // ---- reading blocks ----

  // Section 3.2.3 of RFC 1951: BTYPE 1 is a block with the fixed codes, 2 one with dynamic codes.
  ghost function ReadCompressedBlock(bits: seq<bool>): Option<(bool, seq<Item>, seq<bool>)> {
    if |bits| >= 3 && Value(bits[1..3]) == 1 then
      match ReadBlock(FixedLl(), FixedDd(), bits[3..])
      case None => None
      case Some((items, rest)) => Some((Value(bits[..1]) == 1, items, rest))
    else ReadDynamicBlock(bits)
  }

  lemma DynamicIsCompressed(bits: seq<bool>)
    requires ReadDynamicBlock(bits).Some?
    ensures ReadCompressedBlock(bits) == ReadDynamicBlock(bits)
  {
    hide ReadBlock, ReadCodeLengthCodes, ReadLengths, SplitLengths, Value;
  }

  lemma FixedStart(final: bool, rest: seq<bool>)
    ensures
      var bits := BitsOf(if final then 3 else 2, 3) + rest;
      && |bits| >= 3 && Value(bits[1..3]) == 1 && (Value(bits[..1]) == 1 <==> final) && bits[3..] == rest
  {
    var bits := BitsOf(if final then 3 else 2, 3) + rest;
    assert bits[1..3] == [true, false];
    assert bits[..1] == [final];
  }

  // 0x2 | end_of_block, then data in the fixed codes
  lemma FixedRead(final: bool, data: seq<bool>, items: seq<Item>, rest: seq<bool>)
    requires InflatesTo(Fixed(), data, items)
    ensures ReadCompressedBlock(BitsOf(if final then 3 else 2, 3) + data + rest) == Some((final, items, rest))
  {
    hide ReadBlock, FixedLl, FixedDd, BitsOf, Value;
    FixedStart(final, data + rest);
    assert BitsOf(if final then 3 else 2, 3) + data + rest == BitsOf(if final then 3 else 2, 3) + (data + rest);
  }
}
