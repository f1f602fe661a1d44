/** set_huff_codes and bit_reverse of huff_codes.c. */
module HuffCodes {
  import opened Counters
  import opened Rfc1951
  import opened Bits
  import opened Canonical

  const LIT_LEN := 286
  const DIST_LEN := 30
  const MAX_HUFF_TREE_DEPTH := 15

  // struct huff_code: a 16-bit code, 8 bits of extra bit count and an 8-bit length. The first
  // two fields overlay the 24-bit field code_and_extra.
  datatype HuffCode = HuffCode(code: nat, extraBitCount: nat, length: nat) {
    function CodeAndExtra(): nat {
      code + 0x10000 * extraBitCount
    }
  }

  function FromCodeAndExtra(v: nat, length: nat): (h: HuffCode)
    ensures h.CodeAndExtra() == v && h.length == length
  {
    HuffCode(v % 0x10000, v / 0x10000, length)
  }

  // ---- bit_reverse ----

  // The table is written sixteen bytes to a row, left to right.
  function RowByte(row: bv128, column: bv8): bv8
    requires column < 16
  {
    ((row >> (8 * (15 - column))) & 0xff) as bv8
  }

  function BitRev8(x: bv8): bv8 {
    RowByte(match x >> 4
            case 0 => 0x008040c020a060e0109050d030b070f0
            case 1 => 0x088848c828a868e8189858d838b878f8
            case 2 => 0x048444c424a464e4149454d434b474f4
            case 3 => 0x0c8c4ccc2cac6cec1c9c5cdc3cbc7cfc
            case 4 => 0x028242c222a262e2129252d232b272f2
            case 5 => 0x0a8a4aca2aaa6aea1a9a5ada3aba7afa
            case 6 => 0x068646c626a666e6169656d636b676f6
            case 7 => 0x0e8e4ece2eae6eee1e9e5ede3ebe7efe
            case 8 => 0x018141c121a161e1119151d131b171f1
            case 9 => 0x098949c929a969e9199959d939b979f9
            case 10 => 0x058545c525a565e5159555d535b575f5
            case 11 => 0x0d8d4dcd2dad6ded1d9d5ddd3dbd7dfd
            case 12 => 0x038343c323a363e3139353d333b373f3
            case 13 => 0x0b8b4bcb2bab6beb1b9b5bdb3bbb7bfb
            case 14 => 0x078747c727a767e7179757d737b777f7
            case _ => 0x0f8f4fcf2faf6fef1f9f5fdf3fbf7fff
            , x & 15)
  }

  function Reversed8(x: bv8): bv8 {
    (x << 7) | ((x & 0x02) << 5) | ((x & 0x04) << 3) | ((x & 0x08) << 1)
    | ((x & 0x10) >> 1) | ((x & 0x20) >> 3) | ((x & 0x40) >> 5) | (x >> 7)
  }

  lemma BitRev8Reverses(x: bv8)
    ensures BitRev8(x) == Reversed8(x)
  {
  }

  function Half(x: bv8): bv8 { x >> 1 }

  function Odd(x: bv8): bool { x & 1 == 1 }

  // Bit i of a number.
  function Bit(v: nat, i: nat): bool {
    Shr(v, i) % 2 == 1
  }

  lemma {:induction false} BitsAt(v: nat, n: nat, i: nat)
    requires i < n
    ensures BitsOf(v, n)[i] == Bit(v, i)
  {
    if i > 0 {
      BitsAt(v / 2, n - 1, i - 1);
    }
  }

  lemma {:induction false} MsbAt(v: nat, n: nat, i: nat)
    requires i < n
    ensures Msb(v, n)[n - 1 - i] == Bit(v, i)
  {
    if i > 0 {
      MsbAt(v / 2, n - 1, i - 1);
      assert Msb(v, n)[n - 1 - i] == Msb(v / 2, n - 1)[n - 1 - i];
    }
  }

  lemma HalvesByte(x: bv8)
    ensures x as nat / 2 == Half(x) as nat
  {
  }

  lemma OddByte(x: bv8)
    ensures (x as nat % 2 == 1) == Odd(x)
  {
  }

  function HalfTimes(x: bv8, i: nat): bv8 {
    if i == 0 then x else Half(HalfTimes(x, i - 1))
  }

  lemma {:induction false} ShrOuter(v: nat, i: nat)
    ensures Shr(v, i + 1) == Shr(v, i) / 2
  {
    if i > 0 {
      ShrOuter(v / 2, i - 1);
    }
  }

  lemma {:induction false} ByteShr(x: bv8, i: nat)
    ensures Shr(x as nat, i) == HalfTimes(x, i) as nat
  {
    hide Half;
    if i > 0 {
      ByteShr(x, i - 1);
      ShrOuter(x as nat, i - 1);
      HalvesByte(HalfTimes(x, i - 1));
    }
  }

  lemma ByteBit(x: bv8, i: nat)
    ensures Bit(x as nat, i) == Odd(HalfTimes(x, i))
  {
    ByteShr(x, i);
    OddByte(HalfTimes(x, i));
    hide Half, Odd;
  }

  lemma HalvedUpTo7(x: bv8)
    ensures HalfTimes(x, 0) == x
    ensures HalfTimes(x, 1) == Half(x)
    ensures HalfTimes(x, 2) == Half(Half(x))
    ensures HalfTimes(x, 3) == Half(Half(Half(x)))
    ensures HalfTimes(x, 4) == Half(Half(Half(Half(x))))
    ensures HalfTimes(x, 5) == Half(Half(Half(Half(Half(x)))))
    ensures HalfTimes(x, 6) == Half(Half(Half(Half(Half(Half(x))))))
    ensures HalfTimes(x, 7) == Half(Half(Half(Half(Half(Half(Half(x)))))))
  {
    hide Half;
    assert HalfTimes(x, 1) == Half(HalfTimes(x, 0));
    assert HalfTimes(x, 2) == Half(HalfTimes(x, 1));
    assert HalfTimes(x, 3) == Half(HalfTimes(x, 2));
    assert HalfTimes(x, 4) == Half(HalfTimes(x, 3));
    assert HalfTimes(x, 5) == Half(HalfTimes(x, 4));
    assert HalfTimes(x, 6) == Half(HalfTimes(x, 5));
    assert HalfTimes(x, 7) == Half(HalfTimes(x, 6));
  }

  lemma Reversed8Bits(x: bv8)
    ensures
      var r := Reversed8(x);
      && Odd(r) == Odd(Half(Half(Half(Half(Half(Half(Half(x))))))))
      && Odd(Half(r)) == Odd(Half(Half(Half(Half(Half(Half(x)))))))
      && Odd(Half(Half(r))) == Odd(Half(Half(Half(Half(Half(x))))))
      && Odd(Half(Half(Half(r)))) == Odd(Half(Half(Half(Half(x)))))
      && Odd(Half(Half(Half(Half(r))))) == Odd(Half(Half(Half(x))))
      && Odd(Half(Half(Half(Half(Half(r)))))) == Odd(Half(Half(x)))
      && Odd(Half(Half(Half(Half(Half(Half(r))))))) == Odd(Half(x))
      && Odd(Half(Half(Half(Half(Half(Half(Half(r)))))))) == Odd(x)
  {
  }

  lemma Reversed8Bit(x: bv8, i: nat)
    requires i < 8
    ensures Odd(HalfTimes(BitRev8(x), i)) == Odd(HalfTimes(x, 7 - i))
  {
    BitRev8Reverses(x);
    Reversed8Bits(x);
    hide BitRev8, Reversed8, Half, Odd, HalfTimes;
    HalvedUpTo7(x);
    HalvedUpTo7(BitRev8(x));
    match i
    case 0 => case 1 => case 2 => case 3 => case 4 => case 5 => case 6 => case 7 =>
  }

  // Low bit first, the table entry reads as its index does high bit first.
  lemma ByteReversed(x: bv8)
    ensures BitsOf(BitRev8(x) as nat, 8) == Msb(x as nat, 8)
  {
    hide BitRev8, BitsOf, Msb, Half, Odd, HalfTimes, Bit;
    var low, high := BitsOf(BitRev8(x) as nat, 8), Msb(x as nat, 8);
    forall i | 0 <= i < 8 ensures low[i] == high[i] {
      BitsAt(BitRev8(x) as nat, 8, i);
      MsbAt(x as nat, 8, 7 - i);
      ByteBit(BitRev8(x), i);
      ByteBit(x, 7 - i);
      Reversed8Bit(x, i);
    }
  }

  lemma ByteOf(v: nat)
    requires v < 256
    ensures (v as bv8) as nat == v
  {
    assert v % 256 == v;
  }

  lemma {:induction false} MsbAppend(high: nat, low: nat, n: nat, m: nat)
    requires low < Pow2(m)
    ensures Msb(low + Shl(high, m), n + m) == Msb(high, n) + Msb(low, m)
  {
    if m == 0 {
      assert Msb(high, n) + Msb(low, 0) == Msb(high, n);
    } else {
      var v := low + Shl(high, m);
      assert v / 2 == low / 2 + Shl(high, m - 1) && v % 2 == low % 2;
      MsbAppend(high, low / 2, n, m - 1);
    }
  }

  lemma {:induction false} MsbSuffix(v: nat, m: nat, n: nat)
    ensures Msb(v, m + n)[m..] == Msb(v, n)
  {
    if n > 0 {
      MsbSuffix(v / 2, m, n - 1);
      assert Msb(v, m + n)[m..] == Msb(v / 2, m + n - 1)[m..] + [v % 2 == 1];
    }
  }

  lemma {:induction false} BitOrComm(a: nat, b: nat)
    ensures BitOr(a, b) == BitOr(b, a)
    decreases a + b
  {
    if a > 0 || b > 0 {
      BitOrComm(a / 2, b / 2);
    }
  }

  // The sixteen bits of a code, reversed byte by byte.
  function Reverse16(code: nat): nat
    requires code < 0x10000
  {
    BitOr(Shl(BitRev8((code % 256) as bv8) as nat, 8), BitRev8((code / 256) as bv8) as nat)
  }

  // bit_reverse of a code of the given length
  function BitReverse(code: nat, length: nat): nat
    requires code < 0x10000 && length <= 16
  {
    Shr(Reverse16(code), 16 - length)
  }

  lemma Joined(hi: nat, lo: nat)
    requires hi < 256 && lo < 256
    ensures BitOr(Shl(hi, 8), lo) == lo + Shl(hi, 8) && lo + Shl(hi, 8) < Pow2(16)
    ensures BitsOf(lo + Shl(hi, 8), 16) == BitsOf(lo, 8) + BitsOf(hi, 8)
    ensures Msb(lo + Shl(hi, 8), 16) == Msb(hi, 8) + Msb(lo, 8)
  {
    hide BitsOf, Msb, BitOr, Shl;
    assert Pow2(8) == 256;
    hide Pow2;
    BitOrShifted(lo, hi, 8);
    BitOrComm(lo, Shl(hi, 8));
    BitsAppend(lo, hi, 8, 8);
    MsbAppend(hi, lo, 8, 8);
    SumBound(lo, hi, 8, 8);
  }

  lemma Shl8(v: nat)
    ensures Shl(v, 8) == 256 * v
  {
  }

  lemma Reverse16Bits(code: nat)
    requires code < 0x10000
    ensures Reverse16(code) < Pow2(16) && BitsOf(Reverse16(code), 16) == Msb(code, 16)
  {
    hide BitsOf, Msb, BitRev8, BitOr, Shl, Pow2;
    var lo, hi := code % 256, code / 256;
    ByteReversed(lo as bv8);
    ByteReversed(hi as bv8);
    ByteOf(lo);
    ByteOf(hi);
    Joined(hi, lo);
    Joined(BitRev8(lo as bv8) as nat, BitRev8(hi as bv8) as nat);
    Shl8(hi);
  }

  // Low bit first, the reversed code reads as the code does high bit first.
  lemma BitReverseBits(code: nat, n: nat)
    requires n <= 16 && code < 0x10000
    ensures BitReverse(code, n) < Pow2(n)
    ensures BitsOf(BitReverse(code, n), n) == Msb(code, n)
  {
    hide BitsOf, Msb, Reverse16, Shr, Pow2;
    Reverse16Bits(code);
    BitsSplit(Reverse16(code), 16 - n, n);
    MsbSuffix(code, 16 - n, n);
    ShrBound(Reverse16(code), 16 - n, n);
  }

  // ---- set_huff_codes ----

  // The entry stores the canonical code of symbol i, low bit first to be written high bit first.
  ghost predicate StoresCode(h: HuffCode, lengths: seq<nat>, i: nat)
    requires i < |lengths|
  {
    && h.length == lengths[i]
    && (lengths[i] > 0 ==> h.code < Pow2(lengths[i]) && BitsOf(h.code, lengths[i]) == CodeBits(lengths, i))
  }

  function Lengths(t: seq<HuffCode>): (l: seq<nat>)
    ensures |l| == |t| && forall i :: 0 <= i < |t| ==> l[i] == t[i].length
  {
    seq(|t|, i requires 0 <= i < |t| => t[i].length)
  }

  lemma CodeStored(lengths: seq<nat>, i: nat)
    requires Fits(lengths) && i < |lengths| && lengths[i] != 0
    ensures CodeOf(lengths, i) < 0x8000
    ensures BitReverse(CodeOf(lengths, i), lengths[i]) < Pow2(lengths[i])
    ensures BitsOf(BitReverse(CodeOf(lengths, i), lengths[i]), lengths[i]) == CodeBits(lengths, i)
  {
    hide BitReverse, BitsOf, Msb, CodeOf, Kraft;
    CodeBound(lengths, i);
    CodesFit15(lengths[i]);
    BitReverseBits(CodeOf(lengths, i), lengths[i]);
  }

  lemma CodesFit15(n: nat)
    requires n <= 15
    ensures Pow2(n) <= 0x8000
  {
    match n
    case 0 => case 1 => case 2 => case 3 => case 4 => case 5 => case 6 => case 7 =>
    case 8 => case 9 => case 10 => case 11 => case 12 => case 13 => case 14 => case 15 =>
  }

  // next_code before any symbol
  method FirstCodes(count: array<nat>, ghost lengths: seq<nat>, ghost top: nat) returns (nextCode: array<nat>)
    requires count.Length > MAX_HUFF_TREE_DEPTH >= top && count[0] == 0
    requires forall l :: 1 <= l <= top ==> count[l] == Count(lengths, l)
    ensures fresh(nextCode) && nextCode.Length == MAX_HUFF_TREE_DEPTH + 1
    ensures forall l :: 1 <= l <= top ==> nextCode[l] == FirstCode(Counts(lengths), l)
  {
    hide Count, FirstCode;
    nextCode := new nat[MAX_HUFF_TREE_DEPTH + 1](_ => 0);
    for i := 1 to MAX_HUFF_TREE_DEPTH + 1
      invariant forall l :: 1 <= l < i && l <= top ==> nextCode[l] == FirstCode(Counts(lengths), l)
      invariant nextCode[0] == 0
    {
      NextFirst(Counts(lengths), i);
      nextCode[i] := 2 * (nextCode[i - 1] + count[i - 1]);
    }
  }

  lemma NextFirst(c: nat -> nat, i: nat)
    requires i >= 1
    ensures FirstCode(c, i) == if i == 1 then 0 else 2 * (FirstCode(c, i - 1) + c(i - 1))
  {
  }

  // The largest used symbol below n, or 0.
  function LastUsed(lengths: seq<nat>, n: nat): nat
    requires n <= |lengths|
  {
    if n == 0 then 0 else if lengths[n - 1] != 0 then n - 1 else LastUsed(lengths, n - 1)
  }

  // What becomes of an entry: its code is stored, and in a distance table its extra bit count.
  ghost predicate Assigned(h: HuffCode, before: HuffCode, lengths: seq<nat>, i: nat, dist: bool)
    requires i < |lengths|
  {
    && StoresCode(h, lengths, i)
    && h.extraBitCount == (if dist && lengths[i] != 0 then DistanceExtraBits(i) else before.extraBitCount)
  }

  // next_code after the symbols below i, for the lengths up to top that are in use
  ghost predicate NextCodes(nextCode: seq<nat>, lengths: seq<nat>, i: nat, top: nat)
    requires i <= |lengths|
  {
    && |nextCode| == MAX_HUFF_TREE_DEPTH + 1 && top <= MAX_HUFF_TREE_DEPTH
    && (forall k :: 0 <= k < |lengths| ==> lengths[k] <= top)
    && forall l :: 1 <= l <= top ==>
         nextCode[l] == FirstCode(Counts(lengths), l) + Count(lengths[..i], l)
  }

  lemma NextCodeIs(nextCode: seq<nat>, lengths: seq<nat>, i: nat, top: nat)
    requires i < |lengths| && NextCodes(nextCode, lengths, i, top) && Fits(lengths)
    ensures lengths[i] <= MAX_HUFF_TREE_DEPTH
    ensures lengths[i] != 0 ==> nextCode[lengths[i]] == CodeOf(lengths, i)
    ensures NextCodes(if lengths[i] == 0 then nextCode else nextCode[lengths[i] := nextCode[lengths[i]] + 1],
                      lengths, i + 1, top)
  {
    hide Count, FirstCode, Kraft;
    CountNext(lengths, i);
  }

  lemma NextCodesShape(nextCode: seq<nat>, lengths: seq<nat>, i: nat, top: nat)
    requires i < |lengths| && NextCodes(nextCode, lengths, i, top) && Fits(lengths)
    ensures |nextCode| == 16 && lengths[i] <= 15
  {
  }

  lemma LastUsedNone(lengths: seq<nat>)
    ensures LastUsed(lengths, 0) == 0
  {
  }

  lemma LastUsedNext(lengths: seq<nat>, n: nat)
    requires n < |lengths|
    ensures LastUsed(lengths, n + 1) == if lengths[n] != 0 then n else LastUsed(lengths, n)
  {
  }

  // one turn of the loop over the symbols
  method AssignOne(table: array<HuffCode>, q: nat, nextCode: array<nat>, ghost lengths: seq<nat>, i: nat,
                   dist: bool, ghost top: nat)
    requires q < table.Length && i < |lengths| && table[q].length == lengths[i] && Fits(lengths)
    requires NextCodes(nextCode[..], lengths, i, top)
    modifies table, nextCode
    ensures Assigned(table[q], old(table[q]), lengths, i, dist)
    ensures forall p :: 0 <= p < table.Length && p != q ==> table[p] == old(table[p])
    ensures NextCodes(nextCode[..], lengths, i + 1, top)
  {
    hide *;
    var h := table[q];
    ghost var codes := nextCode[..];
    NextCodeIs(codes, lengths, i, top);
    NextCodesShape(codes, lengths, i, top);
    if h.length != 0 {
      CodeStored(lengths, i);
      var code := BitReverse(nextCode[h.length], h.length);
      table[q] := HuffCode(code, if dist then DistanceExtraBits(i) else h.extraBitCount, h.length);
      Increment(nextCode, h.length);
    }
    EntryAssigned(table[q], h, lengths, i, dist);
  }

  // set_huff_codes and set_dist_huff_codes for the table at table[off]; the latter also
  // sets the extra bit counts of the distance symbols. Counts above the longest length, top,
  // may be anything.
  method SetHuffCodes(table: array<HuffCode>, off: nat, tableLength: nat, count: array<nat>, dist: bool,
                      ghost top: nat) returns (maxCode: nat)
    requires off + tableLength <= table.Length
    requires count.Length > MAX_HUFF_TREE_DEPTH >= top && count[0] == 0
    requires Fits(Lengths(table[off..off + tableLength]))
    requires forall q :: off <= q < off + tableLength ==> table[q].length <= top
    requires forall l :: 1 <= l <= top ==> count[l] == Count(Lengths(table[off..off + tableLength]), l)
    modifies table
    ensures Lengths(table[off..off + tableLength]) == old(Lengths(table[off..off + tableLength]))
    ensures forall q :: off <= q < off + tableLength ==>
              Assigned(table[q], old(table[q]), old(Lengths(table[off..off + tableLength])), q - off, dist)
    ensures forall q :: 0 <= q < table.Length && !(off <= q < off + tableLength) ==> table[q] == old(table[q])
    ensures maxCode == LastUsed(old(Lengths(table[off..off + tableLength])), tableLength)
  {
    hide *;
    ghost var lengths := Lengths(table[off..off + tableLength]);
    var nextCode := FirstCodes(count, lengths, top);
    FirstCodesAreNext(nextCode[..], lengths, top);
    maxCode := 0;
    LastUsedNone(lengths);
    for i := 0 to tableLength
      invariant forall q :: off <= q < off + i ==> Assigned(table[q], old(table[q]), lengths, q - off, dist)
      invariant forall q :: 0 <= q < table.Length && !(off <= q < off + i) ==> table[q] == old(table[q])
      invariant NextCodes(nextCode[..], lengths, i, top) && maxCode == LastUsed(lengths, i)
    {
      LastUsedNext(lengths, i);
      assert table[off + i] == old(table[off..off + tableLength])[i];
      if table[off + i].length != 0 {
        maxCode := i;
      }
      AssignOne(table, off + i, nextCode, lengths, i, dist, top);
    }
    forall q | off <= q < off + tableLength ensures table[q].length == lengths[q - off] {
      AssignedLength(table[q], old(table[q]), lengths, q - off, dist);
    }
    SameLengths(table[off..off + tableLength], lengths);
  }

  lemma FirstCodesAreNext(nextCode: seq<nat>, lengths: seq<nat>, top: nat)
    requires |nextCode| == MAX_HUFF_TREE_DEPTH + 1 && top <= MAX_HUFF_TREE_DEPTH
    requires forall k :: 0 <= k < |lengths| ==> lengths[k] <= top
    requires forall l :: 1 <= l <= top ==> nextCode[l] == FirstCode(Counts(lengths), l)
    ensures NextCodes(nextCode, lengths, 0, top)
  {
    hide FirstCode;
    assert lengths[..0] == [];
  }

  lemma EntryAssigned(h: HuffCode, before: HuffCode, lengths: seq<nat>, i: nat, dist: bool)
    requires i < |lengths| && before.length == lengths[i] && Fits(lengths)
    requires lengths[i] == 0 ==> h == before
    requires lengths[i] != 0 ==>
      CodeOf(lengths, i) < 0x10000 && lengths[i] <= 16
      && h == HuffCode(BitReverse(CodeOf(lengths, i), lengths[i]),
                       if dist then DistanceExtraBits(i) else before.extraBitCount, lengths[i])
    ensures Assigned(h, before, lengths, i, dist)
  {
    hide BitReverse, Fits, CodeOf, CodeBits;
    if lengths[i] != 0 {
      CodeStored(lengths, i);
    }
  }

  lemma AssignedLength(h: HuffCode, before: HuffCode, lengths: seq<nat>, i: nat, dist: bool)
    requires i < |lengths| && Assigned(h, before, lengths, i, dist)
    ensures h.length == lengths[i]
  {
  }

  lemma SameLengths(t: seq<HuffCode>, lengths: seq<nat>)
    requires |t| == |lengths| && forall i :: 0 <= i < |t| ==> t[i].length == lengths[i]
    ensures Lengths(t) == lengths
  {
  }

  lemma EmptyCounts()
    ensures forall l :: Count([], l) == 0
  {
  }

  lemma CountNext(lengths: seq<nat>, i: nat)
    requires i < |lengths|
    ensures forall l :: Count(lengths[..i + 1], l) == Count(lengths[..i], l) + (if lengths[i] == l then 1 else 0)
  {
    assert lengths[..i + 1][..i] == lengths[..i];
  }

  lemma LengthFits(lengths: seq<nat>, i: nat)
    requires Fits(lengths) && i < |lengths|
    ensures lengths[i] <= MAX_HUFF_TREE_DEPTH
  {
  }
}
