/** The product tables of ec_base.c. */
module ProductTables {
  import opened Galois

  // Sixteen entries from off on: c times 0..15.
  predicate IsHalfTable(t: seq<bv8>, off: nat, c: bv8) {
    && off + 16 <= |t|
    && t[off + 0] == Mul(0, c) && t[off + 1] == Mul(1, c) && t[off + 2] == Mul(2, c) && t[off + 3] == Mul(3, c)
    && t[off + 4] == Mul(4, c) && t[off + 5] == Mul(5, c) && t[off + 6] == Mul(6, c) && t[off + 7] == Mul(7, c)
    && t[off + 8] == Mul(8, c) && t[off + 9] == Mul(9, c) && t[off + 10] == Mul(10, c) && t[off + 11] == Mul(11, c)
    && t[off + 12] == Mul(12, c) && t[off + 13] == Mul(13, c) && t[off + 14] == Mul(14, c) && t[off + 15] == Mul(15, c)
  }

  // The table of c at off: c times 0..15, then 16c times 0..15.
  predicate IsProductTable(t: seq<bv8>, off: nat, c: bv8) {
    && off + 32 <= |t|
    && IsHalfTable(t, off, c)
    && IsHalfTable(t, off + 16, Xtime(Xtime(Xtime(Xtime(c)))))
  }

  // Byte b of a 64-bit word in memory, least significant byte first.
  function WordByte(v: bv64, b: bv64): bv8
    requires b < 8
  {
    ((v >> (b << 3)) & 0xff) as bv8
  }

  // *(unsigned long long *)&tbl[off] = v
  method StoreU64(tbl: array<bv8>, off: nat, v: bv64)
    requires off + 8 <= tbl.Length
    modifies tbl
    ensures tbl[off] == WordByte(v, 0) && tbl[off + 1] == WordByte(v, 1)
    ensures tbl[off + 2] == WordByte(v, 2) && tbl[off + 3] == WordByte(v, 3)
    ensures tbl[off + 4] == WordByte(v, 4) && tbl[off + 5] == WordByte(v, 5)
    ensures tbl[off + 6] == WordByte(v, 6) && tbl[off + 7] == WordByte(v, 7)
    ensures forall i :: 0 <= i < tbl.Length && !(off <= i < off + 8) ==> tbl[i] == old(tbl[i])
  {
    hide WordByte;
    tbl[off] := WordByte(v, 0);
    tbl[off + 1] := WordByte(v, 1);
    tbl[off + 2] := WordByte(v, 2);
    tbl[off + 3] := WordByte(v, 3);
    tbl[off + 4] := WordByte(v, 4);
    tbl[off + 5] := WordByte(v, 5);
    tbl[off + 6] := WordByte(v, 6);
    tbl[off + 7] := WordByte(v, 7);
  }

  // c if the given bit of b is set
  function Only(b: bv8, bit: bv8, c: bv8): bv8 {
    if b & bit != 0 then c else 0
  }

  // The four words that spread c over the lanes with bit 0, 1 or 2 set, and over all.
  function V1(c: bv8): bv64 { (c as bv64) * 0x0100010001000100 }
  function V2(c: bv8): bv64 { (c as bv64) * 0x0101000001010000 }
  function V4(c: bv8): bv64 { (c as bv64) * 0x0101010100000000 }
  function V8(c: bv8): bv64 { (c as bv64) * 0x0101010101010101 }
  function Xor(v: bv64, w: bv64): bv64 { v ^ w }

  lemma Lane1(c: bv8, b: bv64)
    requires b < 8
    ensures WordByte(V1(c), b) == if b & 1 != 0 then c else 0
  {
  }

  lemma Lane2(c: bv8, b: bv64)
    requires b < 8
    ensures WordByte(V2(c), b) == if b & 2 != 0 then c else 0
  {
  }

  lemma Lane4(c: bv8, b: bv64)
    requires b < 8
    ensures WordByte(V4(c), b) == if b & 4 != 0 then c else 0
  {
  }

  lemma Lane8(c: bv8, b: bv64)
    requires b < 8
    ensures WordByte(V8(c), b) == c
  {
  }

  lemma LaneBits(b: bv64, c: bv8)
    requires b < 8
    ensures Only(b as bv8, 1, c) == if b & 1 != 0 then c else 0
    ensures Only(b as bv8, 2, c) == if b & 2 != 0 then c else 0
    ensures Only(b as bv8, 4, c) == if b & 4 != 0 then c else 0
  {
  }

  lemma WordByteXor(v: bv64, w: bv64, b: bv64)
    requires b < 8
    ensures WordByte(v ^ w, b) == WordByte(v, b) ^ WordByte(w, b)
  {
  }

  lemma XorLane(v: bv64, w: bv64, b: bv64)
    requires b < 8
    ensures WordByte(Xor(v, w), b) == Add(WordByte(v, b), WordByte(w, b))
  {
    WordByteXor(v, w, b);
    hide WordByte;
  }

  // v1 ^ v2 ^ v4 for the multiples c, 2c and 4c.
  function LowWord(c: bv8, c2: bv8, c4: bv8): bv64 {
    Xor(Xor(V1(c), V2(c2)), V4(c4))
  }

  // One step of the schoolbook product, for any multiplier.
  lemma MulStep(b: bv8, c: bv8)
    ensures Mul(b, c) == Add(Only(b, 1, c), Mul(b >> 1, Xtime(c)))
  {
    hide Mul, Xtime, Add;
    MulUnfold(b, c);
    MulUnfold(0, Xtime(c));
    AddLaws(0, Mul(b >> 1, Xtime(c)));
    AddLaws(Mul(b >> 1, Xtime(c)), 0);
    AddLaws(0, 0);
  }

  lemma ShiftBits(b: bv8, c: bv8)
    ensures Only(b >> 1, 1, c) == Only(b, 2, c)
    ensures Only(b >> 2, 1, c) == Only(b, 4, c)
    ensures Only(b >> 3, 1, c) == Only(b, 8, c)
    ensures (b >> 1) >> 1 == b >> 2 && (b >> 2) >> 1 == b >> 3 && (b >> 3) >> 1 == b >> 4
    ensures b < 16 ==> b >> 4 == 0
  {
  }

  // A product by a four-bit number, bit by bit.
  lemma NibbleProduct(b: bv8, c: bv8)
    requires b < 16
    ensures
      var c2 := Xtime(c);
      var c4 := Xtime(c2);
      var c8 := Xtime(c4);
      Mul(b, c) == Add(Only(b, 8, c8), Add(Add(Only(b, 1, c), Only(b, 2, c2)), Only(b, 4, c4)))
  {
    var c2 := Xtime(c);
    var c4 := Xtime(c2);
    var c8 := Xtime(c4);
    var o1, o2, o4, o8 := Only(b, 1, c), Only(b, 2, c2), Only(b, 4, c4), Only(b, 8, c8);
    ShiftBits(b, c2);
    ShiftBits(b, c4);
    ShiftBits(b, c8);
    hide Mul, Xtime, Add, Only;
    MulStep(b, c);
    MulStep(b >> 1, c2);
    MulStep(b >> 2, c4);
    MulStep(b >> 3, c8);
    MulZero(Xtime(c8));
    AddLaws(o8, 0);
    assert Mul(b, c) == Add(o1, Add(o2, Add(o4, o8)));
    AddAssoc(o2, o4, o8);
    AddAssoc(o1, o2, o4);
    AddAssoc(o1, Add(o2, o4), o8);
    AddLaws(Add(Add(o1, o2), o4), o8);
  }

  lemma LowHalf(b: bv8, c: bv8)
    requires b < 8
    ensures Only(b, 8, c) == 0 && Only(b + 8, 8, c) == c
    ensures Only(b + 8, 1, c) == Only(b, 1, c)
    ensures Only(b + 8, 2, c) == Only(b, 2, c)
    ensures Only(b + 8, 4, c) == Only(b, 4, c)
  {
  }

  // Byte b of the two words of one half table is b, and b + 8, times c.
  lemma WordProduct(c: bv8, b: bv64)
    requires b < 8
    ensures
      var c2 := Xtime(c);
      var c4 := Xtime(c2);
      var c8 := Xtime(c4);
      && WordByte(LowWord(c, c2, c4), b) == Mul(b as bv8, c)
      && WordByte(Xor(V8(c8), LowWord(c, c2, c4)), b) == Mul(b as bv8 + 8, c)
  {
    var c2 := Xtime(c);
    var c4 := Xtime(c2);
    var c8 := Xtime(c4);
    var b8 := b as bv8;
    NibbleProduct(b8, c);
    NibbleProduct(b8 + 8, c);
    LowHalf(b8, c);
    LowHalf(b8, c2);
    LowHalf(b8, c4);
    LowHalf(b8, c8);
    LaneBits(b, c);
    LaneBits(b, c2);
    LaneBits(b, c4);
    Lane1(c, b);
    Lane2(c2, b);
    Lane4(c4, b);
    Lane8(c8, b);
    hide Mul, Xtime, Add, Only, WordByte, Xor, V1, V2, V4, V8;
    XorLane(V1(c), V2(c2), b);
    XorLane(Xor(V1(c), V2(c2)), V4(c4), b);
    XorLane(V8(c8), LowWord(c, c2, c4), b);
    var low := Add(Add(Only(b8, 1, c), Only(b8, 2, c2)), Only(b8, 4, c4));
    AddLaws(0, low);
    AddLaws(low, 0);
  }

  // Sixteen times b, times c, is b times sixteen times c.
  lemma HighNibble(b: bv8, c: bv8)
    requires b < 16
    ensures Mul(b << 4, c) == Mul(b, Xtime(Xtime(Xtime(Xtime(c)))))
  {
    hide Xtime, Mul, Add;
    MulUnfold(b << 4, c);
    MulUnfold(b << 3, Xtime(c));
    MulUnfold(b << 2, Xtime(Xtime(c)));
    MulUnfold(b << 1, Xtime(Xtime(Xtime(c))));
    MulUnfold(b, Xtime(Xtime(Xtime(Xtime(c)))));
  }

  // Two words: c times 0..15.
  method StoreHalf(tbl: array<bv8>, off: nat, c: bv8, c2: bv8, c4: bv8, c8: bv8)
    requires off + 16 <= tbl.Length
    requires c2 == Xtime(c) && c4 == Xtime(c2) && c8 == Xtime(c4)
    modifies tbl
    ensures IsHalfTable(tbl[..], off, c)
    ensures forall i :: 0 <= i < tbl.Length && !(off <= i < off + 16) ==> tbl[i] == old(tbl[i])
  {
    hide Mul, Xtime, WordByte, LowWord, Xor, V8;
    var v4 := LowWord(c, c2, c4);
    StoreU64(tbl, off, v4);
    StoreU64(tbl, off + 8, Xor(V8(c8), v4));
    WordProduct(c, 0);
    WordProduct(c, 1);
    WordProduct(c, 2);
    WordProduct(c, 3);
    WordProduct(c, 4);
    WordProduct(c, 5);
    WordProduct(c, 6);
    WordProduct(c, 7);
  }

  // gf_vect_mul_init, the 64-bit variant, for the table at tbl[off]
  method GfVectMulInit(c: bv8, tbl: array<bv8>, off: nat)
    requires off + 32 <= tbl.Length
    modifies tbl
    ensures IsProductTable(tbl[..], off, c)
    ensures forall i :: 0 <= i < tbl.Length && !(off <= i < off + 32) ==> tbl[i] == old(tbl[i])
  {
    hide Mul, Xtime;
    var c2 := Xtime(c);
    var c4 := Xtime(c2);
    var c8 := Xtime(c4);
    StoreHalf(tbl, off, c, c2, c4, c8);
    var c17 := Xtime(c8);
    var c18 := Xtime(c17);
    var c20 := Xtime(c18);
    var c24 := Xtime(c20);
    StoreHalf(tbl, off + 16, c17, c18, c20, c24);
  }

  lemma HalfTableEntry(t: seq<bv8>, off: nat, c: bv8, b: bv8)
    requires IsHalfTable(t, off, c) && b < 16
    ensures t[off + b as int] == Mul(b, c)
  {
    hide Mul;
    assert b == 0 || b == 1 || b == 2 || b == 3 || b == 4 || b == 5 || b == 6 || b == 7
        || b == 8 || b == 9 || b == 10 || b == 11 || b == 12 || b == 13 || b == 14 || b == 15;
  }

  lemma Nibbles(b: bv8)
    ensures b & 15 < 16 && b >> 4 < 16
    ensures b == Add(b & 15, (b >> 4) << 4)
  {
  }

  // Two lookups multiply any byte by c: what the table is for. Entry 1 is c itself.
  lemma TableProduct(t: seq<bv8>, off: nat, c: bv8, b: bv8)
    requires IsProductTable(t, off, c)
    ensures t[off + 1] == c
    ensures b & 15 < 16 && b >> 4 < 16
    ensures Add(t[off + (b & 15) as int], t[off + 16 + (b >> 4) as int]) == Mul(b, c)
  {
    Nibbles(b);
    MulOne(c);
    assert t[off + 1] == Mul(1, c) == c;
    hide Mul, Xtime, Add, IsHalfTable;
    HalfTableEntry(t, off, c, b & 15);
    HalfTableEntry(t, off + 16, Xtime(Xtime(Xtime(Xtime(c)))), b >> 4);
    HighNibble(b >> 4, c);
    AddMul(b & 15, (b >> 4) << 4, c);
  }
}
