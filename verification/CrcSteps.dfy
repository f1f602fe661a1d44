/** The shift registers of the cyclic redundancy checks, bit by bit and byte by byte: steps of a
    word are those of its parts. */
module CrcSteps {

  function Xor(a: bv64, b: bv64): bv64 {
    a ^ b
  }

  function Half(a: bv64): bv64 {
    a >> 1
  }

  function Odd(a: bv64): bool {
    a & 1 == 1
  }

  function Double(a: bv64): bv64 {
    a << 1
  }

  function Top(a: bv64): bool {
    a & 0x8000000000000000 != 0
  }

  // One turn of the inner loops of the bit-by-bit definitions, reflected and normal.
  function ReflStep(poly: bv64, rem: bv64): bv64 {
    if Odd(rem) then Xor(Half(rem), poly) else Half(rem)
  }

  function NormStep(poly: bv64, rem: bv64): bv64 {
    if Top(rem) then Xor(Double(rem), poly) else Double(rem)
  }

  function ReflSteps(poly: bv64, rem: bv64, n: nat): bv64 {
    if n == 0 then rem else ReflStep(poly, ReflSteps(poly, rem, n - 1))
  }

  function NormSteps(poly: bv64, rem: bv64, n: nat): bv64 {
    if n == 0 then rem else NormStep(poly, NormSteps(poly, rem, n - 1))
  }

  // ---- laws of the operations ----

  lemma NativeShr(a: bv64, b: bv64, c: bv64)
    requires c == a ^ b
    ensures c >> 1 == (a >> 1) ^ (b >> 1)
  {
  }

  lemma XorHalf(a: bv64, b: bv64)
    ensures Half(Xor(a, b)) == Xor(Half(a), Half(b))
  {
    NativeShr(a, b, Xor(a, b));
  }

  lemma XorOdd(a: bv64, b: bv64)
    ensures Odd(Xor(a, b)) <==> Odd(a) != Odd(b)
  {
  }

  lemma NativeAssoc(a: bv64, b: bv64, c: bv64, ab: bv64, bc: bv64)
    requires ab == a ^ b && bc == b ^ c
    ensures ab ^ c == a ^ bc
  {
  }

  lemma XorIs(a: bv64, b: bv64)
    ensures Xor(a, b) == a ^ b
  {
  }

  lemma XorAssoc(a: bv64, b: bv64, c: bv64)
    ensures Xor(Xor(a, b), c) == Xor(a, Xor(b, c))
  {
    hide Xor;
    XorIs(a, b);
    XorIs(b, c);
    XorIs(Xor(a, b), c);
    XorIs(a, Xor(b, c));
    NativeAssoc(a, b, c, Xor(a, b), Xor(b, c));
  }

  // A register whose low bit is clear only moves.
  lemma StepEven(poly: bv64, h: bv64, l: bv64)
    requires !Odd(h)
    ensures ReflStep(poly, Xor(h, l)) == Xor(Half(h), ReflStep(poly, l))
  {
    hide Xor, Half, Odd;
    XorOdd(h, l);
    XorHalf(h, l);
    XorAssoc(Half(h), Half(l), poly);
  }

  function Halves(a: bv64, n: nat): bv64 {
    if n == 0 then a else Half(Halves(a, n - 1))
  }

  lemma {:induction false} StepsEven(poly: bv64, h: bv64, l: bv64, n: nat)
    requires forall i :: 0 <= i < n ==> !Odd(Halves(h, i))
    ensures ReflSteps(poly, Xor(h, l), n) == Xor(Halves(h, n), ReflSteps(poly, l, n))
  {
    hide Xor, Half, Odd;
    if n > 0 {
      StepsEven(poly, h, l, n - 1);
      StepEven(poly, Halves(h, n - 1), ReflSteps(poly, l, n - 1));
    }
  }

  lemma LowParts(x: bv64)
    ensures x == Xor(x & 0xffffffffffffff00, x & 0xff)
  {
  }

  lemma HalfShifts(h: bv64)
    ensures Half(h) == h >> 1 && Half(h >> 1) == h >> 2 && Half(h >> 2) == h >> 3 && Half(h >> 3) == h >> 4
    ensures Half(h >> 4) == h >> 5 && Half(h >> 5) == h >> 6 && Half(h >> 6) == h >> 7 && Half(h >> 7) == h >> 8
  {
  }

  lemma HalvesShift(h: bv64)
    ensures Halves(h, 0) == h && Halves(h, 1) == h >> 1 && Halves(h, 2) == h >> 2 && Halves(h, 3) == h >> 3
    ensures Halves(h, 4) == h >> 4 && Halves(h, 5) == h >> 5 && Halves(h, 6) == h >> 6
    ensures Halves(h, 7) == h >> 7 && Halves(h, 8) == h >> 8
  {
    hide Half;
    HalfShifts(h);
    assert Halves(h, 1) == Half(Halves(h, 0));
    assert Halves(h, 2) == Half(Halves(h, 1));
    assert Halves(h, 3) == Half(Halves(h, 2));
    assert Halves(h, 4) == Half(Halves(h, 3));
    assert Halves(h, 5) == Half(Halves(h, 4));
    assert Halves(h, 6) == Half(Halves(h, 5));
    assert Halves(h, 7) == Half(Halves(h, 6));
    assert Halves(h, 8) == Half(Halves(h, 7));
  }

  lemma EvenHigh(x: bv64, h: bv64)
    requires h == x & 0xffffffffffffff00
    ensures h & 1 == 0 && (h >> 1) & 1 == 0 && (h >> 2) & 1 == 0 && (h >> 3) & 1 == 0
    ensures (h >> 4) & 1 == 0 && (h >> 5) & 1 == 0 && (h >> 6) & 1 == 0 && (h >> 7) & 1 == 0
    ensures h >> 8 == x >> 8
  {
  }

  lemma ReflSplit(poly: bv64, x: bv64)
    ensures ReflSteps(poly, x, 8) == Xor(x >> 8, ReflSteps(poly, x & 0xff, 8))
  {
    var h := x & 0xffffffffffffff00;
    LowParts(x);
    EvenHigh(x, h);
    HalvesShift(h);
    hide Xor, Half, ReflSteps, Halves;
    assert forall i :: 0 <= i < 8 ==> !Odd(Halves(h, i));
    StepsEven(poly, h, x & 0xff, 8);
  }

  // ---- the same, for the normal register ----

  lemma NativeShl(a: bv64, b: bv64, c: bv64)
    requires c == a ^ b
    ensures c << 1 == (a << 1) ^ (b << 1)
  {
  }

  lemma XorDouble(a: bv64, b: bv64)
    ensures Double(Xor(a, b)) == Xor(Double(a), Double(b))
  {
    NativeShl(a, b, Xor(a, b));
  }

  lemma XorTop(a: bv64, b: bv64)
    ensures Top(Xor(a, b)) <==> Top(a) != Top(b)
  {
  }

  // A register whose high bit is clear only moves.
  lemma StepLow(poly: bv64, h: bv64, l: bv64)
    requires !Top(h)
    ensures NormStep(poly, Xor(h, l)) == Xor(Double(h), NormStep(poly, l))
  {
    hide Xor, Double, Top;
    XorTop(h, l);
    XorDouble(h, l);
    XorAssoc(Double(h), Double(l), poly);
  }

  function Doubles(a: bv64, n: nat): bv64 {
    if n == 0 then a else Double(Doubles(a, n - 1))
  }

  lemma {:induction false} StepsLow(poly: bv64, h: bv64, l: bv64, n: nat)
    requires forall i :: 0 <= i < n ==> !Top(Doubles(h, i))
    ensures NormSteps(poly, Xor(h, l), n) == Xor(Doubles(h, n), NormSteps(poly, l, n))
  {
    hide Xor, Double, Top;
    if n > 0 {
      StepsLow(poly, h, l, n - 1);
      StepLow(poly, Doubles(h, n - 1), NormSteps(poly, l, n - 1));
    }
  }

  lemma HighParts(x: bv64)
    ensures x == Xor(x & 0x00ffffffffffffff, x & 0xff00000000000000)
  {
  }

  lemma DoubleShifts(h: bv64)
    ensures Double(h) == h << 1 && Double(h << 1) == h << 2 && Double(h << 2) == h << 3 && Double(h << 3) == h << 4
    ensures Double(h << 4) == h << 5 && Double(h << 5) == h << 6 && Double(h << 6) == h << 7 && Double(h << 7) == h << 8
  {
  }

  lemma DoublesShift(h: bv64)
    ensures Doubles(h, 0) == h && Doubles(h, 1) == h << 1 && Doubles(h, 2) == h << 2 && Doubles(h, 3) == h << 3
    ensures Doubles(h, 4) == h << 4 && Doubles(h, 5) == h << 5 && Doubles(h, 6) == h << 6
    ensures Doubles(h, 7) == h << 7 && Doubles(h, 8) == h << 8
  {
    hide Double;
    DoubleShifts(h);
    assert Doubles(h, 1) == Double(Doubles(h, 0));
    assert Doubles(h, 2) == Double(Doubles(h, 1));
    assert Doubles(h, 3) == Double(Doubles(h, 2));
    assert Doubles(h, 4) == Double(Doubles(h, 3));
    assert Doubles(h, 5) == Double(Doubles(h, 4));
    assert Doubles(h, 6) == Double(Doubles(h, 5));
    assert Doubles(h, 7) == Double(Doubles(h, 6));
    assert Doubles(h, 8) == Double(Doubles(h, 7));
  }

  lemma LowBits(x: bv64, h: bv64)
    requires h == x & 0x00ffffffffffffff
    ensures h & 0x8000000000000000 == 0 && (h << 1) & 0x8000000000000000 == 0 && (h << 2) & 0x8000000000000000 == 0 && (h << 3) & 0x8000000000000000 == 0
    ensures (h << 4) & 0x8000000000000000 == 0 && (h << 5) & 0x8000000000000000 == 0 && (h << 6) & 0x8000000000000000 == 0 && (h << 7) & 0x8000000000000000 == 0
    ensures h << 8 == x << 8
  {
  }

  lemma NormSplit(poly: bv64, x: bv64)
    ensures NormSteps(poly, x, 8) == Xor(x << 8, NormSteps(poly, x & 0xff00000000000000, 8))
  {
    var h := x & 0x00ffffffffffffff;
    HighParts(x);
    LowBits(x, h);
    DoublesShift(h);
    hide Xor, Double, NormSteps, Doubles;
    assert forall i :: 0 <= i < 8 ==> !Top(Doubles(h, i));
    StepsLow(poly, h, x & 0xff00000000000000, 8);
  }
}
