/** Buffers with their own check. */
module CrcResidue {
  import opened CrcSteps
  import opened CrcTables
  import opened Crc
  import opened CrcNarrow

  // ---- the bytes of a check ----

  function LowFirst64(c: bv64): seq<bv8> {
    [(c & 0xff) as bv8, ((c >> 8) & 0xff) as bv8, ((c >> 16) & 0xff) as bv8, ((c >> 24) & 0xff) as bv8,
     ((c >> 32) & 0xff) as bv8, ((c >> 40) & 0xff) as bv8, ((c >> 48) & 0xff) as bv8, ((c >> 56) & 0xff) as bv8]
  }

  function HighFirst64(c: bv64): seq<bv8> {
    [((c >> 56) & 0xff) as bv8, ((c >> 48) & 0xff) as bv8, ((c >> 40) & 0xff) as bv8, ((c >> 32) & 0xff) as bv8,
     ((c >> 24) & 0xff) as bv8, ((c >> 16) & 0xff) as bv8, ((c >> 8) & 0xff) as bv8, (c & 0xff) as bv8]
  }

  function LowFirst32(c: bv32): seq<bv8> {
    [(c & 0xff) as bv8, ((c >> 8) & 0xff) as bv8, ((c >> 16) & 0xff) as bv8, ((c >> 24) & 0xff) as bv8]
  }

  function HighFirst32(c: bv32): seq<bv8> {
    [((c >> 24) & 0xff) as bv8, ((c >> 16) & 0xff) as bv8, ((c >> 8) & 0xff) as bv8, (c & 0xff) as bv8]
  }

  function HighFirst16(c: bv16): seq<bv8> {
    [((c >> 8) & 0xff) as bv8, (c & 0xff) as bv8]
  }

  // ---- a word fed byte by byte ----

  function LowByte(w: bv64): bv8 {
    (w & 0xff) as bv8
  }

  function HighByte(w: bv64): bv8 {
    ((w >> 56) & 0xff) as bv8
  }

  function Down(w: bv64): bv64 {
    w >> 8
  }

  function Up(w: bv64): bv64 {
    w << 8
  }

  // n times eight steps
  function ReflTurns(poly: bv64, x: bv64, n: nat): bv64
    decreases n
  {
    if n == 0 then x else ReflTurns(poly, ReflShifts(poly, x), n - 1)
  }

  function NormTurns(poly: bv64, x: bv64, n: nat): bv64
    decreases n
  {
    if n == 0 then x else NormTurns(poly, NormShifts(poly, x), n - 1)
  }

  // The n lowest bytes of a word, lowest first, and what is above them.
  function LowBytes(w: bv64, n: nat): seq<bv8>
    decreases n
  {
    if n == 0 then [] else [LowByte(w)] + LowBytes(Down(w), n - 1)
  }

  function Above(w: bv64, n: nat): bv64
    decreases n
  {
    if n == 0 then w else Above(Down(w), n - 1)
  }

  function HighBytes(w: bv64, n: nat): seq<bv8>
    decreases n
  {
    if n == 0 then [] else [HighByte(w)] + HighBytes(Up(w), n - 1)
  }

  function Below(w: bv64, n: nat): bv64
    decreases n
  {
    if n == 0 then w else Below(Up(w), n - 1)
  }

  lemma XorComm(a: bv64, b: bv64)
    ensures Xor(a, b) == Xor(b, a)
  {
  }

  // High part first or low part first, a word is the xor of both.
  lemma Parts(w: bv64)
    ensures w == Xor(w & 0xffffffffffffff00, LowByte(w) as bv64)
    ensures w == Xor(w & 0x00ffffffffffffff, HighByte(w) as bv64 << 56)
  {
  }

  lemma Moved(r: bv64, h: bv64, l: bv64)
    ensures Xor(h, Xor(r, l)) == Xor(r, Xor(h, l))
  {
    hide Xor;
    XorAssoc(h, r, l);
    XorComm(h, r);
    XorAssoc(r, h, l);
  }

  // The bytes above the lowest meet the register when that is through.
  lemma ReflByteIn(poly: bv64, r: bv64, w: bv64)
    ensures Xor(ReflSteps(poly, Xor(r, LowByte(w) as bv64), 8), Down(w)) == ReflSteps(poly, Xor(r, w), 8)
  {
    var h, l := w & 0xffffffffffffff00, LowByte(w) as bv64;
    Parts(w);
    EvenHigh(w, h);
    HalvesShift(h);
    hide Xor, Half, ReflSteps, Halves, LowByte;
    assert forall i :: 0 <= i < 8 ==> !Odd(Halves(h, i));
    Moved(r, h, l);
    StepsEven(poly, h, Xor(r, l), 8);
    XorComm(Halves(h, 8), ReflSteps(poly, Xor(r, l), 8));
  }

  lemma NormByteIn(poly: bv64, r: bv64, w: bv64)
    ensures Xor(NormSteps(poly, Xor(r, HighByte(w) as bv64 << 56), 8), Up(w)) == NormSteps(poly, Xor(r, w), 8)
  {
    var l, h := w & 0x00ffffffffffffff, HighByte(w) as bv64 << 56;
    Parts(w);
    LowBits(w, l);
    DoublesShift(l);
    hide Xor, Double, NormSteps, Doubles, HighByte;
    assert forall i :: 0 <= i < 8 ==> !Top(Doubles(l, i));
    Moved(r, l, h);
    StepsLow(poly, l, Xor(r, h), 8);
    XorComm(Doubles(l, 8), NormSteps(poly, Xor(r, h), 8));
  }

  lemma OneByte(poly: bv64, rem: bv64, b: bv8)
    ensures ReflRem(poly, rem, [b]) == ReflSteps(poly, Xor(rem, b as bv64), 8)
    ensures NormRem(poly, rem, [b]) == NormSteps(poly, Xor(rem, b as bv64 << 56), 8)
  {
    hide Xor, ReflSteps, NormSteps;
    assert [b][..0] == [];
  }

  // All bytes of a word take the register to what the word in it would become.
  lemma {:induction false} ReflFed(poly: bv64, r: bv64, w: bv64, n: nat)
    ensures Xor(ReflRem(poly, r, LowBytes(w, n)), Above(w, n)) == ReflTurns(poly, Xor(r, w), n)
    decreases n
  {
    hide Xor, ReflSteps, ReflShifts, LowByte, Down, ReflRem;
    if n == 0 {
      NoBytes(poly, r, []);
    } else {
      var b := LowByte(w);
      var r' := ReflSteps(poly, Xor(r, b as bv64), 8);
      OneByte(poly, r, b);
      RemInTwoPieces(poly, r, [b], LowBytes(Down(w), n - 1));
      ReflFed(poly, r', Down(w), n - 1);
      ReflByteIn(poly, r, w);
      ReflEight(poly, Xor(r, w));
    }
  }

  lemma {:induction false} NormFed(poly: bv64, r: bv64, w: bv64, n: nat)
    ensures Xor(NormRem(poly, r, HighBytes(w, n)), Below(w, n)) == NormTurns(poly, Xor(r, w), n)
    decreases n
  {
    hide Xor, NormSteps, NormShifts, HighByte, Up, NormRem;
    if n == 0 {
      NoBytes(poly, r, []);
    } else {
      var b := HighByte(w);
      var r' := NormSteps(poly, Xor(r, b as bv64 << 56), 8);
      OneByte(poly, r, b);
      RemInTwoPieces(poly, r, [b], HighBytes(Up(w), n - 1));
      NormFed(poly, r', Up(w), n - 1);
      NormByteIn(poly, r, w);
      NormEight(poly, Xor(r, w));
    }
  }

  lemma XorZero(x: bv64)
    ensures Xor(x, 0) == x
  {
  }

  // A buffer and then a word: what the word makes of the register.
  lemma ReflThenWord(poly: bv64, start: bv64, buf: seq<bv8>, w: bv64, n: nat)
    requires Above(w, n) == 0
    ensures ReflRem(poly, start, buf + LowBytes(w, n)) == ReflTurns(poly, Xor(ReflRem(poly, start, buf), w), n)
  {
    hide Xor, ReflRem, ReflTurns, LowBytes, Above;
    var r := ReflRem(poly, start, buf);
    RemInTwoPieces(poly, start, buf, LowBytes(w, n));
    ReflFed(poly, r, w, n);
    XorZero(ReflRem(poly, r, LowBytes(w, n)));
  }

  lemma NormThenWord(poly: bv64, start: bv64, buf: seq<bv8>, w: bv64, n: nat)
    requires Below(w, n) == 0
    ensures NormRem(poly, start, buf + HighBytes(w, n)) == NormTurns(poly, Xor(NormRem(poly, start, buf), w), n)
  {
    hide Xor, NormRem, NormTurns, HighBytes, Below;
    var r := NormRem(poly, start, buf);
    RemInTwoPieces(poly, start, buf, HighBytes(w, n));
    NormFed(poly, r, w, n);
    XorZero(NormRem(poly, r, HighBytes(w, n)));
  }

  // ---- the bytes of a check are those of a word ----

  lemma FourDown(w: bv64)
    ensures Above(w, 4) == w >> 32
    ensures LowBytes(w, 4) == [LowByte(w), LowByte(w >> 8), LowByte(w >> 16), LowByte(w >> 24)]
  {
  }

  lemma FourUp(w: bv64)
    ensures Below(w, 4) == w << 32
    ensures HighBytes(w, 4) == [HighByte(w), HighByte(w << 8), HighByte(w << 16), HighByte(w << 24)]
  {
  }

  lemma {:induction false} LowBytesOn(w: bv64, m: nat, n: nat)
    ensures LowBytes(w, m + n) == LowBytes(w, m) + LowBytes(Above(w, m), n)
    ensures Above(w, m + n) == Above(Above(w, m), n)
    decreases m
  {
    hide LowByte, Down;
    if m == 0 {
      assert [] + LowBytes(w, n) == LowBytes(w, n);
    } else {
      LowBytesOn(Down(w), m - 1, n);
      assert m + n - 1 == (m - 1) + n;
      Joined(LowByte(w), LowBytes(Down(w), m - 1), LowBytes(Above(Down(w), m - 1), n));
    }
  }

  lemma {:induction false} HighBytesOn(w: bv64, m: nat, n: nat)
    ensures HighBytes(w, m + n) == HighBytes(w, m) + HighBytes(Below(w, m), n)
    ensures Below(w, m + n) == Below(Below(w, m), n)
    decreases m
  {
    hide HighByte, Up;
    if m == 0 {
      assert [] + HighBytes(w, n) == HighBytes(w, n);
    } else {
      HighBytesOn(Up(w), m - 1, n);
      assert m + n - 1 == (m - 1) + n;
      Joined(HighByte(w), HighBytes(Up(w), m - 1), HighBytes(Below(Up(w), m - 1), n));
    }
  }

  lemma Joined(b: bv8, s: seq<bv8>, t: seq<bv8>)
    ensures [b] + (s + t) == [b] + s + t
  {
  }

  lemma LowFirstIs(c: bv64, d: bv64)
    requires d == c >> 32
    ensures LowFirst64(c) == [LowByte(c), LowByte(c >> 8), LowByte(c >> 16), LowByte(c >> 24),
                              LowByte(d), LowByte(d >> 8), LowByte(d >> 16), LowByte(d >> 24)]
  {
  }

  lemma Low64Bytes(c: bv64)
    ensures Above(c, 8) == 0 && LowBytes(c, 8) == LowFirst64(c)
  {
    hide LowBytes, Above, LowByte, LowFirst64;
    var d := c >> 32;
    LowBytesOn(c, 4, 4);
    FourDown(c);
    FourDown(d);
    LowFirstIs(c, d);
    Halved(LowByte(c), LowByte(c >> 8), LowByte(c >> 16), LowByte(c >> 24),
           LowByte(d), LowByte(d >> 8), LowByte(d >> 16), LowByte(d >> 24));
  }

  lemma High64At(c: bv64)
    ensures HighByte(c) == ((c >> 56) & 0xff) as bv8 && HighByte(c << 8) == ((c >> 48) & 0xff) as bv8
    ensures HighByte(c << 16) == ((c >> 40) & 0xff) as bv8 && HighByte(c << 24) == ((c >> 32) & 0xff) as bv8
  {
  }

  lemma LowerHalfUp(c: bv64, d: bv64)
    requires d == c << 32
    ensures d << 32 == 0 && HighByte(d) == ((c >> 24) & 0xff) as bv8 && HighByte(d << 8) == ((c >> 16) & 0xff) as bv8
    ensures HighByte(d << 16) == ((c >> 8) & 0xff) as bv8 && HighByte(d << 24) == (c & 0xff) as bv8
  {
  }

  lemma HighFirstIs(c: bv64, d: bv64)
    requires d == c << 32
    ensures HighFirst64(c) == [HighByte(c), HighByte(c << 8), HighByte(c << 16), HighByte(c << 24),
                               HighByte(d), HighByte(d << 8), HighByte(d << 16), HighByte(d << 24)]
  {
    High64At(c);
    LowerHalfUp(c, d);
    hide HighByte;
  }

  lemma High64Bytes(c: bv64)
    ensures Below(c, 8) == 0 && HighBytes(c, 8) == HighFirst64(c)
  {
    hide HighBytes, Below, HighByte, HighFirst64;
    var d := c << 32;
    HighBytesOn(c, 4, 4);
    FourUp(c);
    FourUp(d);
    LowerHalfUp(c, d);
    HighFirstIs(c, d);
    Halved(HighByte(c), HighByte(c << 8), HighByte(c << 16), HighByte(c << 24),
           HighByte(d), HighByte(d << 8), HighByte(d << 16), HighByte(d << 24));
  }

  lemma Halved(a: bv8, b: bv8, c: bv8, d: bv8, e: bv8, f: bv8, g: bv8, h: bv8)
    ensures [a, b, c, d] + [e, f, g, h] == [a, b, c, d, e, f, g, h]
  {
  }

  lemma Low32At(c: bv32, w: bv64)
    requires w == Wide(c)
    ensures w >> 32 == 0 && LowByte(w) == (c & 0xff) as bv8 && LowByte(w >> 8) == ((c >> 8) & 0xff) as bv8
    ensures LowByte(w >> 16) == ((c >> 16) & 0xff) as bv8 && LowByte(w >> 24) == ((c >> 24) & 0xff) as bv8
  {
  }

  lemma High32At(c: bv32, w: bv64)
    requires w == Raise32(c)
    ensures w << 32 == 0 && HighByte(w) == ((c >> 24) & 0xff) as bv8 && HighByte(w << 8) == ((c >> 16) & 0xff) as bv8
    ensures HighByte(w << 16) == ((c >> 8) & 0xff) as bv8 && HighByte(w << 24) == (c & 0xff) as bv8
  {
  }

  lemma Low32Bytes(c: bv32)
    ensures Above(Wide(c), 4) == 0 && LowBytes(Wide(c), 4) == LowFirst32(c)
  {
    hide LowBytes, Above, LowByte, Wide;
    FourDown(Wide(c));
    Low32At(c, Wide(c));
  }

  lemma High32Bytes(c: bv32)
    ensures Below(Raise32(c), 4) == 0 && HighBytes(Raise32(c), 4) == HighFirst32(c)
  {
    hide HighBytes, Below, HighByte, Raise32;
    FourUp(Raise32(c));
    High32At(c, Raise32(c));
  }

  lemma Word16Bytes(c: bv16)
    ensures Below(Raise16(c), 2) == 0 && HighBytes(Raise16(c), 2) == HighFirst16(c)
  {
  }

  // ---- residues ----

  lemma NotAll(x: bv64)
    ensures Xor(x, Not(x)) == 0xffffffffffffffff
  {
  }

  lemma EcmaReflTurns()
    ensures Not(ReflTurns(ReflPoly(Ecma), 0xffffffffffffffff, 8)) == 0xB66A73654282CAC0
  {
  }

  lemma IsoReflTurns()
    ensures Not(ReflTurns(ReflPoly(Iso), 0xffffffffffffffff, 8)) == 0xACFFFFFFFFFFFFFF
  {
  }

  lemma JonesReflTurns()
    ensures Not(ReflTurns(ReflPoly(Jones), 0xffffffffffffffff, 8)) == 0x0EC3E23D8F57B2E5
  {
  }

  lemma EcmaNormTurns()
    ensures Not(NormTurns(NormPoly(Ecma), 0xffffffffffffffff, 8)) == 0x03534142A6CE566D
  {
  }

  lemma IsoNormTurns()
    ensures Not(NormTurns(NormPoly(Iso), 0xffffffffffffffff, 8)) == 0xFFFFFFFFFFFFFF35
  {
  }

  lemma JonesNormTurns()
    ensures Not(NormTurns(NormPoly(Jones), 0xffffffffffffffff, 8)) == 0xA74DEAF1BC47C370
  {
  }

  // crc64_*_refl: the check is stored low byte first.
  lemma Refl64Residue(v: Crc64, seed: bv64, buf: seq<bv8>)
    ensures Refl64(v, seed, buf + LowFirst64(Refl64(v, seed, buf)))
         == match v case Ecma => 0xB66A73654282CAC0 case Iso => 0xACFFFFFFFFFFFFFF case Jones => 0x0EC3E23D8F57B2E5
  {
    hide ReflRem, ReflTurns, ReflPoly, Xor, LowFirst64, LowBytes, Above, Not;
    var r := ReflRem(ReflPoly(v), Not(seed), buf);
    Low64Bytes(Not(r));
    ReflThenWord(ReflPoly(v), Not(seed), buf, Not(r), 8);
    NotAll(r);
    match v
    case Ecma => EcmaReflTurns();
    case Iso => IsoReflTurns();
    case Jones => JonesReflTurns();
  }

  // crc64_*_norm: the check is stored high byte first.
  lemma Norm64Residue(v: Crc64, seed: bv64, buf: seq<bv8>)
    ensures Norm64(v, seed, buf + HighFirst64(Norm64(v, seed, buf)))
         == match v case Ecma => 0x03534142A6CE566D case Iso => 0xFFFFFFFFFFFFFF35 case Jones => 0xA74DEAF1BC47C370
  {
    hide NormRem, NormTurns, NormPoly, Xor, HighFirst64, HighBytes, Below, Not;
    var r := NormRem(NormPoly(v), Not(seed), buf);
    High64Bytes(Not(r));
    NormThenWord(NormPoly(v), Not(seed), buf, Not(r), 8);
    NotAll(r);
    match v
    case Ecma => EcmaNormTurns();
    case Iso => IsoNormTurns();
    case Jones => JonesNormTurns();
  }

  lemma WideNot(r: bv32)
    ensures Wide(!r) == Wide(r) ^ 0xffffffff
  {
  }

  lemma XorSelf(x: bv64, mask: bv64)
    ensures Xor(x, x ^ mask) == mask && Xor(x, x) == 0
  {
  }

  // The register against the check that it gives.
  lemma EndsAll(v: Crc32, r: bv32)
    ensures Xor(Wide(r), Wide(Ends(v, r))) == match v case Gzip => 0xffffffff case Iscsi => 0
  {
    WideNot(r);
    XorSelf(Wide(r), 0xffffffff);
    hide Xor, Wide;
  }

  lemma Refl32Turns(v: Crc32)
    ensures Ends(v, Low32(ReflTurns(Poly32(v), match v case Gzip => 0xffffffff case Iscsi => 0, 4)))
         == match v case Gzip => 0x2144DF1C case Iscsi => 0
  {
    match v
    case Gzip =>
      assert ReflTurns(Poly32(Gzip), 0xffffffff, 4) == 0xDEBB20E3;
    case Iscsi =>
      assert ReflTurns(Poly32(Iscsi), 0, 4) == 0;
  }

  // crc32_gzip_refl and crc32_iscsi: low byte first.
  lemma Refl32Residue(v: Crc32, seed: bv32, buf: seq<bv8>)
    ensures Refl32(v, seed, buf + LowFirst32(Refl32(v, seed, buf)))
         == match v case Gzip => 0x2144DF1C case Iscsi => 0
  {
    hide ReflRem, ReflTurns, Poly32, Xor, LowFirst32, LowBytes, Above, Ends, Wide, Low32;
    var r := ReflRemNarrow(v, Ends(v, seed), buf);
    LowOfWide(r);
    var c := Ends(v, r);
    Low32Bytes(c);
    ReflThenWord(Poly32(v), Wide(Ends(v, seed)), buf, Wide(c), 4);
    EndsAll(v, r);
    Refl32Turns(v);
  }

  lemma Ends16All(r: bv16)
    ensures Xor(Raise16(r), Raise16(Ends16(r))) == 0
  {
  }

  lemma Norm16Turns()
    ensures Ends16(Lower16(NormTurns(T10_POLY, 0, 2))) == 0
  {
  }

  // crc16_t10dif: high byte first.
  lemma T10DifResidue(seed: bv16, buf: seq<bv8>)
    ensures Norm16(seed, buf + HighFirst16(Norm16(seed, buf))) == 0
  {
    hide NormRem, NormTurns, Xor, HighFirst16, HighBytes, Below, Ends16, Raise16, Lower16;
    var r := NormRemNarrow16(Ends16(seed), buf);
    LowerOfRaised16(r);
    var c := Ends16(r);
    Word16Bytes(c);
    NormThenWord(T10_POLY, Raise16(Ends16(seed)), buf, Raise16(c), 2);
    Ends16All(r);
    Norm16Turns();
  }

  lemma Ends32All(r: bv32)
    ensures Xor(Raise32(r), Raise32(Ends32(r))) == 0xffffffff00000000
  {
  }

  lemma Norm32Turns()
    ensures Ends32(Lower32(NormTurns(IEEE_POLY, 0xffffffff00000000, 4))) == 0x38FB2284
  {
    assert NormTurns(IEEE_POLY, 0xffffffff00000000, 4) == 0xC704DD7B00000000;
  }

  // crc32_ieee: high byte first.
  lemma IeeeNormResidue(seed: bv32, buf: seq<bv8>)
    ensures Norm32(seed, buf + HighFirst32(Norm32(seed, buf))) == 0x38FB2284
  {
    hide NormRem, NormTurns, Xor, HighFirst32, HighBytes, Below, Ends32, Raise32, Lower32;
    var r := NormRemNarrow32(Ends32(seed), buf);
    LowerOfRaised32(r);
    var c := Ends32(r);
    High32Bytes(c);
    NormThenWord(IEEE_POLY, Raise32(Ends32(seed)), buf, Raise32(c), 4);
    Ends32All(r);
    Norm32Turns();
  }

  // ---- one check value each, of the byte 0x61 from seed 0 ----

  lemma Refl64Value(v: Crc64)
    ensures Refl64(v, 0, [0x61])
         == match v case Ecma => 0x330284772E652B05 case Iso => 0x3420000000000000 case Jones => 0x89048445B4CBFC3C
  {
    OneByte(ReflPoly(v), Not(0), 0x61);
    ReflEight(ReflPoly(v), Xor(Not(0), 0x61));
    hide ReflRem, ReflSteps;
  }

  lemma Norm64Value(v: Crc64)
    ensures Norm64(v, 0, [0x61])
         == match v case Ecma => 0xCE73F427ACC0A99A case Iso => 0x0000000000000C4D case Jones => 0x0757B1DDB1E2C96E
  {
    OneByte(NormPoly(v), Not(0), 0x61);
    NormEight(NormPoly(v), Xor(Not(0), 0x61 << 56));
    hide NormRem, NormSteps;
  }

  lemma Refl32Value(v: Crc32)
    ensures Refl32(v, 0, [0x61]) == match v case Gzip => 0xE8B7BE43 case Iscsi => 0x93AD1061
  {
    var start := Wide(Ends(v, 0));
    OneByte(Poly32(v), start, 0x61);
    ReflEight(Poly32(v), Xor(start, 0x61));
    hide ReflRem, ReflSteps;
  }

  lemma T10DifValue()
    ensures Norm16(0, [0x61]) == 0xFAAE
  {
    OneByte(T10_POLY, Raise16(Ends16(0)), 0x61);
    NormEight(T10_POLY, Xor(Raise16(Ends16(0)), 0x61 << 56));
    hide NormRem, NormSteps;
  }

  lemma IeeeNormValue()
    ensures Norm32(0, [0x61]) == 0x19939B6B
  {
    OneByte(IEEE_POLY, Raise32(Ends32(0)), 0x61);
    NormEight(IEEE_POLY, Xor(Raise32(Ends32(0)), 0x61 << 56));
    hide NormRem, NormSteps;
  }
}
