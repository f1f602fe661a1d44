/** The 64-bit cyclic redundancy checks. */
module Crc {
  import opened CrcSteps
  import opened CrcTables

  // ---- eight steps, as a run of single ones and in machine operations ----

  lemma ReflShiftIs(poly: bv64, rem: bv64)
    ensures ReflShift(poly, rem) == ReflStep(poly, rem)
  {
  }

  lemma DoubledXor(poly: bv64, rem: bv64, d: bv64)
    requires d == Double(rem)
    ensures Xor(d, poly) == (rem << 1) ^ poly
  {
  }

  lemma TopIs(rem: bv64)
    ensures Top(rem) <==> rem & 0x8000000000000000 != 0
  {
  }

  lemma NormShiftIs(poly: bv64, rem: bv64)
    ensures NormShift(poly, rem) == NormStep(poly, rem)
  {
    DoubledXor(poly, rem, Double(rem));
    TopIs(rem);
    hide Xor, Double, Top;
  }

  lemma ReflEight(poly: bv64, rem: bv64)
    ensures ReflShifts(poly, rem) == ReflSteps(poly, rem, 8)
  {
    hide ReflShift, ReflStep, NormShift, NormStep;
    forall n: nat | n < 8 ensures ReflSteps(poly, rem, n + 1) == ReflShift(poly, ReflSteps(poly, rem, n)) {
      ReflShiftIs(poly, ReflSteps(poly, rem, n));
    }
    assert ReflSteps(poly, rem, 0) == rem;
    assert ReflSteps(poly, rem, 1) == ReflShift(poly, ReflSteps(poly, rem, 0));
    assert ReflSteps(poly, rem, 2) == ReflShift(poly, ReflSteps(poly, rem, 1));
    assert ReflSteps(poly, rem, 3) == ReflShift(poly, ReflSteps(poly, rem, 2));
    assert ReflSteps(poly, rem, 4) == ReflShift(poly, ReflSteps(poly, rem, 3));
    assert ReflSteps(poly, rem, 5) == ReflShift(poly, ReflSteps(poly, rem, 4));
    assert ReflSteps(poly, rem, 6) == ReflShift(poly, ReflSteps(poly, rem, 5));
    assert ReflSteps(poly, rem, 7) == ReflShift(poly, ReflSteps(poly, rem, 6));
    assert ReflSteps(poly, rem, 8) == ReflShift(poly, ReflSteps(poly, rem, 7));
  }

  lemma NormEight(poly: bv64, rem: bv64)
    ensures NormShifts(poly, rem) == NormSteps(poly, rem, 8)
  {
    hide ReflShift, ReflStep, NormShift, NormStep;
    forall n: nat | n < 8 ensures NormSteps(poly, rem, n + 1) == NormShift(poly, NormSteps(poly, rem, n)) {
      NormShiftIs(poly, NormSteps(poly, rem, n));
    }
    assert NormSteps(poly, rem, 0) == rem;
    assert NormSteps(poly, rem, 1) == NormShift(poly, NormSteps(poly, rem, 0));
    assert NormSteps(poly, rem, 2) == NormShift(poly, NormSteps(poly, rem, 1));
    assert NormSteps(poly, rem, 3) == NormShift(poly, NormSteps(poly, rem, 2));
    assert NormSteps(poly, rem, 4) == NormShift(poly, NormSteps(poly, rem, 3));
    assert NormSteps(poly, rem, 5) == NormShift(poly, NormSteps(poly, rem, 4));
    assert NormSteps(poly, rem, 6) == NormShift(poly, NormSteps(poly, rem, 5));
    assert NormSteps(poly, rem, 7) == NormShift(poly, NormSteps(poly, rem, 6));
    assert NormSteps(poly, rem, 8) == NormShift(poly, NormSteps(poly, rem, 7));
  }

  // ---- the definition of a remainder ----

  // Every byte enters at the low end, then eight steps.
  function ReflRem(poly: bv64, rem: bv64, buf: seq<bv8>): bv64 {
    if buf == [] then rem
    else
      var before := ReflRem(poly, rem, buf[..|buf| - 1]);
      ReflSteps(poly, Xor(before, buf[|buf| - 1] as bv64), 8)
  }

  // Every byte enters at the high end.
  function NormRem(poly: bv64, rem: bv64, buf: seq<bv8>): bv64 {
    if buf == [] then rem
    else
      var before := NormRem(poly, rem, buf[..|buf| - 1]);
      NormSteps(poly, Xor(before, buf[|buf| - 1] as bv64 << 56), 8)
  }

  lemma RemNext(poly: bv64, rem: bv64, buf: seq<bv8>, i: nat)
    requires i < |buf|
    ensures ReflRem(poly, rem, buf[..i + 1])
         == ReflSteps(poly, Xor(ReflRem(poly, rem, buf[..i]), buf[i] as bv64), 8)
    ensures NormRem(poly, rem, buf[..i + 1])
         == NormSteps(poly, Xor(NormRem(poly, rem, buf[..i]), buf[i] as bv64 << 56), 8)
  {
    hide Xor, ReflSteps, NormSteps;
    assert buf[..i + 1][..i] == buf[..i];
  }

  // Fed in two pieces, a buffer leaves the remainder of the whole.
  lemma {:induction false} RemInTwoPieces(poly: bv64, rem: bv64, s: seq<bv8>, t: seq<bv8>)
    ensures ReflRem(poly, rem, s + t) == ReflRem(poly, ReflRem(poly, rem, s), t)
    ensures NormRem(poly, rem, s + t) == NormRem(poly, NormRem(poly, rem, s), t)
    decreases |t|
  {
    hide Xor, ReflSteps, NormSteps;
    if t == [] {
      assert s + t == s;
    } else {
      RemInTwoPieces(poly, rem, s, t[..|t| - 1]);
      assert (s + t)[..|s + t| - 1] == s + t[..|t| - 1];
    }
  }

  // ---- one byte with a table ----

  // Where a byte meets the register, and what is shifted out of its way.
  lemma ReflByte(crc: bv64, b: bv8)
    ensures Xor(crc, b as bv64) >> 8 == crc >> 8
    ensures Xor(crc, b as bv64) & 0xff == ((crc & 0xff) as bv8 ^ b) as bv64
  {
  }

  lemma NormByte(crc: bv64, b: bv8)
    ensures Xor(crc, b as bv64 << 56) << 8 == crc << 8
    ensures Xor(crc, b as bv64 << 56) & 0xff00000000000000 == ((crc >> 56) as bv8 ^ b) as bv64 << 56
  {
  }

  lemma ReflTableStep(poly: bv64, crc: bv64, b: bv8)
    ensures Xor(crc >> 8, ReflShifts(poly, ((crc & 0xff) as bv8 ^ b) as bv64))
         == ReflSteps(poly, Xor(crc, b as bv64), 8)
  {
    hide Xor, ReflSteps, ReflShifts;
    ReflByte(crc, b);
    ReflSplit(poly, Xor(crc, b as bv64));
    ReflEight(poly, ((crc & 0xff) as bv8 ^ b) as bv64);
  }

  lemma NormTableStep(poly: bv64, crc: bv64, b: bv8)
    ensures Xor(crc << 8, NormShifts(poly, ((crc >> 56) as bv8 ^ b) as bv64 << 56))
         == NormSteps(poly, Xor(crc, b as bv64 << 56), 8)
  {
    hide Xor, NormSteps, NormShifts;
    NormByte(crc, b);
    NormSplit(poly, Xor(crc, b as bv64 << 56));
    NormEight(poly, ((crc >> 56) as bv8 ^ b) as bv64 << 56);
  }

  // ---- the 64-bit checks ----

  datatype Crc64 = Ecma | Iso | Jones

  function ReflPoly(v: Crc64): bv64 {
    match v
    case Ecma => 0xC96C5795D7870F42
    case Iso => 0xD800000000000000
    case Jones => 0x95ac9329ac4bc9b5
  }

  function NormPoly(v: Crc64): bv64 {
    match v
    case Ecma => 0x42F0E1EBA9EA3693
    case Iso => 0x000000000000001B
    case Jones => 0xad93d23594c935a9
  }

  function ReflTable(v: Crc64, x: bv8): bv64 {
    match v
    case Ecma => EcmaReflTable(x)
    case Iso => IsoReflTable(x)
    case Jones => JonesReflTable(x)
  }

  function NormTable(v: Crc64, x: bv8): bv64 {
    match v
    case Ecma => EcmaNormTable(x)
    case Iso => IsoNormTable(x)
    case Jones => JonesNormTable(x)
  }

  lemma TableEntries(v: Crc64, x: bv8)
    ensures ReflTable(v, x) == ReflShifts(ReflPoly(v), x as bv64)
    ensures NormTable(v, x) == NormShifts(NormPoly(v), x as bv64 << 56)
  {
    hide ReflShifts, NormShifts, EcmaReflTable, IsoReflTable, JonesReflTable, EcmaNormTable, IsoNormTable,
      JonesNormTable;
    match v
    case Ecma =>
      EcmaReflSteps(x);
      EcmaNormSteps(x);
    case Iso =>
      IsoReflSteps(x);
      IsoNormSteps(x);
    case Jones =>
      JonesReflSteps(x);
      JonesNormSteps(x);
  }

  // table[(uint8_t) crc ^ byte] ^ (crc >> 8)
  function ReflBaseStep(v: Crc64, crc: bv64, byte: bv8): bv64 {
    Xor(crc >> 8, ReflTable(v, (crc & 0xff) as bv8 ^ byte))
  }

  // table[((crc >> 56) ^ byte) & 0xff] ^ (crc << 8)
  function NormBaseStep(v: Crc64, crc: bv64, byte: bv8): bv64 {
    Xor(crc << 8, NormTable(v, (crc >> 56) as bv8 ^ byte))
  }

  lemma ReflByteStep(v: Crc64, crc: bv64, byte: bv8)
    ensures ReflBaseStep(v, crc, byte) == ReflSteps(ReflPoly(v), Xor(crc, byte as bv64), 8)
  {
    hide Xor, ReflSteps, ReflPoly, ReflTable, ReflShifts, NormTable, NormShifts;
    ReflTableStep(ReflPoly(v), crc, byte);
    TableEntries(v, (crc & 0xff) as bv8 ^ byte);
  }

  lemma NormByteStep(v: Crc64, crc: bv64, byte: bv8)
    ensures NormBaseStep(v, crc, byte) == NormSteps(NormPoly(v), Xor(crc, byte as bv64 << 56), 8)
  {
    hide Xor, NormSteps, NormPoly, ReflTable, ReflShifts, NormTable, NormShifts;
    NormTableStep(NormPoly(v), crc, byte);
    TableEntries(v, (crc >> 56) as bv8 ^ byte);
  }

  lemma NoBytes(poly: bv64, rem: bv64, buf: seq<bv8>)
    requires buf == []
    ensures ReflRem(poly, rem, buf) == rem && NormRem(poly, rem, buf) == rem
  {
  }

  // The check of a buffer, as the definitions give it.
  function Refl64(v: Crc64, seed: bv64, buf: seq<bv8>): bv64 {
    Not(ReflRem(ReflPoly(v), Not(seed), buf))
  }

  function Norm64(v: Crc64, seed: bv64, buf: seq<bv8>): bv64 {
    Not(NormRem(NormPoly(v), Not(seed), buf))
  }

  function Not(x: bv64): bv64 {
    !x
  }

  // crc64_ecma_refl_ref, crc64_iso_refl_ref and crc64_jones_refl_ref
  method Crc64ReflRef(v: Crc64, seed: bv64, buf: seq<bv8>) returns (crc: bv64)
    ensures crc == Refl64(v, seed, buf)
  {
    hide Xor, ReflStep, ReflPoly;
    var rem := Not(seed);
    for i := 0 to |buf|
      invariant rem == ReflRem(ReflPoly(v), Not(seed), buf[..i])
    {
      RemNext(ReflPoly(v), Not(seed), buf, i);
      rem := Xor(rem, buf[i] as bv64);
      ghost var start := rem;
      for j := 0 to 8
        invariant rem == ReflSteps(ReflPoly(v), start, j)
      {
        rem := ReflStep(ReflPoly(v), rem);
      }
    }
    assert buf[..|buf|] == buf;
    return Not(rem);
  }

  // crc64_ecma_refl_base, crc64_iso_refl_base and crc64_jones_refl_base
  method Crc64ReflBase(v: Crc64, seed: bv64, buf: seq<bv8>) returns (crc: bv64)
    ensures crc == Refl64(v, seed, buf)
  {
    hide Xor, ReflSteps, ReflPoly, ReflBaseStep, Not, ReflRem;
    NoBytes(ReflPoly(v), Not(seed), buf[..0]);
    crc := Not(seed);
    for i := 0 to |buf|
      invariant crc == ReflRem(ReflPoly(v), Not(seed), buf[..i])
    {
      RemNext(ReflPoly(v), Not(seed), buf, i);
      ReflByteStep(v, crc, buf[i]);
      crc := ReflBaseStep(v, crc, buf[i]);
    }
    assert buf[..|buf|] == buf;
    return Not(crc);
  }

  // crc64_ecma_norm_ref, crc64_iso_norm_ref and crc64_jones_norm_ref
  method Crc64NormRef(v: Crc64, seed: bv64, buf: seq<bv8>) returns (crc: bv64)
    ensures crc == Norm64(v, seed, buf)
  {
    hide Xor, NormStep, NormPoly;
    var rem := Not(seed);
    for i := 0 to |buf|
      invariant rem == NormRem(NormPoly(v), Not(seed), buf[..i])
    {
      RemNext(NormPoly(v), Not(seed), buf, i);
      rem := Xor(rem, buf[i] as bv64 << 56);
      ghost var start := rem;
      for j := 0 to 8
        invariant rem == NormSteps(NormPoly(v), start, j)
      {
        rem := NormStep(NormPoly(v), rem);
      }
    }
    assert buf[..|buf|] == buf;
    return Not(rem);
  }

  // crc64_ecma_norm_base, crc64_iso_norm_base and crc64_jones_norm_base
  method Crc64NormBase(v: Crc64, seed: bv64, buf: seq<bv8>) returns (crc: bv64)
    ensures crc == Norm64(v, seed, buf)
  {
    hide Xor, NormSteps, NormPoly, NormBaseStep, Not, NormRem;
    NoBytes(NormPoly(v), Not(seed), buf[..0]);
    crc := Not(seed);
    for i := 0 to |buf|
      invariant crc == NormRem(NormPoly(v), Not(seed), buf[..i])
    {
      RemNext(NormPoly(v), Not(seed), buf, i);
      NormByteStep(v, crc, buf[i]);
      crc := NormBaseStep(v, crc, buf[i]);
    }
    assert buf[..|buf|] == buf;
    return Not(crc);
  }

  lemma NotNot(x: bv64)
    ensures Not(Not(x)) == x
  {
  }

  // A buffer may be fed in two pieces, the second seeded with the check of the first.
  lemma Crc64InTwoPieces(v: Crc64, seed: bv64, s: seq<bv8>, t: seq<bv8>)
    ensures Refl64(v, Refl64(v, seed, s), t) == Refl64(v, seed, s + t)
    ensures Norm64(v, Norm64(v, seed, s), t) == Norm64(v, seed, s + t)
  {
    hide ReflRem, NormRem, ReflPoly, NormPoly, Not;
    NotNot(ReflRem(ReflPoly(v), Not(seed), s));
    NotNot(NormRem(NormPoly(v), Not(seed), s));
    RemInTwoPieces(ReflPoly(v), Not(seed), s, t);
    RemInTwoPieces(NormPoly(v), Not(seed), s, t);
  }
}
