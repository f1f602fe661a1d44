/** The checks of 16 and 32 bits: table loops against the bit loops of the test reference. */
module CrcNarrow {
  import opened CrcSteps
  import opened CrcTables
  import opened Crc

  // ---- reflected, 32 bits: the low half ----

  datatype Crc32 = Gzip | Iscsi

  function Poly32(v: Crc32): bv64 {
    match v
    case Gzip => 0xEDB88320
    case Iscsi => 0x82F63B78
  }

  function Table32(v: Crc32, x: bv8): bv32 {
    match v
    case Gzip => GzipReflTable(x)
    case Iscsi => IscsiReflTable(x)
  }

  // The gzip check complements its seed and its result, the iSCSI check does not.
  function Ends(v: Crc32, x: bv32): bv32 {
    if v == Gzip then !x else x
  }

  function Low32(rem: bv64): bv32 {
    (rem & 0xffffffff) as bv32
  }

  // The check of a buffer, as the definitions give it.
  function Refl32(v: Crc32, seed: bv32, buf: seq<bv8>): bv32 {
    Ends(v, Low32(ReflRem(Poly32(v), Wide(Ends(v, seed)), buf)))
  }

  function Wide(x: bv32): bv64 {
    x as bv64
  }

  function Byte64(x: bv8): bv64 {
    x as bv64
  }

  lemma Table32Entries(v: Crc32, x: bv8)
    ensures Wide(Table32(v, x)) == ReflShifts(Poly32(v), Byte64(x))
  {
    hide ReflShifts, GzipReflTable, IscsiReflTable;
    match v
    case Gzip => GzipReflSteps(x);
    case Iscsi => IscsiReflSteps(x);
  }

  // (crc & 0xff) ^ byte, on either register
  function Index32(crc: bv32, byte: bv8): bv8 {
    (crc & 0xff) as bv8 ^ byte
  }

  function Index64(crc: bv64, byte: bv8): bv8 {
    (crc & 0xff) as bv8 ^ byte
  }

  // (crc >> 8) ^ entry, on either register
  function Next32(crc: bv32, entry: bv32): bv32 {
    (crc >> 8) ^ entry
  }

  function Next64(crc: bv64, entry: bv64): bv64 {
    Xor(crc >> 8, entry)
  }

  // table[(crc & 0xff) ^ byte] ^ (crc >> 8)
  function Refl32Step(v: Crc32, crc: bv32, byte: bv8): bv32 {
    Next32(crc, Table32(v, Index32(crc, byte)))
  }

  lemma SameIndex(crc: bv32, byte: bv8)
    ensures Index32(crc, byte) == Index64(Wide(crc), byte)
  {
  }

  lemma SameNext(crc: bv32, entry: bv32)
    ensures Wide(Next32(crc, entry)) == Next64(Wide(crc), Wide(entry))
  {
  }

  lemma LowOfWide(crc: bv32)
    ensures Low32(Wide(crc)) == crc
  {
  }

  lemma TableStep64(poly: bv64, crc: bv64, byte: bv8)
    ensures Next64(crc, ReflShifts(poly, Byte64(Index64(crc, byte)))) == ReflSteps(poly, Xor(crc, Byte64(byte)), 8)
  {
    ReflTableStep(poly, crc, byte);
    hide Xor, ReflSteps, ReflShifts;
  }

  lemma Refl32ByteStep(v: Crc32, crc: bv32, byte: bv8)
    ensures Wide(Refl32Step(v, crc, byte)) == ReflSteps(Poly32(v), Xor(Wide(crc), Byte64(byte)), 8)
  {
    hide Xor, ReflSteps, Poly32, Table32, ReflShifts, Wide, Byte64, Index32, Index64, Next32, Next64;
    var x := Index32(crc, byte);
    SameIndex(crc, byte);
    SameNext(crc, Table32(v, x));
    Table32Entries(v, x);
    TableStep64(Poly32(v), Wide(crc), byte);
  }

  lemma RemNext32(poly: bv64, rem: bv64, buf: seq<bv8>, i: nat)
    requires i < |buf|
    ensures ReflRem(poly, rem, buf[..i + 1])
         == ReflSteps(poly, Xor(ReflRem(poly, rem, buf[..i]), Byte64(buf[i])), 8)
  {
    RemNext(poly, rem, buf, i);
    hide Xor, ReflSteps, ReflRem;
  }

  // crc32_gzip_refl_ref and crc32_iscsi_ref
  method Crc32ReflRef(v: Crc32, seed: bv32, buf: seq<bv8>) returns (crc: bv32)
    ensures crc == Refl32(v, seed, buf)
  {
    hide Xor, ReflStep, Poly32, Low32, Ends, Wide, Byte64;
    var rem := Wide(Ends(v, seed));
    for i := 0 to |buf|
      invariant rem == ReflRem(Poly32(v), Wide(Ends(v, seed)), buf[..i])
    {
      RemNext32(Poly32(v), Wide(Ends(v, seed)), buf, i);
      rem := Xor(rem, Byte64(buf[i]));
      ghost var start := rem;
      for j := 0 to 8
        invariant rem == ReflSteps(Poly32(v), start, j)
      {
        rem := ReflStep(Poly32(v), rem);
      }
    }
    assert buf[..|buf|] == buf;
    return Ends(v, Low32(rem));
  }

  // crc32_gzip_refl_base and crc32_iscsi_base
  method Crc32ReflBase(v: Crc32, seed: bv32, buf: seq<bv8>) returns (crc: bv32)
    ensures crc == Refl32(v, seed, buf)
  {
    hide Xor, ReflSteps, Poly32, Low32, Ends, Refl32Step, ReflRem, Wide, Byte64;
    crc := Ends(v, seed);
    NoBytes(Poly32(v), Wide(crc), buf[..0]);
    for i := 0 to |buf|
      invariant Wide(crc) == ReflRem(Poly32(v), Wide(Ends(v, seed)), buf[..i])
    {
      RemNext32(Poly32(v), Wide(Ends(v, seed)), buf, i);
      Refl32ByteStep(v, crc, buf[i]);
      crc := Refl32Step(v, crc, buf[i]);
    }
    assert buf[..|buf|] == buf;
    LowOfWide(crc);
    return Ends(v, crc);
  }

  // ---- normal, 16 and 32 bits: the high end ----

  function Raise8(x: bv8): bv64 {
    x as bv64 << 56
  }

  function HighIndex64(crc: bv64, byte: bv8): bv8 {
    (crc >> 56) as bv8 ^ byte
  }

  function HighNext64(crc: bv64, entry: bv64): bv64 {
    Xor(crc << 8, entry)
  }

  lemma HighTableStep64(poly: bv64, crc: bv64, byte: bv8)
    ensures HighNext64(crc, NormShifts(poly, Raise8(HighIndex64(crc, byte)))) == NormSteps(poly, Xor(crc, Raise8(byte)), 8)
  {
    NormTableStep(poly, crc, byte);
    hide Xor, NormSteps, NormShifts;
  }

  lemma RemNextHigh(poly: bv64, rem: bv64, buf: seq<bv8>, i: nat)
    requires i < |buf|
    ensures NormRem(poly, rem, buf[..i + 1])
         == NormSteps(poly, Xor(NormRem(poly, rem, buf[..i]), Raise8(buf[i])), 8)
  {
    RemNext(poly, rem, buf, i);
    hide Xor, NormSteps, NormRem;
  }

  // ---- T10 ----

  const T10_POLY: bv64 := 0x8bb7000000000000

  function Raise16(x: bv16): bv64 {
    x as bv64 << 48
  }

  function Lower16(x: bv64): bv16 {
    (x >> 48) as bv16
  }

  // The part of a wide remainder that still counts, in place.
  function Lift16(rem: bv64): bv64 {
    rem << 48
  }

  function Ends16(x: bv16): bv16 {
    x
  }

  // The check of a buffer, as the definition gives it.
  function Norm16(seed: bv16, buf: seq<bv8>): bv16 {
    Ends16(Lower16(NormRem(T10_POLY, Raise16(Ends16(seed)), buf)))
  }

  function Index16High(crc: bv16, byte: bv8): bv8 {
    (crc >> 8) as bv8 ^ byte
  }

  function Next16High(crc: bv16, entry: bv16): bv16 {
    (crc << 8) ^ entry
  }

  // (crc << 8) ^ table[((crc >> 8) ^ byte) & 0xff]
  function Norm16Step(crc: bv16, byte: bv8): bv16 {
    Next16High(crc, T10DifTable(Index16High(crc, byte)))
  }

  lemma T10DifEntries(x: bv8)
    ensures Raise16(T10DifTable(x)) == NormShifts(T10_POLY, Raise8(x))
  {
    hide NormShifts, T10DifTable;
    T10DifSteps(x);
  }

  lemma SameIndex16(crc: bv16, byte: bv8)
    ensures Index16High(crc, byte) == HighIndex64(Raise16(crc), byte)
  {
  }

  lemma SameNext16(crc: bv16, entry: bv16)
    ensures Raise16(Next16High(crc, entry)) == HighNext64(Raise16(crc), Raise16(entry))
  {
  }

  lemma LowerOfRaised16(crc: bv16)
    ensures Lower16(Raise16(crc)) == crc
  {
  }

  lemma Norm16ByteStep(crc: bv16, byte: bv8)
    ensures Raise16(Norm16Step(crc, byte)) == NormSteps(T10_POLY, Xor(Raise16(crc), Raise8(byte)), 8)
  {
    hide Xor, NormSteps, T10DifTable, NormShifts, Raise16, Raise8, Index16High, HighIndex64, Next16High, HighNext64;
    var x := Index16High(crc, byte);
    SameIndex16(crc, byte);
    SameNext16(crc, T10DifTable(x));
    T10DifEntries(x);
    HighTableStep64(T10_POLY, Raise16(crc), byte);
  }

  // One turn of the definition's inner loop, on a remainder wider than the check.
  function Wide16Step(rem: bv64): bv64 {
    if Carry16(rem) then Reduced16(rem) else Double(rem)
  }

  function Carry16(rem: bv64): bool {
    (rem << 1) & 0x10000 != 0
  }

  function Reduced16(rem: bv64): bv64 {
    (rem << 1) ^ 0x8bb7
  }

  // (uint64_t) byte << 8
  function Enter16(rem: bv64, byte: bv8): bv64 {
    rem ^ (byte as bv64 << 8)
  }

  lemma LiftedCarry16(rem: bv64)
    ensures Carry16(rem) <==> Top(Lift16(rem))
  {
  }

  lemma DoubledLift16(rem: bv64)
    ensures Double(Lift16(rem)) == rem << 49
  {
  }

  lemma LiftedDoubled16(rem: bv64)
    ensures Lift16(Double(rem)) == rem << 49
  {
  }

  lemma LiftedDouble16(rem: bv64)
    ensures Lift16(Double(rem)) == Double(Lift16(rem))
  {
    hide Lift16, Double;
    DoubledLift16(rem);
    LiftedDoubled16(rem);
  }

  lemma ReducedLift16(rem: bv64)
    ensures Lift16(Reduced16(rem)) == (rem << 49) ^ 0x8bb7000000000000
  {
  }

  lemma XorPoly16(rem: bv64, d: bv64)
    requires d == rem << 49
    ensures Xor(d, T10_POLY) == (rem << 49) ^ 0x8bb7000000000000
  {
  }

  lemma LiftedReduced16(rem: bv64)
    ensures Lift16(Reduced16(rem)) == Xor(Double(Lift16(rem)), T10_POLY)
  {
    hide Lift16, Double, Xor, Reduced16;
    DoubledLift16(rem);
    ReducedLift16(rem);
    XorPoly16(rem, Double(Lift16(rem)));
  }

  lemma LiftedStep16(rem: bv64)
    ensures Lift16(Wide16Step(rem)) == NormStep(T10_POLY, Lift16(rem))
  {
    hide Top, Double, Xor, Lift16, Carry16, Reduced16;
    LiftedCarry16(rem);
    LiftedDouble16(rem);
    LiftedReduced16(rem);
  }

  lemma LiftedEnter16(rem: bv64, byte: bv8)
    ensures Lift16(Enter16(rem, byte)) == Xor(Lift16(rem), Raise8(byte))
  {
  }

  lemma LiftedEnds16(x: bv16, rem: bv64)
    ensures Lift16(x as bv64) == Raise16(x)
    ensures (rem & 0xffff) as bv16 == Lower16(Lift16(rem))
  {
  }

  // crc16_t10dif_ref
  method T10DifRef(seed: bv16, buf: seq<bv8>) returns (crc: bv16)
    ensures crc == Norm16(seed, buf)
  {
    hide Xor, NormStep, NormRem, Ends16, Raise16, Raise8, Lower16, Lift16, Wide16Step, Enter16;
    var rem := Ends16(seed) as bv64;
    LiftedEnds16(Ends16(seed), 0);
    NoBytes(T10_POLY, Raise16(Ends16(seed)), buf[..0]);
    for i := 0 to |buf|
      invariant Lift16(rem) == NormRem(T10_POLY, Raise16(Ends16(seed)), buf[..i])
    {
      RemNextHigh(T10_POLY, Raise16(Ends16(seed)), buf, i);
      LiftedEnter16(rem, buf[i]);
      rem := Enter16(rem, buf[i]);
      ghost var start := Lift16(rem);
      for j := 0 to 8
        invariant Lift16(rem) == NormSteps(T10_POLY, start, j)
      {
        LiftedStep16(rem);
        rem := Wide16Step(rem);
      }
    }
    assert buf[..|buf|] == buf;
    LiftedEnds16(0, rem);
    return Ends16((rem & 0xffff) as bv16);
  }

  // crc16_t10dif_base
  method T10DifBase(seed: bv16, buf: seq<bv8>) returns (crc: bv16)
    ensures crc == Norm16(seed, buf)
  {
    hide Xor, NormSteps, NormRem, Ends16, Raise16, Raise8, Lower16, Norm16Step;
    crc := Ends16(seed);
    NoBytes(T10_POLY, Raise16(crc), buf[..0]);
    for i := 0 to |buf|
      invariant Raise16(crc) == NormRem(T10_POLY, Raise16(Ends16(seed)), buf[..i])
    {
      RemNextHigh(T10_POLY, Raise16(Ends16(seed)), buf, i);
      Norm16ByteStep(crc, buf[i]);
      crc := Norm16Step(crc, buf[i]);
    }
    assert buf[..|buf|] == buf;
    LowerOfRaised16(crc);
    return Ends16(crc);
  }

  // crc16_t10dif_copy_base: the checksum of what is copied.
  method T10DifCopyBase(seed: bv16, dst: array<bv8>, src: array<bv8>, len: nat) returns (crc: bv16)
    requires len <= src.Length && len <= dst.Length
    modifies dst
    ensures crc == Norm16(seed, old(src[..len])) && dst[..len] == old(src[..len])
    ensures dst[len..] == old(dst[len..])
  {
    hide Xor, NormSteps, NormRem, Ends16, Raise16, Raise8, Lower16, Norm16Step;
    ghost var buf := src[..len];
    crc := Ends16(seed);
    NoBytes(T10_POLY, Raise16(crc), buf[..0]);
    for i := 0 to len
      invariant Raise16(crc) == NormRem(T10_POLY, Raise16(Ends16(seed)), buf[..i])
      invariant dst[..i] == buf[..i] && dst[len..] == old(dst[len..])
      invariant forall k :: i <= k < len ==> src[k] == buf[k]
    {
      RemNextHigh(T10_POLY, Raise16(Ends16(seed)), buf, i);
      Norm16ByteStep(crc, src[i]);
      crc := Norm16Step(crc, src[i]);
      dst[i] := src[i];
    }
    assert buf[..len] == buf;
    LowerOfRaised16(crc);
    return Ends16(crc);
  }

  // ---- IEEE ----

  const IEEE_POLY: bv64 := 0x04c11db700000000

  function Raise32(x: bv32): bv64 {
    x as bv64 << 32
  }

  function Lower32(x: bv64): bv32 {
    (x >> 32) as bv32
  }

  // The part of a wide remainder that still counts, in place.
  function Lift32(rem: bv64): bv64 {
    rem << 32
  }

  function Ends32(x: bv32): bv32 {
    !x
  }

  // The check of a buffer, as the definition gives it.
  function Norm32(seed: bv32, buf: seq<bv8>): bv32 {
    Ends32(Lower32(NormRem(IEEE_POLY, Raise32(Ends32(seed)), buf)))
  }

  function Index32High(crc: bv32, byte: bv8): bv8 {
    (crc >> 24) as bv8 ^ byte
  }

  function Next32High(crc: bv32, entry: bv32): bv32 {
    (crc << 8) ^ entry
  }

  // (crc << 8) ^ table[((crc >> 24) ^ byte) & 0xff]
  function Norm32Step(crc: bv32, byte: bv8): bv32 {
    Next32High(crc, IeeeNormTable(Index32High(crc, byte)))
  }

  lemma IeeeNormEntries(x: bv8)
    ensures Raise32(IeeeNormTable(x)) == NormShifts(IEEE_POLY, Raise8(x))
  {
    hide NormShifts, IeeeNormTable;
    IeeeNormSteps(x);
  }

  lemma SameIndex32(crc: bv32, byte: bv8)
    ensures Index32High(crc, byte) == HighIndex64(Raise32(crc), byte)
  {
  }

  lemma SameNext32(crc: bv32, entry: bv32)
    ensures Raise32(Next32High(crc, entry)) == HighNext64(Raise32(crc), Raise32(entry))
  {
  }

  lemma LowerOfRaised32(crc: bv32)
    ensures Lower32(Raise32(crc)) == crc
  {
  }

  lemma Norm32ByteStep(crc: bv32, byte: bv8)
    ensures Raise32(Norm32Step(crc, byte)) == NormSteps(IEEE_POLY, Xor(Raise32(crc), Raise8(byte)), 8)
  {
    hide Xor, NormSteps, IeeeNormTable, NormShifts, Raise32, Raise8, Index32High, HighIndex64, Next32High, HighNext64;
    var x := Index32High(crc, byte);
    SameIndex32(crc, byte);
    SameNext32(crc, IeeeNormTable(x));
    IeeeNormEntries(x);
    HighTableStep64(IEEE_POLY, Raise32(crc), byte);
  }

  // One turn of the definition's inner loop, on a remainder wider than the check.
  function Wide32Step(rem: bv64): bv64 {
    if Carry32(rem) then Reduced32(rem) else Double(rem)
  }

  function Carry32(rem: bv64): bool {
    (rem << 1) & 0x100000000 != 0
  }

  function Reduced32(rem: bv64): bv64 {
    (rem << 1) ^ 0x4c11db7
  }

  // (uint64_t) byte << 24
  function Enter32(rem: bv64, byte: bv8): bv64 {
    rem ^ (byte as bv64 << 24)
  }

  lemma LiftedCarry32(rem: bv64)
    ensures Carry32(rem) <==> Top(Lift32(rem))
  {
  }

  lemma DoubledLift32(rem: bv64)
    ensures Double(Lift32(rem)) == rem << 33
  {
  }

  lemma LiftedDoubled32(rem: bv64)
    ensures Lift32(Double(rem)) == rem << 33
  {
  }

  lemma LiftedDouble32(rem: bv64)
    ensures Lift32(Double(rem)) == Double(Lift32(rem))
  {
    hide Lift32, Double;
    DoubledLift32(rem);
    LiftedDoubled32(rem);
  }

  lemma ReducedLift32(rem: bv64)
    ensures Lift32(Reduced32(rem)) == (rem << 33) ^ 0x04c11db700000000
  {
  }

  lemma XorPoly32(rem: bv64, d: bv64)
    requires d == rem << 33
    ensures Xor(d, IEEE_POLY) == (rem << 33) ^ 0x04c11db700000000
  {
  }

  lemma LiftedReduced32(rem: bv64)
    ensures Lift32(Reduced32(rem)) == Xor(Double(Lift32(rem)), IEEE_POLY)
  {
    hide Lift32, Double, Xor, Reduced32;
    DoubledLift32(rem);
    ReducedLift32(rem);
    XorPoly32(rem, Double(Lift32(rem)));
  }

  lemma LiftedStep32(rem: bv64)
    ensures Lift32(Wide32Step(rem)) == NormStep(IEEE_POLY, Lift32(rem))
  {
    hide Top, Double, Xor, Lift32, Carry32, Reduced32;
    LiftedCarry32(rem);
    LiftedDouble32(rem);
    LiftedReduced32(rem);
  }

  lemma LiftedEnter32(rem: bv64, byte: bv8)
    ensures Lift32(Enter32(rem, byte)) == Xor(Lift32(rem), Raise8(byte))
  {
  }

  lemma LiftedEnds32(x: bv32, rem: bv64)
    ensures Lift32(x as bv64) == Raise32(x)
    ensures (rem & 0xffffffff) as bv32 == Lower32(Lift32(rem))
  {
  }

  // crc32_ieee_ref
  method IeeeNormRef(seed: bv32, buf: seq<bv8>) returns (crc: bv32)
    ensures crc == Norm32(seed, buf)
  {
    hide Xor, NormStep, NormRem, Ends32, Raise32, Raise8, Lower32, Lift32, Wide32Step, Enter32;
    var rem := Ends32(seed) as bv64;
    LiftedEnds32(Ends32(seed), 0);
    NoBytes(IEEE_POLY, Raise32(Ends32(seed)), buf[..0]);
    for i := 0 to |buf|
      invariant Lift32(rem) == NormRem(IEEE_POLY, Raise32(Ends32(seed)), buf[..i])
    {
      RemNextHigh(IEEE_POLY, Raise32(Ends32(seed)), buf, i);
      LiftedEnter32(rem, buf[i]);
      rem := Enter32(rem, buf[i]);
      ghost var start := Lift32(rem);
      for j := 0 to 8
        invariant Lift32(rem) == NormSteps(IEEE_POLY, start, j)
      {
        LiftedStep32(rem);
        rem := Wide32Step(rem);
      }
    }
    assert buf[..|buf|] == buf;
    LiftedEnds32(0, rem);
    return Ends32((rem & 0xffffffff) as bv32);
  }

  // crc32_ieee_base
  method IeeeNormBase(seed: bv32, buf: seq<bv8>) returns (crc: bv32)
    ensures crc == Norm32(seed, buf)
  {
    hide Xor, NormSteps, NormRem, Ends32, Raise32, Raise8, Lower32, Norm32Step;
    crc := Ends32(seed);
    NoBytes(IEEE_POLY, Raise32(crc), buf[..0]);
    for i := 0 to |buf|
      invariant Raise32(crc) == NormRem(IEEE_POLY, Raise32(Ends32(seed)), buf[..i])
    {
      RemNextHigh(IEEE_POLY, Raise32(Ends32(seed)), buf, i);
      Norm32ByteStep(crc, buf[i]);
      crc := Norm32Step(crc, buf[i]);
    }
    assert buf[..|buf|] == buf;
    LowerOfRaised32(crc);
    return Ends32(crc);
  }

  // ---- buffers in two pieces ----

  // The remainders of the reflected checks stay within 32 bits, ...
  lemma {:induction false} ReflRemNarrow(v: Crc32, start: bv32, buf: seq<bv8>) returns (r: bv32)
    ensures ReflRem(Poly32(v), Wide(start), buf) == Wide(r)
  {
    hide Xor, ReflSteps, Poly32, Wide, Refl32Step;
    if buf == [] {
      r := start;
    } else {
      var n := |buf| - 1;
      var before := ReflRemNarrow(v, start, buf[..n]);
      r := Refl32Step(v, before, buf[n]);
      Refl32ByteStep(v, before, buf[n]);
      RemNext32(Poly32(v), Wide(start), buf, n);
      assert buf[..n + 1] == buf;
    }
  }

  lemma {:induction false} NormRemNarrow16(start: bv16, buf: seq<bv8>) returns (r: bv16)
    ensures NormRem(T10_POLY, Raise16(start), buf) == Raise16(r)
  {
    hide Xor, NormSteps, Raise16, Raise8, Norm16Step;
    if buf == [] {
      r := start;
    } else {
      var n := |buf| - 1;
      var before := NormRemNarrow16(start, buf[..n]);
      r := Norm16Step(before, buf[n]);
      Norm16ByteStep(before, buf[n]);
      RemNextHigh(T10_POLY, Raise16(start), buf, n);
      assert buf[..n + 1] == buf;
    }
  }

  lemma {:induction false} NormRemNarrow32(start: bv32, buf: seq<bv8>) returns (r: bv32)
    ensures NormRem(IEEE_POLY, Raise32(start), buf) == Raise32(r)
  {
    hide Xor, NormSteps, Raise32, Raise8, Norm32Step;
    if buf == [] {
      r := start;
    } else {
      var n := |buf| - 1;
      var before := NormRemNarrow32(start, buf[..n]);
      r := Norm32Step(before, buf[n]);
      Norm32ByteStep(before, buf[n]);
      RemNextHigh(IEEE_POLY, Raise32(start), buf, n);
      assert buf[..n + 1] == buf;
    }
  }

  // ... so a buffer may be fed in two pieces, the second seeded with the check of the first.
  lemma Refl32InTwoPieces(v: Crc32, seed: bv32, s: seq<bv8>, t: seq<bv8>)
    ensures Refl32(v, Refl32(v, seed, s), t) == Refl32(v, seed, s + t)
  {
    hide ReflRem, Poly32, Low32, Wide, Ends;
    var r := ReflRemNarrow(v, Ends(v, seed), s);
    LowOfWide(r);
    EndsTwice(v, r);
    RemInTwoPieces(Poly32(v), Wide(Ends(v, seed)), s, t);
  }

  lemma EndsTwice(v: Crc32, x: bv32)
    ensures Ends(v, Ends(v, x)) == x
  {
  }

  lemma T10DifInTwoPieces(seed: bv16, s: seq<bv8>, t: seq<bv8>)
    ensures Norm16(Norm16(seed, s), t) == Norm16(seed, s + t)
  {
    hide NormRem, Raise16, Lower16, Ends16;
    var r := NormRemNarrow16(Ends16(seed), s);
    LowerOfRaised16(r);
    EndsTwice16(r);
    RemInTwoPieces(T10_POLY, Raise16(Ends16(seed)), s, t);
  }

  lemma EndsTwice16(x: bv16)
    ensures Ends16(Ends16(x)) == x
  {
  }

  lemma IeeeNormInTwoPieces(seed: bv32, s: seq<bv8>, t: seq<bv8>)
    ensures Norm32(Norm32(seed, s), t) == Norm32(seed, s + t)
  {
    hide NormRem, Raise32, Lower32, Ends32;
    var r := NormRemNarrow32(Ends32(seed), s);
    LowerOfRaised32(r);
    EndsTwice32(r);
    RemInTwoPieces(IEEE_POLY, Raise32(Ends32(seed)), s, t);
  }

  lemma EndsTwice32(x: bv32)
    ensures Ends32(Ends32(x)) == x
  {
  }
}
