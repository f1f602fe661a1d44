/** The intermediate token format. */
module IcfCodes {
  import opened Rfc1951

  const NULL_DIST_SYM := 30

  // struct deflate_icf
  datatype Icf = Icf(litLen: nat, litDist: nat, distExtra: nat)

  // The position of the most significant bit, counted from 1; 0 for 0.
  function Bsr(val: nat): nat {
    if val == 0 then 0 else 1 + Bsr(val / 2)
  }

  // compute_dist_icf_code and get_dist_icf_code: symbol and extra bits
  function DistIcfCode(dist: nat): (nat, nat)
    requires 1 <= dist <= 32768
  {
    if dist <= 2 then (dist - 1, 0)
    else
      BsrAtLeast(dist - 1);
      var extraBits := Bsr(dist - 1) - 2;
      ((dist - 1) / Pow2(extraBits) + 2 * extraBits, (dist - 1) % Pow2(extraBits))
  }

  // get_len_icf_code
  function LenIcfCode(length: nat): nat {
    length + 254
  }

  // The literal or pair a token stands for.
  function Meaning(t: Icf): Option<Item> {
    if t.litLen < 256 && t.litDist == NULL_DIST_SYM && t.distExtra == 0 then Some(Literal(t.litLen as bv8))
    else if 257 <= t.litLen <= 512 && t.litDist < 30 && t.distExtra < Pow2(DistanceExtraBits(t.litDist)) then
      Some(Pair(t.litLen - 254, DistanceBase(t.litDist) + t.distExtra))
    else None
  }

  lemma BsrAtLeast(v: nat)
    requires v >= 2
    ensures Bsr(v) >= 2
  {
    assert v / 2 >= 1;
  }

  lemma {:induction false} BsrBounds(v: nat)
    requires v >= 1
    ensures Bsr(v) >= 1 && Pow2(Bsr(v) - 1) <= v < 2 * Pow2(Bsr(v) - 1)
  {
    if v > 1 {
      var h := v / 2;
      assert 2 * h <= v <= 2 * h + 1;
      BsrBounds(h);
      assert Bsr(v) == 1 + Bsr(h) && Pow2(Bsr(h)) == 2 * Pow2(Bsr(h) - 1);
    } else {
      assert Bsr(1) == 1 + Bsr(0);
    }
  }

  // The two symbols with e extra bits, e >= 1, start at 2 and 3 times 2^e.
  lemma DistanceTable(e: nat, high: nat)
    requires e <= 13 && 2 <= high <= 3
    ensures DistanceExtraBits(2 * e + high) == e
    ensures DistanceBase(2 * e + high) == high * Pow2(e) + 1
  {
    match e
    case 0 => case 1 => case 2 => case 3 => case 4 => case 5 => case 6 => case 7 =>
    case 8 => case 9 => case 10 => case 11 => case 12 => case 13 =>
  }

  lemma DivMod(v: nat, d: nat)
    requires d > 0 && 2 * d <= v < 4 * d
    ensures 2 <= v / d <= 3 && v == v / d * d + v % d && 0 <= v % d < d
  {
  }

  lemma SmallExponent(e: nat, v: nat)
    requires Pow2(e + 1) <= v < 2 * Pow2(e + 1) && v < 32768
    ensures e <= 13 && 2 * Pow2(e) <= v < 4 * Pow2(e)
  {
    assert Pow2(15) == 32768;
    if e > 13 {
      Pow2Monotone(15, e + 1);
    }
  }

  lemma LongDistance(dist: nat)
    requires 2 < dist <= 32768
    ensures
      var (code, extra) := DistIcfCode(dist);
      && code < 30 && extra < Pow2(DistanceExtraBits(code))
      && DistanceBase(code) + extra == dist
  {
    hide DistanceBase, DistanceExtraBits, Bsr, Pow2;
    var v := dist - 1;
    BsrBounds(v);
    BsrAtLeast(v);
    var e := Bsr(v) - 2;
    SmallExponent(e, v);
    DivMod(v, Pow2(e));
    var high := v / Pow2(e);
    DistanceTable(e, high);
    assert DistIcfCode(dist) == (high + 2 * e, v % Pow2(e));
  }

  // Symbol and extra bits name the distance, as section 3.2.5 of RFC 1951 reads them.
  lemma DistIcfCodeMeans(dist: nat)
    requires 1 <= dist <= 32768
    ensures
      var (code, extra) := DistIcfCode(dist);
      && code < 30 && extra < Pow2(DistanceExtraBits(code))
      && DistanceBase(code) + extra == dist
  {
    if dist > 2 {
      LongDistance(dist);
    } else {
      assert dist == 1 || dist == 2;
    }
  }

  // A token made from a literal or from a match means that literal or match.
  lemma TokenMeans(length: nat, dist: nat, b: bv8)
    requires 3 <= length <= 258 && 1 <= dist <= 32768
    ensures Meaning(Icf(LenIcfCode(length), DistIcfCode(dist).0, DistIcfCode(dist).1)) == Some(Pair(length, dist))
    ensures Meaning(Icf(b as nat, NULL_DIST_SYM, 0)) == Some(Literal(b))
  {
    hide DistIcfCode, DistanceBase, DistanceExtraBits;
    DistIcfCodeMeans(dist);
  }
}
