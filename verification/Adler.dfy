/** Adler-32, byte by byte and with deferred modulo. */
module Adler {

  const ADLER_MOD := 65521
  const MAX_ADLER_BUF := 0x1000_0000

  type U32 = x: nat | x < 0x1_0000_0000
  type U64 = x: nat | x < 0x1_0000_0000_0000_0000

  // The two halves of a checksum, and a checksum from its halves.
  function HalfA(adler: U32): (a: nat)
    ensures a < 0x10000
  {
    adler % 0x10000
  }

  function HalfB(adler: U32): (b: nat)
    ensures b < 0x10000
  {
    adler / 0x10000
  }

  function Join(b: nat, a: nat): (adler: U32)
    requires a < 0x10000 && b < 0x10000
    ensures HalfA(adler) == a && HalfB(adler) == b
  {
    b * 0x10000 + a
  }

  // The sum of the start value and all bytes, and the sum of all those sums, without reduction.
  function SumA(a: nat, buf: seq<bv8>): nat {
    if buf == [] then a else SumA(a, buf[..|buf| - 1]) + buf[|buf| - 1] as nat
  }

  function SumB(a: nat, b: nat, buf: seq<bv8>): nat {
    if buf == [] then b else SumB(a, b, buf[..|buf| - 1]) + SumA(a, buf)
  }

  // The checksum of the definition.
  function Checksum(a: nat, b: nat, buf: seq<bv8>): U32 {
    Join(SumB(a, b, buf) % ADLER_MOD, SumA(a, buf) % ADLER_MOD)
  }

  // Without a byte the definition reduces nothing.
  function RefChecksum(init: U32, buf: seq<bv8>): U32 {
    if buf == [] then init else Checksum(HalfA(init), HalfB(init), buf)
  }

  // The sum of the bytes, and that with every byte as often as there are bytes from it on.
  function ByteSum(buf: seq<bv8>): nat {
    if buf == [] then 0 else buf[0] as nat + ByteSum(buf[1..])
  }

  function WeightedSum(buf: seq<bv8>): nat {
    if buf == [] then 0 else |buf| * buf[0] as nat + WeightedSum(buf[1..])
  }

  lemma {:induction false} SumsAre(a: nat, b: nat, buf: seq<bv8>)
    ensures SumA(a, buf) == a + ByteSum(buf)
    ensures SumB(a, b, buf) == b + |buf| * a + WeightedSum(buf)
    decreases |buf|
  {
    hide SumA, SumB, ByteSum, WeightedSum;
    if buf == [] {
      NoBytes(a, b, buf);
      NoSum(buf);
    } else {
      var x, rest := buf[0] as nat, buf[1..];
      assert buf == [buf[0]] + rest;
      SumsSplit(a, b, [buf[0]], rest);
      OneByte(a, b, buf[0]);
      FirstByte(buf);
      SumsAre(a + x, b + (a + x), rest);
      Distributed(|rest|, a, x);
    }
  }

  lemma NoSum(buf: seq<bv8>)
    requires buf == []
    ensures ByteSum(buf) == 0 && WeightedSum(buf) == 0
  {
  }

  lemma FirstByte(buf: seq<bv8>)
    requires buf != []
    ensures ByteSum(buf) == buf[0] as nat + ByteSum(buf[1..])
    ensures WeightedSum(buf) == (|buf[1..]| + 1) * buf[0] as nat + WeightedSum(buf[1..])
  {
  }

  lemma OneByte(a: nat, b: nat, x: bv8)
    ensures SumA(a, [x]) == a + x as nat && SumB(a, b, [x]) == b + (a + x as nat)
  {
    NoBytes(a, b, [x][..0]);
  }

  lemma Distributed(n: nat, a: nat, x: nat)
    ensures a + x + n * (a + x) == (n + 1) * a + (n + 1) * x
  {
  }

  // Both halves of a checksum, reduced at the end.
  ghost predicate SumsOf(adler: U32, init: U32, buf: seq<bv8>) {
    && adler % 65536 == (init % 65536 + ByteSum(buf)) % 65521
    && adler / 65536 == (init / 65536 + |buf| * (init % 65536) + WeightedSum(buf)) % 65521
  }

  lemma HalvesAre(adler: U32)
    ensures HalfA(adler) == adler % 65536 && HalfB(adler) == adler / 65536
  {
  }

  lemma ChecksumHalves(a: nat, b: nat, buf: seq<bv8>)
    ensures HalfA(Checksum(a, b, buf)) == SumA(a, buf) % 65521 && HalfB(Checksum(a, b, buf)) == SumB(a, b, buf) % 65521
  {
    hide SumA, SumB, Join;
  }

  lemma ChecksumIs(init: U32, buf: seq<bv8>)
    ensures SumsOf(Checksum(HalfA(init), HalfB(init), buf), init, buf)
  {
    hide SumA, SumB, ByteSum, WeightedSum, HalfA, HalfB, Checksum;
    HalvesAre(init);
    HalvesAre(Checksum(HalfA(init), HalfB(init), buf));
    ChecksumHalves(HalfA(init), HalfB(init), buf);
    SumsAre(HalfA(init), HalfB(init), buf);
  }

  lemma TwoBytes(a: nat, b: nat, x: bv8, y: bv8, m: nat, n: nat)
    requires x as nat == m && y as nat == n
    ensures SumA(a, [x, y]) == a + m + n && SumB(a, b, [x, y]) == b + (a + m) + (a + m + n)
  {
    hide SumA, SumB;
    OneByte(a, b, x);
    OneByte(a + m, b + (a + m), y);
    SumsSplit(a, b, [x], [y]);
    assert [x] + [y] == [x, y];
  }

  lemma JoinValue(adler: U32, b: nat, a: nat)
    requires a < 0x10000 && b < 0x10000 && adler == b * 65536 + a
    ensures Join(b, a) == adler
  {
  }

  // Two bytes, 0x61 and 0x62, from the start value 1.
  lemma ChecksumValue()
    ensures Checksum(HalfA(1), HalfB(1), [0x61, 0x62]) == 0x012600C4
  {
    assert HalfA(1) == 1 && HalfB(1) == 0;
    TwoBytes(1, 0, 0x61, 0x62, 0x61, 0x62);
    JoinValue(0x012600C4, 0x126, 0xC4);
    hide SumA, SumB, Join, HalfA, HalfB;
  }

  lemma SumsNext(a: nat, b: nat, buf: seq<bv8>, i: nat)
    requires i < |buf|
    ensures SumA(a, buf[..i + 1]) == SumA(a, buf[..i]) + buf[i] as nat
    ensures SumB(a, b, buf[..i + 1]) == SumB(a, b, buf[..i]) + SumA(a, buf[..i + 1])
  {
    assert buf[..i + 1][..i] == buf[..i];
  }

  lemma ModAdd(x: nat, y: nat, z: nat)
    requires x % ADLER_MOD == y % ADLER_MOD
    ensures (x + z) % ADLER_MOD == (y + z) % ADLER_MOD
  {
  }

  lemma ModAddBoth(x: nat, y: nat, u: nat, v: nat)
    requires x % ADLER_MOD == y % ADLER_MOD && u % ADLER_MOD == v % ADLER_MOD
    ensures (x + u) % ADLER_MOD == (y + v) % ADLER_MOD
  {
    ModAdd(x, y, u);
    ModAdd(u, v, y);
  }

  // a and b are the sums over the first i bytes, up to multiples of the modulus.
  ghost predicate Follows(a: nat, b: nat, a0: nat, b0: nat, buf: seq<bv8>, i: nat)
    requires i <= |buf|
  {
    a % ADLER_MOD == SumA(a0, buf[..i]) % ADLER_MOD && b % ADLER_MOD == SumB(a0, b0, buf[..i]) % ADLER_MOD
  }

  lemma FollowsStart(a: nat, b: nat, buf: seq<bv8>)
    ensures Follows(a, b, a, b, buf, 0)
  {
    NoBytes(a, b, buf[..0]);
  }

  lemma FollowsNext(a: nat, b: nat, a0: nat, b0: nat, buf: seq<bv8>, i: nat, byte: nat)
    requires i < |buf| && byte == buf[i] as nat && Follows(a, b, a0, b0, buf, i)
    ensures
      var a' := (a + byte) % ADLER_MOD;
      Follows(a', (b + a') % ADLER_MOD, a0, b0, buf, i + 1)
  {
    hide SumA, SumB;
    SumsNext(a0, b0, buf, i);
    ModAdd(a, SumA(a0, buf[..i]), byte);
    var a' := (a + byte) % ADLER_MOD;
    ModAddBoth(b, SumB(a0, b0, buf[..i]), a', SumA(a0, buf[..i + 1]));
  }

  lemma FollowsAll(a: nat, b: nat, a0: nat, b0: nat, buf: seq<bv8>)
    requires Follows(a, b, a0, b0, buf, |buf|)
    ensures a < ADLER_MOD ==> a == SumA(a0, buf) % ADLER_MOD
    ensures b < ADLER_MOD ==> b == SumB(a0, b0, buf) % ADLER_MOD
  {
    assert buf[..|buf|] == buf;
  }

  // adler_ref: both sums reduced after every byte.
  method AdlerRef(init: U32, buf: seq<bv8>) returns (adler: U32)
    ensures adler == RefChecksum(init, buf)
    ensures if buf == [] then adler == init else SumsOf(adler, init, buf)
  {
    hide SumA, SumB, Join, Follows, HalfA, HalfB, SumsOf;
    ChecksumIs(init, buf);
    ghost var a0, b0 := HalfA(init), HalfB(init);
    var a: nat, b: nat := HalfA(init), HalfB(init);
    FollowsStart(a0, b0, buf);
    for i := 0 to |buf|
      invariant a < 0x10000 && b < 0x10000 && Follows(a, b, a0, b0, buf, i)
      invariant if i == 0 then a == a0 && b == b0 else a < ADLER_MOD && b < ADLER_MOD
    {
      FollowsNext(a, b, a0, b0, buf, i, buf[i] as nat);
      a := (a + buf[i] as nat) % ADLER_MOD;
      b := (b + a) % ADLER_MOD;
    }
    FollowsAll(a, b, a0, b0, buf);
    HalvesJoin(init);
    adler := Join(b, a);
  }

  lemma NoBytes(a: nat, b: nat, buf: seq<bv8>)
    requires buf == []
    ensures SumA(a, buf) == a && SumB(a, b, buf) == b
  {
  }

  lemma HalvesJoin(adler: U32)
    ensures Join(HalfB(adler), HalfA(adler)) == adler
  {
  }

  // After n bytes since the last reduction the sums are below 2^64.
  ghost predicate Bounded(a: nat, b: nat, n: nat) {
    n <= MAX_ADLER_BUF && a <= 0xffff + 255 * n && b <= 0xffff + n * (0xffff + 255 * MAX_ADLER_BUF)
  }

  lemma BoundedNext(a: nat, b: nat, n: nat, byte: nat)
    requires Bounded(a, b, n) && byte <= 255 && n < MAX_ADLER_BUF
    ensures Bounded(a + byte, b + (a + byte), n + 1)
    ensures a + byte < 0x1_0000_0000_0000_0000 && b + (a + byte) < 0x1_0000_0000_0000_0000
  {
  }

  // A run of at most 2^28 bytes without reduction, in 64 bits.
  method AddUp(buf: seq<bv8>, next: nat, end: nat, a0: U64, b0: U64, ghost a: nat, ghost b: nat) returns (A: U64, B: U64)
    requires next <= end <= |buf| && end - next <= MAX_ADLER_BUF && a0 < 0x10000 && b0 < 0x10000
    requires a0 % ADLER_MOD == SumA(a, buf[..next]) % ADLER_MOD
    requires b0 % ADLER_MOD == SumB(a, b, buf[..next]) % ADLER_MOD
    ensures A % ADLER_MOD == SumA(a, buf[..end]) % ADLER_MOD
    ensures B % ADLER_MOD == SumB(a, b, buf[..end]) % ADLER_MOD
  {
    hide SumA, SumB;
    A, B := a0, b0;
    for i := next to end
      invariant Bounded(A, B, i - next)
      invariant A % ADLER_MOD == SumA(a, buf[..i]) % ADLER_MOD
      invariant B % ADLER_MOD == SumB(a, b, buf[..i]) % ADLER_MOD
    {
      SumsNext(a, b, buf, i);
      ModAdd(A, SumA(a, buf[..i]), buf[i] as nat);
      BoundedNext(A, B, i - next, buf[i] as nat);
      A := A + buf[i] as nat;
      ModAddBoth(B, SumB(a, b, buf[..i]), A, SumA(a, buf[..i + 1]));
      B := B + A;
    }
  }

  // adler32_base: both sums reduced every 2^28 bytes; no sum overflows 64 bits.
  method Adler32Base(adler32: U32, start: seq<bv8>) returns (adler: U32)
    requires |start| < 0x1_0000_0000
    ensures adler == Checksum(HalfA(adler32), HalfB(adler32), start)
    ensures SumsOf(adler, adler32, start)
  {
    hide SumA, SumB, Join, SumsOf;
    ChecksumIs(adler32, start);
    ghost var a, b := HalfA(adler32), HalfB(adler32);
    var A: U64, B: U64 := HalfA(adler32), HalfB(adler32);
    var length: nat, next: nat := |start|, 0;
    NoBytes(a, b, start[..0]);
    while length > MAX_ADLER_BUF
      invariant next + length == |start| && next <= |start| && A < 0x10000 && B < 0x10000
      invariant A % ADLER_MOD == SumA(a, start[..next]) % ADLER_MOD
      invariant B % ADLER_MOD == SumB(a, b, start[..next]) % ADLER_MOD
    {
      A, B := AddUp(start, next, next + MAX_ADLER_BUF, A, B, a, b);
      next := next + MAX_ADLER_BUF;
      A := A % ADLER_MOD;
      B := B % ADLER_MOD;
      length := length - MAX_ADLER_BUF;
    }
    A, B := AddUp(start, next, next + length, A, B, a, b);
    assert start[..next + length] == start;
    A := A % ADLER_MOD;
    B := B % ADLER_MOD;
    adler := Join(B, A);
  }

  // The two agree exactly when there is a byte, or the halves of the start value are reduced.
  lemma SameChecksum(init: U32, buf: seq<bv8>)
    ensures RefChecksum(init, buf) == Checksum(HalfA(init), HalfB(init), buf)
         <==> buf != [] || (HalfA(init) < ADLER_MOD && HalfB(init) < ADLER_MOD)
  {
    hide SumA, SumB, Join, HalfA, HalfB;
    if buf == [] {
      NoBytes(HalfA(init), HalfB(init), buf);
      JoinIs(init, HalfA(init) % ADLER_MOD, HalfB(init) % ADLER_MOD);
      Reduced(HalfA(init));
      Reduced(HalfB(init));
    }
  }

  lemma JoinIs(adler: U32, a: nat, b: nat)
    requires a < 0x10000 && b < 0x10000
    ensures adler == Join(b, a) <==> a == HalfA(adler) && b == HalfB(adler)
  {
    HalvesJoin(adler);
  }

  lemma Reduced(x: nat)
    ensures x % ADLER_MOD == x <==> x < ADLER_MOD
  {
  }

  // A start value that is not reduced: the fast form reduces it, the definition does not.
  lemma UnreducedStart()
    ensures RefChecksum(65521, []) == 65521 && Checksum(HalfA(65521), HalfB(65521), []) == 0
  {
    var a, b := HalfA(65521), HalfB(65521);
    assert a == 65521 && b == 0;
    NoBytes(a, b, []);
  }

  lemma {:induction false} SumsSplit(a: nat, b: nat, s: seq<bv8>, t: seq<bv8>)
    ensures SumA(a, s + t) == SumA(SumA(a, s), t)
    ensures SumB(a, b, s + t) == SumB(SumA(a, s), SumB(a, b, s), t)
    decreases |t|
  {
    if t == [] {
      assert s + t == s;
    } else {
      SumsSplit(a, b, s, t[..|t| - 1]);
      assert (s + t)[..|s + t| - 1] == s + t[..|t| - 1];
    }
  }

  lemma {:induction false} SumsReduced(a: nat, b: nat, a': nat, b': nat, t: seq<bv8>)
    requires a % ADLER_MOD == a' % ADLER_MOD && b % ADLER_MOD == b' % ADLER_MOD
    ensures SumA(a, t) % ADLER_MOD == SumA(a', t) % ADLER_MOD
    ensures SumB(a, b, t) % ADLER_MOD == SumB(a', b', t) % ADLER_MOD
  {
    if t != [] {
      var rest := t[..|t| - 1];
      SumsReduced(a, b, a', b', rest);
      ModAdd(SumA(a, rest), SumA(a', rest), t[|t| - 1] as nat);
      ModAddBoth(SumB(a, b, rest), SumB(a', b', rest), SumA(a, t), SumA(a', t));
    }
  }

  // Fed in two pieces, a buffer gives the checksum of the whole.
  lemma InTwoPieces(init: U32, s: seq<bv8>, t: seq<bv8>)
    ensures
      var first := Checksum(HalfA(init), HalfB(init), s);
      Checksum(HalfA(first), HalfB(first), t) == Checksum(HalfA(init), HalfB(init), s + t)
  {
    hide SumA, SumB, Join;
    var a, b := HalfA(init), HalfB(init);
    var first := Checksum(a, b, s);
    SumsSplit(a, b, s, t);
    SumsReduced(HalfA(first), HalfB(first), SumA(a, s), SumB(a, b, s), t);
  }
}
