/** The 64-bit bit buffer of bitbuf2.h refines a growing list of bits. */
module BitBuf {
  import opened Rfc1951
  import opened Bits

  type Byte = x: nat | x < 256

  const MAX_BITBUF_BIT_WRITE := 56

  // Section 3.1.1 of RFC 1951: bytes are filled from the least significant bit on.
  function BytesBits(s: seq<Byte>): (b: seq<bool>)
    ensures |b| == 8 * |s|
  {
    if s == [] then [] else BytesBits(s[..|s| - 1]) + BitsOf(s[|s| - 1], 8)
  }

  // Byte j of a word in memory, least significant byte first.
  function WordByte(v: nat, j: nat): Byte {
    assert Pow2(8) == 256;
    Low(Shr(v, 8 * j), 8)
  }

  // The first k bytes of a 64-bit word in memory.
  function WordBytes(v: nat, k: nat): (s: seq<Byte>)
    ensures |s| == k
  {
    if k == 0 then [] else WordBytes(v, k - 1) + [WordByte(v, k - 1)]
  }

  lemma {:induction false} WordBytesPrefix(v: nat, k: nat, n: nat)
    requires k <= n
    ensures WordBytes(v, n)[..k] == WordBytes(v, k)
  {
    if k < n {
      WordBytesPrefix(v, k, n - 1);
    }
  }

  lemma {:induction false} WordBytesBits(v: nat, k: nat)
    ensures BytesBits(WordBytes(v, k)) == BitsOf(v, 8 * k)
  {
    if k > 0 {
      WordBytesBits(v, k - 1);
      BitsSplit(v, 8 * (k - 1), 8);
      LowBits(Shr(v, 8 * (k - 1)), 8);
      var s := WordBytes(v, k);
      assert s[..k - 1] == WordBytes(v, k - 1);
    }
  }

  lemma {:induction false} BytesBitsAppend(s: seq<Byte>, t: seq<Byte>)
    ensures BytesBits(s + t) == BytesBits(s) + BytesBits(t)
  {
    hide BitsOf;
    if t == [] {
      assert s + t == s;
    } else {
      BytesBitsAppend(s, t[..|t| - 1]);
      assert (s + t)[..|s + t| - 1] == s + t[..|t| - 1];
    }
  }

  lemma {:induction false} WordBytesAt(v: nat, k: nat, j: nat)
    requires j < k
    ensures WordBytes(v, k)[j] == WordByte(v, j)
  {
    if j < k - 1 {
      WordBytesAt(v, k - 1, j);
    }
  }

  // The byte behind the whole ones has the bits that stay pending.
  lemma PendingByte(v: nat, count: nat, bytes: nat)
    requires v < Pow2(count) && bytes == count / 8 < 8
    ensures WordByte(v, bytes) == Shr(v, count - count % 8)
  {
    hide Shr, Pow2, Low;
    ShrBound(v, count - count % 8, count % 8);
    Pow2Monotone(count % 8, 8);
    LowSmall(Shr(v, count - count % 8), 8);
  }

  lemma FirstByte(v: nat, count: nat)
    requires v < Pow2(count) && count < 8
    ensures WordByte(v, 0) == v
  {
    PendingByte(v, count, 0);
    assert Shr(v, 0) == v;
  }

  lemma StoredParts(before: seq<Byte>, after: seq<Byte>, start: nat, out: nat, k: nat, v: nat)
    requires start <= out && k <= 8 && out + 8 <= |after| == |before|
    requires after[..out] == before[..out] && after[out..out + 8] == WordBytes(v, 8)
    ensures after[start..out + k] == before[start..out] + WordBytes(v, k)
    ensures (k > 0 ==> after[out] == WordByte(v, 0)) && (k < 8 ==> after[out + k] == WordByte(v, k))
  {
    hide WordByte, WordBytes;
    WordBytesPrefix(v, k, 8);
    assert after[out..out + k] == after[out..out + 8][..k];
    assert after[start..out] == after[..out][start..] && before[start..out] == before[..out][start..];
    assert after[start..out + k] == after[start..out] + after[out..out + k];
    WordBytesAt(v, 8, 0);
    assert after[out] == after[out..out + 8][0];
    if k < 8 {
      WordBytesAt(v, 8, k);
      assert after[out + k] == after[out..out + 8][k];
    }
  }

  // The zeros that complete the last byte of count pending bits.
  function Padding(count: nat): seq<bool> {
    seq((8 - count % 8) % 8, _ => false)
  }

  lemma NoBits()
    ensures BitsOf(0, 0) == [] && Pow2(0) == 1 && Padding(0) == []
  {
  }

  class BitBuf2 {
    const buf: array<Byte>
    const start: nat
    // m_out_end: the last position at which eight bytes may be stored
    const end: int
    var out: nat
    var bits: nat
    var count: nat

    ghost predicate Valid()
      reads this
    {
      && start <= out <= buf.Length && end + 8 <= buf.Length
      && count <= 63 && bits < Pow2(count)
    }

    // All bits written so far, those still pending included.
    ghost function Contents(): (b: seq<bool>)
      requires Valid()
      reads this, buf
      ensures |b| == 8 * (out - start) + count
    {
      BytesBits(buf[start..out]) + BitsOf(bits, count)
    }

    // set_buf and init
    constructor (buf: array<Byte>, start: nat, len: nat)
      requires start + len <= buf.Length
      ensures Valid() && this.buf == buf && this.start == start && this.end == start + len - 8
      ensures Contents() == [] && count == 0
    {
      this.buf, this.start, this.end := buf, start, start + len - 8;
      out, bits, count := start, 0, 0;
      new;
      assert buf[start..start] == [];
    }

    // set_buf alone: the pending bits go on into another buffer
    constructor SetBuf(buf: array<Byte>, start: nat, len: nat, bits: nat, count: nat)
      requires start + len <= buf.Length && count <= 63 && bits < Pow2(count)
      ensures Valid() && this.buf == buf && this.start == start && this.end == start + len - 8
      ensures out == start && this.bits == bits && this.count == count && Contents() == BitsOf(bits, count)
    {
      this.buf, this.start, this.end := buf, start, start + len - 8;
      this.out, this.bits, this.count := start, bits, count;
      new;
      assert buf[start..start] == [];
    }

    // memcpy of an earlier state of the struct
    method Restore(out: nat, bits: nat, count: nat)
      requires Valid() && start <= out <= buf.Length && count <= 63 && bits < Pow2(count)
      modifies this`out, this`bits, this`count
      ensures Valid() && this.out == out && this.bits == bits && this.count == count
      ensures Contents() == BytesBits(buf[start..out]) + BitsOf(bits, count)
    {
      this.out, this.bits, this.count := out, bits, count;
    }

    predicate IsFull()
      reads this
    {
      out > end
    }

    // The byte to be written next already has the pending bits, and no others.
    ghost predicate Stored()
      reads this, buf
    {
      out < buf.Length && buf[out] == bits
    }

    // store_u64(m_out_buf, m_bits)
    method StoreU64()
      requires Valid() && out + 8 <= buf.Length
      modifies buf
      ensures buf[..out] == old(buf[..out]) && buf[out..out + 8] == WordBytes(bits, 8)
    {
      hide WordByte;
      for j := 0 to 8
        invariant buf[..out] == old(buf[..out]) && buf[out..out + j] == WordBytes(bits, j)
      {
        buf[out + j] := WordByte(bits, j);
        assert buf[out..out + j + 1] == buf[out..out + j] + [buf[out + j]];
      }
    }

    // The first k of the eight bytes stored, and the one behind them.
    method StoreWord(ghost k: nat)
      requires Valid() && out + 8 <= buf.Length && k <= 8
      modifies buf
      ensures buf[..out] == old(buf[..out]) && buf[start..out + k] == old(buf[start..out]) + WordBytes(bits, k)
      ensures (k > 0 ==> buf[out] == WordByte(bits, 0)) && (k < 8 ==> buf[out + k] == WordByte(bits, k))
    {
      hide WordByte, WordBytes;
      ghost var before := buf[..];
      StoreU64();
      assert buf[..][..out] == buf[..out] && buf[..][out..out + 8] == buf[out..out + 8];
      StoredParts(before, buf[..], start, out, k, bits);
      assert buf[..][start..out + k] == buf[start..out + k] && before[start..out] == old(buf[start..out]);
    }

    method FlushBits()
      requires Valid() && out + 8 <= buf.Length
      modifies this`out, this`bits, this`count, buf
      ensures Valid() && Contents() == old(Contents()) && count < 8
      ensures count == old(count) % 8 && out == old(out) + old(count) / 8
      ensures buf[..old(out)] == old(buf[..out]) && Stored()
    {
      hide WordBytes, WordByte, BytesBits, BitsOf, Shr, Pow2, Padding;
      var n := count - count % 8;
      var bytes := n / 8;
      assert bytes == count / 8 <= 7;
      StoreWord(bytes);
      FlushedBits(old(buf[start..out]), bits, count, WordBytes(bits, bytes));
      PendingByte(bits, count, bytes);
      count := count - n;
      out := out + bytes;
      bits := Shr(bits, n);
    }

    method Flush()
      requires Valid() && (count > 0 ==> out + 8 <= buf.Length)
      modifies this`out, this`bits, this`count, buf
      ensures Valid() && count == 0
      ensures Contents() == old(Contents()) + Padding(old(count))
      ensures buf[..old(out)] == old(buf[..out]) && (old(Stored()) && old(count) < 8 ==> buf[old(out)] == old(bits))
    {
      hide WordBytes, WordByte, BytesBits, BitsOf, Shr, Pow2, Padding;
      NoBits();
      ghost var all := Contents() + Padding(count);
      if count > 0 {
        var bytes := (count + 7) / 8;
        assert 1 <= bytes <= 8;
        StoreWord(bytes);
        PaddedBits(old(buf[start..out]), bits, count, WordBytes(bits, bytes));
        if count < 8 {
          FirstByte(bits, count);
        }
        out := out + bytes;
      }
      assert BytesBits(buf[start..out]) + BitsOf(0, 0) == all;
      bits := 0;
      count := 0;
    }

    method CheckSpace(numBits: nat)
      requires Valid() && numBits <= 56 && out + 8 <= buf.Length
      modifies this`out, this`bits, this`count, buf
      ensures Valid() && Contents() == old(Contents()) && count + numBits <= 63
      ensures if old(count) + numBits <= 63 then out == old(out) && count == old(count) && buf[..] == old(buf[..])
              else out == old(out) + old(count) / 8 && count == old(count) % 8
    {
      if 63 - count < numBits {
        FlushBits();
      }
    }

    // m_bits |= code << m_bit_count, in 64 bits
    method WriteBitsUnsafe(code: nat, n: nat)
      requires Valid() && count + n <= 63 && code < Pow2(n)
      modifies this`bits, this`count
      ensures Valid() && count == old(count) + n
      ensures Contents() == old(Contents()) + BitsOf(code, n)
    {
      hide Pow2, Shl, BitOr, BitsOf, BytesBits, Low;
      ShlBound(code, count, n);
      SumBound(bits, code, count, n);
      Pow2Monotone(count + n, 64);
      BitOrShifted(bits, code, count);
      BitsAppend(bits, code, count, n);
      LowSmall(Shl(code, count), 64);
      bits := BitOr(bits, Low(Shl(code, count), 64));
      count := count + n;
    }

    method WriteBits(code: nat, n: nat)
      requires Valid() && out + 8 <= buf.Length && n <= MAX_BITBUF_BIT_WRITE && count < 8 && code < Pow2(n)
      modifies this`out, this`bits, this`count, buf
      ensures Valid() && count < 8 && Contents() == old(Contents()) + BitsOf(code, n)
      ensures old(out) <= out <= old(out) + 8 && buf[..old(out)] == old(buf[..out]) && Stored()
    {
      WriteBitsUnsafe(code, n);
      FlushBits();
    }
  }

  // Whole bytes moved from the pending word to the buffer.
  lemma FlushedBits(before: seq<Byte>, v: nat, count: nat, stored: seq<Byte>)
    requires v < Pow2(count) && stored == WordBytes(v, count / 8)
    ensures BytesBits(before + stored) + BitsOf(Shr(v, count - count % 8), count % 8)
         == BytesBits(before) + BitsOf(v, count)
    ensures Shr(v, count - count % 8) < Pow2(count % 8)
  {
    hide BytesBits, BitsOf, WordBytes, Shr, Pow2;
    var n := count - count % 8;
    assert n == 8 * (count / 8);
    BytesBitsAppend(before, stored);
    WordBytesBits(v, count / 8);
    BitsSplit(v, n, count % 8);
    ShrBound(v, n, count % 8);
  }

  lemma {:induction false} ZeroBits(n: nat)
    ensures BitsOf(0, n) == seq(n, _ => false)
  {
    if n > 0 {
      ZeroBits(n - 1);
      assert [false] + seq(n - 1, _ => false) == seq(n, _ => false);
    }
  }

  lemma {:induction false} ShrOut(v: nat, n: nat)
    requires v < Pow2(n)
    ensures Shr(v, n) == 0
  {
    if n > 0 {
      ShrOut(v / 2, n - 1);
    }
  }

  // The last, partly filled byte is padded with zeros.
  lemma PaddedBits(before: seq<Byte>, v: nat, count: nat, stored: seq<Byte>)
    requires v < Pow2(count) && stored == WordBytes(v, (count + 7) / 8)
    ensures BytesBits(before + stored)
         == BytesBits(before) + BitsOf(v, count) + Padding(count)
  {
    hide BytesBits, BitsOf, WordBytes, Shr, Pow2;
    var pad := (8 - count % 8) % 8;
    assert 8 * ((count + 7) / 8) == count + pad;
    BytesBitsAppend(before, stored);
    WordBytesBits(v, (count + 7) / 8);
    BitsSplit(v, count, pad);
    ShrOut(v, count);
    ZeroBits(pad);
  }
}
