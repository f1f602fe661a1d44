/** Items of a block as the bits that the tables of
    isal_create_hufftables give. */
module DirectDeflate {
  import opened Rfc1951
  import opened Bits
  import opened BitBuf
  import opened Canonical
  import opened HuffCodes
  import opened IcfCodes
  import opened IcfTables
  import opened Inflate
  import opened EncodeDf
  import opened PackedTables
  import WriteHeader

  // ---- the bits of literals and pairs ----

  // Code and extra bits of an item.
  function ItemBits(c: BlockCodes, item: Item): seq<bool>
    requires LIT_LEN <= |c.ll| && DIST_LEN <= |c.dd|
  {
    match item
    case Literal(b) => CodeBits(c.ll, b as nat)
    case Pair(length, dist) =>
      if 3 <= length <= 258 && 1 <= dist <= 32768 then LengthBits(c.ll, length) + DistBits(c.dd, dist) else []
  }

  // The item can be written, and the codes have its symbols.
  ghost predicate Codable(c: BlockCodes, item: Item) {
    && c.Valid()
    && match item
       case Literal(b) => Used(c.ll, b as nat)
       case Pair(length, dist) =>
         3 <= length <= 258 && 1 <= dist <= 32768 && Used(c.ll, LenSym(length)) && Used(c.dd, DistIcfCode(dist).0)
  }

  ghost predicate AllCodable(c: BlockCodes, items: seq<Item>) {
    forall i :: 0 <= i < |items| ==> Codable(c, items[i])
  }

  function ItemsBits(c: BlockCodes, items: seq<Item>): seq<bool>
    requires LIT_LEN <= |c.ll| && DIST_LEN <= |c.dd|
  {
    if items == [] then [] else ItemBits(c, items[0]) + ItemsBits(c, items[1..])
  }

  lemma {:induction false} ItemsBitsSnoc(c: BlockCodes, items: seq<Item>, item: Item)
    requires LIT_LEN <= |c.ll| && DIST_LEN <= |c.dd|
    ensures ItemsBits(c, items + [item]) == ItemsBits(c, items) + ItemBits(c, item)
    decreases |items|
  {
    hide ItemBits;
    if items == [] {
      assert (items + [item])[1..] == [];
    } else {
      ItemsBitsSnoc(c, items[1..], item);
      assert (items + [item])[1..] == items[1..] + [item];
    }
  }

  lemma PairItemRead(c: BlockCodes, length: nat, dist: nat, rest: seq<bool>)
    requires Codable(c, Pair(length, dist))
    ensures LIT_LEN <= |c.ll| && DIST_LEN <= |c.dd|
    ensures ReadElement(c.ll, c.dd, ItemBits(c, Pair(length, dist)) + rest) == Some((Data(Pair(length, dist)), rest))
  {
    hide Fits, CodeBits, BitsOf, ReadElement, LenSym, LengthBase, LengthExtraBits, DistIcfCode, DistanceBase,
      DistanceExtraBits, DistanceBits, LengthBits, Pow2, Used;
    LengthBitsAre(c.ll, length);
    LenSymMeans(length);
    DistIcfCodeMeans(dist);
    var sym := LenSym(length);
    var (dsym, dextra) := DistIcfCode(dist);
    PairRead(c.ll, c.dd, sym, length - LengthBase(sym), dsym, dextra, rest);
  }

  lemma ItemRead(c: BlockCodes, item: Item, rest: seq<bool>)
    requires Codable(c, item)
    ensures LIT_LEN <= |c.ll| && DIST_LEN <= |c.dd|
    ensures ReadElement(c.ll, c.dd, ItemBits(c, item) + rest) == Some((Data(item), rest))
  {
    hide Fits, CodeBits, ReadElement, LenSym, DistIcfCode, LengthBits, DistBits;
    match item
    case Literal(b) => LiteralRead(c.ll, c.dd, b as nat, rest);
    case Pair(length, dist) => PairItemRead(c, length, dist, rest);
  }

  lemma SomeItemBits(c: BlockCodes, item: Item)
    requires Codable(c, item)
    ensures LIT_LEN <= |c.ll| && DIST_LEN <= |c.dd| && |ItemBits(c, item)| > 0
  {
    hide Fits, LenSym, DistIcfCode, DistBits, LengthBase, LengthExtraBits, CodeOf;
    if item.Pair? {
      LengthBitsAre(c.ll, item.length);
    }
  }

  // The items and the end of the block are read back.
  lemma {:induction false} ItemsRead(c: BlockCodes, items: seq<Item>, rest: seq<bool>)
    requires AllCodable(c, items) && c.Valid() && Used(c.ll, 256)
    ensures ReadBlock(c.ll, c.dd, ItemsBits(c, items) + CodeBits(c.ll, 256) + rest) == Some((items, rest))
    decreases |items|
  {
    hide Fits, CodeBits, ReadElement, ReadBlock, ItemBits, Codable, Used;
    var bits := ItemsBits(c, items) + CodeBits(c.ll, 256) + rest;
    if items == [] {
      LiteralRead(c.ll, c.dd, 256, rest);
      assert bits == CodeBits(c.ll, 256) + rest;
      BlockEnd(c.ll, c.dd, bits, rest);
    } else {
      var tail := ItemsBits(c, items[1..]) + CodeBits(c.ll, 256) + rest;
      assert bits == ItemBits(c, items[0]) + tail;
      assert Codable(c, items[0]);
      ItemRead(c, items[0], tail);
      SomeItemBits(c, items[0]);
      ItemsRead(c, items[1..], rest);
      BlockStep(c.ll, c.dd, bits, items[0], tail, items[1..], rest);
      assert [items[0]] + items[1..] == items;
    }
  }

  lemma ItemsInflate(c: BlockCodes, items: seq<Item>)
    requires AllCodable(c, items) && c.Valid() && Used(c.ll, 256)
    ensures InflatesTo(c, ItemsBits(c, items) + CodeBits(c.ll, 256), items)
  {
    hide ReadBlock, AllCodable, CodeBits, ItemsBits, Fits;
    forall rest: seq<bool>
      ensures ReadBlock(c.ll, c.dd, ItemsBits(c, items) + CodeBits(c.ll, 256) + rest) == Some((items, rest))
    {
      ItemsRead(c, items, rest);
    }
  }

  // ---- what the lookups give is what is to be written ----

  // The codes have all lengths, all distances, the end of the block, and the bytes of the data.
  ghost predicate CoversData(c: BlockCodes, data: seq<bv8>) {
    && c.Valid() && (forall i :: 256 <= i < LIT_LEN ==> c.ll[i] > 0) && (forall i :: 0 <= i < DIST_LEN ==> c.dd[i] > 0)
    && forall i :: 0 <= i < |data| ==> c.ll[data[i] as nat] > 0
  }

  lemma LiteralCode(t: Hufftables, c: BlockCodes, lit: nat)
    requires Holds(t, c) && lit <= 256 && Used(c.ll, lit)
    ensures t.Valid() && c.Valid()
    ensures
      var (code, len) := GetLitCode(t, lit);
      len <= 15 && code < Pow2(len) && BitsOf(code, len) == CodeBits(c.ll, lit)
  {
    hide Fits, CodeBits, BitsOf, Pow2, Used, GivesLen, GivesDist;
    assert GivesLit(t, c, lit);
  }

  lemma LenCode(t: Hufftables, c: BlockCodes, length: nat)
    requires Holds(t, c) && 3 <= length <= 258 && Used(c.ll, LenSym(length))
    ensures t.Valid() && c.Valid()
    ensures
      var (code, len) := GetLenCode(t, length);
      len <= 20 && code < Pow2(len) && BitsOf(code, len) == LengthBits(c.ll, length)
  {
    hide Fits, LengthBits, BitsOf, Pow2, Used, GivesLit, GivesDist, LenSym, Unpacked;
    assert GivesLen(t, c, length);
  }

  lemma DistCode(t: Hufftables, c: BlockCodes, dist: nat)
    requires Holds(t, c) && 1 <= dist <= 32768 && Used(c.dd, DistIcfCode(dist).0)
    ensures t.Valid() && c.Valid()
    ensures
      var (code, len) := GetDistCode(t, dist);
      len <= 28 && code < Pow2(len) && BitsOf(code, len) == DistBits(c.dd, dist)
  {
    hide Fits, DistBits, BitsOf, Pow2, Used, GivesLit, GivesLen, DistIcfCode, Unpacked, ComputeDistCode;
    assert GivesDist(t, c, dist);
  }

  // code | (code2 << code_len): with codes of at most 15 bits never more than 48 bits, however long
  // the codes of isal_create_hufftables are.
  lemma MatchCode(t: Hufftables, c: BlockCodes, length: nat, dist: nat)
    requires Holds(t, c) && Codable(c, Pair(length, dist))
    ensures t.Valid() && LIT_LEN <= |c.ll| && DIST_LEN <= |c.dd|
    ensures
      var (code, len) := GetLenCode(t, length);
      var (code2, len2) := GetDistCode(t, dist);
      && len + len2 <= 48 && BitOr(code, Shl(code2, len)) < Pow2(len + len2)
      && BitsOf(BitOr(code, Shl(code2, len)), len + len2) == ItemBits(c, Pair(length, dist))
  {
    hide Fits, DistBits, LengthBits, BitsOf, Pow2, Used, Holds, DistIcfCode, LenSym, GetLenCode, GetDistCode, BitOr,
      Shl;
    LenCode(t, c, length);
    DistCode(t, c, dist);
    var (code, len) := GetLenCode(t, length);
    var (code2, len2) := GetDistCode(t, dist);
    WriteHeader.Joined(code, code2, len, len2);
  }

  lemma PairCodable(c: BlockCodes, data: seq<bv8>, length: nat, dist: nat)
    requires CoversData(c, data) && 3 <= length <= 258 && 1 <= dist <= 32768
    ensures Codable(c, Pair(length, dist))
  {
    hide Fits, LenSym, DistIcfCode, LengthBase, LengthExtraBits, DistanceBase, DistanceExtraBits, Pow2;
    LenSymMeans(length);
    DistIcfCodeMeans(dist);
  }

  lemma ByteCodable(c: BlockCodes, data: seq<bv8>, i: nat)
    requires CoversData(c, data) && i < |data|
    ensures Codable(c, Literal(data[i]))
  {
    hide Fits;
  }

  lemma EndCoded(c: BlockCodes, data: seq<bv8>)
    requires CoversData(c, data)
    ensures c.Valid() && Used(c.ll, 256)
  {
    hide Fits;
  }

  // ---- the history and the items ----

  ghost predicate Tells(input: seq<bv8>, start: nat, pos: nat, items: seq<Item>) {
    start <= pos <= |input| && Expand(input[..start], items) == Some(input[..pos])
  }

  lemma TellsLiteral(input: seq<bv8>, start: nat, pos: nat, items: seq<Item>)
    requires Tells(input, start, pos, items) && pos < |input|
    ensures Tells(input, start, pos + 1, items + [Literal(input[pos])])
  {
    var more := items + [Literal(input[pos])];
    assert more[..|items|] == items;
    assert input[..pos + 1] == input[..pos] + [input[pos]];
  }

  lemma TellsPair(input: seq<bv8>, start: nat, pos: nat, items: seq<Item>, length: nat, dist: nat)
    requires Tells(input, start, pos, items) && pos + length <= |input| && 1 <= dist <= pos
    requires forall q :: pos <= q < pos + length ==> input[q] == input[q - dist]
    ensures Tells(input, start, pos + length, items + [Pair(length, dist)])
  {
    var more := items + [Pair(length, dist)];
    assert more[..|items|] == items;
    CopyMatches(input, pos, length, dist);
  }

  // The bits of the items and, at the end, the end of the block.
  function DataBits(c: BlockCodes, items: seq<Item>, hasEob: bool): seq<bool>
    requires LIT_LEN <= |c.ll| && DIST_LEN <= |c.dd|
  {
    ItemsBits(c, items) + if hasEob then CodeBits(c.ll, 256) else []
  }

  // Header, items and end are what has been written.
  ghost predicate Emitted(bits: seq<bool>, header: seq<bool>, c: BlockCodes, items: seq<Item>, hasEob: bool) {
    c.Valid() && AllCodable(c, items) && bits == header + DataBits(c, items, hasEob)
  }

  lemma EmittedMore(bits: seq<bool>, header: seq<bool>, c: BlockCodes, items: seq<Item>, item: Item)
    requires Emitted(bits, header, c, items, false) && Codable(c, item)
    ensures LIT_LEN <= |c.ll| && DIST_LEN <= |c.dd|
    ensures Emitted(bits + ItemBits(c, item), header, c, items + [item], false)
  {
    hide Fits, Codable, ItemBits, ItemsBits;
    ItemsBitsSnoc(c, items, item);
  }

  lemma EmittedEnd(bits: seq<bool>, header: seq<bool>, c: BlockCodes, items: seq<Item>)
    requires Emitted(bits, header, c, items, false)
    ensures LIT_LEN <= |c.ll| && Emitted(bits + CodeBits(c.ll, 256), header, c, items, true)
  {
    hide Fits, AllCodable, ItemsBits, CodeBits;
  }

  lemma LiteralItem(t: Hufftables, c: BlockCodes, b: bv8)
    requires Holds(t, c) && Codable(c, Literal(b))
    ensures t.Valid() && LIT_LEN <= |c.ll| && DIST_LEN <= |c.dd|
    ensures
      var (code, len) := GetLitCode(t, b as nat);
      len <= 15 && code < Pow2(len) && BitsOf(code, len) == ItemBits(c, Literal(b))
  {
    hide Fits, CodeBits, BitsOf, Pow2, Used, Holds;
    LiteralCode(t, c, b as nat);
  }

  lemma NothingYet(header: seq<bool>, c: BlockCodes, input: seq<bv8>, start: nat)
    requires CoversData(c, input) && start <= |input|
    ensures Emitted(header, header, c, [], false) && Tells(input, start, start, [])
  {
    hide Fits;
    assert header + ([] + []) == header;
  }

  // ---- the header of a block that is not the last one ----

  // The first of these bits is set.
  ghost predicate FirstSet(bits: seq<bool>) {
    bits != [] && bits[0]
  }

  // The stored header, which is that of a final block, or the same with BFINAL cleared.
  function StreamHeader(t: Hufftables, endOfStream: bool): (b: seq<bool>)
    requires t.deflateHdrCount < |t.deflateHdr| && (endOfStream || t.HeaderBits() != [])
  {
    if endOfStream then t.HeaderBits() else t.HeaderBits()[0 := false]
  }

  lemma OddNumber(v: nat, n: nat)
    requires n > 0 && BitsOf(v, n)[0]
    ensures v % 2 == 1 && BitsOf(v - 1, n) == BitsOf(v, n)[0 := false]
  {
  }

  lemma {:induction false} OddByte(s: seq<Byte>)
    requires s != [] && BytesBits(s)[0]
    ensures s[0] > 0 && BytesBits(s[0 := s[0] - 1]) == BytesBits(s)[0 := false]
  {
    hide BitsOf;
    var n := |s| - 1;
    if n == 0 {
      OneByte(s[0]);
      OddNumber(s[0], 8);
      OneByte(s[0] - 1);
      assert s == [s[0]];
    } else {
      OddByte(s[..n]);
      LessFirst(s, n);
    }
  }

  lemma OneByte(b: Byte)
    ensures BytesBits([b]) == BitsOf(b, 8)
  {
    assert [b][..0] == [];
    hide BitsOf;
  }

  lemma LessFirst(s: seq<Byte>, n: nat)
    requires 0 < n == |s| - 1 && s[0] > 0
    ensures s[0 := s[0] - 1][..n] == s[..n][0 := s[0] - 1] && s[0 := s[0] - 1][n] == s[n]
  {
  }

  // memcpy of the header's whole bytes
  method CopyHeader(outBuf: array<Byte>, hdr: seq<Byte>)
    requires |hdr| <= outBuf.Length
    modifies outBuf
    ensures outBuf[..|hdr|] == hdr
  {
    for i := 0 to |hdr|
      invariant outBuf[..i] == hdr[..i]
    {
      outBuf[i] := hdr[i];
    }
  }

  // When the stream goes on, the final bit, which is the first one, is taken away.
  method ClearFinal(t: Hufftables, outBuf: array<Byte>) returns (hdrExtraBits: nat)
    requires t.Valid() && t.deflateHdrCount <= outBuf.Length && FirstSet(t.HeaderBits())
    requires outBuf[..t.deflateHdrCount] == t.deflateHdr[..t.deflateHdrCount]
    modifies outBuf
    ensures hdrExtraBits < Pow2(t.deflateHdrExtraBits)
    ensures BytesBits(outBuf[..t.deflateHdrCount]) + BitsOf(hdrExtraBits, t.deflateHdrExtraBits) == StreamHeader(t, false)
  {
    hide BytesBits, BitsOf, Pow2;
    var n := t.deflateHdrCount;
    hdrExtraBits := t.deflateHdr[n];
    ghost var bytes, extra := t.deflateHdr[..n], BitsOf(hdrExtraBits, t.deflateHdrExtraBits);
    if n > 0 {
      OddByte(bytes);
      outBuf[0] := outBuf[0] - 1;
      assert outBuf[..n] == bytes[0 := bytes[0] - 1];
      assert BytesBits(bytes)[0 := false] + extra == (BytesBits(bytes) + extra)[0 := false];
    } else {
      NoBytes(bytes, extra);
      OddNumber(hdrExtraBits, t.deflateHdrExtraBits);
      hdrExtraBits := hdrExtraBits - 1;
      NoBytes(bytes, BitsOf(hdrExtraBits, t.deflateHdrExtraBits));
    }
  }

  lemma NoBytes(s: seq<Byte>, bits: seq<bool>)
    requires s == []
    ensures BytesBits(s) + bits == bits
  {
  }

  // memcpy, set_buf and write_bits of write_deflate_header_stateless
  method PutHeader(t: Hufftables, outBuf: array<Byte>, endOfStream: bool) returns (bb: BitBuf2, ghost flushed: seq<bool>)
    requires t.Valid() && t.deflateHdrCount + 8 < outBuf.Length && (endOfStream || FirstSet(t.HeaderBits()))
    modifies outBuf
    ensures fresh(bb) && bb.Valid() && bb.count < 8 && bb.buf == outBuf
    ensures flushed + bb.Contents() == StreamHeader(t, endOfStream)
  {
    hide BytesBits, BitsOf, Pow2, FirstSet;
    var n := t.deflateHdrCount;
    var hdrExtraBits: nat := t.deflateHdr[n];
    CopyHeader(outBuf, t.deflateHdr[..n]);
    if !endOfStream {
      hdrExtraBits := ClearFinal(t, outBuf);
    }
    hide StreamHeader;
    WholeHeader(t);
    flushed := BytesBits(outBuf[..n]);
    bb := new BitBuf2(outBuf, n, outBuf.Length - n);
    bb.WriteBits(hdrExtraBits, t.deflateHdrExtraBits);
    assert bb.Contents() == BitsOf(hdrExtraBits, t.deflateHdrExtraBits);
  }

  lemma WholeHeader(t: Hufftables)
    requires t.Valid()
    ensures BytesBits(t.deflateHdr[..t.deflateHdrCount]) + BitsOf(t.deflateHdr[t.deflateHdrCount], t.deflateHdrExtraBits)
         == StreamHeader(t, true)
  {
  }
}
