/** isal_create_hufftables as a whole. */
module CustomTables {
  import opened Rfc1951
  import opened Bits
  import opened BitBuf
  import opened Canonical
  import opened HuffCodes
  import opened EncodeDf
  import opened RunLength
  import opened DynamicHeader
  import opened WriteHeader
  import opened PackedTables
  import HuffGen
  import HuffMerge
  import HuffTables
  import DeflateBlock

  const ISAL_DEF_MAX_HDR_SIZE := 328

  ghost predicate AllUsed(c: BlockCodes) {
    && c.Valid() && |c.ll| == LIT_LEN && |c.dd| == DIST_LEN
    && (forall i :: 0 <= i < LIT_LEN ==> c.ll[i] > 0)
    && forall i :: 0 <= i < DIST_LEN ==> c.dd[i] > 0
  }

  lemma CodesUsed(c: BlockCodes, max: nat, max': nat)
    requires |c.ll| == LIT_LEN && |c.dd| == DIST_LEN && HuffTables.AllCoded(c.ll, max) && HuffTables.AllCoded(c.dd, max')
    ensures AllUsed(c)
  {
    hide Fits, Kraft;
  }

  lemma TablesStore(lit: seq<HuffCode>, dist: seq<HuffCode>, c: BlockCodes)
    requires AllUsed(c) && |lit| == LIT_LEN && |dist| == DIST_LEN
    requires forall q :: 0 <= q < LIT_LEN ==> StoresCode(lit[q], c.ll, q)
    requires forall q :: 0 <= q < DIST_LEN ==> StoresCode(dist[q], c.dd, q)
    ensures Codes(lit, dist, c)
  {
    hide StoresCode, Fits;
  }

  // The last symbols are in use, so that the header leaves out no lengths.
  lemma LastOnes(c: BlockCodes)
    requires AllUsed(c)
    ensures LastUsed(c.ll, LIT_LEN) == 285 && LastUsed(c.dd, DIST_LEN) == 29
    ensures Fits(c.ll) && Fits(c.dd) && |c.ll| == LIT_LEN == LITERALS && |c.dd| == DIST_LEN == DISTANCES
  {
    hide Fits;
  }

  lemma WholeTables(lit: seq<HuffCode>, dist: seq<HuffCode>, c: BlockCodes, hlit: nat, hdist: nat)
    requires |lit| == LIT_LEN && |dist| == DIST_LEN && hlit == hdist == 29
    requires c.ll == Lengths(lit) && c.dd == Lengths(dist)
    ensures Lengths(lit[..hlit + 257]) == c.ll[..hlit + 257] && Lengths(dist[..hdist + 1]) == c.dd[..hdist + 1]
  {
  }

  // rl_encode and create_header
  method PutHeader(bb: BitBuf2, lit: array<HuffCode>, dist: array<HuffCode>, hlit: nat, hdist: nat, ghost c: BlockCodes)
    requires lit.Length == LIT_LEN && dist.Length == DIST_LEN && AllUsed(c) && hlit == hdist == 29
    requires c.ll == Lengths(lit[..]) && c.dd == Lengths(dist[..])
    requires bb.Valid() && bb.count < 8 && bb.out + HEADER_ROOM <= bb.buf.Length
    modifies bb`out, bb`bits, bb`count, bb.buf
    ensures bb.Valid() && bb.count < 8 && bb.Stored() && bb.out + 8 <= bb.buf.Length
    ensures old(bb.Contents()) <= bb.Contents()
    ensures HeaderIs(bb.Contents()[|old(bb.Contents())|..], Header(true, c.ll, c.dd))
  {
    hide AllUsed, Fits, Lengths, LastUsed, HeaderIs, RlExpand, CountCode, SplitLengths, BytesBits, BitsOf, Pow2;
    LengthsWhole(c, hlit, hdist);
    var n := hlit + 257 + hdist + 1;
    var combined := CombineLengths(lit, 0, hlit + 257, dist, hdist + 1);
    WholeTables(lit[..], dist[..], c, hlit, hdist);
    assert lit[0..0 + (hlit + 257)] == lit[..][..hlit + 257] && dist[..hdist + 1] == dist[..][..hdist + 1];
    ghost var lengths := combined[..n];
    assert forall i :: 0 <= i < n ==> combined[i] == lengths[i];
    var counts := new nat[HUFF_LEN](_ => 0);
    var tokens := new RlCode[LIT_LEN + DIST_LEN](_ => RlCode(0, 0));
    var length := RlEncode(combined, n, counts, tokens);
    CreateHeader(bb, tokens, length, counts, hlit, hdist, true, lengths);
  }

  // flush: the bits are those of whole bytes and some of the next.
  method FlushHeader(bb: BitBuf2) returns (hdrCount: nat, extraBits: nat)
    requires bb.Valid() && bb.count < 8 && bb.Stored() && bb.start == 0 && bb.out + 8 <= bb.buf.Length
    modifies bb`out, bb`bits, bb`count, bb.buf
    ensures hdrCount < bb.buf.Length && extraBits < 8 && bb.buf[hdrCount] < Pow2(extraBits)
    ensures BytesBits(bb.buf[..hdrCount]) + BitsOf(bb.buf[hdrCount], extraBits) == old(bb.Contents())
    ensures bb.Valid() && bb.count == 0 && bb.Contents() == old(bb.Contents()) + Padding(old(bb.count))
  {
    hide BytesBits, BitsOf, Pow2, Padding;
    ghost var whole := bb.buf[..bb.out];
    assert whole == bb.buf[0..bb.out];
    var bitCount := 8 * bb.out + bb.count;
    hdrCount, extraBits := bitCount / 8, bitCount % 8;
    bb.Flush();
    assert bb.buf[..hdrCount] == whole;
  }

  // The header as bytes and some more bits.
  method StoreHeader(lit: array<HuffCode>, dist: array<HuffCode>, maxLitLenSym: nat, maxDistSym: nat, ghost c: BlockCodes)
    returns (deflateHdr: array<Byte>, hdrCount: nat, extraBits: nat)
    requires lit.Length == LIT_LEN && dist.Length == DIST_LEN && AllUsed(c)
    requires c.ll == Lengths(lit[..]) && c.dd == Lengths(dist[..])
    requires maxLitLenSym == LastUsed(c.ll, LIT_LEN) && maxDistSym == LastUsed(c.dd, DIST_LEN)
    ensures deflateHdr.Length == ISAL_DEF_MAX_HDR_SIZE && hdrCount < ISAL_DEF_MAX_HDR_SIZE && extraBits < 8
    ensures deflateHdr[hdrCount] < Pow2(extraBits)
    ensures HeaderIs(BytesBits(deflateHdr[..hdrCount]) + BitsOf(deflateHdr[hdrCount], extraBits), Header(true, c.ll, c.dd))
  {
    hide AllUsed, Fits, Lengths, LastUsed, HeaderIs, BytesBits, BitsOf, Pow2;
    LastOnes(c);
    deflateHdr := new Byte[ISAL_DEF_MAX_HDR_SIZE](_ => 0);
    var bb := new BitBuf2(deflateHdr, 0, ISAL_DEF_MAX_HDR_SIZE);
    PutHeader(bb, lit, dist, maxLitLenSym - 256, maxDistSym, c);
    hdrCount, extraBits := FlushHeader(bb);
  }

  lemma LengthsWhole(c: BlockCodes, hlit: nat, hdist: nat)
    requires AllUsed(c) && hlit == 29 && hdist == 29
    ensures
      var lengths := c.ll[..hlit + 257] + c.dd[..hdist + 1];
      && |lengths| == hlit + 257 + hdist + 1 && (forall i :: 0 <= i < |lengths| ==> lengths[i] <= 15)
      && SplitLengths(true, lengths, hlit, hdist) == Some(Header(true, c.ll, c.dd))
  {
    hide LastUsed;
    LastOnes(c);
    DeflateBlock.CutAndFilled(c.ll, c.dd, 285, 29, true);
    DeflateBlock.CombinedShort(c, c.ll[..286] + c.dd[..30], 285, 29);
  }

  // create_code_tables, create_packed_len_table and create_packed_dist_table
  method MakeTables(lit: array<HuffCode>, dist: array<HuffCode>, deflateHdr: seq<Byte>, hdrCount: nat, extraBits: nat)
    returns (t: Hufftables)
    requires lit.Length == LIT_LEN && dist.Length == DIST_LEN
    requires hdrCount < |deflateHdr| && extraBits < 8 && deflateHdr[hdrCount] < Pow2(extraBits)
    ensures MadeFrom(t, lit[..], dist[..])
    ensures t.deflateHdr == deflateHdr && t.deflateHdrCount == hdrCount && t.deflateHdrExtraBits == extraBits
  {
    hide LenEntry, DistEntry, Pow2;
    var dcodes, dcodesSizes := CodesAndSizes(dist, DIST_LEN);
    var litTable, litTableSizes := CodesAndSizes(lit, IGZIP_LIT_TABLE_SIZE);
    var lenTable, distTable := new nat[IGZIP_LEN_TABLE_SIZE](_ => 0), new nat[IGZIP_DIST_TABLE_SIZE](_ => 0);
    CreatePackedLenTable(lenTable, lit);
    CreatePackedDistTable(distTable, IGZIP_DIST_TABLE_SIZE, dist);
    t := Hufftables(lenTable[..], distTable[..], litTable, litTableSizes, dcodes, dcodesSizes, deflateHdr, hdrCount, extraBits);
  }

  method CodesAndSizes(table: array<HuffCode>, n: nat) returns (codes: seq<nat>, sizes: seq<nat>)
    requires n <= table.Length
    ensures |codes| == |sizes| == n
    ensures forall k :: 0 <= k < n ==> codes[k] == table[..][k].code && sizes[k] == table[..][k].length
  {
    var c, s := new nat[n](_ => 0), new nat[n](_ => 0);
    CreateCodeTables(c, s, n, table);
    codes, sizes := c[..], s[..];
  }

  // The codes of both alphabets.
  method MakeCodes(litHist: array<nat>, distHist: array<nat>)
    returns (lit: array<HuffCode>, dist: array<HuffCode>, maxLitLenSym: nat, maxDistSym: nat, ghost c: BlockCodes)
    requires litHist.Length == LIT_LEN && distHist.Length == DIST_LEN
    ensures lit.Length == LIT_LEN && dist.Length == DIST_LEN && AllUsed(c) && Codes(lit[..], dist[..], c)
    ensures c.ll == Lengths(lit[..]) && c.dd == Lengths(dist[..]) && |c.ll| == LIT_LEN && |c.dd| == DIST_LEN
    ensures maxLitLenSym == LastUsed(c.ll, LIT_LEN) && maxDistSym == LastUsed(c.dd, DIST_LEN)
    ensures HuffTables.FitBelow(c.ll, c.dd, 285)
    ensures exists retried: bool :: HuffTables.TablesMade(retried, c.ll, c.dd, litHist[..], distHist[..])
    ensures HuffTables.RarerLength(litHist[..]) && HuffGen.SumUpTo(litHist[..], LIT_LEN) < HuffMerge.FREQ_BOUND ==>
              HuffTables.AllFit(c.ll, c.dd)
  {
    hide StoresCode, Codes, HuffTables.AllCoded, HuffTables.RarerLength, HuffGen.SumUpTo,
      HuffTables.FitBelow, HuffTables.AllFit, HuffTables.Sizes, Lengths,
      LastUsed, AllUsed, HuffTables.Histogram, HuffTables.Passing, HuffTables.TablesMade, HuffTables.MadeCode;
    lit, dist := new HuffCode[LIT_LEN](_ => HuffCode(0, 0, 0)), new HuffCode[DIST_LEN](_ => HuffCode(0, 0, 0));
    var retried, s, d, maxLit, maxLen, maxDist := HuffTables.CreateHufftables(litHist, distHist, lit, dist, [], []);
    maxLitLenSym, maxDistSym := s, d;
    c := BlockCodes(Lengths(lit[..]), Lengths(dist[..]));
    HuffTables.MadeCoded(c.ll, litHist[..], if retried then 13 else 15);
    HuffTables.MadeCoded(c.dd, distHist[..], if retried then 12 else 15);
    CodesUsed(c, if retried then 13 else 15, if retried then 12 else 15);
    assert forall q :: 0 <= q < LIT_LEN ==> StoresCode(lit[..][q], c.ll, q);
    assert forall q :: 0 <= q < DIST_LEN ==> StoresCode(dist[..][q], c.dd, q);
    TablesStore(lit[..], dist[..], c);
  }

  // isal_create_hufftables: for all histograms the tables give every literal, length and distance
  // its canonical code, and the stored header is one of a final block with these codes. They fit the
  // bit buffer together below length 258, and with it if some other length symbol is rarer.
  method IsalCreateHufftables(litHist: array<nat>, distHist: array<nat>) returns (t: Hufftables, ghost c: BlockCodes)
    requires litHist.Length == LIT_LEN && distHist.Length == DIST_LEN
    ensures Holds(t, c) && AllUsed(c) && |t.deflateHdr| == 328
    ensures HeaderIs(t.HeaderBits(), Header(true, c.ll, c.dd))
    ensures HuffTables.FitBelow(c.ll, c.dd, 285)
    ensures exists retried: bool :: HuffTables.TablesMade(retried, c.ll, c.dd, litHist[..], distHist[..])
    ensures HuffTables.RarerLength(litHist[..]) && HuffGen.SumUpTo(litHist[..], LIT_LEN) < HuffMerge.FREQ_BOUND ==>
              HuffTables.AllFit(c.ll, c.dd)
  {
    hide HuffTables.RarerLength, HuffTables.AllFit, HuffGen.SumUpTo, Codes, Holds, HeaderIs, HuffTables.FitBelow,
      Lengths, LastUsed, LenEntry, DistEntry, Pow2, BytesBits, BitsOf, AllUsed, HuffTables.TablesMade;
    var lit, dist, maxLitLenSym, maxDistSym;
    ghost var numbers, dists := litHist[..], distHist[..];
    lit, dist, maxLitLenSym, maxDistSym, c := MakeCodes(litHist, distHist);
    ghost var retried: bool :| HuffTables.TablesMade(retried, c.ll, c.dd, numbers, dists);
    var deflateHdr, hdrCount, extraBits := StoreHeader(lit, dist, maxLitLenSym, maxDistSym, c);
    assert deflateHdr[..][..hdrCount] == deflateHdr[..hdrCount];
    t := MakeTables(lit, dist, deflateHdr[..], hdrCount, extraBits);
    TablesHold(t, lit[..], dist[..], c);
    assert litHist[..] == numbers && distHist[..] == dists;
  }
}
