/** create_header: code lengths into the bit buffer. */
module WriteHeader {
  import opened Rfc1951
  import opened Bits
  import opened BitBuf
  import opened Canonical
  import opened HuffCodes
  import opened RunLength
  import opened DynamicHeader
  import opened HuffHeap
  import opened HuffTree
  import opened HuffGen
  import opened SymbolLengths
  import CodeLens
  import HuffMerge

  // code_length_code_order
  const CODE_LENGTH_CODE_ORDER: seq<nat> := [16, 17, 18, 0, 8, 7, 9, 6, 10, 5, 11, 4, 12, 3, 13, 2, 14, 1, 15]

  // The table of the writer has the order that the reader expects, and both are this one.
  lemma OrderAgrees()
    ensures |CODE_LENGTH_CODE_ORDER| == HUFF_LEN
    ensures forall i :: 0 <= i < HUFF_LEN ==> CODE_LENGTH_CODE_ORDER[i] == OrderAt(i)
    ensures CODE_LENGTH_CODE_ORDER == [16, 17, 18, 0, 8, 7, 9, 6, 10, 5, 11, 4, 12, 3, 13, 2, 14, 1, 15]
    ensures OrderAt(0) == 16 && OrderAt(1) == 17 && OrderAt(2) == 18 && OrderAt(3) == 0 && OrderAt(4) == 8
         && OrderAt(5) == 7 && OrderAt(6) == 9 && OrderAt(7) == 6 && OrderAt(8) == 10 && OrderAt(9) == 5
         && OrderAt(10) == 11 && OrderAt(11) == 4 && OrderAt(12) == 12 && OrderAt(13) == 3 && OrderAt(14) == 13
         && OrderAt(15) == 2 && OrderAt(16) == 14 && OrderAt(17) == 1 && OrderAt(18) == 15
  {
  }

  // ---- the first two words ----

  // (end_of_block ? 5 : 4) | hlit << 3 | hdist << 8 | hclen << 13 | length << 17
  function StartWord(final: bool, hlit: nat, hdist: nat, hclen: nat, first: nat): nat {
    BitOr(BitOr(BitOr(BitOr(if final then 5 else 4, Shl(hlit, 3)), Shl(hdist, 8)), Shl(hclen, 13)), Shl(first, 17))
  }

  lemma FinalBits(final: bool)
    ensures (if final then 5 else 4) < Pow2(3)
    ensures BitsOf(if final then 5 else 4, 3) == BitsOf(if final then 1 else 0, 1) + BitsOf(2, 2)
  {
  }

  lemma Joined(a: nat, b: nat, m: nat, n: nat)
    requires a < Pow2(m) && b < Pow2(n)
    ensures BitOr(a, Shl(b, m)) < Pow2(m + n)
    ensures BitsOf(BitOr(a, Shl(b, m)), m + n) == BitsOf(a, m) + BitsOf(b, n)
  {
    BitOrShifted(a, b, m);
    BitsAppend(a, b, m, n);
    SumBound(a, b, m, n);
  }

  lemma StartWordBits(final: bool, hlit: nat, hdist: nat, hclen: nat, first: nat)
    requires hlit < Pow2(5) && hdist < Pow2(5) && hclen < Pow2(4) && first < Pow2(3)
    ensures StartWord(final, hlit, hdist, hclen, first) < Pow2(20)
    ensures BitsOf(StartWord(final, hlit, hdist, hclen, first), 20) == StartBits(final, hlit, hdist, hclen) + BitsOf(first, 3)
  {
    FinalBits(final);
    hide Pow2, BitsOf, BitOr, Shl;
    var d0 := if final then 5 else 4;
    var d1 := BitOr(d0, Shl(hlit, 3));
    var d2 := BitOr(d1, Shl(hdist, 8));
    var d3 := BitOr(d2, Shl(hclen, 13));
    Joined(d0, hlit, 3, 5);
    Joined(d1, hdist, 8, 5);
    Joined(d2, hclen, 13, 4);
    Joined(d3, first, 17, 3);
  }

  // The lengths of the code length codes numbered from to below n.
  function LengthsFromTo(cl: seq<nat>, from: nat, n: nat): (b: seq<bool>)
    requires |cl| == HUFF_LEN && from <= n <= HUFF_LEN
    ensures |b| == 3 * (n - from)
    decreases n - from
  {
    if from == n then [] else BitsOf(cl[OrderAt(from)], 3) + LengthsFromTo(cl, from + 1, n)
  }

  lemma {:induction false} FromToSnoc(cl: seq<nat>, from: nat, n: nat)
    requires |cl| == HUFF_LEN && from < n <= HUFF_LEN
    ensures LengthsFromTo(cl, from, n) == LengthsFromTo(cl, from, n - 1) + BitsOf(cl[OrderAt(n - 1)], 3)
    decreases n - from
  {
    hide OrderAt, BitsOf;
    if from < n - 1 {
      FromToSnoc(cl, from + 1, n);
    } else {
      assert LengthsFromTo(cl, n, n) == [] && LengthsFromTo(cl, n - 1, n - 1) == [];
    }
  }

  lemma {:induction false} FromToAll(cl: seq<nat>, n: nat)
    requires |cl| == HUFF_LEN && n <= HUFF_LEN
    ensures CodeLengthCodeBits(cl, n) == LengthsFromTo(cl, 0, n)
    decreases n
  {
    hide OrderAt, BitsOf;
    if n > 0 {
      FromToAll(cl, n - 1);
      FromToSnoc(cl, 0, n);
    }
  }

  // for (i = hclen + 3; i >= 1; i--) data = (data << 3) | length
  method PackLengths(lookup: array<HuffCode>, hclen: nat, ghost cl: seq<nat>) returns (data: nat)
    requires lookup.Length == HUFF_LEN && cl == Lengths(lookup[..]) && hclen + 4 <= HUFF_LEN
    requires forall i :: 0 <= i < HUFF_LEN ==> cl[i] < Pow2(3)
    ensures data < Pow2(3 * (hclen + 3)) && BitsOf(data, 3 * (hclen + 3)) == LengthsFromTo(cl, 1, hclen + 4)
  {
    hide Pow2, BitsOf, BitOr, Shl, OrderAt, CODE_LENGTH_CODE_ORDER;
    OrderAgrees();
    data := 0;
    var i := hclen + 3;
    NoBits();
    while i >= 1
      invariant 0 <= i <= hclen + 3
      invariant data < Pow2(3 * (hclen + 3 - i)) && BitsOf(data, 3 * (hclen + 3 - i)) == LengthsFromTo(cl, i + 1, hclen + 4)
    {
      var length := lookup[CODE_LENGTH_CODE_ORDER[i]].length;
      assert length == cl[OrderAt(i)];
      Joined(length, data, 3, 3 * (hclen + 3 - i));
      BitOrComm(length, Shl(data, 3));
      data := BitOr(Shl(data, 3), length);
      i := i - 1;
    }
  }

  // ---- the symbols ----

  lemma SymbolsSnoc(cl: seq<nat>, symbols: seq<RlCode>, s: RlCode)
    requires forall i :: 0 <= i < |symbols + [s]| ==> (symbols + [s])[i].code < |cl|
    ensures s.code < |cl| && forall i :: 0 <= i < |symbols| ==> symbols[i].code < |cl|
    ensures SymbolsBits(cl, symbols + [s]) == SymbolsBits(cl, symbols) + SymbolBits(cl, s)
    decreases |symbols|
  {
    hide SymbolBits;
    var all := symbols + [s];
    assert all[|symbols|] == s;
    assert forall i :: 0 <= i < |symbols| ==> all[i] == symbols[i];
    if symbols == [] {
      assert all[1..] == [];
    } else {
      assert all[1..] == symbols[1..] + [s];
      SymbolsSnoc(cl, symbols[1..], s);
    }
  }

  // ---- how much room a header needs ----

  // n more bits can be written: every write stores eight bytes at the place it starts from.
  ghost predicate HasRoom(bb: BitBuf2, n: nat)
    reads bb
  {
    8 * bb.out + bb.count + n + 57 <= 8 * bb.buf.Length
  }

  lemma {:induction false} SymbolsPrefix(cl: seq<nat>, symbols: seq<RlCode>, i: nat)
    requires i <= |symbols| && forall k :: 0 <= k < |symbols| ==> symbols[k].code < |cl|
    ensures |SymbolsBits(cl, symbols[..i])| <= |SymbolsBits(cl, symbols)|
    decreases |symbols|
  {
    hide SymbolBits, SymbolsBits;
    if i < |symbols| {
      var last := |symbols| - 1;
      assert symbols == symbols[..last] + [symbols[last]];
      SymbolsSnoc(cl, symbols[..last], symbols[last]);
      SymbolsPrefix(cl, symbols[..last], i);
      assert symbols[..last][..i] == symbols[..i];
    } else {
      assert symbols[..i] == symbols;
    }
  }

  // A symbol takes at most seven bits for every code length that it stands for.
  lemma SymbolShort(cl: seq<nat>, lengths: seq<nat>, s: RlCode)
    requires RlEmit(lengths, s).Some? && |cl| == HUFF_LEN && forall i :: 0 <= i < HUFF_LEN ==> cl[i] < 8
    ensures s.code < HUFF_LEN && |SymbolBits(cl, s)| <= 7 * (|RlEmit(lengths, s).value| - |lengths|)
  {
    hide Pow2, CodeOf;
  }

  lemma {:induction false} SymbolsShort(cl: seq<nat>, symbols: seq<RlCode>)
    requires RlExpand(symbols).Some? && |cl| == HUFF_LEN && forall i :: 0 <= i < HUFF_LEN ==> cl[i] < 8
    ensures forall i :: 0 <= i < |symbols| ==> symbols[i].code < HUFF_LEN
    ensures |SymbolsBits(cl, symbols)| <= 7 * |RlExpand(symbols).value|
    decreases |symbols|
  {
    hide SymbolBits, RlEmit;
    if symbols == [] {
      NoSymbols(cl, symbols);
    } else {
      var last := |symbols| - 1;
      SymbolsShort(cl, symbols[..last]);
      SymbolShort(cl, RlExpand(symbols[..last]).value, symbols[last]);
      assert symbols == symbols[..last] + [symbols[last]];
      assert forall i :: 0 <= i < last ==> symbols[i] == symbols[..last][i];
      SymbolsSnoc(cl, symbols[..last], symbols[last]);
    }
  }

  // 294 bytes take every header of a block, the bytes stored behind its end included. The 328 bytes
  // of ISAL_DEF_MAX_HDR_SIZE leave room for a gzip header before it.
  const HEADER_ROOM := 294

  lemma HeaderShort(final: bool, hlit: nat, hdist: nat, hclen: nat, cl: seq<nat>, symbols: seq<RlCode>)
    requires |cl| == HUFF_LEN && hclen + 4 <= HUFF_LEN && (forall i :: 0 <= i < HUFF_LEN ==> cl[i] < 8)
    requires RlExpand(symbols).Some? && |RlExpand(symbols).value| <= LITERALS + DISTANCES
    ensures forall i :: 0 <= i < |symbols| ==> symbols[i].code < HUFF_LEN
    ensures |HeaderBits(final, hlit, hdist, hclen, cl, symbols)| + 7 + 57 <= 8 * HEADER_ROOM && HEADER_ROOM == 294
  {
    SymbolsShort(cl, symbols);
    hide StartBits, CodeLengthCodeBits, SymbolsBits, RlExpand;
  }

  // The stored codes of the code length alphabet, none of more than 7 bits.
  ghost predicate CodesStored(lookup: seq<HuffCode>, cl: seq<nat>) {
    && |lookup| == |cl| == HUFF_LEN && Fits(cl) && cl == Lengths(lookup)
    && (forall i :: 0 <= i < HUFF_LEN ==> StoresCode(lookup[i], cl, i))
    && forall i :: 0 <= i < HUFF_LEN ==> cl[i] < 8
  }

  lemma CodeIsStored(lookup: seq<HuffCode>, cl: seq<nat>, c: nat)
    requires CodesStored(lookup, cl) && Used(cl, c)
    ensures |lookup| == HUFF_LEN && c < HUFF_LEN && lookup[c].length == cl[c] < 8
    ensures lookup[c].code < Pow2(cl[c]) && BitsOf(lookup[c].code, cl[c]) == CodeBits(cl, c)
  {
    hide Fits, Pow2, BitsOf, CodeBits;
  }

  // One turn of the loop over the symbols.
  method WriteSymbol(bb: BitBuf2, lookup: array<HuffCode>, s: RlCode, ghost cl: seq<nat>)
    requires bb.Valid() && bb.count < 8 && s.code < |cl| && HasRoom(bb, |SymbolBits(cl, s)|)
    requires CodesStored(lookup[..], cl) && Used(cl, s.code) && s.extraBits < Pow2(RlExtraBits(s.code))
    modifies bb`out, bb`bits, bb`count, bb.buf
    ensures bb.Valid() && bb.count < 8 && bb.Stored()
    ensures bb.Contents() == old(bb.Contents()) + SymbolBits(cl, s)
    ensures old(bb.out) <= bb.out && bb.buf[..old(bb.out)] == old(bb.buf[..bb.out])
  {
    hide CodesStored, Pow2, BitsOf, CodeBits;
    CodeIsStored(lookup[..], cl, s.code);
    var h := lookup[s.code];
    bb.WriteBits(h.code, h.length);
    if s.code > 15 {
      bb.WriteBits(s.extraBits, RlExtraBits(s.code));
    } else {
      NoExtra(s);
    }
  }

  lemma NoExtra(s: RlCode)
    requires s.code <= 15
    ensures BitsOf(s.extraBits, RlExtraBits(s.code)) == []
  {
  }

  lemma StartCodes(final: bool, hlit: nat, hdist: nat, hclen: nat, cl: seq<nat>, symbols: seq<RlCode>)
    requires |cl| == HUFF_LEN && hclen + 4 <= HUFF_LEN
    requires forall i :: 0 <= i < |symbols| ==> symbols[i].code < HUFF_LEN
    ensures StartBits(final, hlit, hdist, hclen) + BitsOf(cl[OrderAt(0)], 3) + LengthsFromTo(cl, 1, hclen + 4)
            + SymbolsBits(cl, symbols)
         == HeaderBits(final, hlit, hdist, hclen, cl, symbols)
  {
    hide *;
    FromToAll(cl, hclen + 4);
    FirstLength(cl, hclen + 4);
    Regrouped(StartBits(final, hlit, hdist, hclen), BitsOf(cl[OrderAt(0)], 3), LengthsFromTo(cl, 1, hclen + 4),
              SymbolsBits(cl, symbols));
    HeaderBitsAre(final, hlit, hdist, hclen, cl, symbols);
  }

  lemma FirstLength(cl: seq<nat>, n: nat)
    requires |cl| == HUFF_LEN && 1 <= n <= HUFF_LEN
    ensures LengthsFromTo(cl, 0, n) == BitsOf(cl[OrderAt(0)], 3) + LengthsFromTo(cl, 1, n)
  {
    hide OrderAt, BitsOf;
  }

  lemma Regrouped(a: seq<bool>, b: seq<bool>, c: seq<bool>, d: seq<bool>)
    ensures a + b + c + d == a + (b + c) + d
  {
  }

  lemma HeaderBitsAre(final: bool, hlit: nat, hdist: nat, hclen: nat, cl: seq<nat>, symbols: seq<RlCode>)
    requires |cl| == HUFF_LEN && hclen + 4 <= HUFF_LEN
    requires forall i :: 0 <= i < |symbols| ==> symbols[i].code < HUFF_LEN
    ensures HeaderBits(final, hlit, hdist, hclen, cl, symbols)
         == StartBits(final, hlit, hdist, hclen) + CodeLengthCodeBits(cl, hclen + 4) + SymbolsBits(cl, symbols)
  {
    hide StartBits, CodeLengthCodeBits, SymbolsBits;
  }

  lemma WritableAt(cl: seq<nat>, symbols: seq<RlCode>, i: nat)
    requires DynamicHeader.Writable(cl, symbols) && i < |symbols|
    ensures Used(cl, symbols[i].code) && symbols[i].extraBits < Pow2(RlExtraBits(symbols[i].code))
    ensures forall k :: 0 <= k < |symbols| ==> symbols[k].code < |cl|
  {
  }

  lemma SymbolsUpTo(cl: seq<nat>, symbols: seq<RlCode>, i: nat)
    requires DynamicHeader.Writable(cl, symbols) && i < |symbols|
    ensures forall k :: 0 <= k <= i ==> symbols[k].code < |cl|
    ensures SymbolsBits(cl, symbols[..i + 1]) == SymbolsBits(cl, symbols[..i]) + SymbolBits(cl, symbols[i])
  {
    hide SymbolBits, Fits;
    assert symbols[..i + 1] == symbols[..i] + [symbols[i]];
    SymbolsSnoc(cl, symbols[..i], symbols[i]);
  }

  lemma NoSymbols(cl: seq<nat>, symbols: seq<RlCode>)
    requires symbols == []
    ensures SymbolsBits(cl, symbols) == []
  {
  }

  // The loop over the run length symbols.
  method WriteSymbols(bb: BitBuf2, lookup: array<HuffCode>, rep: array<RlCode>, length: nat, ghost cl: seq<nat>)
    requires bb.Valid() && bb.count < 8 && bb.Stored() && length <= rep.Length
    requires CodesStored(lookup[..], cl) && DynamicHeader.Writable(cl, rep[..length])
    requires forall i :: 0 <= i < length ==> rep[i].code < |cl|
    requires HasRoom(bb, |SymbolsBits(cl, rep[..length])|)
    modifies bb`out, bb`bits, bb`count, bb.buf
    ensures bb.Valid() && bb.count < 8 && bb.Stored()
    ensures bb.Contents() == old(bb.Contents()) + SymbolsBits(cl, rep[..length])
    ensures old(bb.out) <= bb.out && bb.buf[..old(bb.out)] == old(bb.buf[..bb.out])
  {
    hide CodesStored, DynamicHeader.Writable, BitBuf2.Contents, SymbolsBits, SymbolBits, Used, Pow2;
    ghost var before, symbols := bb.Contents(), rep[..length];
    NoSymbols(cl, rep[..0]);
    for i := 0 to length
      invariant bb.Valid() && bb.count < 8 && bb.Stored()
      invariant old(bb.out) <= bb.out && bb.buf[..old(bb.out)] == old(bb.buf[..bb.out])
      invariant bb.Contents() == before + SymbolsBits(cl, rep[..i])
    {
      WritableAt(cl, symbols, i);
      SymbolsUpTo(cl, symbols, i);
      SymbolsPrefix(cl, symbols, i + 1);
      assert symbols[..i] == rep[..i] && symbols[..i + 1] == rep[..i + 1];
      WriteSymbol(bb, lookup, rep[i], cl);
    }
  }

  lemma FieldBounds(hlit: nat, hdist: nat, hclen: nat)
    requires hclen + 4 <= HUFF_LEN && hlit + 257 <= LITERALS && hdist + 1 <= DISTANCES
    ensures hlit < Pow2(5) && hdist < Pow2(5) && hclen < Pow2(4) && 3 * (hclen + 3) <= MAX_BITBUF_BIT_WRITE
  {
    assert Pow2(5) == 32 && Pow2(4) == 16;
  }

  lemma StoredBounds(lookup: seq<HuffCode>, cl: seq<nat>)
    requires CodesStored(lookup, cl)
    ensures |cl| == |lookup| == HUFF_LEN && cl == Lengths(lookup) && lookup[OrderAt(0)].length == cl[OrderAt(0)]
    ensures forall i :: 0 <= i < HUFF_LEN ==> cl[i] < Pow2(3)
  {
    EightIs();
    hide Fits, StoresCode, Pow2, OrderAt;
  }

  // What was written before stays.
  lemma PrefixKept<T>(s: seq<T>, t: seq<T>, u: seq<T>, n: nat, m: nat)
    requires n <= m <= |s| && n <= |t| && m <= |u| && s[..n] == t[..n] && u[..m] == s[..m]
    ensures u[..n] == t[..n]
  {
    assert u[..n] == u[..m][..n] && s[..n] == s[..m][..n];
  }

  // The first two words of a header.
  method WriteStart(bb: BitBuf2, lookup: array<HuffCode>, final: bool, hclen: nat, hlit: nat, hdist: nat, ghost cl: seq<nat>)
    requires bb.Valid() && bb.count < 8 && |cl| == HUFF_LEN
    requires lookup.Length == HUFF_LEN && CodesStored(lookup[..], cl)
    requires hclen + 4 <= HUFF_LEN && hlit + 257 <= LITERALS && hdist + 1 <= DISTANCES
    requires HasRoom(bb, 20 + 3 * (hclen + 3))
    modifies bb`out, bb`bits, bb`count, bb.buf
    ensures bb.Valid() && bb.count < 8 && bb.Stored()
    ensures bb.Contents() == old(bb.Contents()) + (StartBits(final, hlit, hdist, hclen) + BitsOf(cl[OrderAt(0)], 3)
                             + LengthsFromTo(cl, 1, hclen + 4))
    ensures old(bb.out) <= bb.out && bb.buf[..old(bb.out)] == old(bb.buf[..bb.out])
  {
    hide CodesStored, BitBuf2.Contents, StartWord, StartBits, LengthsFromTo, Pow2, BitsOf, OrderAt, Lengths,
      CODE_LENGTH_CODE_ORDER;
    OrderAgrees();
    FieldBounds(hlit, hdist, hclen);
    StoredBounds(lookup[..], cl);
    StartWordBits(final, hlit, hdist, hclen, cl[OrderAt(0)]);
    ghost var before, out0 := bb.buf[..], bb.out;
    bb.WriteBits(StartWord(final, hlit, hdist, hclen, lookup[CODE_LENGTH_CODE_ORDER[0]].length), 20);
    ghost var middle, out1 := bb.buf[..], bb.out;
    var data := PackLengths(lookup, hclen, cl);
    bb.WriteBits(data, 3 * (hclen + 3));
    PrefixKept(middle, before, bb.buf[..], out0, out1);
  }

  // create_huffman_header
  method CreateHuffmanHeader(bb: BitBuf2, lookup: array<HuffCode>, rep: array<RlCode>, length: nat, final: bool,
                             hclen: nat, hlit: nat, hdist: nat, ghost cl: seq<nat>)
    requires bb.Valid() && bb.count < 8 && length <= rep.Length && |cl| == HUFF_LEN
    requires lookup.Length == HUFF_LEN && CodesStored(lookup[..], cl) && DynamicHeader.Writable(cl, rep[..length])
    requires hclen + 4 <= HUFF_LEN && hlit + 257 <= LITERALS && hdist + 1 <= DISTANCES
    requires forall i :: 0 <= i < length ==> rep[i].code < HUFF_LEN
    requires HasRoom(bb, |HeaderBits(final, hlit, hdist, hclen, cl, rep[..length])|)
    modifies bb`out, bb`bits, bb`count, bb.buf
    ensures bb.Valid() && bb.count < 8 && bb.Stored() && bb.out + 8 <= bb.buf.Length
    ensures bb.Contents() == old(bb.Contents()) + HeaderBits(final, hlit, hdist, hclen, cl, rep[..length])
    ensures old(bb.out) <= bb.out && bb.buf[..old(bb.out)] == old(bb.buf[..bb.out])
  {
    hide CodesStored, DynamicHeader.Writable, BitBuf2.Contents, SymbolsBits, StartBits, HeaderBits, LengthsFromTo, Pow2,
      BitsOf, OrderAt, Lengths;
    StartCodes(final, hlit, hdist, hclen, cl, rep[..length]);
    ghost var before, out0 := bb.buf[..], bb.out;
    WriteStart(bb, lookup, final, hclen, hlit, hdist, cl);
    ghost var middle, out1 := bb.buf[..], bb.out;
    WriteSymbols(bb, lookup, rep, length, cl);
    PrefixKept(middle, before, bb.buf[..], out0, out1);
  }

  // combined_table: the lengths of the codes lit[from] to lit[from + n - 1] and dist[0] to dist[m - 1]
  method CombineLengths(lit: array<HuffCode>, from: nat, n: nat, dist: array<HuffCode>, m: nat)
    returns (combined: array<nat>)
    requires from + n <= lit.Length && m <= dist.Length && n <= LITERALS && m <= DISTANCES
    ensures fresh(combined) && combined.Length == LITERALS + DISTANCES
    ensures combined[..n + m] == Lengths(lit[from..from + n]) + Lengths(dist[..m])
  {
    combined := new nat[LITERALS + DISTANCES](_ => 0);
    for i := 0 to n
      invariant forall k :: 0 <= k < i ==> combined[k] == lit[from + k].length
    {
      combined[i] := lit[from + i].length;
    }
    for i := 0 to m
      invariant forall k :: 0 <= k < n ==> combined[k] == lit[from + k].length
      invariant forall k :: n <= k < n + i ==> combined[k] == dist[k - n].length
    {
      combined[i + n] := dist[i].length;
    }
    Combined(combined[..n + m], lit[from..from + n], dist[..m]);
  }

  lemma Combined(combined: seq<nat>, lit: seq<HuffCode>, dist: seq<HuffCode>)
    requires |combined| == |lit| + |dist|
    requires forall k :: 0 <= k < |lit| ==> combined[k] == lit[k].length
    requires forall k :: |lit| <= k < |combined| ==> combined[k] == dist[k - |lit|].length
    ensures combined == Lengths(lit) + Lengths(dist)
  {
  }

  // ---- create_header ----

  // The symbols that the counts were taken from, and that expand to lengths, can be written.
  lemma SymbolsWritable(cl: seq<nat>, symbols: seq<RlCode>, counts: seq<nat>)
    requires |cl| == |counts| == HUFF_LEN && Fits(cl) && RlExpand(symbols).Some?
    requires forall c :: 0 <= c < HUFF_LEN ==> counts[c] == CountCode(symbols, c)
    requires forall c :: 0 <= c < HUFF_LEN && counts[c] != 0 ==> cl[c] > 0
    ensures DynamicHeader.Writable(cl, symbols)
  {
    hide Fits, RlExpand, Pow2;
    forall i | 0 <= i < |symbols|
      ensures Used(cl, symbols[i].code) && symbols[i].extraBits < Pow2(RlExtraBits(symbols[i].code))
    {
      ExpandStep(symbols, i);
      EmitBounds(RlExpand(symbols[..i]).value, symbols[i]);
      CodeCounted(symbols, i);
    }
  }

  lemma EmitBounds(lengths: seq<nat>, s: RlCode)
    requires RlEmit(lengths, s).Some?
    ensures s.code < HUFF_LEN && s.extraBits < Pow2(RlExtraBits(s.code))
  {
  }

  lemma {:induction false} CodeCounted(symbols: seq<RlCode>, i: nat)
    requires i < |symbols|
    ensures CountCode(symbols, symbols[i].code) > 0
  {
    if i < |symbols| - 1 {
      CodeCounted(symbols[..|symbols| - 1], i);
    }
  }

  function SymbolCounts(symbols: seq<RlCode>): (c: seq<nat>)
    ensures |c| == HUFF_LEN
  {
    seq(HUFF_LEN, (i: nat) => CountCode(symbols, i))
  }

  // A code of all words of 7 bits for the symbols that need one, and a cheap one.
  ghost predicate CompleteFor(cl: seq<nat>, counts: seq<nat>) {
    && |cl| == HUFF_LEN == |counts| && Kraft(Counts(cl), 7) == Pow2(7) && (forall c :: 0 <= c < HUFF_LEN ==> cl[c] <= 7)
    && (forall c :: 0 <= c < HUFF_LEN ==> (cl[c] > 0 <==> c in Coded(counts, HUFF_LEN)))
    && CheapWithin(cl, counts)
  }

  // The more frequent symbol has no longer code, and no code costs less unless that is too long.
  ghost predicate CheapWithin(cl: seq<nat>, counts: seq<nat>) {
    |counts| == HUFF_LEN && (
      SumUpTo(counts, HUFF_LEN) + 2 < HuffMerge.FREQ_BOUND ==>
        ByFrequency(cl, Coded(counts, HUFF_LEN), Padded(counts, HUFF_LEN))
        && (LeastCode(cl, Coded(counts, HUFF_LEN), Padded(counts, HUFF_LEN))
            || LimitMatters(Coded(counts, HUFF_LEN), Padded(counts, HUFF_LEN), HUFF_LEN, 7)))
  }

  // The codes of the run length symbols, within 7 bits.
  method CodeLengthCodes(histogram: array<nat>, lookup: array<HuffCode>) returns (ghost cl: seq<nat>)
    requires histogram.Length == HUFF_LEN == lookup.Length
    modifies lookup
    ensures CodesStored(lookup[..], cl)
    ensures forall c :: 0 <= c < HUFF_LEN && histogram[c] != 0 ==> cl[c] > 0
    ensures CompleteFor(cl, histogram[..])
  {
    hide Coded, CodeLengths, Fits, Kraft, Assigned, Lengths, Labels, Ordered, Symbols, LastUsed, Count, Pow2, Padded,
      CompleteFor, WordsOf, ByFrequency, LeastCode, LimitMatters, GivenBy, SumUpTo, CheapWithin;
    var heap := new Word[HEAP_TREE_SIZE](_ => 0);
    var blCount := new nat[MAX_HUFF_TREE_DEPTH + 1](_ => 0);
    ghost var h := histogram[..HUFF_LEN];
    var heapSize := InitHeap(heap, histogram, HUFF_LEN, HUFF_LEN);
    CodedDistinct(h, HUFF_LEN);
    EnoughShortWords(heapSize);
    ghost var f := Padded(h, HUFF_LEN);
    if SumUpTo(h, HUFF_LEN) + 2 < HuffMerge.FREQ_BOUND {
      HistogramGiven(heap[1..heapSize + 1], h, HUFF_LEN);
    }
    var ok := GenHuffCodeLens(heap, heapSize, blCount, lookup, 0, HUFF_LEN, 7, Coded(h, HUFF_LEN), HUFF_LEN, f, 0);
    assert lookup[0..0 + HUFF_LEN] == lookup[..];
    cl := Lengths(lookup[..]);
    assert h == histogram[..];
    IsCheap(cl, h);
    ShortLengths(lookup[..], cl, h, blCount[..]);
    ghost var before := lookup[..];
    var maxCode := SetHuffCodes(lookup, 0, HUFF_LEN, blCount, false, 7);
    forall q | 0 <= q < HUFF_LEN ensures StoresCode(lookup[q], cl, q) {
      AssignedStores(lookup[q], before[q], cl, q);
    }
  }

  lemma IsCheap(cl: seq<nat>, h: seq<nat>)
    requires |h| == HUFF_LEN
    requires SumUpTo(h, HUFF_LEN) + 2 < HuffMerge.FREQ_BOUND ==>
               ByFrequency(cl, Coded(h, HUFF_LEN), Padded(h, HUFF_LEN))
               && (LeastCode(cl, Coded(h, HUFF_LEN), Padded(h, HUFF_LEN))
                   || LimitMatters(Coded(h, HUFF_LEN), Padded(h, HUFF_LEN), HUFF_LEN, 7))
    ensures CheapWithin(cl, h)
  {
  }

  lemma EnoughShortWords(n: nat)
    requires n <= HUFF_LEN
    ensures n <= Pow2(7)
  {
    assert Pow2(7) == 128;
  }

  lemma AssignedStores(h: HuffCode, before: HuffCode, lengths: seq<nat>, i: nat)
    requires i < |lengths| && Assigned(h, before, lengths, i, false)
    ensures StoresCode(h, lengths, i)
  {
  }

  // A complete code within 7 bits is one within 15.
  lemma ShortLengths(lookup: seq<HuffCode>, cl: seq<nat>, h: seq<nat>, blCount: seq<nat>)
    requires |lookup| == HUFF_LEN == |h| && cl == Lengths(lookup) && CodeLengths(cl, Coded(h, HUFF_LEN), blCount, 7)
    ensures Fits(cl) && |blCount| > 7 && blCount[0] == 0
    ensures forall i :: 0 <= i < HUFF_LEN ==> cl[i] < 8 && lookup[i].length <= 7
    ensures forall l :: 1 <= l <= 7 ==> blCount[l] == Count(cl, l)
    ensures forall c :: 0 <= c < HUFF_LEN && h[c] != 0 ==> cl[c] > 0
    ensures CheapWithin(cl, h) ==> CompleteFor(cl, h)
  {
    hide Count, Coded, Kraft, Pow2, CheapWithin;
    forall l: nat | 7 < l ensures Count(cl, l) == 0 {
      CodeLens.CountZero(cl, l);
    }
    CodeLens.KraftUp(Counts(cl), 7, MAX_BITS);
    forall c | 0 <= c < HUFF_LEN && h[c] != 0 ensures cl[c] > 0 {
      CodedIf(h, HUFF_LEN, c);
    }
  }

  // Whatever follows, the bits are a block header that gives these code lengths.
  ghost predicate HeaderIs(bits: seq<bool>, h: Header) {
    forall rest: seq<bool> :: ReadHeader(bits + rest) == Some((h, rest))
  }

  // Nothing but the first field depends on the first bit.
  lemma SameButFinal(a: seq<bool>, b: seq<bool>)
    requires |a| >= 17 && |b| >= 17 && a[1..3] == b[1..3] && a[3..8] == b[3..8] && a[8..13] == b[8..13]
    requires a[13..17] == b[13..17] && a[17..] == b[17..] && ReadHeader(a).Some?
    ensures ReadHeader(a).value.0.final == (Value(a[..1]) == 1)
    ensures ReadHeader(b)
         == Some((ReadHeader(a).value.0.(final := Value(b[..1]) == 1), ReadHeader(a).value.1))
  {
    hide ReadCodeLengthCodes, ReadLengths, Value;
  }

  // The first bit of a header is BFINAL.
  lemma ClearedHeader(bits: seq<bool>, ll: seq<nat>, dd: seq<nat>)
    requires HeaderIs(bits, Header(true, ll, dd))
    ensures bits != [] && bits[0] && HeaderIs(bits[0 := false], Header(false, ll, dd))
  {
    HeaderLong(bits, Header(true, ll, dd));
    hide ReadHeader, Value;
    BitValue(bits[0]);
    BitValue(false);
    forall rest: seq<bool> ensures bits[0] && ReadHeader(bits[0 := false] + rest) == Some((Header(false, ll, dd), rest)) {
      OtherFields(bits, rest);
      SameButFinal(bits + rest, bits[0 := false] + rest);
    }
    assert bits[0] by {
      OtherFields(bits, []);
      SameButFinal(bits + [], bits[0 := false] + []);
    }
  }

  lemma HeaderLong(bits: seq<bool>, h: Header)
    requires HeaderIs(bits, h)
    ensures |bits| >= 17
  {
    assert bits + [] == bits;
  }

  lemma BitValue(b: bool)
    ensures Value([b]) == if b then 1 else 0
  {
    assert [b][1..] == [];
  }

  lemma OtherFields(bits: seq<bool>, rest: seq<bool>)
    requires |bits| >= 17
    ensures
      var a, b := bits + rest, bits[0 := false] + rest;
      && a[1..3] == b[1..3] && a[3..8] == b[3..8] && a[8..13] == b[8..13] && a[13..17] == b[13..17] && a[17..] == b[17..]
      && a[..1] == [bits[0]] && b[..1] == [false]
  {
  }

  // How many of the lengths of the code length codes are stored, less four.
  method LastStored(lookup: array<HuffCode>, ghost cl: seq<nat>) returns (hclen: nat)
    requires lookup.Length == HUFF_LEN && cl == Lengths(lookup[..])
    ensures hclen + 4 <= HUFF_LEN && forall i :: hclen + 4 <= i < HUFF_LEN ==> cl[OrderAt(i)] == 0
    ensures hclen == 0 || cl[OrderAt(hclen + 3)] != 0
  {
    hide OrderAt, CODE_LENGTH_CODE_ORDER;
    OrderAgrees();
    var i := HUFF_LEN - 1;
    while i > 3
      invariant 3 <= i < HUFF_LEN && forall k :: i < k < HUFF_LEN ==> cl[OrderAt(k)] == 0
    {
      assert lookup[OrderAt(i)].length == cl[OrderAt(i)];
      if lookup[CODE_LENGTH_CODE_ORDER[i]].length != 0 {
        break;
      }
      i := i - 1;
    }
    hclen := i - 3;
  }

  // No more lengths of codes for these symbols than up to the last one.
  ghost predicate CodesUpTo(cl: seq<nat>, hclen: nat, symbols: seq<RlCode>) {
    && |cl| == HUFF_LEN && CompleteFor(cl, SymbolCounts(symbols)) && hclen + 4 <= HUFF_LEN
    && (forall i :: hclen + 4 <= i < HUFF_LEN ==> cl[OrderAt(i)] == 0) && (hclen == 0 || cl[OrderAt(hclen + 3)] != 0)
    && forall i :: 0 <= i < |symbols| ==> symbols[i].code < HUFF_LEN
  }

  // The header that create_header writes for these symbols.
  ghost predicate HeaderFor(bits: seq<bool>, final: bool, hlit: nat, hdist: nat, symbols: seq<RlCode>) {
    exists cl: seq<nat>, hclen: nat ::
      CodesUpTo(cl, hclen, symbols) && bits == HeaderBits(final, hlit, hdist, hclen, cl, symbols)
  }

  lemma HeaderMade(final: bool, hlit: nat, hdist: nat, hclen: nat, cl: seq<nat>, symbols: seq<RlCode>, counts: seq<nat>)
    requires |cl| == HUFF_LEN == |counts| && CompleteFor(cl, counts) && hclen + 4 <= HUFF_LEN
    requires (forall i :: hclen + 4 <= i < HUFF_LEN ==> cl[OrderAt(i)] == 0) && (hclen == 0 || cl[OrderAt(hclen + 3)] != 0)
    requires forall c :: 0 <= c < HUFF_LEN ==> counts[c] == CountCode(symbols, c)
    requires forall i :: 0 <= i < |symbols| ==> symbols[i].code < HUFF_LEN
    ensures HeaderFor(HeaderBits(final, hlit, hdist, hclen, cl, symbols), final, hlit, hdist, symbols)
  {
    hide CompleteFor, OrderAt, HeaderBits;
    assert SymbolCounts(symbols) == counts;
    assert CodesUpTo(cl, hclen, symbols);
  }

  lemma HeaderBitsRead(final: bool, hlit: nat, hdist: nat, hclen: nat, cl: seq<nat>, symbols: seq<RlCode>, lengths: seq<nat>)
    requires |cl| == HUFF_LEN && hclen + 4 <= HUFF_LEN && hlit + 257 <= LITERALS && hdist + 1 <= DISTANCES
    requires (forall i :: 0 <= i < HUFF_LEN ==> cl[i] < 8)
          && forall i :: hclen + 4 <= i < HUFF_LEN ==> cl[OrderAt(i)] == 0
    requires DynamicHeader.Writable(cl, symbols) && RlExpand(symbols) == Some(lengths)
    requires |lengths| == hlit + 257 + hdist + 1
    ensures forall i :: 0 <= i < |symbols| ==> symbols[i].code < HUFF_LEN
    ensures SplitLengths(final, lengths, hlit, hdist).Some?
    ensures HeaderIs(HeaderBits(final, hlit, hdist, hclen, cl, symbols), SplitLengths(final, lengths, hlit, hdist).value)
  {
    HeaderRead(final, hlit, hdist, hclen, cl, symbols, lengths, []);
    hide HeaderBits, ReadHeader, SplitLengths, DynamicHeader.Writable, RlExpand, OrderAt;
    forall rest: seq<bool>
      ensures ReadHeader(HeaderBits(final, hlit, hdist, hclen, cl, symbols) + rest)
           == Some((SplitLengths(final, lengths, hlit, hdist).value, rest))
    {
      HeaderRead(final, hlit, hdist, hclen, cl, symbols, lengths, rest);
    }
  }

  // create_header: what it writes is read back to the lengths behind the run length symbols, and is
  // made of a complete code for them that is stored up to its last length.
  method CreateHeader(bb: BitBuf2, rep: array<RlCode>, length: nat, histogram: array<nat>, hlit: nat, hdist: nat,
                      final: bool, ghost lengths: seq<nat>)
    requires bb.Valid() && bb.count < 8 && length <= rep.Length && bb.out + HEADER_ROOM <= bb.buf.Length
    requires histogram.Length == HUFF_LEN && hlit + 257 <= LITERALS && hdist + 1 <= DISTANCES
    requires RlExpand(rep[..length]) == Some(lengths) && |lengths| == hlit + 257 + hdist + 1
    requires forall c :: 0 <= c < HUFF_LEN ==> histogram[c] == CountCode(rep[..length], c)
    modifies bb`out, bb`bits, bb`count, bb.buf
    ensures bb.Valid() && bb.count < 8 && bb.Stored() && bb.out + 8 <= bb.buf.Length
    ensures old(bb.Contents()) <= bb.Contents()
    ensures SplitLengths(final, lengths, hlit, hdist).Some?
    ensures HeaderIs(bb.Contents()[|old(bb.Contents())|..], SplitLengths(final, lengths, hlit, hdist).value)
    ensures HeaderFor(bb.Contents()[|old(bb.Contents())|..], final, hlit, hdist, rep[..length])
    ensures |bb.Contents()| + 64 <= |old(bb.Contents())| + 8 * 294
    ensures old(bb.out) <= bb.out && bb.buf[..old(bb.out)] == old(bb.buf[..bb.out])
  {
    hide *;
    var lookup := new HuffCode[HUFF_LEN](_ => HuffCode(0, 0, 0));
    ghost var cl := CodeLengthCodes(histogram, lookup);
    StoredShort(lookup[..], cl);
    SymbolsWritable(cl, rep[..length], histogram[..]);
    var hclen := LastStored(lookup, cl);
    HeaderBitsRead(final, hlit, hdist, hclen, cl, rep[..length], lengths);
    HeaderShort(final, hlit, hdist, hclen, cl, rep[..length]);
    HeaderMade(final, hlit, hdist, hclen, cl, rep[..length], histogram[..]);
    EnoughRoom(bb, |HeaderBits(final, hlit, hdist, hclen, cl, rep[..length])|);
    CreateHuffmanHeader(bb, lookup, rep, length, final, hclen, hlit, hdist, cl);
  }

  lemma EnoughRoom(bb: BitBuf2, n: nat)
    requires bb.count < 8 && bb.out + HEADER_ROOM <= bb.buf.Length && n + 7 + 57 <= 8 * HEADER_ROOM
    ensures HasRoom(bb, n)
  {
  }

  lemma StoredShort(lookup: seq<HuffCode>, cl: seq<nat>)
    requires CodesStored(lookup, cl)
    ensures |cl| == |lookup| == HUFF_LEN && Fits(cl) && cl == Lengths(lookup)
    ensures forall i :: 0 <= i < HUFF_LEN ==> cl[i] < 8
  {
    hide Fits, StoresCode;
  }
}
