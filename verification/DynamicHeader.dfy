/** The header of a block with dynamic codes, and its reader. */
module DynamicHeader {
  import opened Rfc1951
  import opened Bits
  import opened Canonical
  import opened Inflate
  import opened RunLength

  const LITERALS := 286
  const DISTANCES := 30

  // The order in which the lengths of the code length codes are stored, section 3.2.7 of RFC 1951.
  function OrderAt(i: nat): (c: nat)
    requires i < HUFF_LEN
    ensures c < HUFF_LEN
  {
    match i
    case 0 => 16 case 1 => 17 case 2 => 18 case 3 => 0 case 4 => 8 case 5 => 7 case 6 => 9 case 7 => 6
    case 8 => 10 case 9 => 5 case 10 => 11 case 11 => 4 case 12 => 12 case 13 => 3 case 14 => 13
    case 15 => 2 case 16 => 14 case 17 => 1 case _ => 15
  }

  // The first n lengths of the code length codes, three bits each; the others are zero.
  function ReadCodeLengthCodes(bits: seq<bool>, n: nat): (r: Option<(seq<nat>, seq<bool>)>)
    requires n <= HUFF_LEN
    ensures r.Some? ==> |r.value.0| == HUFF_LEN
    decreases n
  {
    if n == 0 then Some((Repeat(0, HUFF_LEN), bits))
    else
      match ReadCodeLengthCodes(bits, n - 1)
      case None => None
      case Some((lengths, rest)) =>
        match ReadNumber(rest, 3)
        case None => None
        case Some((v, rest')) => Some((lengths[OrderAt(n - 1) := v], rest'))
  }

  // Code lengths until there are total of them; a run must not go beyond.
  ghost function ReadLengths(cl: seq<nat>, lengths: seq<nat>, total: nat, bits: seq<bool>): Option<(seq<nat>, seq<bool>)>
    decreases total - |lengths|
  {
    if |lengths| == total then Some((lengths, bits))
    else if |lengths| > total then None
    else
      match ReadSymbol(cl, bits)
      case None => None
      case Some((code, rest)) =>
        match ReadNumber(rest, RlExtraBits(code))
        case None => None
        case Some((extra, rest')) =>
          match RlEmit(lengths, RlCode(code, extra))
          case None => None
          case Some(more) => if |more| > |lengths| then ReadLengths(cl, more, total, rest') else None
  }

  datatype Header = Header(final: bool, ll: seq<nat>, dd: seq<nat>)

  // Lengths that the header leaves out are zero.
  function SplitLengths(final: bool, lengths: seq<nat>, hlit: nat, hdist: nat): Option<Header>
    requires |lengths| == hlit + 257 + hdist + 1
  {
    if hlit + 257 > LITERALS || hdist + 1 > DISTANCES then None
    else Some(Header(final, lengths[..hlit + 257] + Repeat(0, LITERALS - 257 - hlit),
                     lengths[hlit + 257..] + Repeat(0, DISTANCES - 1 - hdist)))
  }

  // BFINAL, BTYPE, HLIT, HDIST and HCLEN, then the lengths.
  ghost function ReadHeader(bits: seq<bool>): Option<(Header, seq<bool>)> {
    if |bits| < 17 then None
    else
      var final, btype := Value(bits[..1]), Value(bits[1..3]);
      var hlit, hdist, hclen := Value(bits[3..8]), Value(bits[8..13]), Value(bits[13..17]);
      if btype != 2 || hclen + 4 > HUFF_LEN then None
      else
        match ReadCodeLengthCodes(bits[17..], hclen + 4)
        case None => None
        case Some((cl, rest)) =>
          match ReadLengths(cl, [], hlit + 257 + hdist + 1, rest)
          case None => None
          case Some((lengths, rest')) =>
            if |lengths| != hlit + 257 + hdist + 1 then None
            else
              match SplitLengths(final == 1, lengths, hlit, hdist)
              case None => None
              case Some(h) => Some((h, rest'))
  }

  // A whole block: whether it is the last one, what it holds, and the bits behind it.
  ghost function ReadDynamicBlock(bits: seq<bool>): Option<(bool, seq<Item>, seq<bool>)> {
    match ReadHeader(bits)
    case None => None
    case Some((h, rest)) =>
      match ReadBlock(h.ll, h.dd, rest)
      case None => None
      case Some((items, rest')) => Some((h.final, items, rest'))
  }

  // ---- what is written is read back ----

  // The bits of the first n lengths of the code length codes.
  function CodeLengthCodeBits(cl: seq<nat>, n: nat): (b: seq<bool>)
    requires |cl| == HUFF_LEN && n <= HUFF_LEN
    ensures |b| == 3 * n
    decreases n
  {
    if n == 0 then [] else CodeLengthCodeBits(cl, n - 1) + BitsOf(cl[OrderAt(n - 1)], 3)
  }

  // The lengths stored so far, in their places.
  ghost predicate StoredFirst(lengths: seq<nat>, cl: seq<nat>, n: nat)
    requires n <= HUFF_LEN
  {
    && |lengths| == |cl| == HUFF_LEN
    && forall i :: 0 <= i < HUFF_LEN ==> lengths[OrderAt(i)] == if i < n then cl[OrderAt(i)] else 0
  }

  lemma OrderDistinct(i: nat, j: nat)
    requires i < HUFF_LEN && j < HUFF_LEN && i != j
    ensures OrderAt(i) != OrderAt(j)
  {
  }

  lemma {:induction false} CodeLengthCodesRead(cl: seq<nat>, n: nat, rest: seq<bool>)
    requires |cl| == HUFF_LEN && n <= HUFF_LEN && forall i :: 0 <= i < HUFF_LEN ==> cl[i] < 8
    ensures
      var r := ReadCodeLengthCodes(CodeLengthCodeBits(cl, n) + rest, n);
      r.Some? && r.value.1 == rest && StoredFirst(r.value.0, cl, n)
    decreases n
  {
    hide *;
    if n == 0 {
      NoneStored(cl, rest);
    } else {
      var v := cl[OrderAt(n - 1)];
      var rest' := BitsOf(v, 3) + rest;
      CodeLengthCodesRead(cl, n - 1, rest');
      MoreBits(cl, n, rest);
      NumberRead(v, 3, rest);
      var before := ReadCodeLengthCodes(CodeLengthCodeBits(cl, n) + rest, n - 1).value.0;
      ReadOneMore(CodeLengthCodeBits(cl, n) + rest, n, before, rest', v, rest);
      StoredOneMore(before, cl, n);
    }
  }

  lemma NoneStored(cl: seq<nat>, rest: seq<bool>)
    requires |cl| == HUFF_LEN
    ensures ReadCodeLengthCodes(CodeLengthCodeBits(cl, 0) + rest, 0) == Some((Repeat(0, HUFF_LEN), rest))
    ensures StoredFirst(Repeat(0, HUFF_LEN), cl, 0)
  {
    hide OrderAt;
    assert [] + rest == rest;
  }

  lemma MoreBits(cl: seq<nat>, n: nat, rest: seq<bool>)
    requires |cl| == HUFF_LEN && 1 <= n <= HUFF_LEN && cl[OrderAt(n - 1)] < 8
    ensures cl[OrderAt(n - 1)] < Pow2(3)
    ensures CodeLengthCodeBits(cl, n) + rest == CodeLengthCodeBits(cl, n - 1) + (BitsOf(cl[OrderAt(n - 1)], 3) + rest)
  {
    EightIs();
    hide OrderAt, BitsOf;
  }

  lemma ReadOneMore(bits: seq<bool>, n: nat, before: seq<nat>, rest: seq<bool>, v: nat, rest': seq<bool>)
    requires 1 <= n <= HUFF_LEN && |before| == HUFF_LEN
    requires ReadCodeLengthCodes(bits, n - 1) == Some((before, rest)) && ReadNumber(rest, 3) == Some((v, rest'))
    ensures ReadCodeLengthCodes(bits, n) == Some((before[OrderAt(n - 1) := v], rest'))
  {
    hide OrderAt, ReadNumber;
  }

  lemma StoredOneMore(lengths: seq<nat>, cl: seq<nat>, n: nat)
    requires 1 <= n <= HUFF_LEN && StoredFirst(lengths, cl, n - 1)
    ensures StoredFirst(lengths[OrderAt(n - 1) := cl[OrderAt(n - 1)]], cl, n)
  {
    hide OrderAt;
    forall i | 0 <= i < HUFF_LEN && i != n - 1 ensures OrderAt(i) != OrderAt(n - 1) {
      OrderDistinct(i, n - 1);
    }
  }

  lemma EightIs()
    ensures Pow2(3) == 8
  {
  }

  // Every code length code has a place in the order.
  lemma OrderOnto(c: nat)
    requires c < HUFF_LEN
    ensures exists i :: 0 <= i < HUFF_LEN && OrderAt(i) == c
  {
    assert OrderAt(0) == 16 && OrderAt(1) == 17 && OrderAt(2) == 18 && OrderAt(3) == 0 && OrderAt(4) == 8;
    assert OrderAt(5) == 7 && OrderAt(6) == 9 && OrderAt(7) == 6 && OrderAt(8) == 10 && OrderAt(9) == 5;
    assert OrderAt(10) == 11 && OrderAt(11) == 4 && OrderAt(12) == 12 && OrderAt(13) == 3 && OrderAt(14) == 13;
    assert OrderAt(15) == 2 && OrderAt(16) == 14 && OrderAt(17) == 1 && OrderAt(18) == 15;
  }

  // With zeros behind the first n, the lengths read are the lengths written.
  lemma StoredIsAll(lengths: seq<nat>, cl: seq<nat>, n: nat)
    requires n <= HUFF_LEN && StoredFirst(lengths, cl, n)
    requires forall i :: n <= i < HUFF_LEN ==> cl[OrderAt(i)] == 0
    ensures lengths == cl
  {
    forall c | 0 <= c < HUFF_LEN ensures lengths[c] == cl[c] {
      OrderOnto(c);
      var i :| 0 <= i < HUFF_LEN && OrderAt(i) == c;
    }
  }

  // The bits of the run length symbols from number k on.
  function SymbolBits(cl: seq<nat>, s: RlCode): seq<bool>
    requires s.code < |cl|
  {
    CodeBits(cl, s.code) + BitsOf(s.extraBits, RlExtraBits(s.code))
  }

  ghost predicate Writable(cl: seq<nat>, symbols: seq<RlCode>) {
    && Fits(cl)
    && forall i :: 0 <= i < |symbols| ==>
         Used(cl, symbols[i].code) && symbols[i].extraBits < Pow2(RlExtraBits(symbols[i].code))
  }

  function SymbolsBits(cl: seq<nat>, symbols: seq<RlCode>): seq<bool>
    requires forall i :: 0 <= i < |symbols| ==> symbols[i].code < |cl|
  {
    if symbols == [] then [] else SymbolBits(cl, symbols[0]) + SymbolsBits(cl, symbols[1..])
  }

  lemma ExpandStep(symbols: seq<RlCode>, k: nat)
    requires k < |symbols| && RlExpand(symbols).Some?
    ensures RlExpand(symbols[..k]).Some? && RlExpand(symbols[..k + 1]).Some?
    ensures RlEmit(RlExpand(symbols[..k]).value, symbols[k]) == RlExpand(symbols[..k + 1])
    decreases |symbols|
  {
    var last := |symbols| - 1;
    if k < last {
      ExpandStep(symbols[..last], k);
      assert symbols[..last][..k] == symbols[..k] && symbols[..last][..k + 1] == symbols[..k + 1];
    } else {
      assert symbols[..k + 1] == symbols;
      assert symbols[..k + 1][..k] == symbols[..k];
    }
  }

  lemma EmitGrows(lengths: seq<nat>, s: RlCode)
    requires RlEmit(lengths, s).Some?
    ensures |RlEmit(lengths, s).value| > |lengths|
  {
  }

  lemma {:induction false} ExpandGrows(symbols: seq<RlCode>, k: nat)
    requires k <= |symbols| && RlExpand(symbols).Some?
    ensures RlExpand(symbols[..k]).Some?
    ensures k < |symbols| ==> |RlExpand(symbols[..k]).value| < |RlExpand(symbols).value|
    decreases |symbols| - k
  {
    hide RlEmit, RlExpand;
    if k < |symbols| {
      ExpandStep(symbols, k);
      EmitGrows(RlExpand(symbols[..k]).value, symbols[k]);
      ExpandGrows(symbols, k + 1);
      assert symbols[..|symbols|] == symbols;
    } else {
      assert symbols[..k] == symbols;
    }
  }

  lemma ReadLengthsStep(cl: seq<nat>, lengths: seq<nat>, total: nat, s: RlCode, rest: seq<bool>, more: seq<nat>)
    requires Fits(cl) && Used(cl, s.code) && s.extraBits < Pow2(RlExtraBits(s.code))
    requires |lengths| < total && RlEmit(lengths, s) == Some(more) && |more| > |lengths|
    ensures ReadLengths(cl, lengths, total, SymbolBits(cl, s) + rest) == ReadLengths(cl, more, total, rest)
  {
    hide Fits, CodeBits, BitsOf, ReadSymbol, ReadNumber, RlEmit, RlExtraBits;
    var tail := BitsOf(s.extraBits, RlExtraBits(s.code)) + rest;
    assert SymbolBits(cl, s) + rest == CodeBits(cl, s.code) + tail;
    SymbolRead(cl, s.code, tail);
    NumberRead(s.extraBits, RlExtraBits(s.code), rest);
  }

  // Symbols from number k on are read back to the rest of the lengths.
  lemma {:induction false} LengthsRead(cl: seq<nat>, symbols: seq<RlCode>, k: nat, rest: seq<bool>)
    requires Writable(cl, symbols) && RlExpand(symbols).Some? && k <= |symbols|
    ensures RlExpand(symbols[..k]).Some?
    ensures ReadLengths(cl, RlExpand(symbols[..k]).value, |RlExpand(symbols).value|,
                        SymbolsBits(cl, symbols[k..]) + rest)
         == Some((RlExpand(symbols).value, rest))
    decreases |symbols| - k
  {
    hide RlExpand, RlEmit, SymbolBits, Fits, ReadSymbol, ReadNumber;
    ExpandGrows(symbols, k);
    var total := |RlExpand(symbols).value|;
    if k == |symbols| {
      assert symbols[..k] == symbols;
      assert [] + rest == rest;
    } else {
      var before := RlExpand(symbols[..k]).value;
      ExpandStep(symbols, k);
      EmitGrows(before, symbols[k]);
      LengthsRead(cl, symbols, k + 1, rest);
      hide ReadLengths;
      var tail := SymbolsBits(cl, symbols[k + 1..]) + rest;
      assert symbols[k..][1..] == symbols[k + 1..];
      assert SymbolsBits(cl, symbols[k..]) + rest == SymbolBits(cl, symbols[k]) + tail;
      ReadLengthsStep(cl, before, total, symbols[k], tail, RlExpand(symbols[..k + 1]).value);
    }
  }

  // ---- the header as a whole ----

  function HeaderBits(final: bool, hlit: nat, hdist: nat, hclen: nat, cl: seq<nat>, symbols: seq<RlCode>): seq<bool>
    requires |cl| == HUFF_LEN && hclen + 4 <= HUFF_LEN
    requires forall i :: 0 <= i < |symbols| ==> symbols[i].code < HUFF_LEN
  {
    StartBits(final, hlit, hdist, hclen) + CodeLengthCodeBits(cl, hclen + 4) + SymbolsBits(cl, symbols)
  }

  function StartBits(final: bool, hlit: nat, hdist: nat, hclen: nat): (b: seq<bool>)
    ensures |b| == 17
  {
    BitsOf(if final then 1 else 0, 1) + BitsOf(2, 2) + BitsOf(hlit, 5) + BitsOf(hdist, 5) + BitsOf(hclen, 4)
  }

  lemma StartRead(final: bool, hlit: nat, hdist: nat, hclen: nat)
    requires hlit < 32 && hdist < 32 && hclen < 16
    ensures
      var b := StartBits(final, hlit, hdist, hclen);
      && Value(b[..1]) == (if final then 1 else 0) && Value(b[1..3]) == 2
      && Value(b[3..8]) == hlit && Value(b[8..13]) == hdist && Value(b[13..17]) == hclen
  {
    hide BitsOf, Value, Pow2;
    FieldPowers();
    var f := if final then 1 else 0;
    FieldSlices(BitsOf(f, 1), BitsOf(2, 2), BitsOf(hlit, 5), BitsOf(hdist, 5), BitsOf(hclen, 4));
    ValueOfBits(f, 1);
    ValueOfBits(2, 2);
    ValueOfBits(hlit, 5);
    ValueOfBits(hdist, 5);
    ValueOfBits(hclen, 4);
  }

  lemma FieldPowers()
    ensures Pow2(1) == 2 && Pow2(2) == 4 && Pow2(4) == 16 && Pow2(5) == 32
  {
  }

  lemma FieldSlices(a: seq<bool>, b: seq<bool>, c: seq<bool>, d: seq<bool>, e: seq<bool>)
    requires |a| == 1 && |b| == 2 && |c| == 5 && |d| == 5 && |e| == 4
    ensures
      var s := a + b + c + d + e;
      && |s| == 17 && s[..1] == a && s[1..3] == b && s[3..8] == c && s[8..13] == d && s[13..17] == e
  {
  }

  lemma TailRead(n: nat, cl: seq<nat>, symbols: seq<RlCode>, lengths: seq<nat>, rest: seq<bool>)
    requires |cl| == HUFF_LEN && n <= HUFF_LEN && Writable(cl, symbols) && RlExpand(symbols) == Some(lengths)
    requires (forall i :: 0 <= i < HUFF_LEN ==> cl[i] < 8) && forall i :: n <= i < HUFF_LEN ==> cl[OrderAt(i)] == 0
    ensures forall i :: 0 <= i < |symbols| ==> symbols[i].code < HUFF_LEN
    ensures ReadCodeLengthCodes(CodeLengthCodeBits(cl, n) + (SymbolsBits(cl, symbols) + rest), n)
         == Some((cl, SymbolsBits(cl, symbols) + rest))
    ensures ReadLengths(cl, [], |lengths|, SymbolsBits(cl, symbols) + rest) == Some((lengths, rest))
  {
    CodesBelow(cl, symbols);
    hide *;
    var mid := SymbolsBits(cl, symbols) + rest;
    CodeLengthCodesRead(cl, n, mid);
    StoredIsAll(ReadCodeLengthCodes(CodeLengthCodeBits(cl, n) + mid, n).value.0, cl, n);
    LengthsRead(cl, symbols, 0, rest);
    assert symbols[..0] == [] && symbols[0..] == symbols;
    NothingExpanded();
  }

  lemma HeaderRead(final: bool, hlit: nat, hdist: nat, hclen: nat, cl: seq<nat>, symbols: seq<RlCode>,
                   lengths: seq<nat>, rest: seq<bool>)
    requires |cl| == HUFF_LEN && hclen + 4 <= HUFF_LEN && hlit + 257 <= LITERALS && hdist + 1 <= DISTANCES
    requires (forall i :: 0 <= i < HUFF_LEN ==> cl[i] < 8)
          && forall i :: hclen + 4 <= i < HUFF_LEN ==> cl[OrderAt(i)] == 0
    requires Writable(cl, symbols) && RlExpand(symbols) == Some(lengths) && |lengths| == hlit + 257 + hdist + 1
    ensures forall i :: 0 <= i < |symbols| ==> symbols[i].code < HUFF_LEN
    ensures SplitLengths(final, lengths, hlit, hdist).Some?
    ensures ReadHeader(HeaderBits(final, hlit, hdist, hclen, cl, symbols) + rest)
         == Some((SplitLengths(final, lengths, hlit, hdist).value, rest))
  {
    hide *;
    FieldsSmall(hlit, hdist, hclen);
    CodesBelow(cl, symbols);
    var mid := SymbolsBits(cl, symbols) + rest;
    var tail := CodeLengthCodeBits(cl, hclen + 4) + mid;
    var bits := HeaderBits(final, hlit, hdist, hclen, cl, symbols) + rest;
    HeaderSplit(final, hlit, hdist, hclen, cl, symbols, rest);
    StartFields(final, hlit, hdist, hclen, tail, bits);
    TailRead(hclen + 4, cl, symbols, lengths, rest);
    SplitOk(final, lengths, hlit, hdist);
    ReadHeaderIs(bits, tail, cl, mid, lengths, rest, final, hlit, hdist, hclen);
  }

  lemma FieldsSmall(hlit: nat, hdist: nat, hclen: nat)
    requires hclen + 4 <= HUFF_LEN && hlit + 257 <= LITERALS && hdist + 1 <= DISTANCES
    ensures hlit < 32 && hdist < 32 && hclen < 16
  {
  }

  lemma CodesBelow(cl: seq<nat>, symbols: seq<RlCode>)
    requires |cl| == HUFF_LEN && Writable(cl, symbols)
    ensures forall i :: 0 <= i < |symbols| ==> symbols[i].code < HUFF_LEN
  {
  }

  lemma SplitOk(final: bool, lengths: seq<nat>, hlit: nat, hdist: nat)
    requires |lengths| == hlit + 257 + hdist + 1 && hlit + 257 <= LITERALS && hdist + 1 <= DISTANCES
    ensures SplitLengths(final, lengths, hlit, hdist).Some?
  {
  }

  lemma HeaderSplit(final: bool, hlit: nat, hdist: nat, hclen: nat, cl: seq<nat>, symbols: seq<RlCode>, rest: seq<bool>)
    requires |cl| == HUFF_LEN && hclen + 4 <= HUFF_LEN
    requires forall i :: 0 <= i < |symbols| ==> symbols[i].code < HUFF_LEN
    ensures HeaderBits(final, hlit, hdist, hclen, cl, symbols) + rest
         == StartBits(final, hlit, hdist, hclen) + (CodeLengthCodeBits(cl, hclen + 4) + (SymbolsBits(cl, symbols) + rest))
  {
    hide StartBits, CodeLengthCodeBits, SymbolsBits;
  }

  lemma StartSlices(start: seq<bool>, tail: seq<bool>)
    requires |start| == 17
    ensures
      var bits := start + tail;
      && bits[..1] == start[..1] && bits[1..3] == start[1..3] && bits[3..8] == start[3..8]
      && bits[8..13] == start[8..13] && bits[13..17] == start[13..17] && bits[17..] == tail
  {
  }

  // The fields at the start of the bits.
  ghost predicate Fields(bits: seq<bool>, tail: seq<bool>, final: bool, hlit: nat, hdist: nat, hclen: nat) {
    && |bits| >= 17 && bits[17..] == tail
    && Value(bits[..1]) == (if final then 1 else 0) && Value(bits[1..3]) == 2
    && Value(bits[3..8]) == hlit && Value(bits[8..13]) == hdist && Value(bits[13..17]) == hclen
  }

  lemma StartFields(final: bool, hlit: nat, hdist: nat, hclen: nat, tail: seq<bool>, bits: seq<bool>)
    requires hlit < 32 && hdist < 32 && hclen < 16 && bits == StartBits(final, hlit, hdist, hclen) + tail
    ensures Fields(bits, tail, final, hlit, hdist, hclen)
  {
    hide StartBits, Value;
    StartRead(final, hlit, hdist, hclen);
    StartSlices(StartBits(final, hlit, hdist, hclen), tail);
  }

  lemma ReadHeaderIs(bits: seq<bool>, tail: seq<bool>, cl: seq<nat>, mid: seq<bool>, lengths: seq<nat>, rest: seq<bool>,
                     final: bool, hlit: nat, hdist: nat, hclen: nat)
    requires Fields(bits, tail, final, hlit, hdist, hclen) && hclen + 4 <= HUFF_LEN
    requires ReadCodeLengthCodes(tail, hclen + 4) == Some((cl, mid))
    requires ReadLengths(cl, [], hlit + 257 + hdist + 1, mid) == Some((lengths, rest))
    requires |lengths| == hlit + 257 + hdist + 1 && SplitLengths(final, lengths, hlit, hdist).Some?
    ensures ReadHeader(bits) == Some((SplitLengths(final, lengths, hlit, hdist).value, rest))
  {
    hide Value, ReadCodeLengthCodes, ReadLengths, SplitLengths;
  }

  lemma NothingExpanded()
    ensures RlExpand([]) == Some([])
  {
  }
}
