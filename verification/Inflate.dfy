/** Decoding the data of a block (RFC 1951). */
module Inflate {
  import opened Rfc1951
  import opened Bits
  import opened Canonical

  // Section 3.1.1: a number of n bits, least significant bit first.
  function ReadNumber(bits: seq<bool>, n: nat): Option<(nat, seq<bool>)> {
    if n <= |bits| then Some((Value(bits[..n]), bits[n..])) else None
  }

  // A Huffman code of the given lengths.
  ghost function ReadSymbol(lengths: seq<nat>, bits: seq<bool>): Option<(nat, seq<bool>)> {
    match DecodeSymbol(lengths, bits)
    case None => None
    case Some(sym) => Some((sym, bits[lengths[sym]..]))
  }

  datatype Element = EndOfBlock | Data(item: Item)

  // A distance code with its extra bits.
  ghost function ReadDistance(dd: seq<nat>, bits: seq<bool>): Option<(nat, seq<bool>)> {
    match ReadSymbol(dd, bits)
    case None => None
    case Some((sym, rest)) =>
      if sym >= 30 then None
      else
        match ReadNumber(rest, DistanceExtraBits(sym))
        case None => None
        case Some((extra, rest')) => Some((DistanceBase(sym) + extra, rest'))
  }

  // A literal, a length and distance pair, or the end of the block.
  ghost function ReadElement(ll: seq<nat>, dd: seq<nat>, bits: seq<bool>): Option<(Element, seq<bool>)> {
    match ReadSymbol(ll, bits)
    case None => None
    case Some((sym, rest)) =>
      if sym < 256 then Some((Data(Literal(sym as bv8)), rest))
      else if sym == 256 then Some((EndOfBlock, rest))
      else if sym > 285 then None
      else
        match ReadNumber(rest, LengthExtraBits(sym))
        case None => None
        case Some((extra, rest')) =>
          match ReadDistance(dd, rest')
          case None => None
          case Some((distance, rest'')) => Some((Data(Pair(LengthBase(sym) + extra, distance)), rest''))
  }

  // The items up to the end of the block, and what follows.
  ghost function ReadBlock(ll: seq<nat>, dd: seq<nat>, bits: seq<bool>): Option<(seq<Item>, seq<bool>)>
    decreases |bits|
  {
    match ReadElement(ll, dd, bits)
    case None => None
    case Some((EndOfBlock, rest)) => Some(([], rest))
    case Some((Data(item), rest)) =>
      if |rest| >= |bits| then None
      else
        match ReadBlock(ll, dd, rest)
        case None => None
        case Some((items, rest')) => Some(([item] + items, rest'))
  }

  // ---- what is written is read back ----

  lemma NumberRead(v: nat, n: nat, rest: seq<bool>)
    requires v < Pow2(n)
    ensures ReadNumber(BitsOf(v, n) + rest, n) == Some((v, rest))
  {
    ValueOfBits(v, n);
    assert (BitsOf(v, n) + rest)[..n] == BitsOf(v, n);
    assert (BitsOf(v, n) + rest)[n..] == rest;
  }

  lemma SymbolRead(lengths: seq<nat>, sym: nat, rest: seq<bool>)
    requires Fits(lengths) && Used(lengths, sym)
    ensures ReadSymbol(lengths, CodeBits(lengths, sym) + rest) == Some((sym, rest))
  {
    hide Fits, CodeBits;
    DecodeEncoded(lengths, sym, rest);
    assert (CodeBits(lengths, sym) + rest)[lengths[sym]..] == rest;
  }

  // The bits of a distance symbol with its extra bits.
  function DistanceBits(dd: seq<nat>, sym: nat, extra: nat): seq<bool>
    requires sym < |dd|
  {
    CodeBits(dd, sym) + BitsOf(extra, DistanceExtraBits(sym))
  }

  lemma DistanceRead(dd: seq<nat>, sym: nat, extra: nat, rest: seq<bool>)
    requires Fits(dd) && Used(dd, sym) && sym < 30 && extra < Pow2(DistanceExtraBits(sym))
    ensures ReadDistance(dd, DistanceBits(dd, sym, extra) + rest) == Some((DistanceBase(sym) + extra, rest))
  {
    hide Fits, CodeBits, DistanceExtraBits, DistanceBase, ReadSymbol, ReadNumber;
    var tail := BitsOf(extra, DistanceExtraBits(sym)) + rest;
    assert DistanceBits(dd, sym, extra) + rest == CodeBits(dd, sym) + tail;
    SymbolRead(dd, sym, tail);
    NumberRead(extra, DistanceExtraBits(sym), rest);
  }

  lemma LiteralRead(ll: seq<nat>, dd: seq<nat>, sym: nat, rest: seq<bool>)
    requires Fits(ll) && Used(ll, sym) && sym <= 256
    ensures ReadElement(ll, dd, CodeBits(ll, sym) + rest)
         == Some((if sym == 256 then EndOfBlock else Data(Literal(sym as bv8)), rest))
  {
    hide Fits, CodeBits, ReadSymbol;
    SymbolRead(ll, sym, rest);
  }

  lemma PairRead(ll: seq<nat>, dd: seq<nat>, sym: nat, extra: nat, dsym: nat, dextra: nat, rest: seq<bool>)
    requires Fits(ll) && Used(ll, sym) && 257 <= sym <= 285 && extra < Pow2(LengthExtraBits(sym))
    requires Fits(dd) && Used(dd, dsym) && dsym < 30 && dextra < Pow2(DistanceExtraBits(dsym))
    ensures ReadElement(ll, dd, CodeBits(ll, sym) + BitsOf(extra, LengthExtraBits(sym)) + DistanceBits(dd, dsym, dextra) + rest)
         == Some((Data(Pair(LengthBase(sym) + extra, DistanceBase(dsym) + dextra)), rest))
  {
    hide Fits, CodeBits, ReadSymbol, ReadNumber, ReadDistance, LengthExtraBits, LengthBase, DistanceBase,
      DistanceExtraBits, DistanceBits, Pow2;
    var tail := DistanceBits(dd, dsym, dextra) + rest;
    var tail' := BitsOf(extra, LengthExtraBits(sym)) + tail;
    assert CodeBits(ll, sym) + BitsOf(extra, LengthExtraBits(sym)) + DistanceBits(dd, dsym, dextra) + rest
        == CodeBits(ll, sym) + tail';
    SymbolRead(ll, sym, tail');
    NumberRead(extra, LengthExtraBits(sym), tail);
    DistanceRead(dd, dsym, dextra, rest);
  }

  lemma BlockStep(ll: seq<nat>, dd: seq<nat>, bits: seq<bool>, item: Item, tail: seq<bool>,
                  items: seq<Item>, rest: seq<bool>)
    requires ReadElement(ll, dd, bits) == Some((Data(item), tail)) && |tail| < |bits|
    requires ReadBlock(ll, dd, tail) == Some((items, rest))
    ensures ReadBlock(ll, dd, bits) == Some(([item] + items, rest))
  {
    hide ReadElement;
  }

  lemma BlockEnd(ll: seq<nat>, dd: seq<nat>, bits: seq<bool>, rest: seq<bool>)
    requires ReadElement(ll, dd, bits) == Some((EndOfBlock, rest))
    ensures ReadBlock(ll, dd, bits) == Some(([], rest))
  {
    hide ReadElement;
  }
}
