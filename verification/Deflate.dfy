/** A whole input, block by block. */
module Deflate {
  import opened Rfc1951
  import opened Bits
  import opened BitBuf
  import opened HuffCodes
  import opened IcfCodes
  import opened IcfTables
  import opened DynamicHeader
  import opened DeflateBlock
  import opened FixedCodes
  import opened WriteHeader
  import Greedy
  import HashTable
  import Lz77

  // Blocks up to the final one, and the bytes they stand for. Blocks with stored data do not occur here.
  ghost function ReadBlocks(out: seq<bv8>, bits: seq<bool>): Option<(seq<bv8>, seq<bool>)>
    decreases |bits|
  {
    match ReadCompressedBlock(bits)
    case None => None
    case Some((final, items, rest)) =>
      match Expand(out, items)
      case None => None
      case Some(more) =>
        if final then Some((more, rest))
        else if |rest| < |bits| then ReadBlocks(more, rest)
        else None
  }

  // Reading these bits first is to have read these bytes.
  ghost predicate ReadsTo(bits: seq<bool>, out: seq<bv8>) {
    forall rest: seq<bool> :: ReadBlocks([], bits + rest) == ReadBlocks(out, rest)
  }

  // The bits are all blocks of the file.
  ghost predicate Inflates(bits: seq<bool>, file: seq<bv8>) {
    forall rest: seq<bool> :: ReadBlocks([], bits + rest) == Some((file, rest))
  }

  // Behind out, the bits are a block that brings it to more, and what follows is read if it is not final.
  ghost predicate ReadsOn(out: seq<bv8>, bits: seq<bool>, final: bool, more: seq<bv8>) {
    forall rest: seq<bool> ::
      ReadBlocks(out, bits + rest) == (if final then Some((more, rest)) else ReadBlocks(more, rest))
  }

  lemma NothingRead()
    ensures ReadsTo([], [])
  {
    hide ReadCompressedBlock, Expand;
    forall rest: seq<bool> ensures ReadBlocks([], [] + rest) == ReadBlocks([], rest) {
      assert [] + rest == rest;
    }
  }

  lemma NoEmptyBlock(bits: seq<bool>, final: bool, items: seq<Item>)
    requires IsBlock(bits, final, items)
    ensures |bits| > 0
  {
    assert bits + [] == bits;
    assert ReadCompressedBlock([]) == None;
  }

  lemma OneBlock(bits: seq<bool>, final: bool, items: seq<Item>, out: seq<bv8>, more: seq<bv8>, rest: seq<bool>)
    requires IsBlock(bits, final, items) && Expand(out, items) == Some(more)
    ensures ReadBlocks(out, bits + rest) == if final then Some((more, rest)) else ReadBlocks(more, rest)
  {
    hide ReadCompressedBlock, Expand;
    NoEmptyBlock(bits, final, items);
  }

  lemma BlockReadsOn(bits: seq<bool>, final: bool, items: seq<Item>, out: seq<bv8>, more: seq<bv8>)
    requires IsBlock(bits, final, items) && Expand(out, items) == Some(more)
    ensures ReadsOn(out, bits, final, more)
  {
    hide ReadBlocks, IsBlock, Expand;
    forall rest: seq<bool>
      ensures ReadBlocks(out, bits + rest) == (if final then Some((more, rest)) else ReadBlocks(more, rest))
    {
      OneBlock(bits, final, items, out, more, rest);
    }
  }

  lemma BlockRead(before: seq<bool>, bits: seq<bool>, items: seq<Item>, out: seq<bv8>, more: seq<bv8>)
    requires ReadsTo(before, out) && IsBlock(bits, false, items) && Expand(out, items) == Some(more)
    ensures ReadsTo(before + bits, more)
  {
    hide ReadBlocks, IsBlock, Expand;
    forall rest: seq<bool> ensures ReadBlocks([], before + bits + rest) == ReadBlocks(more, rest) {
      assert before + bits + rest == before + (bits + rest);
      OneBlock(bits, false, items, out, more, rest);
    }
  }

  lemma FinalBlockRead(before: seq<bool>, bits: seq<bool>, items: seq<Item>, out: seq<bv8>, file: seq<bv8>)
    requires ReadsTo(before, out) && IsBlock(bits, true, items) && Expand(out, items) == Some(file)
    ensures Inflates(before + bits, file)
  {
    hide ReadBlocks, IsBlock, Expand;
    forall rest: seq<bool> ensures ReadBlocks([], before + bits + rest) == Some((file, rest)) {
      assert before + bits + rest == before + (bits + rest);
      OneBlock(bits, true, items, out, file, rest);
    }
  }

  // Bits in the output up to here, the pending ones included.
  ghost function Position(bb: BitBuf2): nat
    reads bb
  {
    8 * bb.out + bb.count
  }

  // One block of at most room tokens, those of the greedy search. It is given up only when there is
  // no room for a header, or none for the tokens.
  method DeflateBlockOf(s: Lz77.IcfStream, bb: BitBuf2, table: array<HuffCode>)
    returns (done: bool, final: bool, ghost items: seq<Item>)
    requires s.Valid() && s.tokens == [] && s.blockStart == s.blockEnd == s.totalIn && s.availOut > 0
    requires bb.Valid() && bb.count < 8 && table.Length == TABLE_SIZE
    requires bb.buf as object != s.llHist && bb.buf as object != s.dHist && bb.buf as object != s.lastSeen
    modifies s`tokens, s`availOut, s`totalIn, s`state, s`hasHist, s`blockEnd, s.lastSeen, s.llHist, s.dHist
    modifies table, bb`out, bb`bits, bb`count, bb.buf
    ensures s.Shape() && s.SeenUpTo(s.totalIn) && s.blockEnd == s.totalIn && s.input == old(s.input)
    ensures old(s.totalIn) <= s.totalIn <= |s.input| && (final <==> s.totalIn == |s.input|)
    ensures !final ==> s.totalIn > old(s.totalIn) && |s.tokens| == old(s.availOut)
    ensures |s.tokens| <= s.totalIn - old(s.totalIn)
    ensures s.Reached(Greedy.Block(s.Search(), old(s.Here()), old(s.availOut)), [])
    ensures bb.Valid() && bb.count < 8
    ensures done ==> Expand(s.input[..old(s.totalIn)], items) == Some(s.input[..s.totalIn])
    ensures done ==> Compressed(old(bb.Contents()), bb.Contents(), final, items, s.tokens)
    ensures Position(bb) <= old(Position(bb)) + 8 * 286 + 48 * (|s.tokens| + 1)
    ensures !done ==> old(bb.out) + 294 > bb.buf.Length || bb.IsFull()
  {
    hide Expand, Lz77.Describes, HashTable.AllName, IsBlock, BitBuf2.Contents, Greedy.Block, Lz77.Mean, Compressed, BlockOf;
    ghost var before, here, room := bb.Contents(), s.Here(), s.availOut;
    s.DeflatePass();
    final := s.totalIn == |s.input|;
    AsManyTokens(s, here, room);
    assert bb.Contents() == before;
    if bb.out + HEADER_ROOM > bb.buf.Length {
      return false, final, [];
    }
    var compressedLen;
    ghost var fixed;
    done, compressedLen, fixed, items := CompressBlock(s, bb, table, final);
  }

  lemma AsManyTokens(s: Lz77.IcfStream, here: Greedy.State, room: nat)
    requires |here.table| > 0 && here.pos <= |s.input| && here.items == []
    requires s.Reached(Greedy.Block(s.Search(), here, room), [])
    ensures |s.tokens| <= s.totalIn - here.pos
  {
    hide Greedy.Block, Lz77.Mean;
    Greedy.BlockMoves(s.Search(), here, room);
    Lz77.MeanLength(s.tokens[0..], Greedy.Block(s.Search(), here, room).items);
  }

  // set_buf for the next block: the output goes on where it is, and the bits before are counted no more.
  method NextBuffer(bb: BitBuf2) returns (next: BitBuf2, ghost flushed: seq<bool>)
    requires bb.Valid() && bb.count < 8
    ensures fresh(next) && next.Valid() && next.count < 8 && next.buf == bb.buf
    ensures next.out == bb.out && next.count == bb.count && next.end == bb.buf.Length - 8
    ensures flushed + next.Contents() == bb.Contents() && |next.Contents()| < 8
  {
    hide BytesBits, BitsOf;
    flushed := BytesBits(bb.buf[bb.start..bb.out]);
    next := new BitBuf2.SetBuf(bb.buf, bb.out, bb.buf.Length - bb.out, bb.bits, bb.count);
  }

  // One more block behind all that is written.
  method NextBlock(s: Lz77.IcfStream, bb: BitBuf2, table: array<HuffCode>, room: nat, ghost before: seq<bool>)
    returns (done: bool, final: bool, next: BitBuf2, ghost written: seq<bool>)
    requires s.Valid() && s.tokens == [] && s.blockStart == s.blockEnd == s.totalIn && s.availOut == room > 0
    requires s.totalIn <= |s.input| && bb.Valid() && bb.count < 8 && table.Length == TABLE_SIZE
    requires bb.buf as object != s.llHist && bb.buf as object != s.dHist && bb.buf as object != s.lastSeen
    requires ReadsTo(before + bb.Contents(), s.input[..s.totalIn])
    modifies s, s.lastSeen, s.llHist, s.dHist, table, bb.buf
    ensures s.input == old(s.input) && fresh(next) && next.Valid() && next.count < 8 && next.buf == bb.buf
    ensures done && !final ==> s.Valid() && s.tokens == [] && s.blockStart == s.blockEnd == s.totalIn && s.availOut == room
    ensures done && !final ==> old(s.totalIn) + room <= s.totalIn <= |s.input|
    ensures done && !final ==> ReadsTo(written + next.Contents(), s.input[..s.totalIn])
    ensures done && final ==> Inflates(written + next.Contents(), s.input)
    // how much room it takes, and that it is done if there is room
    ensures old(s.totalIn) <= s.totalIn <= |s.input|
    ensures Position(next) <= old(Position(bb)) + 8 * 292 + 48 * (s.totalIn - old(s.totalIn))
    ensures !done ==> old(bb.out) + 294 > bb.buf.Length || next.out + 8 > bb.buf.Length
  {
    hide *;
    ghost var all, flushed, pos := before + bb.Contents(), [], s.totalIn;
    next, flushed := NextBuffer(bb);
    SamePosition(bb, next);
    written := before + flushed;
    ghost var start := next.Contents();
    assert all == written + start;
    ghost var items;
    done, final, items := DeflateBlockOf(s, next, table);
    FullAt(next);
    if done {
      ghost var now := next.Contents();
      BlockWasRead(start, now, final, items, s.tokens);
      ghost var block := now[|start|..];
      Extended(written, start, now, all, block);
      if final {
        assert s.input[..s.totalIn] == s.input;
        FinalBlockRead(all, block, items, s.input[..pos], s.input);
      } else {
        BlockRead(all, block, items, s.input[..pos], s.input[..s.totalIn]);
        s.StartBlock(room);
      }
    }
  }

  lemma SamePosition(bb: BitBuf2, next: BitBuf2)
    requires next.out == bb.out && next.count == bb.count
    ensures Position(next) == Position(bb)
  {
  }

  lemma FullAt(bb: BitBuf2)
    requires bb.end == bb.buf.Length - 8
    ensures bb.IsFull() <==> bb.out + 8 > bb.buf.Length
  {
  }

  lemma BlockWasRead(before: seq<bool>, now: seq<bool>, final: bool, items: seq<Item>, tokens: seq<Icf>)
    requires Compressed(before, now, final, items, tokens)
    ensures before <= now && IsBlock(now[|before|..], final, items)
  {
    hide IsBlock, BlockOf;
  }

  lemma Extended(written: seq<bool>, start: seq<bool>, now: seq<bool>, all: seq<bool>, block: seq<bool>)
    requires start <= now && all == written + start && block == now[|start|..]
    ensures written + now == all + block
  {
  }

  // Blocks of room tokens each, and what they take.
  lemma EnoughRoom(blocks: nat, room: nat, pos: nat, next: nat, size: nat, length: nat)
    requires room > 0 && blocks * room <= pos <= next <= size && length >= 292 * (size / room + 1) + 6 * size + 8
    ensures 292 * blocks + 6 * pos + 294 <= length && 292 * (blocks + 1) + 6 * next + 8 <= length
  {
    var q := size / room;
    assert size < (q + 1) * room;
    Multiples(blocks, q + 1, room);
  }

  lemma Multiples(a: nat, b: nat, room: nat)
    ensures a >= b ==> a * room >= b * room
  {
  }

  // Body, finish, tables, header and tokens, block by block until the input is used up: when all of
  // it fits into the buffer, the bits inflate to the input, wherever the blocks were cut. It fits if
  // there are six bytes for every byte of the input and 292 for every block. What is written are the
  // bits flushed in earlier blocks and those of the bit buffer.
  method DeflateFile(s: Lz77.IcfStream, outBuf: array<Byte>, table: array<HuffCode>, room: nat)
    returns (done: bool, bb: BitBuf2, ghost written: seq<bool>)
    requires s.Valid() && s.tokens == [] && s.blockStart == s.blockEnd == s.totalIn == 0 && s.availOut == room > 0
    requires table.Length == TABLE_SIZE
    requires outBuf as object != s.llHist && outBuf as object != s.dHist && outBuf as object != s.lastSeen
    modifies s, s.lastSeen, s.llHist, s.dHist, table, outBuf
    ensures s.input == old(s.input)
    ensures bb.Valid() && (done ==> Inflates(written + bb.Contents(), s.input))
    ensures outBuf.Length >= 292 * (|s.input| / room + 1) + 6 * |s.input| + 8 ==> done
  {
    bb := new BitBuf2(outBuf, 0, outBuf.Length);
    written := [];
    ghost var blocks := 0;
    hide *;
    NothingRead();
    FromStart(bb);
    var final := false;
    assert s.input[..s.totalIn] == [];
    assert written + bb.Contents() == [];
    while !final
      invariant fresh(bb) && bb.buf == outBuf && bb.Valid() && bb.count < 8 && s.input == old(s.input)
      invariant !final ==> s.Valid() && s.tokens == [] && s.blockStart == s.blockEnd == s.totalIn && s.availOut == room
      invariant !final ==> s.totalIn <= |s.input| && ReadsTo(written + bb.Contents(), s.input[..s.totalIn])
      invariant !final ==> Position(bb) <= 8 * (292 * blocks + 6 * s.totalIn) && blocks * room <= s.totalIn
      invariant final ==> Inflates(written + bb.Contents(), s.input)
      decreases !final, |s.input| - s.totalIn
    {
      ghost var pos, before := s.totalIn, bb;
      ghost var at := Position(bb);
      PositionIs(bb);
      done, final, bb, written := NextBlock(s, bb, table, room, written);
      PositionIs(bb);
      if !done {
        if outBuf.Length >= 292 * (|s.input| / room + 1) + 6 * |s.input| + 8 {
          EnoughRoom(blocks, room, pos, s.totalIn, |s.input|, outBuf.Length);
        }
        return;
      }
      OneBlockMore(blocks, room, pos);
      blocks := blocks + 1;
    }
    done := true;
  }

  lemma FromStart(bb: BitBuf2)
    requires bb.Valid() && bb.start == 0 && bb.Contents() == []
    ensures Position(bb) == 0
  {
    hide BytesBits, BitsOf;
  }

  lemma PositionIs(bb: BitBuf2)
    ensures Position(bb) >= 8 * bb.out
  {
  }

  lemma OneBlockMore(blocks: nat, room: nat, pos: nat)
    requires blocks * room <= pos
    ensures (blocks + 1) * room <= pos + room
  {
  }
}
