/** igzip_base.c: matching and encoding in one pass, with the tables of isal_create_hufftables,
    an optional dictionary and output buffers that fill up. */
module IgzipBase {
  import opened Rfc1951
  import opened Bits
  import opened BitBuf
  import opened Canonical
  import opened HuffCodes
  import opened EncodeDf
  import opened Compare
  import opened HashTable
  import opened PackedTables
  import opened DirectDeflate
  import CustomTables
  import DynamicHeader
  import HuffGen
  import HuffTables
  import WriteHeader
  import DeflateBlock
  import Deflate
  import Greedy
  import Lz77

  const ISAL_LOOK_AHEAD := Lz77.ISAL_LOOK_AHEAD
  const MAX_MATCH := Lz77.MAX_MATCH

  datatype ZState = Body | FlushReadBuffer | Trl | SyncFlush

  // The hash table before the first byte: zeros, or all ones and then the positions of the dictionary.
  ghost function FirstTable(dictionary: seq<bv8>, input: seq<bv8>, hash: seq<bv8> -> nat, size: nat): (t: seq<nat>)
    requires size > 0 && |dictionary| <= |input|
    ensures |t| == size
  {
    if dictionary == [] then seq(size, _ => 0)
    else Filled(seq(size, _ => 0xFFFF), hash, input, 0, |dictionary| - 3, |dictionary|)
  }

  class ZStream {
    // compute_hash on the four bytes at a position, before masking
    const hash: seq<bv8> -> nat
    const limitHashUpdate: bool
    const distMask: nat
    const lastSeen: array<nat>
    const tables: Hufftables
    ghost const codes: BlockCodes

    // The history before file_start, which is at origin, and the file up to the end of the
    // available input. What is before pos is consumed.
    const origin: nat
    var input: seq<bv8>
    var pos: nat
    var endOfStream: bool
    var flushing: bool
    var state: ZState
    var hasEob: bool
    var bitbuf: BitBuf2

    // Where the block starts, its items so far, its header, and the whole bytes in output buffers before this one.
    ghost var start: nat
    ghost var items: seq<Item>
    ghost var header: seq<bool>
    ghost var written: seq<bool>

    // reset_match_history, or isal_deflate_hash when there is a dictionary; then
    // write_deflate_header_stateless into an output buffer with room for it; the block is the final
    // one if the stream ends with it.
    constructor (dictionary: seq<bv8>, data: seq<bv8>, hash: seq<bv8> -> nat, hashSize: nat, limitHashUpdate: bool,
                 distMask: nat, tables: Hufftables, ghost codes: BlockCodes, outBuf: array<Byte>, endOfStream: bool,
                 flushing: bool)
      requires hashSize > 0 && distMask <= 32768 && Holds(tables, codes) && CoversData(codes, dictionary + data)
      requires tables.Valid() && tables.deflateHdrCount + 8 < outBuf.Length
      requires endOfStream || FirstSet(tables.HeaderBits())
      modifies outBuf
      ensures Valid() && !hasEob && input == dictionary + data && start == pos == |dictionary| && items == []
      ensures header == StreamHeader(tables, endOfStream) && this.tables == tables && this.codes == codes
      ensures Search() == Greedy.Search(dictionary + data, |dictionary|, hash, limitHashUpdate, distMask)
      ensures lastSeen[..] == FirstTable(dictionary, dictionary + data, hash, hashSize)
      ensures this.endOfStream == endOfStream
      ensures this.flushing == flushing && fresh(lastSeen) && fresh(bitbuf) && bitbuf.buf == outBuf
    {
      hide StreamHeader, Holds, CoversData, AllName, Emitted, Tells, BytesBits, BitsOf, ItemsBits;
      this.hash, this.limitHashUpdate, this.distMask := hash, limitHashUpdate, distMask;
      this.tables, this.codes, this.origin := tables, codes, |dictionary|;
      lastSeen := new nat[hashSize](_ => 0);
      input, pos, start := dictionary + data, |dictionary|, |dictionary|;
      this.endOfStream, this.flushing, state, hasEob := endOfStream, flushing, Body, false;
      items, header := [], StreamHeader(tables, endOfStream);
      var bb, flushed := PutHeader(tables, outBuf, endOfStream);
      bitbuf, written := bb, flushed;
      new;
      if |dictionary| > 0 {
        IsalDeflateHash(lastSeen, hash, input, 0, |dictionary|, |dictionary|);
      } else {
        ResetMatchHistory(lastSeen, 0, 0);
        assert lastSeen[..] == FirstTable(dictionary, dictionary + data, hash, hashSize);
      }
      NothingYet(header, codes, input, pos);
    }

    ghost function Search(): Greedy.Search
      reads this`input
    {
      Greedy.Search(input, origin, hash, limitHashUpdate, distMask)
    }

    // Where the search is, with nothing found yet.
    ghost function Here(): (s: Greedy.State)
      reads this`pos, lastSeen
      ensures |s.table| == lastSeen.Length && s.pos == pos && s.items == []
    {
      Greedy.State(pos, lastSeen[..], [])
    }

    // The search has come to s and found the items behind those before.
    ghost predicate Reached(s: Greedy.State, before: seq<Item>)
      reads this`pos, this`items, lastSeen
    {
      pos == s.pos && lastSeen[..] == s.table && items == before + s.items
    }

    // What the match finder relies on.
    ghost predicate Matching()
      reads this, lastSeen
    {
      && lastSeen.Length > 0 && distMask <= 32768 && pos <= |input| && AllName(lastSeen[..], pos, origin)
      && Tells(input, start, pos, items)
    }

    ghost function OutBits(): seq<bool>
      requires bitbuf.Valid()
      reads this, bitbuf, bitbuf.buf
    {
      written + bitbuf.Contents()
    }

    // What the bit buffer holds.
    ghost predicate Writing()
      reads this, bitbuf, bitbuf.buf
    {
      && bitbuf.Valid() && bitbuf.count < 8 && bitbuf.buf as object != lastSeen
      && Holds(tables, codes) && CoversData(codes, input) && Emitted(OutBits(), header, codes, items, hasEob)
    }

    ghost predicate Valid()
      reads this, lastSeen, bitbuf, bitbuf.buf
    {
      Matching() && Writing() && (hasEob ==> pos == |input|)
    }

    // for (; next_hash < end; next_hash++) last_seen[hash] = next_hash - file_start
    method HashRange(from: nat, end: nat, ghost limit: nat)
      requires lastSeen.Length > 0 && AllName(lastSeen[..], pos, origin) && pos <= limit && end <= limit
      requires from < end ==> end + 3 <= |input|
      modifies lastSeen
      ensures AllName(lastSeen[..], limit, origin)
      ensures lastSeen[..] == Filled(old(lastSeen[..]), hash, input, from, end, origin)
    {
      hide AllName;
      NamesLater(lastSeen[..], pos, limit, origin);
      HashPositions(lastSeen, hash, input, from, end, origin, limit);
    }

    // compare258(next_in - dist, next_in, max_length)
    method MatchLength(dist: nat, maxLength: nat) returns (length: nat)
      requires 1 <= dist <= pos && pos + maxLength <= |input|
      ensures length <= maxLength && length <= MAX_MATCH && Lz77.LongestMatch(input, pos, dist, maxLength, length)
      ensures forall q :: pos <= q < pos + length ==> input[q] == input[q - dist]
    {
      hide AgreesFor;
      length := Compare258(input[pos - dist..], input[pos..], maxLength);
      Lz77.AgreesBytes(input, pos, dist, length, if maxLength > 258 then 258 else maxLength);
    }

    // write_bits for an item
    method WriteItem(code: nat, len: nat, ghost item: Item)
      requires Writing() && !hasEob && !bitbuf.IsFull() && Codable(codes, item)
      requires len <= 48 && code < Pow2(len) && BitsOf(code, len) == ItemBits(codes, item)
      modifies this`items, bitbuf`out, bitbuf`bits, bitbuf`count, bitbuf.buf
      ensures Writing() && items == old(items) + [item]
    {
      hide Holds, CoversData, Emitted, Codable, BytesBits, BitsOf, Pow2, ItemBits;
      EmittedMore(OutBits(), header, codes, items, item);
      ghost var before := OutBits();
      bitbuf.WriteBits(code, len);
      items := items + [item];
      assert OutBits() == before + ItemBits(codes, item);
    }

    // get_lit_code and write_bits for the byte at pos
    method PutLiteral()
      requires Valid() && !hasEob && pos < |input| && !bitbuf.IsFull()
      modifies this`pos, this`items, bitbuf`out, bitbuf`bits, bitbuf`count, bitbuf.buf
      ensures Valid() && pos == old(pos) + 1 && items == old(items) + [Literal(input[old(pos)])]
    {
      hide Holds, CoversData, Emitted, AllName, Tells, BytesBits, BitsOf, Pow2, Codable, BitBuf2.Contents,
        GetLitCode, ItemBits, BlockCodes.Valid;
      ByteCodable(codes, input, pos);
      LiteralItem(tables, codes, input[pos]);
      TellsLiteral(input, start, pos, items);
      NamesLater(lastSeen[..], pos, pos + 1, origin);
      var (code, len) := GetLitCode(tables, input[pos] as nat);
      WriteItem(code, len, Literal(input[pos]));
      pos := pos + 1;
    }

    // get_len_code, get_dist_code and write_bits for a match
    method PutMatch(length: nat, dist: nat)
      requires Writing() && !hasEob && !bitbuf.IsFull() && Tells(input, start, pos, items)
      requires 3 <= length <= MAX_MATCH && pos + length <= |input| && 1 <= dist <= 32768 && dist <= pos
      requires forall q :: pos <= q < pos + length ==> input[q] == input[q - dist]
      requires lastSeen.Length > 0 && distMask <= 32768 && AllName(lastSeen[..], pos + length, origin)
      modifies this`pos, this`items, bitbuf`out, bitbuf`bits, bitbuf`count, bitbuf.buf
      ensures Valid() && pos == old(pos) + length && items == old(items) + [Pair(length, dist)]
    {
      hide Holds, CoversData, Emitted, AllName, Tells, BytesBits, BitsOf, Pow2, Codable, BitBuf2.Contents, GetLenCode,
        GetDistCode, ItemBits, BitOr, Shl, BlockCodes.Valid;
      PairCodable(codes, input, length, dist);
      MatchCode(tables, codes, length, dist);
      TellsPair(input, start, pos, items, length, dist);
      var (code, len) := GetLenCode(tables, length);
      var (code2, len2) := GetDistCode(tables, dist);
      WriteItem(BitOr(code, Shl(code2, len)), len + len2, Pair(length, dist));
      pos := pos + length;
    }

    // The hashes of a match but its first one, and then the match itself.
    method TakeMatch(length: nat, dist: nat, finish: bool)
      requires Valid() && !hasEob && !bitbuf.IsFull() && 4 <= length <= MAX_MATCH && 1 <= dist <= 32768 && dist <= pos
      requires pos + length <= |input| && (finish || pos + length + 3 <= |input|)
      requires forall q :: pos <= q < pos + length ==> input[q] == input[q - dist]
      modifies this`pos, this`items, lastSeen, bitbuf`out, bitbuf`bits, bitbuf`count, bitbuf.buf
      ensures Valid() && pos == old(pos) + length && items == old(items) + [Pair(length, dist)]
      ensures Greedy.HashEnd(Search(), Lz77.PhaseOf(finish), old(pos), length) + 3 <= |input|
      ensures lastSeen[..] == Filled(old(lastSeen[..]), hash, input, old(pos) + 1,
                                     Greedy.HashEnd(Search(), Lz77.PhaseOf(finish), old(pos), length), origin)
    {
      hide Holds, CoversData, Emitted, AllName, Tells, BitBuf2.Contents, Filled;
      var end := pos + (if limitHashUpdate then 3 else length);
      HashRange(pos + 1, if finish then end - 3 else end, pos + length);
      ghost var table := lastSeen[..];
      PutMatch(length, dist);
      assert lastSeen[..] == table;
    }

    // One turn of the main loops: a match of at least four bytes, or a literal. At the end of the
    // input as many bytes are compared as there are, and the last three of a match are not hashed.
    method Advance(finish: bool) returns (ghost dist: nat, ghost length: nat)
      requires Valid() && !hasEob && !bitbuf.IsFull() && pos + (if finish then 3 else ISAL_LOOK_AHEAD) < |input|
      modifies this`pos, this`items, lastSeen, bitbuf`out, bitbuf`bits, bitbuf`count, bitbuf.buf
      ensures Valid() && dist <= old(pos)
      ensures dist == (old(pos) - origin - old(lastSeen[HashAt(hash, lastSeen.Length, input, pos)])) % 0x10000
      ensures Lz77.Chosen(input, old(pos), dist, distMask, if finish then |input| - old(pos) else 258, length)
      ensures items == old(items) + [if length == 0 then Literal(input[old(pos)]) else Pair(length, dist)]
      ensures pos == old(pos) + if length == 0 then 1 else length
      ensures Reached(Greedy.Next(Search(), Lz77.PhaseOf(finish), old(Here())), old(items))
    {
      hide Holds, CoversData, Emitted, AllName, Tells, BitBuf2.Contents, Lz77.LongestMatch, HashAt, Filled, Index16,
        Greedy.HashEnd, Greedy.Next, ZStream.Reached;
      ghost var here, before := Here(), items;
      var d := LookUp(lastSeen, hash, input, pos, origin);
      ghost var looked := lastSeen[..];
      dist, length := d, 0;
      // dist - 1 < hist_size, which fails for dist = 0 after wrapping
      if 1 <= d <= distMask {
        var n := MatchLength(d, if finish then |input| - pos else MAX_MATCH);
        if n >= SHORTEST_MATCH {
          length := n;
          TakeMatch(n, d, finish);
          Turned(here, finish, dist, length, looked, before);
          return;
        }
      }
      PutLiteral();
      Turned(here, finish, dist, length, looked, before);
    }

    // Such a turn is one of the greedy search.
    lemma Turned(s: Greedy.State, finish: bool, dist: nat, length: nat, looked: seq<nat>, before: seq<Item>)
      requires |s.table| > 0 && s.pos + (if finish then 3 else ISAL_LOOK_AHEAD) < |input|
      requires dist == (s.pos - origin - s.table[HashAt(hash, |s.table|, input, s.pos)]) % 0x10000
      requires dist <= s.pos && s.items == []
      requires Lz77.Chosen(input, s.pos, dist, distMask, if finish then |input| - s.pos else 258, length)
      requires looked == s.table[HashAt(hash, |s.table|, input, s.pos) := Index16(s.pos, origin)]
      requires length > 0 ==>
                 lastSeen[..] == Filled(looked, hash, input, s.pos + 1,
                                        Greedy.HashEnd(Search(), Lz77.PhaseOf(finish), s.pos, length), origin)
      requires length == 0 ==> lastSeen[..] == looked
      requires pos == s.pos + if length == 0 then 1 else length
      requires items == before + [if length == 0 then Literal(input[s.pos]) else Pair(length, dist)]
      ensures Reached(Greedy.Next(Search(), Lz77.PhaseOf(finish), s), before)
    {
      Greedy.DistanceIs(Search(), s.table, s.pos);
      hide HashAt, Index16, Filled, Greedy.Next, Greedy.Distance;
      Lz77.ChosenTaken(Search(), s.pos, dist, if finish then |input| - s.pos else 258, length);
      Greedy.NextIs(Search(), Lz77.PhaseOf(finish), s, dist, length, looked, lastSeen[..]);
    }

    // A turn of the loop over the last bytes.
    lemma LastLiteral(s: Greedy.State, before: seq<Item>)
      requires |s.table| > 0 && |input| - 3 <= s.pos < |input| && s.items == []
      requires pos == s.pos + 1 && lastSeen[..] == s.table && items == before + [Literal(input[s.pos])]
      ensures Reached(Greedy.Next(Search(), Greedy.InFinish, s), before)
    {
    }

    // One more turn after n of them.
    lemma TurnedOn(phase: Greedy.Phase, here: Greedy.State, n: nat, start: seq<Item>, before: seq<Item>)
      requires |here.table| > 0
      requires
        var run := Greedy.Run(Search(), phase, here, n);
        && Greedy.CanGo(Search(), phase, run.pos) && before == start + run.items
        && Reached(Greedy.Next(Search(), phase, Greedy.State(run.pos, run.table, [])), before)
      ensures Reached(Greedy.Run(Search(), phase, here, n + 1), start)
    {
      hide Greedy.Next, Greedy.CanGo, Greedy.Run;
      var run := Greedy.Run(Search(), phase, here, n);
      var s := Greedy.State(run.pos, run.table, []);
      assert Greedy.Behind(run.items, s) == run;
      Greedy.NextBehind(Search(), phase, run.items, s);
      Lz77.OneTurn(Search(), phase, here, n + 1);
    }

    // A turn of the main loops, one of the search as well.
    method Turn(finish: bool, ghost here: Greedy.State, ghost start: seq<Item>)
      requires Valid() && !hasEob && !bitbuf.IsFull() && pos + (if finish then 3 else ISAL_LOOK_AHEAD) < |input|
      requires |here.table| > 0 && start <= items
      requires Reached(Greedy.Run(Search(), Lz77.PhaseOf(finish), here, |items| - |start|), start)
      modifies this`pos, this`items, lastSeen, bitbuf`out, bitbuf`bits, bitbuf`count, bitbuf.buf
      ensures Valid() && pos > old(pos) && old(items) <= items && |items| == |old(items)| + 1
      ensures Reached(Greedy.Run(Search(), Lz77.PhaseOf(finish), here, |items| - |start|), start)
    {
      hide Holds, CoversData, Emitted, AllName, Tells, BitBuf2.Contents, Greedy.Next, Greedy.Run, Lz77.Chosen, HashAt;
      ghost var before := items;
      var d, n := Advance(finish);
      TurnedOn(Lz77.PhaseOf(finish), here, |before| - |start|, start, before);
    }

    // A turn of the loop over the last bytes.
    method TurnLiteral(ghost here: Greedy.State, ghost start: seq<Item>)
      requires Valid() && !hasEob && !bitbuf.IsFull() && |input| - 3 <= pos < |input|
      requires |here.table| > 0 && start <= items
      requires Reached(Greedy.Run(Search(), Greedy.InFinish, here, |items| - |start|), start)
      modifies this`pos, this`items, bitbuf`out, bitbuf`bits, bitbuf`count, bitbuf.buf
      ensures Valid() && pos > old(pos) && old(items) <= items && |items| == |old(items)| + 1
      ensures Reached(Greedy.Run(Search(), Greedy.InFinish, here, |items| - |start|), start)
    {
      hide Holds, CoversData, Emitted, AllName, Tells, BitBuf2.Contents, Greedy.Next, Greedy.Run;
      ghost var before, now := items, Here();
      PutLiteral();
      LastLiteral(now, before);
      TurnedOn(Greedy.InFinish, here, |before| - |start|, start, before);
    }

    // Without a turn the search is where it is.
    lemma NotStarted(phase: Greedy.Phase)
      requires Matching()
      ensures |Here().table| > 0 && Reached(Greedy.Run(Search(), phase, Here(), 0), items)
    {
    }

    // set_buf: the pending bits go on into the next output buffer.
    method SetBuf(outBuf: array<Byte>, outStart: nat, availOut: nat)
      requires Valid() && outStart + availOut <= outBuf.Length && outBuf as object != lastSeen
      modifies this`bitbuf, this`written
      ensures Valid() && fresh(bitbuf) && bitbuf.buf == outBuf && bitbuf.end == outStart + availOut - 8 && bitbuf.out == outStart
      ensures OutBits() == old(OutBits())
    {
      hide Holds, CoversData, Emitted, AllName, Tells, BytesBits, BitsOf, Pow2;
      ghost var before := OutBits();
      written := written + BytesBits(bitbuf.buf[bitbuf.start..bitbuf.out]);
      bitbuf := new BitBuf2.SetBuf(outBuf, outStart, availOut, bitbuf.bits, bitbuf.count);
      assert OutBits() == before;
    }

    // isal_deflate_body_base
    method DeflateBody(outBuf: array<Byte>, outStart: nat, availOut: nat)
      requires Valid() && !hasEob && outStart + availOut <= outBuf.Length && outBuf as object != lastSeen
      modifies this`pos, this`items, this`state, this`bitbuf, this`written, lastSeen, outBuf
      ensures Valid() && !hasEob && old(pos) <= pos && old(items) <= items
      ensures Reached(Greedy.Run(Search(), Greedy.InBody, old(Here()), |items| - |old(items)|), old(items))
      ensures pos + ISAL_LOOK_AHEAD >= |input| || bitbuf.IsFull()
      ensures availOut >= 8 && old(pos) + ISAL_LOOK_AHEAD < |input| ==> pos > old(pos)
      ensures state == if pos + ISAL_LOOK_AHEAD >= |input| && (endOfStream || flushing) then FlushReadBuffer else old(state)
    {
      hide Holds, CoversData, Emitted, AllName, Tells, BitBuf2.Contents, Greedy.Run;
      ghost var here, start := Here(), items;
      NotStarted(Greedy.InBody);
      if pos == |input| {
        if endOfStream || flushing {
          state := FlushReadBuffer;
        }
        return;
      }
      SetBuf(outBuf, outStart, availOut);
      while pos + ISAL_LOOK_AHEAD < |input|
        invariant Valid() && fresh(bitbuf) && bitbuf.buf == outBuf && state == old(state)
        invariant old(pos) <= pos && start <= items && Search() == old(Search())
        invariant Reached(Greedy.Run(Search(), Greedy.InBody, here, |items| - |start|), start)
        invariant pos == old(pos) ==> bitbuf.out == outStart && bitbuf.end == outStart + availOut - 8
        decreases |input| - pos
      {
        if bitbuf.IsFull() {
          return;
        }
        Turn(false, here, start);
      }
      if endOfStream || flushing {
        state := FlushReadBuffer;
      }
    }

    // Matches and literals while a hash can be computed.
    method PutAll(ghost here: Greedy.State, ghost start: seq<Item>)
      requires Valid() && !hasEob && |here.table| > 0 && start <= items
      requires Reached(Greedy.Run(Search(), Greedy.InFinish, here, |items| - |start|), start)
      modifies this`pos, this`items, lastSeen, bitbuf`out, bitbuf`bits, bitbuf`count, bitbuf.buf
      ensures Valid() && old(pos) <= pos && old(items) <= items
      ensures Reached(Greedy.Run(Search(), Greedy.InFinish, here, |items| - |start|), start)
      ensures pos + 3 >= |input| || bitbuf.IsFull()
      ensures pos == old(pos) ==> bitbuf.out == old(bitbuf.out)
    {
      hide Holds, CoversData, Emitted, AllName, Tells, BitBuf2.Contents, Greedy.Run;
      while pos + 3 < |input|
        invariant Valid() && old(pos) <= pos && old(items) <= items
        invariant Reached(Greedy.Run(Search(), Greedy.InFinish, here, |items| - |start|), start)
        invariant pos == old(pos) ==> bitbuf.out == old(bitbuf.out)
        decreases |input| - pos
      {
        if bitbuf.IsFull() {
          return;
        }
        Turn(true, here, start);
      }
    }

    // The literals at the end of the input.
    method PutRest(ghost here: Greedy.State, ghost start: seq<Item>)
      requires Valid() && !hasEob && (pos + 3 >= |input| || bitbuf.IsFull()) && |here.table| > 0 && start <= items
      requires Reached(Greedy.Run(Search(), Greedy.InFinish, here, |items| - |start|), start)
      modifies this`pos, this`items, bitbuf`out, bitbuf`bits, bitbuf`count, bitbuf.buf
      ensures Valid() && old(pos) <= pos && old(items) <= items
      ensures Reached(Greedy.Run(Search(), Greedy.InFinish, here, |items| - |start|), start)
      ensures pos == |input| || bitbuf.IsFull()
      ensures pos == old(pos) ==> bitbuf.out == old(bitbuf.out)
    {
      hide Holds, CoversData, Emitted, AllName, Tells, BitBuf2.Contents, Greedy.Run;
      while pos < |input|
        invariant Valid() && old(pos) <= pos && old(items) <= items && (pos + 3 >= |input| || bitbuf.IsFull())
        invariant Reached(Greedy.Run(Search(), Greedy.InFinish, here, |items| - |start|), start)
        invariant pos == old(pos) ==> bitbuf.out == old(bitbuf.out)
        decreases |input| - pos
      {
        if bitbuf.IsFull() {
          return;
        }
        TurnLiteral(here, start);
      }
    }

    // write_bits for the end of the block
    method WriteEnd(code: nat, len: nat)
      requires Writing() && !hasEob && !bitbuf.IsFull()
      requires len <= 15 && code < Pow2(len) && codes.Valid() && BitsOf(code, len) == CodeBits(codes.ll, 256)
      modifies this`hasEob, bitbuf`out, bitbuf`bits, bitbuf`count, bitbuf.buf
      ensures Writing() && hasEob
    {
      hide Holds, CoversData, Emitted, BytesBits, BitsOf, CodeBits, Pow2, BlockCodes.Valid;
      EmittedEnd(OutBits(), header, codes, items);
      ghost var before := OutBits();
      bitbuf.WriteBits(code, len);
      hasEob := true;
      assert OutBits() == before + CodeBits(codes.ll, 256);
    }

    // get_lit_code and write_bits for the end of the block
    method PutEnd()
      requires Valid() && !hasEob && pos == |input| && !bitbuf.IsFull()
      modifies this`hasEob, this`state, bitbuf`out, bitbuf`bits, bitbuf`count, bitbuf.buf
      ensures Valid() && hasEob && state == if endOfStream then Trl else SyncFlush
    {
      hide Holds, CoversData, Emitted, AllName, Tells, BytesBits, BitsOf, CodeBits, Pow2, BitBuf2.Contents, GetLitCode, Used,
        BlockCodes.Valid;
      EndCoded(codes, input);
      LiteralCode(tables, codes, 256);
      var (code, len) := GetLitCode(tables, 256);
      WriteEnd(code, len);
      state := if endOfStream then Trl else SyncFlush;
    }

    // isal_deflate_finish_base
    method DeflateFinish(outBuf: array<Byte>, outStart: nat, availOut: nat)
      requires Valid() && !hasEob && outStart + availOut <= outBuf.Length && outBuf as object != lastSeen
      modifies this`pos, this`items, this`state, this`hasEob, this`bitbuf, this`written, lastSeen, outBuf
      ensures Valid() && old(pos) <= pos && old(items) <= items
      ensures Reached(Greedy.Run(Search(), Greedy.InFinish, old(Here()), |items| - |old(items)|), old(items))
      ensures hasEob || bitbuf.IsFull()
      ensures availOut >= 8 ==> hasEob || pos > old(pos)
      ensures state == if !hasEob then old(state) else if endOfStream then Trl else SyncFlush
    {
      hide Holds, CoversData, Emitted, AllName, Tells, BitBuf2.Contents, Matching, Writing, Greedy.Run;
      ghost var here, start := Here(), items;
      NotStarted(Greedy.InFinish);
      SetBuf(outBuf, outStart, availOut);
      PutAll(here, start);
      PutRest(here, start);
      if !bitbuf.IsFull() {
        PutEnd();
      }
    }

    // What one pass reached, reached from the start of the passes before.
    lemma ReachedOn(phase: Greedy.Phase, here: Greedy.State, m: nat, start: seq<Item>, there: Greedy.State, n: nat,
                    middle: seq<Item>)
      requires |here.table| > 0 && |there.table| > 0 && there.items == []
      requires
        var run := Greedy.Run(Search(), phase, here, m);
        there.pos == run.pos && there.table == run.table && middle == start + run.items
      requires Reached(Greedy.Run(Search(), phase, there, n), middle)
      ensures Reached(Greedy.Run(Search(), phase, here, m + n), start)
    {
      hide Greedy.Run;
      var run := Greedy.Run(Search(), phase, here, m);
      assert Greedy.Behind(run.items, there) == run;
      Greedy.RunBehind(Search(), phase, run.items, there, n);
      Greedy.RunOn(Search(), phase, here, m, n);
    }

    // Body until little input is left, with a new output buffer whenever one is full.
    method BodyAll(room: nat)
      requires Valid() && !hasEob && room >= 8
      modifies this`pos, this`items, this`state, this`bitbuf, this`written, lastSeen
      ensures Valid() && !hasEob
      ensures Reached(Greedy.Run(Search(), Greedy.InBody, old(Here()), |input|), old(items))
    {
      hide Holds, CoversData, Emitted, AllName, Tells, BitBuf2.Contents, Greedy.Run;
      ghost var here, start := Here(), items;
      NotStarted(Greedy.InBody);
      while pos + ISAL_LOOK_AHEAD < |input|
        invariant Valid() && !hasEob && start <= items && Search() == old(Search())
        invariant Reached(Greedy.Run(Search(), Greedy.InBody, here, |items| - |start|), start)
        decreases |input| - pos
      {
        var outBuf := new Byte[room](_ => 0);
        ghost var there, middle := Here(), items;
        DeflateBody(outBuf, 0, room);
        ReachedOn(Greedy.InBody, here, |middle| - |start|, start, there, |items| - |middle|, middle);
      }
      Greedy.AllTurns(Search(), Greedy.InBody, here, |items| - |start|);
    }

    // Finish until the end of the block is written.
    method FinishAll(room: nat)
      requires Valid() && !hasEob && room >= 8
      modifies this`pos, this`items, this`state, this`hasEob, this`bitbuf, this`written, lastSeen
      ensures Valid() && hasEob && state == if endOfStream then Trl else SyncFlush
      ensures Reached(Greedy.Run(Search(), Greedy.InFinish, old(Here()), |input|), old(items))
    {
      hide Holds, CoversData, Emitted, AllName, Tells, BitBuf2.Contents, Greedy.Run;
      ghost var here, start := Here(), items;
      NotStarted(Greedy.InFinish);
      while !hasEob
        invariant Valid() && (hasEob ==> state == if endOfStream then Trl else SyncFlush)
        invariant start <= items && Search() == old(Search())
        invariant Reached(Greedy.Run(Search(), Greedy.InFinish, here, |items| - |start|), start)
        decreases !hasEob, |input| - pos
      {
        var outBuf := new Byte[room](_ => 0);
        ghost var there, middle := Here(), items;
        DeflateFinish(outBuf, 0, room);
        ReachedOn(Greedy.InFinish, here, |middle| - |start|, start, there, |items| - |middle|, middle);
      }
      Greedy.AllTurns(Search(), Greedy.InFinish, here, |items| - |start|);
    }

    // Body, then finish: whatever the size of the buffers, the items are those of one search through
    // the input, and the bits are a block, the final one if the stream ends, that reads back to the
    // data behind the history.
    method DeflateAll(room: nat)
      requires Valid() && !hasEob && (endOfStream || flushing) && room >= 8 && items == [] && pos == start
      requires WriteHeader.HeaderIs(header, DynamicHeader.Header(endOfStream, codes.ll, codes.dd))
      modifies this`pos, this`items, this`state, this`hasEob, this`bitbuf, this`written, lastSeen
      ensures Valid() && hasEob && state == (if endOfStream then Trl else SyncFlush) && start <= |input|
      ensures items == Greedy.Whole(Search(), old(Here())).items
      ensures DeflateBlock.IsBlock(OutBits(), endOfStream, items) && Expand(input[..start], items) == Some(input)
    {
      hide Holds, CoversData, Emitted, AllName, Tells, BitBuf2.Contents, WriteHeader.HeaderIs, DeflateBlock.IsBlock,
        Expand, Greedy.Run;
      ghost var here := Here();
      BodyAll(room);
      ghost var there, middle := Here(), items;
      FinishAll(room);
      WholeSearch(here, there, middle);
      BlockDone(OutBits(), header, codes, items, input, start, endOfStream);
    }

    lemma WholeSearch(here: Greedy.State, there: Greedy.State, middle: seq<Item>)
      requires |here.table| > 0 && |there.table| > 0 && there.items == []
      requires
        var b := Greedy.Run(Search(), Greedy.InBody, here, |input|);
        there.pos == b.pos && there.table == b.table && middle == b.items
      requires Reached(Greedy.Run(Search(), Greedy.InFinish, there, |input|), middle)
      ensures items == Greedy.Whole(Search(), here).items
    {
      hide Greedy.Run;
      assert Greedy.Behind(middle, there) == Greedy.Run(Search(), Greedy.InBody, here, |input|);
      Greedy.RunBehind(Search(), Greedy.InFinish, middle, there, |input|);
    }
  }

  lemma BlockDone(bits: seq<bool>, header: seq<bool>, c: BlockCodes, items: seq<Item>, input: seq<bv8>, start: nat, final: bool)
    requires Emitted(bits, header, c, items, true) && CoversData(c, input) && Tells(input, start, |input|, items)
    requires WriteHeader.HeaderIs(header, DynamicHeader.Header(final, c.ll, c.dd))
    ensures start <= |input| && DeflateBlock.IsBlock(bits, final, items) && Expand(input[..start], items) == Some(input)
  {
    hide WriteHeader.HeaderIs, CoversData, AllCodable, InflatesTo, DeflateBlock.IsBlock, ItemsBits, CodeBits, Expand,
      Fits;
    EndCoded(c, input);
    ItemsInflate(c, items);
    DeflateBlock.HeaderThenData(header, ItemsBits(c, items) + CodeBits(c.ll, 256), final, c, items);
    assert input[..|input|] == input;
  }

  lemma UsedCovers(c: BlockCodes, data: seq<bv8>)
    requires CustomTables.AllUsed(c)
    ensures CoversData(c, data)
  {
    hide BlockCodes.Valid;
  }

  // isal_create_hufftables for any histograms at all, then a whole stream with these tables, with or
  // without a dictionary: what is written inflates to the data. If the stream only gets flushed, it is
  // a block for the data that others may follow. The literals and pairs are those of the greedy search.
  method CompressWithTables(litHist: array<nat>, distHist: array<nat>, dictionary: seq<bv8>, data: seq<bv8>,
                            hash: seq<bv8> -> nat, hashSize: nat, limitHashUpdate: bool, distMask: nat, room: nat,
                            endOfStream: bool)
    returns (s: ZStream)
    requires litHist.Length == LIT_LEN && distHist.Length == DIST_LEN && hashSize > 0 && distMask <= 32768 && room >= 8
    ensures s.bitbuf.Valid()
    ensures
      s.items == Greedy.Whole(Greedy.Search(dictionary + data, |dictionary|, hash, limitHashUpdate, distMask),
                              Greedy.State(|dictionary|, FirstTable(dictionary, dictionary + data, hash, hashSize), [])).items
    ensures Deflate.ReadsOn(dictionary, s.OutBits(), endOfStream, dictionary + data)
  {
    hide Holds, CoversData, Emitted, AllName, Tells, BitBuf2.Contents, WriteHeader.HeaderIs, Deflate.ReadsOn,
      CustomTables.AllUsed, HuffTables.FitBelow, HuffTables.AllFit, HuffTables.RarerLength, HuffGen.SumUpTo, StreamHeader,
      DeflateBlock.IsBlock, Expand, FirstSet, Greedy.Whole, FirstTable;
    var t, c := CustomTables.IsalCreateHufftables(litHist, distHist);
    UsedCovers(c, dictionary + data);
    HeldTables(t, c);
    HeaderOfStream(t, c, endOfStream);
    var outBuf := new Byte[t.deflateHdrCount + 9](_ => 0);
    s := new ZStream(dictionary, data, hash, hashSize, limitHashUpdate, distMask, t, c, outBuf, endOfStream, !endOfStream);
    s.DeflateAll(room);
    assert s.input[..s.start] == dictionary;
    Deflate.BlockReadsOn(s.OutBits(), endOfStream, s.items, dictionary, dictionary + data);
  }

  lemma HeldTables(t: Hufftables, c: BlockCodes)
    requires Holds(t, c)
    ensures t.Valid()
  {
  }

  // The header of the tables, with BFINAL as the stream wants it.
  lemma HeaderOfStream(t: Hufftables, c: BlockCodes, endOfStream: bool)
    requires t.Valid() && WriteHeader.HeaderIs(t.HeaderBits(), DynamicHeader.Header(true, c.ll, c.dd))
    ensures FirstSet(t.HeaderBits())
    ensures WriteHeader.HeaderIs(StreamHeader(t, endOfStream), DynamicHeader.Header(endOfStream, c.ll, c.dd))
  {
    hide WriteHeader.HeaderIs, Hufftables.HeaderBits;
    WriteHeader.ClearedHeader(t.HeaderBits(), c.ll, c.dd);
  }
}
