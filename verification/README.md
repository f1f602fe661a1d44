# Erasure coding, DEFLATE and checksums: a verified model

This project models three parts of a storage library that carries a copy of ISA-L, and proves what
they are for.

**Erasure coding.** `IsaEC` keeps k data strips and n parity strips. A Cauchy matrix over GF(2^8)
makes the parities; after a loss, the rows of the surviving strips are inverted in place by
Gauss-Jordan elimination and the lost strips are computed again, chunk by chunk, in parallel. The
main theorem is `Recovery.EncodeLoseDecode`: overwrite any at most n of the k+n strips, name them
in any order and even repeatedly as long as the list has at most n entries, decode, and every byte
is back. `Recovery.CacheDecodeOneChunk` is the same for a cached erasure set and the call that the
library's tests make. Its pieces are the field laws of the two literal logarithm tables (`Galois`), the product
tables made with 64-bit word tricks (`ProductTables`), the linear independence of any k rows of
the matrix (`Cauchy`), sound and complete inversion (`GaussJordan`), the decode matrix
(`DecodeMatrix`), and the class `IsaEC` with its two sets of tables (`ErasureCoder`).
`ParityUpdate` covers incremental parity, `Gosper` and `Submatrices` the tool that looks for
singular submatrices.

**DEFLATE.** The back end of igzip is proved against readers written from RFC 1951 alone
(`Rfc1951`, `Canonical`, `Inflate`, `DynamicHeader`). There are two ways through it, and both are
closed by a theorem that what is written inflates to what was read:

- the intermediate format: match finder over a 16-bit hash table (`Lz77`, `HashTable`, `Compare`,
  `IcfCodes`), which finds exactly what the greedy search of `Greedy` finds, histogram folding (`Flatten`), heap and Huffman tree (`HuffHeap`, `HuffTree`,
  `HuffMerge`, `TreeShape`) of least cost (`LeastCost`, `TreeCost`, `SymbolLengths`,
  `ShortestCodes`), length limiting (`LimitLengths`, `CodeLens`, `HuffGen`), canonical codes
  (`HuffCodes`), expanded tables (`IcfTables`, `EncodeDf`), run length coded header (`RunLength`,
  `WriteHeader`), the fixed codes and the choice between the two (`FixedCodes`, `BlockSize`,
  `DeflateBlock`) and files (`Deflate.DeflateFile`);
- one pass with fixed tables: `isal_create_hufftables` (`HuffTables`, `PackedTables`,
  `CustomTables`) and the loops of `igzip_base.c` (`DirectDeflate`,
  `IgzipBase.CompressWithTables`), with dictionaries and with output buffers that fill up at any
  point.

Both write through the 64-bit bit buffer (`Bits`, `BitBuf`), which refines a growing list of bits.

**Checksums.** All table-driven CRCs and Adler-32 are proved equal to the slow definitions that
the repository ships, with all ten literal tables checked entry by entry (`CrcTables`, `CrcSteps`,
`Crc`, `CrcNarrow`, `Adler`). `CrcResidue` pins those definitions: a buffer followed by its own check
leaves one constant, whatever the buffer and the seed.

## What the proofs found

- `are_hufftables_useable` is said to make sure that a literal, a length and a distance always fit
  the bit buffer together. Its loop over the length symbols ends before symbol 285, so it ignores
  the length 258. `HuffTables.PassedFitExactly` says exactly when tables that pass do fit,
  `HuffTables.TooLongTables` gives histograms for which `isal_create_hufftables` leaves tables
  that need 58 bits, and `HuffTables.CreateHufftables` proves the 56 bits for every other length,
  always after a retry, and for length 258 whenever the histogram has some other length symbol
  that is rarer than 285. That rests on a fact about the tree and its limit: a more frequent
  symbol never gets a longer code (`TreeShape.Shape.HeavierHigher`, `HuffGen.GenHuffCodeLens`). The
  loops of `igzip_base.c` never write more than a length and a distance at once, at most 48 bits
  (`DirectDeflate.MatchCode`), and so are not affected.
- `adler32_base` and the per-byte definition differ on an empty buffer when a half of the start
  value is not reduced, and only then (`Adler.SameChecksum`, `Adler.UnreducedStart`).
- The Cauchy matrix recovers from any loss if and only if k+n is at most 256
  (`Cauchy.RecoverableIff`); nothing in the constructor checks that.
- The assertions of `fix_code_lens` hold if and only if the leaves number at most 2^max
  (`CodeLens.FixCodeLens`), which all callers meet.
- `create_icf_block_hdr` assumes that 328 bytes take the longest header; 294 do, the bytes stored
  behind the end included (`WriteHeader.HeaderShort`).
- `create_hufftables_icf` returns the exact length of the block, but for dynamic codes it also
  counts the bits that are pending from the block before, at most seven behind `set_buf`.
  `DeflateBlock.CreateHufftablesIcf` gives the condition under which the fixed codes are taken,
  and `FixedTaken.LongerBlockTaken` a histogram for which they are taken although the dynamic
  block would be two bits shorter.
- The codes of a block are optimal: the tree costs least among all codes within the Kraft
  inequality (`SymbolLengths.TreeLeast`), and the limit of 15 bits cannot matter for a sum of
  frequencies below 2584 = Fibonacci(18) (`DeflateBlock.NoShorterData`).
- The matches that are found do not depend on where token buffers or output buffers fill up: blocks
  of any size add up to one search through the whole input (`Greedy.BlocksEnd`,
  `Lz77.IcfStream.DeflateAll`, `IgzipBase.ZStream.DeflateAll`).
- `cache_decode_ptr` divides the size it is given by k and then rebuilds whole chunks. A caller that
  passes the size of one strip still gets strips of one chunk back (`Recovery.CacheDecodeOneChunk`),
  but of longer strips only the chunks that start in the first k-th part
  (`Recovery.CacheDecodeChunks`), and nothing at all if that size is less than k.
- Six bytes for every byte of the input and 292 for every block are always enough room for the
  output (`Deflate.DeflateFile`).
- Resetting the hash table to all ones before hashing a dictionary is safe if and only if there is
  history before the file, whose last byte is position -1, or 2^16 - 1 bytes are consumed
  (`HashTable.AllOnes`, `HashTable.IsalDeflateHash`).

## Conventions

Bytes are `bv8`, except in output buffers, where they are numbers below 256. Machine words that
are shifted and or-ed are numbers with `Shl`, `Shr`, `BitOr` and `Low`, which are proved equal to
lists of bits; where 64 bits matter they are written out. Checksum words are bit-vectors of their
width. Matrices are two-dimensional arrays, whose values `Rows` gives as sequences. Methods are
the imperative functions of the source and change what their `modifies` names.

Huffman code lengths are described by their Kraft sum in Horner form: `Kraft(count, l)` is the sum
of `count[i] * 2^(l-i)` for i from 1 to l, so a code within 15 bits fits if it is at most 2^15 and
is complete if it is equal to it.

## Model

| member | source | states |
|---|---|---|
| `Galois.GfMulIsMul` | lib/isa-l/erasure_code/ec_base.c:47-59 | gf_mul with its zero test and wrapped logarithm sum is multiplication modulo x^8+x^4+x^3+x^2+1, for all 65536 pairs |
| `Galois.GffOfGflog` | lib/isa-l/erasure_code/ec_base.h:35-91 | antilog undoes log at every nonzero byte, and no nonzero byte has logarithm 0 |
| `Galois.GflogOfGff` | lib/isa-l/erasure_code/ec_base.h:35-91 | log undoes antilog for every exponent 1..255, so the two literal tables are inverse to each other |
| `Galois.GflogOfXtime` | lib/isa-l/erasure_code/ec_base.h:35-91 | doubling a nonzero byte steps its logarithm by one, from 255 back to 1 |
| `Galois.MulAssoc` | lib/isa-l/erasure_code/ec_base.c:47-59 | the product that gf_mul computes is associative |
| `Galois.MulComm` | lib/isa-l/erasure_code/ec_base.c:47-59 | and commutative |
| `Galois.MulAdd` | lib/isa-l/erasure_code/ec_base.c:47-59 | and distributes over xor |
| `Galois.MulInv` | lib/isa-l/erasure_code/ec_base.c:61-71 | gf_inv gives a nonzero two-sided inverse of every nonzero byte |
| `Cauchy.GfGenCauchy1Matrix` | lib/isa-l/erasure_code/ec_base.c:92-108 | the buffer holds the identity over the Cauchy rows 1/(i xor j), and nothing of its old contents, for every m and k |
| `Cauchy.EntryInverts` | lib/isa-l/erasure_code/ec_base.c:92-108 | an entry of a parity row times the xor of its row and column is one |
| `Cauchy.CauchyKernel` | lib/isa-l/erasure_code/ec_base.c:92-108 | a vector that is zero outside some unknowns and is killed by as many Cauchy rows is zero, by elimination of one unknown at a time |
| `Cauchy.AnyRowsNonsingular` | lib/isa-l/erasure_code/ec_base.c:92-108 | any k distinct rows of the generated matrix are linearly independent, for every k and every m up to 256 |
| `Cauchy.ZeroEntryFails` | lib/isa-l/erasure_code/ec_base.c:92-108 | one zero entry among the Cauchy rows is enough to lose that independence |
| `Cauchy.RecoverableIff` | lib/isa-l/erasure_code/ec_base.c:92-108 | any k rows suffice if and only if m is at most 256: beyond that the byte arithmetic makes two indices collide |
| `GaussJordan.GfInvertMatrix` | lib/isa-l/erasure_code/ec_base.c:110-163 | result 0 exactly when the input is nonsingular; then the output is a two-sided inverse and the input has become the identity; on -1 a nonzero kernel vector of the original exists |
| `GaussJordan.InverseProducts` | lib/isa-l/erasure_code/ec_base.c:110-163 | being an inverse as a map is having the identity as both matrix products |
| `GaussJordan.AddKeepsSystem` | lib/isa-l/erasure_code/ec_base.c:151-160 | adding a multiple of one row to another on both sides keeps exactly the solutions of the pair of systems |
| `GaussJordan.StuckKernel` | lib/isa-l/erasure_code/ec_base.c:124-132 | when no pivot is found, a vector with a 1 in that column is killed by the original matrix |
| `GaussJordan.FinishedInverse` | lib/isa-l/erasure_code/ec_base.c:115-162 | when the left side has become the identity, the right side maps every image of the original back |
| `GaussJordan.FindPivot` | lib/isa-l/erasure_code/ec_base.c:124-132 | the first row from i on with a nonzero entry in column i, or n if there is none |
| `DecodeMatrix.SurvivorsSorted` | src/IsaEC.hpp:73-81 | the survivors are exactly the rows not erased, in increasing order |
| `DecodeMatrix.MarkErased` | src/IsaEC.hpp:63-71 | frag_in_err is true exactly at the listed indices, repeated ones included |
| `DecodeMatrix.SelectRows` | src/IsaEC.hpp:73-81 | decode_index names the k lowest surviving rows in order, and the copied rows are those rows of the encode matrix |
| `DecodeMatrix.SourceRebuilds` | src/IsaEC.hpp:87-94 | a row of the inverse gives back an erased source |
| `DecodeMatrix.ParityRebuilds` | src/IsaEC.hpp:96-110 | an encode row times the inverse gives back an erased parity |
| `DecodeMatrix.FillDecodeMatrix` | src/IsaEC.hpp:87-110 | every row of the decode matrix is the row for its erasure, source or parity, and the rows behind the erasures stay |
| `DecodeMatrix.RebuildsProduct` | src/IsaEC.hpp:87-110 | such a decode row times the selected rows is, as a matrix product, the encode row of the erasure |
| `DecodeMatrix.GfGenDecodeMatrixSimple` | src/IsaEC.hpp:51-112 | 0 exactly when the selected rows are nonsingular, and then every decode row rebuilds its erasure, equal erasures equally |
| `ProductTables.GfVectMulInit` | lib/isa-l/erasure_code/ec_base.c:168-273 | the 32 bytes are the products of the coefficient with the 16 low and the 16 high nibbles, made with 64-bit word arithmetic; no other byte changes |
| `ProductTables.TableProduct` | lib/isa-l/erasure_code/ec_base.c:168-273 | the two entries of a byte add up to its product with the coefficient, and entry 1 is the coefficient itself |
| `ProductTables.WordProduct` | lib/isa-l/erasure_code/ec_base.c:168-250 | eight products computed at once in a 64-bit word are the eight single products |
| `Encoder.EcInitTables` | lib/isa-l/erasure_code/ec_base.c:35-45 | table number i*k+j is the product table of row i, column j; bytes behind the tables stay |
| `Encoder.EcEncodeDataBase` | lib/isa-l/erasure_code/ec_base.c:301-316 | every output byte in the range is the dot product of the source bytes there with its coefficient row, and no byte outside the range changes |
| `Encoder.EveryByteScheduled` | src/IsaEC.cpp:109-122 | every byte of the strips lies in a chunk of exactly the scheduled iterations |
| `Encoder.EncodeChunks` | src/IsaEC.cpp:109-122 | run in any order, the chunk iterations give the whole-strip product and touch nothing behind the last chunk |
| `ErasureCoder.IsaEC.constructor` | src/IsaEC.cpp:26-47 | a fresh object holds the Cauchy matrix and the parity tables, and no erasure set is cached |
| `ErasureCoder.IsaEC.EncodePtr` | src/IsaEC.cpp:99-125 | every parity byte is the product of its coefficient row with the data bytes, for any order of the chunks; the tail behind the whole chunks stays |
| `ErasureCoder.IsaEC.GenerateDecodeMatrix` | src/IsaEC.cpp:165-168 | the decode matrix is generated without ever failing, for every erasure list of at most n entries; the encode matrix stays |
| `ErasureCoder.AlwaysInvertible` | src/IsaEC.cpp:165-168 | the rows read for any good erasure list are nonsingular, so the ignored result is never -1 |
| `ErasureCoder.IsaEC.DecodePtr` | src/IsaEC.cpp:160-191 | at every position below size, and in the rest of the last chunk: wherever the surviving strips carry a data vector, all strips carry it afterwards; every other byte of every strip stays; g_tbls now starts with the decode rows and keeps the rest, the cached set stays |
| `ErasureCoder.IsaEC.CacheGTbls` | src/IsaEC.cpp:193-200 | g_tbls_decode and decode_index hold this erasure set; g_tbls and the parity coefficients stay |
| `ErasureCoder.IsaEC.CacheDecodePtr` | src/IsaEC.cpp:202-228 | with the cached set, the same at every position below total / k and in the rest of the last chunk; every other byte stays and the object itself is unchanged |
| `ErasureCoder.ChunksExactly` | src/IsaEC.cpp:170-174 | the loops of the decoders make an iteration for every multiple of maxSize below the size, and no other |
| `ErasureCoder.RebuiltByte` | src/IsaEC.cpp:173-188 | the decode rows applied to the strips that are read give the code byte of the erased strip, source or parity |
| `ErasureCoder.ReadNotWritten` | src/IsaEC.cpp:173-188 | no strip that is read while decoding is one that is written |
| `Recovery.EncodedCarries` | src/IsaEC.cpp:99-125 | after encoding, all k+n strips carry the data vector at every position |
| `Recovery.EncodeFresh` | src/IsaEC.cpp:99-125 | a new object encodes so that all strips carry the data, whatever the parity strips held |
| `Recovery.EncodeLoseDecode` | src/IsaEC.cpp:99-191 | end to end: encode on a fresh object, overwrite any at most n strips with anything, decode with that erasure list: every data byte is what it was and all strips carry the data again |
| `Recovery.CacheEncodeLoseDecode` | src/IsaEC.cpp:99-191 | the same with cache_g_tbls before the encoding and cache_decode_ptr after the loss: caching leaves the encoding alone, and nothing is lost |
| `Recovery.CacheDecodeChunks` | test/stripe_scheduler.cpp:127-133 | for every total: of the strips lost after caching and encoding, exactly the chunks that start below total / k are promised back, and they are |
| `Recovery.CacheDecodeOneChunk` | test/stripe_scheduler.cpp:127-133 | strips of one chunk, decoded with maxSize as total: the whole strips are back, although only a k-th part was asked for |
| `ParityUpdate.EcEncodeDataUpdateBase` | lib/isa-l/erasure_code/ec_base.c:318-332 | every parity byte gains the product of the data byte with the coefficient of that source; bytes from len on stay |
| `ParityUpdate.AnyOrder` | lib/isa-l/erasure_code/ec_base.c:318-332 | accumulating each source once, in any order, gives the whole dot product |
| `ParityUpdate.DotReplaced` | lib/isa-l/erasure_code/ec_base.c:318-332 | updating with old xor new data gives the product for the new data |
| `ParityUpdate.UpdateAll` | lib/isa-l/erasure_code/ec_base.c:301-332 | one update per source in any order on zeroed parity equals the full encoding |
| `ParityUpdate.ReplaceSource` | lib/isa-l/erasure_code/ec_base.c:318-332 | one data strip replaced, its old xor new bytes run through the update: the parity is the encoding of the new data |
| `Gosper.NextSubset` | lib/isa-l/erasure_code/gen_rs_matrix_limits.c:40-52 | the next larger number below 2^n with as many ones; when there is none, overflow and the smallest one again, and then really no larger one exists |
| `Gosper.NextWordIsNext` | lib/isa-l/erasure_code/gen_rs_matrix_limits.c:40-52 | the word that the bit trick computes has as many ones and no number in between has |
| `Submatrices.MembersCount` | lib/isa-l/erasure_code/gen_rs_matrix_limits.c:20-37 | an indicator word has as many members as one bits |
| `Submatrices.GenSubMatrix` | lib/isa-l/erasure_code/gen_rs_matrix_limits.c:20-37 | the buffer becomes the submatrix of the indicated rows and columns, in order |
| `Submatrices.CheckSize` | lib/isa-l/erasure_code/gen_rs_matrix_limits.c:54-78 | for one size: singular exactly if some square submatrix of that size is, the witness being named |
| `Submatrices.RegularBetween` | lib/isa-l/erasure_code/gen_rs_matrix_limits.c:67-74 | stepping to the next subset skips none of the same size |
| `Submatrices.AreSubmatricesSingular` | lib/isa-l/erasure_code/gen_rs_matrix_limits.c:54-78 | 1 with a singular square submatrix as witness, or 0 and every square submatrix of every size is nonsingular; both loops end |
| `IcfCodes.BsrBounds` | lib/isa-l/igzip/huffman.h:53-73 | bsr is the position of the leading one bit: 2^(bsr-1) <= v < 2^bsr |
| `IcfCodes.DistIcfCodeMeans` | lib/isa-l/igzip/huffman.h:154-179 | symbol and extra bits denote the distance in the table of section 3.2.5 of RFC 1951, for all 32768 distances |
| `IcfCodes.TokenMeans` | lib/isa-l/igzip/huffman.h:154-194 | the token made for a literal or a match means that literal or that length and distance |
| `Compare.WordDifference` | lib/isa-l/igzip/huffman.h:75-92 | the trailing zero bytes of the xor of two words are the bytes that agree |
| `Compare.Compare258` | lib/isa-l/igzip/huffman.h:248-301 | exactly the number of bytes that agree, at most the limit and at most 258 |
| `HashTable.DistanceInReach` | lib/isa-l/igzip/igzip_icf_base.c:76-83 | a distance computed modulo 2^16 from an entry that names an earlier position never reaches before the start |
| `HashTable.LookUp` | lib/isa-l/igzip/igzip_icf_base.c:76-79 | the wrapped distance to the entry of the hash of this position, which alone is replaced by this position |
| `HashTable.HashPositions` | lib/isa-l/igzip/igzip_icf_base.c:88-100 | the table becomes the one with the positions of the range entered one after the other, so every hash in the range has its last position; all entries name earlier positions |
| `HashTable.FilledSeen` | lib/isa-l/igzip/igzip_icf_base.c:88-100 | entering positions one after the other leaves the last position of every hash |
| `HashTable.IsalDeflateHashBase` | lib/isa-l/igzip/igzip_base.c:220-236 | the hashes of the dictionary have their last positions in the table, other entries stay |
| `HashTable.IsalDeflateHash` | lib/isa-l/igzip/igzip.c:1211-1240 | for every total_in: a table set to all ones and then filled names only positions up to the present one, given history before file_start; other entries stay all ones |
| `HashTable.AllOnes` | lib/isa-l/igzip/igzip.c:1211-1240 | all ones name a position that exists if and only if there is history before file_start or 2^16 - 1 bytes are consumed |
| `HashTable.ResetMatchHistory` | lib/isa-l/igzip/igzip.c:887-946 | every entry is total_in modulo 2^16, so all of them name the present position |
| `Lz77.IcfStream.constructor` | lib/isa-l/igzip/igzip.c:887-946 | a fresh stream is valid: nothing consumed, no history, empty token buffer, zero histograms, all hash entries reset |
| `Lz77.IcfStream.Advance` | lib/isa-l/igzip/igzip_icf_base.c:76-120 | one step, which is one turn of the greedy search (Greedy.Next), hash table included: the longest match at the looked-up distance if it has four bytes and the distance is within the history, else a literal; exactly that token is appended and that many bytes are consumed |
| `Lz77.IcfStream.PutMatch` | lib/isa-l/igzip/igzip_icf_base.c:102-110 | the match token is appended, both histograms count it, and the tokens still describe the consumed bytes |
| `Lz77.IcfStream.PutLiteral` | lib/isa-l/igzip/igzip_icf_base.c:116-120 | the literal token is appended and counted, and the tokens still describe the consumed bytes |
| `Lz77.IcfStream.DeflateBody` | lib/isa-l/igzip/igzip_icf_base.c:14-131 | position, hash table and tokens afterwards are those of the greedy search, run in its body until the room is used up or 288 bytes are left; state, has_hist and block_end follow, and it keeps: tokens expand to exactly the consumed bytes, histograms are the token counts, no distance before the start |
| `Lz77.IcfStream.DeflateFinish` | lib/isa-l/igzip/igzip_icf_base.c:14-242 | the same for the finish, which goes up to the end of the input: compares as far as it can, hashes less of a match, and takes the last three bytes as literals |
| `Lz77.IcfStream.DeflatePass` | lib/isa-l/igzip/igzip_icf_base.c:36-242 | body and finish together give a block of the greedy search: at most as many tokens as there is room for |
| `Lz77.IcfStream.StartBlock` | lib/isa-l/igzip/igzip.c:324-342 | the next block starts where the last one ended, in state body, with no tokens, zero histograms and a valid stream |
| `Lz77.IcfStream.DeflateAll` | lib/isa-l/igzip/igzip_icf_base.c:36-242 | for every input, hash function, table size and token buffer size, body and finish repeated until done emit tokens that expand to the whole input, and they are the tokens of one search through all of it: where full token buffers cut makes no difference |
| `Lz77.DescribesMatch` | lib/isa-l/igzip/igzip_icf_base.c:102-110 | a match of equal bytes at a distance within the consumed part extends what the tokens expand to by its length, overlaps included |
| `Greedy.AgreeingIs` | lib/isa-l/igzip/huffman.h:248-301 | what compare258 promises determines the number of equal bytes that the search counts one by one |
| `Greedy.NextIs` | lib/isa-l/igzip/igzip_icf_base.c:76-120 | looking up, choosing, hashing and consuming as the loops do is one turn of the search |
| `Greedy.RunMoves` | lib/isa-l/igzip/igzip_icf_base.c:74-123 | every turn adds one item and moves on; fewer turns than asked for are made only at the end |
| `Greedy.BlockOn` | lib/isa-l/igzip/igzip_icf_base.c:74-242 | a block goes on exactly where the blocks before it ended, in the body or in the finish |
| `Greedy.BlocksEnd` | lib/isa-l/igzip/igzip_icf_base.c:74-242 | so blocks of any size add up to the one search through the whole input |
| `PackedTables.TokenUnique` | lib/isa-l/igzip/huffman.h:154-194 | a literal or a pair has only one token, so the items of the search determine the tokens |
| `UpdateHistogram.UpdateHistogramBase` | lib/isa-l/igzip/huff_codes.c:666-723 | the counts added are the symbol frequencies of the tokens that the greedy search over the whole buffer finds, from a cleared table, with distances below 32768; they expand to the buffer; plus one end of block; an empty buffer changes nothing |
| `UpdateHistogram.CountOne` | lib/isa-l/igzip/huff_codes.c:678-716 | one turn of the loop is one turn of the search, hash table included, and its symbol is counted |
| `Bits.BitsAppend` | lib/isa-l/igzip/bitbuf2.h:110-114 | or-ing a code above pending bits appends its bits |
| `BitBuf.BitBuf2.constructor` | lib/isa-l/igzip/bitbuf2.h:39-50 | set_buf and init: an empty bit list at the start of the buffer |
| `BitBuf.BitBuf2.SetBuf` | lib/isa-l/igzip/bitbuf2.h:45-50 | set_buf alone: the pending bits go on in the new buffer |
| `BitBuf.BitBuf2.FlushBits` | lib/isa-l/igzip/bitbuf2.h:78-87 | whole bytes move to the buffer, the bit list stays the same, fewer than 8 bits stay pending, and the byte behind them holds exactly those |
| `BitBuf.BitBuf2.Flush` | lib/isa-l/igzip/bitbuf2.h:90-100 | the bit list gains only zeros up to the next whole byte, and nothing stays pending |
| `BitBuf.BitBuf2.CheckSpace` | lib/isa-l/igzip/bitbuf2.h:102-108 | the bit list stays, and there is room for the bits asked for within 63 |
| `BitBuf.BitBuf2.WriteBitsUnsafe` | lib/isa-l/igzip/bitbuf2.h:110-114 | exactly the low bits of the code are appended, low bit first, without loss in 64 bits |
| `BitBuf.BitBuf2.WriteBits` | lib/isa-l/igzip/bitbuf2.h:116-121 | codes of up to 56 bits are appended with fewer than 8 bits pending before and after |
| `Canonical.CodeBound` | lib/isa-l/igzip/huff_codes.c:983-1008 | when the Kraft sum is at most one, every canonical code fits its length |
| `Canonical.PrefixFree` | lib/isa-l/igzip/huff_codes.c:983-1008 | and no code is a prefix of another |
| `Canonical.CodesOrdered` | lib/isa-l/igzip/huff_codes.c:983-1008 | codes follow (length, symbol): shifted to the length of a later one, a code is below it |
| `Canonical.DecodeEncoded` | lib/isa-l/igzip/huff_codes.c:983-1008 | so a code word is decoded to its own symbol whatever follows it |
| `HuffCodes.BitRev8Reverses` | lib/isa-l/igzip/huff_codes.c:624-657 | the literal table reverses the eight bits of every byte |
| `HuffCodes.BitReverseBits` | lib/isa-l/igzip/huff_codes.c:660-664 | bit_reverse turns a code of n bits into the same bits most significant first |
| `HuffCodes.SetHuffCodes` | lib/isa-l/igzip/huff_codes.c:983-1037 | whenever the Kraft sum is at most one and count agrees, every used symbol gets its canonical code of section 3.2.2 of RFC 1951, reversed, lengths stay, distance symbols get their extra bit counts, and the largest used symbol is returned; counts above the longest length may be anything |
| `IcfTables.LenSymMeans` | lib/isa-l/igzip/huff_codes.c:742-761 | convert_length_to_len_sym gives the symbol whose range in section 3.2.5 of RFC 1951 holds the length |
| `IcfTables.ExpandHufftablesIcf` | lib/isa-l/igzip/huff_codes.c:1573-1602 | every length from 11 to 257 has the code of its symbol with its extra bits joined, 258 has the code of symbol 285, the null distance is empty, other entries stay |
| `EncodeDf.TablesExpanded` | lib/isa-l/igzip/huff_codes.c:1573-1602 | expansion turns tables of canonical codes into tables whose entries write code and extra bits of every length |
| `Flatten.FlattenLL` | lib/isa-l/igzip/flatten_ll.c:7-41 | every symbol counts all the lengths that belong to it |
| `Flatten.FoldedCounts` | lib/isa-l/igzip/flatten_ll.c:7-41 | folding token counts gives the frequencies of the symbols of the same tokens, the counterpart of the expansion |
| `Inflate.PairRead` | lib/isa-l/igzip/encode_df.c:18-38 | section 3.2.3 of RFC 1951 reads a length code, its extra bits, a distance code and its extra bits back to the pair |
| `EncodeDf.TokenRead` | lib/isa-l/igzip/encode_df.c:18-38 | the bits that the three lookups of a token give fit the bit buffer and are read back to that token |
| `EncodeDf.EncodeToken` | lib/isa-l/igzip/encode_df.c:18-38 | one turn of the loop appends exactly the bits of the token |
| `EncodeDf.EncodeDeflateIcfBase` | lib/isa-l/igzip/encode_df.c:18-38 | the bits of all tokens up to the returned one are appended, and it stops early only when the buffer is full |
| `EncodeDf.BlockRead` | lib/isa-l/igzip/encode_df.c:18-38 | for every token list and every code that covers it, the bits decode to exactly the literals and pairs of the tokens, 258 included, whatever follows |
| `EncodeDf.EncodeBlock` | lib/isa-l/igzip/encode_df.c:18-38 | expansion and encoding of a whole block: what the buffer gained inflates to the items of the tokens |
| `EncodeDf.AllBitsShort` | lib/isa-l/igzip/encode_df.c:18-38 | no token takes more than 48 bits |
| `HuffHeap.RootLeast` | lib/isa-l/igzip/proc_heap_base.c:51-58 | the root of an ordered heap is its least word |
| `HuffHeap.Heapify` | lib/isa-l/igzip/proc_heap_base.c:34-49 | sinking one word orders the heap from its index on, keeps the words of the heap and everything outside |
| `HuffHeap.BuildHeap` | lib/isa-l/igzip/proc_heap_base.c:51-58 | any array becomes an ordered heap of the same words with the sentinel behind it |
| `HuffTree.MergeLeast` | lib/isa-l/igzip/proc_heap_base.c:60-85 | the two least words are taken and their merged word is put in: the multiset changes by exactly that |
| `HuffMerge.BuildHuffTree` | lib/isa-l/igzip/proc_heap_base.c:60-85 | a full binary tree over exactly the symbols of the heap, whose slots never overlap the heap; for frequencies that add up to less than 2^48 weights fall from slot to slot and no code costs less than the slots below the root weigh; powers of two with a power of two as sum halve at every step down |
| `LeastCost.MergeCheapest` | lib/isa-l/igzip/proc_heap_base.c:60-85 | lower bounds survive a merge backwards: if every code for the merged weights costs c or more, every code for the weights costs c and the sum of the two least ones or more, over all lengths within the Kraft inequality |
| `HuffMerge.MergeReduces` | lib/isa-l/igzip/proc_heap_base.c:60-85 | so one turn of the loop costs exactly the two frequencies it takes out of the heap |
| `TreeCost.LeafCost` | lib/isa-l/igzip/proc_heap_base.c:60-85 | frequencies times depths over the leaves are the weights of all slots below the root |
| `SymbolLengths.TreeLeast` | lib/isa-l/igzip/proc_heap_base.c:60-85 | so the leaves of the tree are a code of least cost for the frequencies |
| `TreeShape.Shape.HeavierHigher` | lib/isa-l/igzip/proc_heap_base.c:60-85 | of two slots the heavier one is never deeper |
| `TreeShape.Shape.DeepHeavy` | lib/isa-l/igzip/proc_heap_base.c:60-85 | a leaf of depth d needs frequencies that add up to Fibonacci(d + 2) or more |
| `HuffMerge.LeastEqual` | lib/isa-l/igzip/proc_heap_base.c:60-85 | among such frequencies the two least words always have the same frequency |
| `TreeShape.Shape.KraftWhole` | lib/isa-l/igzip/huff_codes.c:897-916 | the leaf depths of every full binary tree have Kraft sum exactly one |
| `TreeShape.Shape.LeafWeights` | lib/isa-l/igzip/proc_heap_base.c:60-85 | a leaf of such a weighted tree is as deep as its frequency says |
| `LimitLengths.LongestPaired` | lib/isa-l/igzip/huff_codes.c:918-931 | a complete code has at least two words of its greatest length |
| `LimitLengths.ShortenedKeeps` | lib/isa-l/igzip/huff_codes.c:918-931 | moving one short leaf down and two long ones up keeps the number of codes and the Kraft sum |
| `LimitLengths.ShorterCode` | lib/isa-l/igzip/huff_codes.c:918-931 | as long as some length is over the limit and the leaves fit it, a code below the limit is there to be moved |
| `CodeLens.WalkTree` | lib/isa-l/igzip/huff_codes.c:897-916 | walking the slots gives every leaf its depth, packs the leaves, and counts the depths |
| `CodeLens.LimitCounts` | lib/isa-l/igzip/huff_codes.c:918-931 | the loop ends; both assertions hold if and only if the codes number at most 2^max, and then the counts are a complete code within max; they are those of Limited: the greatest length below max gives up a code each time, as long as codes are too long |
| `CodeLens.DealLengths` | lib/isa-l/igzip/huff_codes.c:939-944 | every leaf gets a length, the lengths rise in the order of the leaves and are counted by bl_count |
| `CodeLens.FixCodeLens` | lib/isa-l/igzip/huff_codes.c:890-955 | for every tree: success if and only if the leaves number at most 2^max_code_len, and then every leaf has a length in 1..max, the Kraft sum is exactly one and bl_count has the numbers of leaves of each depth, limited; a tree within the limit keeps its depths, another one its order of leaves, with rising lengths |
| `HuffGen.InitHeap` | lib/isa-l/igzip/huff_codes.c:767-888 | the heap holds exactly one word with its frequency for every symbol that must have a code, at least two of them, and is ordered |
| `HuffGen.CodedDistinct` | lib/isa-l/igzip/huff_codes.c:790-796 | no symbol is put in twice, however few have a nonzero count |
| `HuffGen.GenHuffCodeLens` | lib/isa-l/igzip/huff_codes.c:958-973 | exactly the chosen symbols get lengths, these form a complete code within the limit, all others get 0; possible if and only if the symbols number at most 2^limit; a more frequent symbol never gets a longer code, limit or not, and no code costs less unless some code of least cost passes the limit, which takes a sum of Fibonacci(limit + 3) |
| `SymbolLengths.LimitPassed` | lib/isa-l/igzip/huff_codes.c:918-931 | a tree that is too deep is itself a complete code of least cost beyond the limit |
| `ShortestCodes.LeastIsShortest` | lib/isa-l/igzip/huff_codes.c:767-797 | with the symbols that fill the heap up to two, a code of least cost is shortest for the histogram: no prefix code that covers its symbols needs fewer bits |
| `RunLength.WriteRl` | lib/isa-l/igzip/huff_codes.c:1138-1215 | a run of any length becomes exactly the symbols that take the longest repeats first; they expand to that run and are at most as many as it is long |
| `RunLength.RlEncode` | lib/isa-l/igzip/huff_codes.c:1223-1246 | run by run, the symbols expand by section 3.2.7 of RFC 1951 to the sequence of lengths, counts are the symbol frequencies, and the output is never longer than the input |
| `DynamicHeader.HeaderRead` | lib/isa-l/igzip/huff_codes.c:1052-1091 | the header bits are read back by section 3.2.7 of RFC 1951 to the code lengths, whatever follows |
| `WriteHeader.StartWordBits` | lib/isa-l/igzip/huff_codes.c:1068-1070 | the first word holds BFINAL, BTYPE, HLIT, HDIST, HCLEN and the first length in their fields |
| `WriteHeader.OrderAgrees` | lib/isa-l/igzip/huff_codes.c:34-37 | the table code_length_code_order is entry by entry the order in which a reader of section 3.2.7 of RFC 1951 expects the lengths |
| `WriteHeader.SymbolsShort` | lib/isa-l/igzip/huff_codes.c:1052-1091 | a run length symbol never takes more than seven bits for each length it stands for |
| `WriteHeader.HeaderShort` | lib/isa-l/igzip/igzip.c:405-407 | so every dynamic header, with the eight bytes stored at its last write, takes at most 294 bytes: the assumption that ISAL_DEF_MAX_HDR_SIZE is large enough |
| `WriteHeader.CreateHuffmanHeader` | lib/isa-l/igzip/huff_codes.c:1052-1091 | exactly the header bits are appended, given room for them |
| `WriteHeader.CreateHeader` | lib/isa-l/igzip/huff_codes.c:1103-1136 | what is appended reads back to the code lengths behind the run length symbols; it uses a complete code for exactly the symbols that need one, the more frequent ones no longer, of least cost unless that passes 7 bits, stored up to its last length; 294 bytes of room are enough |
| `WriteHeader.ClearedHeader` | lib/isa-l/igzip/igzip.c:1796-1801 | the first bit of a header of a final block is BFINAL; without it the bits are the same header of a block that is not final |
| `FixedCodes.FixedCodeIs` | lib/isa-l/igzip/huff_codes.c:53-600 | the canonical codes of the lengths in section 3.2.6 of RFC 1951 are the codes that section lists |
| `FixedCodes.StaticIs` | lib/isa-l/igzip/huff_codes.c:53-600 | every literal and length entry of static_hufftables is its fixed code, reversed |
| `FixedCodes.StaticTables` | lib/isa-l/igzip/huff_codes.c:53-600 | so the table holds the fixed codes of both alphabets with the extra bit counts of the distances |
| `FixedCodes.FixedRead` | lib/isa-l/igzip/huff_codes.c:1683-1690 | the three header bits and data in the fixed codes read back as a block of BTYPE 1 |
| `BlockSize.SumsAre` | lib/isa-l/igzip/huff_codes.c:1652-1671 | code and extra bits added up over the histograms are the bits of the tokens counted in them |
| `BlockSize.DataUncut` | lib/isa-l/igzip/huff_codes.c:1652-1671 | the 32-bit products are the true ones as long as no symbol occurs 2^27 times |
| `BlockSize.ProductCut` | lib/isa-l/igzip/huff_codes.c:1652-1671 | a symbol of 16 bits that occurs 2^28 times adds nothing to the length |
| `BlockSize.AllLength` | lib/isa-l/igzip/encode_df.c:18-38 | the bits written for tokens are as many as their codes and extra bits |
| `DeflateBlock.CreateCodes` | lib/isa-l/igzip/huff_codes.c:1629-1646 | exactly the symbols with a count, the end of block and fill-ins up to two have a code, both codes are complete and as short as ShortestWithin says, and the two assertions on the last symbols hold |
| `DeflateBlock.SumLengths` | lib/isa-l/igzip/huff_codes.c:1652-1671 | compressed_len and static_compressed_len are the sums of code and extra bits over the histograms in the dynamic and in the fixed codes, with products cut to 32 bits |
| `DeflateBlock.CreateHufftablesIcf` | lib/isa-l/igzip/huff_codes.c:1605-1694 | tables and header agree: data encoded with the tables make, behind the appended bits, a block of that data; the fixed codes are taken exactly when they are not longer than the dynamic header and data and what is in the bit buffer already, and the length returned is exact |
| `DeflateBlock.NoShorterData` | lib/isa-l/igzip/huff_codes.c:1629-1646 | for fewer than 2582 symbols of each alphabet no other codes that cover a block make its data shorter |
| `FixedTaken.LongerBlockTaken` | lib/isa-l/igzip/huff_codes.c:1673-1693 | twelve times literal 0 behind two or more pending bits: the fixed block of 106 bits is taken before the dynamic one of 104 |
| `FixedTaken.HeaderLength` | lib/isa-l/igzip/huff_codes.c:1103-1136 | its dynamic header has exactly 91 bits |
| `FixedTaken.OneBitEach` | lib/isa-l/igzip/huff_codes.c:890-955 | a complete code of two symbols has one bit for each |
| `DeflateBlock.CompressBlock` | lib/isa-l/igzip/huff_codes.c:1605-1694 | from the match finder to a block: the appended bits are a block that stands for the bytes consumed since the block started, made of the header that create_hufftables_icf takes for the symbol counts of the tokens and the tokens in its codes; as many as returned unless a 32-bit product is cut, and no more than 286 bytes and 48 bits a token; given up only when the bit buffer is full |
| `Deflate.DeflateBlockOf` | lib/isa-l/igzip/igzip.c:405-442 | a block of the tokens of the greedy search, with all the tokens there is room for unless the input ends; it is given up only when there is no room for a header or the bit buffer is full |
| `Deflate.NextBlock` | lib/isa-l/igzip/igzip.c:405-442 | one more block in the rest of the output extends what reads back by the bytes it consumed; it takes at most 292 bytes and 6 for each of them, and is not given up with that much room |
| `Deflate.DeflateFile` | lib/isa-l/igzip/igzip_icf_base.c:36-242 | for every input and every block size: all that is written, dynamic and fixed blocks mixed, inflates to the input, wherever the blocks were cut, and it is done whenever the output has 292 * (size / room + 1) + 6 * size + 8 bytes |
| `HuffTables.AreHufftablesUseable` | lib/isa-l/igzip/huff_codes.c:1349-1389 | true exactly when the longest literal, length and distance that it looks at exceed 56 bits together |
| `HuffTables.PassedFit` | lib/isa-l/igzip/huff_codes.c:1349-1389 | tables that pass keep every literal, length below 258 and distance within 56 bits together |
| `HuffTables.PassedFitExactly` | lib/isa-l/igzip/huff_codes.c:1363-1371 | they do so for length 258 as well if and only if the code of symbol 285 leaves room: the loop ends before it |
| `HuffTables.SafeFit` | lib/isa-l/igzip/huff_codes.c:1431-1444 | the retry with limits 13 and 12 always fits: 13 + 18 + 25 |
| `HuffTables.PassedWithoutFitting` | lib/isa-l/igzip/huff_codes.c:1349-1389 | two complete codes within 15 bits that pass and need 58 bits for one literal, the length 258 and one distance |
| `HuffTables.CreateHufftables` | lib/isa-l/igzip/huff_codes.c:1391-1444 | for all histograms: complete codes with every symbol, of least cost unless that passes the limit; the first try within 15 bits is kept exactly when it passes, and otherwise the codes are made again within 13 and 12; fitting 56 bits for all lengths below 258, and for 258 too after a retry or when another length symbol is rarer than 285; a more frequent symbol never has a longer code; every complete code is reached from the histogram made for it |
| `HuffTables.RarerFits` | lib/isa-l/igzip/huff_codes.c:1363-1371 | if some of the symbols 257 to 284 is rarer than 285, passing tables fit for length 258 as well |
| `HuffTables.TooLongTables` | lib/isa-l/igzip/huff_codes.c:1391-1444 | concrete histograms for which the resulting tables exceed 56 bits |
| `HuffTables.SameDistSym` | lib/isa-l/igzip/huff_codes.c:728-737 | convert_dist_to_dist_sym agrees with get_dist_icf_code on every distance |
| `HuffTables.KraftOfHistogram` | lib/isa-l/igzip/huff_codes.c:1391-1444 | a histogram of powers of two adds up to the Kraft sum of the lengths it is made from |
| `PackedTables.PackedMeans` | lib/isa-l/igzip/huff_codes.c:1284-1331 | a packed entry unpacks to the code followed by the extra bits, and to their joint length |
| `PackedTables.CreatePackedLenTable` | lib/isa-l/igzip/huff_codes.c:1273-1302 | entry number length-3 is that of the length, for all 256 lengths, 258 being that of symbol 285 |
| `PackedTables.CreatePackedDistTable` | lib/isa-l/igzip/huff_codes.c:1312-1340 | entry number dist-1 is that of the distance, for every table size |
| `PackedTables.DistanceSymbol` | lib/isa-l/igzip/huff_codes.c:1312-1340 | symbol and extra bits of a distance are unique: the computation of get_dist_icf_code inverts the table of section 3.2.5 of RFC 1951 |
| `PackedTables.TablesHold` | lib/isa-l/igzip/huffman.h:94-150 | for canonical codes every lookup of a literal, length or distance gives exactly its code and extra bits, from the packed tables and computed alike |
| `CustomTables.StoreHeader` | lib/isa-l/igzip/huff_codes.c:1454-1476 | the stored bytes and extra bits are a header with the lengths of the codes, and the byte with the extra bits holds nothing else |
| `CustomTables.IsalCreateHufftables` | lib/isa-l/igzip/huff_codes.c:1391-1479 | for all histograms: lookups give canonical codes of the complete codes that CreateHufftables makes, first try or retry, the stored header is one of a final block with these codes, and they fit 56 bits under the condition on the histogram |
| `DirectDeflate.MatchCode` | lib/isa-l/igzip/igzip_base.c:87-94 | length and distance code joined are the bits of the pair and never exceed 48 bits, however long the codes |
| `DirectDeflate.ItemsRead` | lib/isa-l/igzip/igzip_base.c:29-218 | the bits of any items and the end of block decode to the items |
| `DirectDeflate.PutHeader` | lib/isa-l/igzip/igzip.c:1782-1818 | the bytes and extra bits of the stored header are what has been written, with the final bit taken away when the stream goes on |
| `IgzipBase.ZStream.constructor` | lib/isa-l/igzip/igzip.c:1782-1818 | a fresh stream with or without a dictionary is valid, has written its header, final or not, and its hash table has the positions of the dictionary entered one after the other |
| `IgzipBase.ZStream.SetBuf` | lib/isa-l/igzip/bitbuf2.h:45-50 | going on in another output buffer loses no bit |
| `IgzipBase.ZStream.Advance` | lib/isa-l/igzip/igzip_base.c:61-104 | one step, which is one turn of the greedy search, hash table included: the longest match at the looked-up distance if it has four bytes, else a literal; exactly that item is written and consumed |
| `IgzipBase.ZStream.DeflateBody` | lib/isa-l/igzip/igzip_base.c:29-115 | position, hash table and items are those of as many turns of the greedy search, and it stops only on a full output buffer or within the look-ahead; it keeps: the bits written are header and items, the items expand to exactly the consumed bytes |
| `IgzipBase.ZStream.DeflateFinish` | lib/isa-l/igzip/igzip_base.c:117-218 | the same for the finish, which stops only on a full output buffer or after the end of block; the state follows |
| `IgzipBase.ZStream.DeflateAll` | lib/isa-l/igzip/igzip_base.c:29-218 | for output buffers of any size from 8 bytes on: the items are those of one greedy search through the input, and all bits written are one block, final if the stream ends, that reads back to the data behind the dictionary |
| `IgzipBase.CompressWithTables` | lib/isa-l/igzip/huff_codes.c:1391-1479 | tables from any histograms, dictionary and data: what is written inflates to the data, or, when the stream is only flushed, brings the reader to the data and leaves it at the next block; the literals and pairs in it are those of the greedy search |
| `Adler.AdlerRef` | lib/isa-l/igzip/checksum_test_ref.h:89-100 | the per-byte definition: the low half is the start value and all bytes, the high half the sum of all those sums, reduced modulo 65521; without a byte the start value |
| `Adler.AddUp` | lib/isa-l/igzip/adler32_base.c:43-57 | sums deferred over up to 2^28 bytes stay congruent and never leave 64 bits |
| `Adler.SumsAre` | lib/isa-l/igzip/adler32_base.c:48-57 | the running sums are the sum of the bytes and the sum of every byte times the number of bytes from it on |
| `Adler.ChecksumValue` | lib/isa-l/igzip/adler32_base.c:33-63 | the checksum of the bytes 0x61 and 0x62 from 1 is 0x012600C4 |
| `Adler.Adler32Base` | lib/isa-l/igzip/adler32_base.c:33-63 | the deferred form computes the same two sums for every buffer and every start value |
| `Adler.SameChecksum` | lib/isa-l/igzip/adler32_base.c:33-63 | it equals the per-byte definition if and only if the buffer is not empty or both halves of the start value are below 65521 |
| `Adler.UnreducedStart` | lib/isa-l/igzip/adler32_base.c:33-63 | an empty buffer and the start value 65521 on which the two differ |
| `Adler.InTwoPieces` | lib/isa-l/igzip/adler32_base.c:33-63 | a buffer fed in two pieces gives the checksum of the whole |
| `CrcSteps.ReflSplit` | lib/isa-l/crc/crc64_base.c:818-828 | eight reflected steps are a shift xor the steps of the low byte alone |
| `CrcSteps.NormSplit` | lib/isa-l/crc/crc64_base.c:830-840 | eight normal steps are a shift xor the steps of the high byte alone |
| `Crc.TableEntries` | lib/isa-l/crc/crc64_base.c:32-816 | all 256 entries of each of the six literal tables are eight steps of their index |
| `Crc.Crc64ReflRef` | lib/isa-l/crc/crc64_ref.h:46-126 | the three reflected bit-by-bit definitions compute the remainder that specifies them |
| `Crc.Crc64ReflBase` | lib/isa-l/crc/crc64_base.c:818-876 | the three reflected table loops compute the same, for every seed and buffer |
| `Crc.Crc64NormRef` | lib/isa-l/crc/crc64_ref.h:62-142 | the three normal bit-by-bit definitions compute the remainder that specifies them |
| `Crc.Crc64NormBase` | lib/isa-l/crc/crc64_base.c:830-888 | the three normal table loops compute the same, for every seed and buffer |
| `Crc.Crc64InTwoPieces` | lib/isa-l/crc/crc64_base.c:818-888 | all six: a buffer fed in two pieces gives the value of the whole |
| `CrcNarrow.Table32Entries` | lib/isa-l/crc/crc_base.c:67-266 | all entries of the reflected 32-bit tables are eight steps of their index |
| `CrcNarrow.Crc32ReflRef` | lib/isa-l/crc/crc_ref.h:46-134 | the bit-by-bit iSCSI CRC and the gzip CRC of section 8 of RFC 1952 |
| `CrcNarrow.Crc32ReflBase` | lib/isa-l/crc/crc_base.c:292-333 | their table loops compute the same, for every seed and buffer |
| `CrcNarrow.T10DifRef` | lib/isa-l/crc/crc_ref.h:63-78 | the bit-by-bit T10 DIF CRC computes its remainder, in a register wider than 16 bits |
| `CrcNarrow.T10DifBase` | lib/isa-l/crc/crc_base.c:268-277 | the table loop computes the same |
| `CrcNarrow.T10DifCopyBase` | lib/isa-l/crc/crc_base.c:279-290 | the copying loop computes the same, copies exactly the bytes checked and changes none behind them |
| `CrcNarrow.IeeeNormRef` | lib/isa-l/crc/crc_ref.h:100-115 | the bit-by-bit IEEE CRC computes its remainder, in a register wider than 32 bits |
| `CrcNarrow.IeeeNormBase` | lib/isa-l/crc/crc_base.c:307-317 | the table loop computes the same |
| `CrcNarrow.Refl32InTwoPieces` | lib/isa-l/crc/crc_base.c:292-333 | fed in two pieces, the reflected 32-bit CRCs give the value of the whole |
| `CrcNarrow.T10DifInTwoPieces` | lib/isa-l/crc/crc_base.c:268-277 | so does the T10 DIF CRC |
| `CrcNarrow.IeeeNormInTwoPieces` | lib/isa-l/crc/crc_base.c:307-317 | and the IEEE CRC |
| `CrcResidue.ReflFed` | lib/isa-l/crc/crc64_base.c:818-828 | the bytes of a word, lowest first, take the register to what the word in the register would become |
| `CrcResidue.NormFed` | lib/isa-l/crc/crc64_base.c:830-840 | so do the bytes of a word, highest first, in the normal register |
| `CrcResidue.Refl64Residue` | lib/isa-l/crc/crc64_base.c:818-876 | a buffer followed by its own check, low byte first, leaves the same check from every seed: 0xB66A73654282CAC0, 0xACFFFFFFFFFFFFFF, 0x0EC3E23D8F57B2E5 |
| `CrcResidue.Norm64Residue` | lib/isa-l/crc/crc64_base.c:830-888 | high byte first: 0x03534142A6CE566D, 0xFFFFFFFFFFFFFF35, 0xA74DEAF1BC47C370 |
| `CrcResidue.Refl32Residue` | lib/isa-l/crc/crc_base.c:292-333 | low byte first: 0x2144DF1C for gzip and 0 for iSCSI |
| `CrcResidue.T10DifResidue` | lib/isa-l/crc/crc_base.c:268-277 | high byte first: 0 |
| `CrcResidue.IeeeNormResidue` | lib/isa-l/crc/crc_base.c:307-317 | high byte first: 0x38FB2284 |
| `CrcResidue.Refl64Value` | lib/isa-l/crc/crc64_base.c:818-876 | the checks of the byte 0x61 from seed 0: 0x330284772E652B05, 0x3420000000000000, 0x89048445B4CBFC3C |
| `CrcResidue.Norm64Value` | lib/isa-l/crc/crc64_base.c:830-888 | 0xCE73F427ACC0A99A, 0x0000000000000C4D, 0x0757B1DDB1E2C96E |
| `CrcResidue.Refl32Value` | lib/isa-l/crc/crc_base.c:292-333 | 0xE8B7BE43 for gzip, 0x93AD1061 for iSCSI |
| `CrcResidue.T10DifValue` | lib/isa-l/crc/crc_base.c:268-277 | 0xFAAE |
| `CrcResidue.IeeeNormValue` | lib/isa-l/crc/crc_base.c:307-317 | 0x19939B6B |

## Left out

- OpenMP: a chunk iteration is one atomic step, and the order of the iterations is a parameter. Interleavings inside a chunk do not arise, because chunks write separate ranges and read none of them (`ReadNotWritten`).
- The vector forms `encode` and `decode`, the SSD functions, printing, the destructor and the `scheduler` class: they repeat the pointer forms or do input and output.
- Matrices are `array2` values and not flat buffers with computed offsets; two buffers never overlap partly.
- Encoding after `decode_ptr`: the source reloads `g_tbls` with decode rows, and the ghost field `coefs` says so; nothing is claimed for encoding on such an object.
- ErasureCoder.IsaEC.EncodePtr: says that bytes behind the last whole chunk stay as they are, because the loop does not reach them; recovery is stated for strip sizes that are multiples of `maxSize`. The number of iterations is not cut to the 32 bits of `int iter_num`.
- ErasureCoder.IsaEC.CacheDecodePtr: does not cut total / k to the 32 bits of `int total_len`.
- `gf_gen_rs_matrix`, the `GF_LARGE_TABLES` tables, SSE and AVX forms and their dispatch.
- Histogram counters are unbounded numbers; the wrap-around of 32-bit counters after 2^32 tokens is not modelled. Frequencies of 2^48 and more are cut as the shift by 16 cuts them.
- `compute_hash` is an arbitrary function of four bytes, and the table size is arbitrary, which covers every hash mask.
- Deflate.NextBlock: leaves out blocks of stored bytes, which the driver writes when a block would not shrink, and the path of `create_icf_block_hdr` that keeps a header in a buffer of its own when the output is short.
- Level 3 matching with hash maps and tokens that pack two literals (`lit_dist` above 30).
- The driver in `igzip.c`, gzip and zlib headers and trailers, and the empty stored block of a sync flush. `Deflate.DeflateFile` and `IgzipBase.CompressWithTables` are the smallest clients that use the loops in the driver's order.
- IgzipBase.ZStream.SetBuf: makes a new bit buffer object for the next output buffer, where the source changes the fields of one; the pending bits are carried over in the same way.
- `isal_create_hufftables_subset`, and `LONGER_HUFFTABLE`, which changes two table sizes; `CreatePackedDistTable` is proved for every size.
- `isal_hufftables` is filled in arrays and then taken as a value, since the loops only read it.
- HuffMerge.BuildHuffTree: models the union of heap and tree as two arrays, and proves that the slots in use never overlap. Weights and costs are claimed for frequencies that add up to less than 2^48; beyond, merged frequencies run into the labels.
- HuffTables.CreateHufftables: the condition on histograms for length 258 goes one way. When no other length symbol is rarer than 285, only the lengths tell (`PassedFitExactly`).
- `code_len_count` is given the size of the tree instead of 16 entries, and the scan that runs off its end after the last leaf is bounded; entries of `bl_count` above the limit stay unset and are never read for a length in use.
- `next_code` is an unbounded number; every code is shown to be below 2^15.
- Pointer comparisons, alignment and reading up to eight bytes at once beyond the compared length are modelled on sequences of bytes.
- `crc16_t10dif_copy_ref`, the assembly forms of the checksums and their combination functions.
- Submatrices.AreSubmatricesSingular: is proved for up to 63 rows and columns, which is wider than the program allows: its scratch buffers hold COLS x COLS entries, and `1 << subsize` is an `int` shift.
