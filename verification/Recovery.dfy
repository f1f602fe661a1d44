/** Nothing is lost. */
module Recovery {
  import opened Galois
  import opened Linear
  import opened Cauchy
  import opened DecodeMatrix
  import opened Encoder
  import opened ErasureCoder

  // What the encoder stores in a strip is the code byte of the data.
  lemma EncodedByte(k: nat, n: nat, r: nat, x: Row)
    requires |x| == k && r < k + n
    ensures r < k ==> CodeByte(r, x) == x[r]
    ensures r >= k ==> CodeByte(r, x) == Dot(x, CoefRow(ParityCoefs(k, n), r - k, k), k)
  {
    hide Dot, CoefRow, ParityCoefs, CauchyRow, Unit;
    if r < k {
      DotUnit(r, x, k);
    } else {
      ParityRow(k, n, r - k);
      DotComm(x, EncodeRow(r, k), k);
    }
  }

  // Fresh parity makes every position a code word of its data bytes.
  lemma EncodedCarries(strips: seq<array<bv8>>, k: nat, n: nat, p: nat)
    requires |strips| == k + n
    requires forall r :: 0 <= r < k + n ==> p < strips[r].Length
    requires forall l :: 0 <= l < n ==>
               strips[k + l][p] == Dot(SourceAt(strips[..k], p), CoefRow(ParityCoefs(k, n), l, k), k)
    ensures CarriesAll(Held(strips), p, SourceAt(strips[..k], p))
  {
    var x := SourceAt(strips[..k], p);
    hide Dot, CoefRow, ParityCoefs, CodeByte;
    forall r | 0 <= r < k + n ensures strips[r][p] == CodeByte(r, x) {
      EncodedByte(k, n, r, x);
      if r >= k {
        assert strips[k + (r - k)][p] == strips[r][p];
      }
    }
  }

  // A code word shows its data bytes on the data strips.
  lemma CarriedData(strips: seq<array<bv8>>, p: nat, x: Row, r: nat)
    requires r < |x| && r < |strips| && CarriesAll(Held(strips), p, x)
    ensures strips[r][p] == x[r]
  {
    hide Dot, Unit;
    DotUnit(r, x, |x|);
  }

  // The strip with number l of the list is not named again before number n.
  ghost predicate Last(errs: seq<Index>, l: nat, n: nat) {
    l < n <= |errs| && forall i :: l < i < n ==> errs[i] != errs[l]
  }

  // The loss: the erased strips hold arbitrary bytes.
  method Overwrite(strips: seq<array<bv8>>, errs: seq<Index>, junk: seq<seq<bv8>>)
    requires forall i :: 0 <= i < |errs| ==> errs[i] as nat < |strips|
    requires |junk| == |errs| && DistinctStrips(strips)
    requires forall i :: 0 <= i < |errs| ==> |junk[i]| == strips[errs[i] as nat].Length
    modifies Picked(strips, errs, |errs|)
    ensures forall r, p :: 0 <= r < |strips| && 0 <= p < strips[r].Length && !Erased(errs, r) ==>
              strips[r][p] == old(strips[r][p])
    ensures forall l, p :: 0 <= l < |errs| && Last(errs, l, |errs|) && 0 <= p < |junk[l]| ==>
              strips[errs[l] as nat][p] == junk[l][p]
  {
    for i := 0 to |errs|
      invariant forall l, p :: 0 <= l < i && Last(errs, l, i) && 0 <= p < |junk[l]| ==>
                  strips[errs[l] as nat][p] == junk[l][p]
      invariant forall r, p :: 0 <= r < |strips| && 0 <= p < strips[r].Length && !Erased(errs, r) ==>
                  strips[r][p] == old(strips[r][p])
    {
      var strip := strips[errs[i] as nat];
      assert Picked(strips, errs, |errs|)[i] == strip;
      forall p | 0 <= p < strip.Length {
        strip[p] := junk[i][p];
      }
    }
  }

  // What all strips carried, the ones that are not lost still carry.
  method Lose(strips: seq<array<bv8>>, errs: seq<Index>, junk: seq<seq<bv8>>)
    requires forall i :: 0 <= i < |errs| ==> errs[i] as nat < |strips|
    requires |junk| == |errs| && DistinctStrips(strips)
    requires forall i :: 0 <= i < |errs| ==> |junk[i]| == strips[errs[i] as nat].Length
    modifies Picked(strips, errs, |errs|)
    ensures forall p: nat, x: Row :: old(CarriesAll(Held(strips), p, x)) ==> SurvivorsCarry(Held(strips), errs, p, x)
  {
    hide CodeByte, Erased;
    Overwrite(strips, errs, junk);
  }

  // The data bytes at all positions.
  ghost function DataOf(strips: seq<array<bv8>>, size: nat): (xs: seq<Row>)
    requires forall r :: 0 <= r < |strips| ==> strips[r].Length == size
    reads strips
    ensures |xs| == size && forall p :: 0 <= p < size ==> xs[p] == SourceAt(strips, p)
  {
    seq(size, p requires 0 <= p < size && forall r :: 0 <= r < |strips| ==> strips[r].Length == size
              reads strips => SourceAt(strips, p))
  }

  // An object with the tables of the parity rows makes code words of all positions and keeps the data.
  method EncodeWith(ec: IsaEC, k: nat, n: nat, strips: seq<array<bv8>>, size: nat, order: seq<nat>, ghost xs: seq<Row>)
    requires ec.Valid() && ec.k == k && ec.n == n && ec.maxSize > 0 && ec.coefs == ParityCoefs(k, n)
    requires |strips| == k + n && DistinctStrips(strips) && ec.Separate(strips) && size % ec.maxSize == 0
    requires forall r :: 0 <= r < k + n ==> strips[r].Length == size
    requires Schedule(order, size / ec.maxSize) && xs == DataOf(strips[..k], size)
    modifies strips[k..]
    ensures ec.Valid()
    ensures forall p :: 0 <= p < size ==> CarriesAll(Held(strips), p, xs[p])
  {
    hide Dot, CoefRow, ParityCoefs, CodeByte, Schedule, IsaEC.Valid;
    ExactChunks(size, ec.maxSize);
    ec.EncodePtr(strips[..k], strips[k..], size, order);
    hide CarriesAll;
    forall p | 0 <= p < size ensures CarriesAll(Held(strips), p, xs[p]) {
      assert SourceAt(strips[..k], p) == xs[p];
      EncodedCarries(strips, k, n, p);
    }
  }

  // A fresh object does.
  method EncodeFresh(k: nat, n: nat, maxSize: nat, strips: seq<array<bv8>>, size: nat, order: seq<nat>)
    returns (ec: IsaEC)
    requires 1 <= k && n + k <= 256 && 1 <= maxSize && size % maxSize == 0
    requires |strips| == k + n && DistinctStrips(strips)
    requires forall r :: 0 <= r < k + n ==> strips[r].Length == size
    requires Schedule(order, size / maxSize)
    modifies strips[k..]
    ensures fresh(ec) && fresh(ec.Buffers()) && ec.Valid() && ec.k == k && ec.n == n && ec.maxSize == maxSize
    ensures ec.m == k + n && ec.Separate(strips)
    ensures forall p :: 0 <= p < size ==> CarriesAll(Held(strips), p, old(SourceAt(strips[..k], p)))
  {
    hide ParityCoefs, Schedule, IsaEC.Valid, CarriesAll, DistinctStrips, DataOf;
    ghost var xs := DataOf(strips[..k], size);
    ec := new IsaEC(k, n, maxSize);
    EncodeWith(ec, k, n, strips, size, order, xs);
  }

  // Encode with a fresh object, lose the strips errs to arbitrary bytes, decode: every data
  // and every parity strip is back, whatever the order of the chunk iterations was.
  method EncodeLoseDecode(k: nat, n: nat, maxSize: nat, strips: seq<array<bv8>>, size: nat,
                          errs: seq<Index>, junk: seq<seq<bv8>>, order: seq<nat>, order': seq<nat>)
    requires 1 <= k && n + k <= 256 && 1 <= maxSize && size % maxSize == 0
    requires |strips| == k + n && DistinctStrips(strips)
    requires forall r :: 0 <= r < k + n ==> strips[r].Length == size
    requires GoodErasures(errs, k, k + n) && |junk| == |errs|
    requires forall i :: 0 <= i < |errs| ==> |junk[i]| == size
    requires Schedule(order, size / maxSize) && Schedule(order', size / maxSize)
    modifies strips
    ensures forall p :: 0 <= p < size ==> CarriesAll(Held(strips), p, old(SourceAt(strips[..k], p)))
    ensures forall r, p :: 0 <= r < k && 0 <= p < size ==> strips[r][p] == old(strips[r][p])
  {
    hide CodeByte, CarriesAll, SurvivorsCarry, InLoop;
    ExactChunks(size, maxSize);
    var ec := EncodeFresh(k, n, maxSize, strips, size, order);
    Lose(strips, errs, junk);
    ec.DecodePtr(strips, errs, size, order');
    forall r, p | 0 <= r < k && 0 <= p < size ensures strips[r][p] == old(strips[r][p]) {
      CarriedData(strips, p, old(SourceAt(strips[..k], p)), r);
    }
  }

  // So does one with tables for the strips errs cached first, which leaves the encoding alone.
  method CacheAndEncode(k: nat, n: nat, maxSize: nat, strips: seq<array<bv8>>, size: nat, errs: seq<Index>,
                        order: seq<nat>)
    returns (ec: IsaEC)
    requires 1 <= k && n + k <= 256 && 1 <= maxSize && size % maxSize == 0
    requires |strips| == k + n && DistinctStrips(strips) && GoodErasures(errs, k, k + n)
    requires forall r :: 0 <= r < k + n ==> strips[r].Length == size
    requires Schedule(order, size / maxSize)
    modifies strips[k..]
    ensures fresh(ec) && fresh(ec.Buffers()) && ec.Valid() && ec.k == k && ec.n == n && ec.maxSize == maxSize
    ensures ec.m == k + n && ec.Separate(strips) && ec.indexed == ec.cached == For(errs)
    ensures forall p :: 0 <= p < size ==> CarriesAll(Held(strips), p, old(SourceAt(strips[..k], p)))
  {
    hide ParityCoefs, Schedule, IsaEC.Valid, CarriesAll, DistinctStrips, GoodErasures, DataOf;
    ghost var xs := DataOf(strips[..k], size);
    ec := new IsaEC(k, n, maxSize);
    ec.CacheGTbls(errs);
    EncodeWith(ec, k, n, strips, size, order, xs);
  }

  // The other way round.
  method EncodeAndCache(k: nat, n: nat, maxSize: nat, strips: seq<array<bv8>>, size: nat, errs: seq<Index>,
                        order: seq<nat>, ghost xs: seq<Row>)
    returns (ec: IsaEC)
    requires 1 <= k && n + k <= 256 && 1 <= maxSize && size % maxSize == 0
    requires |strips| == k + n && DistinctStrips(strips) && GoodErasures(errs, k, k + n)
    requires forall r :: 0 <= r < k + n ==> strips[r].Length == size
    requires Schedule(order, size / maxSize) && xs == DataOf(strips[..k], size)
    modifies strips[k..]
    ensures fresh(ec) && fresh(ec.Buffers()) && ec.Valid() && ec.k == k && ec.n == n && ec.maxSize == maxSize
    ensures ec.m == k + n && ec.Separate(strips) && ec.indexed == ec.cached == For(errs)
    ensures forall p :: 0 <= p < size ==> CarriesAll(Held(strips), p, xs[p])
  {
    hide Schedule, IsaEC.Valid, CarriesAll, DistinctStrips, GoodErasures, Held;
    ec := EncodeFresh(k, n, maxSize, strips, size, order);
    ghost var held := Held(strips);
    ec.CacheGTbls(errs);
    assert Held(strips) == held;
  }

  // Lose the strips errs, decode with their cached tables: every chunk that starts below total / k
  // is back.
  method LoseAndDecode(ec: IsaEC, k: nat, len: nat, strips: seq<array<bv8>>, size: nat, total: nat, errs: seq<Index>,
                       junk: seq<seq<bv8>>, order: seq<nat>, ghost xs: seq<Row>)
    requires k > 0 && len > 0 && size % len == 0 && total / k <= size && Schedule(order, Chunks(total / k, len))
    requires forall r :: 0 <= r < |strips| ==> strips[r].Length == size
    requires DistinctStrips(strips) && GoodErasures(errs, k, |strips|)
    requires |junk| == |errs| && forall i :: 0 <= i < |errs| ==> |junk[i]| == size
    requires |xs| == size && forall p :: 0 <= p < size ==> |xs[p]| == k && CarriesAll(Held(strips), p, xs[p])
    requires ec.k == k && ec.maxSize == len && ec.m == |strips| && ec.indexed == ec.cached == For(errs)
    requires ec.Separate(strips) && ec.Valid()
    modifies strips
    ensures forall p: nat :: p < size && InLoop(p, total / k, len) ==> CarriesAll(Held(strips), p, xs[p])
  {
    hide CarriesAll, SurvivorsCarry, InLoop, Chunks, Schedule, IsaEC.Valid, DistinctStrips, Erased;
    Lose(strips, errs, junk);
    ChunksWithin(total / k, size, len);
    ec.CacheDecodePtr(strips, errs, total, order);
  }

  // Cache, encode, lose, decode.
  method CacheDecodeChunks(k: nat, n: nat, maxSize: nat, strips: seq<array<bv8>>, size: nat, total: nat,
                           errs: seq<Index>, junk: seq<seq<bv8>>, order: seq<nat>, order': seq<nat>)
    requires 1 <= k && n + k <= 256 && 1 <= maxSize && size % maxSize == 0 && total / k <= size
    requires |strips| == k + n && DistinctStrips(strips)
    requires forall r :: 0 <= r < k + n ==> strips[r].Length == size
    requires GoodErasures(errs, k, k + n) && |junk| == |errs|
    requires forall i :: 0 <= i < |errs| ==> |junk[i]| == size
    requires Schedule(order, size / maxSize) && Schedule(order', Chunks(total / k, maxSize))
    modifies strips
    ensures forall p: nat :: p < size && InLoop(p, total / k, maxSize) ==>
              CarriesAll(Held(strips), p, old(SourceAt(strips[..k], p)))
  {
    hide CarriesAll, InLoop, Chunks, Schedule, IsaEC.Valid, IsaEC.Separate, DistinctStrips, GoodErasures;
    ghost var xs := DataOf(strips[..k], size);
    var ec := CacheAndEncode(k, n, maxSize, strips, size, errs, order);
    LoseAndDecode(ec, k, maxSize, strips, size, total, errs, junk, order', xs);
  }

  // With the size of all data strips together as total, nothing is lost either.
  method CacheEncodeLoseDecode(k: nat, n: nat, maxSize: nat, strips: seq<array<bv8>>, size: nat,
                               errs: seq<Index>, junk: seq<seq<bv8>>, order: seq<nat>, order': seq<nat>)
    requires 1 <= k && n + k <= 256 && 1 <= maxSize && size % maxSize == 0
    requires |strips| == k + n && DistinctStrips(strips)
    requires forall r :: 0 <= r < k + n ==> strips[r].Length == size
    requires GoodErasures(errs, k, k + n) && |junk| == |errs|
    requires forall i :: 0 <= i < |errs| ==> |junk[i]| == size
    requires Schedule(order, size / maxSize) && Schedule(order', size / maxSize)
    modifies strips
    ensures forall p :: 0 <= p < size ==> CarriesAll(Held(strips), p, old(SourceAt(strips[..k], p)))
    ensures forall r, p :: 0 <= r < k && 0 <= p < size ==> strips[r][p] == old(strips[r][p])
  {
    ExactChunks(size, maxSize);
    DivideTotal(size, k);
    hide CodeByte, CarriesAll, InLoop, Chunks;
    LoopCovers(size, maxSize);
    CacheDecodeChunks(k, n, maxSize, strips, size, size * k, errs, junk, order, order');
    forall p: nat | p < size ensures InLoop(p, size, maxSize) {
      LoopCoversAt(size, maxSize, p);
    }
    forall r, p | 0 <= r < k && 0 <= p < size ensures strips[r][p] == old(strips[r][p]) {
      CarriedData(strips, p, old(SourceAt(strips[..k], p)), r);
    }
  }

  // Encode, cache, lose, decode strips of one chunk with the size of one strip as total: one
  // iteration, which rebuilds all of it.
  method CacheDecodeOneChunk(k: nat, n: nat, maxSize: nat, strips: seq<array<bv8>>, errs: seq<Index>,
                             junk: seq<seq<bv8>>)
    requires 1 <= k <= maxSize && n + k <= 256
    requires |strips| == k + n && DistinctStrips(strips)
    requires forall r :: 0 <= r < k + n ==> strips[r].Length == maxSize
    requires GoodErasures(errs, k, k + n) && |junk| == |errs|
    requires forall i :: 0 <= i < |errs| ==> |junk[i]| == maxSize
    modifies strips
    ensures forall p :: 0 <= p < maxSize ==> CarriesAll(Held(strips), p, old(SourceAt(strips[..k], p)))
    ensures forall r, p :: 0 <= r < k && 0 <= p < maxSize ==> strips[r][p] == old(strips[r][p])
  {
    hide CodeByte, CarriesAll, InLoop, Chunks, Schedule, IsaEC.Valid, IsaEC.Separate, DistinctStrips, GoodErasures;
    OneChunk(k, maxSize);
    InOneTurn();
    ghost var xs := DataOf(strips[..k], maxSize);
    var ec := EncodeAndCache(k, n, maxSize, strips, maxSize, errs, [0], xs);
    LoseAndDecode(ec, k, maxSize, strips, maxSize, maxSize, errs, junk, [0], xs);
    forall r, p | 0 <= r < k && 0 <= p < maxSize ensures strips[r][p] == old(strips[r][p]) {
      CarriedData(strips, p, old(SourceAt(strips[..k], p)), r);
    }
  }

  lemma InOneTurn()
    ensures Schedule([0], 1)
  {
  }

  // A part of one chunk, however short, takes one iteration, which covers the chunk.
  lemma OneChunk(k: nat, maxSize: nat)
    requires 1 <= k <= maxSize
    ensures maxSize % maxSize == 0 && maxSize / maxSize == 1 && maxSize / k <= maxSize
    ensures Chunks(maxSize / k, maxSize) == 1
    ensures forall p: nat :: p < maxSize ==> InLoop(p, maxSize / k, maxSize)
  {
    ChunkRange(maxSize, 1, maxSize);
    ChunkRange(maxSize / k + maxSize - 1, 1, maxSize);
    forall p: nat | p < maxSize ensures InLoop(p, maxSize / k, maxSize) {
      ChunkRange(p, 0, maxSize);
    }
  }

  lemma ChunksWithin(part: nat, size: nat, len: nat)
    requires len > 0 && size % len == 0 && part <= size
    ensures Chunks(part, len) * len <= size
  {
    var c := Chunks(part, len);
    if c > 0 {
      ChunksExactly(part, len, c - 1);
      ChunkRange(size, size / len, len);
      RowBound(c - 1, size / len, len);
    }
  }

  lemma DivideTotal(size: nat, k: nat)
    requires k > 0
    ensures size * k / k == size
  {
    ChunkRange(size * k, size, k);
  }

  lemma ExactChunks(size: nat, len: nat)
    requires len > 0 && size % len == 0
    ensures size / len * len == size && Chunks(size, len) == size / len
  {
    var q := size / len;
    assert size == q * len;
    ChunkRange(size + len - 1, q, len);
  }
}
