/** k data and n parity strips. */
module ErasureCoder {
  import opened Galois
  import opened Linear
  import opened GaussJordan
  import opened Cauchy
  import opened DecodeMatrix
  import opened Encoder

  // The byte of strip r that belongs to the data bytes x.
  function CodeByte(r: nat, x: Row): bv8 {
    Dot(EncodeRow(r, |x|), x, |x|)
  }

  // What the strips hold.
  ghost function Held(strips: seq<array<bv8>>): (c: seq<seq<bv8>>)
    reads strips
    ensures |c| == |strips| && forall r :: 0 <= r < |strips| ==> c[r] == strips[r][..]
  {
    seq(|strips|, r requires 0 <= r < |strips| reads strips => strips[r][..])
  }

  // Every strip, surviving or not, carries the code byte of x at position p.
  ghost predicate CarriesAll(held: seq<seq<bv8>>, p: nat, x: Row) {
    forall r :: 0 <= r < |held| ==> p < |held[r]| && held[r][p] == CodeByte(r, x)
  }

  // The strips that are not erased carry the code byte of x at position p.
  ghost predicate SurvivorsCarry(held: seq<seq<bv8>>, errs: seq<Index>, p: nat, x: Row) {
    forall r :: 0 <= r < |held| && !Erased(errs, r) ==> p < |held[r]| && held[r][p] == CodeByte(r, x)
  }

  function ParityCoefs(k: nat, n: nat): (c: seq<bv8>)
    ensures |c| == n * k
  {
    Flatten(EncodeMatrix(n + k, k)[k..], n, k)
  }

  ghost predicate GoodErasures(errs: seq<Index>, k: nat, m: nat) {
    k <= m && |errs| <= m - k && forall i :: 0 <= i < |errs| ==> errs[i] as nat < m
  }

  // The encode rows of the strips that are read when errs are erased.
  function ReadRows(errs: seq<Index>, k: nat, m: nat): (b: Matrix)
    requires GoodErasures(errs, k, m)
    ensures |b| == k && Shape(b, k, k)
  {
    EnoughSurvivors(errs, k, m);
    ReadStripsSelection(errs, k, m);
    Select(EncodeMatrix(m, k), ReadStrips(errs, k, m))
  }

  // Row by row, coefs rebuild the erased strips from the strips that are read.
  ghost predicate RebuildCoefs(coefs: seq<bv8>, errs: seq<Index>, k: nat, m: nat)
    requires GoodErasures(errs, k, m)
  {
    && |errs| * k <= |coefs|
    && (forall i :: 0 <= i < |errs| ==>
          Rebuilds(CoefRow(coefs, i, k), ReadRows(errs, k, m), EncodeRow(errs[i] as nat, k), k))
    && (forall i, j :: 0 <= i < j < |errs| && errs[i] == errs[j] ==>
          CoefRow(coefs, i, k) == CoefRow(coefs, j, k))
  }

  // The same of a matrix with one row for every erasure.
  ghost predicate DecodeRows(d: Matrix, errs: seq<Index>, k: nat, m: nat)
    requires GoodErasures(errs, k, m) && Shape(d, |errs|, k)
  {
    && (forall i :: 0 <= i < |errs| ==>
          Rebuilds(d[i], ReadRows(errs, k, m), EncodeRow(errs[i] as nat, k), k))
    && (forall i, j :: 0 <= i < j < |errs| && errs[i] == errs[j] ==> d[i] == d[j])
  }

  lemma DecodeRowsFlatten(d: Matrix, errs: seq<Index>, k: nat, m: nat)
    requires GoodErasures(errs, k, m) && Shape(d, |errs|, k) && DecodeRows(d, errs, k, m)
    ensures RebuildCoefs(Flatten(d, |errs|, k), errs, k, m)
  {
    hide Rebuilds, CoefRow, EncodeRow, ReadRows;
    var coefs := Flatten(d, |errs|, k);
    hide Flatten;
    forall i | 0 <= i < |errs| ensures CoefRow(coefs, i, k) == d[i] {
      FlattenRow(d, |errs|, k, [], i);
      assert coefs + [] == coefs;
    }
  }

  predicate IndexFor(index: seq<Index>, errs: seq<Index>, k: nat, m: nat)
    requires GoodErasures(errs, k, m) && |index| >= k
  {
    EnoughSurvivors(errs, k, m);
    forall i :: 0 <= i < k ==> index[i] as nat == ReadStrips(errs, k, m)[i]
  }

  lemma EncodeTop(k: nat, m: nat)
    requires k <= m
    ensures EncodeMatrix(m, k)[..k] == Identity(k)
  {
  }

  lemma AlwaysInvertible(errs: seq<Index>, k: nat, m: nat)
    requires GoodErasures(errs, k, m) && m <= 256
    ensures Nonsingular(ReadRows(errs, k, m), k)
  {
    hide Nonsingular;
    EnoughSurvivors(errs, k, m);
    ReadStripsSelection(errs, k, m);
    AnyRowsNonsingular(ReadStrips(errs, k, m), k, m);
  }

  lemma ParityRow(k: nat, n: nat, l: nat)
    requires l < n
    ensures CoefRow(ParityCoefs(k, n), l, k) == EncodeRow(k + l, k)
  {
    hide CoefRow, EncodeRow;
    FlattenRow(EncodeMatrix(n + k, k)[k..], n, k, [], l);
    assert ParityCoefs(k, n) + [] == ParityCoefs(k, n);
  }

  // One rebuilt byte: what the coefficients make of the bytes that are read.
  lemma RebuiltByte(coefs: seq<bv8>, errs: seq<Index>, k: nat, m: nat, l: nat, x: Row, read: Row)
    requires GoodErasures(errs, k, m) && RebuildCoefs(coefs, errs, k, m) && l < |errs| && |x| == k
    requires (EnoughSurvivors(errs, k, m);
              |read| == k && forall i :: 0 <= i < k ==> read[i] == CodeByte(ReadStrips(errs, k, m)[i], x))
    ensures Dot(read, CoefRow(coefs, l, k), k) == CodeByte(errs[l] as nat, x)
  {
    hide Dot, CoefRow, EncodeRow, Erased;
    EnoughSurvivors(errs, k, m);
    ReadStripsSelection(errs, k, m);
    var b := ReadRows(errs, k, m);
    assert read == Apply(b, x, k, k);
    assert Rebuilds(CoefRow(coefs, l, k), b, EncodeRow(errs[l] as nat, k), k);
    DotComm(read, CoefRow(coefs, l, k), k);
  }

  // recover_srcs and recover_outp
  function Picked(strips: seq<array<bv8>>, index: seq<Index>, k: nat): (s: seq<array<bv8>>)
    requires k <= |index| && forall i :: 0 <= i < k ==> index[i] as nat < |strips|
    ensures |s| == k && forall i :: 0 <= i < k ==> s[i] == strips[index[i] as nat]
  {
    seq(k, i requires 0 <= i < k => strips[index[i] as nat])
  }

  ghost predicate DistinctStrips(strips: seq<array<bv8>>) {
    forall i, j :: 0 <= i < j < |strips| ==> strips[i] != strips[j]
  }

  // The read strips are not the ones that are written.
  lemma ReadNotWritten(strips: seq<array<bv8>>, index: seq<Index>, errs: seq<Index>, k: nat, m: nat)
    requires GoodErasures(errs, k, m) && |strips| == m && DistinctStrips(strips)
    requires |index| >= k && IndexFor(index, errs, k, m)
    ensures forall i :: 0 <= i < k ==> index[i] as nat < m && !Erased(errs, index[i] as nat)
    ensures forall l :: 0 <= l < |errs| ==> strips[errs[l] as nat] !in Picked(strips, index, k)
    ensures forall l, r :: 0 <= l < |errs| && 0 <= r < m && !Erased(errs, r) ==>
              strips[errs[l] as nat] != strips[r]
  {
    EnoughSurvivors(errs, k, m);
    ReadStripsSelection(errs, k, m);
    forall l | 0 <= l < |errs| ensures Erased(errs, errs[l] as nat) {
    }
    hide Erased;
  }

  // Only the first rows of k coefficients have changed.
  ghost predicate Replaced(before: seq<bv8>, coefs: seq<bv8>, rows: nat, k: nat) {
    rows * k <= |coefs| == |before| && coefs[rows * k..] == before[rows * k..]
  }

  // Which erasures a buffer was last computed for.
  datatype Target = Nothing | For(errs: seq<Index>)

  // The tables g are those of the n rows of k coefficients.
  ghost predicate Encodes(g: seq<bv8>, coefs: seq<bv8>, n: nat, k: nat) {
    |coefs| == n * k && Holds(g, coefs)
  }

  // The read list of the target, if there is one.
  ghost predicate Lists(index: seq<Index>, target: Target, k: nat, m: nat) {
    target.For? ==> GoodErasures(target.errs, k, m) && k <= |index| && IndexFor(index, target.errs, k, m)
  }

  // The decode tables of the target, if there is one.
  ghost predicate Decodes(g: seq<bv8>, coefs: seq<bv8>, target: Target, k: nat, m: nat) {
    target.For? ==>
      GoodErasures(target.errs, k, m) && Holds(g, coefs) && RebuildCoefs(coefs, target.errs, k, m)
  }

  class IsaEC {
    const n: nat
    const k: nat
    const m: nat
    const maxSize: nat
    const encodeMatrix: array2<bv8>
    const decodeMatrix: array2<bv8>
    const invertMatrix: array2<bv8>
    const tempMatrix: array2<bv8>
    const gTbls: array<bv8>
    const gTblsDecode: array<bv8>
    const decodeIndex: array<Index>

    // The coefficients whose tables gTbls and gTblsDecode hold, and the erasures that
    // decodeIndex and gTblsDecode were last computed for.
    ghost var coefs: seq<bv8>
    ghost var decodeCoefs: seq<bv8>
    ghost var indexed: Target
    ghost var cached: Target

    ghost predicate Layout() {
      && m == n + k && 1 <= k && m <= 256 && 1 <= maxSize
      && encodeMatrix != decodeMatrix && encodeMatrix != invertMatrix && encodeMatrix != tempMatrix
      && decodeMatrix != invertMatrix && decodeMatrix != tempMatrix && invertMatrix != tempMatrix
      && gTbls != gTblsDecode
      && encodeMatrix.Length0 == decodeMatrix.Length0 == invertMatrix.Length0 == tempMatrix.Length0 == m
      && encodeMatrix.Length1 == decodeMatrix.Length1 == invertMatrix.Length1 == tempMatrix.Length1 == k
      && gTbls.Length == gTblsDecode.Length == 32 * (n * k) && decodeIndex.Length == m
    }

    ghost predicate Valid()
      reads this, encodeMatrix, gTbls, gTblsDecode, decodeIndex
    {
      && Layout()
      && Rows(encodeMatrix, m) == EncodeMatrix(m, k)
      && Encodes(gTbls[..], coefs, n, k)
      && Lists(decodeIndex[..], indexed, k, m)
      && Decodes(gTblsDecode[..], decodeCoefs, cached, k, m)
    }

    ghost function Buffers(): set<object> {
      {encodeMatrix, decodeMatrix, invertMatrix, tempMatrix, gTbls, gTblsDecode, decodeIndex}
    }

    // Strip buffers that are not buffers of this object.
    ghost predicate Separate(strips: seq<array<bv8>>) {
      forall i :: 0 <= i < |strips| ==> strips[i] as object !in Buffers()
    }

    constructor (k: nat, n: nat, maxSize: nat)
      requires 1 <= k && n + k <= 256 && 1 <= maxSize
      ensures Valid() && this.k == k && this.n == n && this.m == n + k && this.maxSize == maxSize
      ensures coefs == ParityCoefs(k, n) && indexed == Nothing && cached == Nothing
      ensures fresh(Buffers())
    {
      hide Valid, ParityCoefs;
      this.n, this.k, this.m, this.maxSize := n, k, n + k, maxSize;
      decodeIndex := new Index[n + k];
      encodeMatrix := new bv8[n + k, k];
      decodeMatrix := new bv8[n + k, k];
      invertMatrix := new bv8[n + k, k];
      tempMatrix := new bv8[n + k, k];
      gTbls := new bv8[32 * (n * k)];
      gTblsDecode := new bv8[32 * (n * k)];
      coefs, decodeCoefs, indexed, cached := ParityCoefs(k, n), [], Nothing, Nothing;
      new;
      FillTables();
    }

    // the matrix and the tables of a new object
    method FillTables()
      requires Layout() && coefs == ParityCoefs(k, n) && indexed == Nothing && cached == Nothing
      modifies encodeMatrix, gTbls
      ensures Valid()
    {
      hide Holds, Flatten, EncodeMatrix;
      GfGenCauchy1Matrix(encodeMatrix, m, k);
      EcInitTables(k, n, encodeMatrix, k, gTbls);
    }

    // encode_ptr; order is the order in which the chunk iterations finish.
    method EncodePtr(input: seq<array<bv8>>, output: seq<array<bv8>>, size: nat, order: seq<nat>)
      requires Valid() && |input| == k && |output| == n && Separate(output)
      requires forall i, j :: 0 <= i < j < n ==> output[i] != output[j]
      requires forall l :: 0 <= l < n ==> output[l] !in input && size <= output[l].Length
      requires forall j :: 0 <= j < k ==> size <= input[j].Length
      requires Schedule(order, size / maxSize)
      modifies output
      ensures Valid()
      ensures forall l, p :: 0 <= l < n && 0 <= p < size / maxSize * maxSize ==>
                output[l][p] == Dot(SourceAt(input, p), CoefRow(coefs, l, k), k)
      ensures forall l, p :: 0 <= l < n && size / maxSize * maxSize <= p < output[l].Length ==>
                output[l][p] == old(output[l][p])
    {
      hide Holds, Lists, Decodes, EncodeMatrix, Dot, CoefRow;
      WholeChunks(size, maxSize);
      EncodeChunks(maxSize, gTbls, coefs, input, output, order, size / maxSize);
    }

    // gf_gen_decode_matrix_simple on the buffers of this object. It cannot fail.
    method GenerateDecodeMatrix(errs: seq<Index>)
      requires Valid() && GoodErasures(errs, k, m)
      modifies decodeMatrix, invertMatrix, tempMatrix, decodeIndex
      ensures Rows(encodeMatrix, m) == EncodeMatrix(m, k)
      ensures DecodeRows(Rows(decodeMatrix, |errs|), errs, k, m)
      ensures IndexFor(decodeIndex[..], errs, k, m)
    {
      hide Encodes, Lists, Decodes, Rebuilds, Nonsingular, EncodeRow;
      EncodeTop(k, m);
      assert Rows(encodeMatrix, k) == Rows(encodeMatrix, m)[..k];
      AlwaysInvertible(errs, k, m);
      var result := GfGenDecodeMatrixSimple(encodeMatrix, decodeMatrix, invertMatrix, tempMatrix,
                                            decodeIndex, errs, k, m);
      assert ReadRows(errs, k, m) == Select(Rows(encodeMatrix, m), ReadStrips(errs, k, m));
    }

    lemma LargeEnough(errs: seq<Index>)
      requires Valid() && GoodErasures(errs, k, m)
      ensures |errs| <= decodeMatrix.Length0 && decodeMatrix.Length1 == k && k <= decodeIndex.Length
      ensures 32 * (|errs| * k) <= gTbls.Length == gTblsDecode.Length && encodeMatrix.Length0 == m && encodeMatrix.Length1 == k
      ensures gTbls as object != decodeIndex && gTblsDecode as object != decodeIndex
    {
      hide Encodes, Lists, Decodes, EncodeMatrix, Rows;
      RowsMonotone(|errs|, n, k);
    }

    // What decode_ptr and cache_g_tbls do first: decode matrix, read list and tables for errs.
    method LoadDecodeTables(errs: seq<Index>, tbls: array<bv8>) returns (ghost rows: seq<bv8>)
      requires Valid() && GoodErasures(errs, k, m) && (tbls == gTbls || tbls == gTblsDecode)
      modifies decodeMatrix, invertMatrix, tempMatrix, decodeIndex, tbls
      ensures Rows(encodeMatrix, m) == EncodeMatrix(m, k)
      ensures |rows| == |errs| * k && Holds(tbls[..], rows) && RebuildCoefs(rows, errs, k, m)
      ensures IndexFor(decodeIndex[..], errs, k, m)
      ensures forall i :: 32 * |rows| <= i < tbls.Length ==> tbls[i] == old(tbls[i])
    {
      hide Holds, RebuildCoefs, DecodeRows, EncodeMatrix, IndexFor, Flatten, Encodes, Lists, Decodes, GoodErasures, Rows,
        Valid, Layout, Erased, ReadRows, EncodeRow, CoefRow, Rebuilds;
      LargeEnough(errs);
      GenerateDecodeMatrix(errs);
      InitDecodeTables(decodeMatrix, |errs|, k, tbls);
      ghost var d := Rows(decodeMatrix, |errs|);
      rows := Flatten(d, |errs|, k);
      DecodeRowsFlatten(d, errs, k, m);
    }

    // The chunk loop of the decoders, with the tables v of the coefficients rows.
    method RecoverStrips(matrix: seq<array<bv8>>, errs: seq<Index>, v: array<bv8>, ghost rows: seq<bv8>,
                         order: seq<nat>, size: nat)
      requires Layout() && GoodErasures(errs, k, m) && |matrix| == m
      requires DistinctStrips(matrix) && Separate(matrix) && (v == gTbls || v == gTblsDecode)
      requires IndexFor(decodeIndex[..], errs, k, m)
      requires Holds(v[..], rows) && RebuildCoefs(rows, errs, k, m)
      requires Schedule(order, Chunks(size, maxSize))
      requires RoomFor(matrix, size, maxSize)
      modifies Picked(matrix, errs, |errs|)
      ensures Rebuilt(old(Held(matrix)), Held(matrix), errs, k, size, maxSize)
    {
      hide Holds, RebuildCoefs, DistinctStrips, IndexFor, Schedule, Chunks, Rebuilt, Held, RoomFor;
      RecoverChunks(maxSize, k, m, decodeIndex, matrix, errs, v, rows, order, size);
    }

    // The first two calls of decode_ptr.
    method ReloadTables(errs: seq<Index>)
      requires Valid() && GoodErasures(errs, k, m)
      modifies this`coefs, this`indexed, decodeMatrix, invertMatrix, tempMatrix, decodeIndex, gTbls
      ensures Valid() && indexed == For(errs)
      ensures RebuildCoefs(coefs, errs, k, m) && Replaced(old(coefs), coefs, |errs|, k)
    {
      hide RebuildCoefs, Holds, EncodeMatrix, IndexFor, Decodes, Encodes, Rows, GoodErasures;
      ghost var g, before := gTbls[..], coefs;
      ghost var rows := LoadDecodeTables(errs, gTbls);
      assert gTblsDecode[..] == old(gTblsDecode[..]);
      assert forall i :: 32 * |rows| <= i < |g| ==> g[i] == gTbls[..][i];
      DecodeTablesLoaded(g, gTbls[..], before, rows, errs, n, k, m);
      coefs := rows + before[|rows|..];
      indexed := For(errs);
    }

    // decode_ptr. The tables of gTbls are overwritten, so the object no longer encodes parity. Every
    // chunk that starts below size is rebuilt, and nothing else is written.
    method DecodePtr(matrix: seq<array<bv8>>, errs: seq<Index>, size: nat, order: seq<nat>)
      requires Valid() && GoodErasures(errs, k, m) && |matrix| == m
      requires DistinctStrips(matrix) && Separate(matrix)
      requires Schedule(order, Chunks(size, maxSize))
      requires RoomFor(matrix, size, maxSize)
      modifies this, decodeMatrix, invertMatrix, tempMatrix, decodeIndex, gTbls, Picked(matrix, errs, |errs|)
      ensures Valid() && indexed == For(errs) && cached == old(cached)
      ensures RebuildCoefs(coefs, errs, k, m) && Replaced(old(coefs), coefs, |errs|, k)
      ensures Rebuilt(old(Held(matrix)), Held(matrix), errs, k, size, maxSize)
    {
      hide RebuildCoefs, Holds, IndexFor, Chunks, Schedule, DistinctStrips, IsaEC.Valid, IsaEC.Layout, GoodErasures, Replaced,
        Rebuilt, Held, RoomFor;
      LostSeparate(matrix, errs);
      ReloadTables(errs);
      LoadedTables(errs);
      assert Held(matrix) == old(Held(matrix));
      RecoverStrips(matrix, errs, gTbls, coefs, order, size);
    }

    // cache_g_tbls: like decode_ptr, but into the second set of tables.
    method CacheGTbls(errs: seq<Index>)
      requires Valid() && GoodErasures(errs, k, m)
      modifies this`decodeCoefs, this`indexed, this`cached
      modifies decodeMatrix, invertMatrix, tempMatrix, decodeIndex, gTblsDecode
      ensures Valid() && indexed == cached == For(errs)
    {
      hide RebuildCoefs, Holds, EncodeMatrix, IndexFor, Encodes, Rows, GoodErasures;
      decodeCoefs := LoadDecodeTables(errs, gTblsDecode);
      assert gTbls[..] == old(gTbls[..]);
      indexed, cached := For(errs), For(errs);
    }

    lemma LoadedTables(errs: seq<Index>)
      requires Valid() && indexed == For(errs)
      ensures Layout() && k >= 1 && maxSize >= 1 && GoodErasures(errs, k, m)
      ensures k <= decodeIndex.Length && IndexFor(decodeIndex[..], errs, k, m) && Holds(gTbls[..], coefs)
    {
      hide Holds, RebuildCoefs, IndexFor, Decodes;
    }

    // The strips that are written are not buffers of this object.
    lemma LostSeparate(matrix: seq<array<bv8>>, errs: seq<Index>)
      requires Separate(matrix) && GoodErasures(errs, k, m) && |matrix| == m
      ensures gTbls !in Picked(matrix, errs, |errs|) && gTblsDecode !in Picked(matrix, errs, |errs|)
      ensures forall i :: 0 <= i < |errs| ==> Picked(matrix, errs, |errs|)[i] as object != decodeIndex
      ensures forall i :: 0 <= i < |errs| ==> Picked(matrix, errs, |errs|)[i] as object != encodeMatrix
    {
    }

    lemma CachedTables(errs: seq<Index>)
      requires Valid() && indexed == cached == For(errs)
      ensures Layout() && k >= 1 && maxSize >= 1 && GoodErasures(errs, k, m)
      ensures k <= decodeIndex.Length && IndexFor(decodeIndex[..], errs, k, m)
      ensures Holds(gTblsDecode[..], decodeCoefs) && RebuildCoefs(decodeCoefs, errs, k, m)
    {
      hide Holds, RebuildCoefs, IndexFor, Encodes;
    }

    // cache_decode_ptr; total is the size of all data strips together.
    method CacheDecodePtr(matrix: seq<array<bv8>>, errs: seq<Index>, total: nat, order: seq<nat>)
      requires Valid() && indexed == cached == For(errs) && |matrix| == m
      requires DistinctStrips(matrix) && Separate(matrix)
      requires Schedule(order, Chunks(total / k, maxSize))
      requires RoomFor(matrix, total / k, maxSize)
      modifies Picked(matrix, errs, |errs|)
      ensures Valid() && Rebuilt(old(Held(matrix)), Held(matrix), errs, k, total / k, maxSize)
    {
      hide RebuildCoefs, Holds, IndexFor, Chunks, Schedule, DistinctStrips, IsaEC.Valid, IsaEC.Layout, GoodErasures, Rebuilt,
        Held, RoomFor;
      CachedTables(errs);
      LostSeparate(matrix, errs);
      RecoverStrips(matrix, errs, gTblsDecode, decodeCoefs, order, total / k);
    }
  }

  // Strips that are lost twice get the same coefficients, and none of them is read.
  lemma ReadyToRun(k: nat, m: nat, index: seq<Index>, matrix: seq<array<bv8>>, errs: seq<Index>, rows: seq<bv8>)
    requires GoodErasures(errs, k, m) && |matrix| == m && DistinctStrips(matrix)
    requires k <= |index| && IndexFor(index, errs, k, m) && RebuildCoefs(rows, errs, k, m)
    requires forall i :: 0 <= i < k ==> index[i] as nat < m
    ensures |errs| * k <= |rows|
    ensures
      var src, dst := Picked(matrix, index, k), Picked(matrix, errs, |errs|);
      && (forall l :: 0 <= l < |errs| ==> dst[l] !in src)
      && forall l, l' :: 0 <= l < l' < |errs| && dst[l] == dst[l'] ==> CoefRow(rows, l, k) == CoefRow(rows, l', k)
  {
    hide CoefRow, RebuildCoefs, IndexFor;
    ReadNotWritten(matrix, index, errs, k, m);
    CoefsAgree(rows, errs, k, m);
  }

  // The strips have the bytes of all iterations.
  ghost predicate RoomFor(strips: seq<array<bv8>>, size: nat, len: nat)
    requires len > 0
  {
    forall r :: 0 <= r < |strips| ==> Chunks(size, len) * len <= strips[r].Length
  }

  // Wherever the survivors carry the data up to size, and in the rest of the last chunk, all strips
  // carry it now. Nothing else has changed.
  ghost predicate Rebuilt(before: seq<seq<bv8>>, now: seq<seq<bv8>>, errs: seq<Index>, k: nat, size: nat, len: nat)
    requires len > 0
  {
    && |now| == |before| && (forall r :: 0 <= r < |now| ==> |now[r]| == |before[r]|)
    && (forall r, p :: 0 <= r < |now| && 0 <= p < |now[r]| && (!Erased(errs, r) || !InLoop(p, size, len)) ==>
          now[r][p] == before[r][p])
    && forall p: nat, x: Row ::
         (p < size || InLoop(p, size, len)) && |x| == k && SurvivorsCarry(before, errs, p, x) ==> CarriesAll(now, p, x)
  }

  // The chunk iterations of the decoders.
  method RecoverChunks(len: nat, k: nat, m: nat, index: array<Index>, matrix: seq<array<bv8>>, errs: seq<Index>,
                       v: array<bv8>, ghost rows: seq<bv8>, order: seq<nat>, ghost size: nat)
    requires 1 <= len && GoodErasures(errs, k, m) && |matrix| == m && DistinctStrips(matrix) && v !in matrix
    requires k <= index.Length && IndexFor(index[..], errs, k, m) && Holds(v[..], rows) && RebuildCoefs(rows, errs, k, m)
    requires Schedule(order, Chunks(size, len))
    requires RoomFor(matrix, size, len)
    modifies Picked(matrix, errs, |errs|)
    ensures Rebuilt(old(Held(matrix)), Held(matrix), errs, k, size, len)
  {
    hide Holds, RebuildCoefs, CoefRow, Dot, Schedule, Chunks, Rebuilt;
    ghost var before, read, total := Held(matrix), index[..], Chunks(size, len) * len;
    ReadNotWritten(matrix, index[..], errs, k, m);
    ReadyToRun(k, m, index[..], matrix, errs, rows);
    var src, dst := Picked(matrix, index[..], k), Picked(matrix, errs, |errs|);
    hide DistinctStrips, IndexFor;
    EncodeChunks(len, v, rows, src, dst, order, Chunks(size, len));
    forall r, p | 0 <= r < m && 0 <= p < matrix[r].Length && (!Erased(errs, r) || p >= total)
      ensures matrix[r][p] == before[r][p]
    {
      if Erased(errs, r) {
        var l :| 0 <= l < |errs| && errs[l] as nat == r;
        assert dst[l] == matrix[r];
      }
    }
    forall l, p | 0 <= l < |errs| && 0 <= p < total
      ensures Held(matrix)[errs[l] as nat][p] == Dot(ReadAt(before, read, k, p), CoefRow(rows, l, k), k)
    {
      assert dst[l] == matrix[errs[l] as nat];
      assert SourceAt(src, p) == ReadAt(before, read, k, p);
    }
    RebuiltIs(before, Held(matrix), rows, read, errs, k, m, size, len);
  }

  // The bytes at position p of the strips with these numbers.
  ghost function ReadAt(held: seq<seq<bv8>>, index: seq<Index>, k: nat, p: nat): (x: Row)
    requires k <= |index| && forall i :: 0 <= i < k ==> index[i] as nat < |held| && p < |held[index[i] as nat]|
    ensures |x| == k && forall i :: 0 <= i < k ==> x[i] == held[index[i] as nat][p]
  {
    seq(k, i requires 0 <= i < k => held[index[i] as nat][p])
  }

  // Products of the coefficients with what is read bring back what was lost.
  lemma RebuiltIs(before: seq<seq<bv8>>, now: seq<seq<bv8>>, rows: seq<bv8>, index: seq<Index>, errs: seq<Index>, k: nat,
                  m: nat, size: nat, len: nat)
    requires len > 0 && GoodErasures(errs, k, m) && RebuildCoefs(rows, errs, k, m) && |before| == |now| == m
    requires forall r :: 0 <= r < m ==> |now[r]| == |before[r]| && Chunks(size, len) * len <= |now[r]|
    requires k <= |index| && IndexFor(index, errs, k, m)
    requires forall i :: 0 <= i < k ==> index[i] as nat < m && !Erased(errs, index[i] as nat)
    requires forall r, p :: 0 <= r < m && 0 <= p < |now[r]| && (!Erased(errs, r) || p >= Chunks(size, len) * len) ==>
               now[r][p] == before[r][p]
    requires forall l, p :: 0 <= l < |errs| && 0 <= p < Chunks(size, len) * len ==>
               now[errs[l] as nat][p] == Dot(ReadAt(before, index, k, p), CoefRow(rows, l, k), k)
    ensures Rebuilt(before, now, errs, k, size, len)
  {
    hide RebuildCoefs, CoefRow, Dot, CodeByte, EncodeRow, Chunks, InLoop, IndexFor;
    LoopCovers(size, len);
    forall p: nat, x: Row | p < Chunks(size, len) * len && |x| == k && SurvivorsCarry(before, errs, p, x)
      ensures CarriesAll(now, p, x)
    {
      forall r | 0 <= r < m ensures now[r][p] == CodeByte(r, x) {
        if Erased(errs, r) {
          var l :| 0 <= l < |errs| && errs[l] as nat == r;
          ReadBytes(before, ReadAt(before, index, k, p), index, errs, k, m, p, x);
          RebuiltByte(rows, errs, k, m, l, x, ReadAt(before, index, k, p));
        }
      }
    }
  }

  // The bytes that are read belong to the data.
  lemma ReadBytes(before: seq<seq<bv8>>, read: Row, index: seq<Index>, errs: seq<Index>, k: nat, m: nat, p: nat, x: Row)
    requires GoodErasures(errs, k, m) && |before| == m && k <= |index| && IndexFor(index, errs, k, m)
    requires forall i :: 0 <= i < k ==> index[i] as nat < m && !Erased(errs, index[i] as nat)
    requires SurvivorsCarry(before, errs, p, x) && |read| == k
    requires forall i :: 0 <= i < k ==> p < |before[index[i] as nat]| ==> read[i] == before[index[i] as nat][p]
    ensures (EnoughSurvivors(errs, k, m);
             forall i :: 0 <= i < k ==> read[i] == CodeByte(ReadStrips(errs, k, m)[i], x))
  {
    hide CodeByte, Erased;
  }

  // The iterations of: for (index = 0; index < size; index += len)
  function Chunks(size: nat, len: nat): nat
    requires len > 0
  {
    (size + len - 1) / len
  }

  // There is an iteration for every multiple of len below size, and no other.
  lemma ChunksExactly(size: nat, len: nat, i: nat)
    requires len > 0
    ensures i < Chunks(size, len) <==> i * len < size
  {
    var c := Chunks(size, len);
    ChunkRange(size + len - 1, c, len);
    if i < c {
      RowsMonotone(i + 1, c, len);
      assert (i + 1) * len == i * len + len;
    } else {
      RowsMonotone(c, i, len);
    }
  }

  // The chunk of position p starts below size.
  predicate InLoop(p: nat, size: nat, len: nat)
    requires len > 0
  {
    p - p % len < size
  }

  lemma ChunkStart(p: nat, len: nat)
    requires len > 0
    ensures ChunkOf(p, len) * len == p - p % len <= p < ChunkOf(p, len) * len + len
  {
    ChunkRange(p, ChunkOf(p, len), len);
  }

  lemma LoopCoversAt(size: nat, len: nat, p: nat)
    requires len > 0
    ensures InLoop(p, size, len) <==> p < Chunks(size, len) * len
    ensures p < size ==> InLoop(p, size, len)
  {
    var i := ChunkOf(p, len);
    ChunkStart(p, len);
    ChunksExactly(size, len, i);
    if i < Chunks(size, len) {
      RowBound(i, Chunks(size, len), len);
    } else {
      RowsMonotone(Chunks(size, len), i, len);
    }
  }

  // The bytes of the iterations are those of the chunks that start below size.
  lemma LoopCovers(size: nat, len: nat)
    requires len > 0
    ensures forall p: nat {:trigger InLoop(p, size, len)} :: InLoop(p, size, len) <==> p < Chunks(size, len) * len
    ensures size <= Chunks(size, len) * len
  {
    hide Chunks, InLoop;
    forall p: nat ensures InLoop(p, size, len) <==> p < Chunks(size, len) * len {
      LoopCoversAt(size, len, p);
    }
    if size > 0 {
      LoopCoversAt(size, len, size - 1);
    }
  }

  lemma CoefRowSpliced(rows: seq<bv8>, rest: seq<bv8>, i: nat, k: nat)
    requires i * k + k <= |rows|
    ensures CoefRow(rows + rest, i, k) == CoefRow(rows, i, k)
  {
    assert (rows + rest)[i * k..i * k + k] == rows[i * k..i * k + k];
  }

  lemma SplicedCoefs(rows: seq<bv8>, rest: seq<bv8>, errs: seq<Index>, k: nat, m: nat)
    requires GoodErasures(errs, k, m) && |rows| == |errs| * k && RebuildCoefs(rows, errs, k, m)
    ensures RebuildCoefs(rows + rest, errs, k, m)
  {
    hide Rebuilds, ReadRows, EncodeRow, CoefRow;
    forall i | 0 <= i < |errs| ensures CoefRow(rows + rest, i, k) == CoefRow(rows, i, k) {
      RowBound(i, |errs|, k);
      CoefRowSpliced(rows, rest, i, k);
    }
  }

  // Decode tables over the first tables of g: the rest of g is still there.
  lemma DecodeTablesLoaded(g: seq<bv8>, g': seq<bv8>, coefs: seq<bv8>, rows: seq<bv8>,
                           errs: seq<Index>, n: nat, k: nat, m: nat)
    requires GoodErasures(errs, k, m) && m == n + k && |rows| == |errs| * k
    requires |g| == |g'| && Encodes(g, coefs, n, k)
    requires Holds(g', rows) && RebuildCoefs(rows, errs, k, m)
    requires forall i :: 32 * |rows| <= i < |g| ==> g[i] == g'[i]
    ensures |rows| <= |coefs|
    ensures Encodes(g', rows + coefs[|rows|..], n, k)
    ensures RebuildCoefs(rows + coefs[|rows|..], errs, k, m)
  {
    hide Holds, RebuildCoefs;
    RowsMonotone(|errs|, n, k);
    HoldsSplice(g, g', coefs, rows);
    SplicedCoefs(rows, coefs[|rows|..], errs, k, m);
  }

  lemma CoefsAgree(coefs: seq<bv8>, errs: seq<Index>, k: nat, m: nat)
    requires GoodErasures(errs, k, m) && RebuildCoefs(coefs, errs, k, m)
    ensures |errs| * k <= |coefs|
    ensures forall i, j :: 0 <= i < j < |errs| && errs[i] == errs[j] ==>
              CoefRow(coefs, i, k) == CoefRow(coefs, j, k)
  {
  }

  lemma ErasureBound(errs: seq<Index>, k: nat, m: nat)
    requires GoodErasures(errs, k, m)
    ensures k <= m && |errs| <= m - k
  {
  }

  // ec_init_tables for the decode matrix, from its first row
  method InitDecodeTables(decode: array2<bv8>, rows: nat, k: nat, tbls: array<bv8>)
    requires rows <= decode.Length0 && decode.Length1 == k && 32 * (rows * k) <= tbls.Length
    modifies tbls
    ensures Holds(tbls[..], Flatten(Rows(decode, rows), rows, k))
    ensures forall i :: 32 * (rows * k) <= i < tbls.Length ==> tbls[i] == old(tbls[i])
  {
    hide Holds, Flatten;
    EcInitTables(k, rows, decode, 0, tbls);
    assert Rows(decode, 0 + rows)[0..] == Rows(decode, rows);
  }

  lemma WholeChunks(size: nat, len: nat)
    requires len > 0
    ensures size / len * len <= size
  {
  }
}
