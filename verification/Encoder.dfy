/** ec_init_tables and the encode loops of ec_base.c. */
module Encoder {
  import opened Galois
  import opened Linear
  import opened GaussJordan
  import opened ProductTables

  // The product tables of g, from the start, are those of the given coefficients.
  ghost predicate Holds(g: seq<bv8>, coefs: seq<bv8>) {
    && 32 * |coefs| <= |g|
    && forall t :: 0 <= t < |coefs| ==> IsProductTable(g, 32 * t, coefs[t])
  }

  // The first rows of m, one after the other.
  function Flatten(m: Matrix, rows: nat, k: nat): (f: seq<bv8>)
    requires Shape(m, rows, k)
    ensures |f| == rows * k
  {
    if rows == 0 then [] else Flatten(m, rows - 1, k) + m[rows - 1]
  }

  // Row l of a list of rows of k coefficients.
  function CoefRow(coefs: seq<bv8>, l: nat, k: nat): (r: Row)
    ensures |r| == k
  {
    if l * k + k <= |coefs| then coefs[l * k..l * k + k] else Zeros(k)
  }

  lemma RowBound(l: nat, rows: nat, k: nat)
    requires l < rows
    ensures l * k + k <= rows * k
  {
    assert (l + 1) * k <= rows * k;
  }

  lemma RowSlice(coefs: seq<bv8>, l: nat, k: nat)
    requires l * k + k <= |coefs|
    ensures coefs[l * k..l * k + k] == CoefRow(coefs, l, k) && l * k + k == (l + 1) * k
  {
  }

  lemma RowsMonotone(l: nat, l': nat, k: nat)
    requires l <= l'
    ensures l * k <= l' * k
  {
  }

  lemma {:induction false} FlattenRow(m: Matrix, rows: nat, k: nat, rest: seq<bv8>, l: nat)
    requires Shape(m, rows, k) && l < rows
    ensures CoefRow(Flatten(m, rows, k) + rest, l, k) == m[l]
  {
    RowBound(l, rows, k);
    var f := Flatten(m, rows, k) + rest;
    if l == rows - 1 {
      assert f[l * k..l * k + k] == m[l];
    } else {
      FlattenRow(m, rows - 1, k, m[rows - 1] + rest, l);
      assert f == Flatten(m, rows - 1, k) + (m[rows - 1] + rest);
    }
  }

  // A table written at or past the end of the list leaves the list alone.
  lemma TableKept(g: seq<bv8>, g': seq<bv8>, off: nat, c: bv8, cut: nat)
    requires |g| == |g'| && off + 32 <= cut <= |g|
    requires forall i :: 0 <= i < cut ==> g[i] == g'[i]
    requires IsProductTable(g, off, c)
    ensures IsProductTable(g', off, c)
  {
    hide Mul, Xtime;
  }

  lemma HoldsKept(g: seq<bv8>, g': seq<bv8>, coefs: seq<bv8>, cut: nat)
    requires |g| == |g'| && 32 * |coefs| <= cut <= |g|
    requires forall i :: 0 <= i < cut ==> g[i] == g'[i]
    requires Holds(g, coefs)
    ensures Holds(g', coefs)
  {
    hide IsProductTable;
    forall t | 0 <= t < |coefs| ensures IsProductTable(g', 32 * t, coefs[t]) {
      TableKept(g, g', 32 * t, coefs[t], cut);
    }
  }

  // New tables written over the first ones of a list.
  lemma HoldsSplice(g: seq<bv8>, g': seq<bv8>, coefs: seq<bv8>, fresh': seq<bv8>)
    requires |g| == |g'| && |fresh'| <= |coefs| && Holds(g, coefs) && Holds(g', fresh')
    requires forall i :: 32 * |fresh'| <= i < |g| ==> g[i] == g'[i]
    ensures Holds(g', fresh' + coefs[|fresh'|..])
  {
    var spliced := fresh' + coefs[|fresh'|..];
    hide Mul, Xtime;
    forall t | 0 <= t < |spliced| ensures IsProductTable(g', 32 * t, spliced[t]) {
      if t < |fresh'| {
        assert IsProductTable(g', 32 * t, fresh'[t]);
      } else {
        assert IsProductTable(g, 32 * t, coefs[t]);
      }
    }
  }

  // ec_init_tables, for the rows of a from row first on
  method EcInitTables(k: nat, rows: nat, a: array2<bv8>, first: nat, g: array<bv8>)
    requires first + rows <= a.Length0 && a.Length1 == k && 32 * (rows * k) <= g.Length
    modifies g
    ensures Holds(g[..], Flatten(Rows(a, first + rows)[first..], rows, k))
    ensures forall i :: 32 * (rows * k) <= i < g.Length ==> g[i] == old(g[i])
  {
    hide IsProductTable;
    ghost var m := Rows(a, first + rows)[first..];
    var off := 0;
    for i := 0 to rows
      invariant off == 32 * (i * k) && Holds(g[..], Flatten(m, i, k))
      invariant forall p :: 32 * (rows * k) <= p < g.Length ==> g[p] == old(g[p])
    {
      RowBound(i, rows, k);
      off := InitRow(k, a, first + i, g, off, Flatten(m, i, k));
      assert m[i] == RowOf(a, first + i);
      assert (i + 1) * k == i * k + k;
    }
  }

  // the inner loop of ec_init_tables
  method InitRow(k: nat, a: array2<bv8>, r: nat, g: array<bv8>, start: nat, ghost coefs: seq<bv8>)
    returns (off: nat)
    requires r < a.Length0 && a.Length1 == k && start == 32 * |coefs| && start + 32 * k <= g.Length
    requires Holds(g[..], coefs)
    modifies g
    ensures off == start + 32 * k && Holds(g[..], coefs + RowOf(a, r))
    ensures forall i :: off <= i < g.Length ==> g[i] == old(g[i])
  {
    hide IsProductTable;
    off := start;
    assert coefs + RowOf(a, r)[..0] == coefs;
    for j := 0 to k
      invariant off == start + 32 * j && Holds(g[..], coefs + RowOf(a, r)[..j])
      invariant forall i :: start + 32 * k <= i < g.Length ==> g[i] == old(g[i])
    {
      ghost var before, done := g[..], coefs + RowOf(a, r)[..j];
      GfVectMulInit(a[r, j], g, off);
      HoldsKept(before, g[..], done, off);
      assert coefs + RowOf(a, r)[..j + 1] == done + [a[r, j]];
      off := off + 32;
    }
    assert RowOf(a, r)[..k] == RowOf(a, r);
  }

  // The byte of every source strip at one position.
  function SourceAt(src: seq<array<bv8>>, p: nat): (r: Row)
    requires forall j :: 0 <= j < |src| ==> p < src[j].Length
    reads src
    ensures |r| == |src| && forall j :: 0 <= j < |src| ==> r[j] == src[j][p]
  {
    seq(|src|, j requires 0 <= j < |src| reads src => src[j][p])
  }

  // s ^= gf_mul(src[j][p], v[32 * (base + j) + 1]) over j
  method DotProduct(src: seq<array<bv8>>, p: nat, v: array<bv8>, ghost coefs: seq<bv8>, base: nat)
    returns (s: bv8)
    requires forall j :: 0 <= j < |src| ==> p < src[j].Length
    requires base + |src| <= |coefs| && Holds(v[..], coefs)
    ensures s == Dot(SourceAt(src, p), coefs[base..base + |src|], |src|)
  {
    hide IsProductTable, Mul, GfMul;
    ghost var x, row := SourceAt(src, p), coefs[base..base + |src|];
    s := 0;
    for j := 0 to |src|
      invariant s == Dot(x, row, j)
    {
      TableProduct(v[..], 32 * (base + j), row[j], 0);
      GfMulIsMul(src[j][p], v[32 * (base + j) + 1]);
      s := s ^ GfMul(src[j][p], v[32 * (base + j) + 1]);
    }
  }

  // dest[p] for p in off..off+len is the product of the sources with one row of coefficients.
  method EncodeStrip(len: nat, src: seq<array<bv8>>, dest: array<bv8>, off: nat,
                     v: array<bv8>, ghost coefs: seq<bv8>, base: nat)
    requires off + len <= dest.Length && dest !in src && dest != v
    requires forall j :: 0 <= j < |src| ==> off + len <= src[j].Length
    requires base + |src| <= |coefs| && Holds(v[..], coefs)
    modifies dest
    ensures forall p :: off <= p < off + len ==>
              dest[p] == Dot(SourceAt(src, p), coefs[base..base + |src|], |src|)
    ensures forall p :: 0 <= p < dest.Length && !(off <= p < off + len) ==> dest[p] == old(dest[p])
  {
    hide Holds, Dot;
    for i := 0 to len
      invariant forall p :: off <= p < off + i ==>
                  dest[p] == Dot(SourceAt(src, p), coefs[base..base + |src|], |src|)
      invariant forall p :: 0 <= p < dest.Length && !(off <= p < off + i) ==> dest[p] == old(dest[p])
    {
      var s := DotProduct(src, off + i, v, coefs, base);
      dest[off + i] := s;
    }
  }

  // ec_encode_data_base on the bytes off..off+len of every strip. A destination that is
  // listed twice must be listed with the same coefficients.
  method EcEncodeDataBase(len: nat, v: array<bv8>, ghost coefs: seq<bv8>,
                          src: seq<array<bv8>>, dst: seq<array<bv8>>, off: nat)
    requires forall j :: 0 <= j < |src| ==> off + len <= src[j].Length
    requires forall l :: 0 <= l < |dst| ==> off + len <= dst[l].Length && dst[l] !in src && dst[l] != v
    requires forall l, l' :: 0 <= l < l' < |dst| && dst[l] == dst[l'] ==>
               CoefRow(coefs, l, |src|) == CoefRow(coefs, l', |src|)
    requires |dst| * |src| <= |coefs| && Holds(v[..], coefs)
    modifies dst
    ensures forall l, p :: 0 <= l < |dst| && off <= p < off + len ==>
              dst[l][p] == Dot(SourceAt(src, p), CoefRow(coefs, l, |src|), |src|)
    ensures forall l, p :: 0 <= l < |dst| && 0 <= p < dst[l].Length && !(off <= p < off + len) ==>
              dst[l][p] == old(dst[l][p])
  {
    hide Holds, Dot, CoefRow, SourceAt;
    var base := 0;
    for l := 0 to |dst|
      invariant base == l * |src| && v[..] == old(v[..])
      invariant forall q, p :: 0 <= q < l && off <= p < off + len ==>
                  dst[q][p] == Dot(SourceAt(src, p), CoefRow(coefs, q, |src|), |src|)
      invariant forall q, p :: 0 <= q < |dst| && 0 <= p < dst[q].Length && !(off <= p < off + len) ==>
                  dst[q][p] == old(dst[q][p])
    {
      RowBound(l, |dst|, |src|);
      EncodeStrip(len, src, dst[l], off, v, coefs, base);
      RowSlice(coefs, l, |src|);
      base := base + |src|;
    }
  }

  // ---- the chunk loops of IsaEC ----

  function ChunkOf(p: nat, len: nat): nat
    requires len > 0
  {
    p / len
  }

  lemma ChunkRange(p: nat, i: nat, len: nat)
    requires len > 0
    ensures ChunkOf(p, len) == i <==> i * len <= p < i * len + len
  {
    var q := p / len;
    assert p == q * len + p % len;
    if q < i {
      RowsMonotone(q + 1, i, len);
    } else if i < q {
      RowsMonotone(i + 1, q, len);
    }
  }

  // The order in which the threads finish the iterations 0..iters of a parallel loop.
  ghost predicate Schedule(order: seq<nat>, iters: nat) {
    && |order| == iters
    && forall i: nat :: i in order <==> i < iters
  }

  lemma EveryByteScheduled(order: seq<nat>, iters: nat, p: nat, len: nat)
    requires len > 0 && Schedule(order, iters) && p < iters * len
    ensures ChunkOf(p, len) in order
  {
    var i := ChunkOf(p, len);
    ChunkRange(p, i, len);
    if i >= iters {
      RowsMonotone(iters, i, len);
    }
  }

  // What is known of the destinations when the chunks in done have been encoded.
  ghost predicate Encoded(src: seq<array<bv8>>, dst: seq<array<bv8>>, coefs: seq<bv8>,
                          len: nat, total: nat, done: seq<nat>)
    requires len > 0
    requires forall j :: 0 <= j < |src| ==> total <= src[j].Length
    requires forall l :: 0 <= l < |dst| ==> total <= dst[l].Length
    reads src, dst
  {
    forall l, p :: 0 <= l < |dst| && 0 <= p < total && ChunkOf(p, len) in done ==>
      dst[l][p] == Dot(SourceAt(src, p), CoefRow(coefs, l, |src|), |src|)
  }

  // One iteration: one ec_encode_data call, on its own byte range of every strip.
  method EncodeChunk(len: nat, v: array<bv8>, ghost coefs: seq<bv8>,
                     src: seq<array<bv8>>, dst: seq<array<bv8>>,
                     i: nat, ghost total: nat, ghost done: seq<nat>)
    requires len > 0 && i * len + len <= total
    requires forall j :: 0 <= j < |src| ==> total <= src[j].Length
    requires forall l :: 0 <= l < |dst| ==> total <= dst[l].Length && dst[l] !in src && dst[l] != v
    requires forall l, l' :: 0 <= l < l' < |dst| && dst[l] == dst[l'] ==>
               CoefRow(coefs, l, |src|) == CoefRow(coefs, l', |src|)
    requires |dst| * |src| <= |coefs| && Holds(v[..], coefs)
    requires Encoded(src, dst, coefs, len, total, done)
    modifies dst
    ensures Encoded(src, dst, coefs, len, total, done + [i])
    ensures forall l, p :: 0 <= l < |dst| && total <= p < dst[l].Length ==> dst[l][p] == old(dst[l][p])
  {
    hide Holds, Dot, CoefRow, ChunkOf;
    EcEncodeDataBase(len, v, coefs, src, dst, i * len);
    forall l, p | 0 <= l < |dst| && 0 <= p < total && ChunkOf(p, len) in done + [i]
      ensures dst[l][p] == Dot(SourceAt(src, p), CoefRow(coefs, l, |src|), |src|)
    {
      ChunkRange(p, i, len);
    }
  }

  // In whatever order the iterations run, the strips end up as one product over
  // their whole length.
  method EncodeChunks(len: nat, v: array<bv8>, ghost coefs: seq<bv8>,
                      src: seq<array<bv8>>, dst: seq<array<bv8>>, order: seq<nat>, ghost iters: nat)
    requires len > 0 && Schedule(order, iters)
    requires forall j :: 0 <= j < |src| ==> iters * len <= src[j].Length
    requires forall l :: 0 <= l < |dst| ==> iters * len <= dst[l].Length && dst[l] !in src && dst[l] != v
    requires forall l, l' :: 0 <= l < l' < |dst| && dst[l] == dst[l'] ==>
               CoefRow(coefs, l, |src|) == CoefRow(coefs, l', |src|)
    requires |dst| * |src| <= |coefs| && Holds(v[..], coefs)
    modifies dst
    ensures forall l, p :: 0 <= l < |dst| && 0 <= p < iters * len ==>
              dst[l][p] == Dot(SourceAt(src, p), CoefRow(coefs, l, |src|), |src|)
    ensures forall l, p :: 0 <= l < |dst| && iters * len <= p < dst[l].Length ==>
              dst[l][p] == old(dst[l][p])
  {
    hide Holds, Dot, CoefRow, ChunkOf;
    ghost var total := iters * len;
    for t := 0 to |order|
      invariant v[..] == old(v[..])
      invariant Encoded(src, dst, coefs, len, total, order[..t])
      invariant forall l, p :: 0 <= l < |dst| && total <= p < dst[l].Length ==> dst[l][p] == old(dst[l][p])
    {
      assert order[t] in order;
      RowBound(order[t], iters, len);
      EncodeChunk(len, v, coefs, src, dst, order[t], total, order[..t]);
      assert order[..t + 1] == order[..t] + [order[t]];
    }
    assert order[..|order|] == order;
    forall p | 0 <= p < total ensures ChunkOf(p, len) in order {
      EveryByteScheduled(order, iters, p, len);
    }
  }
}
