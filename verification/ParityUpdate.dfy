/** ec_encode_data_update_base. */
module ParityUpdate {
  import opened Bags
  import opened Galois
  import opened Linear
  import opened ProductTables
  import opened Encoder

  // The terms x[j] * row[j] added to s in the given order.
  function Accumulate(s: bv8, x: Row, row: Row, order: seq<nat>): bv8
    requires |x| == |row| && forall i :: 0 <= i < |order| ==> order[i] < |x|
  {
    if order == [] then s
    else
      var last := |order| - 1;
      Add(Accumulate(s, x, row, order[..last]), Mul(x[order[last]], row[order[last]]))
  }

  // Each of 0..k exactly once.
  ghost predicate OnceEach(order: seq<nat>, k: nat) {
    && |order| == k
    && (forall i :: 0 <= i < k ==> order[i] < k)
    && (forall i, j :: 0 <= i < j < k ==> order[i] != order[j])
  }

  lemma {:induction false} AccumulateAppend(s: bv8, x: Row, row: Row, a: seq<nat>, j: nat)
    requires |x| == |row| && j < |x| && forall i :: 0 <= i < |a| ==> a[i] < |x|
    ensures Accumulate(s, x, row, a + [j]) == Add(Accumulate(s, x, row, a), Mul(x[j], row[j]))
  {
    hide Add, Mul;
    assert (a + [j])[..|a|] == a;
  }

  // A term can be taken out of any place of the sum and added last.
  lemma {:induction false} AccumulateWithout(s: bv8, x: Row, row: Row, order: seq<nat>, i: nat)
    requires |x| == |row| && i < |order| && forall i :: 0 <= i < |order| ==> order[i] < |x|
    ensures Accumulate(s, x, row, order)
         == Add(Accumulate(s, x, row, Without(order, i)), Mul(x[order[i]], row[order[i]]))
  {
    hide Add, Mul;
    var last := |order| - 1;
    if i == last {
      assert Without(order, i) == order[..last];
    } else {
      var rest := Without(order[..last], i);
      var s', t, u := Accumulate(s, x, row, rest), Mul(x[order[i]], row[order[i]]), Mul(x[order[last]], row[order[last]]);
      AccumulateWithout(s, x, row, order[..last], i);
      assert Without(order, i) == rest + [order[last]];
      AccumulateAppend(s, x, row, rest, order[last]);
      AddAssoc(s', t, u);
      AddLaws(t, u);
      AddAssoc(s', u, t);
    }
  }

  lemma {:induction false} LargestSomewhere(order: seq<nat>, k: nat) returns (i: nat)
    requires k > 0 && OnceEach(order, k)
    ensures i < k && order[i] == k - 1 && OnceEach(Without(order, i), k - 1)
  {
    if k - 1 !in order {
      Pigeonhole(order, k - 1);
    }
    i :| 0 <= i < k && order[i] == k - 1;
  }

  // More than k distinct numbers below k do not exist.
  lemma {:induction false} Pigeonhole(s: seq<nat>, k: nat)
    requires |s| > k && forall i, j :: 0 <= i < j < |s| ==> s[i] != s[j]
    ensures exists i :: 0 <= i < |s| && s[i] >= k
  {
    if k > 0 {
      if k - 1 in s {
        var i :| 0 <= i < |s| && s[i] == k - 1;
        var s' := Without(s, i);
        Pigeonhole(s', k - 1);
        var j :| 0 <= j < |s'| && s'[j] >= k - 1;
        var j' := if j < i then j else j + 1;
        assert s'[j] == s[j'];
      } else {
        Pigeonhole(s, k - 1);
      }
    } else {
      assert s[0] >= 0;
    }
  }

  // Source by source, in any order: the same sum as all at once.
  lemma {:induction false} AnyOrder(x: Row, row: Row, order: seq<nat>, k: nat)
    requires |x| == |row| && k <= |x| && OnceEach(order, k)
    ensures Accumulate(0, x, row, order) == Dot(x, row, k)
  {
    hide Add, Mul;
    if k > 0 {
      var i := LargestSomewhere(order, k);
      AccumulateWithout(0, x, row, order, i);
      AnyOrder(x, row, Without(order, i), k - 1);
    }
  }

  // Adding old xor new of one source is encoding with the new source.
  lemma {:induction false} DotReplaced(x: Row, row: Row, j: nat, y: bv8, n: nat)
    requires j < n <= |x| && n <= |row|
    ensures Add(Dot(x, row, n), Mul(Add(x[j], y), row[j])) == Dot(x[j := y], row, n)
  {
    hide Add, Mul;
    var c, c', t := Mul(x[j], row[j]), Mul(y, row[j]), Mul(x[n - 1], row[n - 1]);
    var before := Dot(x, row, n - 1);
    AddMul(x[j], y, row[j]);
    if j == n - 1 {
      DotCongruent(x, row, x[j := y], row, n - 1);
      AddAssoc(before, c, Add(c, c'));
      AddLaws(c, c');
    } else {
      DotReplaced(x, row, j, y, n - 1);
      AddAssoc(before, t, Add(c, c'));
      AddLaws(t, Add(c, c'));
      AddAssoc(before, Add(c, c'), t);
    }
  }

  // ec_encode_data_update_base for source number source
  method EcEncodeDataUpdateBase(len: nat, k: nat, source: nat, v: array<bv8>, ghost coefs: seq<bv8>,
                                data: array<bv8>, dest: seq<array<bv8>>)
    requires source < k && |dest| * k <= |coefs| && Holds(v[..], coefs)
    requires len <= data.Length && data !in dest && v !in dest
    requires forall l :: 0 <= l < |dest| ==> len <= dest[l].Length
    requires forall l, l' :: 0 <= l < l' < |dest| ==> dest[l] != dest[l']
    modifies dest
    ensures forall l, i :: 0 <= l < |dest| && 0 <= i < len ==>
              dest[l][i] == Add(old(dest[l][i]), Mul(data[i], CoefRow(coefs, l, k)[source]))
    ensures forall l, i :: 0 <= l < |dest| && len <= i < dest[l].Length ==> dest[l][i] == old(dest[l][i])
  {
    hide Mul, IsProductTable, CoefRow, Holds;
    var base := 0;
    for l := 0 to |dest|
      invariant base == l * k && v[..] == old(v[..])
      invariant forall q, i :: l <= q < |dest| && 0 <= i < dest[q].Length ==> dest[q][i] == old(dest[q][i])
      invariant forall q, i :: 0 <= q < l && 0 <= i < len ==>
        dest[q][i] == Add(old(dest[q][i]), Mul(data[i], CoefRow(coefs, q, k)[source]))
      invariant forall q, i :: 0 <= q < l && len <= i < dest[q].Length ==> dest[q][i] == old(dest[q][i])
    {
      RowBound(l, |dest|, k);
      UpdateStrip(len, v, coefs, base, source, k, data, dest[l]);
      CoefRowAt(coefs, l, k, source);
      assert base + k == (l + 1) * k;
      base := base + k;
    }
  }

  lemma CoefRowAt(coefs: seq<bv8>, l: nat, k: nat, j: nat)
    requires l * k + k <= |coefs| && j < k
    ensures CoefRow(coefs, l, k)[j] == coefs[l * k + j]
  {
  }

  method UpdateStrip(len: nat, v: array<bv8>, ghost coefs: seq<bv8>, base: nat, source: nat, ghost k: nat,
                     data: array<bv8>, dest: array<bv8>)
    requires source < k && base + k <= |coefs| && Holds(v[..], coefs)
    requires len <= data.Length && len <= dest.Length && data != dest && v != dest
    modifies dest
    ensures forall i :: 0 <= i < len ==>
              dest[i] == Add(old(dest[i]), Mul(data[i], coefs[base + source]))
    ensures forall i :: len <= i < dest.Length ==> dest[i] == old(dest[i])
  {
    hide Mul, GfMul, IsProductTable;
    var slot := base + source;
    for i := 0 to len
      invariant forall p :: 0 <= p < i ==> dest[p] == Add(old(dest[p]), Mul(data[p], coefs[slot]))
      invariant forall p :: i <= p < dest.Length ==> dest[p] == old(dest[p])
    {
      TableProduct(v[..], 32 * slot, coefs[slot], 0);
      GfMulIsMul(data[i], v[32 * slot + 1]);
      dest[i] := dest[i] ^ GfMul(data[i], v[32 * slot + 1]);
    }
  }

  // The client of the update: every source once, in any order.
  method UpdateAll(len: nat, v: array<bv8>, ghost coefs: seq<bv8>, data: seq<array<bv8>>,
                   dest: seq<array<bv8>>, order: seq<nat>)
    requires |dest| * |data| <= |coefs| && Holds(v[..], coefs) && OnceEach(order, |data|)
    requires forall j :: 0 <= j < |data| ==> len <= data[j].Length && data[j] !in dest
    requires v !in dest
    requires forall l :: 0 <= l < |dest| ==> len <= dest[l].Length
    requires forall l, l' :: 0 <= l < l' < |dest| ==> dest[l] != dest[l']
    requires forall l, i :: 0 <= l < |dest| && 0 <= i < len ==> dest[l][i] == 0
    modifies dest
    ensures forall l, i :: 0 <= l < |dest| && 0 <= i < len ==>
              dest[l][i] == Dot(SourceAt(data, i), CoefRow(coefs, l, |data|), |data|)
  {
    hide Mul, Holds, CoefRow, Add;
    ghost var k := |data|;
    for t := 0 to |order|
      invariant v[..] == old(v[..])
      invariant forall l, i :: 0 <= l < |dest| && 0 <= i < len ==>
        dest[l][i] == Accumulate(0, SourceAt(data, i), CoefRow(coefs, l, k), order[..t])
    {
      EcEncodeDataUpdateBase(len, |data|, order[t], v, coefs, data[order[t]], dest);
      assert order[..t + 1] == order[..t] + [order[t]];
      forall l, i | 0 <= l < |dest| && 0 <= i < len
        ensures dest[l][i] == Accumulate(0, SourceAt(data, i), CoefRow(coefs, l, k), order[..t + 1])
      {
        AccumulateAppend(0, SourceAt(data, i), CoefRow(coefs, l, k), order[..t], order[t]);
      }
    }
    assert order[..|order|] == order;
    forall l, i | 0 <= l < |dest| && 0 <= i < len
      ensures dest[l][i] == Dot(SourceAt(data, i), CoefRow(coefs, l, k), k)
    {
      AnyOrder(SourceAt(data, i), CoefRow(coefs, l, k), order, k);
    }
  }

  // The difference of two strips, byte by byte.
  method XorInto(len: nat, a: array<bv8>, b: array<bv8>, delta: array<bv8>)
    requires len <= a.Length && len <= b.Length && len <= delta.Length && delta != a && delta != b
    modifies delta
    ensures forall i :: 0 <= i < len ==> delta[i] == Add(a[i], b[i])
  {
    for i := 0 to len
      invariant forall p :: 0 <= p < i ==> delta[p] == Add(a[p], b[p])
    {
      delta[i] := a[i] ^ b[i];
    }
  }

  method CopyInto(len: nat, a: array<bv8>, b: array<bv8>)
    requires len <= a.Length && len <= b.Length && a != b
    modifies b
    ensures forall i :: 0 <= i < len ==> b[i] == a[i]
  {
    for i := 0 to len
      invariant forall p :: 0 <= p < i ==> b[p] == a[p]
    {
      b[i] := a[i];
    }
  }

  lemma SourceReplaced(before: Row, after: Row, j: nat, y: bv8)
    requires |before| == |after| && j < |before| && after[j] == y
    requires forall q :: 0 <= q < |before| && q != j ==> after[q] == before[q]
    ensures after == before[j := y]
  {
  }

  // The parity of data of which one strip is replaced: updated with old xor new, it is the encoding
  // of the new data.
  method ReplaceSource(len: nat, v: array<bv8>, ghost coefs: seq<bv8>, data: seq<array<bv8>>, j: nat,
                       newStrip: array<bv8>, delta: array<bv8>, dest: seq<array<bv8>>)
    requires j < |data| && |dest| * |data| <= |coefs| && Holds(v[..], coefs)
    requires (forall q :: 0 <= q < |data| ==> len <= data[q].Length && data[q] !in dest && data[q] != v)
    requires forall q :: 0 <= q < |data| && q != j ==> data[q] != data[j]
    requires len <= newStrip.Length && newStrip !in data && newStrip !in dest
    requires len <= delta.Length && delta !in data && delta !in dest && delta != v && delta != newStrip && v !in dest
    requires forall l :: 0 <= l < |dest| ==> len <= dest[l].Length
    requires forall l, l' :: 0 <= l < l' < |dest| ==> dest[l] != dest[l']
    requires forall l, i :: 0 <= l < |dest| && 0 <= i < len ==>
               dest[l][i] == Dot(SourceAt(data, i), CoefRow(coefs, l, |data|), |data|)
    modifies dest, delta, data[j]
    ensures forall l, i :: 0 <= l < |dest| && 0 <= i < len ==>
              dest[l][i] == Dot(SourceAt(data, i), CoefRow(coefs, l, |data|), |data|)
    ensures forall i :: 0 <= i < len ==> data[j][i] == newStrip[i]
    ensures forall q, i :: 0 <= q < |data| && q != j && 0 <= i < len ==> data[q][i] == old(data[q][i])
  {
    hide Mul, Holds, CoefRow, Add, Dot;
    var k := |data|;
    ghost var before := seq(len, i requires 0 <= i < len reads data => SourceAt(data, i));
    XorInto(len, data[j], newStrip, delta);
    EcEncodeDataUpdateBase(len, k, j, v, coefs, delta, dest);
    CopyInto(len, newStrip, data[j]);
    forall l, i | 0 <= l < |dest| && 0 <= i < len
      ensures dest[l][i] == Dot(SourceAt(data, i), CoefRow(coefs, l, k), k)
    {
      SourceReplaced(before[i], SourceAt(data, i), j, newStrip[i]);
      DotReplaced(before[i], CoefRow(coefs, l, k), j, newStrip[i], k);
    }
  }
}
