/** Any k rows of the Cauchy matrix suffice. */
module Cauchy {
  import opened Galois
  import opened Linear
  import opened GaussJordan
  import opened Counting

  // Conversion of an int to unsigned char.
  function U8(i: nat): bv8 {
    (i % 256) as bv8
  }

  // gf_inv(i ^ j): the low byte of i ^ j is the exclusive or of the low bytes.
  function CauchyEntry(i: nat, j: nat): bv8 {
    GfInv(Add(U8(i), U8(j)))
  }

  // The entry is what i ^ j has to be multiplied with to give one.
  lemma EntryInverts(i: nat, j: nat)
    requires U8(i) != U8(j)
    ensures Mul(CauchyEntry(i, j), Add(U8(i), U8(j))) == 1
  {
    hide GfInv, Mul;
    AddZero(U8(i), U8(j));
    MulInv(Add(U8(i), U8(j)));
  }

  lemma AddZero(a: bv8, b: bv8)
    ensures Add(a, b) == 0 <==> a == b
  {
  }

  function CauchyRow(i: nat, k: nat): (r: Row)
    ensures |r| == k && forall j :: 0 <= j < k ==> r[j] == CauchyEntry(i, j)
  {
    seq(k, j requires 0 <= j < k => CauchyEntry(i, j))
  }

  function EncodeRow(i: nat, k: nat): (r: Row)
    ensures |r| == k
  {
    if i < k then Unit(i, k) else CauchyRow(i, k)
  }

  function EncodeMatrix(m: nat, k: nat): (a: Matrix)
    ensures |a| == m && Shape(a, m, k)
    ensures forall i :: 0 <= i < m ==> a[i] == EncodeRow(i, k)
  {
    seq(m, i requires 0 <= i < m => EncodeRow(i, k))
  }

  // gf_gen_cauchy1_matrix
  method GfGenCauchy1Matrix(a: array2<bv8>, m: nat, k: nat)
    requires a.Length0 == m && a.Length1 == k <= m
    modifies a
    ensures Rows(a, m) == EncodeMatrix(m, k)
  {
    hide GfInv;
    for i := 0 to m
      invariant forall r, c :: 0 <= r < i && 0 <= c < k ==> a[r, c] == 0
    {
      for j := 0 to k
        invariant forall r, c :: 0 <= r < i && 0 <= c < k ==> a[r, c] == 0
        invariant forall c :: 0 <= c < j ==> a[i, c] == 0
      {
        a[i, j] := 0;
      }
    }
    for i := 0 to k
      invariant forall r, c :: 0 <= r < m && 0 <= c < k ==>
        a[r, c] == if r == c && r < i then 1 else 0
    {
      a[i, i] := 1;
    }
    for i := k to m
      invariant forall r, c :: 0 <= r < k && 0 <= c < k ==> a[r, c] == if r == c then 1 else 0
      invariant forall r, c :: k <= r < i && 0 <= c < k ==> a[r, c] == CauchyEntry(r, c)
    {
      for j := 0 to k
        invariant forall r, c :: 0 <= r < k && 0 <= c < k ==> a[r, c] == if r == c then 1 else 0
        invariant forall r, c :: k <= r < i && 0 <= c < k ==> a[r, c] == CauchyEntry(r, c)
        invariant forall c :: 0 <= c < j ==> a[i, c] == CauchyEntry(i, c)
      {
        a[i, j] := GfInv(U8(i) ^ U8(j));
      }
    }
    assert forall i :: 0 <= i < m ==> Rows(a, m)[i] == EncodeRow(i, k);
  }

  lemma U8Value(i: nat)
    requires i < 256
    ensures U8(i) as int == i
  {
    assert i % 256 == i;
  }

  lemma U8Injective(i: nat, j: nat)
    requires i < 256 && j < 256
    ensures U8(i) == U8(j) <==> i == j
  {
    hide U8;
    U8Value(i);
    U8Value(j);
  }

  lemma AddNonzero(a: bv8, b: bv8)
    ensures Add(a, b) == 0 <==> a == b
  {
  }

  // 1/(xy) split into partial fractions: with c = (b + d)/(a + b),
  // d/(ab) == (1 + c)/a + c/b.
  lemma PartialFractions(a: bv8, b: bv8, d: bv8)
    requires a != 0 && b != 0 && Add(a, b) != 0
    ensures
      var c := Mul(Add(b, d), GfInv(Add(a, b)));
      Mul(Mul(GfInv(a), GfInv(b)), d) == Add(Mul(GfInv(a), Add(1, c)), Mul(c, GfInv(b)))
  {
    hide *;
    var s, c := Add(a, b), Mul(Add(b, d), GfInv(Add(a, b)));
    var ia, ib := GfInv(a), GfInv(b);
    assert Mul(c, s) == Add(b, d) by {
      MulInv(s);
      MulAssoc(Add(b, d), GfInv(s), s);
      MulOne(Add(b, d));
    }
    assert d == Add(b, Add(Mul(c, a), Mul(c, b))) by {
      MulAdd(c, a, b);
      AddLaws(b, d);
    }
    var t := Mul(ia, ib);
    assert Mul(t, b) == ia by {
      MulAssoc(ia, ib, b);
      MulInv(b);
      MulOne(ia);
    }
    assert Mul(t, a) == ib by {
      MulComm(ia, ib);
      MulAssoc(ib, ia, a);
      MulInv(a);
      MulOne(ib);
    }
    assert Mul(t, Mul(c, a)) == Mul(c, ib) by {
      MulComm(c, a);
      MulAssoc(t, a, c);
      MulComm(ib, c);
    }
    assert Mul(t, Mul(c, b)) == Mul(ia, c) by {
      MulComm(c, b);
      MulAssoc(t, b, c);
    }
    MulAdd(t, b, Add(Mul(c, a), Mul(c, b)));
    MulAdd(t, Mul(c, a), Mul(c, b));
    AddLaws(Mul(c, ib), Mul(ia, c));
    AddAssoc(ia, Mul(ia, c), Mul(c, ib));
    MulAdd(ia, 1, c);
    MulOne(ia);
  }

  // x with every entry multiplied by (j + q)/(p + j).
  function Reweigh(x: Row, p: nat, q: nat): (w: Row)
    ensures |w| == |x|
    ensures forall j :: 0 <= j < |x| ==>
      w[j] == Mul(x[j], Mul(CauchyEntry(p, j), Add(U8(j), U8(q))))
  {
    seq(|x|, j requires 0 <= j < |x| => Mul(x[j], Mul(CauchyEntry(p, j), Add(U8(j), U8(q)))))
  }

  // The coefficient (p + q)/(i + p) of row p in the elimination.
  function EliminationFactor(i: nat, p: nat, q: nat): bv8 {
    Mul(Add(U8(p), U8(q)), GfInv(Add(U8(i), U8(p))))
  }

  lemma AddThrough(a: bv8, b: bv8, c: bv8)
    ensures Add(Add(a, b), Add(b, c)) == Add(a, c)
  {
    hide Add;
    AddAssoc(a, b, Add(b, c));
    AddLaws(b, c);
  }

  lemma ReweighedTerm(x: bv8, i: nat, p: nat, q: nat, j: nat)
    requires i < 256 && p < 256 && j < 256 && i != p && i != j && p != j
    ensures
      var c := EliminationFactor(i, p, q);
      Mul(CauchyEntry(i, j), Mul(x, Mul(CauchyEntry(p, j), Add(U8(j), U8(q)))))
      == Mul(Add(Mul(CauchyEntry(i, j), Add(1, c)), Mul(c, CauchyEntry(p, j))), x)
  {
    U8Injective(i, p);
    U8Injective(i, j);
    U8Injective(p, j);
    hide U8, Mul, GfInv;
    var a, b, d := Add(U8(i), U8(j)), Add(U8(p), U8(j)), Add(U8(j), U8(q));
    AddNonzero(U8(i), U8(j));
    AddNonzero(U8(p), U8(j));
    AddNonzero(U8(i), U8(p));
    hide Add;
    AddThrough(U8(i), U8(j), U8(p));
    AddLaws(U8(j), U8(p));
    AddThrough(U8(p), U8(j), U8(q));
    PartialFractions(a, b, d);
    var ia, ib := GfInv(a), GfInv(b);
    MulAssoc(ia, x, Mul(ib, d));
    MulComm(ia, x);
    MulAssoc(x, ia, Mul(ib, d));
    MulAssoc(ia, ib, d);
    MulComm(x, Mul(Mul(ia, ib), d));
  }

  lemma {:induction false} DotTermwise(u: Row, v: Row, u': Row, v': Row, n: nat)
    requires n <= |u| && n <= |v| && n <= |u'| && n <= |v'|
    requires forall i :: 0 <= i < n ==> Mul(u[i], v[i]) == Mul(u'[i], v'[i])
    ensures Dot(u, v, n) == Dot(u', v', n)
  {
    hide Add, Mul;
    if n > 0 {
      DotTermwise(u, v, u', v', n - 1);
    }
  }

  // Equation i of the reweighed unknowns is a combination of equations i and p.
  lemma ReweighedEquation(x: Row, i: nat, p: nat, q: nat, k: nat)
    requires |x| == k && k <= i < 256 && k <= p < 256 && i != p
    requires Dot(CauchyRow(i, k), x, k) == 0 && Dot(CauchyRow(p, k), x, k) == 0
    ensures Dot(CauchyRow(i, k), Reweigh(x, p, q), k) == 0
  {
    var c := EliminationFactor(i, p, q);
    var z := AddScaled(Scale(CauchyRow(i, k), Add(1, c)), c, CauchyRow(p, k));
    var w := Reweigh(x, p, q);
    hide CauchyEntry, EliminationFactor, Mul, Add, Dot;
    forall j | 0 <= j < k
      ensures Mul(CauchyRow(i, k)[j], w[j]) == Mul(z[j], x[j])
    {
      ReweighedTerm(x[j], i, p, q, j);
    }
    DotTermwise(CauchyRow(i, k), w, z, x, k);
    DotAddScaled(Scale(CauchyRow(i, k), Add(1, c)), c, CauchyRow(p, k), x, k);
    DotScale(CauchyRow(i, k), Add(1, c), x, k);
    MulZero(c);
    MulZero(Add(1, c));
    AddLaws(0, 0);
  }

  lemma EntryNonzero(i: nat, j: nat)
    requires i < 256 && j < 256 && i != j
    ensures CauchyEntry(i, j) != 0
  {
    hide U8, GfInv;
    U8Injective(i, j);
    AddNonzero(U8(i), U8(j));
    MulInv(Add(U8(i), U8(j)));
  }

  lemma ReweighFactor(p: nat, q: nat, j: nat)
    requires p < 256 && q < 256 && j < 256 && p != j && j != q
    ensures Mul(CauchyEntry(p, j), Add(U8(j), U8(q))) != 0
  {
    hide U8, Mul, CauchyEntry;
    EntryNonzero(p, j);
    U8Injective(j, q);
    AddNonzero(U8(j), U8(q));
    MulNonzero(CauchyEntry(p, j), Add(U8(j), U8(q)));
  }

  // At least as many Cauchy equations as unknowns leave only the zero solution.
  lemma {:induction false} CauchyKernel(x: Row, k: nat, unknown: set<nat>, rows: set<nat>)
    requires |x| == k && |unknown| <= |rows|
    requires forall i :: i in rows ==> k <= i < 256 && Dot(CauchyRow(i, k), x, k) == 0
    requires forall j :: j in unknown ==> j < k
    requires forall j :: 0 <= j < k && j !in unknown ==> x[j] == 0
    ensures x == Zeros(k)
    decreases |unknown|
  {
    hide CauchyEntry, Mul, Add, Dot, CauchyRow, U8;
    if unknown != {} {
      var q :| q in unknown;
      assert rows != {};
      var p :| p in rows;
      var w := Reweigh(x, p, q);
      forall i | i in rows - {p} ensures Dot(CauchyRow(i, k), w, k) == 0 {
        ReweighedEquation(x, i, p, q, k);
      }
      forall j | 0 <= j < k && j !in unknown - {q} ensures w[j] == 0 {
        MulZero(Mul(CauchyEntry(p, j), Add(U8(j), U8(q))));
        if j == q {
          AddLaws(U8(q), U8(q));
          MulZero(CauchyEntry(p, j));
          MulZero(x[j]);
        }
      }
      CauchyKernel(w, k, unknown - {q}, rows - {p});
      forall j | 0 <= j < k && j != q ensures x[j] == 0 {
        ReweighFactor(p, q, j);
        assert w[j] == 0;
        MulNonzero(x[j], Mul(CauchyEntry(p, j), Add(U8(j), U8(q))));
      }
      LastUnknown(x, k, p, q);
    }
  }

  lemma LastUnknown(x: Row, k: nat, p: nat, q: nat)
    requires |x| == k && q < k <= p < 256
    requires Dot(CauchyRow(p, k), x, k) == 0
    requires forall j :: 0 <= j < k && j != q ==> x[j] == 0
    ensures x[q] == 0
  {
    hide CauchyEntry, Mul, Add, Dot, U8;
    DotSingle(CauchyRow(p, k), x, k, q);
    EntryNonzero(p, q);
    MulNonzero(CauchyEntry(p, q), x[q]);
  }

  // ---- any k rows determine the data ----

  // k distinct row numbers of an m-row matrix.
  predicate Selection(rows: seq<nat>, k: nat, m: nat) {
    && |rows| == k
    && (forall i :: 0 <= i < k ==> rows[i] < m)
    && (forall i, j :: 0 <= i < j < k ==> rows[i] != rows[j])
  }

  function Select(a: Matrix, rows: seq<nat>): (b: Matrix)
    requires forall i :: 0 <= i < |rows| ==> rows[i] < |a|
    ensures |b| == |rows| && forall i :: 0 <= i < |rows| ==> b[i] == a[rows[i]]
  {
    seq(|rows|, i requires 0 <= i < |rows| => a[rows[i]])
  }

  // As many parity rows are chosen as sources are missing.
  lemma MissingCount(rows: seq<nat>, k: nat, m: nat)
    requires Selection(rows, k, m)
    ensures |Below(k) - Elements(rows)| == |Elements(rows) - Below(k)|
  {
    var chosen, sources := Elements(rows), Below(k);
    DistinctElements(rows);
    assert chosen == (chosen * sources) + (chosen - sources);
    assert sources == (chosen * sources) + (sources - chosen);
  }

  lemma SourceEntry(j: nat, x: Row, k: nat)
    requires j < k == |x|
    ensures Dot(EncodeRow(j, k), x, k) == x[j]
  {
    hide Dot;
    DotUnit(j, x, k);
  }

  lemma ParityEncodeRow(r: nat, k: nat)
    requires k <= r
    ensures EncodeRow(r, k) == CauchyRow(r, k)
  {
    hide CauchyRow;
  }

  lemma SelectedKernel(rows: seq<nat>, k: nat, m: nat, x: Row)
    requires k <= m <= 256 && Selection(rows, k, m)
    requires |x| == k && forall i :: 0 <= i < k ==> Dot(EncodeRow(rows[i], k), x, k) == 0
    ensures x == Zeros(k)
  {
    hide Dot, CauchyRow, EncodeRow, Below, Elements;
    MissingCount(rows, k, m);
    forall j | 0 <= j < k && j !in Below(k) - Elements(rows) ensures x[j] == 0 {
      var i :| 0 <= i < k && rows[i] == j;
      SourceEntry(j, x, k);
    }
    forall r | r in Elements(rows) - Below(k) ensures k <= r < m && Dot(CauchyRow(r, k), x, k) == 0 {
      var i :| 0 <= i < k && rows[i] == r;
      ParityEncodeRow(r, k);
    }
    CauchyKernel(x, k, Below(k) - Elements(rows), Elements(rows) - Below(k));
  }

  // Up to 256 rows, losing any m - k of them loses nothing.
  lemma AnyRowsNonsingular(rows: seq<nat>, k: nat, m: nat)
    requires k <= m <= 256 && Selection(rows, k, m)
    ensures Nonsingular(Select(EncodeMatrix(m, k), rows), k)
  {
    hide Dot, EncodeRow;
    var b := Select(EncodeMatrix(m, k), rows);
    forall x: Row | Kernel(b, k, x) ensures x == Zeros(k) {
      assert forall i :: 0 <= i < k ==> b[i] == EncodeRow(rows[i], k);
      SelectedKernel(rows, k, m, x);
    }
  }

  ghost predicate AnyRowsSuffice(k: nat, m: nat) {
    forall rows :: Selection(rows, k, m) ==> Nonsingular(Select(EncodeMatrix(m, k), rows), k)
  }

  // A zero entry in a parity row: that row cannot replace that source.
  lemma ZeroEntryFails(k: nat, m: nat, i: nat, j: nat)
    requires j < k <= i < m && CauchyEntry(i, j) == 0
    ensures !AnyRowsSuffice(k, m)
  {
    var rows := seq(k, c requires 0 <= c < k => if c == j then i else c);
    var b := Select(EncodeMatrix(m, k), rows);
    var x := Unit(j, k);
    hide Dot, CauchyEntry;
    forall c | 0 <= c < k ensures Dot(b[c], x, k) == 0 {
      DotUnit(j, b[c], k);
    }
    assert Selection(rows, k, m);
    assert Kernel(b, k, x) && x[j] == 1;
  }

  // The recovery promise holds exactly while the row numbers fit a byte.
  lemma RecoverableIff(k: nat, m: nat)
    requires 1 <= k < m
    ensures AnyRowsSuffice(k, m) <==> m <= 256
  {
    if m <= 256 {
      forall rows | Selection(rows, k, m)
        ensures Nonsingular(Select(EncodeMatrix(m, k), rows), k)
      {
        AnyRowsNonsingular(rows, k, m);
      }
    } else {
      var i := if k <= 256 then 256 else k;
      var j := i - 256;
      assert i % 256 == j % 256;
      assert U8(i) == U8(j);
      AddNonzero(U8(i), U8(j));
      ZeroEntryFails(k, m, i, j);
    }
  }
}
