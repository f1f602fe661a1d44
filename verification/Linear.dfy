/** Vectors and matrices over GF(2^8): products, scaled rows and combinations of rows. */
module Linear {
  import opened Galois

  type Row = seq<bv8>
  type Matrix = seq<Row>

  // The sum of u[i] * v[i] for i < n.
  function Dot(u: Row, v: Row, n: nat): bv8
    requires n <= |u| && n <= |v|
  {
    if n == 0 then 0 else Add(Dot(u, v, n - 1), Mul(u[n - 1], v[n - 1]))
  }

  function AddScaled(u: Row, t: bv8, p: Row): (r: Row)
    requires |p| == |u|
    ensures |r| == |u|
  {
    seq(|u|, i requires 0 <= i < |u| => Add(u[i], Mul(t, p[i])))
  }

  function Scale(u: Row, c: bv8): (r: Row)
    ensures |r| == |u|
  {
    seq(|u|, i requires 0 <= i < |u| => Mul(u[i], c))
  }

  function Zeros(n: nat): (r: Row)
    ensures |r| == n && forall i :: 0 <= i < n ==> r[i] == 0
  {
    seq(n, _ => 0)
  }

  function Unit(i: nat, n: nat): (r: Row)
    ensures |r| == n && forall j :: 0 <= j < n ==> r[j] == if j == i then 1 else 0
  {
    seq(n, j => if j == i then 1 else 0)
  }

  function Identity(n: nat): (m: Matrix)
    ensures |m| == n && forall i :: 0 <= i < n ==> m[i] == Unit(i, n)
  {
    seq(n, i requires 0 <= i < n => Unit(i, n))
  }

  // At least k rows, every row n long.
  predicate Shape(m: Matrix, k: nat, n: nat) {
    |m| >= k && forall i :: 0 <= i < |m| ==> |m[i]| == n
  }

  // The first k rows of m, applied to x.
  function Apply(m: Matrix, x: Row, k: nat, n: nat): (y: Row)
    requires Shape(m, k, n) && |x| == n
    ensures |y| == k && forall i :: 0 <= i < k ==> y[i] == Dot(m[i], x, n)
  {
    seq(k, i requires 0 <= i < k => Dot(m[i], x, n))
  }

  function Column(m: Matrix, j: nat, k: nat, n: nat): (c: Row)
    requires Shape(m, k, n) && j < n
    ensures |c| == k && forall i :: 0 <= i < k ==> c[i] == m[i][j]
  {
    seq(k, i requires 0 <= i < k => m[i][j])
  }

  // The row vector e times m.
  function RowTimes(e: Row, m: Matrix, k: nat, n: nat): (r: Row)
    requires Shape(m, k, n) && |e| == k
    ensures |r| == n && forall j :: 0 <= j < n ==> r[j] == Dot(Column(m, j, k, n), e, k)
  {
    seq(n, j requires 0 <= j < n => Dot(Column(m, j, k, n), e, k))
  }

  lemma {:induction false} DotCongruent(u: Row, v: Row, u': Row, v': Row, n: nat)
    requires n <= |u| && n <= |v| && n <= |u'| && n <= |v'|
    requires forall i :: 0 <= i < n ==> u[i] == u'[i] && v[i] == v'[i]
    ensures Dot(u, v, n) == Dot(u', v', n)
  {
    hide Add, Mul;
    if n > 0 {
      DotCongruent(u, v, u', v', n - 1);
    }
  }

  lemma {:induction false} DotComm(u: Row, v: Row, n: nat)
    requires n <= |u| && n <= |v|
    ensures Dot(u, v, n) == Dot(v, u, n)
  {
    hide Add, Mul;
    if n > 0 {
      DotComm(u, v, n - 1);
      MulComm(u[n - 1], v[n - 1]);
    }
  }

  lemma {:induction false} DotAddScaled(u: Row, t: bv8, p: Row, x: Row, n: nat)
    requires |p| == |u| && n <= |u| && n <= |x|
    ensures Dot(AddScaled(u, t, p), x, n) == Add(Dot(u, x, n), Mul(t, Dot(p, x, n)))
  {
    hide Add, Mul;
    if n == 0 {
      MulZero(t);
      AddLaws(0, 0);
    } else {
      var a, b, c := u[n - 1], p[n - 1], x[n - 1];
      DotAddScaled(u, t, p, x, n - 1);
      AddMul(a, Mul(t, b), c);
      MulAssoc(t, b, c);
      MulAdd(t, Dot(p, x, n - 1), Mul(b, c));
      AddSwap(Dot(u, x, n - 1), Mul(t, Dot(p, x, n - 1)), Mul(a, c), Mul(t, Mul(b, c)));
    }
  }

  lemma {:induction false} DotScale(u: Row, c: bv8, x: Row, n: nat)
    requires n <= |u| && n <= |x|
    ensures Dot(Scale(u, c), x, n) == Mul(c, Dot(u, x, n))
  {
    hide Add, Mul;
    if n == 0 {
      MulZero(c);
    } else {
      DotScale(u, c, x, n - 1);
      MulComm(u[n - 1], c);
      MulAssoc(c, u[n - 1], x[n - 1]);
      MulAdd(c, Dot(u, x, n - 1), Mul(u[n - 1], x[n - 1]));
    }
  }

  lemma {:induction false} DotZero(u: Row, x: Row, n: nat)
    requires n <= |u| && n <= |x|
    requires forall i :: 0 <= i < n ==> u[i] == 0 || x[i] == 0
    ensures Dot(u, x, n) == 0
  {
    hide Add, Mul;
    if n > 0 {
      DotZero(u, x, n - 1);
      MulNonzero(u[n - 1], x[n - 1]);
      AddLaws(0, 0);
    }
  }

  // Only one term of the sum is not zero.
  lemma {:induction false} DotSingle(u: Row, x: Row, n: nat, k: nat)
    requires k < n <= |u| && n <= |x|
    requires forall i :: 0 <= i < n && i != k ==> u[i] == 0 || x[i] == 0
    ensures Dot(u, x, n) == Mul(u[k], x[k])
  {
    hide Add, Mul;
    if k == n - 1 {
      DotZero(u, x, n - 1);
      AddLaws(Mul(u[k], x[k]), 0);
    } else {
      DotSingle(u, x, n - 1, k);
      MulNonzero(u[n - 1], x[n - 1]);
      AddLaws(Mul(u[k], x[k]), 0);
    }
  }

  lemma DotUnit(k: nat, x: Row, n: nat)
    requires k < n && n == |x|
    ensures Dot(Unit(k, n), x, n) == x[k] && Dot(x, Unit(k, n), n) == x[k]
  {
    hide Add, Mul;
    DotSingle(Unit(k, n), x, n, k);
    MulOne(x[k]);
    DotComm(x, Unit(k, n), n);
  }

  // The sum of e[i] times row i of m, for i < r.
  function Combination(e: Row, m: Matrix, r: nat, n: nat): (c: Row)
    requires Shape(m, r, n) && r <= |e|
    ensures |c| == n
  {
    if r == 0 then Zeros(n) else AddScaled(Combination(e, m, r - 1, n), e[r - 1], m[r - 1])
  }

  lemma {:induction false} CombinationAt(e: Row, m: Matrix, r: nat, k: nat, n: nat, j: nat)
    requires Shape(m, k, n) && r <= k == |e| && j < n
    ensures Combination(e, m, r, n)[j] == Dot(Column(m, j, k, n), e, r)
  {
    hide Add, Mul;
    if r > 0 {
      CombinationAt(e, m, r - 1, k, n, j);
      MulComm(e[r - 1], m[r - 1][j]);
    }
  }

  lemma {:induction false} DotCombination(e: Row, m: Matrix, r: nat, k: nat, n: nat, x: Row)
    requires Shape(m, k, n) && r <= k == |e| && |x| == n
    ensures Dot(Combination(e, m, r, n), x, n) == Dot(e, Apply(m, x, k, n), r)
  {
    hide Add, Mul;
    if r == 0 {
      DotZero(Zeros(n), x, n);
    } else {
      DotCombination(e, m, r - 1, k, n, x);
      DotAddScaled(Combination(e, m, r - 1, n), e[r - 1], m[r - 1], x, n);
    }
  }

  // (e * m) . x == e . (m * x)
  lemma RowTimesApply(e: Row, m: Matrix, k: nat, n: nat, x: Row)
    requires Shape(m, k, n) && |e| == k && |x| == n
    ensures Dot(RowTimes(e, m, k, n), x, n) == Dot(e, Apply(m, x, k, n), k)
  {
    forall j | 0 <= j < n
      ensures RowTimes(e, m, k, n)[j] == Combination(e, m, k, n)[j]
    {
      CombinationAt(e, m, k, k, n, j);
    }
    hide Add, Mul;
    assert RowTimes(e, m, k, n) == Combination(e, m, k, n);
    DotCombination(e, m, k, k, n, x);
  }
}
