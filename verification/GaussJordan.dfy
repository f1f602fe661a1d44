/** gf_invert_matrix: Gauss-Jordan elimination in place. */
module GaussJordan {
  import opened Galois
  import opened Linear

  function RowOf(a: array2<bv8>, i: nat): (r: Row)
    requires i < a.Length0
    reads a
    ensures |r| == a.Length1
    ensures forall j :: 0 <= j < a.Length1 ==> r[j] == a[i, j]
  {
    seq(a.Length1, j requires 0 <= j < a.Length1 reads a => a[i, j])
  }

  // The first k rows of a buffer of rows.
  function Rows(a: array2<bv8>, k: nat): (m: Matrix)
    requires k <= a.Length0
    reads a
    ensures |m| == k
    ensures forall i :: 0 <= i < k ==> m[i] == RowOf(a, i)
  {
    seq(k, i requires 0 <= i < k reads a => RowOf(a, i))
  }

  // x and y satisfy the linear system  left * x == right * y.
  ghost predicate Solves(left: Matrix, right: Matrix, n: nat, x: Row, y: Row)
    requires Shape(left, n, n) && Shape(right, n, n) && |x| == n && |y| == n
  {
    forall i :: 0 <= i < n ==> Dot(left[i], x, n) == Dot(right[i], y, n)
  }

  // The two systems have the same solutions.
  ghost predicate SameSystem(l: Matrix, r: Matrix, l': Matrix, r': Matrix, n: nat)
    requires Shape(l, n, n) && Shape(r, n, n) && Shape(l', n, n) && Shape(r', n, n)
  {
    forall x: Row, y: Row :: |x| == n && |y| == n ==>
      (Solves(l, r, n, x, y) <==> Solves(l', r', n, x, y))
  }

  ghost predicate Kernel(m: Matrix, n: nat, x: Row)
    requires Shape(m, n, n)
  {
    |x| == n && forall i :: 0 <= i < n ==> Dot(m[i], x, n) == 0
  }

  // The square matrix m maps only the zero vector to zero.
  ghost predicate Nonsingular(m: Matrix, n: nat)
    requires Shape(m, n, n)
  {
    forall x: Row :: Kernel(m, n, x) ==> x == Zeros(n)
  }

  // w undoes m, on either side.
  ghost predicate Inverse(m: Matrix, w: Matrix, n: nat)
    requires Shape(m, n, n) && Shape(w, n, n)
  {
    && (forall x: Row :: |x| == n ==> Apply(w, Apply(m, x, n, n), n, n) == x)
    && (forall y: Row :: |y| == n ==> Apply(m, Apply(w, y, n, n), n, n) == y)
  }

  function SwapRows(m: Matrix, i: nat, j: nat): (r: Matrix)
    requires i < |m| && j < |m|
    ensures |r| == |m|
  {
    m[i := m[j]][j := m[i]]
  }

  // Every row except the pivot row gets its own multiple of the pivot row added.
  function AddToRow(m: Matrix, i: nat, j: nat, t: bv8, n: nat): (r: Matrix)
    requires Shape(m, n, n) && i < n && j < n
    ensures Shape(r, n, n) && |r| == |m|
  {
    m[j := AddScaled(m[j], t, m[i])]
  }

  function ScaleRow(m: Matrix, i: nat, c: bv8, n: nat): (r: Matrix)
    requires Shape(m, n, n) && i < n
    ensures Shape(r, n, n) && |r| == |m|
  {
    m[i := Scale(m[i], c)]
  }

  lemma SwapKeepsSystem(l: Matrix, r: Matrix, i: nat, j: nat, n: nat)
    requires Shape(l, n, n) && Shape(r, n, n) && i < n && j < n
    ensures Shape(SwapRows(l, i, j), n, n) && Shape(SwapRows(r, i, j), n, n)
    ensures SameSystem(l, r, SwapRows(l, i, j), SwapRows(r, i, j), n)
  {
    hide Dot, Add, Mul;
    var l', r' := SwapRows(l, i, j), SwapRows(r, i, j);
    forall x: Row, y: Row | |x| == n && |y| == n
      ensures Solves(l, r, n, x, y) <==> Solves(l', r', n, x, y)
    {
      if Solves(l', r', n, x, y) {
        assert l'[i] == l[j] && l'[j] == l[i] && r'[i] == r[j] && r'[j] == r[i];
        forall k | 0 <= k < n ensures Dot(l[k], x, n) == Dot(r[k], y, n) {
          assert k != i && k != j ==> l'[k] == l[k] && r'[k] == r[k];
        }
      }
    }
  }

  lemma ScaleKeepsSystem(l: Matrix, r: Matrix, i: nat, c: bv8, n: nat)
    requires Shape(l, n, n) && Shape(r, n, n) && i < n && c != 0
    ensures SameSystem(l, r, ScaleRow(l, i, c, n), ScaleRow(r, i, c, n), n)
  {
    hide Dot, Add, Mul, Scale;
    var l', r' := ScaleRow(l, i, c, n), ScaleRow(r, i, c, n);
    forall x: Row, y: Row | |x| == n && |y| == n
      ensures Solves(l, r, n, x, y) <==> Solves(l', r', n, x, y)
    {
      DotScale(l[i], c, x, n);
      DotScale(r[i], c, y, n);
      if Solves(l', r', n, x, y) {
        assert Dot(l'[i], x, n) == Dot(r'[i], y, n);
        MulCancel(c, Dot(l[i], x, n), Dot(r[i], y, n));
        forall k | 0 <= k < n ensures Dot(l[k], x, n) == Dot(r[k], y, n) {
          assert k != i ==> l'[k] == l[k] && r'[k] == r[k];
        }
      }
    }
  }

  lemma AddKeepsSystem(l: Matrix, r: Matrix, i: nat, j: nat, t: bv8, n: nat)
    requires Shape(l, n, n) && Shape(r, n, n) && i < n && j < n && i != j
    ensures SameSystem(l, r, AddToRow(l, i, j, t, n), AddToRow(r, i, j, t, n), n)
  {
    hide Dot, Add, Mul, AddScaled;
    var l', r' := AddToRow(l, i, j, t, n), AddToRow(r, i, j, t, n);
    forall x: Row, y: Row | |x| == n && |y| == n
      ensures Solves(l, r, n, x, y) <==> Solves(l', r', n, x, y)
    {
      DotAddScaled(l[j], t, l[i], x, n);
      DotAddScaled(r[j], t, r[i], y, n);
      if Solves(l', r', n, x, y) {
        assert l'[i] == l[i] && r'[i] == r[i];
        assert Dot(l'[j], x, n) == Dot(r'[j], y, n);
        AddCancel(Dot(l[j], x, n), Dot(r[j], y, n), Mul(t, Dot(l[i], x, n)));
        forall k | 0 <= k < n ensures Dot(l[k], x, n) == Dot(r[k], y, n) {
          assert k != j ==> l'[k] == l[k] && r'[k] == r[k];
        }
      }
    }
  }

  lemma AddCancel(a: bv8, b: bv8, c: bv8)
    requires Add(a, c) == Add(b, c)
    ensures a == b
  {
    hide Add;
    AddLaws(c, a);
    AddLaws(c, b);
  }

  // With the left half reduced to the identity, the system reads  x == r * y.
  lemma FinishedSystem(m: Matrix, l: Matrix, r: Matrix, n: nat, x: Row, y: Row)
    requires Shape(m, n, n) && Shape(l, n, n) && Shape(r, n, n) && |x| == n && |y| == n
    requires SameSystem(m, Identity(n), l, r, n)
    requires forall i :: 0 <= i < n ==> l[i] == Unit(i, n)
    ensures Apply(m, x, n, n) == y <==> Apply(r, y, n, n) == x
  {
    hide Dot, Add, Mul, Unit;
    forall i | 0 <= i < n
      ensures Dot(Identity(n)[i], y, n) == y[i] && Dot(l[i], x, n) == x[i]
    {
      DotUnit(i, y, n);
      DotUnit(i, x, n);
    }
    var mx, ry := Apply(m, x, n, n), Apply(r, y, n, n);
    assert Solves(m, Identity(n), n, x, y) <==> forall i :: 0 <= i < n ==> mx[i] == y[i];
    assert Solves(l, r, n, x, y) <==> forall i :: 0 <= i < n ==> x[i] == ry[i];
  }

  lemma ApplyZeros(m: Matrix, n: nat)
    requires Shape(m, n, n)
    ensures Apply(m, Zeros(n), n, n) == Zeros(n)
  {
    hide Dot;
    forall i | 0 <= i < n ensures Dot(m[i], Zeros(n), n) == 0 {
      DotZero(m[i], Zeros(n), n);
    }
  }

  lemma FinishedInverse(m: Matrix, l: Matrix, r: Matrix, n: nat)
    requires Shape(m, n, n) && Shape(l, n, n) && Shape(r, n, n)
    requires SameSystem(m, Identity(n), l, r, n)
    requires forall i :: 0 <= i < n ==> l[i] == Unit(i, n)
    ensures Inverse(m, r, n)
  {
    hide Dot, Unit, SameSystem;
    forall x: Row | |x| == n ensures Apply(r, Apply(m, x, n, n), n, n) == x {
      FinishedSystem(m, l, r, n, x, Apply(m, x, n, n));
    }
    forall y: Row | |y| == n ensures Apply(m, Apply(r, y, n, n), n, n) == y {
      FinishedSystem(m, l, r, n, Apply(r, y, n, n), y);
    }
  }

  lemma InverseNonsingular(m: Matrix, w: Matrix, n: nat)
    requires Shape(m, n, n) && Shape(w, n, n) && Inverse(m, w, n)
    ensures Nonsingular(m, n)
  {
    hide Dot;
    ApplyZeros(w, n);
    forall x: Row | Kernel(m, n, x) ensures x == Zeros(n) {
      assert Apply(m, x, n, n) == Zeros(n);
    }
  }

  // No pivot in column c: the entries above it, completed by a 1, are in the kernel.
  lemma StuckKernel(m: Matrix, l: Matrix, r: Matrix, n: nat, c: nat) returns (x: Row)
    requires Shape(m, n, n) && Shape(l, n, n) && Shape(r, n, n) && c < n
    requires SameSystem(m, Identity(n), l, r, n)
    requires forall i, j :: 0 <= i < n && 0 <= j < c ==> l[i][j] == if i == j then 1 else 0
    requires forall i :: c <= i < n ==> l[i][c] == 0
    ensures Kernel(m, n, x) && x[c] == 1
  {
    hide Dot, Add, Mul;
    x := seq(n, i requires 0 <= i < n => if i < c then l[i][c] else if i == c then 1 else 0);
    forall i | 0 <= i < n ensures Dot(l[i], x, n) == 0 {
      StuckRow(l, n, c, i, x);
    }
    forall i | 0 <= i < n
      ensures Dot(r[i], Zeros(n), n) == 0 && Dot(Identity(n)[i], Zeros(n), n) == 0
    {
      DotZero(r[i], Zeros(n), n);
      DotZero(Identity(n)[i], Zeros(n), n);
    }
    assert Solves(l, r, n, x, Zeros(n));
    assert Solves(m, Identity(n), n, x, Zeros(n));
  }

  lemma StuckRow(l: Matrix, n: nat, c: nat, i: nat, x: Row)
    requires Shape(l, n, n) && c < n && i < n
    requires forall j :: 0 <= j < c ==> l[i][j] == if i == j then 1 else 0
    requires c <= i ==> l[i][c] == 0
    requires |x| == n && forall j :: 0 <= j < n ==>
               x[j] == if j < c then l[j][c] else if j == c then 1 else 0
    ensures Dot(l[i], x, n) == 0
  {
    hide Dot, Add, Mul;
    if c <= i {
      DotZero(l[i], x, n);
    } else {
      // the pivot term and the term of column c cancel
      DotTwo(l[i], x, n, i, c);
      MulOne(x[i]);
      MulOne(l[i][c]);
      AddLaws(x[i], x[i]);
    }
  }

  // Only two terms of the sum are not zero.
  lemma {:induction false} DotTwo(u: Row, x: Row, n: nat, k: nat, k': nat)
    requires k < k' < n <= |u| && n <= |x|
    requires forall i :: 0 <= i < n && i != k && i != k' ==> u[i] == 0 || x[i] == 0
    ensures Dot(u, x, n) == Add(Mul(u[k], x[k]), Mul(u[k'], x[k']))
  {
    hide Add, Mul;
    if k' == n - 1 {
      DotSingle(u, x, n - 1, k);
    } else {
      DotTwo(u, x, n - 1, k, k');
      MulNonzero(u[n - 1], x[n - 1]);
      AddLaws(Add(Mul(u[k], x[k]), Mul(u[k'], x[k'])), 0);
    }
  }

  // ---- the elimination, as matrix steps ----

  // The first c columns are those of the identity.
  ghost predicate UnitColumns(m: Matrix, n: nat, c: nat)
    requires Shape(m, n, n) && c <= n
  {
    forall i, j :: 0 <= i < n && 0 <= j < c ==> m[i][j] == if i == j then 1 else 0
  }

  lemma SwapKeepsColumns(m: Matrix, n: nat, c: nat, j: nat)
    requires Shape(m, n, n) && c < j < n && UnitColumns(m, n, c)
    ensures Shape(SwapRows(m, c, j), n, n) && UnitColumns(SwapRows(m, c, j), n, c)
  {
  }

  lemma ScaleKeepsColumns(m: Matrix, n: nat, c: nat, t: bv8)
    requires Shape(m, n, n) && c < n && UnitColumns(m, n, c)
    ensures UnitColumns(ScaleRow(m, c, t, n), n, c)
  {
    hide Mul;
    MulZero(t);
  }

  lemma AddKeepsColumns(m: Matrix, n: nat, c: nat, j: nat, t: bv8)
    requires Shape(m, n, n) && c < n && j < n && j != c && UnitColumns(m, n, c)
    ensures UnitColumns(AddToRow(m, c, j, t, n), n, c)
  {
    hide Mul, Add;
    MulZero(t);
    AddLaws(0, 0);
    AddLaws(1, 0);
  }

  lemma AddClearsEntry(m: Matrix, n: nat, c: nat, j: nat)
    requires Shape(m, n, n) && c < n && j < n && m[c][c] == 1
    ensures AddToRow(m, c, j, m[j][c], n)[j][c] == 0
  {
    hide Mul, Add;
    MulOne(m[j][c]);
    AddLaws(m[j][c], 0);
  }

  // ---- the elimination, on the buffers ----

  // for (k = 0; k < n; k++) exchange the entries of rows i and j
  method SwapBufferRows(inMat: array2<bv8>, outMat: array2<bv8>, n: nat, i: nat, j: nat)
    requires inMat != outMat && i < j < n
    requires inMat.Length0 >= n == inMat.Length1 && outMat.Length0 >= n == outMat.Length1
    modifies inMat, outMat
    ensures Rows(inMat, n) == SwapRows(old(Rows(inMat, n)), i, j)
    ensures Rows(outMat, n) == SwapRows(old(Rows(outMat, n)), i, j)
  {
    for k := 0 to n
      invariant forall r, c :: 0 <= r < n && 0 <= c < n ==>
        inMat[r, c] == old(inMat[if c >= k then r else if r == i then j else if r == j then i else r, c])
      invariant forall r, c :: 0 <= r < n && 0 <= c < n ==>
        outMat[r, c] == old(outMat[if c >= k then r else if r == i then j else if r == j then i else r, c])
    {
      var temp := inMat[i, k];
      inMat[i, k] := inMat[j, k];
      inMat[j, k] := temp;
      temp := outMat[i, k];
      outMat[i, k] := outMat[j, k];
      outMat[j, k] := temp;
    }
    assert forall r :: 0 <= r < n ==> Rows(inMat, n)[r] == SwapRows(old(Rows(inMat, n)), i, j)[r];
    assert forall r :: 0 <= r < n ==> Rows(outMat, n)[r] == SwapRows(old(Rows(outMat, n)), i, j)[r];
  }

  // for (j = 0; j < n; j++) scale the entries of row i
  method ScaleBufferRow(inMat: array2<bv8>, outMat: array2<bv8>, n: nat, i: nat, temp: bv8)
    requires inMat != outMat && i < n
    requires inMat.Length0 >= n == inMat.Length1 && outMat.Length0 >= n == outMat.Length1
    modifies inMat, outMat
    ensures Rows(inMat, n) == ScaleRow(old(Rows(inMat, n)), i, temp, n)
    ensures Rows(outMat, n) == ScaleRow(old(Rows(outMat, n)), i, temp, n)
  {
    hide Mul, GfMul;
    for j := 0 to n
      invariant forall r, c :: 0 <= r < n && 0 <= c < n ==>
        inMat[r, c] == if r == i && c < j then Mul(old(inMat[r, c]), temp) else old(inMat[r, c])
      invariant forall r, c :: 0 <= r < n && 0 <= c < n ==>
        outMat[r, c] == if r == i && c < j then Mul(old(outMat[r, c]), temp) else old(outMat[r, c])
    {
      GfMulIsMul(inMat[i, j], temp);
      GfMulIsMul(outMat[i, j], temp);
      inMat[i, j] := GfMul(inMat[i, j], temp);
      outMat[i, j] := GfMul(outMat[i, j], temp);
    }
    assert forall r :: 0 <= r < n ==> Rows(inMat, n)[r] == ScaleRow(old(Rows(inMat, n)), i, temp, n)[r];
    assert forall r :: 0 <= r < n ==> Rows(outMat, n)[r] == ScaleRow(old(Rows(outMat, n)), i, temp, n)[r];
  }

  // for (k = 0; k < n; k++) add temp times row i to row j
  method AddToBufferRow(inMat: array2<bv8>, outMat: array2<bv8>, n: nat, i: nat, j: nat, temp: bv8)
    requires inMat != outMat && i < n && j < n && i != j
    requires inMat.Length0 >= n == inMat.Length1 && outMat.Length0 >= n == outMat.Length1
    modifies inMat, outMat
    ensures Rows(inMat, n) == AddToRow(old(Rows(inMat, n)), i, j, temp, n)
    ensures Rows(outMat, n) == AddToRow(old(Rows(outMat, n)), i, j, temp, n)
  {
    hide Mul, GfMul;
    for k := 0 to n
      invariant forall r, c :: 0 <= r < n && 0 <= c < n ==>
        inMat[r, c] == if r == j && c < k then Add(old(inMat[r, c]), Mul(temp, old(inMat[i, c])))
                       else old(inMat[r, c])
      invariant forall r, c :: 0 <= r < n && 0 <= c < n ==>
        outMat[r, c] == if r == j && c < k then Add(old(outMat[r, c]), Mul(temp, old(outMat[i, c])))
                        else old(outMat[r, c])
    {
      GfMulIsMul(temp, outMat[i, k]);
      GfMulIsMul(temp, inMat[i, k]);
      outMat[j, k] := outMat[j, k] ^ GfMul(temp, outMat[i, k]);
      inMat[j, k] := inMat[j, k] ^ GfMul(temp, inMat[i, k]);
    }
    assert forall r :: 0 <= r < n ==> Rows(inMat, n)[r] == AddToRow(old(Rows(inMat, n)), i, j, temp, n)[r];
    assert forall r :: 0 <= r < n ==> Rows(outMat, n)[r] == AddToRow(old(Rows(outMat, n)), i, j, temp, n)[r];
  }

  // for (j = 0; j < n; j++) clear column i of every row but row i
  method ClearColumn(inMat: array2<bv8>, outMat: array2<bv8>, n: nat, i: nat, ghost m: Matrix)
    requires inMat != outMat && i < n && Shape(m, n, n)
    requires inMat.Length0 >= n == inMat.Length1 && outMat.Length0 >= n == outMat.Length1
    requires SameSystem(m, Identity(n), Rows(inMat, n), Rows(outMat, n), n)
    requires UnitColumns(Rows(inMat, n), n, i) && inMat[i, i] == 1
    modifies inMat, outMat
    ensures SameSystem(m, Identity(n), Rows(inMat, n), Rows(outMat, n), n)
    ensures UnitColumns(Rows(inMat, n), n, i + 1)
  {
    hide Mul, Add, Solves;
    for j := 0 to n
      invariant SameSystem(m, Identity(n), Rows(inMat, n), Rows(outMat, n), n)
      invariant UnitColumns(Rows(inMat, n), n, i) && Rows(inMat, n)[i][i] == 1
      invariant forall r :: 0 <= r < j && r != i ==> Rows(inMat, n)[r][i] == 0
    {
      if j == i {
        continue;
      }
      ghost var l, r := Rows(inMat, n), Rows(outMat, n);
      var temp := inMat[j, i];
      AddToBufferRow(inMat, outMat, n, i, j, temp);
      AddKeepsSystem(l, r, i, j, temp, n);
      AddKeepsColumns(l, n, i, j, temp);
      AddClearsEntry(l, n, i, j);
    }
  }

  // out_mat starts as the identity matrix.
  method SetIdentity(outMat: array2<bv8>, n: nat)
    requires outMat.Length0 >= n == outMat.Length1
    modifies outMat
    ensures Rows(outMat, n) == Identity(n)
  {
    for i := 0 to n
      invariant forall r, c :: 0 <= r < i && 0 <= c < n ==> outMat[r, c] == 0
    {
      for j := 0 to n
        invariant forall r, c :: 0 <= r < i && 0 <= c < n ==> outMat[r, c] == 0
        invariant forall c :: 0 <= c < j ==> outMat[i, c] == 0
      {
        outMat[i, j] := 0;
      }
    }
    for i := 0 to n
      invariant forall r, c :: 0 <= r < n && 0 <= c < n ==>
        outMat[r, c] == if r == c && r < i then 1 else 0
    {
      outMat[i, i] := 1;
    }
    assert forall i :: 0 <= i < n ==> Rows(outMat, n)[i] == Unit(i, n);
  }

  // The first row from i on with a nonzero entry in column i, or n.
  method FindPivot(inMat: array2<bv8>, n: nat, i: nat) returns (j: nat)
    requires inMat.Length0 >= n == inMat.Length1 && i < n
    ensures i <= j <= n
    ensures forall p :: i <= p < j ==> inMat[p, i] == 0
    ensures j < n ==> inMat[j, i] != 0
  {
    if inMat[i, i] != 0 {
      return i;
    }
    j := i + 1;
    while j < n && inMat[j, i] == 0
      invariant i < j <= n
      invariant forall p :: i <= p < j ==> inMat[p, i] == 0
    {
      j := j + 1;
    }
  }

  // Bring a row with a nonzero entry in column i to row i, if there is one.
  method BringPivot(inMat: array2<bv8>, outMat: array2<bv8>, n: nat, i: nat, ghost m: Matrix)
    returns (found: bool)
    requires inMat != outMat && i < n && Shape(m, n, n)
    requires inMat.Length0 >= n == inMat.Length1 && outMat.Length0 >= n == outMat.Length1
    requires SameSystem(m, Identity(n), Rows(inMat, n), Rows(outMat, n), n)
    requires UnitColumns(Rows(inMat, n), n, i)
    modifies inMat, outMat
    ensures SameSystem(m, Identity(n), Rows(inMat, n), Rows(outMat, n), n)
    ensures UnitColumns(Rows(inMat, n), n, i)
    ensures found ==> inMat[i, i] != 0
    ensures !found ==> forall p :: i <= p < n ==> inMat[p, i] == 0
  {
    hide Solves, Identity;
    ghost var l, r := Rows(inMat, n), Rows(outMat, n);
    var j := FindPivot(inMat, n, i);
    if i < j < n {
      SwapBufferRows(inMat, outMat, n, i, j);
      SwapKeepsSystem(l, r, i, j, n);
      SwapKeepsColumns(l, n, i, j);
      assert inMat[i, i] == Rows(inMat, n)[i][i] == l[j][i];
    }
    return j < n;
  }

  // Scale row i so that its pivot becomes 1.
  method ScalePivot(inMat: array2<bv8>, outMat: array2<bv8>, n: nat, i: nat, ghost m: Matrix)
    requires inMat != outMat && i < n && Shape(m, n, n)
    requires inMat.Length0 >= n == inMat.Length1 && outMat.Length0 >= n == outMat.Length1
    requires SameSystem(m, Identity(n), Rows(inMat, n), Rows(outMat, n), n)
    requires UnitColumns(Rows(inMat, n), n, i) && inMat[i, i] != 0
    modifies inMat, outMat
    ensures SameSystem(m, Identity(n), Rows(inMat, n), Rows(outMat, n), n)
    ensures UnitColumns(Rows(inMat, n), n, i) && inMat[i, i] == 1
  {
    hide Mul, Solves, GfInv, Identity;
    ghost var l, r := Rows(inMat, n), Rows(outMat, n);
    var temp := GfInv(inMat[i, i]);
    MulInv(inMat[i, i]);
    ScaleBufferRow(inMat, outMat, n, i, temp);
    ScaleKeepsSystem(l, r, i, temp, n);
    ScaleKeepsColumns(l, n, i, temp);
    assert inMat[i, i] == Rows(inMat, n)[i][i] == Mul(l[i][i], temp);
  }

  // gf_invert_matrix: 0 and the inverse, or -1 and a nonzero kernel vector.
  method GfInvertMatrix(inMat: array2<bv8>, outMat: array2<bv8>, n: nat)
    returns (result: int, ghost kernel: Row)
    requires inMat != outMat
    requires inMat.Length0 >= n == inMat.Length1 && outMat.Length0 >= n == outMat.Length1
    modifies inMat, outMat
    ensures result == 0 || result == -1
    ensures result == 0 ==> Inverse(old(Rows(inMat, n)), Rows(outMat, n), n)
    ensures result == 0 ==> Rows(inMat, n) == Identity(n)
    ensures result == -1 ==> Kernel(old(Rows(inMat, n)), n, kernel) && kernel != Zeros(n)
    ensures result == 0 <==> Nonsingular(old(Rows(inMat, n)), n)
  {
    hide Solves, SameSystem, Dot, Inverse;
    ghost var m := Rows(inMat, n);
    SetIdentity(outMat, n);
    assert SameSystem(m, Identity(n), Rows(inMat, n), Rows(outMat, n), n) by {
      SameSystemReflexive(m, Identity(n), n);
    }
    for i := 0 to n
      invariant SameSystem(m, Identity(n), Rows(inMat, n), Rows(outMat, n), n)
      invariant UnitColumns(Rows(inMat, n), n, i)
    {
      var found := BringPivot(inMat, outMat, n, i, m);
      if !found {
        kernel := StuckKernel(m, Rows(inMat, n), Rows(outMat, n), n, i);
        return -1, kernel;
      }
      ScalePivot(inMat, outMat, n, i, m);
      ClearColumn(inMat, outMat, n, i, m);
    }
    assert forall i :: 0 <= i < n ==> Rows(inMat, n)[i] == Unit(i, n);
    FinishedInverse(m, Rows(inMat, n), Rows(outMat, n), n);
    InverseNonsingular(m, Rows(outMat, n), n);
    return 0, [];
  }

  lemma SameSystemReflexive(l: Matrix, r: Matrix, n: nat)
    requires Shape(l, n, n) && Shape(r, n, n)
    ensures SameSystem(l, r, l, r, n)
  {
  }

  lemma ApplyUnit(m: Matrix, n: nat, j: nat)
    requires Shape(m, n, n) && j < n
    ensures Apply(m, Unit(j, n), n, n) == Column(m, j, n, n)
  {
    hide Dot, Unit;
    forall k | 0 <= k < n ensures Dot(m[k], Unit(j, n), n) == m[k][j] {
      DotUnit(j, m[k], n);
    }
  }

  // Undoing a matrix on both sides is multiplying to the identity on both sides.
  lemma InverseProducts(m: Matrix, w: Matrix, n: nat, i: nat, j: nat)
    requires Shape(m, n, n) && Shape(w, n, n) && Inverse(m, w, n) && i < n && j < n
    ensures Dot(w[i], Column(m, j, n, n), n) == if i == j then 1 else 0
    ensures Dot(m[i], Column(w, j, n, n), n) == if i == j then 1 else 0
  {
    hide Dot, Column;
    ApplyUnit(m, n, j);
    ApplyUnit(w, n, j);
    var a := Apply(w, Apply(m, Unit(j, n), n, n), n, n);
    var b := Apply(m, Apply(w, Unit(j, n), n, n), n, n);
    hide Inverse, Unit;
    assert a[i] == Unit(j, n)[i] && b[i] == Unit(j, n)[i];
  }
}
