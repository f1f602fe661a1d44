/** are_submatrices_singular and gen_sub_matrix. */
module Submatrices {
  import opened Rfc1951
  import opened Bits
  import opened Linear
  import opened GaussJordan
  import opened Gosper

  // indicator & (1 << i)
  predicate InSubset(indicator: nat, i: nat) {
    BitAnd(indicator, Pow2(i)) != 0
  }

  // The elements of a subset below n, in increasing order.
  function Members(indicator: nat, n: nat): (s: seq<nat>)
    ensures |s| <= n && forall i :: 0 <= i < |s| ==> s[i] < n && InSubset(indicator, s[i])
    ensures forall i, j :: 0 <= i < j < |s| ==> s[i] < s[j]
    ensures forall x :: 0 <= x < n && InSubset(indicator, x) ==> x in s
  {
    if n == 0 then []
    else Members(indicator, n - 1) + (if InSubset(indicator, n - 1) then [n - 1] else [])
  }

  lemma {:induction false} InSubsetBit(x: nat, i: nat)
    ensures InSubset(x, i) <==> Shr(x, i) % 2 == 1
  {
    if i > 0 {
      InSubsetBit(x / 2, i - 1);
      if x > 0 {
        assert BitAnd(x, Pow2(i)) == 2 * BitAnd(x / 2, Pow2(i - 1)) + (if x % 2 == 1 && Pow2(i) % 2 == 1 then 1 else 0);
      } else {
        ShrZero(i);
      }
    } else {
      assert BitAnd(0, 0) == 0;
      assert x > 0 ==> BitAnd(x, 1) == 2 * BitAnd(x / 2, 0) + (if x % 2 == 1 then 1 else 0);
    }
  }

  lemma {:induction false} ShrZero(i: nat)
    ensures Shr(0, i) == 0
  {
    if i > 0 {
      ShrZero(i - 1);
    }
  }

  lemma {:induction false} LowSplit(x: nat, n: nat)
    ensures Low(x, n + 1) == Low(x, n) + Shl(Shr(x, n) % 2, n)
  {
    if n > 0 {
      LowSplit(x / 2, n - 1);
    }
  }

  lemma LowMore(x: nat, n: nat)
    ensures Ones(Low(x, n + 1)) == Ones(Low(x, n)) + Shr(x, n) % 2
  {
    LowSplit(x, n);
    OnesJoined(Low(x, n), Shr(x, n) % 2, n);
    OnesEven(0);
  }

  lemma {:induction false} MembersLow(x: nat, n: nat)
    ensures |Members(x, n)| == Ones(Low(x, n))
  {
    hide InSubset, Ones, Shr;
    if n > 0 {
      MembersLow(x, n - 1);
      hide Low;
      LowMore(x, n - 1);
      InSubsetBit(x, n - 1);
    } else {
      NoOnes();
    }
  }

  lemma NoOnes()
    ensures Ones(0) == 0
  {
  }

  // A subset of n elements has as many members as its word has ones.
  lemma MembersCount(x: nat, n: nat)
    requires x < Pow2(n)
    ensures |Members(x, n)| == Ones(x)
  {
    MembersLow(x, n);
    LowSmall(x, n);
  }

  // ---- the submatrix of two subsets ----

  function SubMatrix(v: Matrix, rows: nat, cols: nat, r: nat, c: nat): (m: Matrix)
    requires Shape(v, rows, cols)
    ensures |m| == |Members(r, rows)|
    ensures forall i :: 0 <= i < |m| ==> |m[i]| == |Members(c, cols)|
  {
    var rs, cs := Members(r, rows), Members(c, cols);
    seq(|rs|, i requires 0 <= i < |rs| => seq(|cs|, j requires 0 <= j < |cs| => v[rs[i]][cs[j]]))
  }

  // The inner loop of gen_sub_matrix: one row of the submatrix.
  method GenSubRow(outMatrix: array2<bv8>, inMatrix: array2<bv8>, i: nat, r: nat, cols: nat, colIndicator: nat)
    requires outMatrix != inMatrix && r < outMatrix.Length0 && i < inMatrix.Length0 && cols == inMatrix.Length1
    requires |Members(colIndicator, cols)| == outMatrix.Length1
    modifies outMatrix
    ensures forall s :: 0 <= s < outMatrix.Length1 ==> outMatrix[r, s] == inMatrix[i, Members(colIndicator, cols)[s]]
    ensures forall q, s :: 0 <= q < outMatrix.Length0 && 0 <= s < outMatrix.Length1 && q != r ==>
              outMatrix[q, s] == old(outMatrix[q, s])
  {
    hide InSubset, Members;
    ghost var cs := Members(colIndicator, cols);
    var s := 0;
    NoMembers(colIndicator);
    for j := 0 to cols
      invariant s == |Members(colIndicator, j)|
      invariant forall t :: 0 <= t < s && t < outMatrix.Length1 ==> outMatrix[r, t] == inMatrix[i, cs[t]]
      invariant forall q, t :: 0 <= q < outMatrix.Length0 && 0 <= t < outMatrix.Length1 && q != r ==>
                  outMatrix[q, t] == old(outMatrix[q, t])
    {
      MembersPrefix(colIndicator, j, cols);
      if InSubset(colIndicator, j) {
        outMatrix[r, s] := inMatrix[i, j];
        s := s + 1;
      }
    }
  }

  lemma NoMembers(x: nat)
    ensures Members(x, 0) == []
  {
  }

  lemma {:induction false} MembersPrefix(x: nat, j: nat, n: nat)
    requires j < n
    ensures Members(x, j + 1) == Members(x, j) + (if InSubset(x, j) then [j] else [])
    ensures Members(x, j + 1) <= Members(x, n)
    ensures InSubset(x, j) ==> |Members(x, j)| < |Members(x, n)| && Members(x, n)[|Members(x, j)|] == j
  {
    hide InSubset;
    if j + 1 < n {
      MembersPrefix(x, j, n - 1);
    }
  }

  method GenSubMatrix(outMatrix: array2<bv8>, dim: nat, inMatrix: array2<bv8>, rows: nat, cols: nat,
                      rowIndicator: nat, colIndicator: nat)
    requires outMatrix != inMatrix && outMatrix.Length0 == dim == outMatrix.Length1
    requires rows == inMatrix.Length0 && cols == inMatrix.Length1
    requires |Members(rowIndicator, rows)| == dim == |Members(colIndicator, cols)|
    modifies outMatrix
    ensures Shape(Rows(inMatrix, rows), rows, cols)
    ensures Rows(outMatrix, dim) == SubMatrix(Rows(inMatrix, rows), rows, cols, rowIndicator, colIndicator)
  {
    hide InSubset, Members;
    ghost var rs, cs := Members(rowIndicator, rows), Members(colIndicator, cols);
    var r := 0;
    NoMembers(rowIndicator);
    for i := 0 to rows
      invariant r == |Members(rowIndicator, i)|
      invariant forall q, s :: 0 <= q < r && q < dim && 0 <= s < dim ==> outMatrix[q, s] == inMatrix[rs[q], cs[s]]
    {
      MembersPrefix(rowIndicator, i, rows);
      if InSubset(rowIndicator, i) {
        GenSubRow(outMatrix, inMatrix, i, r, cols, colIndicator);
        r := r + 1;
      }
    }
    SubMatrixIs(outMatrix, dim, inMatrix, rows, cols, rowIndicator, colIndicator);
  }

  lemma SubMatrixIs(outMatrix: array2<bv8>, dim: nat, inMatrix: array2<bv8>, rows: nat, cols: nat, r: nat, c: nat)
    requires outMatrix.Length0 == dim == outMatrix.Length1 && rows == inMatrix.Length0 && cols == inMatrix.Length1
    requires |Members(r, rows)| == dim == |Members(c, cols)|
    requires forall q, s :: 0 <= q < dim && 0 <= s < dim ==>
               outMatrix[q, s] == inMatrix[Members(r, rows)[q], Members(c, cols)[s]]
    ensures Shape(Rows(inMatrix, rows), rows, cols)
    ensures Rows(outMatrix, dim) == SubMatrix(Rows(inMatrix, rows), rows, cols, r, c)
  {
    hide Members;
    var m, w := SubMatrix(Rows(inMatrix, rows), rows, cols, r, c), Rows(outMatrix, dim);
    forall q | 0 <= q < dim ensures w[q] == m[q] {
      assert w[q] == RowOf(outMatrix, q);
    }
  }

  // ---- the search ----

  ghost predicate OfSize(x: nat, n: nat, d: nat) {
    x < Pow2(n) && Ones(x) == d
  }

  // The submatrix of these rows and columns is not singular, if they are d each.
  ghost predicate Regular(v: Matrix, rows: nat, cols: nat, d: nat, r: nat, c: nat)
    requires Shape(v, rows, cols)
  {
    OfSize(r, rows, d) && OfSize(c, cols, d) ==>
      (MembersCount(r, rows);
       MembersCount(c, cols);
       Nonsingular(SubMatrix(v, rows, cols, r, c), d))
  }

  ghost predicate RegularColumns(v: Matrix, rows: nat, cols: nat, d: nat, c: nat)
    requires Shape(v, rows, cols)
  {
    forall r: nat :: Regular(v, rows, cols, d, r, c)
  }

  ghost predicate RegularSize(v: Matrix, rows: nat, cols: nat, d: nat)
    requires Shape(v, rows, cols)
  {
    forall c: nat :: RegularColumns(v, rows, cols, d, c)
  }

  // subset_init, the least subset of its size
  lemma FirstSubset(d: nat, n: nat)
    requires d <= n
    ensures OfSize(Pow2(d) - 1, n, d)
    ensures forall x: nat :: x < Pow2(d) - 1 ==> Ones(x) != d
  {
    OnesRun(d);
    Pow2Monotone(d, n);
    forall x: nat | Ones(x) == d ensures x >= Pow2(d) - 1 {
      LeastWithOnes(x);
    }
  }

  // gen_sub_matrix and gf_invert_matrix for one choice
  method CheckOne(vmatrix: array2<bv8>, rows: nat, cols: nat, d: nat, r: nat, c: nat) returns (singular: bool)
    requires rows == vmatrix.Length0 && cols == vmatrix.Length1
    requires OfSize(r, rows, d) && OfSize(c, cols, d)
    ensures Shape(Rows(vmatrix, rows), rows, cols)
    ensures singular <==> !Regular(Rows(vmatrix, rows), rows, cols, d, r, c)
  {
    hide Members, Nonsingular, SubMatrix, Ones, Pow2, Inverse, Kernel;
    MembersCount(r, rows);
    MembersCount(c, cols);
    var matrix := new bv8[d, d];
    var inverse := new bv8[d, d];
    GenSubMatrix(matrix, d, vmatrix, rows, cols, r, c);
    var result, kernel := GfInvertMatrix(matrix, inverse, d);
    singular := result != 0;
  }

  lemma SubsetsPassed(v: Matrix, rows: nat, cols: nat, d: nat, c: nat, row: nat)
    requires Shape(v, rows, cols) && forall r: nat :: r <= row ==> Regular(v, rows, cols, d, r, c)
    requires forall y: nat :: row < y && Ones(y) == d ==> y >= Pow2(rows)
    ensures RegularColumns(v, rows, cols, d, c)
  {
    hide Nonsingular, SubMatrix, Ones, Pow2;
    forall r: nat ensures Regular(v, rows, cols, d, r, c) {
      if r > row {
        assert !OfSize(r, rows, d);
      }
    }
  }

  lemma RegularBetween(v: Matrix, rows: nat, cols: nat, d: nat, c: nat, row: nat, next: nat)
    requires Shape(v, rows, cols) && forall r: nat :: r <= row ==> Regular(v, rows, cols, d, r, c)
    requires Ones(row) == d && NextOfSize(row, next)
    ensures forall r: nat :: r < next ==> Regular(v, rows, cols, d, r, c)
  {
    hide Nonsingular, SubMatrix, Ones, Pow2;
    forall r: nat | r < next ensures Regular(v, rows, cols, d, r, c) {
      if r > row {
        assert !OfSize(r, rows, d);
      }
    }
  }

  lemma NoneBelowFirst(v: Matrix, rows: nat, cols: nat, d: nat, c: nat)
    requires Shape(v, rows, cols) && d <= rows
    ensures forall r: nat :: r < Pow2(d) - 1 ==> Regular(v, rows, cols, d, r, c)
  {
    hide Nonsingular, SubMatrix;
    FirstSubset(d, rows);
  }

  // The inner do loop: all choices of rows for one choice of columns.
  method CheckRows(vmatrix: array2<bv8>, rows: nat, cols: nat, d: nat, c: nat) returns (singular: bool, ghost r: nat)
    requires rows == vmatrix.Length0 && cols == vmatrix.Length1
    requires 1 <= d <= rows <= MAX_CHECK && OfSize(c, cols, d)
    ensures Shape(Rows(vmatrix, rows), rows, cols)
    ensures singular ==> !Regular(Rows(vmatrix, rows), rows, cols, d, r, c)
    ensures !singular ==> RegularColumns(Rows(vmatrix, rows), rows, cols, d, c)
  {
    hide Regular, Ones, Pow2, NextOfSize;
    ghost var v := Rows(vmatrix, rows);
    FirstSubset(d, rows);
    NoneBelowFirst(v, rows, cols, d, c);
    var row := Pow2(d) - 1;
    while true
      invariant OfSize(row, rows, d)
      invariant forall r: nat :: r < row ==> Regular(v, rows, cols, d, r, c)
      decreases Pow2(rows) - row
    {
      singular := CheckOne(vmatrix, rows, cols, d, row, c);
      if singular {
        return true, row;
      }
      var next, overflow := NextSubset(row, rows, d);
      if overflow != 0 {
        SubsetsPassed(v, rows, cols, d, c, row);
        return false, 0;
      }
      RegularBetween(v, rows, cols, d, c, row, next);
      NextLarger(row, next);
      row := next;
    }
  }

  lemma NextLarger(x: nat, next: nat)
    requires NextOfSize(x, next)
    ensures x < next && Ones(next) == Ones(x)
  {
  }

  lemma ColumnsOutside(v: Matrix, rows: nat, cols: nat, d: nat, c: nat)
    requires Shape(v, rows, cols) && !OfSize(c, cols, d)
    ensures RegularColumns(v, rows, cols, d, c)
  {
  }

  // The outer do loop: all choices of columns.
  method CheckSize(vmatrix: array2<bv8>, rows: nat, cols: nat, d: nat)
    returns (singular: bool, ghost r: nat, ghost c: nat)
    requires rows == vmatrix.Length0 && cols == vmatrix.Length1
    requires 1 <= d <= rows <= MAX_CHECK && d <= cols <= MAX_CHECK
    ensures Shape(Rows(vmatrix, rows), rows, cols)
    ensures singular ==> !Regular(Rows(vmatrix, rows), rows, cols, d, r, c)
    ensures !singular ==> RegularSize(Rows(vmatrix, rows), rows, cols, d)
  {
    hide Regular, RegularColumns, Ones, Pow2, NextOfSize;
    ghost var v := Rows(vmatrix, rows);
    FirstSubset(d, cols);
    var col := Pow2(d) - 1;
    while true
      invariant OfSize(col, cols, d)
      invariant forall x: nat :: x < col && OfSize(x, cols, d) ==> RegularColumns(v, rows, cols, d, x)
      decreases Pow2(cols) - col
    {
      singular, r := CheckRows(vmatrix, rows, cols, d, col);
      if singular {
        return true, r, col;
      }
      var next, overflow := NextSubset(col, cols, d);
      if overflow != 0 {
        forall x: nat ensures RegularColumns(v, rows, cols, d, x) {
          if !OfSize(x, cols, d) {
            ColumnsOutside(v, rows, cols, d, x);
          }
        }
        return false, 0, 0;
      }
      NoneBetween(col, next, cols, d);
      NextLarger(col, next);
      col := next;
    }
  }

  lemma NoneBetween(x: nat, next: nat, n: nat, d: nat)
    requires OfSize(x, n, d) && NextOfSize(x, next)
    ensures forall y: nat :: x < y < next ==> !OfSize(y, n, d)
  {
    hide Ones, Pow2;
  }

  // are_submatrices_singular: 1 exactly when some square submatrix is singular.
  method AreSubmatricesSingular(vmatrix: array2<bv8>, rows: nat, cols: nat)
    returns (result: int, ghost d: nat, ghost r: nat, ghost c: nat)
    requires rows == vmatrix.Length0 <= MAX_CHECK && cols == vmatrix.Length1 <= MAX_CHECK
    ensures Shape(Rows(vmatrix, rows), rows, cols)
    ensures result == 0 || result == 1
    ensures result == 1 ==> 1 <= d <= Min(rows, cols) && !Regular(Rows(vmatrix, rows), rows, cols, d, r, c)
    ensures result == 0 ==> forall e :: 1 <= e <= Min(rows, cols) ==> RegularSize(Rows(vmatrix, rows), rows, cols, e)
  {
    hide Regular, RegularSize;
    for subsize := 1 to Min(rows, cols) + 1
      invariant forall e :: 1 <= e < subsize ==> RegularSize(Rows(vmatrix, rows), rows, cols, e)
    {
      var singular;
      singular, r, c := CheckSize(vmatrix, rows, cols, subsize);
      if singular {
        return 1, subsize, r, c;
      }
    }
    return 0, 0, 0, 0;
  }
}
