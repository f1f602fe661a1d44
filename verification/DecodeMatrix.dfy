/** gf_gen_decode_matrix_simple. */
module DecodeMatrix {
  import opened Galois
  import opened Linear
  import opened GaussJordan
  import opened Cauchy
  import opened Counting

  // A strip number, stored in an unsigned char.
  newtype Index = x: int | 0 <= x < 256

  predicate Erased(errs: seq<Index>, r: nat) {
    exists i :: 0 <= i < |errs| && errs[i] as nat == r
  }

  // The strips below r that survive, in increasing order.
  function Survivors(errs: seq<Index>, r: nat): (s: seq<nat>)
  {
    if r == 0 then []
    else if Erased(errs, r - 1) then Survivors(errs, r - 1)
    else Survivors(errs, r - 1) + [r - 1]
  }

  function Numbers(errs: seq<Index>): (s: seq<nat>)
    ensures |s| == |errs| && forall i :: 0 <= i < |errs| ==> s[i] == errs[i] as nat
  {
    seq(|errs|, i requires 0 <= i < |errs| => errs[i] as nat)
  }

  function ErasedBelow(errs: seq<Index>, r: nat): (s: set<nat>)
    ensures forall i: nat :: i in s <==> i < r && Erased(errs, i)
    ensures |s| <= |errs|
  {
    SubsetCount(Elements(Numbers(errs)) * Below(r), Elements(Numbers(errs)));
    Elements(Numbers(errs)) * Below(r)
  }

  // Survivors are exactly the unerased strips, each once, in increasing order.
  lemma {:induction false} SurvivorsSorted(errs: seq<Index>, r: nat)
    ensures forall i :: 0 <= i < |Survivors(errs, r)| ==>
              Survivors(errs, r)[i] < r && !Erased(errs, Survivors(errs, r)[i])
    ensures forall i, j :: 0 <= i < j < |Survivors(errs, r)| ==>
              Survivors(errs, r)[i] < Survivors(errs, r)[j]
    ensures forall x :: 0 <= x < r && !Erased(errs, x) ==> x in Survivors(errs, r)
  {
    hide Erased;
    if r > 0 {
      SurvivorsSorted(errs, r - 1);
    }
  }

  lemma {:induction false} SurvivorsCount(errs: seq<Index>, r: nat)
    ensures |Survivors(errs, r)| + |ErasedBelow(errs, r)| == r
  {
    hide Erased, ErasedBelow;
    if r > 0 {
      SurvivorsCount(errs, r - 1);
      if Erased(errs, r - 1) {
        assert ErasedBelow(errs, r) == ErasedBelow(errs, r - 1) + {r - 1};
      } else {
        assert ErasedBelow(errs, r) == ErasedBelow(errs, r - 1);
      }
    } else {
      assert ErasedBelow(errs, 0) == {};
    }
  }

  lemma {:induction false} SurvivorsPrefix(errs: seq<Index>, r: nat, r': nat)
    requires r <= r'
    ensures Survivors(errs, r) <= Survivors(errs, r')
  {
    hide Erased;
    if r < r' {
      SurvivorsPrefix(errs, r, r' - 1);
    }
  }

  // With at most m - k erasures, at least k strips survive.
  lemma EnoughSurvivors(errs: seq<Index>, k: nat, m: nat)
    requires k <= m && |errs| <= m - k
    ensures |Survivors(errs, m)| >= k
  {
    SurvivorsCount(errs, m);
  }

  // The strips the decoder reads: the k lowest survivors.
  function ReadStrips(errs: seq<Index>, k: nat, m: nat): (s: seq<nat>)
    requires |Survivors(errs, m)| >= k
    ensures |s| == k
  {
    Survivors(errs, m)[..k]
  }

  lemma ReadStripsSelection(errs: seq<Index>, k: nat, m: nat)
    requires |Survivors(errs, m)| >= k
    ensures Selection(ReadStrips(errs, k, m), k, m)
    ensures forall i :: 0 <= i < k ==> !Erased(errs, ReadStrips(errs, k, m)[i])
    ensures forall i, j :: 0 <= i < j < k ==> ReadStrips(errs, k, m)[i] < ReadStrips(errs, k, m)[j]
    ensures forall i, x :: 0 <= i < k && 0 <= x < ReadStrips(errs, k, m)[i] && !Erased(errs, x) ==>
              x in ReadStrips(errs, k, m)
  {
    hide Erased;
    SurvivorsSorted(errs, m);
    var s := Survivors(errs, m);
    forall i, x | 0 <= i < k && 0 <= x < s[i] && !Erased(errs, x) ensures x in s[..k] {
      var p :| 0 <= p < |s| && s[p] == x;
      assert p < i;
      assert s[..k][p] == x;
    }
  }

  // d, applied to what b yields on any data, gives what e yields on that data.
  ghost predicate Rebuilds(d: Row, b: Matrix, e: Row, k: nat)
    requires |d| == k && |e| == k && Shape(b, k, k)
  {
    forall x: Row :: |x| == k ==> Dot(d, Apply(b, x, k, k), k) == Dot(e, x, k)
  }

  // A row of the inverse rebuilds the source of that number.
  lemma SourceRebuilds(b: Matrix, w: Matrix, k: nat, s: nat)
    requires Shape(b, k, k) && Shape(w, k, k) && s < k && Inverse(b, w, k)
    ensures Rebuilds(w[s], b, Unit(s, k), k)
  {
    hide Dot, Unit;
    forall x: Row | |x| == k
      ensures Dot(w[s], Apply(b, x, k, k), k) == Dot(Unit(s, k), x, k)
    {
      assert Apply(w, Apply(b, x, k, k), k, k)[s] == x[s];
      DotUnit(s, x, k);
    }
  }

  // The encode row times the inverse rebuilds any strip.
  lemma ParityRebuilds(b: Matrix, w: Matrix, e: Row, k: nat)
    requires Shape(b, k, k) && Shape(w, k, k) && |e| == k && Inverse(b, w, k)
    ensures Rebuilds(RowTimes(e, w, k, k), b, e, k)
  {
    hide Dot, RowTimes;
    forall x: Row | |x| == k
      ensures Dot(RowTimes(e, w, k, k), Apply(b, x, k, k), k) == Dot(e, x, k)
    {
      RowTimesApply(e, w, k, k, Apply(b, x, k, k));
      assert Apply(w, Apply(b, x, k, k), k, k) == x;
      DotComm(e, x, k);
    }
  }

  // Rebuilding on all data is an equation between matrices: d * b == e.
  lemma RebuildsProduct(d: Row, b: Matrix, e: Row, k: nat)
    requires |d| == k && |e| == k && Shape(b, k, k) && Rebuilds(d, b, e, k)
    ensures RowTimes(d, b, k, k) == e
  {
    hide Dot, Unit;
    forall j | 0 <= j < k ensures RowTimes(d, b, k, k)[j] == e[j] {
      var x := Unit(j, k);
      assert Dot(d, Apply(b, x, k, k), k) == Dot(e, x, k);
      DotUnit(j, e, k);
      ApplyUnit(b, k, j);
      DotComm(d, Column(b, j, k, k), k);
    }
  }

  method MarkErased(errs: seq<Index>, m: nat) returns (fragInErr: array<bool>)
    requires forall i :: 0 <= i < |errs| ==> errs[i] as nat < m
    ensures fresh(fragInErr) && fragInErr.Length == m
    ensures forall r :: 0 <= r < m ==> fragInErr[r] == Erased(errs, r)
  {
    fragInErr := new bool[m](_ => false);
    for i := 0 to |errs|
      invariant forall r :: 0 <= r < m ==> fragInErr[r] == Erased(errs[..i], r)
    {
      fragInErr[errs[i] as nat] := true;
      forall r | 0 <= r < m ensures fragInErr[r] == Erased(errs[..i + 1], r) {
        assert errs[..i + 1] == errs[..i] + [errs[i]];
        if Erased(errs[..i], r) {
          var p :| 0 <= p < i && errs[..i][p] as nat == r;
          assert errs[..i + 1][p] as nat == r;
        }
        if r == errs[i] as nat {
          assert errs[..i + 1][i] as nat == r;
        }
      }
    }
    assert errs[..|errs|] == errs;
  }

  // while (frag_in_err[r]) r++
  method NextSurvivor(fragInErr: array<bool>, errs: seq<Index>, start: nat, m: nat) returns (r: nat)
    requires fragInErr.Length == m && forall p :: 0 <= p < m ==> fragInErr[p] == Erased(errs, p)
    requires start <= m && |Survivors(errs, start)| < |Survivors(errs, m)|
    ensures start <= r < m && !Erased(errs, r)
    ensures |Survivors(errs, r + 1)| == |Survivors(errs, start)| + 1
    ensures Survivors(errs, m)[|Survivors(errs, start)|] == r
  {
    hide Erased;
    r := start;
    while fragInErr[r]
      invariant start <= r < m && Survivors(errs, r) == Survivors(errs, start)
      decreases m - r
    {
      r := r + 1;
    }
    SurvivorsPrefix(errs, r + 1, m);
  }

  method CopyRow(dst: array2<bv8>, i: nat, src: array2<bv8>, r: nat, k: nat)
    requires dst != src && i < dst.Length0 && r < src.Length0
    requires dst.Length1 == k && src.Length1 == k
    modifies dst
    ensures RowOf(dst, i) == RowOf(src, r)
    ensures forall p :: 0 <= p < dst.Length0 && p != i ==> RowOf(dst, p) == old(RowOf(dst, p))
  {
    for j := 0 to k
      invariant forall c :: 0 <= c < j ==> dst[i, c] == src[r, c]
      invariant forall p, c :: 0 <= p < dst.Length0 && 0 <= c < k && p != i ==> dst[p, c] == old(dst[p, c])
    {
      dst[i, j] := src[r, j];
    }
  }

  // for (i = 0, r = 0; i < k; i++, r++) skip erased strips, copy the row, note its number
  method SelectRows(encode: array2<bv8>, temp: array2<bv8>, decodeIndex: array<Index>,
                    errs: seq<Index>, k: nat, m: nat)
    requires encode != temp && k <= m <= 256
    requires encode.Length0 == m && encode.Length1 == k
    requires temp.Length0 >= k && temp.Length1 == k && decodeIndex.Length >= k
    requires forall i :: 0 <= i < |errs| ==> errs[i] as nat < m
    requires |Survivors(errs, m)| >= k
    modifies temp, decodeIndex
    ensures Selection(ReadStrips(errs, k, m), k, m)
    ensures forall i :: 0 <= i < k ==> decodeIndex[i] as nat == ReadStrips(errs, k, m)[i]
    ensures Rows(temp, k) == Select(Rows(encode, m), ReadStrips(errs, k, m))
  {
    var fragInErr := MarkErased(errs, m);
    ReadStripsSelection(errs, k, m);
    ghost var strips := ReadStrips(errs, k, m);
    hide Erased, Survivors;
    var r := 0;
    EmptySurvivors(errs);
    for i := 0 to k
      invariant r <= m && |Survivors(errs, r)| == i
      invariant forall p :: 0 <= p < m ==> fragInErr[p] == Erased(errs, p)
      invariant forall p :: 0 <= p < i ==> decodeIndex[p] as nat == strips[p]
      invariant forall p :: 0 <= p < i ==> RowOf(temp, p) == RowOf(encode, strips[p])
    {
      r := NextSurvivor(fragInErr, errs, r, m);
      CopyRow(temp, i, encode, r, k);
      decodeIndex[i] := r as Index;
      r := r + 1;
    }
  }

  lemma EmptySurvivors(errs: seq<Index>)
    ensures Survivors(errs, 0) == []
  {
  }

  // s ^= gf_mul(invert_matrix[j * k + i], encode_matrix[k * e + j]) over j
  method DotColumn(encode: array2<bv8>, e: nat, invert: array2<bv8>, i: nat, k: nat) returns (s: bv8)
    requires e < encode.Length0 && i < k <= invert.Length0
    requires encode.Length1 == k && invert.Length1 == k
    ensures s == Dot(Column(Rows(invert, k), i, k, k), RowOf(encode, e), k)
  {
    hide Mul, GfMul;
    ghost var u, v := Column(Rows(invert, k), i, k, k), RowOf(encode, e);
    s := 0;
    for j := 0 to k
      invariant s == Dot(u, v, j)
    {
      assert u[j] == Rows(invert, k)[j][i] == invert[j, i] && v[j] == encode[e, j];
      GfMulIsMul(invert[j, i], encode[e, j]);
      s := s ^ GfMul(invert[j, i], encode[e, j]);
    }
  }

  // an encode row times the inverse
  method MultiplyRow(encode: array2<bv8>, e: nat, invert: array2<bv8>, decode: array2<bv8>, d: nat, k: nat)
    requires encode != decode && invert != decode
    requires e < encode.Length0 && d < decode.Length0 && k <= invert.Length0
    requires encode.Length1 == k && invert.Length1 == k && decode.Length1 == k
    modifies decode
    ensures RowOf(decode, d) == RowTimes(RowOf(encode, e), Rows(invert, k), k, k)
    ensures forall p :: 0 <= p < decode.Length0 && p != d ==> RowOf(decode, p) == old(RowOf(decode, p))
  {
    hide Dot;
    ghost var product := RowTimes(RowOf(encode, e), Rows(invert, k), k, k);
    for i := 0 to k
      invariant forall c :: 0 <= c < i ==> decode[d, c] == product[c]
      invariant forall p, c :: 0 <= p < decode.Length0 && 0 <= c < k && p != d ==> decode[p, c] == old(decode[p, c])
    {
      decode[d, i] := DotColumn(encode, e, invert, i, k);
    }
  }

  // The row of decode_matrix that rebuilds strip e, given the inverse w.
  function DecodeRow(encode: Matrix, w: Matrix, e: nat, k: nat): (d: Row)
    requires Shape(w, k, k) && e < |encode| && |encode[e]| == k
    ensures |d| == k
  {
    if e < k then w[e] else RowTimes(encode[e], w[..k], k, k)
  }

  // the two loops that fill decode_matrix, for source and for parity erasures
  method FillDecodeMatrix(encode: array2<bv8>, decode: array2<bv8>, invert: array2<bv8>,
                          errs: seq<Index>, k: nat, m: nat)
    requires encode != decode && decode != invert
    requires k <= m && encode.Length0 == m && encode.Length1 == k && decode.Length1 == k
    requires invert.Length0 >= k == invert.Length1 && decode.Length0 >= |errs|
    requires forall i :: 0 <= i < |errs| ==> errs[i] as nat < m
    modifies decode
    ensures forall i :: 0 <= i < |errs| ==>
      RowOf(decode, i) == DecodeRow(Rows(encode, m), Rows(invert, k), errs[i] as nat, k)
    ensures forall p :: |errs| <= p < decode.Length0 ==> RowOf(decode, p) == old(RowOf(decode, p))
  {
    hide RowTimes, Dot;
    ghost var w := Rows(invert, k);
    assert w[..k] == w;
    for i := 0 to |errs|
      invariant forall p :: |errs| <= p < decode.Length0 ==> RowOf(decode, p) == old(RowOf(decode, p))
      invariant forall p :: 0 <= p < i && errs[p] as nat < k ==> RowOf(decode, p) == w[errs[p] as nat]
    {
      if errs[i] as nat < k {
        CopyRow(decode, i, invert, errs[i] as nat, k);
      }
    }
    for i := 0 to |errs|
      invariant forall p :: |errs| <= p < decode.Length0 ==> RowOf(decode, p) == old(RowOf(decode, p))
      invariant forall p :: 0 <= p < |errs| && errs[p] as nat < k ==> RowOf(decode, p) == w[errs[p] as nat]
      invariant forall p :: 0 <= p < i && errs[p] as nat >= k ==>
        RowOf(decode, p) == RowTimes(RowOf(encode, errs[p] as nat), w, k, k)
    {
      if errs[i] as nat >= k {
        MultiplyRow(encode, errs[i] as nat, invert, decode, i, k);
      }
    }
  }

  lemma DecodeRowRebuilds(encode: Matrix, b: Matrix, w: Matrix, e: nat, k: nat)
    requires Shape(b, k, k) && |w| == k && Shape(w, k, k) && Inverse(b, w, k)
    requires e < |encode| && |encode[e]| == k && (e < k ==> encode[e] == Unit(e, k))
    ensures Rebuilds(DecodeRow(encode, w, e, k), b, encode[e], k)
  {
    hide Inverse, Rebuilds, RowTimes;
    assert w[..k] == w;
    if e < k {
      SourceRebuilds(b, w, k, e);
    } else {
      ParityRebuilds(b, w, encode[e], k);
    }
  }

  // gf_gen_decode_matrix_simple
  method GfGenDecodeMatrixSimple(encode: array2<bv8>, decode: array2<bv8>, invert: array2<bv8>,
                                 temp: array2<bv8>, decodeIndex: array<Index>,
                                 errs: seq<Index>, k: nat, m: nat)
    returns (result: int)
    requires encode != decode && encode != invert && encode != temp
    requires decode != invert && decode != temp && invert != temp
    requires k <= m <= 256 && |errs| <= m - k
    requires encode.Length0 == m && encode.Length1 == k && decode.Length1 == k
    requires temp.Length0 >= k == temp.Length1 && invert.Length0 >= k == invert.Length1
    requires decode.Length0 >= |errs| && decodeIndex.Length >= k
    requires forall i :: 0 <= i < |errs| ==> errs[i] as nat < m
    requires Rows(encode, k) == Identity(k)
    modifies decode, invert, temp, decodeIndex
    ensures |Survivors(errs, m)| >= k && Selection(ReadStrips(errs, k, m), k, m)
    ensures forall i :: 0 <= i < k ==> decodeIndex[i] as nat == ReadStrips(errs, k, m)[i]
    ensures result == 0 || result == -1
    ensures result == 0 <==>
      Nonsingular(Select(Rows(encode, m), ReadStrips(errs, k, m)), k)
    ensures result == 0 ==> forall i :: 0 <= i < |errs| ==>
      Rebuilds(RowOf(decode, i), Select(Rows(encode, m), ReadStrips(errs, k, m)),
               RowOf(encode, errs[i] as nat), k)
    ensures result == 0 ==> forall i, j :: 0 <= i < j < |errs| && errs[i] == errs[j] ==>
      RowOf(decode, i) == RowOf(decode, j)
  {
    hide Inverse, Rebuilds, DecodeRow, Nonsingular, Erased;
    EnoughSurvivors(errs, k, m);
    SelectRows(encode, temp, decodeIndex, errs, k, m);
    ghost var b := Select(Rows(encode, m), ReadStrips(errs, k, m));
    ghost var kernel;
    result, kernel := GfInvertMatrix(temp, invert, k);
    if result < 0 {
      return;
    }
    FillDecodeMatrix(encode, decode, invert, errs, k, m);
    forall i | 0 <= i < |errs|
      ensures Rebuilds(RowOf(decode, i), b, RowOf(encode, errs[i] as nat), k)
    {
      var e := errs[i] as nat;
      assert e < k ==> Rows(encode, k)[e] == Unit(e, k);
      DecodeRowRebuilds(Rows(encode, m), b, Rows(invert, k), e, k);
    }
  }
}
