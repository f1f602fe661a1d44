/** next_subset of gen_rs_matrix_limits.c: Gosper's hack, on 64-bit words. */
module Gosper {
  import opened Rfc1951
  import opened Bits

  const MAX_CHECK := 63
  const WORD := 64

  // How many elements a subset has.
  function Ones(x: nat): nat {
    if x == 0 then 0 else x % 2 + Ones(x / 2)
  }

  function BitAnd(a: nat, b: nat): nat {
    if a == 0 || b == 0 then 0
    else 2 * BitAnd(a / 2, b / 2) + (if a % 2 == 1 && b % 2 == 1 then 1 else 0)
  }

  function BitXor(a: nat, b: nat): nat {
    if a == 0 && b == 0 then 0
    else 2 * BitXor(a / 2, b / 2) + (if a % 2 != b % 2 then 1 else 0)
  }

  // -x in w bits
  function Negated(x: nat, w: nat): nat
    requires 0 < x < Pow2(w)
  {
    Pow2(w) - x
  }

  // x has p zeros, then q ones, then a zero and the bits of high.
  ghost predicate Runs(x: nat, p: nat, q: nat, high: nat) {
    x == Shl(Pow2(q) - 1 + Shl(2 * high, q), p)
  }

  lemma {:induction false} SomeOnes(x: nat) returns (q: nat, high: nat)
    requires x % 2 == 1
    ensures q >= 1 && Runs(x, 0, q, high)
  {
    hide Runs;
    if x / 2 % 2 == 1 {
      q, high := SomeOnes(x / 2);
      MoreOnes(x, q, high);
      q := q + 1;
    } else {
      q, high := 1, x / 4;
      OneOne(x, high);
    }
  }

  lemma MoreOnes(x: nat, q: nat, high: nat)
    requires x % 2 == 1 && Runs(x / 2, 0, q, high)
    ensures Runs(x, 0, q + 1, high)
  {
    assert Pow2(q + 1) == 2 * Pow2(q) && Shl(2 * high, q + 1) == 2 * Shl(2 * high, q);
  }

  lemma OneOne(x: nat, high: nat)
    requires x % 2 == 1 && x / 2 % 2 == 0 && high == x / 4
    ensures Runs(x, 0, 1, high)
  {
    assert x == 4 * high + 1;
    assert Pow2(1) == 2 && Shl(2 * high, 1) == 2 * Shl(2 * high, 0);
  }

  lemma {:induction false} SomeRuns(x: nat) returns (p: nat, q: nat, high: nat)
    requires x > 0
    ensures q >= 1 && Runs(x, p, q, high)
  {
    if x % 2 == 1 {
      p := 0;
      q, high := SomeOnes(x);
    } else {
      p, q, high := SomeRuns(x / 2);
      p := p + 1;
    }
  }

  // ---- what the machine operations do to the runs ----

  lemma {:induction false} AndNot(x: nat, w: nat)
    requires x < Pow2(w)
    ensures BitAnd(x, Pow2(w) - 1 - x) == 0
  {
    if w > 0 && x > 0 {
      AndNot(x / 2, w - 1);
      assert (Pow2(w) - 1 - x) / 2 == Pow2(w - 1) - 1 - x / 2;
    }
  }

  // x & -x
  lemma {:induction false} LowestBit(x: nat, p: nat, y: nat, w: nat)
    requires x == Shl(y, p) && y % 2 == 1 && 0 < x < Pow2(w)
    ensures BitAnd(x, Negated(x, w)) == Pow2(p)
  {
    if p == 0 {
      AndNot(x / 2, w - 1);
      assert (Pow2(w) - x) / 2 == Pow2(w - 1) - 1 - x / 2;
    } else {
      LowestBit(x / 2, p - 1, y, w - 1);
      assert (Pow2(w) - x) / 2 == Pow2(w - 1) - x / 2;
    }
  }

  lemma {:induction false} XorSelf(x: nat)
    ensures BitXor(x, x) == 0
  {
    if x > 0 {
      XorSelf(x / 2);
    }
  }

  lemma {:induction false} XorSuccessor(q: nat, high: nat)
    ensures BitXor(Pow2(q) - 1 + Shl(2 * high, q), Pow2(q) + Shl(2 * high, q)) == Pow2(q + 1) - 1
  {
    var x := Pow2(q) - 1 + Shl(2 * high, q);
    if q == 0 {
      XorSelf(high);
    } else {
      XorSuccessor(q - 1, high);
      assert x / 2 == Pow2(q - 1) - 1 + Shl(2 * high, q - 1);
    }
  }

  lemma {:induction false} XorShifted(a: nat, b: nat, p: nat)
    ensures BitXor(Shl(a, p), Shl(b, p)) == Shl(BitXor(a, b), p)
  {
    if p > 0 {
      XorShifted(a, b, p - 1);
    }
  }

  lemma {:induction false} ShlSum(a: nat, b: nat, p: nat)
    ensures Shl(a + b, p) == Shl(a, p) + Shl(b, p)
  {
    if p > 0 {
      ShlSum(a, b, p - 1);
    }
  }

  lemma {:induction false} ShlOne(p: nat)
    ensures Shl(1, p) == Pow2(p)
  {
    if p > 0 {
      ShlOne(p - 1);
    }
  }

  lemma {:induction false} ShlShl(v: nat, a: nat, b: nat)
    ensures Shl(Shl(v, a), b) == Shl(v, a + b)
  {
    if b > 0 {
      ShlShl(v, a, b - 1);
    }
  }

  // (v << p) >> 2, then divided by 2^p
  lemma {:induction false} ShiftedBack(v: nat, p: nat)
    ensures Quotient(Shl(v, p) / 4, Pow2(p)) == v / 4
  {
    if p > 0 {
      ShiftedBack(v, p - 1);
      HalfDivided(Shl(v, p - 1), Pow2(p - 1));
    }
  }

  lemma HalfDivided(u: nat, d: nat)
    requires d >= 1
    ensures 2 * u / 4 / (2 * d) == u / 4 / d
  {
    DivDiv(2 * u, 4, 2 * d);
    DivDiv(u, 4, d);
    assert 4 * (2 * d) == 2 * (4 * d);
    DivCancel(u, 4 * d);
  }

  lemma DivUnique(a: nat, b: nat, q: nat, r: nat)
    requires b >= 1 && a == q * b + r && r < b
    ensures a / b == q
  {
    var d, m := a / b, a % b;
    assert a == d * b + m;
    assert (d - q) * b == r - m;
    SmallMultiple(d - q, b);
  }

  lemma MultipleBounds(k: int, b: int)
    requires b >= 1
    ensures k >= 1 ==> k * b >= b
    ensures k <= -1 ==> k * b <= -b
  {
    if k >= 1 {
      assert (k - 1) * b >= 0;
    } else {
      assert -k * b >= 0;
      if k <= -1 {
        assert (-k - 1) * b >= 0;
      }
    }
  }

  lemma SmallMultiple(k: int, b: int)
    requires b >= 1 && -b < k * b < b
    ensures k == 0
  {
    MultipleBounds(k, b);
  }

  lemma Recomposed(a: nat, b: nat, q: nat, r: nat)
    requires b >= 1 && q == a / b && r == a % b
    ensures a == q * b + r && r < b
  {
  }

  lemma TwoDigits(b: nat, c: nat, v: nat, s: nat, r: nat)
    requires s < c && r < b
    ensures (v * c + s) * b + r == v * (b * c) + (s * b + r)
    ensures b * c >= 1 && s * b + r < b * c
  {
    assert (v * c + s) * b == v * (b * c) + s * b;
    MultipleBounds(c - s, b);
    assert (c - s) * b == b * c - s * b;
  }

  lemma DivDiv(a: nat, b: nat, c: nat)
    requires b >= 1 && c >= 1
    ensures b * c >= 1 && a / b / c == a / (b * c)
  {
    var u, r := a / b, a % b;
    var v, s := u / c, u % c;
    Recomposed(a, b, u, r);
    Recomposed(u, c, v, s);
    TwoDigits(b, c, v, s, r);
    DivUnique(a, b * c, v, s * b + r);
  }

  lemma DivCancel(u: nat, d: nat)
    requires d >= 1
    ensures 2 * u / (2 * d) == u / d
  {
    var q, r := u / d, u % d;
    assert u == q * d + r;
    assert 2 * u == q * (2 * d) + 2 * r;
    DivUnique(2 * u, 2 * d, q, 2 * r);
  }

  // The word that next_subset computes, in w bits.
  function NextWord(x: nat, w: nat): nat
    requires 0 < x < Pow2(w)
  {
    var tmp1 := BitAnd(x, Negated(x, w));
    var tmp2 := Low(x + tmp1, w);
    BitOr(if tmp1 == 0 then 0 else Quotient(BitXor(x, tmp2) / 4, tmp1), tmp2)
  }

  function Quotient(a: nat, b: nat): nat
    requires b > 0
  {
    a / b
  }

  // Adding the lowest bit moves the run's carry to its zero.
  lemma Carried(x: nat, p: nat, q: nat, high: nat)
    requires Runs(x, p, q, high)
    ensures x + Pow2(p) == Shl(2 * high + 1, p + q)
    ensures BitXor(x, x + Pow2(p)) == Shl(Pow2(q + 1) - 1, p)
  {
    hide Pow2, Shl, BitXor;
    var y := Pow2(q) - 1 + Shl(2 * high, q);
    ShlOne(p);
    ShlSum(y, 1, p);
    ShlOne(q);
    ShlSum(2 * high, 1, q);
    ShlShl(2 * high + 1, q, p);
    XorShifted(y, y + 1, p);
    XorSuccessor(q, high);
  }

  lemma QuarterOfOnes(q: nat)
    requires q >= 1
    ensures (Pow2(q + 1) - 1) / 4 == Pow2(q - 1) - 1
  {
    assert Pow2(q + 1) == 2 * Pow2(q) && Pow2(q) == 2 * Pow2(q - 1);
  }

  lemma OddRun(p: nat, q: nat, high: nat)
    requires q >= 1
    ensures (Pow2(q) - 1 + Shl(2 * high, q)) % 2 == 1
  {
    OddSum(Pow2(q - 1), Shl(2 * high, q - 1));
  }

  lemma OddSum(a: nat, b: nat)
    requires a >= 1
    ensures (2 * a - 1 + 2 * b) % 2 == 1
  {
  }

  lemma LowBitBelow(x: nat, p: nat, q: nat, high: nat)
    requires Runs(x, p, q, high) && q >= 1
    ensures Pow2(p) <= x
  {
    hide Pow2, Shl;
    OddRun(p, q, high);
    var y := Pow2(q) - 1 + Shl(2 * high, q);
    ShlOne(p);
    ShlSum(y - 1, 1, p);
  }

  lemma NoOverflow(x: nat, t: nat, w: nat)
    requires w >= 1 && t <= x < Pow2(w - 1)
    ensures x < Pow2(w) && Low(x + t, w) == x + t
  {
    LowSmall(x + t, w);
  }

  // The next word: the run's lowest q - 1 ones at the bottom, one more above the run.
  lemma NextRuns(x: nat, p: nat, q: nat, high: nat, w: nat)
    requires Runs(x, p, q, high) && q >= 1 && w >= 1 && 0 < x < Pow2(w - 1)
    ensures x < Pow2(w) && Pow2(q - 1) - 1 < Pow2(p + q)
    ensures NextWord(x, w) == Pow2(q - 1) - 1 + Shl(2 * high + 1, p + q)
  {
    hide *;
    LowBitBelow(x, p, q, high);
    NoOverflow(x, Pow2(p), w);
    SmallRun(p, q);
    OddRun(p, q, high);
    RunsAre(x, p, q, high);
    LowestBit(x, p, Pow2(q) - 1 + Shl(2 * high, q), w);
    Carried(x, p, q, high);
    ShiftedBack(Pow2(q + 1) - 1, p);
    QuarterOfOnes(q);
    NextWordIs(x, w, Pow2(p), Shl(2 * high + 1, p + q), Pow2(q - 1) - 1);
    BitOrShifted(Pow2(q - 1) - 1, 2 * high + 1, p + q);
  }

  lemma SmallRun(p: nat, q: nat)
    requires q >= 1
    ensures Pow2(q - 1) - 1 < Pow2(p + q)
  {
    Pow2Monotone(q - 1, p + q);
  }

  lemma RunsAre(x: nat, p: nat, q: nat, high: nat)
    requires Runs(x, p, q, high)
    ensures x == Shl(Pow2(q) - 1 + Shl(2 * high, q), p)
  {
  }

  lemma NextWordIs(x: nat, w: nat, tmp1: nat, tmp2: nat, low: nat)
    requires 0 < x < Pow2(w) && tmp1 > 0 && BitAnd(x, Negated(x, w)) == tmp1 && Low(x + tmp1, w) == tmp2
    requires Quotient(BitXor(x, tmp2) / 4, tmp1) == low
    ensures NextWord(x, w) == BitOr(low, tmp2)
  {
    hide BitAnd, BitXor, BitOr, Low, Quotient, Pow2, Negated;
  }

  // ---- counting ones ----

  lemma {:induction false} OnesJoined(low: nat, high: nat, n: nat)
    requires low < Pow2(n)
    ensures Ones(low + Shl(high, n)) == Ones(low) + Ones(high)
  {
    if n > 0 {
      OnesJoined(low / 2, high, n - 1);
      assert (low + Shl(high, n)) / 2 == low / 2 + Shl(high, n - 1);
    }
  }

  lemma {:induction false} OnesRun(q: nat)
    ensures Ones(Pow2(q) - 1) == q
  {
    if q > 0 {
      OnesRun(q - 1);
      assert (Pow2(q) - 1) / 2 == Pow2(q - 1) - 1;
    }
  }

  lemma {:induction false} LeastWithOnes(v: nat)
    ensures v >= Pow2(Ones(v)) - 1
  {
    if v > 0 {
      LeastWithOnes(v / 2);
    }
  }

  lemma {:induction false} GreatestWithOnes(v: nat, m: nat)
    requires v < Pow2(m)
    ensures Ones(v) <= m && v <= Shl(Pow2(Ones(v)) - 1, m - Ones(v))
  {
    if m > 0 {
      GreatestWithOnes(v / 2, m - 1);
      var o := Ones(v / 2);
      if v % 2 == 1 {
        OneMore(o, m - 1 - o, v / 2);
      }
    }
  }

  lemma {:induction false} OneMore(o: nat, n: nat, h: nat)
    requires h <= Shl(Pow2(o) - 1, n)
    ensures 2 * h + 1 <= Shl(Pow2(o + 1) - 1, n)
  {
    ShlSum(Pow2(o) - 1, Pow2(o), n);
    ShlPositive(Pow2(o), n);
    assert Pow2(o + 1) - 1 == Pow2(o) - 1 + Pow2(o);
    ShlMonotone(Pow2(o) - 1, Pow2(o), n);
    ShlStrict(Pow2(o) - 1, n);
  }

  lemma {:induction false} ShlPositive(v: nat, n: nat)
    requires v >= 1
    ensures Shl(v, n) >= 1
  {
    if n > 0 {
      ShlPositive(v, n - 1);
    }
  }

  lemma {:induction false} ShlMonotone(a: nat, b: nat, n: nat)
    requires a <= b
    ensures Shl(a, n) <= Shl(b, n)
  {
    if n > 0 {
      ShlMonotone(a, b, n - 1);
    }
  }

  lemma ShlStrict(a: nat, n: nat)
    ensures Shl(a + 1, n) >= Shl(a, n) + 1
  {
    ShlSum(a, 1, n);
    ShlPositive(1, n);
  }

  // ---- the next subset of the same size ----

  // Nothing between x and next has as many elements.
  ghost predicate NextOfSize(x: nat, next: nat) {
    && x < next && Ones(next) == Ones(x)
    && forall y: nat :: x < y && Ones(y) == Ones(x) ==> next <= y
  }

  lemma {:induction false} Split(y: nat, n: nat)
    ensures y == Low(y, n) + Shl(Shr(y, n), n)
  {
    if n > 0 {
      Split(y / 2, n - 1);
    }
  }

  lemma OnesShifted(v: nat, n: nat)
    ensures Ones(Shl(v, n)) == Ones(v)
  {
    OnesJoined(0, v, n);
  }

  // The two parts of a word, at the zero above its run.
  lemma RunParts(x: nat, p: nat, q: nat, high: nat)
    requires Runs(x, p, q, high)
    ensures x == Shl(Pow2(q) - 1, p) + Shl(2 * high, p + q) && Ones(x) == q + Ones(high)
  {
    hide Pow2, Shl, Ones;
    ShlSum(Pow2(q) - 1, Shl(2 * high, q), p);
    ShlShl(2 * high, q, p);
    OnesShifted(Pow2(q) - 1 + Shl(2 * high, q), p);
    OnesJoined(Pow2(q) - 1, 2 * high, q);
    OnesRun(q);
    OnesEven(high);
  }

  lemma OnesEven(v: nat)
    ensures Ones(2 * v) == Ones(v) && Ones(2 * v + 1) == Ones(v) + 1
  {
  }

  // A greater word of as many ones is not below the next one.
  lemma NotBelowNext(x: nat, p: nat, q: nat, high: nat, y: nat)
    requires Runs(x, p, q, high) && q >= 1 && x < y && Ones(y) == Ones(x)
    ensures Pow2(q - 1) - 1 + Shl(2 * high + 1, p + q) <= y
  {
    hide Pow2, Shl, Ones, Low, Shr;
    var n := p + q;
    var low, up := Low(y, n), Shr(y, n);
    RunParts(x, p, q, high);
    Split(y, n);
    OnesJoined(low, up, n);
    OnesEven(high);
    if up <= 2 * high {
      if up == 2 * high {
        GreatestWithOnes(low, n);
      } else {
        ShlMonotone(up + 1, 2 * high, n);
        ShlSum(up, 1, n);
        ShlOne(n);
      }
    } else if up == 2 * high + 1 {
      LeastWithOnes(low);
    } else {
      ShlMonotone(2 * high + 2, up, n);
      ShlSum(2 * high + 1, 1, n);
      ShlOne(n);
      SmallRun(p, q);
    }
  }

  lemma AboveRun(x: nat, p: nat, q: nat, high: nat)
    requires Runs(x, p, q, high) && q >= 1
    ensures x < Pow2(q - 1) - 1 + Shl(2 * high + 1, p + q)
    ensures Ones(Pow2(q - 1) - 1 + Shl(2 * high + 1, p + q)) == Ones(x)
  {
    hide Pow2, Shl, Ones;
    RunParts(x, p, q, high);
    ShlBound(Pow2(q) - 1, p, q);
    ShlSum(2 * high, 1, p + q);
    ShlOne(p + q);
    SmallRun(p, q);
    OnesJoined(Pow2(q - 1) - 1, 2 * high + 1, p + q);
    OnesRun(q - 1);
    OnesEven(high);
  }

  // next_subset computes the next greater word of as many ones.
  lemma NextWordIsNext(x: nat, w: nat)
    requires w >= 1 && 0 < x < Pow2(w - 1)
    ensures x < Pow2(w) && NextOfSize(x, NextWord(x, w)) && NextWord(x, w) <= 2 * x
  {
    hide *;
    var p, q, high := SomeRuns(x);
    NextRuns(x, p, q, high, w);
    AboveRun(x, p, q, high);
    var next := NextWord(x, w);
    forall y: nat | x < y && Ones(y) == Ones(x) ensures next <= y {
      NotBelowNext(x, p, q, high, y);
    }
    OnesEven(x);
    NextMeans(x, next);
  }

  lemma NextMeans(x: nat, next: nat)
    requires x < next && Ones(next) == Ones(x) && forall y: nat :: x < y && Ones(y) == Ones(x) ==> next <= y
    ensures NextOfSize(x, next)
  {
  }

  // A word below 2^(n + 1) has bit n if it is at least 2^n.
  lemma {:induction false} TopBit(v: nat, n: nat)
    requires v < 2 * Pow2(n)
    ensures BitAnd(v, Pow2(n)) != 0 <==> v >= Pow2(n)
  {
    if n > 0 {
      TopBit(v / 2, n - 1);
    } else {
      assert BitAnd(0, 1) == 0 && BitAnd(1, 1) == 1;
    }
  }

  lemma NextFits(x: nat, n: nat)
    requires 0 < x < Pow2(n) && n < WORD
    ensures x < Pow2(WORD) && NextOfSize(x, NextWord(x, WORD)) && NextWord(x, WORD) < 2 * Pow2(n)
    ensures BitAnd(NextWord(x, WORD), Pow2(n)) != 0 <==> NextWord(x, WORD) >= Pow2(n)
  {
    WordPositive();
    hide *;
    Pow2Monotone(n, WORD - 1);
    NextWordIsNext(x, WORD);
    TopBit(NextWord(x, WORD), n);
  }

  lemma WordPositive()
    ensures WORD == 64
  {
  }

  // next_subset: the next subset of the size, or the first one again and 1 when there is none.
  method NextSubset(subset: nat, elementCount: nat, subsize: nat) returns (next: nat, overflow: int)
    requires 1 <= subsize == Ones(subset) && subset < Pow2(elementCount) && elementCount <= MAX_CHECK
    ensures overflow == 0 || overflow == 1
    ensures overflow == 0 ==> next < Pow2(elementCount) && NextOfSize(subset, next)
    ensures overflow == 1 ==> next == Pow2(subsize) - 1
    ensures overflow == 1 ==> forall y: nat :: subset < y && Ones(y) == subsize ==> y >= Pow2(elementCount)
  {
    hide Pow2, BitAnd, NextWord;
    NextFits(subset, elementCount);
    next := NextWord(subset, WORD);
    if BitAnd(next, Pow2(elementCount)) != 0 {
      return Pow2(subsize) - 1, 1;
    }
    return next, 0;
  }
}
