/** Numbers as lists of bits, least significant bit first. */
module Bits {
  import opened Rfc1951

  // The n low bits of v.
  function BitsOf(v: nat, n: nat): (b: seq<bool>)
    ensures |b| == n
  {
    if n == 0 then [] else [v % 2 == 1] + BitsOf(v / 2, n - 1)
  }

  function Value(b: seq<bool>): (v: nat)
    ensures v < Pow2(|b|)
  {
    if b == [] then 0 else (if b[0] then 1 else 0) + 2 * Value(b[1..])
  }

  // Bitwise or of two numbers.
  function BitOr(a: nat, b: nat): nat {
    if a == 0 && b == 0 then 0
    else 2 * BitOr(a / 2, b / 2) + (if a % 2 == 1 || b % 2 == 1 then 1 else 0)
  }

  lemma {:induction false} BitOrZero(a: nat)
    ensures BitOr(a, 0) == a && BitOr(0, a) == a
  {
    if a > 0 {
      BitOrZero(a / 2);
    }
  }

  // v << n and v >> n
  function Shl(v: nat, n: nat): nat
    decreases n
  {
    if n == 0 then v else 2 * Shl(v, n - 1)
  }

  function Shr(v: nat, n: nat): nat {
    if n == 0 then v else Shr(v / 2, n - 1)
  }

  // The n low bits of v, as a number.
  function Low(v: nat, n: nat): (r: nat)
    ensures r < Pow2(n)
  {
    if n == 0 then 0 else v % 2 + 2 * Low(v / 2, n - 1)
  }

  lemma {:induction false} LowBits(v: nat, n: nat)
    ensures BitsOf(Low(v, n), n) == BitsOf(v, n)
  {
    if n > 0 {
      LowBits(v / 2, n - 1);
      assert Low(v, n) / 2 == Low(v / 2, n - 1);
    }
  }

  lemma {:induction false} LowSmall(v: nat, n: nat)
    requires v < Pow2(n)
    ensures Low(v, n) == v
  {
    if n > 0 {
      LowSmall(v / 2, n - 1);
    }
  }

  // An or of disjoint parts is a sum.
  lemma {:induction false} BitOrShifted(a: nat, b: nat, n: nat)
    requires a < Pow2(n)
    ensures BitOr(a, Shl(b, n)) == a + Shl(b, n)
  {
    if n == 0 {
      BitOrZero(b);
    } else {
      BitOrShifted(a / 2, b, n - 1);
    }
  }

  lemma {:induction false} BitsAppend(a: nat, b: nat, m: nat, n: nat)
    requires a < Pow2(m)
    ensures BitsOf(a + Shl(b, m), m + n) == BitsOf(a, m) + BitsOf(b, n)
  {
    if m == 0 {
      assert BitsOf(a, 0) + BitsOf(b, n) == BitsOf(b, n);
    } else {
      BitsAppend(a / 2, b, m - 1, n);
      assert (a + Shl(b, m)) / 2 == a / 2 + Shl(b, m - 1);
    }
  }

  // Bits m, m + 1, ... are those of the number shifted right.
  lemma {:induction false} BitsSplit(v: nat, m: nat, n: nat)
    ensures BitsOf(v, m + n) == BitsOf(v, m) + BitsOf(Shr(v, m), n)
  {
    if m == 0 {
      assert BitsOf(v, 0) + BitsOf(v, n) == BitsOf(v, n);
    } else {
      BitsSplit(v / 2, m - 1, n);
    }
  }

  lemma {:induction false} ValueOfBits(v: nat, n: nat)
    requires v < Pow2(n)
    ensures Value(BitsOf(v, n)) == v
  {
    if n > 0 {
      ValueOfBits(v / 2, n - 1);
      assert BitsOf(v, n)[1..] == BitsOf(v / 2, n - 1);
    }
  }

  lemma {:induction false} BitsOfValue(b: seq<bool>)
    ensures BitsOf(Value(b), |b|) == b
  {
    if b != [] {
      BitsOfValue(b[1..]);
      assert Value(b) / 2 == Value(b[1..]);
    }
  }

  // Shifting back and forth, and bounds.
  lemma {:induction false} ShlBound(v: nat, n: nat, w: nat)
    requires v < Pow2(w)
    ensures Shl(v, n) < Pow2(n + w)
  {
    if n > 0 {
      ShlBound(v, n - 1, w);
    }
  }

  lemma {:induction false} SumBound(a: nat, b: nat, m: nat, n: nat)
    requires a < Pow2(m) && b < Pow2(n)
    ensures a + Shl(b, m) < Pow2(m + n)
  {
    if m > 0 {
      SumBound(a / 2, b, m - 1, n);
    }
  }

  lemma {:induction false} ShrBound(v: nat, m: nat, n: nat)
    requires v < Pow2(m + n)
    ensures Shr(v, m) < Pow2(n)
  {
    if m > 0 {
      ShrBound(v / 2, m - 1, n);
    }
  }
}
