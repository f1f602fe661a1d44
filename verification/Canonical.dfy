/** Section 3.2.2 of RFC 1951: codes from code lengths. */
module Canonical {
  import opened Rfc1951
  import opened Bits

  const MAX_BITS := 15

  // The n low bits of v, most significant bit first: the order in which Huffman codes are packed.
  function Msb(v: nat, n: nat): (b: seq<bool>)
    ensures |b| == n
  {
    if n == 0 then [] else Msb(v / 2, n - 1) + [v % 2 == 1]
  }

  // How many symbols have a code of l bits.
  function Count(lengths: seq<nat>, l: nat): (c: nat)
    ensures c <= |lengths|
  {
    if lengths == [] then 0
    else Count(lengths[..|lengths| - 1], l) + (if lengths[|lengths| - 1] == l then 1 else 0)
  }

  // The number of codes of up to l bits, each counted as its number of l-bit extensions.
  function Kraft(count: nat -> nat, l: nat): nat {
    if l == 0 then 0 else 2 * Kraft(count, l - 1) + count(l)
  }

  // Step 2: the smallest code of l bits.
  function FirstCode(count: nat -> nat, l: nat): nat {
    if l <= 1 then 0 else 2 * (FirstCode(count, l - 1) + count(l - 1))
  }

  function Counts(lengths: seq<nat>): nat -> nat {
    l => Count(lengths, l)
  }

  // Step 3: codes of one length in the order of their symbols.
  function CodeOf(lengths: seq<nat>, sym: nat): nat
    requires sym < |lengths|
  {
    FirstCode(Counts(lengths), lengths[sym]) + Count(lengths[..sym], lengths[sym])
  }

  function CodeBits(lengths: seq<nat>, sym: nat): (b: seq<bool>)
    requires sym < |lengths|
    ensures |b| == lengths[sym]
  {
    Msb(CodeOf(lengths, sym), lengths[sym])
  }

  // Lengths of at most 15 bits that fit into a prefix code.
  ghost predicate Fits(lengths: seq<nat>) {
    && (forall i :: 0 <= i < |lengths| ==> lengths[i] <= MAX_BITS)
    && Kraft(Counts(lengths), MAX_BITS) <= Pow2(MAX_BITS)
  }

  ghost predicate Used(lengths: seq<nat>, sym: nat) {
    sym < |lengths| && lengths[sym] > 0
  }

  // ---- the codes are a prefix code ----

  lemma {:induction false} FirstIsKraft(count: nat -> nat, l: nat)
    ensures FirstCode(count, l + 1) == 2 * Kraft(count, l)
  {
    if l > 0 {
      FirstIsKraft(count, l - 1);
    }
  }

  lemma {:induction false} KraftBelow(count: nat -> nat, l: nat, top: nat)
    requires l <= top && Kraft(count, top) <= Pow2(top)
    ensures Kraft(count, l) <= Pow2(l)
  {
    if l < top {
      KraftBelow(count, l, top - 1);
    }
  }

  lemma {:induction false} CountSplit(lengths: seq<nat>, i: nat, l: nat)
    requires i < |lengths|
    ensures Count(lengths[..i], l) + (if lengths[i] == l then 1 else 0) <= Count(lengths, l)
  {
    var last := |lengths| - 1;
    if i < last {
      CountSplit(lengths[..last], i, l);
      assert lengths[..last][..i] == lengths[..i];
    }
  }

  // A code is below the Kraft number of its length, so it fits its length.
  lemma CodeBound(lengths: seq<nat>, sym: nat)
    requires Fits(lengths) && Used(lengths, sym)
    ensures CodeOf(lengths, sym) < Kraft(Counts(lengths), lengths[sym]) <= Pow2(lengths[sym])
  {
    var l := lengths[sym];
    FirstIsKraft(Counts(lengths), l - 1);
    KraftBelow(Counts(lengths), l, MAX_BITS);
    CountSplit(lengths, sym, l);
  }

  lemma {:induction false} CountMonotone(lengths: seq<nat>, i: nat, j: nat, l: nat)
    requires i < j <= |lengths| && lengths[i] == l
    ensures Count(lengths[..i], l) < Count(lengths[..j], l)
  {
    if i < j - 1 {
      CountMonotone(lengths, i, j - 1, l);
      assert lengths[..j][..j - 1] == lengths[..j - 1];
    } else {
      assert lengths[..j][..i] == lengths[..i];
    }
  }

  // Longer codes start above every extension of the shorter ones.
  lemma {:induction false} FirstAbove(count: nat -> nat, l: nat, m: nat)
    requires l < m
    ensures FirstCode(count, m) >= Shl(Kraft(count, l), m - l)
  {
    FirstIsKraft(count, m - 1);
    if l < m - 1 {
      FirstAbove(count, l, m - 1);
      FirstIsKraft(count, m - 2);
    } else {
      assert Shl(Kraft(count, l), 1) == 2 * Shl(Kraft(count, l), 0);
    }
  }

  lemma {:induction false} ShrAbove(v: nat, x: nat, n: nat)
    requires v >= Shl(x, n)
    ensures Shr(v, n) >= x
  {
    if n > 0 {
      ShrAbove(v / 2, x, n - 1);
    }
  }

  lemma {:induction false} MsbPrefix(v: nat, n: nat, m: nat)
    requires m <= n
    ensures Msb(v, n)[..m] == Msb(Shr(v, n - m), m)
  {
    if m < n {
      MsbPrefix(v / 2, n - 1, m);
      assert Msb(v, n)[..m] == Msb(v / 2, n - 1)[..m];
    }
  }

  lemma {:induction false} MsbInjective(u: nat, v: nat, n: nat)
    requires u < Pow2(n) && v < Pow2(n) && Msb(u, n) == Msb(v, n)
    ensures u == v
  {
    if n > 0 {
      assert Msb(u, n)[..n - 1] == Msb(u / 2, n - 1) && Msb(u, n)[n - 1] == (u % 2 == 1);
      assert Msb(v, n)[..n - 1] == Msb(v / 2, n - 1) && Msb(v, n)[n - 1] == (v % 2 == 1);
      MsbInjective(u / 2, v / 2, n - 1);
    }
  }

  // The leading bits of a code, as a number, are never another code.
  lemma LeadingBitsDiffer(lengths: seq<nat>, a: nat, b: nat)
    requires Fits(lengths) && Used(lengths, a) && Used(lengths, b) && a != b
    requires lengths[a] <= lengths[b]
    ensures Shr(CodeOf(lengths, b), lengths[b] - lengths[a]) != CodeOf(lengths, a)
  {
    hide Fits;
    var l, m := lengths[a], lengths[b];
    if l == m {
      if a < b {
        CountMonotone(lengths, a, b, l);
      } else {
        CountMonotone(lengths, b, a, l);
      }
    } else {
      CodeBound(lengths, a);
      FirstAbove(Counts(lengths), l, m);
      ShrAbove(CodeOf(lengths, b), Kraft(Counts(lengths), l), m - l);
    }
  }

  lemma {:induction false} ShlMore(u: nat, v: nat, n: nat)
    requires u < v
    ensures Shl(u, n) < Shl(v, n)
  {
    if n > 0 {
      ShlMore(u, v, n - 1);
    }
  }

  // Shorter codes come before longer ones, and codes of one length in the order of their symbols: a
  // code, shifted to the length of a later one, is below it.
  lemma CodesOrdered(lengths: seq<nat>, a: nat, b: nat)
    requires Fits(lengths) && Used(lengths, a) && Used(lengths, b)
    requires lengths[a] < lengths[b] || (lengths[a] == lengths[b] && a < b)
    ensures Shl(CodeOf(lengths, a), lengths[b] - lengths[a]) < CodeOf(lengths, b)
  {
    hide Fits;
    var l, m := lengths[a], lengths[b];
    if l == m {
      CountMonotone(lengths, a, b, l);
      assert Shl(CodeOf(lengths, a), 0) == CodeOf(lengths, a);
    } else {
      CodeBound(lengths, a);
      FirstAbove(Counts(lengths), l, m);
      ShlMore(CodeOf(lengths, a), Kraft(Counts(lengths), l), m - l);
    }
  }

  // No code is a prefix of another.
  lemma PrefixFree(lengths: seq<nat>, a: nat, b: nat)
    requires Fits(lengths) && Used(lengths, a) && Used(lengths, b) && a != b
    requires lengths[a] <= lengths[b]
    ensures CodeBits(lengths, b)[..lengths[a]] != CodeBits(lengths, a)
  {
    hide Fits, CodeOf, Pow2, Kraft, Msb, Shr;
    var l, m := lengths[a], lengths[b];
    var u, v := CodeOf(lengths, a), CodeOf(lengths, b);
    CodeBound(lengths, a);
    CodeBound(lengths, b);
    MsbPrefix(v, m, l);
    ShrBound(v, m - l, l);
    LeadingBitsDiffer(lengths, a, b);
    if Msb(Shr(v, m - l), l) == Msb(u, l) {
      MsbInjective(Shr(v, m - l), u, l);
    }
  }

  // ---- decoding ----

  // The symbol whose code the bits start with.
  ghost function DecodeSymbol(lengths: seq<nat>, bits: seq<bool>): (r: Option<nat>)
    ensures r.Some? ==> Used(lengths, r.value) && CodeBits(lengths, r.value) <= bits
  {
    if exists s: nat :: Used(lengths, s) && CodeBits(lengths, s) <= bits then
      var s: nat :| Used(lengths, s) && CodeBits(lengths, s) <= bits;
      Some(s)
    else None
  }

  // A code word is decoded to its symbol, whatever follows it.
  lemma DecodeEncoded(lengths: seq<nat>, sym: nat, rest: seq<bool>)
    requires Fits(lengths) && Used(lengths, sym)
    ensures DecodeSymbol(lengths, CodeBits(lengths, sym) + rest) == Some(sym)
  {
    var bits := CodeBits(lengths, sym) + rest;
    assert Used(lengths, sym) && CodeBits(lengths, sym) <= bits;
    var s := DecodeSymbol(lengths, bits).value;
    if s != sym {
      if lengths[s] <= lengths[sym] {
        assert bits[..lengths[s]] == CodeBits(lengths, sym)[..lengths[s]];
        PrefixFree(lengths, s, sym);
      } else {
        assert bits[..lengths[sym]] == CodeBits(lengths, s)[..lengths[sym]];
        PrefixFree(lengths, sym, s);
      }
    }
  }
}
