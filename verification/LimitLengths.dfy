/** The loop of fix_code_lens that limits code lengths. */
module LimitLengths {
  import opened Rfc1951
  import opened Canonical

  function At(s: seq<nat>): nat -> nat {
    (l: nat) => if l < |s| then s[l] else 0
  }

  function KraftOf(s: seq<nat>, l: nat): nat {
    Kraft(At(s), l)
  }

  // The number of codes of 1 to l bits.
  function Total(s: seq<nat>, l: nat): nat {
    if l == 0 then 0 else Total(s, l - 1) + At(s)(l)
  }

  lemma {:induction false} KraftSame(a: nat -> nat, b: nat -> nat, l: nat)
    requires forall i :: 1 <= i <= l ==> a(i) == b(i)
    ensures Kraft(a, l) == Kraft(b, l)
  {
    if l > 0 {
      KraftSame(a, b, l - 1);
    }
  }

  // One more code of k bits.
  lemma {:induction false} KraftPlus(a: nat -> nat, b: nat -> nat, k: nat, l: nat)
    requires k >= 1 && forall i :: i >= 1 ==> b(i) == a(i) + (if i == k then 1 else 0)
    ensures Kraft(b, l) == Kraft(a, l) + (if k <= l then Pow2(l - k) else 0)
  {
    if l > 0 {
      KraftPlus(a, b, k, l - 1);
    }
  }

  lemma ScaleStep(d: int, e: nat)
    ensures d * Pow2(e + 1) == 2 * (d * Pow2(e))
  {
  }

  lemma {:induction false} KraftUpdate(s: seq<nat>, i: nat, v: nat, l: nat)
    requires 1 <= i <= l < |s|
    ensures KraftOf(s[i := v], l) - KraftOf(s, l) == (v - s[i]) * Pow2(l - i)
    ensures Total(s[i := v], l) - Total(s, l) == v - s[i]
  {
    if l > i {
      KraftUpdate(s, i, v, l - 1);
      ScaleStep(v - s[i], l - 1 - i);
    } else {
      KraftSame(At(s[i := v]), At(s), i - 1);
      TotalSame(s[i := v], s, i - 1);
    }
  }

  lemma {:induction false} TotalSame(s: seq<nat>, t: seq<nat>, l: nat)
    requires forall i :: 1 <= i <= l ==> At(s)(i) == At(t)(i)
    ensures Total(s, l) == Total(t, l)
  {
    if l > 0 {
      TotalSame(s, t, l - 1);
    }
  }

  function AddAt(s: seq<nat>, i: nat, d: int): (r: seq<nat>)
    requires i < |s| && s[i] + d >= 0
    ensures |r| == |s|
  {
    s[i := s[i] + d]
  }

  lemma AddedAt(s: seq<nat>, i: nat, d: int, l: nat)
    requires 1 <= i <= l < |s| && s[i] + d >= 0
    ensures KraftOf(AddAt(s, i, d), l) == KraftOf(s, l) + d * Pow2(l - i)
    ensures Total(AddAt(s, i, d), l) == Total(s, l) + d
  {
    KraftUpdate(s, i, s[i] + d, l);
  }

  // One code of i bits becomes two of i + 1; two of top bits become one of top - 1.
  function Shortened(s: seq<nat>, i: nat, top: nat): (r: seq<nat>)
    requires 1 <= i && i + 1 < top < |s| && s[i] >= 1 && s[top] >= 2
    ensures |r| == |s|
  {
    AddAt(AddAt(AddAt(AddAt(s, i, -1), i + 1, 2), top - 1, 1), top, -2)
  }

  // The greatest length below max that has a code; 0 for none.
  ghost function LongestBelow(s: seq<nat>, max: nat): (i: nat)
    requires max <= |s|
    ensures i == 0 || i < max
    ensures i > 0 ==> s[i] > 0 && forall l :: i < l < max ==> s[l] == 0
    ensures i == 0 ==> forall l :: 1 <= l < max ==> s[l] == 0
  {
    if max <= 1 then 0 else if s[max - 1] > 0 then max - 1 else LongestBelow(s, max - 1)
  }

  // As long as some codes have more than max bits, the greatest length below max is the one that
  // gives up a code. The counts in the end and the greatest length, if there always is one.
  ghost function Limited(s: seq<nat>, top: nat, max: nat): (r: Option<(seq<nat>, nat)>)
    requires 1 <= max && top < |s|
    ensures r.Some? ==> |r.value.0| == |s| && r.value.1 <= max && r.value.1 <= top
    decreases top, if top < |s| then s[top] else 0
  {
    if top <= max then Some((s, top))
    else
      var i := LongestBelow(s, max);
      if i == 0 || s[top] < 2 then None
      else
        var r := Shortened(s, i, top);
        if r[top] == 0 then Limited(r, top - 1, max) else Limited(r, top, max)
  }

  // What is counted under 0, or above the greatest length, plays no part.
  ghost predicate SameCounts(s: seq<nat>, t: seq<nat>, top: nat) {
    top < |s| && top < |t| && forall l :: 1 <= l <= top ==> s[l] == t[l]
  }

  lemma {:induction false} LongestBelowSame(s: seq<nat>, t: seq<nat>, top: nat, max: nat)
    requires SameCounts(s, t, top) && max <= top + 1
    ensures LongestBelow(s, max) == LongestBelow(t, max)
  {
    if max > 1 {
      LongestBelowSame(s, t, top, max - 1);
    }
  }

  lemma {:induction false} LimitedSame(s: seq<nat>, t: seq<nat>, top: nat, max: nat)
    requires SameCounts(s, t, top) && 1 <= max
    ensures Limited(s, top, max).Some? <==> Limited(t, top, max).Some?
    ensures
      var r, r' := Limited(s, top, max), Limited(t, top, max);
      r.Some? ==> r.value.1 == r'.value.1 && SameCounts(r.value.0, r'.value.0, r.value.1)
    decreases top, if top < |s| then s[top] else 0
  {
    if top > max {
      LongestBelowSame(s, t, top, max);
      var i := LongestBelow(s, max);
      if i > 0 && s[top] >= 2 {
        var r, r' := Shortened(s, i, top), Shortened(t, i, top);
        assert SameCounts(r, r', top);
        if r[top] == 0 {
          LimitedSame(r, r', top - 1, max);
        } else {
          LimitedSame(r, r', top, max);
        }
      }
    }
  }

  lemma ShortenedKeeps(s: seq<nat>, i: nat, top: nat)
    requires 1 <= i && i + 1 < top < |s| && s[i] >= 1 && s[top] >= 2
    ensures KraftOf(Shortened(s, i, top), top) == KraftOf(s, top)
    ensures Total(Shortened(s, i, top), top) == Total(s, top)
  {
    hide Total, Pow2, KraftOf;
    var s1 := AddAt(s, i, -1);
    var s2 := AddAt(s1, i + 1, 2);
    var s3 := AddAt(s2, top - 1, 1);
    AddedAt(s, i, -1, top);
    AddedAt(s1, i + 1, 2, top);
    AddedAt(s2, top - 1, 1, top);
    AddedAt(s3, top, -2, top);
    hide AddAt;
    ScaleStep(1, top - i - 1);
    SmallPowers();
    assert top - i == top - i - 1 + 1;
  }

  lemma SmallPowers()
    ensures Pow2(0) == 1 && Pow2(1) == 2
  {
  }

  // The longest codes of a complete code come in pairs.
  lemma LongestPaired(s: seq<nat>, top: nat)
    requires 1 <= top < |s| && KraftOf(s, top) == Pow2(top) && s[top] > 0
    ensures s[top] >= 2
  {
  }

  // A code is at most one of all the words of its length.
  lemma {:induction false} TotalBound(s: seq<nat>, l: nat)
    ensures Total(s, l) <= KraftOf(s, l)
  {
    if l > 0 {
      TotalBound(s, l - 1);
    }
  }

  // With no code shorter than max bits, a code of l >= max bits fills a 2^max-th part at most.
  lemma {:induction false} LongCodes(s: seq<nat>, max: nat, l: nat)
    requires 1 <= max <= l && forall i :: 1 <= i < max ==> At(s)(i) == 0
    ensures KraftOf(s, l) <= Total(s, l) * Pow2(l - max)
    ensures l > max && At(s)(l) > 0 ==> KraftOf(s, l) < Total(s, l) * Pow2(l - max)
  {
    if l == max {
      NoShortCodes(s, max - 1);
    } else {
      LongCodes(s, max, l - 1);
      LongStep(KraftOf(s, l - 1), Total(s, l - 1), At(s)(l), l - 1 - max);
    }
  }

  lemma LongStep(k: nat, t: nat, c: nat, e: nat)
    requires k <= t * Pow2(e)
    ensures 2 * k + c <= (t + c) * Pow2(e + 1)
    ensures c > 0 ==> 2 * k + c < (t + c) * Pow2(e + 1)
  {
    assert (t + c) * Pow2(e + 1) == 2 * (t * Pow2(e)) + 2 * (c * Pow2(e));
    assert c * Pow2(e) >= c by { if c > 0 { MulAtLeast(c, Pow2(e)); } }
  }

  lemma MulAtLeast(c: nat, p: nat)
    requires p >= 1
    ensures c * p >= c
  {
  }

  lemma {:induction false} NoShortCodes(s: seq<nat>, l: nat)
    requires forall i :: 1 <= i <= l ==> At(s)(i) == 0
    ensures KraftOf(s, l) == 0 && Total(s, l) == 0
  {
    if l > 0 {
      NoShortCodes(s, l - 1);
    }
  }

  lemma {:induction false} Pow2Sum(a: nat, b: nat)
    ensures Pow2(a + b) == Pow2(a) * Pow2(b)
  {
    if a > 0 {
      Pow2Sum(a - 1, b);
      assert 2 * Pow2(a - 1) * Pow2(b) == 2 * (Pow2(a - 1) * Pow2(b));
    }
  }

  lemma MulLess(a: nat, b: nat, p: nat)
    requires a * p < b * p
    ensures a < b
  {
    if a >= b {
      MulMonotone(b, a, p);
    }
  }

  lemma MulMonotone(a: nat, b: nat, p: nat)
    requires a <= b
    ensures a * p <= b * p
  {
  }

  // At most 2^max codes, one of them longer than max bits: then one is shorter than max bits.
  lemma ShorterCode(s: seq<nat>, max: nat, top: nat)
    requires 1 <= max < top < |s| && KraftOf(s, top) == Pow2(top) && s[top] > 0
    requires Total(s, top) <= Pow2(max)
    ensures exists i :: 1 <= i < max && s[i] != 0
  {
    if forall i :: 1 <= i < max ==> s[i] == 0 {
      hide Pow2, Total, KraftOf;
      LongCodes(s, max, top);
      Pow2Sum(max, top - max);
      assert top == max + (top - max);
      MulLess(Pow2(max), Total(s, top), Pow2(top - max));
    }
  }
}
