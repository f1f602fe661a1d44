/** rl_encode and section 3.2.7 of RFC 1951. */
module RunLength {
  import opened Counters
  import opened Rfc1951

  const HUFF_LEN := 19

  // struct rl_code
  datatype RlCode = RlCode(code: nat, extraBits: nat)

  // ---- section 3.2.7 ----

  function RlExtraBits(code: nat): nat {
    if code == 16 then 2 else if code == 17 then 3 else if code == 18 then 7 else 0
  }

  function Repeat(v: nat, n: nat): (s: seq<nat>)
    ensures |s| == n && forall i :: 0 <= i < n ==> s[i] == v
  {
    seq(n, _ => v)
  }

  // 0 to 15 are code lengths; 16 copies the previous one 3 to 6 times, 17 and 18 repeat a zero
  // 3 to 10 and 11 to 138 times.
  function RlEmit(lengths: seq<nat>, s: RlCode): Option<seq<nat>> {
    if s.extraBits >= Pow2(RlExtraBits(s.code)) then None
    else if s.code <= 15 then Some(lengths + [s.code])
    else if s.code == 16 then
      if lengths == [] then None else Some(lengths + Repeat(lengths[|lengths| - 1], 3 + s.extraBits))
    else if s.code == 17 then Some(lengths + Repeat(0, 3 + s.extraBits))
    else if s.code == 18 then Some(lengths + Repeat(0, 11 + s.extraBits))
    else None
  }

  function RlExpand(symbols: seq<RlCode>): Option<seq<nat>>
    decreases |symbols|
  {
    if symbols == [] then Some([])
    else
      match RlExpand(symbols[..|symbols| - 1])
      case None => None
      case Some(lengths) => RlEmit(lengths, symbols[|symbols| - 1])
  }

  function CountCode(symbols: seq<RlCode>, code: nat): nat {
    if symbols == [] then 0
    else CountCode(symbols[..|symbols| - 1], code) + (if symbols[|symbols| - 1].code == code then 1 else 0)
  }

  // The symbols stand for these lengths, and counts are their frequencies.
  ghost predicate Encodes(symbols: seq<RlCode>, lengths: seq<nat>, counts: seq<nat>) {
    && RlExpand(symbols) == Some(lengths) && |counts| == HUFF_LEN
    && forall c :: 0 <= c < HUFF_LEN ==> counts[c] == CountCode(symbols, c)
  }

  lemma EncodesMore(symbols: seq<RlCode>, lengths: seq<nat>, counts: seq<nat>, s: RlCode)
    requires Encodes(symbols, lengths, counts) && s.code < HUFF_LEN && RlEmit(lengths, s).Some?
    ensures |counts| == HUFF_LEN
    ensures Encodes(symbols + [s], RlEmit(lengths, s).value, counts[s.code := counts[s.code] + 1])
  {
    hide RlEmit;
    var all := symbols + [s];
    assert all[..|all| - 1] == symbols;
  }

  lemma EncodesNothing(counts: seq<nat>)
    requires |counts| == HUFF_LEN && forall c :: 0 <= c < HUFF_LEN ==> counts[c] == 0
    ensures Encodes([], [], counts)
  {
  }

  lemma RepeatMore(lengths: seq<nat>, v: nat, m: nat, n: nat)
    ensures lengths + Repeat(v, m) + Repeat(v, n) == lengths + Repeat(v, m + n)
    ensures Repeat(v, 0) == [] && Repeat(v, 1) == [v]
  {
  }

  lemma Extras()
    ensures Pow2(RlExtraBits(16)) == 4 && Pow2(RlExtraBits(17)) == 8 && Pow2(RlExtraBits(18)) == 128
    ensures forall c :: 0 <= c <= 15 ==> Pow2(RlExtraBits(c)) == 1
  {
  }

  // ---- the symbols that rl_encode chooses ----

  // n times the symbol of a length.
  function Copies(v: nat, n: nat): (s: seq<RlCode>)
    ensures |s| == n
  {
    seq(n, _ => RlCode(v, 0))
  }

  // As many zeros as a symbol takes, 138, until at most that many are left.
  function ZeroSymbols(run: nat): seq<RlCode> {
    if run > 138 then [RlCode(18, 127)] + ZeroSymbols(run - 138)
    else if run > 10 then [RlCode(18, run - 11)]
    else if run > 2 then [RlCode(17, run - 3)]
    else Copies(0, run)
  }

  // Copies of the last length, six at a time.
  function CopySymbols(v: nat, run: nat): seq<RlCode> {
    if run > 6 then [RlCode(16, 3)] + CopySymbols(v, run - 6)
    else if run > 2 then [RlCode(16, run - 3)]
    else Copies(v, run)
  }

  // What write_rl writes.
  function RunSymbols(v: nat, run: nat): seq<RlCode>
    requires run > 0
  {
    if v == 0 then ZeroSymbols(run) else [RlCode(v, 0)] + CopySymbols(v, run - 1)
  }

  // How often the first length comes first.
  function FirstRun(lengths: seq<nat>): (n: nat)
    requires lengths != []
    ensures 1 <= n <= |lengths|
    ensures forall k :: 0 <= k < n ==> lengths[k] == lengths[0]
    ensures n < |lengths| ==> lengths[n] != lengths[0]
  {
    if |lengths| == 1 || lengths[1] != lengths[0] then 1 else 1 + FirstRun(lengths[1..])
  }

  // Run by run.
  function RlSymbols(lengths: seq<nat>): seq<RlCode> {
    if lengths == [] then []
    else RunSymbols(lengths[0], FirstRun(lengths)) + RlSymbols(lengths[FirstRun(lengths)..])
  }

  lemma NextRun(lengths: seq<nat>, run: nat)
    requires 1 <= run <= |lengths| && (forall k :: 0 <= k < run ==> lengths[k] == lengths[0])
    requires run < |lengths| ==> lengths[run] != lengths[0]
    ensures RlSymbols(lengths) == RunSymbols(lengths[0], run) + RlSymbols(lengths[run..])
  {
    hide RunSymbols;
    assert FirstRun(lengths) == run;
  }

  // s goes on with the symbols of the run that is left.
  ghost predicate GoesOn(s: seq<RlCode>, left: seq<RlCode>, before: seq<RlCode>, all: seq<RlCode>) {
    s + left == before + all
  }

  lemma OneGone(s: seq<RlCode>, c: RlCode, left: seq<RlCode>, before: seq<RlCode>, all: seq<RlCode>)
    requires GoesOn(s, [c] + left, before, all)
    ensures GoesOn(s + [c], left, before, all)
    ensures left == [] ==> s + [c] == before + all
  {
    assert s + ([c] + left) == s + [c] + left;
  }

  lemma ZeroSteps(run: nat)
    ensures run > 138 ==> ZeroSymbols(run) == [RlCode(18, 127)] + ZeroSymbols(run - 138)
    ensures 10 < run <= 138 ==> ZeroSymbols(run) == [RlCode(18, run - 11)] + []
    ensures 2 < run <= 10 ==> ZeroSymbols(run) == [RlCode(17, run - 3)] + []
    ensures run == 2 ==> ZeroSymbols(run) == [RlCode(0, 0)] + ZeroSymbols(1)
    ensures run == 1 ==> ZeroSymbols(run) == [RlCode(0, 0)] + []
  {
  }

  lemma CopySteps(v: nat, run: nat)
    ensures run > 6 ==> CopySymbols(v, run) == [RlCode(16, 3)] + CopySymbols(v, run - 6)
    ensures 2 < run <= 6 ==> CopySymbols(v, run) == [RlCode(16, run - 3)] + []
    ensures run == 2 ==> CopySymbols(v, run) == [RlCode(v, 0)] + CopySymbols(v, 1)
    ensures run == 1 ==> CopySymbols(v, run) == [RlCode(v, 0)] + []
    ensures run == 0 ==> CopySymbols(v, run) == []
  {
  }

  // *pout = (code, extra); pout++; counts[code]++
  method Put(out: array<RlCode>, p: nat, code: nat, extra: nat, counts: array<nat>, ghost lengths: seq<nat>)
    returns (p': nat)
    requires p < out.Length && code < HUFF_LEN && Encodes(out[..p], lengths, counts[..])
    requires RlEmit(lengths, RlCode(code, extra)).Some?
    modifies out, counts
    ensures p' == p + 1 && out[..p'] == old(out[..p]) + [RlCode(code, extra)]
    ensures Encodes(out[..p'], RlEmit(lengths, RlCode(code, extra)).value, counts[..])
  {
    hide Encodes, RlEmit;
    EncodesMore(out[..p], lengths, counts[..], RlCode(code, extra));
    ghost var before, c := out[..p], counts[..];
    out[p] := RlCode(code, extra);
    assert out[..p + 1] == before + [RlCode(code, extra)];
    Increment(counts, code);
    p' := p + 1;
  }

  // One symbol for n zeros, or for n more of the last length.
  lemma EmitIs(lengths: seq<nat>, v: nat, n: nat)
    ensures v <= 15 ==> RlEmit(lengths, RlCode(v, 0)) == Some(lengths + Repeat(v, 1))
    ensures 3 <= n <= 10 ==> RlEmit(lengths, RlCode(17, n - 3)) == Some(lengths + Repeat(0, n))
    ensures 11 <= n <= 138 ==> RlEmit(lengths, RlCode(18, n - 11)) == Some(lengths + Repeat(0, n))
    ensures 3 <= n <= 6 && lengths != [] && lengths[|lengths| - 1] == v ==>
              RlEmit(lengths, RlCode(16, n - 3)) == Some(lengths + Repeat(v, n))
  {
    Extras();
    hide Pow2;
    RepeatMore(lengths, v, 0, 1);
  }

  // write_rl for a run of zeros
  method WriteZeros(out: array<RlCode>, p0: nat, run: nat, counts: array<nat>, ghost lengths: seq<nat>) returns (p: nat)
    requires 1 <= run && p0 + run <= out.Length && Encodes(out[..p0], lengths, counts[..])
    modifies out, counts
    ensures p0 <= p <= p0 + run && out[..p] == old(out[..p0]) + ZeroSymbols(run)
    ensures Encodes(out[..p], lengths + Repeat(0, run), counts[..])
  {
    hide Encodes, RlEmit, Repeat, ZeroSymbols, GoesOn;
    p := p0;
    var runLen := run;
    ghost var cur, before, all := lengths, out[..p0], ZeroSymbols(run);
    RepeatMore(lengths, 0, 0, 1);
    AllToGo(before, all);
    while runLen > 138
      invariant 1 <= runLen <= run && p0 <= p <= p0 + (run - runLen)
      invariant cur == lengths + Repeat(0, run - runLen) && Encodes(out[..p], cur, counts[..])
      invariant GoesOn(out[..p], ZeroSymbols(runLen), before, all)
    {
      EmitIs(cur, 0, 138);
      ZeroSteps(runLen);
      OneGone(out[..p], RlCode(18, 127), ZeroSymbols(runLen - 138), before, all);
      p := Put(out, p, 18, 138 - 11, counts, cur);
      RepeatMore(lengths, 0, run - runLen, 138);
      cur := cur + Repeat(0, 138);
      runLen := runLen - 138;
    }
    RepeatMore(lengths, 0, run - runLen, runLen);
    p := LastZeros(out, p, runLen, counts, cur, before, all);
  }

  lemma AllToGo(before: seq<RlCode>, all: seq<RlCode>)
    ensures GoesOn(before, all, before, all)
  {
  }

  // What one or two symbols are enough for.
  method LastZeros(out: array<RlCode>, p0: nat, run: nat, counts: array<nat>, ghost lengths: seq<nat>,
                   ghost before: seq<RlCode>, ghost all: seq<RlCode>) returns (p: nat)
    requires 1 <= run <= 138 && p0 + run <= out.Length && Encodes(out[..p0], lengths, counts[..])
    requires GoesOn(out[..p0], ZeroSymbols(run), before, all)
    modifies out, counts
    ensures p0 <= p <= p0 + run && out[..p] == before + all
    ensures Encodes(out[..p], lengths + Repeat(0, run), counts[..])
  {
    hide Encodes, RlEmit, Repeat, ZeroSymbols, GoesOn;
    EmitIs(lengths, 0, run);
    ZeroSteps(run);
    if run > 10 {
      OneGone(out[..p0], RlCode(18, run - 11), [], before, all);
      p := Put(out, p0, 18, run - 11, counts, lengths);
    } else if run > 2 {
      OneGone(out[..p0], RlCode(17, run - 3), [], before, all);
      p := Put(out, p0, 17, run - 3, counts, lengths);
    } else if run == 1 {
      OneGone(out[..p0], RlCode(0, 0), [], before, all);
      p := Put(out, p0, 0, 0, counts, lengths);
    } else {
      OneGone(out[..p0], RlCode(0, 0), ZeroSymbols(1), before, all);
      p := Put(out, p0, 0, 0, counts, lengths);
      EmitIs(lengths + Repeat(0, 1), 0, 1);
      RepeatMore(lengths, 0, 1, 1);
      ZeroSteps(1);
      OneGone(out[..p], RlCode(0, 0), [], before, all);
      p := Put(out, p, 0, 0, counts, lengths + Repeat(0, 1));
    }
  }

  // write_rl for a run of another length
  method WriteRun(out: array<RlCode>, p0: nat, v: nat, run: nat, counts: array<nat>, ghost lengths: seq<nat>)
    returns (p: nat)
    requires 1 <= v <= 15 && 1 <= run && p0 + run <= out.Length && Encodes(out[..p0], lengths, counts[..])
    modifies out, counts
    ensures p0 <= p <= p0 + run && out[..p] == old(out[..p0]) + RunSymbols(v, run)
    ensures Encodes(out[..p], lengths + Repeat(v, run), counts[..])
  {
    hide Encodes, RlEmit, CopySymbols, GoesOn;
    EmitIs(lengths, v, 1);
    ghost var before, all := out[..p0], RunSymbols(v, run);
    AllToGo(before, all);
    OneGone(before, RlCode(v, 0), CopySymbols(v, run - 1), before, all);
    p := Put(out, p0, v, 0, counts, lengths);
    var runLen := run - 1;
    ghost var cur := lengths + Repeat(v, 1);
    CopySteps(v, 0);
    if runLen != 0 {
      while runLen > 6
        invariant 1 <= runLen < run && p0 <= p <= p0 + (run - runLen)
        invariant cur == lengths + Repeat(v, run - runLen) && Encodes(out[..p], cur, counts[..])
        invariant GoesOn(out[..p], CopySymbols(v, runLen), before, all)
      {
        EmitIs(cur, v, 6);
        CopySteps(v, runLen);
        OneGone(out[..p], RlCode(16, 3), CopySymbols(v, runLen - 6), before, all);
        p := Put(out, p, 16, 6 - 3, counts, cur);
        RepeatMore(lengths, v, run - runLen, 6);
        cur := cur + Repeat(v, 6);
        runLen := runLen - 6;
      }
      RepeatMore(lengths, v, run - runLen, runLen);
      p := LastCopies(out, p, v, runLen, counts, cur, before, all);
    }
  }

  method LastCopies(out: array<RlCode>, p0: nat, v: nat, run: nat, counts: array<nat>, ghost lengths: seq<nat>,
                    ghost before: seq<RlCode>, ghost all: seq<RlCode>) returns (p: nat)
    requires 1 <= v <= 15 && 1 <= run <= 6 && p0 + run <= out.Length && Encodes(out[..p0], lengths, counts[..])
    requires lengths != [] && lengths[|lengths| - 1] == v && GoesOn(out[..p0], CopySymbols(v, run), before, all)
    modifies out, counts
    ensures p0 <= p <= p0 + run && out[..p] == before + all
    ensures Encodes(out[..p], lengths + Repeat(v, run), counts[..])
  {
    hide Encodes, RlEmit, CopySymbols, GoesOn;
    EmitIs(lengths, v, run);
    CopySteps(v, run);
    if run == 1 {
      OneGone(out[..p0], RlCode(v, 0), [], before, all);
      p := Put(out, p0, v, 0, counts, lengths);
    } else if run == 2 {
      OneGone(out[..p0], RlCode(v, 0), CopySymbols(v, 1), before, all);
      p := Put(out, p0, v, 0, counts, lengths);
      EmitIs(lengths + Repeat(v, 1), v, 1);
      RepeatMore(lengths, v, 1, 1);
      CopySteps(v, 1);
      OneGone(out[..p], RlCode(v, 0), [], before, all);
      p := Put(out, p, v, 0, counts, lengths + Repeat(v, 1));
    } else {
      OneGone(out[..p0], RlCode(16, run - 3), [], before, all);
      p := Put(out, p0, 16, run - 3, counts, lengths);
    }
  }

  method WriteRl(out: array<RlCode>, p0: nat, lastLen: nat, run: nat, counts: array<nat>, ghost lengths: seq<nat>)
    returns (p: nat)
    requires lastLen <= 15 && 1 <= run && p0 + run <= out.Length && Encodes(out[..p0], lengths, counts[..])
    modifies out, counts
    ensures p0 <= p <= p0 + run && out[..p] == old(out[..p0]) + RunSymbols(lastLen, run)
    ensures Encodes(out[..p], lengths + Repeat(lastLen, run), counts[..])
  {
    if lastLen == 0 {
      p := WriteZeros(out, p0, run, counts, lengths);
    } else {
      p := WriteRun(out, p0, lastLen, run, counts, lengths);
    }
  }

  // rl_encode: its symbols stand for the lengths run by run, expand to them, are no more than them,
  // and counts are their frequencies.
  method RlEncode(codes: array<nat>, numCodes: nat, counts: array<nat>, out: array<RlCode>) returns (n: nat)
    requires 1 <= numCodes <= codes.Length && numCodes <= out.Length && counts.Length == HUFF_LEN && counts != codes
    requires forall i :: 0 <= i < numCodes ==> codes[i] <= 15
    requires forall c :: 0 <= c < HUFF_LEN ==> counts[c] == 0
    modifies counts, out
    ensures n <= numCodes && out[..n] == RlSymbols(codes[..numCodes])
    ensures RlExpand(out[..n]) == Some(codes[..numCodes])
    ensures forall c :: 0 <= c < HUFF_LEN ==> counts[c] == CountCode(out[..n], c)
  {
    hide Encodes, GoesOn, RlSymbols, RunSymbols;
    EncodesNothing(counts[..]);
    assert out[..0] == [];
    ghost var all := codes[..numCodes];
    AllToGo([], RlSymbols(all));
    assert codes[0..numCodes] == all;
    var p, lastLen, runLen := 0, codes[0], 1;
    for i := 1 to numCodes
      invariant 1 <= runLen <= i && p <= i - runLen && lastLen <= 15
      invariant forall k :: i - runLen <= k < i ==> codes[k] == lastLen
      invariant Encodes(out[..p], codes[..i - runLen], counts[..])
      invariant GoesOn(out[..p], RlSymbols(codes[i - runLen..numCodes]), [], RlSymbols(all))
    {
      var len := codes[i];
      if len == lastLen {
        runLen := runLen + 1;
      } else {
        RunEnds(codes[..], i, runLen, lastLen);
        RunGone(codes[..], i - runLen, runLen, numCodes, out[..p], RlSymbols(all));
        p := WriteRl(out, p, lastLen, runLen, counts, codes[..i - runLen]);
        lastLen, runLen := len, 1;
      }
    }
    RunEnds(codes[..], numCodes, runLen, lastLen);
    RunGone(codes[..], numCodes - runLen, runLen, numCodes, out[..p], RlSymbols(all));
    n := WriteRl(out, p, lastLen, runLen, counts, codes[..numCodes - runLen]);
    EncodesMeans(out[..n], codes[..numCodes], counts[..]);
    NothingLeft(codes[numCodes..numCodes], out[..n], RlSymbols(all));
  }

  // With the symbols of a whole run, those of the lengths behind it are left.
  lemma RunGone(codes: seq<nat>, from: nat, run: nat, n: nat, s: seq<RlCode>, all: seq<RlCode>)
    requires 1 <= run && from + run <= n <= |codes| && (forall k :: from <= k < from + run ==> codes[k] == codes[from])
    requires from + run < n ==> codes[from + run] != codes[from]
    requires GoesOn(s, RlSymbols(codes[from..n]), [], all)
    ensures GoesOn(s + RunSymbols(codes[from], run), RlSymbols(codes[from + run..n]), [], all)
  {
    hide RlSymbols, RunSymbols;
    NextRun(codes[from..n], run);
    assert codes[from..n][run..] == codes[from + run..n];
    var a, b := RunSymbols(codes[from], run), RlSymbols(codes[from + run..n]);
    assert s + (a + b) == s + a + b;
  }

  lemma NothingLeft(lengths: seq<nat>, s: seq<RlCode>, all: seq<RlCode>)
    requires lengths == [] && GoesOn(s, RlSymbols(lengths), [], all)
    ensures s == all
  {
    assert s + [] == s && [] + all == all;
  }

  lemma RunEnds(codes: seq<nat>, i: nat, run: nat, v: nat)
    requires run <= i <= |codes| && forall k :: i - run <= k < i ==> codes[k] == v
    ensures codes[..i - run] + Repeat(v, run) == codes[..i]
  {
  }

  lemma EncodesMeans(symbols: seq<RlCode>, lengths: seq<nat>, counts: seq<nat>)
    requires Encodes(symbols, lengths, counts)
    ensures RlExpand(symbols) == Some(lengths) && |counts| == HUFF_LEN
    ensures forall c :: 0 <= c < HUFF_LEN ==> counts[c] == CountCode(symbols, c)
  {
  }
}
