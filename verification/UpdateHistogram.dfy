/** isal_update_histogram_base: symbol histograms of a match search over a whole buffer, and the
    tokens that they count. */
module UpdateHistogram {
  import opened Counters
  import opened Rfc1951
  import opened HuffCodes
  import opened IcfCodes
  import opened IcfTables
  import opened Compare
  import opened HashTable
  import opened Flatten
  import opened Lz77
  import Greedy
  import HuffTables

  const D := 32768

  // The histograms have grown by the symbols of the tokens.
  ghost predicate Grown(ll: seq<nat>, dd: seq<nat>, ll0: seq<nat>, dd0: seq<nat>, tokens: seq<Icf>) {
    && |ll| == |ll0| == LIT_LEN && |dd| == |dd0| == DIST_LEN && Meaningful(tokens)
    && (forall i :: 0 <= i < |tokens| ==> tokens[i].litLen < LL_NUMBERS)
    && (forall s :: 0 <= s < LIT_LEN ==> ll[s] == ll0[s] + CountSymbol(tokens, s))
    && (forall s :: 0 <= s < DIST_LEN ==> dd[s] == dd0[s] + CountDist(tokens, s))
  }

  lemma GrownStart(ll: seq<nat>, dd: seq<nat>)
    requires |ll| == LIT_LEN && |dd| == DIST_LEN
    ensures Grown(ll, dd, ll, dd, [])
  {
  }

  lemma GrownMore(ll: seq<nat>, dd: seq<nat>, ll0: seq<nat>, dd0: seq<nat>, tokens: seq<Icf>, t: Icf)
    requires Grown(ll, dd, ll0, dd0, tokens) && Meaning(t).Some? && t.litLen < LL_NUMBERS
    ensures |ll| == LIT_LEN && |dd| == DIST_LEN
    ensures
      var ll' := ll[SymbolOf(t.litLen) := ll[SymbolOf(t.litLen)] + 1];
      var dd' := if t.litDist < DIST_LEN then dd[t.litDist := dd[t.litDist] + 1] else dd;
      Grown(ll', dd', ll0, dd0, tokens + [t])
  {
    hide Meaning, SymbolOf;
    var all := tokens + [t];
    assert all[..|all| - 1] == tokens;
  }

  // The search that is made here.
  function SearchOf(s: seq<bv8>, hash: seq<bv8> -> nat, limit: bool): Greedy.Search {
    Greedy.Search(s, 0, hash, limit, 32767)
  }

  // The hashes of a match but its first one.
  method HashMatch(s: seq<bv8>, hash: seq<bv8> -> nat, lastSeen: array<nat>, current: nat, length: nat, limit: bool)
    requires lastSeen.Length > 0 && AllName(lastSeen[..], current, 0) && current + length <= |s| && length >= 4
    modifies lastSeen
    ensures AllName(lastSeen[..], current + length, 0)
    ensures Greedy.HashEnd(SearchOf(s, hash, limit), Greedy.InHistogram, current, length) + 3 <= |s|
    ensures lastSeen[..] == Filled(old(lastSeen[..]), hash, s, current + 1,
                                   Greedy.HashEnd(SearchOf(s, hash, limit), Greedy.InHistogram, current, length), 0)
  {
    hide AllName, Filled;
    NamesLater(lastSeen[..], current, current + length, 0);
    var end := current + (if limit then 3 else length);
    if end > |s| - 3 {
      end := |s| - 3;
    }
    HashPositions(lastSeen, hash, s, current + 1, end, 0, current + length);
  }

  // lit_len_histogram[byte]++
  method CountLiteral(s: seq<bv8>, current: nat, ll: array<nat>, ghost dd: seq<nat>, ghost ll0: seq<nat>,
                      ghost dd0: seq<nat>, ghost tokens: seq<Icf>) returns (ghost more: seq<Icf>)
    requires Grown(ll[..], dd, ll0, dd0, tokens) && Describes(s, 0, current, tokens) && current < |s|
    modifies ll
    ensures Grown(ll[..], dd, ll0, dd0, more) && Describes(s, 0, current + 1, more)
    ensures more == tokens + [StepToken(s, current, 0, 0)]
  {
    hide Grown, Describes, Meaning;
    TokenMeans(3, 1, s[current]);
    ghost var t := Icf(s[current] as nat, NULL_DIST_SYM, 0);
    GrownMore(ll[..], dd, ll0, dd0, tokens, t);
    DescribesLiteral(s, 0, current, tokens);
    Increment(ll, s[current] as nat);
    more := tokens + [t];
  }

  // dist_histogram[convert_dist_to_dist_sym(dist)]++ and lit_len_histogram[convert_length_to_len_sym(length)]++
  method CountMatch(s: seq<bv8>, current: nat, length: nat, dist: nat, ll: array<nat>, dd: array<nat>,
                    ghost ll0: seq<nat>, ghost dd0: seq<nat>, ghost tokens: seq<Icf>) returns (ghost more: seq<Icf>)
    requires Grown(ll[..], dd[..], ll0, dd0, tokens) && Describes(s, 0, current, tokens) && ll != dd
    requires 3 <= length <= 258 && 1 <= dist <= 32768 && dist <= current && current + length <= |s|
    requires forall q :: current <= q < current + length ==> s[q] == s[q - dist]
    modifies ll, dd
    ensures Grown(ll[..], dd[..], ll0, dd0, more) && Describes(s, 0, current + length, more)
    ensures more == tokens + [StepToken(s, current, dist, length)]
  {
    hide Grown, Describes, Meaning, DistIcfCode, HuffTables.ConvertDistToDistSym, LenSym;
    TokenMeans(length, dist, 0);
    HuffTables.SameDistSym(dist);
    LenSymMeans(length);
    ghost var t := Icf(LenIcfCode(length), DistIcfCode(dist).0, DistIcfCode(dist).1);
    GrownMore(ll[..], dd[..], ll0, dd0, tokens, t);
    DescribesMatch(s, 0, current, tokens, length, dist);
    Increment(dd, HuffTables.ConvertDistToDistSym(dist));
    Increment(ll, LenSym(length));
    more := tokens + [t];
  }

  // One turn of the main loop, which is one of the search.
  method CountOne(s: seq<bv8>, hash: seq<bv8> -> nat, limit: bool, current: nat, lastSeen: array<nat>, ll: array<nat>,
                  dd: array<nat>, ghost ll0: seq<nat>, ghost dd0: seq<nat>, ghost tokens: seq<Icf>, ghost run: Greedy.State)
    returns (next: nat, ghost more: seq<Icf>)
    requires lastSeen.Length > 0 && lastSeen != ll && lastSeen != dd && ll != dd
    requires current + 4 <= |s| && AllName(lastSeen[..], current, 0)
    requires Grown(ll[..], dd[..], ll0, dd0, tokens) && Describes(s, 0, current, tokens)
    requires run.pos == current && run.table == lastSeen[..] && Mean(tokens, run.items)
    modifies lastSeen, ll, dd
    ensures current < next <= |s| && AllName(lastSeen[..], next, 0)
    ensures Grown(ll[..], dd[..], ll0, dd0, more) && Describes(s, 0, next, more)
    ensures
      var run' := Greedy.Next(SearchOf(s, hash, limit), Greedy.InHistogram, run);
      run'.pos == next && run'.table == lastSeen[..] && Mean(more, run'.items)
  {
    hide Grown, Describes, AllName, AgreesFor, Filled, HashAt, Index16, Mean, DistIcfCode, Greedy.HashEnd, Greedy.Next;
    var dist := LookUp(lastSeen, hash, s, current, 0);
    ghost var looked := lastSeen[..];
    // dist - 1 < D - 1, which fails for dist = 0 after wrapping
    if 1 <= dist < D {
      var maxLength := |s| - current;
      var length := Compare258(s[current - dist..], s[current..], maxLength);
      AgreesBytes(s, current, dist, length, if maxLength > 258 then 258 else maxLength);
      assert LongestMatch(s, current, dist, maxLength, length);
      if length >= SHORTEST_MATCH {
        HashMatch(s, hash, lastSeen, current, length, limit);
        more := CountMatch(s, current, length, dist, ll, dd, ll0, dd0, tokens);
        CountedTurn(s, hash, limit, run, dist, length, looked, lastSeen[..], tokens);
        return current + length, more;
      }
    }
    NamesLater(lastSeen[..], current, current + 1, 0);
    more := CountLiteral(s, current, ll, dd[..], ll0, dd0, tokens);
    CountedTurn(s, hash, limit, run, dist, 0, looked, lastSeen[..], tokens);
    next := current + 1;
  }

  lemma CountedTurn(s: seq<bv8>, hash: seq<bv8> -> nat, limit: bool, run: Greedy.State, dist: nat, length: nat,
                    looked: seq<nat>, table: seq<nat>, tokens: seq<Icf>)
    requires |run.table| > 0 && run.pos + 4 <= |s| && Mean(tokens, run.items)
    requires dist == (run.pos - run.table[HashAt(hash, |run.table|, s, run.pos)]) % 0x10000 && dist <= run.pos
    requires Chosen(s, run.pos, dist, 32767, |s| - run.pos, length)
    requires looked == run.table[HashAt(hash, |run.table|, s, run.pos) := Index16(run.pos, 0)]
    requires
      var g := SearchOf(s, hash, limit);
      length > 0 ==>
        Greedy.HashEnd(g, Greedy.InHistogram, run.pos, length) + 3 <= |s|
        && table == Filled(looked, hash, s, run.pos + 1, Greedy.HashEnd(g, Greedy.InHistogram, run.pos, length), 0)
    requires length == 0 ==> table == looked
    ensures length > 0 ==> 1 <= dist <= 32768
    ensures
      var run' := Greedy.Next(SearchOf(s, hash, limit), Greedy.InHistogram, run);
      && run'.pos == run.pos + (if length == 0 then 1 else length) && run'.table == table
      && Mean(tokens + [StepToken(s, run.pos, dist, length)], run'.items)
  {
    var g := SearchOf(s, hash, limit);
    Greedy.DistanceIs(g, run.table, run.pos);
    hide HashAt, Index16, Filled, Meaning, DistIcfCode, Greedy.Next, Greedy.Distance, Greedy.HashEnd;
    ChosenTaken(g, run.pos, dist, |s| - run.pos, length);
    Greedy.NextIs(g, Greedy.InHistogram, run, dist, length, looked, table);
    StepMeans(s, run.pos, dist, length);
  }

  // A turn of the loop over the last bytes.
  lemma LastTurn(s: seq<bv8>, hash: seq<bv8> -> nat, limit: bool, run: Greedy.State, tokens: seq<Icf>)
    requires |run.table| > 0 && |s| - 3 <= run.pos < |s| && Mean(tokens, run.items)
    ensures
      var run' := Greedy.Next(SearchOf(s, hash, limit), Greedy.InHistogram, run);
      && run'.pos == run.pos + 1 && run'.table == run.table
      && Mean(tokens + [StepToken(s, run.pos, 0, 0)], run'.items)
  {
    hide Meaning;
    StepMeans(s, run.pos, 0, 0);
  }

  // n turns of the search have come to this position and table, and found what the tokens mean.
  ghost predicate RanTo(g: Greedy.Search, start: Greedy.State, n: nat, pos: nat, table: seq<nat>, tokens: seq<Icf>)
    requires |start.table| > 0
  {
    var run := Greedy.Run(g, Greedy.InHistogram, start, n);
    run.pos == pos && run.table == table && Mean(tokens, run.items)
  }

  lemma NotRun(g: Greedy.Search, start: Greedy.State)
    requires |start.table| > 0 && start.items == []
    ensures RanTo(g, start, 0, start.pos, start.table, [])
  {
  }

  // isal_update_histogram_base: what is counted are the symbols of the literals and matches that the
  // greedy search finds, which expand to the buffer, and one end of block.
  method UpdateHistogramBase(s: seq<bv8>, hash: seq<bv8> -> nat, limit: bool, lastSeen: array<nat>, ll: array<nat>,
                             dd: array<nat>) returns (ghost tokens: seq<Icf>)
    requires lastSeen.Length > 0 && ll.Length == LIT_LEN && dd.Length == DIST_LEN
    requires lastSeen != ll && lastSeen != dd && ll != dd
    modifies lastSeen, ll, dd
    ensures s == [] ==> ll[..] == old(ll[..]) && dd[..] == old(dd[..])
    ensures s != [] ==> Meaningful(tokens) && Expand([], Items(tokens)) == Some(s)
    ensures s != [] ==>
              Mean(tokens, Greedy.Run(SearchOf(s, hash, limit), Greedy.InHistogram,
                                      Greedy.State(0, seq(lastSeen.Length, _ => 0), []), |s|).items)
    ensures forall i :: 0 <= i < |tokens| ==> tokens[i].litLen < LL_NUMBERS
    ensures s != [] ==> forall sym :: 0 <= sym < LIT_LEN ==>
              ll[sym] == old(ll[sym]) + CountSymbol(tokens, sym) + (if sym == 256 then 1 else 0)
    ensures s != [] ==> forall sym :: 0 <= sym < DIST_LEN ==> dd[sym] == old(dd[sym]) + CountDist(tokens, sym)
  {
    hide Grown, Describes, AllName, Mean, Greedy.Run, Greedy.Next;
    ghost var ll0, dd0 := ll[..], dd[..];
    tokens := [];
    if |s| == 0 {
      return;
    }
    for h := 0 to lastSeen.Length
      invariant ll[..] == ll0 && dd[..] == dd0
      invariant forall i :: 0 <= i < h ==> lastSeen[i] == 0
    {
      lastSeen[h] := 0;
    }
    AllZeros(lastSeen[..]);
    GrownStart(ll[..], dd[..]);
    DescribesStart(s);
    ghost var g, start, n := SearchOf(s, hash, limit), Greedy.State(0, lastSeen[..], []), 0;
    assert lastSeen[..] == seq(lastSeen.Length, _ => 0);
    NotRun(g, start);
    var current: nat := 0;
    while current < |s| - 3
      invariant current <= |s| && AllName(lastSeen[..], current, 0)
      invariant Grown(ll[..], dd[..], ll0, dd0, tokens) && Describes(s, 0, current, tokens)
      invariant RanTo(g, start, n, current, lastSeen[..], tokens)
    {
      ghost var run := Greedy.Run(g, Greedy.InHistogram, start, n);
      current, tokens := CountOne(s, hash, limit, current, lastSeen, ll, dd, ll0, dd0, tokens, run);
      n := n + 1;
      OneTurn(g, Greedy.InHistogram, start, n);
    }
    while current < |s|
      invariant |s| - 3 <= current <= |s|
      invariant Grown(ll[..], dd[..], ll0, dd0, tokens) && Describes(s, 0, current, tokens)
      invariant RanTo(g, start, n, current, lastSeen[..], tokens)
    {
      LastTurn(s, hash, limit, Greedy.Run(g, Greedy.InHistogram, start, n), tokens);
      tokens := CountLiteral(s, current, ll, dd[..], ll0, dd0, tokens);
      current := current + 1;
      n := n + 1;
      OneTurn(g, Greedy.InHistogram, start, n);
    }
    Greedy.AllTurns(g, Greedy.InHistogram, start, n);
    DescribesAll(s, tokens);
    GrownMeans(ll[..], dd[..], ll0, dd0, tokens);
    ghost var counted := ll[..];
    Increment(ll, 256);
    assert forall sym :: 0 <= sym < LIT_LEN ==> ll[sym] == counted[sym] + (if sym == 256 then 1 else 0);
  }

  lemma GrownMeans(ll: seq<nat>, dd: seq<nat>, ll0: seq<nat>, dd0: seq<nat>, tokens: seq<Icf>)
    requires Grown(ll, dd, ll0, dd0, tokens)
    ensures |ll| == |ll0| == LIT_LEN && |dd| == |dd0| == DIST_LEN
    ensures forall i :: 0 <= i < |tokens| ==> tokens[i].litLen < LL_NUMBERS
    ensures forall sym :: 0 <= sym < LIT_LEN ==> ll[sym] == ll0[sym] + CountSymbol(tokens, sym)
    ensures forall sym :: 0 <= sym < DIST_LEN ==> dd[sym] == dd0[sym] + CountDist(tokens, sym)
  {
  }

  lemma DescribesStart(s: seq<bv8>)
    ensures Describes(s, 0, 0, [])
  {
    assert Items([]) == [];
  }

  lemma DescribesAll(s: seq<bv8>, tokens: seq<Icf>)
    requires Describes(s, 0, |s|, tokens)
    ensures Meaningful(tokens) && Expand([], Items(tokens)) == Some(s)
  {
    assert s[..|s|] == s && s[..0] == [];
  }
}
