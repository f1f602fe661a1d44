/** The match finder of the intermediate format. */
module Lz77 {
  import opened Counters
  import opened Rfc1951
  import opened IcfCodes
  import opened Compare
  import opened HashTable
  import Greedy

  const ISAL_LOOK_AHEAD := 288
  const MAX_MATCH := 258
  const LL_SYMBOLS := 513
  const D_SYMBOLS := 30

  datatype ZState = Body | FlushReadBuffer | CreateHdr

  ghost predicate Meaningful(tokens: seq<Icf>) {
    forall i :: 0 <= i < |tokens| ==> Meaning(tokens[i]).Some?
  }

  ghost function Items(tokens: seq<Icf>): (items: seq<Item>)
    requires Meaningful(tokens)
    ensures |items| == |tokens|
  {
    seq(|tokens|, i requires 0 <= i < |tokens| => Meaning(tokens[i]).value)
  }

  // The tokens stand for these items, one by one.
  ghost predicate Mean(tokens: seq<Icf>, items: seq<Item>) {
    |tokens| == |items| && forall i :: 0 <= i < |tokens| ==> Meaning(tokens[i]) == Some(items[i])
  }

  lemma MeanItems(tokens: seq<Icf>, items: seq<Item>)
    requires Mean(tokens, items)
    ensures Meaningful(tokens) && Items(tokens) == items
  {
    hide Meaning;
  }

  lemma MeanLength(tokens: seq<Icf>, items: seq<Item>)
    requires Mean(tokens, items)
    ensures |tokens| == |items|
  {
  }

  // What has been added to the tokens since means the items, and one more token one more item.
  lemma MeanMore(start: seq<Icf>, tokens: seq<Icf>, more: seq<Icf>, items: seq<Item>, one: seq<Item>)
    requires start <= tokens <= more && Mean(tokens[|start|..], items) && Mean(more[|tokens|..], one)
    ensures start <= more && Mean(more[|start|..], items + one)
  {
    hide Meaning;
    assert more[|start|..] == tokens[|start|..] + more[|tokens|..];
  }

  function CountLitLen(tokens: seq<Icf>, s: nat): nat {
    if tokens == [] then 0
    else
      var last := tokens[|tokens| - 1];
      CountLitLen(tokens[..|tokens| - 1], s) + (if last.litLen == s then 1 else 0)
  }

  function CountDist(tokens: seq<Icf>, s: nat): nat {
    if tokens == [] then 0
    else
      var last := tokens[|tokens| - 1];
      CountDist(tokens[..|tokens| - 1], s) + (if last.litDist == s then 1 else 0)
  }

  // The histograms are the frequencies of the tokens.
  ghost predicate Frequencies(ll: seq<nat>, dd: seq<nat>, tokens: seq<Icf>) {
    && |ll| == LL_SYMBOLS && |dd| == D_SYMBOLS
    && (forall s :: 0 <= s < LL_SYMBOLS ==> ll[s] == CountLitLen(tokens, s))
    && (forall s :: 0 <= s < D_SYMBOLS ==> dd[s] == CountDist(tokens, s))
  }

  lemma FrequenciesMore(ll: seq<nat>, dd: seq<nat>, tokens: seq<Icf>, t: Icf)
    requires Frequencies(ll, dd, tokens) && t.litLen < LL_SYMBOLS
    ensures |ll| == LL_SYMBOLS && |dd| == D_SYMBOLS
    ensures Frequencies(ll[t.litLen := ll[t.litLen] + 1],
                        if t.litDist < D_SYMBOLS then dd[t.litDist := dd[t.litDist] + 1] else dd, tokens + [t])
  {
    assert (tokens + [t])[..|tokens|] == tokens;
  }

  lemma NoFrequencies(ll: seq<nat>, dd: seq<nat>)
    requires |ll| == LL_SYMBOLS && |dd| == D_SYMBOLS
    requires (forall s :: 0 <= s < |ll| ==> ll[s] == 0) && forall s :: 0 <= s < |dd| ==> dd[s] == 0
    ensures Frequencies(ll, dd, [])
  {
  }

  // Tokens written since start say what the file holds from start to pos.
  ghost predicate Describes(file: seq<bv8>, start: nat, pos: nat, tokens: seq<Icf>) {
    && start <= pos <= |file| && Meaningful(tokens)
    && Expand(file[..start], Items(tokens)) == Some(file[..pos])
  }

  lemma DescribesLiteral(file: seq<bv8>, start: nat, pos: nat, tokens: seq<Icf>)
    requires Describes(file, start, pos, tokens) && pos < |file|
    ensures Describes(file, start, pos + 1, tokens + [Icf(file[pos] as nat, NULL_DIST_SYM, 0)])
  {
    var t := Icf(file[pos] as nat, NULL_DIST_SYM, 0);
    TokenMeans(3, 1, file[pos]);
    hide Meaning, DistIcfCode;
    var items := Items(tokens + [t]);
    assert items[..|tokens|] == Items(tokens);
    assert file[..pos + 1] == file[..pos] + [file[pos]];
  }

  lemma DescribesMatch(file: seq<bv8>, start: nat, pos: nat, tokens: seq<Icf>, length: nat, dist: nat)
    requires Describes(file, start, pos, tokens) && pos + length <= |file|
    requires 3 <= length <= 258 && 1 <= dist <= 32768 && dist <= pos
    requires forall q :: pos <= q < pos + length ==> file[q] == file[q - dist]
    ensures Describes(file, start, pos + length,
                      tokens + [Icf(LenIcfCode(length), DistIcfCode(dist).0, DistIcfCode(dist).1)])
  {
    var t := Icf(LenIcfCode(length), DistIcfCode(dist).0, DistIcfCode(dist).1);
    TokenMeans(length, dist, 0);
    hide Meaning, DistIcfCode;
    var items := Items(tokens + [t]);
    assert items[..|tokens|] == Items(tokens);
    CopyMatches(file, pos, length, dist);
  }

  // What one step takes at the distance that the hash table gives: the length of the longest match
  // there, if it is one of four bytes or more, and otherwise 0, for a literal.
  ghost predicate Chosen(file: seq<bv8>, pos: nat, dist: nat, distMask: nat, lookAhead: nat, length: nat)
    requires dist <= pos && pos + lookAhead <= |file|
  {
    if 1 <= dist <= distMask then
      exists n: nat :: LongestMatch(file, pos, dist, lookAhead, n) && length == if n >= SHORTEST_MATCH then n else 0
    else length == 0
  }

  ghost predicate LongestMatch(file: seq<bv8>, pos: nat, dist: nat, lookAhead: nat, n: nat)
    requires dist <= pos && pos + lookAhead <= |file|
  {
    AgreesFor(file[pos - dist..], file[pos..], n, if lookAhead > MAX_MATCH then MAX_MATCH else lookAhead)
  }

  // The token of such a step.
  function StepToken(file: seq<bv8>, pos: nat, dist: nat, length: nat): Icf
    requires pos < |file| && (length > 0 ==> 1 <= dist <= 32768)
  {
    if length == 0 then Icf(file[pos] as nat, NULL_DIST_SYM, 0)
    else Icf(LenIcfCode(length), DistIcfCode(dist).0, DistIcfCode(dist).1)
  }

  // The length that is chosen is the one that the greedy search takes.
  lemma ChosenTaken(g: Greedy.Search, pos: nat, dist: nat, lookAhead: nat, length: nat)
    requires dist <= pos && pos + lookAhead <= |g.file| && Chosen(g.file, pos, dist, g.window, lookAhead, length)
    ensures length == Greedy.Taken(g, pos, dist, lookAhead)
  {
    if 1 <= dist <= g.window {
      var n: nat :| LongestMatch(g.file, pos, dist, lookAhead, n) && length == if n >= SHORTEST_MATCH then n else 0;
      Greedy.AgreeingIs(g.file, pos, dist, n, if lookAhead > MAX_MATCH then MAX_MATCH else lookAhead);
    }
  }

  lemma StepMeans(file: seq<bv8>, pos: nat, dist: nat, length: nat)
    requires pos < |file| && (length > 0 ==> 1 <= dist <= 32768 && 3 <= length <= 258)
    ensures Mean([StepToken(file, pos, dist, length)], [if length == 0 then Literal(file[pos]) else Pair(length, dist)])
  {
    hide Meaning, DistIcfCode;
    TokenMeans(if length == 0 then 3 else length, if length == 0 then 1 else dist, file[pos]);
  }

  lemma OneTurn(g: Greedy.Search, phase: Greedy.Phase, s: Greedy.State, n: nat)
    requires |s.table| > 0 && n > 0 && Greedy.CanGo(g, phase, Greedy.Run(g, phase, s, n - 1).pos)
    ensures Greedy.Run(g, phase, s, n) == Greedy.Next(g, phase, Greedy.Run(g, phase, s, n - 1))
  {
    hide Greedy.Next, Greedy.CanGo;
  }

  function PhaseOf(finish: bool): Greedy.Phase {
    if finish then Greedy.InFinish else Greedy.InBody
  }

  class IcfStream {
    // compute_hash on the four bytes at a position, before masking
    const hash: seq<bv8> -> nat
    const limitHashUpdate: bool
    const distMask: nat
    const lastSeen: array<nat>
    const llHist: array<nat>
    const dHist: array<nat>

    // The file up to the end of the available input; totalIn bytes of it are consumed.
    var input: seq<bv8>
    var totalIn: nat
    var endOfStream: bool
    var flushing: bool
    var state: ZState
    // The token buffer and the room left in it.
    var tokens: seq<Icf>
    var availOut: nat
    // block_next and block_end: where the first token of the buffer starts, and where the last call
    // left off.
    var blockStart: nat
    var blockEnd: nat
    // has_hist is IGZIP_HIST
    var hasHist: bool

    // A stream at its start, with all hash table entries naming its first byte.
    constructor (file: seq<bv8>, hash: seq<bv8> -> nat, hashSize: nat, limitHashUpdate: bool, distMask: nat, room: nat,
                 endOfStream: bool, flushing: bool)
      requires hashSize > 0 && distMask <= 32768
      ensures Valid() && input == file && tokens == [] && blockStart == blockEnd == totalIn == 0 && availOut == room
      ensures state == Body && !hasHist && lastSeen[..] == seq(hashSize, _ => 0)
      ensures Search() == Greedy.Search(file, 0, hash, limitHashUpdate, distMask)
      ensures fresh(lastSeen) && fresh(llHist) && fresh(dHist)
    {
      hide AllName;
      this.hash, this.limitHashUpdate, this.distMask := hash, limitHashUpdate, distMask;
      lastSeen := new nat[hashSize](_ => 0);
      llHist := new nat[LL_SYMBOLS](_ => 0);
      dHist := new nat[D_SYMBOLS](_ => 0);
      input, totalIn, tokens, availOut, blockStart, blockEnd, hasHist := file, 0, [], room, 0, 0, false;
      this.endOfStream, this.flushing, state := endOfStream, flushing, Body;
      new;
      ResetMatchHistory(lastSeen, 0, 0);
      NoFrequencies(llHist[..], dHist[..]);
      assert file[..0] == [] && Items([]) == [];
    }

    ghost predicate Shape()
      reads this
    {
      && lastSeen.Length > 0 && llHist.Length == LL_SYMBOLS && dHist.Length == D_SYMBOLS
      && lastSeen != llHist && lastSeen != dHist && llHist != dHist
      && distMask <= 32768 && totalIn <= |input|
    }

    ghost function Search(): Greedy.Search
      reads this`input
    {
      Greedy.Search(input, 0, hash, limitHashUpdate, distMask)
    }

    // Where the search is, with nothing found yet.
    ghost function Here(): (s: Greedy.State)
      reads this`totalIn, lastSeen
      ensures |s.table| == lastSeen.Length && s.pos == totalIn
    {
      Greedy.State(totalIn, lastSeen[..], [])
    }

    // The search has come to s, and its items are the tokens that were added to start.
    ghost predicate Reached(s: Greedy.State, start: seq<Icf>)
      reads this`totalIn, this`tokens, lastSeen
    {
      totalIn == s.pos && lastSeen[..] == s.table && start <= tokens && Mean(tokens[|start|..], s.items)
    }

    ghost predicate Counted()
      reads this, llHist, dHist
    {
      Frequencies(llHist[..], dHist[..], tokens)
    }

    ghost predicate SeenUpTo(pos: nat)
      reads this, lastSeen
    {
      AllName(lastSeen[..], pos, 0)
    }

    ghost predicate Valid()
      reads this, lastSeen, llHist, dHist
    {
      Shape() && Counted() && SeenUpTo(totalIn) && Describes(input, blockStart, totalIn, tokens)
    }

    // for (; next_hash < end; next_hash++) last_seen[hash] = next_hash
    method HashRange(from: nat, end: nat, ghost limit: nat)
      requires lastSeen.Length > 0 && SeenUpTo(totalIn) && totalIn <= limit && end <= limit
      requires from < end ==> end + 3 <= |input|
      modifies lastSeen
      ensures SeenUpTo(limit) && lastSeen[..] == Filled(old(lastSeen[..]), hash, input, from, end, 0)
    {
      hide AllName;
      NamesLater(lastSeen[..], totalIn, limit, 0);
      HashPositions(lastSeen, hash, input, from, end, 0, limit);
    }

    // get_lit_icf_code, the histogram and write_deflate_icf for a literal
    method PutLiteral()
      requires Valid() && totalIn < |input| && availOut > 0
      modifies this`tokens, this`availOut, this`totalIn, llHist
      ensures Valid() && totalIn == old(totalIn) + 1
      ensures availOut == old(availOut) - 1
      ensures tokens == old(tokens) + [Icf(input[old(totalIn)] as nat, NULL_DIST_SYM, 0)]
    {
      hide Describes, AllName, Frequencies;
      DescribesLiteral(input, blockStart, totalIn, tokens);
      NamesLater(lastSeen[..], totalIn, totalIn + 1, 0);
      var code := input[totalIn] as nat;
      FrequenciesMore(llHist[..], dHist[..], tokens, Icf(code, NULL_DIST_SYM, 0));
      Increment(llHist, code);
      tokens := tokens + [Icf(code, NULL_DIST_SYM, 0)];
      availOut := availOut - 1;
      totalIn := totalIn + 1;
    }

    // get_len_icf_code, get_dist_icf_code, the histograms and write_deflate_icf for a match
    method PutMatch(length: nat, dist: nat)
      requires Shape() && Counted() && Describes(input, blockStart, totalIn, tokens)
      requires 3 <= length <= MAX_MATCH && totalIn + length <= |input|
      requires 1 <= dist <= 32768 && dist <= totalIn && availOut > 0
      requires forall q :: totalIn <= q < totalIn + length ==> input[q] == input[q - dist]
      requires SeenUpTo(totalIn + length)
      modifies this`tokens, this`availOut, this`totalIn, llHist, dHist
      ensures Valid() && totalIn == old(totalIn) + length
      ensures availOut == old(availOut) - 1
      ensures tokens == old(tokens) + [Icf(LenIcfCode(length), DistIcfCode(dist).0, DistIcfCode(dist).1)]
    {
      hide Describes, AllName, Frequencies;
      DescribesMatch(input, blockStart, totalIn, tokens, length, dist);
      DistIcfCodeMeans(dist);
      hide DistIcfCode;
      var code := LenIcfCode(length);
      var (code2, extraBits) := DistIcfCode(dist);
      FrequenciesMore(llHist[..], dHist[..], tokens, Icf(code, code2, extraBits));
      Increment(llHist, code);
      Increment(dHist, code2);
      tokens := tokens + [Icf(code, code2, extraBits)];
      availOut := availOut - 1;
      totalIn := totalIn + length;
    }

    // compare258(next_in - dist, next_in, max_length)
    method MatchLength(dist: nat, maxLength: nat) returns (length: nat)
      requires 1 <= dist <= totalIn && totalIn + maxLength <= |input|
      ensures length <= maxLength && length <= MAX_MATCH && LongestMatch(input, totalIn, dist, maxLength, length)
      ensures forall q :: totalIn <= q < totalIn + length ==> input[q] == input[q - dist]
    {
      hide AgreesFor;
      var str1, str2 := input[totalIn - dist..], input[totalIn..];
      length := Compare258(str1, str2, maxLength);
      AgreesBytes(input, totalIn, dist, length, if maxLength > 258 then 258 else maxLength);
    }

    // The hashes of a match but its first one, and then the match itself.
    method TakeMatch(length: nat, dist: nat, finish: bool)
      requires Valid() && availOut > 0 && 4 <= length <= MAX_MATCH && 1 <= dist <= 32768 && dist <= totalIn
      requires totalIn + length <= |input| && (finish || totalIn + length + 3 <= |input|)
      requires forall q :: totalIn <= q < totalIn + length ==> input[q] == input[q - dist]
      modifies this`tokens, this`availOut, this`totalIn, lastSeen, llHist, dHist
      ensures Valid() && totalIn == old(totalIn) + length && availOut == old(availOut) - 1
      ensures tokens == old(tokens) + [Icf(LenIcfCode(length), DistIcfCode(dist).0, DistIcfCode(dist).1)]
      ensures Greedy.HashEnd(Search(), PhaseOf(finish), old(totalIn), length) + 3 <= |input|
      ensures lastSeen[..] == Filled(old(lastSeen[..]), hash, input, old(totalIn) + 1,
                                     Greedy.HashEnd(Search(), PhaseOf(finish), old(totalIn), length), 0)
    {
      hide Describes, AllName, DistIcfCode, Filled, Frequencies, Meaning;
      var end := totalIn + (if limitHashUpdate then 3 else length);
      HashRange(totalIn + 1, if finish then end - 3 else end, totalIn + length);
      ghost var table := lastSeen[..];
      PutMatch(length, dist);
      assert lastSeen[..] == table;
    }

    // What a pass over the input leaves behind.
    twostate predicate Progress()
      reads this, lastSeen, llHist, dHist
    {
      && Valid() && input == old(input) && blockStart == old(blockStart)
      && old(tokens) <= tokens && old(totalIn) <= totalIn
      && |tokens| + availOut == |old(tokens)| + old(availOut)
      && (|tokens| > |old(tokens)| ==> totalIn > old(totalIn))
    }

    // One turn of the main loops: a match of at least four bytes, or a literal. At the end of the
    // input as many bytes are compared as there are, and the last three of a match are not hashed.
    method Advance(finish: bool) returns (ghost dist: nat, ghost length: nat)
      requires Valid() && availOut > 0 && totalIn + (if finish then 3 else ISAL_LOOK_AHEAD) < |input|
      modifies this`tokens, this`availOut, this`totalIn, lastSeen, llHist, dHist
      ensures Progress() && availOut == old(availOut) - 1
      ensures dist <= old(totalIn)
      ensures dist == (old(totalIn) - old(lastSeen[HashAt(hash, lastSeen.Length, input, totalIn)])) % 0x10000
      ensures Chosen(input, old(totalIn), dist, distMask, if finish then |input| - old(totalIn) else 258, length)
      ensures length > 0 ==> 1 <= dist <= 32768
      ensures tokens == old(tokens) + [StepToken(input, old(totalIn), dist, length)]
      ensures totalIn == old(totalIn) + if length == 0 then 1 else length
      ensures Reached(Greedy.Next(Search(), PhaseOf(finish), old(Here())), old(tokens))
    {
      hide Describes, AllName, HashAt, Meaning, LongestMatch, DistIcfCode, Filled, Index16, Mean, Frequencies,
        Greedy.HashEnd, Greedy.Next, IcfStream.Reached;
      ghost var here, before := Here(), tokens;
      var d := LookUp(lastSeen, hash, input, totalIn, 0);
      ghost var looked := lastSeen[..];
      dist, length := d, 0;
      // dist - 1 < hist_size, which fails for dist = 0 after wrapping
      if 1 <= d <= distMask {
        var n := MatchLength(d, if finish then |input| - totalIn else MAX_MATCH);
        if n >= SHORTEST_MATCH {
          length := n;
          TakeMatch(n, d, finish);
          Turned(here, finish, dist, length, looked, before);
          return;
        }
      }
      PutLiteral();
      Turned(here, finish, dist, length, looked, before);
    }

    // Such a turn is one of the greedy search.
    lemma Turned(s: Greedy.State, finish: bool, dist: nat, length: nat, looked: seq<nat>, before: seq<Icf>)
      requires |s.table| > 0 && s.pos + (if finish then 3 else ISAL_LOOK_AHEAD) < |input| && distMask <= 32768
      requires dist == (s.pos - s.table[HashAt(hash, |s.table|, input, s.pos)]) % 0x10000 && dist <= s.pos && s.items == []
      requires Chosen(input, s.pos, dist, distMask, if finish then |input| - s.pos else 258, length)
      requires looked == s.table[HashAt(hash, |s.table|, input, s.pos) := Index16(s.pos, 0)]
      requires length > 0 ==>
                 lastSeen[..] == Filled(looked, hash, input, s.pos + 1, Greedy.HashEnd(Search(), PhaseOf(finish), s.pos, length), 0)
      requires length == 0 ==> lastSeen[..] == looked
      requires totalIn == s.pos + if length == 0 then 1 else length
      requires (length > 0 ==> 1 <= dist <= 32768) && tokens == before + [StepToken(input, s.pos, dist, length)]
      ensures Reached(Greedy.Next(Search(), PhaseOf(finish), s), before)
    {
      Greedy.DistanceIs(Search(), s.table, s.pos);
      hide HashAt, Index16, Filled, Meaning, DistIcfCode, Greedy.Next, Greedy.Distance;
      ChosenTaken(Search(), s.pos, dist, if finish then |input| - s.pos else 258, length);
      Greedy.NextIs(Search(), PhaseOf(finish), s, dist, length, looked, lastSeen[..]);
      StepMeans(input, s.pos, dist, length);
      assert tokens[|before|..] == [StepToken(input, s.pos, dist, length)];
    }

    lemma LastLiteral(s: Greedy.State, before: seq<Icf>)
      requires |s.table| > 0 && |input| - 3 <= s.pos < |input| && s.items == []
      requires totalIn == s.pos + 1 && lastSeen[..] == s.table
      requires tokens == before + [Icf(input[s.pos] as nat, NULL_DIST_SYM, 0)]
      ensures Reached(Greedy.Next(Search(), Greedy.InFinish, s), before)
    {
      StepMeans(input, s.pos, 0, 0);
      assert tokens[|before|..] == [StepToken(input, s.pos, 0, 0)];
    }

    // One more turn after those up to run.
    lemma TurnedOn(phase: Greedy.Phase, run: Greedy.State, start: seq<Icf>, before: seq<Icf>)
      requires |run.table| > 0 && Greedy.CanGo(Search(), phase, run.pos) && start <= before
      requires Mean(before[|start|..], run.items)
      requires Reached(Greedy.Next(Search(), phase, Greedy.State(run.pos, run.table, [])), before)
      ensures Reached(Greedy.Next(Search(), phase, run), start)
    {
      hide Greedy.Next, Greedy.CanGo, Mean;
      var s := Greedy.State(run.pos, run.table, []);
      assert Greedy.Behind(run.items, s) == run;
      Greedy.NextBehind(Search(), phase, run.items, s);
      MeanMore(start, before, tokens, run.items, Greedy.Next(Search(), phase, s).items);
    }

    // A turn of the main loops, one of the search as well.
    method Turn(finish: bool, ghost here: Greedy.State, ghost n: nat, ghost start: seq<Icf>)
      requires Valid() && availOut > 0 && totalIn + (if finish then 3 else ISAL_LOOK_AHEAD) < |input|
      requires |here.table| > 0 && Reached(Greedy.Run(Search(), PhaseOf(finish), here, n), start)
      modifies this`tokens, this`availOut, this`totalIn, lastSeen, llHist, dHist
      ensures Progress() && availOut == old(availOut) - 1
      ensures Reached(Greedy.Run(Search(), PhaseOf(finish), here, n + 1), start)
    {
      hide Describes, AllName, Meaning, Greedy.Next, Greedy.Run, Mean, Frequencies, Chosen, HashAt, StepToken;
      ghost var run, before := Greedy.Run(Search(), PhaseOf(finish), here, n), tokens;
      var d, length := Advance(finish);
      TurnedOn(PhaseOf(finish), run, start, before);
      OneTurn(Search(), PhaseOf(finish), here, n + 1);
    }

    // A turn of the loop over the last bytes.
    method TurnLiteral(ghost here: Greedy.State, ghost n: nat, ghost start: seq<Icf>)
      requires Valid() && availOut > 0 && |input| - 3 <= totalIn < |input|
      requires |here.table| > 0 && Reached(Greedy.Run(Search(), Greedy.InFinish, here, n), start)
      modifies this`tokens, this`availOut, this`totalIn, llHist
      ensures Progress() && availOut == old(availOut) - 1
      ensures Reached(Greedy.Run(Search(), Greedy.InFinish, here, n + 1), start)
    {
      hide Describes, AllName, Meaning, Greedy.Next, Greedy.Run, Mean, Frequencies;
      ghost var run, before, now := Greedy.Run(Search(), Greedy.InFinish, here, n), tokens, Here();
      PutLiteral();
      LastLiteral(now, before);
      TurnedOn(Greedy.InFinish, run, start, before);
      OneTurn(Search(), Greedy.InFinish, here, n + 1);
    }

    // Without a turn the search is where it is, and a loop that cannot start stays there.
    lemma NotStarted(phase: Greedy.Phase)
      requires lastSeen.Length > 0
      ensures Reached(Greedy.Run(Search(), phase, Here(), 0), tokens)
      ensures totalIn == |input| ==> Reached(Greedy.Run(Search(), phase, Here(), availOut), tokens)
    {
      assert tokens[|tokens|..] == [];
      if totalIn == |input| {
        Greedy.Ended(Search(), phase, Here(), 0, availOut);
      }
    }

    // What is left of update_state, for a pass that started at position start.
    method UpdateState(start: nat)
      modifies this`hasHist, this`blockEnd
      ensures blockEnd == totalIn && hasHist == (old(hasHist) || totalIn > start)
    {
      if totalIn > start {
        hasHist := true;
      }
      blockEnd := totalIn;
    }

    // A call without input changes nothing but the state.
    twostate predicate Updated()
      reads this
    {
      && blockEnd == (if old(totalIn) == |input| then old(blockEnd) else totalIn)
      && hasHist == (old(hasHist) || totalIn > old(totalIn))
    }

    // isal_deflate_icf_body_hash_hist_base
    method DeflateBody()
      requires Valid()
      modifies this`tokens, this`availOut, this`totalIn, this`state, this`hasHist, this`blockEnd, lastSeen, llHist, dHist
      ensures Progress() && Updated()
      ensures Reached(Greedy.Run(Search(), Greedy.InBody, old(Here()), old(availOut)), old(tokens))
      ensures availOut == 0 || totalIn + ISAL_LOOK_AHEAD >= |input|
      ensures totalIn + ISAL_LOOK_AHEAD < |input| ==> state == CreateHdr
      ensures totalIn + ISAL_LOOK_AHEAD >= |input| ==>
                state == if endOfStream || flushing then FlushReadBuffer else old(state)
    {
      hide Describes, AllName, Frequencies, Meaningful, Greedy.Run, Mean;
      ghost var g, here, room := Search(), Here(), availOut;
      NotStarted(Greedy.InBody);
      if totalIn == |input| {
        if endOfStream || flushing {
          state := FlushReadBuffer;
        }
        return;
      }
      var start := totalIn;
      while totalIn + ISAL_LOOK_AHEAD < |input|
        invariant Progress() && state == old(state) && hasHist == old(hasHist)
        invariant Search() == g && availOut <= room && Reached(Greedy.Run(g, Greedy.InBody, here, room - availOut), old(tokens))
        decreases |input| - totalIn, availOut
      {
        if availOut == 0 {
          state := CreateHdr;
          UpdateState(start);
          return;
        }
        Turn(false, here, room - availOut, old(tokens));
      }
      NoneLeft(Greedy.InBody, here, room, old(tokens));
      UpdateState(start);
      if endOfStream || flushing {
        state := FlushReadBuffer;
      }
    }

    // Matches and literals while a hash can be computed.
    method PutAll(ghost here: Greedy.State, ghost room: nat, ghost start: seq<Icf>)
      requires Valid() && availOut <= room
      requires |here.table| > 0 && Reached(Greedy.Run(Search(), Greedy.InFinish, here, room - availOut), start)
      modifies this`tokens, this`availOut, this`totalIn, lastSeen, llHist, dHist
      ensures Progress() && availOut <= room && (availOut == 0 || totalIn + 3 >= |input|)
      ensures Reached(Greedy.Run(Search(), Greedy.InFinish, here, room - availOut), start)
    {
      hide Describes, AllName, Frequencies, Meaningful, Greedy.Run, Mean;
      ghost var g := Search();
      while totalIn + 3 < |input|
        invariant Progress() && Search() == g && availOut <= room
        invariant Reached(Greedy.Run(g, Greedy.InFinish, here, room - availOut), start)
        decreases |input| - totalIn
      {
        if availOut == 0 {
          return;
        }
        Turn(true, here, room - availOut, start);
      }
    }

    // A loop that has used up its room or the input has made all its turns.
    lemma NoneLeft(phase: Greedy.Phase, here: Greedy.State, room: nat, start: seq<Icf>)
      requires |here.table| > 0 && availOut <= room
      requires Reached(Greedy.Run(Search(), phase, here, room - availOut), start)
      requires availOut == 0 || !Greedy.CanGo(Search(), phase, totalIn)
      ensures Reached(Greedy.Run(Search(), phase, here, room), start)
    {
      if availOut > 0 {
        Greedy.Ended(Search(), phase, here, room - availOut, room);
      }
    }

    // The loop over the last bytes.
    method PutRest(ghost here: Greedy.State, ghost room: nat, ghost start: seq<Icf>)
      requires Valid() && |input| - 3 <= totalIn && availOut <= room
      requires |here.table| > 0 && Reached(Greedy.Run(Search(), Greedy.InFinish, here, room - availOut), start)
      modifies this`tokens, this`availOut, this`totalIn, llHist
      ensures Progress() && availOut <= room && (availOut == 0 || totalIn == |input|)
      ensures Reached(Greedy.Run(Search(), Greedy.InFinish, here, room - availOut), start)
    {
      hide Describes, AllName, Frequencies, Meaningful, Greedy.Run, Mean;
      ghost var g := Search();
      while totalIn < |input|
        invariant Progress() && Search() == g && availOut <= room
        invariant Reached(Greedy.Run(g, Greedy.InFinish, here, room - availOut), start)
        decreases |input| - totalIn
      {
        if availOut == 0 {
          return;
        }
        TurnLiteral(here, room - availOut, start);
      }
    }

    // isal_deflate_icf_finish_hash_hist_base
    method DeflateFinish()
      requires Valid()
      modifies this`tokens, this`availOut, this`totalIn, this`state, this`hasHist, this`blockEnd, lastSeen, llHist, dHist
      ensures Progress() && Updated()
      ensures Reached(Greedy.Run(Search(), Greedy.InFinish, old(Here()), old(availOut)), old(tokens))
      ensures availOut == 0 || totalIn == |input|
      ensures totalIn < |input| ==> state == CreateHdr
      ensures totalIn == |input| ==>
                state == if endOfStream || flushing then CreateHdr else old(state)
    {
      hide Describes, AllName, Frequencies, Meaningful, Greedy.Run, Mean;
      ghost var here, room := Here(), availOut;
      NotStarted(Greedy.InFinish);
      if totalIn == |input| {
        if endOfStream || flushing {
          state := CreateHdr;
        }
        return;
      }
      var start := totalIn;
      PutAll(here, room, tokens);
      if totalIn + 3 >= |input| {
        PutRest(here, room, old(tokens));
      }
      NoneLeft(Greedy.InFinish, here, room, old(tokens));
      if totalIn < |input| || endOfStream || flushing {
        state := CreateHdr;
      }
      UpdateState(start);
    }

    // Body and finish, which does nothing unless the body has come to its end.
    method DeflatePass()
      requires Valid()
      modifies this`tokens, this`availOut, this`totalIn, this`state, this`hasHist, this`blockEnd, lastSeen, llHist, dHist
      ensures Progress() && Reached(Greedy.Block(Search(), old(Here()), old(availOut)), old(tokens))
      ensures availOut == 0 || totalIn == |input|
      ensures old(blockEnd) == old(totalIn) ==> blockEnd == totalIn
    {
      hide Describes, AllName, Frequencies, Meaningful, Greedy.Run, Mean;
      ghost var here, room, start := Here(), availOut, tokens;
      DeflateBody();
      ghost var there, left, middle := Here(), availOut, tokens;
      assert Reached(Greedy.Run(Search(), Greedy.InBody, here, room), start);
      DeflateFinish();
      BothPasses(here, room, start, there, left, middle);
    }

    lemma BothPasses(here: Greedy.State, room: nat, start: seq<Icf>, there: Greedy.State, left: nat, middle: seq<Icf>)
      requires |here.table| > 0 && |there.table| > 0 && here.items == there.items == []
      requires
        var b := Greedy.Run(Search(), Greedy.InBody, here, room);
        there.pos == b.pos && there.table == b.table && start <= middle && Mean(middle[|start|..], b.items)
      requires |middle| + left == |start| + room && Reached(Greedy.Run(Search(), Greedy.InFinish, there, left), middle)
      ensures Reached(Greedy.Block(Search(), here, room), start)
    {
      hide Mean, Greedy.Run;
      var b := Greedy.Run(Search(), Greedy.InBody, here, room);
      MeanLength(middle[|start|..], b.items);
      assert Greedy.Behind(b.items, there) == b;
      Greedy.RunBehind(Search(), Greedy.InFinish, b.items, there, left);
      MeanMore(start, middle, tokens, b.items, Greedy.Run(Search(), Greedy.InFinish, there, left).items);
    }

    // init_new_icf_block, when the block is taken: an empty token buffer with this much room, fresh
    // histograms, and the next block from where the last one ended.
    method StartBlock(room: nat)
      requires Shape() && SeenUpTo(totalIn) && blockEnd == totalIn
      modifies this`tokens, this`availOut, this`blockStart, this`state, llHist, dHist
      ensures Valid() && tokens == [] && availOut == room && blockStart == totalIn && state == Body
    {
      hide AllName, Meaning, Frequencies;
      ghost var seen := lastSeen[..];
      tokens, availOut, blockStart, state := [], room, blockEnd, Body;
      forall s | 0 <= s < llHist.Length {
        llHist[s] := 0;
      }
      forall s | 0 <= s < dHist.Length {
        dHist[s] := 0;
      }
      NoFrequencies(llHist[..], dHist[..]);
      assert lastSeen[..] == seen;
    }

    // Body, then finish, block by block until the input is used up. All that is written expands to
    // the whole file, and is what one search through it finds, wherever full token buffers cut it.
    method DeflateAll(room: nat) returns (ghost items: seq<Item>)
      requires Valid() && tokens == [] && blockStart == blockEnd == totalIn == 0 && availOut == room > 0
      modifies this, lastSeen, llHist, dHist
      ensures Valid() && totalIn == |input| && input == old(input)
      ensures Expand([], items) == Some(input)
      ensures items == Greedy.Whole(Search(), old(Here())).items
    {
      items := [];
      ghost var g, start, i, j := Search(), Here(), 0, 0;
      hide Describes, AllName, Meaning, CountLitLen, CountDist, Greedy.Block, Greedy.OnTheWay, Mean, Greedy.Whole;
      StartsSearch(g, start);
      while totalIn < |input|
        invariant Valid() && tokens == [] && availOut == room && blockStart == blockEnd == totalIn
        invariant input == old(input) && Search() == g
        invariant Expand([], items) == Some(input[..totalIn])
        invariant Greedy.OnTheWay(g, start, Greedy.State(totalIn, lastSeen[..], items), i, j)
        decreases |input| - totalIn
      {
        ghost var before, here := totalIn, Here();
        DeflatePass();
        assert totalIn > before;
        ghost var block := Greedy.Block(g, here, room);
        i, j := BlockBehind(g, start, here, items, room, i, j);
        TokensMean(tokens, block.items);
        items := BlockAppended(input, before, totalIn, tokens, items);
        StartBlock(room);
      }
      assert input[..|input|] == input;
      Greedy.BlocksEnd(g, start, Greedy.State(totalIn, lastSeen[..], items), i, j);
    }
  }

  lemma TokensMean(tokens: seq<Icf>, items: seq<Item>)
    requires Mean(tokens[0..], items)
    ensures Meaningful(tokens) && Items(tokens) == items
  {
    assert tokens[0..] == tokens;
    MeanItems(tokens, items);
    hide Mean;
  }

  lemma StartsSearch(g: Greedy.Search, s: Greedy.State)
    requires |s.table| > 0
    ensures Greedy.OnTheWay(g, s, s, 0, 0)
  {
  }

  lemma BlockBehind(g: Greedy.Search, start: Greedy.State, here: Greedy.State, items: seq<Item>, room: nat, i: nat, j: nat)
    returns (i': nat, j': nat)
    requires |start.table| > 0 && start.pos <= |g.file| && |here.table| > 0 && here.items == []
    requires Greedy.OnTheWay(g, start, Greedy.Behind(items, here), i, j)
    ensures Greedy.OnTheWay(g, start, Greedy.Behind(items, Greedy.Block(g, here, room)), i', j')
  {
    hide Greedy.OnTheWay;
    i', j' := Greedy.BlockOn(g, start, Greedy.Behind(items, here), room, i, j);
    hide Greedy.Run;
    Greedy.RunBehind(g, Greedy.InBody, items, here, room);
    var b := Greedy.Run(g, Greedy.InBody, here, room);
    Greedy.RunBehind(g, Greedy.InFinish, items, b, room - |b.items|);
  }

  lemma BlockAppended(file: seq<bv8>, start: nat, pos: nat, tokens: seq<Icf>, before: seq<Item>)
    returns (items: seq<Item>)
    requires Describes(file, start, pos, tokens) && Expand([], before) == Some(file[..start])
    ensures Meaningful(tokens) && items == before + Items(tokens)
    ensures start <= pos <= |file| && Expand([], items) == Some(file[..pos])
  {
    items := before + Items(tokens);
    ExpandAppend([], before, Items(tokens));
  }

  lemma AgreesBytes(file: seq<bv8>, pos: nat, dist: nat, n: nat, limit: nat)
    requires 1 <= dist <= pos <= |file| && AgreesFor(file[pos - dist..], file[pos..], n, limit)
    ensures n <= limit && pos + n <= |file|
    ensures forall q :: pos <= q < pos + n ==> file[q] == file[q - dist]
  {
    var s, t := file[pos - dist..], file[pos..];
    forall q | pos <= q < pos + n ensures file[q] == file[q - dist] {
      assert s[..n][q - pos] == t[..n][q - pos];
    }
  }
}
