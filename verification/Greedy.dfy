/** The greedy search for matches. */
module Greedy {
  import opened Rfc1951
  import opened HashTable
  import opened Compare

  // The input with its history, which ends at origin, the hash of four bytes, whether only the first
  // positions of a match are hashed, and how far back a match may be.
  datatype Search = Search(file: seq<bv8>, origin: nat, hash: seq<bv8> -> nat, limited: bool, window: nat)

  // The loops that search.
  datatype Phase = InBody | InFinish | InHistogram

  // How far a search has come: position, hash table, and what has been found.
  datatype State = State(pos: nat, table: seq<nat>, items: seq<Item>)

  // How many bytes from pos on are the same as those dist bytes before them.
  ghost function Agreeing(file: seq<bv8>, pos: nat, dist: nat, limit: nat): (n: nat)
    requires dist <= pos && pos + limit <= |file|
    ensures n <= limit
    decreases limit
  {
    if limit == 0 || file[pos] != file[pos - dist] then 0 else 1 + Agreeing(file, pos + 1, dist, limit - 1)
  }

  // How far back the table says that the hash of the bytes at pos was seen.
  ghost function Distance(g: Search, table: seq<nat>, pos: nat): nat
    requires |table| > 0 && pos + 4 <= |g.file|
  {
    (pos - g.origin - table[g.hash(g.file[pos..pos + 4]) % |table|]) % 65536
  }

  // The length of the match that is taken there, or 0 for a literal. Entries that name a position
  // never reach before the start.
  ghost function Taken(g: Search, pos: nat, dist: nat, lookAhead: nat): nat
    requires pos + lookAhead <= |g.file|
  {
    if dist == 0 || dist > g.window || dist > pos then 0
    else
      var n := Agreeing(g.file, pos, dist, if lookAhead > 258 then 258 else lookAhead);
      if n < 4 then 0 else n
  }

  // Which positions of a match of n bytes at pos are hashed: those before this one.
  ghost function HashEnd(g: Search, phase: Phase, pos: nat, n: nat): int {
    var end := pos + if g.limited then 3 else n;
    match phase
    case InBody => end
    case InFinish => end - 3
    case InHistogram => if end > |g.file| - 3 then |g.file| - 3 else end
  }

  ghost function LookAhead(g: Search, phase: Phase, pos: nat): int {
    if phase == InBody then 258 else |g.file| - pos
  }

  // The body keeps away from the end of the input, the other loops go up to it.
  ghost predicate CanGo(g: Search, phase: Phase, pos: nat) {
    if phase == InBody then pos + 288 < |g.file| else pos < |g.file|
  }

  // One turn: a literal where there are no four bytes to hash, otherwise a match or a literal.
  ghost function Next(g: Search, phase: Phase, s: State): (s': State)
    requires |s.table| > 0 && CanGo(g, phase, s.pos)
    ensures |s'.table| == |s.table| && s.pos < s'.pos <= |g.file| && |s'.items| == |s.items| + 1
  {
    var pos := s.pos;
    if pos + 3 >= |g.file| then State(pos + 1, s.table, s.items + [Literal(g.file[pos])])
    else
      var dist := Distance(g, s.table, pos);
      var n := Taken(g, pos, dist, LookAhead(g, phase, pos));
      var table := Filled(s.table, g.hash, g.file, pos, pos + 1, g.origin);
      if n == 0 then State(pos + 1, table, s.items + [Literal(g.file[pos])])
      else
        State(pos + n, Filled(table, g.hash, g.file, pos + 1, HashEnd(g, phase, pos, n), g.origin),
              s.items + [Pair(n, dist)])
  }

  // n turns, or fewer if the loop ends before.
  ghost function Run(g: Search, phase: Phase, s: State, n: nat): (s': State)
    requires |s.table| > 0
    ensures |s'.table| == |s.table| && |s.items| <= |s'.items| <= |s.items| + n
  {
    if n == 0 then s
    else
      var before := Run(g, phase, s, n - 1);
      if CanGo(g, phase, before.pos) then Next(g, phase, before) else before
  }

  // ---- what the loops compute is this ----

  lemma {:induction false} AgreeingUnique(file: seq<bv8>, pos: nat, dist: nat, limit: nat, n: nat)
    requires dist <= pos && pos + limit <= |file| && n <= limit
    requires forall q :: pos <= q < pos + n ==> file[q] == file[q - dist]
    requires n < limit ==> file[pos + n] != file[pos + n - dist]
    ensures n == Agreeing(file, pos, dist, limit)
    decreases limit
  {
    if n > 0 {
      AgreeingUnique(file, pos + 1, dist, limit - 1, n - 1);
    }
  }

  // What compare258 promises is this number.
  lemma AgreeingIs(file: seq<bv8>, pos: nat, dist: nat, n: nat, limit: nat)
    requires dist <= pos && pos + limit <= |file| && AgreesFor(file[pos - dist..], file[pos..], n, limit)
    ensures n == Agreeing(file, pos, dist, limit)
  {
    var s, t := file[pos - dist..], file[pos..];
    forall q | pos <= q < pos + n ensures file[q] == file[q - dist] {
      assert s[..n][q - pos] == t[..n][q - pos];
    }
    AgreeingUnique(file, pos, dist, limit, n);
  }

  lemma DistanceIs(g: Search, table: seq<nat>, pos: nat)
    requires |table| > 0 && pos + 4 <= |g.file|
    ensures Distance(g, table, pos) == (pos - g.origin - table[HashAt(g.hash, |table|, g.file, pos)]) % 0x10000
  {
  }

  // A turn that looks up the distance, hashes and consumes as much as the match that is taken.
  lemma NextIs(g: Search, phase: Phase, s: State, dist: nat, n: nat, looked: seq<nat>, table: seq<nat>)
    requires |s.table| > 0 && CanGo(g, phase, s.pos) && s.pos + 3 < |g.file|
    requires dist == Distance(g, s.table, s.pos) && n == Taken(g, s.pos, dist, LookAhead(g, phase, s.pos))
    requires looked == s.table[HashAt(g.hash, |s.table|, g.file, s.pos) := Index16(s.pos, g.origin)]
    requires n > 0 ==> table == Filled(looked, g.hash, g.file, s.pos + 1, HashEnd(g, phase, s.pos, n), g.origin)
    requires n == 0 ==> table == looked
    ensures Next(g, phase, s) == State(s.pos + (if n == 0 then 1 else n), table,
                                       s.items + [if n == 0 then Literal(g.file[s.pos]) else Pair(n, dist)])
  {
    hide Distance, Taken, LookAhead, HashAt, Index16, Filled;
    FilledNext(s.table, g.hash, g.file, s.pos, s.pos, g.origin);
    FilledNone(s.table, g.hash, g.file, s.pos, s.pos, g.origin);
  }

  // ---- runs ----

  // A loop that has ended stays where it is.
  lemma {:induction false} Ended(g: Search, phase: Phase, s: State, n: nat, m: nat)
    requires |s.table| > 0 && n <= m && !CanGo(g, phase, Run(g, phase, s, n).pos)
    ensures Run(g, phase, s, m) == Run(g, phase, s, n)
    decreases m
  {
    hide CanGo, Next;
    if n < m {
      Ended(g, phase, s, n, m - 1);
    }
  }

  lemma {:induction false} RunOn(g: Search, phase: Phase, s: State, m: nat, n: nat)
    requires |s.table| > 0
    ensures Run(g, phase, Run(g, phase, s, m), n) == Run(g, phase, s, m + n)
    decreases n
  {
    hide CanGo, Next;
    if n > 0 {
      RunOn(g, phase, s, m, n - 1);
      assert m + n - 1 == m + (n - 1);
    }
  }

  // What was found before is only carried along.
  function Behind(before: seq<Item>, s: State): State {
    s.(items := before + s.items)
  }

  lemma NextBehind(g: Search, phase: Phase, before: seq<Item>, s: State)
    requires |s.table| > 0 && CanGo(g, phase, s.pos)
    ensures Next(g, phase, Behind(before, s)) == Behind(before, Next(g, phase, s))
  {
    hide Distance, Taken, LookAhead, HashEnd, Filled;
    var s' := Next(g, phase, s);
    assert s'.items == s.items + [s'.items[|s.items|]];
    assert before + s'.items == before + s.items + [s'.items[|s.items|]];
  }

  lemma {:induction false} RunBehind(g: Search, phase: Phase, before: seq<Item>, s: State, n: nat)
    requires |s.table| > 0
    ensures Run(g, phase, Behind(before, s), n) == Behind(before, Run(g, phase, s, n))
    decreases n
  {
    hide CanGo, Next;
    if n > 0 {
      RunBehind(g, phase, before, s, n - 1);
      var r := Run(g, phase, s, n - 1);
      if CanGo(g, phase, r.pos) {
        NextBehind(g, phase, before, r);
      }
    }
  }

  // Turns move forward, one item each.
  lemma {:induction false} RunMoves(g: Search, phase: Phase, s: State, n: nat)
    requires |s.table| > 0 && s.pos <= |g.file|
    ensures
      var s' := Run(g, phase, s, n);
      && s.pos <= s'.pos <= |g.file| && |s.items| <= |s'.items| <= |s.items| + n && s.items <= s'.items
      && |s'.items| - |s.items| <= s'.pos - s.pos && (|s'.items| < |s.items| + n ==> !CanGo(g, phase, s'.pos))
    decreases n
  {
    hide CanGo, Next;
    if n > 0 {
      RunMoves(g, phase, s, n - 1);
      var r := Run(g, phase, s, n - 1);
      if CanGo(g, phase, r.pos) {
        NextAdds(g, phase, r);
      }
    }
  }

  lemma NextAdds(g: Search, phase: Phase, s: State)
    requires |s.table| > 0 && CanGo(g, phase, s.pos)
    ensures s.items <= Next(g, phase, s).items
  {
    hide Distance, Taken, LookAhead, HashEnd, Filled;
  }

  // A block of at most room items: the body, and with the room that is left the finish.
  ghost function Block(g: Search, s: State, room: nat): (s': State)
    requires |s.table| > 0
    ensures |s'.table| == |s.table|
  {
    var b := Run(g, InBody, s, room);
    Run(g, InFinish, b, |s.items| + room - |b.items|)
  }

  // Every item of a block takes at least one byte.
  lemma BlockMoves(g: Search, s: State, room: nat)
    requires |s.table| > 0 && s.pos <= |g.file|
    ensures |Block(g, s, room).items| - |s.items| <= Block(g, s, room).pos - s.pos
  {
    hide Run;
    var b := Run(g, InBody, s, room);
    RunMoves(g, InBody, s, room);
    RunMoves(g, InFinish, b, |s.items| + room - |b.items|);
  }

  // The search through the whole input: the body and then the finish until they end.
  ghost function Whole(g: Search, s: State): State
    requires |s.table| > 0
  {
    Run(g, InFinish, Run(g, InBody, s, |g.file|), |g.file|)
  }

  // The body has made i turns, and if it has ended the finish j turns.
  ghost predicate OnTheWay(g: Search, s: State, now: State, i: nat, j: nat)
    requires |s.table| > 0
  {
    now == Run(g, InFinish, Run(g, InBody, s, i), j) && (j > 0 ==> !CanGo(g, InBody, Run(g, InBody, s, i).pos))
  }

  // A block goes on where the blocks before it ended, in the body or in the finish.
  lemma BlockOn(g: Search, s: State, now: State, room: nat, i: nat, j: nat) returns (i': nat, j': nat)
    requires |s.table| > 0 && s.pos <= |g.file| && OnTheWay(g, s, now, i, j)
    ensures |now.table| > 0 && OnTheWay(g, s, Block(g, now, room), i', j')
  {
    hide CanGo, Next, Run;
    var b := Run(g, InBody, s, i);
    RunMoves(g, InBody, s, i);
    RunMoves(g, InFinish, b, j);
    RunMoves(g, InBody, now, room);
    RunZero(g, InFinish, b);
    RunZero(g, InBody, now);
    if j == 0 {
      RunOn(g, InBody, s, i, room);
      i', j' := i + room, room + |now.items| - |Run(g, InBody, now, room).items|;
    } else {
      StillEnded(g, b.pos, now.pos);
      Ended(g, InBody, now, 0, room);
      RunOn(g, InFinish, b, j, room);
      i', j' := i, j + room;
    }
  }

  lemma RunZero(g: Search, phase: Phase, s: State)
    requires |s.table| > 0
    ensures Run(g, phase, s, 0) == s
  {
  }

  lemma StillEnded(g: Search, pos: nat, later: nat)
    requires pos <= later && !CanGo(g, InBody, pos)
    ensures !CanGo(g, InBody, later)
  {
  }

  // Enough turns end a loop, and more make no difference.
  lemma AllTurns(g: Search, phase: Phase, s: State, n: nat)
    requires |s.table| > 0 && s.pos <= |g.file| && !CanGo(g, phase, Run(g, phase, s, n).pos)
    ensures Run(g, phase, s, n) == Run(g, phase, s, |g.file|)
  {
    RunMoves(g, phase, s, |g.file|);
    hide Run, Next;
    if n <= |g.file| {
      Ended(g, phase, s, n, |g.file|);
    } else {
      Ended(g, phase, s, |g.file|, n);
    }
  }

  // Wherever full buffers cut the input into blocks, together they are the whole search.
  lemma BlocksEnd(g: Search, s: State, now: State, i: nat, j: nat)
    requires |s.table| > 0 && s.pos <= |g.file| && OnTheWay(g, s, now, i, j) && now.pos == |g.file|
    ensures now == Whole(g, s)
  {
    hide Run, Next;
    var b := Run(g, InBody, s, i);
    RunMoves(g, InBody, s, i);
    RunZero(g, InFinish, b);
    AllTurns(g, InBody, s, i);
    AllTurns(g, InFinish, b, j);
  }
}
