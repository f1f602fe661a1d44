/** The 16-bit hash tables of the match finders. */
module HashTable {

  const SHORTEST_MATCH := 4

  // The position p, counted from file_start modulo 2^16; what is before file_start is history.
  function Index16(p: nat, origin: nat): (v: nat)
    ensures v < 0x10000
  {
    (p - origin) % 0x10000
  }

  // The entry v names a position up to pos.
  ghost predicate Names(v: nat, pos: nat, origin: nat) {
    exists p: nat :: p <= pos && Index16(p, origin) == v
  }

  ghost predicate AllName(table: seq<nat>, pos: nat, origin: nat) {
    forall h :: 0 <= h < |table| ==> Names(table[h], pos, origin)
  }

  // The distance computed modulo 2^16 never reaches before the start of the history.
  lemma DistanceInReach(v: nat, pos: nat, origin: nat)
    requires Names(v, pos, origin)
    ensures (pos - origin - v) % 0x10000 <= pos
  {
    var p: nat :| p <= pos && Index16(p, origin) == v;
    var q, r := (pos - p) / 0x10000, (pos - p) % 0x10000;
    var c := (p - origin) / 0x10000;
    assert pos - origin - v == (q + c) * 0x10000 + r;
  }

  lemma NamesLater(table: seq<nat>, pos: nat, later: nat, origin: nat)
    requires AllName(table, pos, origin) && pos <= later
    ensures AllName(table, later, origin)
  {
    hide Index16;
    forall h | 0 <= h < |table| ensures Names(table[h], later, origin) {
      var p: nat :| p <= pos && Index16(p, origin) == table[h];
    }
  }

  lemma AllZeros(table: seq<nat>)
    requires forall k :: 0 <= k < |table| ==> table[k] == 0
    ensures AllName(table, 0, 0)
  {
    assert Index16(0, 0) == 0;
  }

  // reset_match_history: every entry becomes total_in, the present position counted from file_start.
  method ResetMatchHistory(table: array<nat>, pos: nat, origin: nat)
    modifies table
    ensures forall k :: 0 <= k < table.Length ==> table[k] == Index16(pos, origin)
    ensures AllName(table[..], pos, origin)
  {
    hide Index16;
    for i := 0 to table.Length
      invariant forall k :: 0 <= k < i ==> table[k] == Index16(pos, origin)
    {
      table[i] := Index16(pos, origin);
    }
  }

  // Entries of all ones name some position up to pos just when there is history before file_start,
  // or the file has come as far as 2^16 - 1.
  lemma AllOnes(table: seq<nat>, pos: nat, origin: nat)
    requires origin <= pos && |table| > 0 && forall k :: 0 <= k < |table| ==> table[k] == 0xFFFF
    ensures AllName(table, pos, origin) <==> origin > 0 || pos - origin >= 0xFFFF
  {
    if origin > 0 {
      assert Index16(origin - 1, origin) == 0xFFFF;
    } else if pos >= 0xFFFF {
      assert Index16(0xFFFF, 0) == 0xFFFF;
    } else {
      assert !Names(table[0], pos, origin);
    }
  }

  // compute_hash(load_u32(s + p)) & hash_mask, for a table of this size
  function HashAt(hash: seq<bv8> -> nat, size: nat, s: seq<bv8>, p: nat): (h: nat)
    requires size > 0 && p + 4 <= |s|
    ensures h < size
  {
    hash(s[p..p + 4]) % size
  }

  // The distance to the position with the same hash that the table has, which is replaced by this one.
  method LookUp(table: array<nat>, hash: seq<bv8> -> nat, s: seq<bv8>, pos: nat, origin: nat) returns (dist: nat)
    requires table.Length > 0 && pos + 4 <= |s| && AllName(table[..], pos, origin)
    modifies table
    ensures AllName(table[..], pos, origin) && dist <= pos
    ensures dist == (pos - origin - old(table[HashAt(hash, table.Length, s, pos)])) % 0x10000
    ensures table[..] == old(table[..])[HashAt(hash, table.Length, s, pos) := Index16(pos, origin)]
  {
    var h := HashAt(hash, table.Length, s, pos);
    assert Names(table[..][h], pos, origin);
    DistanceInReach(table[h], pos, origin);
    dist := (pos - origin - table[h]) % 0x10000;
    assert Names(Index16(pos, origin), pos, origin);
    table[h] := Index16(pos, origin);
  }

  // The entry v names the last of the positions from p to end that have the hash of p.
  ghost predicate SeenSince(v: nat, hash: seq<bv8> -> nat, size: nat, s: seq<bv8>, p: nat, end: int, origin: nat)
    requires size > 0 && p + 4 <= |s|
  {
    exists p': nat ::
      && p <= p' < end && p' + 4 <= |s|
      && HashAt(hash, size, s, p') == HashAt(hash, size, s, p) && Index16(p', origin) == v
  }

  // for (; next_hash < end; next_hash++) table[hash] = next_hash: the last position of every hash
  // is in the table, and the other entries are as they were.
  method HashPositions(table: array<nat>, hash: seq<bv8> -> nat, s: seq<bv8>, from: nat, end: nat, origin: nat, ghost limit: nat)
    requires table.Length > 0 && AllName(table[..], limit, origin) && end <= limit && (from < end ==> end + 3 <= |s|)
    modifies table
    ensures AllName(table[..], limit, origin)
    ensures forall p :: from <= p < end ==>
              SeenSince(table[HashAt(hash, table.Length, s, p)], hash, table.Length, s, p, end, origin)
    ensures forall h :: 0 <= h < table.Length && (forall p :: from <= p < end ==> HashAt(hash, table.Length, s, p) != h) ==>
              table[h] == old(table[h])
    ensures table[..] == Filled(old(table[..]), hash, s, from, end, origin)
  {
    hide AllName, Index16, HashAt, Filled, SeenSince;
    FilledNone(table[..], hash, s, from, from, origin);
    if end < from {
      FilledNone(table[..], hash, s, from, end, origin);
    }
    FilledSeen(table[..], hash, s, from, end, origin);
    FilledElse(table[..], hash, s, from, end, origin);
    var nextHash := from;
    while nextHash < end
      invariant from <= nextHash && (nextHash == from || nextHash <= end) && AllName(table[..], limit, origin)
      invariant table[..] == Filled(old(table[..]), hash, s, from, nextHash, origin)
    {
      FilledNext(old(table[..]), hash, s, from, nextHash, origin);
      SetIndex(table, HashAt(hash, table.Length, s, nextHash), nextHash, origin, limit);
      nextHash := nextHash + 1;
    }
    ghost var t := table[..];
    assert forall h :: 0 <= h < |t| ==> table[h] == t[h];
  }

  // The table after the positions from to end - 1 have been entered one after the other.
  ghost function Filled(table: seq<nat>, hash: seq<bv8> -> nat, s: seq<bv8>, from: nat, end: int, origin: nat): (t: seq<nat>)
    requires |table| > 0 && (from < end ==> end + 3 <= |s|)
    ensures |t| == |table|
    decreases end - from
  {
    if from >= end then table
    else Filled(table, hash, s, from, end - 1, origin)[hash(s[end - 1..end + 3]) % |table| := (end - 1 - origin) % 65536]
  }

  lemma FilledNone(table: seq<nat>, hash: seq<bv8> -> nat, s: seq<bv8>, from: nat, end: int, origin: nat)
    requires |table| > 0 && from >= end
    ensures Filled(table, hash, s, from, end, origin) == table
  {
  }

  lemma FilledNext(table: seq<nat>, hash: seq<bv8> -> nat, s: seq<bv8>, from: nat, p: nat, origin: nat)
    requires |table| > 0 && from <= p && p + 4 <= |s|
    ensures Filled(table, hash, s, from, p + 1, origin)
         == Filled(table, hash, s, from, p, origin)[HashAt(hash, |table|, s, p) := Index16(p, origin)]
  {
    hide Filled;
    FilledStep(table, hash, s, from, p, origin);
  }

  lemma FilledStep(table: seq<nat>, hash: seq<bv8> -> nat, s: seq<bv8>, from: nat, p: nat, origin: nat)
    requires |table| > 0 && from <= p && p + 4 <= |s|
    ensures Filled(table, hash, s, from, p + 1, origin)
         == Filled(table, hash, s, from, p, origin)[hash(s[p..p + 4]) % |table| := (p - origin) % 65536]
  {
    assert p + 1 - 1 == p && p + 1 + 3 == p + 4;
  }

  // Every hash of the positions from to end - 1 has its last one in the table.
  lemma {:induction false} FilledSeen(table: seq<nat>, hash: seq<bv8> -> nat, s: seq<bv8>, from: nat, end: int, origin: nat)
    requires |table| > 0 && (from < end ==> end + 3 <= |s|)
    ensures
      var t := Filled(table, hash, s, from, end, origin);
      forall p :: from <= p < end ==> SeenSince(t[HashAt(hash, |table|, s, p)], hash, |table|, s, p, end, origin)
    decreases end - from
  {
    hide Index16, HashAt, Filled, SeenSince;
    if from >= end {
      FilledNone(table, hash, s, from, end, origin);
    } else {
      var before := Filled(table, hash, s, from, end - 1, origin);
      FilledSeen(table, hash, s, from, end - 1, origin);
      FilledNext(table, hash, s, from, end - 1, origin);
      forall p | from <= p < end
        ensures SeenSince(Filled(table, hash, s, from, end, origin)[HashAt(hash, |table|, s, p)], hash, |table|, s, p, end, origin)
      {
        var v := Filled(table, hash, s, from, end, origin)[HashAt(hash, |table|, s, p)];
        SeenLater(v, hash, |table|, s, p, end, origin);
      }
    }
  }

  // The entry was there before, or it is for the last position.
  lemma SeenLater(v: nat, hash: seq<bv8> -> nat, size: nat, s: seq<bv8>, p: nat, end: int, origin: nat)
    requires size > 0 && p < end && end + 3 <= |s|
    requires SeenSince(v, hash, size, s, p, end - 1, origin)
          || (HashAt(hash, size, s, p) == HashAt(hash, size, s, end - 1) && v == Index16(end - 1, origin))
    ensures SeenSince(v, hash, size, s, p, end, origin)
  {
    hide Index16, HashAt;
  }

  // The entries of other hashes stay.
  lemma {:induction false} FilledElse(table: seq<nat>, hash: seq<bv8> -> nat, s: seq<bv8>, from: nat, end: int, origin: nat)
    requires |table| > 0 && (from < end ==> end + 3 <= |s|)
    ensures
      var t := Filled(table, hash, s, from, end, origin);
      forall h :: 0 <= h < |table| && (forall p :: from <= p < end ==> HashAt(hash, |table|, s, p) != h) ==> t[h] == table[h]
    decreases end - from
  {
    hide Index16, HashAt, Filled;
    if from >= end {
      FilledNone(table, hash, s, from, end, origin);
    } else {
      FilledElse(table, hash, s, from, end - 1, origin);
      FilledNext(table, hash, s, from, end - 1, origin);
    }
  }

  method SetIndex(table: array<nat>, h: nat, p: nat, origin: nat, ghost limit: nat)
    requires h < table.Length && AllName(table[..], limit, origin) && p <= limit
    modifies table
    ensures AllName(table[..], limit, origin) && table[..] == old(table[..])[h := Index16(p, origin)]
  {
    assert Names(Index16(p, origin), limit, origin);
    hide Names, Index16;
    ghost var before := table[..];
    table[h] := Index16(p, origin);
    assert forall i :: 0 <= i < |table[..]| && i != h ==> table[..][i] == before[i];
  }

  // isal_deflate_hash_base for a dictionary that ends at position pos of the input.
  method IsalDeflateHashBase(table: array<nat>, hash: seq<bv8> -> nat, s: seq<bv8>, dict: nat, pos: nat, origin: nat)
    requires table.Length > 0 && dict <= pos <= |s| && AllName(table[..], pos, origin)
    modifies table
    ensures AllName(table[..], pos, origin)
    ensures forall p :: dict <= p && p + SHORTEST_MATCH <= pos ==>
              SeenSince(table[HashAt(hash, table.Length, s, p)], hash, table.Length, s, p, pos - 3, origin)
    ensures forall h ::
              0 <= h < table.Length
              && (forall p :: dict <= p && p + SHORTEST_MATCH <= pos ==> HashAt(hash, table.Length, s, p) != h) ==>
              table[h] == old(table[h])
    ensures table[..] == Filled(old(table[..]), hash, s, dict, pos - 3, origin)
  {
    hide AllName, Index16, HashAt, SeenSince, Filled;
    if pos >= SHORTEST_MATCH {
      HashPositions(table, hash, s, dict, pos - SHORTEST_MATCH + 1, origin, pos);
    } else {
      FilledNone(table[..], hash, s, dict, pos - 3, origin);
    }
  }

  // isal_deflate_hash for a dictionary from dict to the present position: all ones first, which name
  // a position of the history, the last one before file_start, if there is one.
  method IsalDeflateHash(table: array<nat>, hash: seq<bv8> -> nat, s: seq<bv8>, dict: nat, pos: nat, origin: nat)
    requires table.Length > 0 && dict <= pos <= |s| && origin <= pos && (origin > 0 || pos - origin >= 0xFFFF)
    modifies table
    ensures AllName(table[..], pos, origin)
    ensures forall p :: dict <= p && p + SHORTEST_MATCH <= pos ==>
              SeenSince(table[HashAt(hash, table.Length, s, p)], hash, table.Length, s, p, pos - 3, origin)
    ensures forall h ::
              0 <= h < table.Length
              && (forall p :: dict <= p && p + SHORTEST_MATCH <= pos ==> HashAt(hash, table.Length, s, p) != h) ==>
              table[h] == 0xFFFF
    ensures table[..] == Filled(seq(table.Length, _ => 0xFFFF), hash, s, dict, pos - 3, origin)
  {
    hide AllName, HashAt, SeenSince, Filled;
    for i := 0 to table.Length
      invariant forall k :: 0 <= k < i ==> table[k] == 0xFFFF
    {
      table[i] := 0xFFFF;
    }
    AllOnes(table[..], pos, origin);
    assert table[..] == seq(table.Length, _ => 0xFFFF);
    IsalDeflateHashBase(table, hash, s, dict, pos, origin);
  }
}
