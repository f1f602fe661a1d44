/** compare258: how long two words agree. */
module Compare {

  // load_u64
  function LoadU64(s: seq<bv8>): bv64
    requires |s| == 8
  {
    (s[0] as bv64) | ((s[1] as bv64) << 8) | ((s[2] as bv64) << 16) | ((s[3] as bv64) << 24)
    | ((s[4] as bv64) << 32) | ((s[5] as bv64) << 40) | ((s[6] as bv64) << 48) | ((s[7] as bv64) << 56)
  }

  // The bits in which two words differ.
  function Difference(s: seq<bv8>, t: seq<bv8>): bv64
    requires |s| == 8 && |t| == 8
  {
    LoadU64(s) ^ LoadU64(t)
  }

  // tzbytecnt: the number of zero bytes below the lowest nonzero byte
  function TzByteCnt(v: bv64): nat {
    if v & 0xff != 0 then 0
    else if v & 0xffff != 0 then 1
    else if v & 0xff_ffff != 0 then 2
    else if v & 0xffff_ffff != 0 then 3
    else if v & 0xff_ffff_ffff != 0 then 4
    else if v & 0xffff_ffff_ffff != 0 then 5
    else if v & 0xff_ffff_ffff_ffff != 0 then 6
    else if v != 0 then 7
    else 8
  }

  // n bytes agree, and if fewer than limit do, the next ones differ.
  ghost predicate AgreesFor(s: seq<bv8>, t: seq<bv8>, n: nat, limit: nat) {
    && n <= limit <= |s| && limit <= |t|
    && s[..n] == t[..n]
    && (n < limit ==> s[n] != t[n])
  }

  lemma WordDifference(s: seq<bv8>, t: seq<bv8>)
    requires |s| == |t| == 8
    ensures
      var test := Difference(s, t);
      && (test != 0 ==> TzByteCnt(test) < 8 && AgreesFor(s, t, TzByteCnt(test), 8))
      && (test == 0 ==> s == t)
  {
  }

  lemma AgreesAppend(s: seq<bv8>, t: seq<bv8>, count: nat, width: nat, n: nat, limit: nat)
    requires count + width <= limit <= |s| && limit <= |t| && s[..count] == t[..count]
    requires AgreesFor(s[count..count + width], t[count..count + width], n, width)
    ensures n < width ==> AgreesFor(s, t, count + n, limit)
    ensures n == width ==> s[..count + width] == t[..count + width]
  {
    var s', t' := s[count..count + width], t[count..count + width];
    assert s[..count + n] == s[..count] + s'[..n];
    assert t[..count + n] == t[..count] + t'[..n];
    if n < width {
      assert s[count + n] == s'[n] && t[count + n] == t'[n];
    }
  }

  lemma AgreesHere(s: seq<bv8>, t: seq<bv8>, n: nat, limit: nat)
    requires n <= limit <= |s| && limit <= |t| && s[..n] == t[..n] && (n < limit ==> s[n] != t[n])
    ensures AgreesFor(s, t, n, limit)
  {
  }

  lemma SameWord(s: seq<bv8>, t: seq<bv8>)
    requires s == t
    ensures AgreesFor(s, t, |s|, |s|)
  {
  }

  // compare258 on two strings given with all the bytes that follow them
  method Compare258(str1: seq<bv8>, str2: seq<bv8>, maxLength: nat) returns (count: nat)
    requires maxLength <= |str1| && maxLength <= |str2|
    ensures AgreesFor(str1, str2, count, if maxLength > 258 then 258 else maxLength)
  {
    hide Difference, TzByteCnt, AgreesFor;
    var limit := if maxLength > 258 then 258 else maxLength;
    var loopLength := limit - limit % 8;
    count := 0;
    while count < loopLength
      invariant count % 8 == 0 && count <= loopLength && str1[..count] == str2[..count]
    {
      assert count + 8 <= loopLength;
      var test := Difference(str1[count..count + 8], str2[count..count + 8]);
      WordDifference(str1[count..count + 8], str2[count..count + 8]);
      if test != 0 {
        AgreesAppend(str1, str2, count, 8, TzByteCnt(test), limit);
        return count + TzByteCnt(test);
      }
      SameWord(str1[count..count + 8], str2[count..count + 8]);
      AgreesAppend(str1, str2, count, 8, 8, limit);
      count := count + 8;
    }

    // the fall-through cases limit % 8, ..., 1
    while count < limit
      invariant loopLength <= count <= limit && str1[..count] == str2[..count]
    {
      if str1[count] != str2[count] {
        AgreesHere(str1, str2, count, limit);
        return;
      }
      count := count + 1;
    }
    AgreesHere(str1, str2, count, limit);
  }
}
