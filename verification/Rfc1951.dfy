/** Literals, lengths and distances of RFC 1951, the powers of two, and how pairs of length and
    distance copy what is already there. */
module Rfc1951 {

  datatype Option<+T> = None | Some(value: T)

  // ---- sections 3.2.5: length and distance symbols ----

  // Base length of the length symbols 257..285.
  function LengthBase(sym: nat): nat {
    match sym
    case 257 => 3 case 258 => 4 case 259 => 5 case 260 => 6
    case 261 => 7 case 262 => 8 case 263 => 9 case 264 => 10
    case 265 => 11 case 266 => 13 case 267 => 15 case 268 => 17
    case 269 => 19 case 270 => 23 case 271 => 27 case 272 => 31
    case 273 => 35 case 274 => 43 case 275 => 51 case 276 => 59
    case 277 => 67 case 278 => 83 case 279 => 99 case 280 => 115
    case 281 => 131 case 282 => 163 case 283 => 195 case 284 => 227
    case 285 => 258 case _ => 0
  }

  function LengthExtraBits(sym: nat): nat {
    if sym < 265 || sym == 285 then 0
    else if sym < 269 then 1
    else if sym < 273 then 2
    else if sym < 277 then 3
    else if sym < 281 then 4
    else 5
  }

  // Base distance of the distance symbols 0..29.
  function DistanceBase(sym: nat): nat {
    match sym
    case 0 => 1 case 1 => 2 case 2 => 3 case 3 => 4 case 4 => 5 case 5 => 7
    case 6 => 9 case 7 => 13 case 8 => 17 case 9 => 25 case 10 => 33 case 11 => 49
    case 12 => 65 case 13 => 97 case 14 => 129 case 15 => 193 case 16 => 257 case 17 => 385
    case 18 => 513 case 19 => 769 case 20 => 1025 case 21 => 1537 case 22 => 2049 case 23 => 3073
    case 24 => 4097 case 25 => 6145 case 26 => 8193 case 27 => 12289 case 28 => 16385 case 29 => 24577
    case _ => 0
  }

  function DistanceExtraBits(sym: nat): nat {
    match sym
    case 0 => 0 case 1 => 0 case 2 => 0 case 3 => 0 case 4 => 1 case 5 => 1
    case 6 => 2 case 7 => 2 case 8 => 3 case 9 => 3 case 10 => 4 case 11 => 4
    case 12 => 5 case 13 => 5 case 14 => 6 case 15 => 6 case 16 => 7 case 17 => 7
    case 18 => 8 case 19 => 8 case 20 => 9 case 21 => 9 case 22 => 10 case 23 => 10
    case 24 => 11 case 25 => 11 case 26 => 12 case 27 => 12 case 28 => 13 case 29 => 13
    case _ => 0
  }

  function Pow2(n: nat): (p: nat)
    ensures p >= 1
  {
    if n == 0 then 1 else 2 * Pow2(n - 1)
  }

  lemma {:induction false} Pow2Monotone(a: nat, b: nat)
    requires a <= b
    ensures Pow2(a) <= Pow2(b)
  {
    if a < b {
      Pow2Monotone(a, b - 1);
    }
  }

  lemma {:induction false} Pow2Less(a: nat, b: nat)
    ensures Pow2(a) < Pow2(b) <==> a < b
  {
    if a < b {
      Pow2Monotone(a, b - 1);
    } else {
      Pow2Monotone(b, a);
    }
  }

  function Min(a: nat, b: nat): nat {
    if a < b then a else b
  }

  // ---- section 2 and 3.2.3: what literals and pairs stand for ----

  datatype Item = Literal(byte: bv8) | Pair(length: nat, distance: nat)

  // length bytes, each copied from distance bytes back; the ranges may overlap.
  function Copy(out: seq<bv8>, length: nat, distance: nat): (r: seq<bv8>)
    requires 1 <= distance <= |out|
    ensures |r| == |out| + length && out <= r
  {
    if length == 0 then out
    else
      var r := Copy(out, length - 1, distance);
      r + [r[|r| - distance]]
  }

  // A distance of zero or before the start of the output is an error.
  function Emit(out: seq<bv8>, item: Item): Option<seq<bv8>> {
    match item
    case Literal(b) => Some(out + [b])
    case Pair(length, distance) =>
      if 1 <= distance <= |out| then Some(Copy(out, length, distance)) else None
  }

  function Expand(out: seq<bv8>, items: seq<Item>): Option<seq<bv8>>
    decreases |items|
  {
    if items == [] then Some(out)
    else
      match Expand(out, items[..|items| - 1])
      case None => None
      case Some(r) => Emit(r, items[|items| - 1])
  }

  lemma {:induction false} ExpandAppend(out: seq<bv8>, a: seq<Item>, b: seq<Item>)
    requires Expand(out, a).Some?
    ensures Expand(out, a + b) == Expand(Expand(out, a).value, b)
    decreases |b|
  {
    if b == [] {
      assert a + b == a;
    } else {
      var b' := b[..|b| - 1];
      ExpandAppend(out, a, b');
      assert (a + b)[..|a + b| - 1] == a + b';
    }
  }

  // Copying is right when the bytes to come repeat the bytes distance back.
  lemma {:induction false} CopyMatches(file: seq<bv8>, pos: nat, length: nat, distance: nat)
    requires pos + length <= |file| && 1 <= distance <= pos
    requires forall q :: pos <= q < pos + length ==> file[q] == file[q - distance]
    ensures Copy(file[..pos], length, distance) == file[..pos + length]
  {
    if length > 0 {
      CopyMatches(file, pos, length - 1, distance);
      assert file[..pos + length] == file[..pos + length - 1] + [file[pos + length - 1]];
    }
  }
}
