/** GF(2^8) and its logarithm tables. */
module Galois {

  // The tables are written sixteen bytes to a row, left to right.
  function RowByte(row: bv128, column: bv8): bv8
    requires column < 16
  {
    ((row >> (8 * (15 - column))) & 0xff) as bv8
  }

  // gff_base: the powers of 2; entry 255 wraps around to entry 0.
  function GffBase(i: bv8): bv8 {
    RowByte(match i >> 4
            case 0 => 0x01020408102040801d3a74e8cd871326
            case 1 => 0x4c982d5ab475eac98f03060c183060c0
            case 2 => 0x9d274e9c254a94356ad4b577eec19f23
            case 3 => 0x468c050a142850a05dba69d2b96fdea1
            case 4 => 0x5fbe61c2992f5ebc65ca890f1e3c78f0
            case 5 => 0xfde7d3bb6bd6b17ffee1dfa35bb671e2
            case 6 => 0xd9af4386112244880d1a3468d0bd67ce
            case 7 => 0x811f3e7cf8edc7933b76ecc5973366cc
            case 8 => 0x85172e5cb86ddaa94f9e214284152a54
            case 9 => 0xa84d9a2952a455aa49923972e4d5b773
            case 10 => 0xe6d1bf63c6913f7efce5d7b37bf6f1ff
            case 11 => 0xe3dbab4b963162c495376edca557ae41
            case 12 => 0x82193264c88d070e1c3870e0dda753a6
            case 13 => 0x51a259b279f2f9efc39b2b56ac458a09
            case 14 => 0x122448903d7af4f5f7f3fbebcb8b0b16
            case _ => 0x2c58b07dfae9cf831b366cd8ad478e01
            , i & 15)
  }

  // gflog_base: the logarithm of 1 is stored as 255, not 0.
  function GflogBase(i: bv8): bv8 {
    RowByte(match i >> 4
            case 0 => 0x00ff011902321ac603df33ee1b68c74b
            case 1 => 0x0464e00e348def811cc169f8c8084c71
            case 2 => 0x058a652fe1240f2135938edaf0128245
            case 3 => 0x1db5c27d6a27f9b9c99a09784de472a6
            case 4 => 0x06bf8b6266dd30fde29825b310912288
            case 5 => 0x36d094ce8f96dbbdf1d2135c83384640
            case 6 => 0x1e42b6a3c3487e6e6b3a2854fa85ba3d
            case 7 => 0xca5e9b9f0a15792b4ed4e5ac73f3a757
            case 8 => 0x0770c0f78c80630d674adeed31c5fe18
            case 9 => 0xe3a5997726b8b47c114492d92320892e
            case 10 => 0x373fd15b95bccfcd908797b2dcfcbe61
            case 11 => 0xf256d3ab142a5d9e843c3953476d41a2
            case 12 => 0x1f2d43d8b77ba476c41749ec7f0c6ff6
            case 13 => 0x6ca13b52299d55aafb6086b1bbcc3e5a
            case 14 => 0xcb595fb09ca9a0510bf516eb7a752cd7
            case _ => 0x4faed5e9e6e7ade874d6f4eaa85058af
            , i & 15)
  }

  // The power of 2 at exponent i, a sum of two logarithms.
  function GffAtSum(i: bv16): bv8
    requires i <= 510
  {
    GffBase(if i > 254 then (i - 255) as bv8 else i as bv8)
  }

  // gf_mul
  function GfMul(a: bv8, b: bv8): bv8 {
    if a == 0 || b == 0 then 0
    else GffAtSum((GflogBase(a) as bv16) + (GflogBase(b) as bv16))
  }

  // gf_inv
  function GfInv(a: bv8): bv8 {
    if a == 0 then 0 else GffBase(255 - GflogBase(a))
  }

  // Addition, and subtraction.
  function Add(a: bv8, b: bv8): bv8 {
    a ^ b
  }

  // Multiplication by x in the quotient ring.
  function Xtime(a: bv8): bv8 {
    (a << 1) ^ (if a & 0x80 != 0 then 0x1d else 0)
  }

  // The reference product: schoolbook multiplication of polynomials over GF(2).
  function Mul(a: bv8, b: bv8): bv8 {
    if a == 0 then 0
    else if a & 1 == 1 then Add(b, Mul(a >> 1, Xtime(b)))
    else Mul(a >> 1, Xtime(b))
  }

  // ---- what the two tables say about each other ----

  lemma GffOfGflog(a: bv8)
    requires a != 0
    ensures GflogBase(a) != 0 && GffBase(GflogBase(a)) == a
  {
  }

  lemma GflogOfGff(i: bv8)
    requires i != 0
    ensures GffBase(i) != 0 && GflogBase(GffBase(i)) == i
  {
  }

  lemma GflogOfXtime(a: bv8)
    requires a != 0
    ensures Xtime(a) != 0
    ensures GflogBase(Xtime(a)) == if GflogBase(a) == 255 then 1 else GflogBase(a) + 1
  {
  }

  lemma GffStep(i: bv8)
    requires i != 255
    ensures GffBase(i + 1) == Xtime(GffBase(i))
  {
    if i != 0 {
      GflogOfGff(i);
      GflogOfXtime(GffBase(i));
      GffOfGflog(Xtime(GffBase(i)));
    }
  }

  lemma GffEnds()
    ensures GffBase(0) == 1 && GffBase(1) == 2 && GffBase(255) == 1
  {
  }

  // ---- the reference product ----

  lemma AddLaws(a: bv8, b: bv8)
    ensures Add(a, b) == Add(b, a)
    ensures Add(a, a) == 0 && Add(a, 0) == a
    ensures Add(a, Add(a, b)) == b
  {
  }

  lemma AddAssoc(a: bv8, b: bv8, c: bv8)
    ensures Add(Add(a, b), c) == Add(a, Add(b, c))
  {
  }

  lemma AddSwap(a: bv8, b: bv8, c: bv8, d: bv8)
    ensures Add(Add(a, b), Add(c, d)) == Add(Add(a, c), Add(b, d))
  {
    hide Add;
    AddAssoc(a, b, Add(c, d));
    AddAssoc(b, c, d);
    AddLaws(b, c);
    AddAssoc(c, b, d);
    AddAssoc(a, c, Add(b, d));
  }

  lemma MulUnfold(a: bv8, b: bv8)
    ensures a == 0 ==> Mul(a, b) == 0
    ensures a != 0 && a & 1 == 1 ==> Mul(a, b) == Add(b, Mul(a >> 1, Xtime(b)))
    ensures a != 0 && a & 1 != 1 ==> Mul(a, b) == Mul(a >> 1, Xtime(b))
  {
    hide Xtime, Add;
  }

  lemma XtimeAdd(b: bv8, c: bv8)
    ensures Xtime(Add(b, c)) == Add(Xtime(b), Xtime(c))
  {
    var p, q := b & 0x80 != 0, c & 0x80 != 0;
    assert p == q <==> (b ^ c) & 0x80 == 0;
    if p && q {
    } else if p {
    } else if q {
    } else {
    }
  }

  lemma XtimeZero()
    ensures Xtime(0) == 0
  {
  }

  lemma {:induction false} MulAdd(a: bv8, b: bv8, c: bv8)
    ensures Mul(a, Add(b, c)) == Add(Mul(a, b), Mul(a, c))
  {
    MulUnfold(a, Add(b, c));
    MulUnfold(a, b);
    MulUnfold(a, c);
    if a != 0 {
      MulAdd(a >> 1, Xtime(b), Xtime(c));
      hide Xtime, Mul, Add;
      XtimeAdd(b, c);
      AddSwap(b, c, Mul(a >> 1, Xtime(b)), Mul(a >> 1, Xtime(c)));
    } else {
    }
  }

  lemma {:induction false} MulXtime(a: bv8, b: bv8)
    ensures Mul(a, Xtime(b)) == Xtime(Mul(a, b))
  {
    hide Xtime, Mul, Add;
    MulUnfold(a, Xtime(b));
    MulUnfold(a, b);
    if a != 0 {
      MulXtime(a >> 1, Xtime(b));
      XtimeAdd(b, Mul(a >> 1, Xtime(b)));
    } else {
      XtimeZero();
    }
  }

  lemma MulZero(a: bv8)
    ensures Mul(0, a) == 0 && Mul(a, 0) == 0
  {
    hide Xtime, Mul, Add;
    MulUnfold(0, a);
    MulAdd(a, a, a);
    AddLaws(a, a);
    AddLaws(Mul(a, a), 0);
  }

  lemma MulOne(a: bv8)
    ensures Mul(1, a) == a && Mul(a, 1) == a
  {
    hide Mul;
    MulUnfold(1, a);
    MulUnfold(0, Xtime(a));
    MulUnfold(a, 1);
    MulUnfold(a >> 1, 0x02);
    MulUnfold(a >> 2, 0x04);
    MulUnfold(a >> 3, 0x08);
    MulUnfold(a >> 4, 0x10);
    MulUnfold(a >> 5, 0x20);
    MulUnfold(a >> 6, 0x40);
    MulUnfold(a >> 7, 0x80);
    MulUnfold(0, Xtime(0x80));
  }

  // ---- the table product is the reference product ----

  lemma GffAtSumStep(i: bv16)
    requires i < 510
    ensures GffAtSum(i + 1) == Xtime(GffAtSum(i))
  {
    hide Xtime;
    GffEnds();
    if i <= 254 {
      GffStep(i as bv8);
    } else {
      GffStep((i - 255) as bv8);
    }
  }

  // gflog[a] + i, as gf_mul forms it.
  function LogSum(a: bv8, i: bv8): bv16 {
    (GflogBase(a) as bv16) + (i as bv16)
  }

  lemma LogSumStep(a: bv8, i: bv8)
    requires i != 0
    ensures LogSum(a, i - 1) < 510 && LogSum(a, i) <= 510
    ensures LogSum(a, i - 1) + 1 == LogSum(a, i)
  {
    hide GflogBase;
  }

  lemma LogSumZero(a: bv8)
    ensures GffAtSum(LogSum(a, 0)) == GffBase(GflogBase(a))
  {
    hide GflogBase, GffBase;
    GffEnds();
  }

  lemma {:induction false} MulOfGff(a: bv8, i: bv8)
    requires a != 0 && i != 0
    ensures LogSum(a, i) <= 510 && Mul(a, GffBase(i)) == GffAtSum(LogSum(a, i))
  {
    hide *;
    LogSumStep(a, i);
    GffStep(i - 1);
    MulXtime(a, GffBase(i - 1));
    GffAtSumStep(LogSum(a, i - 1));
    if i == 1 {
      GffEnds();
      MulOne(a);
      GffOfGflog(a);
      LogSumZero(a);
    } else {
      MulOfGff(a, i - 1);
    }
  }

  lemma GfMulIsMul(a: bv8, b: bv8)
    ensures GfMul(a, b) == Mul(a, b)
  {
    hide Mul;
    if a == 0 || b == 0 {
      MulZero(a);
      MulZero(b);
    } else {
      GffOfGflog(b);
      MulOfGff(a, GflogBase(b));
    }
  }

  lemma MulComm(a: bv8, b: bv8)
    ensures Mul(a, b) == Mul(b, a)
  {
    hide Mul, GflogBase, GffAtSum;
    GfMulIsMul(a, b);
    GfMulIsMul(b, a);
    assert (GflogBase(a) as bv16) + (GflogBase(b) as bv16) == (GflogBase(b) as bv16) + (GflogBase(a) as bv16);
  }

  lemma AddMul(a: bv8, b: bv8, c: bv8)
    ensures Mul(Add(a, b), c) == Add(Mul(a, c), Mul(b, c))
  {
    hide Mul, Add;
    MulAdd(c, a, b);
    MulComm(c, Add(a, b));
    MulComm(c, a);
    MulComm(c, b);
  }

  lemma {:induction false} MulAssoc(a: bv8, b: bv8, c: bv8)
    ensures Mul(Mul(a, b), c) == Mul(a, Mul(b, c))
  {
    hide Mul, Add, Xtime;
    MulUnfold(a, b);
    MulUnfold(a, Mul(b, c));
    if a != 0 {
      MulAssoc(a >> 1, Xtime(b), c);
      AddMul(b, Mul(a >> 1, Xtime(b)), c);
      MulComm(Xtime(b), c);
      MulXtime(c, b);
      MulComm(b, c);
    } else {
      MulZero(c);
    }
  }

  lemma MulInv(a: bv8)
    requires a != 0
    ensures GfInv(a) != 0 && Mul(a, GfInv(a)) == 1 && Mul(GfInv(a), a) == 1
  {
    hide Mul;
    GffOfGflog(a);
    GffEnds();
    var i := 255 - GflogBase(a);
    if i == 0 {
      MulOne(a);
    } else {
      GflogOfGff(i);
      MulOfGff(a, i);
      MulComm(a, GfInv(a));
    }
  }

  lemma MulNonzero(a: bv8, b: bv8)
    ensures Mul(a, b) == 0 <==> a == 0 || b == 0
  {
    hide Mul, GfInv;
    MulZero(a);
    MulZero(b);
    if a != 0 && Mul(a, b) == 0 {
      MulInv(a);
      MulAssoc(GfInv(a), a, b);
      MulZero(GfInv(a));
      MulOne(b);
    }
  }

  lemma MulCancel(c: bv8, a: bv8, b: bv8)
    requires c != 0 && Mul(c, a) == Mul(c, b)
    ensures a == b
  {
    hide Mul, GfInv;
    MulInv(c);
    MulAssoc(GfInv(c), c, a);
    MulAssoc(GfInv(c), c, b);
    MulOne(a);
    MulOne(b);
  }
}
