/** The table of roots of ML-KEM-768, and the finite check that it is the table of powers of 17. */
module MlKemZetas {
  import opened ModArith
  import opened NttTheory
  import opened RingProduct
  import opened RootPowers
  import opened Montgomery

  const Q := 3329
  /** 2^16 modulo q and its inverse. */
  const MONT := 2285
  const RINV := 169

  /** Entry k of the table: the roots in the order of the transform, in Montgomery form. */
  function KZeta(k: int): int {
    if k < 64 then
      if k < 32 then
        if k < 16 then
          if k < 8 then
            if k < 4 then
              if k < 2 then (if k < 1 then -1044 else -758) else if k < 3 then -359 else -1517
            else
              if k < 6 then (if k < 5 then 1493 else 1422) else if k < 7 then 287 else 202
          else
            if k < 12 then
              if k < 10 then (if k < 9 then -171 else 622) else if k < 11 then 1577 else 182
            else
              if k < 14 then (if k < 13 then 962 else -1202) else if k < 15 then -1474 else 1468
        else
          if k < 24 then
            if k < 20 then
              if k < 18 then (if k < 17 then 573 else -1325) else if k < 19 then 264 else 383
            else
              if k < 22 then (if k < 21 then -829 else 1458) else if k < 23 then -1602 else -130
          else
            if k < 28 then
              if k < 26 then (if k < 25 then -681 else 1017) else if k < 27 then 732 else 608
            else
              if k < 30 then (if k < 29 then -1542 else 411) else if k < 31 then -205 else -1571
      else
        if k < 48 then
          if k < 40 then
            if k < 36 then
              if k < 34 then (if k < 33 then 1223 else 652) else if k < 35 then -552 else 1015
            else
              if k < 38 then (if k < 37 then -1293 else 1491) else if k < 39 then -282 else -1544
          else
            if k < 44 then
              if k < 42 then (if k < 41 then 516 else -8) else if k < 43 then -320 else -666
            else
              if k < 46 then (if k < 45 then -1618 else -1162) else if k < 47 then 126 else 1469
        else
          if k < 56 then
            if k < 52 then
              if k < 50 then (if k < 49 then -853 else -90) else if k < 51 then -271 else 830
            else
              if k < 54 then (if k < 53 then 107 else -1421) else if k < 55 then -247 else -951
          else
            if k < 60 then
              if k < 58 then (if k < 57 then -398 else 961) else if k < 59 then -1508 else -725
            else
              if k < 62 then (if k < 61 then 448 else -1065) else if k < 63 then 677 else -1275
    else
      if k < 96 then
        if k < 80 then
          if k < 72 then
            if k < 68 then
              if k < 66 then (if k < 65 then -1103 else 430) else if k < 67 then 555 else 843
            else
              if k < 70 then (if k < 69 then -1251 else 871) else if k < 71 then 1550 else 105
          else
            if k < 76 then
              if k < 74 then (if k < 73 then 422 else 587) else if k < 75 then 177 else -235
            else
              if k < 78 then (if k < 77 then -291 else -460) else if k < 79 then 1574 else 1653
        else
          if k < 88 then
            if k < 84 then
              if k < 82 then (if k < 81 then -246 else 778) else if k < 83 then 1159 else -147
            else
              if k < 86 then (if k < 85 then -777 else 1483) else if k < 87 then -602 else 1119
          else
            if k < 92 then
              if k < 90 then (if k < 89 then -1590 else 644) else if k < 91 then -872 else 349
            else
              if k < 94 then (if k < 93 then 418 else 329) else if k < 95 then -156 else -75
      else
        if k < 112 then
          if k < 104 then
            if k < 100 then
              if k < 98 then (if k < 97 then 817 else 1097) else if k < 99 then 603 else 610
            else
              if k < 102 then (if k < 101 then 1322 else -1285) else if k < 103 then -1465 else 384
          else
            if k < 108 then
              if k < 106 then (if k < 105 then -1215 else -136) else if k < 107 then 1218 else -1335
            else
              if k < 110 then (if k < 109 then -874 else 220) else if k < 111 then -1187 else -1659
        else
          if k < 120 then
            if k < 116 then
              if k < 114 then (if k < 113 then -1185 else -1530) else if k < 115 then -1278 else 794
            else
              if k < 118 then (if k < 117 then -1510 else -854) else if k < 119 then -870 else 478
          else
            if k < 124 then
              if k < 122 then (if k < 121 then -108 else -308) else if k < 123 then 996 else 991
            else
              if k < 126 then (if k < 125 then 958 else -1460) else if k < 127 then 1522 else 1628
  }

  lemma ZetaBound(k: int)
    ensures -1664 <= KZeta(k) <= 1664
  {
  }

  // ----- the finite check of the table -----

  /** Entry w stands for the product of the roots of f and of entry k. */
  predicate Times(f: int, k: int, w: int) {
    (f * KZeta(k) - 2285 * KZeta(w)) % 3329 == 0
  }

  lemma Exact(f: int, k: int, w: int, quotient: int)
    requires f * KZeta(k) - 2285 * KZeta(w) == 3329 * quotient
    ensures Times(f, k, w)
  {
  }

  lemma Step2()
    ensures Times(-359, 1, 3)
  {
    hide Times;
    Exact(-359, 1, 3, 1123);
  }

  lemma Step4()
    ensures Times(1493, 1, 5) && Times(1493, 2, 6) && Times(1493, 3, 7)
  {
    hide Times;
    Exact(1493, 1, 5, -1316); Exact(1493, 2, 6, -358); Exact(1493, 3, 7, -819);
  }

  lemma Step8()
    ensures Times(-171, 1, 9) && Times(-171, 2, 10) && Times(-171, 3, 11)
    ensures Times(-171, 4, 12) && Times(-171, 5, 13) && Times(-171, 6, 14)
    ensures Times(-171, 7, 15)
  {
    hide Times;
    Exact(-171, 1, 9, -388); Exact(-171, 2, 10, -1064); Exact(-171, 3, 11, -47);
    Exact(-171, 4, 12, -737); Exact(-171, 5, 13, 752); Exact(-171, 6, 14, 997);
    Exact(-171, 7, 15, -1018);
  }

  lemma Step16()
    ensures Times(573, 1, 17) && Times(573, 2, 18) && Times(573, 3, 19)
    ensures Times(573, 4, 20) && Times(573, 5, 21) && Times(573, 6, 22)
    ensures Times(573, 7, 23) && Times(573, 8, 24) && Times(573, 9, 25)
    ensures Times(573, 10, 26) && Times(573, 11, 27) && Times(573, 12, 28)
    ensures Times(573, 13, 29) && Times(573, 14, 30) && Times(573, 15, 31)
  {
    hide Times;
    Exact(573, 1, 17, 779); Exact(573, 2, 18, -243); Exact(573, 3, 19, -524);
    Exact(573, 4, 20, 826); Exact(573, 5, 21, -756); Exact(573, 6, 22, 1149);
    Exact(573, 7, 23, 124); Exact(573, 8, 24, 438); Exact(573, 9, 25, -591);
    Exact(573, 10, 26, -231); Exact(573, 11, 27, -386); Exact(573, 12, 28, 1224);
    Exact(573, 13, 29, -489); Exact(573, 14, 30, -113); Exact(573, 15, 31, 1331);
  }

  lemma Step32()
    ensures Times(1223, 1, 33) && Times(1223, 2, 34) && Times(1223, 3, 35)
    ensures Times(1223, 4, 36) && Times(1223, 5, 37) && Times(1223, 6, 38)
    ensures Times(1223, 7, 39) && Times(1223, 8, 40) && Times(1223, 9, 41)
    ensures Times(1223, 10, 42) && Times(1223, 11, 43) && Times(1223, 12, 44)
    ensures Times(1223, 13, 45) && Times(1223, 14, 46) && Times(1223, 15, 47)
  {
    hide Times;
    Exact(1223, 1, 33, -726); Exact(1223, 2, 34, 247); Exact(1223, 3, 35, -1254);
    Exact(1223, 4, 36, 1436); Exact(1223, 5, 37, -501); Exact(1223, 6, 38, 299);
    Exact(1223, 7, 39, 1134); Exact(1223, 8, 40, -417); Exact(1223, 9, 41, 234);
    Exact(1223, 10, 42, 799); Exact(1223, 11, 43, 524); Exact(1223, 12, 44, 1464);
    Exact(1223, 13, 45, 356); Exact(1223, 14, 46, -628); Exact(1223, 15, 47, -469);
  }

  lemma Step32From16()
    ensures Times(1223, 16, 48) && Times(1223, 17, 49) && Times(1223, 18, 50)
    ensures Times(1223, 19, 51) && Times(1223, 20, 52) && Times(1223, 21, 53)
    ensures Times(1223, 22, 54) && Times(1223, 23, 55) && Times(1223, 24, 56)
    ensures Times(1223, 25, 57) && Times(1223, 26, 58) && Times(1223, 27, 59)
    ensures Times(1223, 28, 60) && Times(1223, 29, 61) && Times(1223, 30, 62)
    ensures Times(1223, 31, 63)
  {
    hide Times;
    Exact(1223, 16, 48, 796); Exact(1223, 17, 49, -425); Exact(1223, 18, 50, 283);
    Exact(1223, 19, 51, -429); Exact(1223, 20, 52, -378); Exact(1223, 21, 53, 1511);
    Exact(1223, 22, 54, -419); Exact(1223, 23, 55, 605); Exact(1223, 24, 56, 23);
    Exact(1223, 25, 57, -286); Exact(1223, 26, 58, 1304); Exact(1223, 27, 59, 721);
    Exact(1223, 28, 60, -874); Exact(1223, 29, 61, 882); Exact(1223, 30, 62, -540);
    Exact(1223, 31, 63, 298);
  }

  lemma Step64()
    ensures Times(-1103, 1, 65) && Times(-1103, 2, 66) && Times(-1103, 3, 67)
    ensures Times(-1103, 4, 68) && Times(-1103, 5, 69) && Times(-1103, 6, 70)
    ensures Times(-1103, 7, 71) && Times(-1103, 8, 72) && Times(-1103, 9, 73)
    ensures Times(-1103, 10, 74) && Times(-1103, 11, 75) && Times(-1103, 12, 76)
    ensures Times(-1103, 13, 77) && Times(-1103, 14, 78) && Times(-1103, 15, 79)
  {
    hide Times;
    Exact(-1103, 1, 65, -44); Exact(-1103, 2, 66, -262); Exact(-1103, 3, 67, -76);
    Exact(-1103, 4, 68, 364); Exact(-1103, 5, 69, -1069); Exact(-1103, 6, 70, -1159);
    Exact(-1103, 7, 71, -139); Exact(-1103, 8, 72, -233); Exact(-1103, 9, 73, -609);
    Exact(-1103, 10, 74, -644); Exact(-1103, 11, 75, 101); Exact(-1103, 12, 76, -119);
    Exact(-1103, 13, 77, 714); Exact(-1103, 14, 78, -592); Exact(-1103, 15, 79, -1621);
  }

  lemma Step64From16()
    ensures Times(-1103, 16, 80) && Times(-1103, 17, 81) && Times(-1103, 18, 82)
    ensures Times(-1103, 19, 83) && Times(-1103, 20, 84) && Times(-1103, 21, 85)
    ensures Times(-1103, 22, 86) && Times(-1103, 23, 87) && Times(-1103, 24, 88)
    ensures Times(-1103, 25, 89) && Times(-1103, 26, 90) && Times(-1103, 27, 91)
    ensures Times(-1103, 28, 92) && Times(-1103, 29, 93) && Times(-1103, 30, 94)
    ensures Times(-1103, 31, 95)
  {
    hide Times;
    Exact(-1103, 16, 80, -21); Exact(-1103, 17, 81, -95); Exact(-1103, 18, 82, -883);
    Exact(-1103, 19, 83, -26); Exact(-1103, 20, 84, 808); Exact(-1103, 21, 85, -1501);
    Exact(-1103, 22, 86, 944); Exact(-1103, 23, 87, -725); Exact(-1103, 24, 88, 1317);
    Exact(-1103, 25, 89, -779); Exact(-1103, 26, 90, 356); Exact(-1103, 27, 91, -441);
    Exact(-1103, 28, 92, 224); Exact(-1103, 29, 93, -362); Exact(-1103, 30, 94, 175);
    Exact(-1103, 31, 95, 572);
  }

  lemma Step64From32()
    ensures Times(-1103, 32, 96) && Times(-1103, 33, 97) && Times(-1103, 34, 98)
    ensures Times(-1103, 35, 99) && Times(-1103, 36, 100) && Times(-1103, 37, 101)
    ensures Times(-1103, 38, 102) && Times(-1103, 39, 103) && Times(-1103, 40, 104)
    ensures Times(-1103, 41, 105) && Times(-1103, 42, 106) && Times(-1103, 43, 107)
    ensures Times(-1103, 44, 108) && Times(-1103, 45, 109) && Times(-1103, 46, 110)
    ensures Times(-1103, 47, 111)
  {
    hide Times;
    Exact(-1103, 32, 96, -966); Exact(-1103, 33, 97, -969); Exact(-1103, 34, 98, -231);
    Exact(-1103, 35, 99, -755); Exact(-1103, 36, 100, -479); Exact(-1103, 37, 101, 388);
    Exact(-1103, 38, 102, 1099); Exact(-1103, 39, 103, 248); Exact(-1103, 40, 104, 663);
    Exact(-1103, 41, 105, 96); Exact(-1103, 42, 106, -730); Exact(-1103, 43, 107, 1137);
    Exact(-1103, 44, 108, 1136); Exact(-1103, 45, 109, 234); Exact(-1103, 46, 110, 773);
    Exact(-1103, 47, 111, 652);
  }

  lemma Step64From48()
    ensures Times(-1103, 48, 112) && Times(-1103, 49, 113) && Times(-1103, 50, 114)
    ensures Times(-1103, 51, 115) && Times(-1103, 52, 116) && Times(-1103, 53, 117)
    ensures Times(-1103, 54, 118) && Times(-1103, 55, 119) && Times(-1103, 56, 120)
    ensures Times(-1103, 57, 121) && Times(-1103, 58, 122) && Times(-1103, 59, 123)
    ensures Times(-1103, 60, 124) && Times(-1103, 61, 125) && Times(-1103, 62, 126)
    ensures Times(-1103, 63, 127)
  {
    hide Times;
    Exact(-1103, 48, 112, 1096); Exact(-1103, 49, 113, 1080); Exact(-1103, 50, 114, 967);
    Exact(-1103, 51, 115, -820); Exact(-1103, 52, 116, 1001); Exact(-1103, 53, 117, 1057);
    Exact(-1103, 54, 118, 679); Exact(-1103, 55, 119, -13); Exact(-1103, 56, 120, 206);
    Exact(-1103, 57, 121, -107); Exact(-1103, 58, 122, -184); Exact(-1103, 59, 123, -440);
    Exact(-1103, 60, 124, -806); Exact(-1103, 61, 125, 1355); Exact(-1103, 62, 126, -1269);
    Exact(-1103, 63, 127, -695);
  }

  lemma Halved()
    ensures Times(-359, 2, 1) && Times(1493, 4, 2)
    ensures Times(-171, 8, 4) && Times(573, 16, 8)
    ensures Times(1223, 32, 16) && Times(-1103, 64, 32)
  {
    Exact(-359, 2, 1, 559); Exact(1493, 4, 2, 916);
    Exact(-171, 8, 4, -1016); Exact(573, 16, 8, 216);
    Exact(1223, 32, 16, 56); Exact(-1103, 64, 32, -474);
  }

  /** The entries at the powers of two. */
  function Pivot(l: nat): (f: int)
    requires l < 7
    ensures f == KZeta(Blocks(l))
  {
    match l
    case 0 => -758 case 1 => -359 case 2 => 1493 case 3 => -171 case 4 => 573 case 5 => 1223 case _ => -1103
  }

  lemma Steps2(k: int)
    requires 1 <= k < 2
    ensures Times(-359, k, 2 + k)
  {
    hide Times;
    Step2();
  }

  lemma Steps4(k: int)
    requires 1 <= k < 4
    ensures Times(1493, k, 4 + k)
  {
    hide Times;
    Step4();
  }

  lemma Steps8(k: int)
    requires 1 <= k < 8
    ensures Times(-171, k, 8 + k)
  {
    hide Times;
    Step8();
  }

  lemma Steps16(k: int)
    requires 1 <= k < 16
    ensures Times(573, k, 16 + k)
  {
    hide Times;
    Step16();
  }

  lemma Steps32(k: int)
    requires 1 <= k < 32
    ensures Times(1223, k, 32 + k)
  {
    hide Times;
    if k < 16 {
      Step32();
    } else {
      Step32From16();
    }
  }

  lemma Steps64(k: int)
    requires 1 <= k < 64
    ensures Times(-1103, k, 64 + k)
  {
    hide Times;
    if k < 16 {
      Step64();
    } else if k < 32 {
      Step64From16();
    } else if k < 48 {
      Step64From32();
    } else {
      Step64From48();
    }
  }

  lemma StepChecked(l: nat, k: int)
    requires l < 7 && 1 <= k < Blocks(l)
    ensures Times(Pivot(l), k, Blocks(l) + k)
  {
    hide Times, KZeta;
    match l
    case 0 =>
    case 1 => Steps2(k);
    case 2 => Steps4(k);
    case 3 => Steps8(k);
    case 4 => Steps16(k);
    case 5 => Steps32(k);
    case 6 => Steps64(k);
  }

  // ----- the table is a table of powers, and a good one -----

  /** The root of unity that all others are powers of. */
  const ROOT := 17

  /** The roots themselves, out of Montgomery form. */
  function Zetas(): (z: seq<int>)
    ensures |z| == 128
  {
    seq(128, k => Rem(Q, KZeta(k) * RINV))
  }

  lemma MontInverts()
    ensures Inverses(Q, MONT, RINV)
  {
    RemIsMod(Q, MONT * RINV);
  }

  lemma StepHolds(l: nat, k: nat)
    requires l < 7 && 1 <= k < Blocks(l)
    ensures Link(Q, Zetas(), Blocks(l), k)
  {
    hide Rem, KZeta;
    var m := Blocks(l);
    StepChecked(l, k);
    MontInverts();
    RemIsMod(Q, KZeta(m) * KZeta(k) - MONT * KZeta(m + k));
    EntryProduct(Q, MONT, RINV, KZeta(m), KZeta(k), KZeta(m + k));
  }

  lemma SquareHolds(l: nat)
    requires l < 6
    ensures Half(Q, Zetas(), Blocks(l))
  {
    hide Rem, KZeta;
    var m := Blocks(l);
    HalvedAt(l);
    MontInverts();
    RemIsMod(Q, KZeta(2 * m) * KZeta(2 * m) - MONT * KZeta(m));
    EntryProduct(Q, MONT, RINV, KZeta(2 * m), KZeta(2 * m), KZeta(m));
  }

  lemma HalvedAt(l: nat)
    requires l < 6
    ensures Times(KZeta(2 * Blocks(l)), 2 * Blocks(l), Blocks(l))
  {
    hide Times, KZeta;
    Halved();
    assert Pivot(l + 1) == KZeta(2 * Blocks(l));
  }

  lemma TopAndFirst()
    ensures (KZeta(64) - 17 * 2285) % 3329 == 0 && (KZeta(1) * KZeta(1) + 5221225) % 3329 == 0
  {
    assert KZeta(1) == -758;
    assert (-758 * -758 + 5221225) % 3329 == 0;
  }

  lemma RootHolds()
    ensures Rem(Q, Zetas()[64]) == Rem(Q, ROOT) && Rem(Q, Zetas()[1] * Zetas()[1]) == Rem(Q, -1)
  {
    hide Rem, KZeta;
    TopAndFirst();
    MontInverts();
    RemIsMod(Q, KZeta(64) - ROOT * MONT);
    EntryIs(Q, MONT, RINV, KZeta(64), ROOT);
    RemIsMod(Q, KZeta(1) * KZeta(1) - (-1) * (MONT * MONT));
    EntrySquares(Q, MONT, RINV, KZeta(1), MONT, -1);
  }

  lemma TableIsChained()
    ensures Chained(Q, ROOT, Zetas(), 7)
  {
    hide Rem, KZeta, Zetas;
    RootHolds();
    forall l | 0 <= l < 6 ensures Half(Q, Zetas(), Blocks(l)) {
      SquareHolds(l);
    }
    forall l, k | 0 <= l < 7 && 1 <= k < Blocks(l) ensures Link(Q, Zetas(), Blocks(l), k) {
      StepHolds(l, k);
    }
  }

  /** The powers of the root in bit-reversed order, and the power 128 is -1. */
  lemma ZetasInOrder()
    ensures PowersInOrder(Q, ROOT, Zetas(), 7) && Rem(Q, Pow(ROOT, Blocks(7))) == Rem(Q, -1)
  {
    hide Rem, KZeta, Zetas, Pow, BitRev;
    TableIsChained();
    ChainedIsInOrder(Q, ROOT, Zetas(), 7);
    RootHolds();
    BitRevBlock(7, 0);
    ProductOfPowers(Q, ROOT, Zetas()[1], BitRev(7, 1), Zetas()[1], BitRev(7, 1));
  }

  /** Entry k is the power that its reversed index names, times 2^16. */
  lemma ZetaIsPower(k: nat)
    requires 0 <= k < 128
    ensures Rem(Q, KZeta(k)) == Rem(Q, Pow(ROOT, BitRev(7, k)) * 0x1_0000)
  {
    hide Rem, KZeta, Pow, BitRev;
    if k == 0 {
      EntryZero();
      return;
    }
    ZetasInOrder();
    MontInverts();
    RemIsMod(Q, MONT);
    RemIsMod(Q, 0x1_0000);
    WordIs(Q, MONT, RINV, 0x1_0000, KZeta(k), Pow(ROOT, BitRev(7, k)));
  }

  lemma EntryZero()
    ensures Rem(Q, KZeta(0)) == Rem(Q, Pow(ROOT, BitRev(7, 0)) * 0x1_0000)
  {
    BitRevZero(7);
    RemIsMod(Q, KZeta(0));
    RemIsMod(Q, 0x1_0000);
  }

  lemma ZetasAreGood()
    ensures GoodZetas(Q, Zetas(), 7)
  {
    ZetasInOrder();
    PowersAreGood(Q, ROOT, Zetas(), 7);
  }

  /** The transform over this table, told without it: leaf i belongs to the power 2 BitRev(i) + 1 of the root. */
  lemma TransformIs(c: seq<int>)
    requires |c| == 256
    ensures IsTransform(Q, ROOT, 7, c, NttFrom(Q, Zetas(), Canon(Q, c), 0, 7))
  {
    hide Rem, KZeta, Zetas, Pow, BitRev, NttFrom, Canon;
    ZetasInOrder();
    ZetasAreGood();
    NttIsReduction(Q, Zetas(), c, 7);
    LeavesAreTransform(Q, ROOT, Zetas(), 7, c, NttFrom(Q, Zetas(), Canon(Q, c), 0, 7));
  }
}
