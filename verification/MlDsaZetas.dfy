/** The table of roots of ML-DSA-65, and the finite check that it is the table of powers of 1753. */
module MlDsaZetas {
  import opened ModArith
  import opened NttTheory
  import opened RingProduct
  import opened RootPowers
  import opened Montgomery

  const Q := 8380417
  /** 2^32 modulo q and its inverse. */
  const MONT := 4193792
  const RINV := 8265825

  /** Entry k of the table: the roots in the order of the transform, in Montgomery form. */
  function DZeta(k: int): int {
    if k < 128 then
      if k < 64 then
        if k < 32 then
          if k < 16 then
            if k < 8 then
              if k < 4 then
                if k < 2 then (if k < 1 then 0 else 25847) else if k < 3 then -2608894 else -518909
              else
                if k < 6 then (if k < 5 then 237124 else -777960) else if k < 7 then -876248 else 466468
            else
              if k < 12 then
                if k < 10 then (if k < 9 then 1826347 else 2353451) else if k < 11 then -359251 else -2091905
              else
                if k < 14 then (if k < 13 then 3119733 else -2884855) else if k < 15 then 3111497 else 2680103
          else
            if k < 24 then
              if k < 20 then
                if k < 18 then (if k < 17 then 2725464 else 1024112) else if k < 19 then -1079900 else 3585928
              else
                if k < 22 then (if k < 21 then -549488 else -1119584) else if k < 23 then 2619752 else -2108549
            else
              if k < 28 then
                if k < 26 then (if k < 25 then -2118186 else -3859737) else if k < 27 then -1399561 else -3277672
              else
                if k < 30 then (if k < 29 then 1757237 else -19422) else if k < 31 then 4010497 else 280005
        else
          if k < 48 then
            if k < 40 then
              if k < 36 then
                if k < 34 then (if k < 33 then 2706023 else 95776) else if k < 35 then 3077325 else 3530437
              else
                if k < 38 then (if k < 37 then -1661693 else -3592148) else if k < 39 then -2537516 else 3915439
            else
              if k < 44 then
                if k < 42 then (if k < 41 then -3861115 else -3043716) else if k < 43 then 3574422 else -2867647
              else
                if k < 46 then (if k < 45 then 3539968 else -300467) else if k < 47 then 2348700 else -539299
          else
            if k < 56 then
              if k < 52 then
                if k < 50 then (if k < 49 then -1699267 else -1643818) else if k < 51 then 3505694 else -3821735
              else
                if k < 54 then (if k < 53 then 3507263 else -2140649) else if k < 55 then -1600420 else 3699596
            else
              if k < 60 then
                if k < 58 then (if k < 57 then 811944 else 531354) else if k < 59 then 954230 else 3881043
              else
                if k < 62 then (if k < 61 then 3900724 else -2556880) else if k < 63 then 2071892 else -2797779
      else
        if k < 96 then
          if k < 80 then
            if k < 72 then
              if k < 68 then
                if k < 66 then (if k < 65 then -3930395 else -1528703) else if k < 67 then -3677745 else -3041255
              else
                if k < 70 then (if k < 69 then -1452451 else 3475950) else if k < 71 then 2176455 else -1585221
            else
              if k < 76 then
                if k < 74 then (if k < 73 then -1257611 else 1939314) else if k < 75 then -4083598 else -1000202
              else
                if k < 78 then (if k < 77 then -3190144 else -3157330) else if k < 79 then -3632928 else 126922
          else
            if k < 88 then
              if k < 84 then
                if k < 82 then (if k < 81 then 3412210 else -983419) else if k < 83 then 2147896 else 2715295
              else
                if k < 86 then (if k < 85 then -2967645 else -3693493) else if k < 87 then -411027 else -2477047
            else
              if k < 92 then
                if k < 90 then (if k < 89 then -671102 else -1228525) else if k < 91 then -22981 else -1308169
              else
                if k < 94 then (if k < 93 then -381987 else 1349076) else if k < 95 then 1852771 else -1430430
        else
          if k < 112 then
            if k < 104 then
              if k < 100 then
                if k < 98 then (if k < 97 then -3343383 else 264944) else if k < 99 then 508951 else 3097992
              else
                if k < 102 then (if k < 101 then 44288 else -1100098) else if k < 103 then 904516 else 3958618
            else
              if k < 108 then
                if k < 106 then (if k < 105 then -3724342 else -8578) else if k < 107 then 1653064 else -3249728
              else
                if k < 110 then (if k < 109 then 2389356 else -210977) else if k < 111 then 759969 else -1316856
          else
            if k < 120 then
              if k < 116 then
                if k < 114 then (if k < 113 then 189548 else -3553272) else if k < 115 then 3159746 else -1851402
              else
                if k < 118 then (if k < 117 then -2409325 else -177440) else if k < 119 then 1315589 else 1341330
            else
              if k < 124 then
                if k < 122 then (if k < 121 then 1285669 else -1584928) else if k < 123 then -812732 else -1439742
              else
                if k < 126 then (if k < 125 then -3019102 else -3881060) else if k < 127 then -3628969 else 3839961
    else
      if k < 192 then
        if k < 160 then
          if k < 144 then
            if k < 136 then
              if k < 132 then
                if k < 130 then (if k < 129 then 2091667 else 3407706) else if k < 131 then 2316500 else 3817976
              else
                if k < 134 then (if k < 133 then -3342478 else 2244091) else if k < 135 then -2446433 else -3562462
            else
              if k < 140 then
                if k < 138 then (if k < 137 then 266997 else 2434439) else if k < 139 then -1235728 else 3513181
              else
                if k < 142 then (if k < 141 then -3520352 else -3759364) else if k < 143 then -1197226 else -3193378
          else
            if k < 152 then
              if k < 148 then
                if k < 146 then (if k < 145 then 900702 else 1859098) else if k < 147 then 909542 else 819034
              else
                if k < 150 then (if k < 149 then 495491 else -1613174) else if k < 151 then -43260 else -522500
            else
              if k < 156 then
                if k < 154 then (if k < 153 then -655327 else -3122442) else if k < 155 then 2031748 else 3207046
              else
                if k < 158 then (if k < 157 then -3556995 else -525098) else if k < 159 then -768622 else -3595838
        else
          if k < 176 then
            if k < 168 then
              if k < 164 then
                if k < 162 then (if k < 161 then 342297 else 286988) else if k < 163 then -2437823 else 4108315
              else
                if k < 166 then (if k < 165 then 3437287 else -3342277) else if k < 167 then 1735879 else 203044
            else
              if k < 172 then
                if k < 170 then (if k < 169 then 2842341 else 2691481) else if k < 171 then -2590150 else 1265009
              else
                if k < 174 then (if k < 173 then 4055324 else 1247620) else if k < 175 then 2486353 else 1595974
          else
            if k < 184 then
              if k < 180 then
                if k < 178 then (if k < 177 then -3767016 else 1250494) else if k < 179 then 2635921 else -3548272
              else
                if k < 182 then (if k < 181 then -2994039 else 1869119) else if k < 183 then 1903435 else -1050970
            else
              if k < 188 then
                if k < 186 then (if k < 185 then -1333058 else 1237275) else if k < 187 then -3318210 else -1430225
              else
                if k < 190 then (if k < 189 then -451100 else 1312455) else if k < 191 then 3306115 else -1962642
      else
        if k < 224 then
          if k < 208 then
            if k < 200 then
              if k < 196 then
                if k < 194 then (if k < 193 then -1279661 else 1917081) else if k < 195 then -2546312 else -1374803
              else
                if k < 198 then (if k < 197 then 1500165 else 777191) else if k < 199 then 2235880 else 3406031
            else
              if k < 204 then
                if k < 202 then (if k < 201 then -542412 else -2831860) else if k < 203 then -1671176 else -1846953
              else
                if k < 206 then (if k < 205 then -2584293 else -3724270) else if k < 207 then 594136 else -3776993
          else
            if k < 216 then
              if k < 212 then
                if k < 210 then (if k < 209 then -2013608 else 2432395) else if k < 211 then 2454455 else -164721
              else
                if k < 214 then (if k < 213 then 1957272 else 3369112) else if k < 215 then 185531 else -1207385
            else
              if k < 220 then
                if k < 218 then (if k < 217 then -3183426 else 162844) else if k < 219 then 1616392 else 3014001
              else
                if k < 222 then (if k < 221 then 810149 else 1652634) else if k < 223 then -3694233 else -1799107
        else
          if k < 240 then
            if k < 232 then
              if k < 228 then
                if k < 226 then (if k < 225 then -3038916 else 3523897) else if k < 227 then 3866901 else 269760
              else
                if k < 230 then (if k < 229 then 2213111 else -975884) else if k < 231 then 1717735 else 472078
            else
              if k < 236 then
                if k < 234 then (if k < 233 then -426683 else 1723600) else if k < 235 then -1803090 else 1910376
              else
                if k < 238 then (if k < 237 then -1667432 else -1104333) else if k < 239 then -260646 else -3833893
          else
            if k < 248 then
              if k < 244 then
                if k < 242 then (if k < 241 then -2939036 else -2235985) else if k < 243 then -420899 else -2286327
              else
                if k < 246 then (if k < 245 then 183443 else -976891) else if k < 247 then 1612842 else -3545687
            else
              if k < 252 then
                if k < 250 then (if k < 249 then -554416 else 3919660) else if k < 251 then -48306 else -1362209
              else
                if k < 254 then (if k < 253 then 3937738 else 1400424) else if k < 255 then -846154 else 1976782
  }

  lemma ZetaBound(k: int)
    ensures -4190208 <= DZeta(k) <= 4190208
  {
  }

  // ----- the finite check of the table -----

  /** Entry w stands for the product of the roots of f and of entry k. */
  predicate Times(f: int, k: int, w: int) {
    (f * DZeta(k) - 4193792 * DZeta(w)) % 8380417 == 0
  }

  lemma Exact(f: int, k: int, w: int, quotient: int)
    requires f * DZeta(k) - 4193792 * DZeta(w) == 8380417 * quotient
    ensures Times(f, k, w)
  {
  }

  lemma Step2()
    ensures Times(-2608894, 1, 3)
  {
    hide Times;
    Exact(-2608894, 1, 3, 251630);
  }

  lemma Step4()
    ensures Times(237124, 1, 5) && Times(237124, 2, 6) && Times(237124, 3, 7)
  {
    hide Times;
    Exact(237124, 1, 5, 390044); Exact(237124, 2, 6, 364680); Exact(237124, 3, 7, -248116);
  }

  lemma Step8()
    ensures Times(1826347, 1, 9) && Times(1826347, 2, 10) && Times(1826347, 3, 11)
    ensures Times(1826347, 4, 12) && Times(1826347, 5, 13) && Times(1826347, 6, 14)
    ensures Times(1826347, 7, 15)
  {
    hide Times;
    Exact(1826347, 1, 9, -1172099); Exact(1826347, 2, 10, -388778); Exact(1826347, 3, 11, 933761);
    Exact(1826347, 4, 12, -1509524); Exact(1826347, 5, 13, 1274120); Exact(1826347, 6, 14, -1748040);
    Exact(1826347, 7, 15, -1239540);
  }

  lemma Step16()
    ensures Times(2725464, 1, 17) && Times(2725464, 2, 18) && Times(2725464, 3, 19)
    ensures Times(2725464, 4, 20) && Times(2725464, 5, 21) && Times(2725464, 6, 22)
    ensures Times(2725464, 7, 23) && Times(2725464, 8, 24) && Times(2725464, 9, 25)
    ensures Times(2725464, 10, 26) && Times(2725464, 11, 27) && Times(2725464, 12, 28)
    ensures Times(2725464, 13, 29) && Times(2725464, 14, 30) && Times(2725464, 15, 31)
  {
    hide Times;
    Exact(2725464, 1, 17, -504088); Exact(2725464, 2, 18, -308048); Exact(2725464, 3, 19, -1963256);
    Exact(2725464, 4, 20, 352096); Exact(2725464, 5, 21, 307264); Exact(2725464, 6, 22, -1595968);
    Exact(2725464, 7, 23, 1206880); Exact(2725464, 8, 24, 1653960); Exact(2725464, 9, 25, 2696904);
    Exact(2725464, 10, 26, 583544); Exact(2725464, 11, 27, 959912); Exact(2725464, 12, 28, 135224);
    Exact(2725464, 13, 29, -928488); Exact(2725464, 14, 30, -995048); Exact(2725464, 15, 31, 731496);
  }

  lemma Step32()
    ensures Times(2706023, 1, 33) && Times(2706023, 2, 34) && Times(2706023, 3, 35)
    ensures Times(2706023, 4, 36) && Times(2706023, 5, 37) && Times(2706023, 6, 38)
    ensures Times(2706023, 7, 39) && Times(2706023, 8, 40) && Times(2706023, 9, 41)
    ensures Times(2706023, 10, 42) && Times(2706023, 11, 43) && Times(2706023, 12, 44)
    ensures Times(2706023, 13, 45) && Times(2706023, 14, 46) && Times(2706023, 15, 47)
  {
    hide Times;
    Exact(2706023, 1, 33, -39583); Exact(2706023, 2, 34, -2382386); Exact(2706023, 3, 35, -1934283);
    Exact(2706023, 4, 36, 908124); Exact(2706023, 5, 37, 1546408); Exact(2706023, 6, 38, 986904);
    Exact(2706023, 7, 39, -1808772); Exact(2706023, 8, 40, 2521933); Exact(2706023, 9, 41, 2283085);
    Exact(2706023, 10, 42, -1904741); Exact(2706023, 11, 43, 759577); Exact(2706023, 12, 44, -764141);
    Exact(2706023, 13, 45, -781153); Exact(2706023, 14, 46, -170657); Exact(2706023, 15, 47, 1135281);
  }

  lemma Step32From16()
    ensures Times(2706023, 16, 48) && Times(2706023, 17, 49) && Times(2706023, 18, 50)
    ensures Times(2706023, 19, 51) && Times(2706023, 20, 52) && Times(2706023, 21, 53)
    ensures Times(2706023, 22, 54) && Times(2706023, 23, 55) && Times(2706023, 24, 56)
    ensures Times(2706023, 25, 57) && Times(2706023, 26, 58) && Times(2706023, 27, 59)
    ensures Times(2706023, 28, 60) && Times(2706023, 29, 61) && Times(2706023, 30, 62)
    ensures Times(2706023, 31, 63)
  {
    hide Times;
    Exact(2706023, 16, 48, 1730408); Exact(2706023, 17, 49, 1153296); Exact(2706023, 18, 50, -2103044);
    Exact(2706023, 19, 51, 3070392); Exact(2706023, 20, 52, -1932560); Exact(2706023, 21, 53, 709728);
    Exact(2706023, 22, 54, 1646808); Exact(2706023, 23, 55, -2532227); Exact(2706023, 24, 56, -1090278);
    Exact(2706023, 25, 57, -1512207); Exact(2706023, 26, 58, -929439); Exact(2706023, 27, 59, -3000536);
    Exact(2706023, 28, 60, -1384621); Exact(2706023, 29, 61, 1273262); Exact(2706023, 30, 62, 258151);
    Exact(2706023, 31, 63, 1490499);
  }

  lemma Step64()
    ensures Times(-3930395, 1, 65) && Times(-3930395, 2, 66) && Times(-3930395, 3, 67)
    ensures Times(-3930395, 4, 68) && Times(-3930395, 5, 69) && Times(-3930395, 6, 70)
    ensures Times(-3930395, 7, 71) && Times(-3930395, 8, 72) && Times(-3930395, 9, 73)
    ensures Times(-3930395, 10, 74) && Times(-3930395, 11, 75) && Times(-3930395, 12, 76)
    ensures Times(-3930395, 13, 77) && Times(-3930395, 14, 78) && Times(-3930395, 15, 79)
  {
    hide Times;
    Exact(-3930395, 1, 65, 752883); Exact(-3930395, 2, 66, 3064010); Exact(-3930395, 3, 67, 1765295);
    Exact(-3930395, 4, 68, 615636); Exact(-3930395, 5, 69, -1374600); Exact(-3930395, 6, 70, -678200);
    Exact(-3930395, 7, 71, 574516); Exact(-3930395, 8, 72, -227209); Exact(-3930395, 9, 73, -2074249);
    Exact(-3930395, 10, 74, 2212033); Exact(-3930395, 11, 75, 1481627); Exact(-3930395, 12, 76, 133289);
    Exact(-3930395, 13, 77, 2933005); Exact(-3930395, 14, 78, 358733); Exact(-3930395, 15, 79, -1320477);
  }

  lemma Step64From16()
    ensures Times(-3930395, 16, 80) && Times(-3930395, 17, 81) && Times(-3930395, 18, 82)
    ensures Times(-3930395, 19, 83) && Times(-3930395, 20, 84) && Times(-3930395, 21, 85)
    ensures Times(-3930395, 22, 86) && Times(-3930395, 23, 87) && Times(-3930395, 24, 88)
    ensures Times(-3930395, 25, 89) && Times(-3930395, 26, 90) && Times(-3930395, 27, 91)
    ensures Times(-3930395, 28, 92) && Times(-3930395, 29, 93) && Times(-3930395, 30, 94)
    ensures Times(-3930395, 31, 95)
  {
    hide Times;
    Exact(-3930395, 16, 80, -2985800); Exact(-3930395, 17, 81, 11824); Exact(-3930395, 18, 82, -568396);
    Exact(-3930395, 19, 83, -3040600); Exact(-3930395, 20, 84, 1742800); Exact(-3930395, 21, 85, 2373408);
    Exact(-3930395, 22, 86, -1022968); Exact(-3930395, 23, 87, 2228487); Exact(-3930395, 24, 88, 1329262);
    Exact(-3930395, 25, 89, 2424995); Exact(-3930395, 26, 90, 667891); Exact(-3930395, 27, 91, 2191864);
    Exact(-3930395, 28, 92, -632983); Exact(-3930395, 29, 93, -666006); Exact(-3930395, 30, 94, -2808091);
    Exact(-3930395, 31, 95, 584505);
  }

  lemma Step64From32()
    ensures Times(-3930395, 32, 96) && Times(-3930395, 33, 97) && Times(-3930395, 34, 98)
    ensures Times(-3930395, 35, 99) && Times(-3930395, 36, 100) && Times(-3930395, 37, 101)
    ensures Times(-3930395, 38, 102) && Times(-3930395, 39, 103) && Times(-3930395, 40, 104)
    ensures Times(-3930395, 41, 105) && Times(-3930395, 42, 106) && Times(-3930395, 43, 107)
    ensures Times(-3930395, 44, 108) && Times(-3930395, 45, 109) && Times(-3930395, 46, 110)
    ensures Times(-3930395, 47, 111)
  {
    hide Times;
    Exact(-3930395, 32, 96, 404003); Exact(-3930395, 33, 97, -177504); Exact(-3930395, 34, 98, -1697951);
    Exact(-3930395, 35, 99, -3206087); Exact(-3930395, 36, 100, 757167); Exact(-3930395, 37, 101, 2235228);
    Exact(-3930395, 38, 102, 737444); Exact(-3930395, 39, 103, -3817333); Exact(-3930395, 40, 104, 3674617);
    Exact(-3930395, 41, 105, 1431788); Exact(-3930395, 42, 106, -2503634); Exact(-3930395, 43, 107, 2971173);
    Exact(-3930395, 44, 108, -2855936); Exact(-3930395, 45, 109, 246497); Exact(-3930395, 46, 110, -1481844);
    Exact(-3930395, 47, 111, 911921);
  }

  lemma Step64From48()
    ensures Times(-3930395, 48, 112) && Times(-3930395, 49, 113) && Times(-3930395, 50, 114)
    ensures Times(-3930395, 51, 115) && Times(-3930395, 52, 116) && Times(-3930395, 53, 117)
    ensures Times(-3930395, 54, 118) && Times(-3930395, 55, 119) && Times(-3930395, 56, 120)
    ensures Times(-3930395, 57, 121) && Times(-3930395, 58, 122) && Times(-3930395, 59, 123)
    ensures Times(-3930395, 60, 124) && Times(-3930395, 61, 125) && Times(-3930395, 62, 126)
    ensures Times(-3930395, 63, 127)
  {
    hide Times;
    Exact(-3930395, 48, 112, 702097); Exact(-3930395, 49, 113, 2549102); Exact(-3930395, 50, 114, -3225386);
    Exact(-3930395, 51, 115, 2718877); Exact(-3930395, 52, 116, -439205); Exact(-3930395, 53, 117, 1092755);
    Exact(-3930395, 54, 118, 92236); Exact(-3930395, 55, 119, -2406340); Exact(-3930395, 56, 120, -1024184);
    Exact(-3930395, 57, 121, 543938); Exact(-3930395, 58, 122, -40818); Exact(-3930395, 59, 123, -1099713);
    Exact(-3930395, 60, 124, -318588); Exact(-3930395, 61, 125, 3141360); Exact(-3930395, 62, 126, 844324);
    Exact(-3930395, 63, 127, -609471);
  }

  lemma Step128()
    ensures Times(2091667, 1, 129) && Times(2091667, 2, 130) && Times(2091667, 3, 131)
    ensures Times(2091667, 4, 132) && Times(2091667, 5, 133) && Times(2091667, 6, 134)
    ensures Times(2091667, 7, 135) && Times(2091667, 8, 136) && Times(2091667, 9, 137)
    ensures Times(2091667, 10, 138) && Times(2091667, 11, 139) && Times(2091667, 12, 140)
    ensures Times(2091667, 13, 141) && Times(2091667, 14, 142) && Times(2091667, 15, 143)
  {
    hide Times;
    Exact(2091667, 1, 129, -1698859); Exact(2091667, 2, 130, -1810394); Exact(2091667, 3, 131, -2040135);
    Exact(2091667, 4, 132, 1731852); Exact(2091667, 5, 133, -1317176); Exact(2091667, 6, 134, 1005560);
    Exact(2091667, 7, 135, 1899180); Exact(2091667, 8, 136, 322225); Exact(2091667, 9, 137, -630863);
    Exact(2091667, 10, 138, 528727); Exact(2091667, 11, 139, -2280211); Exact(2091667, 12, 140, 2540335);
    Exact(2091667, 13, 141, 1161259); Exact(2091667, 14, 142, 1375723); Exact(2091667, 15, 143, 2266981);
  }

  lemma Step128From16()
    ensures Times(2091667, 16, 144) && Times(2091667, 17, 145) && Times(2091667, 18, 146)
    ensures Times(2091667, 19, 147) && Times(2091667, 20, 148) && Times(2091667, 21, 149)
    ensures Times(2091667, 22, 150) && Times(2091667, 23, 151) && Times(2091667, 24, 152)
    ensures Times(2091667, 25, 153) && Times(2091667, 26, 154) && Times(2091667, 27, 155)
    ensures Times(2091667, 28, 156) && Times(2091667, 29, 157) && Times(2091667, 30, 158)
    ensures Times(2091667, 31, 159)
  {
    hide Times;
    Exact(2091667, 16, 144, 229512); Exact(2091667, 17, 145, -674736); Exact(2091667, 18, 146, -724692);
    Exact(2091667, 19, 147, 485144); Exact(2091667, 20, 148, -385104); Exact(2091667, 21, 149, 527840);
    Exact(2091667, 22, 150, 675512); Exact(2091667, 23, 151, -264799); Exact(2091667, 24, 152, -200734);
    Exact(2091667, 25, 153, 599205); Exact(2091667, 26, 154, -1366059); Exact(2091667, 27, 155, -2422968);
    Exact(2091667, 28, 156, 2218607); Exact(2091667, 29, 157, 257926); Exact(2091667, 30, 158, 1385619);
    Exact(2091667, 31, 159, 1869343);
  }

  lemma Step128From32()
    ensures Times(2091667, 32, 160) && Times(2091667, 33, 161) && Times(2091667, 34, 162)
    ensures Times(2091667, 35, 163) && Times(2091667, 36, 164) && Times(2091667, 37, 165)
    ensures Times(2091667, 38, 166) && Times(2091667, 39, 167) && Times(2091667, 40, 168)
    ensures Times(2091667, 41, 169) && Times(2091667, 42, 170) && Times(2091667, 43, 171)
    ensures Times(2091667, 44, 172) && Times(2091667, 45, 173) && Times(2091667, 46, 174)
    ensures Times(2091667, 47, 175)
  {
    hide Times;
    Exact(2091667, 32, 160, 504101); Exact(2091667, 33, 161, -119712); Exact(2091667, 34, 162, 1988023);
    Exact(2091667, 35, 163, -1174753); Exact(2091667, 36, 164, -2134855); Exact(2091667, 37, 165, 776004);
    Exact(2091667, 38, 166, -1502020); Exact(2091667, 39, 167, 875645); Exact(2091667, 40, 168, -2386081);
    Exact(2091667, 41, 169, -2106572); Exact(2091667, 42, 170, 2188322); Exact(2091667, 43, 171, -1348781);
    Exact(2091667, 44, 172, -1145856); Exact(2091667, 45, 173, -699337); Exact(2091667, 46, 174, -658028);
    Exact(2091667, 47, 175, -933273);
  }

  lemma Step128From48()
    ensures Times(2091667, 48, 176) && Times(2091667, 49, 177) && Times(2091667, 50, 178)
    ensures Times(2091667, 51, 179) && Times(2091667, 52, 180) && Times(2091667, 53, 181)
    ensures Times(2091667, 54, 182) && Times(2091667, 55, 183) && Times(2091667, 56, 184)
    ensures Times(2091667, 57, 185) && Times(2091667, 58, 186) && Times(2091667, 59, 187)
    ensures Times(2091667, 60, 188) && Times(2091667, 61, 189) && Times(2091667, 62, 190)
    ensures Times(2091667, 63, 191)
  {
    hide Times;
    Exact(2091667, 48, 176, 1460999); Exact(2091667, 49, 177, -1036062); Exact(2091667, 50, 178, -444102);
    Exact(2091667, 51, 179, 821787); Exact(2091667, 52, 180, 2373677); Exact(2091667, 53, 181, -1469643);
    Exact(2091667, 54, 182, -1351980); Exact(2091667, 55, 183, 1449316); Exact(2091667, 56, 184, 869752);
    Exact(2091667, 57, 185, -486546); Exact(2091667, 58, 186, 1898690); Exact(2091667, 59, 187, 1684393);
    Exact(2091667, 60, 188, 1199324); Exact(2091667, 61, 189, -1294960); Exact(2091667, 62, 190, -1137348);
    Exact(2091667, 63, 191, 283863);
  }

  lemma Step128From64()
    ensures Times(2091667, 64, 192) && Times(2091667, 65, 193) && Times(2091667, 66, 194)
    ensures Times(2091667, 67, 195) && Times(2091667, 68, 196) && Times(2091667, 69, 197)
    ensures Times(2091667, 70, 198) && Times(2091667, 71, 199) && Times(2091667, 72, 200)
    ensures Times(2091667, 73, 201) && Times(2091667, 74, 202) && Times(2091667, 75, 203)
    ensures Times(2091667, 76, 204) && Times(2091667, 77, 205) && Times(2091667, 78, 206)
    ensures Times(2091667, 79, 207)
  {
    hide Times;
    Exact(2091667, 64, 192, -340609); Exact(2091667, 65, 193, -1340909); Exact(2091667, 66, 194, 356317);
    Exact(2091667, 67, 195, -71077); Exact(2091667, 68, 196, -1113241); Exact(2091667, 69, 197, 478634);
    Exact(2091667, 70, 198, -575675); Exact(2091667, 71, 199, -2100127); Exact(2091667, 72, 200, -42449);
    Exact(2091667, 73, 201, 1901174); Exact(2091667, 74, 202, -182922); Exact(2091667, 75, 203, 674626);
    Exact(2091667, 76, 204, 497024); Exact(2091667, 77, 205, 1075690); Exact(2091667, 78, 206, -1204064);
    Exact(2091667, 79, 207, 1921790);
  }

  lemma Step128From80()
    ensures Times(2091667, 80, 208) && Times(2091667, 81, 209) && Times(2091667, 82, 210)
    ensures Times(2091667, 83, 211) && Times(2091667, 84, 212) && Times(2091667, 85, 213)
    ensures Times(2091667, 86, 214) && Times(2091667, 87, 215) && Times(2091667, 88, 216)
    ensures Times(2091667, 89, 217) && Times(2091667, 90, 218) && Times(2091667, 91, 219)
    ensures Times(2091667, 92, 220) && Times(2091667, 93, 221) && Times(2091667, 94, 222)
    ensures Times(2091667, 95, 223)
  {
    hide Times;
    Exact(2091667, 80, 208, 1859318); Exact(2091667, 81, 209, -1462689); Exact(2091667, 82, 210, -692184);
    Exact(2091667, 83, 211, 760141); Exact(2091667, 84, 212, -1720167); Exact(2091667, 85, 213, -2607855);
    Exact(2091667, 86, 214, -195433); Exact(2091667, 87, 215, -14037); Exact(2091667, 88, 216, 1425574);
    Exact(2091667, 89, 217, -388119); Exact(2091667, 90, 218, -814623); Exact(2091667, 91, 219, -1834795);
    Exact(2091667, 92, 220, -500761); Exact(2091667, 93, 221, -490308); Exact(2091667, 94, 222, 2311129);
    Exact(2091667, 95, 223, 543302);
  }

  lemma Step128From96()
    ensures Times(2091667, 96, 224) && Times(2091667, 97, 225) && Times(2091667, 98, 226)
    ensures Times(2091667, 99, 227) && Times(2091667, 100, 228) && Times(2091667, 101, 229)
    ensures Times(2091667, 102, 230) && Times(2091667, 103, 231) && Times(2091667, 104, 232)
    ensures Times(2091667, 105, 233) && Times(2091667, 106, 234) && Times(2091667, 107, 235)
    ensures Times(2091667, 108, 236) && Times(2091667, 109, 237) && Times(2091667, 110, 238)
    ensures Times(2091667, 111, 239)
  {
    hide Times;
    Exact(2091667, 96, 224, 686283); Exact(2091667, 97, 225, -1697328); Exact(2091667, 98, 226, -1808075);
    Exact(2091667, 99, 227, 638232); Exact(2091667, 100, 228, -1096448); Exact(2091667, 101, 229, 213786);
    Exact(2091667, 102, 230, -633844); Exact(2091667, 103, 231, 751790); Exact(2091667, 104, 232, -716034);
    Exact(2091667, 105, 233, -864678); Exact(2091667, 106, 234, 1314904); Exact(2091667, 107, 235, -1767104);
    Exact(2091667, 108, 236, 1430788); Exact(2091667, 109, 237, 499981); Exact(2091667, 110, 238, 320115);
    Exact(2091667, 111, 239, 1589912);
  }

  lemma Step128From112()
    ensures Times(2091667, 112, 240) && Times(2091667, 113, 241) && Times(2091667, 114, 242)
    ensures Times(2091667, 115, 243) && Times(2091667, 116, 244) && Times(2091667, 117, 245)
    ensures Times(2091667, 118, 246) && Times(2091667, 119, 247) && Times(2091667, 120, 248)
    ensures Times(2091667, 121, 249) && Times(2091667, 122, 250) && Times(2091667, 123, 251)
    ensures Times(2091667, 124, 252) && Times(2091667, 125, 253) && Times(2091667, 126, 254)
    ensures Times(2091667, 127, 255)
  {
    hide Times;
    Exact(2091667, 112, 240, 1518084); Exact(2091667, 113, 241, 232088); Exact(2091667, 114, 242, 999270);
    Exact(2091667, 115, 243, 682050); Exact(2091667, 116, 244, -693143); Exact(2091667, 117, 245, 444576);
    Exact(2091667, 118, 246, -478753); Exact(2091667, 119, 247, 2109142); Exact(2091667, 120, 248, 598335);
    Exact(2091667, 121, 249, -2357088); Exact(2091667, 122, 250, -178676); Exact(2091667, 123, 251, 322342);
    Exact(2091667, 124, 252, -2724090); Exact(2091667, 125, 253, -1669484); Exact(2091667, 126, 254, -482315);
    Exact(2091667, 127, 255, -30821);
  }

  lemma Halved()
    ensures Times(-2608894, 2, 1) && Times(237124, 4, 2)
    ensures Times(1826347, 8, 4) && Times(2725464, 16, 8)
    ensures Times(2706023, 32, 16) && Times(-3930395, 64, 32)
    ensures Times(2091667, 128, 64)
  {
    Exact(-2608894, 2, 1, 799236); Exact(237124, 4, 2, 1312272);
    Exact(1826347, 8, 4, 279353); Exact(2725464, 16, 8, -27584);
    Exact(2706023, 32, 16, -490127); Exact(-3930395, 64, 32, 489177);
    Exact(2091667, 128, 64, 2488937);
  }

  /** The entries at the powers of two. */
  function Pivot(l: nat): (f: int)
    requires l < 8
    ensures f == DZeta(Blocks(l))
  {
    match l
    case 0 => 25847 case 1 => -2608894 case 2 => 237124 case 3 => 1826347 case 4 => 2725464 case 5 => 2706023 case 6 => -3930395 case _ => 2091667
  }

  lemma Steps2(k: int)
    requires 1 <= k < 2
    ensures Times(-2608894, k, 2 + k)
  {
    hide Times;
    Step2();
  }

  lemma Steps4(k: int)
    requires 1 <= k < 4
    ensures Times(237124, k, 4 + k)
  {
    hide Times;
    Step4();
  }

  lemma Steps8(k: int)
    requires 1 <= k < 8
    ensures Times(1826347, k, 8 + k)
  {
    hide Times;
    Step8();
  }

  lemma Steps16(k: int)
    requires 1 <= k < 16
    ensures Times(2725464, k, 16 + k)
  {
    hide Times;
    Step16();
  }

  lemma Steps32(k: int)
    requires 1 <= k < 32
    ensures Times(2706023, k, 32 + k)
  {
    hide Times;
    if k < 16 {
      Step32();
    } else {
      Step32From16();
    }
  }

  lemma Steps64(k: int)
    requires 1 <= k < 64
    ensures Times(-3930395, k, 64 + k)
  {
    hide Times;
    if k < 16 {
      Step64();
    } else if k < 32 {
      Step64From16();
    } else if k < 48 {
      Step64From32();
    } else {
      Step64From48();
    }
  }

  lemma Steps128(k: int)
    requires 1 <= k < 128
    ensures Times(2091667, k, 128 + k)
  {
    hide Times;
    if k < 16 {
      Step128();
    } else if k < 32 {
      Step128From16();
    } else if k < 48 {
      Step128From32();
    } else if k < 64 {
      Step128From48();
    } else if k < 80 {
      Step128From64();
    } else if k < 96 {
      Step128From80();
    } else if k < 112 {
      Step128From96();
    } else {
      Step128From112();
    }
  }

  lemma StepChecked(l: nat, k: int)
    requires l < 8 && 1 <= k < Blocks(l)
    ensures Times(Pivot(l), k, Blocks(l) + k)
  {
    hide Times, DZeta;
    match l
    case 0 =>
    case 1 => Steps2(k);
    case 2 => Steps4(k);
    case 3 => Steps8(k);
    case 4 => Steps16(k);
    case 5 => Steps32(k);
    case 6 => Steps64(k);
    case 7 => Steps128(k);
  }

  // ----- the table is a table of powers, and a good one -----

  /** The root of unity that all others are powers of. */
  const ROOT := 1753

  /** The roots themselves, out of Montgomery form. */
  function Zetas(): (z: seq<int>)
    ensures |z| == 256
  {
    seq(256, k => Rem(Q, DZeta(k) * RINV))
  }

  lemma MontInverts()
    ensures Inverses(Q, MONT, RINV)
  {
    RemIsMod(Q, MONT * RINV);
  }

  lemma StepHolds(l: nat, k: nat)
    requires l < 8 && 1 <= k < Blocks(l)
    ensures Link(Q, Zetas(), Blocks(l), k)
  {
    hide Rem, DZeta;
    var m := Blocks(l);
    StepChecked(l, k);
    MontInverts();
    RemIsMod(Q, DZeta(m) * DZeta(k) - MONT * DZeta(m + k));
    EntryProduct(Q, MONT, RINV, DZeta(m), DZeta(k), DZeta(m + k));
  }

  lemma SquareHolds(l: nat)
    requires l < 7
    ensures Half(Q, Zetas(), Blocks(l))
  {
    hide Rem, DZeta;
    var m := Blocks(l);
    HalvedAt(l);
    MontInverts();
    RemIsMod(Q, DZeta(2 * m) * DZeta(2 * m) - MONT * DZeta(m));
    EntryProduct(Q, MONT, RINV, DZeta(2 * m), DZeta(2 * m), DZeta(m));
  }

  lemma HalvedAt(l: nat)
    requires l < 7
    ensures Times(DZeta(2 * Blocks(l)), 2 * Blocks(l), Blocks(l))
  {
    hide Times, DZeta;
    Halved();
    assert Pivot(l + 1) == DZeta(2 * Blocks(l));
  }

  lemma TopAndFirst()
    ensures (DZeta(128) - 1753 * 4193792) % 8380417 == 0 && (DZeta(1) * DZeta(1) + 17587891339264) % 8380417 == 0
  {
    assert DZeta(1) == 25847;
    assert (25847 * 25847 + 17587891339264) % 8380417 == 0;
  }

  lemma RootHolds()
    ensures Rem(Q, Zetas()[128]) == Rem(Q, ROOT) && Rem(Q, Zetas()[1] * Zetas()[1]) == Rem(Q, -1)
  {
    hide Rem, DZeta;
    TopAndFirst();
    MontInverts();
    RemIsMod(Q, DZeta(128) - ROOT * MONT);
    EntryIs(Q, MONT, RINV, DZeta(128), ROOT);
    RemIsMod(Q, DZeta(1) * DZeta(1) - (-1) * (MONT * MONT));
    EntrySquares(Q, MONT, RINV, DZeta(1), MONT, -1);
  }

  lemma TableIsChained()
    ensures Chained(Q, ROOT, Zetas(), 8)
  {
    hide Rem, DZeta, Zetas;
    RootHolds();
    forall l | 0 <= l < 7 ensures Half(Q, Zetas(), Blocks(l)) {
      SquareHolds(l);
    }
    forall l, k | 0 <= l < 8 && 1 <= k < Blocks(l) ensures Link(Q, Zetas(), Blocks(l), k) {
      StepHolds(l, k);
    }
  }

  /** The powers of the root in bit-reversed order, and the power 256 is -1. */
  lemma ZetasInOrder()
    ensures PowersInOrder(Q, ROOT, Zetas(), 8) && Rem(Q, Pow(ROOT, Blocks(8))) == Rem(Q, -1)
  {
    hide Rem, DZeta, Zetas, Pow, BitRev;
    TableIsChained();
    ChainedIsInOrder(Q, ROOT, Zetas(), 8);
    RootHolds();
    BitRevBlock(8, 0);
    ProductOfPowers(Q, ROOT, Zetas()[1], BitRev(8, 1), Zetas()[1], BitRev(8, 1));
  }

  /** Entry k is the power that its reversed index names, times 2^32. */
  lemma ZetaIsPower(k: nat)
    requires 1 <= k < 256
    ensures Rem(Q, DZeta(k)) == Rem(Q, Pow(ROOT, BitRev(8, k)) * 0x1_0000_0000)
  {
    hide Rem, DZeta, Pow, BitRev;
    ZetasInOrder();
    MontInverts();
    RemIsMod(Q, MONT);
    RemIsMod(Q, 0x1_0000_0000);
    WordIs(Q, MONT, RINV, 0x1_0000_0000, DZeta(k), Pow(ROOT, BitRev(8, k)));
  }

  lemma ZetasAreGood()
    ensures GoodZetas(Q, Zetas(), 8)
  {
    ZetasInOrder();
    PowersAreGood(Q, ROOT, Zetas(), 8);
  }

  /** The transform over this table, told without it: leaf i belongs to the power 2 BitRev(i) + 1 of the root. */
  lemma TransformIs(c: seq<int>)
    requires |c| == 256
    ensures IsTransform(Q, ROOT, 8, c, NttFrom(Q, Zetas(), Canon(Q, c), 0, 8))
  {
    hide Rem, DZeta, Zetas, Pow, BitRev, NttFrom, Canon;
    ZetasInOrder();
    ZetasAreGood();
    NttIsReduction(Q, Zetas(), c, 8);
    LeavesAreTransform(Q, ROOT, Zetas(), 8, c, NttFrom(Q, Zetas(), Canon(Q, c), 0, 8));
  }
}
