/** Rounding and hints of ML-DSA-65: the functions on single coefficients, section 7.4 of FIPS 204. */
module MlDsaRound {
  import opened ModArith
  import opened Bits
  import opened MlDsaZetas
  import opened Words

  /** (q - 1) / 32, half the distance of two high parts. */
  const GAMMA2 := 261888

  /** A representative of a below q in absolute value. */
  function Reduce32(a: int32): (r: int32)
    requires a as int < 0x8000_0000 - 0x40_0000
    ensures -6283009 <= r as int <= 6283008
    ensures Rem(Q, r as int) == Rem(Q, a as int)
  {
    var t := (a as int + 0x40_0000) / 0x80_0000;
    RemShift(Q, a as int, -t);
    assert t * 0x80_0000 <= a as int + 0x40_0000 < t * 0x80_0000 + 0x80_0000;
    assert a as int - t * Q == (a as int - t * 0x80_0000) + t * 8191;
    (a as int - t * Q) as int32
  }

  /** Add q to negative words. */
  function CAddQ(a: int32): (r: int32)
    ensures Rem(Q, r as int) == Rem(Q, a as int)
    ensures -Q <= a as int < Q ==> 0 <= r as int < Q
  {
    RemShift(Q, a as int, 1);
    if a < 0 then (a as int + Q) as int32 else a
  }

  /** a = a1 * 2^13 + a0 with a0 in (-2^12, 2^12]. */
  function Power2Round(a: int32): (r: (int32, int32))
    requires 0 <= a as int < Q
    ensures a as int == r.1 as int * 0x2000 + r.0 as int && -0x1000 < r.0 as int <= 0x1000
    ensures 0 <= r.1 as int < 0x400
  {
    var a1 := (a as int + 0x1000 - 1) / 0x2000;
    ((a as int - a1 * 0x2000) as int32, a1 as int32)
  }

  // ----- the standard -----

  /** r mod± 2*GAMMA2: the representative in (-GAMMA2, GAMMA2]. */
  function Centred(r: int): (c: int)
    ensures -GAMMA2 < c <= GAMMA2 && (r - c) % (2 * GAMMA2) == 0
  {
    var m := r % (2 * GAMMA2);
    if m <= GAMMA2 then m else m - 2 * GAMMA2
  }

  /** Algorithm 36: low and high part; the top interval wraps to high part 0. */
  function Decomposed(r: int): (d: (int, int))
    requires 0 <= r < Q
  {
    var r0 := Centred(r);
    if r - r0 == Q - 1 then (r0 - 1, 0) else (r0, (r - r0) / (2 * GAMMA2))
  }

  function HighBits(r: int): int
    requires 0 <= r < Q
  {
    Decomposed(r).1
  }

  // ----- the program -----

  /** The division by 2*GAMMA2, rounded, by multiplication with 1025 and a shift. */
  function HighPart(a: int32): (a1: nat)
    requires 0 <= a as int < Q
  {
    ((a as int + 127) / 128 * 1025 + 0x20_0000) / 0x40_0000
  }

  lemma HighPartRounds(a: int32)
    requires 0 <= a as int < Q
    ensures var k := HighPart(a); k <= 16 && (2 * k - 1) * GAMMA2 < a as int <= (2 * k + 1) * GAMMA2
  {
    var b := (a as int + 127) / 128;
    var k := HighPart(a);
    assert 128 * b - 127 <= a as int <= 128 * b;
    assert k * 0x40_0000 <= b * 1025 + 0x20_0000 < k * 0x40_0000 + 0x40_0000;
    assert k <= 16;
    BlockBounds(b, k);
  }

  lemma BlockBounds(b: int, k: nat)
    requires 0 <= b <= 65473 && k <= 16 && k * 0x40_0000 <= b * 1025 + 0x20_0000 < k * 0x40_0000 + 0x40_0000
    ensures (2 * k - 1) * 2046 < b <= (2 * k + 1) * 2046
  {
  }

  function Decompose(a: int32): (r: (int32, int32))
    requires 0 <= a as int < Q
    ensures (r.0 as int, r.1 as int) == Decomposed(a as int)
    ensures -GAMMA2 <= r.0 as int <= GAMMA2 && 0 <= r.1 as int < 16
  {
    HighPartRounds(a);
    var k := HighPart(a);
    var a1 := Low(k, 16);
    var low := a as int - a1 * 2 * GAMMA2;
    var a0 := if low > (Q - 1) / 2 then low - Q else low;
    DecomposedIs(a as int, k);
    (a0 as int32, a1 as int32)
  }

  /** The two parts make up the residue. */
  lemma DecomposedSum(a: int)
    requires 0 <= a < Q
    ensures Rem(Q, Decomposed(a).1 * (2 * GAMMA2) + Decomposed(a).0) == a
  {
    var (a0, a1) := Decomposed(a);
    RemUnique(Q, a1 * (2 * GAMMA2) + a0, if a - Centred(a) == Q - 1 then -1 else 0, a);
  }

  lemma DecomposedIs(a: int, k: nat)
    requires 0 <= a < Q && k <= 16 && (2 * k - 1) * GAMMA2 < a <= (2 * k + 1) * GAMMA2
    ensures Decomposed(a) == if k == 16 then (a - Q, 0) else (a - k * (2 * GAMMA2), k)
    ensures k < 16 ==> a - k * (2 * GAMMA2) <= (Q - 1) / 2
    ensures k == 16 ==> a > (Q - 1) / 2
  {
    var c := a - k * (2 * GAMMA2);
    assert -GAMMA2 < c <= GAMMA2;
    CentredIs(a, k, c);
    DivUnique(a - c, 2 * GAMMA2, k, 0);
  }

  lemma CentredIs(a: int, k: int, c: int)
    requires a == k * (2 * GAMMA2) + c && -GAMMA2 < c <= GAMMA2
    ensures Centred(a) == c
  {
    if c >= 0 {
      DivUnique(a, 2 * GAMMA2, k, c);
    } else {
      DivUnique(a, 2 * GAMMA2, k - 1, c + 2 * GAMMA2);
    }
  }

  /** The top bit of (x | -x): set exactly when x is not zero. */
  function NonZero(x: int32): (bit: nat)
    ensures bit == if x == 0 then 0 else 1
  {
    EitherSign(x as int);
    Or(x as int % 0x1_0000_0000, (-(x as int)) % 0x1_0000_0000) / 0x8000_0000
  }

  /** Of a word and its negation one has the top bit, unless both are zero. */
  lemma EitherSign(x: int)
    requires -0x8000_0000 <= x < 0x8000_0000
    ensures Or(x % 0x1_0000_0000, (-x) % 0x1_0000_0000) / 0x8000_0000 == if x == 0 then 0 else 1
  {
    hide Or, IsPowerOfTwo;
    var u, v := x % 0x1_0000_0000, (-x) % 0x1_0000_0000;
    WordIsPower();
    Bounded(u, v, 0x1_0000_0000);
    assert x > 0 ==> v == 0x1_0000_0000 - x;
    assert x < 0 ==> u == 0x1_0000_0000 + x;
    assert x == 0 ==> u == 0 && v == 0;
  }

  /** The sign bit of a word. */
  function Sign(x: int32): (bit: nat)
    ensures bit == if x < 0 then 1 else 0
  {
    (x as int % 0x1_0000_0000) / 0x8000_0000
  }

  /** The three flags of the program or-ed together. */
  function Flags(a0: int32, a1: int32): (hint: nat)
    requires -0x4000_0000 <= a0 as int <= 0x4000_0000
  {
    var eqNeg := 1 - NonZero(a0 + GAMMA2 as int32);
    var gt := Sign(GAMMA2 as int32 - a0);
    var lt := Sign(a0 + GAMMA2 as int32);
    And(Or(Or(gt, lt), And(eqNeg, NonZero(a1))), 1)
  }

  lemma FlagsAre(a0: int32, a1: int32)
    requires -0x4000_0000 <= a0 as int <= 0x4000_0000
    ensures Flags(a0, a1) == if a0 as int > GAMMA2 || (a0 as int) < -GAMMA2 || (a0 as int == -GAMMA2 && a1 != 0) then 1 else 0
  {
    hide NonZero, Sign, And, Or;
    FlagTable();
  }

  lemma FlagTable()
    ensures And(0, 0) == And(0, 1) == And(1, 0) == 0 && And(1, 1) == 1
    ensures Or(0, 0) == 0 && Or(0, 1) == Or(1, 0) == Or(1, 1) == 1
  {
  }

  function MakeHint(a0: int32, a1: int32): (hint: nat)
    requires -0x4000_0000 <= a0 as int <= 0x4000_0000
    ensures hint == if a0 as int > GAMMA2 || (a0 as int) < -GAMMA2 || (a0 as int == -GAMMA2 && a1 != 0) then 1 else 0
  {
    FlagsAre(a0, a1);
    Flags(a0, a1)
  }

  /** How adding x moves the parts of y * 2*GAMMA2, around the cycle of 16 high parts. */
  lemma MovedParts(x: int, y: int)
    requires 0 <= y < 16 && -2 * GAMMA2 < x < 2 * GAMMA2
    ensures Decomposed((y * (2 * GAMMA2) + x) % Q)
      == if x > GAMMA2 then (if y == 15 then (x - 2 * GAMMA2 - 1, 0) else (x - 2 * GAMMA2, y + 1))
         else if x < -GAMMA2 || (x == -GAMMA2 && y != 0) then (if y == 0 then (x + 2 * GAMMA2 + 1, 15) else (x + 2 * GAMMA2, y - 1))
         else (x, y)
  {
    hide Decomposed;
    var s := y * (2 * GAMMA2) + x;
    var v := s % Q;
    assert v == if s < 0 then s + Q else s;
    if x > GAMMA2 {
      DecomposedIs(v, y + 1);
    } else if x < -GAMMA2 && y == 0 {
      DecomposedIs(v, 15);
    } else if x < -GAMMA2 || (x == -GAMMA2 && y != 0) {
      DecomposedIs(v, y - 1);
    } else if s < 0 {
      DecomposedIs(v, 16);
    } else {
      DecomposedIs(v, y);
    }
  }

  /** The hint says exactly whether adding a0 changes the high part. */
  lemma HintTells(a0: int32, a1: int32)
    requires 0 <= a1 as int < 16 && -2 * GAMMA2 < a0 as int < 2 * GAMMA2
    ensures MakeHint(a0, a1) == 1 <==> HighBits((a1 as int * (2 * GAMMA2) + a0 as int) % Q) != a1 as int
  {
    hide MakeHint, Decomposed;
    MovedParts(a0 as int, a1 as int);
  }

  /** Algorithm 40: the high part moves one step, up when the low part is positive and down otherwise. */
  function StandardUseHint(hint: nat, r: int): int
    requires 0 <= r < Q
  {
    var (r0, r1) := Decomposed(r);
    if hint == 0 then r1 else if r0 > 0 then (r1 + 1) % 16 else (r1 - 1) % 16
  }

  /** The standard's recovery takes back the high part that the hint was made for. */
  lemma StandardRecovers(a0: int32, a1: int32)
    requires 0 <= a1 as int < 16 && -2 * GAMMA2 < a0 as int < 2 * GAMMA2
    ensures StandardUseHint(MakeHint(a0, a1), (a1 as int * (2 * GAMMA2) + a0 as int) % Q) == a1 as int
  {
    hide MakeHint, Decomposed;
    MovedParts(a0 as int, a1 as int);
  }

  /** The selection of the program: the flag read as "low part positive" is set when the low part is not. */
  function Selected(a0: int32, a1: int32, hint: nat): (r: nat)
    requires -GAMMA2 <= a0 as int && 0 <= a1 as int < 16 && hint < 2
  {
    var flag := Sign(a0 - 1);
    var step := ChosenWord((a1 as int - 1) % 16, (a1 as int + 1) % 16, flag * 0xffff_ffff);
    ChosenWord(a1 as int, step, hint * 0xffff_ffff) % 16
  }

  lemma SelectedIs(a0: int32, a1: int32, hint: nat)
    requires -GAMMA2 <= a0 as int && 0 <= a1 as int < 16 && hint < 2
    ensures Selected(a0, a1, hint)
      == if hint == 0 then a1 as int else if a0 <= 0 then (a1 as int + 1) % 16 else (a1 as int - 1) % 16
  {
    hide ChosenWord, Sign;
  }

  function UseHint(a: int32, hint: nat): (r: nat)
    requires 0 <= a as int < Q && hint < 2
    ensures r < 16
  {
    var (a0, a1) := Decompose(a);
    SelectedIs(a0, a1, hint);
    Selected(a0, a1, hint)
  }

  /** Without a hint the program agrees with the standard; with one it always goes the other way. */
  lemma UseHintAgrees(a: int32, hint: nat)
    requires 0 <= a as int < Q && hint < 2
    ensures UseHint(a, hint) == StandardUseHint(hint, a as int) <==> hint == 0
  {
    hide Decomposed, Selected, Decompose;
    var d := Decompose(a);
    SelectedIs(d.0, d.1, hint);
  }

  /** The program recovers the signer's high part exactly where no hint was needed. */
  lemma RecoversUnhinted(a0: int32, a1: int32, r: int32)
    requires 0 <= a1 as int < 16 && -2 * GAMMA2 < a0 as int < 2 * GAMMA2
    requires r as int == (a1 as int * (2 * GAMMA2) + a0 as int) % Q
    ensures UseHint(r, MakeHint(a0, a1)) == a1 as int <==> MakeHint(a0, a1) == 0
  {
    hide MakeHint, StandardUseHint, UseHint;
    StandardRecovers(a0, a1);
    UseHintAgrees(r, MakeHint(a0, a1));
  }

  // ----- the norm check -----

  /** Whether some coefficient has absolute value b or more. */
  predicate Exceeds(a: seq<int32>, b: int) {
    exists i :: 0 <= i < |a| && (a[i] as int <= -b || a[i] as int >= b)
  }

  /** a - ((a >> 31) & 2a) with wrapping words: the absolute value, but the smallest word has none and stays. */
  function AbsoluteValue(a: int32): (t: int32)
    ensures t as int == if -0x8000_0000 < a as int < 0 then -(a as int) else a as int
  {
    Wrap32(a as int - if a < 0 then Wrap32(2 * a as int) as int else 0)
  }

  method ChkNorm(a: seq<int32>, b: int32) returns (reject: bool)
    requires |a| == 256
    ensures reject <==> b as int > (Q - 1) / 8 || exists i :: 0 <= i < 256 && AbsoluteValue(a[i]) >= b
    ensures (forall i :: 0 <= i < 256 ==> a[i] as int > -0x8000_0000) ==>
      (reject <==> b as int > (Q - 1) / 8 || Exceeds(a, b as int))
  {
    hide AbsoluteValue;
    if b as int > (Q - 1) / 8 {
      return true;
    }
    var i := 0;
    while i < 256
      invariant 0 <= i <= 256 && forall k :: 0 <= k < i ==> AbsoluteValue(a[k]) < b
    {
      if AbsoluteValue(a[i]) >= b {
        return true;
      }
      i := i + 1;
    }
    return false;
  }
}
