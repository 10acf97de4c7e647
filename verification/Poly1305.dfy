/** The Poly1305 authenticator of section 2.5 of RFC 8439 in five limbs of 26 bits, modulo 2^130 - 5. */
module Poly1305 {
  import opened ModArith
  import opened Bits
  import opened Radix

  type Word32 = x: int | 0 <= x < 0x1_0000_0000
  type Word64 = x: int | 0 <= x < 0x1_0000_0000_0000_0000

  const B26 := 0x400_0000
  const TWO128 := 0x1_00000000_00000000_00000000_00000000
  /** 2^130 - 5. */
  const P := 0x3_ffffffff_ffffffff_ffffffff_fffffffb

  datatype Limbs = Limbs(l0: nat, l1: nat, l2: nat, l3: nat, l4: nat)

  /** The number five limbs stand for. */
  function Value(l: Limbs): nat {
    l.l0 + B26 * (l.l1 + B26 * (l.l2 + B26 * (l.l3 + B26 * l.l4)))
  }

  /** Every limb has 26 bits. */
  predicate Canonical(l: Limbs) {
    l.l0 < B26 && l.l1 < B26 && l.l2 < B26 && l.l3 < B26 && l.l4 < B26
  }

  /** What holds of the accumulator between blocks: only the second limb may exceed 26 bits, by less than 64. */
  predicate Loose(l: Limbs) {
    l.l0 < B26 && l.l1 < B26 + 64 && l.l2 < B26 && l.l3 < B26 && l.l4 < B26
  }

  // ----- loading -----

  lemma FourBytes()
    ensures Pow(0x100, 4) == 0x1_0000_0000
  {
  }

  lemma FourWords(b: seq<Byte>)
    requires |b| == 16
    ensures Number(0x100, b) == Load32(b[..4]) + 0x1_0000_0000 * (Load32(b[4..8])
              + 0x1_0000_0000 * (Load32(b[8..12]) + 0x1_0000_0000 * Load32(b[12..])))
  {
    hide Number, Pow, Load32;
    FourBytes();
    NumberAppend(0x100, b[8..12], b[12..]);
    NumberAppend(0x100, b[4..8], b[8..]);
    NumberAppend(0x100, b[..4], b[4..]);
    assert b[8..] == b[8..12] + b[12..] && b[4..] == b[4..8] + b[8..] && b == b[..4] + b[4..];
  }

  /** x & 0x3ffffff. */
  function Low26(x: nat): (y: nat)
    ensures y == x % B26
  {
    Powers();
    Low(x, 0x400_0000)
  }

  /** lo | (x << j) in 32 bits, where n is 1 << j and k is 1 << (32 - j). */
  function Spliced(lo: nat, x: nat, n: nat, k: nat): (w: Word32)
    requires lo < n && n * k == 0x1_0000_0000 && k > 0
    ensures w == lo + n * (x % k)
  {
    WordIsPower();
    PowerDivides(n, k, 0x1_0000_0000);
    ShiftOut(lo, x, n, k);
    Join(lo, x * n % 0x1_0000_0000 / n, n)
  }

  /** Shifting left drops what leaves the word. */
  lemma ShiftOut(lo: nat, x: nat, n: nat, k: nat)
    requires lo < n && n * k == 0x1_0000_0000 && k > 0
    ensures (x * n) % 0x1_0000_0000 / n == x % k && 0 <= lo + (x % k) * n < 0x1_0000_0000 && (x % k) * n == n * (x % k)
  {
    var q, r := x / k, x % k;
    CutAgain(q, n, k, r);
    ProductUp(r + 1, k, n);
    WordOf(r, lo, n, k);
    DivUnique(x * n, 0x1_0000_0000, q, r * n);
    DivUnique(r * n, n, r, 0);
  }

  lemma WordOf(r: nat, lo: nat, n: nat, k: nat)
    requires lo < n && (r + 1) * n <= k * n && n * k == 0x1_0000_0000
    ensures 0 <= r * n && lo + r * n < 0x1_0000_0000 && r * n == n * r
  {
    assert (r + 1) * n == r * n + n;
    assert k * n == n * k;
  }

  /** The 32-bit words (t0 >> 26) | (t1 << 6), (t1 >> 20) | (t2 << 12) and (t2 >> 14) | (t3 << 18). */
  function Splice6(t0: Word32, t1: Word32): (x: Word32)
    ensures x == t0 / 0x400_0000 + 0x40 * (t1 % 0x400_0000)
  {
    Spliced(t0 / 0x400_0000, t1, 0x40, 0x400_0000)
  }

  function Splice12(t1: Word32, t2: Word32): (x: Word32)
    ensures x == t1 / 0x10_0000 + 0x1000 * (t2 % 0x10_0000)
  {
    Spliced(t1 / 0x10_0000, t2, 0x1000, 0x10_0000)
  }

  function Splice18(t2: Word32, t3: Word32): (x: Word32)
    ensures x == t2 / 0x4000 + 0x4_0000 * (t3 % 0x4000)
  {
    Spliced(t2 / 0x4000, t3, 0x4_0000, 0x4000)
  }

  /** The limbs of a 16-byte number. */
  function Split(b: seq<Byte>): (l: Limbs)
    requires |b| == 16
    ensures Canonical(l) && l.l4 < 0x100_0000
  {
    var t0, t1, t2, t3 := Load32(b[..4]), Load32(b[4..8]), Load32(b[8..12]), Load32(b[12..]);
    Limbs(Low26(t0), Low26(Splice6(t0, t1)), Low26(Splice12(t1, t2)), Low26(Splice18(t2, t3)), t3 / 0x100)
  }

  lemma SplitValue(b: seq<Byte>)
    requires |b| == 16
    ensures Value(Split(b)) == Number(0x100, b)
  {
    hide Low26, Splice6, Splice12, Splice18, Load32, Number;
    FourWords(b);
    var t0, t1, t2, t3 := Load32(b[..4]), Load32(b[4..8]), Load32(b[8..12]), Load32(b[12..]);
    SplitWords(t0, t1, t2, t3, Split(b));
  }

  lemma SplitWords(t0: Word32, t1: Word32, t2: Word32, t3: Word32, l: Limbs)
    requires l.l0 == t0 % B26 && l.l1 == (t0 / 0x400_0000 + 0x40 * (t1 % 0x400_0000)) % B26
    requires l.l2 == (t1 / 0x10_0000 + 0x1000 * (t2 % 0x10_0000)) % B26
    requires l.l3 == (t2 / 0x4000 + 0x4_0000 * (t3 % 0x4000)) % B26 && l.l4 == t3 / 0x100
    ensures Value(l) == t0 + 0x1_0000_0000 * (t1 + 0x1_0000_0000 * (t2 + 0x1_0000_0000 * t3))
  {
    SecondLimb(t0, t1);
    ThirdLimb(t1, t2);
    FourthLimb(t2, t3);
  }

  lemma SecondLimb(t0: Word32, t1: Word32)
    ensures (t0 / 0x400_0000 + 0x40 * (t1 % 0x400_0000)) % B26 == t0 / 0x400_0000 + 0x40 * (t1 % 0x10_0000)
  {
    CutHigh(t0 / 0x400_0000, t1 % 0x400_0000, 0x40, 0x10_0000);
    ModOfMod(t1, 0x10_0000, 0x40);
  }

  lemma ThirdLimb(t1: Word32, t2: Word32)
    ensures (t1 / 0x10_0000 + 0x1000 * (t2 % 0x10_0000)) % B26 == t1 / 0x10_0000 + 0x1000 * (t2 % 0x4000)
  {
    CutHigh(t1 / 0x10_0000, t2 % 0x10_0000, 0x1000, 0x4000);
    ModOfMod(t2, 0x4000, 0x40);
  }

  lemma FourthLimb(t2: Word32, t3: Word32)
    ensures (t2 / 0x4000 + 0x4_0000 * (t3 % 0x4000)) % B26 == t2 / 0x4000 + 0x4_0000 * (t3 % 0x100)
  {
    CutHigh(t2 / 0x4000, t3 % 0x4000, 0x4_0000, 0x100);
    ModOfMod(t3, 0x100, 0x40);
  }

  // ----- the clamped multiplier -----

  /** The bits of r that the algorithm keeps. */
  const CLAMP := 0x0ffffffc_0ffffffc_0ffffffc_0fffffff

  function Clamped(key: seq<Byte>): (r: nat)
    requires |key| == 16
  {
    NumberBound(0x100, key);
    And(Number(0x100, key), CLAMP)
  }

  /** Each limb has its own mask. */
  function ClampLimbs(l: Limbs): (r: Limbs)
    requires Canonical(l)
    ensures Canonical(r) && r.l4 < 0x10_0000
  {
    Limbs(And(l.l0, 0x3ffffff), And(l.l1, 0x3ffff03), And(l.l2, 0x3ffc0ff), And(l.l3, 0x3f03fff), And(l.l4, 0x00fffff))
  }

  lemma ClampLimbsValue(l: Limbs)
    requires Canonical(l)
    ensures Value(ClampLimbs(l)) == And(Value(l), CLAMP)
  {
    hide And, IsPowerOfTwo;
    assert IsPowerOfTwo(B26) by { LimbPower(); }
    var m3 := 0x3f03fff + B26 * 0x00fffff;
    var m2 := 0x3ffc0ff + B26 * m3;
    var m1 := 0x3ffff03 + B26 * m2;
    assert CLAMP == 0x3ffffff + B26 * m1;
    AndSplit(l.l3, l.l4, 0x3f03fff, 0x00fffff, B26);
    AndSplit(l.l2, l.l3 + B26 * l.l4, 0x3ffc0ff, m3, B26);
    AndSplit(l.l1, l.l2 + B26 * (l.l3 + B26 * l.l4), 0x3ffff03, m2, B26);
    AndSplit(l.l0, l.l1 + B26 * (l.l2 + B26 * (l.l3 + B26 * l.l4)), 0x3ffffff, m1, B26);
  }

  lemma LimbPower()
    ensures IsPowerOfTwo(B26)
  {
    PowerProduct(0x2000, 0x2000);
  }

  /** The multiplier the program loads. */
  function LoadR(key: seq<Byte>): (r: Limbs)
    requires |key| == 16
    ensures Canonical(r) && Value(r) == Clamped(key)
  {
    SplitValue(key);
    ClampLimbsValue(Split(key));
    ClampLimbs(Split(key))
  }

  // ----- one block -----

  /** Ten bits of slack: a sum of five limb products. */
  lemma SumOfProducts(a0: nat, a1: nat, a2: nat, a3: nat, a4: nat, b0: nat, b1: nat, b2: nat, b3: nat, b4: nat, m: nat, n: nat)
    requires a0 <= m && a1 <= m && a2 <= m && a3 <= m && a4 <= m && b0 <= n && b1 <= n && b2 <= n && b3 <= n && b4 <= n
    ensures 0 <= a0 * b0 + a1 * b1 + a2 * b2 + a3 * b3 + a4 * b4 <= 5 * (m * n)
  {
    ProductMonotone(a0, b0, m, n);
    ProductMonotone(a1, b1, m, n);
    ProductMonotone(a2, b2, m, n);
    ProductMonotone(a3, b3, m, n);
    ProductMonotone(a4, b4, m, n);
    FiveTerms(a0 * b0, a1 * b1, a2 * b2, a3 * b3, a4 * b4, m * n);
  }

  lemma FiveTerms(u: int, v: int, w: int, x: int, y: int, p: int)
    requires 0 <= u <= p && 0 <= v <= p && 0 <= w <= p && 0 <= x <= p && 0 <= y <= p
    ensures 0 <= u + v + w + x + y <= 5 * p
  {
  }

  lemma ProductMonotone(a: nat, b: nat, m: nat, n: nat)
    requires a <= m && b <= n
    ensures 0 <= a * b <= m * n
  {
    ProductUp(a, m, b);
    ProductUp(b, n, m);
    assert b * m == m * b && n * m == m * n;
  }

  lemma ProductUp(a: nat, m: nat, b: nat)
    requires a <= m
    ensures 0 <= a * b <= m * b
  {
    assert (m - a) * b == m * b - a * b;
  }

  /** The bound on limbs after a block is added, and on multiplier limbs times five. */
  const LIMB := 0x800_0040
  const FIVE := 0x1400_0000

  predicate Sized(l: Limbs, bound: nat) {
    l.l0 <= bound && l.l1 <= bound && l.l2 <= bound && l.l3 <= bound && l.l4 <= bound
  }

  /** Five column sums, the columns of 2^130 and above folded back times five. */
  function Columns(h: Limbs, r: Limbs): (d: Limbs)
    ensures Sized(h, LIMB) && Sized(r, B26) ==> Sized(d, 5 * (LIMB * FIVE)) && d.l4 <= 5 * (LIMB * B26)
  {
    var s1, s2, s3, s4 := r.l1 * 5, r.l2 * 5, r.l3 * 5, r.l4 * 5;
    var d := Limbs(h.l0 * r.l0 + h.l1 * s4 + h.l2 * s3 + h.l3 * s2 + h.l4 * s1,
                   h.l0 * r.l1 + h.l1 * r.l0 + h.l2 * s4 + h.l3 * s3 + h.l4 * s2,
                   h.l0 * r.l2 + h.l1 * r.l1 + h.l2 * r.l0 + h.l3 * s4 + h.l4 * s3,
                   h.l0 * r.l3 + h.l1 * r.l2 + h.l2 * r.l1 + h.l3 * r.l0 + h.l4 * s4,
                   h.l0 * r.l4 + h.l1 * r.l3 + h.l2 * r.l2 + h.l3 * r.l1 + h.l4 * r.l0);
    if Sized(h, LIMB) && Sized(r, B26) then
      SumOfProducts(h.l0, h.l1, h.l2, h.l3, h.l4, r.l0, s4, s3, s2, s1, LIMB, FIVE);
      SumOfProducts(h.l0, h.l1, h.l2, h.l3, h.l4, r.l1, r.l0, s4, s3, s2, LIMB, FIVE);
      SumOfProducts(h.l0, h.l1, h.l2, h.l3, h.l4, r.l2, r.l1, r.l0, s4, s3, LIMB, FIVE);
      SumOfProducts(h.l0, h.l1, h.l2, h.l3, h.l4, r.l3, r.l2, r.l1, r.l0, s4, LIMB, FIVE);
      SumOfProducts(h.l0, h.l1, h.l2, h.l3, h.l4, r.l4, r.l3, r.l2, r.l1, r.l0, LIMB, B26);
      d
    else d
  }

  /** x times the number of five limbs, limb by limb. */
  lemma TimesValue(x: nat, r: Limbs)
    ensures x * Value(r) == x * r.l0 + B26 * (x * r.l1 + B26 * (x * r.l2 + B26 * (x * r.l3 + B26 * (x * r.l4))))
  {
    var v3 := r.l3 + B26 * r.l4;
    var v2 := r.l2 + B26 * v3;
    var v1 := r.l1 + B26 * v2;
    TimesLimb(x, r.l3, r.l4);
    TimesLimb(x, r.l2, v3);
    TimesLimb(x, r.l1, v2);
    TimesLimb(x, r.l0, v1);
  }

  lemma TimesLimb(x: nat, l: nat, v: nat)
    ensures x * (l + B26 * v) == x * l + B26 * (x * v)
  {
  }

  lemma ValueTimes(h: Limbs, y: nat)
    ensures Value(h) * y == h.l0 * y + B26 * (h.l1 * y + B26 * (h.l2 * y + B26 * (h.l3 * y + B26 * (h.l4 * y))))
  {
    TimesValue(y, h);
    Commute(y, Value(h));
    Commute(y, h.l0);
    Commute(y, h.l1);
    Commute(y, h.l2);
    Commute(y, h.l3);
    Commute(y, h.l4);
  }

  lemma Commute(x: int, y: int)
    ensures x * y == y * x
  {
  }

  lemma FiveTimes(x: nat, y: nat)
    ensures x * (y * 5) == 5 * (x * y)
  {
  }

  /** Folding 2^130 to 5 subtracts a multiple of 2^130 - 5. */
  lemma ColumnsAreProduct(h: Limbs, r: Limbs) returns (k: nat)
    ensures Value(h) * Value(r) == Value(Columns(h, r)) + k * P
  {
    ValueTimes(h, Value(r));
    TimesValue(h.l0, r);
    TimesValue(h.l1, r);
    TimesValue(h.l2, r);
    TimesValue(h.l3, r);
    TimesValue(h.l4, r);
    FiveTimes(h.l1, r.l4);
    FiveTimes(h.l2, r.l3);
    FiveTimes(h.l3, r.l2);
    FiveTimes(h.l4, r.l1);
    FiveTimes(h.l2, r.l4);
    FiveTimes(h.l3, r.l3);
    FiveTimes(h.l4, r.l2);
    FiveTimes(h.l3, r.l4);
    FiveTimes(h.l4, r.l3);
    FiveTimes(h.l4, r.l4);
    var k0 := h.l1 * r.l4 + h.l2 * r.l3 + h.l3 * r.l2 + h.l4 * r.l1;
    var k1 := h.l2 * r.l4 + h.l3 * r.l3 + h.l4 * r.l2;
    var k2 := h.l3 * r.l4 + h.l4 * r.l3;
    k := k0 + B26 * (k1 + B26 * (k2 + B26 * (h.l4 * r.l4)));
  }

  /** Carry the columns from limb to limb; what leaves the last one is returned. All sums fit their words. */
  method CarryColumns(c: Limbs) returns (low: Limbs, top: Word32)
    requires Sized(c, 5 * (LIMB * FIVE)) && c.l4 <= 5 * (LIMB * B26)
    ensures Canonical(low) && top * 5 < 0xffff_ffff - B26
    ensures Value(c) == Value(low) + B26 * (B26 * (B26 * (B26 * (B26 * top))))
  {
    hide Low26;
    var d0: Word64, d1: Word64, d2: Word64, d3: Word64, d4: Word64 := c.l0, c.l1, c.l2, c.l3, c.l4;
    var h0: Word32 := Low26(d0);
    d1 := d1 + d0 / B26;
    var h1: Word32 := Low26(d1);
    d2 := d2 + d1 / B26;
    var h2: Word32 := Low26(d2);
    d3 := d3 + d2 / B26;
    var h3: Word32 := Low26(d3);
    d4 := d4 + d3 / B26;
    var h4: Word32 := Low26(d4);
    top := d4 / B26;
    low := Limbs(h0, h1, h2, h3, h4);
  }

  /** Fold what left the last limb back to the first, times five, and carry once. */
  method FoldBack(low: Limbs, top: Word32) returns (g: Limbs)
    requires Canonical(low) && top * 5 < 0xffff_ffff - B26
    ensures Loose(g) && Value(g) == Value(low) + 5 * top
    ensures top == 0 || (top == 1 && low.l1 < 64) ==> Canonical(g)
  {
    hide Low26;
    var h0: Word32 := low.l0 + top * 5;
    var h1: Word32 := low.l1 + h0 / B26;
    h0 := Low26(h0);
    g := Limbs(h0, h1, low.l2, low.l3, low.l4);
  }

  /** The multiplication of one block. */
  method Multiply(h: Limbs, r: Limbs) returns (g: Limbs)
    requires Sized(h, LIMB) && Canonical(r)
    ensures Loose(g)
    ensures Rem(P, Value(g)) == Rem(P, Value(h) * Value(r))
  {
    hide Rem, Columns, Value;
    var c := Columns(h, r);
    var low, top := CarryColumns(c);
    g := FoldBack(low, top);
    FoldTop(h, r, c, g, top);
  }

  lemma FoldTop(h: Limbs, r: Limbs, c: Limbs, g: Limbs, top: nat)
    requires c == Columns(h, r)
    requires Value(c) == Value(g) - 5 * top + B26 * (B26 * (B26 * (B26 * (B26 * top))))
    ensures Rem(P, Value(g)) == Rem(P, Value(h) * Value(r))
  {
    hide Rem, Columns, Value;
    var k := ColumnsAreProduct(h, r);
    assert Value(h) * Value(r) == Value(g) + (k + top) * P;
    RemShift(P, Value(g), k + top);
  }

  // ----- the message as a polynomial -----

  function BlockCount(m: seq<Byte>): (n: nat) {
    (|m| + 15) / 16
  }

  /** The bytes of block i, fewer than 16 only at the end. */
  function Chunk(m: seq<Byte>, i: nat): (c: seq<Byte>)
    requires i < BlockCount(m)
    ensures 0 < |c| <= 16
  {
    m[16 * i..if 16 * i + 16 <= |m| then 16 * i + 16 else |m|]
  }

  /** Block i as a number: the program sets bit 128 in every block, also in a short one. */
  function BlockAt(m: seq<Byte>, i: nat): (c: nat)
    requires i < BlockCount(m)
  {
    NumberBound(0x100, Chunk(m, i));
    Number(0x100, Chunk(m, i)) + TWO128
  }

  /** The first n blocks by Horner's rule at r, modulo 2^130 - 5. */
  function Evaluated(r: nat, m: seq<Byte>, n: nat): (h: nat)
    requires n <= BlockCount(m)
    ensures h < P
  {
    if n == 0 then 0 else Rem(P, (Evaluated(r, m, n - 1) + BlockAt(m, n - 1)) * r)
  }

  /** The sum of block i times r^(n-i) over the first k blocks. */
  function PowerSum(r: nat, m: seq<Byte>, n: nat, k: nat): (s: int)
    requires k <= n && k <= BlockCount(m) && r > 0
  {
    if k == 0 then 0 else PowerSum(r, m, n, k - 1) + BlockAt(m, k - 1) * Pow(r, n - (k - 1))
  }

  lemma {:induction false} PowerSumShift(r: nat, m: seq<Byte>, n: nat, k: nat)
    requires k <= n && k <= BlockCount(m) && r > 0
    ensures PowerSum(r, m, n + 1, k) == PowerSum(r, m, n, k) * r
  {
    hide BlockAt;
    if k > 0 {
      PowerSumShift(r, m, n, k - 1);
      var c, p := BlockAt(m, k - 1), Pow(r, n - (k - 1));
      assert Pow(r, n + 1 - (k - 1)) == r * p;
      PowerStep(PowerSum(r, m, n, k - 1), c, p, r);
    }
  }

  lemma PowerStep(s: int, c: int, p: int, r: int)
    ensures s * r + c * (r * p) == (s + c * p) * r
  {
  }

  /** Horner's rule computes the sum of blocks times powers of r. */
  lemma {:induction false} EvaluatedIsPowerSum(r: nat, m: seq<Byte>, n: nat)
    requires n <= BlockCount(m) && r > 0
    ensures Evaluated(r, m, n) == Rem(P, PowerSum(r, m, n, n))
  {
    hide BlockAt, Rem;
    if n == 0 {
      assert Rem(P, 0) == 0 by { RemUnique(P, 0, 0, 0); }
    } else {
      EvaluatedIsPowerSum(r, m, n - 1);
      PowerSumShift(r, m, n - 1, n - 1);
      var s, c := PowerSum(r, m, n - 1, n - 1), BlockAt(m, n - 1);
      assert Pow(r, n - (n - 1)) == r * Pow(r, 0) == r;
      assert PowerSum(r, m, n, n) == (s + c) * r by { LastTerm(s, c, r); }
      RemRem(P, s);
      RemAddMul(P, Rem(P, s), s, c, c, r);
    }
  }

  lemma LastTerm(s: int, c: int, r: int)
    ensures s * r + c * r == (s + c) * r
  {
  }

  /** A block as section 2.5.1 of RFC 8439 wants it: one bit above its own bytes. */
  function StandardBlock(m: seq<Byte>, i: nat): (c: nat)
    requires i < BlockCount(m)
  {
    NumberBound(0x100, Chunk(m, i));
    Number(0x100, Chunk(m, i)) + Pow(0x100, |Chunk(m, i)|)
  }

  /** The program cuts m into the blocks of the standard. */
  predicate FollowsStandard(m: seq<Byte>) {
    forall i :: 0 <= i < BlockCount(m) ==> BlockAt(m, i) == StandardBlock(m, i)
  }

  /** The program follows the standard exactly when the last block is full. */
  lemma StandardBlocks(m: seq<Byte>)
    ensures FollowsStandard(m) <==> |m| % 16 == 0
  {
    SixteenBytes();
    var n := BlockCount(m);
    if |m| % 16 == 0 {
      forall i | 0 <= i < n ensures BlockAt(m, i) == StandardBlock(m, i) {
        assert |Chunk(m, i)| == 16;
      }
    } else {
      assert |Chunk(m, n - 1)| < 16;
      PowLess(|Chunk(m, n - 1)|, 16);
      assert BlockAt(m, n - 1) != StandardBlock(m, n - 1);
    }
  }

  lemma SixteenBytes()
    ensures Pow(0x100, 16) == TWO128
  {
    assert Pow(0x100, 8) == 0x1_0000_0000_0000_0000;
    PowAdd(0x100, 8, 8);
  }

  lemma {:induction false} PowLess(k: nat, n: nat)
    requires k < n
    ensures Pow(0x100, k) < Pow(0x100, n)
    decreases n
  {
    if k < n - 1 {
      PowLess(k, n - 1);
    }
  }

  // ----- the whole message -----

  /** A chunk in a zeroed 16-byte buffer. */
  function Padded(c: seq<Byte>): (b: seq<Byte>)
    requires |c| <= 16
    ensures |b| == 16
  {
    c + seq(16 - |c|, _ => 0)
  }

  lemma PaddedValue(c: seq<Byte>)
    requires |c| <= 16
    ensures Number(0x100, Padded(c)) == Number(0x100, c)
  {
    var zeros: seq<Byte> := seq(16 - |c|, _ => 0);
    ZerosAreZero(zeros);
    NumberAppend(0x100, c, zeros);
  }

  lemma {:induction false} ZerosAreZero(z: seq<int>)
    requires forall i :: 0 <= i < |z| ==> z[i] == 0
    ensures Number(0x100, z) == 0
  {
    if z != [] {
      ZerosAreZero(z[1..]);
    }
  }

  /** t | (1 << 24). */
  function HighBit(t: nat): (x: nat)
    requires t < 0x100_0000
    ensures x == t + 0x100_0000
  {
    PowerProduct(0x1000, 0x1000);
    Join(t, 1, 0x100_0000)
  }

  /** Add a block with its high bit. */
  function AddBlock(h: Limbs, b: seq<Byte>): (g: Limbs)
    requires Loose(h) && |b| == 16
    ensures Sized(g, LIMB)
  {
    var c := Split(b);
    Limbs(h.l0 + c.l0, h.l1 + c.l1, h.l2 + c.l2, h.l3 + c.l3, h.l4 + HighBit(c.l4))
  }

  lemma AddBlockValue(h: Limbs, b: seq<Byte>)
    requires Loose(h) && |b| == 16
    ensures Value(AddBlock(h, b)) == Value(h) + Number(0x100, b) + TWO128
  {
    hide Split, HighBit, Number;
    SplitValue(b);
  }

  method Absorb(r: Limbs, m: seq<Byte>) returns (h: Limbs)
    requires Canonical(r)
    ensures Loose(h)
    ensures Rem(P, Value(h)) == Evaluated(Value(r), m, BlockCount(m))
  {
    hide Rem, Loose, Canonical, Value, Padded, AddBlock;
    h := Limbs(0, 0, 0, 0, 0);
    ZeroLimbs();
    ghost var n := 0;
    var off := 0;
    while off < |m|
      invariant 0 <= off <= |m| && n <= BlockCount(m)
      invariant off == if n < BlockCount(m) then 16 * n else |m|
      invariant Loose(h)
      invariant Rem(P, Value(h)) == Evaluated(Value(r), m, n)
    {
      var left := if |m| - off > 16 then 16 else |m| - off;
      var blk := Padded(m[off..off + left]);
      assert m[off..off + left] == Chunk(m, n);
      PaddedValue(Chunk(m, n));
      ghost var was := h;
      AddBlockValue(h, blk);
      h := AddBlock(h, blk);
      h := Multiply(h, r);
      BlockAbsorbed(Value(was), BlockAt(m, n), Value(r), Evaluated(Value(r), m, n));
      off := off + left;
      n := n + 1;
    }
  }

  lemma ZeroLimbs()
    ensures Loose(Limbs(0, 0, 0, 0, 0)) && Rem(P, Value(Limbs(0, 0, 0, 0, 0))) == 0
  {
    RemUnique(P, 0, 0, 0);
  }

  lemma BlockAbsorbed(h: nat, c: nat, r: nat, e: nat)
    requires Rem(P, h) == e
    ensures Rem(P, (h + c) * r) == Rem(P, (e + c) * r)
  {
    hide Rem;
    RemRem(P, h);
    RemAddMul(P, h, e, c, c, r);
  }

  // ----- the final reduction -----

  /** Carry from the second limb up. */
  method CarryUp(l: Limbs) returns (low: Limbs, top: Word32)
    requires Loose(l)
    ensures Canonical(low) && top <= 1 && (top == 1 ==> low.l1 < 64)
    ensures Value(l) == Value(low) + B26 * (B26 * (B26 * (B26 * (B26 * top))))
  {
    hide Low26;
    var h1: Word32, h2: Word32, h3: Word32, h4: Word32 := l.l1, l.l2, l.l3, l.l4;
    h2 := h2 + h1 / B26;
    h1 := Low26(h1);
    h3 := h3 + h2 / B26;
    h2 := Low26(h2);
    h4 := h4 + h3 / B26;
    h3 := Low26(h3);
    top := h4 / B26;
    h4 := Low26(h4);
    low := Limbs(l.l0, h1, h2, h3, h4);
  }

  /** The last carry pass: afterwards every limb has 26 bits. */
  method Carry(l: Limbs) returns (g: Limbs)
    requires Loose(l)
    ensures Canonical(g)
    ensures Rem(P, Value(g)) == Rem(P, Value(l))
  {
    hide Rem, Value;
    var low, top := CarryUp(l);
    g := FoldBack(low, top);
    assert Value(l) == Value(g) + top * P;
    RemShift(P, Value(g), top);
  }

  /** h + 5, carried through the lower limbs. */
  method AddFive(h: Limbs) returns (g: Limbs)
    requires Canonical(h)
    ensures g.l0 < B26 && g.l1 < B26 && g.l2 < B26 && g.l3 < B26 && g.l4 <= B26
    ensures Value(g) == Value(h) + 5
  {
    hide Low26;
    var g0: Word32 := h.l0 + 5;
    var g1: Word32 := h.l1 + g0 / B26;
    g0 := Low26(g0);
    var g2: Word32 := h.l2 + g1 / B26;
    g1 := Low26(g1);
    var g3: Word32 := h.l3 + g2 / B26;
    g2 := Low26(g2);
    var g4: Word32 := h.l4 + g3 / B26;
    g3 := Low26(g3);
    g := Limbs(g0, g1, g2, g3, g4);
  }

  /** Subtract 2^130 - 5 if that leaves something, without a branch. */
  method Reduce(h: Limbs) returns (g: Limbs)
    requires Canonical(h)
    ensures Canonical(g) && Value(g) == Rem(P, Value(h))
  {
    hide Rem, ChosenWord, Value;
    var s := AddFive(h);
    var g4: Word32 := (s.l4 - 0x400_0000) % 0x1_0000_0000;
    var mask: Word32 := (g4 / 0x8000_0000 - 1) % 0x1_0000_0000;
    assert mask == if s.l4 < B26 then 0 else 0xffffffff;
    g := Limbs(ChosenWord(h.l0, s.l0, mask), ChosenWord(h.l1, s.l1, mask), ChosenWord(h.l2, s.l2, mask), ChosenWord(h.l3, s.l3, mask),
               ChosenWord(h.l4, g4, mask));
    ReducedValue(h, s, g);
  }

  lemma ReducedValue(h: Limbs, s: Limbs, g: Limbs)
    requires Canonical(h) && Value(h) + 5 == Value(s) && s.l0 < B26 && s.l1 < B26 && s.l2 < B26 && s.l3 < B26 && s.l4 <= B26
    requires g == if s.l4 < B26 then h else Limbs(s.l0, s.l1, s.l2, s.l3, s.l4 - B26)
    ensures Canonical(g) && Value(g) == Rem(P, Value(h))
  {
    if s.l4 < B26 {
      assert Value(h) < P;
      RemUnique(P, Value(h), 0, Value(h));
    } else {
      assert Value(g) == Value(h) - P;
      assert Value(g) < P;
      RemUnique(P, Value(h), 1, Value(g));
    }
  }

  // ----- the tag -----

  /** Four 32-bit words out of five limbs; the top two bits are dropped. */
  function Word0(h: Limbs): (w: Word32)
    requires Canonical(h)
    ensures w == h.l0 + 0x400_0000 * (h.l1 % 0x40)
  {
    Spliced(h.l0, h.l1, 0x400_0000, 0x40)
  }

  function Word1(h: Limbs): (w: Word32)
    requires Canonical(h)
    ensures w == h.l1 / 0x40 + 0x10_0000 * (h.l2 % 0x1000)
  {
    Spliced(h.l1 / 0x40, h.l2, 0x10_0000, 0x1000)
  }

  function Word2(h: Limbs): (w: Word32)
    requires Canonical(h)
    ensures w == h.l2 / 0x1000 + 0x4000 * (h.l3 % 0x4_0000)
  {
    Spliced(h.l2 / 0x1000, h.l3, 0x4000, 0x4_0000)
  }

  function Word3(h: Limbs): (w: Word32)
    requires Canonical(h)
    ensures w == h.l3 / 0x4_0000 + 0x100 * (h.l4 % 0x100_0000)
  {
    Spliced(h.l3 / 0x4_0000, h.l4, 0x100, 0x100_0000)
  }

  /** Four words as one number. */
  function Wide(w0: int, w1: int, w2: int, w3: int): int {
    w0 + 0x1_0000_0000 * (w1 + 0x1_0000_0000 * (w2 + 0x1_0000_0000 * w3))
  }

  lemma WordsValue(h: Limbs)
    requires Canonical(h)
    ensures Wide(Word0(h), Word1(h), Word2(h), Word3(h)) == Value(h) - TWO128 * (h.l4 / 0x100_0000)
  {
    hide Word0, Word1, Word2, Word3;
    assert h.l1 == h.l1 % 0x40 + 0x40 * (h.l1 / 0x40);
    assert h.l2 == h.l2 % 0x1000 + 0x1000 * (h.l2 / 0x1000);
    assert h.l3 == h.l3 % 0x4_0000 + 0x4_0000 * (h.l3 / 0x4_0000);
    assert h.l4 == h.l4 % 0x100_0000 + 0x100_0000 * (h.l4 / 0x100_0000);
  }

  /** The little-endian store of a word. */
  function Store32(x: Word32): (b: seq<Byte>)
    ensures |b| == 4 && Number(0x100, b) == x
  {
    var b: seq<Byte> := [x % 0x100, x / 0x100 % 0x100, x / 0x1_0000 % 0x100, x / 0x100_0000];
    Four(0x100, b[0], b[1], b[2], b[3]);
    FourParts(x);
    b
  }

  lemma FourParts(x: Word32)
    ensures x == x % 0x100 + 0x100 * (x / 0x100 % 0x100 + 0x100 * (x / 0x1_0000 % 0x100 + 0x100 * (x / 0x100_0000)))
  {
    var y := x / 0x100;
    var z := y / 0x100;
    assert x / 0x1_0000 == z;
    assert x / 0x100_0000 == z / 0x100;
  }

  lemma StoredWords(w0: Word32, w1: Word32, w2: Word32, w3: Word32)
    ensures Number(0x100, Store32(w0) + Store32(w1) + Store32(w2) + Store32(w3)) == Wide(w0, w1, w2, w3)
  {
    hide Store32, Number, Pow;
    FourBytes();
    var s2, s3 := Store32(w2) + Store32(w3), Store32(w1) + (Store32(w2) + Store32(w3));
    NumberAppend(0x100, Store32(w2), Store32(w3));
    NumberAppend(0x100, Store32(w1), s2);
    NumberAppend(0x100, Store32(w0), s3);
    assert Store32(w0) + Store32(w1) + Store32(w2) + Store32(w3) == Store32(w0) + s3;
  }

  /** The tag of section 2.5: the polynomial at the clamped r, plus the second half of the key, modulo 2^128. */
  function TagValue(key: seq<Byte>, m: seq<Byte>): (t: nat)
    requires |key| == 32
  {
    NumberBound(0x100, key[16..]);
    (Evaluated(Clamped(key[..16]), m, BlockCount(m)) + Number(0x100, key[16..])) % TWO128
  }

  function Tag(key: seq<Byte>, m: seq<Byte>): (t: seq<Byte>)
    requires |key| == 32
    ensures |t| == 16
  {
    Digits(0x100, TagValue(key, m), 16)
  }

  /** Add the second half of the key word by word. */
  method AddKey(h: Limbs, s: seq<Byte>) returns (t: seq<Byte>)
    requires Canonical(h) && |s| == 16
    ensures |t| == 16 && Number(0x100, t) == (Value(h) + Number(0x100, s)) % TWO128
  {
    hide Word0, Word1, Word2, Word3, Load32, Store32, Value, Wide;
    var k0, k1, k2, k3 := Load32(s[..4]), Load32(s[4..8]), Load32(s[8..12]), Load32(s[12..]);
    var t0, t1, t2, t3, out := AddWords(Word0(h), Word1(h), Word2(h), Word3(h), k0, k1, k2, k3);
    t := Store32(t0) + Store32(t1) + Store32(t2) + Store32(t3);
    StoredWords(t0, t1, t2, t3);
    WordsValue(h);
    FourWords(s);
    WideOf(k0, k1, k2, k3);
    Truncated(Value(h) + Number(0x100, s), h.l4 / 0x100_0000 + out, t);
  }

  lemma WideOf(w0: int, w1: int, w2: int, w3: int)
    ensures Wide(w0, w1, w2, w3) == w0 + 0x1_0000_0000 * (w1 + 0x1_0000_0000 * (w2 + 0x1_0000_0000 * w3))
  {
  }

  /** The addition modulo 2^128, word by word; what leaves the top word is lost. */
  method AddWords(w0: Word32, w1: Word32, w2: Word32, w3: Word32, k0: Word32, k1: Word32, k2: Word32, k3: Word32)
    returns (t0: Word32, t1: Word32, t2: Word32, t3: Word32, ghost out: nat)
    ensures Wide(t0, t1, t2, t3) + TWO128 * out == Wide(w0, w1, w2, w3) + Wide(k0, k1, k2, k3)
  {
    var f: Word64 := w0 + k0;
    t0 := f % 0x1_0000_0000;
    f := w1 + k1 + f / 0x1_0000_0000;
    t1 := f % 0x1_0000_0000;
    f := w2 + k2 + f / 0x1_0000_0000;
    t2 := f % 0x1_0000_0000;
    f := w3 + k3 + f / 0x1_0000_0000;
    t3 := f % 0x1_0000_0000;
    out := f / 0x1_0000_0000;
  }

  lemma Truncated(x: nat, k: int, t: seq<Byte>)
    requires |t| == 16 && x == Number(0x100, t) + TWO128 * k
    ensures Number(0x100, t) == x % TWO128
  {
    NumberBound(0x100, t);
    SixteenBytes();
    DivUnique(x, TWO128, k, Number(0x100, t));
  }

  method Poly1305Mac(key: seq<Byte>, m: seq<Byte>, tag: array<Byte>)
    requires |key| == 32 && tag.Length == 16
    modifies tag
    ensures tag[..] == Tag(key, m)
  {
    hide Tag;
    var t := MacBytes(key, m);
    var i := 0;
    while i < 16
      invariant 0 <= i <= 16 && forall p :: 0 <= p < i ==> tag[p] == t[p]
    {
      tag[i] := t[i];
      i := i + 1;
    }
    assert tag[..] == t;
  }

  method MacBytes(key: seq<Byte>, m: seq<Byte>) returns (t: seq<Byte>)
    requires |key| == 32
    ensures |t| == 16 && t == Tag(key, m)
  {
    hide Rem, LoadR, Value, Canonical, Evaluated, Tag, Number, BlockCount, Clamped;
    var r := LoadR(key[..16]);
    var h := Absorb(r, m);
    h := Carry(h);
    h := Reduce(h);
    t := AddKey(h, key[16..]);
    TagFrom(key, m, Value(h), t);
  }

  lemma TagFrom(key: seq<Byte>, m: seq<Byte>, h: nat, t: seq<Byte>)
    requires |key| == 32 && |t| == 16 && h == Evaluated(Clamped(key[..16]), m, BlockCount(m))
    requires Number(0x100, t) == (h + Number(0x100, key[16..])) % TWO128
    ensures t == Tag(key, m)
  {
    hide Evaluated, Clamped, BlockCount, Number, Digits;
    DigitsOfNumber(0x100, t);
  }
}
