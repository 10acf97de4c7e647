/** Groups of bytes that hold a whole number of digits, as packing loops write and read them. */
module Packing {
  import opened Bits
  import opened Radix

  /** A packing loop writes one more group. */
  lemma AppendGroup(done: seq<Byte>, b: seq<Byte>, m: nat, digits: seq<int>, i: nat, t: seq<int>)
    requires i + |t| <= |digits| && Encodes(done, m, digits[..i]) && Encodes(b, m, t)
    requires forall j :: 0 <= j < |t| ==> t[j] == digits[i + j]
    ensures Encodes(done + b, m, digits[..i + |t|])
  {
    EncodesAppend(done, b, m, digits[..i], t);
    assert digits[..i + |t|] == digits[..i] + t;
  }

  /** An unpacking loop reads one more group. */
  lemma ReadGroup(a: seq<Byte>, at: nat, n: nat, m: nat, digits: seq<int>, t: seq<int>)
    requires at + n <= |a| && Encodes(a[..at], m, digits) && Encodes(a[at..at + n], m, t)
    ensures Encodes(a[..at + n], m, digits + t)
  {
    EncodesAppend(a[..at], a[at..at + n], m, digits, t);
    assert a[..at + n] == a[..at] + a[at..at + n];
  }

  // ----- one byte: two digits of 4 bits, or eight of 1 bit -----

  lemma Nibbles(x: nat, y: nat, b: Byte)
    requires x < 16 && y < 16 && b == x + 16 * y
    ensures Encodes([b], 16, [x, y])
  {
    Two(0x100, b, 0);
    Two(16, x, y);
    assert Pow(0x100, 1) == 0x100;
    assert Pow(16, 2) == 0x100;
  }

  lemma EightBits(b: Byte, bits: seq<int>)
    requires |bits| == 8 && b == Number(2, bits)
    ensures Encodes([b], 2, bits)
  {
    Two(0x100, b, 0);
    assert Pow(0x100, 1) == 0x100;
    assert Pow(2, 8) == 0x100;
  }

  // ----- five bytes: four digits of 10 bits -----

  function Pack10(t: seq<nat>): (b: seq<Byte>)
    requires |t| == 4 && Below(1024, t)
    ensures |b| == 5
  {
    [t[0] % 0x100,
     Join(t[0] / 0x100, t[1], 4) % 0x100,
     Join(t[1] / 0x40, t[2], 0x10) % 0x100,
     Join(t[2] / 0x10, t[3], 0x40) % 0x100,
     t[3] / 4]
  }

  function Unpack10(b: seq<Byte>): (t: seq<nat>)
    requires |b| == 5
    ensures |t| == 4
  {
    [Low(Join(b[0], Low(b[1], 4), 0x100), 0x400),
     Low(Join(b[1] / 4, Low(b[2], 0x10), 0x40), 0x400),
     Low(Join(b[2] / 0x10, Low(b[3], 0x40), 0x10), 0x400),
     Low(Join(b[3] / 0x40, b[4], 4), 0x400)]
  }

  lemma FortyBits()
    ensures Pow(0x100, 5) == Pow(1024, 4) == Pow(0x10_0000, 2) == 0x100_0000_0000
  {
  }

  lemma Ten(t0: nat, t1: nat, t2: nat, t3: nat, b0: Byte, b1: Byte, b2: Byte, b3: Byte, b4: Byte)
    requires t0 < 1024 && t1 < 1024 && t2 < 1024 && t3 < 1024
    requires t0 == b0 + 0x100 * (b1 % 4) && t1 == b1 / 4 + 0x40 * (b2 % 0x10)
    requires t2 == b2 / 0x10 + 0x10 * (b3 % 0x40) && t3 == b3 / 0x40 + 4 * b4
    ensures Encodes([b0, b1, b2, b3, b4], 1024, [t0, t1, t2, t3])
  {
    hide Number, Pow;
    Five(0x100, b0, b1, b2, b3, b4);
    Four(1024, t0, t1, t2, t3);
    FortyBits();
    TenSum(t0, t1, t2, t3, b0, b1, b2, b3, b4);
  }

  lemma TenSum(t0: nat, t1: nat, t2: nat, t3: nat, b0: Byte, b1: Byte, b2: Byte, b3: Byte, b4: Byte)
    requires t0 == b0 + 0x100 * (b1 % 4) && t1 == b1 / 4 + 0x40 * (b2 % 0x10)
    requires t2 == b2 / 0x10 + 0x10 * (b3 % 0x40) && t3 == b3 / 0x40 + 4 * b4
    ensures t0 + 1024 * (t1 + 1024 * (t2 + 1024 * t3)) == b0 + 0x100 * (b1 + 0x100 * (b2 + 0x100 * (b3 + 0x100 * b4)))
  {
  }

  lemma Pack10Encodes(t: seq<nat>)
    requires |t| == 4 && Below(1024, t)
    ensures Encodes(Pack10(t), 1024, t)
  {
    hide Encodes, Join;
    var b := Pack10(t);
    SharedByte(t[0] / 0x100, t[1], 4, 0x40);
    SharedByte(t[1] / 0x40, t[2], 0x10, 0x10);
    SharedByte(t[2] / 0x10, t[3], 0x40, 4);
    Ten(t[0], t[1], t[2], t[3], b[0], b[1], b[2], b[3], b[4]);
    assert t == [t[0], t[1], t[2], t[3]];
    assert b == [b[0], b[1], b[2], b[3], b[4]];
  }

  lemma Unpack10Encodes(b: seq<Byte>)
    requires |b| == 5
    ensures Below(1024, Unpack10(b)) && Encodes(b, 1024, Unpack10(b))
  {
    hide Encodes, Join, Low;
    var t := Unpack10(b);
    Ten(t[0], t[1], t[2], t[3], b[0], b[1], b[2], b[3], b[4]);
    assert t == [t[0], t[1], t[2], t[3]];
    assert b == [b[0], b[1], b[2], b[3], b[4]];
  }

  // ----- five bytes: two digits of 20 bits -----

  function Pack20(t0: nat, t1: nat): (b: seq<Byte>)
    requires t0 < 0x10_0000 && t1 < 0x10_0000
    ensures |b| == 5
  {
    [t0 % 0x100, t0 / 0x100 % 0x100, Join(t0 / 0x1_0000, t1, 0x10) % 0x100, t1 / 0x10 % 0x100, t1 / 0x1000]
  }

  /** b0 | b1 << 8 | b2 << 16 */
  function ThreeBytes(b0: Byte, b1: Byte, b2: Byte): (t: nat)
    ensures t == b0 + 0x100 * b1 + 0x1_0000 * b2
  {
    Powers();
    Join(Join(b0, b1, 0x100), b2, 0x1_0000)
  }

  /** 20 bits of it. */
  function Low20(b0: Byte, b1: Byte, b2: Byte): (t: nat)
    ensures t == b0 + 0x100 * b1 + 0x1_0000 * (b2 % 0x10) < 0x10_0000
  {
    Powers();
    CutHigh(b0 + 0x100 * b1, b2, 0x1_0000, 0x10);
    Low(ThreeBytes(b0, b1, b2), 0x10_0000)
  }

  /** b2 >> 4 | b3 << 4 | b4 << 12. */
  function High20(b2: Byte, b3: Byte, b4: Byte): (t: nat)
    ensures t == b2 / 0x10 + 0x10 * b3 + 0x1000 * b4 < 0x10_0000
  {
    Powers();
    Join(Join(b2 / 0x10, b3, 0x10), b4, 0x1000)
  }

  lemma Twenty(t0: nat, t1: nat, b0: Byte, b1: Byte, b2: Byte, b3: Byte, b4: Byte)
    requires t0 == b0 + 0x100 * b1 + 0x1_0000 * (b2 % 0x10) && t1 == b2 / 0x10 + 0x10 * b3 + 0x1000 * b4
    ensures Encodes([b0, b1, b2, b3, b4], 0x10_0000, [t0, t1])
  {
    hide Number, Pow;
    Five(0x100, b0, b1, b2, b3, b4);
    Two(0x10_0000, t0, t1);
    FortyBits();
  }

  lemma Pack20Encodes(t0: nat, t1: nat)
    requires t0 < 0x10_0000 && t1 < 0x10_0000
    ensures Encodes(Pack20(t0, t1), 0x10_0000, [t0, t1])
  {
    hide Encodes, Join;
    var b := Pack20(t0, t1);
    SharedByte(t0 / 0x1_0000, t1, 0x10, 0x10);
    ThreeParts(t0, 0x100, 0x100);
    ThreeParts(t1, 0x10, 0x100);
    Twenty(t0, t1, b[0], b[1], b[2], b[3], b[4]);
  }

  /** A number in a low, a middle and a high part. */
  lemma ThreeParts(t: nat, m: nat, k: nat)
    requires m > 0 && k > 0
    ensures m * k > 0 && t == t % m + m * (t / m % k) + (m * k) * (t / (m * k))
  {
    var q, r := t / m, t % m;
    var h, i := q / k, q % k;
    assert t == q * m + r && q == h * k + i;
    CutParts(r, h, i, m, k);
    assert r + m * i < m * k by { assert m * i <= m * (k - 1); }
    DivUnique(t, m * k, h, r + m * i);
    assert h * (m * k) == (m * k) * h;
  }

  // ----- thirteen bytes: eight digits of 13 bits -----

  /** The high part of one digit under the low part of the next: (lo | y << j) & 0xff, where m is 1 << j and k is 1 << (8 - j). */
  function Mixed(lo: nat, y: nat, m: nat, k: nat): (b: Byte)
    requires lo < m && m * k == 0x100 && k > 0
    ensures b % m == lo && b / m == y % k
  {
    ByteIsPower();
    PowerDivides(m, k, 0x100);
    SharedByte(lo, y, m, k);
    Join(lo, y, m) % 0x100
  }

  function Pack13(t: seq<nat>): (b: seq<Byte>)
    requires |t| == 8 && Below(8192, t)
    ensures |b| == 13
  {
    [t[0] % 0x100,
     Mixed(t[0] / 0x100, t[1], 0x20, 8),
     t[1] / 8 % 0x100,
     Mixed(t[1] / 0x800, t[2], 4, 0x40),
     Mixed(t[2] / 0x40, t[3], 0x80, 2),
     t[3] / 2 % 0x100,
     Mixed(t[3] / 0x200, t[4], 0x10, 0x10),
     t[4] / 0x10 % 0x100,
     Mixed(t[4] / 0x1000, t[5], 2, 0x80),
     Mixed(t[5] / 0x80, t[6], 0x40, 4),
     t[6] / 4 % 0x100,
     Mixed(t[6] / 0x400, t[7], 8, 0x20),
     t[7] / 0x20]
  }

  lemma ThirteenBits()
    ensures IsPowerOfTwo(0x2000)
  {
    PowerProduct(0x100, 0x20);
  }

  /** Thirteen bits out of two bytes: (lo | hi << j) & 0x1fff, where n is 1 << j and k is 1 << (13 - j). */
  function Gather(lo: nat, hi: Byte, n: nat, k: nat): (t: nat)
    requires n * k == 0x2000 && lo < n && k > 0
    ensures t == lo + n * (hi % k) < 0x2000
  {
    ThirteenBits();
    PowerDivides(n, k, 0x2000);
    CutHigh(lo, hi, n, k);
    Low(Join(lo, hi, n), 0x2000)
  }

  /** lo | mid << j | hi << (j + 8), where n is 1 << j. */
  function Stacked(lo: nat, mid: Byte, hi: Byte, n: nat): (t: nat)
    requires IsPowerOfTwo(n) && IsPowerOfTwo(0x100 * n) && lo < n
    ensures t == lo + mid * n + hi * (0x100 * n)
  {
    FitsBelow(lo, mid, n);
    Join(Join(lo, mid, n), hi, 0x100 * n)
  }

  /** Thirteen bits out of three bytes, where k is 1 << (5 - j). */
  function Gather3(lo: nat, mid: Byte, hi: Byte, n: nat, k: nat): (t: nat)
    requires (0x100 * n) * k == 0x2000 && lo < n && k > 0
    ensures t == lo + mid * n + (0x100 * n) * (hi % k) < 0x2000
  {
    ThirteenBits();
    assert n * (0x100 * k) == (0x100 * n) * k;
    PowerDivides(n, 0x100 * k, 0x2000);
    PowerDivides(0x100 * n, k, 0x2000);
    FitsBelow(lo, mid, n);
    CutHigh(lo + mid * n, hi, 0x100 * n, k);
    Low(Stacked(lo, mid, hi, n), 0x2000)
  }

  lemma FitsBelow(lo: nat, mid: Byte, n: nat)
    requires lo < n
    ensures 0 <= lo + mid * n < 0x100 * n
  {
    assert (mid + 1) * n <= 0x100 * n;
  }

  function Unpack13(b: seq<Byte>): (t: seq<nat>)
    requires |b| == 13
    ensures |t| == 8 && Below(8192, t)
  {
    [Gather(b[0], b[1], 0x100, 0x20),
     Gather3(b[1] / 0x20, b[2], b[3], 8, 4),
     Gather(b[3] / 4, b[4], 0x40, 0x80),
     Gather3(b[4] / 0x80, b[5], b[6], 2, 0x10),
     Gather3(b[6] / 0x10, b[7], b[8], 0x10, 2),
     Gather(b[8] / 2, b[9], 0x80, 0x40),
     Gather3(b[9] / 0x40, b[10], b[11], 4, 8),
     Gather(b[11] / 8, b[12], 0x20, 0x100)]
  }

  /** How eight digits share thirteen bytes. */
  ghost predicate Shares13(t: seq<int>, b: seq<int>)
    requires |t| == 8 && |b| == 13
  {
    && t[0] == b[0] + 0x100 * (b[1] % 0x20)
    && t[1] == b[1] / 0x20 + 8 * b[2] + 0x800 * (b[3] % 4)
    && t[2] == b[3] / 4 + 0x40 * (b[4] % 0x80)
    && t[3] == b[4] / 0x80 + 2 * b[5] + 0x200 * (b[6] % 0x10)
    && t[4] == b[6] / 0x10 + 0x10 * b[7] + 0x1000 * (b[8] % 2)
    && t[5] == b[8] / 2 + 0x80 * (b[9] % 0x40)
    && t[6] == b[9] / 0x40 + 4 * b[10] + 0x400 * (b[11] % 8)
    && t[7] == b[11] / 8 + 0x20 * b[12]
  }

  lemma NumberFrom(r: nat, t: seq<int>, k: nat)
    requires k < |t|
    ensures Number(r, t[k..]) == t[k] + r * Number(r, t[k + 1..])
  {
    assert t[k..][1..] == t[k + 1..];
  }

  lemma EightDigits(r: nat, t: seq<int>)
    requires |t| == 8
    ensures Number(r, t) == t[0] + r * (t[1] + r * (t[2] + r * (t[3] + r * (t[4] + r * (t[5] + r * (t[6] + r * t[7]))))))
  {
    hide Number;
    NumberFrom(r, t, 0);
    NumberFrom(r, t, 1);
    NumberFrom(r, t, 2);
    NumberFrom(r, t, 3);
    assert t[4..] == [t[4], t[5], t[6], t[7]] && t[0..] == t;
    Four(r, t[4], t[5], t[6], t[7]);
  }

  lemma ThirteenBytes(b: seq<int>)
    requires |b| == 13
    ensures Number(0x100, b) == b[0] + 0x100 * (b[1] + 0x100 * (b[2] + 0x100 * (b[3] + 0x100 * (b[4] + 0x100 * (b[5] + 0x100 * (b[6]
              + 0x100 * (b[7] + 0x100 * (b[8] + 0x100 * (b[9] + 0x100 * (b[10] + 0x100 * (b[11] + 0x100 * b[12])))))))))))
  {
    hide Number;
    NumberFrom(0x100, b, 0);
    NumberFrom(0x100, b, 1);
    NumberFrom(0x100, b, 2);
    NumberFrom(0x100, b, 3);
    NumberFrom(0x100, b, 4);
    assert b[0..] == b;
    EightDigits(0x100, b[5..]);
  }

  lemma Thirteen(t: seq<nat>, b: seq<Byte>)
    requires |t| == 8 && |b| == 13 && Shares13(t, b)
    ensures Encodes(b, 8192, t)
  {
    hide Number, Pow;
    ThirteenBytes(b);
    EightDigits(8192, t);
    ThirteenPower();
    SameSum(t, b);
  }

  lemma SameSum(t: seq<int>, b: seq<int>)
    requires |t| == 8 && |b| == 13 && Shares13(t, b)
    ensures t[0] + 8192 * (t[1] + 8192 * (t[2] + 8192 * (t[3] + 8192 * (t[4] + 8192 * (t[5] + 8192 * (t[6] + 8192 * t[7]))))))
         == b[0] + 0x100 * (b[1] + 0x100 * (b[2] + 0x100 * (b[3] + 0x100 * (b[4] + 0x100 * (b[5] + 0x100 * (b[6]
              + 0x100 * (b[7] + 0x100 * (b[8] + 0x100 * (b[9] + 0x100 * (b[10] + 0x100 * (b[11] + 0x100 * b[12])))))))))))
  {
  }

  lemma ThirteenPower()
    ensures Pow(0x100, 13) == Pow(8192, 8)
  {
    assert Pow(0x100, 6) == 0x1_0000_0000_0000;
    assert Pow(0x100, 7) == 0x100_0000_0000_0000;
    PowAdd(0x100, 6, 7);
    assert Pow(8192, 4) == 0x10_0000_0000_0000;
    PowAdd(8192, 4, 4);
  }

  lemma Pack13Encodes(t: seq<nat>)
    requires |t| == 8 && Below(8192, t)
    ensures Encodes(Pack13(t), 8192, t)
  {
    hide Encodes, Mixed;
    var b := Pack13(t);
    SplitDigits(t, b);
    Thirteen(t, b);
  }

  lemma SplitDigits(t: seq<nat>, b: seq<Byte>)
    requires |t| == 8 && |b| == 13 && Below(8192, t)
    requires b[0] == t[0] % 0x100 && b[1] % 0x20 == t[0] / 0x100 && b[1] / 0x20 == t[1] % 8 && b[2] == t[1] / 8 % 0x100
    requires b[3] % 4 == t[1] / 0x800 && b[3] / 4 == t[2] % 0x40 && b[4] % 0x80 == t[2] / 0x40 && b[4] / 0x80 == t[3] % 2
    requires b[5] == t[3] / 2 % 0x100 && b[6] % 0x10 == t[3] / 0x200 && b[6] / 0x10 == t[4] % 0x10 && b[7] == t[4] / 0x10 % 0x100
    requires b[8] % 2 == t[4] / 0x1000 && b[8] / 2 == t[5] % 0x80 && b[9] % 0x40 == t[5] / 0x80 && b[9] / 0x40 == t[6] % 4
    requires b[10] == t[6] / 4 % 0x100 && b[11] % 8 == t[6] / 0x400 && b[11] / 8 == t[7] % 0x20 && b[12] == t[7] / 0x20
    ensures Shares13(t, b)
  {
  }

  lemma Unpack13Encodes(b: seq<Byte>)
    requires |b| == 13
    ensures Below(8192, Unpack13(b)) && Encodes(b, 8192, Unpack13(b))
  {
    hide Encodes, Gather, Gather3;
    Thirteen(Unpack13(b), b);
  }
}
