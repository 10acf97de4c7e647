/** Little-endian numbers. An encoding packs digits of one radix into bytes: both strings are the same number. */
module Radix {
  import opened Bits

  function Pow(r: nat, n: nat): (p: nat)
    requires r > 0
    ensures p > 0
  {
    if n == 0 then 1 else PowPositive(r, Pow(r, n - 1)); r * Pow(r, n - 1)
  }

  lemma PowPositive(r: nat, p: nat)
    requires r > 0 && p > 0
    ensures r * p > 0
  {
  }

  lemma {:induction false} PowAdd(r: nat, m: nat, n: nat)
    requires r > 0
    ensures Pow(r, m + n) == Pow(r, m) * Pow(r, n)
  {
    if m > 0 {
      PowAdd(r, m - 1, n);
      MulAssociates(r, Pow(r, m - 1), Pow(r, n));
    }
  }

  lemma MulAssociates(a: int, b: int, c: int)
    ensures a * (b * c) == (a * b) * c
  {
  }

  predicate Below(r: nat, s: seq<int>) {
    forall i :: 0 <= i < |s| ==> 0 <= s[i] < r
  }

  /** The number that the digits s, least significant first, denote in radix r. */
  function Number(r: nat, s: seq<int>): int {
    if s == [] then 0 else s[0] + r * Number(r, s[1..])
  }

  /** The n low digits of x. */
  function Digits(r: nat, x: nat, n: nat): (s: seq<int>)
    requires r > 0
    ensures |s| == n && Below(r, s)
    decreases n
  {
    if n == 0 then [] else [x % r] + Digits(r, x / r, n - 1)
  }

  lemma {:induction false} NumberBound(r: nat, s: seq<int>)
    requires r > 0 && Below(r, s)
    ensures 0 <= Number(r, s) < Pow(r, |s|)
  {
    if s != [] {
      NumberBound(r, s[1..]);
      LeadingBound(r, s[0], Number(r, s[1..]), Pow(r, |s| - 1));
    }
  }

  lemma LeadingBound(r: nat, d: int, x: int, p: int)
    requires 0 <= d < r && 0 <= x < p
    ensures 0 <= d + r * x < r * p
  {
    assert r * x <= r * (p - 1);
  }

  lemma {:induction false} NumberAppend(r: nat, s: seq<int>, t: seq<int>)
    requires r > 0
    ensures Number(r, s + t) == Number(r, s) + Pow(r, |s|) * Number(r, t)
  {
    if s == [] {
      assert s + t == t;
    } else {
      assert (s + t)[1..] == s[1..] + t;
      NumberAppend(r, s[1..], t);
      MulAssociates(r, Pow(r, |s| - 1), Number(r, t));
      Distributes(r, Number(r, s[1..]), Pow(r, |s| - 1) * Number(r, t));
    }
  }

  lemma Distributes(r: int, x: int, y: int)
    ensures r * (x + y) == r * x + r * y
  {
  }

  /** Digits are the only ones that denote their number. */
  lemma {:induction false} DigitsOfNumber(r: nat, s: seq<int>)
    requires r > 0 && Below(r, s)
    ensures Number(r, s) >= 0 && Digits(r, Number(r, s), |s|) == s
  {
    hide Pow;
    NumberBound(r, s);
    if s != [] {
      var x := Number(r, s[1..]);
      DigitsOfNumber(r, s[1..]);
      LastDigit(r, s[0], x);
      assert Digits(r, s[0] + r * x, |s|) == [s[0]] + Digits(r, x, |s| - 1);
      assert s == [s[0]] + s[1..];
    }
  }

  lemma LastDigit(r: nat, d: nat, x: int)
    requires d < r
    ensures (d + r * x) % r == d && (d + r * x) / r == x
  {
    assert r * x == x * r;
    DivUnique(d + r * x, r, x, d);
  }

  lemma NumberFirst(r: nat, d: int, s: seq<int>)
    ensures Number(r, [d] + s) == d + r * Number(r, s)
  {
    assert ([d] + s)[1..] == s;
  }

  lemma PositiveFactor(a: int, r: int)
    requires r > 0 && a * r > 0
    ensures a > 0
  {
  }

  lemma Quotient(r: nat, x: nat, y: nat, p: nat)
    requires r > 0 && x < r * p && y == x / r
    ensures y < p && x == x % r + r * y
  {
    assert y * r + x % r == x;
    assert (p - y) * r == r * p - y * r;
    PositiveFactor(p - y, r);
  }

  lemma {:induction false} NumberOfDigits(r: nat, x: nat, n: nat)
    requires r > 0 && x < Pow(r, n)
    ensures Number(r, Digits(r, x, n)) == x
    decreases n
  {
    if n > 0 {
      var y := x / r;
      Quotient(r, x, y, Pow(r, n - 1));
      NumberOfDigits(r, y, n - 1);
      NumberFirst(r, x % r, Digits(r, y, n - 1));
    }
  }

  /** The digit of x at a power of the radix: a shift and a mask. */
  function DigitAt(r: nat, x: nat, weight: nat): (d: nat)
    requires IsPowerOfTwo(r) && weight > 0
    ensures d < r
  {
    Low(Shift(x, weight), r)
  }

  function Shift(x: nat, weight: nat): (y: nat)
    requires weight > 0
  {
    x / weight
  }

  lemma {:induction false} DigitOf(r: nat, x: nat, j: nat, n: nat)
    requires r > 0 && IsPowerOfTwo(r) && j < n
    ensures Digits(r, x, n)[j] == DigitAt(r, x, Pow(r, j))
    decreases j
  {
    hide Low, DigitAt, Shift, IsPowerOfTwo;
    var y := Shift(x, r);
    DigitsStep(r, x, n);
    if j == 0 {
      FirstDigit(r, x);
    } else {
      DigitOf(r, y, j - 1, n - 1);
      ShiftShift(x, r, Pow(r, j - 1));
      assert DigitAt(r, y, Pow(r, j - 1)) == DigitAt(r, x, Pow(r, j)) by { DigitShift(r, x, Pow(r, j - 1)); }
    }
  }

  lemma DigitsStep(r: nat, x: nat, n: nat)
    requires r > 0 && n > 0
    ensures Digits(r, x, n) == [x % r] + Digits(r, Shift(x, r), n - 1)
  {
  }

  lemma FirstDigit(r: nat, x: nat)
    requires IsPowerOfTwo(r)
    ensures DigitAt(r, x, 1) == x % r
  {
    hide IsPowerOfTwo;
  }

  lemma DigitShift(r: nat, x: nat, weight: nat)
    requires r > 0 && IsPowerOfTwo(r) && weight > 0
    ensures r * weight > 0 && DigitAt(r, Shift(x, r), weight) == DigitAt(r, x, r * weight)
  {
    hide IsPowerOfTwo, Shift;
    ShiftShift(x, r, weight);
  }

  lemma ShiftShift(x: nat, r: nat, weight: nat)
    requires r > 0 && weight > 0
    ensures r * weight > 0 && Shift(Shift(x, r), weight) == Shift(x, r * weight)
  {
    QuotientOfQuotient(x, r, weight);
  }

  lemma QuotientOfQuotient(x: nat, r: nat, p: nat)
    requires p > 0 && r > 0
    ensures r * p > 0 && (x / r) / p == x / (r * p)
  {
    var y := x / r;
    var q, m := y / p, y % p;
    assert y == q * p + m;
    assert x == y * r + x % r;
    Regroup(q, p, m, r);
    RemainderFits(r, p, m, x % r);
    DivUnique(x, r * p, q, m * r + x % r);
  }

  lemma Regroup(q: int, p: int, m: int, r: int)
    ensures (q * p + m) * r == q * (r * p) + m * r
  {
    MulAssociates(q, p, r);
    assert p * r == r * p;
  }

  lemma RemainderFits(r: nat, p: nat, m: nat, k: nat)
    requires m < p && k < r
    ensures 0 <= m * r + k < r * p
  {
    assert (m + 1) * r <= p * r;
  }

  // ----- encodings -----

  /** The bytes b and the digits a in radix r denote the same number, with the same number of possible values. */
  ghost predicate Encodes(b: seq<Byte>, r: nat, a: seq<int>) {
    && r > 0
    && Number(0x100, b) == Number(r, a)
    && Pow(0x100, |b|) == Pow(r, |a|)
  }

  lemma EncodesNothing(r: nat)
    requires r > 0
    ensures Encodes([], r, [])
  {
  }

  /** Encodings join group by group. */
  lemma EncodesAppend(b: seq<Byte>, c: seq<Byte>, r: nat, a: seq<int>, d: seq<int>)
    requires Encodes(b, r, a) && Encodes(c, r, d)
    ensures Encodes(b + c, r, a + d)
  {
    NumberAppend(0x100, b, c);
    NumberAppend(r, a, d);
    PowAdd(0x100, |b|, |c|);
    PowAdd(r, |a|, |d|);
  }

  /** The n bytes that encode the digits a. */
  function Encode(r: nat, a: seq<int>, n: nat): (b: seq<Byte>)
    requires r > 0 && Below(r, a)
    ensures |b| == n
  {
    NumberBound(r, a);
    Digits(0x100, Number(r, a), n)
  }

  /** The n digits that the bytes b encode. */
  function Decode(r: nat, b: seq<Byte>, n: nat): (a: seq<int>)
    requires r > 0
    ensures |a| == n && Below(r, a)
  {
    NumberBound(0x100, b);
    Digits(r, Number(0x100, b), n)
  }

  /** An encoding determines its bytes and its digits. */
  lemma EncodesUnique(b: seq<Byte>, r: nat, a: seq<int>)
    requires Encodes(b, r, a) && Below(r, a)
    ensures b == Encode(r, a, |b|) && a == Decode(r, b, |a|)
  {
    DigitsOfNumber(0x100, b);
    DigitsOfNumber(r, a);
  }

  /** There are as many strings of n bytes as of k digits. */
  ghost predicate EquallyMany(n: nat, r: nat, k: nat)
    requires r > 0
  {
    Pow(0x100, n) == Pow(r, k)
  }

  /** Decoding undoes encoding, and encoding undoes decoding, when both sides have equally many values. */
  lemma DecodeEncode(r: nat, a: seq<int>, n: nat)
    requires r > 0 && Below(r, a) && EquallyMany(n, r, |a|)
    ensures Decode(r, Encode(r, a, n), |a|) == a
  {
    NumberBound(r, a);
    NumberOfDigits(0x100, Number(r, a), n);
    DigitsOfNumber(r, a);
  }

  lemma EncodeDecode(r: nat, b: seq<Byte>, n: nat)
    requires r > 0 && EquallyMany(|b|, r, n)
    ensures Encode(r, Decode(r, b, n), |b|) == b
  {
    NumberBound(0x100, b);
    NumberOfDigits(r, Number(0x100, b), n);
    DigitsOfNumber(0x100, b);
  }

  // ----- short numbers, by Horner's rule -----

  lemma Two(r: nat, a: int, b: int)
    ensures Number(r, [a]) == a && Number(r, [a, b]) == a + r * b
  {
    assert [a, b][1..] == [b] && [b][1..] == [] && [a][1..] == [];
  }

  lemma Three(r: nat, a: int, b: int, c: int)
    ensures Number(r, [a, b, c]) == a + r * (b + r * c)
  {
    assert [a, b, c][1..] == [b, c];
    Two(r, b, c);
  }

  lemma Four(r: nat, a: int, b: int, c: int, d: int)
    ensures Number(r, [a, b, c, d]) == a + r * (b + r * (c + r * d))
  {
    assert [a, b, c, d][1..] == [b, c, d];
    Three(r, b, c, d);
  }

  lemma Five(r: nat, a: int, b: int, c: int, d: int, e: int)
    ensures Number(r, [a, b, c, d, e]) == a + r * (b + r * (c + r * (d + r * e)))
  {
    assert [a, b, c, d, e][1..] == [b, c, d, e];
    Four(r, b, c, d, e);
  }

  /** Radices with a common power. */
  lemma {:induction false} PowPower(r: nat, m: nat, s: nat, n: nat, k: nat)
    requires r > 0 && s > 0 && Pow(r, m) == Pow(s, n)
    ensures Pow(r, m * k) == Pow(s, n * k)
    decreases k
  {
    if k == 0 {
    } else {
      PowPower(r, m, s, n, k - 1);
      PowAdd(r, m * (k - 1), m);
      PowAdd(s, n * (k - 1), n);
      assert m * k == m * (k - 1) + m && n * k == n * (k - 1) + n;
    }
  }

  // ----- cutting numbers -----

  /** Cutting a number to m * k cuts its high part to k. */
  lemma CutHigh(x: nat, h: nat, m: nat, k: nat)
    requires x < m && k > 0
    ensures m * k > 0 && (x + h * m) % (m * k) == x + m * (h % k) < m * k
  {
    var q, r := h / k, h % k;
    assert h == q * k + r;
    assert (r + 1) * m <= k * m;
    CutParts(x, q, r, m, k);
    DivUnique(x + h * m, m * k, q, x + m * r);
  }

  lemma CutParts(x: int, q: int, r: int, m: int, k: int)
    ensures x + (q * k + r) * m == q * (m * k) + (x + m * r)
  {
    assert (q * k) * m == q * (m * k);
  }

  lemma ModOfMod(x: int, n: nat, k: nat)
    requires n > 0 && k > 0
    ensures n * k > 0 && (x % (n * k)) % n == x % n
  {
    var q, r := x / (n * k), x % (n * k);
    assert x == q * (n * k) + r;
    var i, j := r / n, r % n;
    assert r == i * n + j;
    assert x == (q * k + i) * n + j by { CutAgain(q, n, k, i); }
    DivUnique(x, n, q * k + i, j);
  }

  lemma CutAgain(q: int, n: int, k: int, i: int)
    ensures (q * k + i) * n == q * (n * k) + i * n
  {
    assert (q * k) * n == q * (n * k);
  }

  /** A byte made of the high part of one digit and the low part of the next. */
  lemma SharedByte(lo: nat, y: nat, m: nat, k: nat)
    requires lo < m && m * k == 0x100 && k > 0
    ensures var b := (lo + y * m) % 0x100; b % m == lo && b / m == y % k
  {
    var q, r := y / k, y % k;
    assert y == q * k + r;
    Rearranged(lo, q, r, k, m);
    LowerPart(lo, r, k, m);
    DivUnique(lo + y * m, 0x100, q, lo + r * m);
    DivUnique(lo + r * m, m, r, lo);
  }

  lemma Rearranged(q: int, hi: int, lo: int, k: int, m: int)
    requires m * k == 0x100
    ensures q + (hi * k + lo) * m == hi * 0x100 + (q + lo * m)
  {
    assert (hi * k) * m == hi * (m * k);
  }

  lemma LowerPart(q: nat, lo: nat, k: nat, m: nat)
    requires q < m && lo < k && m * k == 0x100
    ensures 0 <= q + lo * m < 0x100
  {
    assert (lo + 1) * m <= k * m;
  }

  // ----- loads -----

  /** The little-endian load of four bytes. */
  function Load32(b: seq<Byte>): (t: nat)
    requires |b| == 4
    ensures t == Number(0x100, b) < 0x1_0000_0000
  {
    Four(0x100, b[0], b[1], b[2], b[3]);
    assert b == [b[0], b[1], b[2], b[3]];
    Join(Join(Join(b[0], b[1], 0x100), b[2], 0x1_0000), b[3], 0x100_0000)
  }
}
