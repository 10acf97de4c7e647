/** Bitwise operators on natural numbers, and the cases in which they are arithmetic. */
module Bits {
  type Byte = b: int | 0 <= b < 0x100

  function And(a: nat, b: nat): (c: nat)
    ensures c <= a && c <= b
    decreases a
  {
    if a == 0 || b == 0 then 0 else 2 * And(a / 2, b / 2) + (if a % 2 == 1 && b % 2 == 1 then 1 else 0)
  }

  function Or(a: nat, b: nat): (c: nat)
    ensures a <= c && b <= c && c <= a + b
    decreases a + b
  {
    if a == 0 then b else if b == 0 then a
    else 2 * Or(a / 2, b / 2) + (if a % 2 == 1 || b % 2 == 1 then 1 else 0)
  }

  function Xor(a: nat, b: nat): (c: nat)
    ensures c <= a + b
    decreases a + b
  {
    if a == 0 then b else if b == 0 then a
    else 2 * Xor(a / 2, b / 2) + (if a % 2 != b % 2 then 1 else 0)
  }

  predicate IsPowerOfTwo(n: nat) {
    n == 1 || (n > 1 && n % 2 == 0 && IsPowerOfTwo(n / 2))
  }

  lemma AndStep(a: nat, b: nat)
    ensures And(a, b) == 2 * And(a / 2, b / 2) + (if a % 2 == 1 && b % 2 == 1 then 1 else 0)
  {
  }

  lemma {:induction false} PowerProduct(m: nat, n: nat)
    requires IsPowerOfTwo(m) && IsPowerOfTwo(n)
    ensures m * n >= 0 && IsPowerOfTwo(m * n)
    decreases m
  {
    if m > 1 {
      var h := m / 2;
      PowerProduct(h, n);
      Doubled(m, h, n);
      assert (m * n) / 2 == h * n && (m * n) % 2 == 0;
    } else {
      assert m * n == n;
    }
  }

  /** The low bits. */
  lemma {:induction false} AndLow(a: nat, n: nat)
    requires IsPowerOfTwo(n)
    ensures And(a, n - 1) == a % n
    decreases n
  {
    hide And;
    if n == 1 {
      assert And(a, 0) == 0;
    } else {
      var h := n / 2;
      AndLow(a / 2, h);
      AndStep(a, n - 1);
      assert (n - 1) / 2 == h - 1 && (n - 1) % 2 == 1;
      HalfRemainder(a, h);
      assert And(a, n - 1) == 2 * ((a / 2) % h) + a % 2;
    }
  }

  /** And works on the low and the high part of a number separately. */
  lemma {:induction false} AndSplit(a: nat, b: nat, c: nat, d: nat, n: nat)
    requires IsPowerOfTwo(n) && a < n && c < n
    ensures n * b >= 0 && n * d >= 0 && And(a + n * b, c + n * d) == And(a, c) + n * And(b, d)
    decreases n
  {
    hide And;
    if n == 1 {
      assert And(0, 0) == 0 by { AndStep(0, 0); }
    } else {
      var h := n / 2;
      var x, y, z := h * b, h * d, h * And(b, d);
      assert n * b == 2 * x && n * d == 2 * y && n * And(b, d) == 2 * z by { Doubled(n, h, b); Doubled(n, h, d); Doubled(n, h, And(b, d)); }
      AndSplit(a / 2, b, c / 2, d, h);
      AndStep(a + 2 * x, c + 2 * y);
      AndStep(a, c);
      assert (a + 2 * x) / 2 == a / 2 + x && (c + 2 * y) / 2 == c / 2 + y;
    }
  }

  lemma Doubled(n: nat, h: nat, b: nat)
    requires n == 2 * h
    ensures n * b == 2 * (h * b) >= 0
  {
  }

  lemma HalfRemainder(a: nat, h: nat)
    requires h > 0
    ensures a % (2 * h) == 2 * ((a / 2) % h) + a % 2
  {
    var q, r := (a / 2) / h, (a / 2) % h;
    assert a / 2 == q * h + r;
    assert a == q * (2 * h) + (2 * r + a % 2);
    DivUnique(a, 2 * h, q, 2 * r + a % 2);
  }

  lemma DivUnique(a: int, n: int, q: int, r: int)
    requires n > 0 && a == q * n + r && 0 <= r < n
    ensures a / n == q && a % n == r
  {
    var d := a / n - q;
    assert a == (a / n) * n + a % n;
    assert d * n == r - a % n;
    assert d >= 1 ==> d * n >= n;
    assert d <= -1 ==> d * n <= -n;
  }

  /** A number and a multiple of a power of two above it share no bits. */
  lemma {:induction false} OrDisjoint(a: nat, b: nat, n: nat)
    requires IsPowerOfTwo(n) && a < n
    ensures b * n >= 0 && Or(a, b * n) == a + b * n
    decreases n
  {
    if n > 1 && a > 0 && b > 0 {
      var h := n / 2;
      OrDisjoint(a / 2, b, h);
      assert b * n == 2 * (b * h);
    }
  }

  lemma {:induction false} OrCommutes(a: nat, b: nat)
    ensures Or(a, b) == Or(b, a)
    decreases a + b
  {
    if a > 0 && b > 0 {
      OrCommutes(a / 2, b / 2);
    }
  }

  lemma {:induction false} XorSelf(a: nat)
    ensures Xor(a, a) == 0
  {
    if a > 0 {
      XorSelf(a / 2);
    }
  }

  /** Exclusive or is zero only on equal numbers. */
  lemma {:induction false} XorZero(a: nat, b: nat)
    ensures Xor(a, b) == 0 <==> a == b
    decreases a + b
  {
    if a > 0 && b > 0 {
      XorZero(a / 2, b / 2);
    }
  }

  /** Exclusive or undoes itself. */
  lemma {:induction false} XorTwice(a: nat, b: nat)
    ensures Xor(Xor(a, b), b) == a
    decreases a + b
  {
    if a == 0 {
      XorSelf(b);
    } else if b > 0 {
      XorTwice(a / 2, b / 2);
      hide Xor;
      var c := Xor(a, b);
      XorStep(a, b);
      XorStep(c, b);
      assert c / 2 == Xor(a / 2, b / 2) && (c % 2 == 1 <==> a % 2 != b % 2);
    }
  }

  lemma XorStep(a: nat, b: nat)
    ensures Xor(a, b) == 2 * Xor(a / 2, b / 2) + (if a % 2 != b % 2 then 1 else 0)
  {
  }

  lemma {:induction false} OrZero(a: nat, b: nat)
    ensures Or(a, b) == 0 <==> a == 0 && b == 0
  {
  }

  /** Bitwise operators stay below a power of two. */
  lemma {:induction false} Bounded(a: nat, b: nat, n: nat)
    requires IsPowerOfTwo(n) && a < n && b < n
    ensures Or(a, b) < n && Xor(a, b) < n
    decreases n
  {
    if n > 1 {
      Bounded(a / 2, b / 2, n / 2);
    }
  }

  // ----- the idioms of packing code -----

  /** lo | (hi << k) where n is 1 << k and lo needs at most k bits. */
  function Join(lo: nat, hi: nat, n: nat): (c: nat)
    requires IsPowerOfTwo(n) && lo < n
    ensures c == lo + hi * n
  {
    OrDisjoint(lo, hi, n);
    Or(lo, hi * n)
  }

  /** a & (n - 1) where n is a power of two. */
  function Low(a: nat, n: nat): (c: nat)
    requires IsPowerOfTwo(n)
    ensures c == a % n
  {
    AndLow(a, n);
    And(a, n - 1)
  }

  /** Divisors of a power of two are powers of two. */
  lemma {:induction false} PowerDivides(m: nat, k: nat, n: nat)
    requires IsPowerOfTwo(n) && m * k == n
    ensures IsPowerOfTwo(m)
    decreases n
  {
    if n == 1 {
      assert m == 1 by { OneFactor(m, k); }
    } else if m % 2 == 0 {
      HalfFactor(m, k, n);
      PowerDivides(m / 2, k, n / 2);
      assert m > 0;
    } else {
      OddFactor(m, k, n);
      PowerDivides(m, k / 2, n / 2);
    }
  }

  lemma OneFactor(m: nat, k: nat)
    requires m * k == 1
    ensures m == 1
  {
    assert k >= 1 ==> m * k >= m;
    assert k == 0 ==> m * k == 0;
  }

  lemma HalfFactor(m: nat, k: nat, n: nat)
    requires m * k == n && m % 2 == 0
    ensures (m / 2) * k == n / 2 && (n > 0 ==> m > 0)
  {
    assert (2 * (m / 2)) * k == 2 * ((m / 2) * k);
  }

  lemma OddFactor(m: nat, k: nat, n: nat)
    requires m * k == n && m % 2 == 1 && n % 2 == 0
    ensures m * (k / 2) == n / 2
  {
    var i := k / 2;
    assert m * (2 * i) == 2 * (m * i);
    assert m * (2 * i + 1) == m * (2 * i) + m;
  }

  /** The widths that shifts and masks of the program use. */
  lemma Powers()
    ensures IsPowerOfTwo(2) && IsPowerOfTwo(4) && IsPowerOfTwo(8) && IsPowerOfTwo(0x10) && IsPowerOfTwo(0x20)
    ensures IsPowerOfTwo(0x40) && IsPowerOfTwo(0x80) && IsPowerOfTwo(0x100) && IsPowerOfTwo(0x400)
    ensures IsPowerOfTwo(0x1000) && IsPowerOfTwo(0x2000) && IsPowerOfTwo(0x4000) && IsPowerOfTwo(0x1_0000)
    ensures IsPowerOfTwo(0x4_0000) && IsPowerOfTwo(0x10_0000) && IsPowerOfTwo(0x400_0000)
  {
    hide IsPowerOfTwo;
    OneIsPower();
    Twice(1);
    Twice(2);
    Twice(4);
    Twice(8);
    Twice(0x10);
    Twice(0x20);
    Twice(0x40);
    Twice(0x80);
    Twice(0x100);
    Twice(0x200);
    Twice(0x400);
    Twice(0x800);
    Twice(0x1000);
    Twice(0x2000);
    Twice(0x4000);
    Twice(0x8000);
    Twice(0x10000);
    Twice(0x20000);
    Twice(0x40000);
    Twice(0x80000);
    Twice(0x100000);
    Twice(0x200000);
    Twice(0x400000);
    Twice(0x800000);
    Twice(0x1000000);
    Twice(0x2000000);
  }

  lemma OneIsPower()
    ensures IsPowerOfTwo(1)
  {
  }

  lemma Twice(n: nat)
    requires IsPowerOfTwo(n)
    ensures IsPowerOfTwo(2 * n)
  {
    assert (2 * n) / 2 == n;
  }

  lemma ByteIsPower()
    ensures IsPowerOfTwo(0x100)
  {
  }

  lemma WordIsPower()
    ensures IsPowerOfTwo(0x1_0000_0000)
  {
    PowerProduct(0x100, 0x100);
    PowerProduct(0x1_0000, 0x1_0000);
  }

  // ----- code without branches -----

  lemma AndAll(a: nat, n: nat)
    requires IsPowerOfTwo(n) && a < n
    ensures And(a, n - 1) == a && And(a, 0) == 0
  {
    AndLow(a, n);
    DivUnique(a, n, 0, a);
  }

  lemma OrNothing(a: nat)
    ensures Or(a, 0) == a && Or(0, a) == a
  {
  }

  /** A mask of all zeros or all ones chooses a number: (a & ~mask) | (b & mask). */
  function Chosen(a: nat, b: nat, mask: nat, n: nat): (c: nat)
    requires IsPowerOfTwo(n) && a < n && b < n && (mask == 0 || mask == n - 1)
    ensures c == if mask == 0 then a else b
  {
    AndAll(a, n);
    AndAll(b, n);
    OrNothing(a);
    OrNothing(b);
    Or(And(a, n - 1 - mask), And(b, mask))
  }

  function ChosenByte(a: Byte, b: Byte, mask: nat): (c: Byte)
    requires mask == 0 || mask == 0xff
    ensures c == if mask == 0 then a else b
  {
    ByteIsPower();
    Chosen(a, b, mask, 0x100)
  }

  function ChosenWord(a: nat, b: nat, mask: nat): (c: nat)
    requires a < 0x1_0000_0000 && b < 0x1_0000_0000 && (mask == 0 || mask == 0xffff_ffff)
    ensures c == if mask == 0 then a else b
  {
    WordIsPower();
    Chosen(a, b, mask, 0x1_0000_0000)
  }

  /** The differences of two strings or-ed together byte by byte: zero only when there are none. */
  method Differences(x: seq<Byte>, y: seq<Byte>) returns (d: Byte)
    requires |x| == |y|
    ensures d == 0 <==> x == y
  {
    hide Or, Xor, IsPowerOfTwo;
    d := 0;
    var i := 0;
    while i < |x|
      invariant 0 <= i <= |x|
      invariant d == 0 <==> x[..i] == y[..i]
    {
      ByteIsPower();
      Bounded(x[i], y[i], 0x100);
      Bounded(d, Xor(x[i], y[i]), 0x100);
      XorZero(x[i], y[i]);
      OrZero(d, Xor(x[i], y[i]));
      assert x[..i + 1] == x[..i] + [x[i]] && y[..i + 1] == y[..i] + [y[i]];
      d := Or(d, Xor(x[i], y[i]));
      i := i + 1;
    }
    assert x[..|x|] == x && y[..|y|] == y;
  }
}
