/** The field GF(2^128) of section 6.3 of NIST SP 800-38D: polynomials over GF(2), coefficient of x^i at index i. */
module Gf128 {

  type Poly = seq<bool>

  function Sum(a: Poly, b: Poly): (c: Poly)
    requires |a| == |b|
    ensures |c| == |a|
  {
    seq(|a|, (i: nat) requires i < |a| => a[i] != b[i])
  }

  function Zeros(n: nat): (c: Poly)
    ensures |c| == n
  {
    seq(n, i => false)
  }

  /** Coefficient k of the first n terms of x times y. */
  function Convolution(x: Poly, y: Poly, k: nat, n: nat): bool
    requires n <= |x|
  {
    if n == 0 then false
    else Convolution(x, y, k, n - 1) != (x[n - 1] && n - 1 <= k < n - 1 + |y| && y[k - (n - 1)])
  }

  /** The product of two polynomials of degree below 128, without reduction. */
  function Product(x: Poly, y: Poly): (c: Poly)
    requires |x| == |y| == 128
    ensures |c| == 255
  {
    PartialProduct(x, y, 128)
  }

  function PartialProduct(x: Poly, y: Poly, n: nat): (c: Poly)
    requires |x| == |y| == 128 && n <= 128
    ensures |c| == 255
  {
    seq(255, (k: nat) requires k < 255 => Convolution(x, y, k, n))
  }

  /** x^7 + x^2 + x + 1, what x^128 is replaced by. */
  predicate InTail(i: int) {
    i == 0 || i == 1 || i == 2 || i == 7
  }

  /** Replace the leading term of c, of degree at least 128, by its remainder. */
  function DropLeading(c: Poly): (d: Poly)
    requires |c| > 128
    ensures |d| == |c| - 1
  {
    var n := |c| - 1;
    seq(n, (i: nat) requires i < n => c[i] != (c[n] && InTail(i - (n - 128))))
  }

  /** x^128 + x^7 + x^2 + x + 1, times x^k. */
  function Modulus(k: nat): (c: Poly)
    ensures |c| == 129 + k
  {
    seq(129 + k, (i: nat) requires i < 129 + k => i in {k, k + 1, k + 2, k + 7, k + 128})
  }

  /** Each step adds the multiple of the field polynomial that cancels the leading term. */
  lemma DropLeadingIs(c: Poly)
    requires |c| > 128
    ensures DropLeading(c) + [false] == if c[|c| - 1] then Sum(c, Modulus(|c| - 129)) else c
  {
    var n := |c| - 1;
    forall i | 0 <= i <= n
      ensures (DropLeading(c) + [false])[i] == (c[i] != (c[n] && Modulus(n - 128)[i]))
    {
      assert i < n ==> (InTail(i - (n - 128)) <==> Modulus(n - 128)[i]);
    }
  }

  /** The remainder of the division by x^128 + x^7 + x^2 + x + 1. */
  function Remainder(c: Poly): (r: Poly)
    requires |c| >= 128
    ensures |r| == 128
    decreases |c|
  {
    if |c| == 128 then c else Remainder(DropLeading(c))
  }

  /** Multiplication in the field. */
  function Times(x: Poly, y: Poly): (z: Poly)
    requires |x| == |y| == 128
    ensures |z| == 128
  {
    Remainder(Product(x, y))
  }

  /** The shift register of the standard: multiply by x and reduce. */
  function TimesX(v: Poly): (w: Poly)
    requires |v| == 128
    ensures |w| == 128
  {
    seq(128, (i: nat) requires i < 128 => (i > 0 && v[i - 1]) != (v[127] && InTail(i)))
  }

  // ----- the remainder is linear -----

  lemma {:induction false} RemainderSum(a: Poly, b: Poly)
    requires |a| == |b| >= 128
    ensures Remainder(Sum(a, b)) == Sum(Remainder(a), Remainder(b))
    decreases |a|
  {
    if |a| > 128 {
      assert DropLeading(Sum(a, b)) == Sum(DropLeading(a), DropLeading(b));
      RemainderSum(DropLeading(a), DropLeading(b));
    }
  }

  lemma {:induction false} RemainderZeros(n: nat)
    requires n >= 128
    ensures Remainder(Zeros(n)) == Zeros(128)
  {
    if n > 128 {
      assert DropLeading(Zeros(n)) == Zeros(n - 1);
      RemainderZeros(n - 1);
    }
  }

  /** Multiplying by x commutes with taking the remainder. */
  lemma {:induction false} RemainderShift(c: Poly)
    requires |c| >= 128
    ensures Remainder([false] + c) == TimesX(Remainder(c))
    decreases |c|
  {
    if |c| == 128 {
      assert DropLeading([false] + c) == TimesX(c);
      assert Remainder(DropLeading([false] + c)) == DropLeading([false] + c);
    } else {
      var d, e := DropLeading([false] + c), [false] + DropLeading(c);
      forall i | 0 <= i < |c| ensures d[i] == e[i] {
        var s := [false] + c;
        assert s[|c|] == c[|c| - 1] && |s| == |c| + 1;
        assert d[i] == (s[i] != (s[|c|] && InTail(i - (|c| - 128))));
        if i > 0 {
          assert s[i] == c[i - 1];
          assert e[i] == DropLeading(c)[i - 1];
        }
      }
      assert d == e;
      RemainderShift(DropLeading(c));
    }
  }

  lemma RemainderHigh(c: Poly)
    requires |c| >= 128
    ensures Remainder(c + [false]) == Remainder(c)
  {
    assert DropLeading(c + [false]) == c;
  }

  // ----- the shift register computes the product -----

  /** x^n * y as a polynomial. */
  function Shifted(y: Poly, n: nat): (c: Poly)
    requires |y| == 128
    ensures |c| == n + 128
  {
    Zeros(n) + y
  }

  /** The register after n shifts. */
  function Register(y: Poly, n: nat): (v: Poly)
    requires |y| == 128
    ensures |v| == 128
  {
    if n == 0 then y else TimesX(Register(y, n - 1))
  }

  lemma {:induction false} RegisterIsPower(y: Poly, n: nat)
    requires |y| == 128
    ensures Register(y, n) == Remainder(Shifted(y, n))
  {
    if n == 0 {
      assert Shifted(y, 0) == y;
    } else {
      RegisterIsPower(y, n - 1);
      assert Shifted(y, n) == [false] + Shifted(y, n - 1);
      RemainderShift(Shifted(y, n - 1));
    }
  }

  lemma {:induction false} RemainderPadded(c: Poly, n: nat)
    requires |c| >= 128
    ensures Remainder(c + Zeros(n)) == Remainder(c)
  {
    if n == 0 {
      assert c + Zeros(0) == c;
    } else {
      assert c + Zeros(n) == (c + Zeros(n - 1)) + [false];
      RemainderHigh(c + Zeros(n - 1));
      RemainderPadded(c, n - 1);
    }
  }

  /** The accumulator after n bits of x. */
  function Accumulated(x: Poly, y: Poly, n: nat): (r: Poly)
    requires |x| == |y| == 128 && n <= 128
    ensures |r| == 128
  {
    if n == 0 then Zeros(128)
    else if x[n - 1] then Sum(Accumulated(x, y, n - 1), Register(y, n - 1))
    else Accumulated(x, y, n - 1)
  }

  lemma {:induction false} AccumulatedIsRemainder(x: Poly, y: Poly, n: nat)
    requires |x| == |y| == 128 && n <= 128
    ensures Accumulated(x, y, n) == Remainder(PartialProduct(x, y, n))
  {
    if n == 0 {
      assert PartialProduct(x, y, 0) == Zeros(255);
      RemainderZeros(255);
    } else {
      AccumulatedIsRemainder(x, y, n - 1);
      if x[n - 1] {
        var term := Shifted(y, n - 1) + Zeros(128 - n);
        assert PartialProduct(x, y, n) == Sum(PartialProduct(x, y, n - 1), term) by {
          forall k | 0 <= k < 255 ensures PartialProduct(x, y, n)[k] == (PartialProduct(x, y, n - 1)[k] != term[k]) {
            TermAt(y, n - 1, k);
          }
        }
        RemainderSum(PartialProduct(x, y, n - 1), term);
        RemainderPadded(Shifted(y, n - 1), 128 - n);
        RegisterIsPower(y, n - 1);
      } else {
        assert PartialProduct(x, y, n) == PartialProduct(x, y, n - 1);
      }
    }
  }

  lemma TermAt(y: Poly, n: nat, k: nat)
    requires |y| == 128 && n < 128 && k < 255
    ensures (Shifted(y, n) + Zeros(127 - n))[k] == (n <= k < n + 128 && y[k - n])
  {
  }

  lemma AccumulatedIsTimes(x: Poly, y: Poly)
    requires |x| == |y| == 128
    ensures Accumulated(x, y, 128) == Times(x, y)
  {
    AccumulatedIsRemainder(x, y, 128);
  }

  // ----- multiplication is linear in its first argument -----

  lemma {:induction false} ConvolutionSum(a: Poly, b: Poly, y: Poly, k: nat, n: nat)
    requires |a| == |b| && n <= |a|
    ensures Convolution(Sum(a, b), y, k, n) == (Convolution(a, y, k, n) != Convolution(b, y, k, n))
  {
    if n > 0 {
      ConvolutionSum(a, b, y, k, n - 1);
    }
  }

  lemma TimesSum(a: Poly, b: Poly, y: Poly)
    requires |a| == |b| == |y| == 128
    ensures Times(Sum(a, b), y) == Sum(Times(a, y), Times(b, y))
  {
    forall k | 0 <= k < 255 ensures Product(Sum(a, b), y)[k] == (Product(a, y)[k] != Product(b, y)[k]) {
      ConvolutionSum(a, b, y, k, 128);
    }
    assert Product(Sum(a, b), y) == Sum(Product(a, y), Product(b, y));
    RemainderSum(Product(a, y), Product(b, y));
  }
}
