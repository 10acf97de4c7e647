/** Residues modulo q, for any positive modulus q.

    Rem is the remainder by repeated subtraction. It equals Dafny's % (RemIsMod); defining it by
    recursion keeps division by a variable out of every proof that only needs the ring laws below. */
module ModArith {

  function Rem(q: int, x: int): (r: int)
    requires q > 0
    ensures 0 <= r < q
  {
    Subtracted(q, x)
  }

  function Subtracted(q: int, x: int): (r: int)
    requires q > 0
    ensures 0 <= r < q
    decreases x < 0, if x < 0 then -x else x
  {
    if x < 0 then Subtracted(q, x + q) else if x < q then x else Subtracted(q, x - q)
  }

  lemma {:induction false} RemQuotient(q: int, x: int) returns (k: int)
    requires q > 0
    ensures x == k * q + Rem(q, x)
    decreases x < 0, if x < 0 then -x else x
  {
    if x < 0 {
      var m := RemQuotient(q, x + q);
      k := m - 1;
      Distribute(m, -1, q);
    } else if x < q {
      k := 0;
    } else {
      var m := RemQuotient(q, x - q);
      k := m + 1;
      Distribute(m, 1, q);
    }
  }

  lemma Distribute(a: int, b: int, q: int)
    ensures (a + b) * q == a * q + b * q
  {
  }

  /** Quotient and remainder are unique. */
  lemma DivisionUnique(q: int, k: int, r: int, d: int, m: int)
    requires q > 0 && 0 <= r < q && 0 <= m < q && k * q + r == d * q + m
    ensures k == d && r == m
  {
    assert (d - k) * q == r - m;
    assert d - k >= 1 ==> (d - k) * q >= q;
    assert d - k <= -1 ==> (d - k) * q <= -q;
  }

  lemma RemUnique(q: int, x: int, k: int, r: int)
    requires q > 0 && 0 <= r < q && x == k * q + r
    ensures Rem(q, x) == r
  {
    var d := RemQuotient(q, x);
    DivisionUnique(q, k, r, d, Rem(q, x));
  }

  lemma RemIsMod(q: int, x: int)
    requires q > 0
    ensures Rem(q, x) == x % q
  {
    assert x == (x / q) * q + x % q;
    RemUnique(q, x, x / q, x % q);
  }

  lemma RemShift(q: int, x: int, k: int)
    requires q > 0
    ensures Rem(q, x + k * q) == Rem(q, x)
  {
    var d := RemQuotient(q, x);
    assert x + k * q == (d + k) * q + Rem(q, x);
    RemUnique(q, x + k * q, d + k, Rem(q, x));
  }

  lemma RemRem(q: int, x: int)
    requires q > 0
    ensures Rem(q, Rem(q, x)) == Rem(q, x)
  {
  }

  /** Equal residues differ by a multiple of q. */
  lemma RemDiffer(q: int, a: int, b: int) returns (k: int)
    requires q > 0 && Rem(q, a) == Rem(q, b)
    ensures a == b + k * q
  {
    var m := RemQuotient(q, a);
    var n := RemQuotient(q, b);
    k := m - n;
    assert (m - n) * q == m * q - n * q;
  }

  lemma RemAdd(q: int, a: int, b: int, c: int, d: int)
    requires q > 0 && Rem(q, a) == Rem(q, b) && Rem(q, c) == Rem(q, d)
    ensures Rem(q, a + c) == Rem(q, b + d)
  {
    var k := RemDiffer(q, a, b);
    var m := RemDiffer(q, c, d);
    assert a + c == (b + d) + (k + m) * q;
    RemShift(q, b + d, k + m);
  }

  lemma RemSub(q: int, a: int, b: int, c: int, d: int)
    requires q > 0 && Rem(q, a) == Rem(q, b) && Rem(q, c) == Rem(q, d)
    ensures Rem(q, a - c) == Rem(q, b - d)
  {
    var k := RemDiffer(q, a, b);
    var m := RemDiffer(q, c, d);
    assert a - c == (b - d) + (k - m) * q;
    RemShift(q, b - d, k - m);
  }

  lemma RemMul(q: int, a: int, b: int, c: int, d: int)
    requires q > 0 && Rem(q, a) == Rem(q, b) && Rem(q, c) == Rem(q, d)
    ensures Rem(q, a * c) == Rem(q, b * d)
  {
    var k := RemDiffer(q, a, b);
    var m := RemDiffer(q, c, d);
    MulExpand(b, k, d, m, q);
    RemShift(q, b * d, b * m + k * d + k * (m * q));
  }

  lemma MulExpand(b: int, k: int, d: int, m: int, q: int)
    ensures (b + k * q) * (d + m * q) == b * d + (b * m + k * d + k * (m * q)) * q
  {
    calc {
      (b + k * q) * (d + m * q);
      b * d + b * (m * q) + (k * q) * d + (k * q) * (m * q);
      { assert (k * q) * (m * q) == (k * (m * q)) * q; }
      b * d + (b * m) * q + (k * d) * q + (k * (m * q)) * q;
      b * d + (b * m + k * d + k * (m * q)) * q;
    }
  }

  /** Residues of sums, scaled. */
  lemma RemAddMul(q: int, a: int, b: int, c: int, d: int, r: int)
    requires q > 0 && Rem(q, a) == Rem(q, b) && Rem(q, c) == Rem(q, d)
    ensures Rem(q, (a + c) * r) == Rem(q, (b + d) * r)
  {
    hide Rem;
    RemAdd(q, a, b, c, d);
    RemMul(q, a + c, b + d, r, r);
  }
}
