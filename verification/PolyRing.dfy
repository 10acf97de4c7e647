/** The ring Z_q[X]/(X^256+1) on vectors of residues, for any modulus q: its operations and the laws of its sums. */
module PolyRing {
  import opened ModArith
  import opened NttTheory
  import opened RingProduct

  /** 256 residues: a ring element, or the transform of one. */
  predicate IsPoly(q: int, a: seq<int>)
    requires q > 0
  {
    |a| == 256 && Canon(q, a) == a
  }

  function Zero(q: int): (z: seq<int>)
    requires q > 0
    ensures |z| == 256 && IsPoly(q, z)
  {
    var z := seq(256, (p: nat) requires p < 256 => 0);
    assert Canon(q, z) == z;
    z
  }

  function Add(q: int, a: seq<int>, b: seq<int>): (c: seq<int>)
    requires q > 0 && |a| == |b| == 256
    ensures IsPoly(q, c)
  {
    var c := seq(256, (p: nat) requires p < 256 => Rem(q, a[p] + b[p]));
    assert Canon(q, c) == c;
    c
  }

  function Sub(q: int, a: seq<int>, b: seq<int>): (c: seq<int>)
    requires q > 0 && |a| == |b| == 256
    ensures IsPoly(q, c)
  {
    var c := seq(256, (p: nat) requires p < 256 => Rem(q, a[p] - b[p]));
    assert Canon(q, c) == c;
    c
  }

  /** The product of the ring. */
  function Mul(q: int, a: seq<int>, b: seq<int>): (c: seq<int>)
    requires q > 0 && |a| == |b| == 256
    ensures IsPoly(q, c)
  {
    CanonCanon(q, NegaMul(a, b));
    Canon(q, NegaMul(a, b))
  }

  lemma CanonCanon(q: int, c: seq<int>)
    requires q > 0
    ensures Canon(q, Canon(q, c)) == Canon(q, c)
  {
  }

  // ----- residues -----

  lemma SumResidue(q: int, x: int, y: int)
    requires q > 0
    ensures Rem(q, Rem(q, x) + Rem(q, y)) == Rem(q, x + y) && Rem(q, Rem(q, x) - Rem(q, y)) == Rem(q, x - y)
    ensures Rem(q, Rem(q, x) * Rem(q, y)) == Rem(q, x * y)
  {
    hide Rem;
    RemRem(q, x);
    RemRem(q, y);
    RemAdd(q, Rem(q, x), x, Rem(q, y), y);
    RemSub(q, Rem(q, x), x, Rem(q, y), y);
    RemMul(q, Rem(q, x), x, Rem(q, y), y);
  }

  /** Operands may be replaced by their residues. */
  lemma AddCanon(q: int, a: seq<int>, b: seq<int>)
    requires q > 0 && |a| == |b| == 256
    ensures Add(q, Canon(q, a), Canon(q, b)) == Add(q, a, b) && Sub(q, Canon(q, a), Canon(q, b)) == Sub(q, a, b)
  {
    hide Rem;
    forall p | 0 <= p < 256
      ensures Rem(q, Rem(q, a[p]) + Rem(q, b[p])) == Rem(q, a[p] + b[p])
      ensures Rem(q, Rem(q, a[p]) - Rem(q, b[p])) == Rem(q, a[p] - b[p])
    {
      SumResidue(q, a[p], b[p]);
    }
  }

  lemma ScaleByOne(q: int, v: seq<int>)
    requires q > 0
    ensures Scale(q, 1, v) == Canon(q, v)
  {
    hide Rem;
  }

  lemma ScaleAdds(q: int, s: int, v: seq<int>, w: seq<int>)
    requires q > 0 && |v| == |w| == 256
    ensures Add(q, Scale(q, s, v), Scale(q, s, w)) == Scale(q, s, Add(q, v, w))
  {
    hide Rem;
    forall p | 0 <= p < 256
      ensures Rem(q, Rem(q, s * v[p]) + Rem(q, s * w[p])) == Rem(q, s * Rem(q, v[p] + w[p]))
    {
      SumResidue(q, s * v[p], s * w[p]);
      RemRem(q, v[p] + w[p]);
      RemMul(q, s, s, Rem(q, v[p] + w[p]), v[p] + w[p]);
      MulSum(s, v[p], w[p]);
    }
  }

  lemma ScaleSubs(q: int, s: int, v: seq<int>, w: seq<int>)
    requires q > 0 && |v| == |w| == 256
    ensures Sub(q, Scale(q, s, v), Scale(q, s, w)) == Scale(q, s, Sub(q, v, w))
  {
    hide Rem;
    forall p | 0 <= p < 256
      ensures Rem(q, Rem(q, s * v[p]) - Rem(q, s * w[p])) == Rem(q, s * Rem(q, v[p] - w[p]))
    {
      SumResidue(q, s * v[p], s * w[p]);
      RemRem(q, v[p] - w[p]);
      RemMul(q, s, s, Rem(q, v[p] - w[p]), v[p] - w[p]);
      MulSum(s, v[p], -w[p]);
      assert s * -w[p] == -(s * w[p]);
    }
  }

  lemma MulSum(x: int, y: int, z: int)
    ensures x * (y + z) == x * y + x * z
  {
  }

  // ----- the group laws -----

  lemma AddComm(q: int, a: seq<int>, b: seq<int>)
    requires q > 0 && |a| == |b| == 256
    ensures Add(q, a, b) == Add(q, b, a)
  {
    hide Rem;
  }

  lemma AddAssoc(q: int, a: seq<int>, b: seq<int>, c: seq<int>)
    requires q > 0 && |a| == |b| == |c| == 256
    ensures Add(q, Add(q, a, b), c) == Add(q, a, Add(q, b, c))
  {
    hide Rem;
    forall p | 0 <= p < 256
      ensures Rem(q, Rem(q, a[p] + b[p]) + c[p]) == Rem(q, a[p] + Rem(q, b[p] + c[p]))
    {
      RemRem(q, a[p] + b[p]);
      RemRem(q, b[p] + c[p]);
      RemAdd(q, Rem(q, a[p] + b[p]), a[p] + b[p], c[p], c[p]);
      RemAdd(q, a[p], a[p], Rem(q, b[p] + c[p]), b[p] + c[p]);
    }
  }

  lemma AddZero(q: int, a: seq<int>)
    requires q > 0 && |a| == 256
    ensures Add(q, Zero(q), a) == Canon(q, a) && Add(q, a, Zero(q)) == Canon(q, a)
  {
    hide Rem;
  }

  lemma AddSwap(q: int, a: seq<int>, b: seq<int>, c: seq<int>, d: seq<int>)
    requires q > 0 && |a| == |b| == |c| == |d| == 256
    ensures Add(q, Add(q, a, b), Add(q, c, d)) == Add(q, Add(q, a, c), Add(q, b, d))
  {
    hide Add;
    AddAssoc(q, Add(q, a, b), c, d);
    AddAssoc(q, a, b, c);
    AddComm(q, b, c);
    AddAssoc(q, a, c, b);
    AddAssoc(q, Add(q, a, c), b, d);
  }

  lemma MulZero(q: int, b: seq<int>)
    requires q > 0 && |b| == 256
    ensures Mul(q, Zero(q), b) == Zero(q)
  {
    forall k | 0 <= k < 256
      ensures ProductAt(Zero(q), b, k, 256) == 0
    {
      ProductZero(q, b, k, 256);
    }
  }

  lemma {:induction false} ProductZero(q: int, b: seq<int>, k: nat, m: nat)
    requires q > 0 && |b| == 256 && k < 256 && m <= 256
    ensures ProductAt(Zero(q), b, k, m) == 0
  {
    if m > 0 {
      ProductZero(q, b, k, m - 1);
    }
  }
}
