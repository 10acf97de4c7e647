/** The transforms of ML-DSA multiply in Z_q[X]/(X^256+1). */
module MlDsaRing {
  import opened ModArith
  import opened NttTheory
  import opened RingProduct
  import opened MlDsaZetas
  import opened MlDsaNtt
  import opened Words

  /** The componentwise product with one Montgomery reduction. */
  function PointMul(v: seq<int>, w: seq<int>): (r: seq<int>)
    requires |v| == |w|
    ensures |r| == |v|
  {
    seq(|v|, (p: nat) requires p < |v| => Rem(Q, (v[p] * w[p]) * RINV))
  }

  method DPolyPointwise(c: array<int32>, a: array<int32>, b: array<int32>)
    requires a.Length == b.Length == c.Length == 256
    requires Within(a[..], 9 * Q - 1) && Within(b[..], 9 * Q - 1)
    modifies c
    ensures Within(c[..], Q - 1)
    ensures Residues(c[..]) == PointMul(Residues(old(a[..])), Residues(old(b[..])))
  {
    hide Rem, MontReduce;
    var i := 0;
    while i < 256
      invariant 0 <= i <= 256
      invariant forall j :: i <= j < 256 ==> a[j] == old(a[j]) && b[j] == old(b[j])
      invariant forall j :: 0 <= j < i ==> -Q < c[j] as int < Q
      invariant forall j :: 0 <= j < i ==>
        Rem(Q, c[j] as int) == Rem(Q, (Rem(Q, old(a[j]) as int) * Rem(Q, old(b[j]) as int)) * RINV)
    {
      ProductBound(a[i] as int, b[i] as int, 9 * Q - 1, 9 * Q - 1);
      PointResidue(a[i] as int, b[i] as int);
      c[i] := MontReduce(a[i] as int64 * b[i] as int64);
      i := i + 1;
    }
  }

  lemma PointResidue(x: int, y: int)
    ensures Rem(Q, (x * y) * RINV) == Rem(Q, (Rem(Q, x) * Rem(Q, y)) * RINV)
  {
    hide Rem;
    RemRem(Q, x);
    RemRem(Q, y);
    RemMul(Q, x, Rem(Q, x), y, Rem(Q, y));
    RemMul(Q, x * y, Rem(Q, x) * Rem(Q, y), RINV, RINV);
  }

  /** The componentwise product of two transforms is the transform of the ring product, over 2^32. */
  lemma PointMulIsProduct(a: seq<int>, b: seq<int>)
    requires |a| == |b| == 256
    ensures PointMul(NttFrom(Q, Zetas(), Canon(Q, a), 0, 8), NttFrom(Q, Zetas(), Canon(Q, b), 0, 8))
            == Scale(Q, RINV, NttFrom(Q, Zetas(), Canon(Q, NegaMul(a, b)), 0, 8))
  {
    hide Rem, Zetas, NttFrom, NegaMul, GoodZetas;
    ZetasAreGood();
    NttIsReduction(Q, Zetas(), a, 8);
    NttIsReduction(Q, Zetas(), b, 8);
    NttIsReduction(Q, Zetas(), NegaMul(a, b), 8);
    var v := NttFrom(Q, Zetas(), Canon(Q, a), 0, 8);
    var w := NttFrom(Q, Zetas(), Canon(Q, b), 0, 8);
    var u := NttFrom(Q, Zetas(), Canon(Q, NegaMul(a, b)), 0, 8);
    forall p | 0 <= p < 256
      ensures Rem(Q, (v[p] * w[p]) * RINV) == Rem(Q, RINV * u[p])
    {
      LeafValue(a, v, p);
      LeafValue(b, w, p);
      LeafValue(NegaMul(a, b), u, p);
      var r := Root(Zetas(), 256 + p);
      LeafRoot1(Q, Zetas(), 256 + p);
      ProductLeaf1(Q, a, b, r);
      LeafProduct(v[p], w[p], u[p], Red(a, 1, r, 0), Red(b, 1, r, 0), Red(NegaMul(a, b), 1, r, 0));
    }
  }

  /** At the leaves a transform holds the values of the polynomial at the 256 roots of X^256 + 1. */
  lemma LeafValue(c: seq<int>, v: seq<int>, p: nat)
    requires |c| == 256 && Represents(Q, Zetas(), c, 8, v) && p < 256
    ensures v[p] == Rem(Q, Red(c, 1, Root(Zetas(), 256 + p), 0))
  {
    hide Rem, Zetas, Red, Root;
    Position(8, p);
    assert Width(8) == 1 && Blocks(8) == 256;
    BlockIndex(1, p, 0);
  }

  lemma LeafProduct(v: int, w: int, u: int, x: int, y: int, c: int)
    requires v == Rem(Q, x) && w == Rem(Q, y) && u == Rem(Q, c) && Rem(Q, c) == Rem(Q, x * y)
    ensures Rem(Q, (v * w) * RINV) == Rem(Q, RINV * u)
  {
    hide Rem;
    RemRem(Q, x);
    RemRem(Q, y);
    RemRem(Q, c);
    RemMul(Q, v, x, w, y);
    RemMul(Q, v * w, u, RINV, RINV);
  }

  /** What DInvNtt computes on a transform scaled by s. */
  lemma InverseOfScaled(c: seq<int>, s: int)
    requires |c| == 256
    ensures Scale(Q, F as int * RINV, InvTo(Q, Zetas(), Scale(Q, s, NttFrom(Q, Zetas(), Canon(Q, c), 0, 8)), 0, 8))
            == Scale(Q, (F as int * RINV) * (s * 256), Canon(Q, c))
  {
    hide Rem, Zetas, NttFrom, InvTo, Scale;
    ZetasAreGood();
    var v := Canon(Q, c);
    InvToScales(Q, Zetas(), s, NttFrom(Q, Zetas(), v, 0, 8), 0, 8);
    InvUndoesNtt(Q, Zetas(), v, 0, 8);
    assert Blocks(8) == 256;
    ScaleScale(Q, s, 256, v);
    ScaleScale(Q, F as int * RINV, s * 256, v);
  }

  /** Transform, multiply componentwise, transform back: the product in Z_q[X]/(X^256+1), with no factor left over. */
  lemma NttMultiplies(a: seq<int>, b: seq<int>)
    requires |a| == |b| == 256
    ensures var v := NttFrom(Q, Zetas(), Canon(Q, a), 0, 8); var w := NttFrom(Q, Zetas(), Canon(Q, b), 0, 8);
            Scale(Q, F as int * RINV, InvTo(Q, Zetas(), PointMul(v, w), 0, 8)) == Canon(Q, NegaMul(a, b))
  {
    hide Rem, Zetas, NttFrom, InvTo, Scale, NegaMul, PointMul;
    PointMulIsProduct(a, b);
    InverseOfScaled(NegaMul(a, b), RINV);
    assert Rem(Q, (F as int * RINV) * (RINV * 256)) == Rem(Q, 1) by {
      RemIsMod(Q, (F as int * RINV) * (RINV * 256));
      RemIsMod(Q, 1);
    }
    CanonIsCanonical(Q, NegaMul(a, b));
    ScaleOne(Q, (F as int * RINV) * (RINV * 256), Canon(Q, NegaMul(a, b)));
  }

  /** The inverse transform of a transform is 2^32 times the polynomial. */
  lemma InverseOfTransform(a: seq<int>)
    requires |a| == 256
    ensures Scale(Q, F as int * RINV, InvTo(Q, Zetas(), NttFrom(Q, Zetas(), Canon(Q, a), 0, 8), 0, 8))
            == Scale(Q, 0x1_0000_0000, Canon(Q, a))
  {
    hide Rem, Zetas, NttFrom, InvTo, Scale;
    ZetasAreGood();
    var v := Canon(Q, a);
    InvUndoesNtt(Q, Zetas(), v, 0, 8);
    assert Blocks(8) == 256;
    ScaleScale(Q, F as int * RINV, 256, v);
    assert Rem(Q, (F as int * RINV) * 256) == Rem(Q, 0x1_0000_0000) by {
      RemIsMod(Q, (F as int * RINV) * 256);
      RemIsMod(Q, 0x1_0000_0000);
    }
    ScaleCong(Q, (F as int * RINV) * 256, 0x1_0000_0000, v);
  }

  /** The calling pattern of signing: c = a * b in the ring, from words below q to words below q. */
  method MultiplyInRing(c: array<int32>, a: array<int32>, b: array<int32>)
    requires a.Length == b.Length == c.Length == 256 && a != b
    requires Within(a[..], Q - 1) && Within(b[..], Q - 1)
    modifies a, b, c
    ensures Within(c[..], Q - 1)
    ensures Residues(c[..]) == Canon(Q, NegaMul(Ints32(old(a[..])), Ints32(old(b[..]))))
  {
    hide Rem, NttFrom, InvTo, Scale, NegaMul, PointMul, Zetas;
    DNtt(a);
    DNtt(b);
    DPolyPointwise(c, a, b);
    DInvNtt(c);
    NttMultiplies(Ints32(old(a[..])), Ints32(old(b[..])));
  }
}
