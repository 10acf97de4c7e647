/** The ring Z_q[X]/(X^256+1) of ML-DSA, with the transform as an isomorphism to 256 copies of Z_q. */
module MlDsaPolys {
  import opened ModArith
  import opened NttTheory
  import opened RingProduct
  import opened PolyRing
  import opened MlDsaZetas
  import opened MlDsaNtt
  import opened MlDsaRing

  /** The componentwise product. */
  function Slotwise(v: seq<int>, w: seq<int>): (r: seq<int>)
    requires |v| == |w| == 256
    ensures |r| == 256
  {
    seq(256, (p: nat) requires p < 256 => Rem(Q, v[p] * w[p]))
  }

  function Hat(c: seq<int>): (v: seq<int>)
    requires |c| == 256
    ensures |v| == 256
  {
    NttFrom(Q, Zetas(), Canon(Q, c), 0, 8)
  }

  /** The inverse transform as DInvNtt runs it, with its last factor. */
  function Unhat(v: seq<int>): (c: seq<int>)
    requires |v| == 256
    ensures |c| == 256
  {
    Scale(Q, F as int * RINV, InvTo(Q, Zetas(), v, 0, 8))
  }

  // ----- residues -----

  // ----- the transform is an isomorphism -----

  lemma HatAt(c: seq<int>, p: nat)
    requires |c| == 256 && p < 256
    ensures Hat(c)[p] == Rem(Q, Red(c, 1, Root(Zetas(), 256 + p), 0))
  {
    hide Rem, Zetas, NttFrom, Red, Root;
    ZetasAreGood();
    NttIsReduction(Q, Zetas(), c, 8);
    LeafValue(c, Hat(c), p);
  }

  lemma HatMul(a: seq<int>, b: seq<int>)
    requires |a| == |b| == 256
    ensures Hat(Mul(Q, a, b)) == Slotwise(Hat(a), Hat(b))
  {
    hide Rem, Zetas, Hat, NegaMul, Root, Red;
    ZetasAreGood();
    forall p | 0 <= p < 256
      ensures Hat(NegaMul(a, b))[p] == Rem(Q, Hat(a)[p] * Hat(b)[p])
    {
      HatAt(a, p);
      HatAt(b, p);
      HatAt(NegaMul(a, b), p);
      var r := Root(Zetas(), 256 + p);
      LeafRoot1(Q, Zetas(), 256 + p);
      ProductLeaf1(Q, a, b, r);
      SumResidue(Q, Red(a, 1, r, 0), Red(b, 1, r, 0));
    }
    HatCanon(NegaMul(a, b));
  }

  lemma HatCanon(c: seq<int>)
    requires |c| == 256
    ensures Hat(Canon(Q, c)) == Hat(c)
  {
    hide Rem, NttFrom;
    CanonCanon(Q, c);
  }

  lemma HatAdds(a: seq<int>, b: seq<int>)
    requires |a| == |b| == 256
    ensures Hat(Add(Q, a, b)) == Add(Q, Hat(a), Hat(b))
  {
    hide Rem, Hat, Zetas, Root, Red;
    var c := seq(256, (p: nat) requires p < 256 => a[p] + b[p]);
    assert Canon(Q, c) == Add(Q, a, b);
    HatCanon(c);
    forall p | 0 <= p < 256
      ensures Hat(c)[p] == Rem(Q, Hat(a)[p] + Hat(b)[p])
    {
      var r := Root(Zetas(), 256 + p);
      HatAt(a, p);
      HatAt(b, p);
      HatAt(c, p);
      RedLinear(a, b, c, 1, 1, r, 0);
      SumResidue(Q, Red(a, 1, r, 0), Red(b, 1, r, 0));
    }
    assert Hat(c) == Add(Q, Hat(a), Hat(b));
  }

  lemma HatSubs(a: seq<int>, b: seq<int>)
    requires |a| == |b| == 256
    ensures Hat(Sub(Q, a, b)) == Sub(Q, Hat(a), Hat(b))
  {
    hide Rem, Hat, Zetas, Root, Red;
    var c := seq(256, (p: nat) requires p < 256 => a[p] - b[p]);
    assert Canon(Q, c) == Sub(Q, a, b);
    HatCanon(c);
    forall p | 0 <= p < 256
      ensures Hat(c)[p] == Rem(Q, Hat(a)[p] - Hat(b)[p])
    {
      var r := Root(Zetas(), 256 + p);
      HatAt(a, p);
      HatAt(b, p);
      HatAt(c, p);
      RedLinear(a, b, c, -1, 1, r, 0);
      SumResidue(Q, Red(a, 1, r, 0), Red(b, 1, r, 0));
    }
    assert Hat(c) == Sub(Q, Hat(a), Hat(b));
  }

  /** The polynomial is found again from its transform. */
  lemma HatInverse(a: seq<int>)
    requires IsPoly(Q, a)
    ensures Scale(Q, RINV, Unhat(Hat(a))) == a
  {
    hide Rem, Zetas, NttFrom, InvTo, Scale;
    InverseOfTransform(a);
    ScaleScale(Q, RINV, 0x1_0000_0000, a);
    assert Rem(Q, RINV * 0x1_0000_0000) == Rem(Q, 1) by {
      RemIsMod(Q, RINV * 0x1_0000_0000);
      RemIsMod(Q, 1);
    }
    assert forall p | 0 <= p < |a| :: a[p] == Canon(Q, a)[p];
    ScaleOne(Q, RINV * 0x1_0000_0000, a);
  }

  lemma HatInjective(a: seq<int>, b: seq<int>)
    requires IsPoly(Q, a) && IsPoly(Q, b) && Hat(a) == Hat(b)
    ensures a == b
  {
    hide Hat, Unhat, Scale;
    HatInverse(a);
    HatInverse(b);
  }

  /** Every vector of residues is the transform of one polynomial. */
  function Preimage(v: seq<int>): (c: seq<int>)
    requires |v| == 256
    ensures |c| == 256
  {
    Unhat(Scale(Q, RINV, v))
  }

  lemma HatIsOnto(v: seq<int>)
    requires IsPoly(Q, v)
    ensures Hat(Preimage(v)) == v
  {
    hide Rem, Zetas, NttFrom, InvTo, Scale, Canon, Hat;
    var w := Scale(Q, RINV, v);
    var x := InvTo(Q, Zetas(), w, 0, 8);
    HatScales(F as int * RINV, x);
    HatOfInv(w);
    ScaleScale(Q, 256, RINV, v);
    ScaleScale(Q, F as int * RINV, 256 * RINV, v);
    assert Rem(Q, (F as int * RINV) * (256 * RINV)) == Rem(Q, 1) by {
      RemIsMod(Q, (F as int * RINV) * (256 * RINV));
      RemIsMod(Q, 1);
    }
    assert forall p | 0 <= p < |v| :: v[p] == Rem(Q, v[p]) by { ResiduesOf(v); }
    ScaleOne(Q, (F as int * RINV) * (256 * RINV), v);
  }

  lemma ResiduesOf(v: seq<int>)
    requires IsPoly(Q, v)
    ensures forall p | 0 <= p < |v| :: v[p] == Rem(Q, v[p])
  {
    hide Rem;
    assert forall p | 0 <= p < |v| :: Canon(Q, v)[p] == Rem(Q, v[p]);
  }

  lemma HatScales(s: int, c: seq<int>)
    requires |c| == 256
    ensures Hat(Scale(Q, s, c)) == Scale(Q, s, Hat(c))
  {
    hide Rem, NttFrom, Zetas;
    ZetasAreGood();
    assert Canon(Q, Scale(Q, s, c)) == Scale(Q, s, Canon(Q, c)) by {
      forall p | 0 <= p < 256
        ensures Rem(Q, Rem(Q, s * c[p])) == Rem(Q, s * Rem(Q, c[p]))
      {
        RemRem(Q, s * c[p]);
        RemRem(Q, c[p]);
        RemMul(Q, s, s, Rem(Q, c[p]), c[p]);
      }
    }
    NttScales(Q, Zetas(), s, Canon(Q, c), 0, 8);
  }

  lemma HatOfInv(w: seq<int>)
    requires |w| == 256
    ensures Hat(InvTo(Q, Zetas(), w, 0, 8)) == Scale(Q, 256, w)
  {
    hide Rem, Zetas, NttFrom, InvTo, Scale, Canon;
    ZetasAreGood();
    var x := InvTo(Q, Zetas(), w, 0, 8);
    assert Scale(Q, 1, x) == Canon(Q, x) by { ScaleByOne(Q, x); }
    NttScales(Q, Zetas(), 1, x, 0, 8);
    NttUndoesInv(Q, Zetas(), w, 0, 8);
    assert Blocks(8) == 256;
    ScaleScale(Q, 1, 256, w);
  }

  // ----- ring laws -----

  lemma MulComm(a: seq<int>, b: seq<int>)
    requires |a| == |b| == 256
    ensures Mul(Q, a, b) == Mul(Q, b, a)
  {
    hide Rem, Hat, Mul;
    HatMul(a, b);
    HatMul(b, a);
    assert Slotwise(Hat(a), Hat(b)) == Slotwise(Hat(b), Hat(a));
    CanonCanon(Q, a);
    CanonCanon(Q, b);
    HatInjective(Mul(Q, a, b), Mul(Q, b, a));
  }

  lemma MulAssoc(a: seq<int>, b: seq<int>, c: seq<int>)
    requires |a| == |b| == |c| == 256
    ensures Mul(Q, Mul(Q, a, b), c) == Mul(Q, a, Mul(Q, b, c))
  {
    hide Rem, Hat, Mul, Slotwise;
    HatMul(a, b);
    HatMul(b, c);
    HatMul(Mul(Q, a, b), c);
    HatMul(a, Mul(Q, b, c));
    SlotwiseAssoc(Hat(a), Hat(b), Hat(c));
    CanonCanon(Q, Mul(Q, a, b));
    CanonCanon(Q, a);
    HatInjective(Mul(Q, Mul(Q, a, b), c), Mul(Q, a, Mul(Q, b, c)));
  }

  lemma SlotwiseAssoc(u: seq<int>, v: seq<int>, w: seq<int>)
    requires |u| == |v| == |w| == 256
    ensures Slotwise(Slotwise(u, v), w) == Slotwise(u, Slotwise(v, w))
  {
    hide Rem;
    forall p | 0 <= p < 256
      ensures Rem(Q, Rem(Q, u[p] * v[p]) * w[p]) == Rem(Q, u[p] * Rem(Q, v[p] * w[p]))
    {
      RemRem(Q, u[p] * v[p]);
      RemRem(Q, v[p] * w[p]);
      RemMul(Q, Rem(Q, u[p] * v[p]), u[p] * v[p], w[p], w[p]);
      RemMul(Q, u[p], u[p], Rem(Q, v[p] * w[p]), v[p] * w[p]);
      MulAssociates(u[p], v[p], w[p]);
    }
  }

  lemma MulDistributes(a: seq<int>, b: seq<int>, c: seq<int>)
    requires |a| == |b| == |c| == 256
    ensures Mul(Q, a, Add(Q, b, c)) == Add(Q, Mul(Q, a, b), Mul(Q, a, c))
  {
    hide Rem, Hat, Mul, Slotwise, Add;
    HatAdds(b, c);
    HatMul(a, Add(Q, b, c));
    HatMul(a, b);
    HatMul(a, c);
    HatAdds(Mul(Q, a, b), Mul(Q, a, c));
    SlotwiseDistributes(Hat(a), Hat(b), Hat(c));
    CanonCanon(Q, a);
    CanonCanon(Q, Mul(Q, a, b));
    HatInjective(Mul(Q, a, Add(Q, b, c)), Add(Q, Mul(Q, a, b), Mul(Q, a, c)));
  }

  lemma SlotwiseDistributes(u: seq<int>, v: seq<int>, w: seq<int>)
    requires |u| == |v| == |w| == 256
    ensures Slotwise(u, Add(Q, v, w)) == Add(Q, Slotwise(u, v), Slotwise(u, w))
  {
    hide Rem;
    forall p | 0 <= p < 256
      ensures Rem(Q, u[p] * Rem(Q, v[p] + w[p])) == Rem(Q, Rem(Q, u[p] * v[p]) + Rem(Q, u[p] * w[p]))
    {
      RemRem(Q, v[p] + w[p]);
      RemMul(Q, u[p], u[p], Rem(Q, v[p] + w[p]), v[p] + w[p]);
      SumResidue(Q, u[p] * v[p], u[p] * w[p]);
      MulSum(u[p], v[p], w[p]);
    }
  }

}
