/** The ring Z_q[X]/(X^256+1) of ML-KEM on vectors of residues, and its laws, derived from the transform. */
module MlKemPolys {
  import opened ModArith
  import opened NttTheory
  import opened RingProduct
  import opened PolyRing
  import opened MlKemZetas
  import opened MlKemNtt
  import opened MlKemRing

  // ----- the group laws -----

  // ----- products at the leaves -----

  lemma BaseMulComm(v: seq<int>, w: seq<int>)
    requires |v| == |w| == 256
    ensures BaseMul(v, w) == BaseMul(w, v)
  {
    hide OverR, LeafZeta;
    forall p | 0 <= p < 256
      ensures BaseMulAt(v, w, p) == BaseMulAt(w, v, p)
    {
      var o := p - p % 2;
      assert v[o] * w[o] == w[o] * v[o];
      assert v[o + 1] * w[o + 1] == w[o + 1] * v[o + 1];
      assert v[o] * w[o + 1] + v[o + 1] * w[o] == w[o] * v[o + 1] + w[o + 1] * v[o];
    }
  }

  lemma PullScale(r: int, k: int, x: int, e: int, y: int, f: int)
    ensures (x * k) * e + r * ((y * k) * f) == (x * e + r * (y * f)) * k
  {
    MulAround(k, x, e);
    MulAround(k, y, f);
    assert r * ((y * f) * k) == (r * (y * f)) * k;
  }

  lemma MulAround(k: int, x: int, e: int)
    ensures (x * k) * e == (x * e) * k && e * (x * k) == (x * e) * k
  {
  }

  lemma LeafTerms(r: int, a: int, b: int, c: int, d: int, e: int, f: int)
    ensures (a * c + r * (b * d)) * e + r * ((a * d + b * c) * f) == a * (c * e + r * (d * f)) + r * (b * (c * f + d * e))
  {
    calc {
      (a * c + r * (b * d)) * e + r * ((a * d + b * c) * f);
      (a * c) * e + (r * (b * d)) * e + (r * ((a * d) * f) + r * ((b * c) * f));
      { assert (a * c) * e == a * (c * e); assert (r * (b * d)) * e == r * (b * (d * e)); }
      { assert r * ((a * d) * f) == a * (r * (d * f)); assert r * ((b * c) * f) == r * (b * (c * f)); }
      a * (c * e) + r * (b * (d * e)) + (a * (r * (d * f)) + r * (b * (c * f)));
      { MulSum(a, c * e, r * (d * f)); MulSum(b, c * f, d * e); MulSum(r, b * (c * f), b * (d * e)); }
      a * (c * e + r * (d * f)) + r * (b * (c * f + d * e));
    }
  }

  lemma AssocEven(r: int, k: int, a: int, b: int, c: int, d: int, e: int, f: int)
    ensures ((a * c + r * (b * d)) * k) * e + r * (((a * d + b * c) * k) * f)
         == a * ((c * e + r * (d * f)) * k) + r * (b * ((c * f + d * e) * k))
  {
    PullScale(r, k, a * c + r * (b * d), e, a * d + b * c, f);
    LeafTerms(r, a, b, c, d, e, f);
    PullScale(r, k, c * e + r * (d * f), a, c * f + d * e, b);
  }

  lemma AssocOdd(r: int, k: int, a: int, b: int, c: int, d: int, e: int, f: int)
    ensures ((a * c + r * (b * d)) * k) * f + ((a * d + b * c) * k) * e
         == a * ((c * f + d * e) * k) + b * ((c * e + r * (d * f)) * k)
  {
    PullScale(1, k, a * c + r * (b * d), f, a * d + b * c, e);
    OddTerms(r, a, b, c, d, e, f);
    PullScale(1, k, c * f + d * e, a, c * e + r * (d * f), b);
  }

  lemma MulAround3(x: int, y: int, z: int)
    ensures (x * y) * z == x * (y * z) && x * y == y * x
  {
  }

  lemma OddTerms(r: int, a: int, b: int, c: int, d: int, e: int, f: int)
    ensures (a * c + r * (b * d)) * f + (a * d + b * c) * e == a * (c * f + d * e) + b * (c * e + r * (d * f))
  {
    MulAround3(a, c, f);
    MulAround3(a, d, e);
    MulAround3(b, c, e);
    assert (r * (b * d)) * f == b * (r * (d * f)) by {
      MulAround3(r, b * d, f);
      MulAround3(b, d, f);
      MulAround3(r, b, d * f);
      MulAround3(b, r, d * f);
    }
    Distribute(a * c, r * (b * d), f);
    Distribute(a * d, b * c, e);
    MulSum(a, c * f, d * e);
    MulSum(b, c * e, r * (d * f));
  }

  lemma LeafAssoc(r: int, a: int, b: int, c: int, d: int, e: int, f: int)
    ensures BaseEven(r, BaseEven(r, a, b, c, d), BaseOdd(a, b, c, d), e, f)
         == BaseEven(r, a, b, BaseEven(r, c, d, e, f), BaseOdd(c, d, e, f))
    ensures BaseOdd(BaseEven(r, a, b, c, d), BaseOdd(a, b, c, d), e, f)
         == BaseOdd(a, b, BaseEven(r, c, d, e, f), BaseOdd(c, d, e, f))
  {
    hide Rem, BaseEven, BaseOdd;
    var x, y := (a * c + r * (b * d)) * RINV, (a * d + b * c) * RINV;
    var u, w := (c * e + r * (d * f)) * RINV, (c * f + d * e) * RINV;
    OverResidue(r, a, b, c, d);
    OverResidue(r, c, d, e, f);
    EvenCong(r, BaseEven(r, a, b, c, d), BaseOdd(a, b, c, d), e, f, r, x, y, e, f);
    OddCong(BaseEven(r, a, b, c, d), BaseOdd(a, b, c, d), e, f, x, y, e, f);
    EvenCong(r, a, b, BaseEven(r, c, d, e, f), BaseOdd(c, d, e, f), r, a, b, u, w);
    OddCong(a, b, BaseEven(r, c, d, e, f), BaseOdd(c, d, e, f), a, b, u, w);
    RawAssoc(r, a, b, c, d, e, f);
  }

  lemma OverResidue(r: int, a: int, b: int, c: int, d: int)
    ensures Rem(Q, BaseEven(r, a, b, c, d)) == Rem(Q, (a * c + r * (b * d)) * RINV)
    ensures Rem(Q, BaseOdd(a, b, c, d)) == Rem(Q, (a * d + b * c) * RINV)
  {
    hide Rem;
    RemRem(Q, (a * c + r * (b * d)) * RINV);
    RemRem(Q, (a * d + b * c) * RINV);
  }

  lemma RawAssoc(r: int, a: int, b: int, c: int, d: int, e: int, f: int)
    ensures BaseEven(r, (a * c + r * (b * d)) * RINV, (a * d + b * c) * RINV, e, f)
         == BaseEven(r, a, b, (c * e + r * (d * f)) * RINV, (c * f + d * e) * RINV)
    ensures BaseOdd((a * c + r * (b * d)) * RINV, (a * d + b * c) * RINV, e, f)
         == BaseOdd(a, b, (c * e + r * (d * f)) * RINV, (c * f + d * e) * RINV)
  {
    hide OverR;
    AssocEven(r, RINV, a, b, c, d, e, f);
    AssocOdd(r, RINV, a, b, c, d, e, f);
  }

  lemma BaseMulAssoc(v: seq<int>, w: seq<int>, x: seq<int>)
    requires |v| == |w| == |x| == 256
    ensures BaseMul(BaseMul(v, w), x) == BaseMul(v, BaseMul(w, x))
  {
    hide BaseEven, BaseOdd, LeafZeta;
    forall p | 0 <= p < 256
      ensures BaseMulAt(BaseMul(v, w), x, p) == BaseMulAt(v, BaseMul(w, x), p)
    {
      var o := p - p % 2;
      LeafAssoc(LeafZeta(p / 2), v[o], v[o + 1], w[o], w[o + 1], x[o], x[o + 1]);
    }
  }

  lemma LeafDistributes(r: int, a: int, b: int, c: int, d: int, e: int, f: int)
    ensures BaseEven(r, a, b, Rem(Q, c + e), Rem(Q, d + f)) == Rem(Q, BaseEven(r, a, b, c, d) + BaseEven(r, a, b, e, f))
    ensures BaseOdd(a, b, Rem(Q, c + e), Rem(Q, d + f)) == Rem(Q, BaseOdd(a, b, c, d) + BaseOdd(a, b, e, f))
  {
    hide Rem, BaseEven, BaseOdd;
    RemRem(Q, c + e);
    RemRem(Q, d + f);
    EvenCong(r, a, b, Rem(Q, c + e), Rem(Q, d + f), r, a, b, c + e, d + f);
    OddCong(a, b, Rem(Q, c + e), Rem(Q, d + f), a, b, c + e, d + f);
    RawDistributes(r, a, b, c, d, e, f);
  }

  lemma RawDistributes(r: int, a: int, b: int, c: int, d: int, e: int, f: int)
    ensures BaseEven(r, a, b, c + e, d + f) == Rem(Q, BaseEven(r, a, b, c, d) + BaseEven(r, a, b, e, f))
    ensures BaseOdd(a, b, c + e, d + f) == Rem(Q, BaseOdd(a, b, c, d) + BaseOdd(a, b, e, f))
  {
    hide Rem;
    EvenSum(r, a, b, c, d, e, f);
    OddSum(a, b, c, d, e, f);
    SumOver(a * c + r * (b * d), a * e + r * (b * f));
    SumOver(a * d + b * c, a * f + b * e);
  }

  lemma EvenSum(r: int, a: int, b: int, c: int, d: int, e: int, f: int)
    ensures a * (c + e) + r * (b * (d + f)) == (a * c + r * (b * d)) + (a * e + r * (b * f))
  {
    MulSum(a, c, e);
    MulSum(b, d, f);
    MulSum(r, b * d, b * f);
  }

  lemma OddSum(a: int, b: int, c: int, d: int, e: int, f: int)
    ensures a * (d + f) + b * (c + e) == (a * d + b * c) + (a * f + b * e)
  {
    MulSum(a, d, f);
    MulSum(b, c, e);
  }

  lemma SumOver(x: int, y: int)
    ensures OverR(x + y) == Rem(Q, OverR(x) + OverR(y))
  {
    hide Rem;
    RemRem(Q, x * RINV);
    RemRem(Q, y * RINV);
    RemAdd(Q, Rem(Q, x * RINV), x * RINV, Rem(Q, y * RINV), y * RINV);
    assert (x + y) * RINV == x * RINV + y * RINV;
  }

  lemma BaseMulDistributes(v: seq<int>, w: seq<int>, x: seq<int>)
    requires |v| == |w| == |x| == 256
    ensures BaseMul(v, Add(Q, w, x)) == Add(Q, BaseMul(v, w), BaseMul(v, x))
  {
    hide Rem, BaseEven, BaseOdd, LeafZeta;
    forall p | 0 <= p < 256
      ensures BaseMulAt(v, Add(Q, w, x), p) == Rem(Q, BaseMulAt(v, w, p) + BaseMulAt(v, x, p))
    {
      var o := p - p % 2;
      LeafDistributes(LeafZeta(p / 2), v[o], v[o + 1], w[o], w[o + 1], x[o], x[o + 1]);
    }
  }

  lemma ScalePulls(r: int, s: int, a: int, b: int, c: int, d: int)
    ensures BaseEven(r, Rem(Q, s * a), Rem(Q, s * b), c, d) == Rem(Q, s * BaseEven(r, a, b, c, d))
    ensures BaseOdd(Rem(Q, s * a), Rem(Q, s * b), c, d) == Rem(Q, s * BaseOdd(a, b, c, d))
  {
    hide Rem, BaseEven, BaseOdd;
    RemRem(Q, s * a);
    RemRem(Q, s * b);
    EvenCong(r, Rem(Q, s * a), Rem(Q, s * b), c, d, r, s * a, s * b, c, d);
    OddCong(Rem(Q, s * a), Rem(Q, s * b), c, d, s * a, s * b, c, d);
    RawScale(r, s, a, b, c, d);
  }

  lemma RawScale(r: int, s: int, a: int, b: int, c: int, d: int)
    ensures BaseEven(r, s * a, s * b, c, d) == Rem(Q, s * BaseEven(r, a, b, c, d))
    ensures BaseOdd(s * a, s * b, c, d) == Rem(Q, s * BaseOdd(a, b, c, d))
  {
    hide Rem;
    var x, y := a * c + r * (b * d), a * d + b * c;
    RemRem(Q, x * RINV);
    RemRem(Q, y * RINV);
    RemMul(Q, s, s, Rem(Q, x * RINV), x * RINV);
    RemMul(Q, s, s, Rem(Q, y * RINV), y * RINV);
    EvenScaled(r, s, a, b, c, d);
    OddScaled(s, a, b, c, d);
    MulAssociates(s, x, RINV);
    MulAssociates(s, y, RINV);
  }

  lemma EvenScaled(r: int, s: int, a: int, b: int, c: int, d: int)
    ensures (s * a) * c + r * ((s * b) * d) == s * (a * c + r * (b * d))
  {
    assert r * ((s * b) * d) == s * (r * (b * d));
  }

  lemma OddScaled(s: int, a: int, b: int, c: int, d: int)
    ensures (s * a) * d + (s * b) * c == s * (a * d + b * c)
  {
  }

  lemma BaseMulScales(s: int, v: seq<int>, w: seq<int>)
    requires |v| == |w| == 256
    ensures BaseMul(Scale(Q, s, v), w) == Scale(Q, s, BaseMul(v, w))
  {
    hide Rem, BaseEven, BaseOdd, LeafZeta;
    forall p | 0 <= p < 256
      ensures BaseMulAt(Scale(Q, s, v), w, p) == Rem(Q, s * BaseMulAt(v, w, p))
    {
      var o := p - p % 2;
      ScalePulls(LeafZeta(p / 2), s, v[o], v[o + 1], w[o], w[o + 1]);
    }
  }

  // ----- the transform is linear and onto -----

  lemma HatCanon(c: seq<int>)
    requires |c| == 256
    ensures Hat(Canon(Q, c)) == Hat(c) && IsPoly(Q, Hat(c))
  {
    hide Rem, NttFrom, Red, Root;
    CanonCanon(Q, c);
    forall p | 0 <= p < 256
      ensures Rem(Q, Hat(c)[p]) == Hat(c)[p]
    {
      LeafPair(c, p / 2);
      RemRem(Q, Red(c, 2, Root(Zetas(), 128 + p / 2), p % 2));
    }
    assert Canon(Q, Hat(c)) == Hat(c);
  }

  lemma HatAdds(a: seq<int>, b: seq<int>)
    requires |a| == |b| == 256
    ensures Hat(Add(Q, a, b)) == Add(Q, Hat(a), Hat(b))
  {
    hide Rem, Hat;
    var c := seq(256, (p: nat) requires p < 256 => a[p] + b[p]);
    assert Canon(Q, c) == Add(Q, a, b);
    HatCanon(c);
    forall p | 0 <= p < 256
      ensures Hat(c)[p] == Rem(Q, Hat(a)[p] + Hat(b)[p])
    {
      HatAddsAt(a, b, c, p / 2);
    }
    assert Hat(c) == Add(Q, Hat(a), Hat(b));
  }

  lemma HatAddsAt(a: seq<int>, b: seq<int>, c: seq<int>, i: nat)
    requires |a| == |b| == |c| == 256 && i < 128 && forall p | 0 <= p < 256 :: c[p] == a[p] + 1 * b[p]
    ensures Hat(c)[2 * i] == Rem(Q, Hat(a)[2 * i] + Hat(b)[2 * i])
    ensures Hat(c)[2 * i + 1] == Rem(Q, Hat(a)[2 * i + 1] + Hat(b)[2 * i + 1])
  {
    hide Rem, Hat, Red, Root;
    var r := Root(Zetas(), 128 + i);
    LeafPair(a, i);
    LeafPair(b, i);
    LeafPair(c, i);
    RedLinear(a, b, c, 1, 2, r, 0);
    RedLinear(a, b, c, 1, 2, r, 1);
    SumResidue(Q, Red(a, 2, r, 0), Red(b, 2, r, 0));
    SumResidue(Q, Red(a, 2, r, 1), Red(b, 2, r, 1));
  }

  lemma HatScales(s: int, c: seq<int>)
    requires |c| == 256
    ensures Hat(Scale(Q, s, c)) == Scale(Q, s, Hat(c))
  {
    hide Rem, NttFrom, Zetas;
    ZetasAreGood();
    assert Canon(Q, Scale(Q, s, c)) == Scale(Q, s, Canon(Q, c)) by {
      forall p | 0 <= p < 256
        ensures Rem(Q, Rem(Q, s * c[p])) == Rem(Q, s * Rem(Q, c[p]))
      {
        RemRem(Q, s * c[p]);
        RemRem(Q, c[p]);
        RemMul(Q, s, s, Rem(Q, c[p]), c[p]);
      }
    }
    NttScales(Q, Zetas(), s, Canon(Q, c), 0, 7);
  }

  /** Every vector of residues is the transform of one polynomial. */
  function Preimage(v: seq<int>): (c: seq<int>)
    requires |v| == 256
    ensures IsPoly(Q, c)
  {
    var c := Unhat(Scale(Q, RINV, v));
    assert Canon(Q, c) == c;
    c
  }

  lemma HatIsOnto(v: seq<int>)
    requires |v| == 256
    ensures Hat(Preimage(v)) == Canon(Q, v)
  {
    hide Rem, Zetas, NttFrom, InvTo, Scale, Hat, Canon;
    var w := Scale(Q, RINV, v);
    var x := InvTo(Q, Zetas(), w, 0, 7);
    HatScales(F as int * RINV, x);
    HatOfInv(w);
    ScaleScale(Q, 128, RINV, v);
    ScaleScale(Q, F as int * RINV, 128 * RINV, v);
    assert Rem(Q, (F as int * RINV) * (128 * RINV)) == Rem(Q, 1) by {
      RemIsMod(Q, (F as int * RINV) * (128 * RINV));
      RemIsMod(Q, 1);
    }
    ScaleCong(Q, (F as int * RINV) * (128 * RINV), 1, v);
    ScaleByOne(Q, v);
  }

  lemma HatOfInv(w: seq<int>)
    requires |w| == 256
    ensures Hat(InvTo(Q, Zetas(), w, 0, 7)) == Scale(Q, 128, w)
  {
    hide Rem, Zetas, NttFrom, InvTo, Scale, Canon;
    ZetasAreGood();
    var x := InvTo(Q, Zetas(), w, 0, 7);
    ScaleByOne(Q, x);
    NttScales(Q, Zetas(), 1, x, 0, 7);
    NttUndoesInv(Q, Zetas(), w, 0, 7);
    assert Blocks(7) == 128;
    ScaleScale(Q, 1, 128, w);
  }

  // ----- the ring laws -----

  /** The transform with the factor 2^-16 that base products carry. */
  function OverHat(c: seq<int>): (v: seq<int>)
    requires |c| == 256
    ensures |v| == 256
  {
    Scale(Q, RINV, Hat(c))
  }

  lemma OverHatAdds(a: seq<int>, b: seq<int>)
    requires |a| == |b| == 256
    ensures Add(Q, OverHat(a), OverHat(b)) == OverHat(Add(Q, a, b))
  {
    hide Hat;
    HatAdds(a, b);
    ScaleAdds(Q, RINV, Hat(a), Hat(b));
  }

  lemma BaseMulIsMul(a: seq<int>, b: seq<int>)
    requires |a| == |b| == 256
    ensures BaseMul(Hat(a), Hat(b)) == OverHat(Mul(Q, a, b)) && Unhat(OverHat(Mul(Q, a, b))) == Mul(Q, a, b)
  {
    hide Hat, Unhat, BaseMul, NegaMul;
    BaseMulIsProduct(a, b);
    HatCanon(NegaMul(a, b));
    UnhatCancels(NegaMul(a, b));
  }

  lemma MulComm(a: seq<int>, b: seq<int>)
    requires |a| == |b| == 256
    ensures Mul(Q, a, b) == Mul(Q, b, a)
  {
    hide Hat, Unhat, BaseMul, OverHat, Mul;
    BaseMulIsMul(a, b);
    BaseMulIsMul(b, a);
    BaseMulComm(Hat(a), Hat(b));
  }

  lemma MulDistributes(a: seq<int>, b: seq<int>, c: seq<int>)
    requires |a| == |b| == |c| == 256
    ensures Mul(Q, a, Add(Q, b, c)) == Add(Q, Mul(Q, a, b), Mul(Q, a, c))
  {
    hide Hat, Unhat, BaseMul, Mul, Add, Rem;
    BaseMulIsMul(a, b);
    BaseMulIsMul(a, c);
    BaseMulIsMul(a, Add(Q, b, c));
    HatAdds(b, c);
    BaseMulDistributes(Hat(a), Hat(b), Hat(c));
    OverHatAdds(Mul(Q, a, b), Mul(Q, a, c));
    UnhatCancels(Add(Q, Mul(Q, a, b), Mul(Q, a, c)));
  }

  lemma MulAssoc(a: seq<int>, b: seq<int>, c: seq<int>)
    requires |a| == |b| == |c| == 256
    ensures Mul(Q, Mul(Q, a, b), c) == Mul(Q, a, Mul(Q, b, c))
  {
    hide Hat, Unhat, BaseMul, Mul, OverHat, Scale;
    MulTwice(a, b, c);
    MulTwice(c, b, a);
    MulComm(c, Mul(Q, b, a));
    MulComm(a, b);
    MulComm(b, c);
    MulComm(a, Mul(Q, b, c));
    MulComm(Mul(Q, a, b), c);
    BaseMulAssoc(Hat(a), Hat(b), Hat(c));
    BaseMulComm(BaseMul(Hat(a), Hat(b)), Hat(c));
    BaseMulComm(Hat(a), BaseMul(Hat(b), Hat(c)));
    BaseMulComm(Hat(b), Hat(c));
    BaseMulComm(Hat(a), Hat(b));
    DoubleOverHat(Mul(Q, Mul(Q, a, b), c));
    DoubleOverHat(Mul(Q, Mul(Q, c, b), a));
  }

  lemma MulTwice(a: seq<int>, b: seq<int>, c: seq<int>)
    requires |a| == |b| == |c| == 256
    ensures BaseMul(BaseMul(Hat(a), Hat(b)), Hat(c)) == Scale(Q, RINV, OverHat(Mul(Q, Mul(Q, a, b), c)))
  {
    hide Hat, Unhat, BaseMul, Mul, Scale;
    BaseMulIsMul(a, b);
    BaseMulIsMul(Mul(Q, a, b), c);
    BaseMulScales(RINV, Hat(Mul(Q, a, b)), Hat(c));
  }

  /** A polynomial is determined by its transform under any number of Montgomery factors. */
  lemma DoubleOverHat(c: seq<int>)
    requires IsPoly(Q, c)
    ensures Scale(Q, 0x1_0000, Unhat(Scale(Q, RINV, OverHat(c)))) == c
  {
    hide Rem, Hat, Unhat, Scale, Canon;
    ScaleScale(Q, RINV, RINV, Hat(c));
    UnhatOfScaled(c, RINV * RINV);
    var k := (F as int * RINV) * ((RINV * RINV) * 128);
    ScaleScale(Q, 0x1_0000, k, Canon(Q, c));
    assert Rem(Q, 0x1_0000 * k) == Rem(Q, 1) by {
      RemIsMod(Q, 0x1_0000 * k);
      RemIsMod(Q, 1);
    }
    ScaleCong(Q, 0x1_0000 * k, 1, Canon(Q, c));
    ScaleByOne(Q, Canon(Q, c));
    CanonCanon(Q, c);
  }

}
