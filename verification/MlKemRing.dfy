/** The transforms of ML-KEM multiply in Z_q[X]/(X^256+1), through products of linear polynomials at the 128 leaves. */
module MlKemRing {
  import opened ModArith
  import opened NttTheory
  import opened Butterflies
  import opened RingProduct
  import opened MlKemZetas
  import opened MlKemNtt
  import opened Words

  // ----- the specification of the base products -----

  /** x * 2^-16 modulo q. */
  function OverR(x: int): int {
    Rem(Q, x * RINV)
  }

  /** (v0 + v1*X) * (w0 + w1*X) modulo X^2 - root, with one Montgomery factor left. */
  function BaseEven(root: int, v0: int, v1: int, w0: int, w1: int): int {
    OverR(v0 * w0 + root * (v1 * w1))
  }

  function BaseOdd(v0: int, v1: int, w0: int, w1: int): int {
    OverR(v0 * w1 + v1 * w0)
  }

  /** The root of leaf i: leaves 2j and 2j + 1 hang off table entry 64 + j. */
  function LeafZeta(i: nat): int
    requires i < 128
  {
    if i % 2 == 0 then Rem(Q, KZeta(64 + i / 2) * RINV) else -Rem(Q, KZeta(64 + i / 2) * RINV)
  }

  function BaseMul(v: seq<int>, w: seq<int>): (r: seq<int>)
    requires |v| == |w| == 256
    ensures |r| == 256
  {
    seq(256, (p: nat) requires p < 256 => BaseMulAt(v, w, p))
  }

  function BaseMulAt(v: seq<int>, w: seq<int>, p: nat): int
    requires |v| == |w| == 256 && p < 256
  {
    if p % 2 == 0 then BaseEven(LeafZeta(p / 2), v[p], v[p + 1], w[p], w[p + 1])
    else BaseOdd(v[p - 1], v[p], w[p - 1], w[p])
  }

  // ----- the program -----

  lemma SmallProduct(x: int, y: int, a: int, b: int)
    requires -a <= x <= a && -b <= y <= b && a * b < 0x8000 * Q
    ensures -0x8000 * Q < x * y < 0x8000 * Q
  {
    ProductBound(x, y, a, b);
  }

  /** r[j], r[j + 1] become the product of the pairs of a and b at j. */
  method KBaseMul(r: array<int16>, a: seq<int16>, b: seq<int16>, j: nat, zeta: int16)
    requires r.Length == |a| == |b| == 256 && j + 1 < 256
    requires -1664 <= zeta as int <= 1664 && Within(a, 4095) && Within(b, 4095)
    modifies r
    ensures forall i :: 0 <= i < 256 && i != j && i != j + 1 ==> r[i] == old(r[i])
    ensures -2 * Q < r[j] as int < 2 * Q && -2 * Q < r[j + 1] as int < 2 * Q
    ensures Rem(Q, r[j] as int) == BaseEven(zeta as int * RINV, a[j] as int, a[j + 1] as int, b[j] as int, b[j + 1] as int)
    ensures Rem(Q, r[j + 1] as int) == BaseOdd(a[j] as int, a[j + 1] as int, b[j] as int, b[j + 1] as int)
  {
    hide Rem, FqMul, BaseEven, BaseOdd;
    SmallProduct(a[j] as int, b[j] as int, 4095, 4095);
    SmallProduct(a[j] as int, b[j + 1] as int, 4095, 4095);
    SmallProduct(a[j + 1] as int, b[j] as int, 4095, 4095);
    SmallProduct(a[j + 1] as int, b[j + 1] as int, 4095, 4095);
    var t := FqMul(a[j + 1], b[j + 1]);
    SmallProduct(t as int, zeta as int, Q, 1664);
    r[j] := FqMul(t, zeta);
    EvenResidue(a[j] as int, a[j + 1] as int, b[j] as int, b[j + 1] as int, zeta as int, t as int,
                r[j] as int, FqMul(a[j], b[j]) as int);
    r[j] := r[j] + FqMul(a[j], b[j]);
    OddResidue(a[j] as int, a[j + 1] as int, b[j] as int, b[j + 1] as int,
               FqMul(a[j], b[j + 1]) as int, FqMul(a[j + 1], b[j]) as int);
    r[j + 1] := FqMul(a[j], b[j + 1]) + FqMul(a[j + 1], b[j]);
  }

  lemma EvenResidue(v0: int, v1: int, w0: int, w1: int, zeta: int, t: int, x: int, y: int)
    requires Rem(Q, t) == Rem(Q, (v1 * w1) * RINV) && Rem(Q, x) == Rem(Q, (t * zeta) * RINV)
    requires Rem(Q, y) == Rem(Q, (v0 * w0) * RINV)
    ensures Rem(Q, x + y) == BaseEven(zeta * RINV, v0, v1, w0, w1)
  {
    hide Rem;
    var s, z := (v1 * w1) * RINV, zeta * RINV;
    RemMul(Q, t, s, z, z);
    assert (t * zeta) * RINV == t * z;
    RemAdd(Q, x, s * z, y, (v0 * w0) * RINV);
    EvenProducts(v1 * w1, z, v0 * w0);
  }

  lemma EvenProducts(p: int, z: int, o: int)
    ensures (p * RINV) * z + o * RINV == (o + z * p) * RINV
  {
  }

  lemma OddResidue(v0: int, v1: int, w0: int, w1: int, x: int, y: int)
    requires Rem(Q, x) == Rem(Q, (v0 * w1) * RINV) && Rem(Q, y) == Rem(Q, (v1 * w0) * RINV)
    ensures Rem(Q, x + y) == BaseOdd(v0, v1, w0, w1)
  {
    hide Rem;
    RemAdd(Q, x, (v0 * w1) * RINV, y, (v1 * w0) * RINV);
    assert (v0 * w1) * RINV + (v1 * w0) * RINV == (v0 * w1 + v1 * w0) * RINV;
  }

  /** Base products only depend on residues. */
  lemma BaseResidues(z: int, v0: int, v1: int, w0: int, w1: int)
    ensures BaseEven(z, v0, v1, w0, w1) == BaseEven(Rem(Q, z), Rem(Q, v0), Rem(Q, v1), Rem(Q, w0), Rem(Q, w1))
    ensures BaseOdd(v0, v1, w0, w1) == BaseOdd(Rem(Q, v0), Rem(Q, v1), Rem(Q, w0), Rem(Q, w1))
  {
    hide Rem, BaseEven, BaseOdd;
    RemRem(Q, z);
    RemRem(Q, v0);
    RemRem(Q, v1);
    RemRem(Q, w0);
    RemRem(Q, w1);
    EvenCong(z, v0, v1, w0, w1, Rem(Q, z), Rem(Q, v0), Rem(Q, v1), Rem(Q, w0), Rem(Q, w1));
    OddCong(v0, v1, w0, w1, Rem(Q, v0), Rem(Q, v1), Rem(Q, w0), Rem(Q, w1));
  }

  lemma SumCong(p: int, q: int, s: int, t: int)
    requires Rem(Q, p) == Rem(Q, q) && Rem(Q, s) == Rem(Q, t)
    ensures OverR(p + s) == OverR(q + t)
  {
    hide Rem;
    RemAddMul(Q, p, q, s, t, RINV);
  }

  lemma EvenCong(z: int, v0: int, v1: int, w0: int, w1: int, y: int, x0: int, x1: int, y0: int, y1: int)
    requires Rem(Q, z) == Rem(Q, y) && Rem(Q, v0) == Rem(Q, x0) && Rem(Q, v1) == Rem(Q, x1)
    requires Rem(Q, w0) == Rem(Q, y0) && Rem(Q, w1) == Rem(Q, y1)
    ensures BaseEven(z, v0, v1, w0, w1) == BaseEven(y, x0, x1, y0, y1)
  {
    hide Rem, OverR;
    RemMul(Q, v1, x1, w1, y1);
    RemMul(Q, z, y, v1 * w1, x1 * y1);
    RemMul(Q, v0, x0, w0, y0);
    SumCong(v0 * w0, x0 * y0, z * (v1 * w1), y * (x1 * y1));
  }

  lemma OddCong(v0: int, v1: int, w0: int, w1: int, x0: int, x1: int, y0: int, y1: int)
    requires Rem(Q, v0) == Rem(Q, x0) && Rem(Q, v1) == Rem(Q, x1)
    requires Rem(Q, w0) == Rem(Q, y0) && Rem(Q, w1) == Rem(Q, y1)
    ensures BaseOdd(v0, v1, w0, w1) == BaseOdd(x0, x1, y0, y1)
  {
    hide Rem, OverR;
    RemMul(Q, v0, x0, w1, y1);
    RemMul(Q, v1, x1, w0, y0);
    SumCong(v0 * w1, x0 * y1, v1 * w0, x1 * y0);
  }

  lemma LeafZetaOf(i: nat, zeta: int16)
    requires i < 128 && zeta as int == (if i % 2 == 0 then KZeta(64 + i / 2) else -KZeta(64 + i / 2))
    ensures Rem(Q, zeta as int * RINV) == Rem(Q, LeafZeta(i))
  {
    hide Rem, KZeta;
    var z := KZeta(64 + i / 2);
    RemRem(Q, z * RINV);
    NegatedRoot(Q, RINV, z);
  }

  /** A pair of products is a pair of the specification. */
  lemma PairDone(a: seq<int16>, b: seq<int16>, r: seq<int16>, i: nat, zeta: int16)
    requires |a| == |b| == |r| == 256 && i < 128
    requires zeta as int == (if i % 2 == 0 then KZeta(64 + i / 2) else -KZeta(64 + i / 2))
    requires Rem(Q, r[2 * i] as int) == BaseEven(zeta as int * RINV, a[2 * i] as int, a[2 * i + 1] as int, b[2 * i] as int, b[2 * i + 1] as int)
    requires Rem(Q, r[2 * i + 1] as int) == BaseOdd(a[2 * i] as int, a[2 * i + 1] as int, b[2 * i] as int, b[2 * i + 1] as int)
    ensures Rem(Q, r[2 * i] as int) == BaseMul(Residues(a), Residues(b))[2 * i]
    ensures Rem(Q, r[2 * i + 1] as int) == BaseMul(Residues(a), Residues(b))[2 * i + 1]
  {
    hide Rem, KZeta, BaseEven, BaseOdd, LeafZeta;
    LeafZetaOf(i, zeta);
    var z, v0, v1, w0, w1 := zeta as int * RINV, a[2 * i] as int, a[2 * i + 1] as int, b[2 * i] as int, b[2 * i + 1] as int;
    BaseResidues(z, v0, v1, w0, w1);
    BaseResidues(LeafZeta(i), v0, v1, w0, w1);
    assert BaseMulAt(Residues(a), Residues(b), 2 * i) == BaseEven(LeafZeta(i), Rem(Q, v0), Rem(Q, v1), Rem(Q, w0), Rem(Q, w1));
    RemRem(Q, v0);
    RemRem(Q, v1);
    RemRem(Q, w0);
    RemRem(Q, w1);
    BaseResidues(LeafZeta(i), Rem(Q, v0), Rem(Q, v1), Rem(Q, w0), Rem(Q, w1));
  }

  method KPolyMul(r: array<int16>, a: seq<int16>, b: seq<int16>)
    requires r.Length == |a| == |b| == 256
    requires Within(a, 4095) && Within(b, 4095)
    modifies r
    ensures Within(r[..], 2 * Q - 1)
    ensures Residues(r[..]) == BaseMul(Residues(a), Residues(b))
  {
    hide Rem, KZeta, BaseEven, BaseOdd, BaseMul;
    var i := 0;
    while i < 64
      invariant 0 <= i <= 64
      invariant forall p :: 0 <= p < 4 * i ==> -2 * Q < r[p] as int < 2 * Q
      invariant forall p :: 0 <= p < 4 * i ==> Rem(Q, r[p] as int) == BaseMul(Residues(a), Residues(b))[p]
    {
      var zeta := Zeta16(64 + i);
      KBaseMul(r, a, b, 4 * i, zeta);
      PairDone(a, b, r[..], 2 * i, zeta);
      KBaseMul(r, a, b, 4 * i + 2, -zeta);
      PairDone(a, b, r[..], 2 * i + 1, -zeta);
      i := i + 1;
    }
    assert Residues(r[..]) == BaseMul(Residues(a), Residues(b));
  }

  // ----- the ring -----

  /** The transform of a polynomial, on residues. */
  function Hat(c: seq<int>): (v: seq<int>)
    requires |c| == 256
    ensures |v| == 256
  {
    NttFrom(Q, Zetas(), Canon(Q, c), 0, 7)
  }

  /** What KInvNtt computes, on residues. */
  function Unhat(v: seq<int>): (c: seq<int>)
    requires |v| == 256
    ensures |c| == 256
  {
    Scale(Q, F as int * RINV, InvTo(Q, Zetas(), v, 0, 7))
  }

  /** A transform holds at leaf i the polynomial modulo X^2 - LeafZeta(i). */
  lemma LeafPair(c: seq<int>, i: nat)
    requires |c| == 256 && i < 128
    ensures Hat(c)[2 * i] == Rem(Q, Red(c, 2, Root(Zetas(), 128 + i), 0))
    ensures Hat(c)[2 * i + 1] == Rem(Q, Red(c, 2, Root(Zetas(), 128 + i), 1))
  {
    hide Rem, Zetas, Red, Root, NttFrom, GoodZetas;
    ZetasAreGood();
    NttIsReduction(Q, Zetas(), c, 7);
    Position(7, 2 * i);
    Position(7, 2 * i + 1);
    assert Width(7) == 2 && Blocks(7) == 128;
    BlockIndex(2, i, 0);
    BlockIndex(2, i, 1);
  }

  lemma LeafZetaIsRoot(i: nat)
    requires i < 128
    ensures LeafZeta(i) == Root(Zetas(), 128 + i)
  {
    hide Rem, KZeta;
  }

  /** Base products of two transforms are the transform of the ring product, over 2^16. */
  lemma BaseMulIsProduct(a: seq<int>, b: seq<int>)
    requires |a| == |b| == 256
    ensures BaseMul(Hat(a), Hat(b)) == Scale(Q, RINV, Hat(NegaMul(a, b)))
  {
    hide Rem, Hat, NegaMul, BaseMulAt;
    forall p | 0 <= p < 256
      ensures BaseMulAt(Hat(a), Hat(b), p) == Rem(Q, RINV * Hat(NegaMul(a, b))[p])
    {
      LeafProducts(a, b, p / 2);
    }
    assert BaseMul(Hat(a), Hat(b)) == Scale(Q, RINV, Hat(NegaMul(a, b)));
  }

  lemma LeafProducts(a: seq<int>, b: seq<int>, i: nat)
    requires |a| == |b| == 256 && i < 128
    ensures BaseMulAt(Hat(a), Hat(b), 2 * i) == Rem(Q, RINV * Hat(NegaMul(a, b))[2 * i])
    ensures BaseMulAt(Hat(a), Hat(b), 2 * i + 1) == Rem(Q, RINV * Hat(NegaMul(a, b))[2 * i + 1])
  {
    hide Rem, Hat, NegaMul, BaseEven, BaseOdd, LeafZeta, Red, Root, GoodZetas, Zetas, IsProduct2, LeafRoot;
    LeafPair(a, i);
    LeafPair(b, i);
    LeafPair(NegaMul(a, b), i);
    LeafZetaIsRoot(i);
    ZetasAreGood();
    var r := Root(Zetas(), 128 + i);
    LeafRoot2(Q, Zetas(), 128 + i);
    ProductLeaf2(Q, a, b, r);
    LeafStep(r, Red(a, 2, r, 0), Red(a, 2, r, 1), Red(b, 2, r, 0), Red(b, 2, r, 1),
             Red(NegaMul(a, b), 2, r, 0), Red(NegaMul(a, b), 2, r, 1));
  }

  lemma LeafStep(r: int, u: int, w: int, e: int, o: int, x: int, y: int)
    requires IsProduct2(Q, r, u, w, e, o, x, y)
    ensures BaseEven(r, Rem(Q, u), Rem(Q, w), Rem(Q, e), Rem(Q, o)) == Rem(Q, RINV * Rem(Q, x))
    ensures BaseOdd(Rem(Q, u), Rem(Q, w), Rem(Q, e), Rem(Q, o)) == Rem(Q, RINV * Rem(Q, y))
  {
    hide Rem, BaseEven, BaseOdd;
    RemRem(Q, u);
    RemRem(Q, w);
    RemRem(Q, e);
    RemRem(Q, o);
    EvenCong(r, u, w, e, o, r, Rem(Q, u), Rem(Q, w), Rem(Q, e), Rem(Q, o));
    OddCong(u, w, e, o, Rem(Q, u), Rem(Q, w), Rem(Q, e), Rem(Q, o));
    BaseFromProduct(r, u, w, e, o, x, y);
  }

  lemma BaseFromProduct(r: int, u: int, w: int, e: int, o: int, x: int, y: int)
    requires IsProduct2(Q, r, u, w, e, o, x, y)
    ensures BaseEven(r, u, w, e, o) == Rem(Q, RINV * Rem(Q, x))
    ensures BaseOdd(u, w, e, o) == Rem(Q, RINV * Rem(Q, y))
  {
    hide Rem;
    RemRem(Q, x);
    RemRem(Q, y);
    RemMul(Q, u * e + r * (w * o), Rem(Q, x), RINV, RINV);
    RemMul(Q, u * o + w * e, Rem(Q, y), RINV, RINV);
  }

  /** What KInvNtt makes of a transform scaled by s. */
  lemma UnhatOfScaled(c: seq<int>, s: int)
    requires |c| == 256
    ensures Unhat(Scale(Q, s, Hat(c))) == Scale(Q, (F as int * RINV) * (s * 128), Canon(Q, c))
  {
    hide Rem, Zetas, NttFrom, InvTo, Scale;
    ZetasAreGood();
    var v := Canon(Q, c);
    InvToScales(Q, Zetas(), s, NttFrom(Q, Zetas(), v, 0, 7), 0, 7);
    InvUndoesNtt(Q, Zetas(), v, 0, 7);
    assert Blocks(7) == 128;
    ScaleScale(Q, s, 128, v);
    ScaleScale(Q, F as int * RINV, s * 128, v);
  }

  /** With the one factor 2^-16 that base products leave, the inverse transform gives the polynomial itself. */
  lemma UnhatCancels(c: seq<int>)
    requires |c| == 256
    ensures Unhat(Scale(Q, RINV, Hat(c))) == Canon(Q, c)
  {
    hide Rem, Hat, Unhat, Scale;
    UnhatOfScaled(c, RINV);
    assert Rem(Q, (F as int * RINV) * (RINV * 128)) == Rem(Q, 1) by {
      RemIsMod(Q, (F as int * RINV) * (RINV * 128));
      RemIsMod(Q, 1);
    }
    CanonIsCanonical(Q, c);
    ScaleOne(Q, (F as int * RINV) * (RINV * 128), Canon(Q, c));
  }

  /** Transform, multiply at the leaves, transform back: the ring product, the Montgomery factors cancelling. */
  lemma NttMultiplies(a: seq<int>, b: seq<int>)
    requires |a| == |b| == 256
    ensures Unhat(BaseMul(Hat(a), Hat(b))) == Canon(Q, NegaMul(a, b))
  {
    hide Hat, Unhat, BaseMul, NegaMul;
    BaseMulIsProduct(a, b);
    UnhatCancels(NegaMul(a, b));
  }

  /** The same as a run of the program. */
  method MultiplyInRing(r: array<int16>, a: array<int16>, b: array<int16>)
    requires r.Length == a.Length == b.Length == 256 && r != a && r != b && a != b
    requires Within(a[..], 9471) && Within(b[..], 9471)
    modifies r, a, b
    ensures Within(r[..], Q - 1)
    ensures Residues(r[..]) == Canon(Q, NegaMul(Ints16(old(a[..])), Ints16(old(b[..]))))
  {
    hide Rem, NegaMul, BaseMul, InvTo, NttFrom, Scale;
    KNtt(a);
    KNtt(b);
    KPolyMul(r, a[..], b[..]);
    KInvNtt(r);
    NttMultiplies(Ints16(old(a[..])), Ints16(old(b[..])));
  }
}
