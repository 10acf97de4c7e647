/** The product of Z_q[X]/(X^256+1) and what it becomes at the leaves of the transform. */
module RingProduct {
  import opened ModArith
  import opened NttTheory

  // ----- the ring product, by its schoolbook formula -----

  /** Coefficient k of X^m * b, where X^256 = -1. */
  function RotAt(b: seq<int>, m: nat, k: nat): int
    requires |b| == 256 && m < 256 && k < 256
  {
    if m <= k then b[k - m] else -b[256 + k - m]
  }

  function Rot(b: seq<int>, m: nat): (w: seq<int>)
    requires |b| == 256 && m < 256
    ensures |w| == 256
  {
    seq(256, (k: nat) requires k < 256 => RotAt(b, m, k))
  }

  /** Coefficient k of (the first m terms of a) * b. */
  function ProductAt(a: seq<int>, b: seq<int>, k: nat, m: nat): int
    requires |a| == |b| == 256 && k < 256 && m <= 256
  {
    if m == 0 then 0 else ProductAt(a, b, k, m - 1) + a[m - 1] * RotAt(b, m - 1, k)
  }

  function Partial(a: seq<int>, b: seq<int>, m: nat): (w: seq<int>)
    requires |a| == |b| == 256 && m <= 256
    ensures |w| == 256
  {
    seq(256, (k: nat) requires k < 256 => ProductAt(a, b, k, m))
  }

  /** a * b in Z[X]/(X^256+1): coefficient k is the sum of a[i]*b[k-i] over i <= k minus that of a[i]*b[256+k-i] over i > k. */
  function NegaMul(a: seq<int>, b: seq<int>): (w: seq<int>)
    requires |a| == |b| == 256
    ensures |w| == 256
  {
    Partial(a, b, 256)
  }

  // ----- Red is linear -----

  lemma {:induction false} RedLinear(c: seq<int>, d: seq<int>, e: seq<int>, s: int, n: nat, r: int, i: nat)
    requires n > 0 && |c| == |d| == |e| && forall k | 0 <= k < |c| :: e[k] == c[k] + s * d[k]
    ensures Red(e, n, r, i) == Red(c, n, r, i) + s * Red(d, n, r, i)
    decreases |c| - i
  {
    if i < |c| {
      RedLinear(c, d, e, s, n, r, i + n);
      LinearStep(c[i], d[i], s, r, Red(c, n, r, i + n), Red(d, n, r, i + n));
    }
  }

  lemma LinearStep(c: int, d: int, s: int, r: int, x: int, y: int)
    ensures (c + s * d) + r * (x + s * y) == (c + r * x) + s * (d + r * y)
  {
    assert r * (x + s * y) == r * x + s * (r * y);
  }

  // ----- powers of X and powers of the root -----

  /** Coefficient i of X^m reduced modulo X^n - r, for i below n. */
  ghost function Mono(n: nat, r: int, i: nat, m: nat): int
    requires n > 0
    decreases m - i
  {
    if i > m then 0 else if i == m then 1 else r * Mono(n, r, i + n, m)
  }

  lemma {:induction false} MonoShift(n: nat, r: int, i: nat, m: nat)
    requires n > 0
    ensures Mono(n, r, i + 1, m + 1) == Mono(n, r, i, m)
    decreases m - i
  {
    if i < m {
      MonoShift(n, r, i + n, m);
    }
  }

  /** X^(m+1) wraps the top coefficient round to the bottom, times r. */
  lemma MonoWrap(n: nat, r: int, m: nat)
    requires n > 0
    ensures Mono(n, r, 0, m + 1) == r * Mono(n, r, n - 1, m)
  {
    MonoShift(n, r, n - 1, m);
  }

  lemma {:induction false} RedAppend(c: seq<int>, x: int, n: nat, r: int, i: nat)
    requires n > 0
    ensures Red(c + [x], n, r, i) == Red(c, n, r, i) + x * Mono(n, r, i, |c|)
    decreases |c| - i
  {
    if i < |c| {
      RedAppend(c, x, n, r, i + n);
      AppendStep(c[i], r, x, Red(c, n, r, i + n), Mono(n, r, i + n, |c|));
    }
  }

  lemma AppendStep(c: int, r: int, x: int, y: int, m: int)
    ensures c + r * (y + x * m) == (c + r * y) + x * (r * m)
  {
    assert r * (x * m) == x * (r * m);
  }

  /** In the leaf ring X^Width is the root, and the wrap at X^256 is the wrap at the leaf. */
  ghost predicate LeafRoot(q: int, n: nat, r: int)
    requires q > 0 && n > 0
  {
    && Rem(q, r * Mono(n, r, n - 1, 255)) == Rem(q, -1)
    && forall i | 0 <= i < n - 1 :: Mono(n, r, i, 255) == 0
  }

  // ----- multiplication by X -----

  function ShiftX(c: seq<int>): (w: seq<int>)
    requires |c| == 256
    ensures |w| == 256
  {
    [-c[255]] + c[..255]
  }

  lemma RotStep(b: seq<int>, m: nat)
    requires |b| == 256 && m + 1 < 256
    ensures Rot(b, m + 1) == ShiftX(Rot(b, m))
  {
  }

  lemma RotZero(b: seq<int>)
    requires |b| == 256
    ensures Rot(b, 0) == b
  {
  }

  lemma {:induction false} RedTail(x: int, c: seq<int>, n: nat, r: int, i: nat)
    requires n > 0
    ensures Red([x] + c, n, r, i + 1) == Red(c, n, r, i)
    decreases |c| - i
  {
    if i < |c| {
      RedTail(x, c, n, r, i + n);
    }
  }

  /** Above the bottom coefficient, multiplying by X moves coefficient i - 1 to i. */
  lemma ShiftUp(q: int, c: seq<int>, n: nat, r: int, i: nat)
    requires q > 0 && n > 0 && LeafRoot(q, n, r) && |c| == 256 && i < n - 1
    ensures Red(ShiftX(c), n, r, i + 1) == Red(c, n, r, i)
  {
    RedTail(-c[255], c[..255], n, r, i);
    RedAppend(c[..255], c[255], n, r, i);
    assert c[..255] + [c[255]] == c;
  }

  /** At the bottom, it brings in the top coefficient times the root. */
  lemma ShiftWrap(q: int, c: seq<int>, n: nat, r: int)
    requires q > 0 && n > 0 && LeafRoot(q, n, r) && |c| == 256
    ensures Rem(q, Red(ShiftX(c), n, r, 0)) == Rem(q, r * Red(c, n, r, n - 1))
  {
    hide ModArith.Rem;
    RedTail(-c[255], c[..255], n, r, n - 1);
    RedAppend(c[..255], c[255], n, r, n - 1);
    assert c[..255] + [c[255]] == c;
    var t, w := Red(c, n, r, n - 1), Mono(n, r, n - 1, 255);
    assert Red(ShiftX(c), n, r, 0) == -c[255] + r * (t - c[255] * w);
    WrapStep(c[255], r, t, w);
    RemMul(q, c[255], c[255], r * w, -1);
    RemSub(q, r * t - c[255], r * t - c[255], c[255] * (r * w), c[255] * -1);
  }

  lemma WrapStep(x: int, r: int, t: int, w: int)
    ensures -x + r * (t - x * w) == (r * t - x) - x * (r * w)
  {
    assert r * (x * w) == x * (r * w);
  }

  // ----- leaves of width 1 (ML-DSA) -----

  lemma {:induction false} RotLeaf1(q: int, b: seq<int>, r: int, m: nat)
    requires q > 0 && LeafRoot(q, 1, r) && |b| == 256 && m < 256
    ensures Rem(q, Red(Rot(b, m), 1, r, 0)) == Rem(q, Mono(1, r, 0, m) * Red(b, 1, r, 0))
  {
    hide ModArith.Rem;
    if m == 0 {
      RotZero(b);
    } else {
      RotLeaf1(q, b, r, m - 1);
      RotStep(b, m - 1);
      ShiftWrap(q, Rot(b, m - 1), 1, r);
      MonoWrap(1, r, m - 1);
      var e, u := Red(b, 1, r, 0), Mono(1, r, 0, m - 1);
      RemMul(q, r, r, Red(Rot(b, m - 1), 1, r, 0), u * e);
      assert r * (u * e) == (r * u) * e;
    }
  }

  lemma {:induction false} PartialLeaf1(q: int, a: seq<int>, b: seq<int>, r: int, m: nat)
    requires q > 0 && LeafRoot(q, 1, r) && |a| == |b| == 256 && m <= 256
    ensures Rem(q, Red(Partial(a, b, m), 1, r, 0)) == Rem(q, Red(a[..m], 1, r, 0) * Red(b, 1, r, 0))
  {
    hide ModArith.Rem;
    if m == 0 {
      RedZero(Partial(a, b, 0), 1, r, 0);
    } else {
      PartialLeaf1(q, a, b, r, m - 1);
      RotLeaf1(q, b, r, m - 1);
      RedLinear(Partial(a, b, m - 1), Rot(b, m - 1), Partial(a, b, m), a[m - 1], 1, r, 0);
      assert a[..m] == a[..m - 1] + [a[m - 1]];
      RedAppend(a[..m - 1], a[m - 1], 1, r, 0);
      var p, e, u, x := Red(a[..m - 1], 1, r, 0), Red(b, 1, r, 0), Mono(1, r, 0, m - 1), a[m - 1];
      RemMul(q, x, x, Red(Rot(b, m - 1), 1, r, 0), u * e);
      RemAdd(q, Red(Partial(a, b, m - 1), 1, r, 0), p * e, x * Red(Rot(b, m - 1), 1, r, 0), x * (u * e));
      Leaf1Step(p, x, u, e);
    }
  }

  lemma Leaf1Step(p: int, x: int, u: int, e: int)
    ensures p * e + x * (u * e) == (p + x * u) * e
  {
  }

  lemma {:induction false} RedZero(c: seq<int>, n: nat, r: int, i: nat)
    requires n > 0 && forall k | 0 <= k < |c| :: c[k] == 0
    ensures Red(c, n, r, i) == 0
    decreases |c| - i
  {
    if i < |c| {
      RedZero(c, n, r, i + n);
    }
  }

  /** Evaluation at a leaf root turns the ring product into a product of numbers. */
  lemma ProductLeaf1(q: int, a: seq<int>, b: seq<int>, r: int)
    requires q > 0 && LeafRoot(q, 1, r) && |a| == |b| == 256
    ensures Rem(q, Red(NegaMul(a, b), 1, r, 0)) == Rem(q, Red(a, 1, r, 0) * Red(b, 1, r, 0))
  {
    hide ModArith.Rem, Red, Partial;
    PartialLeaf1(q, a, b, r, 256);
    assert a[..256] == a;
  }

  // ----- leaves of width 2 (ML-KEM) -----

  /** (x, y) is (u + w*X) * (e + o*X) reduced modulo X^2 - r, up to multiples of q. */
  ghost predicate IsProduct2(q: int, r: int, u: int, w: int, e: int, o: int, x: int, y: int)
    requires q > 0
  {
    Rem(q, x) == Rem(q, u * e + r * (w * o)) && Rem(q, y) == Rem(q, u * o + w * e)
  }

  ghost predicate RotIsProduct(q: int, b: seq<int>, r: int, m: nat)
    requires q > 0 && |b| == 256 && m < 256
  {
    IsProduct2(q, r, Mono(2, r, 0, m), Mono(2, r, 1, m), Red(b, 2, r, 0), Red(b, 2, r, 1),
               Red(Rot(b, m), 2, r, 0), Red(Rot(b, m), 2, r, 1))
  }

  lemma {:induction false} RotLeaf2(q: int, b: seq<int>, r: int, m: nat)
    requires q > 0 && LeafRoot(q, 2, r) && |b| == 256 && m < 256
    ensures RotIsProduct(q, b, r, m)
  {
    if m == 0 {
      RotLeaf2Base(q, b, r);
    } else {
      RotLeaf2(q, b, r, m - 1);
      RotLeaf2Step(q, b, r, m);
    }
  }

  lemma RotLeaf2Base(q: int, b: seq<int>, r: int)
    requires q > 0 && |b| == 256
    ensures RotIsProduct(q, b, r, 0)
  {
    hide ModArith.Rem, Red, Rot;
    RotZero(b);
    assert Mono(2, r, 0, 0) == 1 && Mono(2, r, 1, 0) == 0;
  }

  lemma RotLeaf2Step(q: int, b: seq<int>, r: int, m: nat)
    requires q > 0 && LeafRoot(q, 2, r) && |b| == 256 && 0 < m < 256 && RotIsProduct(q, b, r, m - 1)
    ensures RotIsProduct(q, b, r, m)
  {
    hide ModArith.Rem, Red, Mono, Rot, ShiftX, LeafRoot;
    var prev := Rot(b, m - 1);
    RotStep(b, m - 1);
    ShiftWrap(q, prev, 2, r);
    ShiftUp(q, prev, 2, r, 0);
    MonoWrap(2, r, m - 1);
    MonoShift(2, r, 0, m - 1);
    TurnLeaf2(q, r, Red(b, 2, r, 0), Red(b, 2, r, 1), Mono(2, r, 0, m - 1), Mono(2, r, 1, m - 1), Red(prev, 2, r, 1));
  }

  lemma TurnLeaf2(q: int, r: int, e: int, o: int, u: int, w: int, x: int)
    requires q > 0 && Rem(q, x) == Rem(q, u * o + w * e)
    ensures Rem(q, r * x) == Rem(q, (r * w) * e + r * (u * o))
  {
    hide ModArith.Rem;
    RemMul(q, r, r, x, u * o + w * e);
    RotStep2(r, u, w, e, o);
  }

  lemma RotStep2(r: int, u: int, w: int, e: int, o: int)
    ensures r * (u * o + w * e) == (r * w) * e + r * (u * o)
  {
    assert r * (w * e) == (r * w) * e;
  }

  ghost predicate PartialIsProduct(q: int, a: seq<int>, b: seq<int>, r: int, m: nat)
    requires q > 0 && |a| == |b| == 256 && m <= 256
  {
    IsProduct2(q, r, Red(a[..m], 2, r, 0), Red(a[..m], 2, r, 1), Red(b, 2, r, 0), Red(b, 2, r, 1),
               Red(Partial(a, b, m), 2, r, 0), Red(Partial(a, b, m), 2, r, 1))
  }

  lemma {:induction false} PartialLeaf2(q: int, a: seq<int>, b: seq<int>, r: int, m: nat)
    requires q > 0 && LeafRoot(q, 2, r) && |a| == |b| == 256 && m <= 256
    ensures PartialIsProduct(q, a, b, r, m)
  {
    hide ModArith.Rem;
    if m == 0 {
      RedZero(Partial(a, b, 0), 2, r, 0);
      RedZero(Partial(a, b, 0), 2, r, 1);
    } else {
      PartialLeaf2(q, a, b, r, m - 1);
      RotLeaf2(q, b, r, m - 1);
      var x := a[m - 1];
      RedLinear(Partial(a, b, m - 1), Rot(b, m - 1), Partial(a, b, m), x, 2, r, 0);
      RedLinear(Partial(a, b, m - 1), Rot(b, m - 1), Partial(a, b, m), x, 2, r, 1);
      assert a[..m] == a[..m - 1] + [x];
      RedAppend(a[..m - 1], x, 2, r, 0);
      RedAppend(a[..m - 1], x, 2, r, 1);
      hide Red, Rot, Mono, LeafRoot, IsProduct2;
      AddTerm2(q, r, x, Red(b, 2, r, 0), Red(b, 2, r, 1), Red(a[..m - 1], 2, r, 0), Red(a[..m - 1], 2, r, 1),
               Mono(2, r, 0, m - 1), Mono(2, r, 1, m - 1),
               Red(Partial(a, b, m - 1), 2, r, 0), Red(Partial(a, b, m - 1), 2, r, 1),
               Red(Rot(b, m - 1), 2, r, 0), Red(Rot(b, m - 1), 2, r, 1));
    }
  }

  lemma AddTerm2(q: int, r: int, x: int, e: int, o: int, u: int, w: int, s: int, t: int,
                 pe: int, po: int, re: int, ro: int)
    requires q > 0 && IsProduct2(q, r, u, w, e, o, pe, po) && IsProduct2(q, r, s, t, e, o, re, ro)
    ensures IsProduct2(q, r, u + x * s, w + x * t, e, o, pe + x * re, po + x * ro)
  {
    hide ModArith.Rem;
    RemMul(q, x, x, re, s * e + r * (t * o));
    RemMul(q, x, x, ro, s * o + t * e);
    RemAdd(q, pe, u * e + r * (w * o), x * re, x * (s * e + r * (t * o)));
    RemAdd(q, po, u * o + w * e, x * ro, x * (s * o + t * e));
    EvenStep(r, x, e, o, u, w, s, t);
    OddStep(x, e, o, u, w, s, t);
  }

  lemma EvenStep(r: int, x: int, e: int, o: int, u: int, w: int, s: int, t: int)
    ensures (u * e + r * (w * o)) + x * (s * e + r * (t * o)) == (u + x * s) * e + r * ((w + x * t) * o)
  {
    assert x * (s * e + r * (t * o)) == x * (s * e) + x * (r * (t * o));
    assert x * (s * e) == (x * s) * e && x * (r * (t * o)) == r * ((x * t) * o);
    assert (w + x * t) * o == w * o + (x * t) * o;
    assert r * (w * o + (x * t) * o) == r * (w * o) + r * ((x * t) * o);
  }

  lemma OddStep(x: int, e: int, o: int, u: int, w: int, s: int, t: int)
    ensures (u * o + w * e) + x * (s * o + t * e) == (u + x * s) * o + (w + x * t) * e
  {
    assert x * (s * o + t * e) == (x * s) * o + (x * t) * e;
  }

  /** At a leaf of width two the ring product is the product modulo X^2 - r. */
  lemma ProductLeaf2(q: int, a: seq<int>, b: seq<int>, r: int)
    requires q > 0 && LeafRoot(q, 2, r) && |a| == |b| == 256
    ensures IsProduct2(q, r, Red(a, 2, r, 0), Red(a, 2, r, 1), Red(b, 2, r, 0), Red(b, 2, r, 1),
                       Red(NegaMul(a, b), 2, r, 0), Red(NegaMul(a, b), 2, r, 1))
  {
    hide ModArith.Rem, Red, Partial, IsProduct2;
    PartialLeaf2(q, a, b, r, 256);
    assert a[..256] == a;
  }

  // ----- every node of the tree has a leaf root -----

  ghost function Pow(r: int, e: nat): int {
    if e == 0 then 1 else r * Pow(r, e - 1)
  }

  lemma {:induction false} PowSquare(z: int, m: nat)
    ensures Pow(z, 2 * m) == Pow(z * z, m)
  {
    if m > 0 {
      PowSquare(z, m - 1);
      assert Pow(z, 2 * m) == z * (z * Pow(z, 2 * (m - 1)));
      assert z * (z * Pow(z, 2 * (m - 1))) == (z * z) * Pow(z, 2 * (m - 1));
    }
  }

  lemma {:induction false} PowCong(q: int, r: int, s: int, e: nat)
    requires q > 0 && Rem(q, r) == Rem(q, s)
    ensures Rem(q, Pow(r, e)) == Rem(q, Pow(s, e))
  {
    if e > 0 {
      PowCong(q, r, s, e - 1);
      RemMul(q, r, s, Pow(r, e - 1), Pow(s, e - 1));
    }
  }

  /** A node among the m of its level is an m-th root of -1. */
  lemma {:induction false} NodeRoot(q: int, z: seq<int>, levels: nat, l: nat, k: nat)
    requires GoodZetas(q, z, levels) && l <= levels && Blocks(l) <= k < 2 * Blocks(l) && k < 2 * |z|
    ensures Rem(q, Pow(Root(z, k), Blocks(l))) == Rem(q, -1)
    decreases l
  {
    hide ModArith.Rem;
    if l == 0 {
      assert Pow(-1, 1) == -1 * Pow(-1, 0);
    } else {
      Halving(l - 1);
      BlocksGrow(l, levels);
      NodeRoot(q, z, levels, l - 1, k / 2);
      NodeRootStep(q, z, Blocks(l - 1), k);
    }
  }

  lemma NodeRootStep(q: int, z: seq<int>, m: nat, k: nat)
    requires q > 0 && Splits(q, z) && 2 <= k < 2 * |z| && Rem(q, Pow(Root(z, k / 2), m)) == Rem(q, -1)
    ensures Rem(q, Pow(Root(z, k), 2 * m)) == Rem(q, -1)
  {
    hide ModArith.Rem, Pow;
    var w, r := z[k / 2], Root(z, k);
    assert r * r == w * w by {
      if k % 2 != 0 {
        assert r == -w;
      }
    }
    PowSquare(r, m);
    PowCong(q, w * w, Root(z, k / 2), m);
  }

  lemma {:induction false} MonoPow1(r: int, i: nat)
    requires i <= 255
    ensures Mono(1, r, i, 255) == Pow(r, 255 - i)
    decreases 255 - i
  {
    if i < 255 {
      MonoPow1(r, i + 1);
    }
  }

  lemma {:induction false} MonoPow2(r: int, i: nat)
    requires i <= 256
    ensures Mono(2, r, i, 255) == if i % 2 == 1 then Pow(r, (255 - i) / 2) else 0
    decreases 256 - i
  {
    if i < 255 {
      MonoPow2(r, i + 2);
    }
  }

  lemma LeafRoot1(q: int, z: seq<int>, k: nat)
    requires GoodZetas(q, z, 8) && 256 <= k < 512
    ensures LeafRoot(q, 1, Root(z, k))
  {
    NodeRoot(q, z, 8, 8, k);
    MonoPow1(Root(z, k), 0);
  }

  lemma LeafRoot2(q: int, z: seq<int>, k: nat)
    requires GoodZetas(q, z, 7) && 128 <= k < 256
    ensures LeafRoot(q, 2, Root(z, k))
  {
    NodeRoot(q, z, 7, 7, k);
    MonoPow2(Root(z, k), 1);
    MonoPow2(Root(z, k), 0);
  }
}
