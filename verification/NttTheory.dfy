/** The number-theoretic transform as a chain of Chinese-remainder splittings of Z_q[X]/(X^256+1),
    for any modulus and any table of roots that satisfies GoodZetas.

    Level l sees the 256 coefficients as Blocks(l) blocks of Width(l) coefficients; block b holds the
    polynomial reduced modulo X^Width(l) - Root(Blocks(l) + b). */
module NttTheory {
  import opened ModArith

  // ----- levels and blocks -----

  function Width(l: nat): (n: nat)
    requires l <= 8
    ensures n > 0
  {
    match l
    case 0 => 256 case 1 => 128 case 2 => 64 case 3 => 32 case 4 => 16 case 5 => 8 case 6 => 4 case 7 => 2
    case _ => 1
  }

  function Blocks(l: nat): (m: nat)
    requires l <= 8
    ensures m > 0
  {
    match l
    case 0 => 1 case 1 => 2 case 2 => 4 case 3 => 8 case 4 => 16 case 5 => 32 case 6 => 64 case 7 => 128
    case _ => 256
  }

  lemma Halving(l: nat)
    requires l <= 8
    ensures Width(l) * Blocks(l) == 256
    ensures l < 8 ==> Width(l) == 2 * Width(l + 1) && Blocks(l + 1) == 2 * Blocks(l)
  {
  }

  lemma BlocksGrow(l: nat, m: nat)
    requires l <= m <= 8
    ensures Blocks(l) <= Blocks(m)
  {
  }

  /** The block that position p falls in when every block has n coefficients, and its offset there. */
  function BlockOf(n: nat, p: nat): (b: nat)
    requires n > 0
    decreases p
  {
    if p < n then 0 else 1 + BlockOf(n, p - n)
  }

  function OffsetOf(n: nat, p: nat): (i: nat)
    requires n > 0
    ensures i < n
    decreases p
  {
    if p < n then p else OffsetOf(n, p - n)
  }

  lemma {:induction false} BlockOffset(n: nat, p: nat)
    requires n > 0
    ensures p == BlockOf(n, p) * n + OffsetOf(n, p)
    decreases p
  {
    if p >= n {
      BlockOffset(n, p - n);
    }
  }

  lemma {:induction false} BlockIndex(n: nat, b: nat, i: nat)
    requires i < n
    ensures b * n + i >= 0 && BlockOf(n, b * n + i) == b && OffsetOf(n, b * n + i) == i
    decreases b
  {
    if b > 0 {
      assert b * n + i == ((b - 1) * n + i) + n;
      BlockIndex(n, b - 1, i);
    }
  }

  lemma BlockBound(n: nat, m: nat, p: nat)
    requires n > 0 && p < n * m
    ensures BlockOf(n, p) < m
  {
    BlockOffset(n, p);
    var b := BlockOf(n, p);
    assert b >= m ==> b * n >= m * n;
  }

  lemma DoubleBlock(h: int, b: int)
    ensures b * (2 * h) == (2 * b) * h && (2 * b + 1) * h == (2 * b) * h + h
  {
  }

  lemma HalfBlock(h: nat, b: nat, i: nat)
    requires h > 0 && i < 2 * h
    ensures b * (2 * h) + i >= 0
    ensures BlockOf(h, b * (2 * h) + i) == 2 * b + (if i < h then 0 else 1)
    ensures OffsetOf(h, b * (2 * h) + i) == if i < h then i else i - h
  {
    hide BlockOf, OffsetOf;
    DoubleBlock(h, b);
    if i < h {
      BlockIndex(h, 2 * b, i);
    } else {
      BlockIndex(h, 2 * b + 1, i - h);
    }
  }

  /** Position p has a place at level l. */
  lemma Position(l: nat, p: nat)
    requires l <= 8 && p < 256
    ensures BlockOf(Width(l), p) < Blocks(l)
  {
    Halving(l);
    BlockBound(Width(l), Blocks(l), p);
  }

  /** Blocks of a level tile the 256 positions. */
  lemma Tiling(l: nat, b: nat)
    requires l <= 8 && b <= Blocks(l)
    ensures b < Blocks(l) ==> b * Width(l) + Width(l) <= 256 && (b + 1) * Width(l) == b * Width(l) + Width(l)
    ensures b == Blocks(l) ==> b * Width(l) == 256
  {
    Halving(l);
    if b < Blocks(l) {
      assert (b + 1) * Width(l) <= Blocks(l) * Width(l);
    }
  }

  /** The partner of position p in its butterfly, and where p goes when blocks of 2h become blocks of h. */
  ghost predicate Partnered(h: nat, m: nat, p: nat)
    requires h > 0
  {
    var b, i := BlockOf(2 * h, p), OffsetOf(2 * h, p);
    && b < m
    && (i < h ==> p + h < 256 && BlockOf(2 * h, p + h) == b && OffsetOf(2 * h, p + h) == i + h
                  && BlockOf(h, p) == 2 * b && OffsetOf(h, p) == i)
    && (i >= h ==> p >= h && BlockOf(2 * h, p - h) == b && OffsetOf(2 * h, p - h) == i - h
                   && BlockOf(h, p) == 2 * b + 1 && OffsetOf(h, p) == i - h)
  }

  lemma Partner(l: nat, p: nat)
    requires l < 8 && p < 256
    ensures Width(l) == 2 * Width(l + 1) && Blocks(l + 1) == 2 * Blocks(l)
    ensures Partnered(Width(l + 1), Blocks(l), p)
  {
    Halving(l);
    PartnerIn(Width(l + 1), Blocks(l), p);
  }

  lemma BlockFits(n: nat, m: nat, b: nat)
    requires n * m == 256 && b < m
    ensures 0 <= b * n && b * n + n <= 256
  {
    assert (b + 1) * n <= m * n;
  }

  lemma PartnerIn(h: nat, m: nat, p: nat)
    requires h > 0 && p < 256 && (2 * h) * m == 256
    ensures Partnered(h, m, p)
  {
    var b, i := BlockOf(2 * h, p), OffsetOf(2 * h, p);
    BlockBound(2 * h, m, p);
    BlockOffset(2 * h, p);
    HalfBlock(h, b, i);
    BlockFits(2 * h, m, b);
    PartnerAt(h, m, p, b, i, b * (2 * h));
  }

  lemma PartnerAt(h: nat, m: nat, p: nat, b: nat, i: nat, start: nat)
    requires h > 0 && start == b * (2 * h) && start + 2 * h <= 256 && p == start + i && b < m
    requires b == BlockOf(2 * h, p) && i == OffsetOf(2 * h, p)
    requires BlockOf(h, p) == 2 * b + (if i < h then 0 else 1) && OffsetOf(h, p) == if i < h then i else i - h
    ensures Partnered(h, m, p)
  {
    hide BlockOf, OffsetOf;
    if i < h {
      BlockIndex(2 * h, b, i + h);
    } else {
      BlockIndex(2 * h, b, i - h);
    }
  }

  // ----- the table of roots -----

  /** z[k] is the root that splits node k of the tree; node 2k is its + branch, node 2k + 1 its - branch. */
  ghost function Root(z: seq<int>, k: nat): int
    requires 1 <= k < 2 * |z|
  {
    if k == 1 then -1 else if k % 2 == 0 then z[k / 2] else -z[k / 2]
  }

  lemma RootBranches(z: seq<int>, k: nat)
    requires 1 <= k < |z|
    ensures Root(z, 2 * k) == z[k] && Root(z, 2 * k + 1) == -z[k]
  {
  }

  /** Among the m nodes m, ..., 2m - 1 of a level, the node whose root is the negated inverse of node m + b. */
  function Mirror(m: nat, b: nat): (k: nat)
    requires b < m
    ensures m <= k < 2 * m
  {
    2 * m - 1 - b
  }

  ghost predicate GoodZetas(q: int, z: seq<int>, levels: nat)
  {
    && q > 1 && 1 <= levels <= 8 && |z| == Blocks(levels)
    && Splits(q, z)
    && forall l | 0 <= l < levels :: BlocksGrow(l + 1, levels); Mirrored(q, z, Blocks(l))
  }

  ghost predicate Splits(q: int, z: seq<int>)
    requires q > 0
  {
    forall k | 1 <= k < |z| :: Rem(q, z[k] * z[k]) == Rem(q, Root(z, k))
  }

  ghost predicate Mirrored(q: int, z: seq<int>, m: nat)
    requires q > 0 && |z| >= 2 * m
  {
    forall b | 0 <= b < m :: Rem(q, z[m + b] * z[Mirror(m, b)]) == Rem(q, -1)
  }

  // ----- butterflies -----

  function FwdLow(q: int, zeta: int, x: int, y: int): int
    requires q > 0
  {
    Rem(q, x + zeta * y)
  }

  function FwdHigh(q: int, zeta: int, x: int, y: int): int
    requires q > 0
  {
    Rem(q, x - zeta * y)
  }

  function InvLow(q: int, x: int, y: int): int
    requires q > 0
  {
    Rem(q, x + y)
  }

  function InvHigh(q: int, zeta: int, x: int, y: int): int
    requires q > 0
  {
    Rem(q, zeta * (x - y))
  }

  /** A butterfly followed by the inverse butterfly doubles both of its inputs. */
  lemma UndoButterfly(q: int, z: int, zi: int, x: int, y: int)
    requires q > 0 && Rem(q, z * zi) == Rem(q, 1)
    ensures InvLow(q, FwdLow(q, z, x, y), FwdHigh(q, z, x, y)) == Rem(q, 2 * x)
    ensures InvHigh(q, zi, FwdLow(q, z, x, y), FwdHigh(q, z, x, y)) == Rem(q, 2 * y)
  {
    hide ModArith.Rem;
    var s, d := Rem(q, x + z * y), Rem(q, x - z * y);
    RemRem(q, x + z * y);
    RemRem(q, x - z * y);
    RemAdd(q, s, x + z * y, d, x - z * y);
    RemSub(q, s, x + z * y, d, x - z * y);
    RemMul(q, zi, zi, s - d, 2 * (z * y));
    RemMul(q, z * zi, 1, 2 * y, 2 * y);
    MulAround(zi, z, y);
  }

  lemma NegatedInverse(q: int, z: int, y: int)
    requires q > 0 && Rem(q, z * y) == Rem(q, -1)
    ensures Rem(q, z * -y) == Rem(q, 1)
  {
    hide ModArith.Rem;
    RemSub(q, 0, 0, z * y, -1);
    assert z * -y == 0 - z * y;
  }

  lemma MulAround(zi: int, z: int, y: int)
    ensures zi * (2 * (z * y)) == (z * zi) * (2 * y)
  {
  }

  lemma ScaleLow(q: int, s: int, x: int, y: int)
    requires q > 0
    ensures InvLow(q, Rem(q, s * x), Rem(q, s * y)) == Rem(q, s * InvLow(q, x, y))
  {
    hide ModArith.Rem;
    RemRem(q, s * x);
    RemRem(q, s * y);
    RemRem(q, x + y);
    RemAdd(q, Rem(q, s * x), s * x, Rem(q, s * y), s * y);
    RemMul(q, s, s, Rem(q, x + y), x + y);
    assert s * x + s * y == s * (x + y);
  }

  lemma ScaleHigh(q: int, s: int, zi: int, x: int, y: int)
    requires q > 0
    ensures InvHigh(q, zi, Rem(q, s * x), Rem(q, s * y)) == Rem(q, s * InvHigh(q, zi, x, y))
  {
    hide ModArith.Rem;
    RemRem(q, s * x);
    RemRem(q, s * y);
    RemRem(q, zi * (x - y));
    RemSub(q, Rem(q, s * x), s * x, Rem(q, s * y), s * y);
    RemMul(q, zi, zi, Rem(q, s * x) - Rem(q, s * y), s * x - s * y);
    RemMul(q, s, s, Rem(q, zi * (x - y)), zi * (x - y));
    ScaleAround(s, zi, x, y);
  }

  lemma ScaleAround(s: int, zi: int, x: int, y: int)
    ensures zi * (s * x - s * y) == s * (zi * (x - y))
  {
    assert s * x - s * y == s * (x - y);
  }

  // ----- layers -----

  /** One layer of forward butterflies: node Blocks(l) + b splits block b. */
  function Fwd(q: int, z: seq<int>, v: seq<int>, l: nat): (w: seq<int>)
    requires q > 0 && l < 8 && |v| == 256 && |z| >= 2 * Blocks(l)
    ensures |w| == 256
  {
    seq(256, (p: nat) requires p < 256 => Partner(l, p); FwdAt(q, z, v, Width(l + 1), Blocks(l), p))
  }

  function FwdAt(q: int, z: seq<int>, v: seq<int>, h: nat, m: nat, p: nat): int
    requires q > 0 && h > 0 && |v| == 256 && |z| >= 2 * m && p < 256 && Partnered(h, m, p)
  {
    var zeta := z[m + BlockOf(2 * h, p)];
    if OffsetOf(2 * h, p) < h then FwdLow(q, zeta, v[p], v[p + h]) else FwdHigh(q, zeta, v[p - h], v[p])
  }

  /** One layer of inverse butterflies, without the division by two. */
  function Inv(q: int, z: seq<int>, v: seq<int>, l: nat): (w: seq<int>)
    requires q > 0 && l < 8 && |v| == 256 && |z| >= 2 * Blocks(l)
    ensures |w| == 256
  {
    seq(256, (p: nat) requires p < 256 => Partner(l, p); InvAt(q, z, v, Width(l + 1), Blocks(l), p))
  }

  function InvAt(q: int, z: seq<int>, v: seq<int>, h: nat, m: nat, p: nat): int
    requires q > 0 && h > 0 && |v| == 256 && |z| >= 2 * m && p < 256 && Partnered(h, m, p)
  {
    var zeta := -z[Mirror(m, BlockOf(2 * h, p))];
    if OffsetOf(2 * h, p) < h then InvLow(q, v[p], v[p + h]) else InvHigh(q, zeta, v[p - h], v[p])
  }

  function Scale(q: int, s: int, v: seq<int>): (w: seq<int>)
    requires q > 0
    ensures |w| == |v|
  {
    seq(|v|, (p: nat) requires p < |v| => Rem(q, s * v[p]))
  }

  /** The residues of a vector. */
  function Canon(q: int, v: seq<int>): (w: seq<int>)
    requires q > 0
    ensures |w| == |v|
  {
    seq(|v|, (p: nat) requires p < |v| => Rem(q, v[p]))
  }

  /** The layers l, l + 1, ..., levels - 1 in turn. */
  function NttFrom(q: int, z: seq<int>, v: seq<int>, l: nat, levels: nat): (w: seq<int>)
    requires q > 0 && l <= levels <= 8 && |v| == 256 && |z| == Blocks(levels)
    ensures |w| == 256
    decreases levels - l
  {
    if l == levels then v
    else BlocksGrow(l + 1, levels); NttFrom(q, z, Fwd(q, z, v, l), l + 1, levels)
  }

  /** The inverse layers levels - 1, ..., l + 1, l in turn. */
  function InvTo(q: int, z: seq<int>, v: seq<int>, l: nat, levels: nat): (w: seq<int>)
    requires q > 0 && l <= levels <= 8 && |v| == 256 && |z| == Blocks(levels)
    ensures |w| == 256
    decreases levels - l
  {
    if l == levels then v
    else BlocksGrow(l + 1, levels); Inv(q, z, InvTo(q, z, v, l + 1, levels), l)
  }

  // ----- forward transform = reduction modulo X^n - root -----

  /** Coefficient i of c reduced modulo X^n - r, evaluated by Horner's rule. */
  ghost function Red(c: seq<int>, n: nat, r: int, i: nat): int
    requires n > 0
    decreases |c| - i
  {
    if i >= |c| then 0 else c[i] + r * Red(c, n, r, i + n)
  }

  /** Splitting X^2h - z*z into (X^h - z)(X^h + z). */
  lemma {:induction false} RedSplit(c: seq<int>, h: nat, z: int, i: nat)
    requires h > 0
    ensures Red(c, h, z, i) == Red(c, 2 * h, z * z, i) + z * Red(c, 2 * h, z * z, i + h)
    decreases |c| - i
  {
    if i < |c| {
      RedSplit(c, h, z, i + h);
      SplitStep(c[i], z, Red(c, 2 * h, z * z, i + h), Red(c, 2 * h, z * z, i + 2 * h));
    }
  }

  lemma SplitStep(a: int, z: int, x: int, y: int)
    ensures a + z * (x + z * y) == a + (z * z) * y + z * x
  {
  }

  lemma {:induction false} RedCong(q: int, c: seq<int>, n: nat, r: int, s: int, i: nat)
    requires q > 0 && n > 0 && Rem(q, r) == Rem(q, s)
    ensures Rem(q, Red(c, n, r, i)) == Rem(q, Red(c, n, s, i))
    decreases |c| - i
  {
    hide ModArith.Rem;
    if i < |c| {
      RedCong(q, c, n, r, s, i + n);
      RemMul(q, r, s, Red(c, n, r, i + n), Red(c, n, s, i + n));
      RemAdd(q, c[i], c[i], r * Red(c, n, r, i + n), s * Red(c, n, s, i + n));
    }
  }

  /** The residue of c that position p holds when there are m blocks of n coefficients. */
  ghost function RedAt(z: seq<int>, c: seq<int>, n: nat, m: nat, p: nat): int
    requires n > 0 && BlockOf(n, p) < m && m <= |z|
  {
    Red(c, n, Root(z, m + BlockOf(n, p)), OffsetOf(n, p))
  }

  ghost predicate Represents(q: int, z: seq<int>, c: seq<int>, l: nat, v: seq<int>)
    requires q > 0 && l <= 8
  {
    && |v| == 256 && |z| >= Blocks(l)
    && forall p | 0 <= p < 256 :: (Position(l, p); v[p] == Rem(q, RedAt(z, c, Width(l), Blocks(l), p)))
  }

  /** One layer of butterflies is one level of Chinese-remainder splitting. */
  lemma FwdSplits(q: int, z: seq<int>, c: seq<int>, l: nat, levels: nat, v: seq<int>)
    requires GoodZetas(q, z, levels) && l < levels && Represents(q, z, c, l, v)
    ensures |z| >= 2 * Blocks(l) && Represents(q, z, c, l + 1, Fwd(q, z, v, l))
  {
    BlocksGrow(l + 1, levels);
    Halving(l);
    forall p | 0 <= p < 256
      ensures (Position(l + 1, p); Fwd(q, z, v, l)[p] == Rem(q, RedAt(z, c, Width(l + 1), Blocks(l + 1), p)))
    {
      Partner(l, p);
      Position(l + 1, p);
      var h := Width(l + 1);
      var o := if OffsetOf(2 * h, p) < h then p + h else p - h;
      Position(l, p);
      Position(l, o);
      FwdSplitsAt(q, z, c, h, Blocks(l), v, p, o);
    }
  }

  lemma FwdSplitsAt(q: int, z: seq<int>, c: seq<int>, h: nat, m: nat, v: seq<int>, p: nat, o: nat)
    requires q > 0 && h > 0 && |v| == 256 && |z| >= 2 * m && p < 256 && Partnered(h, m, p) && Splits(q, z)
    requires o == if OffsetOf(2 * h, p) < h then p + h else p - h
    requires v[p] == Rem(q, RedAt(z, c, 2 * h, m, p)) && v[o] == Rem(q, RedAt(z, c, 2 * h, m, o))
    ensures FwdAt(q, z, v, h, m, p) == Rem(q, RedAt(z, c, h, 2 * m, p))
  {
    hide ModArith.Rem, Root, Red, BlockOf, OffsetOf, FwdLow, FwdHigh;
    var k, i := m + BlockOf(2 * h, p), OffsetOf(2 * h, p);
    RootBranches(z, k);
    if i < h {
      ReductionSplits(q, z, c, h, k, i, v[p], v[o]);
    } else {
      ReductionSplits(q, z, c, h, k, i - h, v[o], v[p]);
    }
  }

  lemma ReductionSplits(q: int, z: seq<int>, c: seq<int>, h: nat, k: nat, j: nat, x: int, y: int)
    requires q > 0 && h > 0 && 1 <= k && k < |z| && Splits(q, z)
    requires x == Rem(q, Red(c, 2 * h, Root(z, k), j)) && y == Rem(q, Red(c, 2 * h, Root(z, k), j + h))
    ensures FwdLow(q, z[k], x, y) == Rem(q, Red(c, h, z[k], j))
    ensures FwdHigh(q, z[k], x, y) == Rem(q, Red(c, h, -z[k], j))
  {
    hide ModArith.Rem, FwdLow, FwdHigh, Red, Root;
    var r, zeta := Root(z, k), z[k];
    RedCong(q, c, 2 * h, r, zeta * zeta, j);
    RedCong(q, c, 2 * h, r, zeta * zeta, j + h);
    var x', y' := Red(c, 2 * h, zeta * zeta, j), Red(c, 2 * h, zeta * zeta, j + h);
    RedSplit(c, h, zeta, j);
    RedSplit(c, h, -zeta, j);
    assert (-zeta) * (-zeta) == zeta * zeta;
    ButterflyOn(q, zeta, x, y, x', y');
  }

  lemma ButterflyOn(q: int, zeta: int, x: int, y: int, x': int, y': int)
    requires q > 0 && x == Rem(q, x') && y == Rem(q, y')
    ensures FwdLow(q, zeta, x, y) == Rem(q, x' + zeta * y')
    ensures FwdHigh(q, zeta, x, y) == Rem(q, x' + (-zeta) * y')
  {
    hide ModArith.Rem;
    RemRem(q, x');
    RemRem(q, y');
    RemMul(q, zeta, zeta, y, y');
    RemAdd(q, x, x', zeta * y, zeta * y');
    RemSub(q, x, x', zeta * y, zeta * y');
    assert (-zeta) * y' == -(zeta * y');
  }

  lemma {:induction false} NttFromSplits(q: int, z: seq<int>, c: seq<int>, l: nat, levels: nat, v: seq<int>)
    requires GoodZetas(q, z, levels) && l <= levels && Represents(q, z, c, l, v)
    ensures Represents(q, z, c, levels, NttFrom(q, z, v, l, levels))
    decreases levels - l
  {
    if l < levels {
      FwdSplits(q, z, c, l, levels, v);
      NttFromSplits(q, z, c, l + 1, levels, Fwd(q, z, v, l));
    }
  }

  /** The whole forward transform computes the residues of c at every leaf of the tree. */
  lemma NttIsReduction(q: int, z: seq<int>, c: seq<int>, levels: nat)
    requires GoodZetas(q, z, levels) && |c| == 256
    ensures Represents(q, z, c, levels, NttFrom(q, z, Canon(q, c), 0, levels))
  {
    forall p | 0 <= p < 256
      ensures (Position(0, p); Canon(q, c)[p] == Rem(q, RedAt(z, c, Width(0), Blocks(0), p)))
    {
      Position(0, p);
      assert Red(c, 256, -1, p) == c[p] + (-1) * Red(c, 256, -1, p + 256);
      assert Red(c, 256, -1, p + 256) == 0;
    }
    NttFromSplits(q, z, c, 0, levels, Canon(q, c));
  }

  // ----- the inverse transform -----

  /** The inverse layer undoes the forward layer up to a factor of two. */
  lemma InvUndoesFwd(q: int, z: seq<int>, v: seq<int>, l: nat, levels: nat)
    requires GoodZetas(q, z, levels) && l < levels && |v| == 256
    ensures |z| >= 2 * Blocks(l) && Inv(q, z, Fwd(q, z, v, l), l) == Scale(q, 2, v)
  {
    BlocksGrow(l + 1, levels);
    var w := Fwd(q, z, v, l);
    forall p | 0 <= p < 256
      ensures Inv(q, z, w, l)[p] == Rem(q, 2 * v[p])
    {
      Partner(l, p);
      var h := Width(l + 1);
      var o := if OffsetOf(2 * h, p) < h then p + h else p - h;
      Partner(l, o);
      InvUndoesFwdAt(q, z, v, w, h, Blocks(l), p, o);
    }
    assert Inv(q, z, w, l) == Scale(q, 2, v);
  }

  lemma InvUndoesFwdAt(q: int, z: seq<int>, v: seq<int>, w: seq<int>, h: nat, m: nat, p: nat, o: nat)
    requires q > 0 && h > 0 && |v| == |w| == 256 && |z| >= 2 * m && p < 256 && Partnered(h, m, p) && Mirrored(q, z, m)
    requires o == (if OffsetOf(2 * h, p) < h then p + h else p - h) && Partnered(h, m, o)
    requires w[p] == FwdAt(q, z, v, h, m, p) && w[o] == FwdAt(q, z, v, h, m, o)
    ensures InvAt(q, z, w, h, m, p) == Rem(q, 2 * v[p])
  {
    hide ModArith.Rem, BlockOf, OffsetOf, FwdLow, FwdHigh, InvLow, InvHigh;
    var b := BlockOf(2 * h, p);
    NegatedInverse(q, z[m + b], z[Mirror(m, b)]);
    if OffsetOf(2 * h, p) < h {
      UndoButterfly(q, z[m + b], -z[Mirror(m, b)], v[p], v[o]);
    } else {
      UndoButterfly(q, z[m + b], -z[Mirror(m, b)], v[o], v[p]);
    }
  }

  lemma InvScales(q: int, z: seq<int>, s: int, v: seq<int>, l: nat)
    requires q > 0 && l < 8 && |v| == 256 && |z| >= 2 * Blocks(l)
    ensures Inv(q, z, Scale(q, s, v), l) == Scale(q, s, Inv(q, z, v, l))
  {
    forall p | 0 <= p < 256
      ensures Inv(q, z, Scale(q, s, v), l)[p] == Scale(q, s, Inv(q, z, v, l))[p]
    {
      Partner(l, p);
      InvScalesAt(q, z, s, v, Width(l + 1), Blocks(l), p);
    }
    assert Inv(q, z, Scale(q, s, v), l) == Scale(q, s, Inv(q, z, v, l));
  }

  lemma InvScalesAt(q: int, z: seq<int>, s: int, v: seq<int>, h: nat, m: nat, p: nat)
    requires q > 0 && h > 0 && |v| == 256 && |z| >= 2 * m && p < 256 && Partnered(h, m, p)
    ensures InvAt(q, z, Scale(q, s, v), h, m, p) == Rem(q, s * InvAt(q, z, v, h, m, p))
  {
    hide ModArith.Rem;
    var zi := -z[Mirror(m, BlockOf(2 * h, p))];
    if OffsetOf(2 * h, p) < h {
      ScaleLow(q, s, v[p], v[p + h]);
    } else {
      ScaleHigh(q, s, zi, v[p - h], v[p]);
    }
  }

  lemma ScaleScale(q: int, s: int, t: int, v: seq<int>)
    requires q > 0
    ensures Scale(q, s, Scale(q, t, v)) == Scale(q, s * t, v)
  {
    hide ModArith.Rem;
    forall p | 0 <= p < |v|
      ensures Rem(q, s * Rem(q, t * v[p])) == Rem(q, s * t * v[p])
    {
      RemRem(q, t * v[p]);
      RemMul(q, s, s, Rem(q, t * v[p]), t * v[p]);
      assert s * (t * v[p]) == s * t * v[p];
    }
  }

  lemma ScaleCong(q: int, s: int, t: int, v: seq<int>)
    requires q > 0 && Rem(q, s) == Rem(q, t)
    ensures Scale(q, s, v) == Scale(q, t, v)
  {
    forall p | 0 <= p < |v|
      ensures Rem(q, s * v[p]) == Rem(q, t * v[p])
    {
      RemMul(q, s, t, v[p], v[p]);
    }
  }

  lemma CanonIsCanonical(q: int, c: seq<int>)
    requires q > 0
    ensures forall p | 0 <= p < |c| :: Canon(q, c)[p] == Rem(q, Canon(q, c)[p])
  {
  }

  lemma ScaleOne(q: int, s: int, v: seq<int>)
    requires q > 0 && Rem(q, s) == Rem(q, 1) && forall p | 0 <= p < |v| :: v[p] == Rem(q, v[p])
    ensures Scale(q, s, v) == v
  {
    hide ModArith.Rem;
    ScaleCong(q, s, 1, v);
    assert Scale(q, 1, v) == v;
  }

  lemma {:induction false} InvToScales(q: int, z: seq<int>, s: int, v: seq<int>, l: nat, levels: nat)
    requires q > 0 && l <= levels <= 8 && |v| == 256 && |z| == Blocks(levels)
    ensures InvTo(q, z, Scale(q, s, v), l, levels) == Scale(q, s, InvTo(q, z, v, l, levels))
    decreases levels - l
  {
    if l < levels {
      BlocksGrow(l + 1, levels);
      InvToScales(q, z, s, v, l + 1, levels);
      InvScales(q, z, s, InvTo(q, z, v, l + 1, levels), l);
    }
  }

  /** Running the inverse layers over the forward layers multiplies by the number of blocks made. */
  lemma {:induction false} InvUndoesNtt(q: int, z: seq<int>, v: seq<int>, l: nat, levels: nat)
    requires GoodZetas(q, z, levels) && l < levels && |v| == 256
    ensures InvTo(q, z, NttFrom(q, z, v, l, levels), l, levels) == Scale(q, Blocks(levels - l), v)
    decreases levels - l
  {
    hide ModArith.Rem, Scale, Fwd, Inv;
    BlocksGrow(l + 1, levels);
    var w := Fwd(q, z, v, l);
    var done := NttFrom(q, z, w, l + 1, levels);
    InvUndoesFwd(q, z, v, l, levels);
    if l + 1 < levels {
      var s := Blocks(levels - l - 1);
      InvUndoesNtt(q, z, w, l + 1, levels);
      InvScales(q, z, s, w, l);
      ScaleScale(q, s, 2, v);
    }
  }

  // ----- the forward layers undo the inverse layers -----

  /** An inverse butterfly followed by the butterfly doubles both of its inputs. */
  lemma RedoButterfly(q: int, z: int, zi: int, x: int, y: int)
    requires q > 0 && Rem(q, z * zi) == Rem(q, 1)
    ensures FwdLow(q, z, InvLow(q, x, y), InvHigh(q, zi, x, y)) == Rem(q, 2 * x)
    ensures FwdHigh(q, z, InvLow(q, x, y), InvHigh(q, zi, x, y)) == Rem(q, 2 * y)
  {
    hide ModArith.Rem;
    var s, t := Rem(q, x + y), Rem(q, zi * (x - y));
    RemRem(q, x + y);
    RemRem(q, zi * (x - y));
    RemMul(q, z, z, t, zi * (x - y));
    RemMul(q, z * zi, 1, x - y, x - y);
    assert z * (zi * (x - y)) == (z * zi) * (x - y) by { MulAssociates(z, zi, x - y); }
    RemAdd(q, s, x + y, z * t, x - y);
    RemSub(q, s, x + y, z * t, x - y);
  }

  lemma MulAssociates(a: int, b: int, c: int)
    ensures a * (b * c) == (a * b) * c
  {
  }

  lemma ScaleForward(q: int, s: int, z: int, x: int, y: int)
    requires q > 0
    ensures FwdLow(q, z, Rem(q, s * x), Rem(q, s * y)) == Rem(q, s * FwdLow(q, z, x, y))
    ensures FwdHigh(q, z, Rem(q, s * x), Rem(q, s * y)) == Rem(q, s * FwdHigh(q, z, x, y))
  {
    hide ModArith.Rem;
    RemRem(q, s * x);
    RemRem(q, s * y);
    RemRem(q, x + z * y);
    RemRem(q, x - z * y);
    RemMul(q, z, z, Rem(q, s * y), s * y);
    RemAdd(q, Rem(q, s * x), s * x, z * Rem(q, s * y), z * (s * y));
    RemSub(q, Rem(q, s * x), s * x, z * Rem(q, s * y), z * (s * y));
    RemMul(q, s, s, Rem(q, x + z * y), x + z * y);
    RemMul(q, s, s, Rem(q, x - z * y), x - z * y);
    ScaleThrough(s, z, x, y);
  }

  lemma ScaleThrough(s: int, z: int, x: int, y: int)
    ensures s * x + z * (s * y) == s * (x + z * y)
    ensures s * x - z * (s * y) == s * (x - z * y)
  {
    assert z * (s * y) == s * (z * y);
  }

  lemma FwdScales(q: int, z: seq<int>, s: int, v: seq<int>, l: nat)
    requires q > 0 && l < 8 && |v| == 256 && |z| >= 2 * Blocks(l)
    ensures Fwd(q, z, Scale(q, s, v), l) == Scale(q, s, Fwd(q, z, v, l))
  {
    forall p | 0 <= p < 256
      ensures Fwd(q, z, Scale(q, s, v), l)[p] == Scale(q, s, Fwd(q, z, v, l))[p]
    {
      Partner(l, p);
      FwdScalesAt(q, z, s, v, Width(l + 1), Blocks(l), p);
    }
    assert Fwd(q, z, Scale(q, s, v), l) == Scale(q, s, Fwd(q, z, v, l));
  }

  lemma FwdScalesAt(q: int, z: seq<int>, s: int, v: seq<int>, h: nat, m: nat, p: nat)
    requires q > 0 && h > 0 && |v| == 256 && |z| >= 2 * m && p < 256 && Partnered(h, m, p)
    ensures FwdAt(q, z, Scale(q, s, v), h, m, p) == Rem(q, s * FwdAt(q, z, v, h, m, p))
  {
    hide ModArith.Rem, FwdLow, FwdHigh;
    var zeta := z[m + BlockOf(2 * h, p)];
    if OffsetOf(2 * h, p) < h {
      ScaleForward(q, s, zeta, v[p], v[p + h]);
    } else {
      ScaleForward(q, s, zeta, v[p - h], v[p]);
    }
  }

  lemma {:induction false} NttScales(q: int, z: seq<int>, s: int, v: seq<int>, l: nat, levels: nat)
    requires q > 0 && l <= levels <= 8 && |v| == 256 && |z| == Blocks(levels)
    ensures NttFrom(q, z, Scale(q, s, v), l, levels) == Scale(q, s, NttFrom(q, z, v, l, levels))
    decreases levels - l
  {
    if l < levels {
      BlocksGrow(l + 1, levels);
      FwdScales(q, z, s, v, l);
      NttScales(q, z, s, Fwd(q, z, v, l), l + 1, levels);
    }
  }

  lemma FwdUndoesInv(q: int, z: seq<int>, v: seq<int>, l: nat, levels: nat)
    requires GoodZetas(q, z, levels) && l < levels && |v| == 256
    ensures |z| >= 2 * Blocks(l) && Fwd(q, z, Inv(q, z, v, l), l) == Scale(q, 2, v)
  {
    BlocksGrow(l + 1, levels);
    var w := Inv(q, z, v, l);
    forall p | 0 <= p < 256
      ensures Fwd(q, z, w, l)[p] == Rem(q, 2 * v[p])
    {
      Partner(l, p);
      var h := Width(l + 1);
      var o := if OffsetOf(2 * h, p) < h then p + h else p - h;
      Partner(l, o);
      FwdUndoesInvAt(q, z, v, w, h, Blocks(l), p, o);
    }
    assert Fwd(q, z, w, l) == Scale(q, 2, v);
  }

  lemma FwdUndoesInvAt(q: int, z: seq<int>, v: seq<int>, w: seq<int>, h: nat, m: nat, p: nat, o: nat)
    requires q > 0 && h > 0 && |v| == |w| == 256 && |z| >= 2 * m && p < 256 && Partnered(h, m, p) && Mirrored(q, z, m)
    requires o == (if OffsetOf(2 * h, p) < h then p + h else p - h) && Partnered(h, m, o)
    requires w[p] == InvAt(q, z, v, h, m, p) && w[o] == InvAt(q, z, v, h, m, o)
    ensures FwdAt(q, z, w, h, m, p) == Rem(q, 2 * v[p])
  {
    hide ModArith.Rem, BlockOf, OffsetOf, FwdLow, FwdHigh, InvLow, InvHigh;
    var b := BlockOf(2 * h, p);
    NegatedInverse(q, z[m + b], z[Mirror(m, b)]);
    if OffsetOf(2 * h, p) < h {
      RedoButterfly(q, z[m + b], -z[Mirror(m, b)], v[p], v[o]);
    } else {
      RedoButterfly(q, z[m + b], -z[Mirror(m, b)], v[o], v[p]);
    }
  }

  /** Running the forward layers over the inverse layers multiplies by the number of blocks made. */
  lemma {:induction false} NttUndoesInv(q: int, z: seq<int>, v: seq<int>, l: nat, levels: nat)
    requires GoodZetas(q, z, levels) && l < levels && |v| == 256
    ensures NttFrom(q, z, InvTo(q, z, v, l, levels), l, levels) == Scale(q, Blocks(levels - l), v)
    decreases levels - l
  {
    hide ModArith.Rem, Scale, Fwd, Inv;
    BlocksGrow(l + 1, levels);
    var w := InvTo(q, z, v, l + 1, levels);
    FwdUndoesInv(q, z, w, l, levels);
    NttScales(q, z, 2, w, l + 1, levels);
    if l + 1 < levels {
      NttUndoesInv(q, z, v, l + 1, levels);
      ScaleScale(q, 2, Blocks(levels - l - 1), v);
    }
  }
}
