/** A table of roots is the table of powers of one root of unity in bit-reversed order: what follows from that for the
    transform, for any modulus. */
module RootPowers {
  import opened ModArith
  import opened NttTheory
  import opened RingProduct

  /** The low n bits of k in reverse. */
  function BitRev(n: nat, k: nat): (r: nat)
    requires n <= 8
  {
    if n == 0 then 0 else (if k % 2 == 1 then Blocks(n - 1) else 0) + BitRev(n - 1, k / 2)
  }

  /** Every entry but entry 0 is the power of g that its bit-reversed index names. */
  ghost predicate PowersInOrder(q: int, g: int, z: seq<int>, n: nat) {
    && q > 1 && 1 <= n <= 8 && |z| == Blocks(n)
    && forall k | 1 <= k < |z| :: Rem(q, z[k]) == Rem(q, Pow(g, BitRev(n, k)))
  }

  // ----- bit reversal -----

  lemma Unit()
    ensures Blocks(0) == 1
  {
  }

  lemma {:induction false} BitRevZero(n: nat)
    requires n <= 8
    ensures BitRev(n, 0) == 0
  {
    if n > 0 {
      BitRevZero(n - 1);
    }
  }

  lemma {:induction false} BitRevBlock(n: nat, l: nat)
    requires l < n <= 8
    ensures BitRev(n, Blocks(l)) == Blocks(n - 1 - l)
  {
    hide Blocks;
    Unit();
    if l == 0 {
      BitRevZero(n - 1);
    } else {
      Halving(l - 1);
      BitRevBlock(n - 1, l - 1);
    }
  }

  lemma {:induction false} BitRevSum(n: nat, l: nat, k: nat)
    requires l < n <= 8 && k < Blocks(l)
    ensures BitRev(n, Blocks(l) + k) == BitRev(n, Blocks(l)) + BitRev(n, k)
  {
    hide Blocks;
    Unit();
    if l == 0 {
      BitRevZero(n);
    } else {
      Halving(l - 1);
      var h := Blocks(l - 1);
      assert (2 * h + k) % 2 == k % 2 && (2 * h + k) / 2 == h + k / 2;
      BitRevSum(n - 1, l - 1, k / 2);
    }
  }

  /** One bit more moves all others up. */
  lemma {:induction false} BitRevWider(n: nat, k: nat)
    requires n < 8 && k < Blocks(n)
    ensures BitRev(n + 1, k) == 2 * BitRev(n, k)
  {
    if n == 0 {
      BitRevZero(1);
    } else {
      Halving(n - 1);
      BitRevWider(n - 1, k / 2);
    }
  }

  lemma BitRevStep(n: nat, k: nat)
    requires 0 < n <= 8
    ensures BitRev(n, k) == (if k % 2 == 1 then Blocks(n - 1) else 0) + BitRev(n - 1, k / 2)
  {
  }

  lemma MirrorHalves(h: nat, b: nat)
    requires b < 2 * h
    ensures (2 * h + b) / 2 == h + b / 2 && (4 * h - 1 - b) / 2 == 2 * h - 1 - b / 2
    ensures (2 * h + b) % 2 == b % 2 && ((4 * h - 1 - b) % 2 == 1 <==> b % 2 == 0)
  {
  }

  /** Entries mirrored within their level have exponents that sum to the whole. */
  lemma {:induction false} BitRevMirror(n: nat, l: nat, b: nat)
    requires l < n <= 8 && b < Blocks(l)
    ensures BitRev(n, Blocks(l) + b) + BitRev(n, Mirror(Blocks(l), b)) == Blocks(n)
    decreases l
  {
    hide Blocks, BitRev;
    Unit();
    Halving(n - 1);
    if l == 0 {
      BitRevBlock(n, 0);
    } else {
      Halving(l - 1);
      var h := Blocks(l - 1);
      MirrorHalves(h, b);
      BitRevStep(n, 2 * h + b);
      BitRevStep(n, 4 * h - 1 - b);
      Halving(n - 2);
      BitRevMirror(n - 1, l - 1, b / 2);
    }
  }

  // ----- powers -----

  lemma {:induction false} PowAdd(g: int, a: nat, b: nat)
    ensures Pow(g, a + b) == Pow(g, a) * Pow(g, b)
  {
    if a > 0 {
      PowAdd(g, a - 1, b);
      assert g * (Pow(g, a - 1) * Pow(g, b)) == (g * Pow(g, a - 1)) * Pow(g, b);
    }
  }

  lemma PowOne(g: int)
    ensures Pow(g, 1) == g
  {
    assert Pow(g, 1) == g * Pow(g, 0);
  }

  lemma ProductOfPowers(q: int, g: int, x: int, a: nat, y: int, b: nat)
    requires q > 0 && Rem(q, x) == Rem(q, Pow(g, a)) && Rem(q, y) == Rem(q, Pow(g, b))
    ensures Rem(q, x * y) == Rem(q, Pow(g, a + b))
  {
    hide Rem, Pow;
    RemMul(q, x, Pow(g, a), y, Pow(g, b));
    PowAdd(g, a, b);
  }

  lemma HalfTurn(q: int, g: int, n: nat, a: nat)
    requires q > 0 && n <= 8 && Rem(q, Pow(g, Blocks(n))) == Rem(q, -1)
    ensures Rem(q, Pow(g, Blocks(n) + a)) == Rem(q, -Pow(g, a))
  {
    hide Rem, Pow;
    PowAdd(g, Blocks(n), a);
    RemMul(q, Pow(g, Blocks(n)), -1, Pow(g, a), Pow(g, a));
    assert -1 * Pow(g, a) == -Pow(g, a);
  }

  // ----- a table checked entry by entry -----

  /** Entry m + k is the product of entries m and k. */
  ghost predicate Link(q: int, z: seq<int>, m: nat, k: nat)
    requires q > 0
  {
    m + k < |z| && Rem(q, z[m + k]) == Rem(q, z[m] * z[k])
  }

  /** Entry 2m squares to entry m. */
  ghost predicate Half(q: int, z: seq<int>, m: nat)
    requires q > 0
  {
    2 * m < |z| && Rem(q, z[2 * m] * z[2 * m]) == Rem(q, z[m])
  }

  /** The middle entry is g, each entry at a power of two is the square of the next such entry, and every other entry is
      the product of the one at its highest bit and the one at its remaining bits. */
  ghost predicate Chained(q: int, g: int, z: seq<int>, n: nat) {
    && q > 1 && 1 <= n <= 8 && |z| == Blocks(n) && Blocks(n - 1) < |z| && Rem(q, z[Blocks(n - 1)]) == Rem(q, g)
    && (forall l | 0 <= l < n - 1 :: Half(q, z, Blocks(l)))
    && forall l, k | 0 <= l < n && 1 <= k < Blocks(l) :: Link(q, z, Blocks(l), k)
  }

  lemma BlocksIn(l: nat, n: nat)
    requires l < n <= 8
    ensures 2 * Blocks(l) <= Blocks(n)
  {
    Halving(l);
    BlocksGrow(l + 1, n);
  }

  lemma SquareStep(q: int, g: int, x: int, y: int, a: nat, b: nat)
    requires q > 0 && Rem(q, x) == Rem(q, Pow(g, a)) && Rem(q, x * x) == Rem(q, y) && b == 2 * a
    ensures Rem(q, y) == Rem(q, Pow(g, b))
  {
    hide Rem, Pow;
    ProductOfPowers(q, g, x, a, x, a);
  }

  lemma {:induction false} Generator(q: int, g: int, z: seq<int>, n: nat, l: nat, m: nat, e: nat)
    requires Chained(q, g, z, n) && l < n && m == Blocks(l) && e == Blocks(n - 1 - l)
    ensures m < |z| && Rem(q, z[m]) == Rem(q, Pow(g, e))
    decreases n - l
  {
    hide Rem, Pow, Blocks;
    if l == n - 1 {
      Unit();
      PowOne(g);
    } else {
      var e2 := Blocks(n - 2 - l);
      Halving(l);
      Halving(n - 2 - l);
      Generator(q, g, z, n, l + 1, 2 * m, e2);
      assert Half(q, z, m);
      SquareStep(q, g, z[2 * m], z[m], e2, e);
    }
  }

  lemma {:induction false} HighestBit(n: nat, k: nat) returns (l: nat)
    requires n <= 8 && 1 <= k < Blocks(n)
    ensures l < n && Blocks(l) <= k < 2 * Blocks(l)
  {
    Halving(n - 1);
    if Blocks(n - 1) <= k {
      l := n - 1;
    } else {
      l := HighestBit(n - 1, k);
    }
  }

  lemma {:induction false} ChainedEntry(q: int, g: int, z: seq<int>, n: nat, k: nat)
    requires Chained(q, g, z, n) && 1 <= k < |z|
    ensures Rem(q, z[k]) == Rem(q, Pow(g, BitRev(n, k)))
    decreases k
  {
    hide Rem, Pow, Blocks, BitRev;
    var l := HighestBit(n, k);
    var m, j := Blocks(l), k - Blocks(l);
    BitRevBlock(n, l);
    Generator(q, g, z, n, l, m, BitRev(n, m));
    if j > 0 {
      ChainedEntry(q, g, z, n, j);
      assert Link(q, z, m, j);
      BitRevSum(n, l, j);
      ProductOfPowers(q, g, z[m], BitRev(n, m), z[j], BitRev(n, j));
    }
  }

  lemma ChainedIsInOrder(q: int, g: int, z: seq<int>, n: nat)
    requires Chained(q, g, z, n)
    ensures PowersInOrder(q, g, z, n)
  {
    hide Rem, Pow, BitRev;
    forall k | 1 <= k < |z| ensures Rem(q, z[k]) == Rem(q, Pow(g, BitRev(n, k))) {
      ChainedEntry(q, g, z, n, k);
    }
  }

  // ----- such a table drives the transform -----

  lemma EntrySplits(q: int, g: int, z: seq<int>, n: nat, k: nat)
    requires PowersInOrder(q, g, z, n) && Rem(q, Pow(g, Blocks(n))) == Rem(q, -1) && 1 <= k < |z|
    ensures Rem(q, z[k] * z[k]) == Rem(q, Root(z, k))
  {
    hide Rem, Pow, Blocks, BitRev;
    var j := k / 2;
    Halving(n - 1);
    BitRevStep(n, k);
    ProductOfPowers(q, g, z[k], BitRev(n, k), z[k], BitRev(n, k));
    if k == 1 {
      BitRevZero(n - 1);
    } else {
      BitRevWider(n - 1, j);
      if k % 2 == 1 {
        HalfTurn(q, g, n, BitRev(n, j));
        RemSub(q, 0, 0, z[j], Pow(g, BitRev(n, j)));
      }
    }
  }

  /** A root whose powers reach -1 halfway makes the table good. */
  lemma PowersAreGood(q: int, g: int, z: seq<int>, n: nat)
    requires PowersInOrder(q, g, z, n) && Rem(q, Pow(g, Blocks(n))) == Rem(q, -1)
    ensures GoodZetas(q, z, n)
  {
    hide Rem, Pow, BitRev, Root;
    forall k | 1 <= k < |z| ensures Rem(q, z[k] * z[k]) == Rem(q, Root(z, k)) {
      EntrySplits(q, g, z, n, k);
    }
    forall l | 0 <= l < n ensures (BlocksGrow(l + 1, n); Mirrored(q, z, Blocks(l))) {
      BlocksIn(l, n);
      forall b | 0 <= b < Blocks(l) ensures Rem(q, z[Blocks(l) + b] * z[Mirror(Blocks(l), b)]) == Rem(q, -1) {
        var i, j := Blocks(l) + b, Mirror(Blocks(l), b);
        BitRevMirror(n, l, b);
        ProductOfPowers(q, g, z[i], BitRev(n, i), z[j], BitRev(n, j));
      }
    }
  }

  /** The root at leaf i is an odd power of g. */
  lemma LeafPower(q: int, g: int, z: seq<int>, n: nat, i: nat)
    requires 1 <= n <= 8 && q > 1 && |z| == Blocks(n) && PowersInOrder(q, g, z, n) && Rem(q, Pow(g, Blocks(n))) == Rem(q, -1) && i < Blocks(n)
    ensures Rem(q, Root(z, Blocks(n) + i)) == Rem(q, Pow(g, 2 * BitRev(n, i) + 1))
  {
    hide Rem, Pow, Blocks, BitRev, Root, PowersInOrder;
    var h, j := Blocks(n - 1), i / 2;
    Unit();
    Halving(n - 1);
    BitRevSum(n, n - 1, j);
    BitRevBlock(n, n - 1);
    BitRevWider(n - 1, j);
    BitRevStep(n, i);
    InOrderAt(q, g, z, n, h + j);
    ParentOf(z, h, i);
    var e := BitRev(n, h + j);
    if i % 2 == 0 {
      assert 2 * BitRev(n, i) + 1 == e;
    } else {
      assert 2 * BitRev(n, i) + 1 == Blocks(n) + e;
      HalfTurn(q, g, n, e);
      RemSub(q, 0, 0, z[h + j], Pow(g, e));
    }
  }

  lemma InOrderAt(q: int, g: int, z: seq<int>, n: nat, k: nat)
    requires PowersInOrder(q, g, z, n) && 1 <= k < Blocks(n)
    ensures |z| == Blocks(n) && Rem(q, z[k]) == Rem(q, Pow(g, BitRev(n, k)))
  {
  }

  lemma ParentOf(z: seq<int>, h: nat, i: nat)
    requires h > 0 && |z| == 2 * h && i < 2 * h
    ensures Root(z, 2 * h + i) == if i % 2 == 0 then z[h + i / 2] else -z[h + i / 2]
  {
  }

  /** v holds at leaf i, in w words, the polynomial c modulo X^w - g^(2 BitRev(i) + 1). */
  ghost predicate IsTransform(q: int, g: int, n: nat, c: seq<int>, v: seq<int>)
    requires q > 0 && n <= 8
  {
    |v| == 256 && forall p | 0 <= p < 256 :: Rem(q, v[p]) == Rem(q, LeafResidue(g, n, c, p))
  }

  ghost function LeafResidue(g: int, n: nat, c: seq<int>, p: nat): int
    requires n <= 8
  {
    Red(c, Width(n), Pow(g, 2 * BitRev(n, BlockOf(Width(n), p)) + 1), OffsetOf(Width(n), p))
  }

  lemma LeavesAreTransform(q: int, g: int, z: seq<int>, n: nat, c: seq<int>, v: seq<int>)
    requires PowersInOrder(q, g, z, n) && Rem(q, Pow(g, Blocks(n))) == Rem(q, -1) && Represents(q, z, c, n, v)
    ensures IsTransform(q, g, n, c, v)
  {
    hide Rem, Pow, BitRev, Root, Red, Width, Blocks, BlockOf, OffsetOf;
    forall p | 0 <= p < 256 ensures Rem(q, v[p]) == Rem(q, LeafResidue(g, n, c, p)) {
      Position(n, p);
      var i, o := BlockOf(Width(n), p), OffsetOf(Width(n), p);
      var r := Root(z, Blocks(n) + i);
      LeafPower(q, g, z, n, i);
      RedCong(q, c, Width(n), r, Pow(g, 2 * BitRev(n, i) + 1), o);
      RemRem(q, Red(c, Width(n), r, o));
    }
  }

  lemma TransformOfResidues(q: int, g: int, n: nat, c: seq<int>, v: seq<int>)
    requires q > 0 && n <= 8 && |v| == 256 && IsTransform(q, g, n, c, Canon(q, v))
    ensures IsTransform(q, g, n, c, v)
  {
    hide Rem, LeafResidue;
    forall p | 0 <= p < 256 ensures Rem(q, v[p]) == Rem(q, LeafResidue(g, n, c, p)) {
      RemRem(q, v[p]);
      assert Canon(q, v)[p] == Rem(q, v[p]);
    }
  }

  /** What stands in word o of leaf i. */
  lemma LeafWord(q: int, g: int, n: nat, c: seq<int>, v: seq<int>, i: nat, o: nat, p: nat)
    requires q > 0 && n <= 8 && IsTransform(q, g, n, c, v) && i < Blocks(n) && o < Width(n) && p == i * Width(n) + o < 256
    ensures Rem(q, v[p]) == Rem(q, Red(c, Width(n), Pow(g, 2 * BitRev(n, i) + 1), o))
  {
    hide Rem, Red, Pow, BitRev, Width;
    BlockIndex(Width(n), i, o);
    assert Rem(q, v[p]) == Rem(q, LeafResidue(g, n, c, p));
  }
}
