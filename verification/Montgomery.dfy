/** Tables of roots kept in Montgomery form: entry x stands for the root x * rinv, where mont * rinv = 1 modulo q. */
module Montgomery {
  import opened ModArith

  ghost predicate Inverses(q: int, mont: int, rinv: int) {
    q > 1 && Rem(q, mont * rinv) == 1
  }

  /** x*x = s*mont*y between entries says that the root of x squares to s times the root of y. */
  lemma EntrySquares(q: int, mont: int, rinv: int, x: int, y: int, s: int)
    requires Inverses(q, mont, rinv) && Rem(q, x * x - s * (mont * y)) == 0
    ensures Rem(q, Rem(q, x * rinv) * Rem(q, x * rinv)) == Rem(q, s * Rem(q, y * rinv))
  {
    hide ModArith.Rem;
    Unscaled(q, mont, rinv, x, y, s);
    SquareOfResidue(q, x * rinv, y * rinv, s);
  }

  lemma SquareOfResidue(q: int, u: int, w: int, s: int)
    requires q > 0 && Rem(q, u * u) == Rem(q, s * w)
    ensures Rem(q, Rem(q, u) * Rem(q, u)) == Rem(q, s * Rem(q, w))
  {
    hide ModArith.Rem;
    RemRem(q, u);
    RemRem(q, w);
    RemMul(q, s, s, Rem(q, w), w);
    RemMul(q, Rem(q, u), u, Rem(q, u), u);
  }

  lemma Unscaled(q: int, mont: int, rinv: int, x: int, y: int, s: int)
    requires Inverses(q, mont, rinv) && Rem(q, x * x - s * (mont * y)) == 0
    ensures Rem(q, (x * rinv) * (x * rinv)) == Rem(q, s * (y * rinv))
  {
    hide ModArith.Rem;
    RescaleProducts(mont, rinv, x, y, s);
    Rescale(q, mont, rinv, x * x, s * (mont * y), s * (y * rinv));
  }

  lemma RescaleProducts(mont: int, rinv: int, x: int, y: int, s: int)
    ensures (x * rinv) * (x * rinv) == (x * x) * (rinv * rinv)
    ensures (s * (mont * y)) * (rinv * rinv) == (mont * rinv) * (s * (y * rinv))
  {
    assert (s * (mont * y)) * (rinv * rinv) == (s * y) * ((mont * rinv) * rinv);
  }

  /** Multiplying an equation between entries by rinv twice. */
  lemma Rescale(q: int, mont: int, rinv: int, a: int, b: int, c: int)
    requires Inverses(q, mont, rinv) && Rem(q, a - b) == 0 && b * (rinv * rinv) == (mont * rinv) * c
    ensures Rem(q, a * (rinv * rinv)) == Rem(q, c)
  {
    hide ModArith.Rem;
    assert Rem(q, a) == Rem(q, b) by {
      assert Rem(q, 0) == 0 by { RemUnique(q, 0, 0, 0); }
      RemAdd(q, a - b, 0, b, b);
    }
    assert Rem(q, 1) == 1 by { RemUnique(q, 1, 0, 1); }
    RemMul(q, a, b, rinv * rinv, rinv * rinv);
    RemMul(q, mont * rinv, 1, c, c);
  }

  /** x*y = mont*w between entries says that the product of the roots of x and y is the root of w. */
  lemma EntryProduct(q: int, mont: int, rinv: int, x: int, y: int, w: int)
    requires Inverses(q, mont, rinv) && Rem(q, x * y - mont * w) == 0
    ensures Rem(q, Rem(q, w * rinv)) == Rem(q, Rem(q, x * rinv) * Rem(q, y * rinv))
  {
    hide ModArith.Rem;
    RescaleEntries(mont, rinv, x, y, w);
    Rescale(q, mont, rinv, x * y, mont * w, w * rinv);
    ProductOfResidues(q, x * rinv, y * rinv);
    RemRem(q, w * rinv);
  }

  lemma RescaleEntries(mont: int, rinv: int, x: int, y: int, w: int)
    ensures (x * y) * (rinv * rinv) == (x * rinv) * (y * rinv) && (mont * w) * (rinv * rinv) == (mont * rinv) * (w * rinv)
  {
  }

  /** x = g*mont says that the root of x is g. */
  lemma EntryIs(q: int, mont: int, rinv: int, x: int, g: int)
    requires Inverses(q, mont, rinv) && Rem(q, x - g * mont) == 0
    ensures Rem(q, Rem(q, x * rinv)) == Rem(q, g)
  {
    hide ModArith.Rem;
    assert Rem(q, 0) == 0 by { RemUnique(q, 0, 0, 0); }
    assert Rem(q, 1) == 1 by { RemUnique(q, 1, 0, 1); }
    RemAdd(q, x - g * mont, 0, g * mont, g * mont);
    RemMul(q, x, g * mont, rinv, rinv);
    assert (g * mont) * rinv == g * (mont * rinv);
    RemMul(q, g, g, mont * rinv, 1);
    RemRem(q, x * rinv);
  }

  /** The root of x is p, so x is p times the word that mont stands for. */
  lemma WordIs(q: int, mont: int, rinv: int, word: int, x: int, p: int)
    requires Inverses(q, mont, rinv) && Rem(q, Rem(q, x * rinv)) == Rem(q, p) && Rem(q, word) == Rem(q, mont)
    ensures Rem(q, x) == Rem(q, p * word)
  {
    hide ModArith.Rem;
    assert Rem(q, 1) == 1 by { RemUnique(q, 1, 0, 1); }
    RemRem(q, x * rinv);
    RemMul(q, x * rinv, p, mont, word);
    assert (x * rinv) * mont == x * (mont * rinv);
    RemMul(q, x, x, mont * rinv, 1);
  }

  lemma ProductOfResidues(q: int, u: int, w: int)
    requires q > 0
    ensures Rem(q, Rem(q, u) * Rem(q, w)) == Rem(q, u * w)
  {
    hide ModArith.Rem;
    RemRem(q, u);
    RemRem(q, w);
    RemMul(q, Rem(q, u), u, Rem(q, w), w);
  }
}
