/** One butterfly on words with Montgomery factors, seen as residues: what both transforms compute, for any modulus. */
module Butterflies {
  import opened ModArith
  import opened NttTheory

  /** t is the Montgomery product of the table's word and the upper value. */
  lemma ForwardStep(q: int, rinv: int, zeta: int, x: int, y: int, t: int)
    requires q > 0 && Rem(q, t) == Rem(q, (zeta * y) * rinv)
    ensures Rem(q, x + t) == FwdLow(q, Rem(q, zeta * rinv), Rem(q, x), Rem(q, y))
    ensures Rem(q, x - t) == FwdHigh(q, Rem(q, zeta * rinv), Rem(q, x), Rem(q, y))
  {
    hide Rem;
    RemRem(q, x);
    RemRem(q, y);
    RemRem(q, zeta * rinv);
    RemMul(q, Rem(q, zeta * rinv), zeta * rinv, Rem(q, y), y);
    assert (zeta * y) * rinv == (zeta * rinv) * y;
    RemAdd(q, x, Rem(q, x), t, Rem(q, zeta * rinv) * Rem(q, y));
    RemSub(q, x, Rem(q, x), t, Rem(q, zeta * rinv) * Rem(q, y));
  }

  lemma InverseSum(q: int, x: int, y: int)
    requires q > 0
    ensures Rem(q, x + y) == InvLow(q, Rem(q, x), Rem(q, y))
  {
    hide Rem;
    RemRem(q, x);
    RemRem(q, y);
    RemAdd(q, x, Rem(q, x), y, Rem(q, y));
  }

  /** The difference times a word n of the table, up to Montgomery form. */
  ghost function TwistedDifference(rinv: int, n: int, x: int, y: int): int {
    (n * (x - y)) * rinv
  }

  /** Negating the word and turning the difference round are the same, and both give the inverse butterfly. */
  lemma InverseTwist(q: int, rinv: int, zeta: int, x: int, y: int)
    requires q > 0
    ensures TwistedDifference(rinv, zeta, y, x) == TwistedDifference(rinv, -zeta, x, y)
    ensures Rem(q, TwistedDifference(rinv, -zeta, x, y)) == InvHigh(q, -Rem(q, zeta * rinv), Rem(q, x), Rem(q, y))
  {
    hide Rem;
    RemRem(q, x);
    RemRem(q, y);
    RemSub(q, x, Rem(q, x), y, Rem(q, y));
    NegatedRoot(q, rinv, zeta);
    TwistResidue(q, -zeta * rinv, -Rem(q, zeta * rinv), x - y, Rem(q, x) - Rem(q, y));
    assert -zeta * (x - y) == zeta * (y - x);
    assert (-zeta * (x - y)) * rinv == (-zeta * rinv) * (x - y);
  }

  lemma NegatedRoot(q: int, rinv: int, zeta: int)
    requires q > 0
    ensures Rem(q, -Rem(q, zeta * rinv)) == Rem(q, -zeta * rinv)
  {
    hide Rem;
    RemRem(q, zeta * rinv);
    RemSub(q, 0, 0, Rem(q, zeta * rinv), zeta * rinv);
  }

  lemma TwistResidue(q: int, m: int, r: int, d: int, e: int)
    requires q > 0 && Rem(q, r) == Rem(q, m) && Rem(q, d) == Rem(q, e)
    ensures Rem(q, m * d) == Rem(q, r * e)
  {
    hide Rem;
    RemMul(q, m, r, d, e);
  }
}
