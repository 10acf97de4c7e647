/** Single bits of a word as numbers, and what a mask of several bits tests. */
module MaskBits {
  import opened Bits

  /** The bit of weight p. */
  predicate Bit(x: nat, p: nat)
    requires p > 0
  {
    x / p % 2 == 1
  }

  lemma HalfThen(x: nat, h: nat)
    requires h > 0
    ensures (x / 2) / h == x / (2 * h)
  {
    var q, r := (x / 2) / h, (x / 2) % h;
    assert x / 2 == q * h + r;
    assert q * (2 * h) == 2 * (q * h);
    DivUnique(x, 2 * h, q, 2 * r + x % 2);
  }

  lemma {:induction false} AndBit(x: nat, p: nat)
    requires IsPowerOfTwo(p)
    ensures And(x, p) != 0 <==> Bit(x, p)
    decreases p
  {
    AndStep(x, p);
    if p == 1 {
      assert And(x / 2, 0) == 0;
    } else {
      AndBit(x / 2, p / 2);
      HalfThen(x, p / 2);
    }
  }

  /** One bit more in the mask. */
  lemma {:induction false} AndMore(x: nat, z: nat, p: nat)
    requires IsPowerOfTwo(p) && z < p
    ensures And(x, z + p) != 0 <==> And(x, z) != 0 || And(x, p) != 0
    decreases p
  {
    AndStep(x, z);
    AndStep(x, p);
    AndStep(x, z + p);
    if p > 1 {
      assert (z + p) / 2 == z / 2 + p / 2 && (z + p) % 2 == z % 2;
      AndMore(x / 2, z / 2, p / 2);
    }
  }

  lemma TwoBits(x: nat, p: nat, r: nat)
    requires IsPowerOfTwo(p) && IsPowerOfTwo(r) && p < r
    ensures And(x, p + r) != 0 <==> Bit(x, p) || Bit(x, r)
  {
    AndMore(x, p, r);
    AndBit(x, p);
    AndBit(x, r);
  }

  lemma OneMore(x: nat, z: nat, p: nat, w: nat)
    requires IsPowerOfTwo(p) && z < p && w == z + p
    ensures And(x, w) != 0 <==> And(x, z) != 0 || Bit(x, p)
  {
    AndMore(x, z, p);
    AndBit(x, p);
  }

  lemma FiveBits(x: nat, p: nat, q: nat, r: nat, s: nat, t: nat, w: nat)
    requires IsPowerOfTwo(p) && IsPowerOfTwo(q) && IsPowerOfTwo(r) && IsPowerOfTwo(s) && IsPowerOfTwo(t)
    requires p < q && p + q < r && p + q + r < s && p + q + r + s < t && w == p + q + r + s + t
    ensures And(x, w) != 0 <==> Bit(x, p) || Bit(x, q) || Bit(x, r) || Bit(x, s) || Bit(x, t)
  {
    hide And, Bit, IsPowerOfTwo;
    var two := p + q;
    var three := two + r;
    var four := three + s;
    AndBit(x, p);
    OneMore(x, p, q, two);
    OneMore(x, two, r, three);
    OneMore(x, three, s, four);
    OneMore(x, four, t, w);
  }
}
