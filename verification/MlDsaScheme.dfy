/** Key generation, signing and verification of ML-DSA-65 on one row of the matrix, up to the hash of the high parts
    (sections 6.1 to 6.3 of FIPS 204): what the verifier computes from the signer's response. */
module MlDsaScheme {
  import opened ModArith
  import opened NttTheory
  import opened PolyRing
  import opened MlDsaZetas
  import opened MlDsaNtt
  import opened MlDsaRing
  import opened MlDsaRound
  import opened MlDsaPolys
  import opened MlDsaMatrix
  import opened Words

  /** t1 * 2^13 */
  function Shifted(t1: seq<int>): (t: seq<int>)
    requires |t1| == 256
    ensures |t| == 256
  {
    seq(256, (p: nat) requires p < 256 => t1[p] * 0x2000)
  }

  /** (w0[j], w1[j]) are the low and the high part of w[j]. */
  ghost predicate Committed(w: seq<int>, w0: seq<int32>, w1: seq<int32>)
    requires |w| == |w0| == |w1| == 256
  {
    forall p :: 0 <= p < 256 ==> 0 <= w[p] < Q && (w0[p] as int, w1[p] as int) == Decomposed(w[p])
  }

  // ----- the equation of verification -----

  lemma {:induction false} DotOfResponse(row: seq<seq<int>>, s1: seq<seq<int>>, y: seq<seq<int>>, z: seq<seq<int>>, c: seq<int>, n: nat)
    requires 0 < n <= |row| == |s1| == |y| == |z| && AllLong(row) && AllLong(s1) && AllLong(y) && AllLong(z) && |c| == 256
    requires forall j :: 0 <= j < |z| ==> z[j] == Add(Q, y[j], Mul(Q, c, s1[j]))
    ensures DotUpTo(row, z, n) == Add(Q, DotUpTo(row, y, n), Mul(Q, c, DotUpTo(row, s1, n)))
  {
    hide Add, Mul;
    var a, x, s := row[n - 1], y[n - 1], s1[n - 1];
    assert Mul(Q, a, z[n - 1]) == Add(Q, Mul(Q, a, x), Mul(Q, c, Mul(Q, a, s))) by {
      MulDistributes(a, x, Mul(Q, c, s));
      MulComm(a, Mul(Q, c, s));
      MulAssoc(c, s, a);
      MulComm(s, a);
    }
    if n > 1 {
      DotOfResponse(row, s1, y, z, c, n - 1);
      MulDistributes(c, DotUpTo(row, s1, n - 1), Mul(Q, a, s));
      AddSwap(Q, DotUpTo(row, y, n - 1), Mul(Q, c, DotUpTo(row, s1, n - 1)), Mul(Q, a, x), Mul(Q, c, Mul(Q, a, s)));
    }
  }

  /** With t = A s1 + s2 = t1 2^13 + t0 and z = y + c s1:  A z - c t1 2^13 = A y - c s2 + c t0. */
  lemma VerifierSees(row: seq<seq<int>>, s1: seq<seq<int>>, s2: seq<int>, t1: seq<int>, t0: seq<int>,
                     c: seq<int>, y: seq<seq<int>>, z: seq<seq<int>>)
    requires 0 < |row| == |s1| == |y| == |z| && AllLong(row) && AllLong(s1) && AllLong(y) && AllLong(z)
    requires |s2| == |t1| == |t0| == |c| == 256
    requires Add(Q, Dot(row, s1), s2) == Add(Q, Shifted(t1), t0)
    requires forall j :: 0 <= j < |z| ==> z[j] == Add(Q, y[j], Mul(Q, c, s1[j]))
    ensures Sub(Q, Dot(row, z), Mul(Q, c, Shifted(t1))) == Add(Q, Sub(Q, Dot(row, y), Mul(Q, c, s2)), Mul(Q, c, t0))
  {
    hide Add, Sub, Mul, Shifted, DotUpTo;
    DotOfResponse(row, s1, y, z, c, |row|);
    MulDistributes(c, Dot(row, s1), s2);
    MulDistributes(c, Shifted(t1), t0);
    Rearranged(Dot(row, y), Mul(Q, c, Dot(row, s1)), Mul(Q, c, Shifted(t1)), Mul(Q, c, s2), Mul(Q, c, t0));
  }

  lemma Rearranged(x: seq<int>, u: seq<int>, v: seq<int>, s: seq<int>, t: seq<int>)
    requires |x| == |u| == |v| == |s| == |t| == 256 && Add(Q, u, s) == Add(Q, v, t)
    ensures Sub(Q, Add(Q, x, u), v) == Add(Q, Sub(Q, x, s), t)
  {
    hide Rem;
    forall p | 0 <= p < 256
      ensures Rem(Q, Rem(Q, x[p] + u[p]) - v[p]) == Rem(Q, Rem(Q, x[p] - s[p]) + t[p])
    {
      assert Add(Q, u, s)[p] == Add(Q, v, t)[p];
      RearrangedAt(x[p], u[p], v[p], s[p], t[p]);
    }
  }

  lemma RearrangedAt(x: int, u: int, v: int, s: int, t: int)
    requires Rem(Q, u + s) == Rem(Q, v + t)
    ensures Rem(Q, Rem(Q, x + u) - v) == Rem(Q, Rem(Q, x - s) + t)
  {
    hide Rem;
    RemRem(Q, x + u);
    RemRem(Q, x - s);
    RemSub(Q, Rem(Q, x + u), x + u, v, v);
    RemAdd(Q, Rem(Q, x - s), x - s, t, t);
    RemAdd(Q, x - s - v, x - s - v, u + s, v + t);
    assert (x - s - v) + (u + s) == x + u - v && (x - s - v) + (v + t) == x - s + t;
  }

  // ----- the hints -----

  /** Everything one row of an accepted signature fixes. */
  ghost predicate SignedRow(row: seq<seq<int>>, s2: seq<int>, t0: seq<int>, c: seq<int>, y: seq<seq<int>>,
                            w0: seq<int32>, w1: seq<int32>, a0: seq<int32>)
    requires 0 < |row| == |y| && AllLong(row) && AllLong(y) && |s2| == |t0| == |c| == |w0| == |w1| == |a0| == 256
  {
    && Committed(Dot(row, y), w0, w1)
    && Residues(a0) == Add(Q, Sub(Q, Residues(w0), Mul(Q, c, s2)), Mul(Q, c, t0))
    && forall p :: 0 <= p < 256 ==> -2 * GAMMA2 < a0[p] as int < 2 * GAMMA2
  }

  /** The verifier's value is the signer's high part moved by a0. */
  lemma VerifierValue(row: seq<seq<int>>, s2: seq<int>, t0: seq<int>, c: seq<int>, y: seq<seq<int>>,
                      w0: seq<int32>, w1: seq<int32>, a0: seq<int32>, x: seq<int>, p: nat)
    requires 0 < |row| == |y| && AllLong(row) && AllLong(y) && |s2| == |t0| == |c| == |w0| == |w1| == |a0| == 256
    requires SignedRow(row, s2, t0, c, y, w0, w1, a0) && p < 256
    requires x == Add(Q, Sub(Q, Dot(row, y), Mul(Q, c, s2)), Mul(Q, c, t0))
    ensures x[p] == (w1[p] as int * (2 * GAMMA2) + a0[p] as int) % Q && 0 <= w1[p] as int < 16
  {
    hide Rem, Mul, DotUpTo, Decomposed;
    var w := Dot(row, y)[p];
    DecomposedSum(w);
    HighPartRange(w);
    var k := w1[p] as int * (2 * GAMMA2);
    assert Rem(Q, a0[p] as int) == Rem(Q, Rem(Q, Rem(Q, w0[p] as int) - Mul(Q, c, s2)[p]) + Mul(Q, c, t0)[p]) by {
      assert Residues(a0)[p] == Add(Q, Sub(Q, Residues(w0), Mul(Q, c, s2)), Mul(Q, c, t0))[p];
    }
    MovedResidue(k, w0[p] as int, a0[p] as int, Mul(Q, c, s2)[p], Mul(Q, c, t0)[p], w);
    RemIsMod(Q, k + a0[p] as int);
  }

  lemma HighPartRange(w: int)
    requires 0 <= w < Q
    ensures 0 <= Decomposed(w).1 < 16
  {
    hide Decomposed;
    var d := Decompose(w as int32);
  }

  lemma MovedResidue(k: int, w0: int, a0: int, s: int, t: int, w: int)
    requires Rem(Q, k + w0) == w && Rem(Q, a0) == Rem(Q, Rem(Q, Rem(Q, w0) - s) + t)
    ensures Rem(Q, k + a0) == Rem(Q, Rem(Q, w - s) + t)
  {
    hide Rem;
    RemRem(Q, w0);
    RemRem(Q, k + w0);
    RemRem(Q, w - s);
    RemRem(Q, Rem(Q, w0) - s);
    RemSub(Q, Rem(Q, w0), w0, s, s);
    RemAdd(Q, Rem(Q, Rem(Q, w0) - s), w0 - s, t, t);
    RemAdd(Q, k, k, a0, w0 - s + t);
    RemSub(Q, w, k + w0, s, s);
    RemAdd(Q, Rem(Q, w - s), k + w0 - s, t, t);
    assert k + (w0 - s + t) == k + w0 - s + t;
  }

  /** Signing and verifying one row. The standard's recovery gives back every high part the signer hashed; the
      program's recovery gives it back exactly where the hint is zero. */
  lemma RowVerifies(row: seq<seq<int>>, s1: seq<seq<int>>, s2: seq<int>, t1: seq<int>, t0: seq<int>,
                    c: seq<int>, y: seq<seq<int>>, z: seq<seq<int>>, w0: seq<int32>, w1: seq<int32>, a0: seq<int32>)
    requires 0 < |row| == |s1| == |y| == |z| && AllLong(row) && AllLong(s1) && AllLong(y) && AllLong(z)
    requires |s2| == |t1| == |t0| == |c| == |w0| == |w1| == |a0| == 256
    requires Add(Q, Dot(row, s1), s2) == Add(Q, Shifted(t1), t0)
    requires forall j :: 0 <= j < |z| ==> z[j] == Add(Q, y[j], Mul(Q, c, s1[j]))
    requires SignedRow(row, s2, t0, c, y, w0, w1, a0)
    ensures var x := Sub(Q, Dot(row, z), Mul(Q, c, Shifted(t1)));
      forall p :: 0 <= p < 256 ==>
        && 0 <= x[p] < Q
        && StandardUseHint(MakeHint(a0[p], w1[p]), x[p]) == w1[p] as int
        && (UseHint(x[p] as int32, MakeHint(a0[p], w1[p])) == w1[p] as int <==> MakeHint(a0[p], w1[p]) == 0)
  {
    hide Rem, Add, Sub, Mul, DotUpTo, Decomposed, MakeHint, UseHint, StandardUseHint, Shifted, SignedRow;
    VerifierSees(row, s1, s2, t1, t0, c, y, z);
    SmallMove(row, s2, t0, c, y, w0, w1, a0);
    var x := Sub(Q, Dot(row, z), Mul(Q, c, Shifted(t1)));
    forall p | 0 <= p < 256
      ensures 0 <= x[p] < Q && StandardUseHint(MakeHint(a0[p], w1[p]), x[p]) == w1[p] as int
      ensures UseHint(x[p] as int32, MakeHint(a0[p], w1[p])) == w1[p] as int <==> MakeHint(a0[p], w1[p]) == 0
    {
      VerifierValue(row, s2, t0, c, y, w0, w1, a0, x, p);
      StandardRecovers(a0[p], w1[p]);
      RecoversUnhinted(a0[p], w1[p], x[p] as int32);
    }
  }

  lemma SmallMove(row: seq<seq<int>>, s2: seq<int>, t0: seq<int>, c: seq<int>, y: seq<seq<int>>,
                  w0: seq<int32>, w1: seq<int32>, a0: seq<int32>)
    requires 0 < |row| == |y| && AllLong(row) && AllLong(y) && |s2| == |t0| == |c| == |w0| == |w1| == |a0| == 256
    requires SignedRow(row, s2, t0, c, y, w0, w1, a0)
    ensures forall p :: 0 <= p < 256 ==> -2 * GAMMA2 < a0[p] as int < 2 * GAMMA2
  {
    hide Committed, Add, Sub, Mul;
  }

  function Preimages(m: seq<seq<int>>): (a: seq<seq<int>>)
    requires AllLong(m)
    ensures |a| == |m| && AllLong(a)
  {
    seq(|m|, (j: nat) requires j < |m| => Preimage(m[j]))
  }

  /** The same, stated on what the programs compute from a sampled row m of transforms: for every row, key, mask and
      challenge, from the results of key generation (t1, t0), commitment (w0, w1), response (z), hints (a0) and
      verification (x). */
  lemma SessionVerifies(m: seq<seq<int>>, s1: seq<seq<int>>, s2: seq<int>, t1: seq<int>, t0: seq<int>, c: seq<int>,
                        y: seq<seq<int>>, z: seq<seq<int>>, w0: seq<int32>, w1: seq<int32>, a0: seq<int32>, x: seq<int>)
    requires 0 < |m| == |s1| == |y| == |z| && AllLong(m) && AllLong(s1) && AllLong(y) && AllLong(z)
    requires forall j :: 0 <= j < |m| ==> IsPoly(Q, m[j])
    requires |s2| == |t1| == |t0| == |c| == |w0| == |w1| == |a0| == 256
    requires Add(Q, Shifted(t1), t0) == Add(Q, Unhat(RowUpTo(m, Hats(s1), |m|)), s2)
    requires Committed(Unhat(RowUpTo(m, Hats(y), |m|)), w0, w1)
    requires forall j :: 0 <= j < |z| ==> z[j] == Add(Q, Unhat(PointMul(Hat(c), Hat(s1[j]))), y[j])
    requires Residues(a0) == Add(Q, Sub(Q, Residues(w0), Unhat(PointMul(Hat(c), Hat(s2)))), Unhat(PointMul(Hat(c), Hat(t0))))
    requires forall p :: 0 <= p < 256 ==> -2 * GAMMA2 < a0[p] as int < 2 * GAMMA2
    requires x == Unhat(Sub(Q, RowUpTo(m, Hats(z), |m|), PointMul(Hat(c), Hat(Shifted(t1)))))
    ensures forall p :: 0 <= p < 256 ==>
      && 0 <= x[p] < Q
      && StandardUseHint(MakeHint(a0[p], w1[p]), x[p]) == w1[p] as int
      && (UseHint(x[p] as int32, MakeHint(a0[p], w1[p])) == w1[p] as int <==> MakeHint(a0[p], w1[p]) == 0)
  {
    hide Rem, Add, Sub, Mul, DotUpTo, RowUpTo, PointMul, Hat, Unhat, Preimage, Decomposed, MakeHint, UseHint,
      StandardUseHint, Shifted, Residues, Committed;
    var a := Preimages(m);
    forall j | 0 <= j < |m| ensures Hats(a)[j] == m[j] {
      HatIsOnto(m[j]);
    }
    assert Hats(a) == m;
    RowMeansDot(a, s1);
    RowMeansDot(a, y);
    RowLessProduct(a, z, c, Shifted(t1));
    ProductMeansMul(c, s2);
    ProductMeansMul(c, t0);
    forall j | 0 <= j < |z| ensures z[j] == Add(Q, y[j], Mul(Q, c, s1[j])) {
      ProductMeansMul(c, s1[j]);
      AddComm(Q, Mul(Q, c, s1[j]), y[j]);
    }
    RowVerifies(a, s1, s2, t1, t0, c, y, z, w0, w1, a0);
  }

}
