/** Vectors and matrices over the ring of ML-KEM, and the transposition law its decryption rests on. */
module MlKemVectors {
  import opened MlKemZetas
  import opened MlKemRing
  import opened MlKemPolys
  import opened ModArith
  import opened NttTheory
  import opened PolyRing

  predicate IsVector(v: seq<seq<int>>, k: nat) {
    |v| == k && forall i :: 0 <= i < k ==> IsPoly(Q, v[i])
  }

  predicate IsMatrix(m: seq<seq<seq<int>>>, k: nat) {
    |m| == k && forall i :: 0 <= i < k ==> IsVector(m[i], k)
  }

  /** The sum of the first n products, in the order the loops add them. */
  function DotUpTo(a: seq<seq<int>>, b: seq<seq<int>>, n: nat): (c: seq<int>)
    requires n <= |a| && n <= |b|
    requires forall i :: 0 <= i < n ==> |a[i]| == 256 && |b[i]| == 256
    ensures IsPoly(Q, c)
  {
    if n == 0 then Zero(Q) else Add(Q, DotUpTo(a, b, n - 1), Mul(Q, a[n - 1], b[n - 1]))
  }

  function Dot(a: seq<seq<int>>, b: seq<seq<int>>): (c: seq<int>)
    requires IsVector(a, |a|) && IsVector(b, |a|)
    ensures IsPoly(Q, c)
  {
    DotUpTo(a, b, |a|)
  }

  function VecAdd(a: seq<seq<int>>, b: seq<seq<int>>): (c: seq<seq<int>>)
    requires IsVector(a, |a|) && IsVector(b, |a|)
    ensures IsVector(c, |a|)
  {
    seq(|a|, (i: nat) requires i < |a| => Add(Q, a[i], b[i]))
  }

  function Apply(m: seq<seq<seq<int>>>, v: seq<seq<int>>): (w: seq<seq<int>>)
    requires IsMatrix(m, |v|) && IsVector(v, |v|)
    ensures IsVector(w, |v|)
  {
    seq(|v|, (i: nat) requires i < |v| => Dot(m[i], v))
  }

  function Column(m: seq<seq<seq<int>>>, j: nat): (c: seq<seq<int>>)
    requires IsMatrix(m, |m|) && j < |m|
    ensures IsVector(c, |m|)
  {
    seq(|m|, (i: nat) requires i < |m| => m[i][j])
  }

  function Transposed(m: seq<seq<seq<int>>>): (t: seq<seq<seq<int>>>)
    requires IsMatrix(m, |m|)
    ensures IsMatrix(t, |m|)
  {
    seq(|m|, (j: nat) requires j < |m| => Column(m, j))
  }

  // ----- laws -----

  lemma {:induction false} DotComm(a: seq<seq<int>>, b: seq<seq<int>>, n: nat)
    requires IsVector(a, |a|) && IsVector(b, |a|) && n <= |a|
    ensures DotUpTo(a, b, n) == DotUpTo(b, a, n)
  {
    hide Add, Mul;
    if n > 0 {
      DotComm(a, b, n - 1);
      MulComm(a[n - 1], b[n - 1]);
    }
  }

  lemma {:induction false} DotAdds(a: seq<seq<int>>, b: seq<seq<int>>, c: seq<seq<int>>, n: nat)
    requires IsVector(a, |a|) && IsVector(b, |a|) && IsVector(c, |a|) && n <= |a|
    ensures DotUpTo(a, VecAdd(b, c), n) == Add(Q, DotUpTo(a, b, n), DotUpTo(a, c, n))
  {
    hide Add, Mul, Zero;
    if n == 0 {
      AddZero(Q, Zero(Q));
    } else {
      DotAdds(a, b, c, n - 1);
      MulDistributes(a[n - 1], b[n - 1], c[n - 1]);
      AddSwap(Q, DotUpTo(a, b, n - 1), DotUpTo(a, c, n - 1), Mul(Q, a[n - 1], b[n - 1]), Mul(Q, a[n - 1], c[n - 1]));
    }
  }

  /** Every coordinate of v times y. */
  function Times(v: seq<seq<int>>, y: seq<int>): (w: seq<seq<int>>)
    requires IsVector(v, |v|) && IsPoly(Q, y)
    ensures IsVector(w, |v|)
  {
    seq(|v|, (j: nat) requires j < |v| => Mul(Q, v[j], y))
  }

  lemma {:induction false} DotFactors(s: seq<seq<int>>, v: seq<seq<int>>, y: seq<int>, n: nat)
    requires IsVector(s, |s|) && IsVector(v, |s|) && IsPoly(Q, y) && n <= |s|
    ensures DotUpTo(s, Times(v, y), n) == Mul(Q, DotUpTo(v, s, n), y)
  {
    hide Add, Mul, Zero;
    if n == 0 {
      MulZero(Q, y);
    } else {
      var d, e := DotUpTo(v, s, n - 1), Mul(Q, v[n - 1], s[n - 1]);
      DotFactors(s, v, y, n - 1);
      MulComm(y, Add(Q, d, e));
      MulDistributes(y, d, e);
      MulComm(y, d);
      MulComm(y, e);
      MulComm(v[n - 1], s[n - 1]);
      MulAssoc(s[n - 1], v[n - 1], y);
    }
  }

  /** Row sums so far, column by column. */
  function ColumnSums(m: seq<seq<seq<int>>>, y: seq<seq<int>>, n: nat): (w: seq<seq<int>>)
    requires IsMatrix(m, |y|) && IsVector(y, |y|) && n <= |y|
    ensures IsVector(w, |y|)
  {
    seq(|y|, (j: nat) requires j < |y| => DotUpTo(Column(m, j), y, n))
  }

  lemma {:induction false} AdjointUpTo(m: seq<seq<seq<int>>>, s: seq<seq<int>>, y: seq<seq<int>>, n: nat)
    requires IsMatrix(m, |y|) && IsVector(y, |y|) && IsVector(s, |y|) && n <= |y|
    ensures DotUpTo(Apply(m, s), y, n) == Dot(s, ColumnSums(m, y, n))
  {
    hide Add, Mul, Zero;
    if n == 0 {
      DotZeros(s, ColumnSums(m, y, 0), |s|);
    } else {
      AdjointUpTo(m, s, y, n - 1);
      var w := ColumnSums(m, y, n - 1);
      var row := Times(m[n - 1], y[n - 1]);
      assert VecAdd(w, row) == ColumnSums(m, y, n);
      DotAdds(s, w, row, |s|);
      DotFactors(s, m[n - 1], y[n - 1], |s|);
    }
  }

  lemma {:induction false} DotZeros(s: seq<seq<int>>, z: seq<seq<int>>, n: nat)
    requires IsVector(s, |s|) && IsVector(z, |s|) && n <= |s| && forall i :: 0 <= i < |z| ==> z[i] == Zero(Q)
    ensures DotUpTo(s, z, n) == Zero(Q)
  {
    hide Add, Mul, Zero;
    if n > 0 {
      DotZeros(s, z, n - 1);
      MulComm(s[n - 1], Zero(Q));
      MulZero(Q, s[n - 1]);
      AddZero(Q, Zero(Q));
    }
  }

  /** <M s, y> = <s, M^T y>. */
  lemma Adjoint(m: seq<seq<seq<int>>>, s: seq<seq<int>>, y: seq<seq<int>>)
    requires IsMatrix(m, |y|) && IsVector(y, |y|) && IsVector(s, |y|)
    ensures Dot(Apply(m, s), y) == Dot(s, Apply(Transposed(m), y))
  {
    AdjointUpTo(m, s, y, |y|);
    assert ColumnSums(m, y, |y|) == Apply(Transposed(m), y);
  }
}
