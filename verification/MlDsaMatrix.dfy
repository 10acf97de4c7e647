/** Rows of the public matrix times vectors of transforms, and what the sum of unreduced products means in the ring. */
module MlDsaMatrix {
  import opened ModArith
  import opened NttTheory
  import opened RingProduct
  import opened PolyRing
  import opened MlDsaZetas
  import opened MlDsaNtt
  import opened MlDsaRing
  import opened MlDsaRound
  import opened MlDsaPolys
  import opened Words

  // ----- in the ring -----

  predicate AllLong(v: seq<seq<int>>) {
    forall j :: 0 <= j < |v| ==> |v[j]| == 256
  }

  /** a[0] * b[0] + ... + a[n - 1] * b[n - 1] */
  function DotUpTo(a: seq<seq<int>>, b: seq<seq<int>>, n: nat): (c: seq<int>)
    requires 0 < n <= |a| && n <= |b| && AllLong(a) && AllLong(b)
    ensures |c| == 256
  {
    if n == 1 then Mul(Q, a[0], b[0]) else Add(Q, DotUpTo(a, b, n - 1), Mul(Q, a[n - 1], b[n - 1]))
  }

  function Dot(a: seq<seq<int>>, b: seq<seq<int>>): (c: seq<int>)
    requires 0 < |a| == |b| && AllLong(a) && AllLong(b)
    ensures |c| == 256
  {
    DotUpTo(a, b, |a|)
  }

  function Hats(v: seq<seq<int>>): (h: seq<seq<int>>)
    requires AllLong(v)
    ensures |h| == |v| && AllLong(h)
  {
    seq(|v|, (j: nat) requires j < |v| => Hat(v[j]))
  }

  // ----- among transforms -----

  /** The sum of the first n products with their Montgomery factor, in the order the loop adds them. */
  function RowUpTo(m: seq<seq<int>>, v: seq<seq<int>>, n: nat): (r: seq<int>)
    requires 0 < n <= |m| && n <= |v| && AllLong(m) && AllLong(v)
    ensures |r| == 256
  {
    if n == 1 then PointMul(m[0], v[0]) else Add(Q, RowUpTo(m, v, n - 1), PointMul(m[n - 1], v[n - 1]))
  }

  /** One product of transforms is the transform of the ring product, over 2^32. */
  lemma PointIsMul(a: seq<int>, b: seq<int>)
    requires |a| == |b| == 256
    ensures PointMul(Hat(a), Hat(b)) == Scale(Q, RINV, Hat(Mul(Q, a, b)))
  {
    hide Rem, Zetas, NttFrom, Scale, NegaMul, PointMul;
    PointMulIsProduct(a, b);
    HatCanon(NegaMul(a, b));
  }

  /** So is a sum of products. */
  lemma {:induction false} RowIsDot(a: seq<seq<int>>, v: seq<seq<int>>, n: nat)
    requires 0 < n <= |a| && n <= |v| && AllLong(a) && AllLong(v)
    ensures RowUpTo(Hats(a), Hats(v), n) == Scale(Q, RINV, Hat(DotUpTo(a, v, n)))
  {
    hide Rem, Scale, PointMul, Hat, Mul, Add;
    PointIsMul(a[n - 1], v[n - 1]);
    if n > 1 {
      RowIsDot(a, v, n - 1);
      ScaleAdds(Q, RINV, Hat(DotUpTo(a, v, n - 1)), Hat(Mul(Q, a[n - 1], v[n - 1])));
      HatAdds(DotUpTo(a, v, n - 1), Mul(Q, a[n - 1], v[n - 1]));
    }
  }

  /** The inverse transform cancels the factor of one product. */
  lemma UnhatScaled(c: seq<int>)
    requires |c| == 256
    ensures Unhat(Scale(Q, RINV, Hat(c))) == Canon(Q, c)
  {
    hide Rem, Zetas, NttFrom, InvTo, Scale;
    InverseOfScaled(c, RINV);
    assert Rem(Q, (F as int * RINV) * (RINV * 256)) == Rem(Q, 1) by {
      RemIsMod(Q, (F as int * RINV) * (RINV * 256));
      RemIsMod(Q, 1);
    }
    CanonIsCanonical(Q, c);
    ScaleOne(Q, (F as int * RINV) * (RINV * 256), Canon(Q, c));
  }

  /** What a row gives after the inverse transform: the dot product in the ring, with no factor left over. */
  lemma RowMeansDot(a: seq<seq<int>>, v: seq<seq<int>>)
    requires 0 < |a| == |v| && AllLong(a) && AllLong(v)
    ensures Unhat(RowUpTo(Hats(a), Hats(v), |a|)) == Dot(a, v)
  {
    hide Rem, Scale, Hat, Unhat, RowUpTo;
    RowIsDot(a, v, |a|);
    UnhatScaled(Dot(a, v));
    DotIsPoly(a, v, |a|);
  }

  /** A row less one more product, as verification computes it. */
  lemma RowLessProduct(a: seq<seq<int>>, v: seq<seq<int>>, c: seq<int>, t: seq<int>)
    requires 0 < |a| == |v| && AllLong(a) && AllLong(v) && |c| == |t| == 256
    ensures Unhat(Sub(Q, RowUpTo(Hats(a), Hats(v), |a|), PointMul(Hat(c), Hat(t)))) == Sub(Q, Dot(a, v), Mul(Q, c, t))
  {
    hide Rem, Scale, Hat, Unhat, RowUpTo, PointMul, Mul, Sub, DotUpTo;
    RowIsDot(a, v, |a|);
    PointIsMul(c, t);
    ScaleSubs(Q, RINV, Hat(Dot(a, v)), Hat(Mul(Q, c, t)));
    HatSubs(Dot(a, v), Mul(Q, c, t));
    UnhatScaled(Sub(Q, Dot(a, v), Mul(Q, c, t)));
    CanonCanon(Q, Dot(a, v));
  }

  lemma ProductMeansMul(a: seq<int>, b: seq<int>)
    requires |a| == |b| == 256
    ensures Unhat(PointMul(Hat(a), Hat(b))) == Mul(Q, a, b)
  {
    hide Rem, Scale, Hat, Unhat, PointMul, NegaMul;
    PointIsMul(a, b);
    UnhatScaled(Mul(Q, a, b));
    CanonCanon(Q, a);
  }

  lemma DotIsPoly(a: seq<seq<int>>, v: seq<seq<int>>, n: nat)
    requires 0 < n <= |a| && n <= |v| && AllLong(a) && AllLong(v)
    ensures IsPoly(Q, DotUpTo(a, v, n))
  {
    hide Rem, NegaMul;
    if n == 1 {
      CanonCanon(Q, a[0]);
    } else {
      CanonCanon(Q, DotUpTo(a, v, n - 1));
    }
  }

  // ----- the program -----

  ghost predicate Polys(s: seq<array<int32>>) {
    forall j :: 0 <= j < |s| ==> s[j].Length == 256
  }

  ghost predicate AllWithin(s: seq<array<int32>>, bound: int)
    requires Polys(s)
    reads s
  {
    forall j :: 0 <= j < |s| ==> Within(s[j][..], bound)
  }

  ghost function Contents(s: seq<array<int32>>): (v: seq<seq<int>>)
    requires Polys(s)
    reads s
    ensures |v| == |s| && AllLong(v)
  {
    seq(|s|, (j: nat) requires j < |s| reads s => Residues(s[j][..]))
  }

  /** The results may be written over either operand. */
  method DPolyAdd(c: array<int32>, a: array<int32>, b: array<int32>, ghost x: int, ghost y: int)
    requires a.Length == b.Length == c.Length == 256
    requires Within(a[..], x) && Within(b[..], y) && x + y < 0x8000_0000
    modifies c
    ensures Within(c[..], x + y) && forall i :: 0 <= i < 256 ==> c[i] as int == old(a[i]) as int + old(b[i]) as int
    ensures Residues(c[..]) == Add(Q, Residues(old(a[..])), Residues(old(b[..])))
  {
    hide Rem;
    var i := 0;
    while i < 256
      invariant 0 <= i <= 256
      invariant forall j :: i <= j < 256 ==> a[j] == old(a[j]) && b[j] == old(b[j])
      invariant forall j :: 0 <= j < i ==> c[j] as int == old(a[j]) as int + old(b[j]) as int
    {
      c[i] := a[i] + b[i];
      i := i + 1;
    }
    forall j | 0 <= j < 256
      ensures Rem(Q, c[j] as int) == Rem(Q, Rem(Q, old(a[j]) as int) + Rem(Q, old(b[j]) as int))
    {
      SumResidue(Q, old(a[j]) as int, old(b[j]) as int);
    }
  }

  method DPolySub(c: array<int32>, a: array<int32>, b: array<int32>, ghost x: int, ghost y: int)
    requires a.Length == b.Length == c.Length == 256
    requires Within(a[..], x) && Within(b[..], y) && x + y < 0x8000_0000
    modifies c
    ensures Within(c[..], x + y) && forall i :: 0 <= i < 256 ==> c[i] as int == old(a[i]) as int - old(b[i]) as int
    ensures Residues(c[..]) == Sub(Q, Residues(old(a[..])), Residues(old(b[..])))
  {
    hide Rem;
    var i := 0;
    while i < 256
      invariant 0 <= i <= 256
      invariant forall j :: i <= j < 256 ==> a[j] == old(a[j]) && b[j] == old(b[j])
      invariant forall j :: 0 <= j < i ==> c[j] as int == old(a[j]) as int - old(b[j]) as int
    {
      c[i] := a[i] - b[i];
      i := i + 1;
    }
    forall j | 0 <= j < 256
      ensures Rem(Q, c[j] as int) == Rem(Q, Rem(Q, old(a[j]) as int) - Rem(Q, old(b[j]) as int))
    {
      SumResidue(Q, old(a[j]) as int, old(b[j]) as int);
    }
  }

  /** Bring every word below q without changing its residue. */
  method DPolyReduce(a: array<int32>)
    requires a.Length == 256 && Within(a[..], 0x7000_0000)
    modifies a
    ensures Within(a[..], Q - 1) && Residues(a[..]) == Residues(old(a[..]))
  {
    hide Rem, Reduce32;
    var i := 0;
    while i < 256
      invariant 0 <= i <= 256
      invariant forall j :: i <= j < 256 ==> a[j] == old(a[j])
      invariant forall j :: 0 <= j < i ==> -Q < a[j] as int < Q && Rem(Q, a[j] as int) == Rem(Q, old(a[j]) as int)
    {
      a[i] := Reduce32(a[i]);
      i := i + 1;
    }
  }

  /** Words above -q and below q become the residues themselves. */
  method DPolyCAddQ(a: array<int32>)
    requires a.Length == 256 && Within(a[..], Q - 1)
    modifies a
    ensures Ints32(a[..]) == Residues(old(a[..])) && Residues(a[..]) == Residues(old(a[..]))
    ensures forall i :: 0 <= i < 256 ==> 0 <= a[i] as int < Q
  {
    hide Rem, CAddQ;
    var i := 0;
    while i < 256
      invariant 0 <= i <= 256
      invariant forall j :: i <= j < 256 ==> a[j] == old(a[j])
      invariant forall j :: 0 <= j < i ==> 0 <= a[j] as int < Q && Rem(Q, a[j] as int) == Rem(Q, old(a[j]) as int)
    {
      a[i] := CAddQ(a[i]);
      i := i + 1;
    }
    forall j | 0 <= j < 256
      ensures Rem(Q, a[j] as int) == a[j] as int
    {
      RemUnique(Q, a[j] as int, 0, a[j] as int);
    }
  }

  /** One row: the products are added without reduction and stay far below 2^31. */
  method MatrixRow(t: array<int32>, row: seq<array<int32>>, v: seq<array<int32>>)
    requires t.Length == 256 && 0 < |row| == |v| <= 255 && Polys(row) && Polys(v) && t !in row && t !in v
    requires AllWithin(row, 9 * Q - 1) && AllWithin(v, 9 * Q - 1)
    modifies t
    ensures Within(t[..], |v| * (Q - 1)) && Residues(t[..]) == RowUpTo(Contents(row), Contents(v), |v|)
  {
    hide Residues, PointMul, Add, Within;
    ghost var m, w := Contents(row), Contents(v);
    var tmp := new int32[256];
    DPolyPointwise(t, row[0], v[0]);
    var j := 1;
    while j < |v|
      invariant 1 <= j <= |v| && AllWithin(row, 9 * Q - 1) && AllWithin(v, 9 * Q - 1)
      invariant Contents(row) == m && Contents(v) == w
      invariant Within(t[..], j * (Q - 1)) && Residues(t[..]) == RowUpTo(m, w, j)
    {
      DPolyPointwise(tmp, row[j], v[j]);
      DPolyAdd(t, t, tmp, j * (Q - 1), Q - 1);
      j := j + 1;
    }
  }

  ghost predicate Separate(t: seq<array<int32>>, s: seq<array<int32>>) {
    forall i, j :: 0 <= i < |t| && 0 <= j < |s| ==> t[i] != s[j]
  }

  /** Every row of the matrix. */
  method DMatrixPointwise(t: seq<array<int32>>, mat: seq<seq<array<int32>>>, v: seq<array<int32>>)
    requires |t| == |mat| && 0 < |v| <= 255 && Polys(t) && Polys(v) && Separate(t, v) && AllWithin(v, 9 * Q - 1)
    requires forall i, k :: 0 <= i < k < |t| ==> t[i] != t[k]
    requires forall i :: 0 <= i < |mat| ==>
      |mat[i]| == |v| && Polys(mat[i]) && Separate(t, mat[i]) && AllWithin(mat[i], 9 * Q - 1)
    modifies t
    ensures forall i :: 0 <= i < |t| ==>
      Within(t[i][..], |v| * (Q - 1)) && Residues(t[i][..]) == RowUpTo(Contents(mat[i]), Contents(v), |v|)
  {
    hide Residues, RowUpTo, Within;
    var i := 0;
    while i < |t|
      invariant 0 <= i <= |t|
      invariant AllWithin(v, 9 * Q - 1) && forall k :: 0 <= k < |mat| ==> AllWithin(mat[k], 9 * Q - 1)
      invariant forall k :: 0 <= k < i ==>
        Within(t[k][..], |v| * (Q - 1)) && Residues(t[k][..]) == RowUpTo(Contents(mat[k]), Contents(v), |v|)
    {
      MatrixRow(t[i], mat[i], v);
      i := i + 1;
    }
  }
}
