/** The programs of key generation, signing and verification for one row, on arrays of words. */
module MlDsaRows {
  import opened ModArith
  import opened NttTheory
  import opened PolyRing
  import opened MlDsaZetas
  import opened MlDsaNtt
  import opened MlDsaRing
  import opened MlDsaRound
  import opened MlDsaPolys
  import opened MlDsaMatrix
  import opened MlDsaScheme
  import opened MlDsaPacking
  import opened MlDsaHints
  import opened Words

  const BETA := 196

  /** Reduce the sum of products and transform back: the coefficients modulo q. */
  method BackFromRow(w: array<int32>)
    requires w.Length == 256 && Within(w[..], 6 * Q)
    modifies w
    ensures Within(w[..], CENTRED) && Residues(w[..]) == Unhat(Residues(old(w[..])))
  {
    hide Rem, Residues, InvTo, Scale, Zetas;
    DPolyReduce(w);
    DInvNtt(w);
  }

  /** t = A s1 + s2 is split into t1 for the public and t0 for the secret key. */
  method KeygenRow(t1: array<int32>, t0: array<int32>, s2: array<int32>)
    requires t1.Length == t0.Length == s2.Length == 256 && t1 != t0 && t1 != s2 && t0 != s2
    requires Within(t1[..], 6 * Q) && Within(s2[..], 4)
    modifies t1, t0
    ensures forall p :: 0 <= p < 256 ==> 0 <= t1[p] as int < 0x400 && -0x1000 < t0[p] as int <= 0x1000
    ensures Add(Q, Shifted(Ints32(t1[..])), Ints32(t0[..])) == Add(Q, Unhat(Residues(old(t1[..]))), Residues(s2[..]))
  {
    hide Rem, Residues, Unhat, Add, Within, Power2Round;
    BackFromRow(t1);
    DPolyAdd(t1, t1, s2, CENTRED, 4);
    WithinGrows(t1[..], CENTRED + 4, Q - 1);
    DPolyCAddQ(t1);
    ghost var t := t1[..];
    var j := 0;
    while j < 256
      invariant 0 <= j <= 256
      invariant forall p :: j <= p < 256 ==> t1[p] == t[p]
      invariant forall p :: 0 <= p < j ==> (t0[p], t1[p]) == Power2Round(t[p])
    {
      var (a0, a1) := Power2Round(t1[j]);
      t1[j] := a1;
      t0[j] := a0;
      j := j + 1;
    }
    SplitSum(t, t0[..], t1[..]);
  }

  lemma WithinGrows(s: seq<int32>, x: int, y: int)
    requires Within(s, x) && x <= y
    ensures Within(s, y)
  {
  }

  lemma SplitSum(t: seq<int32>, t0: seq<int32>, t1: seq<int32>)
    requires |t| == |t0| == |t1| == 256 && forall p :: 0 <= p < 256 ==> 0 <= t[p] as int < Q
    requires forall p :: 0 <= p < 256 ==> (t0[p], t1[p]) == Power2Round(t[p])
    ensures Add(Q, Shifted(Ints32(t1)), Ints32(t0)) == Ints32(t)
  {
    hide Rem, Power2Round;
    forall p | 0 <= p < 256
      ensures Rem(Q, t1[p] as int * 0x2000 + t0[p] as int) == t[p] as int
    {
      var parts := Power2Round(t[p]);
      RemUnique(Q, t[p] as int, 0, t[p] as int);
    }
  }

  /** w = A y is split into its high and low parts. */
  method CommitRow(w1: array<int32>, w0: array<int32>)
    requires w1.Length == w0.Length == 256 && w1 != w0 && Within(w1[..], 6 * Q)
    modifies w1, w0
    ensures Committed(Unhat(Residues(old(w1[..]))), w0[..], w1[..])
  {
    hide Rem, Residues, Unhat, Decomposed, Decompose, Within;
    BackFromRow(w1);
    WithinGrows(w1[..], CENTRED, Q - 1);
    DPolyCAddQ(w1);
    ghost var w := w1[..];
    var j := 0;
    while j < 256
      invariant 0 <= j <= 256
      invariant forall p :: j <= p < 256 ==> w1[p] == w[p]
      invariant forall p :: 0 <= p < j ==> (w0[p] as int, w1[p] as int) == Decomposed(w[p] as int)
    {
      var (a0, a1) := Decompose(w1[j]);
      w1[j] := a1;
      w0[j] := a0;
      j := j + 1;
    }
    assert forall p :: 0 <= p < 256 ==> Unhat(Residues(old(w1[..])))[p] == Ints32(w)[p];
  }

  /** The ring product of two transforms, nearly centred. */
  method ProductRow(h: array<int32>, cp: array<int32>, s: array<int32>)
    requires h.Length == cp.Length == s.Length == 256 && Within(cp[..], 9 * Q - 1) && Within(s[..], 9 * Q - 1)
    modifies h
    ensures Within(h[..], CENTRED) && Residues(h[..]) == Unhat(PointMul(Residues(old(cp[..])), Residues(old(s[..]))))
  {
    hide Rem, Residues, PointMul, InvTo, Scale, Zetas;
    DPolyPointwise(h, cp, s);
    DInvNtt(h);
  }

  /** z = y + c s1, and whether it is too large to publish. */
  method ResponseRow(z: array<int32>, cp: array<int32>, s1: array<int32>, y: array<int32>) returns (reject: bool)
    requires z.Length == cp.Length == s1.Length == y.Length == 256 && z != cp && z != s1 && z != y
    requires Within(cp[..], 9 * Q - 1) && Within(s1[..], 9 * Q - 1) && Within(y[..], GAMMA1)
    modifies z
    ensures Residues(z[..]) == Add(Q, Unhat(PointMul(Residues(cp[..]), Residues(s1[..]))), Residues(y[..]))
    ensures reject <==> Exceeds(z[..], GAMMA1 - BETA)
  {
    hide Rem, Residues, PointMul, Unhat, Add;
    ProductRow(z, cp, s1);
    DPolyAdd(z, z, y, CENTRED, GAMMA1);
    DPolyReduce(z);
    reject := ChkNorm(z[..], (GAMMA1 - BETA) as int32);
  }

  /** w0 - c s2, and whether it is too large. */
  method SubtractRow(w0: array<int32>, h: array<int32>, cp: array<int32>, s2: array<int32>) returns (reject: bool)
    requires w0.Length == h.Length == cp.Length == s2.Length == 256 && w0 != h && h != cp && h != s2
    requires Within(cp[..], 9 * Q - 1) && Within(s2[..], 9 * Q - 1) && Within(w0[..], GAMMA2)
    modifies w0, h
    ensures Residues(w0[..]) == Sub(Q, Residues(old(w0[..])), Unhat(PointMul(Residues(old(cp[..])), Residues(old(s2[..])))))
    ensures Within(w0[..], Q - 1) && (reject <==> Exceeds(w0[..], GAMMA2 - BETA))
  {
    hide Rem, Residues, PointMul, Unhat, Sub;
    ProductRow(h, cp, s2);
    DPolySub(w0, w0, h, GAMMA2, CENTRED);
    DPolyReduce(w0);
    reject := ChkNorm(w0[..], (GAMMA2 - BETA) as int32);
  }

  /** The hints of a row and how many there are so far, unless c t0 is too large. */
  method HintRow(h: array<int32>, w0: array<int32>, w1: array<int32>, cp: array<int32>, t0: array<int32>, n0: nat)
    returns (reject: bool, n: nat)
    requires h.Length == w0.Length == w1.Length == cp.Length == t0.Length == 256
    requires h != w0 && h != w1 && h != cp && h != t0 && w0 != w1
    requires Within(cp[..], 9 * Q - 1) && Within(t0[..], 9 * Q - 1) && Within(w0[..], GAMMA2 - BETA)
    modifies h, w0
    ensures var m := Unhat(PointMul(Residues(old(cp[..])), Residues(old(t0[..]))));
      !reject ==> Residues(w0[..]) == Add(Q, Residues(old(w0[..])), m) && Within(w0[..], 2 * GAMMA2 - 1)
    ensures var m := Unhat(PointMul(Residues(old(cp[..])), Residues(old(t0[..]))));
      reject ==> Residues(h[..]) == m && Exceeds(h[..], GAMMA2) && w0[..] == old(w0[..])
    ensures !reject ==> forall p :: 0 <= p < 256 ==> h[p] as int == MakeHint(w0[p], w1[p])
    ensures !reject ==> n == n0 + |Positions(h[..], 256)|
  {
    hide Rem, Residues, PointMul, Unhat, Add, MakeHint, Within, Exceeds;
    n := n0;
    ProductRow(h, cp, t0);
    WithinGrows(h[..], CENTRED, 0x7000_0000);
    DPolyReduce(h);
    NormOf(h[..], GAMMA2);
    reject := ChkNorm(h[..], GAMMA2 as int32);
    if reject {
      return;
    }
    DPolyAdd(w0, w0, h, GAMMA2 - BETA, GAMMA2 - 1);
    WithinGrows(w0[..], 2 * GAMMA2 - BETA - 1, 2 * GAMMA2 - 1);
    Bounds(w0[..], 2 * GAMMA2 - 1);
    n := MakeHints(h, w0, w1, n0);
  }

  method MakeHints(h: array<int32>, w0: array<int32>, w1: array<int32>, n0: nat) returns (n: nat)
    requires h.Length == w0.Length == w1.Length == 256 && h != w0 && h != w1
    requires forall p :: 0 <= p < 256 ==> -0x4000_0000 <= w0[p] as int <= 0x4000_0000
    modifies h
    ensures forall p :: 0 <= p < 256 ==> h[p] as int == MakeHint(w0[p], w1[p])
    ensures n == n0 + |Positions(h[..], 256)|
  {
    hide MakeHint;
    n := n0;
    var j := 0;
    while j < 256
      invariant 0 <= j <= 256
      invariant forall p :: 0 <= p < j ==> h[p] as int == MakeHint(w0[p], w1[p])
      invariant n == n0 + |Positions(h[..], j)|
    {
      ghost var was := h[..];
      h[j] := MakeHint(w0[j], w1[j]) as int32;
      PositionsOfPrefix(was, h[..], j);
      n := n + h[j] as int;
      j := j + 1;
    }
  }

  lemma {:induction false} PositionsOfPrefix(r: Row, s: Row, n: nat)
    requires n <= |r| == |s| <= 256 && forall p :: 0 <= p < n ==> r[p] == s[p]
    ensures Positions(r, n) == Positions(s, n)
  {
    if n > 0 {
      PositionsOfPrefix(r, s, n - 1);
    }
  }

  lemma NormOf(h: seq<int32>, b: int)
    requires |h| == 256 && Within(h, Q - 1)
    ensures forall i :: 0 <= i < 256 ==> -0x4000_0000 < h[i] as int < 0x4000_0000
    ensures Exceeds(h, b) || Within(h, b - 1)
  {
  }

  lemma Bounds(w: seq<int32>, b: int)
    requires |w| == 256 && Within(w, b)
    ensures forall p :: 0 <= p < 256 ==> -b <= w[p] as int <= b
  {
  }

  /** t1 * 2^13 in place; the public key holds ten bits, so it stays below q. */
  method DPolyShiftL(t1: array<int32>)
    requires t1.Length == 256 && forall p :: 0 <= p < 256 ==> 0 <= t1[p] as int < 0x400
    modifies t1
    ensures Within(t1[..], Q - 1) && Ints32(t1[..]) == Shifted(Ints32(old(t1[..])))
  {
    var i := 0;
    while i < 256
      invariant 0 <= i <= 256
      invariant forall p :: i <= p < 256 ==> t1[p] == old(t1[p])
      invariant forall p :: 0 <= p < i ==> t1[p] as int == old(t1[p]) as int * 0x2000
    {
      t1[i] := t1[i] * 0x2000;
      i := i + 1;
    }
  }

  /** The high parts that the verifier hashes. The product overwrites its operand t1. */
  method VerifyRow(w1: array<int32>, t1: array<int32>, cp: array<int32>, h: array<int32>)
    requires w1.Length == t1.Length == cp.Length == h.Length == 256
    requires w1 != t1 && w1 != cp && w1 != h && t1 != cp && t1 != h
    requires Within(w1[..], 5 * (Q - 1)) && Within(cp[..], 9 * Q - 1)
    requires forall p :: 0 <= p < 256 ==> 0 <= t1[p] as int < 0x400 && 0 <= h[p] as int < 2
    modifies w1, t1
    ensures var x := Unhat(Sub(Q, Residues(old(w1[..])), PointMul(Residues(cp[..]), Hat(Shifted(Ints32(old(t1[..])))))));
      forall p :: 0 <= p < 256 ==> 0 <= x[p] < Q && w1[p] as int == UseHint(x[p] as int32, h[p] as int)
  {
    hide Rem, Residues, PointMul, Unhat, Sub, UseHint, Within, NttFrom, Zetas;
    DPolyShiftL(t1);
    assert Residues(t1[..]) == Canon(Q, Shifted(Ints32(old(t1[..])))) by { ResiduesAre(t1[..]); }
    DNtt(t1);
    DPolyPointwise(t1, cp, t1);
    DPolySub(w1, w1, t1, 5 * (Q - 1), Q - 1);
    WithinGrows(w1[..], 6 * (Q - 1), 6 * Q);
    BackFromRow(w1);
    WithinGrows(w1[..], CENTRED, Q - 1);
    DPolyCAddQ(w1);
    ghost var w := w1[..];
    var j := 0;
    while j < 256
      invariant 0 <= j <= 256
      invariant forall p :: j <= p < 256 ==> w1[p] == w[p]
      invariant forall p :: 0 <= p < j ==> w1[p] as int == UseHint(w[p], h[p] as int)
    {
      w1[j] := UseHint(w1[j], h[j] as int) as int32;
      j := j + 1;
    }
    assert forall p :: 0 <= p < 256 ==> Ints32(w)[p] == w[p] as int;
  }

  lemma ResiduesAre(s: seq<int32>)
    ensures Residues(s) == Canon(Q, Ints32(s))
  {
  }
}
