/** Arithmetic of ML-DSA-65 modulo 8380417: Montgomery reduction and the in-place transform and its inverse. */
module MlDsaNtt {
  import opened ModArith
  import opened NttTheory
  import opened Butterflies
  import opened RootPowers
  import opened RingProduct
  import opened Montgomery
  import opened MlDsaZetas
  import opened Words

  // ----- scalars -----

  const QINV := 58728449

  /** a * 2^-32 modulo q, without a division; the product by QINV keeps its low 32 bits. */
  function MontReduce(a: int64): (t: int32)
    requires -0x8000_0000 * Q < a as int < 0x8000_0000 * Q
    ensures -Q < t as int < Q
    ensures Rem(Q, t as int) == Rem(Q, a as int * RINV)
  {
    var m := Wrap32(Wrap32(a as int) as int * QINV);
    MontDivides(a as int, Wrap32(a as int) as int, m as int);
    MontResidue(a as int, m as int, (a as int - m as int * Q) / 0x1_0000_0000);
    ((a as int - m as int * Q) / 0x1_0000_0000) as int32
  }

  lemma MontDivides(a: int, w: int, m: int)
    requires (a - w) % 0x1_0000_0000 == 0 && (w * QINV - m) % 0x1_0000_0000 == 0
    ensures (a - m * Q) % 0x1_0000_0000 == 0
  {
    var i, j := (a - w) / 0x1_0000_0000, (w * QINV - m) / 0x1_0000_0000;
    assert a == w + i * 0x1_0000_0000 && m == w * QINV - j * 0x1_0000_0000;
  }

  lemma MontResidue(a: int, m: int, t: int)
    requires t * 0x1_0000_0000 == a - m * Q
    ensures Rem(Q, t) == Rem(Q, a * RINV)
  {
    hide Rem;
    assert a * RINV == t + (m * RINV + t * 4236238847) * Q;
    RemShift(Q, t, m * RINV + t * 4236238847);
  }

  // ----- the transform in place -----

  /** The residues modulo q that an array of words holds. */
  function Residues(s: seq<int32>): (v: seq<int>)
    ensures |v| == |s|
  {
    Canon(Q, Ints32(s))
  }

  predicate Within(s: seq<int32>, bound: int) {
    forall i :: 0 <= i < |s| ==> -bound <= s[i] as int <= bound
  }

  /** The product by a root, as every butterfly computes it. */
  function Twiddle(zeta: int32, y: int32): (t: int32)
    requires -4190208 <= zeta as int <= 4190208
    ensures -Q < t as int < Q
    ensures Rem(Q, t as int) == Rem(Q, (zeta as int * y as int) * RINV)
  {
    ProductBound(zeta as int, y as int, 4190208, 0x8000_0000);
    MontReduce(zeta as int64 * y as int64)
  }

  /** What the butterflies of the block at start leave at position i. */
  ghost function ButterflyAt(s: seq<int32>, start: nat, len: nat, zeta: int32, i: nat): (r: int)
    requires |s| == 256 && start + 2 * len <= 256 && -4190208 <= zeta as int <= 4190208 && i < 256
    ensures start <= i < start + len ==> -Q < r - s[i] as int < Q
    ensures start + len <= i < start + 2 * len ==> -Q < r - s[i - len] as int < Q
    ensures i < start || start + 2 * len <= i ==> r == s[i] as int
  {
    if start <= i < start + len then s[i] as int + Twiddle(zeta, s[i + len]) as int
    else if start + len <= i < start + 2 * len then s[i - len] as int - Twiddle(zeta, s[i]) as int
    else s[i] as int
  }

  /** The inner loop of the forward transform: one block of butterflies. */
  method ForwardBlock(a: array<int32>, start: nat, len: nat, zeta: int32, ghost bound: int)
    requires a.Length == 256 && start + 2 * len <= 256 && -4190208 <= zeta as int <= 4190208
    requires 0 <= bound <= 8 * Q && forall i :: start <= i < start + 2 * len ==> -bound <= a[i] as int <= bound
    modifies a
    ensures forall i :: 0 <= i < 256 ==> a[i] as int == ButterflyAt(old(a[..]), start, len, zeta, i)
  {
    hide Twiddle, Rem;
    ghost var s := a[..];
    var j := start;
    while j < start + len
      invariant start <= j <= start + len
      invariant forall i :: 0 <= i < 256 ==>
        a[i] as int == if start <= i < j || start + len <= i < j + len then ButterflyAt(s, start, len, zeta, i) else s[i] as int
    {
      var t := Twiddle(zeta, a[j + len]);
      a[j + len] := a[j] - t;
      a[j] := a[j] + t;
      j := j + 1;
    }
  }

  /** Entry k of the table as the word the program reads. */
  function Zeta32(k: nat): (z: int32)
    ensures -4190208 <= z as int <= 4190208 && z as int == DZeta(k)
  {
    ZetaBound(k);
    DZeta(k) as int32
  }

  /** What a butterfly stores at position p is what the layer of the specification says. */
  lemma ForwardEntry(h: nat, m: nat, s: seq<int32>, p: nat, r: int)
    requires h > 0 && |s| == 256 && p < 256 && Partnered(h, m, p) && m <= 128
    requires var zeta := Zeta32(m + BlockOf(2 * h, p));
             r == if OffsetOf(2 * h, p) < h then s[p] as int + Twiddle(zeta, s[p + h]) as int
                  else s[p - h] as int - Twiddle(zeta, s[p]) as int
    ensures Rem(Q, r) == FwdAt(Q, Zetas(), Residues(s), h, m, p)
  {
    hide Rem, FwdLow, FwdHigh, Twiddle, BlockOf, OffsetOf;
    var zeta := Zeta32(m + BlockOf(2 * h, p));
    if OffsetOf(2 * h, p) < h {
      ForwardStep(Q, RINV, zeta as int, s[p] as int, s[p + h] as int, Twiddle(zeta, s[p + h]) as int);
    } else {
      ForwardStep(Q, RINV, zeta as int, s[p - h] as int, s[p] as int, Twiddle(zeta, s[p]) as int);
    }
  }

  /** A finished block is a block of the layer. */
  lemma ForwardBlockDone(l: nat, b: nat, start: nat, s: seq<int32>, u: seq<int32>, t: seq<int32>, p: nat)
    requires l < 8 && b < Blocks(l) && start == b * Width(l) && |s| == |t| == 256
    requires Width(l) == 2 * Width(l + 1) && start <= p < start + Width(l) <= 256 && Blocks(l) <= 128
    requires |u| == 256 && forall i :: start <= i < start + Width(l) ==> u[i] == s[i]
    requires t[p] as int == ButterflyAt(u, start, Width(l + 1), Zeta32(Blocks(l) + b), p)
    ensures Rem(Q, t[p] as int) == Fwd(Q, Zetas(), Residues(s), l)[p]
  {
    hide Rem, Twiddle, Zeta32, Width, Blocks;
    Partner(l, p);
    BlockIndex(Width(l), b, p - start);
    ForwardEntry(Width(l + 1), Blocks(l), s, p, t[p] as int);
  }

  /** The middle loop of the forward transform: one layer. */
  method ForwardLayer(a: array<int32>, k0: nat, len: nat, ghost l: nat) returns (k: nat)
    requires a.Length == 256 && l < 8 && len == Width(l + 1) && k0 == Blocks(l) - 1
    requires Within(a[..], (l + 1) * Q - 1)
    modifies a
    ensures k == 2 * Blocks(l) - 1 && Blocks(l) <= 128
    ensures Within(a[..], (l + 2) * Q - 1)
    ensures Residues(a[..]) == Fwd(Q, Zetas(), Residues(old(a[..])), l)
  {
    hide Rem, Twiddle, Zeta32, Fwd, Width, Blocks, ButterflyAt;
    k := k0;
    ghost var b := 0;
    var start := 0;
    Halving(l);
    assert Blocks(l) <= 128;
    while start < 256
      invariant b <= Blocks(l) && start == b * Width(l) <= 256 && k == Blocks(l) - 1 + b
      invariant forall p :: start <= p < 256 ==> a[p] == old(a[p])
      invariant forall p :: 0 <= p < start ==> Rem(Q, a[p] as int) == Fwd(Q, Zetas(), Residues(old(a[..])), l)[p]
      invariant forall p :: 0 <= p < start ==> -(l + 2) * Q < a[p] as int < (l + 2) * Q
    {
      Tiling(l, b);
      k := k + 1;
      ghost var u := a[..];
      ForwardBlock(a, start, len, Zeta32(k), (l + 1) * Q - 1);
      forall p | start <= p < start + 2 * len
        ensures Rem(Q, a[p] as int) == Fwd(Q, Zetas(), Residues(old(a[..])), l)[p]
      {
        ForwardBlockDone(l, b, start, old(a[..]), u, a[..], p);
      }
      b := b + 1;
      start := start + 2 * len;
    }
    Tiling(l, b);
    assert Residues(a[..]) == Fwd(Q, Zetas(), Residues(old(a[..])), l);
  }

  lemma TransformWords(s: seq<int32>, t: seq<int32>)
    requires |s| == |t| == 256 && Residues(t) == NttFrom(Q, Zetas(), Residues(s), 0, 8)
    ensures IsTransform(Q, 1753, 8, Ints32(s), Ints32(t))
  {
    hide Rem, NttFrom, Zetas, IsTransform;
    TransformIs(Ints32(s));
    TransformOfResidues(Q, 1753, 8, Ints32(s), Ints32(t));
  }

  method DNtt(a: array<int32>)
    requires a.Length == 256 && Within(a[..], Q - 1)
    modifies a
    ensures Within(a[..], 9 * Q - 1)
    ensures Residues(a[..]) == NttFrom(Q, Zetas(), Residues(old(a[..])), 0, 8)
    ensures IsTransform(Q, 1753, 8, Ints32(old(a[..])), Ints32(a[..]))
  {
    hide Rem, Residues, Fwd;
    ghost var l := 0;
    var k, len := 0, 128;
    while len > 0
      invariant l <= 8 && k == Blocks(l) - 1 && len == (if l == 8 then 0 else Width(l + 1))
      invariant Within(a[..], (l + 1) * Q - 1)
      invariant NttFrom(Q, Zetas(), Residues(a[..]), l, 8) == NttFrom(Q, Zetas(), Residues(old(a[..])), 0, 8)
      decreases 8 - l
    {
      Halving(l);
      k := ForwardLayer(a, k, len, l);
      l := l + 1;
      len := len / 2;
    }
    TransformWords(old(a[..]), a[..]);
  }

  // ----- the inverse transform in place -----

  lemma TwiddleDifference(zeta: int32, d: int32, x: int, y: int)
    requires -4190208 <= zeta as int <= 4190208 && d as int == x - y
    ensures Rem(Q, Twiddle(zeta, d) as int) == Rem(Q, TwistedDifference(RINV, zeta as int, x, y))
  {
    hide Twiddle, Rem;
  }

  /** What the inverse butterflies of the block at start leave at position i: sums are left unreduced, differences are
      multiplied by the root. */
  ghost function UndoneAt(s: seq<int32>, start: nat, len: nat, zeta: int32, bound: int, i: nat): (r: int)
    requires |s| == 256 && start + 2 * len <= 256 && -4190208 <= zeta as int <= 4190208 && i < 256
    requires Q - 1 <= bound && 2 * bound < 0x8000_0000
    requires forall j :: start <= j < start + 2 * len ==> -bound <= s[j] as int <= bound
    ensures start <= i < start + 2 * len ==> -2 * bound <= r <= 2 * bound
    ensures i < start || start + 2 * len <= i ==> r == s[i] as int
  {
    if start <= i < start + len then s[i] as int + s[i + len] as int
    else if start + len <= i < start + 2 * len then Twiddle(zeta, s[i - len] - s[i]) as int
    else s[i] as int
  }

  /** The inner loop of the inverse transform. */
  method InverseBlock(a: array<int32>, start: nat, len: nat, zeta: int32, ghost bound: int)
    requires a.Length == 256 && start + 2 * len <= 256 && -4190208 <= zeta as int <= 4190208
    requires Q - 1 <= bound && 2 * bound < 0x8000_0000
    requires forall i :: start <= i < start + 2 * len ==> -bound <= a[i] as int <= bound
    modifies a
    ensures forall i :: 0 <= i < 256 ==> a[i] as int == UndoneAt(old(a[..]), start, len, zeta, bound, i)
  {
    hide Twiddle, Rem;
    ghost var s := a[..];
    var j := start;
    while j < start + len
      invariant start <= j <= start + len
      invariant forall i :: 0 <= i < 256 ==>
        a[i] as int == if start <= i < j || start + len <= i < j + len then UndoneAt(s, start, len, zeta, bound, i) else s[i] as int
    {
      var t := a[j];
      a[j] := t + a[j + len];
      a[j + len] := t - a[j + len];
      a[j + len] := Twiddle(zeta, a[j + len]);
      j := j + 1;
    }
  }

  lemma InverseEntry(h: nat, m: nat, s: seq<int32>, p: nat, r: int)
    requires h > 0 && |s| == 256 && p < 256 && Partnered(h, m, p) && m <= 128
    requires OffsetOf(2 * h, p) < h ==> r == s[p] as int + s[p + h] as int
    requires OffsetOf(2 * h, p) >= h ==>
      var n := -(Zeta32(Mirror(m, BlockOf(2 * h, p))) as int);
      Rem(Q, r) == Rem(Q, TwistedDifference(RINV, n, s[p - h] as int, s[p] as int))
    ensures Rem(Q, r) == InvAt(Q, Zetas(), Residues(s), h, m, p)
  {
    hide Rem, InvLow, InvHigh, BlockOf, OffsetOf, TwistedDifference;
    if OffsetOf(2 * h, p) < h {
      InverseSum(Q, s[p] as int, s[p + h] as int);
    } else {
      var zeta := DZeta(Mirror(m, BlockOf(2 * h, p)));
      var x, y := s[p - h] as int, s[p] as int;
      InverseTwist(Q, RINV, zeta, x, y);
    }
  }

  lemma InverseBlockDone(l: nat, b: nat, start: nat, s: seq<int32>, u: seq<int32>, bound: int, t: seq<int32>, p: nat)
    requires l < 8 && b < Blocks(l) && start == b * Width(l) && |s| == |u| == |t| == 256
    requires Width(l) == 2 * Width(l + 1) && start <= p < start + Width(l) <= 256 && Blocks(l) <= 128
    requires Q - 1 <= bound && 2 * bound < 0x8000_0000
    requires forall i :: start <= i < start + Width(l) ==> u[i] == s[i] && -bound <= u[i] as int <= bound
    requires t[p] as int == UndoneAt(u, start, Width(l + 1), -Zeta32(Mirror(Blocks(l), b)), bound, p)
    ensures Rem(Q, t[p] as int) == Inv(Q, Zetas(), Residues(s), l)[p]
  {
    hide Rem, Zeta32, Width, Blocks, TwistedDifference, Twiddle;
    Partner(l, p);
    BlockIndex(Width(l), b, p - start);
    var h := Width(l + 1);
    if p >= start + h {
      TwiddleDifference(-Zeta32(Mirror(Blocks(l), b)), s[p - h] - s[p], s[p - h] as int, s[p] as int);
    }
    InverseEntry(h, Blocks(l), s, p, t[p] as int);
  }

  /** The middle loop of the inverse transform: one layer. Values at most double. */
  method InverseLayer(a: array<int32>, k0: nat, len: nat, ghost l: nat, ghost bound: int) returns (k: nat)
    requires a.Length == 256 && l < 8 && len == Width(l + 1) && k0 == 2 * Blocks(l) && Blocks(l) <= 128
    requires Q - 1 <= bound && 2 * bound < 0x8000_0000 && Within(a[..], bound)
    modifies a
    ensures k == Blocks(l)
    ensures Within(a[..], 2 * bound)
    ensures Residues(a[..]) == Inv(Q, Zetas(), Residues(old(a[..])), l)
  {
    hide Rem, Twiddle, Zeta32, Inv, Width, Blocks, UndoneAt;
    k := k0;
    ghost var b := 0;
    var start := 0;
    Halving(l);
    while start < 256
      invariant b <= Blocks(l) && start == b * Width(l) <= 256 && k == 2 * Blocks(l) - b
      invariant forall p :: start <= p < 256 ==> a[p] == old(a[p])
      invariant forall p :: 0 <= p < start ==> Rem(Q, a[p] as int) == Inv(Q, Zetas(), Residues(old(a[..])), l)[p]
      invariant forall p :: 0 <= p < start ==> -2 * bound <= a[p] as int <= 2 * bound
    {
      Tiling(l, b);
      k := k - 1;
      ghost var u := a[..];
      InverseBlock(a, start, len, -Zeta32(k), bound);
      forall p | start <= p < start + 2 * len
        ensures Rem(Q, a[p] as int) == Inv(Q, Zetas(), Residues(old(a[..])), l)[p]
      {
        InverseBlockDone(l, b, start, old(a[..]), u, bound, a[..], p);
      }
      b := b + 1;
      start := start + 2 * len;
    }
    Tiling(l, b);
    assert Residues(a[..]) == Inv(Q, Zetas(), Residues(old(a[..])), l);
  }

  /** 2^64 / 256 modulo q, the factor of the last loop. */
  const F: int32 := 41978

  /** q / 2 + f / 2: what the last loop of the inverse transform can reach. */
  const CENTRED := 4211198

  /** The last multiplication nearly centres its result. */
  lemma RescaledBound(y: int32)
    ensures -CENTRED <= Twiddle(F, y) as int <= CENTRED
  {
    hide Rem;
    var a := F as int * y as int;
    var m := Wrap32(Wrap32(a) as int * QINV) as int;
    ProductBound(F as int, y as int, 41978, 0x8000_0000);
    MontDivides(a, Wrap32(a) as int, m);
    var t := (a - m * Q) / 0x1_0000_0000;
    assert t * 0x1_0000_0000 == a - m * Q;
    assert -0x8000_0000 <= m < 0x8000_0000;
  }

  /** The inverse transform. Its partial sums reach 256 * (q - 1), which is below 2^31. */
  method DInvNtt(a: array<int32>)
    requires a.Length == 256 && Within(a[..], Q - 1)
    modifies a
    ensures Within(a[..], CENTRED)
    ensures Residues(a[..]) == Scale(Q, F as int * RINV, InvTo(Q, Zetas(), Residues(old(a[..])), 0, 8))
  {
    hide Rem, Residues, Inv;
    ghost var l: nat := 8;
    var k, len := 256, 1;
    while len < 256
      invariant l <= 8 && k == Blocks(l) && len == Width(l)
      invariant Within(a[..], (Q - 1) * Width(l))
      invariant Residues(a[..]) == InvTo(Q, Zetas(), Residues(old(a[..])), l, 8)
      decreases l
    {
      l := l - 1;
      Halving(l);
      k := InverseLayer(a, k, len, l, (Q - 1) * Width(l + 1));
      len := 2 * len;
    }
    Rescale256(a);
  }

  method Rescale256(a: array<int32>)
    requires a.Length == 256
    modifies a
    ensures Within(a[..], CENTRED)
    ensures Residues(a[..]) == Scale(Q, F as int * RINV, Residues(old(a[..])))
  {
    hide Rem, Twiddle;
    var j := 0;
    while j < 256
      invariant 0 <= j <= 256
      invariant forall i :: j <= i < 256 ==> a[i] == old(a[i])
      invariant forall i :: 0 <= i < j ==> a[i] == Twiddle(F, old(a[i]))
    {
      a[j] := Twiddle(F, a[j]);
      j := j + 1;
    }
    forall i | 0 <= i < 256
      ensures -CENTRED <= a[i] as int <= CENTRED
      ensures Rem(Q, a[i] as int) == Rem(Q, (F as int * RINV) * Rem(Q, old(a[i]) as int))
    {
      var x := old(a[i]) as int;
      RescaledBound(old(a[i]));
      RemRem(Q, x);
      RemMul(Q, F as int * RINV, F as int * RINV, Rem(Q, x), x);
      assert (F as int * x) * RINV == (F as int * RINV) * x;
    }
  }
}
