/** Arithmetic of ML-KEM-768 modulo 3329: Montgomery and Barrett reduction, and the in-place transform and its inverse. */
module MlKemNtt {
  import opened ModArith
  import opened NttTheory
  import opened Butterflies
  import opened RootPowers
  import opened MlKemZetas
  import opened Words

  // ----- scalars -----

  /** a * 2^-16 modulo q, without a division. */
  function Montgomery(a: int32): (t: int16)
    requires -0x8000 * Q < a as int < 0x8000 * Q
    ensures -Q < t as int < Q
    ensures Rem(Q, t as int) == Rem(Q, a as int * RINV)
  {
    var w := Wrap16(a as int) as int;
    var m := Wrap16(w * -3327) as int;
    MontDivides(a as int, w, m);
    MontResidue(a as int, m, (a as int - m * Q) / 0x1_0000);
    ((a as int - m * Q) / 0x1_0000) as int16
  }

  lemma MontDivides(a: int, w: int, m: int)
    requires (a - w) % 0x1_0000 == 0 && (w * -3327 - m) % 0x1_0000 == 0
    ensures (a - m * Q) % 0x1_0000 == 0
  {
    var i, j := (a - w) / 0x1_0000, (w * -3327 - m) / 0x1_0000;
    assert a == w + i * 0x1_0000 && m == w * -3327 - j * 0x1_0000;
    assert a - m * Q == (169 * w + i + j * Q) * 0x1_0000;
  }

  lemma MontResidue(a: int, m: int, t: int)
    requires t * 0x1_0000 == a - m * Q
    ensures Rem(Q, t) == Rem(Q, a * RINV)
  {
    hide Rem;
    assert a * RINV == t + (m * RINV + t * 3327) * Q;
    RemShift(Q, t, m * RINV + t * 3327);
  }

  /** The centred residue, for every 16-bit word. */
  function Barrett(a: int16): (r: int16)
    ensures -1664 <= r as int <= 1664
    ensures Rem(Q, r as int) == Rem(Q, a as int)
  {
    var t := (20159 * a as int + 0x200_0000) / 0x400_0000;
    RemShift(Q, a as int, -t);
    (a as int - t * Q) as int16
  }

  function FqMul(a: int16, b: int16): (t: int16)
    requires -0x8000 * Q < a as int * b as int < 0x8000 * Q
    ensures -Q < t as int < Q
    ensures Rem(Q, t as int) == Rem(Q, (a as int * b as int) * RINV)
  {
    Montgomery((a as int * b as int) as int32)
  }

  /** The product by a root, as every butterfly computes it. */
  function Twiddle(zeta: int16, y: int16): (t: int16)
    requires -1664 <= zeta as int <= 1664
    ensures -Q < t as int < Q
    ensures Rem(Q, t as int) == Rem(Q, (zeta as int * y as int) * RINV)
  {
    ProductBound(zeta as int, y as int, 1664, 0x8000);
    FqMul(zeta, y)
  }

  /** Entry k of the table as the word the program reads. */
  function Zeta16(k: nat): (z: int16)
    ensures -1664 <= z as int <= 1664 && z as int == KZeta(k)
  {
    ZetaBound(k);
    KZeta(k) as int16
  }

  function Residues(s: seq<int16>): (v: seq<int>)
    ensures |v| == |s|
  {
    Canon(Q, Ints16(s))
  }

  predicate Within(s: seq<int16>, bound: int) {
    forall i :: 0 <= i < |s| ==> -bound <= s[i] as int <= bound
  }

  // ----- the transform in place -----

  /** What the butterflies of the block at start leave at position i. */
  ghost function ButterflyAt(s: seq<int16>, start: nat, len: nat, zeta: int16, i: nat): (r: int)
    requires |s| == 256 && start + 2 * len <= 256 && -1664 <= zeta as int <= 1664 && i < 256
    ensures start <= i < start + len ==> -Q < r - s[i] as int < Q
    ensures start + len <= i < start + 2 * len ==> -Q < r - s[i - len] as int < Q
    ensures i < start || start + 2 * len <= i ==> r == s[i] as int
  {
    if start <= i < start + len then s[i] as int + Twiddle(zeta, s[i + len]) as int
    else if start + len <= i < start + 2 * len then s[i - len] as int - Twiddle(zeta, s[i]) as int
    else s[i] as int
  }

  method ForwardBlock(r: array<int16>, start: nat, len: nat, zeta: int16, ghost bound: int)
    requires r.Length == 256 && start + 2 * len <= 256 && -1664 <= zeta as int <= 1664
    requires 0 <= bound && bound + Q <= 0x8000 && forall i :: start <= i < start + 2 * len ==> -bound <= r[i] as int <= bound
    modifies r
    ensures forall i :: 0 <= i < 256 ==> r[i] as int == ButterflyAt(old(r[..]), start, len, zeta, i)
  {
    hide Twiddle, Rem;
    ghost var s := r[..];
    var j := start;
    while j < start + len
      invariant start <= j <= start + len
      invariant forall i :: 0 <= i < 256 ==>
        r[i] as int == if start <= i < j || start + len <= i < j + len then ButterflyAt(s, start, len, zeta, i) else s[i] as int
    {
      var t := Twiddle(zeta, r[j + len]);
      r[j + len] := r[j] - t;
      r[j] := r[j] + t;
      j := j + 1;
    }
  }

  lemma ForwardEntry(h: nat, m: nat, s: seq<int16>, p: nat, r: int)
    requires h > 0 && |s| == 256 && p < 256 && Partnered(h, m, p) && m <= 64
    requires var zeta := Zeta16(m + BlockOf(2 * h, p));
             r == if OffsetOf(2 * h, p) < h then s[p] as int + Twiddle(zeta, s[p + h]) as int
                  else s[p - h] as int - Twiddle(zeta, s[p]) as int
    ensures Rem(Q, r) == FwdAt(Q, Zetas(), Residues(s), h, m, p)
  {
    hide Rem, FwdLow, FwdHigh, Twiddle, BlockOf, OffsetOf;
    var zeta := Zeta16(m + BlockOf(2 * h, p));
    if OffsetOf(2 * h, p) < h {
      ForwardStep(Q, RINV, zeta as int, s[p] as int, s[p + h] as int, Twiddle(zeta, s[p + h]) as int);
    } else {
      ForwardStep(Q, RINV, zeta as int, s[p - h] as int, s[p] as int, Twiddle(zeta, s[p]) as int);
    }
  }

  lemma ForwardBlockDone(l: nat, b: nat, start: nat, s: seq<int16>, u: seq<int16>, t: seq<int16>, p: nat)
    requires l < 7 && b < Blocks(l) && start == b * Width(l) && |s| == |t| == 256
    requires Width(l) == 2 * Width(l + 1) && start <= p < start + Width(l) <= 256 && Blocks(l) <= 64
    requires |u| == 256 && forall i :: start <= i < start + Width(l) ==> u[i] == s[i]
    requires t[p] as int == ButterflyAt(u, start, Width(l + 1), Zeta16(Blocks(l) + b), p)
    ensures Rem(Q, t[p] as int) == Fwd(Q, Zetas(), Residues(s), l)[p]
  {
    hide Rem, Twiddle, Zeta16, Width, Blocks;
    Partner(l, p);
    BlockIndex(Width(l), b, p - start);
    ForwardEntry(Width(l + 1), Blocks(l), s, p, t[p] as int);
  }

  /** One layer: the middle loop of the forward transform. */
  method ForwardLayer(r: array<int16>, k0: nat, len: nat, ghost l: nat, ghost bound: int) returns (k: nat)
    requires r.Length == 256 && l < 7 && len == Width(l + 1) && k0 == Blocks(l)
    requires Within(r[..], bound) && 0 <= bound && bound + Q <= 0x8000
    modifies r
    ensures k == 2 * Blocks(l) && Blocks(l) <= 64
    ensures Within(r[..], bound + Q - 1)
    ensures Residues(r[..]) == Fwd(Q, Zetas(), Residues(old(r[..])), l)
  {
    hide Rem, Twiddle, Zeta16, Fwd, Width, Blocks;
    k := k0;
    ghost var b := 0;
    var start := 0;
    Halving(l);
    assert Blocks(l) <= 64 by { BlocksGrow(l, 6); assert Blocks(6) == 64 by { SixtyFour(); } }
    while start < 256
      invariant b <= Blocks(l) && start == b * Width(l) <= 256 && k == Blocks(l) + b
      invariant forall p :: start <= p < 256 ==> r[p] == old(r[p])
      invariant forall p :: 0 <= p < start ==> Rem(Q, r[p] as int) == Fwd(Q, Zetas(), Residues(old(r[..])), l)[p]
      invariant forall p :: 0 <= p < start ==> -(bound + Q) < r[p] as int < bound + Q
    {
      Tiling(l, b);
      var zeta := Zeta16(k);
      k := k + 1;
      ghost var u := r[..];
      ForwardBlock(r, start, len, zeta, bound);
      forall p | start <= p < start + 2 * len
        ensures Rem(Q, r[p] as int) == Fwd(Q, Zetas(), Residues(old(r[..])), l)[p]
      {
        ForwardBlockDone(l, b, start, old(r[..]), u, r[..], p);
      }
      b := b + 1;
      start := start + 2 * len;
    }
    Tiling(l, b);
    assert Residues(r[..]) == Fwd(Q, Zetas(), Residues(old(r[..])), l);
  }

  lemma SixtyFour()
    ensures Blocks(6) == 64
  {
  }

  lemma TransformWords(s: seq<int16>, t: seq<int16>)
    requires |s| == |t| == 256 && Residues(t) == NttFrom(Q, Zetas(), Residues(s), 0, 7)
    ensures IsTransform(Q, 17, 7, Ints16(s), Ints16(t))
  {
    hide Rem, NttFrom, Zetas, IsTransform;
    TransformIs(Ints16(s));
    TransformOfResidues(Q, 17, 7, Ints16(s), Ints16(t));
  }

  /** The transform of a polynomial. Seven layers add at most q - 1 each, so 9471 + 7 * 3328 = 32767 is the largest sum. */
  method KNtt(r: array<int16>)
    requires r.Length == 256 && Within(r[..], 9471)
    modifies r
    ensures Within(r[..], 1664)
    ensures Residues(r[..]) == NttFrom(Q, Zetas(), Residues(old(r[..])), 0, 7)
    ensures IsTransform(Q, 17, 7, Ints16(old(r[..])), Ints16(r[..]))
  {
    hide Rem, Residues, Fwd;
    ghost var l: nat := 0;
    var k, len := 1, 128;
    while len >= 2
      invariant l <= 7 && k == Blocks(l) && len == Width(l + 1)
      invariant Within(r[..], 9471 + l * (Q - 1))
      invariant NttFrom(Q, Zetas(), Residues(r[..]), l, 7) == NttFrom(Q, Zetas(), Residues(old(r[..])), 0, 7)
      decreases 7 - l
    {
      Halving(l);
      k := ForwardLayer(r, k, len, l, 9471 + l * (Q - 1));
      l := l + 1;
      len := len / 2;
    }
    KPolyReduce(r);
    TransformWords(old(r[..]), r[..]);
  }

  /** Replace every coefficient by its centred residue. */
  method KPolyReduce(r: array<int16>)
    requires r.Length == 256
    modifies r
    ensures Within(r[..], 1664)
    ensures Residues(r[..]) == Residues(old(r[..]))
  {
    hide Rem, Barrett;
    var j := 0;
    while j < 256
      invariant 0 <= j <= 256
      invariant forall i :: j <= i < 256 ==> r[i] == old(r[i])
      invariant forall i :: 0 <= i < j ==> r[i] == Barrett(old(r[i]))
    {
      r[j] := Barrett(r[j]);
      j := j + 1;
    }
    assert Residues(r[..]) == Residues(old(r[..]));
  }

  // ----- the inverse transform in place -----

  lemma TwiddleDifference(zeta: int16, d: int16, x: int, y: int)
    requires -1664 <= zeta as int <= 1664 && d as int == y - x
    ensures Rem(Q, Twiddle(zeta, d) as int) == Rem(Q, TwistedDifference(RINV, zeta as int, y, x))
  {
    hide Twiddle, Rem;
  }

  /** The inner loop of the inverse transform: sums are Barrett reduced, differences multiplied by the root. */
  method InverseBlock(r: array<int16>, start: nat, len: nat, zeta: int16)
    requires r.Length == 256 && start + 2 * len <= 256 && -1664 <= zeta as int <= 1664
    requires forall i :: start <= i < start + 2 * len ==> -16383 <= r[i] as int <= 16383
    modifies r
    ensures forall i :: 0 <= i < start || start + 2 * len <= i < 256 ==> r[i] == old(r[i])
    ensures forall i :: start <= i < start + 2 * len ==> -Q < r[i] as int < Q
    ensures forall i :: start <= i < start + len ==> Rem(Q, r[i] as int) == Rem(Q, old(r[i]) as int + old(r[i + len]) as int)
    ensures forall i :: start + len <= i < start + 2 * len ==>
      Rem(Q, r[i] as int) == Rem(Q, TwistedDifference(RINV, zeta as int, old(r[i]) as int, old(r[i - len]) as int))
  {
    hide Twiddle, Rem, Barrett, TwistedDifference;
    var j := start;
    while j < start + len
      invariant start <= j <= start + len
      invariant forall i :: 0 <= i < 256 && !(start <= i < j) && !(start + len <= i < j + len) ==> r[i] == old(r[i])
      invariant forall i :: start <= i < j || start + len <= i < j + len ==> -Q < r[i] as int < Q
      invariant forall i :: start <= i < j ==> Rem(Q, r[i] as int) == Rem(Q, old(r[i]) as int + old(r[i + len]) as int)
      invariant forall i :: start + len <= i < j + len ==>
        Rem(Q, r[i] as int) == Rem(Q, TwistedDifference(RINV, zeta as int, old(r[i]) as int, old(r[i - len]) as int))
    {
      var t := r[j];
      r[j] := Barrett(t + r[j + len]);
      r[j + len] := r[j + len] - t;
      assert Rem(Q, Twiddle(zeta, r[j + len]) as int)
          == Rem(Q, TwistedDifference(RINV, zeta as int, old(r[j + len]) as int, old(r[j]) as int)) by {
        TwiddleDifference(zeta, r[j + len], old(r[j]) as int, old(r[j + len]) as int);
      }
      r[j + len] := Twiddle(zeta, r[j + len]);
      j := j + 1;
    }
  }

  lemma InverseEntry(h: nat, m: nat, s: seq<int16>, p: nat, r: int)
    requires h > 0 && |s| == 256 && p < 256 && Partnered(h, m, p) && m <= 64
    requires OffsetOf(2 * h, p) < h ==> Rem(Q, r) == Rem(Q, s[p] as int + s[p + h] as int)
    requires OffsetOf(2 * h, p) >= h ==>
      var n := Zeta16(Mirror(m, BlockOf(2 * h, p))) as int;
      Rem(Q, r) == Rem(Q, TwistedDifference(RINV, n, s[p] as int, s[p - h] as int))
    ensures Rem(Q, r) == InvAt(Q, Zetas(), Residues(s), h, m, p)
  {
    hide Rem, InvLow, InvHigh, BlockOf, OffsetOf, TwistedDifference;
    if OffsetOf(2 * h, p) < h {
      InverseSum(Q, s[p] as int, s[p + h] as int);
    } else {
      var zeta := KZeta(Mirror(m, BlockOf(2 * h, p)));
      var x, y := s[p - h] as int, s[p] as int;
      InverseTwist(Q, RINV, zeta, x, y);
    }
  }

  lemma InverseBlockDone(l: nat, b: nat, start: nat, s: seq<int16>, t: seq<int16>, p: nat)
    requires l < 7 && b < Blocks(l) && start == b * Width(l) && |s| == |t| == 256
    requires Width(l) == 2 * Width(l + 1) && start <= p < start + Width(l) <= 256 && Blocks(l) <= 64
    requires p < start + Width(l + 1) ==> Rem(Q, t[p] as int) == Rem(Q, s[p] as int + s[p + Width(l + 1)] as int)
    requires p >= start + Width(l + 1) ==>
      var zeta := Zeta16(Mirror(Blocks(l), b)) as int;
      Rem(Q, t[p] as int) == Rem(Q, TwistedDifference(RINV, zeta, s[p] as int, s[p - Width(l + 1)] as int))
    ensures Rem(Q, t[p] as int) == Inv(Q, Zetas(), Residues(s), l)[p]
  {
    hide Rem, Zeta16, Width, Blocks, TwistedDifference;
    Partner(l, p);
    BlockIndex(Width(l), b, p - start);
    InverseEntry(Width(l + 1), Blocks(l), s, p, t[p] as int);
  }

  method InverseLayer(r: array<int16>, k0: nat, len: nat, ghost l: nat) returns (k: nat)
    requires r.Length == 256 && l < 7 && len == Width(l + 1) && k0 == 2 * Blocks(l) - 1 && Blocks(l) <= 64
    requires Within(r[..], 16383)
    modifies r
    ensures k == Blocks(l) - 1
    ensures Within(r[..], 16383)
    ensures Residues(r[..]) == Inv(Q, Zetas(), Residues(old(r[..])), l)
  {
    hide Rem, Twiddle, Zeta16, Inv, Width, Blocks, TwistedDifference;
    k := k0;
    ghost var b := 0;
    var start := 0;
    Halving(l);
    while start < 256
      invariant b <= Blocks(l) && start == b * Width(l) <= 256 && k == 2 * Blocks(l) - 1 - b
      invariant forall p :: start <= p < 256 ==> r[p] == old(r[p])
      invariant forall p :: 0 <= p < start ==> Rem(Q, r[p] as int) == Inv(Q, Zetas(), Residues(old(r[..])), l)[p]
      invariant forall p :: 0 <= p < start ==> -Q < r[p] as int < Q
    {
      Tiling(l, b);
      var zeta := Zeta16(k);
      k := k - 1;
      InverseBlock(r, start, len, zeta);
      forall p | start <= p < start + 2 * len
        ensures Rem(Q, r[p] as int) == Inv(Q, Zetas(), Residues(old(r[..])), l)[p]
      {
        InverseBlockDone(l, b, start, old(r[..]), r[..], p);
      }
      b := b + 1;
      start := start + 2 * len;
    }
    Tiling(l, b);
    assert Residues(r[..]) == Inv(Q, Zetas(), Residues(old(r[..])), l);
  }

  /** 2^32 / 128 modulo q, the factor of the last loop. */
  const F: int16 := 1441

  method KInvNtt(r: array<int16>)
    requires r.Length == 256 && Within(r[..], 16383)
    modifies r
    ensures Within(r[..], Q - 1)
    ensures Residues(r[..]) == Scale(Q, F as int * RINV, InvTo(Q, Zetas(), Residues(old(r[..])), 0, 7))
  {
    hide Rem, Residues, Inv;
    ghost var l: nat := 7;
    var k, len := 127, 2;
    while len <= 128
      invariant l <= 7 && k == Blocks(l) - 1 && len == Width(l)
      invariant Within(r[..], 16383)
      invariant Residues(r[..]) == InvTo(Q, Zetas(), Residues(old(r[..])), l, 7)
      decreases l
    {
      l := l - 1;
      Halving(l);
      k := InverseLayer(r, k, len, l);
      len := 2 * len;
    }
    Rescale128(r);
  }

  method Rescale128(r: array<int16>)
    requires r.Length == 256
    modifies r
    ensures Within(r[..], Q - 1)
    ensures Residues(r[..]) == Scale(Q, F as int * RINV, Residues(old(r[..])))
  {
    hide Rem, Twiddle;
    var j := 0;
    while j < 256
      invariant 0 <= j <= 256
      invariant forall i :: j <= i < 256 ==> r[i] == old(r[i])
      invariant forall i :: 0 <= i < j ==> r[i] == Twiddle(F, old(r[i]))
    {
      r[j] := Twiddle(F, r[j]);
      j := j + 1;
    }
    forall i | 0 <= i < 256
      ensures Rem(Q, r[i] as int) == Rem(Q, (F as int * RINV) * Rem(Q, old(r[i]) as int))
    {
      var x := old(r[i]) as int;
      RemRem(Q, x);
      RemMul(Q, F as int * RINV, F as int * RINV, Rem(Q, x), x);
      assert (F as int * x) * RINV == (F as int * RINV) * x;
    }
  }
}
