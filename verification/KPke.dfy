/** The K-PKE routines as the program runs them, on 16-bit words and in place, proved equal to their meaning in the ring. */
module KPke {
  import opened ModArith
  import opened Bits
  import opened Radix
  import opened NttTheory
  import opened PolyRing
  import opened MlKemZetas
  import opened MlKemNtt
  import opened MlKemRing
  import opened MlKemPolys
  import opened MlKemVectors
  import opened MlKemBytes
  import opened MlKemCompress
  import opened MlKemNoise
  import opened KPkeSpec
  import opened Words

  // ----- sums of products in transformed form -----

  function HatDot(a: seq<seq<int16>>, b: seq<seq<int16>>, n: nat): (v: seq<int>)
    requires n <= |a| && n <= |b| && forall i :: 0 <= i < n ==> |a[i]| == 256 && |b[i]| == 256
    ensures |v| == 256
  {
    if n == 0 then Zero(Q) else Add(Q, HatDot(a, b, n - 1), BaseMul(Residues(a[n - 1]), Residues(b[n - 1])))
  }

  lemma {:induction false} HatDotIsDot(a: seq<seq<int16>>, b: seq<seq<int16>>, c: seq<seq<int>>, d: seq<seq<int>>, n: nat)
    requires |a| == |b| == |c| && IsVector(c, |c|) && IsVector(d, |c|) && n <= |a|
    requires forall i :: 0 <= i < |a| ==> |a[i]| == |b[i]| == 256 && Residues(a[i]) == Hat(c[i]) && Residues(b[i]) == Hat(d[i])
    ensures HatDot(a, b, n) == OverHat(DotUpTo(c, d, n))
  {
    hide Hat, OverHat, Mul, Add, BaseMul, Residues, Zero;
    if n == 0 {
      OverHatZero();
    } else {
      HatDotIsDot(a, b, c, d, n - 1);
      BaseMulIsMul(c[n - 1], d[n - 1]);
      OverHatAdds(DotUpTo(c, d, n - 1), Mul(Q, c[n - 1], d[n - 1]));
    }
  }

  lemma OverHatZero()
    ensures OverHat(Zero(Q)) == Zero(Q)
  {
    hide Hat, Rem;
    var z := Zero(Q);
    assert Scale(Q, 0, z) == z;
    HatScales(0, z);
    ScaleScale(Q, RINV, 0, Hat(z));
    ScaleZero(Hat(z));
  }

  lemma ScaleZero(v: seq<int>)
    requires |v| == 256
    ensures Scale(Q, 0, v) == Zero(Q)
  {
  }

  method KPolyAdd(r: array<int16>, b: seq<int16>)
    requires r.Length == |b| == 256
    requires forall i :: 0 <= i < 256 ==> -0x8000 <= r[i] as int + b[i] as int < 0x8000
    modifies r
    ensures forall i :: 0 <= i < 256 ==> r[i] as int == old(r[i]) as int + b[i] as int
    ensures Residues(r[..]) == Add(Q, Residues(old(r[..])), Residues(b))
  {
    hide Rem;
    var i := 0;
    while i < 256
      invariant 0 <= i <= 256
      invariant forall p :: i <= p < 256 ==> r[p] == old(r[p])
      invariant forall p :: 0 <= p < i ==> r[p] as int == old(r[p]) as int + b[p] as int
    {
      r[i] := r[i] + b[i];
      i := i + 1;
    }
    AddCanon(Q, Ints16(old(r[..])), Ints16(b));
    assert Residues(r[..]) == Add(Q, Ints16(old(r[..])), Ints16(b));
  }

  /** r becomes a - r. */
  method KPolySub(r: array<int16>, a: seq<int16>)
    requires r.Length == |a| == 256
    requires forall i :: 0 <= i < 256 ==> -0x8000 <= a[i] as int - r[i] as int < 0x8000
    modifies r
    ensures forall i :: 0 <= i < 256 ==> r[i] as int == a[i] as int - old(r[i]) as int
    ensures Residues(r[..]) == Sub(Q, Residues(a), Residues(old(r[..])))
  {
    hide Rem;
    var i := 0;
    while i < 256
      invariant 0 <= i <= 256
      invariant forall p :: i <= p < 256 ==> r[p] == old(r[p])
      invariant forall p :: 0 <= p < i ==> r[p] as int == a[p] as int - old(r[p]) as int
    {
      r[i] := a[i] - r[i];
      i := i + 1;
    }
    AddCanon(Q, Ints16(a), Ints16(old(r[..])));
    assert Residues(r[..]) == Sub(Q, Ints16(a), Ints16(old(r[..])));
  }

  /** 2^32 modulo q. */
  const TOMONT: int16 := 1353

  /** Multiply by 2^16, which takes back the factor a base product leaves. */
  method KPolyToMont(r: array<int16>)
    requires r.Length == 256
    modifies r
    ensures Within(r[..], Q - 1)
    ensures Residues(r[..]) == Scale(Q, TOMONT as int * RINV, Residues(old(r[..])))
  {
    hide Rem, Twiddle;
    var i := 0;
    while i < 256
      invariant 0 <= i <= 256
      invariant forall p :: i <= p < 256 ==> r[p] == old(r[p])
      invariant forall p :: 0 <= p < i ==> r[p] == Twiddle(TOMONT, old(r[p]))
    {
      r[i] := Twiddle(TOMONT, r[i]);
      i := i + 1;
    }
    forall p | 0 <= p < 256
      ensures Rem(Q, r[p] as int) == Rem(Q, (TOMONT as int * RINV) * Rem(Q, old(r[p]) as int))
    {
      var x := old(r[p]) as int;
      RemRem(Q, x);
      RemMul(Q, TOMONT as int * RINV, TOMONT as int * RINV, Rem(Q, x), x);
      assert (TOMONT as int * x) * RINV == (TOMONT as int * RINV) * x;
    }
  }

  lemma ToMontCancels(c: seq<int>)
    requires |c| == 256
    ensures Scale(Q, TOMONT as int * RINV, OverHat(c)) == Hat(c)
  {
    hide Rem, Hat, Scale;
    ScaleScale(Q, TOMONT as int * RINV, RINV, Hat(c));
    assert Rem(Q, (TOMONT as int * RINV) * RINV) == Rem(Q, 1) by {
      RemIsMod(Q, (TOMONT as int * RINV) * RINV);
      RemIsMod(Q, 1);
    }
    ScaleCong(Q, (TOMONT as int * RINV) * RINV, 1, Hat(c));
    ScaleByOne(Q, Hat(c));
    HatCanon(c);
  }

  /** The accumulation loop: three products in transformed form, then a reduction. */
  method KDot(r: array<int16>, a: seq<seq<int16>>, b: seq<seq<int16>>)
    requires r.Length == 256 && |a| == |b| == KK
    requires forall i :: 0 <= i < KK ==> |a[i]| == |b[i]| == 256 && Within(a[i], 4095) && Within(b[i], 4095)
    modifies r
    ensures Within(r[..], 1664)
    ensures Residues(r[..]) == HatDot(a, b, KK)
  {
    hide Rem, BaseMul, Add;
    var p := 0;
    while p < 256
      invariant 0 <= p <= 256 && forall i :: 0 <= i < p ==> r[i] == 0
    {
      r[p] := 0;
      p := p + 1;
    }
    assert Residues(r[..]) == Zero(Q) by { RemZero(); }
    var j := 0;
    while j < KK
      invariant 0 <= j <= KK
      invariant Within(r[..], j * (2 * Q - 1))
      invariant Residues(r[..]) == HatDot(a, b, j)
    {
      var tmp := new int16[256];
      KPolyMul(tmp, a[j], b[j]);
      KPolyAdd(r, tmp[..]);
      j := j + 1;
    }
    KPolyReduce(r);
  }

  lemma RemZero()
    ensures Rem(Q, 0) == 0
  {
  }

  // ----- sampling -----

  method KGetNoise(o: Oracles, seed: Bytes32, nonce: Byte) returns (r: array<int16>)
    ensures fresh(r) && r.Length == 256 && Within(r[..], 2)
    ensures Residues(r[..]) == Noise(o, seed, nonce)
  {
    r := new int16[256];
    var buf := o.prf(seed + [nonce]);
    KCbd2(r, buf);
    forall i | 0 <= i < 256 ensures -2 <= r[i] as int <= 2 {
      assert Ints16(r[..])[i] == Cbd2(buf)[i];
    }
  }

  method KGenMatrixRow(o: Oracles, rho: Bytes32, i: nat, transposed: bool) returns (row: seq<seq<int16>>)
    requires i < KK
    ensures |row| == KK && forall j :: 0 <= j < KK ==> row[j] == SampledAt(o, rho, i, j, transposed)
    ensures forall j :: 0 <= j < KK ==> |row[j]| == 256 && Within(row[j], 4095)
  {
    row := [];
    var j := 0;
    while j < KK
      invariant 0 <= j <= KK && |row| == j
      invariant forall k :: 0 <= k < j ==> row[k] == SampledAt(o, rho, i, k, transposed)
      invariant forall k :: 0 <= k < j ==> |row[k]| == 256 && Within(row[k], 4095)
    {
      row := row + [o.sampleNtt(rho + (if transposed then [i, j] else [j, i]))];
      j := j + 1;
    }
  }

  lemma SampledHat(o: Oracles, rho: Bytes32, i: nat, j: nat)
    requires i < KK && j < KK
    ensures Residues(SampledAt(o, rho, i, j, false)) == Hat(Matrix(o, rho)[i][j])
    ensures Residues(SampledAt(o, rho, j, i, true)) == Hat(Transposed(Matrix(o, rho))[j][i])
  {
    hide Hat, Preimage, Rem;
    var v := Residues(SampledAt(o, rho, i, j, false));
    HatIsOnto(v);
    CanonCanon(Q, Ints16(SampledAt(o, rho, i, j, false)));
    assert Matrix(o, rho)[i] == MatrixRow(o, rho, i);
    assert MatrixRow(o, rho, i)[j] == Preimage(v);
    assert Transposed(Matrix(o, rho))[j] == Column(Matrix(o, rho), j);
  }

  /** Words that hold the transform of a vector. */
  ghost predicate HoldsHat(w: seq<seq<int16>>, v: seq<seq<int>>, n: nat, bound: int) {
    && |w| == n <= |v| && IsVector(v, |v|)
    && forall i :: 0 <= i < n ==> |w[i]| == 256 && Within(w[i], bound) && Residues(w[i]) == Hat(v[i])
  }

  lemma HoldsNothing(v: seq<seq<int>>, bound: int)
    requires IsVector(v, |v|)
    ensures HoldsHat([], v, 0, bound)
  {
  }

  lemma HoldsNext(w: seq<seq<int16>>, p: seq<int16>, v: seq<seq<int>>, i: nat, bound: int)
    requires HoldsHat(w, v, i, bound) && i < |v| && |p| == 256 && Within(p, bound) && Residues(p) == Hat(v[i])
    ensures HoldsHat(w + [p], v, i + 1, bound)
  {
    hide Hat, Residues, Within;
  }

  method NoiseHat(o: Oracles, seed: Bytes32, nonce: Byte) returns (w: seq<int16>)
    ensures |w| == 256 && Within(w, 1664) && Residues(w) == Hat(Noise(o, seed, nonce))
  {
    hide Hat, Rem, Noise, Residues;
    var p := KGetNoise(o, seed, nonce);
    NttHolds(p[..], Noise(o, seed, nonce));
    KNtt(p);
    w := p[..];
  }

  /** Three noise polynomials, transformed. */
  method NoiseHats(o: Oracles, seed: Bytes32, first: Byte) returns (w: seq<seq<int16>>)
    requires first <= KK
    ensures HoldsHat(w, NoiseVector(o, seed, first), KK, 1664)
  {
    hide Hat, Rem, Noise, HoldsHat, Residues, Within;
    w := [];
    HoldsNothing(NoiseVector(o, seed, first), 1664);
    var i := 0;
    while i < KK
      invariant 0 <= i <= KK && HoldsHat(w, NoiseVector(o, seed, first), i, 1664)
    {
      var p := NoiseHat(o, seed, first + i);
      HoldsNext(w, p, NoiseVector(o, seed, first), i, 1664);
      w := w + [p];
      i := i + 1;
    }
  }

  lemma NttHolds(p: seq<int16>, c: seq<int>)
    requires |p| == 256 && Residues(p) == c
    ensures NttFrom(Q, Zetas(), Residues(p), 0, 7) == Hat(c)
  {
    hide Rem, NttFrom;
    CanonCanon(Q, Ints16(p));
  }

  // ----- the three routines -----

  method KpkeKeygen(o: Oracles, d: Bytes32, pk: array<Byte>, skc: array<Byte>)
    requires pk.Length == 1184 && skc.Length == 1152 && pk != skc
    modifies pk, skc
    ensures pk[..] == EncryptionKey(o, d)
    ensures skc[..] == DecryptionKey(o, d)
  {
    hide Hat, Rem, NoiseVector, EncodeVector, HoldsHat, Public;
    var buf := o.sha3_512(d + [KK]);
    var rho: Bytes32, sigma: Bytes32 := buf[..32], buf[32..];
    var s := NoiseHats(o, sigma, 0);
    var e := NoiseHats(o, sigma, KK);
    var t := PublicHats(o, d, s, e);
    EncodeHats(skc, s, Secret(o, d));
    EncodeHats(pk, t, Public(o, d));
    var i := 0;
    while i < 32
      invariant 0 <= i <= 32
      invariant forall p :: 0 <= p < 1152 ==> pk[p] == EncodeVector(Public(o, d))[p]
      invariant forall p :: 0 <= p < i ==> pk[1152 + p] == rho[p]
      invariant skc[..] == DecryptionKey(o, d)
    {
      pk[1152 + i] := rho[i];
      i := i + 1;
    }
    assert pk[..] == EncodeVector(Public(o, d)) + rho;
  }

  /** t = A s + e, in transformed form. */
  method PublicHats(o: Oracles, d: Bytes32, s: seq<seq<int16>>, e: seq<seq<int16>>) returns (t: seq<seq<int16>>)
    requires HoldsHat(s, Secret(o, d), KK, 1664) && HoldsHat(e, NoiseVector(o, Sigma(o, d), KK), KK, 1664)
    ensures HoldsHat(t, Public(o, d), KK, 1664)
  {
    hide Hat, Rem, NoiseVector, Secret, Matrix, DotUpTo, Add, HatDot, OverHat;
    t := [];
    var rho := o.sha3_512(d + [KK])[..32];
    var i := 0;
    while i < KK
      invariant 0 <= i <= KK && HoldsHat(t, Public(o, d), i, 1664)
    {
      var row := KGenMatrixRow(o, rho, i, false);
      var p := new int16[256];
      KDot(p, row, s);
      RowDot(o, d, i, row, s);
      KPolyToMont(p);
      ToMontCancels(Dot(Matrix(o, rho)[i], Secret(o, d)));
      KPolyAdd(p, e[i]);
      HatAdds(Dot(Matrix(o, rho)[i], Secret(o, d)), NoiseVector(o, Sigma(o, d), KK)[i]);
      KPolyReduce(p);
      t := t + [p[..]];
      i := i + 1;
    }
  }

  lemma RowDot(o: Oracles, d: Bytes32, i: nat, row: seq<seq<int16>>, s: seq<seq<int16>>)
    requires i < KK && HoldsHat(s, Secret(o, d), KK, 1664)
    requires |row| == KK && forall j :: 0 <= j < KK ==> |row[j]| == 256 && row[j] == SampledAt(o, Rho(o, d), i, j, false)
    ensures HatDot(row, s, KK) == OverHat(Dot(Matrix(o, Rho(o, d))[i], Secret(o, d)))
  {
    hide Hat, Rem, OverHat, Matrix, Residues, DotUpTo, HatDot;
    forall j | 0 <= j < KK ensures Residues(row[j]) == Hat(Matrix(o, Rho(o, d))[i][j]) {
      SampledHat(o, Rho(o, d), i, j);
    }
    HatDotIsDot(row, s, Matrix(o, Rho(o, d))[i], Secret(o, d), KK);
  }

  /** The vector as bytes, at the start of the buffer. */
  method EncodeHats(b: array<Byte>, w: seq<seq<int16>>, ghost v: seq<seq<int>>)
    requires b.Length >= 384 * KK && |v| == KK && HoldsHat(w, v, KK, 1664)
    modifies b
    ensures b[..384 * KK] == EncodeVector(v)
  {
    hide Hat, Rem, Residues, Encode;
    var i := 0;
    while i < KK
      invariant 0 <= i <= KK && b[..384 * i] == EncodeVector(v[..i])
    {
      ghost var done := b[..384 * i];
      HatDigits(v[i]);
      KPolyEncode12(b, 384 * i, w[i]);
      assert v[..i + 1][..i] == v[..i];
      assert b[..384 * i] == done;
      assert b[..384 * (i + 1)] == b[..384 * i] + b[384 * i..384 * i + 384];
      i := i + 1;
    }
    assert v[..KK] == v;
  }

  method DecodeHats(b: Bytes) returns (w: seq<seq<int16>>)
    requires |b| == 384 * KK
    ensures HoldsHat(w, DecodeVector(b), KK, 4095)
  {
    hide Hat, Rem, HoldsHat, Residues, Preimage, Decode, Within;
    w := [];
    HoldsNothing(DecodeVector(b), 4095);
    var i := 0;
    while i < KK
      invariant 0 <= i <= KK && HoldsHat(w, DecodeVector(b), i, 4095)
    {
      var p := new int16[256];
      KPolyDecode12(p, b[384 * i..384 * i + 384]);
      DigitsWithin(p[..], Decode(4096, b[384 * i..384 * i + 384], 256));
      HatIsOnto(Decode(4096, b[384 * i..384 * i + 384], 256));
      HoldsNext(w, p[..], DecodeVector(b), i, 4095);
      w := w + [p[..]];
      i := i + 1;
    }
  }

  lemma DigitsWithin(p: seq<int16>, v: seq<int>)
    requires Ints16(p) == v && Below(4096, v)
    ensures Within(p, 4095) && Residues(p) == Canon(Q, v)
  {
    forall i | 0 <= i < |p| ensures -4095 <= p[i] as int <= 4095 {
      assert p[i] as int == v[i];
    }
  }

  /** Back from the transform of a sum of products to the sum itself. */
  method KDotInverse(r: array<int16>, a: seq<seq<int16>>, b: seq<seq<int16>>, ghost c: seq<seq<int>>, ghost d: seq<seq<int>>)
    requires r.Length == 256 && |c| == KK && HoldsHat(a, c, KK, 4095) && HoldsHat(b, d, KK, 4095) && |d| == KK
    modifies r
    ensures Within(r[..], Q - 1) && Residues(r[..]) == Dot(c, d)
  {
    hide Hat, Rem, DotUpTo, HatDot, Scale, InvTo, Canon;
    KDot(r, a, b);
    HatDotIsDot(a, b, c, d, KK);
    KInvNtt(r);
    UnhatCancels(Dot(c, d));
  }

  lemma HoldsWider(w: seq<seq<int16>>, v: seq<seq<int>>, n: nat)
    requires HoldsHat(w, v, n, 1664)
    ensures HoldsHat(w, v, n, 4095)
  {
    hide Hat, Residues;
  }

  lemma TransposedRowHolds(o: Oracles, rho: Bytes32, i: nat, row: seq<seq<int16>>)
    requires i < KK && |row| == KK
    requires forall j :: 0 <= j < KK ==> |row[j]| == 256 && Within(row[j], 4095) && row[j] == SampledAt(o, rho, i, j, true)
    ensures HoldsHat(row, Transposed(Matrix(o, rho))[i], KK, 4095)
  {
    hide Hat, Rem, Matrix, Residues, Transposed, Within;
    assert IsVector(Transposed(Matrix(o, rho))[i], KK);
    forall j | 0 <= j < KK ensures Residues(row[j]) == Hat(Transposed(Matrix(o, rho))[i][j]) {
      SampledHat(o, rho, j, i);
    }
  }

  /** One coordinate of u = A^T y + e1. */
  method MaskWord(o: Oracles, rho: Bytes32, coins: Bytes32, i: nat, y: seq<seq<int16>>) returns (u: seq<int16>)
    requires i < KK && HoldsHat(y, NoiseVector(o, coins, 0), KK, 4095)
    ensures |u| == 256 && Within(u, 1664) && Residues(u) == Mask(o, rho, coins)[i]
  {
    hide Hat, Rem, HoldsHat, Residues, Noise, Matrix, Transposed, Add, DotUpTo;
    var row := KGenMatrixRow(o, rho, i, true);
    TransposedRowHolds(o, rho, i, row);
    var b := new int16[256];
    KDotInverse(b, row, y, Transposed(Matrix(o, rho))[i], NoiseVector(o, coins, 0));
    var e1 := KGetNoise(o, coins, i + KK);
    KPolyAdd(b, e1[..]);
    KPolyReduce(b);
    u := b[..];
    assert NoiseVector(o, coins, KK)[i] == Noise(o, coins, KK + i);
  }

  /** v = t y + e2 + the message. */
  method BodyWord(o: Oracles, pk: Bytes, m: Bytes32, coins: Bytes32, y: seq<seq<int16>>) returns (v: seq<int16>)
    requires |pk| == 384 * KK && HoldsHat(y, NoiseVector(o, coins, 0), KK, 4095)
    ensures |v| == 256 && Within(v, 1664) && Residues(v) == Body(o, DecodeVector(pk), m, coins)
  {
    hide Hat, Rem, HoldsHat, Residues, Noise, NoiseVector, DecodeVector, Decompressed, Add, DotUpTo;
    var pkpv := DecodeHats(pk);
    var r := new int16[256];
    KDotInverse(r, pkpv, y, DecodeVector(pk), NoiseVector(o, coins, 0));
    var kpoly := MessageWord(m);
    var epp := KGetNoise(o, coins, 2 * KK);
    KPolyAdd(r, epp[..]);
    KPolyAdd(r, kpoly);
    KPolyReduce(r);
    v := r[..];
  }

  method MessageWord(m: Bytes32) returns (k: seq<int16>)
    ensures |k| == 256 && Within(k, Q - 1) && Residues(k) == Decompressed(2, m)
  {
    hide Rem, Decode, Decompress;
    var r := new int16[256];
    KPolyFromMsg(r, m);
    k := r[..];
    DecompressedWords(k, 2, m);
  }

  lemma DecompressedWords(k: seq<int16>, m: nat, b: Bytes)
    requires |k| == 256 && m in {2, 16, 1024} && Ints16(k) == DecompressAll(m, Decode(m, b, 256))
    ensures (forall i :: 0 <= i < 256 ==> 0 <= k[i] as int < Q) && Residues(k) == Decompressed(m, b)
  {
    hide Rem, Decode, Decompress;
    forall i | 0 <= i < 256 ensures 0 <= k[i] as int < Q {
      assert Ints16(k)[i] == Decompress(m, Decode(m, b, 256)[i]);
      CompressDecompress(m, Decode(m, b, 256)[i]);
    }
    assert IsPoly(Q, Decompressed(m, b));
  }

  method KpkeEncrypt(o: Oracles, pk: Bytes, m: Bytes32, coins: Bytes32, c: array<Byte>)
    requires |pk| == 1184 && c.Length == 1088
    modifies c
    ensures c[..] == Encrypt(o, pk, m, coins)
  {
    hide Hat, Rem, HoldsHat, NoiseVector, DecodeVector, Mask, Body, CompressVector, Compressed, Compress, Encode;
    var rho: Bytes32 := pk[1152..];
    var y := NoiseHats(o, coins, 0);
    HoldsWider(y, NoiseVector(o, coins, 0), KK);
    var bp := MaskWords(o, rho, coins, y);
    var v := BodyWord(o, pk[..1152], m, coins, y);
    CompressMask(c, bp, Mask(o, rho, coins));
    ghost var head := c[..960];
    KPolyCompress4(c, 960, v);
    CompressedWords(16, v, 128);
    assert c[..960] == head;
    assert c[..] == c[..960] + c[960..1088];
  }

  method MaskWords(o: Oracles, rho: Bytes32, coins: Bytes32, y: seq<seq<int16>>) returns (u: seq<seq<int16>>)
    requires HoldsHat(y, NoiseVector(o, coins, 0), KK, 4095)
    ensures |u| == KK
    ensures forall i :: 0 <= i < KK ==> |u[i]| == 256 && Within(u[i], 1664) && Residues(u[i]) == Mask(o, rho, coins)[i]
  {
    hide HoldsHat, Residues, Mask, NoiseVector;
    u := [];
    var i := 0;
    while i < KK
      invariant 0 <= i <= KK && |u| == i
      invariant forall k :: 0 <= k < i ==> |u[k]| == 256 && Within(u[k], 1664) && Residues(u[k]) == Mask(o, rho, coins)[k]
    {
      var w := MaskWord(o, rho, coins, i, y);
      u := u + [w];
      i := i + 1;
    }
  }

  lemma CompressedWords(m: nat, a: seq<int16>, n: nat)
    requires m > 0 && |a| == 256
    ensures IsPoly(Q, Residues(a)) && Encode(m, Rounded(m, a), n) == Compressed(m, Residues(a), n)
  {
    CanonCanon(Q, Ints16(a));
  }

  method CompressMask(c: array<Byte>, bp: seq<seq<int16>>, ghost u: seq<seq<int>>)
    requires c.Length >= 320 * KK && IsVector(u, KK) && |bp| == KK
    requires forall i :: 0 <= i < KK ==> |bp[i]| == 256 && Within(bp[i], 1664) && Residues(bp[i]) == u[i]
    modifies c
    ensures c[..320 * KK] == CompressVector(u)
  {
    hide Residues, Compressed, Compress, Encode, Rounded, Rem;
    var i := 0;
    while i < KK
      invariant 0 <= i <= KK && c[..320 * i] == CompressVector(u[..i])
    {
      ghost var done := c[..320 * i];
      KPolyCompress10(c, 320 * i, bp[i]);
      CompressedWords(1024, bp[i], 320);
      assert u[..i + 1][..i] == u[..i];
      assert c[..320 * i] == done;
      assert c[..320 * (i + 1)] == c[..320 * i] + c[320 * i..320 * i + 320];
      i := i + 1;
    }
    assert u[..KK] == u;
  }

  /** The transforms of the decompressed mask. */
  method MaskHats(c: Bytes) returns (w: seq<seq<int16>>)
    requires |c| == 320 * KK
    ensures HoldsHat(w, DecompressVector(c), KK, 4095)
  {
    hide Hat, Rem, HoldsHat, Residues, Decompressed, Within;
    w := [];
    HoldsNothing(DecompressVector(c), 4095);
    var i := 0;
    while i < KK
      invariant 0 <= i <= KK && HoldsHat(w, DecompressVector(c), i, 4095)
    {
      var p := MaskHat(c[320 * i..320 * i + 320]);
      HoldsNext(w, p, DecompressVector(c), i, 4095);
      w := w + [p];
      i := i + 1;
    }
  }

  method MaskHat(b: Bytes) returns (w: seq<int16>)
    requires |b| == 320
    ensures |w| == 256 && Within(w, 4095) && Residues(w) == Hat(Decompressed(1024, b))
  {
    hide Hat, Rem, Residues, Decompressed, Decode, DecompressAll;
    var p := new int16[256];
    KPolyDecompress10(p, b);
    DecompressedWords(p[..], 1024, b);
    NttHolds(p[..], Decompressed(1024, b));
    KNtt(p);
    w := p[..];
  }

  method KpkeDecrypt(skc: Bytes, c: Bytes, m: array<Byte>)
    requires |skc| == 1152 && |c| == 1088 && m.Length == 32
    modifies m
    ensures m[..] == Decrypt(skc, c)
  {
    hide Hat, Rem, HoldsHat, Residues, DecodeVector, DecompressVector, Decompressed, Compressed, Decode, DecompressAll, Sub, DotUpTo, Rounded, Encode;
    var bp := MaskHats(c[..960]);
    var v := new int16[256];
    KPolyDecompress4(v, c[960..]);
    DecompressedWords(v[..], 16, c[960..]);
    var skpv := DecodeHats(skc);
    var mp := new int16[256];
    KDotInverse(mp, skpv, bp, DecodeVector(skc), DecompressVector(c[..960]));
    KPolySub(mp, v[..]);
    KPolyReduce(mp);
    KPolyToMsg(m, mp[..]);
    CompressedWords(2, mp[..], 32);
  }
}
