/** When K-PKE decryption returns the message: exactly when the noise of the exchange rounds away. */
module KPkeTheory {
  import opened ModArith
  import opened Bits
  import opened Radix
  import opened NttTheory
  import opened PolyRing
  import opened MlKemZetas
  import opened MlKemRing
  import opened MlKemPolys
  import opened MlKemVectors
  import opened MlKemCompress
  import opened MlKemNoise
  import opened KPkeSpec

  // ----- encodings round trip -----

  /** The encodings in use: n bytes hold 256 digits of radix r. */
  predicate Fits(r: nat, n: nat) {
    (r == 4096 && n == 384) || (r == 1024 && n == 320) || (r == 16 && n == 128) || (r == 2 && n == 32)
  }

  lemma FitsEqually(r: nat, n: nat)
    requires Fits(r, n)
    ensures EquallyMany(n, r, 256)
  {
    if r == 4096 {
      Groups(n, r, 256, 3, 2, 128, 0x100_0000);
    } else if r == 1024 {
      Groups(n, r, 256, 5, 4, 64, 0x100_0000_0000);
    } else if r == 16 {
      Groups(n, r, 256, 1, 2, 128, 0x100);
    } else {
      Groups(n, r, 256, 1, 8, 32, 0x100);
    }
  }

  lemma Groups(n: nat, r: nat, k: nat, bytes: nat, digits: nat, count: nat, p: nat)
    requires r > 0 && n == bytes * count && k == digits * count
    requires Pow(0x100, bytes) == p && Pow(r, digits) == p
    ensures EquallyMany(n, r, k)
  {
    PowPower(0x100, bytes, r, digits, count);
  }

  lemma PreimageOfHat(c: seq<int>)
    requires IsPoly(Q, c)
    ensures Preimage(Hat(c)) == c
  {
    hide Hat, Unhat;
    UnhatCancels(c);
  }

  lemma {:induction false} EncodedAt(v: seq<seq<int>>, i: nat)
    requires IsVector(v, |v|) && i < |v|
    ensures |EncodeVector(v)| == 384 * |v| && Below(4096, Hat(v[i]))
    ensures EncodeVector(v)[384 * i..384 * i + 384] == Encode(4096, Hat(v[i]), 384)
    decreases |v|
  {
    hide Hat, Encode;
    HatDigits(v[i]);
    var n := |v| - 1;
    if i < n {
      EncodedAt(v[..n], i);
      assert EncodeVector(v)[384 * i..384 * i + 384] == EncodeVector(v[..n])[384 * i..384 * i + 384];
    }
  }

  lemma DecodeEncodeVector(v: seq<seq<int>>)
    requires IsVector(v, KK)
    ensures DecodeVector(EncodeVector(v)) == v
  {
    hide Hat, Encode, Decode, Preimage, EncodeVector;
    forall i | 0 <= i < KK
      ensures DecodeVector(EncodeVector(v))[i] == v[i]
    {
      EncodedAt(v, i);
      DecodeEncodeDigits(4096, Hat(v[i]), 384);
      PreimageOfHat(v[i]);
    }
  }

  lemma DecodeEncodeDigits(r: nat, a: seq<int>, n: nat)
    requires Fits(r, n) && |a| == 256 && Below(r, a)
    ensures Decode(r, Encode(r, a, n), 256) == a
  {
    hide EquallyMany;
    FitsEqually(r, n);
    DecodeEncode(r, a, n);
  }

  lemma EncodeDecodeBytes(r: nat, b: Bytes, n: nat)
    requires Fits(r, n) && |b| == n
    ensures Encode(r, Decode(r, b, 256), n) == b
  {
    hide EquallyMany;
    FitsEqually(r, n);
    EncodeDecode(r, b, 256);
  }

  /** What rounding makes of a polynomial. */
  function Rounding(m: nat, v: seq<int>): (w: seq<int>)
    requires m in {2, 16, 1024} && IsPoly(Q, v)
    ensures |w| == 256
  {
    PolyDigits(v);
    DecompressAll(m, CompressAll(m, v))
  }

  lemma DecompressCompressed(m: nat, v: seq<int>, n: nat)
    requires m in {2, 16, 1024} && IsPoly(Q, v) && Fits(m, n)
    ensures Decompressed(m, Compressed(m, v, n)) == Rounding(m, v)
  {
    PolyDigits(v);
    DecodeEncodeDigits(m, CompressAll(m, v), n);
  }

  lemma {:induction false} CompressedAt(v: seq<seq<int>>, i: nat)
    requires IsVector(v, |v|) && i < |v|
    ensures |CompressVector(v)| == 320 * |v|
    ensures CompressVector(v)[320 * i..320 * i + 320] == Compressed(1024, v[i], 320)
    decreases |v|
  {
    hide Compressed;
    var n := |v| - 1;
    if i < n {
      CompressedAt(v[..n], i);
      assert CompressVector(v)[320 * i..320 * i + 320] == CompressVector(v[..n])[320 * i..320 * i + 320];
    }
  }

  function RoundingVector(v: seq<seq<int>>): (w: seq<seq<int>>)
    requires IsVector(v, |v|)
    ensures IsVector(w, |v|)
  {
    forall i | 0 <= i < |v| ensures IsPoly(Q, Rounding(1024, v[i])) { RoundingIsPoly(1024, v[i]); }
    seq(|v|, (i: nat) requires i < |v| => Rounding(1024, v[i]))
  }

  lemma RoundingIsPoly(m: nat, v: seq<int>)
    requires m in {2, 16, 1024} && IsPoly(Q, v)
    ensures IsPoly(Q, Rounding(m, v))
  {
    PolyDigits(v);
    var w := Rounding(m, v);
    forall i | 0 <= i < 256 ensures Canon(Q, w)[i] == w[i] {
      CompressDecompress(m, CompressAll(m, v)[i]);
    }
  }

  lemma DecompressCompressVector(v: seq<seq<int>>)
    requires IsVector(v, KK)
    ensures DecompressVector(CompressVector(v)) == RoundingVector(v)
  {
    hide Compressed, Decompressed, Rounding, CompressVector;
    forall i | 0 <= i < KK
      ensures DecompressVector(CompressVector(v))[i] == RoundingVector(v)[i]
    {
      CompressedAt(v, i);
      DecompressCompressed(1024, v[i], 320);
    }
  }

  // ----- the noise of one exchange -----

  function VecSub(a: seq<seq<int>>, b: seq<seq<int>>): (c: seq<seq<int>>)
    requires IsVector(a, |a|) && IsVector(b, |a|)
    ensures IsVector(c, |a|)
  {
    seq(|a|, (i: nat) requires i < |a| => Sub(Q, a[i], b[i]))
  }

  /** e.y + e2 + (v rounding) - s.(e1 + (u rounding)). */
  function TotalNoise(o: Oracles, d: Bytes32, m: Bytes32, coins: Bytes32): (n: seq<int>)
    ensures IsPoly(Q, n)
  {
    var e, y, e1 := NoiseVector(o, Sigma(o, d), KK), NoiseVector(o, coins, 0), NoiseVector(o, coins, KK);
    var u, v := Mask(o, Rho(o, d), coins), Body(o, Public(o, d), m, coins);
    NoiseOf(Secret(o, d), e, y, e1, Noise(o, coins, 2 * KK), u, v)
  }

  function NoiseOf(s: seq<seq<int>>, e: seq<seq<int>>, y: seq<seq<int>>, e1: seq<seq<int>>, e2: seq<int>,
                   u: seq<seq<int>>, v: seq<int>): (n: seq<int>)
    requires IsVector(s, KK) && IsVector(e, KK) && IsVector(y, KK) && IsVector(e1, KK) && IsPoly(Q, e2)
    requires IsVector(u, KK) && IsPoly(Q, v)
    ensures IsPoly(Q, n)
  {
    var du, dv := VecSub(RoundingVector(u), u), Sub(Q, Rounding(16, v), v);
    Sub(Q, Add(Q, Add(Q, Dot(e, y), e2), dv), Dot(s, VecAdd(e1, du)))
  }

  lemma SubAdds(a: seq<int>, b: seq<int>)
    requires |a| == 256 && IsPoly(Q, b)
    ensures Add(Q, b, Sub(Q, a, b)) == Canon(Q, a)
  {
    hide Rem;
    forall p | 0 <= p < 256
      ensures Rem(Q, b[p] + Rem(Q, a[p] - b[p])) == Rem(Q, a[p])
    {
      RemRem(Q, a[p] - b[p]);
      RemAdd(Q, b[p], b[p], Rem(Q, a[p] - b[p]), a[p] - b[p]);
    }
  }

  lemma CancelAt(x: int, e: int, e2: int, mu: int, dv: int, z: int)
    ensures Rem(Q, Rem(Q, Rem(Q, Rem(Q, Rem(Q, x + e) + e2) + mu) + dv) - Rem(Q, x + z))
         == Rem(Q, Rem(Q, Rem(Q, Rem(Q, e + e2) + dv) - z) + mu)
  {
    hide Rem;
    Drop(x + e, e2);
    Drop(x + e + e2, mu);
    Drop(x + e + e2 + mu, dv);
    RemRem(Q, x + e + e2 + mu + dv);
    RemRem(Q, x + z);
    RemSub(Q, Rem(Q, x + e + e2 + mu + dv), x + e + e2 + mu + dv, Rem(Q, x + z), x + z);
    Drop(e + e2, dv);
    Drop(e + e2 + dv, -z);
    Drop(e + e2 + dv - z, mu);
  }

  lemma Drop(a: int, b: int)
    ensures Rem(Q, Rem(Q, a) + b) == Rem(Q, a + b)
  {
    hide Rem;
    RemRem(Q, a);
    RemAdd(Q, Rem(Q, a), a, b, b);
  }

  lemma Cancel(x: seq<int>, e: seq<int>, e2: seq<int>, mu: seq<int>, dv: seq<int>, z: seq<int>)
    requires |x| == |e| == |e2| == |mu| == |dv| == |z| == 256
    ensures Sub(Q, Add(Q, Add(Q, Add(Q, Add(Q, x, e), e2), mu), dv), Add(Q, x, z)) == Add(Q, Sub(Q, Add(Q, Add(Q, e, e2), dv), z), mu)
  {
    hide Rem;
    forall p | 0 <= p < 256
      ensures Sub(Q, Add(Q, Add(Q, Add(Q, Add(Q, x, e), e2), mu), dv), Add(Q, x, z))[p] == Add(Q, Sub(Q, Add(Q, Add(Q, e, e2), dv), z), mu)[p]
    {
      CancelAt(x[p], e[p], e2[p], mu[p], dv[p], z[p]);
    }
  }

  lemma SplitMask(a: seq<seq<int>>, e1: seq<seq<int>>, w: seq<seq<int>>)
    requires IsVector(a, KK) && IsVector(e1, KK) && IsVector(w, KK)
    ensures w == VecAdd(a, VecAdd(e1, VecSub(w, VecAdd(a, e1))))
  {
    hide Add, Sub;
    forall i | 0 <= i < KK
      ensures w[i] == Add(Q, a[i], Add(Q, e1[i], Sub(Q, w[i], Add(Q, a[i], e1[i]))))
    {
      SubAdds(w[i], Add(Q, a[i], e1[i]));
      AddAssoc(Q, a[i], e1[i], Sub(Q, w[i], Add(Q, a[i], e1[i])));
    }
  }

  /** Decryption subtracts everything but the message and the noise. */
  lemma MessagePlusNoise(a: seq<seq<seq<int>>>, s: seq<seq<int>>, e: seq<seq<int>>, y: seq<seq<int>>,
                         e1: seq<seq<int>>, e2: seq<int>, mu: seq<int>)
    requires IsMatrix(a, KK) && IsVector(s, KK) && IsVector(e, KK) && IsVector(y, KK) && IsVector(e1, KK)
    requires IsPoly(Q, e2) && IsPoly(Q, mu)
    ensures var u := VecAdd(Apply(Transposed(a), y), e1);
            var v := Add(Q, Add(Q, Dot(VecAdd(Apply(a, s), e), y), e2), mu);
            Sub(Q, Rounding(16, v), Dot(s, RoundingVector(u))) == Add(Q, NoiseOf(s, e, y, e1, e2, u, v), mu)
  {
    hide Add, Sub, Rounding, RoundingVector, VecAdd, VecSub, Apply, Transposed, DotUpTo;
    var h := Apply(Transposed(a), y);
    var u, t := VecAdd(h, e1), VecAdd(Apply(a, s), e);
    var v := Add(Q, Add(Q, Dot(t, y), e2), mu);
    var du, dv := VecSub(RoundingVector(u), u), Sub(Q, Rounding(16, v), v);
    var x, z := Dot(s, h), Dot(s, VecAdd(e1, du));
    DotComm(t, y, KK);
    DotAdds(y, Apply(a, s), e, KK);
    DotComm(y, Apply(a, s), KK);
    DotComm(y, e, KK);
    Adjoint(a, s, y);
    assert Dot(t, y) == Add(Q, x, Dot(e, y));
    SplitMask(h, e1, RoundingVector(u));
    DotAdds(s, h, VecAdd(e1, du), KK);
    assert Dot(s, RoundingVector(u)) == Add(Q, x, z);
    RoundingIsPoly(16, v);
    SubAdds(Rounding(16, v), v);
    Cancel(x, Dot(e, y), e2, mu, dv, z);
  }

  // ----- the rounding of message plus noise -----

  function Centred(x: int): int {
    if x > Q / 2 then x - Q else x
  }

  /** The coefficient is nearer to its message bit than to the other one. */
  predicate RoundsAway(noise: int, bit: int) {
    -832 <= Centred(noise) <= 832 - bit
  }

  lemma BitSurvives(noise: int, bit: nat)
    requires 0 <= noise < Q && bit < 2
    ensures Compress(2, Rem(Q, noise + Decompress(2, bit))) == bit <==> RoundsAway(noise, bit)
  {
    var w := noise + 1665 * bit;
    assert Decompress(2, bit) == 1665 * bit;
    if w < Q {
      RemUnique(Q, w, 0, w);
    } else {
      RemUnique(Q, w, 1, w - Q);
    }
  }

  /** The message bits of m, coefficient by coefficient. */
  function MessageBit(m: Bytes32, i: nat): (b: nat)
    requires i < 256
    ensures b < 2
  {
    Decode(2, m, 256)[i]
  }

  lemma MessageSurvives(n: seq<int>, m: Bytes32)
    requires IsPoly(Q, n)
    ensures Compressed(2, Add(Q, n, Decompressed(2, m)), 32) == m
       <==> forall i :: 0 <= i < 256 ==> RoundsAway(n[i], MessageBit(m, i))
  {
    hide Rem, Encode, Decode, Compress, Decompress, RoundsAway;
    var w, bits := Add(Q, n, Decompressed(2, m)), Decode(2, m, 256);
    PolyDigits(w);
    PolyDigits(n);
    var c := CompressAll(2, w);
    assert (c == bits) <==> forall i :: 0 <= i < 256 ==> RoundsAway(n[i], MessageBit(m, i)) by {
      forall i | 0 <= i < 256
        ensures c[i] == bits[i] <==> RoundsAway(n[i], MessageBit(m, i))
      {
        BitSurvives(n[i], bits[i]);
      }
      SameBits(c, bits, n, m);
    }
    EncodeDecodeBytes(2, m, 32);
    DecodeEncodeDigits(2, c, 32);
  }

  lemma SameBits(c: seq<int>, bits: seq<int>, n: seq<int>, m: Bytes32)
    requires |c| == |bits| == |n| == 256
    requires forall i :: 0 <= i < 256 ==> (c[i] == bits[i] <==> RoundsAway(n[i], MessageBit(m, i)))
    ensures (c == bits) <==> forall i :: 0 <= i < 256 ==> RoundsAway(n[i], MessageBit(m, i))
  {
    hide RoundsAway, MessageBit;
  }

  // ----- the theorem -----

  lemma DecryptedIs(o: Oracles, d: Bytes32, m: Bytes32, coins: Bytes32)
    ensures Decrypted(DecryptionKey(o, d), Encrypt(o, EncryptionKey(o, d), m, coins))
         == Add(Q, TotalNoise(o, d, m, coins), Decompressed(2, m))
  {
    hide Add, Sub, Mul, DotUpTo, Compressed, Decompressed, EncodeVector, CompressVector, DecodeVector, DecompressVector,
         Rounding, RoundingVector, Noise, NoiseVector, Matrix, Apply, Transposed, VecAdd, NoiseOf, Rho, Sigma;
    var pk, c := EncryptionKey(o, d), Encrypt(o, EncryptionKey(o, d), m, coins);
    var rho := Rho(o, d);
    assert pk[..1152] == EncodeVector(Public(o, d)) && pk[1152..] == rho;
    DecodeEncodeVector(Public(o, d));
    DecodeEncodeVector(Secret(o, d));
    var u, v := Mask(o, rho, coins), Body(o, Public(o, d), m, coins);
    assert c[..960] == CompressVector(u) && c[960..] == Compressed(16, v, 128);
    DecompressCompressVector(u);
    DecompressCompressed(16, v, 128);
    MessagePlusNoise(Matrix(o, rho), Secret(o, d), NoiseVector(o, Sigma(o, d), KK), NoiseVector(o, coins, 0),
                     NoiseVector(o, coins, KK), Noise(o, coins, 2 * KK), Decompressed(2, m));
  }

  /** Decryption returns the message if and only if every coefficient of the noise rounds away. */
  lemma DecryptionIsCorrect(o: Oracles, d: Bytes32, m: Bytes32, coins: Bytes32)
    ensures Decrypt(DecryptionKey(o, d), Encrypt(o, EncryptionKey(o, d), m, coins)) == m
       <==> forall i :: 0 <= i < 256 ==> RoundsAway(TotalNoise(o, d, m, coins)[i], MessageBit(m, i))
  {
    hide Compressed, Decompressed, Decrypted, Encrypt, TotalNoise, Add, RoundsAway, MessageBit, DecryptionKey, EncryptionKey;
    DecryptedIs(o, d, m, coins);
    MessageSurvives(TotalNoise(o, d, m, coins), m);
  }
}
