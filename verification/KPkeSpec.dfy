/** K-PKE, the encryption scheme inside ML-KEM-768, as arithmetic in the ring Z_q[X]/(X^256+1). */
module KPkeSpec {
  import opened Bits
  import opened Radix
  import opened NttTheory
  import opened PolyRing
  import opened MlKemZetas
  import opened MlKemNtt
  import opened MlKemRing
  import opened MlKemPolys
  import opened MlKemVectors
  import opened MlKemCompress
  import opened MlKemNoise
  import opened Words

  type Bytes = seq<Byte>
  type Bytes32 = b: Bytes | |b| == 32 witness seq(32, _ => 0)
  type Bytes64 = b: Bytes | |b| == 64 witness seq(64, _ => 0)
  type Bytes128 = b: Bytes | |b| == 128 witness seq(128, _ => 0)

  /** 256 reduced coefficients, as the rejection sampler leaves them. */
  type Sampled = s: seq<int16> | |s| == 256 && (forall i :: 0 <= i < 256 ==> 0 <= s[i] as int < Q) witness seq(256, _ => 0)

  /** The hash functions and the matrix sampler, any functions with results of the right shape. */
  datatype Oracles = Oracles(
    sha3_256: Bytes -> Bytes32,
    sha3_512: Bytes -> Bytes64,
    prf: Bytes -> Bytes128,
    shake256: Bytes -> Bytes32,
    sampleNtt: Bytes -> Sampled)

  /** The rank of ML-KEM-768. */
  const KK := 3

  // ----- sampled values -----

  function SampledAt(o: Oracles, rho: Bytes32, i: nat, j: nat, transposed: bool): Sampled
    requires i < KK && j < KK
  {
    o.sampleNtt(rho + (if transposed then [i, j] else [j, i]))
  }

  function MatrixRow(o: Oracles, rho: Bytes32, i: nat): (r: seq<seq<int>>)
    requires i < KK
    ensures IsVector(r, KK)
  {
    seq(KK, (j: nat) requires j < KK => Preimage(Residues(SampledAt(o, rho, i, j, false))))
  }

  /** The public matrix, as ring elements. */
  function Matrix(o: Oracles, rho: Bytes32): (m: seq<seq<seq<int>>>)
    ensures IsMatrix(m, KK)
  {
    seq(KK, (i: nat) requires i < KK => MatrixRow(o, rho, i))
  }

  function Noise(o: Oracles, seed: Bytes32, nonce: Byte): (v: seq<int>)
    ensures IsPoly(Q, v)
  {
    CanonCanon(Q, Cbd2(o.prf(seed + [nonce])));
    Canon(Q, Cbd2(o.prf(seed + [nonce])))
  }

  function NoiseVector(o: Oracles, seed: Bytes32, first: Byte): (v: seq<seq<int>>)
    requires first <= KK
    ensures IsVector(v, KK)
  {
    var v := seq(KK, (i: nat) requires i < KK => Noise(o, seed, first + i));
    NoiseIsVector(o, seed, first, v);
    v
  }

  lemma NoiseIsVector(o: Oracles, seed: Bytes32, first: Byte, v: seq<seq<int>>)
    requires first <= KK == |v| && forall i :: 0 <= i < KK ==> v[i] == Noise(o, seed, first + i)
    ensures IsVector(v, KK)
  {
    hide IsPoly, Noise;
  }

  // ----- keys, ciphertexts and messages as bytes -----

  lemma HatDigits(c: seq<int>)
    requires |c| == 256
    ensures Below(4096, Hat(c)) && Below(Q, Hat(c))
  {
    hide Hat;
    HatCanon(c);
    forall i | 0 <= i < 256 ensures 0 <= Hat(c)[i] < Q {
      assert Hat(c)[i] == Canon(Q, Hat(c))[i];
    }
  }

  lemma PolyDigits(c: seq<int>)
    requires IsPoly(Q, c)
    ensures Below(Q, c)
  {
    forall i | 0 <= i < 256 ensures 0 <= c[i] < Q {
      assert c[i] == Canon(Q, c)[i];
    }
  }

  /** A vector in transformed form, 384 bytes for each polynomial. */
  function EncodeVector(v: seq<seq<int>>): (b: Bytes)
    requires IsVector(v, |v|)
    ensures |b| == 384 * |v|
  {
    if v == [] then [] else
      HatDigits(v[|v| - 1]);
      EncodeVector(v[..|v| - 1]) + Encode(4096, Hat(v[|v| - 1]), 384)
  }

  function DecodeVector(b: Bytes): (v: seq<seq<int>>)
    requires |b| == 384 * KK
    ensures IsVector(v, KK)
  {
    seq(KK, (i: nat) requires i < KK => Preimage(Decode(4096, b[384 * i..384 * i + 384], 256)))
  }

  function Compressed(m: nat, v: seq<int>, n: nat): (b: Bytes)
    requires m > 0 && IsPoly(Q, v)
    ensures |b| == n
  {
    PolyDigits(v);
    Encode(m, CompressAll(m, v), n)
  }

  function CompressVector(v: seq<seq<int>>): (b: Bytes)
    requires IsVector(v, |v|)
    ensures |b| == 320 * |v|
  {
    if v == [] then [] else CompressVector(v[..|v| - 1]) + Compressed(1024, v[|v| - 1], 320)
  }

  function Decompressed(m: nat, b: Bytes): (v: seq<int>)
    requires m in {2, 16, 1024}
    ensures IsPoly(Q, v)
  {
    var v := DecompressAll(m, Decode(m, b, 256));
    forall i | 0 <= i < 256 ensures Canon(Q, v)[i] == v[i] {
      CompressDecompress(m, Decode(m, b, 256)[i]);
    }
    v
  }

  function DecompressVector(b: Bytes): (v: seq<seq<int>>)
    requires |b| == 320 * KK
    ensures IsVector(v, KK)
  {
    seq(KK, (i: nat) requires i < KK => Decompressed(1024, b[320 * i..320 * i + 320]))
  }

  // ----- the scheme -----

  function Rho(o: Oracles, d: Bytes32): Bytes32 {
    o.sha3_512(d + [KK])[..32]
  }

  function Sigma(o: Oracles, d: Bytes32): Bytes32 {
    o.sha3_512(d + [KK])[32..]
  }

  function Secret(o: Oracles, d: Bytes32): (s: seq<seq<int>>)
    ensures IsVector(s, KK)
  {
    NoiseVector(o, Sigma(o, d), 0)
  }

  /** t = A s + e. */
  function Public(o: Oracles, d: Bytes32): (t: seq<seq<int>>)
    ensures IsVector(t, KK)
  {
    VecAdd(Apply(Matrix(o, Rho(o, d)), Secret(o, d)), NoiseVector(o, Sigma(o, d), KK))
  }

  function EncryptionKey(o: Oracles, d: Bytes32): (pk: Bytes)
    ensures |pk| == 1184
  {
    EncodeVector(Public(o, d)) + Rho(o, d)
  }

  function DecryptionKey(o: Oracles, d: Bytes32): (sk: Bytes)
    ensures |sk| == 1152
  {
    EncodeVector(Secret(o, d))
  }

  /** u = A^T y + e1. */
  function Mask(o: Oracles, rho: Bytes32, coins: Bytes32): (u: seq<seq<int>>)
    ensures IsVector(u, KK)
  {
    VecAdd(Apply(Transposed(Matrix(o, rho)), NoiseVector(o, coins, 0)), NoiseVector(o, coins, KK))
  }

  /** v = t y + e2 + the message. */
  function Body(o: Oracles, t: seq<seq<int>>, m: Bytes32, coins: Bytes32): (v: seq<int>)
    requires IsVector(t, KK)
    ensures IsPoly(Q, v)
  {
    Add(Q, Add(Q, Dot(t, NoiseVector(o, coins, 0)), Noise(o, coins, 2 * KK)), Decompressed(2, m))
  }

  function Encrypt(o: Oracles, pk: Bytes, m: Bytes32, coins: Bytes32): (c: Bytes)
    requires |pk| == 1184
    ensures |c| == 1088
  {
    CompressVector(Mask(o, pk[1152..], coins)) + Compressed(16, Body(o, DecodeVector(pk[..1152]), m, coins), 128)
  }

  /** v' - s u'. */
  function Decrypted(sk: Bytes, c: Bytes): (w: seq<int>)
    requires |sk| == 1152 && |c| == 1088
    ensures IsPoly(Q, w)
  {
    Sub(Q, Decompressed(16, c[960..]), Dot(DecodeVector(sk), DecompressVector(c[..960])))
  }

  function Decrypt(sk: Bytes, c: Bytes): (m: Bytes32)
    requires |sk| == 1152 && |c| == 1088
  {
    Compressed(2, Decrypted(sk, c), 32)
  }
}
