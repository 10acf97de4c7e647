/** The inputs of every hash, sampler and noise source in ML-KEM-768, written out: what keys, ciphertexts and secrets depend on. */
module MlKemTranscript {
  import opened Bits
  import opened NttTheory
  import opened PolyRing
  import opened MlKemZetas
  import opened MlKemNtt
  import opened MlKemPolys
  import opened MlKemVectors
  import opened MlKemNoise
  import opened KPkeSpec
  import opened KPkeTheory
  import opened MlKem

  /** The matrix entry in row i and column j: its seed is rho, then the column, then the row. */
  function Entry(o: Oracles, rho: Bytes32, i: Byte, j: Byte): (p: seq<int>)
    ensures IsPoly(Q, p)
  {
    Preimage(Residues(o.sampleNtt(rho + [j, i])))
  }

  /** The noise polynomial with a nonce. */
  function Small(o: Oracles, seed: Bytes32, nonce: Byte): (p: seq<int>)
    ensures IsPoly(Q, p)
  {
    CanonCanon(Q, Cbd2(o.prf(seed + [nonce])));
    Canon(Q, Cbd2(o.prf(seed + [nonce])))
  }

  function Three(a: seq<int>, b: seq<int>, c: seq<int>, x: seq<int>, y: seq<int>, z: seq<int>): (s: seq<int>)
    requires |a| == |b| == |c| == |x| == |y| == |z| == 256
    ensures IsPoly(Q, s)
  {
    Add(Q, Add(Q, Mul(Q, a, x), Mul(Q, b, y)), Mul(Q, c, z))
  }

  lemma DotIsThree(v: seq<seq<int>>, w: seq<seq<int>>)
    requires IsVector(v, KK) && IsVector(w, KK)
    ensures Dot(v, w) == Three(v[0], v[1], v[2], w[0], w[1], w[2])
  {
    hide Mul, Add;
    assert DotUpTo(v, w, 3) == Add(Q, DotUpTo(v, w, 2), Mul(Q, v[2], w[2]));
    assert DotUpTo(v, w, 2) == Add(Q, DotUpTo(v, w, 1), Mul(Q, v[1], w[1]));
    assert DotUpTo(v, w, 1) == Add(Q, Zero(Q), Mul(Q, v[0], w[0]));
    AddZero(Q, Mul(Q, v[0], w[0]));
    assert IsPoly(Q, Mul(Q, v[0], w[0]));
  }

  /** Row i of the key equation: t = A s + e with the seeds rho and sigma from the hash of d and the rank, s from the
      nonces 0, 1, 2 and e from 3, 4, 5. */
  lemma KeyEquation(o: Oracles, d: Bytes32, i: Byte)
    requires i < 3
    ensures var g := o.sha3_512(d + [3]);
            var rho, sigma := g[..32], g[32..];
            && Public(o, d)[i] == Add(Q, Three(Entry(o, rho, i, 0), Entry(o, rho, i, 1), Entry(o, rho, i, 2),
                                               Small(o, sigma, 0), Small(o, sigma, 1), Small(o, sigma, 2)), Small(o, sigma, 3 + i))
            && Secret(o, d)[i] == Small(o, sigma, i)
  {
    hide Add, Mul, Preimage, Residues, Canon, Dot, Cbd2;
    var rho := Rho(o, d);
    DotIsThree(MatrixRow(o, rho, i), Secret(o, d));
  }

  /** Row i of u = A^T y + e1, with y from the nonces 0, 1, 2 of the coins and e1 from 3, 4, 5. */
  lemma MaskEquation(o: Oracles, rho: Bytes32, coins: Bytes32, i: Byte)
    requires i < 3
    ensures Mask(o, rho, coins)[i] == Add(Q, Three(Entry(o, rho, 0, i), Entry(o, rho, 1, i), Entry(o, rho, 2, i),
                                                   Small(o, coins, 0), Small(o, coins, 1), Small(o, coins, 2)), Small(o, coins, 3 + i))
  {
    hide Add, Mul, Preimage, Residues, Canon, Dot, Cbd2;
    DotIsThree(Transposed(Matrix(o, rho))[i], NoiseVector(o, coins, 0));
  }

  /** v = t y + e2 + m, with the same y and e2 from nonce 6. */
  lemma BodyEquation(o: Oracles, t: seq<seq<int>>, m: Bytes32, coins: Bytes32)
    requires IsVector(t, KK)
    ensures Body(o, t, m, coins) == Add(Q, Add(Q, Three(t[0], t[1], t[2], Small(o, coins, 0), Small(o, coins, 1), Small(o, coins, 2)),
                                               Small(o, coins, 6)), Decompressed(2, m))
  {
    hide Add, Mul, Canon, Dot, Cbd2, Decompressed;
    DotIsThree(t, NoiseVector(o, coins, 0));
  }

  /** The secret and the coins are the halves of the hash of the message and the hash of the key; the ciphertext encrypts
      the message with these coins under the matrix seed at the end of the key. */
  lemma EncapsulationIs(o: Oracles, t: Bytes, rho: Bytes32, m: Bytes32, secret: Bytes32, coins: Bytes32)
    requires |t| == 1152 && o.sha3_512(m + o.sha3_256(t + rho)) == secret + coins
    ensures var (c, k) := Encapsulated(o, t + rho, m);
            k == secret && c == CompressVector(Mask(o, rho, coins)) + Compressed(16, Body(o, DecodeVector(t), m, coins), 128)
  {
    hide CompressVector, Compressed, Mask, Body, DecodeVector;
    var kr := Derived(o, m, o.sha3_256(t + rho));
    assert kr[..32] == secret && kr[32..] == coins;
    assert (t + rho)[..1152] == t && (t + rho)[1152..] == rho;
  }

  /** A ciphertext that is not what its own message encrypts to gives the hash of the last 32 bytes of the key and all of the
      ciphertext, and any other gives the half of the hash that encapsulation would have taken. */
  lemma DecapsulationIs(o: Oracles, skc: Bytes, pk: Bytes, h: Bytes32, z: Bytes32, c: Bytes, secret: Bytes32, coins: Bytes32)
    requires |skc| == 1152 && |pk| == 1184 && |c| == 1088 && o.sha3_512(Decrypt(skc, c) + h) == secret + coins
    ensures Decapsulated(o, skc + pk + h + z, c) == if Encrypt(o, pk, Decrypt(skc, c), coins) == c then secret else o.shake256(z + c)
  {
    hide Decrypt, Encrypt;
    var sk := skc + pk + h + z;
    assert sk[..1152] == skc && sk[1152..2336] == pk && sk[2336..2368] == h && sk[2368..] == z;
    var kr := Derived(o, Decrypt(skc, c), h);
    assert kr[..32] == secret && kr[32..] == coins;
  }

  /** Rejected ciphertexts that differ are hashed differently, and so are keys that differ in their last part. */
  lemma RejectionBinds(z: Bytes32, c: Bytes, y: Bytes32, d: Bytes)
    requires z + c == y + d
    ensures z == y && c == d
  {
    assert (z + c)[..32] == z && (y + d)[..32] == y;
    assert (z + c)[32..] == c && (y + d)[32..] == d;
  }
}
