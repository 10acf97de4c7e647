# Oodar runtime: verified model

This project models six parts of the Oodar runtime and proves what they are for. Every module is one concern.
To verify: `dafny verify dfyconfig.toml`.

## What is modelled

**Lattice cryptography** (`ModArith`, `NttTheory`, `Butterflies`, `RootPowers`, `RingProduct`, `PolyRing`, `Montgomery`, the
`MlKem*`, `KPke*` and `MlDsa*` modules). The number-theoretic transforms of ML-KEM-768 (FIPS 203) and ML-DSA-65 (FIPS 204) are the in-place loops of the
program on arrays of 16- and 32-bit words. Because a word that leaves its range is a verification error, each method also
proves that no intermediate value overflows, although most sums are left unreduced. `NttTheory` explains both transforms as
chains of Chinese-remainder splittings for any modulus and any table of roots with two properties, which `RootPowers` derives
for the powers of one root of unity in bit-reversed order; that the tables of the program are these powers is checked entry by
entry in `MlKemZetas` and `MlDsaZetas`. `RingProduct` defines multiplication modulo X^256+1 by its schoolbook
formula; the transforms are proved to multiply in that ring with all Montgomery factors cancelling. On top of this stand
K-PKE and the key encapsulation with implicit rejection, and for ML-DSA the rounding and hint functions, the encodings of
polynomials and signatures, the challenge, and one row of key generation, signing and verification.

**Authenticated encryption and hashing** (`Poly1305`, `Clamping`, `Gf128`, `Gcm`, `GcmModes`, `Aead`, `AeadBinding`, `Keccak`,
`KeccakConstants`, `KeccakBits`, `Sponge`). Poly1305 in
five 26-bit limbs, multiplication in GF(2^128) by shifts and masks, GHASH and the counter mode, the two AEADs with their hex
interface, the in-place lane cycle of Keccak-f[1600] and the sponge around it.

**The strong/weak control block** (`ControlBlock`, `Outcomes`). Any number of threads, one atomic access for each step, with an
invariant over all interleavings, and what every operation gives its thread.

**Allocators and shared buffers** (`Arena`, `ArenaSlot`, `Lists`, `GpuPool`). The arena's stack of blocks with frees in any
order and checkpoints, the 32 arena slots under creation, reset and destruction, the copy-on-write lists with their byte
quota, and the GPU memory pool with handles, bins and copies in flight.

**String interning** (`Probing`, `Intern`). The open-addressed slab, whose probe loop has no counter, and the shared chains.

**The seccomp filter** (`Seccomp`). The two program builders, an interpreter for the programs they emit, and the policy
that the programs mean.

`Bits`, `MaskBits`, `Radix`, `Packing`, `Hex`, `Words` and `Sums` hold what several of these share: bitwise operators on
natural numbers and when they are arithmetic, little-endian numbers in any radix, groups of packed digits, hexadecimal text,
machine words, and sums over a sequence.

## Where the code and its description differ

- A signature hint is applied in the wrong direction: the flag that a comment describes as "low part positive" is set when
  the low part is not positive (`sec/pqc/mldsa/mldsa_ntt.c:190`). The model keeps the code. `MlDsaRound.UseHintAgrees` proves
  that it agrees with section 7.4 of FIPS 204 exactly when the hint is 0, and `MlDsaScheme.SessionVerifies` that the
  verifier gets back the high part the signer hashed exactly at the coefficients without a hint, while the standard's rule
  gets it back everywhere.
- Poly1305 sets bit 128 in every block, also in a short last one, where section 2.5.1 of RFC 8439 sets the bit above the
  block's own bytes (`sec/crypto/aead/chacha20_poly1305.c:67-90`). `Poly1305.StandardBlocks` proves that the two agree exactly for
  lengths that are a multiple of 16, and `Aead.MacInputIsStandard` that the AEAD only authenticates such strings.
- Three accesses of the control block lose a count at the counter's limit: weak create and weak retain add without looking
  (`core/mem/weak.c:88`, `core/mem/weak.c:137`), and a retain that reads the limit returns as if it had counted
  (`core/mem/weak.c:32-34`). `ControlBlock.AccessKeepsInvariant` proves that exactly these break the invariant,
  `ControlBlock.RunInvariant` that a run keeps it in all its states exactly when it has no such access, and
  `ControlBlock.LimitIsReached` gives a run of one thread to each of them. An upgrade at the limit is refused correctly.
- Lists in an arena do not count their handles, so pushing onto a shorter handle overwrites what a longer handle on the same
  buffer shows. `Lists.ArenaAliasing` gives such handles, and `Lists.Heap.Push` says exactly which views change.
- A list release does not count for a buffer with more than a million references or more than 2^28 elements
  (`core/list/list.c:35-47`), so its count is never given back. `Lists.Heap.Release` says which counts are lost, and what the
  other operations promise does not depend on it.
- A reset keeps the generation of an arena (`core/mem/arena.c:165-198`), so an open checkpoint of it can still be rolled back
  to. `ArenaSlot.Heap.Reset` proves that this takes the checkpoint's blocks away exactly if it has any.

## Model

| member | source | states |
|---|---|---|
| NttTheory.NttIsReduction | sec/pqc/mldsa/mldsa_ntt.c:104-116 | for every good table the whole forward transform leaves at each leaf the polynomial reduced modulo that leaf of the Chinese-remainder tree |
| NttTheory.FwdSplits | sec/pqc/mlkem/mlkem_ntt.c:104-118 | one layer of butterflies is one level of splitting X^2h - z*z into (X^h - z)(X^h + z) |
| NttTheory.InvUndoesNtt | sec/pqc/mldsa/mldsa_ntt.c:117-132 | the inverse layers after the forward layers multiply by the number of leaves, and by nothing else |
| NttTheory.NttUndoesInv | sec/pqc/mlkem/mlkem_ntt.c:119-134 | the forward layers after the inverse layers do the same, so the transform is onto |
| RingProduct.ProductLeaf1 | sec/pqc/mldsa/mldsa_ntt.c:151-153 | at a leaf of width one the schoolbook product modulo X^256+1 becomes the product of two numbers |
| RingProduct.ProductLeaf2 | sec/pqc/mlkem/mlkem_ntt.c:136-140 | at a leaf of width two it becomes the product modulo X^2 - root |
| RingProduct.NodeRoot | sec/pqc/mldsa/mldsa_ntt.c:51-84 | a node among m of its level is an m-th root of -1, for every good table |
| RootPowers.PowersAreGood | sec/pqc/mlkem/mlkem_ntt.c:26-48 | a table of the powers of one root of unity in bit-reversed order is a good table, for every modulus |
| RootPowers.LeafPower | sec/pqc/mlkem/mlkem_ntt.c:104-118 | over such a table the root at leaf i is the power 2 BitRev(i) + 1 |
| RootPowers.LeafWord | sec/pqc/mlkem/mlkem_ntt.c:104-118 | word o of leaf i of a transform is coefficient o of the polynomial modulo X^w minus that power |
| MlDsaZetas.ZetaIsPower | sec/pqc/mldsa/mldsa_ntt.c:51-84 | entry k is 1753 to the power BitRev8(k), times 2^32, for all k but the unused entry 0 |
| MlKemZetas.ZetaIsPower | sec/pqc/mlkem/mlkem_ntt.c:26-48 | entry k is 17 to the power BitRev7(k), times 2^16, for all k |
| MlDsaZetas.ZetasAreGood | sec/pqc/mldsa/mldsa_ntt.c:51-84 | so the 256 constants are a good table |
| MlKemZetas.ZetasAreGood | sec/pqc/mlkem/mlkem_ntt.c:26-48 | so are the 128 constants |
| MlDsaNtt.MontReduce | sec/pqc/mldsa/mldsa_ntt.c:88-92 | the result is below q in absolute value and congruent to a over 2^32 |
| MlDsaNtt.DNtt | sec/pqc/mldsa/mldsa_ntt.c:104-116 | no word overflows although no sum is reduced; results stay below 9q, and word i is the polynomial at 1753^(2 BitRev8(i) + 1) |
| MlDsaNtt.DInvNtt | sec/pqc/mldsa/mldsa_ntt.c:117-132 | for all words up to q - 1 the unreduced sums reach at most 256(q - 1) < 2^31; the result is the inverse transform times 2^32/256, within 4211198 |
| MlDsaRing.DPolyPointwise | sec/pqc/mldsa/mldsa_ntt.c:151-153 | componentwise products over 2^32, also when the result overwrites an operand |
| MlDsaRing.NttMultiplies | sec/pqc/mldsa/mldsa_ntt.c:104-153 | transform, multiply, transform back is the product in Z_q[X]/(X^256+1) with no factor left over |
| MlDsaRing.InverseOfTransform | sec/pqc/mldsa/mldsa_ntt.c:104-132 | inverse transform of transform is 2^32 times the polynomial |
| MlDsaRing.MultiplyInRing | sec/pqc/mldsa/mldsa_sign.c:113-118 | the same as one run of the program on three arrays, from words below q to words below q |
| MlDsaRound.Reduce32 | sec/pqc/mldsa/mldsa_ntt.c:93-96 | a representative of the same residue within 6283009, for all words below 2^31 - 2^22 |
| MlDsaRound.CAddQ | sec/pqc/mldsa/mldsa_ntt.c:97-99 | the residue itself, for words between -q and q |
| MlDsaRound.Power2Round | sec/pqc/mldsa/mldsa_ntt.c:157-161 | a = a1*2^13 + a0 with a0 in (-2^12, 2^12] and a1 in ten bits |
| MlDsaRound.Decompose | sec/pqc/mldsa/mldsa_ntt.c:162-169 | the division by magic constant gives the low and high part of algorithm 36 of FIPS 204, wrap of the top interval included |
| MlDsaRound.DecomposedSum | sec/pqc/mldsa/mldsa_ntt.c:162-169 | the two parts make up the residue modulo q |
| MlDsaRound.HintTells | sec/pqc/mldsa/mldsa_ntt.c:170-183 | the hint is 1 exactly when adding a0 changes the high part, for all a1 below 16 and |a0| below 2*gamma2 |
| MlDsaRound.StandardRecovers | sec/pqc/mldsa/mldsa_ntt.c:170-197 | the recovery rule of the standard gives back the high part for which the hint was made |
| MlDsaRound.UseHintAgrees | sec/pqc/mldsa/mldsa_ntt.c:184-197 | the recovery of the program agrees with the standard exactly when the hint is 0 |
| MlDsaRound.RecoversUnhinted | sec/pqc/mldsa/mldsa_ntt.c:184-197 | so it recovers the signer's high part exactly where no hint was needed |
| MlDsaRound.ChkNorm | sec/pqc/mldsa/mldsa_ntt.c:200-209 | for every bound and all words rejects exactly when the bound exceeds (q - 1)/8 or some absolute value reaches it; only the smallest word has none |
| MlDsaPolys.HatMul | sec/pqc/mldsa/mldsa_ntt.c:104-153 | the transform turns ring products into componentwise products |
| MlDsaPolys.HatInjective | sec/pqc/mldsa/mldsa_ntt.c:104-132 | a polynomial is determined by its transform |
| MlDsaPolys.HatIsOnto | sec/pqc/mldsa/mldsa_sample.c:81-86 | every vector of residues, so every sampled matrix entry, is the transform of a polynomial |
| MlDsaPolys.MulAssoc | sec/pqc/mldsa/mldsa_ntt.c:104-153 | the ring product of the program is associative |
| MlDsaPolys.MulDistributes | sec/pqc/mldsa/mldsa_ntt.c:104-153 | and distributes over addition |
| MlDsaMatrix.RowMeansDot | sec/pqc/mldsa/mldsa_sample.c:87-97 | a row sum transformed back is the dot product in the ring, the Montgomery factors of all terms cancelling |
| MlDsaMatrix.RowLessProduct | sec/pqc/mldsa/mldsa_verify.c:84-90 | the same for a row sum less one more product, as verification forms it |
| MlDsaMatrix.DMatrixPointwise | sec/pqc/mldsa/mldsa_sample.c:87-97 | every row of the matrix times the vector, the sum of n unreduced products within n(q - 1), no other array touched |
| MlDsaMatrix.DPolyReduce | sec/pqc/mldsa/mldsa_ntt.c:136-138 | words below q with unchanged residues |
| MlDsaMatrix.DPolyCAddQ | sec/pqc/mldsa/mldsa_ntt.c:139-141 | the residues themselves |
| MlDsaMatrix.DPolyAdd | sec/pqc/mldsa/mldsa_ntt.c:142-144 | sums, and sums of residues, also in place |
| MlDsaMatrix.DPolySub | sec/pqc/mldsa/mldsa_ntt.c:145-147 | differences, and differences of residues, also in place |
| MlDsaRows.KeygenRow | sec/pqc/mldsa/mldsa_sample.c:195-199 | t1*2^13 + t0 is the row of A s1 + s2 as residues, with t1 in ten bits and t0 in (-2^12, 2^12] |
| MlDsaRows.CommitRow | sec/pqc/mldsa/mldsa_sign.c:101-105 | w0 and w1 are the low and high parts of the row of A y |
| MlDsaRows.ResponseRow | sec/pqc/mldsa/mldsa_sign.c:115-121 | z = y + c s1 as residues, rejected exactly when a coefficient reaches gamma1 - beta |
| MlDsaRows.SubtractRow | sec/pqc/mldsa/mldsa_sign.c:123-129 | w0 - c s2 as residues, rejected exactly when a coefficient reaches gamma2 - beta |
| MlDsaRows.HintRow | sec/pqc/mldsa/mldsa_sign.c:132-143 | unless c t0 is too large, w0 - c s2 + c t0 within 2*gamma2 - 1, the hint of every coefficient, and how many there are |
| MlDsaRows.DPolyShiftL | sec/pqc/mldsa/mldsa_ntt.c:148-150 | t1*2^13, below q because the public key holds ten bits |
| MlDsaRows.VerifyRow | sec/pqc/mldsa/mldsa_verify.c:84-97 | the high parts hashed by the verifier are the recovery from A z - c t1 2^13 as residues |
| MlDsaScheme.VerifierSees | sec/pqc/mldsa/mldsa_verify.c:82-91 | for every key, mask and challenge A z - c t1 2^13 = A y - c s2 + c t0 in the ring |
| MlDsaScheme.SessionVerifies | sec/pqc/mldsa/mldsa_verify.c:64-105 | key generation, an accepted signature and verification of one row: the standard's recovery gives back every high part the signer hashed, the program's exactly those whose hint is 0 |
| MlDsaChallenge.DPolyChallenge | sec/pqc/mldsa/mldsa_poly.c:74-90 | the shuffle in place is the one of algorithm 29 of FIPS 204, on any stream |
| MlDsaChallenge.PlacedWeight | sec/pqc/mldsa/mldsa_poly.c:82-89 | after n placements exactly n coefficients are 1 or -1 and all others 0 |
| MlDsaChallenge.PlacedSigns | sec/pqc/mldsa/mldsa_poly.c:82-89 | among them exactly as many are -1 as sign bits are 1 |
| MlDsaChallenge.ChallengeProduct | sec/pqc/mldsa/mldsa_sign.c:116-128 | challenge times secret never exceeds 49*4 = 196, the margin that signing keeps from its bounds |
| MlDsaPacking.DPolyzPack | sec/pqc/mldsa/mldsa_poly.c:203-216 | the 640 bytes are the distances below 2^19 as digits of 20 bits; nothing else is written |
| MlDsaPacking.DPolyzUnpack | sec/pqc/mldsa/mldsa_sample.c:2-15 | the coefficients whose distances the bytes hold |
| MlDsaPacking.DPolyetaPack | sec/pqc/mldsa/mldsa_poly.c:94-101 | distances below 4 as digits of 4 bits |
| MlDsaPacking.DPolyetaUnpack | sec/pqc/mldsa/mldsa_poly.c:102-108 | and back |
| MlDsaPacking.DPolyt1Pack | sec/pqc/mldsa/mldsa_poly.c:109-118 | digits of 10 bits |
| MlDsaPacking.DPolyt1Unpack | sec/pqc/mldsa/mldsa_poly.c:119-127 | and back |
| MlDsaPacking.DPolyt0Pack | sec/pqc/mldsa/mldsa_poly.c:128-161 | distances below 2^12 as digits of 13 bits, eight in thirteen bytes |
| MlDsaPacking.DPolyt0Unpack | sec/pqc/mldsa/mldsa_poly.c:162-202 | and back |
| MlDsaPacking.UnpackPacked | sec/pqc/mldsa/mldsa_poly.c:94-216 | unpacking what was packed gives the coefficients, for all four sizes |
| MlDsaPacking.PackUnpacked | sec/pqc/mldsa/mldsa_poly.c:94-216 | packing what was unpacked gives the bytes, whatever they were |
| MlDsaHints.PackHint | sec/pqc/mldsa/mldsa_sample.c:136-153 | the masked writes leave the positions in order, zeros, and the row ends |
| MlDsaHints.UnpackHint | sec/pqc/mldsa/mldsa_sample.c:160-172 | accepts exactly the canonical encodings |
| MlDsaHints.UnpackPackedHint | sec/pqc/mldsa/mldsa_sample.c:132-173 | a packed hint of at most 55 ones is accepted and unpacks to itself |
| MlDsaHints.PackUnpackedHint | sec/pqc/mldsa/mldsa_sample.c:132-173 | an accepted encoding is the encoding of its hint, so a hint has one encoding |
| MlDsaSignature.DPackSig | sec/pqc/mldsa/mldsa_sample.c:132-154 | challenge, responses and hint at their places in 3309 bytes |
| MlDsaSignature.DUnpackSig | sec/pqc/mldsa/mldsa_sample.c:155-173 | accepts exactly when the hint part is canonical, and then returns what the bytes hold |
| MlDsaSignature.UnpackPackedSignature | sec/pqc/mldsa/mldsa_sample.c:132-173 | a packed signature unpacks to its parts and to nothing else |
| MlDsaSignature.PackUnpackedSignature | sec/pqc/mldsa/mldsa_sample.c:132-173 | every accepted signature is the encoding of what it unpacks to |
| MlKemNtt.Montgomery | sec/pqc/mlkem/mlkem_ntt.c:88-93 | below q in absolute value and congruent to a over 2^16 |
| MlKemNtt.Barrett | sec/pqc/mlkem/mlkem_ntt.c:94-97 | the centred residue within 1664 of every 16-bit word |
| MlKemNtt.FqMul | sec/pqc/mlkem/mlkem_ntt.c:98-103 | the product over 2^16 for all factors whose product is below 2^15 q |
| MlKemNtt.KNtt | sec/pqc/mlkem/mlkem_ntt.c:104-118 | for all words within 9471 no sum leaves 16 bits in seven layers; words 2i and 2i + 1 are the polynomial modulo X^2 - 17^(2 BitRev7(i) + 1), centred |
| MlKemNtt.KInvNtt | sec/pqc/mlkem/mlkem_ntt.c:119-134 | for all words within 16383 nothing overflows; the result is the inverse transform times 2^16/128 |
| MlKemNtt.KPolyReduce | sec/pqc/mlkem/mlkem_ntt.c:156-158 | centred words with unchanged residues |
| MlKemRing.KBaseMul | sec/pqc/mlkem/mlkem_ntt.c:136-140 | two words become the product modulo X^2 - zeta over 2^16, without overflow for words within 4095 |
| MlKemRing.KPolyMul | sec/pqc/mlkem/mlkem_ntt.c:142-148 | all 128 base products with the right root and sign |
| MlKemRing.BaseMulIsProduct | sec/pqc/mlkem/mlkem_ntt.c:136-148 | base products of two transforms are the transform of the ring product over 2^16 |
| MlKemRing.NttMultiplies | sec/pqc/mlkem/mlkem_ntt.c:104-148 | transform, multiply, transform back is the product in Z_q[X]/(X^256+1), the Montgomery factors cancelling |
| MlKemRing.MultiplyInRing | sec/pqc/mlkem/mlkem_ntt.c:104-148 | the same as one run of the program on three arrays |
| MlKemPolys.MulAssoc | sec/pqc/mlkem/mlkem_ntt.c:104-148 | associativity of the ring product, from its transforms |
| MlKemPolys.MulDistributes | sec/pqc/mlkem/mlkem_ntt.c:104-148 | distributivity |
| MlKemPolys.HatIsOnto | sec/pqc/mlkem/mlkem_sample.c:29-65 | every vector of residues, so every sampled matrix entry, is the transform of a polynomial |
| MlKemVectors.Adjoint | sec/pqc/mlkem/mlkem_poly.c:71-134 | <M s, y> = <s, M^T y>: why key generation and encryption may use the matrix and its transpose |
| MlKemBytes.KPolyEncode12 | sec/pqc/mlkem/mlkem_poly.c:14-26 | the 384 bytes are the residues as digits of 12 bits, negative words included |
| MlKemBytes.KPolyDecode12 | sec/pqc/mlkem/mlkem_poly.c:27-36 | the digits of 12 bits, also those of q or more |
| MlKemCompress.Compress4 | sec/pqc/mlkem/mlkem_sample.c:85-92 | the multiplication by reciprocal, wrapping at 2^32, rounds exactly for 4 bits |
| MlKemCompress.Compress10 | sec/pqc/mlkem/mlkem_sample.c:106-113 | the same for 10 bits and 64-bit products |
| MlKemCompress.Compress1 | sec/pqc/mlkem/mlkem_sample.c:126-131 | the same for 1 bit, without making the word positive first |
| MlKemCompress.CompressDecompress | sec/pqc/mlkem/mlkem_sample.c:73-159 | compressing what was decompressed gives it back, for 1, 4 and 10 bits |
| MlKemCompress.RoundingError | sec/pqc/mlkem/mlkem_sample.c:73-159 | decompressing what was compressed is at most q/2^(d+1), rounded, away on the circle |
| MlKemCompress.BitThreshold | sec/pqc/mlkem/mlkem_sample.c:126-131 | a bit is set exactly for centred words beyond 832 |
| MlKemCompress.KPolyCompress4 | sec/pqc/mlkem/mlkem_sample.c:79-99 | nibbles of the compressed coefficients, two in a byte |
| MlKemCompress.KPolyCompress10 | sec/pqc/mlkem/mlkem_sample.c:100-121 | ten-bit digits, four in five bytes |
| MlKemCompress.KPolyToMsg | sec/pqc/mlkem/mlkem_poly.c:10-12 | the message bit of every coefficient |
| MlKemCompress.KPolyDecompress4 | sec/pqc/mlkem/mlkem_sample.c:137-143 | the decompressed nibbles |
| MlKemCompress.KPolyDecompress10 | sec/pqc/mlkem/mlkem_sample.c:144-154 | the decompressed ten-bit digits |
| MlKemCompress.KPolyFromMsg | sec/pqc/mlkem/mlkem_poly.c:1-9 | the mask gives 0 or the decompressed bit, for every message bit |
| MlKemNoise.KCbd2 | sec/pqc/mlkem/mlkem_sample.c:14-27 | the additions of 16 pairs of bits in one word give each coefficient as a difference of two sums of two bits |
| MlKemNoise.PairSumDigits | sec/pqc/mlkem/mlkem_sample.c:16-20 | no carry leaves its pair of bits |
| KPke.KPolyAdd | sec/pqc/mlkem/mlkem_ntt.c:150-152 | sums without overflow, and sums of residues |
| KPke.KPolySub | sec/pqc/mlkem/mlkem_ntt.c:153-155 | differences without overflow, and differences of residues |
| KPke.KPolyToMont | sec/pqc/mlkem/mlkem_ntt.c:159-161 | takes back the factor that base products leave |
| KPke.KDot | sec/pqc/mlkem/mlkem_poly.c:84-89 | three base products accumulated without overflow and centred |
| KPke.KpkeKeygen | sec/pqc/mlkem/mlkem_poly.c:71-97 | the keys are the encodings of t = A s + e and s of the specification |
| KPke.KpkeEncrypt | sec/pqc/mlkem/mlkem_poly.c:99-134 | the ciphertext is the encoding of u = A^T y + e1 and v = t y + e2 + the message, for every key |
| KPke.KpkeDecrypt | sec/pqc/mlkem/mlkem_poly.c:136-153 | the message is read off v - s u, for every ciphertext |
| KPkeTheory.DecodeEncodeVector | sec/pqc/mlkem/mlkem_poly.c:14-69 | a key decodes to the vector it encodes |
| KPkeTheory.DecompressCompressVector | sec/pqc/mlkem/mlkem_sample.c:79-159 | a ciphertext part decodes to its vector, rounded |
| KPkeTheory.MessagePlusNoise | sec/pqc/mlkem/mlkem_poly.c:71-153 | decryption leaves the message plus e.y + e2 + (v rounding) - s.(e1 + (u rounding)) in the ring |
| KPkeTheory.DecryptionIsCorrect | sec/pqc/mlkem/mlkem_poly.c:71-153 | for every key, message and coins decryption returns the message if and only if every centred noise coefficient is nearer to its own message bit |
| MlKem.Keygen | sec/pqc/mlkem/mlkem.c:37-56 | public key and the four parts of the secret key in hex, for every seed text of 64 bytes; nothing otherwise |
| MlKem.Encaps | sec/pqc/mlkem/mlkem_kem.c:31-59 | ciphertext and secret in hex for every key and message text of the right size; nothing otherwise |
| MlKem.Decaps | sec/pqc/mlkem/mlkem_kem.c:60-101 | the masked selection returns the derived secret when re-encryption gives the ciphertext and SHAKE256(z || c) otherwise |
| MlKem.KeyLayout | sec/pqc/mlkem/mlkem.c:45-50 | decapsulation reads back from the secret key what key generation laid out |
| MlKem.SecretsAgree | sec/pqc/mlkem/mlkem_kem.c:31-101 | both sides get the same secret when all noise coefficients round away |
| MlKem.NoisyExchange | sec/pqc/mlkem/mlkem_kem.c:31-101 | when one does not, decryption yields another message |
| MlKem.Exchange | sec/pqc/mlkem/mlkem_kem.c:31-101 | the same as a run of the three programs through their hex texts |
| MlKemTranscript.KeyEquation | sec/pqc/mlkem/mlkem_poly.c:71-97 | every row of t = A s + e with the seeds, nonces and matrix entries written out |
| MlKemTranscript.MaskEquation | sec/pqc/mlkem/mlkem_poly.c:99-121 | every row of u = A^T y + e1 likewise, with the transposed entries |
| MlKemTranscript.BodyEquation | sec/pqc/mlkem/mlkem_poly.c:99-134 | v = t y + e2 + m with the same y and the last nonce |
| MlKemTranscript.EncapsulationIs | sec/pqc/mlkem/mlkem_kem.c:43-47 | secret and coins are the halves of the hash of message and key hash |
| MlKemTranscript.DecapsulationIs | sec/pqc/mlkem/mlkem_kem.c:61-92 | which part of the key each input of decapsulation is, and what a rejected ciphertext gives |
| MlKemTranscript.RejectionBinds | sec/pqc/mlkem/mlkem_kem.c:86-87 | the input of the rejection hash determines the ciphertext and the last part of the key |
| Hex.FromToHex | sec/pqc/mlkem/mlkem_ntt.c:50-86 | hex text determines its bytes |
| Hex.DigitsAre | sec/pqc/mlkem/mlkem_ntt.c:50-86 | the value of every digit in either case, and that lower case is written |
| Hex.OnlyDigits | sec/pqc/mlkem/mlkem_ntt.c:50-68 | and nothing else is a digit |
| Hex.Load | sec/pqc/mlkem/mlkem_ntt.c:50-68 | raw bytes of the right length, hex of twice the length in either case, and nothing else |
| Hex.HexCat | sec/crypto/aead/aead.c:57-64 | the digits of the two strings one after the other |
| Bits.Differences | sec/pqc/mlkem/mlkem_kem.c:84-85 | zero exactly when the two strings are equal |
| Bits.ChosenByte | sec/pqc/mlkem/mlkem_kem.c:88-89 | a mask of all zeros or ones selects |
| Poly1305.SplitValue | sec/crypto/aead/chacha20_poly1305.c:72-77 | the five limbs are the little-endian number of the block |
| Poly1305.ClampLimbsValue | sec/crypto/aead/chacha20_poly1305.c:60-65 | the five masks are the clamping of section 2.5 of RFC 8439 |
| Poly1305.ColumnsAreProduct | sec/crypto/aead/chacha20_poly1305.c:78-82 | the five column sums are the product modulo 2^130 - 5 |
| Poly1305.Multiply | sec/crypto/aead/chacha20_poly1305.c:78-88 | for every accumulator the product modulo 2^130 - 5, no 64- or 32-bit operation wrapping, h1 below 2^26 + 64 and the others below 2^26 |
| Poly1305.Absorb | sec/crypto/aead/chacha20_poly1305.c:67-90 | after any message the accumulator is the value of Horner's rule, within the same limb bounds |
| Poly1305.Carry | sec/crypto/aead/chacha20_poly1305.c:93-97 | one pass leaves every limb below 2^26 |
| Poly1305.Reduce | sec/crypto/aead/chacha20_poly1305.c:98-106 | the branchless subtraction gives the residue itself |
| Poly1305.AddKey | sec/crypto/aead/chacha20_poly1305.c:107-114 | the sum with the second half of the key modulo 2^128 |
| Poly1305.Poly1305Mac | sec/crypto/aead/chacha20_poly1305.c:55-116 | for every key and message the tag of the polynomial at the clamped r plus s modulo 2^128 |
| Clamping.ClampedIs | sec/crypto/aead/chacha20_poly1305.c:61-65 | the clamped factor is the key's first half with the bits of section 2.5 of RFC 8439 cleared, byte by byte |
| Clamping.TagIs | sec/crypto/aead/chacha20_poly1305.c:107-114 | the tag as a number is the polynomial at that factor plus the second half of the key modulo 2^128 |
| Poly1305.EvaluatedIsPowerSum | sec/crypto/aead/chacha20_poly1305.c:67-90 | Horner's rule is the sum of blocks times powers of r |
| Poly1305.StandardBlocks | sec/crypto/aead/chacha20_poly1305.c:67-90 | the blocks are those of RFC 8439 exactly when the length is a multiple of 16 |
| Gf128.AccumulatedIsTimes | sec/crypto/aead/aes_gcm.c:91-112 | the shift-and-add accumulation is the remainder of the carry-less product modulo x^128 + x^7 + x^2 + x + 1 |
| Gf128.DropLeadingIs | sec/crypto/aead/aes_gcm.c:102-108 | each step of the reduction adds the multiple of x^128 + x^7 + x^2 + x + 1 that cancels the leading term |
| Gf128.TimesSum | sec/crypto/aead/aes_gcm.c:91-112 | multiplication distributes over addition |
| Gcm.ShiftReduce | sec/crypto/aead/aes_gcm.c:102-108 | the byte loop multiplies the block by x in the field |
| Gcm.GfMult | sec/crypto/aead/aes_gcm.c:91-112 | for all pairs of blocks the product in GF(2^128) |
| GcmModes.GcmGhash | sec/crypto/aead/aes_gcm.c:114-139 | for all lengths GHASH of the padded associated data, the padded ciphertext and the length block |
| GcmModes.HashIsPowerSum | sec/crypto/aead/aes_gcm.c:114-139 | GHASH is the polynomial with the blocks as coefficients, evaluated at the hash key |
| GcmModes.GcmInc32 | sec/crypto/aead/aes_gcm.c:81-86 | only the last 32 bits count, and they wrap |
| GcmModes.GcmGctr | sec/crypto/aead/aes_gcm.c:140-152 | the input plus the encrypted counter blocks, for every length |
| Aead.AeadLoad | sec/crypto/aead/aead.c:39-55 | hex of even length at least 2 is decoded, anything else is kept |
| Aead.ChaChaXor | sec/crypto/aead/chacha20_poly1305.c:43-53 | the input plus the key stream from the start counter on, which wraps at 2^32 |
| Aead.PolyPadMac | sec/crypto/aead/chacha20_poly1305.c:118-139 | the tag of both parts padded to whole blocks and both lengths |
| Aead.MacInputIsStandard | sec/crypto/aead/chacha20_poly1305.c:118-139 | the authenticated string has whole blocks only, so its tag is the one of RFC 8439 |
| Aead.Seal | sec/crypto/aead/chacha20_poly1305.c:148-172 | ciphertext and tag in hex, for both schemes and every text; nothing for a bad key or nonce |
| Aead.Open | sec/crypto/aead/chacha20_poly1305.c:173-202 | the plaintext exactly when the tag is the one of the ciphertext, for both schemes |
| Aead.SealedWhen | sec/crypto/aead/aes_gcm.c:167-199 | sealing gives nothing exactly for a key or nonce text that is neither raw nor hex of the size: 16 bytes of key for AES, 32 for ChaCha20, 12 of nonce |
| Aead.OpenSealed | sec/crypto/aead/aes_gcm.c:167-239 | opening what was sealed gives the normalised plaintext, for every key, nonce, plaintext and associated data |
| Aead.OtherTagsFail | sec/crypto/aead/aes_gcm.c:201-239 | any other tag gives nothing, whatever the ciphertext |
| AeadBinding.MacInputIs | sec/crypto/aead/chacha20_poly1305.c:118-139 | the authenticated string is exactly the one that begins with the associated data, holds the ciphertext from the next multiple of 16 on, and ends in both lengths |
| AeadBinding.MacInputInjective | sec/crypto/aead/chacha20_poly1305.c:118-139 | it determines the associated data and the ciphertext, for lengths below 2^64 |
| AeadBinding.GhashInputIs | sec/crypto/aead/aes_gcm.c:114-139 | GHASH takes in exactly the blocks of that layout with both bit lengths at the end |
| AeadBinding.GhashInputInjective | sec/crypto/aead/aes_gcm.c:114-139 | these blocks determine the associated data and the ciphertext |
| AeadBinding.CryptByte | sec/crypto/aead/chacha20_poly1305.c:43-53 | every byte of a ciphertext, with the number of its key stream block, which starts after the blocks used for the tag |
| AeadBinding.ChaChaTagIs | sec/crypto/aead/chacha20_poly1305.c:148-172 | the tag is the one of the authenticated string under the key stream block 0 |
| AeadBinding.GcmTagIs | sec/crypto/aead/aes_gcm.c:167-199 | the tag is GHASH under the encrypted zero block plus the encrypted block with counter 1 |
| AeadBinding.ForgeryNeedsCollision | sec/crypto/aead/chacha20_poly1305.c:173-202 | a tag opens other associated data or another ciphertext only where Poly1305 has one value for two strings |
| KeccakConstants.RoundConstants | sec/crypto/sha3.c:5-14 | bit 2^j - 1 of the constant of round i is output j + 7i of the shift register of section 3.2.5 of FIPS 202, all other bits are 0 |
| KeccakBits.RotlBit | sec/crypto/sha3.c:24-26 | rotation by n takes bit z - n of the lane, modulo 64, to place z |
| KeccakBits.ThetaBits | sec/crypto/sha3.c:32-37 | bit by bit theta is algorithm 1 of FIPS 202: the parities of the columns (x - 1, z) and (x + 1, z - 1) are added |
| KeccakBits.RhoBits | sec/crypto/sha3.c:15-18 | rho is algorithm 2: the lane visited at step t of the walk moves up by (t + 1)(t + 2)/2 |
| KeccakBits.PiBits | sec/crypto/sha3.c:38-44 | pi is algorithm 3: bit (x, y, z) comes from (x + 3y, x, z) |
| KeccakBits.ChiBits | sec/crypto/sha3.c:45-52 | chi is algorithm 4: a bit changes where the next in the row is 0 and the one after it 1 |
| KeccakBits.IotaBits | sec/crypto/sha3.c:53 | iota adds the constant of the round to lane (0, 0) and changes nothing else |
| KeccakBits.StateString | sec/crypto/sha3.c:63-67 | the octets of a state are its bit string in the order of section 3.1.2 |
| Keccak.TablesFollowWalk | sec/crypto/sha3.c:15-22 | the rotation and lane tables are the walk of section 3.2 of FIPS 202 |
| Keccak.WalkIsTable | sec/crypto/sha3.c:19-22 | the walk visits the lanes in the order of the table |
| Keccak.ThetaInPlace | sec/crypto/sha3.c:32-37 | columns mixed one by one are theta of all lanes at once |
| Keccak.RhoPiInPlace | sec/crypto/sha3.c:38-44 | the cycle that carries one lane along is pi after rho |
| Keccak.ChiInPlace | sec/crypto/sha3.c:45-52 | rows combined in place are chi |
| Keccak.KeccakF | sec/crypto/sha3.c:28-55 | for every state the permutation Keccak-f[1600] |
| Sponge.AbsorbSqueeze | sec/crypto/sha3.c:57-92 | for every input, output length, rate and separation octet the output of the sponge |
| Sponge.PaddingIsPad101 | sec/crypto/sha3.c:73-77 | bit by bit the padding is the suffix of SHA3 or SHAKE and pad10*1 |
| Sponge.XoredOctets | sec/crypto/sha3.c:63-67 | taking in lanes adds the block to the first octets of the state and leaves the capacity alone |
| Sponge.SqueezedAt | sec/crypto/sha3.c:85-91 | octet r of block q of the output is octet r of the state after q more permutations |
| Sponge.ShorterIsPrefix | sec/crypto/sha3.c:85-91 | a shorter output is a prefix of a longer one |
| ControlBlock.CreatedInvariant | core/mem/weak.c:9-26 | the invariant holds of a block as created |
| ControlBlock.AccessKeepsInvariant | core/mem/weak.c:28-159 | an atomic access of any operation by any thread keeps the invariant if and only if it is not one of three at the limit: a retain that has read it, or the addition of weak create or weak retain |
| ControlBlock.StepKeepsInvariant | core/mem/weak.c:28-159 | the same for every step, starting an operation and passing a handle on included; spurious failures of compare-and-swap are steps too |
| ControlBlock.RunInvariant | core/mem/weak.c:28-159 | all states of an interleaving satisfy the invariant exactly when no step of it loses a count |
| ControlBlock.BelowLimitKeepsCount | core/mem/weak.c:28-159 | while both counters stay below the limit no step loses a count |
| ControlBlock.NoUseAfterFree | core/mem/weak.c:28-159 | while a thread owns a handle or is inside an operation the block is not freed |
| ControlBlock.FreedExactlyWhenUnreachable | core/mem/weak.c:49-69 | the block is freed exactly when no handle is left and no operation is under way |
| ControlBlock.DestructorRuns | core/mem/weak.c:49-69 | at most once, never while a strong handle exists, always before the block is freed |
| ControlBlock.NoUpgradeAfterZero | core/mem/weak.c:106-128 | in every run that loses no count: once the strong count has been zero there are no strong references ever after |
| ControlBlock.ExactlyOnce | core/mem/weak.c:28-159 | in every run that loses no count: when all handles are released and all operations over, the block was destroyed once and freed once |
| ControlBlock.WeakAddAtLimit | core/mem/weak.c:83-138 | at the limit weak create and weak retain take the weak count of a block that is held to 0 |
| ControlBlock.RetainAtLimit | core/mem/weak.c:28-47 | a retain at the limit returns without counting, which leaves one reference too many |
| ControlBlock.UpgradeAtLimit | core/mem/weak.c:106-128 | an upgrade at the limit fails, changes no count and keeps the invariant |
| ControlBlock.LimitIsReached | core/mem/weak.c:28-138 | a run of one thread reaches each of the three accesses that lose a count, with the invariant true up to there |
| Outcomes.OperationOutcome | core/mem/weak.c:28-159 | in every interleaving an operation leaves its thread the handles it had, those passed on to it, and what it gains: a retain one, an upgrade or a weak create one unless a read of its own refused, and exactly then none |
| Outcomes.UpgradeSucceeds | core/mem/weak.c:106-128 | an uninterrupted upgrade of a live block below the limit ends with one more handle and the count one higher |
| Outcomes.UpgradeOnRun | core/mem/weak.c:106-128 | the same as the continuation of any run that lost no count |
| Outcomes.RetainSucceeds | core/mem/weak.c:28-47 | so does an uninterrupted retain |
| Outcomes.CreateOutcome | core/mem/weak.c:83-104 | an uninterrupted weak create adds a handle and a count while a strong handle exists, and otherwise changes nothing |
| Arena.PayloadsDisjoint | core/mem/arena_checkpoint.c:139-174 | payloads are 64-byte aligned, disjoint and inside the arena, those of dead blocks included |
| Arena.OffsetWithinCapacity | core/mem/arena_checkpoint.c:153-157 | in an arena whose capacity is a multiple of 64 the next block never starts beyond it |
| Arena.FreedEverything | core/mem/arena_checkpoint.c:176-203 | freeing all blocks in any order empties the stack and takes the offset back to 0 |
| Arena.FreeKeepsOlder | core/mem/arena_checkpoint.c:176-203 | freeing a younger block leaves an older part of the stack alone |
| Arena.OlderUntouched | core/mem/arena_checkpoint.c:61-94 | in every run that stays inside a checkpoint nothing older changes |
| Arena.RollbackRestores | core/mem/arena_checkpoint.c:61-94 | rolling back after any such run restores the stack and the open checkpoints, also when the checkpoint lies beyond the capacity |
| ArenaSlot.Slot.AllocPayload | core/mem/arena_checkpoint.c:139-174 | a block on top of the stack, or 0 exactly when it does not fit; the whole new stack is stated |
| ArenaSlot.Slot.FreeBlock | core/mem/arena_checkpoint.c:176-203 | the block dies, and dead blocks are popped while they are on top; an address that is no payload changes no stack |
| ArenaSlot.Slot.Restore | core/mem/arena_checkpoint.c:46-58 | succeeds exactly for the same generation within the capacity; offset and top go back, and if the older blocks are still there they are the stack again |
| ArenaSlot.Heap.Create | core/mem/arena.c:80-121 | the lowest free slot, or -1 exactly for a bad size, no memory or no slot; no open checkpoint refers to the new arena |
| ArenaSlot.Heap.Destroy | core/mem/arena.c:200-244 | exactly a live arena goes, and the open checkpoints of the others stay intact |
| ArenaSlot.Heap.Reset | core/mem/arena.c:165-198 | a live arena is emptied; the open checkpoints stay intact if and only if none of that arena has blocks |
| ArenaSlot.Heap.AllocPayload | core/mem/arena_checkpoint.c:139-174 | a block on top of one arena, or 0 exactly when there is no such arena or no room; open checkpoints stay intact |
| ArenaSlot.Heap.Checkpoint | core/mem/arena_checkpoint.c:61-78 | one more checkpoint, or -1 exactly for a dead arena, a bad number or a full stack; all open checkpoints stay intact |
| ArenaSlot.Heap.Rollback | core/mem/arena_checkpoint.c:80-94 | offset and top of the innermost checkpoint return and no other arena changes; if the open checkpoints are intact the blocks are back and the remaining checkpoints are intact |
| ArenaSlot.Heap.FreePayload | core/mem/arena_checkpoint.c:176-203 | the payload is freed in the one arena that holds the address, any other address changes no stack; open checkpoints stay intact if the block is younger |
| Probing.ProbesDiffer | core/str/str_intern.c:76-83 | triangular steps visit different slots in a table of a power of two |
| Probing.ProbeEnds | core/str/str_intern.c:76-83 | so a probe that has seen only filled slots has not gone round the table |
| Intern.Hash | core/str/str_intern.c:71-72 | the 32-bit FNV hash, wrapping |
| Intern.KnownHashes | core/str/str_intern.c:71-72 | its published values for the empty string and for one letter |
| Intern.Interner.Probe | core/str/str_intern.c:75-84 | the loop ends and finds the entry with the text, or the first empty slot |
| Intern.Interner.InternBytes | core/str/str_intern.c:68-126 | an interned text keeps its address, any other gets one, also when the slab is full; nothing interned before changes |
| Intern.Interner.ByteSlice | core/str/str_intern.c:132-140 | an address that holds exactly the bytes between the two positions cut to the string, exactly for at most 1024 bytes |
| Intern.LookupText | core/str/str_intern.c:68-126 | an address found for a text holds exactly that text |
| Intern.SameAddress | core/str/str_intern.c:68-126 | whatever is interned later, by this thread or others, the address and the characters at it stay |
| Intern.FullTable | core/str/str_intern.c:85-96 | once the slab is full it never changes |
| Lists.Heap.Alloc | core/list/list_alloc.c:20-54 | a buffer with one count, charged to the quota unless the arena has it; no result exactly when the quota would be exceeded |
| Lists.Heap.AllocBytes | core/mem/alloc.c:34-47 | the quota rises by what is granted and saturates; what was within the quota stays within it |
| Lists.Heap.FreeBytes | core/mem/alloc.c:53-62 | the quota falls by the amount unless that is more than all of it; the exact condition under which lists then exceed it |
| Lists.Heap.Retain | core/list/list_atomic.c:25-41 | one more handle, no view changes; the count is missing exactly when it was at its limit |
| Lists.Heap.Release | core/list/list_atomic.c:43-57 | the last handle frees the buffer and takes its bytes off the quota; no other view changes; beyond the guards the count stays and is lost |
| Lists.Heap.Push | core/list/list.c:62-85 | one element more; in place exactly when the buffer is owned and has room; every other view stays but for the arena aliases that the contract names |
| Lists.Heap.SetAt | core/list/list_set.c:11-36 | one element replaced; only the argument's own view may change with it, exactly when the buffer is owned |
| Lists.Heap.Get | core/list/list.c:87-101 | the element, or the end of the process exactly outside the list |
| Lists.Heap.Equal | core/list/list_set.c:73-80 | true exactly for equal sequences |
| Lists.Heap.PushRelease | core/list/list_slice.c:25-27 | push and release of the old handle leave one handle on the longer list, and no count is lost within the guards |
| Lists.Heap.Slice | core/list/list_slice.c:19-31 | the elements between the two bounds cut to the list, of every length; all older buffers untouched, and within the guards nothing lost |
| Lists.OwnedMeans | core/list/list.c:51-55 | a write happens in place exactly when the arena has the buffer or its only reference, lost counts included, is this handle |
| Lists.OwnedAlone | core/list/list.c:51-55 | a count of one outside the arena means that no other handle sees the buffer, lost counts included |
| Lists.ArenaAliasing | core/list/list.c:66-70 | two handles on one arena buffer of which a push through the shorter changes the longer |
| GpuPool.SizeToBin | hw/gpu/gpu/gpu.c:102-110 | the smallest power-of-two class that fits |
| GpuPool.Pool.Alloc | hw/gpu/gpu/gpu_pool.c:25-99 | the lowest free handle on a block of the smallest class that fits; 0 exactly for a bad size, no runtime, a full table or no memory; the whole new pool and the driver's memory are stated, and no buffer in use changes |
| GpuPool.Pool.Free | hw/gpu/gpu/gpu_pool.c:101-131 | succeeds exactly for a buffer without copies in flight, whose memory goes back to the driver once |
| GpuPool.Pool.CopyAsync | hw/gpu/gpu/gpu_mem.c:82-138 | starts exactly when buffer, size, stream and a slot allow it and the driver accepts; the block is held until then |
| GpuPool.Pool.ClearStream | hw/gpu/gpu/gpu_stream.c:103-112 | exactly the slots of the stream become idle, and no block changes but for its count |
| GpuPool.Pool.StreamSync | hw/gpu/gpu/gpu_stream.c:82-116 | afterwards no copy of the stream is pending |
| GpuPool.Pool.StreamDestroy | hw/gpu/gpu/gpu_stream.c:42-80 | the stream goes with its pending copies, or nothing changes |
| GpuPool.Pool.Sync | hw/gpu/gpu/gpu.c:211-253 | afterwards no copy is pending |
| GpuPool.Pool.Purge | hw/gpu/gpu/gpu_pool.c:159-216 | everything is given back exactly when the driver succeeds and no buffer is in use; otherwise nothing but pending copies goes |
| Seccomp.CodeDecides | sec/cap/cap.c:104-157 | wherever the code of rules stands in a program, running it gives the verdict of the first rule for the call |
| Seccomp.FilterMeansPolicy | sec/cap/cap.c:83-157 | for every architecture, call and arguments the emitted program ends with exactly the verdict of the policy |
| Seccomp.Monotone | sec/cap/cap.c:178-199 | more capabilities never turn an allowed call into a refused one |
| Seccomp.ProgramsMonotone | sec/cap/cap.c:83-199 | so the program emitted for a larger mask allows every call that the one for a smaller mask allows |
| Seccomp.ProgramEnforces | sec/cap/cap.c:83-199 | for every call: which bits of the mask and of the flags allow it, kill it or answer that it does not exist, each as a number |
| Seccomp.CapfInstall | sec/cap/cap.c:83-157 | the buffer holds the program of the rules, in at most 36 of its 64 instructions |
| Seccomp.SandInstall | sec/landlock/sandbox/sandbox_config.c:143-199 | the older builder emits the same program as the newer one with writing allowed |
| Seccomp.CapFilter.Apply | sec/cap/cap.c:178-210 | the first success since a drop installs a program that enforces the bits of the mask on every call; later requests succeed and change nothing; a failure stays off |

## Left out

- End-to-end signing and verification as single programs: the retry loop of signing, the hash of the packed high parts and the comparison at the end; the row theorems stop before the hash.
- Rejection sampling of matrix entries and secrets from hash output: the sampled matrix is an arbitrary function of its seed, secrets are arbitrary polynomials in range.
- The hash functions inside ML-KEM and ML-DSA, AES and the ChaCha block are arbitrary functions; the sponge is modelled on its own.
- SHA-2, MD5, SHA-1, the AES tables and the ChaCha quarter round.
- The packing of whole ML-DSA keys, beyond the polynomials in them, and the four-bit packing of high parts.
- Two-dimensional local arrays of K-PKE are sequences of polynomials, and noise is sampled and transformed one polynomial at a time; const operands of its polynomial functions are passed as values.
- Key generation, signing and verification of ML-DSA are stated for one row; the rows share no array that is written.
- Products of 32-bit words that exceed 32 bits in the Montgomery reductions, and the doubling in the norm check, are two's-complement wraps.
- Checks for null pointers and negative lengths in the text interfaces, and wiping of secrets.
- MlDsaChallenge.DPolyChallenge: a stream that ends early is reported; the source draws from a fixed buffer without that check.
- Memory-order fences and weak memory: atomic accesses are sequentially consistent.
- Static control blocks, which no operation counts.
- The arena's raw bump path, and payloads that overwrite the headers of popped blocks.
- ArenaSlot.Heap.FreePayload: an address has a header exactly when one was written 64 bytes below it since the arena was created or reset; the source looks for a magic word there, and for the first 64 bytes of an arena reads before it.
- ArenaSlot.Heap.Rollback: after an older block was freed only offset and top are stated, not which blocks the headers then spell out.
- Generations of arenas are unbounded numbers.
- Reference counts of the strings in string lists, float lists and nested lists.
- Interleavings of threads inside one list operation, and the retain and release around reading an element.
- Where a list operation ends the process, the model has no result.
- Interleavings inside one GPU call: each call is one step. The total of memory ever allocated is not tracked, and allocating the block record always succeeds.
- Synchronous copies, GPU events and stream creation.
- GpuPool.Pool.Alloc: the driver's answer is a parameter, so is every other driver result.
- The longer slices that are copied to the heap; oo_byte_slice_orig is not part of this model.
- Exhaustion of memory in the interner, which ends the process.
- Fallbacks of the kernel interface when installing a filter: the kernel's answer is a parameter. Builds without an architecture constant.
- The wrappers for sealing and opening that report an empty plaintext as an error.
- Sockets, TLS, the terminal interface, environment, dynamic loading, GPU kernels, Landlock rules, audio, entropy and token storage.
- Timing.
