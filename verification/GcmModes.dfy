/** GHASH and counter mode of AES-GCM, and the stream encryption it shares with ChaCha20. */
module GcmModes {
  import opened Bits
  import opened Radix
  import opened Gf128
  import opened Gcm

  type Bytes = seq<Byte>
  type Block16 = b: Bytes | |b| == 16 witness seq(16, _ => 0)

  // ----- blocks back from polynomials -----

  function ByteOf(c: Poly, i: nat): (b: Byte)
    requires |c| == 128 && i < 16
  {
    Bit(c[8 * i]) * 128 + Bit(c[8 * i + 1]) * 64 + Bit(c[8 * i + 2]) * 32 + Bit(c[8 * i + 3]) * 16
    + Bit(c[8 * i + 4]) * 8 + Bit(c[8 * i + 5]) * 4 + Bit(c[8 * i + 6]) * 2 + Bit(c[8 * i + 7])
  }

  function Bit(b: bool): nat {
    if b then 1 else 0
  }

  /** The block with the given coefficients. */
  function BlockOf(c: Poly): (b: Block16)
    requires |c| == 128
  {
    seq(16, (i: nat) requires i < 16 => ByteOf(c, i))
  }

  lemma ByteFromBits(b: Byte)
    ensures b == Bit(BitAt(b, 0)) * 128 + Bit(BitAt(b, 1)) * 64 + Bit(BitAt(b, 2)) * 32 + Bit(BitAt(b, 3)) * 16
            + Bit(BitAt(b, 4)) * 8 + Bit(BitAt(b, 5)) * 4 + Bit(BitAt(b, 6)) * 2 + Bit(BitAt(b, 7))
  {
    hide BitAt, Bit;
    assert b == Bit(BitAt(b, 7)) + 2 * (Bit(BitAt(b, 6)) + 2 * (Bit(BitAt(b, 5)) + 2 * (Bit(BitAt(b, 4)) + 2 * (b / 0x10)))) by {
      LowNibble(b);
    }
    assert b / 0x10 == Bit(BitAt(b, 3)) + 2 * (Bit(BitAt(b, 2)) + 2 * (Bit(BitAt(b, 1)) + 2 * Bit(BitAt(b, 0)))) by {
      HighNibble(b);
    }
  }

  lemma LowNibble(b: Byte)
    ensures b == Bit(BitAt(b, 7)) + 2 * (Bit(BitAt(b, 6)) + 2 * (Bit(BitAt(b, 5)) + 2 * (Bit(BitAt(b, 4)) + 2 * (b / 0x10))))
  {
    Halves(b, 8);
    Halves(b, 4);
    Halves(b, 2);
    Halves(b, 1);
  }

  lemma HighNibble(b: Byte)
    ensures b / 0x10 == Bit(BitAt(b, 3)) + 2 * (Bit(BitAt(b, 2)) + 2 * (Bit(BitAt(b, 1)) + 2 * Bit(BitAt(b, 0))))
  {
    Halves(b, 64);
    Halves(b, 32);
    Halves(b, 16);
    assert b / 128 == Bit(BitAt(b, 0));
  }

  lemma Halves(b: Byte, w: nat)
    requires w in {64, 32, 16, 8, 4, 2, 1}
    ensures b / w == 2 * (b / (2 * w)) + Bit(BitOf(b, w))
  {
    if w == 64 {
    } else if w == 32 {
    } else if w == 16 {
    } else if w == 8 {
    } else if w == 4 {
    } else if w == 2 {
    } else {
    }
  }

  /** A block is determined by its coefficients. */
  lemma BlockOfCoefficients(b: Block16)
    ensures BlockOf(Coefficients(b)) == b
  {
    hide BitAt;
    forall i | 0 <= i < 16 ensures BlockOf(Coefficients(b))[i] == b[i] {
      ByteFromBits(b[i]);
      BitsOfByte(b, i);
    }
  }

  lemma BitsOfByte(b: Block16, i: nat)
    requires i < 16
    ensures forall j :: 0 <= j < 8 ==> Coefficients(b)[8 * i + j] == BitAt(b[i], j)
  {
    hide BitAt;
    forall j | 0 <= j < 8 ensures Coefficients(b)[8 * i + j] == BitAt(b[i], j) {
      assert (8 * i + j) / 8 == i && (8 * i + j) % 8 == j;
    }
  }

  // ----- GHASH -----

  /** Horner's rule at h. */
  function HashBlocks(h: Poly, bs: seq<Poly>): (y: Poly)
    requires |h| == 128 && forall i :: 0 <= i < |bs| ==> |bs[i]| == 128
    ensures |y| == 128
  {
    if bs == [] then Zeros(128) else Times(Sum(HashBlocks(h, bs[..|bs| - 1]), bs[|bs| - 1]), h)
  }

  /** c times h, n times over. */
  function TimesPower(c: Poly, h: Poly, n: nat): (y: Poly)
    requires |c| == |h| == 128
    ensures |y| == 128
  {
    if n == 0 then c else Times(TimesPower(c, h, n - 1), h)
  }

  /** The sum of block i times h^(n-i). */
  function PowerSum(h: Poly, bs: seq<Poly>, n: nat): (y: Poly)
    requires |h| == 128 && |bs| <= n && forall i :: 0 <= i < |bs| ==> |bs[i]| == 128
    ensures |y| == 128
  {
    if bs == [] then Zeros(128)
    else Sum(PowerSum(h, bs[..|bs| - 1], n), TimesPower(bs[|bs| - 1], h, n - (|bs| - 1)))
  }

  lemma {:induction false} PowerSumTimes(h: Poly, bs: seq<Poly>, n: nat)
    requires |h| == 128 && |bs| <= n && forall i :: 0 <= i < |bs| ==> |bs[i]| == 128
    ensures PowerSum(h, bs, n + 1) == Times(PowerSum(h, bs, n), h)
    decreases |bs|
  {
    hide Times;
    if bs == [] {
      TimesZeros(h);
    } else {
      var m := |bs| - 1;
      PowerSumTimes(h, bs[..m], n);
      TimesSum(PowerSum(h, bs[..m], n), TimesPower(bs[m], h, n - m), h);
    }
  }

  lemma TimesZeros(h: Poly)
    requires |h| == 128
    ensures Times(Zeros(128), h) == Zeros(128)
  {
    hide Times;
    var z := Zeros(128);
    assert Sum(z, z) == z;
    TimesSum(z, z, h);
    assert Sum(Times(z, h), Times(z, h)) == Zeros(128);
  }

  /** GHASH is the polynomial with the blocks as coefficients, evaluated at h. */
  lemma {:induction false} HashIsPowerSum(h: Poly, bs: seq<Poly>)
    requires |h| == 128 && forall i :: 0 <= i < |bs| ==> |bs[i]| == 128
    ensures HashBlocks(h, bs) == PowerSum(h, bs, |bs|)
    decreases |bs|
  {
    hide Times;
    if bs != [] {
      var m := |bs| - 1;
      HashIsPowerSum(h, bs[..m]);
      PowerSumTimes(h, bs[..m], m);
      TimesSum(HashBlocks(h, bs[..m]), bs[m], h);
      assert TimesPower(bs[m], h, 1) == Times(TimesPower(bs[m], h, 0), h);
    }
  }

  function BlockCount(s: Bytes): (n: nat) {
    (|s| + 15) / 16
  }

  /** The bytes of block i, zeros after the end. */
  function Padded(s: Bytes, i: nat): (b: Block16)
    requires i < BlockCount(s)
  {
    seq(16, (k: nat) requires k < 16 => if 16 * i + k < |s| then s[16 * i + k] else 0)
  }

  function PaddedBlocks(s: Bytes, n: nat): (bs: seq<Poly>)
    requires n <= BlockCount(s)
    ensures |bs| == n && forall i :: 0 <= i < n ==> |bs[i]| == 128
  {
    seq(n, (i: nat) requires i < n => Coefficients(Padded(s, i)))
  }

  /** A 64-bit word, most significant byte first. */
  function BigEndian64(x: nat): (b: Bytes)
    ensures |b| == 8
  {
    var d: Bytes := Digits(0x100, x, 8);
    seq(8, (i: nat) requires i < 8 => d[7 - i])
  }

  /** The bit lengths of the two strings, as 64-bit words. */
  function LengthBlock(a: Bytes, c: Bytes): Block16 {
    BigEndian64(8 * |a| % 0x1_0000_0000_0000_0000) + BigEndian64(8 * |c| % 0x1_0000_0000_0000_0000)
  }

  /** The hash of section 6.4 over the padded associated data, the padded ciphertext and the length block. */
  function Ghash(h: Block16, a: Bytes, c: Bytes): (y: Poly)
    ensures |y| == 128
  {
    HashBlocks(Coefficients(h), PaddedBlocks(a, BlockCount(a)) + PaddedBlocks(c, BlockCount(c)) + [Coefficients(LengthBlock(a, c))])
  }

  /** y = (y ^ b) * h. */
  method HashBlock(y: array<Byte>, b: Block16, h: Block16, ghost bs: seq<Poly>)
    requires y.Length == 16 && (forall i :: 0 <= i < |bs| ==> |bs[i]| == 128)
    requires Coefficients(y[..]) == HashBlocks(Coefficients(h), bs)
    modifies y
    ensures Coefficients(y[..]) == HashBlocks(Coefficients(h), bs + [Coefficients(b)])
  {
    hide Coefficients, Times;
    XorBlock(y, b);
    var x := y[..];
    GfMult(x, h, y);
    assert (bs + [Coefficients(b)])[..|bs|] == bs;
  }

  method HashString(y: array<Byte>, s: Bytes, h: Block16, ghost bs: seq<Poly>)
    requires y.Length == 16 && (forall i :: 0 <= i < |bs| ==> |bs[i]| == 128)
    requires Coefficients(y[..]) == HashBlocks(Coefficients(h), bs)
    modifies y
    ensures Coefficients(y[..]) == HashBlocks(Coefficients(h), bs + PaddedBlocks(s, BlockCount(s)))
  {
    hide Coefficients, HashBlocks;
    var off := 0;
    ghost var i := 0;
    assert bs + PaddedBlocks(s, 0) == bs;
    while off < |s|
      invariant off == 16 * i && i <= BlockCount(s)
      invariant Coefficients(y[..]) == HashBlocks(Coefficients(h), bs + PaddedBlocks(s, i))
    {
      var n := if |s| - off > 16 then 16 else |s| - off;
      var blk := s[off..off + n] + seq(16 - n, _ => 0);
      assert blk == Padded(s, i);
      HashBlock(y, blk, h, bs + PaddedBlocks(s, i));
      assert (bs + PaddedBlocks(s, i)) + [Coefficients(Padded(s, i))] == bs + PaddedBlocks(s, i + 1);
      off := off + 16;
      i := i + 1;
    }
  }

  method GcmGhash(h: Block16, a: Bytes, c: Bytes) returns (y: array<Byte>)
    ensures fresh(y) && y.Length == 16 && y[..] == BlockOf(Ghash(h, a, c))
  {
    hide Coefficients, HashBlocks, LengthBlock, BlockOf;
    y := new Byte[16](_ => 0);
    EmptyHash(y[..], h);
    HashString(y, a, h, []);
    assert [] + PaddedBlocks(a, BlockCount(a)) == PaddedBlocks(a, BlockCount(a));
    HashString(y, c, h, PaddedBlocks(a, BlockCount(a)));
    var blk := LengthBlockBytes(8 * |a| % 0x1_0000_0000_0000_0000, 8 * |c| % 0x1_0000_0000_0000_0000);
    assert blk == LengthBlock(a, c) by { LengthBlockIs(a, c, blk); }
    HashBlock(y, blk, h, PaddedBlocks(a, BlockCount(a)) + PaddedBlocks(c, BlockCount(c)));
    BlockOfCoefficients(y[..]);
  }

  lemma EmptyHash(z: Block16, h: Block16)
    requires forall i :: 0 <= i < 16 ==> z[i] == 0
    ensures Coefficients(z) == HashBlocks(Coefficients(h), [])
  {
    ZeroBlock(z);
  }

  lemma LengthBlockIs(a: Bytes, c: Bytes, blk: Bytes)
    requires blk == BigEndian64(8 * |a| % 0x1_0000_0000_0000_0000) + BigEndian64(8 * |c| % 0x1_0000_0000_0000_0000)
    ensures blk == LengthBlock(a, c)
  {
  }

  method LengthBlockBytes(ab: nat, cb: nat) returns (b: Block16)
    ensures b == BigEndian64(ab) + BigEndian64(cb)
  {
    var x := StoreBigEndian(ab);
    var y := StoreBigEndian(cb);
    b := x + y;
  }

  /** blk[7 - i] = (uint8_t)(x >> (8 * i)). */
  method StoreBigEndian(x: nat) returns (b: Bytes)
    ensures b == BigEndian64(x)
  {
    hide DigitAt, Digits, Pow, IsPowerOfTwo;
    var out := new Byte[8];
    var i, weight := 0, 1;
    assert Pow(0x100, 0) == 1 by { WeightStep(0); }
    assert IsPowerOfTwo(0x100) by { ByteIsPower(); }
    while i < 8
      invariant 0 <= i <= 8 && weight == Pow(0x100, i) > 0
      invariant forall k :: 0 <= k < i ==> out[7 - k] == Digits(0x100, x, 8)[k]
    {
      DigitOf(0x100, x, i, 8);
      out[7 - i] := DigitAt(0x100, x, weight);
      WeightStep(i + 1);
      weight := 0x100 * weight;
      i := i + 1;
    }
    b := out[..];
    forall k | 0 <= k < 8 ensures b[k] == BigEndian64(x)[k] {
      assert out[7 - (7 - k)] == Digits(0x100, x, 8)[7 - k];
    }
  }

  lemma WeightStep(n: nat)
    ensures Pow(0x100, n) == if n == 0 then 1 else 0x100 * Pow(0x100, n - 1)
  {
  }

  // ----- stream encryption -----

  function Xored(s: Bytes, key: Bytes): (t: Bytes)
    requires |key| == |s|
    ensures |t| == |s|
  {
    seq(|s|, (p: nat) requires p < |s| => XorByte(s[p], key[p]))
  }

  /** Decryption is encryption again. */
  lemma XoredTwice(s: Bytes, key: Bytes)
    requires |key| == |s|
    ensures Xored(Xored(s, key), key) == s
  {
    forall p | 0 <= p < |s| ensures Xored(Xored(s, key), key)[p] == s[p] {
      XorTwice(s[p], key[p]);
    }
  }

  // ----- counter mode -----

  /** The 32-bit counter in the last four bytes. */
  function Counter(b: Block16): (n: nat)
    ensures n < 0x1_0000_0000
  {
    ((b[12] as int * 0x100 + b[13]) * 0x100 + b[14]) * 0x100 + b[15]
  }

  function BigEndian32(n: nat): (b: Bytes)
    requires n < 0x1_0000_0000
    ensures |b| == 4
  {
    [n / 0x100_0000, n / 0x1_0000 % 0x100, n / 0x100 % 0x100, n % 0x100]
  }

  /** The counter block k steps on: only the last 32 bits count, and they wrap. */
  function CounterBlock(icb: Block16, k: nat): (b: Block16)
    ensures b[..12] == icb[..12] && Counter(b) == (Counter(icb) + k) % 0x1_0000_0000
  {
    var n := (Counter(icb) + k) % 0x1_0000_0000;
    CounterOf(n);
    icb[..12] + BigEndian32(n)
  }

  lemma CounterOf(n: nat)
    requires n < 0x1_0000_0000
    ensures ((n / 0x100_0000 * 0x100 + n / 0x1_0000 % 0x100) * 0x100 + n / 0x100 % 0x100) * 0x100 + n % 0x100 == n
  {
  }

  lemma CounterDigits(b: Block16)
    ensures BigEndian32(Counter(b)) == b[12..]
  {
    var n := Counter(b);
    assert n / 0x100 == (b[12] as int * 0x100 + b[13]) * 0x100 + b[14];
    assert n / 0x1_0000 == b[12] as int * 0x100 + b[13];
    assert n / 0x100_0000 == b[12];
  }

  lemma FirstCounter(icb: Block16)
    ensures CounterBlock(icb, 0) == icb
  {
    CounterDigits(icb);
    assert icb == icb[..12] + icb[12..];
  }

  lemma NextCounter(icb: Block16, k: nat)
    ensures CounterBlock(CounterBlock(icb, k), 1) == CounterBlock(icb, k + 1)
  {
    CounterSteps(Counter(icb), k);
  }

  lemma CounterSteps(c: nat, k: nat)
    ensures ((c + k) % 0x1_0000_0000 + 1) % 0x1_0000_0000 == (c + (k + 1)) % 0x1_0000_0000
  {
  }

  /** The key stream: counter blocks, encrypted. */
  function CounterStream(aes: Bytes -> Block16, icb: Block16, n: nat): (s: Bytes)
    ensures |s| == n
  {
    seq(n, (p: nat) requires p < n => aes(CounterBlock(icb, p / 16))[p % 16])
  }

  /** The big-endian load of the counter. */
  function LoadCounter(b: Block16): (n: nat)
    ensures n == Counter(b)
  {
    PowerProduct(0x1000, 0x1000);
    Join(Join(Join(b[15], b[14], 0x100), b[13], 0x1_0000), b[12], 0x100_0000)
  }

  method GcmInc32(b: array<Byte>)
    requires b.Length == 16
    modifies b
    ensures b[..] == CounterBlock(old(b[..]), 1)
  {
    hide LoadCounter, Counter;
    ghost var was := b[..];
    var n := (LoadCounter(b[..]) + 1) % 0x1_0000_0000;
    var d := BigEndian32(n);
    b[12], b[13], b[14], b[15] := d[0], d[1], d[2], d[3];
    assert b[..12] == was[..12];
    assert b[..] == b[..12] + d;
  }

  method GcmGctr(aes: Bytes -> Block16, icb: Block16, x: Bytes) returns (out: array<Byte>)
    ensures fresh(out) && out[..] == Xored(x, CounterStream(aes, icb, |x|))
  {
    hide CounterBlock, XorByte;
    ghost var key := CounterStream(aes, icb, |x|);
    out := new Byte[|x|];
    var cb := new Byte[16](k requires 0 <= k < 16 => icb[k]);
    var off := 0;
    ghost var k := 0;
    assert cb[..] == icb;
    FirstCounter(icb);
    while off < |x|
      invariant off == (if 16 * k <= |x| then 16 * k else |x|) && (off < |x| ==> 16 * k < |x|)
      invariant cb[..] == CounterBlock(icb, k)
      invariant forall p :: 0 <= p < off ==> out[p] == XorByte(x[p], key[p])
    {
      var left := if |x| - off > 16 then 16 else |x| - off;
      var block := aes(cb[..]);
      XorChunk(x, key, block, off, left, k, out, aes, icb);
      NextCounter(icb, k);
      GcmInc32(cb);
      off := off + left;
      k := k + 1;
    }
    assert out[..] == Xored(x, key);
  }

  method XorChunk(x: Bytes, ghost key: Bytes, block: Block16, off: nat, left: nat, ghost k: nat, out: array<Byte>,
                  ghost aes: Bytes -> Block16, ghost icb: Block16)
    requires out.Length == |x| && off == 16 * k && left <= 16 && off + left <= |x|
    requires key == CounterStream(aes, icb, |x|) && block == aes(CounterBlock(icb, k))
    requires forall p :: 0 <= p < off ==> out[p] == XorByte(x[p], key[p])
    modifies out
    ensures forall p :: 0 <= p < off + left ==> out[p] == XorByte(x[p], key[p])
  {
    hide CounterBlock, XorByte;
    var i := 0;
    while i < left
      invariant 0 <= i <= left
      invariant forall p :: 0 <= p < off + i ==> out[p] == XorByte(x[p], key[p])
    {
      assert (off + i) / 16 == k && (off + i) % 16 == i;
      out[off + i] := XorByte(x[off + i], block[i]);
      i := i + 1;
    }
  }
}
