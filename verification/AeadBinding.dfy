/** What the tag of both schemes is over: every byte of the associated data and of the ciphertext, each at its place. */
module AeadBinding {
  import opened Bits
  import opened Hex
  import opened Radix
  import opened Gf128
  import opened Gcm
  import opened GcmModes
  import opened Aead
  import Poly1305

  const TWO64 := 0x1_0000_0000_0000_0000

  // ----- the authenticated string -----

  /** The next multiple of 16. */
  function Up(n: nat): (m: nat)
    ensures n <= m < n + 16
  {
    16 * ((n + 15) / 16)
  }

  /** m holds a, then c from the next multiple of 16, both padded with zeros to whole blocks, and one block more. */
  ghost predicate Layout(m: Bytes, a: Bytes, c: Bytes) {
    && |m| == Up(|a|) + Up(|c|) + 16
    && m[..|a|] == a && (forall i :: |a| <= i < Up(|a|) ==> m[i] == 0)
    && m[Up(|a|)..Up(|a|) + |c|] == c && forall i :: Up(|a|) + |c| <= i < |m| - 16 ==> m[i] == 0
  }

  /** The last block is both lengths, each a little-endian word of 64 bits. */
  ghost predicate EndsInLengths(m: Bytes, a: Bytes, c: Bytes)
    requires |m| >= 16
  {
    Number(0x100, m[|m| - 16..]) == |a| % TWO64 + TWO64 * (|c| % TWO64)
  }

  lemma LayoutUnique(m: Bytes, n: Bytes, a: Bytes, c: Bytes)
    requires Layout(m, a, c) && Layout(n, a, c) && m[|m| - 16..] == n[|n| - 16..]
    ensures m == n
  {
    hide Up;
    forall i | 0 <= i < |m| ensures m[i] == n[i] {
      if i < |m| - 16 {
        LayoutAt(m, a, c, i);
        LayoutAt(n, a, c, i);
      } else {
        assert m[|m| - 16..][i - (|m| - 16)] == n[|n| - 16..][i - (|n| - 16)];
      }
    }
  }

  lemma LayoutAt(m: Bytes, a: Bytes, c: Bytes, i: nat)
    requires Layout(m, a, c) && i < |m| - 16
    ensures m[i] == if i < |a| then a[i] else if i < Up(|a|) then 0 else if i < Up(|a|) + |c| then c[i - Up(|a|)] else 0
  {
    hide Up;
    assert i < |a| ==> m[..|a|][i] == a[i];
    assert Up(|a|) <= i < Up(|a|) + |c| ==> m[Up(|a|)..Up(|a|) + |c|][i - Up(|a|)] == c[i - Up(|a|)];
  }

  /** The authenticated string of ChaCha20-Poly1305 is exactly the one of this layout and these lengths. */
  lemma MacInputIs(m: Bytes, a: Bytes, c: Bytes)
    ensures m == MacInput(a, c) <==> Layout(m, a, c) && EndsInLengths(m, a, c)
  {
    hide EndsInLengths, MacInput, Up;
    MacInputLayout(a, c);
    if Layout(m, a, c) && EndsInLengths(m, a, c) {
      var w := MacInput(a, c);
      SameLengths(m, w, a, c);
      LayoutUnique(m, w, a, c);
    }
  }

  lemma SameLengths(m: Bytes, n: Bytes, a: Bytes, c: Bytes)
    requires |m| >= 16 && |n| >= 16 && EndsInLengths(m, a, c) && EndsInLengths(n, a, c)
    ensures m[|m| - 16..] == n[|n| - 16..]
  {
    hide Digits, Number;
    DigitsOfNumber(0x100, m[|m| - 16..]);
    DigitsOfNumber(0x100, n[|n| - 16..]);
  }

  lemma Filled(n: nat)
    ensures n + Fill(n) == Up(n)
  {
  }

  lemma MacInputLayout(a: Bytes, c: Bytes)
    ensures Layout(MacInput(a, c), a, c) && EndsInLengths(MacInput(a, c), a, c)
  {
    hide Up, Fill, Digits, EndsInLengths;
    Filled(|a|);
    Filled(|c|);
    var lens := Digits(0x100, |a| % TWO64, 8) + Digits(0x100, |c| % TWO64, 8);
    var m := MacInput(a, c);
    assert m == a + ZeroBytes(Fill(|a|)) + c + ZeroBytes(Fill(|c|)) + lens;
    assert m[|m| - 16..] == lens;
    LengthsNumber(|a| % TWO64, |c| % TWO64);
    assert EndsInLengths(m, a, c) by { EndsSo(m, a, c, lens); }
  }

  lemma EndsSo(m: Bytes, a: Bytes, c: Bytes, lens: Bytes)
    requires |m| >= 16 && m[|m| - 16..] == lens && Number(0x100, lens) == |a| % TWO64 + TWO64 * (|c| % TWO64)
    ensures EndsInLengths(m, a, c)
  {
  }

  lemma LengthsNumber(x: nat, y: nat)
    requires x < TWO64 && y < TWO64
    ensures Number(0x100, Digits(0x100, x, 8) + Digits(0x100, y, 8)) == x + TWO64 * y
  {
    hide Digits, Number, Pow;
    assert Pow(0x100, 8) == TWO64 by { EightBytes(); }
    NumberAppend(0x100, Digits(0x100, x, 8), Digits(0x100, y, 8));
    NumberOfDigits(0x100, x, 8);
    NumberOfDigits(0x100, y, 8);
  }

  lemma EightBytes()
    ensures Pow(0x100, 8) == TWO64
  {
  }

  /** It determines the associated data and the ciphertext. */
  lemma MacInputInjective(a: Bytes, c: Bytes, b: Bytes, d: Bytes)
    requires |a| < TWO64 && |c| < TWO64 && |b| < TWO64 && |d| < TWO64 && MacInput(a, c) == MacInput(b, d)
    ensures a == b && c == d
  {
    hide MacInput, Up;
    MacInputLayout(a, c);
    MacInputLayout(b, d);
    TwoWords(|a|, |c|, |b|, |d|);
  }

  lemma TwoWords(x: nat, y: nat, u: nat, w: nat)
    requires x < TWO64 && y < TWO64 && u < TWO64 && w < TWO64 && x % TWO64 + TWO64 * (y % TWO64) == u % TWO64 + TWO64 * (w % TWO64)
    ensures x == u && y == w
  {
  }

  // ----- the blocks that GHASH takes in -----

  /** The last block is both bit lengths, each a big-endian word of 64 bits. */
  ghost predicate EndsInBitLengths(m: Bytes, a: Bytes, c: Bytes)
    requires |m| >= 16
  {
    Number(0x100, Backwards(m[|m| - 16..])) == 8 * |c| % TWO64 + TWO64 * (8 * |a| % TWO64)
  }

  function Backwards(s: Bytes): (t: Bytes)
    ensures |t| == |s| && forall i :: 0 <= i < |s| ==> t[i] == s[|s| - 1 - i]
  {
    seq(|s|, (i: nat) requires i < |s| => s[|s| - 1 - i])
  }

  /** The polynomials of the blocks of a string. */
  function BlocksOf(s: Bytes): (bs: seq<Poly>)
    ensures |bs| == |s| / 16 && forall i :: 0 <= i < |bs| ==> |bs[i]| == 128
  {
    seq(|s| / 16, (i: nat) requires i < |s| / 16 => Coefficients(s[16 * i..16 * i + 16]))
  }

  /** s with zeros up to whole blocks. */
  function Whole(s: Bytes): (p: Bytes)
    ensures |p| == Up(|s|)
  {
    Filled(|s|);
    s + ZeroBytes(Fill(|s|))
  }

  function GhashInput(a: Bytes, c: Bytes): (m: Bytes)
    ensures |m| == Up(|a|) + Up(|c|) + 16
  {
    Whole(a) + Whole(c) + LengthBlock(a, c)
  }

  lemma GhashInputLayout(a: Bytes, c: Bytes)
    ensures Layout(GhashInput(a, c), a, c) && EndsInBitLengths(GhashInput(a, c), a, c)
  {
    hide Up, Fill, LengthBlock, EndsInBitLengths;
    var m := GhashInput(a, c);
    assert m[|m| - 16..] == LengthBlock(a, c);
    assert EndsInBitLengths(m, a, c) by { BitLengthsNumber(m, a, c); }
  }

  lemma BitLengthsNumber(m: Bytes, a: Bytes, c: Bytes)
    requires |m| >= 16 && m[|m| - 16..] == LengthBlock(a, c)
    ensures EndsInBitLengths(m, a, c)
  {
    hide Digits, Number;
    var x, y := 8 * |a| % TWO64, 8 * |c| % TWO64;
    assert Backwards(LengthBlock(a, c)) == Digits(0x100, y, 8) + Digits(0x100, x, 8);
    LengthsNumber(y, x);
  }

  /** GHASH takes in exactly the blocks of the string of this layout that ends in the bit lengths. */
  lemma GhashInputIs(m: Bytes, h: Block16, a: Bytes, c: Bytes)
    requires Layout(m, a, c) && EndsInBitLengths(m, a, c)
    ensures Ghash(h, a, c) == HashBlocks(Coefficients(h), BlocksOf(m))
  {
    hide EndsInBitLengths, GhashInput, HashBlocks, Coefficients;
    GhashInputLayout(a, c);
    var w := GhashInput(a, c);
    SameBitLengths(m, w, a, c);
    LayoutUnique(m, w, a, c);
    GhashBlocks(a, c);
  }

  lemma SameBitLengths(m: Bytes, n: Bytes, a: Bytes, c: Bytes)
    requires |m| >= 16 && |n| >= 16 && EndsInBitLengths(m, a, c) && EndsInBitLengths(n, a, c)
    ensures m[|m| - 16..] == n[|n| - 16..]
  {
    hide Digits, Number;
    var s, t := m[|m| - 16..], n[|n| - 16..];
    DigitsOfNumber(0x100, Backwards(s));
    DigitsOfNumber(0x100, Backwards(t));
    assert s == Backwards(Backwards(s)) && t == Backwards(Backwards(t));
  }

  lemma GhashBlocks(a: Bytes, c: Bytes)
    ensures BlocksOf(GhashInput(a, c)) == PaddedBlocks(a, BlockCount(a)) + PaddedBlocks(c, BlockCount(c)) + [Coefficients(LengthBlock(a, c))]
  {
    hide Coefficients, LengthBlock, Whole;
    var l, n := LengthBlock(a, c), BlockCount(a);
    BlocksOfWhole(a);
    BlocksOfWhole(c);
    BlocksAppend(Whole(a), Whole(c), n);
    BlocksAppend(Whole(a) + Whole(c), l, n + BlockCount(c));
    OneBlock(l);
  }

  lemma OneBlock(b: Block16)
    ensures BlocksOf(b) == [Coefficients(b)]
  {
    assert b[16 * 0..16 * 0 + 16] == b;
  }

  lemma BlocksOfWhole(s: Bytes)
    ensures BlocksOf(Whole(s)) == PaddedBlocks(s, BlockCount(s))
  {
    hide Coefficients, Fill;
    Filled(|s|);
    var p := Whole(s);
    forall i | 0 <= i < BlockCount(s) ensures p[16 * i..16 * i + 16] == Padded(s, i) {
    }
  }

  lemma BlocksAppend(s: Bytes, t: Bytes, m: nat)
    requires |s| == 16 * m
    ensures BlocksOf(s + t) == BlocksOf(s) + BlocksOf(t)
  {
    hide Coefficients;
    forall i | 0 <= i < m + |t| / 16
      ensures BlocksOf(s + t)[i] == (BlocksOf(s) + BlocksOf(t))[i]
    {
      assert (s + t)[16 * i..16 * i + 16] == if i < m then s[16 * i..16 * i + 16] else t[16 * (i - m)..16 * (i - m) + 16];
    }
    assert |s + t| / 16 == m + |t| / 16;
  }

  /** These blocks determine the associated data and the ciphertext. */
  lemma GhashInputInjective(a: Bytes, c: Bytes, b: Bytes, d: Bytes)
    requires 8 * |a| < TWO64 && 8 * |c| < TWO64 && 8 * |b| < TWO64 && 8 * |d| < TWO64
    requires BlocksOf(GhashInput(a, c)) == BlocksOf(GhashInput(b, d))
    ensures a == b && c == d
  {
    hide GhashInput, BlocksOf;
    GhashInputLayout(a, c);
    GhashInputLayout(b, d);
    BlocksDetermine(GhashInput(a, c), GhashInput(b, d), BlockCount(a) + BlockCount(c) + 1, BlockCount(b) + BlockCount(d) + 1);
    TwoWords(8 * |c|, 8 * |a|, 8 * |d|, 8 * |b|);
  }

  lemma BlocksDetermine(s: Bytes, t: Bytes, m: nat, n: nat)
    requires |s| == 16 * m && |t| == 16 * n && BlocksOf(s) == BlocksOf(t)
    ensures s == t
  {
    hide Coefficients, BlockOf;
    assert |BlocksOf(s)| == |BlocksOf(t)|;
    forall p | 0 <= p < |s| ensures s[p] == t[p] {
      var i := p / 16;
      assert BlocksOf(s)[i] == BlocksOf(t)[i];
      BlockOfCoefficients(s[16 * i..16 * i + 16]);
      BlockOfCoefficients(t[16 * i..16 * i + 16]);
      assert s[16 * i..16 * i + 16][p - 16 * i] == t[16 * i..16 * i + 16][p - 16 * i];
    }
  }

  // ----- what the ciphertext and the tag are -----

  /** Byte i of what either scheme encrypts: the plaintext byte with a byte of the key stream, whose blocks are numbered
      from 1 (ChaCha20) and from 2 (AES) on. The blocks with the numbers before those make the tag. */
  lemma CryptByte(s: Scheme, o: Ciphers, key: Bytes, nonce: Bytes, x: Bytes, i: nat)
    requires |nonce| == 12 && i < |x|
    ensures Crypt(s, o, key, nonce, x)[i] == XorByte(x[i],
      if s.AesGcm? then o.aes(key)(nonce + BigEndian32((2 + i / 16) % 0x1_0000_0000))[i % 16]
      else o.chacha(key, nonce, (1 + i / 64) % 0x1_0000_0000)[i % 64])
  {
    hide XorByte, BigEndian32;
    if s.AesGcm? {
      var j0 := InitialCounter(nonce);
      FirstBlocks(nonce, i / 16);
    }
  }

  lemma FirstBlocks(nonce: Bytes, k: nat)
    requires |nonce| == 12
    ensures CounterBlock(CounterBlock(InitialCounter(nonce), 1), k) == nonce + BigEndian32((2 + k) % 0x1_0000_0000)
  {
    hide BigEndian32;
    var b := CounterBlock(InitialCounter(nonce), 1);
    assert b[..12] == nonce;
    assert Counter(InitialCounter(nonce)) == 1;
  }

  /** The tag of ChaCha20-Poly1305 is the one of the authenticated string under the first key stream block. */
  lemma ChaChaTagIs(o: Ciphers, key: Bytes, nonce: Bytes, a: Bytes, c: Bytes, m: Bytes)
    requires |nonce| == 12 && Layout(m, a, c) && EndsInLengths(m, a, c)
    ensures TagOf(ChaChaPoly, o, key, nonce, a, c) == Poly1305.Tag(o.chacha(key, nonce, 0)[..32], m)
  {
    hide Poly1305.Tag, MacInput, Layout, EndsInLengths;
    MacInputIs(m, a, c);
  }

  /** The tag of AES-GCM is GHASH of the layout's blocks under the encrypted zero block, plus the block with number 1. */
  lemma GcmTagIs(o: Ciphers, key: Bytes, nonce: Bytes, a: Bytes, c: Bytes, m: Bytes)
    requires |nonce| == 12 && Layout(m, a, c) && EndsInBitLengths(m, a, c)
    ensures var h := o.aes(key)([0, 0, 0, 0, 0, 0, 0, 0, 0, 0, 0, 0, 0, 0, 0, 0]);
            TagOf(AesGcm, o, key, nonce, a, c)
              == Xored(o.aes(key)(nonce + [0, 0, 0, 1]), GcmModes.BlockOf(HashBlocks(Coefficients(h), BlocksOf(m))))
  {
    hide Xored, HashBlocks, Coefficients, BlocksOf, Ghash, Layout, EndsInBitLengths, GcmModes.BlockOf;
    GhashInputIs(m, HashKey(o, key), a, c);
    assert seq(16, _ => 0) == [0, 0, 0, 0, 0, 0, 0, 0, 0, 0, 0, 0, 0, 0, 0, 0];
  }

  /** A tag made for associated data a and ciphertext c opens others only where the authentication function itself has the
      same value for two different strings. */
  lemma ForgeryNeedsCollision(o: Ciphers, key: Bytes, nonce: Bytes, a: Bytes, c: Bytes, b: Bytes, d: Bytes)
    returns (m: Bytes, n: Bytes)
    requires |nonce| == 12 && |a| < TWO64 && |c| < TWO64 && |b| < TWO64 && |d| < TWO64 && (a != b || c != d)
    requires TagOf(ChaChaPoly, o, key, nonce, a, c) == TagOf(ChaChaPoly, o, key, nonce, b, d)
    ensures m != n && Layout(m, a, c) && Layout(n, b, d)
    ensures Poly1305.Tag(o.chacha(key, nonce, 0)[..32], m) == Poly1305.Tag(o.chacha(key, nonce, 0)[..32], n)
  {
    hide Poly1305.Tag, MacInput;
    m, n := MacInput(a, c), MacInput(b, d);
    MacInputLayout(a, c);
    MacInputLayout(b, d);
    if m == n {
      MacInputInjective(a, c, b, d);
    }
  }
}
