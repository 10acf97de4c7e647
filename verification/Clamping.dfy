/** The clamping of a Poly1305 key, byte by byte as section 2.5 of RFC 8439 tells it. */
module Clamping {
  import opened Bits
  import opened Radix
  import Poly1305

  /** Bytes 3, 7, 11 and 15 lose their top four bits, bytes 4, 8 and 12 their bottom two. */
  function ClampedByte(b: Byte, i: nat): (c: Byte) {
    if i in {3, 7, 11, 15} then b % 16 else if i in {4, 8, 12} then b - b % 4 else b
  }

  function ClampedBytes(s: seq<Byte>): (t: seq<Byte>)
    ensures |t| == |s|
  {
    seq(|s|, (i: nat) requires i < |s| => ClampedByte(s[i], i))
  }

  /** The mask of byte i. */
  function MaskByte(i: nat): (m: Byte) {
    if i in {3, 7, 11, 15} then 0x0f else if i in {4, 8, 12} then 0xfc else 0xff
  }

  lemma MaskIs(b: Byte, i: nat)
    ensures And(b, MaskByte(i)) == ClampedByte(b, i)
  {
    hide And, IsPowerOfTwo;
    Powers();
    if i in {3, 7, 11, 15} {
      AndLow(b, 0x10);
    } else if i in {4, 8, 12} {
      AndSplit(b % 4, b / 4, 0, 63, 4);
      AndNone(b % 4);
      AndLow(b / 4, 0x40);
    } else {
      AndLow(b, 0x100);
    }
  }

  lemma AndNone(a: nat)
    ensures And(a, 0) == 0
  {
  }

  function Masks(i: nat, n: nat): (m: seq<Byte>)
    ensures |m| == n
    decreases n
  {
    if n == 0 then [] else [MaskByte(i)] + Masks(i + 1, n - 1)
  }

  /** A mask of bytes masks each byte. */
  lemma {:induction false} BytesMasked(s: seq<Byte>, i: nat)
    ensures Number(0x100, s) >= 0 && Number(0x100, Masks(i, |s|)) >= 0
    ensures And(Number(0x100, s), Number(0x100, Masks(i, |s|))) == Number(0x100, From(s, i))
    decreases |s|
  {
    hide And, IsPowerOfTwo;
    if s == [] {
      assert And(0, 0) == 0 by { AndNone(0); }
    } else {
      var m := Masks(i + 1, |s| - 1);
      BytesMasked(s[1..], i + 1);
      MaskIs(s[0], i);
      NumberFirst(0x100, MaskByte(i), m);
      NumberFirst(0x100, ClampedByte(s[0], i), From(s[1..], i + 1));
      assert From(s, i) == [ClampedByte(s[0], i)] + From(s[1..], i + 1);
      assert IsPowerOfTwo(0x100) by { Powers(); }
      AndSplit(s[0], Number(0x100, s[1..]), MaskByte(i), Number(0x100, m), 0x100);
    }
  }

  /** s clamped as if it started at byte i. */
  function From(s: seq<Byte>, i: nat): (t: seq<Byte>)
    ensures |t| == |s|
  {
    seq(|s|, (k: nat) requires k < |s| => ClampedByte(s[k], i + k))
  }

  lemma MasksNumber()
    ensures Number(0x100, Masks(0, 16)) == Poly1305.CLAMP
  {
    hide Number;
    Chain(0, 16);
    Chain(1, 15);
    Chain(2, 14);
    Chain(3, 13);
    Chain(4, 12);
    Chain(5, 11);
    Chain(6, 10);
    Chain(7, 9);
    Chain(8, 8);
    Chain(9, 7);
    Chain(10, 6);
    Chain(11, 5);
    Chain(12, 4);
    Chain(13, 3);
    Chain(14, 2);
    Chain(15, 1);
    assert Number(0x100, Masks(16, 0)) == 0 by { NoMasks(); }
  }

  lemma Chain(i: nat, n: nat)
    requires n > 0
    ensures Number(0x100, Masks(i, n)) == MaskByte(i) + 0x100 * Number(0x100, Masks(i + 1, n - 1))
  {
    hide MaskByte;
    NumberFirst(0x100, MaskByte(i), Masks(i + 1, n - 1));
  }

  lemma NoMasks()
    ensures Number(0x100, Masks(16, 0)) == 0
  {
  }

  /** The factor r of the tag is the number of the clamped bytes. */
  lemma ClampedIs(key: seq<Byte>)
    requires |key| == 16
    ensures Poly1305.Clamped(key) == Number(0x100, ClampedBytes(key))
  {
    hide And, Number;
    MasksNumber();
    BytesMasked(key, 0);
    assert From(key, 0) == ClampedBytes(key);
  }

  /** The tag is the polynomial at that factor plus the number of the second half of the key, modulo 2^128. */
  lemma TagIs(key: seq<Byte>, m: seq<Byte>)
    requires |key| == 32
    ensures Number(0x100, ClampedBytes(key[..16])) >= 0
    ensures Number(0x100, Poly1305.Tag(key, m))
      == (Poly1305.Evaluated(Number(0x100, ClampedBytes(key[..16])), m, Poly1305.BlockCount(m)) + Number(0x100, key[16..]))
         % 0x1_00000000_00000000_00000000_00000000
  {
    hide Number, Digits, Poly1305.Evaluated, ClampedBytes, Poly1305.Clamped, Poly1305.BlockCount, Pow;
    ClampedIs(key[..16]);
    Poly1305.SixteenBytes();
    NumberOfDigits(0x100, Poly1305.TagValue(key, m), 16);
  }
}
