/** The byte-level arithmetic of AES-GCM: field multiplication by shifts and masks, GHASH, and counter-mode encryption. */
module Gcm {
  import opened Bits
  import opened Gf128
  import opened Radix

  // ----- blocks as polynomials -----

  /** The weight of bit j of a byte, bit 0 being the most significant one. */
  function Weight(j: nat): (w: nat)
    requires j < 8
    ensures w > 0 && IsPowerOfTwo(w)
  {
    match j
    case 0 => 128 case 1 => 64 case 2 => 32 case 3 => 16 case 4 => 8 case 5 => 4 case 6 => 2 case _ => 1
  }

  predicate BitAt(b: Byte, j: nat)
    requires j < 8
  {
    (b / Weight(j)) % 2 == 1
  }

  /** The coefficients that a 16-byte block stands for. */
  function Coefficients(b: seq<Byte>): (c: Poly)
    requires |b| == 16
    ensures |c| == 128
  {
    seq(128, (i: nat) requires i < 128 => BitAt(b[i / 8], i % 8))
  }

  function BitOf(x: nat, w: nat): bool
    requires w > 0
  {
    (x / w) % 2 == 1
  }

  lemma {:induction false} XorBit(a: nat, b: nat, w: nat)
    requires IsPowerOfTwo(w)
    ensures w > 0 && BitOf(Xor(a, b), w) == (BitOf(a, w) != BitOf(b, w))
    decreases w
  {
    if w == 1 {
      XorParity(a, b);
    } else {
      XorHalf(a, b);
      XorBit(a / 2, b / 2, w / 2);
      HalfBit(Xor(a, b), w);
      HalfBit(a, w);
      HalfBit(b, w);
    }
  }

  lemma XorParity(a: nat, b: nat)
    ensures BitOf(Xor(a, b), 1) == (BitOf(a, 1) != BitOf(b, 1))
  {
    hide Xor;
    XorStep(a, b);
    var c := Xor(a, b);
    assert c / 1 == c && a / 1 == a && b / 1 == b;
  }

  lemma XorHalf(a: nat, b: nat)
    ensures Xor(a, b) / 2 == Xor(a / 2, b / 2)
  {
  }

  lemma HalfBit(x: nat, w: nat)
    requires w > 1 && w % 2 == 0
    ensures BitOf(x, w) == BitOf(x / 2, w / 2)
  {
    QuotientOfQuotient(x, 2, w / 2);
  }

  /** The exclusive or of two bytes, bit by bit. */
  function XorByte(a: Byte, b: Byte): (c: Byte)
    ensures forall j :: 0 <= j < 8 ==> BitAt(c, j) == (BitAt(a, j) != BitAt(b, j))
  {
    Bounded(a, b, 0x100);
    var c := Xor(a, b);
    forall j | 0 <= j < 8 ensures BitAt(c, j) == (BitAt(a, j) != BitAt(b, j)) { XorBit(a, b, Weight(j)); }
    c
  }

  /** v & mask for a mask of all zeros or all ones. */
  function MaskByte(v: Byte, mask: Byte): (c: Byte)
    requires mask == 0 || mask == 0xff
    ensures c == if mask == 0 then 0 else v
  {
    AndLow(v, 0x100);
    And(v, mask)
  }

  /** The mask that a bit makes: (uint8_t)(-(int8_t)bit). */
  function MaskOf(bit: nat): (m: Byte)
    requires bit < 2
    ensures m == if bit == 0 then 0 else 0xff
  {
    (0 - bit as int) % 0x100
  }

  /** (v >> 1) | (u << 7). */
  function ShiftByte(v: Byte, u: Byte): (c: Byte)
    ensures forall j :: 0 < j < 8 ==> BitAt(c, j) == BitAt(v, j - 1)
    ensures BitAt(c, 0) == BitAt(u, 7)
  {
    var c := Join(v / 2, u % 2, 0x80);
    forall j | 0 < j < 8 ensures BitAt(c, j) == BitAt(v, j - 1) { ShiftBit(v, u % 2, j); }
    ShiftTop(v, u);
    c
  }

  lemma ShiftTop(v: Byte, u: Byte)
    ensures v / 2 + u % 2 * 0x80 < 0x100 && BitAt(v / 2 + u % 2 * 0x80, 0) == BitAt(u, 7)
  {
  }

  lemma ShiftBit(v: Byte, t: nat, j: nat)
    requires t < 2 && 0 < j < 8
    ensures v / 2 + t * 0x80 < 0x100 && BitAt(v / 2 + t * 0x80, j) == BitAt(v, j - 1)
  {
    if t == 0 {
      HalfBit(v, Weight(j - 1));
    } else {
      HighBit(v / 2, j);
      HalfBit(v, Weight(j - 1));
    }
  }

  lemma HighBit(x: nat, j: nat)
    requires x < 0x80 && 0 < j < 8
    ensures BitAt(x + 0x80, j) == BitAt(x, j)
  {
    var w := Weight(j);
    HighWeight(x, w, 0x40 / w);
  }

  lemma HighWeight(x: nat, w: nat, k: nat)
    requires w > 0 && 2 * (w * k) == 0x80
    ensures BitOf(x + 0x80, w) == BitOf(x, w)
  {
    var q, r := x / w, x % w;
    assert x == q * w + r;
    assert x + 0x80 == (q + 2 * k) * w + r;
    DivUnique(x + 0x80, w, q + 2 * k, r);
  }

  /** v >> 1. */
  function HalveByte(v: Byte): (c: Byte)
    ensures forall j :: 0 < j < 8 ==> BitAt(c, j) == BitAt(v, j - 1)
    ensures !BitAt(c, 0)
  {
    forall j | 0 < j < 8 ensures BitAt(v / 2, j) == BitAt(v, j - 1) { HalfBit(v, Weight(j - 1)); }
    assert !BitAt(v / 2, 0) by { TopBit(v / 2); }
    v / 2
  }

  lemma TopBit(x: nat)
    requires x < 0x80
    ensures !BitAt(x, 0)
  {
  }

  lemma TailByte()
    ensures forall j :: 0 <= j < 8 ==> BitAt(0xe1, j) == InTail(j)
    ensures forall j :: 0 <= j < 8 ==> !BitAt(0, j)
  {
  }

  // ----- multiplication in place -----

  method XorBlock(a: array<Byte>, b: seq<Byte>)
    requires a.Length == |b| == 16
    modifies a
    ensures Coefficients(a[..]) == Sum(Coefficients(old(a[..])), Coefficients(b))
    ensures forall k :: 0 <= k < 16 ==> a[k] == XorByte(old(a[k]), b[k])
  {
    hide XorByte, BitAt;
    var i := 0;
    while i < 16
      invariant 0 <= i <= 16
      invariant forall k :: 0 <= k < i ==> a[k] == XorByte(old(a[k]), b[k])
      invariant forall k :: i <= k < 16 ==> a[k] == old(a[k])
    {
      a[i] := XorByte(a[i], b[i]);
      i := i + 1;
    }
    XoredBlock(old(a[..]), b, a[..]);
  }

  lemma XoredBlock(a: seq<Byte>, b: seq<Byte>, c: seq<Byte>)
    requires |a| == |b| == |c| == 16 && forall k :: 0 <= k < 16 ==> c[k] == XorByte(a[k], b[k])
    ensures Coefficients(c) == Sum(Coefficients(a), Coefficients(b))
  {
    hide BitAt;
    forall i | 0 <= i < 128
      ensures Coefficients(c)[i] == (Coefficients(a)[i] != Coefficients(b)[i])
    {
      assert c[i / 8] == XorByte(a[i / 8], b[i / 8]);
    }
  }

  /** r ^= v where the mask is set. */
  method AddMasked(r: array<Byte>, v: seq<Byte>, bit: nat)
    requires r.Length == |v| == 16 && bit < 2
    modifies r
    ensures Coefficients(r[..]) == if bit == 1 then Sum(Coefficients(old(r[..])), Coefficients(v)) else Coefficients(old(r[..]))
  {
    hide XorByte, BitAt, MaskByte, MaskOf;
    var mask := MaskOf(bit);
    var k := 0;
    while k < 16
      invariant 0 <= k <= 16
      invariant forall i :: 0 <= i < k ==> r[i] == XorByte(old(r[i]), MaskByte(v[i], mask))
      invariant forall i :: k <= i < 16 ==> r[i] == old(r[i])
    {
      r[k] := XorByte(r[k], MaskByte(v[k], mask));
      k := k + 1;
    }
    ghost var w := seq(16, (i: nat) requires i < 16 => MaskByte(v[i], mask));
    XoredBlock(old(r[..]), w, r[..]);
    if bit == 1 {
      assert w == v;
    } else {
      ZeroBlock(w);
      SumZeros(Coefficients(old(r[..])));
    }
  }

  lemma ZeroBlock(w: seq<Byte>)
    requires |w| == 16 && forall i :: 0 <= i < 16 ==> w[i] == 0
    ensures Coefficients(w) == Zeros(128)
  {
    TailByte();
  }

  lemma SumZeros(c: Poly)
    ensures Sum(c, Zeros(|c|)) == c
  {
  }

  /** One step of the shift register, from the last byte to the first. */
  method ShiftReduce(v: array<Byte>)
    requires v.Length == 16
    modifies v
    ensures Coefficients(v[..]) == TimesX(Coefficients(old(v[..])))
  {
    hide XorByte, BitAt, MaskByte, MaskOf, ShiftByte, HalveByte;
    var lsb := v[15] % 2;
    var k := 15;
    while k > 0
      invariant 0 <= k <= 15
      invariant forall i :: 0 <= i <= k ==> v[i] == old(v[i])
      invariant forall i :: k < i < 16 ==> v[i] == ShiftByte(old(v[i]), old(v[i - 1]))
    {
      v[k] := ShiftByte(v[k], v[k - 1]);
      k := k - 1;
    }
    v[0] := HalveByte(v[0]);
    v[0] := XorByte(v[0], MaskByte(0xe1, MaskOf(lsb)));
    ShiftedBlock(old(v[..]), v[..], lsb);
  }

  lemma ShiftedBlock(s: seq<Byte>, t: seq<Byte>, lsb: nat)
    requires |s| == |t| == 16 && lsb == s[15] % 2
    requires forall i :: 0 < i < 16 ==> t[i] == ShiftByte(s[i], s[i - 1])
    requires t[0] == XorByte(HalveByte(s[0]), MaskByte(0xe1, MaskOf(lsb)))
    ensures Coefficients(t) == TimesX(Coefficients(s))
  {
    hide XorByte, BitAt, MaskByte, MaskOf, ShiftByte, HalveByte;
    TailByte();
    LowestBit(s[15]);
    forall i | 0 <= i < 128
      ensures Coefficients(t)[i] == TimesX(Coefficients(s))[i]
    {
      if i >= 8 {
        assert t[i / 8] == ShiftByte(s[i / 8], s[i / 8 - 1]);
        assert !InTail(i);
        if i % 8 == 0 {
          assert (i - 1) / 8 == i / 8 - 1 && (i - 1) % 8 == 7;
        } else {
          assert (i - 1) / 8 == i / 8 && (i - 1) % 8 == i % 8 - 1;
        }
      }
    }
  }

  lemma LowestBit(b: Byte)
    ensures BitAt(b, 7) == (b % 2 == 1)
  {
  }

  /** z = x * y in GF(2^128). */
  method GfMult(x: seq<Byte>, y: seq<Byte>, z: array<Byte>)
    requires |x| == |y| == z.Length == 16
    modifies z
    ensures Coefficients(z[..]) == Times(Coefficients(x), Coefficients(y))
  {
    hide XorByte, BitAt, Times, Register, Accumulated, TimesX, Coefficients;
    var v := new Byte[16](k requires 0 <= k < 16 => y[k]);
    var r := new Byte[16](_ => 0);
    ghost var a, b := Coefficients(x), Coefficients(y);
    assert v[..] == y;
    ZeroBlock(r[..]);
    Start(a, b);
    var i := 0;
    while i < 16
      invariant 0 <= i <= 16
      invariant Coefficients(v[..]) == Register(b, 8 * i) && Coefficients(r[..]) == Accumulated(a, b, 8 * i)
    {
      var j := 0;
      while j < 8
        invariant 0 <= j <= 8
        invariant Coefficients(v[..]) == Register(b, 8 * i + j) && Coefficients(r[..]) == Accumulated(a, b, 8 * i + j)
      {
        var bit := TestBit(x, i, j);
        AddMasked(r, v[..], bit);
        ShiftReduce(v);
        NextBit(a, b, 8 * i + j);
        j := j + 1;
      }
      i := i + 1;
    }
    AccumulatedIsTimes(a, b);
    i := 0;
    while i < 16
      invariant 0 <= i <= 16 && forall k :: 0 <= k < i ==> z[k] == r[k]
      invariant Coefficients(r[..]) == Times(a, b)
    {
      z[i] := r[i];
      i := i + 1;
    }
    assert z[..] == r[..];
  }

  /** (x[i] >> (7 - j)) & 1. */
  function TestBit(x: seq<Byte>, i: nat, j: nat): (bit: nat)
    requires |x| == 16 && i < 16 && j < 8
    ensures bit < 2 && (bit == 1 <==> Coefficients(x)[8 * i + j])
  {
    assert (8 * i + j) / 8 == i && (8 * i + j) % 8 == j;
    Low(x[i] / Weight(j), 2)
  }

  lemma Start(a: Poly, b: Poly)
    requires |a| == |b| == 128
    ensures Register(b, 0) == b && Accumulated(a, b, 0) == Zeros(128)
  {
  }

  lemma NextBit(a: Poly, b: Poly, n: nat)
    requires |a| == |b| == 128 && n < 128
    ensures Register(b, n + 1) == TimesX(Register(b, n))
    ensures Accumulated(a, b, n + 1) == if a[n] then Sum(Accumulated(a, b, n), Register(b, n)) else Accumulated(a, b, n)
  {
  }
}
