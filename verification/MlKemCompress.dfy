/** Compression of ML-KEM-768: rounding a residue to 1, 4 or 10 bits by a multiplication and a shift, and back. */
module MlKemCompress {
  import opened ModArith
  import opened NttTheory
  import opened Bits
  import opened Radix
  import opened MlKemZetas
  import opened MlKemNtt
  import opened MlKemBytes
  import opened Packing
  import opened Words

  // ----- the specification -----

  /** m / q times x, rounded to the nearest integer, modulo m. */
  function Compress(m: nat, x: nat): (y: nat)
    requires m > 0
    ensures y < m
  {
    ((m * x + Q / 2) / Q) % m
  }

  /** q / m times y, rounded to the nearest integer. */
  function Decompress(m: nat, y: nat): (x: nat)
    requires m > 0
  {
    (y * Q + m / 2) / m
  }

  function CompressAll(m: nat, v: seq<int>): (w: seq<int>)
    requires m > 0 && Below(Q, v)
    ensures |w| == |v| && Below(m, w)
  {
    seq(|v|, (i: nat) requires i < |v| => Compress(m, v[i]))
  }

  function DecompressAll(m: nat, w: seq<int>): (v: seq<int>)
    requires m > 0 && Below(m, w)
    ensures |v| == |w|
  {
    seq(|w|, (i: nat) requires i < |w| => Decompress(m, w[i]))
  }

  /** Decompressing loses nothing: the two bits, nibbles or ten-bit strings are all different residues. */
  lemma CompressDecompress(m: nat, y: nat)
    requires m in {2, 16, 1024} && y < m
    ensures Decompress(m, y) < Q && Compress(m, Decompress(m, y)) == y
  {
    var x := Decompress(m, y);
    if m == 2 {
      assert 2 * x <= y * Q + 1 < 2 * x + 2;
    } else if m == 16 {
      assert 16 * x <= y * Q + 8 < 16 * x + 16;
    } else {
      assert 1024 * x <= y * Q + 512 < 1024 * x + 1024;
    }
  }

  /** Distance of two residues on the circle. */
  function Apart(x: int, y: int): int {
    var d := if x < y then y - x else x - y;
    if d > Q / 2 then Q - d else d
  }

  /** Compressing loses at most q / 2m, rounded. */
  lemma RoundingError(m: nat, x: nat)
    requires m in {2, 16, 1024} && x < Q
    ensures Decompress(m, Compress(m, x)) < Q
    ensures 2 * m * Apart(Decompress(m, Compress(m, x)), x) <= Q + m
  {
    var n := (m * x + Q / 2) / Q;
    if m == 2 {
      RoundingBound(2, x, n, Decompress(2, n % 2));
    } else if m == 16 {
      RoundingBound(16, x, n, Decompress(16, n % 16));
    } else {
      RoundingBound(1024, x, n, Decompress(1024, n % 1024));
    }
  }

  lemma RoundingBound(m: nat, x: nat, n: nat, z: nat)
    requires m in {2, 16, 1024} && x < Q && z == Decompress(m, n % m)
    requires n * Q <= m * x + 1664 < n * Q + Q
    ensures z < Q && 2 * m * Apart(z, x) <= Q + m
  {
    if m == 2 {
      assert n == 2 || n == n % 2;
    } else if m == 16 {
      assert n == 16 || n == n % 16;
    } else {
      assert n == 1024 || n == n % 1024;
    }
  }

  // ----- the words the program computes -----

  /** Four bits: the product wraps at 2^32, the mask keeps what matters. */
  function Compress4(a: int16): (t: nat)
    requires -Q < a as int < Q
    ensures t == Compress(16, Rem(Q, a as int))
  {
    var d0 := Unsigned(a) * 0x10 + 1665;
    var d1 := d0 * 80635 % 0x1_0000_0000;
    Reciprocal4(Unsigned(a));
    Low(d1 / 0x1000_0000, 0x10)
  }

  lemma Reciprocal4(u: nat)
    requires u < Q
    ensures ((u * 0x10 + 1665) * 80635 % 0x1_0000_0000) / 0x1000_0000 % 0x10 == ((16 * u + 1664) / Q) % 16
  {
    var k, r := (16 * u + 1664) / Q, (16 * u + 1664) % Q;
    var p := (u * 0x10 + 1665) * 80635;
    assert p == k * 0x1000_0000 + ((r + 1) * 80635 - 1541 * k);
    assert p / 0x1000_0000 == k;
  }

  function Compress10(a: int16): (t: nat)
    requires -Q < a as int < Q
    ensures t == Compress(1024, Rem(Q, a as int))
  {
    var d0 := Unsigned(a) * 0x400 + 1665;
    var d1 := d0 * 1290167;
    Reciprocal10(Unsigned(a));
    Low(d1 / 0x1_0000_0000, 0x400)
  }

  /** The estimate is good for every quotient up to 953, or remainder above 0; a remainder of 0 only occurs with quotient 640. */
  lemma Reciprocal10(u: nat)
    requires u < Q
    ensures (u * 0x400 + 1665) * 1290167 / 0x1_0000_0000 == (1024 * u + 1664) / Q
  {
    var k, r := (1024 * u + 1664) / Q, (1024 * u + 1664) % Q;
    var p := (u * 0x400 + 1665) * 1290167;
    assert p == k * 0x1_0000_0000 + ((r + 1) * 1290167 - 1353 * k);
    if r == 0 {
      var m := u - 3 * k + 1;
      assert 257 * k == 1024 * m + 640;
      assert k == 1024 * (64 * k - 255 * m - 160) + 640;
    }
    DivUnique(p, 0x1_0000_0000, k, (r + 1) * 1290167 - 1353 * k);
  }

  /** One bit: the word is not made positive first, and unsigned wrap-around takes care of it. */
  function Compress1(a: int16): (t: nat)
    requires -1664 <= a as int <= 1664
    ensures t == Compress(2, Rem(Q, a as int))
  {
    var t0 := (2 * a as int) % 0x1_0000_0000;
    var t1 := (t0 + 1665) % 0x1_0000_0000;
    var t2 := t1 * 80635 % 0x1_0000_0000;
    Reciprocal1(a as int);
    Low(t2 / 0x1000_0000, 2)
  }

  lemma Reciprocal1(a: int)
    requires -1664 <= a <= 1664
    ensures (((2 * a) % 0x1_0000_0000 + 1665) % 0x1_0000_0000 * 80635 % 0x1_0000_0000) / 0x1000_0000 % 2 == Compress(2, Rem(Q, a))
  {
    SignedResidue(a);
    var n := 2 * a + 1665;
    if a <= -833 {
      assert ((2 * a) % 0x1_0000_0000 + 1665) % 0x1_0000_0000 == n + 0x1_0000_0000;
      assert (n + 0x1_0000_0000) * 80635 == (n * 80635 + 0x1_0000_0000) + 80634 * 0x1_0000_0000;
      assert (n + 0x1_0000_0000) * 80635 % 0x1_0000_0000 == n * 80635 + 0x1_0000_0000;
    } else {
      assert ((2 * a) % 0x1_0000_0000 + 1665) % 0x1_0000_0000 == n;
      assert n * 80635 % 0x1_0000_0000 == n * 80635;
    }
  }

  /** A bit is set exactly when the coefficient is nearer to q / 2 than to 0. */
  lemma BitThreshold(a: int)
    requires -1664 <= a <= 1664
    ensures Compress(2, Rem(Q, a)) == if -832 <= a <= 832 then 0 else 1
  {
    SignedResidue(a);
  }

  function Decompress16(y: int16, m: nat): (x: int16)
    requires m in {2, 16, 1024} && 0 <= y as int < m
    ensures x as int == Decompress(m, y as int) < Q
  {
    CompressDecompress(m, y as int);
    Decompress(m, y as int) as int16
  }

  // ----- whole polynomials -----

  /** What the compressed coefficients of a spell, as digits. */
  ghost function Rounded(m: nat, a: seq<int16>): (w: seq<int>)
    requires m > 0
    ensures |w| == |a| && Below(m, w)
    ensures forall i :: 0 <= i < |a| ==> w[i] == Compress(m, Rem(Q, a[i] as int))
  {
    ResiduesBelow(a);
    CompressAll(m, Residues(a))
  }

  function PairUp(t: seq<nat>): (b: seq<Byte>)
    requires |t| == 8 && Below(16, t)
    ensures |b| == 4 && forall k :: 0 <= k < 4 ==> b[k] == t[2 * k] + 16 * t[2 * k + 1]
  {
    [Join(t[0], t[1], 0x10), Join(t[2], t[3], 0x10), Join(t[4], t[5], 0x10), Join(t[6], t[7], 0x10)]
  }

  method EightNibbles(a: seq<int16>, at: nat) returns (t: seq<nat>)
    requires |a| == 256 && Within(a, 1664) && at + 8 <= 256
    ensures |t| == 8 && forall j :: 0 <= j < 8 ==> t[j] == Rounded(16, a)[at + j]
  {
    hide Rounded, Compress, Compress4;
    t := [];
    while |t| < 8
      invariant |t| <= 8 && forall j :: 0 <= j < |t| ==> t[j] == Rounded(16, a)[at + j]
    {
      t := t + [Compress4(a[at + |t|])];
    }
  }

  method KPolyCompress4(r: array<Byte>, off: nat, a: seq<int16>)
    requires |a| == 256 && Within(a, 1664) && off + 128 <= r.Length
    modifies r
    ensures r[off..off + 128] == Encode(16, Rounded(16, a), 128)
    ensures forall p :: 0 <= p < off || off + 128 <= p < r.Length ==> r[p] == old(r[p])
  {
    hide Encodes, Encode, Rounded, Compress, Compress4, PairUp;
    ghost var digits, done: seq<Byte> := Rounded(16, a), [];
    var i := 0;
    EncodesNothing(16);
    assert digits[..0] == [];
    while i < 32
      invariant 0 <= i <= 32 && |done| == 4 * i
      invariant Encodes(done, 16, digits[..8 * i])
      invariant forall p :: 0 <= p < 4 * i ==> r[off + p] == done[p]
      invariant forall p :: 0 <= p < off || off + 128 <= p < r.Length ==> r[p] == old(r[p])
    {
      var t := EightNibbles(a, 8 * i);
      var b := PairUp(t);
      r[off + 4 * i], r[off + 4 * i + 1], r[off + 4 * i + 2], r[off + 4 * i + 3] := b[0], b[1], b[2], b[3];
      FourBytes(t, b);
      AppendGroup(done, b, 16, digits, 8 * i, t);
      done := done + b;
      i := i + 1;
    }
    assert digits[..256] == digits;
    EncodesUnique(done, 16, digits);
    assert r[off..off + 128] == done;
  }

  lemma FourBytes(t: seq<nat>, b: seq<Byte>)
    requires |t| == 8 && |b| == 4 && Below(16, t) && forall k :: 0 <= k < 4 ==> b[k] == t[2 * k] + 16 * t[2 * k + 1]
    ensures Encodes(b, 16, t)
  {
    hide Encodes;
    Nibbles(t[0], t[1], b[0]);
    Nibbles(t[2], t[3], b[1]);
    Nibbles(t[4], t[5], b[2]);
    Nibbles(t[6], t[7], b[3]);
    EncodesAppend([b[0]], [b[1]], 16, [t[0], t[1]], [t[2], t[3]]);
    EncodesAppend([b[2]], [b[3]], 16, [t[4], t[5]], [t[6], t[7]]);
    EncodesAppend([b[0]] + [b[1]], [b[2]] + [b[3]], 16, [t[0], t[1]] + [t[2], t[3]], [t[4], t[5]] + [t[6], t[7]]);
    assert b == ([b[0]] + [b[1]]) + ([b[2]] + [b[3]]);
    assert t == ([t[0], t[1]] + [t[2], t[3]]) + ([t[4], t[5]] + [t[6], t[7]]);
  }

  method KPolyCompress10(r: array<Byte>, off: nat, a: seq<int16>)
    requires |a| == 256 && Within(a, 1664) && off + 320 <= r.Length
    modifies r
    ensures r[off..off + 320] == Encode(1024, Rounded(1024, a), 320)
    ensures forall p :: 0 <= p < off || off + 320 <= p < r.Length ==> r[p] == old(r[p])
  {
    hide Encodes, Encode, Rounded, Compress, Compress10, Pack10;
    ghost var digits, done: seq<Byte> := Rounded(1024, a), [];
    var i := 0;
    EncodesNothing(1024);
    assert digits[..0] == [];
    while i < 64
      invariant 0 <= i <= 64 && |done| == 5 * i
      invariant Encodes(done, 1024, digits[..4 * i])
      invariant forall p :: 0 <= p < 5 * i ==> r[off + p] == done[p]
      invariant forall p :: 0 <= p < off || off + 320 <= p < r.Length ==> r[p] == old(r[p])
    {
      var t: seq<nat> := [];
      while |t| < 4
        invariant |t| <= 4 && forall j :: 0 <= j < |t| ==> t[j] == digits[4 * i + j]
      {
        t := t + [Compress10(a[4 * i + |t|])];
      }
      var b := Pack10(t);
      r[off + 5 * i], r[off + 5 * i + 1], r[off + 5 * i + 2], r[off + 5 * i + 3], r[off + 5 * i + 4] := b[0], b[1], b[2], b[3], b[4];
      Pack10Encodes(t);
      AppendGroup(done, b, 1024, digits, 4 * i, t);
      done := done + b;
      i := i + 1;
    }
    assert digits[..256] == digits;
    EncodesUnique(done, 1024, digits);
    assert r[off..off + 320] == done;
  }

  /** The message: one bit for each coefficient, or-ed into its byte. */
  method KPolyToMsg(r: array<Byte>, a: seq<int16>)
    requires |a| == 256 && Within(a, 1664) && r.Length == 32
    modifies r
    ensures r[..] == Encode(2, Rounded(2, a), 32)
  {
    hide Encodes, Encode, Rounded, Compress, Compress1, Join, IsPowerOfTwo, Pow, Number;
    ghost var digits, done: seq<Byte> := Rounded(2, a), [];
    var i := 0;
    EncodesNothing(2);
    assert digits[..0] == [];
    while i < 32
      invariant 0 <= i <= 32 && |done| == i
      invariant Encodes(done, 2, digits[..8 * i])
      invariant forall p :: 0 <= p < i ==> r[p] == done[p]
    {
      r[i] := 0;
      ghost var bits: seq<int> := [];
      var j, weight := 0, 1;
      FirstBit();
      while j < 8
        invariant 0 <= j <= 8 && weight == Pow(2, j) && IsPowerOfTwo(weight)
        invariant |bits| == j && Below(2, bits) && r[i] == Number(2, bits) < weight
        invariant forall k :: 0 <= k < j ==> bits[k] == digits[8 * i + k]
        invariant forall p :: 0 <= p < i ==> r[p] == done[p]
      {
        var t := Compress1(a[8 * i + j]);
        NextBit(bits, t, r[i], weight, j);
        r[i] := Join(r[i], t, weight);
        bits := bits + [t];
        weight := 2 * weight;
        j := j + 1;
      }
      EightBits(r[i], bits);
      AppendGroup(done, [r[i]], 2, digits, 8 * i, bits);
      done := done + [r[i]];
      i := i + 1;
    }
    assert digits[..256] == digits;
    EncodesUnique(done, 2, digits);
    assert r[..] == done;
  }

  lemma FirstBit()
    ensures Pow(2, 0) == 1 && IsPowerOfTwo(1) && Number(2, []) == 0
  {
  }

  lemma NextBit(bits: seq<int>, t: nat, x: nat, weight: nat, j: nat)
    requires |bits| == j < 8 && x == Number(2, bits) < weight && weight == Pow(2, j) && t < 2 && IsPowerOfTwo(weight)
    ensures Number(2, bits + [t]) == x + t * weight < 2 * weight && x + t * weight < 0x100
    ensures 2 * weight == Pow(2, j + 1) && IsPowerOfTwo(2 * weight)
  {
    hide Number, Pow, IsPowerOfTwo;
    NumberAppend(2, bits, [t]);
    Two(2, t, 0);
    WeightBound(j);
    Twice(weight);
    assert weight * t == if t == 0 then 0 else weight;
  }

  lemma WeightBound(j: nat)
    requires j < 8
    ensures Pow(2, j) <= 128 && Pow(2, j + 1) == 2 * Pow(2, j)
  {
    assert Pow(2, 7) == 128;
    PowGrows(j, 7);
  }

  lemma {:induction false} PowGrows(m: nat, n: nat)
    requires m <= n
    ensures Pow(2, m) <= Pow(2, n)
    decreases n
  {
    if m < n {
      PowGrows(m, n - 1);
    }
  }

  // ----- decompression -----

  method KPolyDecompress4(r: array<int16>, a: seq<Byte>)
    requires r.Length == 256 && |a| == 128
    modifies r
    ensures Ints16(r[..]) == DecompressAll(16, Decode(16, a, 256))
  {
    hide Encodes, Decode, Decompress, Low;
    ghost var digits: seq<int> := [];
    var i := 0;
    EncodesNothing(16);
    assert a[..0] == [];
    while i < 128
      invariant 0 <= i <= 128 && |digits| == 2 * i && Below(16, digits)
      invariant Encodes(a[..i], 16, digits)
      invariant forall p :: 0 <= p < 2 * i ==> r[p] as int == Decompress(16, digits[p])
    {
      var x, y := Low(a[i], 0x10), a[i] / 0x10;
      r[2 * i] := Decompress16(x as int16, 16);
      r[2 * i + 1] := Decompress16(y as int16, 16);
      Nibbles(x, y, a[i]);
      EncodesAppend(a[..i], [a[i]], 16, digits, [x, y]);
      assert a[..i + 1] == a[..i] + [a[i]];
      digits := digits + [x, y];
      i := i + 1;
    }
    assert a[..128] == a;
    EncodesUnique(a, 16, digits);
    assert Ints16(r[..]) == DecompressAll(16, digits);
  }

  method KPolyDecompress10(r: array<int16>, a: seq<Byte>)
    requires r.Length == 256 && |a| == 320
    modifies r
    ensures Ints16(r[..]) == DecompressAll(1024, Decode(1024, a, 256))
  {
    hide Encodes, Decode, Decompress, Unpack10;
    ghost var digits: seq<int> := [];
    var i, k := 0, 0;
    EncodesNothing(1024);
    assert a[..0] == [];
    while i < 64
      invariant 0 <= i <= 64 && k == 5 * i && |digits| == 4 * i && Below(1024, digits)
      invariant Encodes(a[..k], 1024, digits)
      invariant forall p :: 0 <= p < 4 * i ==> r[p] as int == Decompress(1024, digits[p])
    {
      var t := Unpack10(a[k..k + 5]);
      Unpack10Encodes(a[k..k + 5]);
      var j := 0;
      while j < 4
        invariant 0 <= j <= 4
        invariant forall p :: 0 <= p < 4 * i ==> r[p] as int == Decompress(1024, digits[p])
        invariant forall p :: 0 <= p < j ==> r[4 * i + p] as int == Decompress(1024, t[p])
      {
        r[4 * i + j] := Decompress16(t[j] as int16, 1024);
        j := j + 1;
      }
      EncodesAppend(a[..k], a[k..k + 5], 1024, digits, t);
      assert a[..k + 5] == a[..k] + a[k..k + 5];
      digits := digits + t;
      k := k + 5;
      i := i + 1;
    }
    assert a[..320] == a;
    EncodesUnique(a, 1024, digits);
    assert Ints16(r[..]) == DecompressAll(1024, digits);
  }

  /** Each message bit becomes 0 or (q + 1) / 2, by a mask. */
  method KPolyFromMsg(r: array<int16>, msg: seq<Byte>)
    requires r.Length == 256 && |msg| == 32
    modifies r
    ensures Ints16(r[..]) == DecompressAll(2, Decode(2, msg, 256))
  {
    hide Encodes, Decode, DigitAt, Digits, Pow, DecompressAll;
    ghost var digits: seq<int> := [];
    var i := 0;
    EncodesNothing(2);
    assert msg[..0] == [];
    while i < 32
      invariant 0 <= i <= 32 && |digits| == 8 * i && Below(2, digits)
      invariant Encodes(msg[..i], 2, digits)
      invariant forall p :: 0 <= p < 8 * i ==> r[p] as int == Decompress(2, digits[p])
    {
      var j, weight := 0, 1;
      ghost var bits := Digits(2, msg[i], 8);
      FirstBit();
      while j < 8
        invariant 0 <= j <= 8 && weight == Pow(2, j)
        invariant forall p :: 0 <= p < 8 * i ==> r[p] as int == Decompress(2, digits[p])
        invariant forall p :: 0 <= p < j ==> r[8 * i + p] as int == Decompress(2, bits[p])
      {
        var bit := DigitAt(2, msg[i], weight);
        DigitOf(2, msg[i], j, 8);
        r[8 * i + j] := if bit == 1 then ((Q + 1) / 2) as int16 else 0;
        PowTwo(j);
        assert r[8 * i + j] as int == Decompress(2, bits[j]);
        weight := 2 * weight;
        j := j + 1;
      }
      ByteBits(msg[i]);
      EncodesAppend(msg[..i], [msg[i]], 2, digits, bits);
      assert msg[..i + 1] == msg[..i] + [msg[i]];
      digits := digits + bits;
      i := i + 1;
    }
    assert msg[..32] == msg;
    EncodesUnique(msg, 2, digits);
    AllBits(r[..], digits);
  }

  lemma AllBits(r: seq<int16>, digits: seq<int>)
    requires |r| == |digits| && Below(2, digits) && forall p :: 0 <= p < |r| ==> r[p] as int == Decompress(2, digits[p])
    ensures Ints16(r) == DecompressAll(2, digits)
  {
  }

  lemma PowTwo(j: nat)
    ensures Pow(2, j + 1) == 2 * Pow(2, j)
  {
  }

  lemma ByteBits(b: Byte)
    ensures Encodes([b], 2, Digits(2, b, 8))
  {
    assert Pow(2, 8) == 0x100;
    NumberOfDigits(2, b, 8);
    EightBits(b, Digits(2, b, 8));
  }
}
