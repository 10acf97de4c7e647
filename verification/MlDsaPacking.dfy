/** Byte encodings of ML-DSA-65 polynomials, section 7.1 of FIPS 204: each coefficient is stored as its distance below a bound. */
module MlDsaPacking {
  import opened Bits
  import opened Radix
  import opened Packing
  import opened Words

  const GAMMA1 := 0x8_0000
  const ETA := 4
  const T0BOUND := 0x1000

  /** The distances below c. */
  function DistancesBelow(c: int, a: seq<int32>): (d: seq<int>)
    ensures |d| == |a| && forall i :: 0 <= i < |a| ==> d[i] == c - a[i] as int
  {
    seq(|a|, (i: nat) requires i < |a| => c - a[i] as int)
  }

  /** All distances below c are digits of radix m. */
  predicate Fits(c: int, m: nat, a: seq<int32>) {
    forall i :: 0 <= i < |a| ==> 0 <= c - a[i] as int < m
  }

  lemma FitsDigits(c: int, m: nat, a: seq<int32>)
    requires Fits(c, m, a)
    ensures Below(m, DistancesBelow(c, a))
  {
  }

  /** What a packed polynomial looks like: its distances below c as digits of radix m. */
  function Encoding(m: nat, c: int, a: seq<int32>, n: nat): (b: seq<Byte>)
    requires m > 0 && Fits(c, m, a)
    ensures |b| == n
  {
    FitsDigits(c, m, a);
    Encode(m, DistancesBelow(c, a), n)
  }

  lemma IsEncoding(b: seq<Byte>, m: nat, c: int, a: seq<int32>)
    requires m > 0 && Fits(c, m, a) && Encodes(b, m, DistancesBelow(c, a))
    ensures b == Encoding(m, c, a, |b|)
  {
    FitsDigits(c, m, a);
    EncodesUnique(b, m, DistancesBelow(c, a));
  }

  /** Responses: coefficients in (-2^19, 2^19], two in five bytes. */
  method DPolyzPack(r: array<Byte>, off: nat, a: seq<int32>)
    requires |a| == 256 && off + 640 <= r.Length && Fits(GAMMA1, 0x10_0000, a)
    modifies r
    ensures Fits(GAMMA1, 0x10_0000, a) && r[off..off + 640] == Encoding(0x10_0000, GAMMA1, a, 640)
    ensures forall p :: 0 <= p < off || off + 640 <= p < r.Length ==> r[p] == old(r[p])
  {
    hide Encodes, Encode, Pack20, Below;
    ghost var digits, done: seq<Byte> := DistancesBelow(GAMMA1, a), [];
    var i := 0;
    EncodesNothing(0x10_0000);
    assert digits[..0] == [];
    while i < 128
      invariant 0 <= i <= 128 && |done| == 5 * i
      invariant Encodes(done, 0x10_0000, digits[..2 * i])
      invariant forall p :: 0 <= p < 5 * i ==> r[off + p] == done[p]
      invariant forall p :: 0 <= p < off || off + 640 <= p < r.Length ==> r[p] == old(r[p])
    {
      var t0: nat, t1: nat := GAMMA1 - a[2 * i] as int, GAMMA1 - a[2 * i + 1] as int;
      var b := Pack20(t0, t1);
      Put(r, off + 5 * i, b);
      Pack20Encodes(t0, t1);
      AppendGroup(done, b, 0x10_0000, digits, 2 * i, [t0, t1]);
      done := done + b;
      i := i + 1;
    }
    assert digits[..256] == digits;
    IsEncoding(done, 0x10_0000, GAMMA1, a);
    assert r[off..off + 640] == done;
  }

  /** Secret coefficients in [-4, 4], two in a byte. */
  method DPolyetaPack(r: array<Byte>, off: nat, a: seq<int32>)
    requires |a| == 256 && off + 128 <= r.Length && Fits(ETA, 16, a)
    modifies r
    ensures Fits(ETA, 16, a) && r[off..off + 128] == Encoding(16, ETA, a, 128)
    ensures forall p :: 0 <= p < off || off + 128 <= p < r.Length ==> r[p] == old(r[p])
  {
    hide Encodes, Encode, Join, Below;
    ghost var digits, done: seq<Byte> := DistancesBelow(ETA, a), [];
    var i := 0;
    EncodesNothing(16);
    assert digits[..0] == [];
    while i < 128
      invariant 0 <= i <= 128 && |done| == i
      invariant Encodes(done, 16, digits[..2 * i])
      invariant forall p :: 0 <= p < i ==> r[off + p] == done[p]
      invariant forall p :: 0 <= p < off || off + 128 <= p < r.Length ==> r[p] == old(r[p])
    {
      var t0: nat, t1: nat := ETA - a[2 * i] as int, ETA - a[2 * i + 1] as int;
      var b: seq<Byte> := [Join(t0, t1, 0x10)];
      r[off + i] := b[0];
      Nibbles(t0, t1, b[0]);
      AppendGroup(done, b, 16, digits, 2 * i, [t0, t1]);
      done := done + b;
      i := i + 1;
    }
    assert digits[..256] == digits;
    IsEncoding(done, 16, ETA, a);
    assert r[off..off + 128] == done;
  }

  /** Write the bytes of b from position at on. */
  method Put(r: array<Byte>, at: nat, b: seq<Byte>)
    requires at + |b| <= r.Length
    modifies r
    ensures forall p :: 0 <= p < r.Length ==> r[p] == if at <= p < at + |b| then b[p - at] else old(r[p])
  {
    var k := 0;
    while k < |b|
      invariant 0 <= k <= |b|
      invariant forall p :: 0 <= p < r.Length ==> r[p] == if at <= p < at + k then b[p - at] else old(r[p])
    {
      r[at + k] := b[k];
      k := k + 1;
    }
  }

  method Distances(a: seq<int32>, at: nat) returns (t: seq<nat>)
    requires |a| == 256 && at + 8 <= 256 && Fits(T0BOUND, 8192, a)
    ensures |t| == 8 && Below(8192, t) && forall j :: 0 <= j < 8 ==> t[j] == T0BOUND - a[at + j] as int
  {
    t := [];
    while |t| < 8
      invariant |t| <= 8 && Below(8192, t) && forall j :: 0 <= j < |t| ==> t[j] == T0BOUND - a[at + j] as int
    {
      t := t + [T0BOUND - a[at + |t|] as int];
    }
  }

  /** Low parts in (-2^12, 2^12], eight in thirteen bytes. */
  method DPolyt0Pack(r: array<Byte>, off: nat, a: seq<int32>)
    requires |a| == 256 && off + 416 <= r.Length && Fits(T0BOUND, 8192, a)
    modifies r
    ensures Fits(T0BOUND, 8192, a) && r[off..off + 416] == Encoding(8192, T0BOUND, a, 416)
    ensures forall p :: 0 <= p < off || off + 416 <= p < r.Length ==> r[p] == old(r[p])
  {
    hide Encodes, Encode, Pack13, Below;
    ghost var digits, done: seq<Byte> := DistancesBelow(T0BOUND, a), [];
    var i := 0;
    EncodesNothing(8192);
    assert digits[..0] == [];
    while i < 32
      invariant 0 <= i <= 32 && |done| == 13 * i
      invariant Encodes(done, 8192, digits[..8 * i])
      invariant forall p :: 0 <= p < 13 * i ==> r[off + p] == done[p]
      invariant forall p :: 0 <= p < off || off + 416 <= p < r.Length ==> r[p] == old(r[p])
    {
      var t := Distances(a, 8 * i);
      var b := Pack13(t);
      Put(r, off + 13 * i, b);
      Pack13Encodes(t);
      AppendGroup(done, b, 8192, digits, 8 * i, t);
      done := done + b;
      i := i + 1;
    }
    assert digits[..256] == digits;
    IsEncoding(done, 8192, T0BOUND, a);
    assert r[off..off + 416] == done;
  }

  // ----- high parts are stored as they are -----

  predicate FitsPlain(m: nat, a: seq<int32>) {
    forall i :: 0 <= i < |a| ==> 0 <= a[i] as int < m
  }

  function PlainEncoding(m: nat, a: seq<int32>, n: nat): (b: seq<Byte>)
    requires m > 0 && FitsPlain(m, a)
    ensures |b| == n
  {
    PlainDigits(m, a);
    Encode(m, Ints32(a), n)
  }

  lemma PlainDigits(m: nat, a: seq<int32>)
    requires FitsPlain(m, a)
    ensures Below(m, Ints32(a))
  {
  }

  /** High parts of the public key: ten bits, four in five bytes. */
  method DPolyt1Pack(r: array<Byte>, off: nat, a: seq<int32>)
    requires |a| == 256 && off + 320 <= r.Length && FitsPlain(1024, a)
    modifies r
    ensures r[off..off + 320] == PlainEncoding(1024, a, 320)
    ensures forall p :: 0 <= p < off || off + 320 <= p < r.Length ==> r[p] == old(r[p])
  {
    hide Encodes, Encode, Pack10, Below;
    ghost var digits, done: seq<Byte> := Ints32(a), [];
    var i := 0;
    EncodesNothing(1024);
    assert digits[..0] == [];
    while i < 64
      invariant 0 <= i <= 64 && |done| == 5 * i
      invariant Encodes(done, 1024, digits[..4 * i])
      invariant forall p :: 0 <= p < 5 * i ==> r[off + p] == done[p]
      invariant forall p :: 0 <= p < off || off + 320 <= p < r.Length ==> r[p] == old(r[p])
    {
      var t: seq<nat> := [a[4 * i] as int, a[4 * i + 1] as int, a[4 * i + 2] as int, a[4 * i + 3] as int];
      assert Below(1024, t) by { FourFit(t); }
      var b := Pack10(t);
      Put(r, off + 5 * i, b);
      Pack10Encodes(t);
      AppendGroup(done, b, 1024, digits, 4 * i, t);
      done := done + b;
      i := i + 1;
    }
    assert digits[..256] == digits;
    PlainDigits(1024, a);
    EncodesUnique(done, 1024, digits);
    assert r[off..off + 320] == done;
  }

  lemma FourFit(t: seq<nat>)
    requires |t| == 4 && t[0] < 1024 && t[1] < 1024 && t[2] < 1024 && t[3] < 1024
    ensures Below(1024, t)
  {
  }

  // ----- unpacking -----

  /** Responses back from their bytes. */
  method DPolyzUnpack(r: array<int32>, a: seq<Byte>)
    requires r.Length == 256 && |a| == 640
    modifies r
    ensures DistancesBelow(GAMMA1, r[..]) == Decode(0x10_0000, a, 256)
  {
    hide Encodes, Decode, Low20, High20;
    ghost var digits: seq<int> := [];
    var i := 0;
    EncodesNothing(0x10_0000);
    assert a[..0] == [];
    while i < 128
      invariant 0 <= i <= 128 && |digits| == 2 * i && Below(0x10_0000, digits)
      invariant Encodes(a[..5 * i], 0x10_0000, digits)
      invariant forall p :: 0 <= p < 2 * i ==> r[p] as int == GAMMA1 - digits[p]
    {
      var t := [Low20(a[5 * i], a[5 * i + 1], a[5 * i + 2]), High20(a[5 * i + 2], a[5 * i + 3], a[5 * i + 4])];
      r[2 * i] := (GAMMA1 - t[0]) as int32;
      r[2 * i + 1] := (GAMMA1 - t[1]) as int32;
      Twenty(t[0], t[1], a[5 * i], a[5 * i + 1], a[5 * i + 2], a[5 * i + 3], a[5 * i + 4]);
      assert a[5 * i..5 * i + 5] == [a[5 * i], a[5 * i + 1], a[5 * i + 2], a[5 * i + 3], a[5 * i + 4]];
      ReadGroup(a, 5 * i, 5, 0x10_0000, digits, t);
      digits := digits + t;
      i := i + 1;
    }
    assert a[..640] == a;
    EncodesUnique(a, 0x10_0000, digits);
    assert DistancesBelow(GAMMA1, r[..]) == digits;
  }

  /** Secret coefficients back from their bytes. */
  method DPolyetaUnpack(r: array<int32>, a: seq<Byte>)
    requires r.Length == 256 && |a| == 128
    modifies r
    ensures DistancesBelow(ETA, r[..]) == Decode(16, a, 256)
  {
    hide Encodes, Decode, Low;
    ghost var digits: seq<int> := [];
    var i := 0;
    EncodesNothing(16);
    assert a[..0] == [];
    while i < 128
      invariant 0 <= i <= 128 && |digits| == 2 * i && Below(16, digits)
      invariant Encodes(a[..i], 16, digits)
      invariant forall p :: 0 <= p < 2 * i ==> r[p] as int == ETA - digits[p]
    {
      var t := [Low(a[i], 0x10), a[i] / 0x10];
      r[2 * i] := (ETA - t[0]) as int32;
      r[2 * i + 1] := (ETA - t[1]) as int32;
      Nibbles(t[0], t[1], a[i]);
      assert a[i..i + 1] == [a[i]];
      ReadGroup(a, i, 1, 16, digits, t);
      digits := digits + t;
      i := i + 1;
    }
    assert a[..128] == a;
    EncodesUnique(a, 16, digits);
    assert DistancesBelow(ETA, r[..]) == digits;
  }

  /** High parts back from their bytes. */
  method DPolyt1Unpack(r: array<int32>, a: seq<Byte>)
    requires r.Length == 256 && |a| == 320
    modifies r
    ensures Ints32(r[..]) == Decode(1024, a, 256)
  {
    hide Encodes, Decode, Unpack10;
    ghost var digits: seq<int> := [];
    var i := 0;
    EncodesNothing(1024);
    assert a[..0] == [];
    while i < 64
      invariant 0 <= i <= 64 && |digits| == 4 * i && Below(1024, digits)
      invariant Encodes(a[..5 * i], 1024, digits)
      invariant forall p :: 0 <= p < 4 * i ==> r[p] as int == digits[p]
    {
      var t := Unpack10(a[5 * i..5 * i + 5]);
      Unpack10Encodes(a[5 * i..5 * i + 5]);
      r[4 * i] := t[0] as int32;
      r[4 * i + 1] := t[1] as int32;
      r[4 * i + 2] := t[2] as int32;
      r[4 * i + 3] := t[3] as int32;
      ReadGroup(a, 5 * i, 5, 1024, digits, t);
      digits := digits + t;
      i := i + 1;
    }
    assert a[..320] == a;
    EncodesUnique(a, 1024, digits);
    assert Ints32(r[..]) == digits;
  }

  /** Eight coefficients from their distances. */
  method PutWords(r: array<int32>, at: nat, t: seq<nat>)
    requires r.Length == 256 && |t| == 8 && at + 8 <= 256 && Below(8192, t)
    modifies r
    ensures forall p :: 0 <= p < 256 && !(at <= p < at + 8) ==> r[p] == old(r[p])
    ensures forall p :: at <= p < at + 8 ==> r[p] as int == T0BOUND - t[p - at]
  {
    var k := 0;
    while k < 8
      invariant 0 <= k <= 8
      invariant forall p :: 0 <= p < 256 && !(at <= p < at + k) ==> r[p] == old(r[p])
      invariant forall p :: at <= p < at + k ==> r[p] as int == T0BOUND - t[p - at]
    {
      r[at + k] := (T0BOUND - t[k]) as int32;
      k := k + 1;
    }
  }

  /** Low parts back from their bytes. */
  method DPolyt0Unpack(r: array<int32>, a: seq<Byte>)
    requires r.Length == 256 && |a| == 416
    modifies r
    ensures DistancesBelow(T0BOUND, r[..]) == Decode(8192, a, 256)
  {
    hide Encodes, Decode, Unpack13;
    ghost var digits: seq<int> := [];
    var i := 0;
    EncodesNothing(8192);
    assert a[..0] == [];
    while i < 32
      invariant 0 <= i <= 32 && |digits| == 8 * i && Below(8192, digits)
      invariant Encodes(a[..13 * i], 8192, digits)
      invariant forall p :: 0 <= p < 8 * i ==> r[p] as int == T0BOUND - digits[p]
    {
      var t := Unpack13(a[13 * i..13 * i + 13]);
      Unpack13Encodes(a[13 * i..13 * i + 13]);
      PutWords(r, 8 * i, t);
      ReadGroup(a, 13 * i, 13, 8192, digits, t);
      digits := digits + t;
      i := i + 1;
    }
    assert a[..416] == a;
    EncodesUnique(a, 8192, digits);
    assert DistancesBelow(T0BOUND, r[..]) == digits;
  }

  // ----- packing and unpacking are inverse -----

  /** The sizes in use: n bytes hold 256 digits of radix m. */
  predicate Sizes(m: nat, n: nat) {
    (m == 0x10_0000 && n == 640) || (m == 8192 && n == 416) || (m == 1024 && n == 320) || (m == 16 && n == 128)
  }

  lemma SizesEqual(m: nat, n: nat)
    requires Sizes(m, n)
    ensures EquallyMany(n, m, 256)
  {
    if m == 0x10_0000 {
      Grouped(n, m, 5, 2, 128, 0x100_0000_0000);
    } else if m == 8192 {
      ThirteenPower();
      PowPower(0x100, 13, 8192, 8, 32);
    } else if m == 1024 {
      Grouped(n, m, 5, 4, 64, 0x100_0000_0000);
    } else {
      Grouped(n, m, 1, 2, 128, 0x100);
    }
  }

  lemma Grouped(n: nat, m: nat, bytes: nat, digits: nat, count: nat, p: nat)
    requires m > 0 && n == bytes * count && 256 == digits * count && Pow(0x100, bytes) == p && Pow(m, digits) == p
    ensures EquallyMany(n, m, 256)
  {
    PowPower(0x100, bytes, m, digits, count);
  }

  /** Unpacking what was packed gives the coefficients back. */
  lemma UnpackPacked(c: int, m: nat, a: seq<int32>, n: nat)
    requires Sizes(m, n) && |a| == 256 && Fits(c, m, a)
    ensures Decode(m, Encoding(m, c, a, n), 256) == DistancesBelow(c, a)
  {
    hide EquallyMany;
    FitsDigits(c, m, a);
    SizesEqual(m, n);
    DecodeEncode(m, DistancesBelow(c, a), n);
  }

  /** Packing what was unpacked gives the bytes back, whatever they are. */
  lemma PackUnpacked(c: int, m: nat, b: seq<Byte>, a: seq<int32>, n: nat)
    requires Sizes(m, n) && |b| == n && |a| == 256 && DistancesBelow(c, a) == Decode(m, b, 256)
    ensures Fits(c, m, a) && Encoding(m, c, a, n) == b
  {
    hide EquallyMany;
    forall i | 0 <= i < 256 ensures 0 <= c - a[i] as int < m {
      assert DistancesBelow(c, a)[i] == Decode(m, b, 256)[i];
    }
    SizesEqual(m, n);
    EncodeDecode(m, b, 256);
  }
}
