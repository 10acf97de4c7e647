/** Byte encodings of ML-KEM-768 polynomials: 12-bit coefficients, and compression to 10, 4 and 1 bits. */
module MlKemBytes {
  import opened ModArith
  import opened NttTheory
  import opened Bits
  import opened Radix
  import opened MlKemZetas
  import opened MlKemNtt
  import opened Words

  // ----- twelve bits: the key material -----

  lemma Twelve(x: nat, y: nat, b0: Byte, b1: Byte, b2: Byte)
    requires x < 4096 && y < 4096
    requires b0 + 0x100 * (b1 + 0x100 * b2) == x + 4096 * y
    ensures Encodes([b0, b1, b2], 4096, [x, y])
  {
    Three(0x100, b0, b1, b2);
    Two(4096, x, y);
    assert Pow(0x100, 3) == 0x100_0000;
    assert Pow(4096, 2) == 0x100_0000;
  }

  /** Negative words stand for their residue. */
  lemma SignedResidue(a: int)
    requires -Q < a < Q
    ensures Rem(Q, a) == if a < 0 then a + Q else a
  {
    RemUnique(Q, a, if a < 0 then -1 else 0, if a < 0 then a + Q else a);
  }

  /** The residue of a centred word: add q when the sign bit is set. */
  function Unsigned(a: int16): (u: nat)
    requires -Q < a as int < Q
    ensures u == Rem(Q, a as int) < Q
  {
    SignedResidue(a as int);
    if a < 0 then a as int + Q else a as int
  }

  /** The byte that two coefficients share. */
  function Middle12(x: nat, y: nat): (b: Byte)
    requires x < 4096 && y < 4096
    ensures b == x / 0x100 + 0x10 * (y % 0x10)
  {
    Middle12Is(x, y);
    Join(x / 0x100, y, 0x10) % 0x100
  }

  lemma Middle12Is(x: nat, y: nat)
    requires x < 4096 && y < 4096
    ensures Join(x / 0x100, y, 0x10) % 0x100 == x / 0x100 + 0x10 * (y % 0x10)
  {
    hide Join;
    SharedByte(x / 0x100, y, 0x10, 0x10);
  }

  lemma ResidueAt(a: seq<int16>, k: nat)
    requires k < |a| && Within(a, Q - 1)
    ensures -Q < a[k] as int < Q && Residues(a)[k] == Unsigned(a[k])
  {
  }

  /** Two coefficients in three bytes. */
  method Put12(r: array<Byte>, p: nat, t0: nat, t1: nat)
    requires p + 3 <= r.Length && t0 < 4096 && t1 < 4096
    modifies r
    ensures r[..] == old(r[..])[p := t0 % 0x100][p + 1 := Middle12(t0, t1)][p + 2 := t1 / 0x10]
  {
    hide Middle12;
    r[p] := t0 % 0x100;
    r[p + 1] := Middle12(t0, t1);
    r[p + 2] := t1 / 0x10;
  }

  /** The bytes from off on are those done so far; before off, and 384 bytes later, nothing has changed. */
  ghost predicate Written(out: seq<Byte>, was: seq<Byte>, off: nat, done: seq<Byte>) {
    && |out| == |was| && off + 384 <= |out| && |done| <= 384
    && out[..off] == was[..off] && out[off..off + |done|] == done && out[off + 384..] == was[off + 384..]
  }

  lemma WriteOn(out: seq<Byte>, was: seq<Byte>, off: nat, done: seq<Byte>, b0: Byte, b1: Byte, b2: Byte)
    requires Written(out, was, off, done) && |done| + 3 <= 384
    ensures Written(out[off + |done| := b0][off + |done| + 1 := b1][off + |done| + 2 := b2], was, off, done + [b0, b1, b2])
  {
    var next := out[off + |done| := b0][off + |done| + 1 := b1][off + |done| + 2 := b2];
    assert next[off..off + |done|] == out[off..off + |done|];
  }

  method KPolyEncode12(r: array<Byte>, off: nat, a: seq<int16>)
    requires |a| == 256 && off + 384 <= r.Length && Within(a, Q - 1)
    modifies r
    ensures r[off..off + 384] == Encode(4096, Residues(a), 384)
    ensures r[..off] == old(r[..off]) && r[off + 384..] == old(r[off + 384..])
  {
    hide Rem, Encodes, Encode, Middle12, Unsigned, Residues, Within, Written;
    ghost var was, digits, done: seq<Byte> := r[..], Residues(a), [];
    var i := 0;
    EncodesNothing(4096);
    assert digits[..0] == [];
    Unwritten(was, off);
    while i < 128
      invariant 0 <= i <= 128 && |done| == 3 * i
      invariant Encodes(done, 4096, digits[..2 * i]) && Written(r[..], was, off, done)
    {
      ResidueAt(a, 2 * i);
      ResidueAt(a, 2 * i + 1);
      var t0, t1 := Unsigned(a[2 * i]), Unsigned(a[2 * i + 1]);
      WriteOn(r[..], was, off, done, t0 % 0x100, Middle12(t0, t1), t1 / 0x10);
      Put12(r, off + 3 * i, t0, t1);
      done := Extend12(done, digits, i, t0, t1, t0 % 0x100, Middle12(t0, t1), t1 / 0x10);
      i := i + 1;
    }
    assert digits[..256] == digits;
    ResiduesBelow(a);
    EncodesUnique(done, 4096, digits);
    WrittenAll(r[..], was, off, done);
  }

  lemma Unwritten(was: seq<Byte>, off: nat)
    requires off + 384 <= |was|
    ensures Written(was, was, off, [])
  {
  }

  lemma WrittenAll(out: seq<Byte>, was: seq<Byte>, off: nat, done: seq<Byte>)
    requires Written(out, was, off, done) && |done| == 384
    ensures |out| == |was| && off + 384 <= |out|
    ensures out[..off] == was[..off] && out[off..off + 384] == done && out[off + 384..] == was[off + 384..]
  {
  }

  lemma ResiduesBelow(a: seq<int16>)
    ensures Below(4096, Residues(a)) && Below(Q, Residues(a))
  {
    hide Rem;
  }

  lemma Extend12(done: seq<Byte>, digits: seq<int>, i: nat, x: nat, y: nat, b0: Byte, b1: Byte, b2: Byte)
    returns (next: seq<Byte>)
    requires 2 * i + 2 <= |digits| && Encodes(done, 4096, digits[..2 * i])
    requires digits[2 * i] == x < 4096 && digits[2 * i + 1] == y < 4096
    requires b0 == x % 0x100 && b1 == Middle12(x, y) && b2 == y / 0x10
    ensures next == done + [b0, b1, b2] && Encodes(next, 4096, digits[..2 * (i + 1)])
  {
    next := done + [b0, b1, b2];
    Twelve(x, y, b0, b1, b2);
    EncodesAppend(done, [b0, b1, b2], 4096, digits[..2 * i], [x, y]);
    assert digits[..2 * (i + 1)] == digits[..2 * i] + [x, y];
  }

  /** Twelve bits: (lo | hi << j) & 0xfff, where n is 1 << j and k is 1 << (12 - j). */
  function Twelve12(lo: nat, hi: Byte, n: nat, k: nat): (x: nat)
    requires n * k == 0x1000 && lo < n && k > 0
    ensures x == lo + n * (hi % k) < 4096
  {
    TwelveBits(n, k);
    Twelve12Is(lo, hi, n, k);
    Low(Join(lo, hi, n), 0x1000)
  }

  lemma TwelveBits(n: nat, k: nat)
    requires n * k == 0x1000
    ensures IsPowerOfTwo(n) && IsPowerOfTwo(0x1000)
  {
    hide IsPowerOfTwo;
    Powers();
    PowerDivides(n, k, 0x1000);
  }

  lemma Twelve12Is(lo: nat, hi: Byte, n: nat, k: nat)
    requires n * k == 0x1000 && lo < n && k > 0 && IsPowerOfTwo(n) && IsPowerOfTwo(0x1000)
    ensures Low(Join(lo, hi, n), 0x1000) == lo + n * (hi % k) < 4096
  {
    hide Join, Low, IsPowerOfTwo;
    CutHigh(lo, hi, n, k);
  }

  lemma ByteMod(b: Byte)
    ensures b % 0x100 == b
  {
  }

  function First12(b0: Byte, b1: Byte): (x: nat)
    ensures x == b0 + 0x100 * (b1 % 0x10) < 4096
  {
    Twelve12(b0, b1, 0x100, 0x10)
  }

  function Second12(b1: Byte, b2: Byte): (y: nat)
    ensures y == b1 / 0x10 + 0x10 * b2 < 4096
  {
    ByteMod(b2);
    Twelve12(b1 / 0x10, b2, 0x10, 0x100)
  }

  method KPolyDecode12(r: array<int16>, a: seq<Byte>)
    requires r.Length == 256 && |a| == 384
    modifies r
    ensures Ints16(r[..]) == Decode(4096, a, 256)
  {
    hide Encodes, Decode, First12, Second12;
    var i := 0;
    ghost var digits: seq<int> := [];
    EncodesNothing(4096);
    assert a[..0] == [];
    while i < 128
      invariant 0 <= i <= 128 && |digits| == 2 * i && Below(4096, digits)
      invariant Encodes(a[..3 * i], 4096, digits)
      invariant forall p :: 0 <= p < 2 * i ==> r[p] as int == digits[p]
    {
      var x := First12(a[3 * i], a[3 * i + 1]);
      var y := Second12(a[3 * i + 1], a[3 * i + 2]);
      r[2 * i] := x as int16;
      r[2 * i + 1] := y as int16;
      digits := Read12(a, digits, i, x, y);
      i := i + 1;
    }
    assert a[..384] == a;
    EncodesUnique(a, 4096, digits);
    assert Ints16(r[..]) == digits;
  }

  lemma Read12(a: seq<Byte>, digits: seq<int>, i: nat, x: nat, y: nat) returns (next: seq<int>)
    requires 3 * i + 3 <= |a| && Encodes(a[..3 * i], 4096, digits) && Below(4096, digits)
    requires x == First12(a[3 * i], a[3 * i + 1]) && y == Second12(a[3 * i + 1], a[3 * i + 2])
    ensures next == digits + [x, y] && Encodes(a[..3 * (i + 1)], 4096, next) && Below(4096, next)
  {
    next := digits + [x, y];
    Twelve(x, y, a[3 * i], a[3 * i + 1], a[3 * i + 2]);
    EncodesAppend(a[..3 * i], [a[3 * i], a[3 * i + 1], a[3 * i + 2]], 4096, digits, [x, y]);
    assert a[..3 * (i + 1)] == a[..3 * i] + [a[3 * i], a[3 * i + 1], a[3 * i + 2]];
  }
}
