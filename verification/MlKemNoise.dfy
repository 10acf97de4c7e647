/** The centred binomial sampler of ML-KEM-768: sums of two bits minus sums of two bits, sixteen pairs at a time. */
module MlKemNoise {
  import opened Bits
  import opened Radix
  import opened Words

  /** Coefficient i from its four bits. */
  function CbdAt(bits: seq<int>, i: nat): (x: int)
    requires 4 * i + 4 <= |bits|
  {
    bits[4 * i] + bits[4 * i + 1] - bits[4 * i + 2] - bits[4 * i + 3]
  }

  /** The polynomial that 128 random bytes stand for. */
  function Cbd2(buf: seq<Byte>): (v: seq<int>)
    requires |buf| == 128
    ensures |v| == 256 && forall i :: 0 <= i < 256 ==> -2 <= v[i] <= 2
  {
    var bits := Decode(2, buf, 1024);
    seq(256, (i: nat) requires i < 256 => CbdAt(bits, i))
  }

  /** The mask 0101...01 of 2n bits. */
  function Alternating(n: nat): (m: nat) {
    if n == 0 then 0 else 1 + 4 * Alternating(n - 1)
  }

  /** The bits of t added in pairs: sixteen sums side by side when n is 16. */
  function PairSums(t: nat, n: nat): (d: nat) {
    And(t, Alternating(n)) + And(t / 2, Alternating(n))
  }

  lemma AndAlternating(t: nat, m: nat)
    ensures And(t, 1 + 4 * m) == t % 2 + 4 * And(t / 4, m)
  {
    hide And;
    AndStep(t, 1 + 4 * m);
    AndStep(t / 2, 2 * m);
    assert (1 + 4 * m) / 2 == 2 * m && (2 * m) / 2 == m && (t / 2) / 2 == t / 4;
  }

  lemma PairSumsStep(t: nat, n: nat)
    requires n > 0
    ensures PairSums(t, n) == (t % 2 + (t / 2) % 2) + 4 * PairSums(t / 4, n - 1)
  {
    hide And;
    var m := Alternating(n - 1);
    AndAlternating(t, m);
    AndAlternating(t / 2, m);
    assert (t / 2) / 4 == (t / 4) / 2;
  }

  /** The base-4 digits of the pair sums are sums of two bits: no carry leaves its pair. */
  lemma {:induction false} PairSumDigits(t: nat, n: nat, k: nat)
    requires k < n
    ensures Digits(4, PairSums(t, n), n)[k] == Digits(2, t, 2 * n)[2 * k] + Digits(2, t, 2 * n)[2 * k + 1]
    decreases n
  {
    hide PairSums;
    var d, e := PairSums(t, n), PairSums(t / 4, n - 1);
    PairSumsStep(t, n);
    assert d % 4 == t % 2 + (t / 2) % 2 && d / 4 == e;
    TwoBits(t, 2 * n);
    assert Digits(4, d, n) == [d % 4] + Digits(4, e, n - 1);
    if k > 0 {
      PairSumDigits(t / 4, n - 1, k - 1);
    }
  }

  lemma TwoBits(t: nat, n: nat)
    requires n >= 2
    ensures Digits(2, t, n) == [t % 2, (t / 2) % 2] + Digits(2, t / 4, n - 2)
  {
    assert Digits(2, t, n) == [t % 2] + Digits(2, t / 2, n - 1);
    assert Digits(2, t / 2, n - 1) == [(t / 2) % 2] + Digits(2, t / 4, n - 2);
  }

  lemma MaskIs16Pairs()
    ensures Alternating(16) == 0x5555_5555
  {
    assert Alternating(8) == 0x5555;
    assert Alternating(12) == 0x55_5555;
  }

  lemma ThirtyTwoBits()
    ensures Pow(0x100, 4) == Pow(2, 32) == 0x1_0000_0000
  {
    assert Pow(0x100, 4) == 0x1_0000_0000;
    assert Pow(2, 8) == 0x100;
    PowAdd(2, 8, 8);
    PowAdd(2, 16, 16);
  }

  lemma LoadBits(b: seq<Byte>)
    requires |b| == 4
    ensures Encodes(b, 2, Digits(2, Load32(b), 32))
  {
    hide Pow, Number, Digits, Load32;
    ThirtyTwoBits();
    NumberOfDigits(2, Load32(b), 32);
  }

  /** Two base-4 digits of the pair sums make a coefficient. */
  lemma CoefficientOf(t: nat, j: nat)
    requires j < 8
    ensures DigitAt(4, PairSums(t, 16), Pow(4, 2 * j)) as int - DigitAt(4, PairSums(t, 16), Pow(4, 2 * j + 1)) as int
         == CbdAt(Digits(2, t, 32), j)
    ensures -2 <= CbdAt(Digits(2, t, 32), j) <= 2
  {
    hide PairSums, DigitAt, Digits, Pow;
    DigitOf(4, PairSums(t, 16), 2 * j, 16);
    DigitOf(4, PairSums(t, 16), 2 * j + 1, 16);
    PairSumDigits(t, 16, 2 * j);
    PairSumDigits(t, 16, 2 * j + 1);
  }

  lemma CbdAppend(bits: seq<int>, group: seq<int>, n: nat)
    requires |bits| == 4 * n && |group| == 32
    ensures forall p :: 0 <= p < n ==> CbdAt(bits + group, p) == CbdAt(bits, p)
    ensures forall p :: n <= p < n + 8 ==> CbdAt(bits + group, p) == CbdAt(group, p - n)
  {
  }

  method KCbd2(r: array<int16>, buf: seq<Byte>)
    requires r.Length == 256 && |buf| == 128
    modifies r
    ensures Ints16(r[..]) == Cbd2(buf)
  {
    hide Encodes, Decode, Digits, DigitAt, Load32, And, PairSums, Pow;
    ghost var bits: seq<int> := [];
    var i := 0;
    EncodesNothing(2);
    assert buf[..0] == [];
    while i < 32
      invariant 0 <= i <= 32 && |bits| == 32 * i && Below(2, bits) && Encodes(buf[..4 * i], 2, bits)
      invariant forall p :: 0 <= p < 8 * i ==> r[p] as int == CbdAt(bits, p)
    {
      var t := Load32(buf[4 * i..4 * i + 4]);
      var d := And(t, 0x5555_5555);
      d := d + And(t / 2, 0x5555_5555);
      MaskIs16Pairs();
      assert d == PairSums(t, 16) by { SumIs(t); }
      ghost var group := Digits(2, t, 32);
      FillEight(r, 8 * i, t, d);
      LoadBits(buf[4 * i..4 * i + 4]);
      EncodesAppend(buf[..4 * i], buf[4 * i..4 * i + 4], 2, bits, group);
      assert buf[..4 * (i + 1)] == buf[..4 * i] + buf[4 * i..4 * i + 4];
      CbdAppend(bits, group, 8 * i);
      bits := bits + group;
      i := i + 1;
    }
    assert buf[..128] == buf;
    EncodesUnique(buf, 2, bits);
    assert Ints16(r[..]) == Cbd2(buf);
  }

  lemma SumIs(t: nat)
    ensures PairSums(t, 16) == And(t, 0x5555_5555) + And(t / 2, 0x5555_5555)
  {
    MaskIs16Pairs();
  }

  method FillEight(r: array<int16>, at: nat, ghost t: nat, d: nat)
    requires r.Length == 256 && at + 8 <= 256 && d == PairSums(t, 16)
    modifies r
    ensures forall p :: 0 <= p < at || at + 8 <= p < 256 ==> r[p] == old(r[p])
    ensures forall j :: 0 <= j < 8 ==> r[at + j] as int == CbdAt(Digits(2, t, 32), j)
  {
    hide Digits, DigitAt, PairSums, Pow;
    var j, weight := 0, 1;
    assert Pow(4, 0) == 1 by { PowStep(4, 0); }
    while j < 8
      invariant 0 <= j <= 8 && weight == Pow(4, 2 * j)
      invariant forall p :: 0 <= p < at || at + 8 <= p < 256 ==> r[p] == old(r[p])
      invariant forall k :: 0 <= k < j ==> r[at + k] as int == CbdAt(Digits(2, t, 32), k)
    {
      PowStep(4, 2 * j + 1);
      PowStep(4, 2 * j + 2);
      CoefficientOf(t, j);
      var a := DigitAt(4, d, weight);
      var b := DigitAt(4, d, 4 * weight);
      r[at + j] := a as int16 - b as int16;
      weight := 16 * weight;
      j := j + 1;
    }
  }

  lemma PowStep(r: nat, n: nat)
    requires r > 0
    ensures Pow(r, n) == if n == 0 then 1 else r * Pow(r, n - 1)
  {
  }
}
