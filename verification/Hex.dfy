/** Byte strings as text: raw bytes or hexadecimal digits, as every key and ciphertext crosses the interface. */
module Hex {
  import opened Bits

  datatype Option<+T> = None | Some(value: T)

  /** The value of a hexadecimal digit in either case, or -1. */
  function DigitValue(c: Byte): (v: int)
    ensures -1 <= v < 16
  {
    if '0' as int <= c <= '9' as int then c - '0' as int
    else if 'a' as int <= c <= 'f' as int then c - 'a' as int + 10
    else if 'A' as int <= c <= 'F' as int then c - 'A' as int + 10
    else -1
  }

  function DigitChar(v: nat): (c: Byte)
    requires v < 16
    ensures DigitValue(c) == v
  {
    if v < 10 then '0' as int + v else 'a' as int + (v - 10)
  }

  predicate IsDigit(c: Byte) {
    DigitValue(c) >= 0
  }

  predicate AllDigits(s: seq<Byte>) {
    forall i :: 0 <= i < |s| ==> IsDigit(s[i])
  }

  const LOWER := "0123456789abcdef"
  const UPPER := "0123456789ABCDEF"

  /** The sixteen digits, in both cases; lower case is written. */
  lemma DigitsAre(v: nat)
    requires v < 16
    ensures DigitValue(LOWER[v] as int) == v && DigitValue(UPPER[v] as int) == v && DigitChar(v) == LOWER[v] as int
  {
  }

  /** Nothing else is a digit. */
  lemma OnlyDigits(c: Byte)
    requires IsDigit(c)
    ensures c == LOWER[DigitValue(c)] as int || c == UPPER[DigitValue(c)] as int
  {
  }

  /** The byte that two digits spell. */
  function Pair(hi: Byte, lo: Byte): (b: Byte)
    requires IsDigit(hi) && IsDigit(lo)
    ensures b == 16 * DigitValue(hi) + DigitValue(lo)
  {
    Join(DigitValue(lo), DigitValue(hi), 0x10)
  }

  function FromHex(s: seq<Byte>): (b: seq<Byte>)
    requires |s| % 2 == 0 && AllDigits(s)
    ensures |b| == |s| / 2
  {
    seq(|s| / 2, (i: nat) requires i < |s| / 2 => Pair(s[2 * i], s[2 * i + 1]))
  }

  function ToHex(b: seq<Byte>): (s: seq<Byte>)
    ensures |s| == 2 * |b|
  {
    seq(2 * |b|, (i: nat) requires i < 2 * |b| => HexAt(b, i))
  }

  function HexAt(b: seq<Byte>, i: nat): (c: Byte)
    requires i < 2 * |b|
  {
    DigitChar(if i % 2 == 0 then b[i / 2] / 0x10 else b[i / 2] % 0x10)
  }

  /** Hexadecimal text determines its bytes. */
  lemma FromToHex(b: seq<Byte>)
    ensures AllDigits(ToHex(b)) && FromHex(ToHex(b)) == b
  {
    hide DigitValue, DigitChar, Pair;
    forall i | 0 <= i < |b| ensures FromHex(ToHex(b))[i] == b[i] {
      assert ToHex(b)[2 * i] == DigitChar(b[i] / 0x10) && ToHex(b)[2 * i + 1] == DigitChar(b[i] % 0x10);
    }
  }

  lemma ToHexAppend(a: seq<Byte>, b: seq<Byte>)
    ensures ToHex(a + b) == ToHex(a) + ToHex(b)
  {
  }

  /** What a field of n bytes holds after loading a text: the raw bytes, the decoded digits, or nothing. */
  function Loaded(s: seq<Byte>, n: nat): (b: Option<seq<Byte>>)
    ensures b.Some? ==> |b.value| == n
  {
    if |s| == n then Some(s)
    else if |s| == 2 * n && AllDigits(s) then Some(FromHex(s))
    else None
  }

  lemma LoadedHex(b: seq<Byte>)
    requires b != []
    ensures Loaded(ToHex(b), |b|) == Some(b)
  {
    FromToHex(b);
  }

  method Load(s: seq<Byte>, out: array<Byte>) returns (ok: bool)
    modifies out
    ensures ok == Loaded(s, out.Length).Some?
    ensures ok ==> out[..] == Loaded(s, out.Length).value
  {
    if |s| == out.Length {
      var i := 0;
      while i < |s|
        invariant 0 <= i <= |s| && forall p :: 0 <= p < i ==> out[p] == s[p]
      {
        out[i] := s[i];
        i := i + 1;
      }
      return true;
    }
    if |s| == 2 * out.Length {
      var i := 0;
      while i < out.Length
        invariant 0 <= i <= out.Length
        invariant forall p :: 0 <= p < 2 * i ==> IsDigit(s[p])
        invariant forall p :: 0 <= p < i ==> out[p] == Pair(s[2 * p], s[2 * p + 1])
      {
        if DigitValue(s[2 * i]) < 0 || DigitValue(s[2 * i + 1]) < 0 {
          return false;
        }
        out[i] := Pair(s[2 * i], s[2 * i + 1]);
        i := i + 1;
      }
      return true;
    }
    return false;
  }

  /** The digits of a and then of b. */
  method HexCat(a: seq<Byte>, b: seq<Byte>) returns (s: array<Byte>)
    ensures fresh(s) && s[..] == ToHex(a + b)
  {
    hide DigitValue;
    s := new Byte[2 * (|a| + |b|)];
    ghost var all := a + b;
    var i := 0;
    while i < |a|
      invariant 0 <= i <= |a| && forall p :: 0 <= p < 2 * i ==> s[p] == HexAt(all, p)
    {
      s[2 * i] := DigitChar(a[i] / 0x10);
      s[2 * i + 1] := DigitChar(a[i] % 0x10);
      i := i + 1;
    }
    i := 0;
    while i < |b|
      invariant 0 <= i <= |b| && forall p :: 0 <= p < 2 * (|a| + i) ==> s[p] == HexAt(all, p)
    {
      s[2 * (|a| + i)] := DigitChar(b[i] / 0x10);
      s[2 * (|a| + i) + 1] := DigitChar(b[i] % 0x10);
      i := i + 1;
    }
    assert s[..] == ToHex(all);
  }
}
