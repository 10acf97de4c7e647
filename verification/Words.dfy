/** Machine words. A value that leaves its range is a verification error, so every addition, subtraction and
    multiplication of words below is also a proof that the C operation does not overflow. */
module Words {
  newtype int16 = x: int | -0x8000 <= x < 0x8000
  newtype int32 = x: int | -0x8000_0000 <= x < 0x8000_0000
  newtype int64 = x: int | -0x8000_0000_0000_0000 <= x < 0x8000_0000_0000_0000

  /** The C cast to int16_t: keep the low 16 bits as a two's complement number. */
  function Wrap16(x: int): (r: int16)
    ensures (x - r as int) % 0x1_0000 == 0
  {
    ((x + 0x8000) % 0x1_0000 - 0x8000) as int16
  }

  /** The C cast to int32_t, and the product of int32_t values that keeps the low 32 bits. */
  function Wrap32(x: int): (r: int32)
    ensures (x - r as int) % 0x1_0000_0000 == 0
  {
    ((x + 0x8000_0000) % 0x1_0000_0000 - 0x8000_0000) as int32
  }

  function Ints32(s: seq<int32>): (r: seq<int>)
    ensures |r| == |s| && forall i :: 0 <= i < |s| ==> r[i] == s[i] as int
  {
    seq(|s|, i requires 0 <= i < |s| => s[i] as int)
  }

  function Ints16(s: seq<int16>): (r: seq<int>)
    ensures |r| == |s| && forall i :: 0 <= i < |s| ==> r[i] == s[i] as int
  {
    seq(|s|, i requires 0 <= i < |s| => s[i] as int)
  }

  /** A bound on a product from bounds on its factors. */
  lemma ProductBound(x: int, y: int, a: int, b: int)
    requires -a <= x <= a && -b <= y <= b
    ensures -(a * b) <= x * y <= a * b
  {
    var m := if x < 0 then -x else x;
    MulMonotone(m, y, b);
    MulMonotone(m, -b, y);
    MulMonotone(b, m, a);
    assert x * y == m * y || x * y == -(m * y);
    assert m * -b == -(m * b) && m * b == b * m && b * a == a * b;
  }

  lemma MulMonotone(m: int, x: int, y: int)
    requires m >= 0 && x <= y
    ensures m * x <= m * y
  {
  }
}
