/** The challenge polynomial of ML-DSA-65 (algorithm 29 of FIPS 204), and why products with it are small. */
module MlDsaChallenge {
  import opened Bits
  import opened Hex
  import opened Radix
  import RingProduct
  import opened Sums
  import opened Words

  const TAU := 49
  const ETA := 4

  datatype Ball = Ball(c: seq<int>, pos: nat)

  /** Where the first byte of the stream is, from pos on, that is at most i. */
  function Next(buf: seq<Byte>, pos: nat, i: nat): (q: Option<nat>)
    ensures q.Some? ==> pos <= q.value < |buf| && buf[q.value] <= i
    decreases |buf| - pos
  {
    if pos >= |buf| then None else if buf[pos] <= i then Some(pos) else Next(buf, pos + 1, i)
  }

  /** (-1)^h where h is bit k of the first eight bytes. */
  function SignAt(buf: seq<Byte>, k: nat): (s: int)
    requires |buf| >= 8
    ensures s == 1 || s == -1
  {
    1 - 2 * ((Number(0x100, buf[..8]) / Pow(2, k)) % 2)
  }

  /** The polynomial after n of the 49 placements, and the position in the stream. */
  function Placed(buf: seq<Byte>, n: nat): (b: Option<Ball>)
    requires |buf| >= 8 && n <= TAU
    ensures b.Some? ==> |b.value.c| == 256
  {
    if n == 0 then Some(Ball(seq(256, _ => 0), 8))
    else
      match Placed(buf, n - 1)
      case None => None
      case Some(b) =>
        match Next(buf, b.pos, 206 + n)
        case None => None
        case Some(q) => Some(Ball(b.c[206 + n := b.c[buf[q]]][buf[q] as int := SignAt(buf, n - 1)], q + 1))
  }

  // ----- the challenge is sparse -----

  ghost function Magnitude(x: int): nat {
    if x < 0 then -x else x
  }

  ghost function Weight(c: seq<int>): nat {
    Total(c, Magnitude)
  }

  ghost predicate Ternary(c: seq<int>) {
    forall p :: 0 <= p < |c| ==> -1 <= c[p] <= 1
  }

  /** One placement adds one coefficient 1 or -1 and keeps all others, at their place or moved to the end. */
  lemma PlaceOne(c: seq<int>, i: nat, b: nat, s: int)
    requires |c| == 256 && b <= i < 256 && c[i] == 0 && Ternary(c) && (s == 1 || s == -1)
    ensures var d := c[i := c[b]][b := s];
      Weight(d) == Weight(c) + 1 && Ternary(d) && forall p :: i < p < 256 ==> d[p] == c[p]
  {
    var e := c[i := c[b]];
    TotalUpdate(c, Magnitude, i, c[b]);
    TotalUpdate(e, Magnitude, b, s);
    assert e[b] == c[b];
  }

  lemma {:induction false} PlacedWeight(buf: seq<Byte>, n: nat)
    requires |buf| >= 8 && n <= TAU && Placed(buf, n).Some?
    ensures var c := Placed(buf, n).value.c;
      Weight(c) == n && Ternary(c) && forall p :: 207 + n <= p < 256 ==> c[p] == 0
  {
    hide SignAt, Next, Weight;
    if n == 0 {
      NoWeight(Placed(buf, 0).value.c);
    } else {
      PlacedWeight(buf, n - 1);
      var b := Placed(buf, n - 1).value;
      var q := Next(buf, b.pos, 206 + n).value;
      PlaceOne(b.c, 206 + n, buf[q], SignAt(buf, n - 1));
    }
  }

  function IsNegative(x: int): nat {
    if x < 0 then 1 else 0
  }

  ghost function Negatives(c: seq<int>): nat {
    Total(c, IsNegative)
  }

  /** How many of the n low bits of the sign word are 1. */
  function SignBits(buf: seq<Byte>, n: nat): (k: nat)
    requires |buf| >= 8
  {
    if n == 0 then 0 else SignBits(buf, n - 1) + Number(0x100, buf[..8]) / Pow(2, n - 1) % 2
  }

  /** Among the placed coefficients exactly as many are -1 as sign bits are 1. */
  lemma {:induction false} PlacedSigns(buf: seq<Byte>, n: nat)
    requires |buf| >= 8 && n <= TAU && Placed(buf, n).Some?
    ensures Negatives(Placed(buf, n).value.c) == SignBits(buf, n)
  {
    hide Next, Weight, Number, Pow, Ternary;
    if n == 0 {
      TotalZero(Placed(buf, 0).value.c, IsNegative);
    } else {
      PlacedSigns(buf, n - 1);
      PlacedWeight(buf, n - 1);
      var b := Placed(buf, n - 1).value;
      var q := Next(buf, b.pos, 206 + n).value;
      SignMoves(b.c, 206 + n, buf[q], SignAt(buf, n - 1));
    }
  }

  lemma SignMoves(c: seq<int>, i: nat, b: nat, s: int)
    requires |c| == 256 && b <= i < 256 && c[i] == 0
    ensures Negatives(c[i := c[b]][b := s]) == Negatives(c) + IsNegative(s)
  {
    var e := c[i := c[b]];
    TotalUpdate(c, IsNegative, i, c[b]);
    TotalUpdate(e, IsNegative, b, s);
    assert e[b] == c[b];
  }

  lemma NoWeight(c: seq<int>)
    requires forall p :: 0 <= p < |c| ==> c[p] == 0
    ensures Weight(c) == 0
  {
    TotalZero(c, Magnitude);
  }

  lemma {:induction false} SparseTerms(a: seq<int>, b: seq<int>, e: int, k: nat, m: nat)
    requires e >= 0 && |a| == |b| == 256 && k < 256 && m <= 256 && forall p :: 0 <= p < 256 ==> -e <= b[p] <= e
    ensures Magnitude(RingProduct.ProductAt(a, b, k, m)) <= Weight(a[..m]) * e
  {
    if m > 0 {
      SparseTerms(a, b, e, k, m - 1);
      assert a[..m] == a[..m - 1] + [a[m - 1]];
      TotalAppend(a[..m - 1], Magnitude, a[m - 1]);
      TermBound(a[m - 1], RingProduct.RotAt(b, m - 1, k), e);
      WeightTimes(Weight(a[..m - 1]), Magnitude(a[m - 1]), e);
    }
  }

  lemma TermBound(x: int, y: int, e: int)
    requires e >= 0 && -e <= y <= e
    ensures Magnitude(x * y) <= Magnitude(x) * e
  {
    ProductBound(x, y, Magnitude(x), e);
  }

  lemma WeightTimes(x: nat, y: nat, e: int)
    ensures (x + y) * e == x * e + y * e
  {
  }

  /** A product in Z[X]/(X^256+1) is bounded by the weight of one factor and the norm of the other. */
  lemma SparseProduct(a: seq<int>, b: seq<int>, e: int, k: nat)
    requires e >= 0 && |a| == |b| == 256 && k < 256 && forall p :: 0 <= p < 256 ==> -e <= b[p] <= e
    ensures Magnitude(RingProduct.NegaMul(a, b)[k]) <= Weight(a) * e
  {
    SparseTerms(a, b, e, k, 256);
    assert a[..256] == a;
  }

  /** Challenge times secret never exceeds 49 * 4 = 196, the distance BETA that signing keeps from its bounds. */
  lemma ChallengeProduct(buf: seq<Byte>, s: seq<int>, k: nat)
    requires |buf| >= 8 && Placed(buf, TAU).Some? && |s| == 256 && k < 256
    requires forall p :: 0 <= p < 256 ==> -ETA <= s[p] <= ETA
    ensures -196 <= RingProduct.NegaMul(Placed(buf, TAU).value.c, s)[k] <= 196
  {
    hide Placed, RingProduct.NegaMul;
    PlacedWeight(buf, TAU);
    SparseProduct(Placed(buf, TAU).value.c, s, ETA, k);
  }

  // ----- the program -----

  method LoadSigns(buf: seq<Byte>) returns (signs: nat)
    requires |buf| >= 8
    ensures signs == Number(0x100, buf[..8])
  {
    hide Number, Pow, Join;
    signs := 0;
    var i := 0;
    assert Number(0x100, buf[..0]) == 0 by { EmptyNumber(buf); }
    while i < 8
      invariant 0 <= i <= 8 && signs == Number(0x100, buf[..i])
    {
      BytesArePower(i);
      NumberBound(0x100, buf[..i]);
      NextByte(buf, i);
      signs := Join(signs, buf[i], Pow(0x100, i));
      i := i + 1;
    }
  }

  lemma {:induction false} BytesArePower(n: nat)
    ensures IsPowerOfTwo(Pow(0x100, n))
  {
    hide IsPowerOfTwo;
    if n == 0 {
      assert IsPowerOfTwo(1) by { OneIsPower(); }
    } else {
      BytesArePower(n - 1);
      ByteIsPower();
      PowerProduct(0x100, Pow(0x100, n - 1));
    }
  }

  lemma EmptyNumber(buf: seq<Byte>)
    ensures Number(0x100, buf[..0]) == 0
  {
  }

  lemma NextByte(buf: seq<Byte>, i: nat)
    requires i < |buf|
    ensures Number(0x100, buf[..i + 1]) == Number(0x100, buf[..i]) + buf[i] * Pow(0x100, i)
  {
    assert buf[..i + 1] == buf[..i] + [buf[i]];
    NumberAppend(0x100, buf[..i], [buf[i]]);
    assert Number(0x100, [buf[i]]) == buf[i];
  }

  lemma NextBit(x: nat, k: nat)
    ensures x / Pow(2, k + 1) == (x / Pow(2, k)) / 2
  {
    var p := Pow(2, k);
    var q, r := x / p, x % p;
    assert x == q * p + r;
    assert q * p == (q / 2) * (2 * p) + (q % 2) * p by {
      assert q == (q / 2) * 2 + q % 2;
      Halves(q / 2, q % 2, p);
    }
    assert 0 <= (q % 2) * p <= p;
    DivUnique(x, 2 * p, q / 2, (q % 2) * p + r);
  }

  lemma Halves(h: nat, b: nat, p: nat)
    ensures (h * 2 + b) * p == h * (2 * p) + b * p
  {
  }

  /** The shuffle in place. False when the stream is too short, a case the source leaves open. */
  method DPolyChallenge(c: array<int32>, buf: seq<Byte>) returns (ok: bool)
    requires c.Length == 256 && |buf| >= 8
    modifies c
    ensures ok <==> Placed(buf, TAU).Some?
    ensures ok ==> Ints32(c[..]) == Placed(buf, TAU).value.c
  {
    hide Number, Pow, Next, SignAt;
    var signs := LoadSigns(buf);
    var pos := 8;
    var z := 0;
    while z < 256
      invariant 0 <= z <= 256 && forall p :: 0 <= p < z ==> c[p] == 0
    {
      c[z] := 0;
      z := z + 1;
    }
    assert Ints32(c[..]) == seq(256, _ => 0);
    assert Pow(2, 0) == 1 by { PowZero(); }
    var n := 0;
    while n < TAU
      invariant 0 <= n <= TAU && Placed(buf, n) == Some(Ball(Ints32(c[..]), pos))
      invariant signs == Number(0x100, buf[..8]) / Pow(2, n)
    {
      var i := 207 + n;
      var found, b, q := NextByteUpTo(buf, pos, i);
      if !found {
        NeverPlaced(buf, n + 1, TAU);
        return false;
      }
      pos := q;
      ghost var s := Ints32(c[..]);
      c[i] := c[b];
      SignIs(buf, n);
      c[b] := 1 - 2 * (signs % 2) as int32;
      NextBit(Number(0x100, buf[..8]), n);
      signs := signs / 2;
      assert Ints32(c[..]) == s[i := s[b]][b as int := SignAt(buf, n)];
      n := n + 1;
    }
    return true;
  }

  lemma PowZero()
    ensures Pow(2, 0) == 1
  {
  }

  lemma SignIs(buf: seq<Byte>, k: nat)
    requires |buf| >= 8
    ensures SignAt(buf, k) == 1 - 2 * ((Number(0x100, buf[..8]) / Pow(2, k)) % 2)
  {
  }

  lemma {:induction false} NeverPlaced(buf: seq<Byte>, m: nat, n: nat)
    requires |buf| >= 8 && m <= n <= TAU && Placed(buf, m).None?
    ensures Placed(buf, n).None?
  {
    if m < n {
      NeverPlaced(buf, m, n - 1);
    }
  }

  /** The inner loop: read bytes until one is at most i. */
  method NextByteUpTo(buf: seq<Byte>, pos0: nat, i: nat) returns (found: bool, b: Byte, pos: nat)
    ensures found <==> Next(buf, pos0, i).Some?
    ensures found ==> pos == Next(buf, pos0, i).value + 1 && b == buf[pos - 1]
  {
    pos := pos0;
    b := 0;
    found := false;
    while pos < |buf| && !found
      invariant !found ==> Next(buf, pos, i) == Next(buf, pos0, i)
      invariant found ==> Next(buf, pos0, i) == Some(pos - 1) && b == buf[pos - 1]
      decreases |buf| - pos
    {
      b := buf[pos];
      found := b <= i;
      pos := pos + 1;
    }
  }
}
