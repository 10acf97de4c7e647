/** The sponge of section 4 of FIPS 202 around Keccak-f: SHA3 and SHAKE, on byte strings. */
module Sponge {
  import opened Bits
  import opened Keccak

  type Octet = bv8

  predicate IsRate(rate: nat) {
    0 < rate <= 200 && rate % 8 == 0
  }

  // ----- bytes and lanes, least significant byte first -----

  function LaneOf(b: seq<Octet>): Lane
    requires |b| == 8
  {
    (b[0] as Lane) | ((b[1] as Lane) << 8) | ((b[2] as Lane) << 16) | ((b[3] as Lane) << 24)
    | ((b[4] as Lane) << 32) | ((b[5] as Lane) << 40) | ((b[6] as Lane) << 48) | ((b[7] as Lane) << 56)
  }

  function OctetAt(a: Lane, k: nat): Octet
    requires k < 8
  {
    match k
    case 0 => (a & 0xff) as Octet
    case 1 => ((a >> 8) & 0xff) as Octet
    case 2 => ((a >> 16) & 0xff) as Octet
    case 3 => ((a >> 24) & 0xff) as Octet
    case 4 => ((a >> 32) & 0xff) as Octet
    case 5 => ((a >> 40) & 0xff) as Octet
    case 6 => ((a >> 48) & 0xff) as Octet
    case _ => ((a >> 56) & 0xff) as Octet
  }

  function StateOctets(s: State): (o: seq<Octet>)
    ensures |o| == 200
  {
    seq(200, (k: nat) requires k < 200 => OctetAt(s[k / 8], k % 8))
  }

  /** The bits of an octet, least significant first. */
  function BitAt(b: Octet, j: nat): bool
    requires j < 8
  {
    match j
    case 0 => b & 0x01 != 0 case 1 => b & 0x02 != 0 case 2 => b & 0x04 != 0 case 3 => b & 0x08 != 0
    case 4 => b & 0x10 != 0 case 5 => b & 0x20 != 0 case 6 => b & 0x40 != 0 case _ => b & 0x80 != 0
  }

  function BitString(o: seq<Octet>): (s: seq<bool>)
    ensures |s| == 8 * |o|
  {
    seq(8 * |o|, (i: nat) requires i < 8 * |o| => BitAt(o[i / 8], i % 8))
  }

  // ----- the sponge -----

  function Zeros(n: nat): (o: seq<Octet>)
    ensures |o| == n
  {
    seq(n, _ => 0)
  }

  function Tail(k: nat, ds: Octet): (o: seq<Octet>)
    requires 0 < k
    ensures |o| == k
  {
    if k == 1 then [ds ^ 0x80] else [ds] + Zeros(k - 2) + [0x80]
  }

  function Room(n: nat, rate: nat): (k: nat)
    requires IsRate(rate)
    ensures 0 < k <= rate
  {
    rate - n % rate
  }

  function Padded(m: seq<Octet>, rate: nat, ds: Octet): seq<Octet>
    requires IsRate(rate)
  {
    m + Tail(Room(|m|, rate), ds)
  }

  function Xored(s: State, block: seq<Octet>): State
    requires |block| <= 200 && |block| % 8 == 0
  {
    seq(25, (i: nat) requires i < 25 => if 8 * i < |block| then Xor2(s[i], LaneOf(block[8 * i..8 * i + 8])) else s[i])
  }

  function Absorbed(s: State, m: seq<Octet>, rate: nat): State
    requires IsRate(rate)
    decreases |m|
  {
    if |m| < rate then s else Absorbed(Permutation(Xored(s, m[..rate])), m[rate..], rate)
  }

  function Squeezed(s: State, n: nat, rate: nat): (o: seq<Octet>)
    requires IsRate(rate)
    ensures |o| == n
    decreases n
  {
    if n <= rate then StateOctets(s)[..n] else StateOctets(s)[..rate] + Squeezed(Permutation(s), n - rate, rate)
  }

  function Blank(): State {
    seq(25, _ => 0)
  }

  function Hash(m: seq<Octet>, n: nat, rate: nat, ds: Octet): (o: seq<Octet>)
    requires IsRate(rate)
    ensures |o| == n
  {
    Squeezed(Absorbed(Blank(), Padded(m, rate, ds), rate), n, rate)
  }

  // ----- what the sponge promises -----

  lemma LaneOctet(b: seq<Octet>, k: nat)
    requires |b| == 8 && k < 8
    ensures OctetAt(LaneOf(b), k) == b[k]
  {
    assert k == 0 || k == 1 || k == 2 || k == 3 || k == 4 || k == 5 || k == 6 || k == 7;
  }

  /** A shorter output is the beginning of a longer one. */
  lemma {:induction false} ShorterIsPrefix(s: State, m: nat, n: nat, rate: nat)
    requires IsRate(rate) && m <= n
    ensures Squeezed(s, m, rate) == Squeezed(s, n, rate)[..m]
    decreases n
  {
    hide StateOctets, Permutation;
    if n > rate && m > rate {
      ShorterIsPrefix(Permutation(s), m - rate, n - rate, rate);
    }
  }

  /** The state after t more permutations. */
  function Iterated(s: State, t: nat): State {
    if t == 0 then s else Permutation(Iterated(s, t - 1))
  }

  lemma {:induction false} IteratedNext(s: State, t: nat)
    ensures Iterated(Permutation(s), t) == Iterated(s, t + 1)
  {
    hide Permutation;
    if t > 0 {
      IteratedNext(s, t - 1);
    }
  }

  /** Octet r of block q of the output is octet r of the state after q more permutations. */
  lemma {:induction false} SqueezedAt(s: State, n: nat, rate: nat, q: nat, r: nat)
    requires IsRate(rate) && r < rate && q * rate + r < n
    ensures 0 <= q * rate + r && Squeezed(s, n, rate)[q * rate + r] == StateOctets(Iterated(s, q))[r]
    decreases q
  {
    hide StateOctets, Permutation;
    if q > 0 {
      BlocksBefore(q, rate);
      SqueezedAt(Permutation(s), n - rate, rate, q - 1, r);
      IteratedNext(s, q - 1);
    }
  }

  lemma BlocksBefore(q: nat, rate: nat)
    requires q > 0
    ensures q * rate == (q - 1) * rate + rate && (q - 1) * rate >= 0
  {
  }

  lemma BlockOn(k: nat, rate: nat)
    requires IsRate(rate) && k >= rate
    ensures k / rate == (k - rate) / rate + 1 && k % rate == (k - rate) % rate
  {
    var q, r := (k - rate) / rate, (k - rate) % rate;
    assert k == (q + 1) * rate + r;
    DivUnique(k, rate, q + 1, r);
  }

  lemma XorOctet(a: Lane, b: Lane, k: nat)
    requires k < 8
    ensures OctetAt(Xor2(a, b), k) == OctetAt(a, k) ^ OctetAt(b, k)
  {
    assert k == 0 || k == 1 || k == 2 || k == 3 || k == 4 || k == 5 || k == 6 || k == 7;
  }

  /** Taking in a block adds it to the first octets of the state, octet by octet, and leaves the capacity alone. */
  lemma XoredOctets(s: State, block: seq<Octet>, k: nat)
    requires |block| <= 200 && |block| % 8 == 0 && k < 200
    ensures StateOctets(Xored(s, block))[k] == if k < |block| then StateOctets(s)[k] ^ block[k] else StateOctets(s)[k]
  {
    hide OctetAt, LaneOf, Xor2;
    var i, j := k / 8, k % 8;
    if k < |block| {
      XorOctet(s[i], LaneOf(block[8 * i..8 * i + 8]), j);
      LaneOctet(block[8 * i..8 * i + 8], j);
    }
  }

  // ----- the padding, bit by bit -----

  /** The bits that separate the functions of FIPS 202 (sections 6.1 and 6.2). */
  function Suffix(ds: Octet): seq<bool>
    requires ds == 0x06 || ds == 0x1f
  {
    if ds == 0x06 then [false, true] else [true, true, true, true]
  }

  function Falses(n: nat): (s: seq<bool>)
    ensures |s| == n
  {
    seq(n, _ => false)
  }

  lemma ModRange(a: int, n: int)
    requires n > 0
    ensures 0 <= a % n < n
  {
  }

  /** pad10*1 of section 5.1: as many zeros between two ones as make the length a multiple of x. */
  function Pad101(x: nat, m: int): seq<bool>
    requires x > 0
  {
    var a := -m - 2;
    ModRange(a, x);
    [true] + Falses(a % x) + [true]
  }

  /** The separation octet and the last bit of a block are the suffix and pad10*1. */
  lemma PaddingIsPad101(m: seq<Octet>, rate: nat, ds: Octet)
    requires IsRate(rate) && (ds == 0x06 || ds == 0x1f)
    ensures |Padded(m, rate, ds)| % rate == 0
    ensures BitString(Padded(m, rate, ds)) == BitString(m) + Suffix(ds) + Pad101(8 * rate, 8 * |m| + |Suffix(ds)|)
  {
    hide Pad101, BitString, Tail, Falses;
    var k := Room(|m|, rate);
    PaddingLength(|m|, rate, |Suffix(ds)|);
    PaddingFills(|m|, rate, |Suffix(ds)|);
    TailBits(k, ds);
    BitsOfBoth(m, Tail(k, ds));
    assert BitString(m) + (Suffix(ds) + Pad101(8 * rate, 8 * |m| + |Suffix(ds)|))
        == BitString(m) + Suffix(ds) + Pad101(8 * rate, 8 * |m| + |Suffix(ds)|);
  }

  lemma PaddingLength(n: nat, rate: nat, d: nat)
    requires IsRate(rate) && d <= 6
    ensures (n + Room(n, rate)) % rate == 0
  {
    var q, r := n / rate, n % rate;
    assert n + Room(n, rate) == (q + 1) * rate + 0;
    DivUnique(n + Room(n, rate), rate, q + 1, 0);
  }

  lemma PaddingFills(n: nat, rate: nat, d: nat)
    requires IsRate(rate) && d <= 6
    ensures Pad101(8 * rate, 8 * n + d) == [true] + Falses(8 * Room(n, rate) - d - 2) + [true]
  {
    var q, r := n / rate, n % rate;
    assert -(8 * n + d) - 2 == -(q + 1) * (8 * rate) + (8 * Room(n, rate) - d - 2);
    DivUnique(-(8 * n + d) - 2, 8 * rate, -(q + 1), 8 * Room(n, rate) - d - 2);
  }

  lemma BitsOfBoth(a: seq<Octet>, b: seq<Octet>)
    ensures BitString(a + b) == BitString(a) + BitString(b)
  {
    hide BitAt;
  }

  lemma TailBits(k: nat, ds: Octet)
    requires 0 < k && (ds == 0x06 || ds == 0x1f)
    ensures BitString(Tail(k, ds)) == Suffix(ds) + ([true] + Falses(8 * k - |Suffix(ds)| - 2) + [true])
  {
  }

  // ----- the program -----

  /** Add a block to the state, lane by lane. */
  method XorBlock(st: array<Lane>, block: seq<Octet>)
    requires st.Length == 25 && |block| <= 200 && |block| % 8 == 0
    modifies st
    ensures st[..] == Xored(old(st[..]), block)
  {
    hide LaneOf, Xor2;
    var i := 0;
    while i < |block| / 8
      invariant 0 <= i <= |block| / 8
      invariant forall p :: 0 <= p < i ==> st[p] == Xor2(old(st[p]), LaneOf(block[8 * p..8 * p + 8]))
      invariant forall p :: i <= p < 25 ==> st[p] == old(st[p])
    {
      st[i] := Xor2(st[i], LaneOf(block[8 * i..8 * i + 8]));
      i := i + 1;
    }
  }

  /** The last block: what is left of the input, the separation octet and the final bit. */
  method LastBlock(rest: seq<Octet>, rate: nat, ds: Octet) returns (blk: array<Octet>)
    requires IsRate(rate) && |rest| < rate
    ensures fresh(blk) && blk.Length == 200 && blk[..rate] == Padded(rest, rate, ds)
  {
    blk := new Octet[200](_ => 0);
    var i := 0;
    while i < |rest|
      invariant 0 <= i <= |rest|
      invariant forall p :: 0 <= p < 200 ==> blk[p] == if p < i then rest[p] else 0
    {
      blk[i] := rest[i];
      i := i + 1;
    }
    FreshBits(ds);
    blk[|rest|] := blk[|rest|] ^ ds;
    blk[rate - 1] := blk[rate - 1] ^ 0x80;
    FilledIsPadded(rest, rate, ds, blk[..rate]);
  }

  lemma FreshBits(ds: Octet)
    ensures 0 ^ ds == ds && (0 as Octet) ^ 0x80 == 0x80
  {
  }

  lemma FilledIsPadded(rest: seq<Octet>, rate: nat, ds: Octet, blk: seq<Octet>)
    requires IsRate(rate) && |rest| < rate == |blk|
    requires forall p :: 0 <= p < |rest| ==> blk[p] == rest[p]
    requires |rest| == rate - 1 ==> blk[rate - 1] == ds ^ 0x80
    requires |rest| < rate - 1 ==> blk[|rest|] == ds && blk[rate - 1] == 0x80
    requires forall p :: |rest| < p < rate - 1 ==> blk[p] == 0
    ensures blk == Padded(rest, rate, ds)
  {
    DivUnique(|rest|, rate, 0, |rest|);
  }

  /** Copy the first n octets of the state to the output at position p. */
  method CopyOut(st: array<Lane>, out: array<Octet>, p: nat, n: nat)
    requires st.Length == 25 && n <= 200 && p + n <= out.Length
    modifies out
    ensures out[..p] == old(out[..p]) && out[p..p + n] == StateOctets(st[..])[..n]
  {
    hide OctetAt;
    var k := 0;
    while k < n
      invariant 0 <= k <= n
      invariant forall i :: 0 <= i < p ==> out[i] == old(out[i])
      invariant forall i :: p <= i < p + k ==> out[i] == OctetAt(st[(i - p) / 8], (i - p) % 8)
    {
      out[p + k] := OctetAt(st[k / 8], k % 8);
      k := k + 1;
    }
  }

  lemma BlockOfPadded(m: seq<Octet>, rate: nat, ds: Octet)
    requires IsRate(rate) && |m| >= rate
    ensures |Padded(m, rate, ds)| >= rate
    ensures Padded(m, rate, ds)[..rate] == m[..rate] && Padded(m, rate, ds)[rate..] == Padded(m[rate..], rate, ds)
  {
    BlockOn(|m|, rate);
  }

  lemma OneBlock(s: State, block: seq<Octet>, rate: nat)
    requires IsRate(rate) && |block| == rate
    ensures Absorbed(s, block, rate) == Permutation(Xored(s, block))
  {
    hide Permutation, Xored;
    assert block[..rate] == block && |block[rate..]| < rate;
  }

  /** Take in whole blocks, then the padded last one. */
  method Absorb(st: array<Lane>, input: seq<Octet>, rate: nat, ds: Octet)
    requires st.Length == 25 && IsRate(rate)
    modifies st
    ensures st[..] == Absorbed(old(st[..]), Padded(input, rate, ds), rate)
  {
    hide Permutation, Xored, Padded;
    var pos := 0;
    while |input| - pos >= rate
      invariant 0 <= pos <= |input|
      invariant Absorbed(st[..], Padded(input[pos..], rate, ds), rate) == Absorbed(old(st[..]), Padded(input, rate, ds), rate)
    {
      BlockOfPadded(input[pos..], rate, ds);
      assert input[pos..][..rate] == input[pos..pos + rate] && input[pos..][rate..] == input[pos + rate..];
      XorBlock(st, input[pos..pos + rate]);
      KeccakF(st);
      pos := pos + rate;
    }
    var blk := LastBlock(input[pos..], rate, ds);
    OneBlock(st[..], blk[..rate], rate);
    XorBlock(st, blk[..rate]);
    KeccakF(st);
  }

  lemma SqueezeStep(done: seq<Octet>, s: State, m: nat, rate: nat)
    requires IsRate(rate) && m > 0
    ensures m <= rate ==> done + Squeezed(s, m, rate) == (done + StateOctets(s)[..m]) + Squeezed(s, 0, rate)
    ensures m > rate ==> done + Squeezed(s, m, rate) == (done + StateOctets(s)[..rate]) + Squeezed(Permutation(s), m - rate, rate)
  {
    hide Permutation, StateOctets;
  }

  /** Fill the output from the state, a block at a time. */
  method Squeeze(st: array<Lane>, out: array<Octet>, rate: nat)
    requires st.Length == 25 && IsRate(rate)
    modifies st, out
    ensures out[..] == Squeezed(old(st[..]), out.Length, rate)
  {
    hide Permutation, StateOctets, Squeezed;
    var p := 0;
    while p < out.Length
      invariant 0 <= p <= out.Length
      invariant out[..p] + Squeezed(st[..], out.Length - p, rate) == Squeezed(old(st[..]), out.Length, rate)
    {
      var n := if out.Length - p < rate then out.Length - p else rate;
      CopyOut(st, out, p, n);
      SqueezeStep(out[..p], st[..], out.Length - p, rate);
      assert out[..p + n] == out[..p] + out[p..p + n];
      p := p + n;
      if p < out.Length {
        KeccakF(st);
      }
    }
  }

  method AbsorbSqueeze(input: seq<Octet>, out: array<Octet>, rate: nat, ds: Octet)
    requires IsRate(rate)
    modifies out
    ensures out[..] == Hash(input, out.Length, rate, ds)
  {
    hide Absorbed, Squeezed, Padded;
    var st := new Lane[25](_ => 0);
    assert st[..] == Blank();
    Absorb(st, input, rate, ds);
    Squeeze(st, out, rate);
  }
}
