/** Signatures of ML-DSA-65 as 3309 bytes: the challenge, five responses, and the hint. */
module MlDsaSignature {
  import opened Bits
  import opened Radix
  import opened MlDsaPacking
  import opened MlDsaHints
  import opened Words

  const DL := 5
  const CTILDE := 48

  type Poly = seq<int32>

  /** Coefficients that 20 bits below 2^19 can hold: (-2^19, 2^19]. */
  predicate IsResponse(z: seq<Poly>) {
    |z| == DL && forall i :: 0 <= i < DL ==> |z[i]| == 256 && Fits(GAMMA1, 0x10_0000, z[i])
  }

  function Responses(z: seq<Poly>, n: nat): (b: seq<Byte>)
    requires IsResponse(z) && n <= DL
    ensures |b| == 640 * n
  {
    if n == 0 then [] else Responses(z, n - 1) + Encoding(0x10_0000, GAMMA1, z[n - 1], 640)
  }

  function Signature(c: seq<Byte>, z: seq<Poly>, h: seq<Row>): (s: seq<Byte>)
    requires |c| == CTILDE && IsResponse(z) && IsHint(h) && Count(h, DK) <= OMEGA
    ensures |s| == 3309
  {
    c + Responses(z, DL) + HintBytes(h)
  }

  /** The distances below 2^19 that the bytes of response i hold. */
  function ResponseDigits(s: seq<Byte>, i: nat): (d: seq<int>)
    requires |s| == 3309 && i < DL
    ensures |d| == 256
  {
    Decode(0x10_0000, s[CTILDE + 640 * i..CTILDE + 640 * i + 640], 256)
  }

  function HintPart(s: seq<Byte>): (b: seq<Byte>)
    requires |s| == 3309
    ensures |b| == OMEGA + DK
  {
    s[CTILDE + 640 * DL..]
  }

  /** What unpacking finds in a signature. */
  predicate Unpacks(s: seq<Byte>, c: seq<Byte>, z: seq<Poly>, h: seq<Row>)
    requires |s| == 3309
  {
    && c == s[..CTILDE]
    && |z| == DL && (forall i :: 0 <= i < DL ==> |z[i]| == 256 && DistancesBelow(GAMMA1, z[i]) == ResponseDigits(s, i))
    && Accepted(HintPart(s)) && h == HintsOf(HintPart(s))
  }

  lemma {:induction false} ResponseAt(z: seq<Poly>, n: nat, i: nat)
    requires IsResponse(z) && i < n <= DL
    ensures Responses(z, n)[640 * i..640 * i + 640] == Encoding(0x10_0000, GAMMA1, z[i], 640)
    decreases n
  {
    hide Encoding;
    if i < n - 1 {
      ResponseAt(z, n - 1, i);
      assert Responses(z, n)[640 * i..640 * i + 640] == Responses(z, n - 1)[640 * i..640 * i + 640];
    }
  }

  lemma SamePoly(a: Poly, b: Poly)
    requires |a| == |b| && DistancesBelow(GAMMA1, a) == DistancesBelow(GAMMA1, b)
    ensures a == b
  {
    forall i | 0 <= i < |a| ensures a[i] == b[i] {
      assert DistancesBelow(GAMMA1, a)[i] == DistancesBelow(GAMMA1, b)[i];
    }
  }

  /** Unpacking a packed signature gives its parts back, and nothing else. */
  lemma UnpackPackedSignature(c: seq<Byte>, z: seq<Poly>, h: seq<Row>, c': seq<Byte>, z': seq<Poly>, h': seq<Row>)
    requires |c| == CTILDE && IsResponse(z) && IsHint(h) && IsBits(h) && Count(h, DK) <= OMEGA
    ensures Unpacks(Signature(c, z, h), c', z', h') <==> c' == c && z' == z && h' == h
  {
    hide Encoding, Responses, HintBytes, Accepted, HintsOf, DistancesBelow, Decode, Fits;
    var s := Signature(c, z, h);
    assert s[..CTILDE] == c && HintPart(s) == HintBytes(h);
    UnpackPackedHint(h);
    forall i | 0 <= i < DL ensures ResponseDigits(s, i) == DistancesBelow(GAMMA1, z[i]) {
      ResponseAt(z, DL, i);
      assert s[CTILDE + 640 * i..CTILDE + 640 * i + 640] == Responses(z, DL)[640 * i..640 * i + 640];
      UnpackPacked(GAMMA1, 0x10_0000, z[i], 640);
    }
    if Unpacks(s, c', z', h') {
      forall i | 0 <= i < DL ensures z'[i] == z[i] {
        SamePoly(z'[i], z[i]);
      }
      assert z' == z;
    }
  }

  /** Packing what was unpacked gives the signature back: every accepted signature is the encoding of its parts. */
  lemma PackUnpackedSignature(s: seq<Byte>, c: seq<Byte>, z: seq<Poly>, h: seq<Row>)
    requires |s| == 3309 && Unpacks(s, c, z, h)
    ensures IsResponse(z) && IsHint(h) && IsBits(h) && Count(h, DK) <= OMEGA && Signature(c, z, h) == s
  {
    hide Encoding, HintBytes, Accepted, HintsOf, DistancesBelow, Decode, Fits;
    PackUnpackedHint(HintPart(s));
    forall i | 0 <= i < DL
      ensures Fits(GAMMA1, 0x10_0000, z[i]) && Encoding(0x10_0000, GAMMA1, z[i], 640) == s[CTILDE + 640 * i..CTILDE + 640 * i + 640]
    {
      PackUnpacked(GAMMA1, 0x10_0000, s[CTILDE + 640 * i..CTILDE + 640 * i + 640], z[i], 640);
    }
    ResponsesAre(s, z, DL);
    assert s == s[..CTILDE] + s[CTILDE..CTILDE + 640 * DL] + HintPart(s);
  }

  lemma {:induction false} ResponsesAre(s: seq<Byte>, z: seq<Poly>, n: nat)
    requires |s| == 3309 && IsResponse(z) && n <= DL
    requires forall i :: 0 <= i < DL ==> Encoding(0x10_0000, GAMMA1, z[i], 640) == s[CTILDE + 640 * i..CTILDE + 640 * i + 640]
    ensures Responses(z, n) == s[CTILDE..CTILDE + 640 * n]
  {
    hide Encoding, Fits;
    if n > 0 {
      ResponsesAre(s, z, n - 1);
      assert s[CTILDE..CTILDE + 640 * n]
          == s[CTILDE..CTILDE + 640 * (n - 1)] + s[CTILDE + 640 * (n - 1)..CTILDE + 640 * (n - 1) + 640];
    }
  }

  // ----- the program -----

  method DPackSig(sig: array<Byte>, c: seq<Byte>, z: seq<Poly>, h: seq<Row>)
    requires sig.Length == 3309 && |c| == CTILDE && IsResponse(z) && IsHint(h) && Count(h, DK) <= OMEGA
    modifies sig
    ensures sig[..] == Signature(c, z, h)
  {
    hide Encoding, HintBytes, Fits;
    Put(sig, 0, c);
    var i := 0;
    while i < DL
      invariant 0 <= i <= DL
      invariant forall p :: 0 <= p < CTILDE ==> sig[p] == c[p]
      invariant forall p :: 0 <= p < 640 * i ==> sig[CTILDE + p] == Responses(z, i)[p]
    {
      DPolyzPack(sig, CTILDE + 640 * i, z[i]);
      forall p | 0 <= p < 640 ensures sig[CTILDE + 640 * i + p] == Encoding(0x10_0000, GAMMA1, z[i], 640)[p] {
        assert sig[CTILDE + 640 * i..CTILDE + 640 * i + 640][p] == sig[CTILDE + 640 * i + p];
      }
      i := i + 1;
    }
    var hs := new Byte[OMEGA + DK];
    PackHint(hs, h);
    Put(sig, CTILDE + 640 * DL, hs[..]);
    assert sig[..] == Signature(c, z, h);
  }

  method DUnpackSig(sig: seq<Byte>) returns (ok: bool, c: seq<Byte>, z: seq<Poly>, h: seq<Row>)
    requires |sig| == 3309
    ensures ok <==> Accepted(HintPart(sig))
    ensures ok ==> Unpacks(sig, c, z, h)
  {
    hide Accepted, HintsOf, DistancesBelow, Decode;
    c := sig[..CTILDE];
    z := [];
    var i := 0;
    while i < DL
      invariant 0 <= i <= DL && |z| == i
      invariant forall k :: 0 <= k < i ==> |z[k]| == 256 && DistancesBelow(GAMMA1, z[k]) == ResponseDigits(sig, k)
    {
      var r := new int32[256];
      DPolyzUnpack(r, sig[CTILDE + 640 * i..CTILDE + 640 * i + 640]);
      z := z + [r[..]];
      i := i + 1;
    }
    ok, h := UnpackHint(HintPart(sig));
  }
}
