/** Authenticated encryption with AES-GCM and ChaCha20-Poly1305, on the text that crosses the interface. */
module Aead {
  import opened Bits
  import opened Hex
  import opened Gcm
  import opened GcmModes
  import opened Radix
  import Poly1305

  type Block64 = b: Bytes | |b| == 64 witness seq(64, _ => 0)

  /** The AES and ChaCha20 block functions, any functions with results of the right length. */
  datatype Ciphers = Ciphers(aes: Bytes -> Bytes -> Block16, chacha: (Bytes, Bytes, nat) -> Block64)

  // ----- input texts -----

  /** Texts of hexadecimal digits, two or more and an even number of them, are decoded; other texts are taken as they are. */
  function Normal(s: Bytes): (b: Bytes) {
    if |s| >= 2 && |s| % 2 == 0 && AllDigits(s) then FromHex(s) else s
  }

  lemma NormalHex(b: Bytes)
    ensures Normal(ToHex(b)) == b
  {
    FromToHex(b);
    if b == [] {
      assert ToHex(b) == [];
    }
  }

  method AllHex(s: Bytes) returns (yes: bool)
    ensures yes <==> |s| >= 2 && |s| % 2 == 0 && AllDigits(s)
  {
    if |s| < 2 || |s| % 2 != 0 {
      return false;
    }
    var i := 0;
    while i < |s|
      invariant 0 <= i <= |s| && forall k :: 0 <= k < i ==> IsDigit(s[k])
    {
      if DigitValue(s[i]) < 0 {
        return false;
      }
      i := i + 1;
    }
    return true;
  }

  method AeadLoad(s: Bytes) returns (b: Bytes)
    ensures b == Normal(s)
  {
    var hex := AllHex(s);
    if hex {
      var out := new Byte[|s| / 2];
      var i := 0;
      while i < out.Length
        invariant 0 <= i <= out.Length && forall k :: 0 <= k < i ==> out[k] == Pair(s[2 * k], s[2 * k + 1])
      {
        out[i] := Pair(s[2 * i], s[2 * i + 1]);
        i := i + 1;
      }
      b := out[..];
      assert b == FromHex(s);
    } else {
      b := s;
    }
  }

  // ----- AES-GCM -----

  function InitialCounter(nonce: Bytes): Block16
    requires |nonce| == 12
  {
    nonce + [0, 0, 0, 1]
  }

  function HashKey(o: Ciphers, key: Bytes): Block16 {
    o.aes(key)(seq(16, _ => 0))
  }

  function GcmTag(o: Ciphers, key: Bytes, nonce: Bytes, a: Bytes, c: Bytes): (t: Block16)
    requires |nonce| == 12
  {
    Xored(o.aes(key)(InitialCounter(nonce)), BlockOf(Ghash(HashKey(o, key), a, c)))
  }

  function GcmCrypt(o: Ciphers, key: Bytes, nonce: Bytes, s: Bytes): (t: Bytes)
    requires |nonce| == 12
    ensures |t| == |s|
  {
    Xored(s, CounterStream(o.aes(key), CounterBlock(InitialCounter(nonce), 1), |s|))
  }

  // ----- ChaCha20-Poly1305 -----

  function ChaChaStream(o: Ciphers, key: Bytes, nonce: Bytes, counter: nat, n: nat): (s: Bytes)
    ensures |s| == n
  {
    seq(n, (p: nat) requires p < n => o.chacha(key, nonce, (counter + p / 64) % 0x1_0000_0000)[p % 64])
  }

  function ChaChaCrypt(o: Ciphers, key: Bytes, nonce: Bytes, s: Bytes): (t: Bytes)
    ensures |t| == |s|
  {
    Xored(s, ChaChaStream(o, key, nonce, 1, |s|))
  }

  /** How many zeros fill the last block of n bytes. */
  function Fill(n: nat): (k: nat)
    ensures k < 16 && (n + k) % 16 == 0
  {
    (16 - n % 16) % 16
  }

  function ZeroBytes(n: nat): (z: Bytes)
    ensures |z| == n
  {
    seq(n, _ => 0)
  }

  /** The authenticated string: both parts padded to whole blocks, then both lengths as 64-bit words. */
  function MacInput(a: Bytes, c: Bytes): (m: Bytes)
  {
    a + ZeroBytes(Fill(|a|)) + c + ZeroBytes(Fill(|c|))
    + Digits(0x100, |a| % 0x1_0000_0000_0000_0000, 8) + Digits(0x100, |c| % 0x1_0000_0000_0000_0000, 8)
  }

  lemma MacInputLength(a: Bytes, c: Bytes)
    ensures |MacInput(a, c)| == |a| + Fill(|a|) + (|c| + Fill(|c|)) + 16
  {
  }

  /** The authenticated string has only whole blocks, so the tag is the one of RFC 8439 whatever the lengths. */
  lemma MacInputIsStandard(a: Bytes, c: Bytes)
    ensures Poly1305.FollowsStandard(MacInput(a, c))
  {
    hide Poly1305.FollowsStandard, MacInput, Fill;
    MacInputLength(a, c);
    assert |MacInput(a, c)| % 16 == 0;
    Poly1305.StandardBlocks(MacInput(a, c));
  }

  function OneTimeKey(o: Ciphers, key: Bytes, nonce: Bytes): (k: Bytes)
    ensures |k| == 32
  {
    o.chacha(key, nonce, 0)[..32]
  }

  function ChaChaTag(o: Ciphers, key: Bytes, nonce: Bytes, a: Bytes, c: Bytes): (t: Block16) {
    Poly1305.Tag(OneTimeKey(o, key, nonce), MacInput(a, c))
  }

  // ----- both schemes -----

  datatype Scheme = AesGcm | ChaChaPoly

  function KeySize(s: Scheme): (n: nat)
    ensures n > 0
  {
    if s.AesGcm? then 16 else 32
  }

  function Crypt(s: Scheme, o: Ciphers, key: Bytes, nonce: Bytes, x: Bytes): (t: Bytes)
    requires |nonce| == 12
    ensures |t| == |x|
  {
    if s.AesGcm? then GcmCrypt(o, key, nonce, x) else ChaChaCrypt(o, key, nonce, x)
  }

  function TagOf(s: Scheme, o: Ciphers, key: Bytes, nonce: Bytes, a: Bytes, c: Bytes): (t: Block16)
    requires |nonce| == 12
  {
    if s.AesGcm? then GcmTag(o, key, nonce, a, c) else ChaChaTag(o, key, nonce, a, c)
  }

  /** What sealing returns: the digits of ciphertext and tag, or nothing for a bad key or nonce. */
  function Sealed(s: Scheme, o: Ciphers, key: Bytes, nonce: Bytes, pt: Bytes, aad: Bytes): (r: Bytes) {
    match (Loaded(key, KeySize(s)), Loaded(nonce, 12))
    case (Some(k), Some(n)) =>
      var c := Crypt(s, o, k, n, Normal(pt));
      ToHex(c + TagOf(s, o, k, n, Normal(aad), c))
    case _ => []
  }

  /** What opening returns: the plaintext, or nothing when the tag is not the expected one. */
  function Opened(s: Scheme, o: Ciphers, key: Bytes, nonce: Bytes, ct: Bytes, tag: Bytes, aad: Bytes): (r: Bytes) {
    match (Loaded(key, KeySize(s)), Loaded(nonce, 12), Loaded(tag, 16))
    case (Some(k), Some(n), Some(t)) =>
      if TagOf(s, o, k, n, Normal(aad), Normal(ct)) == t then Crypt(s, o, k, n, Normal(ct)) else []
    case _ => []
  }

  lemma CryptTwice(s: Scheme, o: Ciphers, key: Bytes, nonce: Bytes, x: Bytes)
    requires |nonce| == 12
    ensures Crypt(s, o, key, nonce, Crypt(s, o, key, nonce, x)) == x
  {
    hide XorByte, CounterBlock;
    if s.AesGcm? {
      XoredTwice(x, CounterStream(o.aes(key), CounterBlock(InitialCounter(nonce), 1), |x|));
    } else {
      XoredTwice(x, ChaChaStream(o, key, nonce, 1, |x|));
    }
  }

  /** Sealing gives nothing exactly for a key or nonce text of another size: AES takes 16 bytes of key, ChaCha20 32. */
  lemma SealedWhen(s: Scheme, o: Ciphers, key: Bytes, nonce: Bytes, pt: Bytes, aad: Bytes)
    ensures var n := if s.AesGcm? then 16 else 32;
            Sealed(s, o, key, nonce, pt, aad) != [] <==>
              (|key| == n || (|key| == 2 * n && AllDigits(key))) && (|nonce| == 12 || (|nonce| == 24 && AllDigits(nonce)))
  {
    hide Crypt, TagOf, Normal, AllDigits;
  }

  /** Opening what was sealed gives the normalised plaintext. */
  lemma OpenSealed(s: Scheme, o: Ciphers, key: Bytes, nonce: Bytes, pt: Bytes, aad: Bytes)
    requires Loaded(key, KeySize(s)).Some? && Loaded(nonce, 12).Some?
    ensures var r := Sealed(s, o, key, nonce, pt, aad);
            |r| == 2 * |Normal(pt)| + 32
            && Opened(s, o, key, nonce, r[..|r| - 32], r[|r| - 32..], aad) == Normal(pt)
  {
    hide Crypt, TagOf, Loaded, Normal, ToHex;
    var k, n := Loaded(key, KeySize(s)).value, Loaded(nonce, 12).value;
    var c := Crypt(s, o, k, n, Normal(pt));
    var t := TagOf(s, o, k, n, Normal(aad), c);
    var r := Sealed(s, o, key, nonce, pt, aad);
    ToHexAppend(c, t);
    assert r == ToHex(c) + ToHex(t);
    assert r[..|r| - 32] == ToHex(c) && r[|r| - 32..] == ToHex(t);
    NormalHex(c);
    LoadedHex(t);
    CryptTwice(s, o, k, n, Normal(pt));
  }

  /** Any other tag is refused, whatever the ciphertext. */
  lemma OtherTagsFail(s: Scheme, o: Ciphers, key: Bytes, nonce: Bytes, ct: Bytes, tag: Bytes, aad: Bytes)
    requires Loaded(key, KeySize(s)).Some? && Loaded(nonce, 12).Some?
    requires Loaded(tag, 16) != Some(TagOf(s, o, Loaded(key, KeySize(s)).value, Loaded(nonce, 12).value, Normal(aad), Normal(ct)))
    ensures Opened(s, o, key, nonce, ct, tag, aad) == []
  {
    hide Crypt, TagOf, Normal;
    assert Loaded(tag, 16).Some? ==> |Loaded(tag, 16).value| == 16;
  }

  // ----- the program -----

  method GcmTagBytes(o: Ciphers, key: Bytes, nonce: Bytes, a: Bytes, c: Bytes) returns (t: Block16)
    requires |nonce| == 12
    ensures t == GcmTag(o, key, nonce, a, c)
  {
    hide Ghash, BlockOf, XorByte;
    var zero: Block16 := seq(16, _ => 0);
    var h := o.aes(key)(zero);
    var j0: Block16 := nonce + [0, 0, 0, 1];
    var s := GcmGhash(h, a, c);
    var e := o.aes(key)(j0);
    var tag := new Byte[16](k requires 0 <= k < 16 => e[k]);
    XorBlock(tag, s[..]);
    t := tag[..];
    assert t == Xored(e, s[..]);
  }

  method GcmStreamBytes(o: Ciphers, key: Bytes, nonce: Bytes, x: Bytes) returns (c: Bytes)
    requires |nonce| == 12
    ensures c == GcmCrypt(o, key, nonce, x)
  {
    hide Xored, CounterStream, CounterBlock;
    var icb := new Byte[16](k requires 0 <= k < 16 => (nonce + [0, 0, 0, 1])[k]);
    assert icb[..] == InitialCounter(nonce);
    GcmInc32(icb);
    var out := GcmGctr(o.aes(key), icb[..], x);
    c := out[..];
  }

  lemma ChaChaBlock(o: Ciphers, key: Bytes, nonce: Bytes, start: nat, n: nat, k: nat, left: nat)
    requires left <= 64 && 64 * k + left <= n
    ensures forall p :: 64 * k <= p < 64 * k + left ==>
      ChaChaStream(o, key, nonce, start, n)[p] == o.chacha(key, nonce, (start + k) % 0x1_0000_0000)[p - 64 * k]
  {
    forall p | 64 * k <= p < 64 * k + left
      ensures ChaChaStream(o, key, nonce, start, n)[p] == o.chacha(key, nonce, (start + k) % 0x1_0000_0000)[p - 64 * k]
    {
      assert p / 64 == k && p % 64 == p - 64 * k;
    }
  }

  method XorBlock64(x: Bytes, ghost ks: Bytes, block: Block64, off: nat, left: nat, out: array<Byte>, ghost k: nat)
    requires |ks| == out.Length == |x| && off == 64 * k && left <= 64 && off + left <= |x|
    requires forall p :: off <= p < off + left ==> ks[p] == block[p - off]
    requires forall p :: 0 <= p < off ==> out[p] == XorByte(x[p], ks[p])
    modifies out
    ensures forall p :: 0 <= p < off + left ==> out[p] == XorByte(x[p], ks[p])
  {
    hide XorByte;
    var i := 0;
    while i < left
      invariant 0 <= i <= left
      invariant forall p :: 0 <= p < off + i ==> out[p] == XorByte(x[p], ks[p])
    {
      out[off + i] := XorByte(x[off + i], block[i]);
      i := i + 1;
    }
  }

  method ChaChaXor(o: Ciphers, key: Bytes, nonce: Bytes, start: nat, x: Bytes) returns (out: array<Byte>)
    requires start < 0x1_0000_0000
    ensures fresh(out) && out[..] == Xored(x, ChaChaStream(o, key, nonce, start, |x|))
  {
    hide XorByte, ChaChaStream;
    ghost var ks := ChaChaStream(o, key, nonce, start, |x|);
    out := new Byte[|x|];
    var counter := start;
    var off := 0;
    ghost var k := 0;
    while off < |x|
      invariant off == (if 64 * k <= |x| then 64 * k else |x|) && (off < |x| ==> 64 * k < |x|)
      invariant counter == (start + k) % 0x1_0000_0000
      invariant forall p :: 0 <= p < off ==> out[p] == XorByte(x[p], ks[p])
    {
      var left := if |x| - off > 64 then 64 else |x| - off;
      var block := o.chacha(key, nonce, counter);
      ChaChaBlock(o, key, nonce, start, |x|, k, left);
      XorBlock64(x, ks, block, off, left, out, k);
      CounterSteps(start, k);
      counter := (counter + 1) % 0x1_0000_0000;
      off := off + left;
      k := k + 1;
    }
    assert out[..] == Xored(x, ks);
  }

  /** Copy s into the buffer at offset at. */
  method Copy(buf: array<Byte>, at: nat, s: Bytes)
    requires at + |s| <= buf.Length
    modifies buf
    ensures forall p :: 0 <= p < buf.Length ==> buf[p] == if at <= p < at + |s| then s[p - at] else old(buf[p])
  {
    var i := 0;
    while i < |s|
      invariant 0 <= i <= |s|
      invariant forall p :: 0 <= p < buf.Length ==> buf[p] == if at <= p < at + i then s[p - at] else old(buf[p])
    {
      buf[at + i] := s[i];
      i := i + 1;
    }
  }

  method PolyPadMac(key: Bytes, a: Bytes, c: Bytes, tag: array<Byte>)
    requires |key| == 32 && tag.Length == 16
    modifies tag
    ensures tag[..] == Poly1305.Tag(key, MacInput(a, c))
  {
    hide Digits, Poly1305.Tag;
    var aadPad := (16 - |a| % 16) % 16;
    var ctPad := (16 - |c| % 16) % 16;
    var n := |a| + aadPad + |c| + ctPad + 16;
    var buf := new Byte[n](_ => 0);
    Copy(buf, 0, a);
    Copy(buf, |a| + aadPad, c);
    var al := LittleEndian64(|a| % 0x1_0000_0000_0000_0000);
    var cl := LittleEndian64(|c| % 0x1_0000_0000_0000_0000);
    Copy(buf, |a| + aadPad + |c| + ctPad, al + cl);
    assert buf[..] == MacInput(a, c);
    Poly1305.Poly1305Mac(key, buf[..], tag);
  }

  method LittleEndian64(x: nat) returns (b: Bytes)
    ensures b == Digits(0x100, x, 8)
  {
    hide DigitAt, Digits, Pow, IsPowerOfTwo;
    b := [];
    var i, weight := 0, 1;
    assert Pow(0x100, 0) == 1 by { WeightStep(0); }
    assert IsPowerOfTwo(0x100) by { ByteIsPower(); }
    while i < 8
      invariant 0 <= i <= 8 && weight == Pow(0x100, i) > 0 && |b| == i
      invariant forall k :: 0 <= k < i ==> b[k] == Digits(0x100, x, 8)[k]
    {
      DigitOf(0x100, x, i, 8);
      b := b + [DigitAt(0x100, x, weight)];
      WeightStep(i + 1);
      weight := 0x100 * weight;
      i := i + 1;
    }
  }

  method CryptBytes(s: Scheme, o: Ciphers, key: Bytes, nonce: Bytes, x: Bytes) returns (t: Bytes)
    requires |nonce| == 12
    ensures t == Crypt(s, o, key, nonce, x)
  {
    hide GcmCrypt, Xored, ChaChaStream;
    if s.AesGcm? {
      t := GcmStreamBytes(o, key, nonce, x);
    } else {
      var out := ChaChaXor(o, key, nonce, 1, x);
      t := out[..];
    }
  }

  method TagBytes(s: Scheme, o: Ciphers, key: Bytes, nonce: Bytes, a: Bytes, c: Bytes) returns (t: Block16)
    requires |nonce| == 12
    ensures t == TagOf(s, o, key, nonce, a, c)
  {
    hide GcmTag, MacInput, Poly1305.Tag;
    if s.AesGcm? {
      t := GcmTagBytes(o, key, nonce, a, c);
    } else {
      var otk := o.chacha(key, nonce, 0);
      var tag := new Byte[16];
      PolyPadMac(otk[..32], a, c, tag);
      t := tag[..];
    }
  }

  method Seal(s: Scheme, o: Ciphers, key: Bytes, nonce: Bytes, pt: Bytes, aad: Bytes) returns (r: Bytes)
    ensures r == Sealed(s, o, key, nonce, pt, aad)
  {
    hide Loaded, Normal, Crypt, TagOf, ToHex;
    var kb, nb := new Byte[KeySize(s)], new Byte[12];
    var ok := Load(key, kb);
    if !ok {
      return [];
    }
    ok := Load(nonce, nb);
    if !ok {
      return [];
    }
    var p := AeadLoad(pt);
    var a := AeadLoad(aad);
    var ct := CryptBytes(s, o, kb[..], nb[..], p);
    var tag := TagBytes(s, o, kb[..], nb[..], a, ct);
    var h := HexCat(ct, tag);
    r := h[..];
  }

  method Open(s: Scheme, o: Ciphers, key: Bytes, nonce: Bytes, ct: Bytes, tag: Bytes, aad: Bytes) returns (r: Bytes)
    ensures r == Opened(s, o, key, nonce, ct, tag, aad)
  {
    hide Loaded, Normal, Crypt, TagOf;
    var kb, nb, tb := new Byte[KeySize(s)], new Byte[12], new Byte[16];
    var ok := Load(key, kb);
    if !ok {
      return [];
    }
    ok := Load(nonce, nb);
    if !ok {
      return [];
    }
    ok := Load(tag, tb);
    if !ok {
      return [];
    }
    var c := AeadLoad(ct);
    var a := AeadLoad(aad);
    var wanted := TagBytes(s, o, kb[..], nb[..], a, c);
    var d := Differences(wanted, tb[..]);
    if d != 0 {
      return [];
    }
    r := CryptBytes(s, o, kb[..], nb[..], c);
  }
}
