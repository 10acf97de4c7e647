/** ML-KEM-768: key generation, encapsulation, and decapsulation with implicit rejection, as text operations. */
module MlKem {
  import opened Bits
  import opened Hex
  import opened KPkeSpec
  import opened KPkeTheory
  import KPke

  // ----- specification -----

  function Keys(o: Oracles, d: Bytes32, z: Bytes32): (k: (Bytes, Bytes))
    ensures |k.0| == 1184 && |k.1| == 2400
  {
    var pk := EncryptionKey(o, d);
    (pk, DecryptionKey(o, d) + pk + o.sha3_256(pk) + z)
  }

  /** The shared secret and the coins that a message stands for. */
  function Derived(o: Oracles, m: Bytes32, h: Bytes32): Bytes64 {
    o.sha3_512(m + h)
  }

  function Secret32(kr: Bytes64): Bytes32 {
    kr[..32]
  }

  function Coins(kr: Bytes64): Bytes32 {
    kr[32..]
  }

  function Encapsulated(o: Oracles, pk: Bytes, m: Bytes32): (r: (Bytes, Bytes32))
    requires |pk| == 1184
    ensures |r.0| == 1088
  {
    var kr := Derived(o, m, o.sha3_256(pk));
    (Encrypt(o, pk, m, Coins(kr)), Secret32(kr))
  }

  /** The parts of a decapsulation key: skc, pk, H(pk), z. */
  function SkcOf(sk: Bytes): (b: Bytes)
    requires |sk| == 2400
    ensures |b| == 1152
  {
    sk[..1152]
  }

  function PkOf(sk: Bytes): (b: Bytes)
    requires |sk| == 2400
    ensures |b| == 1184
  {
    sk[1152..2336]
  }

  function HashOf(sk: Bytes): Bytes32
    requires |sk| == 2400
  {
    sk[2336..2368]
  }

  function ZOf(sk: Bytes): Bytes32
    requires |sk| == 2400
  {
    sk[2368..]
  }

  function Recovered(o: Oracles, sk: Bytes, c: Bytes): (kr: Bytes64)
    requires |sk| == 2400 && |c| == 1088
  {
    Derived(o, Decrypt(SkcOf(sk), c), HashOf(sk))
  }

  /** The ciphertext that the decrypted message would have given. */
  function Reencrypted(o: Oracles, sk: Bytes, c: Bytes): (d: Bytes)
    requires |sk| == 2400 && |c| == 1088
    ensures |d| == 1088
  {
    Encrypt(o, PkOf(sk), Decrypt(SkcOf(sk), c), Coins(Recovered(o, sk, c)))
  }

  function Decapsulated(o: Oracles, sk: Bytes, c: Bytes): Bytes32
    requires |sk| == 2400 && |c| == 1088
  {
    if Reencrypted(o, sk, c) == c then Secret32(Recovered(o, sk, c)) else o.shake256(ZOf(sk) + c)
  }

  // ----- correctness -----

  /** The noise of this exchange rounds away in every coefficient. */
  ghost predicate QuietExchange(o: Oracles, d: Bytes32, m: Bytes32) {
    var coins := Coins(Derived(o, m, o.sha3_256(EncryptionKey(o, d))));
    forall i :: 0 <= i < 256 ==> RoundsAway(TotalNoise(o, d, m, coins)[i], MessageBit(m, i))
  }

  lemma KeyLayout(o: Oracles, d: Bytes32, z: Bytes32)
    ensures var pk, sk := Keys(o, d, z).0, Keys(o, d, z).1;
            SkcOf(sk) == DecryptionKey(o, d) && PkOf(sk) == pk && HashOf(sk) == o.sha3_256(pk) && ZOf(sk) == z
  {
    hide DecryptionKey, EncryptionKey;
  }

  /** Both sides agree on the secret when the noise rounds away. */
  lemma SecretsAgree(o: Oracles, d: Bytes32, z: Bytes32, m: Bytes32)
    requires QuietExchange(o, d, m)
    ensures var (pk, sk) := Keys(o, d, z); var (c, k) := Encapsulated(o, pk, m); Decapsulated(o, sk, c) == k
  {
    hide DecryptionKey, EncryptionKey, Encrypt, Decrypt, RoundsAway, TotalNoise, MessageBit;
    var pk := EncryptionKey(o, d);
    var coins := Coins(Derived(o, m, o.sha3_256(pk)));
    KeyLayout(o, d, z);
    DecryptionIsCorrect(o, d, m, coins);
    assert Decrypt(DecryptionKey(o, d), Encrypt(o, pk, m, coins)) == m;
  }

  /** When some coefficient is too noisy, decryption yields another message, so another secret is derived or the ciphertext rejected. */
  lemma NoisyExchange(o: Oracles, d: Bytes32, z: Bytes32, m: Bytes32)
    requires !QuietExchange(o, d, m)
    ensures var (pk, sk) := Keys(o, d, z); var c := Encapsulated(o, pk, m).0; Decrypt(SkcOf(sk), c) != m
  {
    hide DecryptionKey, EncryptionKey, Encrypt, Decrypt, RoundsAway, TotalNoise, MessageBit;
    var coins := Coins(Derived(o, m, o.sha3_256(EncryptionKey(o, d))));
    KeyLayout(o, d, z);
    DecryptionIsCorrect(o, d, m, coins);
  }

  // ----- the program -----

  method Keygen(o: Oracles, dz: Bytes) returns (r: Bytes)
    ensures r == match Loaded(dz, 64)
                 case None => []
                 case Some(b) => ToHex(Keys(o, b[..32], b[32..]).0 + Keys(o, b[..32], b[32..]).1)
  {
    hide EncryptionKey, DecryptionKey, Loaded, ToHex;
    var buf := new Byte[64];
    var ok := Load(dz, buf);
    if !ok {
      return [];
    }
    var pk, skc := new Byte[1184], new Byte[1152];
    KPke.KpkeKeygen(o, buf[..32], pk, skc);
    var h := o.sha3_256(pk[..]);
    var sk := skc[..] + pk[..] + h + buf[32..64];
    assert buf[32..64] == buf[..][32..] && buf[..32] == buf[..][..32];
    var s := HexCat(pk[..], sk);
    r := s[..];
  }

  method Encaps(o: Oracles, ek: Bytes, m: Bytes) returns (r: Bytes)
    ensures Loaded(ek, 1184).None? || Loaded(m, 32).None? ==> r == []
    ensures Loaded(ek, 1184).Some? && Loaded(m, 32).Some? ==>
      var (c, k) := Encapsulated(o, Loaded(ek, 1184).value, Loaded(m, 32).value); r == ToHex(c + k)
  {
    hide Loaded, ToHex, Encrypt;
    var pk, msg := new Byte[1184], new Byte[32];
    var ok := Load(ek, pk);
    if !ok {
      return [];
    }
    ok := Load(m, msg);
    if !ok {
      return [];
    }
    var h := o.sha3_256(pk[..]);
    var kr := o.sha3_512(msg[..] + h);
    var ct := new Byte[1088];
    KPke.KpkeEncrypt(o, pk[..], msg[..], kr[32..], ct);
    var s := HexCat(ct[..], kr[..32]);
    r := s[..];
  }

  method Decaps(o: Oracles, dk: Bytes, ctIn: Bytes) returns (r: Bytes)
    ensures Loaded(dk, 2400).None? || Loaded(ctIn, 1088).None? ==> r == []
    ensures Loaded(dk, 2400).Some? && Loaded(ctIn, 1088).Some? ==>
      r == ToHex(Decapsulated(o, Loaded(dk, 2400).value, Loaded(ctIn, 1088).value))
  {
    hide Loaded, ToHex, Encrypt, Decrypt, ChosenByte;
    var sk, ct := new Byte[2400], new Byte[1088];
    var ok := Load(dk, sk);
    if !ok {
      return [];
    }
    ok := Load(ctIn, ct);
    if !ok {
      return [];
    }
    var key := DecapsBytes(o, sk[..], ct[..]);
    var s := HexCat(key, []);
    assert key + [] == key;
    r := s[..];
  }

  method DecapsBytes(o: Oracles, sk: Bytes, ct: Bytes) returns (key: Bytes32)
    requires |sk| == 2400 && |ct| == 1088
    ensures key == Decapsulated(o, sk, ct)
  {
    hide Encrypt, Decrypt, ChosenByte;
    var m := new Byte[32];
    KPke.KpkeDecrypt(sk[..1152], ct, m);
    var pk, h, z := sk[1152..2336], sk[2336..2368], sk[2368..];
    var kr := o.sha3_512(m[..] + h);
    var cmp := new Byte[1088];
    KPke.KpkeEncrypt(o, pk, m[..], kr[32..], cmp);
    var fail := Differences(ct, cmp[..]);
    var kbar := o.shake256(z + ct);
    fail := ((-(fail as int)) / 0x100) % 0x100;
    var k := new Byte[32];
    var i := 0;
    while i < 32
      invariant 0 <= i <= 32
      invariant forall p :: 0 <= p < i ==> k[p] == if fail == 0 then kr[p] else kbar[p]
    {
      k[i] := ChosenByte(kr[i], kbar[i], fail);
      i := i + 1;
    }
    key := k[..];
    assert key == if fail == 0 then kr[..32] else kbar;
  }

  // ----- end to end -----

  /** What a user sees: decapsulating the printed ciphertext with the printed key gives the printed secret. */
  method Exchange(o: Oracles, dz: Bytes, m: Bytes) returns (secret: Bytes, other: Bytes)
    requires |dz| == 64 && |m| == 32
    ensures QuietExchange(o, dz[..32], m) ==> other == secret
  {
    hide DecryptionKey, EncryptionKey, Encrypt, Decrypt, RoundsAway, TotalNoise, MessageBit, FromHex, DigitValue, QuietExchange;
    var keys := Keygen(o, dz);
    ghost var d, z := dz[..32], dz[32..];
    ghost var (pk, sk) := Keys(o, d, z);
    ToHexAppend(pk, sk);
    assert keys[..2368] == ToHex(pk) && keys[2368..] == ToHex(sk);
    LoadedHex(pk);
    LoadedHex(sk);
    var sent := Encaps(o, keys[..2368], m);
    ghost var (c, k) := Encapsulated(o, pk, m);
    ToHexAppend(c, k);
    assert sent[..2176] == ToHex(c) && sent[2176..] == ToHex(k);
    LoadedHex(c);
    secret := sent[2176..];
    other := Decaps(o, keys[2368..], sent[..2176]);
    if QuietExchange(o, d, m) {
      SecretsAgree(o, d, z, m);
    }
  }
}
