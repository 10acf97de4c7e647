/** The step mappings of Keccak-f[1600] bit by bit: section 3.2 of FIPS 202. Coordinates z are six-bit words, so z - 1 wraps. */
module KeccakBits {
  import opened Keccak
  import opened Sponge

  /** Bit z of a lane. */
  predicate Bit(a: Lane, z: bv6) {
    (a >> z) & 1 == 1
  }

  /** A[x, y, z] */
  predicate A(s: State, x: nat, y: nat, z: bv6)
    requires x < 5 && y < 5
  {
    Bit(s[x + 5 * y], z)
  }

  // ----- bits of combined lanes -----

  predicate IsXor(c: Lane, a: Lane, b: Lane, z: bv6) {
    (c >> z) & 1 == ((a >> z) & 1) ^ ((b >> z) & 1)
  }

  predicate IsOr(c: Lane, a: Lane, b: Lane, z: bv6) {
    (c >> z) & 1 == ((a >> z) & 1) | ((b >> z) & 1)
  }

  lemma XorShifted(a: Lane, b: Lane, z: bv6)
    ensures IsXor(a ^ b, a, b, z)
  {
  }

  lemma OrShifted(a: Lane, b: Lane, z: bv6)
    ensures IsOr(a | b, a, b, z)
  {
  }

  lemma XorDiffers(c: Lane, a: Lane, b: Lane, z: bv6)
    requires IsXor(c, a, b, z)
    ensures Bit(c, z) <==> Bit(a, z) != Bit(b, z)
  {
  }

  lemma OrEither(c: Lane, a: Lane, b: Lane, z: bv6)
    requires IsOr(c, a, b, z)
    ensures Bit(c, z) <==> Bit(a, z) || Bit(b, z)
  {
  }

  lemma XorBit(a: Lane, b: Lane, z: bv6)
    ensures Bit(Xor2(a, b), z) <==> Bit(a, z) != Bit(b, z)
  {
    hide IsXor, Bit;
    XorShifted(a, b, z);
    XorDiffers(a ^ b, a, b, z);
  }

  lemma OrBit(a: Lane, b: Lane, z: bv6)
    ensures Bit(a | b, z) <==> Bit(a, z) || Bit(b, z)
  {
    hide IsOr, Bit;
    OrShifted(a, b, z);
    OrEither(a | b, a, b, z);
  }

  lemma NandIs(a: Lane, b: Lane)
    ensures Nand(a, b) == Xor2(a | b, a)
  {
  }

  lemma NandBit(a: Lane, b: Lane, z: bv6)
    ensures Bit(Nand(a, b), z) <==> !Bit(a, z) && Bit(b, z)
  {
    hide Nand, Xor2, Bit;
    NandIs(a, b);
    OrBit(a, b, z);
    XorBit(a | b, a, z);
  }

  // ----- bits of a rotated lane -----

  predicate Moved(c: Lane, z: bv6, a: Lane, w: bv6) {
    (c >> z) & 1 == (a >> w) & 1
  }

  lemma MovedBit(c: Lane, z: bv6, a: Lane, w: bv6)
    requires Moved(c, z, a, w)
    ensures Bit(c, z) <==> Bit(a, w)
  {
  }

  lemma LeftShifted(a: Lane, n: bv6, w: bv6)
    requires n as bv7 + w as bv7 < 64
    ensures Moved(a << n, n + w, a, w)
  {
  }

  lemma RightShifted(a: Lane, n: bv6, z: bv6)
    requires z < n
    ensures Moved(a >> (64 - n as bv7), z, a, z - n)
  {
  }

  lemma LeftBelow(a: Lane, n: bv6, z: bv6)
    requires z < n
    ensures !Bit(a << n, z)
  {
  }

  lemma RightAbove(a: Lane, n: bv6, z: bv6)
    requires n <= z
    ensures !Bit(a >> (64 - n as bv7), z)
  {
  }

  /** Bit z of l is bit z - n of a if z is n or more, and otherwise 0. */
  predicate LeftPart(l: Lane, a: Lane, n: bv6, z: bv6) {
    Bit(l, z) <==> n <= z && Bit(a, z - n)
  }

  predicate RightPart(r: Lane, a: Lane, n: bv6, z: bv6) {
    Bit(r, z) <==> z < n && Bit(a, z - n)
  }

  predicate Turn(c: Lane, a: Lane, n: bv6, z: bv6) {
    Bit(c, z) <==> Bit(a, z - n)
  }

  lemma LeftBit(a: Lane, n: bv6, z: bv6)
    ensures LeftPart(a << n, a, n, z)
  {
    hide Bit, Moved;
    if n <= z {
      UpTo(n, z);
      LeftShifted(a, n, z - n);
      MovedBit(a << n, z, a, z - n);
    } else {
      LeftBelow(a, n, z);
    }
  }

  lemma RightBelow(r: Lane, a: Lane, n: bv6, z: bv6)
    requires z < n && Moved(r, z, a, z - n)
    ensures RightPart(r, a, n, z)
  {
    hide Bit, Moved;
    MovedBit(r, z, a, z - n);
  }

  lemma RightBit(a: Lane, n: bv6, z: bv6)
    ensures RightPart(a >> (64 - n as bv7), a, n, z)
  {
    hide Bit, Moved, RightPart;
    if n <= z {
      RightFrom(a, n, z);
    } else {
      RightShifted(a, n, z);
      RightBelow(a >> (64 - n as bv7), a, n, z);
    }
  }

  lemma RightFrom(a: Lane, n: bv6, z: bv6)
    requires n <= z
    ensures RightPart(a >> (64 - n as bv7), a, n, z)
  {
    hide Bit;
    RightAbove(a, n, z);
  }

  lemma TurnedIs(a: Lane, n: bv6)
    ensures Turned(a, n as bv7) == (a << n) | (a >> (64 - n as bv7))
  {
  }

  lemma Joined(c: Lane, l: Lane, r: Lane, a: Lane, n: bv6, z: bv6)
    requires LeftPart(l, a, n, z) && RightPart(r, a, n, z) && c == l | r
    ensures Turn(c, a, n, z)
  {
    hide Bit;
    OrBit(l, r, z);
  }

  lemma TurnedBit(a: Lane, n: bv6, z: bv6)
    ensures Turn(Turned(a, n as bv7), a, n, z)
  {
    hide Bit, LeftPart, RightPart, Turn, Turned;
    TurnedIs(a, n);
    LeftBit(a, n, z);
    RightBit(a, n, z);
    Joined(Turned(a, n as bv7), a << n, a >> (64 - n as bv7), a, n, z);
  }

  lemma UpTo(n: bv6, z: bv6)
    requires n <= z
    ensures n as bv7 + (z - n) as bv7 < 64 && n + (z - n) == z
  {
  }

  lemma Narrow(n: nat)
    requires n < 64
    ensures (n as bv6) as bv7 == n as bv7
  {
  }

  /** Rotation by n moves every bit n places up, around the lane. */
  lemma RotlBit(a: Lane, n: nat, z: bv6)
    requires n < 64
    ensures Bit(Rotl(a, n), z) <==> Bit(a, z - n as bv6)
  {
    hide Bit, Turned;
    Narrow(n);
    TurnedBit(a, n as bv6, z);
  }

  // ----- the step mappings -----

  /** The parity C[x, z] of a column of five bits. */
  predicate Column(s: State, x: nat, z: bv6)
    requires x < 5
  {
    (((A(s, x, 0, z) != A(s, x, 1, z)) != A(s, x, 2, z)) != A(s, x, 3, z)) != A(s, x, 4, z)
  }

  lemma ParityBit(s: State, x: nat, z: bv6)
    requires x < 5
    ensures Bit(Parity(s, x), z) <==> Column(s, x, z)
  {
    hide Bit, Xor2;
    var p := Xor2(s[x], s[x + 5]);
    var q := Xor2(p, s[x + 10]);
    var r := Xor2(q, s[x + 15]);
    XorBit(s[x], s[x + 5], z);
    XorBit(p, s[x + 10], z);
    XorBit(q, s[x + 15], z);
    XorBit(r, s[x + 20], z);
  }

  lemma ThetaLane(s: State, x: nat, y: nat)
    requires x < 5 && y < 5
    ensures Theta(s)[x + 5 * y] == Xor2(s[x + 5 * y], Xor2(Parity(s, (x + 4) % 5), Rotl(Parity(s, (x + 1) % 5), 1)))
  {
    hide Xor2, Rotl, Parity;
    assert (x + 5 * y) % 5 == x;
  }

  lemma ThetaBit(a: Lane, l: Lane, r: Lane, z: bv6)
    ensures Bit(Xor2(a, Xor2(l, Rotl(r, 1))), z) <==> (Bit(a, z) != (Bit(l, z) != Bit(r, z - 1)))
  {
    hide Bit, Xor2, Rotl;
    RotlBit(r, 1, z);
    XorBit(l, Rotl(r, 1), z);
    XorBit(a, Xor2(l, Rotl(r, 1)), z);
  }

  /** Algorithm 1: the parities C[x - 1, z] and C[x + 1, z - 1] are added to every bit. */
  lemma ThetaBits(s: State, x: nat, y: nat, z: bv6)
    requires x < 5 && y < 5
    ensures A(Theta(s), x, y, z) <==> (A(s, x, y, z) != (Column(s, (x + 4) % 5, z) != Column(s, (x + 1) % 5, z - 1)))
  {
    hide Bit, Xor2, Rotl, Parity, Column, Theta;
    var l, r := (x + 4) % 5, (x + 1) % 5;
    ThetaLane(s, x, y);
    ParityBit(s, l, z);
    ParityBit(s, r, z - 1);
    ThetaBit(s[x + 5 * y], Parity(s, l), Parity(s, r), z);
  }

  /** Algorithm 2: the lane that the walk from (1, 0) visits at step t is rotated by (t + 1)(t + 2)/2. */
  lemma RhoBits(s: State, t: nat, z: bv6)
    requires t < 24
    ensures var (x, y) := Walk(t); A(Rho(s), x, y, z) <==> A(s, x, y, z - ((t + 1) * (t + 2) / 2 % 64) as bv6)
    ensures A(Rho(s), 0, 0, z) <==> A(s, 0, 0, z)
  {
    hide Bit, Rotl, Walk, StepOf;
    WalkIsTable(t);
    TablesFollowWalk(t);
    RotlBit(s[Visited(t)], Offset(t), z);
  }

  /** Algorithm 3: A'[x, y, z] = A[x + 3y, x, z]. */
  lemma PiBits(s: State, x: nat, y: nat, z: bv6)
    requires x < 5 && y < 5
    ensures A(Pi(s), x, y, z) <==> A(s, (x + 3 * y) % 5, x, z)
  {
    hide Bit;
    assert (x + 5 * y) % 5 == x && (x + 5 * y) / 5 == y;
  }

  lemma InRow(x: nat, y: nat)
    ensures (x + 5 * y) % 5 == x % 5
  {
  }

  lemma ChiLane(s: State, x: nat, y: nat)
    requires x < 5 && y < 5
    ensures Chi(s)[x + 5 * y] == Xor2(s[x + 5 * y], Nand(s[(x + 1) % 5 + 5 * y], s[(x + 2) % 5 + 5 * y]))
  {
    hide Xor2, Nand;
    InRow(x, y);
    InRow(x + 1, y);
    InRow(x + 2, y);
  }

  /** Algorithm 4: A'[x, y, z] = A[x, y, z] + (A[x + 1, y, z] + 1) A[x + 2, y, z]. */
  lemma ChiBits(s: State, x: nat, y: nat, z: bv6)
    requires x < 5 && y < 5
    ensures A(Chi(s), x, y, z) <==> (A(s, x, y, z) != (!A(s, (x + 1) % 5, y, z) && A(s, (x + 2) % 5, y, z)))
  {
    hide Bit, Xor2, Nand, Chi;
    var a, b := s[(x + 1) % 5 + 5 * y], s[(x + 2) % 5 + 5 * y];
    ChiLane(s, x, y);
    NandBit(a, b, z);
    XorBit(s[x + 5 * y], Nand(a, b), z);
  }

  /** Algorithm 6 changes lane (0, 0) by the constant of the round, and nothing else. */
  lemma IotaBits(s: State, round: nat, x: nat, y: nat, z: bv6)
    requires round < 24 && x < 5 && y < 5
    ensures A(Iota(s, round), x, y, z) <==> (A(s, x, y, z) != (x == y == 0 && Bit(RC(round), z)))
  {
    hide Bit, Xor2, RC;
    XorBit(s[0], RC(round), z);
  }

  // ----- bits and octets -----

  /** The coordinate 8k + j. */
  function Place(k: nat, j: nat): (z: bv6)
    requires k < 8 && j < 8
  {
    Eights(k) + Ones(j)
  }

  function Eights(k: nat): (z: bv6)
    requires k < 8
  {
    match k
    case 0 => 0 case 1 => 8 case 2 => 16 case 3 => 24 case 4 => 32 case 5 => 40 case 6 => 48 case _ => 56
  }

  function Ones(j: nat): (z: bv6)
    requires j < 8
  {
    match j
    case 0 => 0 case 1 => 1 case 2 => 2 case 3 => 3 case 4 => 4 case 5 => 5 case 6 => 6 case _ => 7
  }

  lemma PlaceIs(k: nat, j: nat)
    requires k < 8 && j < 8
    ensures Place(k, j) as nat == 8 * k + j
  {
  }

  predicate Agrees(a: Lane, k: nat, j: nat, z: bv6)
    requires k < 8 && j < 8
  {
    BitAt(OctetAt(a, k), j) <==> Bit(a, z)
  }

  lemma Octet0(a: Lane)
    ensures Agrees(a, 0, 0, 0) && Agrees(a, 0, 1, 1) && Agrees(a, 0, 2, 2) && Agrees(a, 0, 3, 3)
    ensures Agrees(a, 0, 4, 4) && Agrees(a, 0, 5, 5) && Agrees(a, 0, 6, 6) && Agrees(a, 0, 7, 7)
  {
  }

  lemma Octet1(a: Lane)
    ensures Agrees(a, 1, 0, 8) && Agrees(a, 1, 1, 9) && Agrees(a, 1, 2, 10) && Agrees(a, 1, 3, 11)
    ensures Agrees(a, 1, 4, 12) && Agrees(a, 1, 5, 13) && Agrees(a, 1, 6, 14) && Agrees(a, 1, 7, 15)
  {
  }

  lemma Octet2(a: Lane)
    ensures Agrees(a, 2, 0, 16) && Agrees(a, 2, 1, 17) && Agrees(a, 2, 2, 18) && Agrees(a, 2, 3, 19)
    ensures Agrees(a, 2, 4, 20) && Agrees(a, 2, 5, 21) && Agrees(a, 2, 6, 22) && Agrees(a, 2, 7, 23)
  {
  }

  lemma Octet3(a: Lane)
    ensures Agrees(a, 3, 0, 24) && Agrees(a, 3, 1, 25) && Agrees(a, 3, 2, 26) && Agrees(a, 3, 3, 27)
    ensures Agrees(a, 3, 4, 28) && Agrees(a, 3, 5, 29) && Agrees(a, 3, 6, 30) && Agrees(a, 3, 7, 31)
  {
  }

  lemma Octet4(a: Lane)
    ensures Agrees(a, 4, 0, 32) && Agrees(a, 4, 1, 33) && Agrees(a, 4, 2, 34) && Agrees(a, 4, 3, 35)
    ensures Agrees(a, 4, 4, 36) && Agrees(a, 4, 5, 37) && Agrees(a, 4, 6, 38) && Agrees(a, 4, 7, 39)
  {
  }

  lemma Octet5(a: Lane)
    ensures Agrees(a, 5, 0, 40) && Agrees(a, 5, 1, 41) && Agrees(a, 5, 2, 42) && Agrees(a, 5, 3, 43)
    ensures Agrees(a, 5, 4, 44) && Agrees(a, 5, 5, 45) && Agrees(a, 5, 6, 46) && Agrees(a, 5, 7, 47)
  {
  }

  lemma Octet6(a: Lane)
    ensures Agrees(a, 6, 0, 48) && Agrees(a, 6, 1, 49) && Agrees(a, 6, 2, 50) && Agrees(a, 6, 3, 51)
    ensures Agrees(a, 6, 4, 52) && Agrees(a, 6, 5, 53) && Agrees(a, 6, 6, 54) && Agrees(a, 6, 7, 55)
  {
  }

  lemma Octet7(a: Lane)
    ensures Agrees(a, 7, 0, 56) && Agrees(a, 7, 1, 57) && Agrees(a, 7, 2, 58) && Agrees(a, 7, 3, 59)
    ensures Agrees(a, 7, 4, 60) && Agrees(a, 7, 5, 61) && Agrees(a, 7, 6, 62) && Agrees(a, 7, 7, 63)
  {
  }

  /** Bit j of octet k of a lane is its bit 8k + j. */
  lemma OctetBit(a: Lane, k: nat, j: nat)
    requires k < 8 && j < 8
    ensures Agrees(a, k, j, Place(k, j))
  {
    hide Agrees;
    assert j == 0 || j == 1 || j == 2 || j == 3 || j == 4 || j == 5 || j == 6 || j == 7;
    match k
    case 0 => Octet0(a);
    case 1 => Octet1(a);
    case 2 => Octet2(a);
    case 3 => Octet3(a);
    case 4 => Octet4(a);
    case 5 => Octet5(a);
    case 6 => Octet6(a);
    case _ => Octet7(a);
  }

  /** The bit string of a state, section 3.1.2: A[x, y, z] is bit 64(5y + x) + z, where z is 8k + j. */
  lemma StateString(s: State, x: nat, y: nat, k: nat, j: nat)
    requires x < 5 && y < 5 && k < 8 && j < 8
    ensures BitString(StateOctets(s))[64 * (5 * y + x) + (8 * k + j)] == A(s, x, y, Place(k, j))
  {
    hide BitAt, OctetAt, Bit, Place, StateOctets;
    var w := 5 * y + x;
    Places(w, k, j);
    OctetBit(s[w], k, j);
    OctetOf(s, w, k);
  }

  lemma OctetOf(s: State, w: nat, k: nat)
    requires w < 25 && k < 8
    ensures StateOctets(s)[8 * w + k] == OctetAt(s[w], k)
  {
    hide OctetAt;
    assert (8 * w + k) / 8 == w && (8 * w + k) % 8 == k;
  }

  lemma Places(w: nat, k: nat, j: nat)
    requires k < 8 && j < 8
    ensures (64 * w + (8 * k + j)) / 8 == 8 * w + k && (64 * w + (8 * k + j)) % 8 == j
  {
  }
}
