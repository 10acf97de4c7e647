/** The Keccak-f[1600] permutation of section 3 of FIPS 202, in place, and the sponge of section 4. */
module Keccak {
  import opened Bits

  type Lane = bv64
  type State = s: seq<Lane> | |s| == 25 witness seq(25, _ => 0)

  // ----- the step mappings, all lanes at once; lane (x, y) has index x + 5y -----

  function Rotl(a: Lane, n: nat): Lane
    requires n <= 64
  {
    Turned(a, n as bv7)
  }

  function Turned(a: Lane, n: bv7): Lane
    requires n <= 64
  {
    (a << n) | (a >> (64 - n))
  }

  function Xor2(a: Lane, b: Lane): Lane {
    a ^ b
  }

  function At(s: State, x: nat, y: nat): Lane
    requires x < 5 && y < 5
  {
    s[x + 5 * y]
  }

  /** The parity of column x. */
  function Parity(s: State, x: nat): Lane
    requires x < 5
  {
    Xor2(Xor2(Xor2(Xor2(s[x], s[x + 5]), s[x + 10]), s[x + 15]), s[x + 20])
  }

  function ThetaAt(s: State, p: nat): Lane
    requires p < 25
  {
    var x := p % 5;
    Xor2(s[p], Xor2(Parity(s, (x + 4) % 5), Rotl(Parity(s, (x + 1) % 5), 1)))
  }

  function Theta(s: State): State {
    seq(25, (p: nat) requires p < 25 => ThetaAt(s, p))
  }

  /** Where the walk of section 3.2.2 is after t steps: from (1, 0), (x, y) goes to (y, 2x + 3y). */
  function Walk(t: nat): (p: (nat, nat))
    ensures p.0 < 5 && p.1 < 5
  {
    if t == 0 then (1, 0) else (Walk(t - 1).1, (2 * Walk(t - 1).0 + 3 * Walk(t - 1).1) % 5)
  }

  /** The lane visited at step t. */
  function Visited(t: nat): (p: nat)
    ensures p < 25
  {
    Walk(t).0 + 5 * Walk(t).1
  }

  /** The rotation offset of the lane visited at step t; the lane (0, 0) is not visited and not rotated. */
  function Offset(t: nat): (n: nat)
    ensures n < 64
  {
    ((t + 1) * (t + 2) / 2) % 64
  }

  /** The step at which a lane is visited. */
  function StepOf(p: nat): (t: nat)
    requires 0 < p < 25
    ensures t < 24
  {
    match p
    case 1 => 0 case 10 => 1 case 7 => 2 case 11 => 3 case 17 => 4 case 18 => 5 case 3 => 6 case 5 => 7
    case 16 => 8 case 8 => 9 case 21 => 10 case 24 => 11 case 4 => 12 case 15 => 13 case 23 => 14 case 19 => 15
    case 13 => 16 case 12 => 17 case 2 => 18 case 20 => 19 case 14 => 20 case 22 => 21 case 9 => 22 case _ => 23
  }

  function Rho(s: State): State {
    seq(25, (p: nat) requires p < 25 => if p == 0 then s[0] else Rotl(s[p], Offset(StepOf(p))))
  }

  /** Lane (x, y) comes from lane (x + 3y, x). */
  function Source(p: nat): (q: nat)
    requires p < 25
    ensures q < 25
  {
    (p % 5 + 3 * (p / 5)) % 5 + 5 * (p % 5)
  }

  function Pi(s: State): State {
    seq(25, (p: nat) requires p < 25 => s[Source(p)])
  }

  function Nand(a: Lane, b: Lane): Lane {
    (!a) & b
  }

  function ChiAt(s: State, p: nat): Lane
    requires p < 25
  {
    var y := p - p % 5;
    Xor2(s[p], Nand(s[y + (p + 1) % 5], s[y + (p + 2) % 5]))
  }

  function Chi(s: State): State {
    seq(25, (p: nat) requires p < 25 => ChiAt(s, p))
  }

  /** The constant of a round. */
  function RC(i: nat): Lane
    requires i < 24
  {
    match i
    case 0 => 0x0000000000000001 case 1 => 0x0000000000008082 case 2 => 0x800000000000808a
    case 3 => 0x8000000080008000 case 4 => 0x000000000000808b case 5 => 0x0000000080000001
    case 6 => 0x8000000080008081 case 7 => 0x8000000000008009 case 8 => 0x000000000000008a
    case 9 => 0x0000000000000088 case 10 => 0x0000000080008009 case 11 => 0x000000008000000a
    case 12 => 0x000000008000808b case 13 => 0x800000000000008b case 14 => 0x8000000000008089
    case 15 => 0x8000000000008003 case 16 => 0x8000000000008002 case 17 => 0x8000000000000080
    case 18 => 0x000000000000800a case 19 => 0x800000008000000a case 20 => 0x8000000080008081
    case 21 => 0x8000000000008080 case 22 => 0x0000000080000001 case _ => 0x8000000080008008
  }

  function Iota(s: State, round: nat): State
    requires round < 24
  {
    s[0 := Xor2(s[0], RC(round))]
  }

  function Round(s: State, round: nat): State
    requires round < 24
  {
    Iota(Chi(Pi(Rho(Theta(s)))), round)
  }

  function Rounds(s: State, n: nat): State
    requires n <= 24
  {
    if n == 0 then s else Round(Rounds(s, n - 1), n - 1)
  }

  function Permutation(s: State): State {
    Rounds(s, 24)
  }

  // ----- the tables of the program -----

  /** k_keccak_rot[i] */
  function Rot(i: nat): (n: nat)
    requires i < 24
    ensures n < 64
  {
    match i
    case 0 => 1 case 1 => 3 case 2 => 6 case 3 => 10 case 4 => 15 case 5 => 21 case 6 => 28 case 7 => 36
    case 8 => 45 case 9 => 55 case 10 => 2 case 11 => 14 case 12 => 27 case 13 => 41 case 14 => 56 case 15 => 8
    case 16 => 25 case 17 => 43 case 18 => 62 case 19 => 18 case 20 => 39 case 21 => 61 case 22 => 20 case _ => 44
  }

  /** k_keccak_pil[i] */
  function Pil(i: nat): (n: nat)
    requires i < 24
    ensures n < 25
  {
    match i
    case 0 => 10 case 1 => 7 case 2 => 11 case 3 => 17 case 4 => 18 case 5 => 3 case 6 => 5 case 7 => 16
    case 8 => 8 case 9 => 21 case 10 => 24 case 11 => 4 case 12 => 15 case 13 => 23 case 14 => 19 case 15 => 13
    case 16 => 12 case 17 => 2 case 18 => 20 case 19 => 14 case 20 => 22 case 21 => 9 case 22 => 6 case _ => 1
  }

  /** The lane that step i of the cycle takes its value from. */
  function Before(i: nat): (p: nat)
    requires i < 24
    ensures p < 25
  {
    if i == 0 then 1 else Pil(i - 1)
  }

  /** The lane after p in the walk. */
  function Onward(p: nat): (q: nat)
    requires p < 25
    ensures q < 25
  {
    p / 5 + 5 * ((2 * (p % 5) + 3 * (p / 5)) % 5)
  }

  /** The permutation of lanes is the walk run backwards. */
  lemma SourceUndoesOnward(p: nat)
    requires p < 25
    ensures Source(Onward(p)) == p
  {
    var x, y := p % 5, p / 5;
    var r, k := (2 * x + 3 * y) % 5, (2 * x + 3 * y) / 5;
    DivUnique(y + 5 * r, 5, r, y);
    DivUnique(y + 3 * r, 5, x + 2 * y - 3 * k, x);
  }

  /** The tables follow the walk. */
  lemma TablesFollowWalk(i: nat)
    requires i < 24
    ensures 0 < Pil(i) && Rot(i) == Offset(i) && Source(Pil(i)) == Before(i)
    ensures Before(i) > 0 && StepOf(Before(i)) == i && Onward(Before(i)) == Pil(i)
  {
    hide Rot, Offset, Pil, StepOf, Source, Onward, Before;
    LanesFollowWalk(i);
    StepsFollowWalk(i);
    OffsetsFollowWalk(i);
    SourceUndoesOnward(Before(i));
  }

  lemma LanesFollowWalk(i: nat)
    requires i < 24
    ensures 0 < Pil(i) && Onward(Before(i)) == Pil(i)
  {
    if i < 8 {
      FirstLanes(i);
    } else if i < 16 {
      MiddleLanes(i);
    } else {
      LastLanes(i);
    }
  }

  lemma FirstLanes(i: nat)
    requires i < 8
    ensures 0 < Pil(i) && Onward(Before(i)) == Pil(i)
  {
  }

  lemma MiddleLanes(i: nat)
    requires 8 <= i < 16
    ensures 0 < Pil(i) && Onward(Before(i)) == Pil(i)
  {
  }

  lemma LastLanes(i: nat)
    requires 16 <= i < 24
    ensures 0 < Pil(i) && Onward(Before(i)) == Pil(i)
  {
  }

  lemma StepsFollowWalk(i: nat)
    requires i < 24
    ensures Before(i) > 0 && StepOf(Before(i)) == i
  {
  }

  lemma OffsetsFollowWalk(i: nat)
    requires i < 24
    ensures Rot(i) == Offset(i)
  {
  }

  /** The walk visits the lanes of the table. */
  lemma {:induction false} WalkIsTable(t: nat)
    requires t < 24
    ensures Visited(t) == Before(t)
  {
    if t > 0 {
      WalkIsTable(t - 1);
      LanesFollowWalk(t - 1);
      VisitedNext(t - 1);
    }
  }

  lemma VisitedNext(t: nat)
    ensures Visited(t + 1) == Onward(Visited(t))
  {
  }

  // ----- the program -----

  method Parities(s: State) returns (bc: seq<Lane>)
    ensures |bc| == 5 && forall x :: 0 <= x < 5 ==> bc[x] == Parity(s, x)
  {
    hide Xor2;
    bc := [];
    while |bc| < 5
      invariant |bc| <= 5 && forall x :: 0 <= x < |bc| ==> bc[x] == Parity(s, x)
    {
      var i := |bc|;
      bc := bc + [Xor2(Xor2(Xor2(Xor2(s[i], s[i + 5]), s[i + 10]), s[i + 15]), s[i + 20])];
    }
  }

  /** Add t to every lane of column i. */
  method MixColumn(st: array<Lane>, i: nat, t: Lane)
    requires st.Length == 25 && i < 5
    modifies st
    ensures forall p :: 0 <= p < 25 ==> st[p] == if p % 5 == i then Xor2(old(st[p]), t) else old(st[p])
  {
    hide Xor2;
    var j := 0;
    while j < 25
      invariant 0 <= j <= 25 && j % 5 == 0
      invariant forall p :: 0 <= p < 25 ==> st[p] == if p % 5 == i && p < j then Xor2(old(st[p]), t) else old(st[p])
    {
      assert (j + i) % 5 == i;
      st[j + i] := Xor2(st[j + i], t);
      j := j + 5;
    }
  }

  /** Columns are mixed in place: all parities first, then column by column. */
  method ThetaInPlace(st: array<Lane>)
    requires st.Length == 25
    modifies st
    ensures st[..] == Theta(old(st[..]))
  {
    hide Rotl, Xor2, Parity;
    ghost var s: State := st[..];
    var bc := Parities(st[..]);
    var i := 0;
    while i < 5
      invariant 0 <= i <= 5
      invariant forall p :: 0 <= p < 25 ==> st[p] == if p % 5 < i then ThetaAt(s, p) else s[p]
    {
      var t := Xor2(bc[(i + 4) % 5], Rotl(bc[(i + 1) % 5], 1));
      MixColumn(st, i, t);
      i := i + 1;
    }
    assert st[..] == Theta(s);
  }

  /** The step after which a lane has been written. */
  function Written(p: nat): nat
    requires 0 < p < 25
  {
    if p == 1 then 23 else StepOf(p) - 1
  }

  lemma StepInverse(i: nat)
    requires i < 24
    ensures Pil(i) > 0 && Written(Pil(i)) == i
  {
  }

  lemma WrittenBy(p: nat)
    requires 0 < p < 25
    ensures 0 <= Written(p) < 24 && Pil(Written(p)) == p
  {
  }

  /** One cycle through 24 lanes, carrying one lane along, rotates and moves them all. */
  method RhoPiInPlace(st: array<Lane>)
    requires st.Length == 25
    modifies st
    ensures st[..] == Pi(Rho(old(st[..])))
  {
    hide Rotl, Xor2, Pil, Rot, Written, Before;
    ghost var s: State := st[..];
    var t := st[1];
    var i := 0;
    FirstLane();
    while i < 24
      invariant 0 <= i <= 24 && (i < 24 ==> t == s[Before(i)])
      invariant forall k :: 0 <= k < i ==> st[Pil(k)] == Rotl(s[Before(k)], Rot(k))
      invariant st[0] == s[0] && forall p :: 0 < p < 25 && Written(p) >= i ==> st[p] == s[p]
    {
      var j := Pil(i);
      StepInverse(i);
      var saved := st[j];
      forall k | 0 <= k < i ensures Pil(k) != j {
        StepInverse(k);
      }
      st[j] := Rotl(t, Rot(i));
      t := saved;
      NextLane(i);
      i := i + 1;
    }
    forall p | 0 <= p < 25 ensures st[p] == Pi(Rho(s))[p] {
      CycleAt(s, st[..], p);
    }
    assert st[..] == Pi(Rho(s));
  }

  lemma FirstLane()
    ensures Before(0) == 1
  {
  }

  lemma NextLane(i: nat)
    requires i < 24
    ensures i < 23 ==> Before(i + 1) == Pil(i)
  {
    hide Pil;
  }

  lemma CycleAt(s: State, t: State, p: nat)
    requires p < 25 && t[0] == s[0]
    requires forall k :: 0 <= k < 24 ==> t[Pil(k)] == Rotl(s[Before(k)], Rot(k))
    ensures t[p] == Pi(Rho(s))[p]
  {
    hide Rotl, Pil, Rot, Offset, StepOf;
    if p > 0 {
      WrittenBy(p);
      var k := Written(p);
      TablesFollowWalk(k);
      assert t[Pil(k)] == Rotl(s[Before(k)], Rot(k));
    }
  }

  /** One row, from five saved lanes. */
  method ChiRow(st: array<Lane>, j: nat)
    requires st.Length == 25 && j + 5 <= 25
    modifies st
    ensures forall p :: 0 <= p < 25 && !(j <= p < j + 5) ==> st[p] == old(st[p])
    ensures st[j] == Xor2(old(st[j]), Nand(old(st[j + 1]), old(st[j + 2])))
    ensures st[j + 1] == Xor2(old(st[j + 1]), Nand(old(st[j + 2]), old(st[j + 3])))
    ensures st[j + 2] == Xor2(old(st[j + 2]), Nand(old(st[j + 3]), old(st[j + 4])))
    ensures st[j + 3] == Xor2(old(st[j + 3]), Nand(old(st[j + 4]), old(st[j])))
    ensures st[j + 4] == Xor2(old(st[j + 4]), Nand(old(st[j]), old(st[j + 1])))
  {
    hide Xor2, Nand;
    var a0, a1, a2, a3, a4 := st[j], st[j + 1], st[j + 2], st[j + 3], st[j + 4];
    st[j] := Xor2(a0, Nand(a1, a2));
    st[j + 1] := Xor2(a1, Nand(a2, a3));
    st[j + 2] := Xor2(a2, Nand(a3, a4));
    st[j + 3] := Xor2(a3, Nand(a4, a0));
    st[j + 4] := Xor2(a4, Nand(a0, a1));
  }

  /** Rows are combined in place. */
  method ChiInPlace(st: array<Lane>)
    requires st.Length == 25
    modifies st
    ensures st[..] == Chi(old(st[..]))
  {
    hide Xor2, Nand, ChiAt;
    ghost var s: State := st[..];
    var j := 0;
    while j < 25
      invariant 0 <= j <= 25 && j % 5 == 0
      invariant forall p :: 0 <= p < 25 ==> st[p] == if p < j then ChiAt(s, p) else s[p]
    {
      RowIsChi(s, j);
      ChiRow(st, j);
      j := j + 5;
    }
    assert st[..] == Chi(s);
  }

  lemma RowIsChi(s: State, j: nat)
    requires j + 5 <= 25 && j % 5 == 0
    ensures ChiAt(s, j) == Xor2(s[j], Nand(s[j + 1], s[j + 2])) && ChiAt(s, j + 1) == Xor2(s[j + 1], Nand(s[j + 2], s[j + 3]))
    ensures ChiAt(s, j + 2) == Xor2(s[j + 2], Nand(s[j + 3], s[j + 4])) && ChiAt(s, j + 3) == Xor2(s[j + 3], Nand(s[j + 4], s[j]))
    ensures ChiAt(s, j + 4) == Xor2(s[j + 4], Nand(s[j], s[j + 1]))
  {
    hide Xor2, Nand;
  }

  method KeccakF(st: array<Lane>)
    requires st.Length == 25
    modifies st
    ensures st[..] == Permutation(old(st[..]))
  {
    hide Theta, Rho, Pi, Chi, Xor2;
    var round := 0;
    while round < 24
      invariant 0 <= round <= 24 && st[..] == Rounds(old(st[..]), round)
    {
      ThetaInPlace(st);
      RhoPiInPlace(st);
      ChiInPlace(st);
      ghost var s: State := st[..];
      st[0] := Xor2(st[0], RC(round));
      assert st[..] == Iota(s, round);
      round := round + 1;
    }
  }
}
