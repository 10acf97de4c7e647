/** The round constants of Keccak-f[1600]: the shift register of section 3.2.5 of FIPS 202. */
module KeccakConstants {
  import opened Keccak

  /** One step of the register x^8 + x^6 + x^5 + x^4 + 1, bit j of the word being R[j]. */
  function Stepped(r: bv8): bv8 {
    (r << 1) ^ (if r & 0x80 != 0 then 0x71 else 0)
  }

  function Register(t: nat): bv8 {
    if t == 0 then 1 else Stepped(Register(t - 1))
  }

  /** The bit rc(t) of algorithm 5. */
  predicate Rc(t: nat) {
    Register(t % 255) & 1 == 1
  }

  /** The register at the start of a round. */
  function RoundStart(i: nat): (r: bv8)
    requires i < 24
  {
    match i
    case 0 => 0x01 case 1 => 0x80 case 2 => 0xd8 case 3 => 0x1a case 4 => 0xdf case 5 => 0x09 case 6 => 0x35 case 7 => 0x4f
    case 8 => 0xca case 9 => 0x70 case 10 => 0x41 case 11 => 0xec case 12 => 0xd5 case 13 => 0xcd case 14 => 0x63 case 15 => 0xab
    case 16 => 0xaa case 17 => 0x2a case 18 => 0xf2 case 19 => 0xe8 case 20 => 0x37 case 21 => 0x3e case 22 => 0x0b case _ => 0x44
  }

  function Seven(r: bv8): bv8 {
    Stepped(Stepped(Stepped(Stepped(Stepped(Stepped(Stepped(r)))))))
  }

  lemma SevenSteps(t: nat)
    ensures Register(t + 7) == Seven(Register(t))
  {
    hide Stepped;
    assert Register(t + 7) == Stepped(Stepped(Register(t + 5)));
    assert Register(t + 5) == Stepped(Stepped(Register(t + 3)));
    assert Register(t + 3) == Stepped(Stepped(Register(t + 1)));
  }

  lemma StartsFollow()
    ensures Seven(0x01) == 0x80 && Seven(0x80) == 0xd8 && Seven(0xd8) == 0x1a && Seven(0x1a) == 0xdf
    ensures Seven(0xdf) == 0x09 && Seven(0x09) == 0x35 && Seven(0x35) == 0x4f && Seven(0x4f) == 0xca
    ensures Seven(0xca) == 0x70 && Seven(0x70) == 0x41 && Seven(0x41) == 0xec && Seven(0xec) == 0xd5
    ensures Seven(0xd5) == 0xcd && Seven(0xcd) == 0x63 && Seven(0x63) == 0xab && Seven(0xab) == 0xaa
    ensures Seven(0xaa) == 0x2a && Seven(0x2a) == 0xf2 && Seven(0xf2) == 0xe8 && Seven(0xe8) == 0x37
    ensures Seven(0x37) == 0x3e && Seven(0x3e) == 0x0b && Seven(0x0b) == 0x44
  {
  }

  lemma {:induction false} RegisterAt(i: nat)
    requires i < 24
    ensures Register(7 * i) == RoundStart(i)
  {
    hide Seven;
    if i > 0 {
      RegisterAt(i - 1);
      SevenSteps(7 * (i - 1));
      StartsFollow();
    }
  }

  /** Bit j is output j of a register that starts as r. */
  function Outputs(r: bv8): bv8 {
    (r & 1) | ((Stepped(r) & 1) << 1) | ((Stepped(Stepped(r)) & 1) << 2) | ((Stepped(Stepped(Stepped(r))) & 1) << 3)
    | ((Stepped(Stepped(Stepped(Stepped(r)))) & 1) << 4) | ((Stepped(Stepped(Stepped(Stepped(Stepped(r))))) & 1) << 5)
    | ((Stepped(Stepped(Stepped(Stepped(Stepped(Stepped(r)))))) & 1) << 6)
  }

  /** Bit j moved to place 2^j - 1. */
  function Spread(o: bv8): Lane {
    (if o & 1 != 0 then 0x1 else 0) | (if o & 2 != 0 then 0x2 else 0) | (if o & 4 != 0 then 0x8 else 0)
    | (if o & 8 != 0 then 0x80 else 0) | (if o & 16 != 0 then 0x8000 else 0) | (if o & 32 != 0 then 0x8000_0000 else 0)
    | (if o & 64 != 0 then 0x8000_0000_0000_0000 else 0)
  }

  lemma OutputsFrom0()
    ensures Outputs(0x01) == 0x01 && Outputs(0x80) == 0x1a && Outputs(0xd8) == 0x5e && Outputs(0x1a) == 0x70
    ensures Outputs(0xdf) == 0x1f && Outputs(0x09) == 0x21 && Outputs(0x35) == 0x79 && Outputs(0x4f) == 0x55
  {
  }

  lemma OutputsFrom8()
    ensures Outputs(0xca) == 0x0e && Outputs(0x70) == 0x0c && Outputs(0x41) == 0x35 && Outputs(0xec) == 0x26
    ensures Outputs(0xd5) == 0x3f && Outputs(0xcd) == 0x4f && Outputs(0x63) == 0x5d && Outputs(0xab) == 0x53
  {
  }

  lemma OutputsFrom16()
    ensures Outputs(0xaa) == 0x52 && Outputs(0x2a) == 0x48 && Outputs(0xf2) == 0x16 && Outputs(0xe8) == 0x66
    ensures Outputs(0x37) == 0x79 && Outputs(0x3e) == 0x58 && Outputs(0x0b) == 0x21 && Outputs(0x44) == 0x74
  {
  }

  lemma SpreadFrom0()
    ensures Spread(0x01) == 0x0000000000000001 && Spread(0x1a) == 0x0000000000008082
    ensures Spread(0x5e) == 0x800000000000808a && Spread(0x70) == 0x8000000080008000
    ensures Spread(0x1f) == 0x000000000000808b && Spread(0x21) == 0x0000000080000001
    ensures Spread(0x79) == 0x8000000080008081 && Spread(0x55) == 0x8000000000008009
  {
  }

  lemma SpreadFrom8()
    ensures Spread(0x0e) == 0x000000000000008a && Spread(0x0c) == 0x0000000000000088
    ensures Spread(0x35) == 0x0000000080008009 && Spread(0x26) == 0x000000008000000a
    ensures Spread(0x3f) == 0x000000008000808b && Spread(0x4f) == 0x800000000000008b
    ensures Spread(0x5d) == 0x8000000000008089 && Spread(0x53) == 0x8000000000008003
  {
  }

  lemma SpreadFrom16()
    ensures Spread(0x52) == 0x8000000000008002 && Spread(0x48) == 0x8000000000000080
    ensures Spread(0x16) == 0x000000000000800a && Spread(0x66) == 0x800000008000000a
    ensures Spread(0x79) == 0x8000000080008081 && Spread(0x58) == 0x8000000000008080
    ensures Spread(0x21) == 0x0000000080000001 && Spread(0x74) == 0x8000000080008008
  {
  }

  lemma ConstantIs(i: nat)
    requires i < 24
    ensures RC(i) == Spread(Outputs(RoundStart(i)))
  {
    hide Spread, Outputs;
    OutputsFrom0();
    OutputsFrom8();
    OutputsFrom16();
    SpreadFrom0();
    SpreadFrom8();
    SpreadFrom16();
  }

  lemma OutputBits(i: nat)
    requires i < 24
    ensures var o := Outputs(RoundStart(i));
            && (o & 1 != 0 <==> Rc(7 * i)) && (o & 2 != 0 <==> Rc(7 * i + 1)) && (o & 4 != 0 <==> Rc(7 * i + 2))
            && (o & 8 != 0 <==> Rc(7 * i + 3)) && (o & 16 != 0 <==> Rc(7 * i + 4)) && (o & 32 != 0 <==> Rc(7 * i + 5))
            && (o & 64 != 0 <==> Rc(7 * i + 6))
  {
    hide Stepped, RoundStart, Rc;
    RegisterAt(i);
    var r := RoundStart(i);
    SixMore(7 * i);
    OutputsAre(r, Stepped(r), Stepped(Stepped(r)), Stepped(Stepped(Stepped(r))), Stepped(Stepped(Stepped(Stepped(r)))),
               Stepped(Stepped(Stepped(Stepped(Stepped(r))))), Stepped(Stepped(Stepped(Stepped(Stepped(Stepped(r)))))));
    RcIs(7 * i);
    RcIs(7 * i + 1);
    RcIs(7 * i + 2);
    RcIs(7 * i + 3);
    RcIs(7 * i + 4);
    RcIs(7 * i + 5);
    RcIs(7 * i + 6);
  }

  lemma RcIs(t: nat)
    requires t < 255
    ensures Rc(t) <==> Register(t) & 1 == 1
  {
    hide Register;
    assert t % 255 == t;
  }

  lemma SixMore(t: nat)
    ensures var r := Register(t);
            && Register(t + 1) == Stepped(r) && Register(t + 2) == Stepped(Stepped(r))
            && Register(t + 3) == Stepped(Stepped(Stepped(r))) && Register(t + 4) == Stepped(Stepped(Stepped(Stepped(r))))
            && Register(t + 5) == Stepped(Stepped(Stepped(Stepped(Stepped(r)))))
            && Register(t + 6) == Stepped(Stepped(Stepped(Stepped(Stepped(Stepped(r))))))
  {
    hide Stepped;
    assert Register(t + 1) == Stepped(Register(t));
    assert Register(t + 2) == Stepped(Register(t + 1));
    assert Register(t + 3) == Stepped(Register(t + 2));
    assert Register(t + 4) == Stepped(Register(t + 3));
    assert Register(t + 5) == Stepped(Register(t + 4));
    assert Register(t + 6) == Stepped(Register(t + 5));
  }

  lemma OutputsAre(a: bv8, b: bv8, c: bv8, d: bv8, e: bv8, f: bv8, g: bv8)
    ensures var o := (a & 1) | ((b & 1) << 1) | ((c & 1) << 2) | ((d & 1) << 3) | ((e & 1) << 4) | ((f & 1) << 5) | ((g & 1) << 6);
            && (o & 1 != 0 <==> a & 1 == 1) && (o & 2 != 0 <==> b & 1 == 1) && (o & 4 != 0 <==> c & 1 == 1)
            && (o & 8 != 0 <==> d & 1 == 1) && (o & 16 != 0 <==> e & 1 == 1) && (o & 32 != 0 <==> f & 1 == 1)
            && (o & 64 != 0 <==> g & 1 == 1)
  {
  }

  /** Algorithm 6: bit 2^j - 1 of the constant of round i is rc(j + 7i), and all other bits are 0. */
  lemma RoundConstants(i: nat)
    requires i < 24
    ensures RC(i) == (if Rc(7 * i) then 0x1 else 0) | (if Rc(7 * i + 1) then 0x2 else 0) | (if Rc(7 * i + 2) then 0x8 else 0)
      | (if Rc(7 * i + 3) then 0x80 else 0) | (if Rc(7 * i + 4) then 0x8000 else 0) | (if Rc(7 * i + 5) then 0x8000_0000 else 0)
      | (if Rc(7 * i + 6) then 0x8000_0000_0000_0000 else 0)
  {
    hide Rc, Outputs, RoundStart, RC;
    ConstantIs(i);
    OutputBits(i);
  }
}
