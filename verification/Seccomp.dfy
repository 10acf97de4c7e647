/** The seccomp filter: a compiler from a capability mask to a BPF program, an interpreter, and what the program means. */
module Seccomp {
  import opened Bits
  import opened Hex
  import opened MaskBits

  type Word32 = x: int | 0 <= x < 0x1_0000_0000

  const ALLOW: Word32 := 0x7fff0000
  const KILL: Word32 := 0x80000000
  /** SECCOMP_RET_ERRNO with ENOSYS. */
  const ENOSYS: Word32 := 0x00050026

  // ----- the machine -----

  /** What the kernel shows a filter: system call number, architecture, and six 64-bit arguments. */
  datatype Data = Data(nr: Word32, arch: Word32, args: seq<nat>)

  datatype Insn = Load(off: nat) | JumpEqual(k: Word32, jt: nat, jf: nat) | JumpSet(k: Word32, jt: nat, jf: nat) | Return(k: Word32)

  const NR := 0
  const ARCH := 4

  /** The offset of the low half of argument i. */
  function Arg(i: nat): nat {
    16 + 8 * i
  }

  function WordAt(d: Data, off: nat): (w: Option<Word32>)
  {
    if off == NR then Some(d.nr)
    else if off == ARCH then Some(d.arch)
    else if off >= 16 && off % 8 == 0 && (off - 16) / 8 < |d.args| then Some(d.args[(off - 16) / 8] % 0x1_0000_0000)
    else None
  }

  /** Run from instruction pc with accumulator acc. Jumps only go forward, so every run ends; leaving the program has no verdict. */
  function Run(f: seq<Insn>, pc: nat, acc: Word32, d: Data): (v: Option<Word32>)
    decreases |f| - pc
  {
    if pc >= |f| then None
    else match f[pc]
      case Load(off) =>
        (match WordAt(d, off)
         case Some(w) => Run(f, pc + 1, w, d)
         case None => None)
      case JumpEqual(k, jt, jf) => Run(f, pc + 1 + (if acc == k then jt else jf), acc, d)
      case JumpSet(k, jt, jf) => Run(f, pc + 1 + (if And(acc, k) != 0 then jt else jf), acc, d)
      case Return(k) => Some(k)
  }

  // ----- rules and their code -----

  /** One verdict for a system call, or two, chosen by bits of an argument. */
  datatype Rule =
    | Plain(nr: Word32, act: Word32)
    | Flagged(nr: Word32, arg: nat, bits: Word32, ifSet: Word32, ifClear: Word32)

  function Verdict(r: Rule, d: Data): Word32
    requires |d.args| == 6 && (r.Flagged? ==> r.arg < 6)
  {
    match r
    case Plain(_, act) => act
    case Flagged(_, arg, bits, ifSet, ifClear) => if And(d.args[arg] % 0x1_0000_0000, bits) != 0 then ifSet else ifClear
  }

  predicate GoodRules(rs: seq<Rule>) {
    forall i :: 0 <= i < |rs| && rs[i].Flagged? ==> rs[i].arg < 6
  }

  /** The first rule for the system call decides; calls without a rule are allowed. */
  function Decide(rs: seq<Rule>, d: Data): Word32
    requires |d.args| == 6 && GoodRules(rs)
  {
    if rs == [] then ALLOW else if d.nr == rs[0].nr then Verdict(rs[0], d) else Decide(rs[1..], d)
  }

  function Code(r: Rule): (c: seq<Insn>) {
    match r
    case Plain(nr, act) => [JumpEqual(nr, 0, 1), Return(act)]
    case Flagged(nr, arg, bits, ifSet, ifClear) =>
      [JumpEqual(nr, 0, 4), Load(Arg(arg)), JumpSet(bits, 0, 1), Return(ifSet), Return(ifClear)]
  }

  function CodeAll(rs: seq<Rule>): (c: seq<Insn>) {
    if rs == [] then [Return(ALLOW)] else Code(rs[0]) + CodeAll(rs[1..])
  }

  function Header(arch: Word32): (c: seq<Insn>) {
    [Load(ARCH), JumpEqual(arch, 1, 0), Return(KILL), Load(NR)]
  }

  /** The code of the rules, wherever it stands, decides as the rules do. */
  lemma {:induction false} CodeDecides(pre: seq<Insn>, rs: seq<Rule>, d: Data)
    requires |d.args| == 6 && GoodRules(rs)
    ensures Run(pre + CodeAll(rs), |pre|, d.nr, d) == Some(Decide(rs, d))
    decreases |rs|
  {
    var f := pre + CodeAll(rs);
    if rs == [] {
      assert f[|pre|] == Return(ALLOW);
    } else {
      var c := Code(rs[0]);
      assert f == (pre + c) + CodeAll(rs[1..]);
      CodeDecides(pre + c, rs[1..], d);
      RuleStep(f, |pre|, rs[0], d);
    }
  }

  /** The code of one rule gives its verdict or passes on. */
  lemma RuleStep(f: seq<Insn>, at: nat, r: Rule, d: Data)
    requires |d.args| == 6 && (r.Flagged? ==> r.arg < 6)
    requires at + |Code(r)| <= |f| && f[at..at + |Code(r)|] == Code(r)
    ensures Run(f, at, d.nr, d) == if d.nr == r.nr then Some(Verdict(r, d)) else Run(f, at + |Code(r)|, d.nr, d)
  {
    var c := Code(r);
    var g := f[at..at + |c|];
    assert f[at] == g[0] && f[at + 1] == g[1];
    assert Run(f, at, d.nr, d) == Run(f, at + 1 + (if d.nr == r.nr then 0 else |c| - 1), d.nr, d);
    if d.nr == r.nr {
      match r
      case Plain(_, act) =>
        assert Run(f, at + 1, d.nr, d) == Some(act);
      case Flagged(_, arg, bits, ifSet, ifClear) =>
        var w := d.args[arg] % 0x1_0000_0000;
        assert f[at + 2] == g[2] && f[at + 3] == g[3] && f[at + 4] == g[4];
        assert WordAt(d, Arg(arg)) == Some(w);
        assert Run(f, at + 1, d.nr, d) == Run(f, at + 2, w, d);
        assert Run(f, at + 2, w, d) == Run(f, at + 3 + (if And(w, bits) != 0 then 0 else 1), w, d);
        assert Run(f, at + 3, w, d) == Some(ifSet) && Run(f, at + 4, w, d) == Some(ifClear);
    }
  }

  function Program(arch: Word32, rs: seq<Rule>): (f: seq<Insn>) {
    Header(arch) + CodeAll(rs)
  }

  /** The whole program: another architecture is killed, else the rules decide. */
  lemma ProgramDecides(arch: Word32, rs: seq<Rule>, d: Data)
    requires |d.args| == 6 && GoodRules(rs)
    ensures Run(Program(arch, rs), 0, 0, d) == Some(if d.arch == arch then Decide(rs, d) else KILL)
  {
    var f := Program(arch, rs);
    assert f[0] == Load(ARCH) && f[1] == JumpEqual(arch, 1, 0) && f[2] == Return(KILL) && f[3] == Load(NR);
    assert Run(f, 0, 0, d) == Run(f, 1, d.arch, d);
    if d.arch == arch {
      CodeDecides(Header(arch), rs, d);
      assert Run(f, 1, d.arch, d) == Run(f, 3, d.arch, d) == Run(f, 4, d.nr, d);
    } else {
      assert Run(f, 1, d.arch, d) == Run(f, 2, d.arch, d);
    }
  }

  // ----- the policy -----

  /** The system call numbers of a build; calls that the ABI lacks have none. */
  datatype Abi = Abi(arch: Word32, socket: Option<Word32>, connect: Option<Word32>, bind: Option<Word32>,
                     fork: Option<Word32>, vfork: Option<Word32>, execve: Option<Word32>, execveat: Option<Word32>,
                     clone3: Option<Word32>, clone: Option<Word32>, openat: Option<Word32>, open: Option<Word32>)

  const CLONE_THREAD: Word32 := 0x10000
  /** O_WRONLY | O_RDWR | O_CREAT | O_TRUNC | O_APPEND. */
  const WRITE_BITS: Word32 := 0x643

  datatype Actions = Actions(net: Word32, process: Word32, clone3: Word32, writes: bool)

  function Numbers(a: Abi): (s: seq<Option<Word32>>) {
    [a.socket, a.connect, a.bind, a.fork, a.vfork, a.execve, a.execveat, a.clone3, a.clone, a.openat, a.open]
  }

  predicate DistinctCalls(a: Abi) {
    forall i, j :: 0 <= i < j < 11 && Numbers(a)[i].Some? ==> Numbers(a)[i] != Numbers(a)[j]
  }

  /** The verdict for every call, named by what the call does. */
  function Policy(a: Abi, x: Actions, d: Data): Word32
    requires |d.args| == 6
  {
    var nr := Some(d.nr);
    if d.arch != a.arch then KILL
    else if nr in {a.socket, a.connect, a.bind} then x.net
    else if nr in {a.fork, a.vfork, a.execve, a.execveat} then x.process
    else if nr == a.clone3 then x.clone3
    else if nr == a.clone then (if And(d.args[0] % 0x1_0000_0000, CLONE_THREAD) != 0 then ALLOW else x.process)
    else if !x.writes && nr == a.openat then (if And(d.args[2] % 0x1_0000_0000, WRITE_BITS) != 0 then KILL else ALLOW)
    else if !x.writes && nr == a.open then (if And(d.args[1] % 0x1_0000_0000, WRITE_BITS) != 0 then KILL else ALLOW)
    else ALLOW
  }

  function PlainRule(nr: Option<Word32>, act: Word32): (r: seq<Rule>)
    ensures GoodRules(r)
  {
    if nr.Some? then [Plain(nr.value, act)] else []
  }

  function FlaggedRule(nr: Option<Word32>, arg: nat, bits: Word32, ifSet: Word32, ifClear: Word32): (r: seq<Rule>)
    requires arg < 6
    ensures GoodRules(r)
  {
    if nr.Some? then [Flagged(nr.value, arg, bits, ifSet, ifClear)] else []
  }

  function Joined(r: seq<Rule>, s: seq<Rule>): (t: seq<Rule>)
    ensures GoodRules(r) && GoodRules(s) ==> GoodRules(t)
  {
    r + s
  }

  function NetRules(a: Abi, x: Actions): (r: seq<Rule>)
    ensures GoodRules(r)
  {
    Joined(Joined(PlainRule(a.socket, x.net), PlainRule(a.connect, x.net)), PlainRule(a.bind, x.net))
  }

  function ProcessRules(a: Abi, x: Actions): (r: seq<Rule>)
    ensures GoodRules(r)
  {
    Joined(Joined(Joined(PlainRule(a.fork, x.process), PlainRule(a.vfork, x.process)), PlainRule(a.execve, x.process)), PlainRule(a.execveat, x.process))
  }

  function CloneRules(a: Abi, x: Actions): (r: seq<Rule>)
    ensures GoodRules(r)
  {
    PlainRule(a.clone3, x.clone3) + FlaggedRule(a.clone, 0, CLONE_THREAD, ALLOW, x.process)
  }

  function OpenRules(a: Abi, x: Actions): (r: seq<Rule>)
    ensures GoodRules(r)
  {
    if x.writes then [] else FlaggedRule(a.openat, 2, WRITE_BITS, KILL, ALLOW) + FlaggedRule(a.open, 1, WRITE_BITS, KILL, ALLOW)
  }

  function Rules(a: Abi, x: Actions): (r: seq<Rule>)
    ensures GoodRules(r)
  {
    Joined(Joined(Joined(NetRules(a, x), ProcessRules(a, x)), CloneRules(a, x)), OpenRules(a, x))
  }

  // ----- rules decide as the policy -----

  /** A rule for the call among rs. */
  predicate Decides(rs: seq<Rule>, nr: Word32) {
    exists i :: 0 <= i < |rs| && rs[i].nr == nr
  }

  lemma {:induction false} DecideAppend(r: seq<Rule>, s: seq<Rule>, d: Data)
    requires |d.args| == 6 && GoodRules(r) && GoodRules(s)
    ensures GoodRules(r + s)
    ensures Decide(r + s, d) == if Decides(r, d.nr) then Decide(r, d) else Decide(s, d)
    ensures Decides(r + s, d.nr) <==> Decides(r, d.nr) || Decides(s, d.nr)
    decreases |r|
  {
    if r == [] {
      assert r + s == s;
    } else {
      assert (r + s)[1..] == r[1..] + s;
      DecideAppend(r[1..], s, d);
      forall i | 0 <= i < |s| && s[i].nr == d.nr ensures Decides(r + s, d.nr) {
        assert (r + s)[|r| + i] == s[i];
      }
      forall i | 0 <= i < |r| && r[i].nr == d.nr ensures Decides(r + s, d.nr) && (i > 0 ==> Decides(r[1..], d.nr)) {
        assert (r + s)[i] == r[i];
        assert i > 0 ==> r[1..][i - 1] == r[i];
      }
      forall i | 0 <= i < |r| - 1 && r[1..][i].nr == d.nr ensures Decides(r, d.nr) {
        assert r[i + 1] == r[1..][i];
      }
    }
  }

  lemma PlainDecides(nr: Option<Word32>, act: Word32, d: Data)
    requires |d.args| == 6
    ensures Decides(PlainRule(nr, act), d.nr) <==> nr == Some(d.nr)
    ensures nr == Some(d.nr) ==> Decide(PlainRule(nr, act), d) == act
  {
    if nr == Some(d.nr) {
      assert PlainRule(nr, act)[0].nr == d.nr;
    }
  }

  lemma FlaggedDecides(nr: Option<Word32>, arg: nat, bits: Word32, s: Word32, c: Word32, d: Data)
    requires |d.args| == 6 && arg < 6
    ensures Decides(FlaggedRule(nr, arg, bits, s, c), d.nr) <==> nr == Some(d.nr)
    ensures nr == Some(d.nr) ==> Decide(FlaggedRule(nr, arg, bits, s, c), d) == if And(d.args[arg] % 0x1_0000_0000, bits) != 0 then s else c
  {
    if nr == Some(d.nr) {
      assert FlaggedRule(nr, arg, bits, s, c)[0].nr == d.nr;
    }
  }

  lemma NetDecides(a: Abi, x: Actions, d: Data)
    requires |d.args| == 6
    ensures Decides(NetRules(a, x), d.nr) <==> Some(d.nr) in {a.socket, a.connect, a.bind}
    ensures Decides(NetRules(a, x), d.nr) ==> Decide(NetRules(a, x), d) == x.net
  {
    hide Decide, Decides, PlainRule;
    PlainDecides(a.socket, x.net, d);
    PlainDecides(a.connect, x.net, d);
    PlainDecides(a.bind, x.net, d);
    DecideAppend(PlainRule(a.socket, x.net), PlainRule(a.connect, x.net), d);
    DecideAppend(PlainRule(a.socket, x.net) + PlainRule(a.connect, x.net), PlainRule(a.bind, x.net), d);
  }

  lemma ProcessDecides(a: Abi, x: Actions, d: Data)
    requires |d.args| == 6
    ensures Decides(ProcessRules(a, x), d.nr) <==> Some(d.nr) in {a.fork, a.vfork, a.execve, a.execveat}
    ensures Decides(ProcessRules(a, x), d.nr) ==> Decide(ProcessRules(a, x), d) == x.process
  {
    hide Decide, Decides, PlainRule;
    var r1, r2, r3, r4 := PlainRule(a.fork, x.process), PlainRule(a.vfork, x.process), PlainRule(a.execve, x.process), PlainRule(a.execveat, x.process);
    PlainDecides(a.fork, x.process, d);
    PlainDecides(a.vfork, x.process, d);
    PlainDecides(a.execve, x.process, d);
    PlainDecides(a.execveat, x.process, d);
    DecideAppend(r1, r2, d);
    DecideAppend(r1 + r2, r3, d);
    DecideAppend(r1 + r2 + r3, r4, d);
  }

  lemma CloneDecides(a: Abi, x: Actions, d: Data)
    requires |d.args| == 6
    ensures Decides(CloneRules(a, x), d.nr) <==> Some(d.nr) in {a.clone3, a.clone}
    ensures Some(d.nr) == a.clone3 ==> Decide(CloneRules(a, x), d) == x.clone3
    ensures Some(d.nr) == a.clone != a.clone3 ==>
      Decide(CloneRules(a, x), d) == if And(d.args[0] % 0x1_0000_0000, CLONE_THREAD) != 0 then ALLOW else x.process
  {
    hide Decide, Decides, PlainRule, FlaggedRule;
    PlainDecides(a.clone3, x.clone3, d);
    FlaggedDecides(a.clone, 0, CLONE_THREAD, ALLOW, x.process, d);
    DecideAppend(PlainRule(a.clone3, x.clone3), FlaggedRule(a.clone, 0, CLONE_THREAD, ALLOW, x.process), d);
  }

  lemma OpenDecides(a: Abi, x: Actions, d: Data)
    requires |d.args| == 6
    ensures Decides(OpenRules(a, x), d.nr) <==> !x.writes && Some(d.nr) in {a.openat, a.open}
    ensures !x.writes && Some(d.nr) == a.openat ==>
      Decide(OpenRules(a, x), d) == if And(d.args[2] % 0x1_0000_0000, WRITE_BITS) != 0 then KILL else ALLOW
    ensures !x.writes && Some(d.nr) == a.open != a.openat ==>
      Decide(OpenRules(a, x), d) == if And(d.args[1] % 0x1_0000_0000, WRITE_BITS) != 0 then KILL else ALLOW
    ensures !Decides(OpenRules(a, x), d.nr) ==> Decide(OpenRules(a, x), d) == ALLOW
  {
    hide PlainRule, FlaggedRule;
    var r1, r2 := FlaggedRule(a.openat, 2, WRITE_BITS, KILL, ALLOW), FlaggedRule(a.open, 1, WRITE_BITS, KILL, ALLOW);
    FlaggedDecides(a.openat, 2, WRITE_BITS, KILL, ALLOW, d);
    FlaggedDecides(a.open, 1, WRITE_BITS, KILL, ALLOW, d);
    DecideAppend(r1, r2, d);
    if !Decides(OpenRules(a, x), d.nr) {
      NoRule(OpenRules(a, x), d);
    }
  }

  lemma {:induction false} NoRule(rs: seq<Rule>, d: Data)
    requires |d.args| == 6 && GoodRules(rs) && !Decides(rs, d.nr)
    ensures Decide(rs, d) == ALLOW
    decreases |rs|
  {
    if rs != [] {
      assert rs[0].nr != d.nr;
      forall i | 0 <= i < |rs| - 1 ensures rs[1..][i].nr != d.nr {
        assert rs[1..][i] == rs[i + 1];
      }
      NoRule(rs[1..], d);
    }
  }

  /** The rules mean the policy, when no two calls share a number. */
  lemma RulesDecide(a: Abi, x: Actions, d: Data)
    requires |d.args| == 6 && DistinctCalls(a) && d.arch == a.arch
    ensures Decide(Rules(a, x), d) == Policy(a, x, d)
  {
    hide Decide, Decides, NetRules, ProcessRules, CloneRules, OpenRules, DistinctCalls;
    var n, p, c, o := NetRules(a, x), ProcessRules(a, x), CloneRules(a, x), OpenRules(a, x);
    NetDecides(a, x, d);
    ProcessDecides(a, x, d);
    CloneDecides(a, x, d);
    OpenDecides(a, x, d);
    DecideAppend(n, p, d);
    DecideAppend(n + p, c, d);
    DecideAppend(n + p + c, o, d);
    PairsDistinct(a, d.nr);
  }

  lemma PairsDistinct(a: Abi, nr: Word32)
    requires DistinctCalls(a)
    ensures Some(nr) == a.clone ==> a.clone3 != a.clone
    ensures Some(nr) == a.open ==> a.openat != a.open
  {
    assert Numbers(a)[7] == a.clone3 && Numbers(a)[8] == a.clone && Numbers(a)[9] == a.openat && Numbers(a)[10] == a.open;
  }

  /** The emitted program gives exactly the verdict of the policy, for every call. */
  lemma FilterMeansPolicy(a: Abi, x: Actions, d: Data)
    requires |d.args| == 6 && DistinctCalls(a)
    ensures Run(Program(a.arch, Rules(a, x)), 0, 0, d) == Some(Policy(a, x, d))
  {
    hide Run, Program, Decide, Rules, DistinctCalls;
    ProgramDecides(a.arch, Rules(a, x), d);
    if d.arch == a.arch {
      RulesDecide(a, x, d);
    }
  }

  // ----- capability masks -----

  const CAP_NET := 1
  const CAP_PROCESS := 2
  const CAP_FSWRITE := 4
  const CAP_SYS := 16
  const CAP_FS := 32

  predicate Has(mask: nat, caps: nat) {
    And(mask, caps) != 0
  }

  /** Network needs its capability; processes one of two; writing one of two. */
  function ActionsOf(mask: nat): (x: Actions) {
    var process := Has(mask, CAP_PROCESS + CAP_SYS);
    Actions(if Has(mask, CAP_NET) then ALLOW else KILL,
            if process then ALLOW else KILL,
            if process then ALLOW else ENOSYS,
            Has(mask, CAP_FSWRITE + CAP_FS))
  }

  /** Every capability of m is one of n. */
  predicate Within(m: nat, n: nat) {
    And(m, n) == m
  }

  lemma {:induction false} MoreCapabilities(m: nat, n: nat, caps: nat)
    requires Within(m, n) && Has(m, caps)
    ensures Has(n, caps)
    decreases m
  {
    AndStep(m, n);
    AndStep(m, caps);
    AndStep(n, caps);
    if And(m / 2, caps / 2) != 0 {
      assert And(m / 2, n / 2) == m / 2;
      MoreCapabilities(m / 2, n / 2, caps / 2);
    }
  }

  /** More capabilities never turn an allowed call into a refused one. */
  lemma Monotone(a: Abi, m: nat, n: nat, d: Data)
    requires |d.args| == 6 && Within(m, n)
    ensures Policy(a, ActionsOf(m), d) == ALLOW ==> Policy(a, ActionsOf(n), d) == ALLOW
  {
    hide And;
    if Has(m, CAP_NET) {
      MoreCapabilities(m, n, CAP_NET);
    }
    if Has(m, CAP_PROCESS + CAP_SYS) {
      MoreCapabilities(m, n, CAP_PROCESS + CAP_SYS);
    }
    if Has(m, CAP_FSWRITE + CAP_FS) {
      MoreCapabilities(m, n, CAP_FSWRITE + CAP_FS);
    }
  }

  /** So it is with the programs that are emitted for the two masks. */
  lemma ProgramsMonotone(a: Abi, m: nat, n: nat, d: Data)
    requires |d.args| == 6 && Within(m, n) && DistinctCalls(a)
    ensures Run(Program(a.arch, Rules(a, ActionsOf(m))), 0, 0, d) == Some(ALLOW) ==>
      Run(Program(a.arch, Rules(a, ActionsOf(n))), 0, 0, d) == Some(ALLOW)
  {
    hide Run, Program, Rules, Policy, DistinctCalls, Within, ActionsOf;
    FilterMeansPolicy(a, ActionsOf(m), d);
    FilterMeansPolicy(a, ActionsOf(n), d);
    Monotone(a, m, n, d);
  }

  // ----- what a mask opens, bit by bit -----

  /** The capabilities by their bits: 1 network, 2 process, 4 and 32 writing, 16 system. */
  predicate MayProcess(mask: nat) {
    Bit(mask, 2) || Bit(mask, 16)
  }

  predicate MayWrite(mask: nat) {
    Bit(mask, 4) || Bit(mask, 32)
  }

  /** Flags that open for writing: 1 and 2 for the access mode, 0x40 create, 0x200 truncate, 0x400 append. */
  predicate Writes(flags: nat) {
    Bit(flags, 1) || Bit(flags, 2) || Bit(flags, 0x40) || Bit(flags, 0x200) || Bit(flags, 0x400)
  }

  /** The verdict of program f on call d is the one that the bits of the mask ask for: 0x7fff0000 allows, 0x80000000 kills,
      and 0x50026 answers that there is no such call. */
  ghost predicate Enforces(f: seq<Insn>, a: Abi, mask: nat, d: Data)
    requires |d.args| == 6
  {
    var nr, v := Some(d.nr), Run(f, 0, 0, d);
    var flags := (i: int) requires 0 <= i < 6 => d.args[i] % 0x1_0000_0000;
    if d.arch != a.arch then v == Some(0x80000000)
    else if nr in {a.socket, a.connect, a.bind} then v == Some(if Bit(mask, 1) then 0x7fff0000 else 0x80000000)
    else if nr in {a.fork, a.vfork, a.execve, a.execveat} then v == Some(if MayProcess(mask) then 0x7fff0000 else 0x80000000)
    else if nr == a.clone3 then v == Some(if MayProcess(mask) then 0x7fff0000 else 0x50026)
    else if nr == a.clone then v == Some(if MayProcess(mask) || Bit(flags(0), 0x10000) then 0x7fff0000 else 0x80000000)
    else if nr == a.openat then v == Some(if !MayWrite(mask) && Writes(flags(2)) then 0x80000000 else 0x7fff0000)
    else if nr == a.open then v == Some(if !MayWrite(mask) && Writes(flags(1)) then 0x80000000 else 0x7fff0000)
    else v == Some(0x7fff0000)
  }

  lemma MaskMeans(mask: nat)
    ensures ActionsOf(mask) == Actions(if Bit(mask, 1) then ALLOW else KILL, if MayProcess(mask) then ALLOW else KILL,
                                       if MayProcess(mask) then ALLOW else ENOSYS, MayWrite(mask))
  {
    hide And, Bit, IsPowerOfTwo;
    Powers();
    OneIsPower();
    AndBit(mask, 1);
    TwoBits(mask, 2, 16);
    TwoBits(mask, 4, 32);
  }

  lemma FlagsMean(flags: nat)
    ensures And(flags, WRITE_BITS) != 0 <==> Writes(flags)
    ensures And(flags, CLONE_THREAD) != 0 <==> Bit(flags, 0x10000)
  {
    hide And, Bit, IsPowerOfTwo;
    Powers();
    OneIsPower();
    Twice(0x100);
    FiveBits(flags, 1, 2, 0x40, 0x200, 0x400, WRITE_BITS);
    AndBit(flags, 0x10000);
  }

  /** The program of a mask enforces exactly that mask, on every call. */
  lemma ProgramEnforces(a: Abi, mask: nat, d: Data)
    requires |d.args| == 6 && DistinctCalls(a)
    ensures Enforces(Program(a.arch, Rules(a, ActionsOf(mask))), a, mask, d)
  {
    hide And, Bit, Run, Program, Rules, DistinctCalls, ActionsOf, MayProcess, MayWrite, Writes;
    FilterMeansPolicy(a, ActionsOf(mask), d);
    MaskMeans(mask);
    FlagsMean(d.args[0] % 0x1_0000_0000);
    FlagsMean(d.args[1] % 0x1_0000_0000);
    FlagsMean(d.args[2] % 0x1_0000_0000);
  }

  // ----- the program builders -----

  const BUFFER := 64

  /** f[n++] = an instruction. */
  method Emit(f: array<Insn>, n: nat, i: Insn) returns (m: nat)
    requires n < f.Length
    modifies f
    ensures m == n + 1 && f[..m] == old(f[..n]) + [i]
  {
    f[n] := i;
    m := n + 1;
  }

  /** #ifdef of one call: its number, and the verdict. */
  method EmitPlain(f: array<Insn>, n: nat, nr: Option<Word32>, act: Word32) returns (m: nat)
    requires n + 2 <= f.Length
    modifies f
    ensures n <= m <= n + 2 && f[..m] == old(f[..n]) + CodeOf(PlainRule(nr, act))
  {
    m := n;
    if nr.Some? {
      m := Emit(f, m, JumpEqual(nr.value, 0, 1));
      m := Emit(f, m, Return(act));
    }
  }

  method EmitFlagged(f: array<Insn>, n: nat, nr: Option<Word32>, arg: nat, bits: Word32, ifSet: Word32, ifClear: Word32) returns (m: nat)
    requires n + 5 <= f.Length && arg < 6
    modifies f
    ensures n <= m <= n + 5 && f[..m] == old(f[..n]) + CodeOf(FlaggedRule(nr, arg, bits, ifSet, ifClear))
  {
    m := n;
    if nr.Some? {
      m := Emit(f, m, JumpEqual(nr.value, 0, 4));
      m := Emit(f, m, Load(Arg(arg)));
      m := Emit(f, m, JumpSet(bits, 0, 1));
      m := Emit(f, m, Return(ifSet));
      m := Emit(f, m, Return(ifClear));
    }
  }

  /** The code of rules without the final instruction. */
  function CodeOf(rs: seq<Rule>): (c: seq<Insn>) {
    if rs == [] then [] else Code(rs[0]) + CodeOf(rs[1..])
  }

  lemma {:induction false} CodeOfAppend(r: seq<Rule>, s: seq<Rule>)
    ensures CodeOf(r + s) == CodeOf(r) + CodeOf(s)
    decreases |r|
  {
    if r == [] {
      assert r + s == s;
    } else {
      assert (r + s)[1..] == r[1..] + s;
      CodeOfAppend(r[1..], s);
    }
  }

  lemma {:induction false} CodeAllIs(rs: seq<Rule>)
    ensures CodeAll(rs) == CodeOf(rs) + [Return(ALLOW)]
    decreases |rs|
  {
    if rs != [] {
      CodeAllIs(rs[1..]);
    }
  }

  /** The check of the architecture. */
  method EmitHeader(f: array<Insn>, arch: Word32) returns (n: nat)
    requires f.Length >= 4
    modifies f
    ensures n == 4 && f[..n] == Header(arch)
  {
    n := Emit(f, 0, Load(ARCH));
    n := Emit(f, n, JumpEqual(arch, 1, 0));
    n := Emit(f, n, Return(KILL));
    n := Emit(f, n, Load(NR));
  }

  /** The rules that both filters have. */
  method EmitCommon(f: array<Insn>, n: nat, a: Abi, x: Actions) returns (m: nat)
    requires n + 21 <= f.Length
    modifies f
    ensures n <= m <= n + 21
    ensures f[..m] == old(f[..n]) + (CodeOf(NetRules(a, x)) + CodeOf(ProcessRules(a, x)) + CodeOf(CloneRules(a, x)))
  {
    hide CodeOf, NetRules, ProcessRules, CloneRules;
    m := EmitNet(f, n, a, x);
    m := EmitProcess(f, m, a, x);
    m := EmitClone(f, m, a, x);
  }

  /** The program in a buffer of 64 instructions: at most 36 of them are used. */
  method CapfInstall(a: Abi, x: Actions) returns (prog: seq<Insn>)
    ensures prog == Program(a.arch, Rules(a, x)) && |prog| <= 36
  {
    hide CodeOf, CodeAll, NetRules, ProcessRules, CloneRules, OpenRules, Header;
    var f := new Insn[BUFFER](_ => Return(KILL));
    var n := EmitHeader(f, a.arch);
    n := EmitCommon(f, n, a, x);
    if !x.writes {
      n := EmitOpen(f, n, a, x);
    }
    OpenCode(a, x);
    n := Emit(f, n, Return(ALLOW));
    prog := f[..n];
    AllCode(a, x);
  }

  method EmitNet(f: array<Insn>, n: nat, a: Abi, x: Actions) returns (m: nat)
    requires n + 6 <= f.Length
    modifies f
    ensures n <= m <= n + 6 && f[..m] == old(f[..n]) + CodeOf(NetRules(a, x))
  {
    hide CodeOf, PlainRule;
    m := EmitPlain(f, n, a.socket, x.net);
    m := EmitPlain(f, m, a.connect, x.net);
    m := EmitPlain(f, m, a.bind, x.net);
    CodeOfAppend(PlainRule(a.socket, x.net), PlainRule(a.connect, x.net));
    CodeOfAppend(Joined(PlainRule(a.socket, x.net), PlainRule(a.connect, x.net)), PlainRule(a.bind, x.net));
  }

  method EmitProcess(f: array<Insn>, n: nat, a: Abi, x: Actions) returns (m: nat)
    requires n + 8 <= f.Length
    modifies f
    ensures n <= m <= n + 8 && f[..m] == old(f[..n]) + CodeOf(ProcessRules(a, x))
  {
    hide CodeOf, PlainRule;
    m := EmitPlain(f, n, a.fork, x.process);
    m := EmitPlain(f, m, a.vfork, x.process);
    m := EmitPlain(f, m, a.execve, x.process);
    m := EmitPlain(f, m, a.execveat, x.process);
    var r := Joined(PlainRule(a.fork, x.process), PlainRule(a.vfork, x.process));
    CodeOfAppend(PlainRule(a.fork, x.process), PlainRule(a.vfork, x.process));
    CodeOfAppend(r, PlainRule(a.execve, x.process));
    CodeOfAppend(Joined(r, PlainRule(a.execve, x.process)), PlainRule(a.execveat, x.process));
  }

  method EmitClone(f: array<Insn>, n: nat, a: Abi, x: Actions) returns (m: nat)
    requires n + 7 <= f.Length
    modifies f
    ensures n <= m <= n + 7 && f[..m] == old(f[..n]) + CodeOf(CloneRules(a, x))
  {
    hide CodeOf, PlainRule, FlaggedRule;
    m := EmitPlain(f, n, a.clone3, x.clone3);
    m := EmitFlagged(f, m, a.clone, 0, CLONE_THREAD, ALLOW, x.process);
    CodeOfAppend(PlainRule(a.clone3, x.clone3), FlaggedRule(a.clone, 0, CLONE_THREAD, ALLOW, x.process));
  }

  method EmitOpen(f: array<Insn>, n: nat, a: Abi, x: Actions) returns (m: nat)
    requires n + 10 <= f.Length && !x.writes
    modifies f
    ensures n <= m <= n + 10 && f[..m] == old(f[..n]) + CodeOf(OpenRules(a, x))
  {
    hide CodeOf, FlaggedRule;
    m := EmitFlagged(f, n, a.openat, 2, WRITE_BITS, KILL, ALLOW);
    m := EmitFlagged(f, m, a.open, 1, WRITE_BITS, KILL, ALLOW);
    CodeOfAppend(FlaggedRule(a.openat, 2, WRITE_BITS, KILL, ALLOW), FlaggedRule(a.open, 1, WRITE_BITS, KILL, ALLOW));
  }

  lemma OpenCode(a: Abi, x: Actions)
    ensures x.writes ==> CodeOf(OpenRules(a, x)) == []
  {
  }

  lemma AllCode(a: Abi, x: Actions)
    ensures CodeAll(Rules(a, x))
      == CodeOf(NetRules(a, x)) + CodeOf(ProcessRules(a, x)) + CodeOf(CloneRules(a, x)) + CodeOf(OpenRules(a, x)) + [Return(ALLOW)]
  {
    hide NetRules, ProcessRules, CloneRules, OpenRules, CodeOf;
    var r := Joined(NetRules(a, x), ProcessRules(a, x));
    CodeOfAppend(NetRules(a, x), ProcessRules(a, x));
    CodeOfAppend(r, CloneRules(a, x));
    CodeOfAppend(Joined(r, CloneRules(a, x)), OpenRules(a, x));
    CodeAllIs(Rules(a, x));
  }

  /** The static filter of the older path, which never looks at files: instruction by instruction the same program. */
  method SandInstall(a: Abi, net: Word32, process: Word32, clone3: Word32) returns (prog: seq<Insn>)
    ensures prog == Program(a.arch, Rules(a, Actions(net, process, clone3, true)))
  {
    hide CodeOf, CodeAll, NetRules, ProcessRules, CloneRules, OpenRules, Header;
    var x := Actions(net, process, clone3, true);
    var f := new Insn[BUFFER](_ => Return(KILL));
    var n := EmitHeader(f, a.arch);
    n := EmitCommon(f, n, a, x);
    n := Emit(f, n, Return(ALLOW));
    OpenCode(a, x);
    AllCode(a, x);
    prog := f[..n];
  }

  // ----- applying a mask -----

  /** The filter state of the process. kernel is the kernel's answer to the installation: 0, -1 for no support, -2 for another error. */
  class CapFilter {
    var mask: nat
    var on: bool
    var avail: int

    /** At the start of the process, and when the capabilities are dropped: the next request installs a filter again. */
    method Drop()
      modifies this
      ensures mask == 0 && !on && avail == old(avail)
    {
      mask, on := 0, false;
    }

    /** Until a drop only the first successful request installs a filter; later ones succeed and change nothing. */
    method Apply(a: Abi, allowed: Word32, kernel: int) returns (rc: int, installed: Option<seq<Insn>>)
      requires kernel in {0, -1, -2}
      modifies this
      ensures old(on) ==> rc == 0 && installed.None? && on && mask == old(mask) && avail == old(avail)
      ensures !old(on) ==>
        && rc == kernel && mask == allowed && (on <==> kernel == 0)
        && avail == (if kernel == 0 then 1 else if kernel == -1 then 0 else old(avail))
        && installed == if kernel == 0 then Some(Program(a.arch, Rules(a, ActionsOf(allowed)))) else None
      ensures installed.Some? && DistinctCalls(a) ==> forall d: Data :: |d.args| == 6 ==> Enforces(installed.value, a, allowed, d)
    {
      hide Enforces, Program, Rules, ActionsOf, DistinctCalls;
      if on {
        return 0, None;
      }
      mask := allowed;
      var prog := CapfInstall(a, ActionsOf(allowed));
      rc, installed := kernel, None;
      if rc == 0 {
        on, avail, installed := true, 1, Some(prog);
        forall d: Data | |d.args| == 6 && DistinctCalls(a) ensures Enforces(prog, a, allowed, d) {
          ProgramEnforces(a, allowed, d);
        }
      } else if rc == -1 {
        avail := 0;
      }
    }
  }
}
