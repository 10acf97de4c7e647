/** What an operation on the control block gives its thread: the handles before and after it, in every interleaving. */
module Outcomes {
  import opened ControlBlock

  // ----- the account of a thread -----

  /** Handles of one kind that moves a, ..., b - 1 pass on to thread i. */
  function Gifts(ms: seq<Move>, i: nat, isStrong: bool, a: nat, b: nat): (n: nat)
    requires b <= |ms|
    decreases b
  {
    if b <= a then 0
    else Gifts(ms, i, isStrong, a, b - 1) + Gift(ms[b - 1], i, isStrong)
  }

  /** The next access of thread i is a read that refuses: an upgrade sees the strong count at 0 or at its limit, or the
      flag of a freed block; a weak create sees the strong count at 0. */
  predicate Refuses(s: State, i: nat) {
    && i < |s.threads|
    && match s.threads[i].pc
       case UpgradeLoad => s.strong == 0 || s.strong == UINT32_MAX
       case UpgradeFlags(_) => s.poisoned
       case CreateLoad => s.strong == 0
       case _ => false
  }

  /** A refusing read of thread i among moves a, ..., b - 1. */
  ghost predicate Refused(ss: seq<State>, ms: seq<Move>, i: nat, a: nat, b: nat)
    requires b <= |ms| <= |ss|
  {
    exists j :: a <= j < b && RefusesNow(ss[j], ms[j], i)
  }

  predicate Starts(a: Action) {
    !a.Access? && !a.Give?
  }

  /** Moves a, ..., b - 1 of a run hold one whole operation of thread i, between moves of other threads. */
  ghost predicate Operation(ss: seq<State>, ms: seq<Move>, i: nat, a: nat, b: nat) {
    && Run(ss, ms) && a < b <= |ms| && ms[a].thread == i && Starts(ms[a].action)
    && (forall k :: a <= k <= b ==> i < |ss[k].threads|)
    && (forall k :: a < k < b ==> !ss[k].threads[i].pc.Idle?) && ss[b].threads[i].pc.Idle?
  }

  /** What the operation gains or gives up. */
  function StrongGain(a: Action, refused: bool): int {
    if a.Retain? then 1 else if a.Upgrade? then (if refused then 0 else 1) else if a.Release? then -1 else 0
  }

  function WeakGain(a: Action, refused: bool): int {
    if a.WeakRetain? then 1 else if a.WeakCreate? then (if refused then 0 else 1) else if a.WeakRelease? then -1 else 0
  }

  // ----- inside an operation -----

  /** Thread u is inside operation a, which it started as thread t. */
  predicate Inside(a: Action, t: Thread, u: Thread, strong: nat, weak: nat, refused: bool) {
    && u.strong == t.strong + strong - (if a.Release? then 1 else 0)
    && u.weak == t.weak + weak - (if a.WeakRelease? then 1 else 0)
    && match u.pc
       case Idle => false
       case RetainLoad | RetainFlags(_) | RetainCas(_) => a.Retain?
       case UpgradeLoad | UpgradeCas(_) => a.Upgrade? && !refused
       case UpgradeFlags(sc) => a.Upgrade? && (refused <==> sc == 0 || sc == UINT32_MAX)
       case ReleaseFlags | ReleaseSub | RunDestructor | DropImplicit => a.Release?
       case CreateAdd | CreateLoad => a.WeakCreate? && !refused
       case CreateUndo => a.WeakCreate? && refused
       case WeakRetainAdd => a.WeakRetain?
       case WeakReleaseSub | WeakReleaseLoad => a.WeakRelease?
       case Poison | Free => a.Release? || a.WeakRelease? || (a.WeakCreate? && refused)
  }

  predicate Over(a: Action, t: Thread, u: Thread, strong: nat, weak: nat, refused: bool) {
    u.pc.Idle? && u.strong == t.strong + strong + StrongGain(a, refused) && u.weak == t.weak + weak + WeakGain(a, refused)
  }

  predicate Account(a: Action, t: Thread, u: Thread, strong: nat, weak: nat, refused: bool) {
    if u.pc.Idle? then Over(a, t, u, strong, weak, refused) else Inside(a, t, u, strong, weak, refused)
  }

  lemma OwnAccess(s: State, i: nat, ok: bool, a: Action, t: Thread, strong: nat, weak: nat, refused: bool)
    requires i < |s.threads| && Inside(a, t, s.threads[i], strong, weak, refused)
    ensures Account(a, t, Accessed(s, i, ok).threads[i], strong, weak, refused || Refuses(s, i))
  {
  }

  predicate Raises(pc: Pc) {
    pc.RetainLoad? || pc.RetainFlags? || pc.RetainCas? || pc.UpgradeLoad? || pc.UpgradeFlags? || pc.UpgradeCas?
  }

  lemma OthersStayWhileRaising(s: State, j: nat, ok: bool, i: nat)
    requires j < |s.threads| && Raises(s.threads[j].pc) && i < |s.threads| && i != j
    ensures |Accessed(s, j, ok).threads| == |s.threads| && Accessed(s, j, ok).threads[i] == s.threads[i]
  {
  }

  lemma OthersStayWhileReleasing(s: State, j: nat, ok: bool, i: nat)
    requires j < |s.threads| && i < |s.threads| && i != j
    requires var pc := s.threads[j].pc; pc.ReleaseFlags? || pc.ReleaseSub? || pc.RunDestructor? || pc.DropImplicit?
    ensures |Accessed(s, j, ok).threads| == |s.threads| && Accessed(s, j, ok).threads[i] == s.threads[i]
  {
  }

  lemma OthersStay(s: State, j: nat, ok: bool, i: nat)
    requires j < |s.threads| && !s.threads[j].pc.Idle? && i < |s.threads| && i != j
    ensures |Accessed(s, j, ok).threads| == |s.threads| && Accessed(s, j, ok).threads[i] == s.threads[i]
  {
    var pc := s.threads[j].pc;
    if Raises(pc) {
      OthersStayWhileRaising(s, j, ok, i);
    } else if pc.ReleaseFlags? || pc.ReleaseSub? || pc.RunDestructor? || pc.DropImplicit? {
      OthersStayWhileReleasing(s, j, ok, i);
    }
  }

  lemma OtherMove(s: State, m: Move, i: nat)
    requires Enabled(s, m.thread, m.action) && i < |s.threads| && m.thread != i
    ensures |Next(s, m.thread, m.action).threads| == |s.threads|
    ensures var u, v := s.threads[i], Next(s, m.thread, m.action).threads[i];
            && v.pc == u.pc && v.strong == u.strong + Gift(m, i, true) && v.weak == u.weak + Gift(m, i, false)
  {
    hide Accessed;
    if m.action.Access? {
      OthersStay(s, m.thread, m.action.casSucceeds, i);
    }
  }

  lemma OwnStart(s: State, i: nat, a: Action)
    requires Enabled(s, i, a) && Starts(a)
    ensures Inside(a, s.threads[i], Next(s, i, a).threads[i], 0, 0, false)
  {
  }

  function Gift(m: Move, i: nat, isStrong: bool): nat {
    if m.action == Give(i, isStrong) then 1 else 0
  }

  predicate RefusesNow(s: State, m: Move, i: nat) {
    m.thread == i && m.action.Access? && Refuses(s, i)
  }

  lemma Onward(s: State, m: Move, i: nat, a: Action, t: Thread, strong: nat, weak: nat, refused: bool)
    requires Enabled(s, m.thread, m.action) && i < |s.threads| && Inside(a, t, s.threads[i], strong, weak, refused)
    ensures |Next(s, m.thread, m.action).threads| == |s.threads|
    ensures Account(a, t, Next(s, m.thread, m.action).threads[i],
                    strong + Gift(m, i, true), weak + Gift(m, i, false), refused || RefusesNow(s, m, i))
  {
    if m.thread == i {
      OwnAccess(s, i, m.action.casSucceeds, a, t, strong, weak, refused);
    } else {
      OtherMove(s, m, i);
    }
  }

  lemma {:induction false} SoFar(ss: seq<State>, ms: seq<Move>, i: nat, a: nat, b: nat)
    requires Run(ss, ms) && a < b <= |ms| && ms[a].thread == i && Starts(ms[a].action)
    requires (forall k :: a <= k <= b ==> i < |ss[k].threads|) && forall k :: a < k < b ==> !ss[k].threads[i].pc.Idle?
    ensures Account(ms[a].action, ss[a].threads[i], ss[b].threads[i],
                    Gifts(ms, i, true, a, b), Gifts(ms, i, false, a, b), Refused(ss, ms, i, a, b))
    decreases b
  {
    hide Created, Enabled, Next, Refuses, Inside, Over;
    var c := b - 1;
    assert Moves(ss[c], ms[c], ss[c + 1]);
    assert Refused(ss, ms, i, a, b) <==> Refused(ss, ms, i, a, c) || RefusesNow(ss[c], ms[c], i) by {
      RefusedStep(ss, ms, i, a, c);
    }
    if c == a {
      OwnStart(ss[a], i, ms[a].action);
    } else {
      SoFar(ss, ms, i, a, c);
      Onward(ss[c], ms[c], i, ms[a].action, ss[a].threads[i],
             Gifts(ms, i, true, a, c), Gifts(ms, i, false, a, c), Refused(ss, ms, i, a, c));
    }
  }

  lemma RefusedStep(ss: seq<State>, ms: seq<Move>, i: nat, a: nat, b: nat)
    requires a <= b < |ms| <= |ss|
    ensures Refused(ss, ms, i, a, b + 1) <==> Refused(ss, ms, i, a, b) || RefusesNow(ss[b], ms[b], i)
  {
    hide Refuses;
    if Refused(ss, ms, i, a, b) {
      var j :| a <= j < b && RefusesNow(ss[j], ms[j], i);
    }
  }

  // ----- the outcome -----

  /** After a whole operation the thread has the handles it had, those passed on to it meanwhile, and what the operation
      gains: a retain always one, an upgrade or a weak create one unless a read of its own refused, exactly then. */
  lemma OperationOutcome(ss: seq<State>, ms: seq<Move>, i: nat, a: nat, b: nat)
    requires Operation(ss, ms, i, a, b)
    ensures var t, u, refused := ss[a].threads[i], ss[b].threads[i], Refused(ss, ms, i, a, b);
            && u.strong == t.strong + Gifts(ms, i, true, a, b) + StrongGain(ms[a].action, refused)
            && u.weak == t.weak + Gifts(ms, i, false, a, b) + WeakGain(ms[a].action, refused)
  {
    hide Run, Refused, Inside;
    SoFar(ss, ms, i, a, b);
  }

  // ----- operations that nothing interrupts -----

  /** Up to n accesses of thread i, every compare-and-swap of which succeeds, until the thread is idle. */
  function Uninterrupted(s: State, i: nat, n: nat): (s': State)
    requires i < |s.threads|
    decreases n
  {
    if n == 0 || s.threads[i].pc.Idle? then s else Uninterrupted(Accessed(s, i, true), i, n - 1)
  }

  lemma HeldIsNotFreed(s: State, i: nat)
    requires Invariant(s) && i < |s.threads| && s.strong > 0
    ensures s.weak > 0 && !s.poisoned
  {
  }

  /** An upgrade of a live block below the limit succeeds: one more handle, and the count one higher. */
  lemma UpgradeSucceeds(s: State, i: nat)
    requires Invariant(s) && Enabled(s, i, Upgrade) && 0 < s.strong < UINT32_MAX
    ensures var t := s.threads[i];
            Uninterrupted(Next(s, i, Upgrade), i, 3) == At(s, i, t.(strong := t.strong + 1)).(strong := s.strong + 1)
  {
    HeldIsNotFreed(s, i);
    assert s.threads[i].pc == Idle;
  }

  /** The same on runs: whatever happened before, these four moves can follow and end with the handle. */
  lemma UpgradeOnRun(ss: seq<State>, ms: seq<Move>, s: State, i: nat) returns (ss': seq<State>, ms': seq<Move>)
    requires Reaches(ss, ms, s) && Enabled(s, i, Upgrade) && 0 < s.strong < UINT32_MAX
    ensures var t := s.threads[i];
            && ms' == ms + [Move(i, Upgrade), Move(i, Access(true)), Move(i, Access(true)), Move(i, Access(true))]
            && Reaches(ss', ms', At(s, i, t.(strong := t.strong + 1)).(strong := s.strong + 1))
  {
    hide Reaches, Invariant;
    assert Invariant(s) by { ReachedInvariant(ss, ms, s); }
    HeldIsNotFreed(s, i);
    var t := s.threads[i];
    var s1 := At(s, i, t.(pc := UpgradeLoad));
    var s2 := At(s, i, t.(pc := UpgradeFlags(s.strong)));
    var s3 := At(s, i, t.(pc := UpgradeCas(s.strong)));
    ss', ms' := Extended(ss, ms, s, Move(i, Upgrade));
    assert Accessed(s1, i, true) == s2 && Accessed(s2, i, true) == s3;
    ss', ms' := Extended(ss', ms', s1, Move(i, Access(true)));
    ss', ms' := Extended(ss', ms', s2, Move(i, Access(true)));
    ss', ms' := Extended(ss', ms', s3, Move(i, Access(true)));
    assert Accessed(s3, i, true) == At(s, i, t.(strong := t.strong + 1)).(strong := s.strong + 1);
  }

  lemma ReachedInvariant(ss: seq<State>, ms: seq<Move>, s: State)
    requires Reaches(ss, ms, s)
    ensures Invariant(s)
  {
    hide Created, Moves, KeepsCount, Invariant;
    RunInvariant(ss, ms, |ms|);
  }

  lemma RetainSucceeds(s: State, i: nat)
    requires Invariant(s) && Enabled(s, i, Retain) && s.strong < UINT32_MAX
    ensures var t := s.threads[i];
            Uninterrupted(Next(s, i, Retain), i, 3) == At(s, i, t.(strong := t.strong + 1)).(strong := s.strong + 1)
  {
    hide Invariant;
    OwnsStrong(s, i);
    HeldIsNotFreed(s, i);
  }

  lemma OwnsStrong(s: State, i: nat)
    requires Invariant(s) && i < |s.threads| && s.threads[i].strong > 0
    ensures s.strong > 0
  {
    Replaced(s, i, s.threads[i]);
  }

  /** So does a weak create; with no strong handle left it undoes its count and gains nothing. */
  lemma CreateOutcome(s: State, i: nat)
    requires Invariant(s) && Enabled(s, i, WeakCreate) && s.weak < UINT32_MAX
    ensures var t := s.threads[i];
            Uninterrupted(Next(s, i, WeakCreate), i, 3) ==
              if s.strong > 0 then At(s, i, t.(weak := t.weak + 1)).(weak := s.weak + 1) else s
  {
    hide Invariant;
    OwnsSome(s, i);
    if s.strong > 0 {
      CreateSucceeds(s, i);
    } else {
      CreateUndone(s, i);
    }
  }

  lemma CreateSucceeds(s: State, i: nat)
    requires Enabled(s, i, WeakCreate) && s.weak < UINT32_MAX && s.strong > 0
    ensures var t := s.threads[i];
            Uninterrupted(Next(s, i, WeakCreate), i, 3) == At(s, i, t.(weak := t.weak + 1)).(weak := s.weak + 1)
  {
  }

  lemma CreateUndone(s: State, i: nat)
    requires Enabled(s, i, WeakCreate) && 0 < s.weak < UINT32_MAX && s.strong == 0
    ensures Uninterrupted(Next(s, i, WeakCreate), i, 3) == s
  {
    assert s.threads[i := s.threads[i]] == s.threads;
  }

  lemma OwnsSome(s: State, i: nat)
    requires Invariant(s) && i < |s.threads| && s.threads[i].strong + s.threads[i].weak > 0
    ensures s.weak > 0
  {
    Replaced(s, i, s.threads[i]);
  }
}
