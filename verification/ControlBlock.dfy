/** The strong/weak control block as a protocol: any number of threads, one atomic access to the block for each step. */
module ControlBlock {
  import opened Sums

  /** Counters are 32-bit words; fetch_add and fetch_sub wrap. */
  const UINT32_MAX := 0xffff_ffff

  function Wrap32(x: int): (w: nat)
    ensures w <= UINT32_MAX
    ensures 0 <= x <= UINT32_MAX ==> w == x
  {
    x % 0x1_0000_0000
  }

  /** Where a thread is inside an operation: the access it makes next, and the counter value it has read. */
  datatype Pc =
    | Idle
    | RetainLoad | RetainFlags(sc: nat) | RetainCas(sc: nat)
    | UpgradeLoad | UpgradeFlags(sc: nat) | UpgradeCas(sc: nat)
    | ReleaseFlags | ReleaseSub | RunDestructor | DropImplicit
    | CreateAdd | CreateLoad | CreateUndo
    | WeakRetainAdd
    | WeakReleaseSub | WeakReleaseLoad
    | Poison | Free

  /** A thread with the handles it owns. A release gives its handle up when it starts. */
  datatype Thread = Thread(strong: nat, weak: nat, pc: Pc)

  /** The block, how often it was destroyed and freed, and the threads. */
  datatype State = State(strong: nat, weak: nat, poisoned: bool, destroyed: nat, freed: nat, threads: seq<Thread>)

  datatype Action =
    | Retain | Upgrade | Release | WeakCreate | WeakRetain | WeakRelease
    | Access(casSucceeds: bool)
    | Give(to: nat, isStrong: bool)

  /** The block as created, its one strong handle with thread 0. */
  function Created(n: nat): (s: State)
    requires n > 0
  {
    State(1, 1, false, 0, 0, seq(n, i => Thread(if i == 0 then 1 else 0, 0, Idle)))
  }

  predicate Enabled(s: State, i: nat, a: Action) {
    && i < |s.threads|
    && var t := s.threads[i];
       match a
       case Retain => t.pc.Idle? && t.strong >= 1
       case Upgrade => t.pc.Idle? && t.weak >= 1
       case Release => t.pc.Idle? && t.strong >= 1
       case WeakCreate => t.pc.Idle? && t.strong + t.weak >= 1
       case WeakRetain => t.pc.Idle? && t.weak >= 1
       case WeakRelease => t.pc.Idle? && t.weak >= 1
       case Access(_) => !t.pc.Idle?
       case Give(j, isStrong) => t.pc.Idle? && j < |s.threads| && j != i && (if isStrong then t.strong >= 1 else t.weak >= 1)
  }

  /** What thread i does next. A compare-and-swap may fail for no reason. */
  function Next(s: State, i: nat, a: Action): (s': State)
    requires Enabled(s, i, a)
  {
    var t := s.threads[i];
    match a
    case Retain => At(s, i, t.(pc := RetainLoad))
    case Upgrade => At(s, i, t.(pc := UpgradeLoad))
    case Release => At(s, i, t.(strong := t.strong - 1, pc := ReleaseFlags))
    case WeakCreate => At(s, i, t.(pc := CreateAdd))
    case WeakRetain => At(s, i, t.(pc := WeakRetainAdd))
    case WeakRelease => At(s, i, t.(weak := t.weak - 1, pc := WeakReleaseSub))
    case Access(ok) => Accessed(s, i, ok)
    case Give(j, isStrong) =>
      var u := s.threads[j];
      if isStrong then At(At(s, i, t.(strong := t.strong - 1)), j, u.(strong := u.strong + 1))
      else At(At(s, i, t.(weak := t.weak - 1)), j, u.(weak := u.weak + 1))
  }

  function At(s: State, i: nat, t: Thread): State
    requires i < |s.threads|
  {
    s.(threads := s.threads[i := t])
  }

  /** A retain that finds the counter at its limit returns as if it had counted. */
  function Accessed(s: State, i: nat, ok: bool): (s': State)
    requires i < |s.threads| && !s.threads[i].pc.Idle?
  {
    var t := s.threads[i];
    match t.pc
    case RetainLoad => At(s, i, t.(pc := RetainFlags(s.strong)))
    case RetainFlags(sc) =>
      if sc == 0 || sc == UINT32_MAX || s.poisoned then At(s, i, t.(strong := t.strong + 1, pc := Idle))
      else At(s, i, t.(pc := RetainCas(sc)))
    case RetainCas(sc) =>
      if ok && s.strong == sc then At(s, i, t.(strong := t.strong + 1, pc := Idle)).(strong := Wrap32(sc + 1))
      else At(s, i, t.(pc := RetainLoad))
    case UpgradeLoad => At(s, i, t.(pc := UpgradeFlags(s.strong)))
    case UpgradeFlags(sc) =>
      if sc == 0 || sc == UINT32_MAX || s.poisoned then At(s, i, t.(pc := Idle))
      else At(s, i, t.(pc := UpgradeCas(sc)))
    case UpgradeCas(sc) =>
      if ok && s.strong == sc then At(s, i, t.(strong := t.strong + 1, pc := Idle)).(strong := Wrap32(sc + 1))
      else At(s, i, t.(pc := UpgradeLoad))
    case ReleaseFlags => At(s, i, t.(pc := if s.poisoned then Idle else ReleaseSub))
    case ReleaseSub => At(s, i, t.(pc := if s.strong == 1 then RunDestructor else Idle)).(strong := Wrap32(s.strong - 1))
    case RunDestructor => At(s, i, t.(pc := DropImplicit)).(destroyed := s.destroyed + 1)
    case DropImplicit => At(s, i, t.(pc := if s.weak == 1 then Poison else Idle)).(weak := Wrap32(s.weak - 1))
    case CreateAdd => At(s, i, t.(pc := CreateLoad)).(weak := Wrap32(s.weak + 1))
    case CreateLoad =>
      if s.strong == 0 then At(s, i, t.(pc := CreateUndo))
      else At(s, i, t.(weak := t.weak + 1, pc := Idle))
    case CreateUndo => At(s, i, t.(pc := if s.weak == 1 then Poison else Idle)).(weak := Wrap32(s.weak - 1))
    case WeakRetainAdd => At(s, i, t.(weak := t.weak + 1, pc := Idle)).(weak := Wrap32(s.weak + 1))
    case WeakReleaseSub => At(s, i, t.(pc := if s.weak == 1 then WeakReleaseLoad else Idle)).(weak := Wrap32(s.weak - 1))
    case WeakReleaseLoad => At(s, i, t.(pc := if s.strong == 0 then Poison else Idle))
    case Poison => At(s, i, t.(pc := Free)).(poisoned := true)
    case Free => At(s, i, t.(pc := Idle)).(freed := s.freed + 1)
  }

  // ----- counting references -----

  /** Strong references: owned handles, and the one a release is about to drop. */
  function StrongOf(t: Thread): nat {
    t.strong + if t.pc.ReleaseFlags? || t.pc.ReleaseSub? then 1 else 0
  }

  /** Weak references: owned handles, one a release is about to drop, one a create has already counted. */
  function WeakOf(t: Thread): nat {
    t.weak + if t.pc.WeakReleaseSub? || t.pc.CreateLoad? || t.pc.CreateUndo? then 1 else 0
  }

  function Destroying(t: Thread): nat {
    if t.pc.RunDestructor? || t.pc.DropImplicit? then 1 else 0
  }

  function BeforeDestructor(t: Thread): nat {
    if t.pc.RunDestructor? then 1 else 0
  }

  function Freeing(t: Thread): nat {
    if t.pc.Poison? || t.pc.Free? || t.pc.WeakReleaseLoad? then 1 else 0
  }

  ghost function StrongRefs(s: State): nat { Total(s.threads, StrongOf) }
  ghost function WeakRefs(s: State): nat { Total(s.threads, WeakOf) }
  ghost function Destroyers(s: State): nat { Total(s.threads, Destroying) }
  ghost function Doomed(s: State): nat { Total(s.threads, BeforeDestructor) }
  ghost function Freers(s: State): nat { Total(s.threads, Freeing) }

  // ----- the invariant -----

  /** A thread keeps the handle its operation works through, and compares against a count it may increment. */
  predicate Sound(t: Thread) {
    && ((t.pc.RetainLoad? || t.pc.RetainFlags? || t.pc.RetainCas?) ==> t.strong >= 1)
    && ((t.pc.UpgradeLoad? || t.pc.UpgradeFlags? || t.pc.UpgradeCas? || t.pc.WeakRetainAdd?) ==> t.weak >= 1)
    && ((t.pc.CreateAdd? || t.pc.CreateLoad? || t.pc.CreateUndo?) ==> t.strong + t.weak >= 1)
    && (t.pc.RetainFlags? ==> 0 < t.pc.sc <= UINT32_MAX)
    && (t.pc.UpgradeFlags? ==> t.pc.sc <= UINT32_MAX)
    && ((t.pc.RetainCas? || t.pc.UpgradeCas?) ==> 0 < t.pc.sc < UINT32_MAX)
  }

  ghost predicate Invariant(s: State) {
    && s.strong <= UINT32_MAX && s.weak <= UINT32_MAX
    && s.strong == StrongRefs(s)
    && s.weak == WeakRefs(s) + Destroyers(s) + (if s.strong > 0 then 1 else 0)
    && Destroyers(s) + (if s.strong > 0 then 1 else 0) <= 1
    && s.destroyed + Doomed(s) + (if s.strong > 0 then 1 else 0) == 1
    && s.freed + Freers(s) + (if s.weak > 0 then 1 else 0) == 1
    && (s.poisoned ==> s.weak == 0)
    && forall i :: 0 <= i < |s.threads| ==> Sound(s.threads[i])
  }

  /** The accesses that lose a reference: a retain returning because it has read the limit, and the two unchecked
      additions to a weak count that is at its limit. */
  predicate LosesCount(s: State, i: nat)
    requires i < |s.threads|
  {
    var pc := s.threads[i].pc;
    pc == RetainFlags(UINT32_MAX) || ((pc.WeakRetainAdd? || pc.CreateAdd?) && s.weak == UINT32_MAX)
  }

  lemma CreatedInvariant(n: nat)
    requires n > 0
    ensures Invariant(Created(n))
  {
    var ts := Created(n).threads;
    TotalZero(ts[1..], StrongOf);
    TotalZero(ts, WeakOf);
    TotalZero(ts, Destroying);
    TotalZero(ts, BeforeDestructor);
    TotalZero(ts, Freeing);
  }

  /** What replacing one thread does to every total. */
  lemma Replaced(s: State, i: nat, t: Thread)
    requires i < |s.threads|
    ensures var u := At(s, i, t); var o := s.threads[i];
            && StrongRefs(u) == StrongRefs(s) - StrongOf(o) + StrongOf(t)
            && WeakRefs(u) == WeakRefs(s) - WeakOf(o) + WeakOf(t)
            && Destroyers(u) == Destroyers(s) - Destroying(o) + Destroying(t)
            && Doomed(u) == Doomed(s) - BeforeDestructor(o) + BeforeDestructor(t)
            && Freers(u) == Freers(s) - Freeing(o) + Freeing(t)
            && StrongRefs(s) >= StrongOf(o) && WeakRefs(s) >= WeakOf(o) && Destroyers(s) >= Destroying(o)
            && Doomed(s) >= BeforeDestructor(o) && Freers(s) >= Freeing(o)
  {
    TotalUpdate(s.threads, StrongOf, i, t);
    TotalUpdate(s.threads, WeakOf, i, t);
    TotalUpdate(s.threads, Destroying, i, t);
    TotalUpdate(s.threads, BeforeDestructor, i, t);
    TotalUpdate(s.threads, Freeing, i, t);
  }

  lemma DoomedAreDestroyers(ts: seq<Thread>)
    ensures Total(ts, BeforeDestructor) <= Total(ts, Destroying)
  {
    TotalAtMost(ts, BeforeDestructor, Destroying);
  }

  lemma RetainingKeepsInvariant(s: State, i: nat, ok: bool)
    requires Invariant(s) && i < |s.threads|
    requires var pc := s.threads[i].pc; pc.RetainLoad? || pc.RetainFlags? || pc.RetainCas?
    ensures Invariant(Accessed(s, i, ok)) <==> !LosesCount(s, i)
  {
    hide StrongRefs, WeakRefs, Destroyers, Doomed, Freers;
    var s' := Accessed(s, i, ok);
    var t := s'.threads[i];
    Replaced(s, i, t);
    DoomedAreDestroyers(s.threads);
    SameTotals(s', At(s, i, t));
  }

  lemma UpgradingKeepsInvariant(s: State, i: nat, ok: bool)
    requires Invariant(s) && i < |s.threads|
    requires var pc := s.threads[i].pc; pc.UpgradeLoad? || pc.UpgradeFlags? || pc.UpgradeCas?
    ensures Invariant(Accessed(s, i, ok))
  {
    hide StrongRefs, WeakRefs, Destroyers, Doomed, Freers;
    var s' := Accessed(s, i, ok);
    var t := s'.threads[i];
    Replaced(s, i, t);
    DoomedAreDestroyers(s.threads);
    SameTotals(s', At(s, i, t));
  }

  lemma ReleasingKeepsInvariant(s: State, i: nat, ok: bool)
    requires Invariant(s) && i < |s.threads|
    requires var pc := s.threads[i].pc; pc.ReleaseFlags? || pc.ReleaseSub? || pc.RunDestructor? || pc.DropImplicit?
    ensures Invariant(Accessed(s, i, ok))
  {
    hide StrongRefs, WeakRefs, Destroyers, Doomed, Freers;
    var s' := Accessed(s, i, ok);
    var t := s'.threads[i];
    Replaced(s, i, t);
    DoomedAreDestroyers(s.threads);
    SameTotals(s', At(s, i, t));
  }

  lemma CreatingKeepsInvariant(s: State, i: nat, ok: bool)
    requires Invariant(s) && i < |s.threads|
    requires var pc := s.threads[i].pc; pc.CreateAdd? || pc.CreateLoad? || pc.CreateUndo? || pc.WeakRetainAdd?
    ensures Invariant(Accessed(s, i, ok)) <==> !LosesCount(s, i)
  {
    hide StrongRefs, WeakRefs, Destroyers, Doomed, Freers;
    var s' := Accessed(s, i, ok);
    var t := s'.threads[i];
    Replaced(s, i, t);
    DoomedAreDestroyers(s.threads);
    SameTotals(s', At(s, i, t));
  }

  lemma FreeingKeepsInvariant(s: State, i: nat, ok: bool)
    requires Invariant(s) && i < |s.threads|
    requires var pc := s.threads[i].pc; pc.WeakReleaseSub? || pc.WeakReleaseLoad? || pc.Poison? || pc.Free?
    ensures Invariant(Accessed(s, i, ok))
  {
    hide StrongRefs, WeakRefs, Destroyers, Doomed, Freers;
    var s' := Accessed(s, i, ok);
    var t := s'.threads[i];
    Replaced(s, i, t);
    DoomedAreDestroyers(s.threads);
    SameTotals(s', At(s, i, t));
  }

  /** An access keeps the invariant exactly when it does not lose a count. */
  lemma AccessKeepsInvariant(s: State, i: nat, ok: bool)
    requires Invariant(s) && i < |s.threads| && !s.threads[i].pc.Idle?
    ensures Invariant(Accessed(s, i, ok)) <==> !LosesCount(s, i)
  {
    hide Invariant, Accessed;
    match s.threads[i].pc
    case RetainLoad | RetainFlags(_) | RetainCas(_) => RetainingKeepsInvariant(s, i, ok);
    case UpgradeLoad | UpgradeFlags(_) | UpgradeCas(_) => UpgradingKeepsInvariant(s, i, ok);
    case ReleaseFlags | ReleaseSub | RunDestructor | DropImplicit => ReleasingKeepsInvariant(s, i, ok);
    case CreateAdd | CreateLoad | CreateUndo | WeakRetainAdd => CreatingKeepsInvariant(s, i, ok);
    case _ => FreeingKeepsInvariant(s, i, ok);
  }

  lemma SameTotals(s: State, u: State)
    requires s.threads == u.threads
    ensures StrongRefs(s) == StrongRefs(u) && WeakRefs(s) == WeakRefs(u) && Destroyers(s) == Destroyers(u)
    ensures Doomed(s) == Doomed(u) && Freers(s) == Freers(u)
  {
  }

  lemma StartKeepsInvariant(s: State, i: nat, a: Action)
    requires Invariant(s) && Enabled(s, i, a) && !a.Access? && !a.Give?
    ensures Invariant(Next(s, i, a))
  {
    hide StrongRefs, WeakRefs, Destroyers, Doomed, Freers;
    Replaced(s, i, Next(s, i, a).threads[i]);
  }

  lemma GiveKeepsInvariant(s: State, i: nat, a: Action)
    requires Invariant(s) && Enabled(s, i, a) && a.Give?
    ensures Invariant(Next(s, i, a))
  {
    hide StrongRefs, WeakRefs, Destroyers, Doomed, Freers;
    var s', j := Next(s, i, a), a.to;
    Replaced(s, i, s'.threads[i]);
    Replaced(At(s, i, s'.threads[i]), j, s'.threads[j]);
  }

  predicate LosesCountIn(s: State, m: Move) {
    m.thread < |s.threads| && m.action.Access? && LosesCount(s, m.thread)
  }

  lemma StepKeepsInvariant(s: State, m: Move)
    requires Invariant(s) && Enabled(s, m.thread, m.action)
    ensures Invariant(Next(s, m.thread, m.action)) <==> !LosesCountIn(s, m)
  {
    hide Invariant;
    if m.action.Access? {
      AccessKeepsInvariant(s, m.thread, m.action.casSucceeds);
    } else if m.action.Give? {
      GiveKeepsInvariant(s, m.thread, m.action);
    } else {
      StartKeepsInvariant(s, m.thread, m.action);
    }
  }

  // ----- runs -----

  datatype Move = Move(thread: nat, action: Action)

  ghost predicate Moves(s: State, m: Move, s': State) {
    Enabled(s, m.thread, m.action) && s' == Next(s, m.thread, m.action)
  }

  /** Any interleaving from a block as created. */
  ghost predicate Run(ss: seq<State>, ms: seq<Move>) {
    && |ss| == |ms| + 1 && (exists n: nat :: n > 0 && ss[0] == Created(n))
    && forall k :: 0 <= k < |ms| ==> Moves(ss[k], ms[k], ss[k + 1])
  }

  ghost predicate KeepsCount(ss: seq<State>, ms: seq<Move>, m: nat)
    requires m <= |ms| <= |ss|
  {
    forall k :: 0 <= k < m ==> !LosesCountIn(ss[k], ms[k])
  }

  /** The invariant holds in all states of a run exactly when no move of the run loses a count. */
  lemma {:induction false} RunInvariant(ss: seq<State>, ms: seq<Move>, m: nat)
    requires Run(ss, ms) && m < |ss|
    ensures (forall k :: 0 <= k <= m ==> Invariant(ss[k])) <==> KeepsCount(ss, ms, m)
  {
    hide Invariant, Enabled, Next, Created, LosesCountIn;
    if m == 0 {
      var n: nat :| n > 0 && ss[0] == Created(n);
      CreatedInvariant(n);
    } else {
      RunInvariant(ss, ms, m - 1);
      if Invariant(ss[m - 1]) {
        assert Moves(ss[m - 1], ms[m - 1], ss[m - 1 + 1]);
        StepKeepsInvariant(ss[m - 1], ms[m - 1]);
      }
    }
  }

  predicate BelowLimit(s: State) {
    s.strong < UINT32_MAX && s.weak < UINT32_MAX
  }

  /** While both counters stay below the limit nothing loses a count. */
  lemma {:induction false} BelowLimitKeepsCount(ss: seq<State>, ms: seq<Move>, m: nat)
    requires Run(ss, ms) && m < |ss| && forall k :: 0 <= k < m ==> BelowLimit(ss[k])
    ensures KeepsCount(ss, ms, m)
    ensures forall i :: 0 <= i < |ss[m].threads| ==> ss[m].threads[i].pc != RetainFlags(UINT32_MAX)
  {
    if m > 0 {
      BelowLimitKeepsCount(ss, ms, m - 1);
      assert Moves(ss[m - 1], ms[m - 1], ss[m - 1 + 1]);
    }
  }

  // ----- what the invariant means -----

  /** The thread owns a handle or is inside an operation. */
  predicate Busy(t: Thread) {
    !t.pc.Idle? || t.strong > 0 || t.weak > 0
  }

  predicate Quiescent(s: State) {
    forall i :: 0 <= i < |s.threads| ==> !Busy(s.threads[i])
  }

  /** Nothing touches the block after it is freed: whoever can still reach it keeps it. */
  lemma NoUseAfterFree(s: State, i: nat)
    requires Invariant(s) && i < |s.threads| && Busy(s.threads[i])
    ensures s.freed == 0
  {
    Replaced(s, i, s.threads[i]);
  }

  /** The block is freed exactly when no handle is left and no operation is under way. */
  lemma FreedExactlyWhenUnreachable(s: State)
    requires Invariant(s)
    ensures s.freed == 1 <==> Quiescent(s)
  {
    if s.freed == 1 {
      forall i | 0 <= i < |s.threads| ensures !Busy(s.threads[i]) {
        if Busy(s.threads[i]) {
          NoUseAfterFree(s, i);
        }
      }
    }
    if Quiescent(s) {
      TotalZero(s.threads, StrongOf);
      TotalZero(s.threads, WeakOf);
      TotalZero(s.threads, Destroying);
      TotalZero(s.threads, BeforeDestructor);
      TotalZero(s.threads, Freeing);
    }
  }

  /** The destructor has not run while a strong handle exists, and has run, once, before the block is freed. */
  lemma DestructorRuns(s: State)
    requires Invariant(s)
    ensures s.destroyed <= 1 && s.freed <= 1
    ensures (exists i :: 0 <= i < |s.threads| && s.threads[i].strong > 0) ==> s.destroyed == 0
    ensures s.freed == 1 ==> s.destroyed == 1
  {
    if i :| 0 <= i < |s.threads| && s.threads[i].strong > 0 {
      Replaced(s, i, s.threads[i]);
    }
    DoomedAreDestroyers(s.threads);
  }

  lemma ZeroStays(s: State, i: nat, a: Action)
    requires Invariant(s) && Enabled(s, i, a) && s.strong == 0
    ensures Next(s, i, a).strong == 0
  {
    Replaced(s, i, s.threads[i]);
  }

  /** Once the strong count has been zero no upgrade succeeds: there are no strong references ever after. */
  lemma {:induction false} NoUpgradeAfterZero(ss: seq<State>, ms: seq<Move>, k: nat, m: nat)
    requires Run(ss, ms) && k <= m < |ss| && KeepsCount(ss, ms, m) && ss[k].strong == 0
    ensures ss[m].strong == 0 && StrongRefs(ss[m]) == 0
    decreases m
  {
    hide Enabled, Next, Created, LosesCountIn, StrongRefs, WeakRefs, Destroyers, Doomed, Freers;
    RunInvariant(ss, ms, m);
    if k < m {
      NoUpgradeAfterZero(ss, ms, k, m - 1);
      assert Moves(ss[m - 1], ms[m - 1], ss[m - 1 + 1]);
      ZeroStays(ss[m - 1], ms[m - 1].thread, ms[m - 1].action);
    }
  }

  /** Whenever all handles have been released and all operations are over, the block is destroyed and freed, each exactly once. */
  lemma ExactlyOnce(ss: seq<State>, ms: seq<Move>, m: nat)
    requires Run(ss, ms) && m < |ss| && KeepsCount(ss, ms, m) && Quiescent(ss[m])
    ensures ss[m].destroyed == 1 && ss[m].freed == 1
  {
    hide Invariant, Run, KeepsCount, Quiescent;
    RunInvariant(ss, ms, m);
    FreedExactlyWhenUnreachable(ss[m]);
    DestructorRuns(ss[m]);
  }

  // ----- the limit of the counters -----

  /** Weak create and weak retain do not look for the limit: there the weak count wraps to 0 although the block is held. */
  lemma WeakAddAtLimit(s: State, i: nat, ok: bool)
    requires Invariant(s) && i < |s.threads|
    requires (s.threads[i].pc.WeakRetainAdd? || s.threads[i].pc.CreateAdd?) && s.weak == UINT32_MAX
    ensures Accessed(s, i, ok).weak == 0 && s.freed == 0 && !Invariant(Accessed(s, i, ok))
  {
    hide Invariant;
    AccessKeepsInvariant(s, i, ok);
    NoUseAfterFree(s, i);
  }

  /** A retain at the limit returns without counting, so its caller holds one reference too many. */
  lemma RetainAtLimit(s: State, i: nat)
    requires Invariant(s) && i < |s.threads| && s.threads[i].pc.RetainLoad? && s.strong == UINT32_MAX
    ensures var s' := Accessed(Accessed(s, i, true), i, true);
            s'.threads[i].pc.Idle? && s'.strong == UINT32_MAX && StrongRefs(s') == UINT32_MAX + 1
  {
    hide StrongRefs, WeakRefs, Destroyers, Doomed, Freers;
    var u := Accessed(s, i, true);
    Replaced(s, i, u.threads[i]);
    Replaced(u, i, Accessed(u, i, true).threads[i]);
  }

  /** An upgrade at the limit is refused and keeps the invariant. */
  lemma UpgradeAtLimit(s: State, i: nat)
    requires Invariant(s) && i < |s.threads| && s.threads[i].pc.UpgradeLoad? && s.strong == UINT32_MAX
    ensures var s' := Accessed(Accessed(s, i, true), i, true);
            s'.threads[i] == s.threads[i].(pc := Idle) && s'.strong == s.strong && Invariant(s')
  {
    hide Invariant;
    AccessKeepsInvariant(s, i, true);
    AccessKeepsInvariant(Accessed(s, i, true), i, true);
  }

  // ----- the limit is reached -----

  /** One thread with all the references there are. */
  function Held(strong: nat, weak: nat, pc: Pc): State {
    State(strong, weak + 1, false, 0, 0, [Thread(strong, weak, pc)])
  }

  /** A run that has kept count so far ends in s. */
  ghost predicate Reaches(ss: seq<State>, ms: seq<Move>, s: State) {
    Run(ss, ms) && KeepsCount(ss, ms, |ms|) && ss[|ms|] == s
  }

  lemma Extended(ss: seq<State>, ms: seq<Move>, s: State, m: Move) returns (ss': seq<State>, ms': seq<Move>)
    requires Reaches(ss, ms, s) && Enabled(s, m.thread, m.action) && !LosesCountIn(s, m)
    ensures Reaches(ss', ms', Next(s, m.thread, m.action)) && ms' == ms + [m]
  {
    hide Enabled, Next, Created, LosesCountIn;
    ss', ms' := ss + [Next(s, m.thread, m.action)], ms + [m];
    assert ss'[0] == ss[0];
    forall k | 0 <= k < |ms'| ensures Moves(ss'[k], ms'[k], ss'[k + 1]) {
      if k < |ms| {
        assert Moves(ss[k], ms[k], ss[k + 1]);
      }
    }
  }

  /** One thread can retain until it holds any number of strong references up to the limit. */
  lemma {:induction false} RetainedOften(n: nat) returns (ss: seq<State>, ms: seq<Move>)
    requires 1 <= n <= UINT32_MAX
    ensures Reaches(ss, ms, Held(n, 0, Idle))
    decreases n
  {
    if n == 1 {
      ss, ms := [Created(1)], [];
      assert Created(1) == Held(1, 0, Idle);
    } else {
      ss, ms := RetainedOften(n - 1);
      ss, ms := Extended(ss, ms, Held(n - 1, 0, Idle), Move(0, Retain));
      ss, ms := Extended(ss, ms, Held(n - 1, 0, RetainLoad), Move(0, Access(true)));
      ss, ms := Extended(ss, ms, Held(n - 1, 0, RetainFlags(n - 1)), Move(0, Access(true)));
      ss, ms := Extended(ss, ms, Held(n - 1, 0, RetainCas(n - 1)), Move(0, Access(true)));
    }
  }

  /** And weak references likewise. */
  lemma {:induction false} CreatedOften(n: nat) returns (ss: seq<State>, ms: seq<Move>)
    requires n < UINT32_MAX
    ensures Reaches(ss, ms, Held(1, n, Idle))
    decreases n
  {
    if n == 0 {
      ss, ms := RetainedOften(1);
    } else {
      ss, ms := CreatedOften(n - 1);
      ss, ms := Extended(ss, ms, Held(1, n - 1, Idle), Move(0, WeakCreate));
      ss, ms := Extended(ss, ms, Held(1, n - 1, CreateAdd), Move(0, Access(true)));
      ss, ms := Extended(ss, ms, State(1, n + 1, false, 0, 0, [Thread(1, n - 1, CreateLoad)]), Move(0, Access(true)));
    }
  }

  /** All three losing accesses happen in runs of a single thread, which satisfy the invariant up to there. */
  lemma LimitIsReached(a: Action) returns (ss: seq<State>, ms: seq<Move>, pc: Pc)
    requires a.Retain? || a.WeakCreate? || a.WeakRetain?
    ensures pc == if a.Retain? then RetainFlags(UINT32_MAX) else if a.WeakCreate? then CreateAdd else WeakRetainAdd
    ensures Run(ss, ms) && |ss[|ms|].threads| == 1 && ss[|ms|].threads[0].pc == pc
    ensures (forall k :: 0 <= k <= |ms| ==> Invariant(ss[k])) && !Invariant(Accessed(ss[|ms|], 0, true))
  {
    hide Created, Moves, KeepsCount, Invariant;
    if a.Retain? {
      pc := RetainFlags(UINT32_MAX);
      ss, ms := RetainedOften(UINT32_MAX);
      ss, ms := Extended(ss, ms, Held(UINT32_MAX, 0, Idle), Move(0, Retain));
      ss, ms := Extended(ss, ms, Held(UINT32_MAX, 0, RetainLoad), Move(0, Access(true)));
    } else {
      pc := if a.WeakCreate? then CreateAdd else WeakRetainAdd;
      ss, ms := CreatedOften(UINT32_MAX - 1);
      ss, ms := Extended(ss, ms, Held(1, UINT32_MAX - 1, Idle), Move(0, a));
    }
    RunInvariant(ss, ms, |ms|);
    AccessKeepsInvariant(ss[|ms|], 0, true);
  }
}
