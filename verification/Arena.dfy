/** Arena payload blocks: a linked stack with headers in the arena itself, lazy frees in any order, and checkpoints. */
module Arena {

  // ----- blocks as a value -----

  /** A block from offset cur: 64 bytes of header, then the payload up to end. */
  datatype Block = Block(cur: nat, end: nat, dead: bool)

  function Round64(n: nat): (r: nat)
    ensures n <= r < n + 64 && r % 64 == 0
    ensures n % 64 == 0 ==> r == n
  {
    (n + 63) / 64 * 64
  }

  /** Where the next block goes when the stack is bs. */
  function OffsetAfter(bs: seq<Block>): (off: nat)
    ensures off % 64 == 0
  {
    if bs == [] then 0 else Round64(bs[|bs| - 1].end)
  }

  /** Every block starts where the one below ends, rounded up, and fits the arena. */
  predicate Stacked(bs: seq<Block>, cap: nat) {
    forall i :: 0 <= i < |bs| ==> bs[i].cur == OffsetAfter(bs[..i]) && bs[i].cur + 64 <= bs[i].end <= cap
  }

  predicate TopLive(bs: seq<Block>) {
    bs != [] ==> !bs[|bs| - 1].dead
  }

  /** Drop dead blocks from the top. */
  function Trimmed(bs: seq<Block>): (t: seq<Block>)
    ensures TopLive(t) && t <= bs
    ensures forall i :: |t| <= i < |bs| ==> bs[i].dead
  {
    if bs == [] || !bs[|bs| - 1].dead then bs else Trimmed(bs[..|bs| - 1])
  }

  lemma StackedPrefix(bs: seq<Block>, cap: nat, k: nat)
    requires Stacked(bs, cap) && k <= |bs|
    ensures Stacked(bs[..k], cap)
  {
    forall i | 0 <= i < k ensures bs[..k][..i] == bs[..i] {
    }
  }

  lemma StackedPush(bs: seq<Block>, cap: nat, b: Block)
    requires Stacked(bs, cap) && b.cur == OffsetAfter(bs) && b.cur + 64 <= b.end <= cap
    ensures Stacked(bs + [b], cap)
  {
    forall i | 0 <= i < |bs| + 1 ensures (bs + [b])[..i] == bs[..i] {
    }
  }

  /** Payloads are aligned, inside the arena and pairwise disjoint, those of dead blocks included. */
  lemma {:induction false} PayloadsDisjoint(bs: seq<Block>, cap: nat, i: nat, j: nat)
    requires Stacked(bs, cap) && i < j < |bs|
    ensures bs[i].cur % 64 == 0 && bs[j].cur % 64 == 0 && bs[i].end <= bs[j].cur && bs[j].end <= cap
    decreases j
  {
    assert bs[..j][j - 1] == bs[j - 1];
    if i < j - 1 {
      PayloadsDisjoint(bs, cap, i, j - 1);
    }
  }

  /** With a capacity that is a multiple of 64 the next offset never passes it. */
  lemma OffsetWithinCapacity(bs: seq<Block>, cap: nat)
    requires Stacked(bs, cap) && cap % 64 == 0
    ensures OffsetAfter(bs) <= cap
  {
  }

  // ----- frees in any order -----

  function Killed(bs: seq<Block>, cur: int): (cs: seq<Block>)
    ensures |cs| == |bs|
  {
    seq(|bs|, (i: nat) requires i < |bs| => if bs[i].cur == cur then bs[i].(dead := true) else bs[i])
  }

  /** Free the block at offset cur. */
  function Freed(bs: seq<Block>, cur: int): (cs: seq<Block>)
    ensures TopLive(cs)
  {
    Trimmed(Killed(bs, cur))
  }

  function FreedAll(bs: seq<Block>, order: seq<nat>): (cs: seq<Block>)
    ensures TopLive(bs) ==> TopLive(cs)
    decreases |order|
  {
    if order == [] then bs else FreedAll(Freed(bs, order[0]), order[1..])
  }

  /** Freeing everything, in whatever order, empties the stack and takes the offset back to 0. */
  lemma {:induction false} FreedEverything(bs: seq<Block>, order: seq<nat>)
    requires TopLive(bs) && forall i :: 0 <= i < |bs| ==> bs[i].dead || bs[i].cur in order
    ensures FreedAll(bs, order) == [] && OffsetAfter(FreedAll(bs, order)) == 0
    decreases |order|
  {
    if order != [] {
      var cs := Freed(bs, order[0]);
      forall i | 0 <= i < |cs| ensures cs[i].dead || cs[i].cur in order[1..] {
        assert cs[i] == Killed(bs, order[0])[i];
        assert order == [order[0]] + order[1..];
      }
      FreedEverything(cs, order[1..]);
    }
  }

  lemma FreedAbsent(bs: seq<Block>, cur: int)
    requires TopLive(bs) && forall i :: 0 <= i < |bs| ==> bs[i].cur != cur
    ensures Freed(bs, cur) == bs
  {
    assert Killed(bs, cur) == bs;
  }

  /** Dying moves nothing. */
  lemma KilledOffset(bs: seq<Block>, cur: int, i: nat)
    requires i <= |bs|
    ensures OffsetAfter(Killed(bs, cur)[..i]) == OffsetAfter(bs[..i])
  {
    if i > 0 {
      assert Killed(bs, cur)[..i][i - 1].end == bs[..i][i - 1].end;
    }
  }

  lemma StackedKilled(bs: seq<Block>, cap: nat, cur: int)
    requires Stacked(bs, cap)
    ensures Stacked(Killed(bs, cur), cap)
  {
    hide OffsetAfter;
    forall i | 0 <= i < |bs| ensures OffsetAfter(Killed(bs, cur)[..i]) == OffsetAfter(bs[..i]) {
      KilledOffset(bs, cur, i);
    }
  }

  lemma StackedFreed(bs: seq<Block>, cap: nat, cur: nat)
    requires Stacked(bs, cap)
    ensures Stacked(Killed(bs, cur), cap) && Stacked(Freed(bs, cur), cap)
  {
    hide Stacked, Killed, Trimmed;
    StackedKilled(bs, cap, cur);
    var cs := Killed(bs, cur);
    var k := |Trimmed(cs)|;
    StackedPrefix(cs, cap, k);
    assert Freed(bs, cur) == cs[..k];
  }

  // ----- runs with checkpoints -----

  /** The depth of the checkpoint stack. */
  const CK_MAX := 8

  datatype Op = Alloc(size: nat) | Free(cur: nat) | Checkpoint | Rollback

  /** The blocks now and at every open checkpoint. */
  datatype Run = Run(bs: seq<Block>, saved: seq<seq<Block>>)

  /** Between a checkpoint and its rollback only blocks made after the checkpoint are freed. */
  predicate Disciplined(r: Run, op: Op) {
    op.Free? && r.saved != [] ==> op.cur >= OffsetAfter(r.saved[|r.saved| - 1])
  }

  /** Offset and top go back; the headers stay as they are. */
  function Step(cap: nat, r: Run, op: Op): (s: Run) {
    match op
    case Alloc(n) =>
      var cur := OffsetAfter(r.bs);
      if cur + 64 + n > cap then r else r.(bs := r.bs + [Block(cur, cur + 64 + n, false)])
    case Free(cur) => r.(bs := Freed(r.bs, cur))
    case Checkpoint => if |r.saved| == CK_MAX then r else r.(saved := r.saved + [r.bs])
    case Rollback =>
      if r.saved == [] then r
      else
        var n := |r.saved| - 1;
        if OffsetAfter(r.saved[n]) > cap || |r.saved[n]| > |r.bs| then r.(saved := r.saved[..n])
        else Run(r.bs[..|r.saved[n]|], r.saved[..n])
  }

  /** Every checkpoint is an initial part of the next one, and the last one of the present stack. */
  ghost predicate Nested(cap: nat, r: Run) {
    && Stacked(r.bs, cap) && TopLive(r.bs)
    && (forall i :: 0 <= i < |r.saved| ==> TopLive(r.saved[i]))
    && (forall i, j :: 0 <= i < j < |r.saved| ==> r.saved[i] <= r.saved[j])
    && forall i :: 0 <= i < |r.saved| ==> r.saved[i] <= r.bs
  }

  /** Blocks below an offset do not start there. */
  lemma OlderStartsBelow(bs: seq<Block>, cap: nat, k: nat, i: nat)
    requires Stacked(bs, cap) && i < k <= |bs|
    ensures bs[i].cur < OffsetAfter(bs[..k])
  {
    if i < k - 1 {
      PayloadsDisjoint(bs, cap, i, k - 1);
    }
    assert bs[..k][k - 1] == bs[k - 1];
  }

  lemma TrimmedKeeps(cs: seq<Block>, older: seq<Block>)
    requires older <= cs && TopLive(older)
    ensures older <= Trimmed(cs)
  {
    assert older != [] ==> !cs[|older| - 1].dead;
  }

  /** Freeing a younger block leaves an older part of the stack alone. */
  lemma FreeKeepsOlder(bs: seq<Block>, cap: nat, older: seq<Block>, cur: int)
    requires Stacked(bs, cap) && older <= bs && TopLive(older) && cur >= OffsetAfter(older)
    ensures older <= Freed(bs, cur)
  {
    hide Stacked, OffsetAfter, Trimmed;
    assert bs[..|older|] == older;
    forall i | 0 <= i < |older| ensures Killed(bs, cur)[i] == bs[i] {
      OlderStartsBelow(bs, cap, |older|, i);
    }
    TrimmedKeeps(Killed(bs, cur), older);
  }

  lemma AllocKeepsNested(cap: nat, r: Run, n: nat)
    requires Nested(cap, r)
    ensures Nested(cap, Step(cap, r, Alloc(n)))
  {
    hide OffsetAfter;
    var cur := OffsetAfter(r.bs);
    if cur + 64 + n <= cap {
      StackedPush(r.bs, cap, Block(cur, cur + 64 + n, false));
    }
  }

  lemma FreeKeepsNested(cap: nat, r: Run, cur: nat)
    requires Nested(cap, r) && Disciplined(r, Free(cur))
    ensures Nested(cap, Step(cap, r, Free(cur)))
  {
    hide OffsetAfter, Freed;
    StackedFreed(r.bs, cap, cur);
    if r.saved != [] {
      var n := |r.saved| - 1;
      FreeKeepsOlder(r.bs, cap, r.saved[n], cur);
      forall i | 0 <= i < |r.saved| ensures r.saved[i] <= Freed(r.bs, cur) {
        if i < n {
          assert r.saved[i] <= r.saved[n];
        }
      }
    }
  }

  lemma RollbackKeepsNested(cap: nat, r: Run)
    requires Nested(cap, r)
    ensures Nested(cap, Step(cap, r, Rollback))
  {
    hide OffsetAfter;
    if r.saved != [] {
      var n := |r.saved| - 1;
      assert r.bs[..|r.saved[n]|] == r.saved[n];
      StackedPrefix(r.bs, cap, |r.saved[n]|);
    }
  }

  lemma StepKeepsNested(cap: nat, r: Run, op: Op)
    requires Nested(cap, r) && Disciplined(r, op)
    ensures Nested(cap, Step(cap, r, op))
  {
    hide Disciplined;
    match op
    case Alloc(n) => AllocKeepsNested(cap, r, n);
    case Free(cur) => FreeKeepsNested(cap, r, cur);
    case Checkpoint =>
    case Rollback => RollbackKeepsNested(cap, r);
  }

  function RunAll(cap: nat, r: Run, ops: seq<Op>): (s: Run)
    decreases |ops|
  {
    if ops == [] then r else RunAll(cap, Step(cap, r, ops[0]), ops[1..])
  }

  /** Disciplined operations that never roll back below d open checkpoints. */
  predicate StaysAbove(cap: nat, r: Run, ops: seq<Op>, d: nat)
    decreases |ops|
  {
    |r.saved| >= d && (ops != [] ==> Disciplined(r, ops[0]) && StaysAbove(cap, Step(cap, r, ops[0]), ops[1..], d))
  }

  /** Inside a checkpoint nothing older is touched. */
  lemma {:induction false} OlderUntouched(cap: nat, r: Run, ops: seq<Op>, d: nat)
    requires Nested(cap, r) && StaysAbove(cap, r, ops, d)
    ensures var s := RunAll(cap, r, ops);
            Nested(cap, s) && |s.saved| >= d && s.saved[..d] == r.saved[..d] && forall i :: 0 <= i < d ==> r.saved[i] <= s.bs
    decreases |ops|
  {
    if ops == [] {
    } else {
      var q := Step(cap, r, ops[0]);
      StepKeepsNested(cap, r, ops[0]);
      assert |q.saved| >= d by { Deep(cap, q, ops[1..], d); }
      assert q.saved[..d] == r.saved[..d];
      OlderUntouched(cap, q, ops[1..], d);
      assert forall i :: 0 <= i < d ==> q.saved[..d][i] == r.saved[i];
    }
  }

  lemma Deep(cap: nat, r: Run, ops: seq<Op>, d: nat)
    requires StaysAbove(cap, r, ops, d)
    ensures |r.saved| >= d
  {
  }

  /** A block fits the arena, so what lies below it ends within the capacity. */
  lemma BelowIsWithin(bs: seq<Block>, cap: nat, older: seq<Block>)
    requires Stacked(bs, cap) && older < bs
    ensures OffsetAfter(older) <= cap
  {
    assert bs[..|older|] == older;
  }

  /** A checkpoint, any disciplined operations inside it, nested checkpoints included, and the rollback: everything is
      back. A checkpoint beyond the capacity is refused by the rollback, but then there was nothing to take back. */
  lemma RollbackRestores(cap: nat, r: Run, ops: seq<Op>)
    requires Nested(cap, r) && |r.saved| < CK_MAX
    requires var c := Step(cap, r, Checkpoint);
             StaysAbove(cap, c, ops, |r.saved| + 1) && |RunAll(cap, c, ops).saved| == |r.saved| + 1
    ensures Step(cap, RunAll(cap, Step(cap, r, Checkpoint), ops), Rollback) == r
  {
    hide Stacked, OffsetAfter, StaysAbove;
    var c := Step(cap, r, Checkpoint);
    var d := |r.saved| + 1;
    StepKeepsNested(cap, r, Checkpoint);
    OlderUntouched(cap, c, ops, d);
    var t := RunAll(cap, c, ops);
    assert t.saved == t.saved[..d] == c.saved;
    assert t.saved[d - 1] == r.bs && r.bs <= t.bs;
    if r.bs < t.bs {
      BelowIsWithin(t.bs, cap, r.bs);
    }
    assert t.bs[..|r.bs|] == r.bs && t.saved[..d - 1] == r.saved;
  }
}
