/** The arena slots of the program: headers stored in the arena, the pop loop, and the stack of checkpoints. */
module ArenaSlot {
  import opened Arena
  import opened Words

  /** A block header as it lies in memory; prev is -1 for the bottom block. */
  datatype Header = Header(cur: nat, prev: int, end: nat, dead: bool)

  const MAX_PAYLOAD := 0x4000_0000

  class Slot {
    var live: bool
    var base: nat
    var cap: nat
    var off: nat
    var gen: nat
    var topCur: int
    var headers: map<nat, Header>
    /** The stack that the headers spell out, bottom first. */
    ghost var blocks: seq<Block>

    ghost predicate Valid()
      reads this
    {
      && base % 64 == 0 && Stacked(blocks, cap) && TopLive(blocks)
      && Linked(headers, blocks)
      && off == OffsetAfter(blocks) && topCur == TopOf(blocks)
    }

    constructor ()
      ensures Valid() && !live && gen == 0 && blocks == []
    {
      live, base, cap, off, gen, topCur := false, 0, 0, 0, 0, -1;
      headers, blocks := map[], [];
    }

    /** The slot takes over newly mapped memory, which is zero, under a new generation. */
    method Open(mem: nat, bytes: nat)
      requires mem % 64 == 0
      modifies this
      ensures Valid() && live && base == mem && cap == bytes && gen == old(gen) + 1 && blocks == []
    {
      live, base, cap, off, gen, topCur := true, mem, bytes, 0, gen + 1, -1;
      headers, blocks := map[], [];
    }

    method Close()
      modifies this
      ensures Valid() && !live && gen == old(gen) && blocks == []
    {
      live, base, cap, off, topCur := false, 0, 0, 0, -1;
      headers, blocks := map[], [];
    }

    /** Everything goes at once, and the pages become zero again; the generation stays. */
    method Clear()
      requires Valid()
      modifies this
      ensures Valid() && live == old(live) && base == old(base) && cap == old(cap) && gen == old(gen) && blocks == []
    {
      off, topCur := 0, -1;
      headers, blocks := map[], [];
    }

    /** The address range of the arena. */
    predicate Contains(p: nat)
      reads this
    {
      live && base != 0 && base <= p < base + cap
    }

    /** The payload of some block of the stack. */
    ghost predicate Owns(p: nat)
      reads this
    {
      exists i :: 0 <= i < |blocks| && p == base + blocks[i].cur + 64
    }

    /** A header lies 64 bytes below. */
    predicate HasHeader(p: nat)
      reads this
    {
      p >= base + 64 && p - base - 64 in headers
    }

    /** The block that an allocation makes: from the end of the top block, rounded up. */
    ghost function NextBlock(size: nat): Block
      reads this
    {
      var cur := OffsetAfter(blocks);
      Block(cur, cur + 64 + size, false)
    }

    ghost predicate Fits(size: nat)
      reads this
    {
      live && base != 0 && size <= MAX_PAYLOAD && NextBlock(size).end <= cap
    }

    /** A new block on top, or 0 when it does not fit; the payload is 64-byte aligned. */
    method AllocPayload(size: nat) returns (p: nat)
      requires Valid()
      modifies this
      ensures Valid() && live == old(live) && base == old(base) && cap == old(cap) && gen == old(gen)
      ensures p != 0 <==> old(Fits(size))
      ensures p != 0 ==> p == base + OffsetAfter(old(blocks)) + 64 && p % 64 == 0 && blocks == old(blocks) + [old(NextBlock(size))]
      ensures p == 0 ==> blocks == old(blocks)
    {
      hide Stacked, Linked, Valid;
      if size > MAX_PAYLOAD || !live || base == 0 {
        return 0;
      }
      var cur := Round64(off);
      var end := cur + 64 + size;
      assert cur == OffsetAfter(blocks) by { OffsetIs(); }
      if end > cap {
        return 0;
      }
      Push(cur, end);
      p := base + cur + 64;
      assert p % 64 == 0 by { BaseAligned(); }
    }

    lemma OffsetIs()
      requires Valid()
      ensures Round64(off) == OffsetAfter(blocks)
    {
    }

    lemma BaseAligned()
      requires Valid()
      ensures forall c: nat :: c % 64 == 0 ==> (base + c + 64) % 64 == 0
    {
    }

    /** Write the header and move offset and top. */
    method Push(cur: nat, end: nat)
      requires Valid() && cur == OffsetAfter(blocks) && cur + 64 <= end <= cap
      modifies this`headers, this`blocks, this`off, this`topCur
      ensures Valid() && blocks == old(blocks) + [Block(cur, end, false)]
    {
      hide Stacked, Linked;
      ghost var b := Block(cur, end, false);
      StackedPush(blocks, cap, b);
      LinkedPush(headers, blocks, b, cap);
      headers := headers[cur := Header(cur, topCur, end, false)];
      blocks := blocks + [b];
      off := Round64(end);
      topCur := cur;
    }

    /** Mark the block dead, and pop dead blocks while they are on top. An address without a header is refused; a
        header that is left over from a popped block is marked, which changes nothing. */
    method FreeBlock(p: nat) returns (ok: bool)
      requires Valid()
      modifies this
      ensures Valid() && live == old(live) && base == old(base) && cap == old(cap) && gen == old(gen)
      ensures ok == old(HasHeader(p)) && (old(Owns(p)) ==> ok)
      ensures blocks == if old(Owns(p)) then Freed(old(blocks), p - base - 64) else old(blocks)
    {
      hide Stacked, Linked, Killed, Trimmed;
      OwnerInHeaders(headers, blocks, base, p);
      if !HasHeader(p) {
        return false;
      }
      var cur := p - base - 64;
      AbsentStays(base, p);
      StackedFreed(blocks, cap, cur);
      LinkedKill(headers, blocks, cap, cur);
      headers := headers[cur := headers[cur].(dead := true)];
      blocks := Killed(blocks, cur);
      PopDead();
      return true;
    }

    lemma AbsentStays(base: nat, p: nat)
      requires Valid() && base == this.base && p >= base + 64
      ensures !Owns(p) ==> Freed(blocks, p - base - 64) == blocks
    {
      hide Stacked, Linked;
      if !Owns(p) {
        FreedAbsent(blocks, p - base - 64);
      }
    }

    /** while the top block is dead, pop it. */
    method PopDead()
      requires base % 64 == 0 && Stacked(blocks, cap) && Linked(headers, blocks)
      requires off == OffsetAfter(blocks) && topCur == TopOf(blocks)
      modifies this`off, this`topCur, this`blocks
      ensures Valid() && blocks == Trimmed(old(blocks))
    {
      hide Stacked, Linked;
      while topCur != -1
        invariant Stacked(blocks, cap) && Linked(headers, blocks) && topCur == TopOf(blocks)
        invariant off == OffsetAfter(blocks) && Trimmed(blocks) == Trimmed(old(blocks))
        decreases |blocks|
      {
        TopHeader(headers, blocks, cap);
        var top := headers[topCur];
        if !top.dead {
          break;
        }
        off := top.cur;
        topCur := top.prev;
        StackedPrefix(blocks, cap, |blocks| - 1);
        LinkedPop(headers, blocks);
        blocks := blocks[..|blocks| - 1];
      }
      assert Trimmed(blocks) == blocks;
    }

    /** What a later restore needs to know of the stack. */
    method Snap() returns (ok: bool, o: nat, g: nat, t: int)
      requires Valid()
      ensures ok == live && (ok ==> g == gen && o == OffsetAfter(blocks) && t == TopOf(blocks))
    {
      return live, off, gen, topCur;
    }

    /** Offset and top go back to those of an older stack. If its blocks are still there, they are the stack again. */
    method Restore(o: nat, g: nat, t: int, ghost older: seq<Block>) returns (ok: bool)
      requires Valid() && TopLive(older) && o == OffsetAfter(older) && t == TopOf(older)
      modifies this`off, this`topCur, this`blocks
      ensures ok <==> live && gen == g && o <= cap
      ensures off == (if ok then o else old(off)) && topCur == if ok then t else old(topCur)
      ensures !ok ==> Valid() && blocks == old(blocks)
      ensures ok && older <= old(blocks) ==> Valid() && blocks == older
    {
      hide Stacked, Linked;
      if !live || gen != g || o > cap {
        return false;
      }
      off := o;
      topCur := t;
      if older <= blocks {
        assert blocks[..|older|] == older;
        StackedPrefix(blocks, cap, |older|);
        LinkedPrefix(headers, blocks, |older|);
        blocks := older;
      }
      return true;
    }
  }

  // ----- headers and blocks -----

  function TopOf(bs: seq<Block>): int {
    if bs == [] then -1 else bs[|bs| - 1].cur
  }

  /** Each block's header is in memory and points to the block below. */
  ghost predicate Linked(hs: map<nat, Header>, bs: seq<Block>) {
    forall i :: 0 <= i < |bs| ==> bs[i].cur in hs && hs[bs[i].cur] == Header(bs[i].cur, TopOf(bs[..i]), bs[i].end, bs[i].dead)
  }

  lemma LinkedPush(hs: map<nat, Header>, bs: seq<Block>, b: Block, cap: nat)
    requires Linked(hs, bs) && Stacked(bs, cap) && b.cur == OffsetAfter(bs) && b.cur + 64 <= b.end <= cap
    ensures Linked(hs[b.cur := Header(b.cur, TopOf(bs), b.end, b.dead)], bs + [b])
  {
    StackedPush(bs, cap, b);
    var cs := bs + [b];
    forall i | 0 <= i < |bs| ensures cs[..i] == bs[..i] && bs[i].cur != b.cur {
      PayloadsDisjoint(cs, cap, i, |bs|);
      assert cs[i].cur + 64 <= cs[i].end;
    }
    assert cs[..|bs|] == bs;
  }

  lemma LinkedPop(hs: map<nat, Header>, bs: seq<Block>)
    requires Linked(hs, bs) && bs != []
    ensures Linked(hs, bs[..|bs| - 1])
  {
    LinkedPrefix(hs, bs, |bs| - 1);
  }

  lemma LinkedPrefix(hs: map<nat, Header>, bs: seq<Block>, k: nat)
    requires Linked(hs, bs) && k <= |bs|
    ensures Linked(hs, bs[..k])
  {
    forall i | 0 <= i < k ensures bs[..k][..i] == bs[..i] {
    }
  }

  lemma LinkedKill(hs: map<nat, Header>, bs: seq<Block>, cap: nat, cur: nat)
    requires Linked(hs, bs) && Stacked(bs, cap) && cur in hs
    ensures Linked(hs[cur := hs[cur].(dead := true)], Killed(bs, cur)) && TopOf(Killed(bs, cur)) == TopOf(bs)
    ensures OffsetAfter(Killed(bs, cur)) == OffsetAfter(bs)
  {
    hide TopOf, OffsetAfter;
    var cs, gs := Killed(bs, cur), hs[cur := hs[cur].(dead := true)];
    forall i | 0 <= i < |bs|
      ensures cs[i].cur in gs && gs[cs[i].cur] == Header(cs[i].cur, TopOf(cs[..i]), cs[i].end, cs[i].dead)
    {
      KilledTop(bs, cur, i);
    }
    KilledTop(bs, cur, |bs|);
    KilledOffset(bs, cur, |bs|);
    assert cs[..|bs|] == cs && bs[..|bs|] == bs;
  }

  lemma KilledTop(bs: seq<Block>, cur: int, i: nat)
    requires i <= |bs|
    ensures TopOf(Killed(bs, cur)[..i]) == TopOf(bs[..i])
  {
  }

  lemma TopHeader(hs: map<nat, Header>, bs: seq<Block>, cap: nat)
    requires Linked(hs, bs) && Stacked(bs, cap) && bs != []
    ensures TopOf(bs) >= 0 && TopOf(bs) in hs
    ensures var h := hs[TopOf(bs)]; var below := bs[..|bs| - 1];
            h.dead == bs[|bs| - 1].dead && h.cur == OffsetAfter(below) && h.prev == TopOf(below)
  {
  }

  lemma OwnerInHeaders(hs: map<nat, Header>, bs: seq<Block>, base: nat, p: nat)
    requires Linked(hs, bs)
    ensures (exists i :: 0 <= i < |bs| && p == base + bs[i].cur + 64) ==> p >= base + 64 && p - base - 64 in hs
  {
  }

  // ----- all slots, and the stack of checkpoints -----

  const SLOTS := 32
  const MAX_ARENA := 0x4000_0000

  datatype Ck = Ck(id: nat, off: nat, gen: nat, topCur: int)

  /** The checkpoint was taken when its arena had the stack bs. */
  ghost predicate TakenAt(c: Ck, bs: seq<Block>) {
    c.off == OffsetAfter(bs) && c.topCur == TopOf(bs) && TopLive(bs)
  }

  class Heap {
    const slots: seq<Slot>
    var ck: seq<Ck>
    /** The blocks of the slot at each open checkpoint. */
    ghost var saved: seq<seq<Block>>

    ghost predicate Valid()
      reads this, slots
    {
      && |slots| == SLOTS && (forall i, j :: 0 <= i < j < SLOTS ==> slots[i] != slots[j])
      && (forall i :: 0 <= i < SLOTS ==> slots[i].Valid())
      && |ck| == |saved| <= CK_MAX
      && forall i :: 0 <= i < |ck| ==> ck[i].id < SLOTS && TakenAt(ck[i], saved[i]) && ck[i].gen <= slots[ck[i].id].gen
    }

    /** The slot of checkpoint i still is the arena of which the checkpoint was taken. */
    ghost predicate Current(i: nat)
      requires Valid() && i < |ck|
      reads this, slots
    {
      slots[ck[i].id].live && slots[ck[i].id].gen == ck[i].gen
    }

    /** Nothing older than an open checkpoint has been freed: its blocks are in place, and were at every later
        checkpoint of the same arena. */
    ghost predicate OlderIntact()
      requires Valid()
      reads this, slots
    {
      && (forall i :: 0 <= i < |ck| && Current(i) ==> saved[i] <= slots[ck[i].id].blocks)
      && forall i, j :: 0 <= i < j < |ck| && ck[i].id == ck[j].id && Current(i) && Current(j) ==> saved[i] <= saved[j]
    }

    /** Offset cur of a slot lies beyond every open checkpoint of its arena. */
    ghost predicate Younger(id: nat, cur: int)
      requires Valid()
      reads this, slots
    {
      forall i :: 0 <= i < |ck| && ck[i].id == id && Current(i) ==> cur >= OffsetAfter(saved[i])
    }

    constructor ()
      ensures Valid() && OlderIntact() && ck == [] && forall i :: 0 <= i < SLOTS ==> !slots[i].live
    {
      var ss: seq<Slot> := [];
      while |ss| < SLOTS
        invariant |ss| <= SLOTS && forall i :: 0 <= i < |ss| ==> fresh(ss[i]) && ss[i].Valid() && !ss[i].live
        invariant forall i, j :: 0 <= i < j < |ss| ==> ss[i] != ss[j]
      {
        var s := new Slot();
        ss := ss + [s];
      }
      slots, ck, saved := ss, [], [];
    }

    /** The lowest free slot takes over the mapped memory (mem is 0 if the mapping failed). Checkpoints of the arena that
        the slot held before are of an older generation, so they never touch the new one. */
    method Create(bytes: int, mem: nat) returns (s: int)
      requires Valid() && mem % 64 == 0
      modifies slots
      ensures Valid() && (old(OlderIntact()) ==> OlderIntact())
      ensures s == -1 <==> !(64 <= bytes <= MAX_ARENA) || mem == 0 || forall i :: 0 <= i < SLOTS ==> old(slots[i].live)
      ensures s != -1 ==>
        && 0 <= s < SLOTS && (forall i :: 0 <= i < s ==> old(slots[i].live)) && old(!slots[s].live)
        && slots[s].live && slots[s].base == mem && slots[s].cap == bytes && slots[s].blocks == []
        && forall i :: 0 <= i < |ck| && ck[i].id == s ==> !Current(i)
      ensures forall i :: 0 <= i < SLOTS && i != s ==>
        slots[i].live == old(slots[i].live) && slots[i].blocks == old(slots[i].blocks)
    {
      hide Stacked, Linked, OffsetAfter;
      if bytes < 64 || bytes > MAX_ARENA || mem == 0 {
        return -1;
      }
      s := 0;
      while s < SLOTS && slots[s].live
        invariant 0 <= s <= SLOTS && forall i :: 0 <= i < s ==> slots[i].live
      {
        s := s + 1;
      }
      if s == SLOTS {
        return -1;
      }
      slots[s].Open(mem, bytes);
    }

    method Destroy(id: int) returns (ok: bool)
      requires Valid()
      modifies slots
      ensures Valid() && (old(OlderIntact()) ==> OlderIntact())
      ensures ok <==> 0 <= id < SLOTS && old(slots[id].live)
      ensures forall i :: 0 <= i < SLOTS ==>
        && slots[i].live == (old(slots[i].live) && i != id)
        && slots[i].blocks == if i == id && ok then [] else old(slots[i].blocks)
    {
      hide Stacked, Linked, OffsetAfter;
      if id < 0 || id >= SLOTS || !slots[id].live {
        return false;
      }
      slots[id].Close();
      return true;
    }

    /** The generation stays, so a reset breaks what an open checkpoint of the arena relies on, exactly if that has blocks. */
    method Reset(id: int) returns (ok: bool)
      requires Valid()
      modifies slots
      ensures Valid()
      ensures old(OlderIntact()) ==>
        (OlderIntact() <==> !ok || forall i :: 0 <= i < |ck| && ck[i].id == id && Current(i) ==> saved[i] == [])
      ensures ok <==> 0 <= id < SLOTS && old(slots[id].live)
      ensures forall i :: 0 <= i < SLOTS ==>
        && slots[i].live == old(slots[i].live)
        && slots[i].blocks == if i == id && ok then [] else old(slots[i].blocks)
    {
      hide Stacked, Linked, OffsetAfter;
      if id < 0 || id >= SLOTS || !slots[id].live {
        return false;
      }
      slots[id].Clear();
      return true;
    }

    /** A new block in one arena, above all that its checkpoints rely on; 0 exactly when there is no such arena or no room. */
    method AllocPayload(id: int, size: nat) returns (p: nat)
      requires Valid()
      modifies slots
      ensures Valid() && (old(OlderIntact()) ==> OlderIntact())
      ensures p != 0 <==> 0 <= id < SLOTS && old(slots[id].Fits(size))
      ensures p != 0 ==>
        && p == old(slots[id].base + OffsetAfter(slots[id].blocks) + 64) && p % 64 == 0
        && slots[id].blocks == old(slots[id].blocks + [slots[id].NextBlock(size)])
      ensures forall i :: 0 <= i < SLOTS && (i != id || p == 0) ==> slots[i].blocks == old(slots[i].blocks)
    {
      hide Stacked, Linked, OffsetAfter;
      if id < 0 || id >= SLOTS {
        return 0;
      }
      p := slots[id].AllocPayload(size);
    }

    method Checkpoint(v: int) returns (depth: int)
      requires Valid()
      modifies this`ck, this`saved
      ensures Valid() && (old(OlderIntact()) ==> OlderIntact())
      ensures var id := Wrap32(v) as int;
              if 0 <= id < SLOTS && slots[id].live && |old(ck)| < CK_MAX then
                && depth == |old(ck)|
                && ck == old(ck) + [Ck(id, slots[id].off, slots[id].gen, slots[id].topCur)]
                && saved == old(saved) + [slots[id].blocks]
              else depth == -1 && ck == old(ck) && saved == old(saved)
    {
      hide Stacked, Linked, OffsetAfter;
      var id := Wrap32(v) as int;
      if id < 0 || id >= SLOTS {
        return -1;
      }
      var ok, off, gen, topCur := slots[id].Snap();
      if !ok {
        return -1;
      }
      depth := -1;
      if |ck| < CK_MAX {
        depth := |ck|;
        ck := ck + [Ck(id, off, gen, topCur)];
        saved := saved + [slots[id].blocks];
      }
    }

    lemma BeyondIsTop(i: nat)
      requires Valid() && i < |ck|
      ensures OlderIntact() && Current(i) && ck[i].off > slots[ck[i].id].cap ==> slots[ck[i].id].blocks == saved[i]
    {
      hide Stacked, Linked, OffsetAfter;
      var s := slots[ck[i].id];
      if OlderIntact() && Current(i) && saved[i] < s.blocks {
        BelowIsWithin(s.blocks, s.cap, saved[i]);
      }
    }

    /** The innermost checkpoint is taken back, and only in its slot: offset and top return, unless the arena was destroyed
        or the checkpoint lies beyond its capacity. If nothing older has been freed the stack is back, in the latter
        case too, and every other open checkpoint can still be taken back. */
    method Rollback() returns (id: nat)
      requires Valid()
      modifies this`ck, this`saved, slots
      ensures old(ck) == [] ==> id == 0 && ck == [] && forall i :: 0 <= i < SLOTS ==> slots[i].blocks == old(slots[i].blocks)
      ensures old(ck) != [] ==>
        var n := |old(ck)| - 1;
        var c := old(ck)[n];
        var restored := old(Current(n)) && c.off <= slots[c.id].cap;
        && ck == old(ck)[..n] && saved == old(saved)[..n]
        && id == (if restored then c.id else 0)
        && slots[c.id].off == (if restored then c.off else old(slots[c.id].off))
        && slots[c.id].topCur == (if restored then c.topCur else old(slots[c.id].topCur))
        && (old(OlderIntact()) ==> slots[c.id].blocks == if old(Current(n)) then old(saved)[n] else old(slots[c.id].blocks))
        && forall i :: 0 <= i < SLOTS && i != c.id ==> slots[i].blocks == old(slots[i].blocks)
      ensures old(OlderIntact()) ==> Valid() && OlderIntact()
    {
      hide Stacked, Linked, OffsetAfter;
      if |ck| == 0 {
        return 0;
      }
      var n := |ck| - 1;
      var c := ck[n];
      ghost var s := saved[n];
      BeyondIsTop(n);
      ck := ck[..n];
      saved := saved[..n];
      var ok := slots[c.id].Restore(c.off, c.gen, c.topCur, s);
      id := if ok then c.id else 0;
    }

    /** The arena in which a free looks for p. */
    ghost predicate FirstToHold(i: nat, p: nat)
      requires |slots| == SLOTS && i < SLOTS
      reads slots
    {
      slots[i].Contains(p) && forall j :: 0 <= j < i ==> !slots[j].Contains(p)
    }

    /** Freeing p in slot id leaves the blocks of the open checkpoints in place. */
    ghost predicate KeepsSaved(id: nat, p: nat)
      requires Valid() && id < SLOTS
      reads this, slots
    {
      forall i :: 0 <= i < |ck| && ck[i].id == id && Current(i) ==>
        saved[i] <= if slots[id].Owns(p) then Freed(slots[id].blocks, p - slots[id].base - 64) else slots[id].blocks
    }

    lemma YoungerKeepsSaved(id: nat, p: nat)
      requires Valid() && OlderIntact() && id < SLOTS && Younger(id, p - slots[id].base - 64)
      ensures KeepsSaved(id, p)
    {
      hide Stacked, Linked, OffsetAfter, Freed;
      forall i | 0 <= i < |ck| && ck[i].id == id && Current(i)
        ensures saved[i] <= Freed(slots[id].blocks, p - slots[id].base - 64)
      {
        FreeKeepsOlder(slots[id].blocks, slots[id].cap, saved[i], p - slots[id].base - 64);
      }
    }

    method FreeIn(i: nat, p: nat) returns (ok: bool)
      requires Valid() && i < SLOTS
      modifies slots[i]
      ensures Valid() && ok == old(slots[i].HasHeader(p))
      ensures slots[i].blocks == if old(slots[i].Owns(p)) then Freed(old(slots[i].blocks), p - old(slots[i].base) - 64)
                                 else old(slots[i].blocks)
      ensures old(OlderIntact() && KeepsSaved(i, p)) ==> OlderIntact()
    {
      hide Stacked, Linked, Freed, OffsetAfter, TakenAt, TopOf, TopLive, Slot.HasHeader, Slot.Owns;
      ok := slots[i].FreeBlock(p);
    }

    /** Find the arena that holds p and free p there. */
    method FreePayload(p: nat) returns (ok: bool)
      requires Valid()
      modifies slots
      ensures Valid()
      ensures ok <==> exists i :: 0 <= i < SLOTS && old(FirstToHold(i, p) && slots[i].HasHeader(p))
      ensures forall i :: 0 <= i < SLOTS ==>
        slots[i].blocks == if !old(FirstToHold(i, p) && slots[i].Owns(p)) then old(slots[i].blocks)
                           else Freed(old(slots[i].blocks), p - old(slots[i].base) - 64)
      ensures old(OlderIntact() && forall i :: 0 <= i < SLOTS && FirstToHold(i, p) ==> Younger(i, p - slots[i].base - 64)) ==>
        OlderIntact()
    {
      hide Stacked, Linked, Freed, OffsetAfter, TakenAt, TopOf, TopLive;
      hide KeepsSaved, OlderIntact, Younger, Current, Slot.Valid, Slot.Owns, Slot.HasHeader;
      var i := 0;
      while i < SLOTS
        invariant 0 <= i <= SLOTS && Valid()
        invariant forall j :: 0 <= j < i ==> !slots[j].Contains(p)
        invariant unchanged(slots)
      {
        if slots[i].Contains(p) {
          assert old(FirstToHold(i, p));
          if OlderIntact() && Younger(i, p - slots[i].base - 64) {
            YoungerKeepsSaved(i, p);
          }
          ok := FreeIn(i, p);
          return;
        }
        i := i + 1;
      }
      return false;
    }
  }
}
