/** The pool of device memory: blocks in power-of-two bins, a table of handles, and copies in flight. Every call is one step;
    the driver's answers are parameters. */
module GpuPool {
  import opened Sums

  const BINS := 32
  const MAX_BUFFERS := 1024
  const MAX_STREAMS := 64
  const MAX_PENDING := 1024
  const MAX_BYTES := 0x4000_0000

  /** A block of the pool; ptr is 0 when it has no device memory. */
  datatype Block = Block(ptr: nat, capacity: nat, bin: nat, inUse: bool, inFlight: nat)

  datatype Pending = Pending(active: bool, blk: nat, stream: nat)

  const IDLE := Pending(false, 0, 0)

  /** No block, in the table of handles. */
  const NONE := -1

  // ----- size classes -----

  function BinSize(bin: nat): (n: nat)
    ensures n > 0
  {
    if bin == 0 then 64 else 2 * BinSize(bin - 1)
  }

  lemma {:induction false} BinSizeGrows(a: nat, b: nat)
    requires a < b
    ensures BinSize(a) < BinSize(b)
  {
    if a < b - 1 {
      BinSizeGrows(a, b - 1);
    }
  }

  /** The smallest class that fits; the last class takes what is larger. */
  method SizeToBin(bytes: nat) returns (bin: nat)
    ensures bin < BINS && (bytes <= BinSize(BINS - 1) ==> bytes <= BinSize(bin))
    ensures forall b :: 0 <= b < bin ==> BinSize(b) < bytes
  {
    bin := 0;
    var cur := 64;
    while cur < bytes && bin < BINS - 1
      invariant bin < BINS && cur == BinSize(bin) && forall b :: 0 <= b < bin ==> BinSize(b) < bytes
    {
      cur := 2 * cur;
      bin := bin + 1;
    }
  }

  lemma LastBinIsLarge()
    ensures BinSize(BINS - 1) >= MAX_BYTES
  {
    assert BinSize(8) == 0x4000;
    assert BinSize(16) == 0x40_0000;
    assert BinSize(24) == MAX_BYTES;
    BinSizeGrows(24, 31);
  }

  // ----- the pool as a value -----

  /** bins[b] lists free blocks, the next to be taken last; handles[0] is never used. */
  datatype State = State(blocks: seq<Block>, bins: seq<seq<nat>>, handles: seq<int>, active: int, pending: seq<Pending>)

  function InUseBytes(b: Block): nat {
    if b.inUse then b.capacity else 0
  }

  function OnBlock(blk: nat): Pending -> nat {
    (p: Pending) => if p.active && p.blk == blk then 1 else 0
  }

  ghost function CopiesOf(pending: seq<Pending>, blk: nat): nat {
    Total(pending, OnBlock(blk))
  }

  ghost predicate Shaped(s: State) {
    |s.bins| == BINS && |s.handles| == MAX_BUFFERS && |s.pending| == MAX_PENDING && s.handles[0] == NONE
  }

  ghost predicate GoodBlock(b: Block) {
    b.bin < BINS && b.capacity == BinSize(b.bin) && (b.inUse ==> b.ptr != 0)
  }

  /** Every free block is in its bin once, and bins hold nothing else. */
  ghost predicate BinsExact(s: State)
    requires Shaped(s)
  {
    && (forall b, i :: 0 <= b < BINS && 0 <= i < |s.bins[b]| ==>
          s.bins[b][i] < |s.blocks| && !s.blocks[s.bins[b][i]].inUse && s.blocks[s.bins[b][i]].bin == b)
    && (forall b, i, j :: 0 <= b < BINS && 0 <= i < j < |s.bins[b]| ==> s.bins[b][i] != s.bins[b][j])
    && (forall k :: 0 <= k < |s.blocks| && !s.blocks[k].inUse && s.blocks[k].bin < BINS ==> k in s.bins[s.blocks[k].bin])
  }

  /** Every block in use has exactly one handle, and handles lead to blocks in use. */
  ghost predicate HandlesExact(s: State)
    requires Shaped(s)
  {
    && (forall h :: 0 <= h < MAX_BUFFERS && s.handles[h] != NONE ==> 0 <= s.handles[h] < |s.blocks| && s.blocks[s.handles[h]].inUse)
    && (forall g, h :: 0 <= g < h < MAX_BUFFERS && s.handles[g] != NONE ==> s.handles[g] != s.handles[h])
    && (forall k :: 0 <= k < |s.blocks| && s.blocks[k].inUse ==> k in s.handles)
  }

  /** A block's count of copies in flight is the number of its pending slots, and only blocks in use have copies. */
  ghost predicate CopiesExact(s: State) {
    && (forall k :: 0 <= k < |s.blocks| ==> s.blocks[k].inFlight == CopiesOf(s.pending, k))
    && (forall i :: 0 <= i < |s.pending| && s.pending[i].active ==>
          s.pending[i].blk < |s.blocks| && s.blocks[s.pending[i].blk].inUse && 0 < s.pending[i].stream < MAX_STREAMS)
  }

  /** Device pointers are not shared, and the driver's live allocations are those of the blocks. */
  ghost predicate PointersExact(s: State, live: set<nat>) {
    && (forall j, k :: 0 <= j < k < |s.blocks| && s.blocks[j].ptr != 0 ==> s.blocks[j].ptr != s.blocks[k].ptr)
    && (forall k :: 0 <= k < |s.blocks| && s.blocks[k].ptr != 0 ==> s.blocks[k].ptr in live)
    && (forall p :: p in live ==> p != 0 && exists k :: 0 <= k < |s.blocks| && s.blocks[k].ptr == p)
  }

  ghost predicate Invariant(s: State, live: set<nat>) {
    && Shaped(s) && (forall k :: 0 <= k < |s.blocks| ==> GoodBlock(s.blocks[k]))
    && BinsExact(s) && HandlesExact(s) && CopiesExact(s) && PointersExact(s, live)
    && s.active == Total(s.blocks, InUseBytes)
  }

  // ----- what one call does to the pool -----

  /** The first free block of a bin. */
  function Head(s: State, bin: nat): (k: nat)
    requires bin < |s.bins| && s.bins[bin] != []
  {
    s.bins[bin][|s.bins[bin]| - 1]
  }

  /** The next block of the bin still has device memory. */
  predicate HasMemory(s: State, bin: nat) {
    bin < |s.bins| && s.bins[bin] != [] && Head(s, bin) < |s.blocks| && s.blocks[Head(s, bin)].ptr != 0
  }

  /** What a copy of bytes between the buffer and the host needs. */
  predicate CanCopy(s: State, streams: seq<bool>, handle: int, bytes: int, stream: int) {
    && 0 < handle < |s.handles| && 0 < stream < |streams| && streams[stream]
    && 0 <= s.handles[handle] < |s.blocks| && s.blocks[s.handles[handle]].inUse && s.blocks[s.handles[handle]].ptr != 0
    && 0 < bytes <= s.blocks[s.handles[handle]].capacity
    && exists i :: 0 <= i < |s.pending| && !s.pending[i].active
  }

  /** A free block taken out of its bin, with device memory p, under handle h. */
  function Reused(s: State, bin: nat, p: nat, h: nat): (t: State)
    requires bin < |s.bins| && s.bins[bin] != [] && Head(s, bin) < |s.blocks| && h < |s.handles|
  {
    var k := Head(s, bin);
    s.(blocks := s.blocks[k := s.blocks[k].(ptr := p, inUse := true, inFlight := 0)],
       bins := s.bins[bin := s.bins[bin][..|s.bins[bin]| - 1]],
       handles := s.handles[h := k],
       active := s.active + BinSize(bin))
  }

  /** A new block with device memory p, under handle h. */
  function Created(s: State, bin: nat, p: nat, h: nat): (t: State)
    requires h < |s.handles|
  {
    s.(blocks := s.blocks + [Block(p, BinSize(bin), bin, true, 0)],
       handles := s.handles[h := |s.blocks|],
       active := s.active + BinSize(bin))
  }

  /** No handle was left: the block keeps its memory and waits in its bin. */
  function Parked(s: State, bin: nat, p: nat): (t: State)
    requires bin < |s.bins| && (s.bins[bin] != [] ==> Head(s, bin) < |s.blocks|)
  {
    if s.bins[bin] != [] then
      var k := Head(s, bin);
      s.(blocks := s.blocks[k := s.blocks[k].(ptr := p, inFlight := 0)])
    else
      s.(blocks := s.blocks + [Block(p, BinSize(bin), bin, false, 0)], bins := s.bins[bin := [|s.blocks|]])
  }

  predicate CanTake(s: State, bin: nat) {
    bin < |s.bins| && (s.bins[bin] != [] ==> Head(s, bin) < |s.blocks|)
  }

  /** The device memory for a block of the bin: what its first free block still has, or else the driver's answer. */
  function MemoryFor(s: State, bin: nat, answer: nat): (p: nat) {
    if HasMemory(s, bin) then s.blocks[Head(s, bin)].ptr else answer
  }

  /** The first unused handle, or MAX_BUFFERS when there is none. */
  predicate FirstUnused(handles: seq<int>, h: nat) {
    && 1 <= h <= MAX_BUFFERS && (h < MAX_BUFFERS ==> h < |handles| && handles[h] == NONE)
    && forall g :: 1 <= g < h && g < |handles| ==> handles[g] != NONE
  }

  /** An allocation from the bin with h as the first unused handle. */
  function Allocated(s: State, bin: nat, answer: nat, h: nat): (t: State)
    requires CanTake(s, bin) && h <= MAX_BUFFERS == |s.handles|
  {
    var p := MemoryFor(s, bin, answer);
    if p == 0 then s
    else if h == MAX_BUFFERS then Parked(s, bin, p)
    else if s.bins[bin] != [] then Reused(s, bin, p, h)
    else Created(s, bin, p, h)
  }

  /** Buffers in use keep their blocks, handles and bins; what the new handle leads to. */
  lemma AllocatedMeans(s: State, live: set<nat>, bin: nat, answer: nat, h: nat)
    requires Invariant(s, live) && bin < BINS && FirstUnused(s.handles, h)
    ensures CanTake(s, bin) && (MemoryFor(s, bin, answer) == 0 <==> answer == 0 && !HasMemory(s, bin))
    ensures var t, p := Allocated(s, bin, answer, h), MemoryFor(s, bin, answer);
            && t.pending == s.pending && |s.blocks| <= |t.blocks|
            && (forall j :: 0 <= j < |s.blocks| && s.blocks[j].inUse ==> t.blocks[j] == s.blocks[j])
            && (forall b :: 0 <= b < BINS && b != bin ==> t.bins[b] == s.bins[b])
            && (p == 0 || h == MAX_BUFFERS ==> t.handles == s.handles && t.active == s.active)
            && (p != 0 && h < MAX_BUFFERS ==>
                  && 0 <= t.handles[h] < |t.blocks| && t.handles == s.handles[h := t.handles[h]]
                  && t.blocks[t.handles[h]] == Block(p, BinSize(bin), bin, true, 0) && t.active == s.active + BinSize(bin))
  {
    hide HandlesExact, CopiesExact, PointersExact, FirstUnused, BinSize;
    if s.bins[bin] != [] {
      HeadIsFree(s, bin);
    }
  }

  function Released(s: State, h: nat): (t: State)
    requires h < |s.handles| && 0 <= s.handles[h] < |s.blocks| && s.blocks[s.handles[h]].bin < |s.bins|
  {
    var k := s.handles[h];
    var b := s.blocks[k];
    s.(blocks := s.blocks[k := b.(ptr := 0, inUse := false)],
       bins := s.bins[b.bin := s.bins[b.bin] + [k]],
       handles := s.handles[h := NONE],
       active := s.active - b.capacity)
  }

  function Copying(s: State, i: nat, k: nat, stream: nat): (t: State)
    requires i < |s.pending| && k < |s.blocks|
  {
    s.(pending := s.pending[i := Pending(true, k, stream)],
       blocks := s.blocks[k := s.blocks[k].(inFlight := s.blocks[k].inFlight + 1)])
  }

  /** The slot emptied, and the count of its block taken down if it is not zero. */
  function Cleared(s: State, i: nat): (t: State)
    requires i < |s.pending| && s.pending[i].blk < |s.blocks|
  {
    var k := s.pending[i].blk;
    var b := s.blocks[k];
    s.(pending := s.pending[i := IDLE],
       blocks := s.blocks[k := b.(inFlight := if b.inFlight > 0 then b.inFlight - 1 else 0)])
  }

  lemma FreeBlockHasNoCopies(s: State, live: set<nat>, k: nat)
    requires Invariant(s, live) && k < |s.blocks| && !s.blocks[k].inUse
    ensures s.blocks[k].inFlight == 0
  {
    if CopiesOf(s.pending, k) > 0 {
      var i := TotalPositive(s.pending, OnBlock(k));
    }
  }

  /** p is new, or the pointer the block already has. */
  predicate Fitting(b: Block, p: nat, live: set<nat>) {
    p != 0 && (p == b.ptr || (b.ptr == 0 && p !in live))
  }

  lemma ReusedKeeps(s: State, live: set<nat>, bin: nat, p: nat, h: nat)
    requires Invariant(s, live) && bin < BINS && s.bins[bin] != [] && 0 < h < MAX_BUFFERS && s.handles[h] == NONE
    requires Head(s, bin) < |s.blocks| && Fitting(s.blocks[Head(s, bin)], p, live)
    ensures Invariant(Reused(s, bin, p, h), live + {p})
  {
    hide BinSize, BinsExact, HandlesExact, CopiesExact, PointersExact;
    var k := Head(s, bin);
    var t := Reused(s, bin, p, h);
    HeadIsFree(s, bin);
    FreeBlockHasNoCopies(s, live, k);
    TotalUpdate(s.blocks, InUseBytes, k, t.blocks[k]);
    TakenFromBin(s, t, bin, k);
    HandedOut(s, t, k, h);
    SameCopies(s, t);
    PointerSet(s, t, live, k, p);
  }

  lemma HeadIsFree(s: State, bin: nat)
    requires Shaped(s) && BinsExact(s) && bin < BINS && s.bins[bin] != []
    ensures Head(s, bin) < |s.blocks| && !s.blocks[Head(s, bin)].inUse && s.blocks[Head(s, bin)].bin == bin
  {
  }

  lemma HeadMemory(s: State, bin: nat)
    requires bin < |s.bins| && s.bins[bin] != [] && Head(s, bin) < |s.blocks|
    ensures HasMemory(s, bin) <==> s.blocks[s.bins[bin][|s.bins[bin]| - 1]].ptr != 0
  {
  }

  /** Blocks may be added and given out; counts and slots stay. */
  lemma SameCopies(s: State, t: State)
    requires CopiesExact(s) && t.pending == s.pending && |s.blocks| <= |t.blocks|
    requires forall j :: 0 <= j < |s.blocks| ==> t.blocks[j].inFlight == s.blocks[j].inFlight && (s.blocks[j].inUse ==> t.blocks[j].inUse)
    requires forall j :: |s.blocks| <= j < |t.blocks| ==> t.blocks[j].inFlight == 0
    ensures CopiesExact(t)
  {
    forall j | |s.blocks| <= j < |t.blocks| ensures CopiesOf(t.pending, j) == 0 {
      NoCopies(s, j);
    }
  }

  lemma TakenFromBin(s: State, t: State, bin: nat, k: nat)
    requires Shaped(s) && Shaped(t) && BinsExact(s) && bin < BINS && s.bins[bin] != [] && k == Head(s, bin) && k < |s.blocks|
    requires t.bins == s.bins[bin := s.bins[bin][..|s.bins[bin]| - 1]]
    requires |t.blocks| == |s.blocks| && t.blocks[k].inUse
    requires forall j :: 0 <= j < |s.blocks| && j != k ==> t.blocks[j].inUse == s.blocks[j].inUse && t.blocks[j].bin == s.blocks[j].bin
    ensures BinsExact(t)
  {
    forall j | 0 <= j < |t.blocks| && !t.blocks[j].inUse && t.blocks[j].bin < BINS
      ensures j in t.bins[t.blocks[j].bin]
    {
      var b := s.blocks[j].bin;
      assert j in s.bins[b];
      var i :| 0 <= i < |s.bins[b]| && s.bins[b][i] == j;
      if b == bin {
        assert t.bins[b][i] == j;
      }
    }
  }

  lemma HandedOut(s: State, t: State, k: nat, h: nat)
    requires Shaped(s) && Shaped(t) && HandlesExact(s) && 0 < h < MAX_BUFFERS && s.handles[h] == NONE
    requires k < |t.blocks| && t.blocks[k].inUse && t.handles == s.handles[h := k] && (k < |s.blocks| ==> !s.blocks[k].inUse)
    requires |s.blocks| <= |t.blocks|
    requires forall j :: 0 <= j < |t.blocks| && j != k ==> j < |s.blocks| && t.blocks[j].inUse == s.blocks[j].inUse
    ensures HandlesExact(t)
  {
    forall j | 0 <= j < |t.blocks| && t.blocks[j].inUse
      ensures j in t.handles
    {
      if j == k {
        assert t.handles[h] == k;
      } else {
        assert j in s.handles;
        var g :| 0 <= g < MAX_BUFFERS && s.handles[g] == j;
        assert t.handles[g] == j;
      }
    }
  }

  lemma PointerSet(s: State, t: State, live: set<nat>, k: nat, p: nat)
    requires PointersExact(s, live) && k < |t.blocks| && t.blocks[k].ptr == p != 0
    requires k < |s.blocks| ==> s.blocks[k].ptr == p || s.blocks[k].ptr == 0
    requires (k < |s.blocks| && s.blocks[k].ptr == p) || p !in live
    requires |s.blocks| <= |t.blocks| && forall j :: 0 <= j < |t.blocks| && j != k ==> j < |s.blocks| && t.blocks[j].ptr == s.blocks[j].ptr
    ensures PointersExact(t, live + {p})
  {
    forall q | q in live + {p}
      ensures q != 0 && exists j :: 0 <= j < |t.blocks| && t.blocks[j].ptr == q
    {
      if q == p {
        assert t.blocks[k].ptr == q;
      } else {
        var j :| 0 <= j < |s.blocks| && s.blocks[j].ptr == q;
        assert t.blocks[j].ptr == q;
      }
    }
  }

  lemma CreatedKeeps(s: State, live: set<nat>, bin: nat, p: nat, h: nat)
    requires Invariant(s, live) && bin < BINS && 0 < h < MAX_BUFFERS && s.handles[h] == NONE && p != 0 && p !in live
    ensures Invariant(Created(s, bin, p, h), live + {p})
  {
    hide BinSize, BinsExact, HandlesExact, CopiesExact, PointersExact;
    var k, t := |s.blocks|, Created(s, bin, p, h);
    TotalAppend(s.blocks, InUseBytes, t.blocks[k]);
    NewOutsideBins(s, t, k);
    HandedOut(s, t, k, h);
    SameCopies(s, t);
    PointerSet(s, t, live, k, p);
  }

  lemma NewOutsideBins(s: State, t: State, k: nat)
    requires Shaped(s) && Shaped(t) && BinsExact(s) && t.bins == s.bins && |t.blocks| == k + 1 == |s.blocks| + 1 && t.blocks[k].inUse
    requires forall j :: 0 <= j < k ==> t.blocks[j] == s.blocks[j]
    ensures BinsExact(t)
  {
  }

  lemma NoCopies(s: State, k: nat)
    requires CopiesExact(s) && k >= |s.blocks|
    ensures CopiesOf(s.pending, k) == 0
  {
    if CopiesOf(s.pending, k) > 0 {
      var i := TotalPositive(s.pending, OnBlock(k));
    }
  }

  lemma ParkedKeeps(s: State, live: set<nat>, bin: nat, p: nat)
    requires Invariant(s, live) && bin < BINS && p != 0
    requires s.bins[bin] != [] ==> Head(s, bin) < |s.blocks| && Fitting(s.blocks[Head(s, bin)], p, live)
    requires s.bins[bin] == [] ==> p !in live
    ensures Invariant(Parked(s, bin, p), live + {p})
  {
    hide Parked;
    if s.bins[bin] != [] {
      ParkedBack(s, live, bin, p);
    } else {
      ParkedNew(s, live, bin, p);
    }
  }

  lemma ParkedBack(s: State, live: set<nat>, bin: nat, p: nat)
    requires Invariant(s, live) && bin < BINS && p != 0 && s.bins[bin] != []
    requires Head(s, bin) < |s.blocks| && Fitting(s.blocks[Head(s, bin)], p, live)
    ensures Invariant(Parked(s, bin, p), live + {p})
  {
    hide BinSize, BinsExact, HandlesExact, CopiesExact, PointersExact;
    var t, k := Parked(s, bin, p), Head(s, bin);
    HeadIsFree(s, bin);
    FreeBlockHasNoCopies(s, live, k);
    TotalUpdate(s.blocks, InUseBytes, k, t.blocks[k]);
    SameUse(s, t);
    SameCopies(s, t);
    PointerSet(s, t, live, k, p);
  }

  lemma ParkedNew(s: State, live: set<nat>, bin: nat, p: nat)
    requires Invariant(s, live) && bin < BINS && p != 0 && s.bins[bin] == [] && p !in live
    ensures Invariant(Parked(s, bin, p), live + {p})
  {
    hide BinSize, BinsExact, HandlesExact, CopiesExact, PointersExact;
    var t, k := Parked(s, bin, p), |s.blocks|;
    TotalAppend(s.blocks, InUseBytes, t.blocks[k]);
    NewInBin(s, t, bin, k);
    SameCopies(s, t);
    PointerSet(s, t, live, k, p);
  }

  lemma NewInBin(s: State, t: State, bin: nat, k: nat)
    requires Shaped(s) && Shaped(t) && BinsExact(s) && HandlesExact(s) && bin < BINS && s.bins[bin] == []
    requires t.bins == s.bins[bin := [k]] && t.handles == s.handles && |t.blocks| == k + 1 == |s.blocks| + 1
    requires !t.blocks[k].inUse && t.blocks[k].bin == bin && forall j :: 0 <= j < k ==> t.blocks[j] == s.blocks[j]
    ensures BinsExact(t) && HandlesExact(t)
  {
  }

  /** Nothing is handed out or taken back. */
  lemma SameUse(s: State, t: State)
    requires Shaped(s) && Shaped(t) && BinsExact(s) && HandlesExact(s)
    requires t.bins == s.bins && t.handles == s.handles && |t.blocks| == |s.blocks|
    requires forall j :: 0 <= j < |s.blocks| ==> t.blocks[j].inUse == s.blocks[j].inUse && t.blocks[j].bin == s.blocks[j].bin
    ensures BinsExact(t) && HandlesExact(t)
  {
  }

  lemma ReleasedKeeps(s: State, live: set<nat>, h: nat)
    requires Invariant(s, live) && 0 < h < MAX_BUFFERS && s.handles[h] != NONE && s.handles[h] >= 0 && s.handles[h] < |s.blocks|
    requires s.blocks[s.handles[h]].inFlight == 0
    ensures Invariant(Released(s, h), live - {s.blocks[s.handles[h]].ptr})
  {
    hide BinSize, BinsExact, HandlesExact, CopiesExact, PointersExact;
    var k, t := s.handles[h], Released(s, h);
    HandleInUse(s, h);
    TotalUpdate(s.blocks, InUseBytes, k, t.blocks[k]);
    PutInBin(s, t, k);
    TakenBack(s, t, h);
    FewerInUse(s, t, live, k);
    PointerGone(s, t, live, k);
  }

  lemma HandleInUse(s: State, h: nat)
    requires Shaped(s) && HandlesExact(s) && h < MAX_BUFFERS && s.handles[h] != NONE
    ensures 0 <= s.handles[h] < |s.blocks| && s.blocks[s.handles[h]].inUse
  {
  }

  lemma FewerInUse(s: State, t: State, live: set<nat>, k: nat)
    requires Invariant(s, live) && k < |s.blocks| == |t.blocks| && s.blocks[k].inFlight == 0 && t.pending == s.pending
    requires forall j :: 0 <= j < |s.blocks| ==> t.blocks[j].inFlight == s.blocks[j].inFlight && (j != k ==> t.blocks[j].inUse == s.blocks[j].inUse)
    ensures CopiesExact(t)
  {
    NoneOnBlock(s, live, k);
  }

  lemma NoneOnBlock(s: State, live: set<nat>, k: nat)
    requires Invariant(s, live) && k < |s.blocks| && s.blocks[k].inFlight == 0
    ensures forall i :: 0 <= i < |s.pending| && s.pending[i].active ==> s.pending[i].blk != k
  {
    forall i | 0 <= i < |s.pending| && s.pending[i].active ensures s.pending[i].blk != k {
      TotalUpdate(s.pending, OnBlock(k), i, IDLE);
    }
  }

  lemma PutInBin(s: State, t: State, k: nat)
    requires Shaped(s) && Shaped(t) && BinsExact(s) && k < |s.blocks| && s.blocks[k].inUse && s.blocks[k].bin < BINS
    requires t.bins == s.bins[s.blocks[k].bin := s.bins[s.blocks[k].bin] + [k]]
    requires |t.blocks| == |s.blocks| && !t.blocks[k].inUse && t.blocks[k].bin == s.blocks[k].bin
    requires forall j :: 0 <= j < |s.blocks| && j != k ==> t.blocks[j].inUse == s.blocks[j].inUse && t.blocks[j].bin == s.blocks[j].bin
    ensures BinsExact(t)
  {
    forall j | 0 <= j < |t.blocks| && !t.blocks[j].inUse && t.blocks[j].bin < BINS
      ensures j in t.bins[t.blocks[j].bin]
    {
      var b := t.blocks[j].bin;
      if j == k {
        assert t.bins[b][|s.bins[b]|] == k;
      } else {
        assert j in s.bins[b];
      }
    }
  }

  lemma TakenBack(s: State, t: State, h: nat)
    requires Shaped(s) && Shaped(t) && HandlesExact(s) && 0 < h < MAX_BUFFERS && s.handles[h] != NONE
    requires t.handles == s.handles[h := NONE] && |t.blocks| == |s.blocks| && !t.blocks[s.handles[h]].inUse
    requires forall j :: 0 <= j < |s.blocks| && j != s.handles[h] ==> t.blocks[j].inUse == s.blocks[j].inUse
    ensures HandlesExact(t)
  {
    forall j | 0 <= j < |t.blocks| && t.blocks[j].inUse
      ensures j in t.handles
    {
      assert j in s.handles;
      var g :| 0 <= g < MAX_BUFFERS && s.handles[g] == j;
      assert t.handles[g] == j;
    }
  }

  lemma PointerGone(s: State, t: State, live: set<nat>, k: nat)
    requires PointersExact(s, live) && k < |s.blocks| == |t.blocks| && t.blocks[k].ptr == 0
    requires forall j :: 0 <= j < |s.blocks| && j != k ==> t.blocks[j].ptr == s.blocks[j].ptr
    ensures PointersExact(t, live - {s.blocks[k].ptr})
  {
    forall q | q in live - {s.blocks[k].ptr}
      ensures q != 0 && exists j :: 0 <= j < |t.blocks| && t.blocks[j].ptr == q
    {
      var j :| 0 <= j < |s.blocks| && s.blocks[j].ptr == q;
      assert t.blocks[j].ptr == q;
    }
  }

  lemma CopyingKeeps(s: State, live: set<nat>, i: nat, k: nat, stream: nat)
    requires Invariant(s, live) && i < MAX_PENDING && !s.pending[i].active
    requires k < |s.blocks| && s.blocks[k].inUse && 0 < stream < MAX_STREAMS
    ensures Invariant(Copying(s, i, k, stream), live)
  {
    hide BinSize, BinsExact, HandlesExact, PointersExact, CopiesExact;
    var t := Copying(s, i, k, stream);
    TotalUpdate(s.blocks, InUseBytes, k, t.blocks[k]);
    OneMoreCopy(s, t, i, k, stream);
    SameUse(s, t);
    SamePointers(s, t, live);
  }

  lemma OneMoreCopy(s: State, t: State, i: nat, k: nat, stream: nat)
    requires CopiesExact(s) && i < |s.pending| && !s.pending[i].active && k < |s.blocks| && s.blocks[k].inUse && 0 < stream < MAX_STREAMS
    requires t == Copying(s, i, k, stream)
    ensures CopiesExact(t)
  {
    forall j | 0 <= j < |s.blocks| ensures CopiesOf(t.pending, j) == CopiesOf(s.pending, j) + if j == k then 1 else 0 {
      TotalUpdate(s.pending, OnBlock(j), i, t.pending[i]);
    }
  }

  lemma ClearedKeeps(s: State, live: set<nat>, i: nat)
    requires Invariant(s, live) && i < MAX_PENDING && s.pending[i].active
    ensures s.pending[i].blk < |s.blocks| && s.blocks[s.pending[i].blk].inFlight > 0
    ensures Invariant(Cleared(s, i), live)
  {
    hide BinSize, BinsExact, HandlesExact, PointersExact, CopiesExact;
    SlotOnBlock(s, i);
    var t, k := Cleared(s, i), s.pending[i].blk;
    TotalUpdate(s.blocks, InUseBytes, k, t.blocks[k]);
    OneCopyLess(s, t, i);
    SameUse(s, t);
    SamePointers(s, t, live);
  }

  lemma SlotOnBlock(s: State, i: nat)
    requires CopiesExact(s) && i < |s.pending| && s.pending[i].active
    ensures s.pending[i].blk < |s.blocks| && s.blocks[s.pending[i].blk].inFlight > 0
  {
    TotalUpdate(s.pending, OnBlock(s.pending[i].blk), i, IDLE);
  }

  lemma OneCopyLess(s: State, t: State, i: nat)
    requires CopiesExact(s) && i < |s.pending| && s.pending[i].active && s.pending[i].blk < |s.blocks| && t == Cleared(s, i)
    ensures CopiesExact(t)
  {
    var k := s.pending[i].blk;
    SlotOnBlock(s, i);
    forall j | 0 <= j < |s.blocks| ensures CopiesOf(t.pending, j) == CopiesOf(s.pending, j) - if j == k then 1 else 0 {
      TotalUpdate(s.pending, OnBlock(j), i, IDLE);
    }
  }

  lemma SamePointers(s: State, t: State, live: set<nat>)
    requires PointersExact(s, live) && |t.blocks| == |s.blocks|
    requires forall j :: 0 <= j < |s.blocks| ==> t.blocks[j].ptr == s.blocks[j].ptr
    ensures PointersExact(t, live)
  {
    forall q | q in live ensures q != 0 && exists j :: 0 <= j < |t.blocks| && t.blocks[j].ptr == q {
      var j :| 0 <= j < |s.blocks| && s.blocks[j].ptr == q;
      assert t.blocks[j].ptr == q;
    }
  }

  // ----- the program -----

  class Pool {
    var blocks: seq<Block>
    var bins: seq<seq<nat>>
    var handles: seq<int>
    var active: int
    var pending: seq<Pending>
    var streams: seq<bool>
    const ready: bool
    /** The device pointers the driver has handed out and not got back. */
    ghost var live: set<nat>

    ghost function Now(): State
      reads this
    {
      State(blocks, bins, handles, active, pending)
    }

    ghost predicate Valid()
      reads this
    {
      Invariant(Now(), live) && |streams| == MAX_STREAMS
    }

    constructor (ready: bool)
      ensures Valid() && blocks == [] && live == {} && this.ready == ready
    {
      blocks, bins, handles, active := [], seq(BINS, _ => []), seq(MAX_BUFFERS, _ => NONE), 0;
      pending, streams, live := seq(MAX_PENDING, _ => IDLE), seq(MAX_STREAMS, _ => false), {};
      this.ready := ready;
    }

    /** hipFree: only memory the driver has handed out may be given back, and only once. */
    ghost method DriverFree(p: nat)
      requires p in live
      modifies this`live
      ensures live == old(live) - {p}
    {
      live := live - {p};
    }

    /** A buffer of at least the given size from the smallest class that fits; 0 when the driver or the table has none left. */
    method Alloc(bytes: int, answer: nat) returns (handle: nat)
      requires Valid() && (answer == 0 || answer !in live)
      modifies this
      ensures Valid() && pending == old(pending) && streams == old(streams)
      ensures bytes <= 0 || bytes > MAX_BYTES || !ready ==> handle == 0 && Now() == old(Now()) && live == old(live)
      ensures 0 < bytes <= MAX_BYTES && ready ==> forall bin: nat, h: nat ::
        bin < BINS && SmallestFit(bytes, bin) && FirstUnused(old(handles), h) ==>
          && old(CanTake(Now(), bin)) && Now() == Allocated(old(Now()), bin, answer, h)
          && live == old(live) + ({old(MemoryFor(Now(), bin, answer))} - {0})
      ensures handle != 0 ==>
        && handle < MAX_BUFFERS && old(handles)[handle] == NONE && 0 <= handles[handle] < |blocks|
        && handles == old(handles)[handle := handles[handle]]
        && blocks[handles[handle]].inUse && blocks[handles[handle]].ptr in live && SmallestFit(bytes, blocks[handles[handle]].bin)
        && active == old(active) + blocks[handles[handle]].capacity
      ensures handle != 0 ==> forall g :: 1 <= g < handle ==> old(handles)[g] != NONE
      ensures handle == 0 ==> handles == old(handles) && active == old(active)
      ensures forall j :: 0 <= j < |old(blocks)| && old(blocks)[j].inUse ==> j < |blocks| && blocks[j] == old(blocks)[j]
      ensures handle == 0 <==>
        || bytes <= 0 || bytes > MAX_BYTES || !ready
        || (forall g :: 1 <= g < MAX_BUFFERS ==> old(handles)[g] != NONE)
        || (answer == 0 && forall bin :: 0 <= bin < BINS && SmallestFit(bytes, bin) ==> !old(HasMemory(Now(), bin)))
    {
      hide Invariant, Allocated, HasMemory, BinSize;
      if bytes <= 0 || bytes > MAX_BYTES || !ready {
        return 0;
      }
      LastBinIsLarge();
      var bin := SizeToBin(bytes);
      HasShape();
      var h := FreeHandle();
      OneFit(bytes, bin);
      OneUnused(handles, h);
      AllocatedMeans(Now(), live, bin, answer, h);
      if bins[bin] != [] {
        handle := FromBin(bin, answer, h);
      } else {
        handle := FromDriver(bin, answer, h);
      }
    }

    lemma HasShape()
      requires Valid()
      ensures Shaped(Now())
    {
    }

    /** The first unused handle, or MAX_BUFFERS. */
    method FreeHandle() returns (h: nat)
      requires Shaped(Now())
      ensures FirstUnused(handles, h)
    {
      h := 1;
      while h < MAX_BUFFERS && handles[h] != NONE
        invariant 1 <= h <= MAX_BUFFERS && forall g :: 1 <= g < h ==> handles[g] != NONE
      {
        h := h + 1;
      }
    }

    /** Take the first free block of the bin, with new device memory if it has none. */
    method FromBin(bin: nat, answer: nat, h: nat) returns (handle: nat)
      requires Valid() && bin < BINS && bins[bin] != [] && (answer == 0 || answer !in live) && FirstUnused(handles, h)
      modifies this`blocks, this`bins, this`handles, this`active, this`live
      ensures Valid() && old(CanTake(Now(), bin)) && Now() == Allocated(old(Now()), bin, answer, h)
      ensures var p := old(MemoryFor(Now(), bin, answer));
              && live == old(live) + ({p} - {0})
              && handle == if p == 0 || h == MAX_BUFFERS then 0 else h
    {
      hide BinSize, BinsExact, HandlesExact, CopiesExact, PointersExact;
      hide HasMemory;
      ghost var s, l := Now(), live;
      HeadIsFree(s, bin);
      var k := bins[bin][|bins[bin]| - 1];
      assert HasMemory(s, bin) <==> blocks[k].ptr != 0 by { HeadMemory(s, bin); }
      FreeBlockHasNoCopies(s, l, k);
      ghost var p := if blocks[k].ptr == 0 then answer else blocks[k].ptr;
      assert PointerLive(s, l, k) by { BlockPointerLive(s, l, k); }
      assert s.bins[bin][..|s.bins[bin]| - 1] + [k] == s.bins[bin];
      bins := bins[bin := bins[bin][..|bins[bin]| - 1]];
      blocks := blocks[k := blocks[k].(inUse := true, inFlight := 0)];
      if blocks[k].ptr == 0 {
        if answer == 0 {
          blocks := blocks[k := blocks[k].(inUse := false)];
          bins := bins[bin := bins[bin] + [k]];
          assert blocks == s.blocks && bins == s.bins;
          return 0;
        }
        blocks := blocks[k := blocks[k].(ptr := answer)];
        live := live + {answer};
      }
      assert live == l + {p};
      active := active + BinSize(bin);
      if h < MAX_BUFFERS {
        handles := handles[h := k];
        ReusedKeeps(s, l, bin, p, h);
        assert Now() == Reused(s, bin, p, h);
        return h;
      }
      blocks := blocks[k := blocks[k].(inUse := false)];
      bins := bins[bin := bins[bin] + [k]];
      active := active - BinSize(bin);
      ParkedKeeps(s, l, bin, p);
      assert bins == s.bins;
      assert Now() == Parked(s, bin, p);
      return 0;
    }

    /** A block that the driver must provide memory for. */
    method FromDriver(bin: nat, answer: nat, h: nat) returns (handle: nat)
      requires Valid() && bin < BINS && bins[bin] == [] && (answer == 0 || answer !in live) && FirstUnused(handles, h)
      modifies this`blocks, this`bins, this`handles, this`active, this`live
      ensures Valid() && old(CanTake(Now(), bin)) && Now() == Allocated(old(Now()), bin, answer, h)
      ensures var p := old(MemoryFor(Now(), bin, answer));
              && live == old(live) + ({p} - {0})
              && handle == if p == 0 || h == MAX_BUFFERS then 0 else h
    {
      hide BinSize, BinsExact, HandlesExact, CopiesExact, PointersExact;
      ghost var s, l := Now(), live;
      if answer == 0 {
        return 0;
      }
      live := live + {answer};
      var k := |blocks|;
      blocks := blocks + [Block(answer, BinSize(bin), bin, true, 0)];
      active := active + BinSize(bin);
      if h < MAX_BUFFERS {
        handles := handles[h := k];
        CreatedKeeps(s, l, bin, answer, h);
        assert Now() == Created(s, bin, answer, h);
        return h;
      }
      blocks := blocks[k := blocks[k].(inUse := false)];
      bins := bins[bin := bins[bin] + [k]];
      active := active - BinSize(bin);
      ParkedKeeps(s, l, bin, answer);
      assert s.bins[bin] + [k] == [k];
      assert blocks == s.blocks + [Block(answer, BinSize(bin), bin, false, 0)];
      assert Now() == Parked(s, bin, answer);
      return 0;
    }

    /** A buffer is freed exactly when it has a handle and no copy in flight; its memory goes back to the driver once. */
    method Free(handle: int) returns (ok: bool)
      requires Valid()
      modifies this
      ensures Valid() && pending == old(pending) && streams == old(streams)
      ensures ok <==> 0 < handle < MAX_BUFFERS && ready && old(handles)[handle] != NONE && old(blocks)[old(handles)[handle]].inFlight == 0
      ensures ok ==> Now() == Released(old(Now()), handle) && live == old(live) - {old(blocks)[old(handles)[handle]].ptr}
      ensures !ok ==> Now() == old(Now()) && live == old(live)
    {
      hide BinSize, BinsExact, CopiesExact;
      if handle <= 0 || handle >= MAX_BUFFERS || !ready {
        return false;
      }
      var k := handles[handle];
      if k == NONE || !blocks[k].inUse {
        return false;
      }
      if blocks[k].inFlight > 0 {
        return false;
      }
      ReleasedKeeps(Now(), live, handle);
      var ptr, bin := blocks[k].ptr, blocks[k].bin;
      handles := handles[handle := NONE];
      active := active - blocks[k].capacity;
      blocks := blocks[k := blocks[k].(inUse := false)];
      bins := bins[bin := bins[bin] + [k]];
      DriverFree(ptr);
      blocks := blocks[k := blocks[k].(ptr := 0)];
      assert Now() == Released(old(Now()), handle);
      return true;
    }

    /** Begin a copy on a stream: it takes the first idle slot and holds its block until the stream is done. */
    method CopyAsync(handle: int, bytes: int, stream: int, driverOk: bool) returns (ok: bool)
      requires Valid()
      modifies this`pending, this`blocks
      ensures Valid() && live == old(live) && streams == old(streams)
      ensures ok <==> ready && driverOk && old(CanCopy(Now(), streams, handle, bytes, stream))
      ensures ok ==> exists i ::
        0 <= i < MAX_PENDING && !old(pending)[i].active && Now() == Copying(old(Now()), i, old(handles)[handle], stream)
      ensures !ok ==> Now() == old(Now()) || exists i ::
        0 <= i < MAX_PENDING && !old(pending)[i].active && Now() == old(Now()).(pending := old(pending)[i := IDLE])
    {
      hide BinSize, BinsExact, CopiesExact, PointersExact;
      if handle <= 0 || handle >= MAX_BUFFERS || bytes <= 0 || !ready {
        return false;
      }
      if stream <= 0 || stream >= MAX_STREAMS || !streams[stream] {
        return false;
      }
      var k := handles[handle];
      if k == NONE || !blocks[k].inUse || bytes > blocks[k].capacity || blocks[k].ptr == 0 {
        return false;
      }
      var i := 0;
      while i < MAX_PENDING && pending[i].active
        invariant 0 <= i <= MAX_PENDING && forall j :: 0 <= j < i ==> pending[j].active
      {
        i := i + 1;
      }
      if i == MAX_PENDING {
        return false;
      }
      ghost var s := Now();
      CopyingKeeps(s, live, i, k, stream);
      pending := pending[i := Pending(true, k, stream)];
      blocks := blocks[k := blocks[k].(inFlight := blocks[k].inFlight + 1)];
      assert Now() == Copying(s, i, k, stream);
      if !driverOk {
        ClearedKeeps(Now(), live, i);
        ghost var c := Now();
        ClearSlot(i);
        assert blocks == s.blocks;
        return false;
      }
      return true;
    }

    /** Empty one slot and take the count of its block down. */
    method ClearSlot(i: nat)
      requires Valid() && i < MAX_PENDING && pending[i].active
      modifies this`pending, this`blocks
      ensures Valid() && Now() == Cleared(old(Now()), i)
    {
      hide BinSize, BinsExact, HandlesExact, CopiesExact, PointersExact;
      ClearedKeeps(Now(), live, i);
      ghost var s := Now();
      var k := pending[i].blk;
      if blocks[k].inFlight > 0 {
        blocks := blocks[k := blocks[k].(inFlight := blocks[k].inFlight - 1)];
      }
      pending := pending[i := IDLE];
      assert Now() == Cleared(s, i);
    }

    /** Release the slots of one stream, or of all streams when stream is 0. */
    method ClearStream(stream: nat)
      requires Valid()
      modifies this`pending, this`blocks
      ensures Valid()
      ensures forall i :: 0 <= i < MAX_PENDING ==>
        pending[i] == if old(pending)[i].active && (stream == 0 || old(pending)[i].stream == stream) then IDLE else old(pending)[i]
      ensures SameBlocks(old(blocks), blocks)
    {
      hide Invariant;
      HasShape();
      var i := 0;
      while i < MAX_PENDING
        invariant 0 <= i <= MAX_PENDING && Valid() && |pending| == MAX_PENDING && |old(pending)| == MAX_PENDING
        invariant forall j :: i <= j < MAX_PENDING ==> pending[j] == old(pending)[j]
        invariant forall j :: 0 <= j < i ==>
          pending[j] == if old(pending)[j].active && (stream == 0 || old(pending)[j].stream == stream) then IDLE else old(pending)[j]
        invariant SameBlocks(old(blocks), blocks)
      {
        if pending[i].active && (stream == 0 || pending[i].stream == stream) {
          SlotHasBlock(i);
          ClearSlot(i);
        }
        i := i + 1;
      }
    }

    lemma SlotHasBlock(i: nat)
      requires Valid() && i < |pending| && pending[i].active
      ensures pending[i].blk < |blocks|
    {
    }

    /** Wait for a stream: its copies are over, whatever the driver says. */
    method StreamSync(stream: int, driverOk: bool) returns (ok: bool)
      requires Valid()
      modifies this`pending, this`blocks
      ensures Valid() && SameBlocks(old(blocks), blocks)
      ensures ok <==> 0 < stream < MAX_STREAMS && ready && (streams[stream] ==> driverOk)
      ensures 0 < stream < MAX_STREAMS && ready ==> forall i :: 0 <= i < |pending| ==> !(pending[i].active && pending[i].stream == stream)
    {
      if stream <= 0 || stream >= MAX_STREAMS || !ready {
        return false;
      }
      ok := !streams[stream] || driverOk;
      ClearStream(stream);
    }

    method StreamDestroy(stream: int, syncOk: bool, destroyOk: bool) returns (ok: bool)
      requires Valid()
      modifies this`pending, this`blocks, this`streams
      ensures Valid() && SameBlocks(old(blocks), blocks)
      ensures ok <==> 0 < stream < MAX_STREAMS && ready && (old(streams)[stream] ==> syncOk && destroyOk)
      ensures ok ==> !streams[stream] && forall i :: 0 <= i < |pending| ==> !(pending[i].active && pending[i].stream == stream)
      ensures !ok ==> Now() == old(Now()) && streams == old(streams)
    {
      hide Invariant;
      if stream <= 0 || stream >= MAX_STREAMS || !ready {
        return false;
      }
      if streams[stream] && (!syncOk || !destroyOk) {
        return false;
      }
      HasShape();
      ClearStream(stream);
      HasShape();
      streams := streams[stream := false];
      return true;
    }

    method Sync()
      requires Valid()
      modifies this`pending, this`blocks
      ensures Valid() && SameBlocks(old(blocks), blocks)
      ensures ready ==> forall i :: 0 <= i < |pending| ==> !pending[i].active
    {
      if !ready {
        return;
      }
      ClearStream(0);
    }

    /** Give everything back, unless the driver fails or a buffer is in use: then no block changes but for its count. */
    method Purge(driverOk: bool) returns (purged: bool)
      requires Valid()
      modifies this
      ensures Valid() && streams == old(streams)
      ensures purged <==> ready && driverOk && forall k :: 0 <= k < |old(blocks)| ==> !old(blocks)[k].inUse
      ensures purged ==> blocks == [] && live == {} && active == 0
      ensures !purged ==> SameBlocks(old(blocks), blocks) && live == old(live) && handles == old(handles) && active == old(active)
    {
      hide BinSize, BinsExact, HandlesExact, PointersExact;
      if !ready || !driverOk {
        return false;
      }
      ClearStream(0);
      NothingInFlight(Now());
      var k := 0;
      while k < |blocks|
        invariant 0 <= k <= |blocks|
      {
        assert blocks[k].inFlight == 0;
        k := k + 1;
      }
      k := 0;
      while k < |blocks|
        invariant 0 <= k <= |blocks| && forall j :: 0 <= j < k ==> !blocks[j].inUse
      {
        if blocks[k].inUse {
          return false;
        }
        k := k + 1;
      }
      GiveBack();
      blocks, bins, handles, active := [], seq(BINS, _ => []), seq(MAX_BUFFERS, _ => NONE), 0;
      EmptyPool(Now());
      return true;
    }

    /** hipFree of every block's memory: each pointer once. */
    method GiveBack()
      requires PointersExact(Now(), live)
      modifies this`live
      ensures live == {}
    {
      var k := 0;
      while k < |blocks|
        invariant 0 <= k <= |blocks|
        invariant forall j :: k <= j < |blocks| && blocks[j].ptr != 0 ==> blocks[j].ptr in live
        invariant forall p :: p in live ==> exists j :: k <= j < |blocks| && blocks[j].ptr == p
        invariant live <= old(live)
      {
        if blocks[k].ptr != 0 {
          DriverFree(blocks[k].ptr);
        }
        k := k + 1;
      }
    }
  }

  /** The class that Alloc must choose. */
  predicate SmallestFit(bytes: int, bin: nat) {
    bytes <= BinSize(bin) && forall b :: 0 <= b < bin ==> BinSize(b) < bytes
  }

  lemma OneUnused(handles: seq<int>, h: nat)
    requires FirstUnused(handles, h) && |handles| == MAX_BUFFERS
    ensures forall g :: FirstUnused(handles, g) ==> g == h
  {
  }

  lemma OneFit(bytes: int, bin: nat)
    requires SmallestFit(bytes, bin)
    ensures forall b: nat :: SmallestFit(bytes, b) ==> b == bin
  {
  }

  /** The same blocks but for their counts. */
  predicate SameBlocks(a: seq<Block>, b: seq<Block>) {
    |a| == |b| && forall k :: 0 <= k < |a| ==> b[k] == a[k].(inFlight := b[k].inFlight)
  }

  ghost predicate PointerLive(s: State, live: set<nat>, k: nat)
    requires k < |s.blocks|
  {
    s.blocks[k].ptr != 0 ==> s.blocks[k].ptr in live
  }

  lemma BlockPointerLive(s: State, live: set<nat>, k: nat)
    requires PointersExact(s, live) && k < |s.blocks|
    ensures PointerLive(s, live, k)
  {
  }

  lemma NothingInFlight(s: State)
    requires CopiesExact(s) && forall i :: 0 <= i < |s.pending| ==> !s.pending[i].active
    ensures forall k :: 0 <= k < |s.blocks| ==> s.blocks[k].inFlight == 0
  {
    forall k | 0 <= k < |s.blocks| ensures s.blocks[k].inFlight == 0 {
      TotalZero(s.pending, OnBlock(k));
    }
  }

  lemma EmptyPool(s: State)
    requires |s.bins| == BINS && |s.handles| == MAX_BUFFERS && |s.pending| == MAX_PENDING && s.blocks == [] && s.active == 0
    requires (forall b :: 0 <= b < BINS ==> s.bins[b] == []) && (forall h :: 0 <= h < MAX_BUFFERS ==> s.handles[h] == NONE)
    requires forall i :: 0 <= i < MAX_PENDING ==> !s.pending[i].active
    ensures Invariant(s, {})
  {
  }
}
