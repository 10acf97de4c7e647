/** Copy-on-write integer lists: buffers with reference counts, pushes and sets in place when the buffer is owned,
    and the ambient quota. */
module Lists {
  import opened Hex
  import opened Sums

  /** A payload block: its elements up to the capacity, the count in its header, and the arena flag. */
  datatype Buffer = Live(data: seq<int>, rc: nat, arena: bool) | Dead

  /** The value a program holds; buf is -1 for no data. */
  datatype Handle = Handle(buf: int, len: nat, cap: nat)

  const NULL := Handle(-1, 0, 0)

  /** The size guards of oo_list_hdr_ok. */
  const MAX_COUNT := 1000000
  const MAX_SIZE := 0x1000_0000

  /** Bytes charged for a block of cap elements of 8 bytes. */
  function BlockBytes(cap: nat): (n: nat) {
    if cap == 0 then 0 else 64 + 8 * cap
  }

  function Charge(b: Buffer): nat {
    if b.Live? && !b.arena then BlockBytes(|b.data|) else 0
  }

  ghost function Charged(bufs: seq<Buffer>): nat {
    Total(bufs, Charge)
  }

  /** The handles on a buffer. */
  ghost function Owners(hs: map<nat, Handle>, b: int): set<nat> {
    set id | id in hs && hs[id].buf == b
  }

  predicate FitsHandle(bufs: seq<Buffer>, h: Handle) {
    h == NULL || (0 <= h.buf < |bufs| && bufs[h.buf].Live? && h.cap == |bufs[h.buf].data| && h.len <= h.cap && h.cap > 0)
  }

  /** Every handle points to a live buffer, every count is the number of handles and of counts that were never given
      back (lost), and the quota is what is in use. */
  ghost predicate Sound(bufs: seq<Buffer>, hs: map<nat, Handle>, lost: seq<nat>, ambient: int) {
    && (forall id :: id in hs ==> FitsHandle(bufs, hs[id]))
    && |lost| == |bufs|
    && (forall b :: 0 <= b < |bufs| && bufs[b].Live? ==> bufs[b].rc == if bufs[b].arena then 1 else |Owners(hs, b)| + lost[b])
    && (forall b :: 0 <= b < |bufs| && bufs[b].Live? ==> bufs[b].rc > 0)
    && ambient == Charged(bufs)
  }

  /** The sequence seen through a handle. */
  function View(bufs: seq<Buffer>, h: Handle): (s: seq<int>)
    requires FitsHandle(bufs, h)
  {
    if h.buf == -1 then [] else bufs[h.buf].data[..h.len]
  }

  /** The whole buffer is ours to write: one count, no flag but the arena's. */
  predicate Owned(bufs: seq<Buffer>, h: Handle)
    requires FitsHandle(bufs, h)
  {
    h.buf != -1 && bufs[h.buf].rc == 1
  }

  /** Arena buffers do not count handles, so a longer handle on the same buffer can be overwritten. */
  predicate Overwritten(bufs: seq<Buffer>, pushed: Handle, h: Handle)
    requires FitsHandle(bufs, pushed)
  {
    pushed.buf != -1 && bufs[pushed.buf].arena && pushed.len < pushed.cap && h.buf == pushed.buf && h.len > pushed.len
  }

  predicate InArena(bufs: seq<Buffer>, h: Handle)
    requires FitsHandle(bufs, h)
  {
    h.buf != -1 && bufs[h.buf].arena
  }

  /** Such handles exist: two pushes onto the same arena list of one element, the second through the older handle. */
  lemma ArenaAliasing()
    ensures var bufs := [Live([7, 8], 1, true)];
            var short, long := Handle(0, 1, 2), Handle(0, 2, 2);
            && Sound(bufs, map[0 := short, 1 := long], [0], 0) && Overwritten(bufs, short, long)
            && View(bufs, long) == [7, 8] && View([Live([7, 9], 1, true)], long) == [7, 9]
  {
    var bufs := [Live([7, 8], 1, true)];
    assert bufs[1..] == [];
  }

  lemma OwnersAdd(hs: map<nat, Handle>, id: nat, h: Handle, b: int)
    requires id !in hs
    ensures |Owners(hs[id := h], b)| == |Owners(hs, b)| + if h.buf == b then 1 else 0
  {
    var o := Owners(hs[id := h], b);
    assert o == Owners(hs, b) + if h.buf == b then {id} else {};
  }

  lemma OwnersRemove(hs: map<nat, Handle>, id: nat, b: int)
    requires id in hs
    ensures |Owners(hs - {id}, b)| == |Owners(hs, b)| - if hs[id].buf == b then 1 else 0
  {
    var o := Owners(hs - {id}, b);
    assert o == Owners(hs, b) - if hs[id].buf == b then {id} else {};
  }

  lemma TwoOwners(hs: map<nat, Handle>, id: nat, other: nat, b: int)
    requires id in hs && other in hs && hs[id].buf == b && hs[other].buf == b && id != other
    ensures |Owners(hs, b)| >= 2
  {
    var o := Owners(hs, b);
    assert o == {id, other} + (o - {id, other});
  }

  /** A count of one means one handle. */
  lemma OnlyOwner(hs: map<nat, Handle>, id: nat, other: nat, b: int)
    requires id in hs && other in hs && hs[id].buf == b && hs[other].buf == b && |Owners(hs, b)| <= 1
    ensures other == id
  {
    if other != id {
      TwoOwners(hs, id, other, b);
    }
  }

  lemma OwnedAlone(bufs: seq<Buffer>, hs: map<nat, Handle>, lost: seq<nat>, ambient: int, id: nat, other: nat)
    requires Sound(bufs, hs, lost, ambient) && id in hs && other in hs && hs[id].buf == hs[other].buf
    requires Owned(bufs, hs[id]) && !bufs[hs[id].buf].arena
    ensures other == id
  {
    OnlyOwner(hs, id, other, hs[id].buf);
  }

  /** A buffer is written in place exactly when the arena has it or its only reference is this handle. */
  lemma OwnedMeans(bufs: seq<Buffer>, hs: map<nat, Handle>, lost: seq<nat>, ambient: int, id: nat)
    requires Sound(bufs, hs, lost, ambient) && id in hs && hs[id].buf != -1
    ensures var b := hs[id].buf; Owned(bufs, hs[id]) <==>
      bufs[b].arena || (lost[b] == 0 && forall k :: k in hs && hs[k].buf == b ==> k == id)
  {
    var b := hs[id].buf;
    assert id in Owners(hs, b);
    if !bufs[b].arena && bufs[b].rc == 1 {
      forall k | k in hs && hs[k].buf == b ensures k == id {
        OnlyOwner(hs, id, k, b);
      }
    } else if lost[b] == 0 && forall k :: k in hs && hs[k].buf == b ==> k == id {
      assert Owners(hs, b) == {id};
    }
  }

  // ----- what each change does to the whole -----

  /** A new buffer with one handle on it. */
  lemma AllocSound(bufs: seq<Buffer>, hs: map<nat, Handle>, lost: seq<nat>, ambient: int,
                   data: seq<int>, len: nat, arena: bool, id: nat)
    requires Sound(bufs, hs, lost, ambient) && id !in hs && len <= |data| && |data| > 0
    ensures var b := Live(data, 1, arena);
            Sound(bufs + [b], hs[id := Handle(|bufs|, len, |data|)], lost + [0], ambient + Charge(b))
  {
    var nb, h := Live(data, 1, arena), Handle(|bufs|, len, |data|);
    TotalAppend(bufs, Charge, nb);
    forall b | 0 <= b <= |bufs| ensures |Owners(hs[id := h], b)| == |Owners(hs, b)| + if b == |bufs| then 1 else 0 {
      OwnersAdd(hs, id, h, b);
    }
    assert Owners(hs, |bufs|) == {};
  }

  /** One element of an owned buffer written, and one more handle on it. */
  lemma WriteSound(bufs: seq<Buffer>, hs: map<nat, Handle>, lost: seq<nat>, ambient: int,
                   id: nat, nid: nat, k: nat, v: int, len: nat)
    requires Sound(bufs, hs, lost, ambient) && id in hs && nid !in hs && Owned(bufs, hs[id]) && k < hs[id].cap && len <= hs[id].cap
    ensures var l := hs[id]; var b := bufs[l.buf];
            Sound(bufs[l.buf := Live(b.data[k := v], if b.arena then 1 else 2, b.arena)],
                  hs[nid := Handle(l.buf, len, l.cap)], lost, ambient)
  {
    var l := hs[id];
    var b := bufs[l.buf];
    var nb, h := Live(b.data[k := v], if b.arena then 1 else 2, b.arena), Handle(l.buf, len, l.cap);
    TotalUpdate(bufs, Charge, l.buf, nb);
    forall c | 0 <= c < |bufs| ensures |Owners(hs[nid := h], c)| == |Owners(hs, c)| + if c == l.buf then 1 else 0 {
      OwnersAdd(hs, nid, h, c);
    }
  }

  lemma OwnersWithout(hs: map<nat, Handle>, id: nat, n: nat)
    requires id in hs
    ensures forall c :: 0 <= c < n ==> |Owners(hs - {id}, c)| == |Owners(hs, c)| - if hs[id].buf == c then 1 else 0
  {
    forall c | 0 <= c < n ensures |Owners(hs - {id}, c)| == |Owners(hs, c)| - if hs[id].buf == c then 1 else 0 {
      OwnersRemove(hs, id, c);
    }
  }

  /** A handle given up that does not count. */
  lemma ForgetSound(bufs: seq<Buffer>, hs: map<nat, Handle>, lost: seq<nat>, ambient: int, id: nat)
    requires Sound(bufs, hs, lost, ambient) && id in hs && (hs[id].buf == -1 || bufs[hs[id].buf].arena)
    ensures Sound(bufs, hs - {id}, lost, ambient)
  {
    hide Owners, Charged;
    OwnersWithout(hs, id, |bufs|);
  }

  /** A handle given up beyond the guard: its count stays. */
  lemma LoseSound(bufs: seq<Buffer>, hs: map<nat, Handle>, lost: seq<nat>, ambient: int, id: nat)
    requires Sound(bufs, hs, lost, ambient) && id in hs && hs[id].buf != -1 && !bufs[hs[id].buf].arena
    ensures Sound(bufs, hs - {id}, lost[hs[id].buf := lost[hs[id].buf] + 1], ambient)
  {
    hide Owners, Charged;
    OwnersWithout(hs, id, |bufs|);
  }

  /** One more handle on a buffer, counted unless it is the arena's. */
  lemma RetainSound(bufs: seq<Buffer>, hs: map<nat, Handle>, lost: seq<nat>, ambient: int, id: nat, nid: nat)
    requires Sound(bufs, hs, lost, ambient) && id in hs && nid !in hs && hs[id].buf != -1
    ensures var b := bufs[hs[id].buf];
            Sound(bufs[hs[id].buf := b.(rc := if b.arena then 1 else b.rc + 1)], hs[nid := hs[id]], lost, ambient)
  {
    hide Owners;
    var l := hs[id];
    var b := bufs[l.buf];
    TotalUpdate(bufs, Charge, l.buf, b.(rc := if b.arena then 1 else b.rc + 1));
    forall c | 0 <= c < |bufs| ensures |Owners(hs[nid := l], c)| == |Owners(hs, c)| + if c == l.buf then 1 else 0 {
      OwnersAdd(hs, nid, l, c);
    }
  }

  /** A handle given up while others remain. */
  lemma DropSound(bufs: seq<Buffer>, hs: map<nat, Handle>, lost: seq<nat>, ambient: int, id: nat)
    requires Sound(bufs, hs, lost, ambient) && id in hs && hs[id].buf != -1 && !bufs[hs[id].buf].arena && bufs[hs[id].buf].rc > 1
    ensures var b := bufs[hs[id].buf]; Sound(bufs[hs[id].buf := b.(rc := b.rc - 1)], hs - {id}, lost, ambient)
  {
    hide Owners;
    var l := hs[id];
    OwnersWithout(hs, id, |bufs|);
    TotalUpdate(bufs, Charge, l.buf, bufs[l.buf].(rc := bufs[l.buf].rc - 1));
  }

  /** The last handle given up: the buffer goes, and its bytes are no longer charged. */
  lemma LastSound(bufs: seq<Buffer>, hs: map<nat, Handle>, lost: seq<nat>, ambient: int, id: nat)
    requires Sound(bufs, hs, lost, ambient) && id in hs && hs[id].buf != -1 && !bufs[hs[id].buf].arena && bufs[hs[id].buf].rc == 1
    ensures Sound(bufs[hs[id].buf := Dead], hs - {id}, lost, ambient - BlockBytes(hs[id].cap))
  {
    hide Owners;
    var l := hs[id];
    OwnersWithout(hs, id, |bufs|);
    TotalUpdate(bufs, Charge, l.buf, Dead);
    forall other | other in hs - {id} ensures FitsHandle(bufs[l.buf := Dead], hs[other]) {
      if hs[other].buf == l.buf {
        OnlyOwner(hs, id, other, l.buf);
      }
    }
  }

  // ----- the program -----

  /** A release counts: there is a buffer, not the arena's, with count and size within the guards. */
  predicate Counts(bufs: seq<Buffer>, h: Handle)
    requires FitsHandle(bufs, h)
  {
    h.buf != -1 && !bufs[h.buf].arena && bufs[h.buf].rc <= MAX_COUNT && h.cap <= MAX_SIZE
  }

  function Zeros(n: nat): (s: seq<nat>)
    ensures |s| == n && forall i :: 0 <= i < n ==> s[i] == 0
  {
    seq(n, _ => 0)
  }

  /** The only handle on its buffer. */
  predicate Alone(bufs: seq<Buffer>, h: Handle) {
    FitsHandle(bufs, h) && (h.buf != -1 ==> bufs[h.buf].rc == 1)
  }

  lemma AllFit(bufs: seq<Buffer>, hs: map<nat, Handle>, lost: seq<nat>, ambient: int)
    requires Sound(bufs, hs, lost, ambient)
    ensures forall id :: id in hs ==> FitsHandle(bufs, hs[id])
  {
  }

  lemma Swapped(hs: map<nat, Handle>, id: nat, h: Handle, nid: nat, n: Handle)
    requires id !in hs && nid !in hs && id != nid
    ensures hs[id := h][nid := n] - {id} == hs[nid := n]
  {
  }

  lemma NullSound(bufs: seq<Buffer>, hs: map<nat, Handle>, lost: seq<nat>, ambient: int, id: nat)
    requires Sound(bufs, hs, lost, ambient) && id !in hs
    ensures Sound(bufs, hs[id := NULL], lost, ambient)
  {
    hide Charged;
    forall b | 0 <= b < |bufs| ensures |Owners(hs[id := NULL], b)| == |Owners(hs, b)| {
      OwnersAdd(hs, id, NULL, b);
    }
  }

  /** The elements of s from lo up to hi, both cut to s. */
  function Between(s: seq<int>, lo: int, hi: int): (t: seq<int>) {
    var i, j := if lo < 0 then 0 else lo, if hi > |s| then |s| else hi;
    if i < j then s[i..j] else []
  }

  function Part(s: seq<int>, lo: nat, hi: nat): (t: seq<int>)
    requires hi <= |s| || hi == lo
  {
    if lo < hi then s[lo..hi] else []
  }

  lemma NextSlice(s: seq<int>, lo: nat, i: nat)
    requires lo <= i < |s|
    ensures Part(s, lo, i + 1) == Part(s, lo, i) + [s[i]]
  {
  }

  lemma Seen(bufs: seq<Buffer>, h: Handle)
    requires FitsHandle(bufs, h)
    ensures |View(bufs, h)| == h.len && View(bufs, NULL) == []
    ensures forall i :: 0 <= i < h.len ==> h.buf >= 0 && View(bufs, h)[i] == bufs[h.buf].data[i]
  {
  }

  lemma PartIsBetween(s: seq<int>, lo: int, hi: int, i: nat)
    requires var start, end := if lo < 0 then 0 else lo, if hi > |s| then |s| else hi;
             start <= i && (i == end || (i == start && start >= end) || (s == [] && i == start))
    ensures Part(s, if lo < 0 then 0 else lo, i) == Between(s, lo, hi)
  {
  }

  lemma NoPart(s: seq<int>, lo: nat)
    ensures Part(s, lo, lo) == []
  {
  }

  /** c doubled until it is at least n. */
  function Doubled(c: nat, n: nat): (d: nat)
    requires c > 0
    ensures d >= n && d >= c
    decreases n - c
  {
    if c >= n then c else Doubled(2 * c, n)
  }

  function GrownCap(l: Handle): (c: nat)
    ensures c > l.len
  {
    Doubled(if l.cap != 0 then l.cap else 8, l.len + 1)
  }

  const UINT32_MAX := 0xffff_ffff
  const LLONG_MAX := 0x7fff_ffff_ffff_ffff
  const MAX_RAISE := 0x4000_0000

  class Heap {
    var bufs: seq<Buffer>
    var ambient: int
    var quota: int
    /** The handles that the program holds; each owns one count. */
    ghost var handles: map<nat, Handle>
    /** For each buffer the counts whose handles were given up beyond the guard. */
    ghost var lost: seq<nat>

    ghost predicate Valid()
      reads this
    {
      Sound(bufs, handles, lost, ambient)
    }

    predicate WithinQuota()
      reads this
    {
      ambient <= quota
    }

    ghost function ViewOf(id: nat): seq<int>
      requires Valid() && id in handles
      reads this
    {
      View(bufs, handles[id])
    }

    constructor (quota: int)
      requires quota >= 0
      ensures Valid() && handles == map[] && lost == [] && ambient == 0 && this.quota == quota && WithinQuota()
    {
      bufs, ambient, handles, lost := [], 0, map[], [];
      this.quota := quota;
    }

    /** Raise the quota, up to the largest number there is; a raise that is negative or too large is none. */
    method AllocBytes(n: int) returns (granted: int)
      requires 0 <= quota <= LLONG_MAX
      modifies this`quota
      ensures 0 <= quota <= LLONG_MAX && (old(WithinQuota()) ==> WithinQuota())
      ensures granted == (if 0 <= n <= MAX_RAISE then n else 0)
      ensures quota == if old(quota) + granted <= LLONG_MAX then old(quota) + granted else LLONG_MAX
    {
      granted := if n < 0 || n > MAX_RAISE then 0 else n;
      if granted > LLONG_MAX - quota {
        quota := LLONG_MAX;
      } else {
        quota := quota + granted;
      }
    }

    /** Lower it again, unless that is more than the whole; what is allocated stays, so the quota may be exceeded. */
    method FreeBytes(p: int)
      requires 0 <= quota <= LLONG_MAX
      modifies this`quota
      ensures 0 <= quota <= LLONG_MAX && old(quota) - quota == if 0 <= p <= old(quota) then p else 0
      ensures WithinQuota() <==> ambient <= old(quota) - if 0 <= p <= old(quota) then p else 0
    {
      if 0 <= p <= quota {
        quota := quota - p;
      }
    }

    /** A fresh buffer holding data, in the active arena if that has room, else charged to the quota; no result when the
        quota is exceeded, and the process ends. */
    method Alloc(data: seq<int>, len: nat, arena: bool, ghost id: nat) returns (h: Option<Handle>)
      requires Valid() && id !in handles && 0 < |data| && len <= |data|
      modifies this`bufs, this`ambient, this`handles, this`lost
      ensures Valid() && (old(WithinQuota()) ==> WithinQuota())
      ensures |bufs| >= |old(bufs)| && lost == old(lost) + Zeros(|bufs| - |old(bufs)|)
      ensures h.None? <==> !arena && old(ambient) + BlockBytes(|data|) > quota
      ensures h.None? ==> bufs == old(bufs) && handles == old(handles) && ambient == old(ambient)
      ensures h.Some? ==> h.value == Handle(|old(bufs)|, len, |data|) && handles == old(handles)[id := h.value]
                          && bufs == old(bufs) + [Live(data, 1, arena)]
    {
      hide Sound;
      if !arena && ambient + BlockBytes(|data|) > quota {
        return None;
      }
      AllocSound(bufs, handles, lost, ambient, data, len, arena, id);
      h := Some(Handle(|bufs|, len, |data|));
      if !arena {
        ambient := ambient + BlockBytes(|data|);
      }
      handles := handles[id := Handle(|bufs|, len, |data|)];
      bufs := bufs + [Live(data, 1, arena)];
      lost := lost + [0];
    }

    /** One more handle on the same list. Its count is missing, and the heap no longer sound, exactly when the count of a
        buffer outside the arena is at its limit. */
    method Retain(l: Handle, ghost id: nat, ghost nid: nat)
      requires Valid() && id in handles && handles[id] == l && nid !in handles
      modifies this`bufs, this`handles
      ensures handles == old(handles)[nid := l] && |bufs| == |old(bufs)|
      ensures forall k :: k in handles ==> FitsHandle(bufs, handles[k]) && View(bufs, handles[k]) == View(old(bufs), handles[k])
      ensures Valid() <==> l.buf == -1 || old(bufs[l.buf]).arena || old(bufs[l.buf]).rc < UINT32_MAX
    {
      hide Owners, Charged;
      if l.buf == -1 {
        NullSound(bufs, handles, lost, ambient, nid);
      } else {
        RetainSound(bufs, handles, lost, ambient, id, nid);
        if !bufs[l.buf].arena && bufs[l.buf].rc < UINT32_MAX {
          bufs := bufs[l.buf := bufs[l.buf].(rc := bufs[l.buf].rc + 1)];
        } else {
          assert bufs[l.buf].arena ==> bufs[l.buf := bufs[l.buf].(rc := 1)] == bufs;
        }
      }
      handles := handles[nid := l];
    }

    /** Give a handle up: the last one frees the buffer. Beyond the guard the count stays, and is lost. */
    method Release(l: Handle, ghost id: nat)
      requires Valid() && id in handles && handles[id] == l
      modifies this`bufs, this`ambient, this`handles, this`lost
      ensures Valid() && (old(WithinQuota()) ==> WithinQuota()) && handles == old(handles) - {id} && |bufs| == |old(bufs)|
      ensures forall k :: k in handles ==> View(bufs, handles[k]) == old(ViewOf(k))
      ensures forall b :: 0 <= b < |bufs| && b != l.buf ==> bufs[b] == old(bufs[b])
      ensures l.buf != -1 ==> old(bufs[l.buf]).Live?
      ensures l.buf != -1 ==>
        bufs[l.buf] == var b := old(bufs[l.buf]); if !old(Counts(bufs, l)) then b else if b.rc == 1 then Dead else b.(rc := b.rc - 1)
      ensures lost == if l.buf == -1 || old(bufs[l.buf].arena || Counts(bufs, l)) then old(lost) else old(lost[l.buf := lost[l.buf] + 1])
    {
      hide Owners, Charged;
      if l.buf == -1 || bufs[l.buf].arena {
        ForgetSound(bufs, handles, lost, ambient, id);
      } else if bufs[l.buf].rc > MAX_COUNT || l.cap > MAX_SIZE {
        LoseSound(bufs, handles, lost, ambient, id);
        lost := lost[l.buf := lost[l.buf] + 1];
      } else if bufs[l.buf].rc == 1 {
        LastSound(bufs, handles, lost, ambient, id);
        ambient := ambient - BlockBytes(l.cap);
        bufs := bufs[l.buf := Dead];
      } else {
        DropSound(bufs, handles, lost, ambient, id);
        bufs := bufs[l.buf := bufs[l.buf].(rc := bufs[l.buf].rc - 1)];
      }
      handles := handles - {id};
    }

    /** Write one element of an owned buffer and return one more handle, of length len. */
    method WriteOwned(l: Handle, ghost id: nat, k: nat, v: int, len: nat, ghost nid: nat) returns (n: Handle)
      requires Valid() && id in handles && handles[id] == l && nid !in handles && Owned(bufs, l) && k < l.cap && len <= l.cap
      modifies this`bufs, this`handles
      ensures Valid() && n == Handle(l.buf, len, l.cap) && handles == old(handles)[nid := n]
      ensures var b := old(bufs[l.buf]); bufs == old(bufs)[l.buf := Live(b.data[k := v], if b.arena then 1 else 2, b.arena)]
    {
      hide Owners, Charged;
      var b := bufs[l.buf];
      WriteSound(bufs, handles, lost, ambient, id, nid, k, v, len);
      bufs := bufs[l.buf := Live(b.data[k := v], if b.arena then 1 else 2, b.arena)];
      n := Handle(l.buf, len, l.cap);
      handles := handles[nid := n];
    }

    /** The capacity of a grown copy: doubled until one more element fits. */
    method Grown(l: Handle) returns (ncap: nat)
      requires l.len <= l.cap
      ensures ncap == GrownCap(l) > l.len && ncap >= l.cap && (ncap == l.cap || ncap <= 2 * l.len + 8)
    {
      ncap := if l.cap != 0 then l.cap else 8;
      while ncap < l.len + 1
        invariant ncap > 0 && ncap >= l.cap && (ncap == l.cap || ncap <= 2 * l.len + 8)
        invariant Doubled(ncap, l.len + 1) == GrownCap(l)
        decreases l.len + 1 - ncap
      {
        ncap := 2 * ncap;
      }
    }

    /** A new buffer of cap elements would exceed the quota, and no arena takes it. */
    predicate TooMuch(cap: nat, arena: bool)
      reads this
    {
      !arena && ambient + BlockBytes(cap) > quota
    }

    /** Append in place or to a copy: the result shows one element more, and no other view changes, but for longer
        handles on the same arena buffer. */
    method Push(l: Handle, ghost id: nat, v: int, arena: bool, ghost nid: nat) returns (n: Option<Handle>)
      requires Valid() && id in handles && handles[id] == l && nid !in handles
      modifies this`bufs, this`ambient, this`handles, this`lost
      ensures Valid() && (n.None? ==> bufs == old(bufs) && handles == old(handles) && ambient == old(ambient))
      ensures (old(WithinQuota()) ==> WithinQuota()) && |bufs| >= |old(bufs)| && lost == old(lost) + Zeros(|bufs| - |old(bufs)|)
      ensures n.None? <==> old(!(l.buf != -1 && l.len < l.cap && Owned(bufs, l)) && TooMuch(GrownCap(l), arena))
      ensures n.Some? ==> handles == old(handles)[nid := n.value] && ViewOf(nid) == old(ViewOf(id)) + [v]
      ensures n.Some? ==> n.value.cap == l.cap || n.value.cap <= 2 * l.len + 8
      ensures n.Some? ==> bufs[n.value.buf].Live? && bufs[n.value.buf].rc == if n.value.buf == l.buf && !bufs[n.value.buf].arena then 2 else 1
      ensures n.Some? ==> n.value.buf == if l.buf != -1 && l.len < l.cap && old(Owned(bufs, l)) then l.buf else |old(bufs)|
      ensures |old(bufs)| <= |bufs| && forall b :: 0 <= b < |old(bufs)| && b != l.buf ==> bufs[b] == old(bufs[b])
      ensures n.Some? && 0 <= l.buf < |old(bufs)| && n.value.buf != l.buf ==> bufs[l.buf] == old(bufs[l.buf])
      ensures forall k :: k in old(handles) && !old(Overwritten(bufs, l, handles[k])) ==>
                            FitsHandle(bufs, old(handles)[k]) && View(bufs, old(handles)[k]) == old(ViewOf(k))
      ensures forall k :: k in old(handles) && old(Overwritten(bufs, l, handles[k])) ==>
                            FitsHandle(bufs, old(handles)[k]) && (n.Some? ==> View(bufs, old(handles)[k]) == old(ViewOf(k))[l.len := v])
    {
      hide Owners, Charged;
      if l.buf != -1 && l.len < l.cap && Owned(bufs, l) {
        forall k | k in handles && handles[k].buf == l.buf && !bufs[l.buf].arena ensures k == id {
          OwnedAlone(bufs, handles, lost, ambient, id, k);
        }
        var h := WriteOwned(l, id, l.len, v, l.len + 1, nid);
        return Some(h);
      }
      var ncap := Grown(l);
      var data := Contents(l) + [v] + seq(ncap - l.len - 1, _ => 0);
      n := Alloc(data, l.len + 1, arena, nid);
      assert n.Some? ==> data[..l.len + 1] == View(old(bufs), l) + [v];
    }

    /** memcpy of the elements in use. */
    function Contents(l: Handle): (s: seq<int>)
      requires FitsHandle(bufs, l)
      reads this
      ensures |s| == l.len && s == View(bufs, l)
    {
      View(bufs, l)
    }

    /** Replace element i, in place when the buffer is owned; an index out of range ends the process. */
    method SetAt(l: Handle, ghost id: nat, i: int, v: int, arena: bool, ghost nid: nat) returns (n: Option<Handle>)
      requires Valid() && id in handles && handles[id] == l && nid !in handles
      modifies this`bufs, this`ambient, this`handles, this`lost
      ensures Valid() && (n.None? ==> bufs == old(bufs) && handles == old(handles) && ambient == old(ambient))
      ensures (old(WithinQuota()) ==> WithinQuota()) && |bufs| >= |old(bufs)| && lost == old(lost) + Zeros(|bufs| - |old(bufs)|)
      ensures n.None? <==> !(0 <= i < l.len) || old(!(l.buf != -1 && Owned(bufs, l)) && TooMuch(if l.cap != 0 then l.cap else l.len, arena))
      ensures n.Some? ==> handles == old(handles)[nid := n.value] && ViewOf(nid) == old(ViewOf(id))[i := v]
      ensures forall k :: k in old(handles) ==> FitsHandle(bufs, old(handles)[k])
      ensures n.Some? ==> View(bufs, old(handles)[id]) == if old(l.buf != -1 && Owned(bufs, l)) then old(ViewOf(id))[i := v] else old(ViewOf(id))
      ensures forall k :: k in old(handles) && k != id && !(old(InArena(bufs, l)) && old(handles)[k].buf == l.buf) ==>
                            View(bufs, old(handles)[k]) == old(ViewOf(k))
    {
      hide Owners, Charged;
      if i < 0 || i >= l.len {
        return None;
      }
      if l.buf != -1 && Owned(bufs, l) {
        forall k | k in handles && handles[k].buf == l.buf && !bufs[l.buf].arena ensures k == id {
          OwnedAlone(bufs, handles, lost, ambient, id, k);
        }
        var h := WriteOwned(l, id, i, v, l.len, nid);
        return Some(h);
      }
      var ncap := if l.cap != 0 then l.cap else l.len;
      var data := Contents(l)[i := v] + seq(ncap - l.len, _ => 0);
      n := Alloc(data, l.len, arena, nid);
      assert n.Some? ==> data[..l.len] == View(old(bufs), l)[i := v];
    }

    method Get(l: Handle, ghost id: nat, i: int) returns (v: Option<int>)
      requires Valid() && id in handles && handles[id] == l
      ensures v == if 0 <= i < l.len then Some(ViewOf(id)[i]) else None
    {
      if i < 0 || i >= l.len {
        return None;
      }
      return Some(bufs[l.buf].data[i]);
    }

    method Equal(a: Handle, ghost ia: nat, b: Handle, ghost ib: nat) returns (same: bool)
      requires Valid() && ia in handles && handles[ia] == a && ib in handles && handles[ib] == b
      ensures same <==> ViewOf(ia) == ViewOf(ib)
    {
      if a.len != b.len {
        return false;
      }
      if a.buf == b.buf {
        return true;
      }
      var i := 0;
      while i < a.len
        invariant 0 <= i <= a.len && (a.len > 0 ==> a.buf >= 0 && b.buf >= 0)
        invariant forall k :: 0 <= k < i ==> bufs[a.buf].data[k] == bufs[b.buf].data[k]
      {
        if bufs[a.buf].data[i] != bufs[b.buf].data[i] {
          assert ViewOf(ia)[i] != ViewOf(ib)[i];
          return false;
        }
        i := i + 1;
      }
      assert ViewOf(ia) == ViewOf(ib);
      return true;
    }

    /** o = push(o, v) and release of the old o: what a slice does for each element. */
    method PushRelease(o: Handle, ghost id: nat, v: int, arena: bool, ghost nid: nat) returns (n: Option<Handle>)
      requires Valid() && id in handles && handles[id] == o && nid !in handles
      modifies this`bufs, this`ambient, this`handles, this`lost
      ensures Valid()
      ensures |old(bufs)| <= |bufs| && forall b :: 0 <= b < |old(bufs)| && b != o.buf ==> bufs[b] == old(bufs[b])
      ensures n.None? <==> old(!(o.buf != -1 && o.len < o.cap && Owned(bufs, o)) && TooMuch(GrownCap(o), arena))
      ensures n.Some? ==> handles == old(handles)[nid := n.value] - {id}
      ensures n.Some? ==> FitsHandle(bufs, n.value) && View(bufs, n.value) == View(old(bufs), o) + [v]
      ensures n.Some? && old(Alone(bufs, o)) && o.cap <= MAX_SIZE ==>
        Alone(bufs, n.value) && lost == old(lost) + Zeros(|bufs| - |old(bufs)|)
      ensures n.Some? ==> n.value.len == o.len + 1 && (n.value.cap <= o.cap || n.value.cap <= 2 * o.len + 8)
      ensures n.Some? ==> n.value.buf == o.buf >= 0 || n.value.buf >= |old(bufs)|
    {
      hide Owners, Charged;
      n := Push(o, id, v, arena, nid);
      if n.Some? {
        Release(o, id);
      }
    }

    /** The elements from lo up to hi, both cut to the list, pushed one by one onto a new list. */
    method Slice(l: Handle, ghost id: nat, lo: int, hi: int, arena: bool, ghost a: nat, ghost b: nat)
      returns (o: Option<Handle>, ghost oid: nat)
      requires Valid() && id in handles && handles[id] == l && a !in handles && b !in handles && a != b
      modifies this`bufs, this`ambient, this`handles, this`lost
      ensures Valid() && oid in {a, b} && (arena ==> o.Some?)
      ensures o.Some? ==> handles == old(handles)[oid := o.value] && FitsHandle(bufs, o.value)
      ensures o.Some? ==> View(bufs, o.value) == Between(old(View(bufs, l)), lo, hi)
      ensures o.Some? ==> |old(bufs)| <= |bufs| && forall c :: 0 <= c < |old(bufs)| ==> bufs[c] == old(bufs[c])
      ensures o.Some? && 2 * l.len + 8 <= MAX_SIZE ==> Alone(bufs, o.value) && lost == old(lost) + Zeros(|bufs| - |old(bufs)|)
    {
      hide Sound, Part, View, Zeros, GrownCap, Between;
      assert FitsHandle(bufs, l) by { AllFit(bufs, handles, lost, ambient); }
      var start, end := if lo < 0 then 0 else lo, if hi > l.len then l.len else hi;
      var i, cur := start, NULL;
      ghost var s, spare := View(bufs, l), b;
      Seen(bufs, l);
      NoPart(s, start);
      oid := a;
      NullSound(bufs, handles, lost, ambient, a);
      handles := handles[a := NULL];
      while i < end && l.buf != -1
        invariant Valid() && ((oid == a && spare == b) || (oid == b && spare == a)) && handles == old(handles)[oid := cur]
        invariant start <= i && (i <= end || i == start) && cur.len == i - start
        invariant FitsHandle(bufs, cur) && cur.cap <= 2 * l.len + 8
        invariant cur.buf == -1 || cur.buf >= |old(bufs)|
        invariant |old(bufs)| <= |bufs| && forall c :: 0 <= c < |old(bufs)| ==> bufs[c] == old(bufs[c])
        invariant 2 * l.len + 8 <= MAX_SIZE ==> Alone(bufs, cur) && lost == old(lost) + Zeros(|bufs| - |old(bufs)|)
        invariant View(bufs, cur) == Part(s, start, i)
      {
        assert bufs[l.buf].data[i] == s[i];
        var n := PushRelease(cur, oid, bufs[l.buf].data[i], arena, spare);
        if n.None? {
          return None, oid;
        }
        Swapped(old(handles), oid, cur, spare, n.value);
        NextSlice(s, start, i);
        oid, spare := spare, oid;
        cur := n.value;
        i := i + 1;
      }
      PartIsBetween(s, lo, hi, i);
      return Some(cur), oid;
    }
  }
}
