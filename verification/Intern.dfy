/** String interning: an open-addressed slab for short strings, probed by triangular steps, and a global chain behind it. */
module Intern {
  import opened Bits
  import opened Hex
  import opened Probing

  type Bytes = seq<Byte>
  /** The characters of a slab entry, zero-terminated. */
  type Data = d: Bytes | |d| == 16 witness seq(16, _ => 0)

  const CAP := 16384
  const TABLE := 32768
  const BUCKETS := 4096

  /** Where an interned string lives. */
  datatype Addr = EmptyText | Ascii(c: Byte) | Entry(idx: nat) | Node(bucket: nat, pos: nat)

  /** The slab of this thread and the chain of all threads; a chain's newest node is last. */
  datatype State = State(tab: seq<nat>, entries: seq<Data>, count: nat, buckets: seq<seq<Bytes>>)

  ghost function Filled(tab: seq<nat>): set<nat> {
    set s: nat | s < |tab| && tab[s] != 0
  }

  ghost predicate Valid(st: State) {
    && |st.tab| == TABLE && |st.entries| == CAP && st.count <= CAP && |st.buckets| == BUCKETS
    && (forall s :: 0 <= s < TABLE ==> st.tab[s] <= st.count)
    && |Filled(st.tab)| == st.count
    && forall b :: 0 <= b < BUCKETS ==> Distinct(st.buckets[b])
  }

  predicate Distinct(b: seq<Bytes>) {
    forall i, j :: 0 <= i < j < |b| ==> b[i] != b[j]
  }

  // ----- hashing -----

  function Fnv(p: Bytes): (h: nat)
    ensures h < 0x1_0000_0000
  {
    if p == [] then 2166136261 else Xor(Fnv(p[..|p| - 1]), p[|p| - 1]) * 16777619 % 0x1_0000_0000
  }

  method Hash(p: Bytes) returns (h: nat)
    ensures h == Fnv(p)
  {
    hide Xor;
    h := 2166136261;
    var i := 0;
    while i < |p|
      invariant 0 <= i <= |p| && h == Fnv(p[..i])
    {
      assert p[..i + 1][..i] == p[..i];
      h := Xor(h, p[i]) * 16777619 % 0x1_0000_0000;
      i := i + 1;
    }
    assert p[..|p|] == p;
  }

  /** The published values of the 32-bit FNV-1a hash for the empty string and for "a". */
  lemma KnownHashes()
    ensures Fnv([]) == 0x811c9dc5 && Fnv([0x61]) == 0xe40c292c
  {
    HashStep([], 0x61);
    FirstXor();
    HashOfOne(Xor(Fnv([]), 0x61));
  }

  lemma HashStep(p: Bytes, b: Byte)
    ensures Fnv(p + [b]) == Xor(Fnv(p), b) * 16777619 % 0x1_0000_0000
  {
    hide Xor;
    assert (p + [b])[..|p|] == p;
  }

  lemma HashOfOne(x: nat)
    requires x == 2166136228
    ensures x * 16777619 % 0x1_0000_0000 == 0xe40c292c
  {
  }

  lemma FirstXor()
    ensures Xor(Fnv([]), 0x61) == 2166136228
  {
    hide Xor;
    XorNothing(16922939);
    XorStep(33845879, 1);
    XorStep(67691758, 3);
    XorStep(135383516, 6);
    XorStep(270767032, 12);
    XorStep(541534065, 24);
    XorStep(1083068130, 48);
    XorStep(2166136261, 97);
  }

  lemma XorNothing(a: nat)
    ensures Xor(a, 0) == a
  {
  }

  // ----- looking up -----

  /** The entry begins with p and is zero right after. */
  predicate Matches(e: Data, p: Bytes)
    requires |p| <= 15
  {
    e[|p|] == 0 && e[..|p|] == p
  }

  datatype Found = Hit(idx: nat) | Vacant(slot: nat) | Nowhere

  /** The first slot from probe k on that is empty or holds p. */
  function Find(tab: seq<nat>, es: seq<Data>, p: Bytes, h: nat, k: nat): (f: Found)
    requires |tab| == TABLE && |p| <= 15 && k <= TABLE && forall s :: 0 <= s < TABLE ==> tab[s] <= |es|
    ensures f.Hit? ==> f.idx < |es| && Matches(es[f.idx], p)
    ensures f.Vacant? ==> f.slot < TABLE && tab[f.slot] == 0
    decreases TABLE - k
  {
    if k == TABLE then Nowhere
    else
      var s := SlotOf(h, k, TABLE);
      if tab[s] == 0 then Vacant(s)
      else if Matches(es[tab[s] - 1], p) then Hit(tab[s] - 1)
      else Find(tab, es, p, h, k + 1)
  }

  lemma FindHere(tab: seq<nat>, es: seq<Data>, p: Bytes, h: nat, k: nat, s: nat)
    requires |tab| == TABLE && |p| <= 15 && k < TABLE && forall s :: 0 <= s < TABLE ==> tab[s] <= |es|
    requires s == SlotOf(h, k, TABLE)
    ensures Find(tab, es, p, h, k)
      == if tab[s] == 0 then Vacant(s) else if Matches(es[tab[s] - 1], p) then Hit(tab[s] - 1) else Find(tab, es, p, h, k + 1)
  {
  }

  /** The node among the first n of a chain that holds p. */
  function Chained(b: seq<Bytes>, p: Bytes, n: nat): (pos: Option<nat>)
    requires n <= |b|
    ensures pos.Some? ==> pos.value < n && b[pos.value] == p
    ensures pos.None? ==> forall i :: 0 <= i < n ==> b[i] != p
  {
    if n == 0 then None else if b[n - 1] == p then Some(n - 1) else Chained(b, p, n - 1)
  }

  function SlabFind(st: State, p: Bytes): (f: Found)
    requires |st.tab| == TABLE && |p| <= 15 && forall s :: 0 <= s < TABLE ==> st.tab[s] <= |st.entries|
  {
    Find(st.tab, st.entries, p, Fnv(p), 0)
  }

  /** The address of p, if p has been interned. */
  ghost function Lookup(st: State, p: Bytes): Option<Addr>
    requires Valid(st)
  {
    if |p| == 0 then Some(EmptyText)
    else if |p| == 1 then Some(Ascii(p[0]))
    else if |p| <= 15 && SlabFind(st, p).Hit? then Some(Entry(SlabFind(st, p).idx))
    else if |p| <= 15 && st.count < CAP then None
    else
      var b := Fnv(p) % BUCKETS;
      match Chained(st.buckets[b], p, |st.buckets[b]|)
      case Some(pos) => Some(Node(b, pos))
      case None => None
  }

  /** The first n characters at an address, if there are so many. */
  ghost function Text(st: State, a: Addr, n: nat): Option<Bytes> {
    match a
    case EmptyText => if n == 0 then Some([]) else None
    case Ascii(c) => if n <= 1 then Some([c][..n]) else None
    case Entry(idx) => if idx < |st.entries| && n <= 15 then Some(st.entries[idx][..n]) else None
    case Node(b, pos) =>
      if b < |st.buckets| && pos < |st.buckets[b]| && n <= |st.buckets[b][pos]| then Some(st.buckets[b][pos][..n]) else None
  }

  /** An address found for p holds exactly p. */
  lemma LookupText(st: State, p: Bytes)
    requires Valid(st) && Lookup(st, p).Some?
    ensures Text(st, Lookup(st, p).value, |p|) == Some(p)
  {
    assert p[..|p|] == p;
    if |p| == 1 {
      assert [p[0]][..1] == p;
    }
  }

  // ----- what interning may change -----

  /** t has everything s has: filled slots, entries in use and chain nodes are as they were. */
  ghost predicate Extends(s: State, t: State)
    requires Valid(s) && Valid(t)
  {
    && s.count <= t.count
    && (forall i :: 0 <= i < TABLE && s.tab[i] != 0 ==> t.tab[i] == s.tab[i])
    && (forall i :: 0 <= i < s.count ==> t.entries[i] == s.entries[i])
    && forall b :: 0 <= b < BUCKETS ==> s.buckets[b] <= t.buckets[b]
  }

  lemma ExtendsTransitive(s: State, t: State, u: State)
    requires Valid(s) && Valid(t) && Valid(u) && Extends(s, t) && Extends(t, u)
    ensures Extends(s, u)
  {
    forall b | 0 <= b < BUCKETS ensures s.buckets[b] <= u.buckets[b] {
      assert s.buckets[b] <= t.buckets[b] && t.buckets[b] <= u.buckets[b];
    }
  }

  lemma {:induction false} FindStable(s: State, t: State, p: Bytes, h: nat, k: nat)
    requires Valid(s) && Valid(t) && Extends(s, t) && |p| <= 15 && k <= TABLE
    requires Find(s.tab, s.entries, p, h, k).Hit?
    ensures Find(t.tab, t.entries, p, h, k) == Find(s.tab, s.entries, p, h, k)
    decreases TABLE - k
  {
    hide Fnv, SlotOf, Filled, Distinct;
    var slot := SlotOf(h, k, TABLE);
    assert t.tab[slot] == s.tab[slot];
    if !Matches(s.entries[s.tab[slot] - 1], p) {
      FindStable(s, t, p, h, k + 1);
    }
  }

  /** When the slab is full, no slot is filled any more. */
  lemma FullTable(s: State, t: State)
    requires Valid(s) && Valid(t) && Extends(s, t) && s.count == CAP
    ensures s.tab == t.tab && s.entries == t.entries
  {
    assert Filled(s.tab) <= Filled(t.tab);
    SameSize(Filled(s.tab), Filled(t.tab));
    forall i | 0 <= i < TABLE ensures s.tab[i] == t.tab[i] {
      assert i in Filled(s.tab) <==> i in Filled(t.tab);
    }
  }

  lemma SameSize(a: set<nat>, b: set<nat>)
    requires a <= b && |a| == |b|
    ensures a == b
  {
    assert b == a + (b - a);
    assert |b| == |a| + |b - a|;
  }

  lemma {:induction false} ChainedStable(b: seq<Bytes>, c: seq<Bytes>, p: Bytes)
    requires b <= c && Distinct(c) && Chained(b, p, |b|).Some?
    ensures Chained(c, p, |c|) == Chained(b, p, |b|)
  {
    var i := Chained(b, p, |b|).value;
    assert c[i] == p;
    assert Chained(c, p, |c|).Some?;
  }

  /** The same bytes have the same address for ever, whatever is interned in between, also after the slab is full,
      and the characters there never change. */
  lemma SameAddress(s: State, t: State, p: Bytes)
    requires Valid(s) && Valid(t) && Extends(s, t) && Lookup(s, p).Some?
    ensures Lookup(t, p) == Lookup(s, p)
    ensures Text(t, Lookup(s, p).value, |p|) == Some(p)
  {
    hide Fnv, Find, Filled, Distinct, Chained;
    if 2 <= |p| <= 15 && SlabFind(s, p).Hit? {
      FindStable(s, t, p, Fnv(p), 0);
    } else if |p| >= 2 {
      if |p| <= 15 {
        FullTable(s, t);
      }
      var b := Fnv(p) % BUCKETS;
      ChainedStable(s.buckets[b], t.buckets[b], p);
    }
    LookupText(t, p);
  }

  /** The bytes of s between two positions, both cut to the string. */
  function Slice(s: Bytes, start: int, end: int): (t: Bytes) {
    var lo, hi := if start < 0 then 0 else start, if end > |s| then |s| else end;
    if lo < hi then s[lo..hi] else []
  }

  // ----- adding -----

  /** The slab with p in the next entry, and that entry in an empty slot. */
  function Added(st: State, p: Bytes, slot: nat): (t: State)
    requires |p| <= 15 && slot < |st.tab| && st.count < |st.entries|
  {
    State(st.tab[slot := st.count + 1], st.entries[st.count := p + seq(16 - |p|, _ => 0)], st.count + 1, st.buckets)
  }

  lemma AddedExtends(st: State, p: Bytes, slot: nat)
    requires Valid(st) && |p| <= 15 && slot < TABLE && st.tab[slot] == 0 && st.count < CAP
    ensures Valid(Added(st, p, slot)) && Extends(st, Added(st, p, slot))
  {
    var t := Added(st, p, slot);
    assert Filled(t.tab) == Filled(st.tab) + {slot};
  }

  lemma {:induction false} AddedFinds(st: State, p: Bytes, slot: nat, h: nat, k: nat)
    requires Valid(st) && |p| <= 15 && k <= TABLE && st.count < CAP
    requires Find(st.tab, st.entries, p, h, k) == Vacant(slot)
    ensures Valid(Added(st, p, slot)) && Find(Added(st, p, slot).tab, Added(st, p, slot).entries, p, h, k) == Hit(st.count)
    decreases TABLE - k
  {
    hide Fnv, SlotOf, Filled, Distinct;
    AddedExtends(st, p, slot);
    var t, s := Added(st, p, slot), SlotOf(h, k, TABLE);
    if st.tab[s] == 0 {
      assert t.entries[st.count][..|p|] == p;
    } else {
      AddedFinds(st, p, slot, h, k + 1);
    }
  }

  /** The chain with one more node. */
  function Chain(st: State, b: nat, p: Bytes): (t: State)
    requires b < |st.buckets|
  {
    st.(buckets := st.buckets[b := st.buckets[b] + [p]])
  }

  lemma ChainExtends(st: State, b: nat, p: Bytes)
    requires Valid(st) && b < BUCKETS && Chained(st.buckets[b], p, |st.buckets[b]|).None?
    ensures Valid(Chain(st, b, p)) && Extends(st, Chain(st, b, p))
    ensures var c := Chain(st, b, p).buckets[b]; Chained(c, p, |c|) == Some(|c| - 1)
  {
  }

  class Interner {
    /** The slab of this thread. */
    const tab: array<nat>
    const entries: array<Data>
    var count: nat
    /** The chains that all threads share. */
    const buckets: array<seq<Bytes>>

    ghost function Now(): State
      reads this, tab, entries, buckets
    {
      State(tab[..], entries[..], count, buckets[..])
    }

    ghost predicate Good()
      reads this, tab, entries, buckets
    {
      Valid(Now())
    }

    constructor ()
      ensures Good() && fresh(tab) && fresh(entries) && fresh(buckets)
    {
      tab := new nat[TABLE](_ => 0);
      entries := new Data[CAP](_ => seq(16, _ => 0));
      buckets := new seq<Bytes>[BUCKETS](_ => []);
      count := 0;
      new;
      assert Filled(tab[..]) == {};
    }

    /** The probe loop has no counter; it ends because triangular steps reach every slot and half of the slots are empty. */
    method Probe(p: Bytes, h: nat) returns (f: Found)
      requires Good() && 2 <= |p| <= 15 && h == Fnv(p)
      ensures f == SlabFind(Now(), p) && !f.Nowhere?
    {
      hide Fnv, SlotOf, IsPowerOfTwo, Find;
      var slot, step := h % TABLE, 1;
      NextSlot(h, 0, TABLE);
      TableSize();
      while tab[slot] != 0
        invariant 1 <= step <= TABLE && slot == SlotOf(h, step - 1, TABLE)
        invariant forall i: nat :: i < step - 1 ==> SlotOf(h, i, TABLE) in Filled(tab[..])
        invariant Find(tab[..], entries[..], p, h, step - 1) == Find(tab[..], entries[..], p, h, 0)
        decreases TABLE - step
      {
        FindHere(tab[..], entries[..], p, h, step - 1, slot);
        var idx := tab[slot] - 1;
        if entries[idx][|p|] == 0 && entries[idx][..|p|] == p {
          return Hit(idx);
        }
        assert slot in Filled(tab[..]);
        ProbeEnds(h, step, TABLE, Filled(tab[..]));
        assert step < TABLE;
        slot := Onward(h, slot, step);
        step := step + 1;
      }
      FindHere(tab[..], entries[..], p, h, step - 1, slot);
      return Vacant(slot);
    }

    /** One more triangular step. */
    method Onward(h: nat, slot: nat, step: nat) returns (s: nat)
      requires step >= 1 && slot == SlotOf(h, step - 1, TABLE)
      ensures s == SlotOf(h, step, TABLE)
    {
      NextSlot(h, step - 1, TABLE);
      s := (slot + step) % TABLE;
    }

    lemma TableSize()
      ensures IsPowerOfTwo(TABLE)
    {
      PowerProduct(0x100, 0x80);
    }

    method FindNode(b: nat, p: Bytes) returns (pos: Option<nat>)
      requires Good() && b < BUCKETS
      ensures pos == Chained(buckets[b], p, |buckets[b]|)
    {
      var i := |buckets[b]|;
      while i > 0
        invariant 0 <= i <= |buckets[b]| && Chained(buckets[b], p, |buckets[b]|) == Chained(buckets[b], p, i)
      {
        i := i - 1;
        if buckets[b][i] == p {
          return Some(i);
        }
      }
      return None;
    }

    /** Until the lock is taken other threads may intern strings of their own: callers only know that chains grow. */
    method Lock()
      requires Good()
      modifies buckets
      ensures Good() && Extends(old(Now()), Now())
    {
    }

    /** Intern p: a string found keeps its address; otherwise it gets one, for good. */
    method InternBytes(p: Bytes) returns (a: Addr)
      requires Good()
      modifies this`count, tab, entries, buckets
      ensures Good()
      ensures Lookup(old(Now()), p).Some? ==> a == Lookup(old(Now()), p).value
      ensures Extends(old(Now()), Now()) && count <= old(count) + 1
      ensures Lookup(Now(), p) == Some(a)
    {
      hide Fnv, Find, Filled, Distinct, Chained;
      if |p| == 0 {
        return EmptyText;
      }
      if |p| == 1 {
        return Ascii(p[0]);
      }
      var h := Hash(p);
      if |p| <= 15 {
        var f := Probe(p, h);
        if f.Hit? {
          return Entry(f.idx);
        }
        if count < CAP {
          Add(p, f.slot);
          return Entry(count - 1);
        }
      }
      var b := h % BUCKETS;
      var pos := FindNode(b, p);
      if pos.Some? {
        return Node(b, pos.value);
      }
      ghost var before := Now();
      Lock();
      ghost var locked := Now();
      assert count == old(count);
      pos := FindNode(b, p);
      if pos.Some? {
        return Node(b, pos.value);
      }
      Push(b, p);
      ExtendsTransitive(before, locked, Now());
      return Node(b, |buckets[b]| - 1);
    }

    /** Short slices are interned; a slice above 1024 bytes is copied to the heap instead, and no address is returned. */
    method ByteSlice(s: Bytes, start: int, end: int) returns (a: Option<Addr>)
      requires Good()
      modifies this`count, tab, entries, buckets
      ensures Good() && Extends(old(Now()), Now())
      ensures a.Some? <==> |Slice(s, start, end)| <= 1024
      ensures a.Some? ==> Text(Now(), a.value, |Slice(s, start, end)|) == Some(Slice(s, start, end))
    {
      hide Fnv, Find, Filled, Distinct, Chained, Lookup;
      var lo, hi := if start < 0 then 0 else start, if end > |s| then |s| else end;
      if lo > hi || lo >= |s| {
        var e := InternBytes([]);
        LookupText(Now(), []);
        return Some(e);
      }
      if hi - lo <= 1024 {
        var i := InternBytes(s[lo..hi]);
        LookupText(Now(), s[lo..hi]);
        return Some(i);
      }
      return None;
    }

    method Add(p: Bytes, slot: nat)
      requires Good() && 2 <= |p| <= 15 && count < CAP && SlabFind(Now(), p) == Vacant(slot)
      modifies this`count, tab, entries
      ensures Good() && Now() == Added(old(Now()), p, slot) && Extends(old(Now()), Now())
      ensures SlabFind(Now(), p) == Hit(count - 1)
    {
      hide Fnv, Find, Filled, Distinct;
      AddedExtends(Now(), p, slot);
      AddedFinds(Now(), p, slot, Fnv(p), 0);
      var idx := count;
      count := count + 1;
      entries[idx] := p + seq(16 - |p|, _ => 0);
      tab[slot] := idx + 1;
      assert Now() == Added(old(Now()), p, slot);
    }

    method Push(b: nat, p: Bytes)
      requires Good() && b < BUCKETS && Chained(buckets[b], p, |buckets[b]|).None?
      modifies buckets
      ensures Good() && Now() == Chain(old(Now()), b, p) && Extends(old(Now()), Now())
      ensures Chained(buckets[b], p, |buckets[b]|) == Some(|buckets[b]| - 1)
    {
      hide Fnv, Find, Filled, Distinct;
      ChainExtends(Now(), b, p);
      buckets[b] := buckets[b] + [p];
      assert Now() == Chain(old(Now()), b, p);
    }
  }
}
