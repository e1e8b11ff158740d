/** mm/slab.c on values: slab headers in their pages, the two lists of a cache, and the invariant they keep. */
module SlabSpec {
  import opened Common
  import opened Bits
  import Pmm

  const HEADER_SIZE: nat := 56
  const SLAB_MAX_OBJS: nat := 256

  /** A slab header; `next` is the page number of the next slab in the list, 0 for NULL. */
  datatype Header = Header(objSize: nat, total: nat, freeObjs: nat, bits: seq<nat>, next: nat)

  /** The widths of a header's fields: magic number, object size, both counts, bitmap and link. */
  const HEADER_FIELDS: seq<nat> := [4, 4, 4, 4, 8 * 4, 8]

  lemma HeaderIs()
    ensures |HEADER_FIELDS| == 6 && OffsetOf(HEADER_FIELDS, 6) == HEADER_SIZE && HEADER_FIELDS[4] * 8 == SLAB_MAX_OBJS
  {
    assert OffsetOf(HEADER_FIELDS, 2) == 8;
    assert OffsetOf(HEADER_FIELDS, 4) == 16;
  }

  /** The slab pages: page number to the header at the start of the page. */
  type Slabs = map<nat, Header>

  datatype Cache = Cache(objSize: nat, partial: nat, full: nat, allocs: nat, frees: nat, slabs: nat)

  function Capacity(size: nat): nat
    requires 0 < size
  {
    var n := (PAGE_SIZE - HEADER_SIZE) / size;
    if n > SLAB_MAX_OBJS then SLAB_MAX_OBJS else n
  }

  /** The set bits below n. */
  ghost function SetBits(bits: seq<nat>, n: nat): set<int>
    requires n <= 64 * |bits|
  {
    set i {:trigger TestBit(bits, 64, i)} | 0 <= i < n && TestBit(bits, 64, i)
  }

  /** The slots handed out. */
  ghost function Taken(h: Header): set<int> {
    if h.total <= 64 * |h.bits| then SetBits(h.bits, h.total) else {}
  }

  /** A header whose free count is the number of clear bits below `total_objs`. */
  ghost predicate HeaderOk(h: Header, size: nat, cap: nat) {
    && h.objSize == size
    && h.total == cap <= SLAB_MAX_OBJS
    && |h.bits| == SLAB_MAX_OBJS / 64
    && h.freeObjs + |Taken(h)| == h.total
  }

  // ---- Lists threaded through the headers ----

  ghost predicate Distinct(s: seq<nat>) {
    forall i, j | 0 <= i < j < |s| :: s[i] != s[j]
  }

  function At(s: seq<nat>, i: nat): nat {
    if i < |s| then s[i] else 0
  }

  /** `head` starts a list through exactly the pages s, in that order, ending in NULL. */
  ghost predicate Chain(m: Slabs, head: nat, s: seq<nat>) {
    && head == At(s, 0)
    && forall i {:trigger s[i]} | 0 <= i < |s| :: s[i] != 0 && s[i] in m && m[s[i]].next == At(s, i + 1)
  }

  lemma EmptyChain(m: Slabs, head: nat, s: seq<nat>)
    requires Chain(m, head, s)
    ensures head == 0 <==> s == []
  {}

  /** A list does not notice changes to headers of pages not in it. */
  lemma ChainFrame(m: Slabs, m': Slabs, head: nat, s: seq<nat>)
    requires Chain(m, head, s)
    requires forall a | a in s :: a in m' && m'[a].next == m[a].next
    ensures Chain(m', head, s)
  {}

  /** Dropping the first page. */
  lemma ChainTail(m: Slabs, head: nat, s: seq<nat>)
    requires Chain(m, head, s) && s != []
    ensures Chain(m, m[head].next, s[1..])
  {
    assert forall i | 0 <= i < |s[1..]| :: s[1..][i] == s[i + 1];
  }

  /** Taking page k > 0 out by redirecting its predecessor. */
  lemma ChainUnlink(m: Slabs, m': Slabs, head: nat, s: seq<nat>, k: nat)
    requires Chain(m, head, s) && Distinct(s) && 0 < k < |s|
    requires m' == m[s[k - 1] := m[s[k - 1]].(next := m[s[k]].next)]
    ensures Chain(m', head, Without(s, k))
  {
    hide Without, At;
    var t := Without(s, k);
    AtWithout(s, k, 0);
    forall i {:trigger t[i]} | 0 <= i < |t|
      ensures t[i] != 0 && t[i] in m' && m'[t[i]].next == At(t, i + 1)
    {
      AtWithout(s, k, i);
      AtWithout(s, k, i + 1);
      var j := if i < k then i else i + 1;
      AtIs(t, i);
      AtIs(s, j);
      if i == k - 1 {
        assert m[s[k]].next == At(s, k + 1);
      } else {
        assert s[j] != s[k - 1];
      }
    }
  }

  lemma AtWithout(s: seq<nat>, k: nat, i: nat)
    requires k < |s|
    ensures |Without(s, k)| == |s| - 1 && At(Without(s, k), i) == At(s, if i < k then i else i + 1)
  {}

  lemma AtIs(s: seq<nat>, i: nat)
    requires i < |s|
    ensures At(s, i) == s[i]
  {}

  /** Putting a page in front. */
  lemma ChainPush(m: Slabs, m': Slabs, head: nat, s: seq<nat>, a: nat)
    requires Chain(m, head, s) && a !in s && a != 0
    requires a in m' && m'[a].next == head
    requires forall b | b in s :: b in m' && m'[b].next == m[b].next
    ensures Chain(m', a, [a] + s)
  {
    var t := [a] + s;
    assert forall i | 0 < i < |t| :: t[i] == s[i - 1];
  }

  // ---- Counting slots ----

  lemma AllSet(bits: seq<nat>, n: nat)
    requires n <= 64 * |bits|
    ensures |SetBits(bits, n)| <= n
    ensures |SetBits(bits, n)| == n <==> forall i | 0 <= i < n :: TestBit(bits, 64, i)
  {
    Pmm.SpanWidth(0, n, n);
    var all, taken := Pmm.Span(0, n, n), SetBits(bits, n);
    assert forall i | i in taken :: i in all;
    SubsetCount<int>(taken, all);
    if i :| 0 <= i < n && !TestBit(bits, 64, i) {
      assert i in all && i !in taken;
      SubsetCount<int>(taken, all - {i});
    } else {
      assert forall i | i in all :: i in taken;
      SubsetCount<int>(all, taken);
    }
  }

  lemma WriteSet(bits: seq<nat>, n: nat, idx: nat, v: bool)
    requires idx < n <= 64 * |bits| && TestBit(bits, 64, idx) != v
    ensures var bits' := bits[idx / 64 := Put(bits[idx / 64], idx % 64, v)];
            && SetBits(bits', n) == (if v then SetBits(bits, n) + {idx} else SetBits(bits, n) - {idx})
            && |SetBits(bits', n)| == if v then |SetBits(bits, n)| + 1 else |SetBits(bits, n)| - 1
  {
    WriteBit(bits, 64, idx, v);
  }

  /** Writing one bit takes or gives back that slot. */
  lemma WriteSlot(h: Header, size: nat, cap: nat, idx: nat, v: bool)
    requires HeaderOk(h, size, cap) && idx < h.total && TestBit(h.bits, 64, idx) != v
    ensures v ==> h.freeObjs > 0
    ensures var h' := h.(bits := h.bits[idx / 64 := Put(h.bits[idx / 64], idx % 64, v)],
                         freeObjs := if v then h.freeObjs - 1 else h.freeObjs + 1);
            && HeaderOk(h', size, cap)
            && Taken(h') == if v then Taken(h) + {idx} else Taken(h) - {idx}
  {
    WriteSet(h.bits, h.total, idx, v);
    AllSet(h.bits, h.total);
  }

  // ---- A cache ----

  /** The pages on a cache's two lists. */
  datatype Lists = Lists(partial: seq<nat>, full: seq<nat>) {
    ghost function Pages(): set<nat> {
      (set a | a in partial) + (set a | a in full)
    }
  }

  /** The objects handed out from these pages: page and slot. */
  ghost function Live(m: Slabs, pages: set<nat>): set<(nat, int)> {
    set a, i | a in pages && a in m && i in Taken(m[a]) :: (a, i)
  }

  /** Two lists, each acyclic, with no page in common. */
  ghost predicate Threaded(m: Slabs, c: Cache, l: Lists) {
    && Chain(m, c.partial, l.partial) && Distinct(l.partial)
    && Chain(m, c.full, l.full) && Distinct(l.full)
    && (forall a | a in l.partial :: a !in l.full)
  }

  /** Every slab's free count is right. */
  ghost predicate HeadersOk(m: Slabs, size: nat, cap: nat, pages: set<nat>) {
    forall a | a in pages :: a in m && HeaderOk(m[a], size, cap)
  }

  /** Slabs on the partial list have a free slot, those on the full list none; `but` may be on the wrong list. */
  ghost predicate Sorted(m: Slabs, l: Lists, but: nat) {
    && (forall a | a in l.partial && a in m && a != but :: m[a].freeObjs > 0)
    && (forall a | a in l.full && a in m && a != but :: m[a].freeObjs == 0)
  }

  /** The cache's own counters. */
  ghost predicate Counted(m: Slabs, c: Cache, l: Lists) {
    && c.slabs == |l.partial| + |l.full|
    && c.allocs - c.frees == |Live(m, l.Pages())|
  }

  /** The invariant in the middle of an operation on slab `but`; 0 means on none. */
  ghost predicate ListsOk(m: Slabs, c: Cache, l: Lists, but: nat, cap: nat) {
    && Threaded(m, c, l) && HeadersOk(m, c.objSize, cap, l.Pages()) && Sorted(m, l, but) && Counted(m, c, l)
  }

  /** A cache of more than two slabs keeps none that is wholly empty; `but` is exempt. */
  ghost predicate NoIdle(m: Slabs, c: Cache, l: Lists, but: nat) {
    c.slabs > 2 ==> forall a | a in l.partial && a in m && a != but :: m[a].freeObjs < m[a].total
  }

  /** The invariant of a cache. */
  ghost predicate CacheOk(m: Slabs, c: Cache, l: Lists) {
    && 16 <= c.objSize <= 2048
    && ListsOk(m, c, l, 0, Capacity(c.objSize)) && NoIdle(m, c, l, 0)
  }

  lemma WithoutMembers(s: seq<nat>, k: nat)
    requires Distinct(s) && k < |s|
    ensures Distinct(Without(s, k))
    ensures forall x :: x in Without(s, k) <==> x in s && x != s[k]
  {
    var t := Without(s, k);
    assert forall i | 0 <= i < |t| :: t[i] == if i < k then s[i] else s[i + 1];
    forall x | x in s && x != s[k]
      ensures x in t
    {
      var i :| 0 <= i < |s| && s[i] == x;
      assert x == t[if i < k then i else i - 1];
    }
  }

  /** Rewriting one slab's slots changes the live objects in that slab only. */
  lemma LiveWrite(m: Slabs, m': Slabs, pages: set<nat>, a: nat, idx: int, v: bool)
    requires a in pages && a in m && a in m'
    requires forall b | b in pages && b != a :: b in m <==> b in m'
    requires forall b | b in pages && b != a && b in m :: Taken(m'[b]) == Taken(m[b])
    requires (idx in Taken(m[a])) != v
    requires Taken(m'[a]) == if v then Taken(m[a]) + {idx} else Taken(m[a]) - {idx}
    ensures Live(m', pages) == if v then Live(m, pages) + {(a, idx)} else Live(m, pages) - {(a, idx)}
    ensures |Live(m', pages)| == if v then |Live(m, pages)| + 1 else |Live(m, pages)| - 1
  {
    hide Taken;
    var live, live' := Live(m, pages), Live(m', pages);
    forall b, i
      ensures (b, i) in live' <==> if (b, i) == (a, idx) then v else (b, i) in live
    {
      assert (b, i) in live <==> b in pages && b in m && i in Taken(m[b]);
      assert (b, i) in live' <==> b in pages && b in m' && i in Taken(m'[b]);
    }
    assert live' == if v then live + {(a, idx)} else live - {(a, idx)};
  }

  // ---- The steps of slab_alloc and slab_free ----

  function SetSlot(h: Header, idx: nat, v: bool): Header
    requires idx / 64 < |h.bits| && (v ==> h.freeObjs > 0)
  {
    h.(bits := h.bits[idx / 64 := Put(h.bits[idx / 64], idx % 64, v)],
       freeObjs := if v then h.freeObjs - 1 else h.freeObjs + 1)
  }

  function NewHeader(size: nat): Header
    requires 0 < size
  {
    Header(size, Capacity(size), Capacity(size), [0, 0, 0, 0], 0)
  }

  lemma NewHeaderOk(size: nat)
    requires 16 <= size <= 2048
    ensures HeaderOk(NewHeader(size), size, Capacity(size)) && Taken(NewHeader(size)) == {}
            && NewHeader(size).freeObjs > 0
  {
    var h := NewHeader(size);
    forall i: nat | i < h.total
      ensures !TestBit(h.bits, 64, i)
    {
      ZeroWord(i % 64);
    }
    assert Taken(h) == {};
  }

  /** Changing slots moves no page on the lists. */
  lemma ThreadedFrame(m: Slabs, m': Slabs, c: Cache, l: Lists)
    requires Threaded(m, c, l)
    requires forall b | b in l.partial || b in l.full :: b in m && b in m' && m'[b].next == m[b].next
    ensures Threaded(m', c, l)
  {}

  /** The state after writing slot idx of slab a. */
  ghost predicate SlotWritten(m: Slabs, m': Slabs, a: nat, idx: nat, v: bool) {
    && a in m && idx < m[a].total <= 64 * |m[a].bits| && TestBit(m[a].bits, 64, idx) != v && (v ==> m[a].freeObjs > 0)
    && m' == m[a := SetSlot(m[a], idx, v)]
  }

  lemma SlotStep(m: Slabs, m': Slabs, pages: set<nat>, size: nat, cap: nat, a: nat, idx: nat, v: bool)
    requires HeadersOk(m, size, cap, pages) && a in pages && SlotWritten(m, m', a, idx, v)
    ensures HeadersOk(m', size, cap, pages)
    ensures Live(m', pages) == if v then Live(m, pages) + {(a, idx)} else Live(m, pages) - {(a, idx)}
    ensures |Live(m', pages)| == if v then |Live(m, pages)| + 1 else |Live(m, pages)| - 1
    ensures (a, idx) in Live(m, pages) <==> !v
    ensures v ==> m'[a].freeObjs < m'[a].total
  {
    WriteSlot(m[a], size, cap, idx, v);
    LiveWrite(m, m', pages, a, idx, v);
  }

  /** Taking or giving back a slot of slab a keeps everything but a's place on the lists. */
  lemma WriteStep(m: Slabs, m': Slabs, c: Cache, c': Cache, l: Lists, a: nat, idx: nat, v: bool, cap: nat)
    requires ListsOk(m, c, l, 0, cap) && a in l.Pages() && SlotWritten(m, m', a, idx, v)
    requires c' == if v then c.(allocs := c.allocs + 1) else c.(frees := c.frees + 1)
    ensures ListsOk(m', c', l, a, cap)
    ensures Live(m', l.Pages()) == if v then Live(m, l.Pages()) + {(a, idx)} else Live(m, l.Pages()) - {(a, idx)}
    ensures (a, idx) in Live(m, l.Pages()) <==> !v
    ensures v ==> m'[a].freeObjs < m'[a].total
  {
    SlotStep(m, m', l.Pages(), c.objSize, cap, a, idx, v);
    ThreadedFrame(m, m', c, l);
  }

  /** A page redirected on a list keeps its slots. */
  ghost predicate SameSlots(m: Slabs, m': Slabs, pages: set<nat>) {
    forall a | a in pages && a in m :: a in m' && m'[a] == m[a].(next := m'[a].next)
  }

  lemma SlotsKept(m: Slabs, m': Slabs, pages: set<nat>, size: nat, cap: nat)
    requires SameSlots(m, m', pages) && HeadersOk(m, size, cap, pages)
    ensures Live(m', pages) == Live(m, pages) && HeadersOk(m', size, cap, pages)
  {}

  /** Page a has changed lists: l' has it on one, l on the other, and they agree on every other page. */
  ghost predicate Moved(l: Lists, l': Lists, a: nat, toFull: bool) {
    && (forall x :: x in l'.partial <==> if x == a then !toFull else x in l.partial)
    && (forall x :: x in l'.full <==> if x == a then toFull else x in l.full)
    && a in l.Pages()
    && |l'.partial| + |l'.full| == |l.partial| + |l.full|
  }

  lemma MovedPages(l: Lists, l': Lists, a: nat, toFull: bool)
    requires Moved(l, l', a, toFull)
    ensures l'.Pages() == l.Pages()
  {}

  /** After a move, the slabs are where they belong if the moved one is. */
  lemma MoveSettles(m: Slabs, m': Slabs, c: Cache, c': Cache, l: Lists, l': Lists, a: nat, toFull: bool, cap: nat)
    requires ListsOk(m, c, l, a, cap) && Moved(l, l', a, toFull) && SameSlots(m, m', l.Pages())
    requires Threaded(m', c', l') && c' == c.(partial := c'.partial, full := c'.full)
    requires a in m && (toFull <==> m[a].freeObjs == 0)
    ensures ListsOk(m', c', l', 0, cap) && l'.Pages() == l.Pages() && Live(m', l.Pages()) == Live(m, l.Pages())
  {
    MovedPages(l, l', a, toFull);
    SlotsKept(m, m', l.Pages(), c.objSize, cap);
    assert Sorted(m', l', 0) by {
      assert forall x | x in l'.partial || x in l'.full :: x in l.Pages();
    }
  }

  /** The head of the partial list goes to the front of the full list. */
  lemma PartialToFull(m: Slabs, m': Slabs, c: Cache, c': Cache, l: Lists, l': Lists)
    requires l.partial != [] && Threaded(m, c, l)
    requires m' == m[c.partial := m[c.partial].(next := c.full)]
    requires c' == c.(partial := m[c.partial].next, full := c.partial)
    requires l' == Lists(l.partial[1..], [c.partial] + l.full)
    ensures Threaded(m', c', l') && Moved(l, l', c.partial, true)
  {
    var a := c.partial;
    assert a == l.partial[0];
    ChainTail(m, a, l.partial);
    HeadMoved(l, l');
    ChainFrame(m, m', m[a].next, l.partial[1..]);
    ChainPush(m, m', c.full, l.full, a);
  }

  lemma HeadMoved(l: Lists, l': Lists)
    requires l.partial != [] && Distinct(l.partial) && Distinct(l.full) && forall a | a in l.partial :: a !in l.full
    requires l' == Lists(l.partial[1..], [l.partial[0]] + l.full)
    ensures Moved(l, l', l.partial[0], true)
    ensures Distinct(l'.partial) && Distinct(l'.full) && forall a | a in l'.partial :: a !in l'.full
  {
    var a := l.partial[0];
    assert l.partial == [a] + l'.partial;
    assert forall i | 0 <= i < |l'.partial| :: l'.partial[i] == l.partial[i + 1];
    PushDistinct(a, l.full);
  }

  lemma PushDistinct(a: nat, s: seq<nat>)
    requires Distinct(s) && a !in s
    ensures Distinct([a] + s) && forall x :: x in [a] + s <==> x == a || x in s
  {
    var t := [a] + s;
    forall i, j | 0 <= i < j < |t|
      ensures t[i] != t[j]
    {
      assert t[j] == s[j - 1];
      if i > 0 {
        assert t[i] == s[i - 1];
      }
    }
  }

  /** Memory and head after taking the k-th page out of a list. */
  function Unlinked(m: Slabs, s: seq<nat>, k: nat): Slabs
    requires k < |s| && s[k] in m && (k > 0 ==> s[k - 1] in m)
  {
    if k == 0 then m else m[s[k - 1] := m[s[k - 1]].(next := m[s[k]].next)]
  }

  function UnlinkedHead(m: Slabs, head: nat, s: seq<nat>, k: nat): nat
    requires k < |s| && s[k] in m
  {
    if k == 0 then m[s[k]].next else head
  }

  lemma UnlinkChain(m: Slabs, head: nat, s: seq<nat>, k: nat)
    requires Chain(m, head, s) && Distinct(s) && k < |s|
    ensures Chain(Unlinked(m, s, k), UnlinkedHead(m, head, s, k), Without(s, k))
    ensures Distinct(Without(s, k)) && forall x :: x in Without(s, k) <==> x in s && x != s[k]
    ensures forall x | x in m && x !in s :: x in Unlinked(m, s, k) && Unlinked(m, s, k)[x] == m[x]
    ensures forall x | x in m ::
              && x in Unlinked(m, s, k)
              && Unlinked(m, s, k)[x] == m[x].(next := Unlinked(m, s, k)[x].next)
    ensures Unlinked(m, s, k).Keys == m.Keys
  {
    WithoutMembers(s, k);
    if k == 0 {
      ChainTail(m, head, s);
      assert Without(s, 0) == s[1..];
    } else {
      ChainUnlink(m, Unlinked(m, s, k), head, s, k);
    }
  }

  /** The k-th page of the full list goes to the front of the partial list. */
  lemma FullToPartial(m: Slabs, m1: Slabs, m': Slabs, c: Cache, c': Cache, l: Lists, l': Lists, k: nat)
    requires k < |l.full| && Threaded(m, c, l)
    requires m1 == Unlinked(m, l.full, k) && m' == m1[l.full[k] := m1[l.full[k]].(next := c.partial)]
    requires c' == c.(partial := l.full[k], full := UnlinkedHead(m, c.full, l.full, k))
    requires l' == Lists([l.full[k]] + l.partial, Without(l.full, k))
    ensures Threaded(m', c', l') && Moved(l, l', l.full[k], false)
  {
    var a := l.full[k];
    UnlinkChain(m, c.full, l.full, k);
    BackMoved(l, l', k);
    ChainFrame(m1, m', c'.full, l'.full);
    ChainPush(m, m', c.partial, l.partial, a);
  }

  lemma BackMoved(l: Lists, l': Lists, k: nat)
    requires k < |l.full| && Distinct(l.partial) && Distinct(l.full) && forall a | a in l.partial :: a !in l.full
    requires l' == Lists([l.full[k]] + l.partial, Without(l.full, k))
    ensures Moved(l, l', l.full[k], false)
    ensures Distinct(l'.partial) && Distinct(l'.full) && forall a | a in l'.partial :: a !in l'.full
  {
    WithoutMembers(l.full, k);
    PushDistinct(l.full[k], l.partial);
  }

  lemma DropThreads(m: Slabs, m': Slabs, c: Cache, c': Cache, l: Lists, l': Lists, k: nat)
    requires k < |l.partial| && Threaded(m, c, l)
    requires m' == Unlinked(m, l.partial, k) - {l.partial[k]}
    requires c' == c.(partial := UnlinkedHead(m, c.partial, l.partial, k), slabs := c'.slabs)
    requires l' == Lists(Without(l.partial, k), l.full)
    ensures Threaded(m', c', l') && SameSlots(m, m', l'.Pages())
    ensures l'.Pages() == l.Pages() - {l.partial[k]}
  {
    var m1 := Unlinked(m, l.partial, k);
    UnlinkChain(m, c.partial, l.partial, k);
    ChainFrame(m1, m', c'.partial, l'.partial);
    ChainFrame(m, m', c.full, l.full);
    assert forall x :: x in l'.Pages() <==> x in l.Pages() && x != l.partial[k];
  }

  /** An empty slab leaves the partial list and the cache. */
  lemma DropSlab(m: Slabs, m': Slabs, c: Cache, c': Cache, l: Lists, l': Lists, k: nat, cap: nat)
    requires k < |l.partial| && ListsOk(m, c, l, 0, cap) && Taken(m[l.partial[k]]) == {}
    requires m' == Unlinked(m, l.partial, k) - {l.partial[k]}
    requires c' == c.(partial := UnlinkedHead(m, c.partial, l.partial, k), slabs := c.slabs - 1)
    requires l' == Lists(Without(l.partial, k), l.full)
    ensures ListsOk(m', c', l', 0, cap)
    ensures l'.Pages() == l.Pages() - {l.partial[k]} && Live(m', l'.Pages()) == Live(m, l.Pages())
  {
    DropThreads(m, m', c, c', l, l', k);
    WithoutMembers(l.partial, k);
    SlotsKept(m, m', l'.Pages(), c.objSize, cap);
    assert Live(m, l'.Pages()) == Live(m, l.Pages());
  }

  /** A fresh slab becomes the only partial one. */
  lemma AddSlab(m: Slabs, m': Slabs, c: Cache, c': Cache, l: Lists, l': Lists, a: nat)
    requires 16 <= c.objSize <= 2048 && ListsOk(m, c, l, 0, Capacity(c.objSize)) && c.partial == 0 && a != 0 && a !in m
    requires m' == m[a := NewHeader(c.objSize)] && c' == c.(partial := a, slabs := c.slabs + 1)
    requires l' == Lists([a], l.full)
    ensures l.partial == [] && ListsOk(m', c', l', 0, Capacity(c.objSize)) && NoIdle(m', c', l', a)
    ensures l'.Pages() == l.Pages() + {a} && Live(m', l'.Pages()) == Live(m, l.Pages())
  {
    EmptyChain(m, c.partial, l.partial);
    assert l'.Pages() == l.Pages() + {a};
    AddHeader(m, m', l.Pages(), c.objSize, a);
    ChainFrame(m, m', c.full, l.full);
  }

  lemma AddHeader(m: Slabs, m': Slabs, pages: set<nat>, size: nat, a: nat)
    requires 16 <= size <= 2048 && HeadersOk(m, size, Capacity(size), pages) && a !in m
    requires m' == m[a := NewHeader(size)]
    ensures HeadersOk(m', size, Capacity(size), pages + {a}) && Live(m', pages + {a}) == Live(m, pages)
    ensures m'[a].freeObjs > 0
  {
    NewHeaderOk(size);
  }

  // ---- All eight size caches ----

  const SIZES: seq<nat> := [16, 32, 64, 128, 256, 512, 1024, 2048]

  ghost predicate HeapOk(m: Slabs, caches: seq<Cache>, lists: seq<Lists>) {
    && |caches| == |lists| == |SIZES|
    && forall n {:trigger caches[n]} {:trigger lists[n]} | 0 <= n < |SIZES| ::
         caches[n].objSize == SIZES[n] && CacheOk(m, caches[n], lists[n])
  }

  lemma CacheFrame(m: Slabs, m': Slabs, c: Cache, l: Lists)
    requires CacheOk(m, c, l)
    requires forall a | a in l.Pages() && a in m :: a in m' && m'[a] == m[a]
    ensures CacheOk(m', c, l)
  {
    ThreadedFrame(m, m', c, l);
    SlotsKept(m, m', l.Pages(), c.objSize, Capacity(c.objSize));
  }

  lemma PageSizes(m: Slabs, c: Cache, l: Lists)
    requires CacheOk(m, c, l)
    ensures forall a | a in l.Pages() :: a in m && a != 0 && m[a].objSize == c.objSize
  {}

  /** Caches of different object sizes share no page, so a step of one leaves the other alone. */
  lemma OtherCache(m: Slabs, m': Slabs, c: Cache, l: Lists, d: Cache, k: Lists)
    requires CacheOk(m, c, l) && CacheOk(m, d, k) && c.objSize != d.objSize
    requires forall a | a in m && a !in l.Pages() :: a in m' && m'[a] == m[a]
    ensures CacheOk(m', d, k)
  {
    PageSizes(m, c, l);
    PageSizes(m, d, k);
    CacheFrame(m, m', d, k);
  }

  lemma SizesDiffer(k: nat, n: nat)
    requires k < |SIZES| && n < |SIZES| && k != n
    ensures SIZES[k] != SIZES[n]
  {}

  /** A step of one cache that changes only its own pages, and brand-new ones, keeps the whole heap's invariant. */
  lemma HeapStep(m: Slabs, m': Slabs, caches: seq<Cache>, lists: seq<Lists>, n: nat, c': Cache, l': Lists)
    requires HeapOk(m, caches, lists) && n < |SIZES| && CacheOk(m', c', l') && c'.objSize == SIZES[n]
    requires forall a | a in m && a !in lists[n].Pages() :: a in m' && m'[a] == m[a]
    ensures HeapOk(m', caches[n := c'], lists[n := l'])
  {
    forall k | 0 <= k < |SIZES| && k != n
      ensures CacheOk(m', caches[k], lists[k])
    {
      SizesDiffer(k, n);
      OtherCache(m, m', caches[n], lists[n], caches[k], lists[k]);
    }
  }

  /** Every slab page is on some cache's lists. */
  ghost predicate Placed(m: Slabs, lists: seq<Lists>) {
    forall a | a in m :: exists n | 0 <= n < |lists| :: a in lists[n].Pages()
  }

  /** Globally, too, one object is gained or lost. */
  lemma LiveEverywhere(m: Slabs, m': Slabs, pages: set<nat>, pages': set<nat>, x: (nat, int), v: bool)
    requires pages <= m.Keys && pages' <= m'.Keys && x.0 in pages && (x in Live(m, pages) <==> !v)
    requires forall b | b in m && b !in pages :: b in m' && m'[b] == m[b]
    requires forall b | b in m' && b !in pages' :: b in m && b !in pages
    requires forall b | b in pages' :: b in pages || b !in m
    requires Live(m', pages') == if v then Live(m, pages) + {x} else Live(m, pages) - {x}
    ensures Live(m', m'.Keys) == if v then Live(m, m.Keys) + {x} else Live(m, m.Keys) - {x}
    ensures x in Live(m, m.Keys) <==> !v
  {
    forall y: (nat, int)
      ensures y in Live(m', m'.Keys) <==> if v then y in Live(m, m.Keys) || y == x else y in Live(m, m.Keys) && y != x
    {
      if y.0 in pages' || y.0 in pages {
        assert y in Live(m', pages') <==> y.0 in pages' && y.0 in m' && y.1 in Taken(m'[y.0]);
        assert y in Live(m, pages) <==> y.0 in pages && y.0 in m && y.1 in Taken(m[y.0]);
      }
    }
  }

  // ---- Blocks ----

  /** `slab_get_obj`: the address of slot idx in the slab at page a. */
  function BlockAt(a: nat, idx: nat, size: nat): nat {
    a * PAGE_SIZE + HEADER_SIZE + idx * size
  }

  lemma {:induction false} Multiples(n: nat, size: nat, i: nat)
    requires 0 < size && i < n / size
    ensures (i + 1) * size <= n
  {
    assert (i + 1) * size <= n / size * size by {
      Mono(i + 1, n / size, size);
    }
  }

  lemma Mono(a: nat, b: nat, k: nat)
    requires a <= b
    ensures a * k <= b * k
  {}

  /** A slab has a slot for every object that fits behind the header, up to 256. */
  lemma CapacityIs(size: nat, i: nat)
    requires 0 < size
    ensures i < Capacity(size) <==> i < SLAB_MAX_OBJS && HEADER_SIZE + (i + 1) * size <= PAGE_SIZE
  {
    var room := PAGE_SIZE - HEADER_SIZE;
    if i < room / size {
      Multiples(room, size, i);
    } else {
      Mono(room / size + 1, i + 1, size);
      assert room == room / size * size + room % size;
      assert (room / size + 1) * size == room / size * size + size;
    }
  }

  /** Every object of this size that fits on page a, up to 256, is live. */
  ghost predicate PagePacked(live: set<(nat, int)>, a: nat, size: nat) {
    forall i: nat | i < SLAB_MAX_OBJS && HEADER_SIZE + (i + 1) * size <= PAGE_SIZE :: (a, i) in live
  }

  /** A slab has no free slot exactly when its page is packed. */
  lemma PackedIff(m: Slabs, a: nat, size: nat)
    requires 0 < size && a in m && HeaderOk(m[a], size, Capacity(size))
    ensures PagePacked(Live(m, m.Keys), a, size) <==> m[a].freeObjs == 0
  {
    var h := m[a];
    AllSet(h.bits, h.total);
    forall i: nat
      ensures (a, i) in Live(m, m.Keys) <==>
              i < SLAB_MAX_OBJS && HEADER_SIZE + (i + 1) * size <= PAGE_SIZE && TestBit(h.bits, 64, i)
      ensures i < SLAB_MAX_OBJS && HEADER_SIZE + (i + 1) * size <= PAGE_SIZE <==> i < h.total
    {
      CapacityIs(size, i);
    }
  }

  /** A block lies past the header and inside its page. */
  lemma BlockInPage(a: nat, idx: nat, size: nat)
    requires 0 < size && idx < Capacity(size)
    ensures a * PAGE_SIZE + HEADER_SIZE <= BlockAt(a, idx, size)
    ensures BlockAt(a, idx, size) + size <= a * PAGE_SIZE + PAGE_SIZE
  {
    Multiples(PAGE_SIZE - HEADER_SIZE, size, idx);
  }

  /** Every slab page of objects of this size is packed. */
  ghost predicate ClassPacked(m: Slabs, size: nat) {
    forall a | a in m && m[a].objSize == size :: PagePacked(Live(m, m.Keys), a, size)
  }

  /** A cache has no partial slab exactly when all pages of its class are packed. */
  lemma NoPartialIff(m: Slabs, caches: seq<Cache>, lists: seq<Lists>, n: nat)
    requires HeapOk(m, caches, lists) && Placed(m, lists) && n < |SIZES|
    ensures ClassPacked(m, SIZES[n]) <==> caches[n].partial == 0
  {
    hide HeapOk, Placed, Live, HeaderOk, PagePacked, SIZES;
    ClassPages(m, caches, lists, n);
    var l := lists[n];
    forall a | a in l.partial || a in l.full
      ensures PagePacked(Live(m, m.Keys), a, SIZES[n]) <==> a in l.full
    {
      PackedIff(m, a, SIZES[n]);
    }
    if l.partial != [] {
      assert l.partial[0] in l.partial;
    }
  }

  /** The pages of object size SIZES[n] are those on cache n's lists, each where its free count says. */
  lemma ClassPages(m: Slabs, caches: seq<Cache>, lists: seq<Lists>, n: nat)
    requires HeapOk(m, caches, lists) && Placed(m, lists) && n < |SIZES|
    ensures |caches| == |lists| == |SIZES| && SIZES[n] > 0
    ensures caches[n].partial == 0 <==> lists[n].partial == []
    ensures forall a :: a in m && m[a].objSize == SIZES[n] <==> a in lists[n].partial || a in lists[n].full
    ensures forall a | a in lists[n].partial || a in lists[n].full ::
              HeaderOk(m[a], SIZES[n], Capacity(SIZES[n])) && (m[a].freeObjs == 0 <==> a in lists[n].full)
    ensures forall a | a in lists[n].partial :: a !in lists[n].full
  {
    hide SIZES;
    var c, l := caches[n], lists[n];
    assert CacheOk(m, c, l) && c.objSize == SIZES[n];
    EmptyChain(m, c.partial, l.partial);
    PageSizes(m, c, l);
    forall a | a in m && m[a].objSize == SIZES[n]
      ensures a in l.Pages()
    {
      var k :| 0 <= k < |lists| && a in lists[k].Pages();
      assert CacheOk(m, caches[k], lists[k]) && caches[k].objSize == SIZES[k];
      PageSizes(m, caches[k], lists[k]);
      if k != n {
        SizesDiffer(k, n);
      }
    }
    assert forall a :: a in l.Pages() <==> a in l.partial || a in l.full;
    assert Threaded(m, c, l) && Sorted(m, l, 0) && HeadersOk(m, c.objSize, Capacity(c.objSize), l.Pages());
  }

  /** The slab pages of objects of this size. */
  ghost function ClassSet(m: Slabs, size: nat): set<nat> {
    set a | a in m && m[a].objSize == size
  }

  lemma {:induction false} DistinctCount(s: seq<nat>, members: set<nat>)
    requires Distinct(s) && forall a :: a in members <==> a in s
    ensures |members| == |s|
  {
    if s == [] {
      assert members == {};
    } else {
      var n := |s| - 1;
      assert s == s[..n] + [s[n]];
      assert s[n] in members && s[n] !in s[..n];
      DistinctCount(s[..n], members - {s[n]});
    }
  }

  lemma ClassCount(m: Slabs, caches: seq<Cache>, lists: seq<Lists>, n: nat)
    requires HeapOk(m, caches, lists) && Placed(m, lists) && n < |SIZES|
    ensures |lists| == |SIZES| && |ClassSet(m, SIZES[n])| == |lists[n].partial| + |lists[n].full|
  {
    hide SIZES, HeaderOk, Placed;
    ClassPages(m, caches, lists, n);
    var c, l := caches[n], lists[n];
    assert CacheOk(m, c, l);
    var a, b := set x | x in l.partial, set x | x in l.full;
    DistinctCount(l.partial, a);
    DistinctCount(l.full, b);
    assert ClassSet(m, SIZES[n]) == a + b && a !! b;
  }

  /** No other object is in o's page. */
  ghost predicate Sole(live: set<(nat, int)>, o: (nat, int)) {
    forall x | x in live && x.0 == o.0 :: x == o
  }

  /** The object is the last of its page, and its class has more than two pages: then the page is given up with it. */
  ghost predicate GivesUp(m: Slabs, o: (nat, int)) {
    && o.0 in m && Sole(Live(m, m.Keys), o)
    && |ClassSet(m, m[o.0].objSize)| > 2
  }

  lemma GivesUpIff(m: Slabs, caches: seq<Cache>, lists: seq<Lists>, n: nat, o: (nat, int))
    requires HeapOk(m, caches, lists) && Placed(m, lists) && n < |SIZES| && o.0 in m && m[o.0].objSize == SIZES[n]
    ensures |lists| == |SIZES|
    ensures GivesUp(m, o) <==> Sole(Live(m, lists[n].Pages()), o) && |lists[n].partial| + |lists[n].full| > 2
  {
    hide HeapOk, Placed, HeaderOk, Taken;
    ClassPages(m, caches, lists, n);
    ClassCount(m, caches, lists, n);
    var pages := lists[n].Pages();
    assert o.0 in pages;
    forall x: (nat, int) | x.0 == o.0
      ensures x in Live(m, m.Keys) <==> x in Live(m, pages)
    {}
  }

  /** Different slots, in whatever slabs of whatever sizes, are blocks that do not overlap. */
  lemma BlocksDisjoint(a: nat, i: nat, size: nat, b: nat, j: nat, size': nat)
    requires 0 < size && i < Capacity(size) && 0 < size' && j < Capacity(size')
    requires (a, i) != (b, j) && (a == b ==> size == size')
    ensures BlockAt(a, i, size) + size <= BlockAt(b, j, size') || BlockAt(b, j, size') + size' <= BlockAt(a, i, size)
  {
    BlockInPage(a, i, size);
    BlockInPage(b, j, size');
    if a == b {
      if i < j {
        Mono(i + 1, j, size);
      } else {
        Mono(j + 1, i, size);
      }
    }
  }
}
