/** mm/slab.c: `kmalloc_slab` and `kfree_slab` over the eight size caches. */
module SlabHeap {
  import opened Common
  import opened Bits
  import Pmm
  import opened SlabSpec
  import opened Slab

  /** An object as its user sees it. */
  ghost predicate IsBlock(m: Slabs, o: (nat, int), addr: nat) {
    o.0 in m && 0 <= o.1 && addr == BlockAt(o.0, o.1, m[o.0].objSize)
  }

  /** `slab_find_obj_idx`: the slot an address in this slab stands for, or -1. */
  method FindIndex(a: nat, h: Header, addr: nat) returns (idx: int)
    requires 0 < h.objSize
    ensures -1 <= idx < h.total
    ensures idx >= 0 ==> addr == BlockAt(a, idx, h.objSize)
    ensures idx < 0 ==> forall i: nat | i < h.total :: addr != BlockAt(a, i, h.objSize)
  {
    var base := a * PAGE_SIZE + HEADER_SIZE;
    if addr < base {
      return -1;
    }
    var offset := addr - base;
    if offset % h.objSize != 0 {
      forall i: nat
        ensures addr != BlockAt(a, i, h.objSize)
      {
        Exact(offset, i, h.objSize);
      }
      return -1;
    }
    var i := offset / h.objSize;
    assert i * h.objSize == offset;
    if i >= h.total {
      forall j: nat | j < h.total
        ensures addr != BlockAt(a, j, h.objSize)
      {
        Exact(offset, j, h.objSize);
      }
      return -1;
    }
    return i;
  }

  lemma Exact(offset: nat, i: nat, size: nat)
    requires 0 < size
    ensures offset == i * size ==> offset % size == 0 && offset / size == i
  {
    if offset == i * size {
      MulDiv(i, 0, size);
    }
  }

  /** The allocator regards every slab page as in use. */
  ghost predicate AllInUse(m: Slabs, free: set<int>, total: nat) {
    forall a | a in m :: a < total && a !in free
  }

  lemma InUseGrown(m: Slabs, free: set<int>, total: nat, grown: nat, m': Slabs, free': set<int>)
    requires AllInUse(m, free, total) && (grown != 0 ==> grown in free && grown < total)
    requires m'.Keys == if grown == 0 then m.Keys else m.Keys + {grown}
    requires free' == if grown == 0 then free else free - {grown}
    ensures AllInUse(m', free', total) && m.Keys <= m'.Keys <= m.Keys + free && free' == free - m'.Keys
    ensures |free'| >= |free| - 1
  {
    AtMostOne(free, grown, free');
    hide AllInUse;
    StillInUse(m, free, total, grown, m', free');
  }

  lemma StillInUse(m: Slabs, free: set<int>, total: nat, grown: nat, m': Slabs, free': set<int>)
    requires AllInUse(m, free, total) && (grown != 0 ==> grown in free && grown < total)
    requires m'.Keys == if grown == 0 then m.Keys else m.Keys + {grown}
    requires free' == if grown == 0 then free else free - {grown}
    ensures AllInUse(m', free', total) && free' == free - m'.Keys
  {}

  lemma AtMostOne<T>(s: set<T>, x: T, s': set<T>)
    requires s' == s || s' == s - {x}
    ensures |s'| >= |s| - 1
  {}

  /**
   * From slabs m to m', object o is live and all others are as they were. It is the lowest slot of its page that was
   * not; the page is new, and taken from the allocator, exactly if the others of its class were packed.
   */
  ghost predicate Handed(m: Slabs, free: set<int>, m': Slabs, free': set<int>, o: (nat, int), packed: bool) {
    && o !in Live(m, m.Keys) && Live(m', m'.Keys) == Live(m, m.Keys) + {o} && SameSizes(m, m')
    && m'.Keys == m.Keys + (if packed then {o.0} else {}) && (o.0 in m <==> !packed)
    && free' == free - m'.Keys && m'.Keys <= m.Keys + free && |free'| >= |free| - 1
    && forall i: nat | i < o.1 :: (o.0, i) in Live(m, m.Keys)
  }

  lemma IsHanded(m: Slabs, free: set<int>, m1: Slabs, pages: set<nat>, grown: nat, m': Slabs, free': set<int>,
                 o: (nat, int))
    requires o !in Live(m, m.Keys) && Live(m', m'.Keys) == Live(m, m.Keys) + {o} && SameSizes(m, m')
    requires m'.Keys == (if grown == 0 then m.Keys else m.Keys + {grown}) && o.0 in m'
    requires grown != 0 ==> grown !in m && o.0 == grown
    requires free' == free - m'.Keys && m'.Keys <= m.Keys + free && |free'| >= |free| - 1
    requires forall i: nat | i < o.1 :: (o.0, i) in Live(m1, pages)
    requires forall x | x in Live(m1, pages) :: x in Live(m, m.Keys)
    ensures Handed(m, free, m', free', o, grown != 0)
  {
    hide Live, SameSizes;
  }

  class SlabAllocator {
    const pmm: Pmm.PageAllocator
    var slabs: Slabs
    var caches: seq<Cache>

    /** The pages on each cache's lists. */
    ghost var lists: seq<Lists>

    ghost predicate Valid()
      reads this, pmm, pmm.bitmap
    {
      && pmm.Valid() && 0 !in pmm.free
      && HeapOk(slabs, caches, lists)
      && Placed(slabs, lists)
      && AllInUse(slabs, pmm.free, pmm.totalPages)
    }

    /** The objects handed out and not yet given back: page and slot. */
    ghost function Objects(): set<(nat, int)>
      reads this
    {
      Live(slabs, slabs.Keys)
    }

    /** `slab_init`. */
    constructor (pmm: Pmm.PageAllocator)
      requires pmm.Valid() && 0 !in pmm.free
      ensures Valid() && this.pmm == pmm && Objects() == {}
    {
      this.pmm := pmm;
      slabs := map[];
      caches := seq(|SIZES|, n requires 0 <= n < |SIZES| => Cache(SIZES[n], 0, 0, 0, 0, 0));
      lists := seq(|SIZES|, _ => Lists([], []));
      new;
      forall n | 0 <= n < |SIZES|
        ensures CacheOk(slabs, caches[n], lists[n])
      {
        EmptyCache(SIZES[n]);
      }
    }

    /** `slab_create`, when the cache has no partial slab: a fresh page becomes its only one. */
    method Stock(c: Cache, ghost l: Lists) returns (ok: bool, grown: nat, m': Slabs, c': Cache, ghost l': Lists)
      requires pmm.Valid() && 0 !in pmm.free && CacheOk(slabs, c, l) && AllInUse(slabs, pmm.free, pmm.totalPages)
      modifies pmm, pmm.bitmap
      ensures pmm.Valid() && 0 !in pmm.free && pmm.Drift() == old(pmm.Drift())
      ensures !ok <==> c.partial == 0 && old(pmm.free) == {}
      ensures !ok ==> pmm.free == {}
      ensures ok ==> (grown != 0 <==> c.partial == 0)
      ensures ok ==> Stocked(c, l, grown, slabs, m', c', l')
      ensures ok && grown == 0 ==> pmm.free == old(pmm.free)
      ensures ok && grown != 0 ==>
                && grown in old(pmm.free) && grown < pmm.totalPages
                && pmm.free == old(pmm.free) - {grown}
    {
      hide ListsOk, NoIdle, Live;
      CacheParts(slabs, c, l);
      if c.partial != 0 {
        return true, 0, slabs, c, l;
      }
      grown := pmm.AllocFrame();
      if grown == 0 {
        return false, 0, slabs, c, l;
      }
      m' := slabs[grown := NewHeader(c.objSize)];
      c' := c.(partial := grown, slabs := c.slabs + 1);
      l' := Lists([grown], l.full);
      AddSlab(slabs, m', c, c', l, l', grown);
      ok := true;
    }
  
    /** Stores the new state of cache n and of the slab pages. */
    method Commit(n: nat, m: Slabs, c: Cache, ghost l: Lists)
      requires n < |caches| == |lists| && pmm.Valid() && 0 !in pmm.free
      requires HeapOk(m, caches[n := c], lists[n := l]) && Placed(m, lists[n := l])
               && AllInUse(m, pmm.free, pmm.totalPages)
      modifies this
      ensures Valid() && slabs == m && caches == old(caches)[n := c] && lists == old(lists)[n := l]
    {
      hide HeapOk, Placed, AllInUse, Pmm.PageAllocator.Valid;
      slabs, caches, lists := m, caches[n := c], lists[n := l];
    }

    /** `slab_alloc` on size cache n: one object more, or, with no page left for a new slab, nothing changed. */
    method SlabAlloc(n: nat) returns (addr: nat, ghost o: (nat, int))
      requires Valid() && n < |SIZES|
      modifies this, pmm, pmm.bitmap
      ensures Valid() && pmm.Drift() == old(pmm.Drift())
      ensures addr == 0 <==> old(pmm.free) == {} && ClassPacked(old(slabs), SIZES[n])
      ensures addr == 0 ==>
                && pmm.free == {}
                && slabs == old(slabs) && caches == old(caches) && lists == old(lists)
      ensures addr != 0 ==>
                && IsBlock(slabs, o, addr) && slabs[o.0].objSize == SIZES[n]
                && Handed(old(slabs), old(pmm.free), slabs, pmm.free, o, ClassPacked(old(slabs), SIZES[n]))
    {
      hide ListsOk, NoIdle, Live, CacheOk, HeapOk, Placed, Stocked, Local, Capacity, BlockAt, AllInUse, Lists.Pages;
      hide NewHeader, SameSizes, ClassPacked, Handed, Pmm.PageAllocator.Valid, Pmm.PageAllocator.InUse;
      HeapAt(slabs, caches, lists, n);
      NoPartialIff(slabs, caches, lists, n);
      var ok, grown, m, c;
      ghost var l;
      ok, grown, m, c, l := Stock(caches[n], lists[n]);
      if !ok {
        return 0, (0, 0);
      }
      ghost var m1, c1, l1 := m, c, l;
      StockedReady(caches[n], lists[n], grown, slabs, m1, c1, l1);
      var a, idx;
      m, c, a, idx, l := TakeSlot(m, c, l, Capacity(c.objSize));
      o := (a, idx);
      AllocEverywhere(slabs, caches, lists, n, grown, m1, c1, l1, m, c, l, o);
      InUseGrown(slabs, old(pmm.free), pmm.totalPages, grown, m, pmm.free);
      IsHanded(slabs, old(pmm.free), m1, l1.Pages(), grown, m, pmm.free, o);
      Commit(n, m, c, l);
      addr := BlockAt(a, idx, c.objSize);
      BlockPositive(a, idx, c.objSize);
    }

    /** `slab_free` once the address is known to be slot idx of slab page a, and the slot taken. */
    method GiveBack(n: nat, a: nat, idx: nat)
      requires Valid() && n < |SIZES| && a in slabs && slabs[a].objSize == SIZES[n]
      requires idx < slabs[a].total <= 64 * |slabs[a].bits| && TestBit(slabs[a].bits, 64, idx)
      modifies this, pmm, pmm.bitmap
      ensures Valid() && pmm.Drift() == old(pmm.Drift())
      ensures (a, idx) in old(Objects()) && Objects() == old(Objects()) - {(a, idx)}
      ensures slabs.Keys <= old(slabs).Keys && SameSizes(old(slabs), slabs)
      ensures slabs.Keys == old(slabs).Keys - (if GivesUp(old(slabs), (a, idx)) then {a} else {})
      ensures pmm.free == old(pmm.free) + (old(slabs).Keys - slabs.Keys)
    {
      hide ListsOk, NoIdle, Live, CacheOk, HeapOk, Placed, Local, Capacity, AllInUse, Lists.Pages, TestBit, SameSizes;
      hide Pmm.PageAllocator.Valid, GivesUp, Sole;
      PageOnList(slabs, caches, lists, n, a);
      GivesUpIff(slabs, caches, lists, n, (a, idx));
      var m, c, dropped;
      ghost var l;
      m, c, dropped, l := GiveSlot(slabs, caches[n], a, idx, lists[n], Capacity(SIZES[n]));
      FreeEverywhere(slabs, caches, lists, n, m, c, l, dropped, (a, idx));
      InUseShrunk(slabs, pmm.free, pmm.totalPages, a, dropped, m);
      if dropped {
        pmm.ReleaseFrame(a);
      }
      Commit(n, m, c, l);
    }

    /**
     * `slab_free` on size cache n: the object at this address is given back; an address of no live object changes
     * nothing.
     */
    method SlabFree(n: nat, addr: nat) returns (freed: bool, ghost o: (nat, int))
      requires Valid() && n < |SIZES| && addr / PAGE_SIZE in slabs && slabs[addr / PAGE_SIZE].objSize == SIZES[n]
      modifies this, pmm, pmm.bitmap
      ensures Valid() && pmm.Drift() == old(pmm.Drift())
      ensures freed ==>
                && o in old(Objects()) && o.0 == addr / PAGE_SIZE && IsBlock(old(slabs), o, addr)
                && Objects() == old(Objects()) - {o}
                && slabs.Keys == old(slabs).Keys - (if GivesUp(old(slabs), o) then {o.0} else {})
                && SameSizes(old(slabs), slabs) && pmm.free == old(pmm.free) + (old(slabs).Keys - slabs.Keys)
      ensures !freed ==>
                && slabs == old(slabs) && caches == old(caches) && lists == old(lists) && pmm.free == old(pmm.free)
                && forall i: nat | (addr / PAGE_SIZE, i) in Objects() :: !IsBlock(slabs, (addr / PAGE_SIZE, i), addr)
    {
      hide ListsOk, NoIdle, Live, CacheOk, HeapOk, Placed, Capacity, BlockAt, AllInUse, Lists.Pages, TestBit, SameSizes;
      hide Pmm.PageAllocator.Valid, GivesUp;
      var a := addr / PAGE_SIZE;
      PageOnList(slabs, caches, lists, n, a);
      var idx := FindIndex(a, slabs[a], addr);
      if idx < 0 || !TestBit(slabs[a].bits, 64, idx) {
        NoSuchBlock(slabs, a, addr, idx);
        return false, (0, 0);
      }
      freed, o := true, (a, idx);
      GiveBack(n, a, idx);
    }

    /** `kmalloc_slab` for at most 2048 bytes: an object of the smallest class that fits, or nothing changed. */
    method Kmalloc(size: nat) returns (addr: nat, ghost o: (nat, int))
      requires Valid() && size <= 2048
      modifies this, pmm, pmm.bitmap
      ensures Valid() && pmm.Drift() == old(pmm.Drift())
      ensures size == 0 ==> addr == 0
      ensures size > 0 ==> (addr == 0 <==> old(pmm.free) == {} && AllPacked(old(slabs), size))
      ensures addr == 0 ==>
                && slabs == old(slabs) && caches == old(caches) && lists == old(lists)
                && pmm.free == old(pmm.free)
      ensures addr != 0 ==>
                && IsBlock(slabs, o, addr) && SmallestClass(size, slabs[o.0].objSize)
                && Handed(old(slabs), old(pmm.free), slabs, pmm.free, o, AllPacked(old(slabs), size))
    {
      hide Handed, IsBlock, SmallestClass, HeapOk, Placed, AllInUse, ClassPacked, AllPacked;
      hide Pmm.PageAllocator.Valid, Pmm.PageAllocator.Drift, SIZES;
      if size == 0 {
        return 0, (0, 0);
      }
      HeapSizes(slabs, caches, lists);
      var n := PickClass(caches, size);
      OneClass(slabs, size, SIZES[n]);
      addr, o := SlabAlloc(n);
    }

    /**
     * `kfree_slab` of a pointer into a slab page: exactly the object at that address is given back; any other pointer
     * changes nothing.
     */
    method Kfree(addr: nat) returns (freed: bool, ghost o: (nat, int))
      requires Valid() && (addr != 0 ==> addr / PAGE_SIZE in slabs)
      modifies this, pmm, pmm.bitmap
      ensures Valid() && pmm.Drift() == old(pmm.Drift())
      ensures freed ==>
                && o in old(Objects()) && o.0 == addr / PAGE_SIZE && IsBlock(old(slabs), o, addr)
                && Objects() == old(Objects()) - {o}
                && slabs.Keys == old(slabs).Keys - (if GivesUp(old(slabs), o) then {o.0} else {})
                && SameSizes(old(slabs), slabs) && pmm.free == old(pmm.free) + (old(slabs).Keys - slabs.Keys)
      ensures !freed ==>
                && slabs == old(slabs) && caches == old(caches) && lists == old(lists) && pmm.free == old(pmm.free)
                && (addr != 0 ==>
                   forall i: nat | (addr / PAGE_SIZE, i) in Objects() :: !IsBlock(slabs, (addr / PAGE_SIZE, i), addr))
    {
      hide Live, BlockAt, IsBlock, SameSizes, HeapOk, Placed, AllInUse, GivesUp, SIZES, Pmm.PageAllocator.Valid;
      if addr == 0 {
        return false, (0, 0);
      }
      HeapSizes(slabs, caches, lists);
      PageClass(slabs, caches, lists, addr / PAGE_SIZE);
      var n := FindClass(caches, slabs[addr / PAGE_SIZE].objSize);
      freed, o := SlabFree(n, addr);
    }
  }

  /** The first cache whose objects are big enough. */
  method PickClass(caches: seq<Cache>, size: nat) returns (n: nat)
    requires |caches| == |SIZES| && (forall k | 0 <= k < |SIZES| :: caches[k].objSize == SIZES[k]) && size <= 2048
    ensures n < |SIZES| && SmallestClass(size, SIZES[n])
  {
    LargestClass();
    n := 0;
    while caches[n].objSize < size
      invariant n < |SIZES|
      invariant forall j | 0 <= j < n :: SIZES[j] < size
      decreases |SIZES| - n
    {
      assert SIZES[n] < size;
      n := n + 1;
    }
  }

  lemma LargestClass()
    ensures |SIZES| == 8 && SIZES[7] == 2048
  {}

  /** The cache of a given object size. */
  method FindClass(caches: seq<Cache>, size: nat) returns (n: nat)
    requires |caches| == |SIZES| && (forall k | 0 <= k < |SIZES| :: caches[k].objSize == SIZES[k]) && size in SIZES
    ensures n < |SIZES| && SIZES[n] == size
  {
    ghost var k :| 0 <= k < |SIZES| && SIZES[k] == size;
    n := 0;
    while caches[n].objSize != size
      invariant n <= k
      decreases k - n
    {
      n := n + 1;
    }
  }

  lemma HeapSizes(m: Slabs, caches: seq<Cache>, lists: seq<Lists>)
    requires HeapOk(m, caches, lists)
    ensures |caches| == |SIZES| && forall k | 0 <= k < |SIZES| :: caches[k].objSize == SIZES[k]
  {
    hide CacheOk;
  }

  lemma PageClass(m: Slabs, caches: seq<Cache>, lists: seq<Lists>, a: nat)
    requires HeapOk(m, caches, lists) && Placed(m, lists) && a in m
    ensures m[a].objSize in SIZES
  {
    var k :| 0 <= k < |lists| && a in lists[k].Pages();
    PageSizes(m, caches[k], lists[k]);
  }

  /** The class is big enough, and the next smaller one, if any, is not. */
  ghost predicate SmallestClass(size: nat, cls: nat) {
    exists n | 0 <= n < |SIZES| :: cls == SIZES[n] && size <= cls && forall k | 0 <= k < n :: SIZES[k] < size
  }

  /** Every page of the class that serves requests of this size is packed with live objects. */
  ghost predicate AllPacked(m: Slabs, size: nat) {
    forall cls | SmallestClass(size, cls) :: ClassPacked(m, cls)
  }

  lemma OneClass(m: Slabs, size: nat, cls: nat)
    requires SmallestClass(size, cls)
    ensures AllPacked(m, size) <==> ClassPacked(m, cls)
  {
    hide ClassPacked;
    forall c | SmallestClass(size, c)
      ensures c == cls
    {}
  }

  lemma InUseShrunk(m: Slabs, free: set<int>, total: nat, a: nat, dropped: bool, m': Slabs)
    requires AllInUse(m, free, total) && a in m && m'.Keys == if dropped then m.Keys - {a} else m.Keys
    ensures a < total && a !in free
    ensures AllInUse(m', if dropped then free + {a} else free, total)
    ensures (if dropped then free + {a} else free) == free + (m.Keys - m'.Keys)
  {}

  /** The slab page a of object size SIZES[n] is on cache n's lists, with a right header. */
  lemma PageOnList(m: Slabs, caches: seq<Cache>, lists: seq<Lists>, n: nat, a: nat)
    requires HeapOk(m, caches, lists) && Placed(m, lists) && n < |SIZES| && a in m && m[a].objSize == SIZES[n]
    ensures |caches| == |lists| == |SIZES| && caches[n].objSize == SIZES[n] && 16 <= SIZES[n] <= 2048
    ensures a != 0 && a in lists[n].Pages() && HeaderOk(m[a], SIZES[n], Capacity(SIZES[n]))
    ensures ListsOk(m, caches[n], lists[n], 0, Capacity(SIZES[n])) && NoIdle(m, caches[n], lists[n], 0)
  {
    hide NoIdle;
    var k :| 0 <= k < |lists| && a in lists[k].Pages();
    HeapAt(m, caches, lists, k);
    PageSizes(m, caches[k], lists[k]);
    if k != n {
      SizesDiffer(k, n);
    }
    CacheParts(m, caches[n], lists[n]);
  }

  lemma LiveSlot(m: Slabs, a: nat)
    requires a in m && m[a].total <= 64 * |m[a].bits|
    ensures forall i: nat :: (a, i) in Live(m, m.Keys) <==> i < m[a].total && TestBit(m[a].bits, 64, i)
  {}

  lemma NoSuchBlock(m: Slabs, a: nat, addr: nat, idx: int)
    requires a in m && 0 < m[a].objSize && m[a].total <= 64 * |m[a].bits| && idx < m[a].total
    requires idx >= 0 ==> addr == BlockAt(a, idx, m[a].objSize) && !TestBit(m[a].bits, 64, idx)
    requires idx < 0 ==> forall i: nat | i < m[a].total :: addr != BlockAt(a, i, m[a].objSize)
    ensures forall i: nat | (a, i) in Live(m, m.Keys) :: !IsBlock(m, (a, i), addr)
  {
    LiveSlot(m, a);
    forall i: nat | (a, i) in Live(m, m.Keys)
      ensures addr != BlockAt(a, i, m[a].objSize)
    {
      if idx >= 0 {
        SameBlock(a, i, idx, m[a].objSize);
      }
    }
  }

  lemma SameBlock(a: nat, i: nat, j: nat, size: nat)
    requires 0 < size
    ensures BlockAt(a, i, size) == BlockAt(a, j, size) ==> i == j
  {
    MulDiv(i, 0, size);
    MulDiv(j, 0, size);
  }

  /** One slot given back to cache n, seen from the whole heap. */
  lemma FreeEverywhere(m: Slabs, caches: seq<Cache>, lists: seq<Lists>, n: nat, m': Slabs, c': Cache, l': Lists,
                       dropped: bool, o: (nat, int))
    requires HeapOk(m, caches, lists) && Placed(m, lists) && n < |SIZES| && 16 <= SIZES[n] <= 2048
    requires ListsOk(m', c', l', 0, Capacity(SIZES[n])) && NoIdle(m', c', l', 0) && c'.objSize == SIZES[n]
    requires o.0 in lists[n].Pages() && o in Live(m, lists[n].Pages())
    requires l'.Pages() == if dropped then lists[n].Pages() - {o.0} else lists[n].Pages()
    requires m'.Keys == if dropped then m.Keys - {o.0} else m.Keys
    requires Live(m', l'.Pages()) == Live(m, lists[n].Pages()) - {o}
    requires forall b | b in m && b !in lists[n].Pages() :: b in m' && m'[b] == m[b]
    ensures HeapOk(m', caches[n := c'], lists[n := l']) && Placed(m', lists[n := l'])
    ensures o in Live(m, m.Keys) && Live(m', m'.Keys) == Live(m, m.Keys) - {o}
    ensures SameSizes(m, m')
  {
    hide ListsOk, NoIdle, Live, CacheOk, Capacity, HeapOk, Placed, Lists.Pages;
    HeapAt(m, caches, lists, n);
    CacheWhole(m', c', l');
    StepEverywhere(m, caches, lists, n, m', c', l');
    LiveEverywhere(m, m', lists[n].Pages(), l'.Pages(), o, false);
    PageSizes(m', c', l');
    PageSizes(m, caches[n], lists[n]);
  }

  lemma BlockPositive(a: nat, idx: nat, size: nat)
    ensures BlockAt(a, idx, size) > 0
  {
    assert idx * size >= 0;
  }

  lemma EmptyCache(size: nat)
    requires 16 <= size <= 2048
    ensures CacheOk(map[], Cache(size, 0, 0, 0, 0, 0), Lists([], []))
  {
    assert Live(map[], Lists([], []).Pages()) == {};
  }

  lemma StockedReady(c: Cache, l: Lists, grown: nat, m: Slabs, m': Slabs, c': Cache, l': Lists)
    requires Stocked(c, l, grown, m, m', c', l')
    ensures 16 <= c'.objSize <= 2048 && c'.partial != 0 && c'.objSize == c.objSize
    ensures grown != 0 ==> c'.partial == grown && grown !in m
    ensures ListsOk(m', c', l', 0, Capacity(c'.objSize)) && NoIdle(m', c', l', c'.partial)
  {}

  /** One slot taken from cache n, seen from the whole heap. */
  lemma AllocEverywhere(m: Slabs, caches: seq<Cache>, lists: seq<Lists>, n: nat, grown: nat, m1: Slabs, c1: Cache,
                        l1: Lists,
                        m2: Slabs, c2: Cache, l2: Lists, o: (nat, int))
    requires HeapOk(m, caches, lists) && Placed(m, lists) && n < |SIZES|
    requires Stocked(caches[n], lists[n], grown, m, m1, c1, l1)
    requires 16 <= c2.objSize <= 2048 && c2.objSize == caches[n].objSize && l2.Pages() == l1.Pages()
    requires ListsOk(m2, c2, l2, 0, Capacity(c2.objSize)) && NoIdle(m2, c2, l2, 0)
    requires o.0 in l1.Pages() && o !in Live(m1, l1.Pages()) && Live(m2, l1.Pages()) == Live(m1, l1.Pages()) + {o}
    requires Local(m1, m2, l1.Pages())
    ensures HeapOk(m2, caches[n := c2], lists[n := l2]) && Placed(m2, lists[n := l2])
    ensures o !in Live(m, m.Keys) && Live(m2, m2.Keys) == Live(m, m.Keys) + {o}
    ensures o.0 in m2 && o.0 != 0 && m2[o.0].objSize == SIZES[n] && c2.objSize == SIZES[n]
    ensures m2.Keys == if grown == 0 then m.Keys else m.Keys + {grown}
    ensures SameSizes(m, m2) && forall x | x in Live(m1, l1.Pages()) :: x in Live(m, m.Keys)
  {
    hide ListsOk, NoIdle, Live, CacheOk, Capacity, HeapOk, Placed, Local;
    HeapAt(m, caches, lists, n);
    StockedPages(caches[n], lists[n], grown, m, m1, c1, l1);
    CacheWhole(m2, c2, l2);
    GrownPages(m, lists[n].Pages(), grown, m1, l1.Pages(), m2);
    StepEverywhere(m, caches, lists, n, m2, c2, l2);
    LiveGrown(m, m1, lists[n].Pages(), l1.Pages(), grown);
    LiveEverywhere(m1, m2, l1.Pages(), l2.Pages(), o, true);
    PageSizes(m2, c2, l2);
    PageSizes(m, caches[n], lists[n]);
    LiveWithin(m, lists[n].Pages());
  }

  lemma LiveWithin(m: Slabs, pages: set<nat>)
    ensures Live(m, pages) <= Live(m, m.Keys)
    ensures forall a, i | a in pages :: (a, i) in Live(m, pages) <==> (a, i) in Live(m, m.Keys)
  {}

  /** Pages that stay slabs keep their object size. */
  ghost predicate SameSizes(m: Slabs, m': Slabs) {
    forall a | a in m && a in m' :: m'[a].objSize == m[a].objSize
  }

  lemma StockedPages(c: Cache, l: Lists, grown: nat, m: Slabs, m': Slabs, c': Cache, l': Lists)
    requires Stocked(c, l, grown, m, m', c', l')
    ensures l'.Pages() <= m'.Keys
  {}

  lemma CacheWhole(m: Slabs, c: Cache, l: Lists)
    requires 16 <= c.objSize <= 2048
    requires ListsOk(m, c, l, 0, Capacity(c.objSize)) && NoIdle(m, c, l, 0)
    ensures CacheOk(m, c, l) && l.Pages() <= m.Keys
  {}

  /** What a cache step must tell the rest of the heap: which pages it had and has, and that no other changed. */
  ghost predicate OwnPages(m: Slabs, m': Slabs, pages: set<nat>, pages': set<nat>) {
    && pages <= m.Keys && pages' <= m'.Keys
    && (forall b | b in m && b !in pages :: b in m' && m'[b] == m[b])
    && (forall b | b in m' && b !in pages' :: b in m && b !in pages)
    && (forall b | b in pages' :: b in pages || b !in m)
  }

  lemma StepEverywhere(m: Slabs, caches: seq<Cache>, lists: seq<Lists>, n: nat, m': Slabs, c': Cache, l': Lists)
    requires HeapOk(m, caches, lists) && Placed(m, lists) && n < |SIZES|
    requires CacheOk(m', c', l') && c'.objSize == SIZES[n] && OwnPages(m, m', lists[n].Pages(), l'.Pages())
    ensures HeapOk(m', caches[n := c'], lists[n := l']) && Placed(m', lists[n := l'])
  {
    hide CacheOk;
    HeapStep(m, m', caches, lists, n, c', l');
    PlacedStep(m, m', lists, n, l');
  }

  lemma HeapAt(m: Slabs, caches: seq<Cache>, lists: seq<Lists>, n: nat)
    requires HeapOk(m, caches, lists) && n < |SIZES|
    ensures |caches| == |lists| == |SIZES|
    ensures CacheOk(m, caches[n], lists[n]) && caches[n].objSize == SIZES[n] && lists[n].Pages() <= m.Keys
  {
    CacheParts(m, caches[n], lists[n]);
  }

  /** The pages before growth and after the slot was taken. */
  lemma GrownPages(m: Slabs, pages: set<nat>, grown: nat, m1: Slabs, pages1: set<nat>, m2: Slabs)
    requires pages <= m.Keys && pages1 <= m1.Keys && Local(m1, m2, pages1)
    requires grown == 0 ==> m1 == m && pages1 == pages
    requires grown != 0 ==> grown !in m && grown in m1 && m1 == m[grown := m1[grown]] && pages1 == pages + {grown}
    ensures OwnPages(m, m2, pages, pages1) && OwnPages(m1, m2, pages1, pages1)
    ensures m2.Keys == if grown == 0 then m.Keys else m.Keys + {grown}
  {}

  lemma PlacedStep(m: Slabs, m': Slabs, lists: seq<Lists>, n: nat, l': Lists)
    requires Placed(m, lists) && n < |lists|
    requires forall b | b in m' && b !in l'.Pages() :: b in m && b !in lists[n].Pages()
    ensures Placed(m', lists[n := l'])
  {
    var lists' := lists[n := l'];
    forall b | b in m'
      ensures exists k | 0 <= k < |lists'| :: b in lists'[k].Pages()
    {
      if b in l'.Pages() {
        assert lists'[n] == l';
      } else {
        var k :| 0 <= k < |lists| && b in lists[k].Pages();
        assert lists'[k] == lists[k];
      }
    }
  }

  lemma LiveGrown(m: Slabs, m1: Slabs, pages: set<nat>, pages1: set<nat>, grown: nat)
    requires grown == 0 ==> m1 == m && pages1 == pages
    requires grown != 0 ==> grown !in m && grown in m1 && m1 == m[grown := m1[grown]] && pages1 == pages + {grown}
    requires Live(m1, pages1) == Live(m, pages)
    ensures Live(m1, m1.Keys) == Live(m, m.Keys)
  {
    if grown != 0 {
      assert forall i | i in Taken(m1[grown]) :: (grown, i) in Live(m1, pages1);
    }
  }

  /** A cache with a partial slab, fresh if `grown` is not 0, and otherwise as before. */
  ghost predicate Stocked(c: Cache, l: Lists, grown: nat, m: Slabs, m': Slabs, c': Cache, l': Lists) {
    && 16 <= c.objSize <= 2048
    && c'.partial != 0 && c'.objSize == c.objSize
    && ListsOk(m', c', l', 0, Capacity(c.objSize)) && NoIdle(m', c', l', c'.partial)
    && Live(m', l'.Pages()) == Live(m, l.Pages())
    && (grown == 0 ==> m' == m && l' == l)
    && (grown != 0 ==>
          && grown !in m && m' == m[grown := NewHeader(c.objSize)]
          && l'.Pages() == l.Pages() + {grown} && c'.partial == grown)
  }

  lemma CacheParts(m: Slabs, c: Cache, l: Lists)
    requires CacheOk(m, c, l)
    ensures 16 <= c.objSize <= 2048
    ensures ListsOk(m, c, l, 0, Capacity(c.objSize)) && NoIdle(m, c, l, 0) && NoIdle(m, c, l, c.partial)
    ensures l.Pages() <= m.Keys
  {}
}
