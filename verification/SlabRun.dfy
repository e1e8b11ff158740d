/** mm/slab.c over whole runs: any client that frees what it was given, and what it may rely on throughout. */
module SlabRun {
  import opened Common
  import opened Bits
  import Pmm
  import opened SlabSpec
  import opened Slab
  import opened SlabHeap

  /** A call of `kmalloc_slab`, or of `kfree_slab` on the client's k-th held block. */
  datatype Request = Malloc(size: nat) | Free(k: nat)

  /** A block as the client knows it: the pointer it got and the size it asked for. */
  datatype Block = Block(addr: nat, size: nat)

  predicate Apart(b: Block, c: Block) {
    b.addr + b.size <= c.addr || c.addr + c.size <= b.addr
  }

  /**
   * What holds of the blocks held at any moment: each is past the header of its page, inside that page, and apart from
   * the others.
   */
  ghost predicate SafeBlocks(blocks: seq<Block>, free: set<int>, total: nat) {
    && (forall k | 0 <= k < |blocks| :: InOnePage(blocks[k], free, total))
    && (forall k, j | 0 <= k < |blocks| && 0 <= j < |blocks| && k != j :: Apart(blocks[k], blocks[j]))
  }

  ghost predicate InOnePage(b: Block, free: set<int>, total: nat) {
    exists a: nat {:trigger a * PAGE_SIZE} | a < total && a !in free ::
      a * PAGE_SIZE + HEADER_SIZE <= b.addr && b.addr + b.size <= a * PAGE_SIZE + PAGE_SIZE
  }

  /** The held block is the live object o, in the smallest class that fits. */
  ghost predicate Backed(m: Slabs, b: Block, o: (nat, int)) {
    o in Live(m, m.Keys) && IsBlock(m, o, b.addr) && SmallestClass(b.size, m[o.0].objSize)
  }

  /** The held blocks are exactly the live objects, each once. */
  ghost predicate Held(m: Slabs, blocks: seq<Block>, objs: seq<(nat, int)>) {
    && |blocks| == |objs|
    && (forall k | 0 <= k < |objs| :: Backed(m, blocks[k], objs[k]))
    && (forall k, j | 0 <= k < |objs| && 0 <= j < |objs| && k != j :: objs[k] != objs[j])
    && (forall o | o in Live(m, m.Keys) :: o in objs)
  }

  /** Every live object's slot is below its slab's capacity. */
  lemma LiveInRange(m: Slabs, caches: seq<Cache>, lists: seq<Lists>, o: (nat, int))
    requires HeapOk(m, caches, lists) && Placed(m, lists) && o in Live(m, m.Keys)
    ensures o.0 in m && 0 < m[o.0].objSize && 0 <= o.1 < Capacity(m[o.0].objSize)
  {
    var n :| 0 <= n < |lists| && o.0 in lists[n].Pages();
    HeapAt(m, caches, lists, n);
    PageSizes(m, caches[n], lists[n]);
    assert HeaderOk(m[o.0], SIZES[n], Capacity(SIZES[n]));
  }

  /**
   * No two live objects overlap, whatever their classes; each lies past the header inside one page the allocator
   * regards as in use.
   */
  lemma LiveDisjoint(m: Slabs, caches: seq<Cache>, lists: seq<Lists>, o: (nat, int), p: (nat, int), addr: nat,
                     addr': nat)
    requires HeapOk(m, caches, lists) && Placed(m, lists)
    requires o in Live(m, m.Keys) && p in Live(m, m.Keys) && IsBlock(m, o, addr) && IsBlock(m, p, addr')
    ensures o.0 * PAGE_SIZE + HEADER_SIZE <= addr && addr + m[o.0].objSize <= o.0 * PAGE_SIZE + PAGE_SIZE
    ensures o != p ==> addr + m[o.0].objSize <= addr' || addr' + m[p.0].objSize <= addr
  {
    hide HeapOk, Placed, Live, Capacity, BlockAt;
    LiveInRange(m, caches, lists, o);
    LiveInRange(m, caches, lists, p);
    BlockInPage(o.0, o.1, m[o.0].objSize);
    if o != p {
      BlocksDisjoint(o.0, o.1, m[o.0].objSize, p.0, p.1, m[p.0].objSize);
    }
  }

  /** A block of the smallest class that fits is at least the request and, above 16 bytes, under twice it. */
  lemma ClassFits(size: nat, cls: nat)
    requires SmallestClass(size, cls)
    ensures size <= cls && (size > 16 ==> cls < 2 * size)
  {
    var n :| 0 <= n < |SIZES| && cls == SIZES[n] && size <= cls && forall k | 0 <= k < n :: SIZES[k] < size;
    if n > 0 {
      assert SIZES[n - 1] < size && SIZES[n] == 2 * SIZES[n - 1];
    }
  }

  lemma HeldSafe(m: Slabs, caches: seq<Cache>, lists: seq<Lists>, blocks: seq<Block>, objs: seq<(nat, int)>,
                 free: set<int>, total: nat)
    requires HeapOk(m, caches, lists) && Placed(m, lists) && Held(m, blocks, objs) && AllInUse(m, free, total)
    ensures SafeBlocks(blocks, free, total)
  {
    hide HeapOk, Placed, Live, IsBlock, SmallestClass, InOnePage;
    forall k, j | 0 <= k < |objs| && 0 <= j < |objs|
      ensures InOnePage(blocks[k], free, total) && (k != j ==> Apart(blocks[k], blocks[j]))
    {
      PairSafe(m, caches, lists, blocks[k], objs[k], blocks[j], objs[j], free, total);
    }
  }

  lemma PairSafe(m: Slabs, caches: seq<Cache>, lists: seq<Lists>, b: Block, o: (nat, int), c: Block, p: (nat, int),
                 free: set<int>, total: nat)
    requires HeapOk(m, caches, lists) && Placed(m, lists) && Backed(m, b, o) && Backed(m, c, p)
             && AllInUse(m, free, total)
    ensures InOnePage(b, free, total) && (o != p ==> Apart(b, c))
  {
    hide HeapOk, Placed, Live, SmallestClass, BlockAt;
    LiveDisjoint(m, caches, lists, o, p, b.addr, c.addr);
    ClassFits(b.size, m[o.0].objSize);
    ClassFits(c.size, m[p.0].objSize);
    assert o.0 < total && o.0 !in free;
  }

  // ---- How many pages slabs may hold ----

  lemma {:induction false} EachHasOne(pages: set<nat>, live: set<(nat, int)>)
    requires forall a | a in pages :: exists i :: (a, i) in live
    ensures |pages| <= |live|
    decreases pages
  {
    if a :| a in pages {
      var i :| (a, i) in live;
      var rest := live - {(a, i)};
      forall x | x in pages - {a}
        ensures exists j :: (x, j) in rest
      {
        var j :| (x, j) in live;
        assert (x, j) in rest;
      }
      EachHasOne(pages - {a}, rest);
    }
  }

  lemma {:induction false} AtMostLength<T>(s: seq<T>)
    ensures |set x | x in s| <= |s|
  {
    if s != [] {
      var n := |s| - 1;
      AtMostLength(s[..n]);
      assert s == s[..n] + [s[n]];
      assert (set x | x in s) == (set x | x in s[..n]) + {s[n]};
    }
  }

  lemma PagesAtMost(l: Lists)
    ensures |l.Pages()| <= |l.partial| + |l.full|
  {
    AtMostLength(l.partial);
    AtMostLength(l.full);
  }

  lemma HasRoom(size: nat)
    requires 16 <= size <= 2048
    ensures Capacity(size) > 0
  {}

  /** In a cache of more than two slabs every page has a live object. */
  lemma NoIdlePage(m: Slabs, c: Cache, l: Lists, a: nat)
    requires CacheOk(m, c, l) && c.slabs > 2 && a in l.Pages()
    ensures exists i :: (a, i) in Live(m, l.Pages())
  {
    hide Threaded, Counted, Capacity, Taken;
    PageSizes(m, c, l);
    assert HeaderOk(m[a], c.objSize, Capacity(c.objSize));
    HasRoom(c.objSize);
    assert m[a].freeObjs < m[a].total;
    assert Taken(m[a]) != {};
    var i := Pick(Taken(m[a]));
    assert (a, i) in Live(m, l.Pages());
  }

  /** A cache has at most two pages more than live objects, so at most two when all have been given back. */
  lemma Retention(m: Slabs, c: Cache, l: Lists)
    requires CacheOk(m, c, l)
    ensures |l.Pages()| <= |Live(m, l.Pages())| + 2
  {
    if c.slabs > 2 {
      hide CacheOk, Live;
      forall a | a in l.Pages()
        ensures exists i :: (a, i) in Live(m, l.Pages())
      {
        NoIdlePage(m, c, l, a);
      }
      EachHasOne(l.Pages(), Live(m, l.Pages()));
    } else {
      PagesAtMost(l);
    }
  }

  /** The pages of the first n caches. */
  ghost function FirstPages(lists: seq<Lists>, n: nat): set<nat>
    requires n <= |lists|
  {
    if n == 0 then {} else FirstPages(lists, n - 1) + lists[n - 1].Pages()
  }

  lemma {:induction false} FirstPagesAre(m: Slabs, caches: seq<Cache>, lists: seq<Lists>, n: nat)
    requires HeapOk(m, caches, lists) && n <= |lists| == |SIZES|
    ensures forall a | a in FirstPages(lists, n) :: a in m && exists k | 0 <= k < n :: m[a].objSize == SIZES[k]
    ensures forall k, a | 0 <= k < n && a in lists[k].Pages() :: a in FirstPages(lists, n)
  {
    hide HeapOk, CacheOk, SIZES;
    HeapSizes(m, caches, lists);
    if n > 0 {
      FirstPagesAre(m, caches, lists, n - 1);
      HeapAt(m, caches, lists, n - 1);
      PageSizes(m, caches[n - 1], lists[n - 1]);
    }
  }

  lemma LiveSplit(m: Slabs, a: set<nat>, b: set<nat>)
    requires a !! b
    ensures |Live(m, a + b)| == |Live(m, a)| + |Live(m, b)|
  {
    assert Live(m, a + b) == Live(m, a) + Live(m, b);
    assert Live(m, a) !! Live(m, b);
  }

  lemma {:induction false} FirstRetention(m: Slabs, caches: seq<Cache>, lists: seq<Lists>, n: nat)
    requires HeapOk(m, caches, lists) && n <= |lists| == |SIZES|
    ensures |FirstPages(lists, n)| <= |Live(m, FirstPages(lists, n))| + 2 * n
  {
    hide HeapOk, CacheOk, Live, SIZES;
    if n > 0 {
      var a, b := FirstPages(lists, n - 1), lists[n - 1].Pages();
      FirstRetention(m, caches, lists, n - 1);
      HeapAt(m, caches, lists, n - 1);
      NewPages(m, caches, lists, n - 1);
      Retention(m, caches[n - 1], lists[n - 1]);
      LiveSplit(m, a, b);
      assert |a + b| <= |a| + |b|;
    }
  }

  /** Caches share no page, since each page has its cache's object size. */
  lemma NewPages(m: Slabs, caches: seq<Cache>, lists: seq<Lists>, n: nat)
    requires HeapOk(m, caches, lists) && n < |lists| == |SIZES|
    ensures FirstPages(lists, n) !! lists[n].Pages()
  {
    hide HeapOk, CacheOk, SIZES, FirstPages;
    FirstPagesAre(m, caches, lists, n);
    HeapAt(m, caches, lists, n);
    PageSizes(m, caches[n], lists[n]);
    forall k | 0 <= k < n
      ensures SIZES[k] != SIZES[n]
    {
      SizesDiffer(k, n);
    }
  }

  /** All caches together have at most 16 pages more than live objects. */
  lemma HeapRetention(m: Slabs, caches: seq<Cache>, lists: seq<Lists>)
    requires HeapOk(m, caches, lists) && Placed(m, lists)
    ensures |m.Keys| <= |Live(m, m.Keys)| + 16
  {
    hide HeapOk, CacheOk, Live;
    HeapSizes(m, caches, lists);
    HeapAt(m, caches, lists, 0);
    FirstRetention(m, caches, lists, |SIZES|);
    FirstPagesAre(m, caches, lists, |SIZES|);
    assert FirstPages(lists, |SIZES|) == m.Keys;
  }

  /** So slabs hold at most 16 pages more than the client holds blocks. */
  lemma SlabPages(m: Slabs, caches: seq<Cache>, lists: seq<Lists>, blocks: seq<Block>, objs: seq<(nat, int)>)
    requires HeapOk(m, caches, lists) && Placed(m, lists) && Held(m, blocks, objs)
    ensures |m.Keys| <= |blocks| + 16
  {
    hide HeapOk, Placed, Live, Backed;
    HeapRetention(m, caches, lists);
    AtMostLength(objs);
    SubsetCount(Live(m, m.Keys), set o | o in objs);
  }

  // ---- Runs ----

  lemma HeldGrown(m: Slabs, m': Slabs, blocks: seq<Block>, objs: seq<(nat, int)>, b: Block, o: (nat, int))
    requires Held(m, blocks, objs) && SameSizes(m, m') && m.Keys <= m'.Keys
    requires o !in Live(m, m.Keys) && Live(m', m'.Keys) == Live(m, m.Keys) + {o}
    requires IsBlock(m', o, b.addr) && SmallestClass(b.size, m'[o.0].objSize)
    ensures Held(m', blocks + [b], objs + [o])
  {
    hide Live, BlockAt, SmallestClass;
    var objs' := objs + [o];
    forall x | x in Live(m', m'.Keys)
      ensures x in objs'
    {
      assert x in objs || x == objs'[|objs|];
    }
  }

  /** The k-th block's address stands for no other object, so that is the one freed. */
  lemma SoleBlock(m: Slabs, caches: seq<Cache>, lists: seq<Lists>, b: Block, o: (nat, int), p: (nat, int))
    requires HeapOk(m, caches, lists) && Placed(m, lists) && Backed(m, b, o)
    requires p in Live(m, m.Keys) && IsBlock(m, p, b.addr)
    ensures o == p
  {
    hide HeapOk, Placed, Live, SmallestClass, BlockAt;
    LiveDisjoint(m, caches, lists, o, p, b.addr, b.addr);
    LiveInRange(m, caches, lists, o);
    LiveInRange(m, caches, lists, p);
  }

  lemma BackedKept(m: Slabs, m': Slabs, b: Block, o: (nat, int), p: (nat, int))
    requires Backed(m, b, o) && SameSizes(m, m') && o != p && Live(m', m'.Keys) == Live(m, m.Keys) - {p}
    ensures Backed(m', b, o)
  {
    hide BlockAt, SmallestClass;
    assert o in Live(m', m'.Keys);
  }

  lemma HeldShrunk(m: Slabs, m': Slabs, blocks: seq<Block>, objs: seq<(nat, int)>, k: nat)
    requires Held(m, blocks, objs) && SameSizes(m, m') && k < |objs|
    requires Live(m', m'.Keys) == Live(m, m.Keys) - {objs[k]}
    ensures Held(m', Without(blocks, k), Without(objs, k))
  {
    hide Live, Backed;
    var objs', blocks' := Without(objs, k), Without(blocks, k);
    forall j | 0 <= j < |objs'|
      ensures Backed(m', blocks'[j], objs'[j])
    {
      var i := if j < k then j else j + 1;
      assert objs'[j] == objs[i] && blocks'[j] == blocks[i];
      BackedKept(m, m', blocks[i], objs[i], objs[k]);
    }
    assert forall j | 0 <= j < |objs'| :: objs'[j] == objs[if j < k then j else j + 1];
    forall x | x in Live(m', m'.Keys)
      ensures x in objs'
    {
      var i :| 0 <= i < |objs| && objs[i] == x;
      assert x == objs'[if i < k then i else i - 1];
    }
  }

  lemma InItsPage(m: Slabs, caches: seq<Cache>, lists: seq<Lists>, b: Block, o: (nat, int))
    requires HeapOk(m, caches, lists) && Placed(m, lists) && Backed(m, b, o)
    ensures b.addr != 0 && b.addr / PAGE_SIZE == o.0 && o.0 in m && o.1 >= 0
  {
    hide HeapOk, Placed, Live, SmallestClass, BlockAt;
    LiveDisjoint(m, caches, lists, o, o, b.addr, b.addr);
    LiveInRange(m, caches, lists, o);
  }

  /** The pages not held by anyone else: free, or slabs. */
  ghost function Pool(heap: SlabAllocator): set<int>
    reads heap, heap.pmm
  {
    heap.pmm.free + heap.slabs.Keys
  }

  ghost predicate Consistent(heap: SlabAllocator, blocks: seq<Block>, objs: seq<(nat, int)>)
    reads heap, heap.pmm, heap.pmm.bitmap
  {
    heap.Valid() && Held(heap.slabs, blocks, objs)
  }

  lemma PoolIs(heap: SlabAllocator)
    ensures Pool(heap) == heap.pmm.free + heap.slabs.Keys
  {}

  lemma SamePool(slabs: set<nat>, free: set<int>, slabs': set<nat>, free': set<int>)
    requires free' == free - slabs' && slabs <= slabs' <= slabs + free
    ensures free' + slabs' == free + slabs
  {}

  lemma FullPool(heap: SlabAllocator, blocks: seq<Block>, objs: seq<(nat, int)>)
    requires Consistent(heap, blocks, objs) && heap.pmm.free == {}
    ensures |Pool(heap)| <= |blocks| + 16
  {
    hide HeapOk, Placed, AllInUse, Held, Pmm.PageAllocator.Valid;
    SlabPages(heap.slabs, heap.caches, heap.lists, blocks, objs);
    assert Pool(heap) == heap.slabs.Keys;
  }

  // ---- Which pages are slabs, and of what size ----

  /** Slab pages and the size of their objects. */
  type Kinds = map<nat, nat>

  ghost function KindsOf(m: Slabs): Kinds {
    map a | a in m :: m[a].objSize
  }

  ghost predicate HasBlock(held: seq<Block>, addr: nat) {
    exists k | 0 <= k < |held| :: held[k].addr == addr
  }

  /** Every object of this size that fits behind the header of page a, up to 256, is a block held. */
  ghost predicate Crammed(held: seq<Block>, a: nat, size: nat) {
    forall i: nat | i < SLAB_MAX_OBJS && HEADER_SIZE + (i + 1) * size <= PAGE_SIZE ::
      HasBlock(held, BlockAt(a, i, size))
  }

  /** So is every page of the class that serves requests of this size. */
  ghost predicate ClassCrammed(kinds: Kinds, held: seq<Block>, size: nat) {
    forall a | a in kinds && SmallestClass(size, kinds[a]) :: Crammed(held, a, kinds[a])
  }

  ghost function OfKind(kinds: Kinds, size: nat): set<nat> {
    set a | a in kinds && kinds[a] == size
  }

  /** The k-th block is the only one of its page, and its class has more than two pages. */
  ghost predicate Alone(kinds: Kinds, held: seq<Block>, k: nat)
    requires k < |held|
  {
    var a := held[k].addr / PAGE_SIZE;
    && a in kinds && (forall j | 0 <= j < |held| && j != k :: held[j].addr / PAGE_SIZE != a)
    && |OfKind(kinds, kinds[a])| > 2
  }

  /** Every block held lies in a slab of the smallest class that fits. */
  ghost predicate Housed(kinds: Kinds, held: seq<Block>) {
    forall k | 0 <= k < |held| ::
      held[k].addr / PAGE_SIZE in kinds && SmallestClass(held[k].size, kinds[held[k].addr / PAGE_SIZE])
  }

  /**
   * How the slab pages change: a request served by a class with no room left gets one more, and freeing the only block
   * of a page gives that page up unless the class has at most two.
   */
  ghost predicate KindsStep(kinds: Kinds, held: seq<Block>, request: Request, result: nat, kinds': Kinds) {
    match request
    case Malloc(size) =>
      if result != 0 && ClassCrammed(kinds, held, size) then
        && result / PAGE_SIZE !in kinds
        && exists cls | SmallestClass(size, cls) :: kinds' == kinds[result / PAGE_SIZE := cls]
      else kinds' == kinds
    case Free(k) =>
      kinds' == if k < |held| && Alone(kinds, held, k) then kinds - {held[k].addr / PAGE_SIZE} else kinds
  }

  lemma BlockPage(a: nat, i: nat, size: nat)
    requires HEADER_SIZE + (i + 1) * size <= PAGE_SIZE && 0 < size
    ensures BlockAt(a, i, size) / PAGE_SIZE == a
  {
    assert (i + 1) * size == i * size + size && i * size >= 0;
  }

  lemma SlabSize(m: Slabs, caches: seq<Cache>, lists: seq<Lists>, a: nat)
    requires HeapOk(m, caches, lists) && Placed(m, lists) && a in m
    ensures 16 <= m[a].objSize <= 2048
  {
    PageClass(m, caches, lists, a);
  }

  /** A page is packed with live objects exactly when it is crammed with blocks held. */
  lemma CrammedIff(m: Slabs, caches: seq<Cache>, lists: seq<Lists>, blocks: seq<Block>, objs: seq<(nat, int)>, a: nat)
    requires HeapOk(m, caches, lists) && Placed(m, lists) && Held(m, blocks, objs) && a in m
    ensures PagePacked(Live(m, m.Keys), a, m[a].objSize) <==> Crammed(blocks, a, m[a].objSize)
  {
    hide HeapOk, Placed, Live, BlockAt, SmallestClass;
    var size := m[a].objSize;
    SlabSize(m, caches, lists, a);
    forall i: nat | i < SLAB_MAX_OBJS && HEADER_SIZE + (i + 1) * size <= PAGE_SIZE
      ensures (a, i) in Live(m, m.Keys) <==> HasBlock(blocks, BlockAt(a, i, size))
    {
      BlockPage(a, i, size);
      if (a, i) in Live(m, m.Keys) {
        var k :| 0 <= k < |objs| && objs[k] == (a, i);
        assert Backed(m, blocks[k], objs[k]);
      }
      if HasBlock(blocks, BlockAt(a, i, size)) {
        var k :| 0 <= k < |blocks| && blocks[k].addr == BlockAt(a, i, size);
        assert Backed(m, blocks[k], objs[k]);
        InItsPage(m, caches, lists, blocks[k], objs[k]);
        SameBlock(a, i, objs[k].1, size);
        assert objs[k] == (a, i);
      }
    }
  }

  lemma AllCrammedIff(m: Slabs, caches: seq<Cache>, lists: seq<Lists>, blocks: seq<Block>, objs: seq<(nat, int)>,
                      size: nat)
    requires HeapOk(m, caches, lists) && Placed(m, lists) && Held(m, blocks, objs)
    ensures AllPacked(m, size) <==> ClassCrammed(KindsOf(m), blocks, size)
  {
    hide HeapOk, Placed, Held, Live, SmallestClass, PagePacked, Crammed;
    forall a | a in m
      ensures PagePacked(Live(m, m.Keys), a, m[a].objSize) <==> Crammed(blocks, a, m[a].objSize)
    {
      CrammedIff(m, caches, lists, blocks, objs, a);
    }
    if ClassCrammed(KindsOf(m), blocks, size) {
      forall cls, a | SmallestClass(size, cls) && a in m && m[a].objSize == cls
        ensures PagePacked(Live(m, m.Keys), a, cls)
      {
        assert a in KindsOf(m);
      }
    }
  }

  /** Freeing the k-th block gives its page up exactly when the block is alone there. */
  lemma AloneIff(m: Slabs, caches: seq<Cache>, lists: seq<Lists>, blocks: seq<Block>, objs: seq<(nat, int)>, k: nat)
    requires HeapOk(m, caches, lists) && Placed(m, lists) && Held(m, blocks, objs) && k < |blocks|
    ensures GivesUp(m, objs[k]) <==> Alone(KindsOf(m), blocks, k)
  {
    hide HeapOk, Placed, Live, SmallestClass, IsBlock;
    var o, live := objs[k], Live(m, m.Keys);
    forall j | 0 <= j < |objs|
      ensures blocks[j].addr / PAGE_SIZE == objs[j].0 && objs[j].0 in m
    {
      assert Backed(m, blocks[j], objs[j]);
      InItsPage(m, caches, lists, blocks[j], objs[j]);
    }
    var kinds := KindsOf(m);
    assert ClassSet(m, m[o.0].objSize) == OfKind(kinds, kinds[o.0]);
    if forall j | 0 <= j < |blocks| && j != k :: blocks[j].addr / PAGE_SIZE != o.0 {
      forall x | x in live && x.0 == o.0
        ensures x == o
      {
        var j :| 0 <= j < |objs| && objs[j] == x;
      }
    } else {
      var j :| 0 <= j < |blocks| && j != k && blocks[j].addr / PAGE_SIZE == o.0;
      assert Backed(m, blocks[j], objs[j]);
      assert objs[j] in live && objs[j].0 == o.0 && objs[j] != o;
    }
  }

  lemma HeldHoused(m: Slabs, caches: seq<Cache>, lists: seq<Lists>, blocks: seq<Block>, objs: seq<(nat, int)>)
    requires HeapOk(m, caches, lists) && Placed(m, lists) && Held(m, blocks, objs)
    ensures Housed(KindsOf(m), blocks)
  {
    hide HeapOk, Placed, Live, SmallestClass, IsBlock;
    forall k | 0 <= k < |objs|
      ensures blocks[k].addr / PAGE_SIZE == objs[k].0 && objs[k].0 in m
      ensures SmallestClass(blocks[k].size, m[objs[k].0].objSize)
    {
      assert Backed(m, blocks[k], objs[k]);
      InItsPage(m, caches, lists, blocks[k], objs[k]);
    }
  }

  /** What `kmalloc_slab` did to the slab pages. */
  lemma KindsGrown(m: Slabs, m': Slabs, blocks: seq<Block>, addr: nat, size: nat, o: (nat, int))
    requires SameSizes(m, m') && addr / PAGE_SIZE == o.0 && o.0 in m' && addr != 0
    requires SmallestClass(size, m'[o.0].objSize)
    requires m'.Keys == m.Keys + (if ClassCrammed(KindsOf(m), blocks, size) then {o.0} else {})
    requires ClassCrammed(KindsOf(m), blocks, size) ==> o.0 !in m
    ensures KindsStep(KindsOf(m), blocks, Malloc(size), addr, KindsOf(m'))
  {
    hide ClassCrammed, SmallestClass;
    if ClassCrammed(KindsOf(m), blocks, size) {
      assert KindsOf(m') == KindsOf(m)[addr / PAGE_SIZE := m'[o.0].objSize];
    } else {
      assert KindsOf(m') == KindsOf(m);
    }
  }

  lemma KindsShrunk(m: Slabs, m': Slabs, blocks: seq<Block>, k: nat, a: nat)
    requires SameSizes(m, m') && k < |blocks| && blocks[k].addr / PAGE_SIZE == a
    requires m'.Keys == m.Keys - (if Alone(KindsOf(m), blocks, k) then {a} else {})
    ensures KindsStep(KindsOf(m), blocks, Free(k), 0, KindsOf(m'))
  {
    hide Alone;
    assert KindsOf(m') == if Alone(KindsOf(m), blocks, k) then KindsOf(m) - {a} else KindsOf(m);
  }

  lemma NoStep(kinds: Kinds, held: seq<Block>, size: nat)
    ensures KindsStep(kinds, held, Malloc(size), 0, kinds)
  {}

  lemma LastBacked(m: Slabs, blocks: seq<Block>, objs: seq<(nat, int)>, b: Block, o: (nat, int))
    requires Held(m, blocks + [b], objs + [o])
    ensures Backed(m, b, o)
  {
    hide Backed;
    var n := |blocks|;
    assert (blocks + [b])[n] == b && (objs + [o])[n] == o;
  }

  lemma FreshPage(m: Slabs, caches: seq<Cache>, lists: seq<Lists>, b: Block, o: (nat, int))
    requires HeapOk(m, caches, lists) && Placed(m, lists) && Backed(m, b, o)
    ensures b.addr / PAGE_SIZE == o.0 && o.0 in m
  {
    hide HeapOk, Placed, Backed;
    InItsPage(m, caches, lists, b, o);
  }

  /**
   * NULL for at least one byte comes exactly when no page is free and all pages of the class are crammed with blocks
   * held; then at most 16 pages are in slabs without need.
   */
  method MallocStep(heap: SlabAllocator, blocks: seq<Block>, ghost objs: seq<(nat, int)>, size: nat)
      returns (addr: nat, ghost objs': seq<(nat, int)>)
    requires Consistent(heap, blocks, objs) && size <= 2048
    modifies heap, heap.pmm, heap.pmm.bitmap
    ensures Consistent(heap, if addr == 0 then blocks else blocks + [Block(addr, size)], objs')
    ensures Pool(heap) == old(Pool(heap)) && heap.pmm.Drift() == old(heap.pmm.Drift())
            && |heap.pmm.free| >= |old(heap.pmm.free)| - 1
    ensures size == 0 ==> addr == 0
    ensures size > 0 ==>
              (addr == 0 <==> |old(heap.pmm.free)| == 0 && ClassCrammed(KindsOf(old(heap.slabs)), blocks, size))
    ensures size > 0 && addr == 0 ==> |Pool(heap)| <= |blocks| + 16
    ensures KindsStep(KindsOf(old(heap.slabs)), blocks, Malloc(size), addr, KindsOf(heap.slabs))
  {
    hide Held, Live, SameSizes, IsBlock, SmallestClass, Pmm.PageAllocator.Drift, Pool, HeapOk, Placed, AllInUse;
    hide AllPacked, ClassCrammed, KindsStep, KindsOf, Pmm.PageAllocator.Valid;
    ghost var m, free := heap.slabs, heap.pmm.free;
    PoolIs(heap);
    AllCrammedIff(m, heap.caches, heap.lists, blocks, objs, size);
    ghost var o;
    addr, o := heap.Kmalloc(size);
    PoolIs(heap);
    objs' := objs;
    if addr != 0 {
      objs' := objs + [o];
      SamePool(m.Keys, free, heap.slabs.Keys, heap.pmm.free);
      HeldGrown(m, heap.slabs, blocks, objs, Block(addr, size), o);
      LastBacked(heap.slabs, blocks, objs, Block(addr, size), o);
      FreshPage(heap.slabs, heap.caches, heap.lists, Block(addr, size), o);
      KindsGrown(m, heap.slabs, blocks, addr, size, o);
    } else {
      NoStep(KindsOf(m), blocks, size);
      if size > 0 {
        FullPool(heap, blocks, objs);
      }
    }
  }

  method FreeStep(heap: SlabAllocator, blocks: seq<Block>, ghost objs: seq<(nat, int)>, k: nat)
      returns (ghost objs': seq<(nat, int)>)
    requires Consistent(heap, blocks, objs) && k < |blocks|
    modifies heap, heap.pmm, heap.pmm.bitmap
    ensures Consistent(heap, Without(blocks, k), objs')
    ensures Pool(heap) == old(Pool(heap)) && heap.pmm.Drift() == old(heap.pmm.Drift())
            && old(heap.pmm.free) <= heap.pmm.free
    ensures KindsStep(KindsOf(old(heap.slabs)), blocks, Free(k), 0, KindsOf(heap.slabs))
  {
    hide HeapOk, Placed, AllInUse, Live, SameSizes, IsBlock, SmallestClass, Pmm.PageAllocator.Drift;
    hide Pmm.PageAllocator.Valid, GivesUp, Alone, KindsOf, KindsStep;
    ghost var m := heap.slabs;
    assert Backed(m, blocks[k], objs[k]);
    InItsPage(m, heap.caches, heap.lists, blocks[k], objs[k]);
    assert objs[k] == (blocks[k].addr / PAGE_SIZE, objs[k].1);
    AloneIff(m, heap.caches, heap.lists, blocks, objs, k);
    var freed;
    ghost var o;
    freed, o := heap.Kfree(blocks[k].addr);
    SoleBlock(m, old(heap.caches), old(heap.lists), blocks[k], objs[k], o);
    objs' := Without(objs, k);
    HeldShrunk(m, heap.slabs, blocks, objs, k);
    KindsShrunk(m, heap.slabs, blocks, k, o.0);
  }

  /** The blocks a client holds after these requests, given the pointers `kmalloc_slab` returned. */
  function Track(requests: seq<Request>, results: seq<nat>): seq<Block>
    requires |results| == |requests|
  {
    if requests == [] then [] else
    var n := |requests| - 1;
    Next(Track(requests[..n], results[..n]), requests[n], results[n])
  }

  function Next(blocks: seq<Block>, request: Request, result: nat): seq<Block> {
    if request.Malloc? then
      if result == 0 then blocks else blocks + [Block(result, request.size)]
    else
      if request.k < |blocks| then Without(blocks, request.k) else blocks
  }

  lemma TrackMore(requests: seq<Request>, results: seq<nat>, request: Request, result: nat)
    requires |results| == |requests|
    ensures Track(requests + [request], results + [result]) == Next(Track(requests, results), request, result)
  {
    assert (requests + [request])[..|requests|] == requests && (results + [result])[..|requests|] == results;
  }

  /**
   * A request for no bytes gets NULL. Any other does exactly when every page of the pool is a slab and those of its
   * class are crammed; so only while there are at most 16 pages more than blocks held, and not at all while there are
   * as many free pages as requests.
   */
  ghost predicate Answered(pool: set<int>, spare: bool, kinds: Kinds, held: seq<Block>, size: nat, result: nat) {
    if size == 0 then result == 0 else
    && (result == 0 <==> (forall a | a in pool :: a in kinds) && ClassCrammed(kinds, held, size))
    && (result == 0 ==> |pool| <= |held| + 16 && !spare)
  }

  /** What is said of one request: the answer, the slab pages after it, and where the blocks held before it lie. */
  ghost predicate Told(pool: set<int>, spare: bool, kinds: Kinds, held: seq<Block>, request: Request, result: nat,
                       kinds': Kinds) {
    && Housed(kinds, held) && KindsStep(kinds, held, request, result, kinds')
    && (request.Malloc? ==> Answered(pool, spare, kinds, held, request.size, result))
  }

  /** The same of every request of a run, `kinds` being the slab pages before each, and at the end. */
  ghost predicate AllServed(pool: set<int>, spare: bool, kinds: seq<Kinds>, requests: seq<Request>, results: seq<nat>) {
    && |results| == |requests| && |kinds| == |requests| + 1
    && forall i | 0 <= i < |requests| ::
         Told(pool, spare, kinds[i], Track(requests[..i], results[..i]), requests[i], results[i], kinds[i + 1])
  }

  lemma ServedMore(pool: set<int>, spare: bool, kinds: seq<Kinds>, requests: seq<Request>, results: seq<nat>,
                   request: Request, result: nat, kinds': Kinds)
    requires AllServed(pool, spare, kinds, requests, results)
    requires Told(pool, spare, kinds[|requests|], Track(requests, results), request, result, kinds')
    ensures AllServed(pool, spare, kinds + [kinds'], requests + [request], results + [result])
  {
    hide Track, Told;
    var requests', results', all := requests + [request], results + [result], kinds + [kinds'];
    forall i | 0 <= i < |requests'|
      ensures Told(pool, spare, all[i], Track(requests'[..i], results'[..i]), requests'[i], results'[i], all[i + 1])
    {
      assert requests'[..i] == requests[..i] && results'[..i] == results[..i];
      if i == |requests| {
        assert requests[..i] == requests && results[..i] == results;
      }
    }
  }

  /** One request. */
  method Serve(heap: SlabAllocator, blocks: seq<Block>, ghost objs: seq<(nat, int)>, request: Request)
      returns (result: nat, ghost objs': seq<(nat, int)>)
    requires Consistent(heap, blocks, objs) && (request.Malloc? ==> request.size <= 2048)
    modifies heap, heap.pmm, heap.pmm.bitmap
    ensures Consistent(heap, Next(blocks, request, result), objs')
    ensures Pool(heap) == old(Pool(heap)) && heap.pmm.Drift() == old(heap.pmm.Drift())
            && |heap.pmm.free| >= |old(heap.pmm.free)| - 1
    ensures Told(old(Pool(heap)), |old(heap.pmm.free)| > 0, KindsOf(old(heap.slabs)), blocks, request, result,
              KindsOf(heap.slabs))
  {
    hide Pool, Pmm.PageAllocator.Drift, KindsOf, KindsStep, ClassCrammed, Housed, Held, SlabAllocator.Valid;
    result, objs' := 0, objs;
    InHouses(heap, blocks, objs);
    NoneFree(heap, blocks, objs);
    match request {
      case Malloc(size) =>
        result, objs' := MallocStep(heap, blocks, objs, size);
      case Free(k) =>
        if k < |blocks| {
          ghost var before := heap.pmm.free;
          objs' := FreeStep(heap, blocks, objs, k);
          SubsetCount(before, heap.pmm.free);
        } else {
          NothingFreed(KindsOf(heap.slabs), blocks, k);
        }
    }
  }

  lemma NothingFreed(kinds: Kinds, held: seq<Block>, k: nat)
    requires k >= |held|
    ensures KindsStep(kinds, held, Free(k), 0, kinds)
  {}

  lemma InHouses(heap: SlabAllocator, blocks: seq<Block>, objs: seq<(nat, int)>)
    requires Consistent(heap, blocks, objs)
    ensures Housed(KindsOf(heap.slabs), blocks)
  {
    hide HeapOk, Placed, AllInUse, Held, Pmm.PageAllocator.Valid;
    HeldHoused(heap.slabs, heap.caches, heap.lists, blocks, objs);
  }

  /** No page is free exactly when every page of the pool is a slab. */
  lemma NoneFree(heap: SlabAllocator, blocks: seq<Block>, objs: seq<(nat, int)>)
    requires Consistent(heap, blocks, objs)
    ensures |heap.pmm.free| == 0 <==> forall a | a in Pool(heap) :: a in KindsOf(heap.slabs)
  {
    hide HeapOk, Placed, Held, Pmm.PageAllocator.Valid;
    if |heap.pmm.free| > 0 {
      var a := Pick(heap.pmm.free);
      assert a in Pool(heap) && a !in heap.slabs;
    }
  }

  /**
   * Any run of requests: at its end, and so at every point of every run, the blocks returned and not given back are
   * safe, and the pages are as before but for those moved between the allocator and the slabs, which hold at most 16
   * pages more than there are blocks held. `AllServed` says how each request is answered and what it does to the slab
   * pages.
   */
  method Run(heap: SlabAllocator, requests: seq<Request>) returns (results: seq<nat>, ghost kinds: seq<Kinds>)
    requires heap.Valid() && heap.Objects() == {}
    requires forall i | 0 <= i < |requests| && requests[i].Malloc? :: requests[i].size <= 2048
    modifies heap, heap.pmm, heap.pmm.bitmap
    ensures heap.Valid() && heap.pmm.Drift() == old(heap.pmm.Drift())
    ensures Pool(heap) == old(Pool(heap)) && heap.pmm.free !! heap.slabs.Keys
    ensures |results| == |requests| && SafeBlocks(Track(requests, results), heap.pmm.free, heap.pmm.totalPages)
    ensures |heap.slabs.Keys| <= |Track(requests, results)| + 16
    ensures AllServed(old(Pool(heap)), |old(heap.pmm.free)| >= |requests|, kinds, requests, results)
    ensures kinds[0] == KindsOf(old(heap.slabs)) && kinds[|requests|] == KindsOf(heap.slabs)
  {
    hide Consistent, Pool, SafeBlocks, Track, Next, AllServed, Told, Pmm.PageAllocator.Drift, SlabAllocator.Valid;
    hide KindsOf;
    var blocks: seq<Block> := [];
    results := [];
    ghost var objs := [];
    ghost var pool, spare := Pool(heap), |heap.pmm.free| >= |requests|;
    kinds := [KindsOf(heap.slabs)];
    NoneTracked(pool, spare, kinds[0]);
    Starts(heap);
    for i := 0 to |requests|
      invariant Consistent(heap, blocks, objs) && Pool(heap) == pool
                && heap.pmm.Drift() == old(heap.pmm.Drift())
      invariant |results| == i && blocks == Track(requests[..i], results)
      invariant |heap.pmm.free| >= |old(heap.pmm.free)| - i
      invariant |kinds| == i + 1 && kinds[0] == KindsOf(old(heap.slabs)) && kinds[i] == KindsOf(heap.slabs)
      invariant AllServed(pool, spare, kinds, requests[..i], results)
    {
      assert requests[..i + 1] == requests[..i] + [requests[i]];
      var result;
      ghost var some := |heap.pmm.free| > 0;
      result, objs := Serve(heap, blocks, objs, requests[i]);
      ToldToo(pool, some, spare, kinds[i], blocks, requests[i], result, KindsOf(heap.slabs));
      TrackMore(requests[..i], results, requests[i], result);
      ServedMore(pool, spare, kinds, requests[..i], results, requests[i], result, KindsOf(heap.slabs));
      blocks := Next(blocks, requests[i], result);
      results := results + [result];
      kinds := kinds + [KindsOf(heap.slabs)];
    }
    assert requests[..|requests|] == requests;
    Ends(heap, blocks, objs);
  }

  lemma ToldToo(pool: set<int>, some: bool, spare: bool, kinds: Kinds, held: seq<Block>, request: Request, result: nat,
                kinds': Kinds)
    requires Told(pool, some, kinds, held, request, result, kinds') && (spare ==> some)
    ensures Told(pool, spare, kinds, held, request, result, kinds')
  {
    hide Housed, KindsStep, ClassCrammed;
  }

  lemma Starts(heap: SlabAllocator)
    requires heap.Valid() && heap.Objects() == {}
    ensures Consistent(heap, [], [])
  {
    hide HeapOk, Placed, AllInUse, Pmm.PageAllocator.Valid, Live;
  }

  lemma Ends(heap: SlabAllocator, blocks: seq<Block>, objs: seq<(nat, int)>)
    requires Consistent(heap, blocks, objs)
    ensures heap.Valid() && SafeBlocks(blocks, heap.pmm.free, heap.pmm.totalPages)
    ensures |heap.slabs.Keys| <= |blocks| + 16 && heap.pmm.free !! heap.slabs.Keys
  {
    hide HeapOk, Placed, Pmm.PageAllocator.Valid, Live, SafeBlocks, Held;
    HeldSafe(heap.slabs, heap.caches, heap.lists, blocks, objs, heap.pmm.free, heap.pmm.totalPages);
    SlabPages(heap.slabs, heap.caches, heap.lists, blocks, objs);
  }

  lemma NoneTracked(pool: set<int>, spare: bool, kinds: Kinds)
    ensures Track([], []) == [] && AllServed(pool, spare, [kinds], [], [])
  {}
}
