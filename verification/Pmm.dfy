/** mm/pmm.c: the bitmap page allocator. */
module Pmm {
  import opened Common
  import opened Bits

  class PageAllocator {
    const bitmap: array<nat>
    const totalPages: nat
    var freePages: nat

    /** The pages whose bit is clear. */
    ghost var free: set<int>

    ghost predicate Valid()
      reads this, bitmap
    {
      && totalPages <= 8 * bitmap.Length
      && (forall i: nat {:trigger TestBit(bitmap[..], 8, i)} | i < totalPages :: i in free <==>
         !TestBit(bitmap[..], 8, i))
      && (forall i | i in free :: 0 <= i < totalPages)
      && |free| <= freePages
    }

    /** By how much the counter overstates the clear bits; 0 means `free_pages` is exact. */
    ghost function Drift(): int
      reads this
    {
      freePages - |free|
    }

    /** Reserved, or handed out and not yet given back. */
    ghost predicate InUse(page: nat)
      reads this
    {
      page < totalPages && page !in free
    }

    /** Every page starts out marked used. */
    constructor (total: nat)
      ensures Valid() && fresh(bitmap)
      ensures bitmap.Length == (total + 7) / 8 && totalPages == total
      ensures free == {} && freePages == 0
    {
      bitmap := new nat[(total + 7) / 8](_ => Ones(8));
      totalPages, freePages, free := total, 0, {};
      new;
      forall i: nat | i < total
        ensures TestBit(bitmap[..], 8, i)
      {
        OnesBit(8, i % 8);
      }
    }

    /** `bm_set` on a clear page, and one page less to count. */
    method TakePage(idx: nat)
      requires Valid() && idx in free
      modifies this`freePages, this`free, bitmap
      ensures Valid() && free == old(free) - {idx} && freePages == old(freePages) - 1
    {
      WriteBit(bitmap[..], 8, idx, true);
      bitmap[idx / 8] := Put(bitmap[idx / 8], idx % 8, true);
      assert bitmap[..] == old(bitmap[..])[idx / 8 := Put(old(bitmap[idx / 8]), idx % 8, true)];
      freePages := freePages - 1;
      free := free - {idx};
    }

    /** `bm_clear`, and one page more to count. */
    method GivePage(idx: nat)
      requires Valid() && idx < totalPages
      modifies this`freePages, this`free, bitmap
      ensures Valid() && free == old(free) + {idx} && freePages == old(freePages) + 1
    {
      WriteBit(bitmap[..], 8, idx, false);
      bitmap[idx / 8] := Put(bitmap[idx / 8], idx % 8, false);
      assert bitmap[..] == old(bitmap[..])[idx / 8 := Put(old(bitmap[idx / 8]), idx % 8, false)];
      freePages := freePages + 1;
      free := free + {idx};
    }

    /** The lowest clear page is taken and its address returned; 0 is the NULL of the source. */
    method Alloc() returns (addr: nat)
      requires Valid()
      modifies this`freePages, this`free, bitmap
      ensures Valid() && Drift() == old(Drift())
      ensures old(free) == {} ==> addr == 0 && free == {}
      ensures old(free) != {} ==> exists page ::
                && addr == page * PAGE_SIZE && page in old(free) && free == old(free) - {page}
                && forall i | i in old(free) :: page <= i
    {
      var i := 0;
      while i < totalPages
        invariant i <= totalPages
        invariant forall j: nat | j < i :: j !in free
      {
        if !TestBit(bitmap[..], 8, i) {
          TakePage(i);
          return i * PAGE_SIZE;
        }
        i := i + 1;
      }
      return 0;
    }

    /** Clears the page's bit if it was set; any other argument changes nothing. */
    method Release(addr: nat)
      requires Valid()
      modifies this`freePages, this`free, bitmap
      ensures Valid() && Drift() == old(Drift())
      ensures free == if old(InUse(addr / PAGE_SIZE)) then old(free) + {addr / PAGE_SIZE} else old(free)
    {
      var idx := addr / PAGE_SIZE;
      if idx < totalPages && TestBit(bitmap[..], 8, idx) {
        GivePage(idx);
      }
    }

    /** `pmm_alloc` by page number, for callers that know page 0 is reserved; 0 when no page is left. */
    method AllocFrame() returns (page: nat)
      requires Valid() && 0 !in free
      modifies this`freePages, this`free, bitmap
      ensures Valid() && Drift() == old(Drift()) && 0 !in free
      ensures page == 0 ==> old(free) == {} && free == {}
      ensures page != 0 ==> page in old(free) && free == old(free) - {page}
    {
      var addr := Alloc();
      page := addr / PAGE_SIZE;
    }

    /** `pmm_free` of a page in use, by page number. */
    method ReleaseFrame(page: nat)
      requires Valid() && InUse(page)
      modifies this`freePages, this`free, bitmap
      ensures Valid() && Drift() == old(Drift()) && free == old(free) + {page}
    {
      assert page * PAGE_SIZE / PAGE_SIZE == page;
      Release(page * PAGE_SIZE);
    }

    // ---- Boot-time passes ----

    /** Pages first .. stop - 1 are made free, each counted whether or not it was free already. */
    method MarkRange(first: nat, stop: nat)
      requires Valid()
      modifies this`freePages, this`free, bitmap
      ensures Valid()
      ensures free == old(free) + Span(first, stop, totalPages)
      ensures freePages == old(freePages) + |Span(first, stop, totalPages)|
    {
      hide Valid, Span, Width;
      SpanWidth(first, stop, totalPages);
      SpanEmpty(first, stop, totalPages);
      var idx := first;
      while idx < stop
        invariant idx == first || first < idx <= stop
        invariant Valid()
        invariant free == old(free) + Span(first, idx, totalPages)
        invariant freePages == old(freePages) + Width(first, idx, totalPages)
      {
        SpanNext(first, idx, totalPages);
        if idx < totalPages {
          GivePage(idx);
        }
        idx := idx + 1;
      }
    }

    /** Pages below `stop` are taken back. */
    method ReserveBelow(stop: nat)
      requires Valid()
      modifies this`freePages, this`free, bitmap
      ensures Valid() && Drift() == old(Drift())
      ensures free == AtLeast(old(free), stop)
    {
      var idx := 0;
      while idx < stop
        invariant idx <= stop
        invariant Valid() && Drift() == old(Drift())
        invariant free == AtLeast(old(free), idx)
      {
        if idx < totalPages && !TestBit(bitmap[..], 8, idx) {
          TakePage(idx);
        }
        idx := idx + 1;
      }
    }
  }

  /** Pages first .. stop - 1 that exist, and their number. */
  function Span(first: nat, stop: nat, total: nat): set<int> {
    if stop <= first then {} else
    Span(first, stop - 1, total) + if stop - 1 < total then {stop - 1} else {}
  }

  function AtLeast(pages: set<int>, first: nat): set<int> {
    set i | i in pages && first <= i
  }

  function Width(first: nat, stop: nat, total: nat): nat {
    var top := if stop < total then stop else total;
    if first < top then top - first else 0
  }

  lemma SpanWidth(first: nat, stop: nat, total: nat)
    ensures forall i :: i in Span(first, stop, total) <==> i < total && first <= i < stop
    ensures |Span(first, stop, total)| == Width(first, stop, total)
  {}

  lemma SpanEmpty(first: nat, stop: nat, total: nat)
    ensures Span(first, first, total) == {} && Width(first, first, total) == 0
    ensures stop <= first ==> Span(first, stop, total) == {} && Width(first, stop, total) == 0
  {}

  lemma SpanNext(first: nat, idx: nat, total: nat)
    requires first <= idx
    ensures Span(first, idx + 1, total) == if idx < total then Span(first, idx, total) + {idx}
            else Span(first, idx, total)
    ensures Width(first, idx + 1, total) == if idx < total then Width(first, idx, total) + 1
            else Width(first, idx, total)
  {}
}
