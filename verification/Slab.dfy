/** mm/slab.c: the slab allocator for requests of 1 to 2048 bytes. */
module Slab {
  import opened Common
  import opened Bits
  import Pmm
  import opened SlabSpec

  /** `bitmap_find_free`: the first clear bit below max, or -1. */
  method FindFree(bits: seq<nat>, max: nat) returns (idx: int)
    requires max <= 64 * |bits|
    ensures -1 <= idx < max
    ensures idx >= 0 ==> !TestBit(bits, 64, idx) && forall j | 0 <= j < idx :: TestBit(bits, 64, j)
    ensures idx < 0 ==> forall j | 0 <= j < max :: TestBit(bits, 64, j)
  {
    for i := 0 to max
      invariant forall j | 0 <= j < i :: TestBit(bits, 64, j)
    {
      if !TestBit(bits, 64, i) {
        return i;
      }
    }
    return -1;
  }

  /** The list surgery of `slab_alloc` and `slab_free`: take page a, the k-th of the list, out of it. */
  method Unlink(m: Slabs, head: nat, a: nat, ghost s: seq<nat>, ghost k: nat) returns (m': Slabs, head': nat)
    requires Chain(m, head, s) && Distinct(s) && k < |s| && s[k] == a
    ensures m' == Unlinked(m, s, k) && head' == UnlinkedHead(m, head, s, k)
  {
    if head == a {
      return m, m[a].next;
    }
    var prev := head;
    ghost var j := 0;
    while m[prev].next != a
      invariant 0 <= j < k && prev == s[j]
      decreases k - j
    {
      assert m[s[j]].next == At(s, j + 1);
      prev, j := m[prev].next, j + 1;
    }
    assert m[s[j]].next == At(s, j + 1) && s[j + 1] == s[k];
    return m[prev := m[prev].(next := m[a].next)], head;
  }

  /** Same cache pages, same headers elsewhere. */
  ghost predicate Local(m: Slabs, m': Slabs, pages: set<nat>) {
    m'.Keys == m.Keys && forall b | b in m && b !in pages :: m'[b] == m[b]
  }

  /** The first free slot of the first partial slab; there always is one, so no second slab is ever created here. */
  method PickSlot(m: Slabs, c: Cache, ghost l: Lists, ghost cap: nat) returns (idx: nat)
    requires ListsOk(m, c, l, 0, cap) && c.partial != 0
    ensures c.partial in m && c.partial in l.Pages() && l.partial != []
    ensures idx < m[c.partial].total <= 64 * |m[c.partial].bits| && !TestBit(m[c.partial].bits, 64, idx)
    ensures m[c.partial].freeObjs > 0 && forall i: nat | i < idx :: (c.partial, i) in Live(m, l.Pages())
  {
    EmptyChain(m, c.partial, l.partial);
    var a := c.partial;
    assert a == l.partial[0];
    AllSet(m[a].bits, m[a].total);
    var found := FindFree(m[a].bits, m[a].total);
    if found < 0 {
      assert false;
    }
    idx := found;
    forall i: nat | i < idx
      ensures (a, i) in Live(m, l.Pages())
    {
      assert i in Taken(m[a]);
    }
  }

  /** A slot of the first partial slab has just been taken; if it was the last, the slab goes over to the full list. */
  method RetireIfFull(m: Slabs, c: Cache, ghost l: Lists, ghost cap: nat)
    returns (m': Slabs, c': Cache, ghost l': Lists)
    requires l.partial != [] && ListsOk(m, c, l, c.partial, cap) && NoIdle(m, c, l, c.partial)
    requires m[c.partial].freeObjs < m[c.partial].total
    ensures ListsOk(m', c', l', 0, cap) && NoIdle(m', c', l', 0) && c'.objSize == c.objSize
    ensures l'.Pages() == l.Pages() && Live(m', l.Pages()) == Live(m, l.Pages()) && Local(m, m', l.Pages())
  {
    var a := c.partial;
    assert a == l.partial[0];
    if m[a].freeObjs > 0 {
      return m, c, l;
    }
    var head;
    m', head := Unlink(m, c.partial, a, l.partial, 0);
    m' := m'[a := m'[a].(next := c.full)];
    c' := c.(partial := head, full := a);
    l' := Lists(l.partial[1..], [a] + l.full);
    PartialToFull(m, m', c, c', l, l');
    MoveSettles(m, m', c, c', l, l', a, true, cap);
  }

  lemma NoIdleKept(m: Slabs, m': Slabs, c: Cache, c': Cache, l: Lists, a: nat)
    requires NoIdle(m, c, l, a) && c'.slabs == c.slabs && a in m' && m' == m[a := m'[a]]
    ensures NoIdle(m', c', l, a)
  {}

  /** The part of `slab_alloc` after a partial slab is at hand: one of its free slots is handed out. */
  method TakeSlot(m: Slabs, c: Cache, ghost l: Lists, ghost cap: nat)
    returns (m': Slabs, c': Cache, a: nat, idx: nat, ghost l': Lists)
    requires c.partial != 0 && ListsOk(m, c, l, 0, cap) && NoIdle(m, c, l, c.partial)
    ensures ListsOk(m', c', l', 0, cap) && NoIdle(m', c', l', 0) && c'.objSize == c.objSize && l'.Pages() == l.Pages()
    ensures a in l.Pages() && (a, idx) !in Live(m, l.Pages()) && Live(m', l.Pages()) == Live(m, l.Pages()) + {(a, idx)}
    ensures a == c.partial && (forall i: nat | i < idx :: (a, i) in Live(m, l.Pages())) && Local(m, m', l.Pages())
  {
    hide ListsOk, NoIdle, Live;
    a := c.partial;
    idx := PickSlot(m, c, l, cap);
    m' := m[a := SetSlot(m[a], idx, true)];
    c' := c.(allocs := c.allocs + 1);
    WriteStep(m, m', c, c', l, a, idx, true, cap);
    NoIdleKept(m, m', c, c', l, a);
    m', c', l' := RetireIfFull(m', c', l, cap);
  }

  /**
   * A slot of a full slab, the k-th of the full list, has just been given back: the slab goes over to the partial list.
   */
  method ReviveFull(m: Slabs, c: Cache, a: nat, ghost l: Lists, ghost k: nat, ghost cap: nat)
    returns (m': Slabs, c': Cache, ghost l': Lists)
    requires k < |l.full| && a == l.full[k] && ListsOk(m, c, l, a, cap) && NoIdle(m, c, l, a) && m[a].freeObjs > 0
    ensures ListsOk(m', c', l', 0, cap) && NoIdle(m', c', l', a)
    ensures c'.objSize == c.objSize && c'.slabs == c.slabs && l'.partial != [] && l'.partial[0] == a
    ensures l'.Pages() == l.Pages() && Live(m', l.Pages()) == Live(m, l.Pages()) && Local(m, m', l.Pages())
    ensures |l'.partial| + |l'.full| == |l.partial| + |l.full|
  {
    hide Live, HeadersOk, Counted, Sorted;
    var head;
    m', head := Unlink(m, c.full, a, l.full, k);
    ghost var m1 := m';
    UnlinkChain(m, c.full, l.full, k);
    m' := m'[a := m'[a].(next := c.partial)];
    c' := c.(partial := a, full := head);
    l' := Lists([a] + l.partial, Without(l.full, k));
    FullToPartial(m, m1, m', c, c', l, l', k);
    MoveSettles(m, m', c, c', l, l', a, false, cap);
  }

  /**
   * The end of `slab_free`: a slab left without objects, the k-th of the partial list, is given up unless at most two
   * remain.
   */
  method DropIfIdle(m: Slabs, c: Cache, a: nat, ghost l: Lists, ghost k: nat, ghost cap: nat)
    returns (m': Slabs, c': Cache, dropped: bool, ghost l': Lists)
    requires k < |l.partial| && a == l.partial[k] && ListsOk(m, c, l, 0, cap) && NoIdle(m, c, l, a)
    ensures ListsOk(m', c', l', 0, cap) && NoIdle(m', c', l', 0) && c'.objSize == c.objSize
    ensures l'.Pages() == if dropped then l.Pages() - {a} else l.Pages()
    ensures m'.Keys == if dropped then m.Keys - {a} else m.Keys
    ensures Live(m', l'.Pages()) == Live(m, l.Pages())
    ensures forall b | b in m && b !in l.Pages() :: b in m' && m'[b] == m[b]
    ensures dropped <==> a in m && Taken(m[a]) == {} && |l.partial| + |l.full| > 2
  {
    assert a in l.Pages() && HeaderOk(m[a], c.objSize, cap);
    if m[a].freeObjs == m[a].total && c.slabs > 2 {
      var head;
      UnlinkChain(m, c.partial, l.partial, k);
      m', head := Unlink(m, c.partial, a, l.partial, k);
      m' := m' - {a};
      c' := c.(partial := head, slabs := c.slabs - 1);
      dropped, l' := true, Lists(Without(l.partial, k), l.full);
      DropSlab(m, m', c, c', l, l', k, cap);
      IdleAfterDrop(m, m', c, c', l, l', k);
    } else {
      m', c', dropped, l' := m, c, false, l;
    }
  }

  lemma IdleAfterDrop(m: Slabs, m': Slabs, c: Cache, c': Cache, l: Lists, l': Lists, k: nat)
    requires Threaded(m, c, l) && k < |l.partial| && NoIdle(m, c, l, l.partial[k]) && c.slabs > 2
    requires m' == Unlinked(m, l.partial, k) - {l.partial[k]} && l' == Lists(Without(l.partial, k), l.full)
    ensures NoIdle(m', c', l', 0)
  {
    UnlinkChain(m, c.partial, l.partial, k);
  }

  /** `slab_free` once the object is known to be live: the slot is given back, and the slab filed anew or given up. */
  method GiveSlot(m: Slabs, c: Cache, a: nat, idx: nat, ghost l: Lists, ghost cap: nat)
    returns (m': Slabs, c': Cache, dropped: bool, ghost l': Lists)
    requires ListsOk(m, c, l, 0, cap) && NoIdle(m, c, l, 0) && a in l.Pages() && a in m
    requires idx < m[a].total <= 64 * |m[a].bits| && TestBit(m[a].bits, 64, idx)
    ensures ListsOk(m', c', l', 0, cap) && NoIdle(m', c', l', 0) && c'.objSize == c.objSize
    ensures l'.Pages() == if dropped then l.Pages() - {a} else l.Pages()
    ensures m'.Keys == if dropped then m.Keys - {a} else m.Keys
    ensures (a, idx) in Live(m, l.Pages()) && Live(m', l'.Pages()) == Live(m, l.Pages()) - {(a, idx)}
    ensures dropped <==> Sole(Live(m, l.Pages()), (a, idx)) && |l.partial| + |l.full| > 2
    ensures forall b | b in m && b !in l.Pages() :: b in m' && m'[b] == m[b]
  {
    hide ListsOk, NoIdle, Live, SetSlot;
    var wasFull := m[a].freeObjs == 0;
    ghost var k := WhereOnList(m, c, l, a, cap);
    m' := m[a := SetSlot(m[a], idx, false)];
    c' := c.(frees := c.frees + 1);
    ghost var m1, c1 := m', c';
    WriteStep(m, m1, c, c1, l, a, idx, false, cap);
    NoIdleWrite(m, m1, c, c1, l, a, idx, cap);
    m', c', l', k := Refile(m', c', a, wasFull, l, k, cap);
    NoneTaken(m', l.Pages(), a);
    m', c', dropped, l' := DropIfIdle(m', c', a, l', k, cap);
  }

  lemma NoneTaken(m: Slabs, pages: set<nat>, a: nat)
    requires a in pages && a in m
    ensures Taken(m[a]) == {} <==> forall x | x in Live(m, pages) :: x.0 != a
  {
    if Taken(m[a]) != {} {
      var i := Pick(Taken(m[a]));
      assert (a, i) in Live(m, pages);
    }
  }

  lemma NoIdleWrite(m: Slabs, m': Slabs, c: Cache, c': Cache, l: Lists, a: nat, idx: nat, cap: nat)
    requires ListsOk(m, c, l, 0, cap) && NoIdle(m, c, l, 0) && SlotWritten(m, m', a, idx, false) && c'.slabs == c.slabs
    ensures NoIdle(m', c', l, a) && m'[a].freeObjs > 0
  {}

  /** A full slab with a slot given back changes lists; any other stays where it is. */
  method Refile(m: Slabs, c: Cache, a: nat, wasFull: bool, ghost l: Lists, ghost k: nat, ghost cap: nat)
    returns (m': Slabs, c': Cache, ghost l': Lists, ghost k': nat)
    requires ListsOk(m, c, l, a, cap) && NoIdle(m, c, l, a) && a in m && m[a].freeObjs > 0
    requires wasFull ==> k < |l.full| && l.full[k] == a
    requires !wasFull ==> k < |l.partial| && l.partial[k] == a
    ensures k' < |l'.partial| && l'.partial[k'] == a
    ensures ListsOk(m', c', l', 0, cap) && NoIdle(m', c', l', a) && c'.objSize == c.objSize
    ensures l'.Pages() == l.Pages() && Live(m', l.Pages()) == Live(m, l.Pages()) && Local(m, m', l.Pages())
    ensures |l'.partial| + |l'.full| == |l.partial| + |l.full|
  {
    if wasFull {
      m', c', l' := ReviveFull(m, c, a, l, k, cap);
      k' := 0;
    } else {
      StillPartial(m, c, l, a, cap);
      m', c', l', k' := m, c, l, k;
    }
  }

  /** Where slab a stands: on the full list if it has no free slot, else on the partial list. */
  ghost method WhereOnList(m: Slabs, c: Cache, l: Lists, a: nat, cap: nat) returns (k: nat)
    requires ListsOk(m, c, l, 0, cap) && a in l.Pages() && a in m
    ensures m[a].freeObjs == 0 ==> k < |l.full| && l.full[k] == a
    ensures m[a].freeObjs > 0 ==> k < |l.partial| && l.partial[k] == a
  {
    if m[a].freeObjs == 0 {
      k :| 0 <= k < |l.full| && l.full[k] == a;
    } else {
      k :| 0 <= k < |l.partial| && l.partial[k] == a;
    }
  }

  lemma StillPartial(m: Slabs, c: Cache, l: Lists, a: nat, cap: nat)
    requires ListsOk(m, c, l, a, cap) && a in l.partial && a in m && m[a].freeObjs > 0
    ensures ListsOk(m, c, l, 0, cap)
  {}
}
