/** kernel/proc/elf.c: loading an executable into an address space, page by page. */
module Elf {
  import opened Common
  import Pmm
  import opened PageTables
  import opened Vmm
  import FlatMap
  import ForkSpec
  import opened MissingTables
  import opened ElfSpec

  /** The outcome. `NoTable` is where the source would go on with a NULL table. */
  datatype Result = Loaded(entry: nat, loadEnd: nat) | Refused | BelowBase | NoMemory | NoTable

  // ---- One page ----

  method CopyInto(page: array<nat>, at: nat, file: seq<nat>, from: nat, n: nat)
    requires at + n <= page.Length && from + n <= |file|
    modifies page
    ensures forall i | 0 <= i < page.Length ::
              page[i] == if at <= i < at + n then file[from + (i - at)] else old(page[i])
  {
    for k := 0 to n
      invariant forall i | 0 <= i < page.Length ::
                  page[i] == if at <= i < at + k then file[from + (i - at)] else old(page[i])
    {
      page[at + k] := file[from + k];
    }
  }

  /** The page of segment ph at virtual page v: zeros, and the part of the file that falls into it. */
  method FillPage(file: seq<nat>, ph: Segment, v: nat) returns (bytes: seq<nat>)
    requires ph.offset + ph.filesz <= |file| && FirstPage(ph) <= v
    ensures bytes == PageBytes(file, ph, v)
  {
    var page := new nat[PAGE_SIZE](_ => 0);
    var va := v * PAGE_SIZE;
    if va >= ph.vaddr && ph.filesz > 0 {
      var off := va - ph.vaddr;
      if off < ph.filesz {
        var copy := PAGE_SIZE;
        if copy > ph.filesz - off {
          copy := ph.filesz - off;
        }
        CopyInto(page, 0, file, ph.offset + off, copy);
      }
    } else if ph.vaddr > va {
      var off := ph.vaddr - va;
      var copy := PAGE_SIZE - off;
      if copy > ph.filesz {
        copy := ph.filesz;
      }
      if copy > 0 {
        CopyInto(page, off, file, ph.offset, copy);
      }
    }
    bytes := page[..];
    assert forall i | 0 <= i < PAGE_SIZE :: bytes[i] == ByteAt(file, ph, v * PAGE_SIZE + i);
  }

  // ---- The image in the tree ----

  /** Where loading began. */
  datatype Begun = Begun(m: Memory, own: Owners, free: set<int>)

  /**
   * How far it has come: the tables of the tree, the pages loaded, the image so far, the frame behind each page of it,
   * and the frames of pages that a later segment was mapped over.
   */
  datatype Loading = Loading(own: Owners, loads: seq<nat>, img: Image, frames: map<nat, nat>, lost: set<nat>) {
    /** With page v in frame f, and the tables that took. */
    ghost function With(own': Owners, v: nat, page: Page, f: nat): Loading {
      Loading(own', loads + [v], img[v := page], frames[v := f], if v in frames then lost + {frames[v]} else lost)
    }
  }

  /** `vmm_flags`: present and for the user, writable only if asked for. */
  function PageFlags(writable: bool): nat {
    if writable then 1 + VMM_USER + VMM_WRITABLE else 1 + VMM_USER
  }

  /** Page v of the tree is ordinary memory in frame f, which belongs to neither the tree's tables nor the allocator. */
  ghost predicate PageIs(m: Memory, s: Space, own: Owners, free: set<int>, v: nat, f: nat, page: Page) {
    && Leaf(m, s, PathOf(v * PAGE_SIZE)) == MakeLeaf(f * PAGE_SIZE, PageFlags(page.writable))
    && Node(m, s, PathOf(v * PAGE_SIZE)) == Some(f)
    && IsRaw(m, f) && m[f].bytes == page.bytes && f !in own && f !in free
  }

  /** Every page of the image is in the tree, in a frame of its own. */
  ghost predicate ImageHeld(b: Begun, m: Memory, s: Space, own: Owners, free: set<int>, img: Image,
                            frames: map<nat, nat>) {
    && frames.Keys == img.Keys
    && (forall v | v in img :: PageIs(m, s, own, free, v, frames[v], img[v]) && frames[v] in b.free)
    && (forall v, w | v in img && w in img && v != w :: frames[v] != frames[w])
  }

  /** Every page outside the image is mapped as it was to begin with. */
  ghost predicate Elsewhere(b: Begun, m: Memory, s: Space, img: Image) {
    forall p | |p| == 4 && (forall v | v in img :: p != PathOf(v * PAGE_SIZE)) :: Leaf(m, s, p) == Leaf(b.m, s, p)
  }

  /** Memory in use by anybody else is as it was to begin with. */
  ghost predicate OthersKept(b: Begun, m: Memory, own: Owners) {
    && (forall f | f in b.m && f !in b.free && f !in b.own :: f in m && m[f] == b.m[f])
    && (forall f | f in own :: f in b.own || f in b.free)
  }

  ghost predicate Holds(b: Begun, m: Memory, s: Space, free: set<int>, g: Loading) {
    && Sound(m, s, g.own, free) && free <= b.free
    && ImageHeld(b, m, s, g.own, free, g.img, g.frames) && Elsewhere(b, m, s, g.img) && OthersKept(b, m, g.own)
    && Accounted(b, m, s, free, g) && Tally(g)
  }

  /** Every load gave a frame, which is now behind a page of the image or lost. */
  ghost predicate Tally(g: Loading) {
    g.img.Keys == Elems(g.loads) && |g.frames| + |g.lost| == |g.loads|
  }

  function Fresh(own: Owners): Loading {
    Loading(own, [], map[], map[], {})
  }

  lemma HoldsNothing(m: Memory, s: Space, own: Owners, free: set<int>)
    requires Sound(m, s, own, free)
    ensures Holds(Begun(m, own, free), m, s, free, Fresh(own))
  {
    ExtendsRefl(m, own, free, s);
    NoneGrown(m, own, free, m, s);
    hide Grown;
    assert PathsTo({}) == {};
  }

  /** A free page turned into ordinary memory is not noticed by the tree. */
  lemma RawAdded(m: Memory, s: Space, own: Owners, free: set<int>, f: nat, bytes: seq<nat>)
    requires Sound(m, s, own, free) && f in free
    ensures Sound(m[f := Raw(bytes)], s, own, free - {f}) && SameLeaves(m, m[f := Raw(bytes)], s)
    ensures OpenTables(m, s) ==> OpenTables(m[f := Raw(bytes)], s)
    ensures forall p | |p| <= 4 :: Node(m[f := Raw(bytes)], s, p) == Node(m, s, p)
  {
    var m' := m[f := Raw(bytes)];
    hide UserBit, WriteBit;
    forall p | |p| <= 4
      ensures Node(m', s, p) == Node(m, s, p)
    {
      SameNode(m, m', s, own, p);
    }
  }

  /** Below the kernel half every page lies under the user entries of the PML4, and has its own path. */
  lemma UserPage(v: nat)
    requires v * PAGE_SIZE < USER_END
    ensures PathOf(v * PAGE_SIZE)[0] < 256
  {
    PathBits(v * PAGE_SIZE);
  }

  lemma DistinctPages(v: nat, w: nat)
    requires v * PAGE_SIZE < USER_END && w * PAGE_SIZE < USER_END && w != v
    ensures PathOf(v * PAGE_SIZE) != PathOf(w * PAGE_SIZE)
  {
    hide PathOf;
    FlatMap.SamePage(v * PAGE_SIZE, w * PAGE_SIZE);
  }

  /** What `vmm_map` writes for a fresh page: a present entry for exactly that frame. */
  lemma FreshLeaf(f: nat, flags: nat)
    requires flags < PAGE_SIZE
    ensures Present(MakeLeaf(f * PAGE_SIZE, flags)) && FrameOf(MakeLeaf(f * PAGE_SIZE, flags)) == f
  {
    var low := flags % PAGE_SIZE;
    var fl := if Present(low) then low else low + 1;
    assert f * PAGE_SIZE / PAGE_SIZE == f;
    EntryParts(f, fl);
  }

  lemma PageKept(m: Memory, own: Owners, free: set<int>, f: nat, bytes: seq<nat>, m1: Memory,
                 m': Memory, own': Owners, free': set<int>, s: Space, v: nat, e: nat, w: nat, g: nat, page: Page)
    requires Sound(m, s, own, free) && f in free && m1 == m[f := Raw(bytes)]
    requires SameLeaves(m, m1, s) && Extends(m1, own, free - {f}, m', own', free', s)
    requires LeafSet(m1, m', s, PathOf(v * PAGE_SIZE), e) && PathOf(w * PAGE_SIZE) != PathOf(v * PAGE_SIZE)
    requires PageIs(m, s, own, free, w, g, page)
    ensures PageIs(m', s, own', free', w, g, page)
  {
    ForkSpec.DataNode(m, s, PathOf(w * PAGE_SIZE));
    ForkSpec.DataNode(m', s, PathOf(w * PAGE_SIZE));
  }

  lemma PageAdded(own: Owners, free: set<int>, f: nat, page: Page, m1: Memory,
                  m': Memory, own': Owners, free': set<int>, s: Space, v: nat, e: nat)
    requires f in free && f !in own && f in m1 && m1[f] == Raw(page.bytes) && |page.bytes| == PAGE_SIZE
    requires Extends(m1, own, free - {f}, m', own', free', s)
    requires LeafSet(m1, m', s, PathOf(v * PAGE_SIZE), e) && e == MakeLeaf(f * PAGE_SIZE, PageFlags(page.writable))
    requires Present(e) && FrameOf(e) == f
    ensures PageIs(m', s, own', free', v, f, page)
  {
    ForkSpec.DataNode(m', s, PathOf(v * PAGE_SIZE));
  }

  lemma HeldMore(b: Begun, m: Memory, s: Space, own: Owners, free: set<int>, img: Image, frames: map<nat, nat>,
                 f: nat, page: Page, m1: Memory, m': Memory, own': Owners, free': set<int>, v: nat, e: nat)
    requires Sound(m, s, own, free) && free <= b.free && ImageHeld(b, m, s, own, free, img, frames)
    requires f in free && m1 == m[f := Raw(page.bytes)] && |page.bytes| == PAGE_SIZE
    requires SameLeaves(m, m1, s) && Extends(m1, own, free - {f}, m', own', free', s)
    requires LeafSet(m1, m', s, PathOf(v * PAGE_SIZE), e) && Present(e) && FrameOf(e) == f
             && e == MakeLeaf(f * PAGE_SIZE, PageFlags(page.writable))
    requires v * PAGE_SIZE < USER_END && BelowEnd(img)
    ensures ImageHeld(b, m', s, own', free', img[v := page], frames[v := f])
  {
    hide Extends, SameLeaves, LeafSet, PathOf, Node, Sound;
    SoundApart(m, s, own, free, f);
    PageAdded(own, free, f, page, m1, m', own', free', s, v, e);
    forall w | w in img && w != v
      ensures PageIs(m', s, own', free', w, frames[w], img[w])
    {
      DistinctPages(v, w);
      PageKept(m, own, free, f, page.bytes, m1, m', own', free', s, v, e, w, frames[w], img[w]);
    }
    assert forall x | x in img :: PageIs(m, s, own, free, x, frames[x], img[x]);
  }

  lemma SoundApart(m: Memory, s: Space, own: Owners, free: set<int>, f: nat)
    requires Sound(m, s, own, free) && f in free
    ensures f !in own
  {}

  lemma ElsewhereMore(b: Begun, m: Memory, s: Space, img: Image, m1: Memory, m': Memory, v: nat, page: Page, e: nat)
    requires Elsewhere(b, m, s, img) && SameLeaves(m, m1, s) && LeafSet(m1, m', s, PathOf(v * PAGE_SIZE), e)
    ensures Elsewhere(b, m', s, img[v := page])
  {
    hide PathOf, Leaf;
    var img' := img[v := page];
    forall p | |p| == 4 && (forall w | w in img' :: p != PathOf(w * PAGE_SIZE))
      ensures Leaf(m', s, p) == Leaf(b.m, s, p)
    {
      assert v in img';
      assert forall w | w in img :: w in img';
    }
  }

  lemma OthersMore(b: Begun, m: Memory, s: Space, own: Owners, free: set<int>, f: nat, bytes: seq<nat>, m1: Memory,
                   m': Memory, own': Owners, free': set<int>)
    requires OthersKept(b, m, own) && free <= b.free && f in free && m1 == m[f := Raw(bytes)]
    requires Extends(m1, own, free - {f}, m', own', free', s)
    ensures OthersKept(b, m', own') && free' <= b.free && Sound(m', s, own', free')
  {
    hide Sound;
  }

  /** One more page loaded. */
  lemma HoldsMore(b: Begun, m: Memory, s: Space, free: set<int>, g: Loading,
                  f: nat, page: Page, m1: Memory, m': Memory, own': Owners, free': set<int>, v: nat, e: nat)
    requires Holds(b, m, s, free, g) && f in free && m1 == m[f := Raw(page.bytes)] && |page.bytes| == PAGE_SIZE
    requires SameLeaves(m, m1, s) && Extends(m1, g.own, free - {f}, m', own', free', s)
    requires Grown(b.m, m', s, PathsTo(g.frames.Keys) + {PathOf(v * PAGE_SIZE)})
    requires LeafSet(m1, m', s, PathOf(v * PAGE_SIZE), e) && Present(e) && FrameOf(e) == f
    requires e == MakeLeaf(f * PAGE_SIZE, PageFlags(page.writable))
    requires v * PAGE_SIZE < USER_END && BelowEnd(g.img)
    ensures Holds(b, m', s, free', g.With(own', v, page, f))
  {
    hide PathOf, ImageHeld, Elsewhere, OthersKept, Extends, SameLeaves, LeafSet, Sound, Accounted, Grown, Tally;
    HeldMore(b, m, s, g.own, free, g.img, g.frames, f, page, m1, m', own', free', v, e);
    ElsewhereMore(b, m, s, g.img, m1, m', v, page, e);
    OthersMore(b, m, s, g.own, free, f, page.bytes, m1, m', own', free');
    SoundApart(m, s, g.own, free, f);
    HeldFrames(b, m, s, free, g);
    AccountedMore(b, m, s, free, g, f, page, m1, m', own', free', v);
    LostApart(b, m, s, free, g);
    TallyMore(g, own', v, page, f);
  }

  // ---- Where the pages went ----

  ghost function PathsTo(pages: set<nat>): set<Path> {
    set v | v in pages :: PathOf(v * PAGE_SIZE)
  }

  lemma PathsToMore(pages: set<nat>, v: nat)
    ensures PathsTo(pages + {v}) == PathsTo(pages) + {PathOf(v * PAGE_SIZE)}
  {
    hide PathOf;
  }

  /**
   * Every page that was free at the start is still free, or a new table, or the frame of an image page, or lost, and
   * only one of these.
   */
  ghost predicate Parted(b: Begun, own: Owners, free: set<int>, frames: map<nat, nat>, lost: set<nat>) {
    && Keeps(b.own, own) && AllShort(b.own, own)
    && (forall f | f in own && f !in b.own :: f in b.free)
    && (forall f | f in b.free :: f in free || f in own || f in frames.Values || f in lost)
    && (forall f | f in lost :: f in b.free && f !in free && f !in own && f !in frames.Values)
  }

  /** All pages accounted for, and the new tables those that were missing. */
  ghost predicate Accounted(b: Begun, m: Memory, s: Space, free: set<int>, g: Loading) {
    Parted(b, g.own, free, g.frames, g.lost) && Grown(b.m, m, s, PathsTo(g.frames.Keys))
  }

  /** The frames of the image: free at the start, in use now, each behind one page. */
  ghost predicate OwnFrames(b: Begun, own: Owners, free: set<int>, frames: map<nat, nat>) {
    && (forall w | w in frames :: frames[w] in b.free && frames[w] !in free && frames[w] !in own)
    && (forall w, x | w in frames && x in frames && w != x :: frames[w] != frames[x])
  }

  lemma AccountedMore(b: Begun, m: Memory, s: Space, free: set<int>, g: Loading, f: nat, page: Page, m1: Memory,
                      m': Memory, own': Owners, free': set<int>, v: nat)
    requires Accounted(b, m, s, free, g) && free <= b.free && f in free && f !in g.own
    requires OwnFrames(b, g.own, free, g.frames)
    requires Extends(m1, g.own, free - {f}, m', own', free', s)
    requires Grown(b.m, m', s, PathsTo(g.frames.Keys) + {PathOf(v * PAGE_SIZE)})
    ensures Accounted(b, m', s, free', g.With(own', v, page, f))
  {
    hide PathOf, Sound, Grown, PathsTo, Parted, OwnFrames, Extends;
    OneKeyMore(g.frames, v, f);
    PathsToMore(g.frames.Keys, v);
    PartedMore(b, g.own, free, g.frames, g.lost, f, v);
    var g' := g.With(own', v, page, f);
    PartedTables(b, s, free - {f}, g'.frames, g'.lost, m1, g.own, m', own', free');
  }

  /** Frame f is now behind page v. */
  lemma PartedMore(b: Begun, own: Owners, free: set<int>, frames: map<nat, nat>, lost: set<nat>, f: nat, v: nat)
    requires Parted(b, own, free, frames, lost) && OwnFrames(b, own, free, frames) && f in free && f !in own
    requires free <= b.free
    ensures Parted(b, own, free - {f}, frames[v := f], if v in frames then lost + {frames[v]} else lost)
  {
    hide Keeps, AllShort;
    ValuesMore(frames, v, f);
    ValuesOwn(b, own, free, frames);
  }

  /** Free pages became tables. */
  lemma PartedTables(b: Begun, s: Space, free: set<int>, frames: map<nat, nat>, lost: set<nat>, m: Memory, own: Owners,
                     m': Memory, own': Owners, free': set<int>)
    requires Parted(b, own, free, frames, lost) && free <= b.free && Extends(m, own, free, m', own', free', s)
    ensures Parted(b, own', free', frames, lost)
  {
    hide Sound;
  }

  lemma ValuesMore(frames: map<nat, nat>, v: nat, f: nat)
    ensures forall x :: x in frames[v := f].Values ==> x == f || x in frames.Values
    ensures forall x :: x in frames.Values ==> x in frames[v := f].Values || (v in frames && x == frames[v])
    ensures f in frames[v := f].Values
    ensures (forall w | w in frames && w != v && v in frames :: frames[w] != frames[v]) && v in frames
            && frames[v] != f ==>
              frames[v] !in frames[v := f].Values
  {
    var frames' := frames[v := f];
    assert frames'[v] == f;
    forall x | x in frames.Values
      ensures x in frames'.Values || (v in frames && x == frames[v])
    {
      var w :| w in frames && frames[w] == x;
      if w != v {
        assert frames'[w] == x;
      }
    }
  }

  lemma TallyMore(g: Loading, own': Owners, v: nat, page: Page, f: nat)
    requires Tally(g) && g.lost !! g.frames.Values
    ensures Tally(g.With(own', v, page, f))
  {
    hide Elems, Repeats;
    OneLoadMore(g.loads, v);
    OneKeyMore(g.img, v, page);
    OneFrameMore(g.frames, g.lost, v, f);
  }

  lemma OneKeyMore<T>(pages: map<nat, T>, v: nat, x: T)
    ensures pages[v := x].Keys == pages.Keys + {v}
  {}

  lemma OneFrameMore(frames: map<nat, nat>, lost: set<nat>, v: nat, f: nat)
    requires lost !! frames.Values
    ensures |frames[v := f]| + |if v in frames then lost + {frames[v]} else lost| == |frames| + |lost| + 1
  {
    OneKeyMore(frames, v, f);
    if v in frames {
      assert frames[v] in frames.Values;
      assert frames.Keys + {v} == frames.Keys;
    }
  }

  lemma LostApart(b: Begun, m: Memory, s: Space, free: set<int>, g: Loading)
    requires Accounted(b, m, s, free, g)
    ensures g.lost !! g.frames.Values
  {
    hide Grown, PathsTo, Keeps, AllShort;
  }

  lemma {:induction false} SomeValues(frames: map<nat, nat>, keys: set<nat>)
    requires keys <= frames.Keys
    requires forall w, x | w in frames && x in frames && w != x :: frames[w] != frames[x]
    ensures |set v | v in keys :: frames[v]| == |keys|
    decreases keys
  {
    if v :| v in keys {
      SomeValues(frames, keys - {v});
      assert (set w | w in keys :: frames[w]) == (set w | w in keys - {v} :: frames[w]) + {frames[v]};
    }
  }

  lemma ValuesCount(frames: map<nat, nat>)
    requires forall w, x | w in frames && x in frames && w != x :: frames[w] != frames[x]
    ensures |frames.Values| == |frames|
  {
    SomeValues(frames, frames.Keys);
    assert frames.Values == set v | v in frames.Keys :: frames[v];
  }

  lemma FourParts<T(!new)>(all: set<T>, x: set<T>, y: set<T>, z: set<T>, w: set<T>)
    requires forall f :: f in all <==> f in x || f in y || f in z || f in w
    requires x !! y !! z !! w
    ensures |all| == |x| + |y| + |z| + |w|
  {
    assert all == x + y + z + w;
  }

  /** So the number of pages gone is the number of new tables and of pages loaded. */
  lemma PagesGone(b: Begun, own: Owners, free: set<int>, frames: map<nat, nat>, lost: set<nat>)
    requires Parted(b, own, free, frames, lost) && OwnFrames(b, own, free, frames) && free <= b.free
    requires forall f | f in b.own :: f !in b.free
    requires forall f | f in own :: f !in free
    ensures |b.free| == |free| + |Gained(b.own, own)| + |frames| + |lost|
  {
    ValuesCount(frames);
    ValuesOwn(b, own, free, frames);
    hide OwnFrames;
    var gained := Gained(b.own, own);
    forall x: int
      ensures x in b.free <==> x in free || x in gained || x in frames.Values || x in lost
      ensures x in gained ==> x !in free && x !in frames.Values
    {
      assert x in own <==> x in own.Keys;
      assert x in b.own <==> x in b.own.Keys;
    }
    FourParts<int>(b.free, free, gained, frames.Values, lost);
  }

  lemma ValuesOwn(b: Begun, own: Owners, free: set<int>, frames: map<nat, nat>)
    requires OwnFrames(b, own, free, frames)
    ensures forall f | f in frames.Values :: f in b.free && f !in free && f !in own
  {}

  lemma HeldFrames(b: Begun, m: Memory, s: Space, free: set<int>, g: Loading)
    requires ImageHeld(b, m, s, g.own, free, g.img, g.frames)
    ensures OwnFrames(b, g.own, free, g.frames) && g.frames.Keys == g.img.Keys
  {
    hide PathOf, Leaf, Node, MakeLeaf;
    forall w | w in g.frames
      ensures g.frames[w] in b.free && g.frames[w] !in free && g.frames[w] !in g.own
    {
      assert w in g.frames.Keys;
      assert PageIs(m, s, g.own, free, w, g.frames[w], g.img[w]);
    }
  }

  /** What loading these pages takes: one each, and one for every table that was missing on the way to them. */
  ghost function Cost(b: Begun, s: Space, loads: seq<nat>): nat {
    |Missing(b.m, s, PathsTo(Elems(loads)))| + |loads|
  }

  /** At any time, as many pages are gone as tables were missing and pages have been loaded. */
  lemma Spent(b: Begun, m: Memory, s: Space, free: set<int>, g: Loading)
    requires Sound(b.m, s, b.own, b.free) && Holds(b, m, s, free, g)
    ensures |b.free| == |free| + Cost(b, s, g.loads)
  {
    hide Elsewhere, OthersKept, Gained, Missing, ImageHeld, Sound, Grown, Keeps, AllShort, PathsTo, Elems;
    HeldFrames(b, m, s, free, g);
    GrownGained(b.m, b.own, b.free, m, g.own, free, s, PathsTo(g.img.Keys));
    SoundFree(b.m, s, b.own, b.free);
    SoundFree(m, s, g.own, free);
    PagesGone(b, g.own, free, g.frames, g.lost);
  }

  lemma MoreMissing(b: Begun, s: Space, pages: set<nat>, pages': set<nat>)
    requires pages <= pages'
    ensures |Missing(b.m, s, PathsTo(pages))| <= |Missing(b.m, s, PathsTo(pages'))|
  {
    hide PathOf, Missing;
    MissingMono(b.m, s, PathsTo(pages), PathsTo(pages'));
    SubsetCount(Missing(b.m, s, PathsTo(pages)), Missing(b.m, s, PathsTo(pages')));
  }

  /** Loading more takes more. */
  lemma CostMore(b: Begun, s: Space, loads: seq<nat>, j: nat)
    requires j < |loads|
    ensures Cost(b, s, loads[..j]) < Cost(b, s, loads)
  {
    hide Missing, PathsTo;
    MoreMissing(b, s, Elems(loads[..j]), Elems(loads));
  }

  /** As many of these pages, in order, as can be loaded. */
  ghost function Affords(b: Begun, s: Space, loads: seq<nat>): seq<nat> {
    if loads == [] || Cost(b, s, loads) <= |b.free| then loads else Affords(b, s, loads[..|loads| - 1])
  }

  lemma {:induction false} AffordsIs(b: Begun, s: Space, loads: seq<nat>, j: nat)
    requires j <= |loads| && Cost(b, s, loads[..j]) <= |b.free|
    requires j < |loads| ==> |b.free| < Cost(b, s, loads[..j + 1])
    ensures Affords(b, s, loads) == loads[..j]
    decreases |loads|
  {
    hide Cost;
    if j == |loads| {
      assert loads[..j] == loads;
    } else {
      var init := loads[..|loads| - 1];
      assert init[..j] == loads[..j];
      if j < |init| {
        CostMore(b, s, loads, j + 1);
        assert init[..j + 1] == loads[..j + 1];
      } else {
        assert loads[..j + 1] == loads;
      }
      AffordsIs(b, s, init, j);
    }
  }

  /**
   * Memory ran out after these pages of all that were to be loaded: none was left for the next page, or one was, but
   * then none for a table on the way to it.
   */
  ghost predicate RunsOut(outcome: Result, b: Begun, s: Space, loads: seq<nat>, all: seq<nat>) {
    && loads < all && OutOfMemory(outcome)
    && if outcome.NoMemory? then |b.free| == Cost(b, s, loads)
       else Cost(b, s, loads) < |b.free| < Cost(b, s, all[..|loads| + 1])
  }

  /** No page left for page v. */
  lemma OutOfPages(b: Begun, m: Memory, s: Space, g: Loading, v: nat)
    requires Sound(b.m, s, b.own, b.free) && Holds(b, m, s, {}, g)
    ensures RunsOut(NoMemory, b, s, g.loads, g.loads + [v])
  {
    hide Holds, Sound, Cost;
    Spent(b, m, s, {}, g);
  }

  /** No page left for a table on the way to page v, whose own page f was still found. */
  lemma OutOfTables(b: Begun, m: Memory, s: Space, free: set<int>, g: Loading, f: nat, m1: Memory, m': Memory,
                    own': Owners, v: nat)
    requires Sound(b.m, s, b.own, b.free) && Holds(b, m, s, free, g) && f in free
    requires Extends(m1, g.own, free - {f}, m', own', {}, s)
    requires Stuck(b.m, m', s, PathsTo(g.frames.Keys) + {PathOf(v * PAGE_SIZE)})
    ensures RunsOut(NoTable, b, s, g.loads, g.loads + [v])
  {
    hide Sound, Holds, Extends, Stuck, Missing, PathsTo, Elems;
    Spent(b, m, s, free, g);
    TooFewTables(b, m, s, free, g, f, m1, m', own', v);
    HoldsTally(b, m, s, free, g);
    OneLoadMore(g.loads, v);
    assert (g.loads + [v])[..|g.loads| + 1] == g.loads + [v];
  }

  lemma HoldsTally(b: Begun, m: Memory, s: Space, free: set<int>, g: Loading)
    requires Holds(b, m, s, free, g)
    ensures Tally(g)
  {}

  lemma TooFewTables(b: Begun, m: Memory, s: Space, free: set<int>, g: Loading, f: nat, m1: Memory, m': Memory,
                     own': Owners, v: nat)
    requires Sound(b.m, s, b.own, b.free) && Holds(b, m, s, free, g) && f in free
    requires Extends(m1, g.own, free - {f}, m', own', {}, s)
    requires Stuck(b.m, m', s, PathsTo(g.frames.Keys) + {PathOf(v * PAGE_SIZE)})
    ensures |b.free| < |Missing(b.m, s, PathsTo(g.img.Keys + {v}))| + |g.frames| + |g.lost| + 1
  {
    ExtendsSound(m1, g.own, free - {f}, m', own', {}, s);
    hide PathOf, Elsewhere, OthersKept, ImageHeld, Missing, Grown, Stuck, Sound, Extends, Parted, OwnFrames, Gained;
    hide Keeps, AllShort, Tally;
    HeldFrames(b, m, s, free, g);
    SoundApart(m, s, g.own, free, f);
    SoundFree(b.m, s, b.own, b.free);
    PartedKept(b, s, free, g, f, m1, m', own');
    PathsToMore(g.img.Keys, v);
    StuckGained(b.m, b.own, b.free, m', own', {}, s, PathsTo(g.img.Keys + {v}));
    PagesGone(b, own', {}, g.frames, g.lost + {f});
  }

  lemma PartedKept(b: Begun, s: Space, free: set<int>, g: Loading, f: nat, m1: Memory, m': Memory, own': Owners)
    requires Parted(b, g.own, free, g.frames, g.lost) && OwnFrames(b, g.own, free, g.frames)
    requires f in free && f !in g.own && free <= b.free && Extends(m1, g.own, free - {f}, m', own', {}, s)
    ensures Keeps(b.own, own') && AllShort(b.own, own')
    ensures Parted(b, own', {}, g.frames, g.lost + {f}) && OwnFrames(b, own', {}, g.frames)
    ensures f !in g.lost
  {
    hide Sound;
    ValuesOwn(b, g.own, free, g.frames);
  }

  // ---- The loader ----

  ghost predicate BelowEnd(img: Image) {
    forall v | v in img :: v * PAGE_SIZE < USER_END
  }

  /** There was no page for a page of the image, or for a table. */
  predicate OutOfMemory(outcome: Result) {
    outcome.NoMemory? || outcome.NoTable?
  }

  /** The body of the inner loop: a fresh page, filled and mapped. */
  method LoadPage(vm: AddressSpaces, root: nat, file: seq<nat>, ph: Segment, v: nat, ghost s: Space,
                  ghost b: Begun, ghost g: Loading)
    returns (outcome: Result, ghost g': Loading)
    requires vm.Valid() && s.root == root && s.top >= 256 && Sound(b.m, s, b.own, b.free)
    requires Holds(b, vm.mem, s, vm.pmm.free, g) && BelowEnd(g.img)
    requires ph.offset + ph.filesz <= |file| && FirstPage(ph) <= v && v * PAGE_SIZE < USER_END
    modifies vm`mem, vm.pmm, vm.pmm.bitmap
    ensures vm.Valid() && vm.pmm.Drift() == old(vm.pmm.Drift())
    ensures outcome.Loaded? || OutOfMemory(outcome)
    ensures OutOfMemory(outcome) ==> g' == g && RunsOut(outcome, b, s, g.loads, g.loads + [v])
    ensures outcome.NoMemory? ==> Holds(b, vm.mem, s, vm.pmm.free, g)
    ensures outcome.Loaded? ==>
              Holds(b, vm.mem, s, vm.pmm.free, g') && g'.img == g.img[v := PageOf(file, ph, v)]
                  && g'.loads == g.loads + [v]
    ensures OpenTables(old(vm.mem), s) ==> OpenTables(vm.mem, s)
  {
    hide OpenTables, UserBit, Holds, PageBytes, PathOf, MakeLeaf, PageFlags, LeafSet, Extends, SameLeaves, Sound;
    hide Pmm.PageAllocator.Valid, GainedOn, RunsOut, Grown, Stuck, PathsTo, Node;
    HoldsSound(b, vm.mem, s, vm.pmm.free, g);
    ghost var m, free := vm.mem, vm.pmm.free;
    var page := vm.pmm.AllocFrame();
    if page == 0 {
      OutOfPages(b, vm.mem, s, g, v);
      return NoMemory, g;
    }
    var bytes := FillPage(file, ph, v);
    RawAdded(m, s, g.own, free, page, bytes);
    HoldsGrown(b, m, s, free, g);
    ghost var paths, path := PathsTo(g.frames.Keys), PathOf(v * PAGE_SIZE);
    GrownSame(b.m, m, m[page := Raw(bytes)], s, paths);
    KernelKept(vm, page, bytes);
    vm.mem := vm.mem[page := Raw(bytes)];
    ghost var m1 := vm.mem;
    UserPage(v);
    FlagsSmall(Writable(ph));
    var ok;
    ghost var own';
    ok, own' := vm.Map(root, v * PAGE_SIZE, page * PAGE_SIZE, PageFlags(Writable(ph)), s, g.own);
    FlatMap.MapTables(ok, m1, g.own, free - {page}, vm.mem, own', vm.pmm.free, s, path, page * PAGE_SIZE,
        PageFlags(Writable(ph)));
    if !ok {
      StuckThen(b.m, m1, vm.mem, s, paths, {path});
      OutOfTables(b, m, s, free, g, page, m1, vm.mem, own', v);
      return NoTable, g;
    }
    GrownThen(b.m, m1, vm.mem, s, paths, {path});
    FreshLeaf(page, PageFlags(Writable(ph)));
    g' := g.With(own', v, PageOf(file, ph, v), page);
    HoldsMore(b, m, s, free, g, page, PageOf(file, ph, v), m1, vm.mem, own', vm.pmm.free, v,
              MakeLeaf(page * PAGE_SIZE, PageFlags(Writable(ph))));
    outcome := Loaded(0, 0);
  }

  lemma FlagsSmall(writable: bool)
    ensures PageFlags(writable) < PAGE_SIZE && UserBit(PageFlags(writable))
  {}

  lemma HoldsSound(b: Begun, m: Memory, s: Space, free: set<int>, g: Loading)
    requires Holds(b, m, s, free, g)
    ensures Sound(m, s, g.own, free)
  {}

  lemma HoldsGrown(b: Begun, m: Memory, s: Space, free: set<int>, g: Loading)
    requires Holds(b, m, s, free, g)
    ensures Grown(b.m, m, s, PathsTo(g.frames.Keys))
  {}

  lemma KernelKept(vm: AddressSpaces, page: nat, bytes: seq<nat>)
    requires IsTable(vm.mem, vm.kernelRoot) && page != vm.kernelRoot
    ensures IsTable(vm.mem[page := Raw(bytes)], vm.kernelRoot)
  {}

  lemma PagesBelowEnd(ph: Segment)
    requires ph.vaddr + ph.memsz <= USER_END
    ensures forall v: nat | v < StopPage(ph) :: v * PAGE_SIZE < USER_END
  {}

  lemma RunNext(loads: seq<nat>, first: nat, v: nat, n: nat)
    requires first <= v < first + n
    ensures loads + PageRun(first, v - first) + [v] == loads + PageRun(first, v + 1 - first)
    ensures loads + PageRun(first, v + 1 - first) <= loads + PageRun(first, n)
  {}

  lemma RunsOutMore(outcome: Result, b: Begun, s: Space, loads: seq<nat>, some: seq<nat>, all: seq<nat>)
    requires RunsOut(outcome, b, s, loads, some) && some <= all
    ensures RunsOut(outcome, b, s, loads, all)
  {
    hide Cost;
    assert some[..|loads| + 1] == all[..|loads| + 1];
  }

  /** The inner loop: all pages of a segment. */
  method LoadSegment(vm: AddressSpaces, root: nat, file: seq<nat>, ph: Segment, ghost s: Space, ghost b: Begun,
                     ghost g: Loading)
    returns (outcome: Result, ghost g': Loading)
    requires vm.Valid() && s.root == root && s.top >= 256 && Sound(b.m, s, b.own, b.free)
    requires Holds(b, vm.mem, s, vm.pmm.free, g) && BelowEnd(g.img)
    requires ph.offset + ph.filesz <= |file| && ph.vaddr + ph.memsz <= USER_END
    modifies vm`mem, vm.pmm, vm.pmm.bitmap
    ensures vm.Valid() && vm.pmm.Drift() == old(vm.pmm.Drift())
    ensures outcome.Loaded? || OutOfMemory(outcome)
    ensures !outcome.NoTable? ==> Holds(b, vm.mem, s, vm.pmm.free, g') && BelowEnd(g'.img)
    ensures outcome.Loaded? ==>
              && g'.img == WithPages(file, ph, g.img, PageCount(ph))
              && g'.loads == g.loads + PageRun(FirstPage(ph), PageCount(ph))
    ensures OutOfMemory(outcome) ==>
              RunsOut(outcome, b, s, g'.loads, g.loads + PageRun(FirstPage(ph), PageCount(ph)))
    ensures OpenTables(old(vm.mem), s) ==> OpenTables(vm.mem, s)
  {
    hide OpenTables, Holds, PageBytes, RunsOut, Sound, Pmm.PageAllocator.Valid, Pmm.PageAllocator.Drift;
    PagesBelowEnd(ph);
    var v := FirstPage(ph);
    g' := g;
    while v < StopPage(ph)
      invariant FirstPage(ph) <= v <= FirstPage(ph) + PageCount(ph)
      invariant vm.Valid() && vm.pmm.Drift() == old(vm.pmm.Drift())
      invariant Holds(b, vm.mem, s, vm.pmm.free, g') && BelowEnd(g'.img)
      invariant g'.img == WithPages(file, ph, g.img, v - FirstPage(ph))
      invariant g'.loads == g.loads + PageRun(FirstPage(ph), v - FirstPage(ph))
      invariant OpenTables(old(vm.mem), s) ==> OpenTables(vm.mem, s)
    {
      RunNext(g.loads, FirstPage(ph), v, PageCount(ph));
      outcome, g' := LoadPage(vm, root, file, ph, v, s, b, g');
      if OutOfMemory(outcome) {
        RunsOutMore(outcome, b, s, g'.loads, g'.loads + [v], g.loads + PageRun(FirstPage(ph), PageCount(ph)));
        return;
      }
      v := v + 1;
    }
    outcome := Loaded(0, 0);
  }

  lemma {:induction false} SegmentsInside(file: seq<nat>, n: nat)
    requires |file| >= 64 && WellFormed(file) && n <= ReadHeader(file).phnum
    ensures Inside(file, Segments(file, n))
    ensures n > 0 ==> Segments(file, n)[..n - 1] == Segments(file, n - 1)
  {
    if n > 0 {
      SegmentsInside(file, n - 1);
      assert SegmentAt(ReadHeader(file), n - 1) + 56 <= |file|;
    }
  }

  /** What loading the first n segments of a valid file must have achieved. */
  ghost predicate Complete(file: seq<nat>, b: Begun, m: Memory, s: Space, free: set<int>, g: Loading, n: nat)
    requires |file| >= 64 && WellFormed(file) && n <= ReadHeader(file).phnum && Inside(file, Segments(file, n))
  {
    && Holds(b, m, s, free, g) && BelowEnd(g.img)
    && g.img == ImageOf(file, Segments(file, n)) && g.loads == Loads(Segments(file, n))
    && forall k | 0 <= k < n :: !Low(Segments(file, n)[k])
  }

  lemma CompleteFits(file: seq<nat>, b: Begun, m: Memory, s: Space, free: set<int>, g: Loading, n: nat)
    requires |file| >= 64 && WellFormed(file) && n <= ReadHeader(file).phnum && Inside(file, Segments(file, n))
    requires Sound(b.m, s, b.own, b.free) && Complete(file, b, m, s, free, g, n)
    ensures Cost(b, s, Loads(Segments(file, n))) <= |b.free|
  {
    hide Holds, Sound, Cost, Segments, ImageOf, Loads;
    Spent(b, m, s, free, g);
  }

  /** One turn of the outer loop. */
  method LoadNext(vm: AddressSpaces, root: nat, file: seq<nat>, i: nat, ghost s: Space, ghost b: Begun,
                  ghost g: Loading, end: nat)
    returns (outcome: Result, ghost g': Loading)
    requires vm.Valid() && s.root == root && s.top >= 256 && Sound(b.m, s, b.own, b.free)
    requires |file| >= 64 && WellFormed(file) && i < ReadHeader(file).phnum
    requires Inside(file, Segments(file, i)) && Inside(file, Segments(file, i + 1))
    requires Complete(file, b, vm.mem, s, vm.pmm.free, g, i) && end == LoadEnd(Segments(file, i))
    modifies vm`mem, vm.pmm, vm.pmm.bitmap
    ensures vm.Valid() && vm.pmm.Drift() == old(vm.pmm.Drift()) && !outcome.Refused?
    ensures !outcome.NoTable? ==> Holds(b, vm.mem, s, vm.pmm.free, g') && BelowEnd(g'.img)
    ensures OutOfMemory(outcome) ==> RunsOut(outcome, b, s, g'.loads, Loads(Segments(file, i + 1)))
    ensures outcome.BelowBase? <==> Low(Segments(file, i + 1)[i])
    ensures outcome.BelowBase? ==> Complete(file, b, vm.mem, s, vm.pmm.free, g', i)
    ensures outcome.Loaded? ==>
              Complete(file, b, vm.mem, s, vm.pmm.free, g', i + 1) && outcome.loadEnd == LoadEnd(Segments(file, i + 1))
    ensures OpenTables(old(vm.mem), s) ==> OpenTables(vm.mem, s)
  {
    hide OpenTables, Holds, PageBytes, WithPages, WellFormed, FirstPage, StopPage, Sound, RunsOut, PageRun;
    hide Segments, ImageOf, Loads, LoadEnd, ReadSegment, BelowEnd, Pmm.PageAllocator.Valid, Pmm.PageAllocator.Drift;
    ghost var phs := Segments(file, i + 1);
    NextSegment(file, i);
    var ph := ReadSegment(file, SegmentAt(ReadHeader(file), i));
    if !Loadable(ph) {
      return Loaded(0, end), g;
    }
    if ph.vaddr < USER_LOAD_BASE {
      return BelowBase, g;
    }
    outcome, g' := LoadSegment(vm, root, file, ph, s, b, g);
    if outcome.Loaded? {
      outcome := Loaded(0, if StopPage(ph) * PAGE_SIZE > end then StopPage(ph) * PAGE_SIZE else end);
    }
  }

  /** What one more segment adds. */
  lemma NextSegment(file: seq<nat>, i: nat)
    requires |file| >= 64 && WellFormed(file) && i < ReadHeader(file).phnum
    ensures SegmentAt(ReadHeader(file), i) + 56 <= |file|
    ensures var phs, ph := Segments(file, i + 1), ReadSegment(file, SegmentAt(ReadHeader(file), i));
            && phs == Segments(file, i) + [ph] && Inside(file, phs) && Inside(file, Segments(file, i))
            && (Loadable(ph) ==> ph.offset + ph.filesz <= |file| && ph.vaddr + ph.memsz <= USER_END)
            && var img, end := ImageOf(file, Segments(file, i)), LoadEnd(Segments(file, i));
               if Loadable(ph) then
                 && ImageOf(file, phs) == WithPages(file, ph, img, PageCount(ph))
                 && Loads(phs) == Loads(Segments(file, i)) + PageRun(FirstPage(ph), PageCount(ph))
                 && LoadEnd(phs) == if StopPage(ph) * PAGE_SIZE > end then StopPage(ph) * PAGE_SIZE else end
               else
                 && ImageOf(file, phs) == img && Loads(phs) == Loads(Segments(file, i)) && LoadEnd(phs) == end
  {
    hide WithPages, WellFormed, FirstPage, StopPage, ImageOf, ReadSegment;
    SegmentInFile(file, i);
    SegmentsInside(file, i);
    SegmentsInside(file, i + 1);
    var phs := Segments(file, i + 1);
    assert phs[..i] == Segments(file, i) && phs[i] == ReadSegment(file, SegmentAt(ReadHeader(file), i));
    ImageStep(file, phs);
  }

  lemma SegmentInFile(file: seq<nat>, i: nat)
    requires |file| >= 64 && WellFormed(file) && i < ReadHeader(file).phnum
    ensures SegmentAt(ReadHeader(file), i) + 56 <= |file|
  {}

  lemma {:induction false} FirstSegments(file: seq<nat>, i: nat, n: nat)
    requires |file| >= 64 && WellFormed(file) && i <= n <= ReadHeader(file).phnum
    ensures Segments(file, n)[..i] == Segments(file, i)
  {
    hide ReadSegment;
    if i < n {
      SegmentsInside(file, n);
      FirstSegments(file, i, n - 1);
      assert Segments(file, n)[..n - 1][..i] == Segments(file, n)[..i];
    }
  }

  /**
   * The outcome is decided by the segments and by the pages free at the start. The segments before the first low one
   * are loaded, page by page, as far as there is memory.
   */
  ghost predicate Decided(outcome: Result, file: seq<nat>, b: Begun, s: Space, loads: seq<nat>)
    requires |file| >= 64 && WellFormed(file)
  {
    var n := ReadHeader(file).phnum;
    var k := Stop(Segments(file, n));
    var all := Loads(Segments(file, k));
    && loads == Affords(b, s, all)
    && (outcome.NoMemory? <==> loads != all && Cost(b, s, loads) == |b.free|)
    && (outcome.NoTable? <==> loads != all && Cost(b, s, loads) != |b.free|)
    && (outcome.BelowBase? <==> loads == all && k < n)
    && (outcome.Loaded? <==> loads == all && k == n)
  }

  lemma FailedAt(outcome: Result, file: seq<nat>, b: Begun, s: Space, loads: seq<nat>, i: nat)
    requires |file| >= 64 && WellFormed(file) && i < ReadHeader(file).phnum
    requires RunsOut(outcome, b, s, loads, Loads(Segments(file, i + 1))) && !Low(Segments(file, i + 1)[i])
    requires forall k | 0 <= k < i :: !Low(Segments(file, i)[k])
    ensures Decided(outcome, file, b, s, loads)
  {
    hide Segments, WellFormed, Low, Loads, Cost;
    var n := ReadHeader(file).phnum;
    FirstSegments(file, i + 1, n);
    FirstSegments(file, i, n);
    var phs := Segments(file, n);
    assert phs[i] == phs[..i + 1][i] && forall k | 0 <= k < i :: phs[k] == phs[..i][k];
    var k := Stop(phs);
    assert k > i;
    FirstSegments(file, i + 1, k);
    LoadsPrefix(Segments(file, k), i + 1);
    var all := Loads(Segments(file, k));
    RunsOutMore(outcome, b, s, loads, Loads(Segments(file, i + 1)), all);
    assert all[..|loads|] == loads;
    CostMore(b, s, all[..|loads| + 1], |loads|);
    assert all[..|loads| + 1][..|loads|] == loads;
    AffordsIs(b, s, all, |loads|);
  }

  lemma StoppedAt(outcome: Result, file: seq<nat>, b: Begun, s: Space, i: nat)
    requires |file| >= 64 && WellFormed(file) && i <= ReadHeader(file).phnum && !OutOfMemory(outcome)
             && !outcome.Refused?
    requires Cost(b, s, Loads(Segments(file, i))) <= |b.free| && forall k | 0 <= k < i :: !Low(Segments(file, i)[k])
    requires if outcome.Loaded? then i == ReadHeader(file).phnum
             else i < ReadHeader(file).phnum && Low(Segments(file, i + 1)[i])
    ensures Decided(outcome, file, b, s, Loads(Segments(file, i)))
  {
    hide Segments, WellFormed, Low, Loads, Cost;
    var n := ReadHeader(file).phnum;
    FirstSegments(file, i, n);
    var phs := Segments(file, n);
    assert forall k | 0 <= k < i :: phs[k] == phs[..i][k];
    if i < n {
      FirstSegments(file, i + 1, n);
      assert phs[i] == phs[..i + 1][i];
    }
    assert Stop(phs) == i;
  }

  /**
   * `elf_load`. A file that is not a valid executable is refused. Otherwise the segments before the first one below the
   * user base are loaded page by page, as many as there is memory for, with the tables missing for them; and if that
   * is all of them, the address space holds exactly the image they describe, in fresh frames.
   */
  method Load(vm: AddressSpaces, root: nat, file: seq<nat>, ghost s: Space, ghost own: Owners)
    returns (outcome: Result, ghost g: Loading)
    requires vm.Valid() && Sound(vm.mem, s, own, vm.pmm.free) && s.root == root && s.top >= 256
    requires Validate(file) ==> WellFormed(file)
    modifies vm`mem, vm.pmm, vm.pmm.bitmap
    ensures vm.Valid() && vm.pmm.Drift() == old(vm.pmm.Drift())
    ensures outcome.Refused? <==> !Validate(file)
    ensures outcome.Refused? ==> g == Fresh(own)
    ensures !outcome.Refused? ==> Decided(outcome, file, Begun(old(vm.mem), own, old(vm.pmm.free)), s, g.loads)
    ensures !outcome.NoTable? ==>
              Holds(Begun(old(vm.mem), own, old(vm.pmm.free)), vm.mem, s, vm.pmm.free, g) && BelowEnd(g.img)
    ensures outcome.Loaded? ==>
              var n := ReadHeader(file).phnum;
              && Inside(file, Segments(file, n))
              && Complete(file, Begun(old(vm.mem), own, old(vm.pmm.free)), vm.mem, s, vm.pmm.free, g, n)
              && outcome == Loaded(ReadHeader(file).entry, LoadEnd(Segments(file, n)))
    ensures OpenTables(old(vm.mem), s) ==> OpenTables(vm.mem, s)
  {
    hide OpenTables, Holds, Segments, WellFormed, LoadEnd, Sound, Decided, Low, RunsOut, Loads, Cost;
    hide Pmm.PageAllocator.Valid, Pmm.PageAllocator.Drift;
    g := Fresh(own);
    ghost var b := Begun(vm.mem, own, vm.pmm.free);
    HoldsNothing(vm.mem, s, own, vm.pmm.free);
    if !Validate(file) {
      return Refused, g;
    }
    var h := ReadHeader(file);
    NoSegments(file);
    var end := 0;
    for i := 0 to h.phnum
      invariant vm.Valid() && vm.pmm.Drift() == old(vm.pmm.Drift())
      invariant Inside(file, Segments(file, i)) && Complete(file, b, vm.mem, s, vm.pmm.free, g, i)
      invariant end == LoadEnd(Segments(file, i)) && (OpenTables(old(vm.mem), s) ==> OpenTables(vm.mem, s))
    {
      SegmentsInside(file, i + 1);
      outcome, g := LoadNext(vm, root, file, i, s, b, g, end);
      if !outcome.Loaded? {
        if OutOfMemory(outcome) {
          FailedAt(outcome, file, b, s, g.loads, i);
        } else {
          CompleteFits(file, b, vm.mem, s, vm.pmm.free, g, i);
          StoppedAt(outcome, file, b, s, i);
        }
        return;
      }
      end := outcome.loadEnd;
    }
    outcome := Loaded(h.entry, end);
    CompleteFits(file, b, vm.mem, s, vm.pmm.free, g, h.phnum);
    StoppedAt(outcome, file, b, s, h.phnum);
  }

  lemma NoSegments(file: seq<nat>)
    requires |file| >= 64 && WellFormed(file)
    ensures Segments(file, 0) == [] && LoadEnd([]) == 0 && Loads([]) == []
  {}

  // ---- What the program sees ----

  /** The byte at a virtual address, through the page tables. */
  ghost function MemoryByte(m: Memory, s: Space, a: nat): Option<nat> {
    match Node(m, s, PathOf(a))
    case None => None
    case Some(f) => if IsRaw(m, f) then Some(m[f].bytes[a % PAGE_SIZE]) else None
  }

  /** The leaf of a loaded page lets the user in, and write exactly if the segment is writable. */
  lemma LeafBits(f: nat, writable: bool, write: bool)
    ensures EntryLets(MakeLeaf(f * PAGE_SIZE, PageFlags(writable)), write) <==> write ==> writable
  {
    assert f * PAGE_SIZE / PAGE_SIZE == f;
    FreshLeaf(f, PageFlags(writable));
    LowBits(f, PageFlags(writable));
    assert MakeLeaf(f * PAGE_SIZE, PageFlags(writable)) == f * PAGE_SIZE + PageFlags(writable);
  }

  /**
   * Read through the page tables, each byte of a segment's pages is the file's byte, or zero past the file part. A page
   * in several segments has what the last of them describes, so the earlier ones read right exactly where the two
   * agree.
   */
  lemma LoadedByte(b: Begun, m: Memory, s: Space, free: set<int>, g: Loading, file: seq<nat>, phs: seq<Segment>,
                   k: nat, a: nat)
    requires Inside(file, phs) && Holds(b, m, s, free, g) && g.img == ImageOf(file, phs) && OpenTables(m, s)
    requires k < |phs| && Covers(phs[k], a / PAGE_SIZE) && forall j | k < j < |phs| :: !Covers(phs[j], a / PAGE_SIZE)
    ensures MemoryByte(m, s, a) == Some(ByteAt(file, phs[k], a))
    ensures forall write :: UserMay(m, s, PathOf(a), write) <==> write ==> Writable(phs[k])
  {
    hide ImageOf, Sound, Elsewhere, OthersKept, Accounted, Tally, Node, Leaf, MakeLeaf, UserMay, OpenTables, EntryLets;
    var v := a / PAGE_SIZE;
    ImageAt(file, phs, v);
    assert v * PAGE_SIZE / PAGE_SIZE == v;
    assert PageIs(m, s, g.own, free, v, g.frames[v], g.img[v]);
    assert a == v * PAGE_SIZE + a % PAGE_SIZE;
    forall write
      ensures UserMay(m, s, PathOf(a), write) <==> write ==> Writable(phs[k])
    {
      LeafDecides(m, s, PathOf(a), write);
      LeafBits(g.frames[v], Writable(phs[k]), write);
    }
  }

  /** Segments that share no page all read right, and no loaded page shares a frame with another. */
  lemma ImageReadsBack(b: Begun, m: Memory, s: Space, free: set<int>, g: Loading, file: seq<nat>, phs: seq<Segment>)
    requires Inside(file, phs) && Holds(b, m, s, free, g) && g.img == ImageOf(file, phs) && OpenTables(m, s)
    requires NoOverlap(phs)
    ensures forall k, a: nat | 0 <= k < |phs| && Covers(phs[k], a / PAGE_SIZE) ::
              && MemoryByte(m, s, a) == Some(ByteAt(file, phs[k], a))
              && (UserMay(m, s, PathOf(a), true) <==> Writable(phs[k])) && UserMay(m, s, PathOf(a), false)
    ensures forall k, a: nat | 0 <= k < |phs| && phs[k].kind == 1 && phs[k].vaddr <= a < phs[k].vaddr + phs[k].memsz ::
              && MemoryByte(m, s, a) ==
                 Some(if a < phs[k].vaddr + phs[k].filesz then file[phs[k].offset + (a - phs[k].vaddr)] else 0)
              && (UserMay(m, s, PathOf(a), true) <==> phs[k].flags % 4 >= 2) && UserMay(m, s, PathOf(a), false)
  {
    hide ImageOf, Holds, MemoryByte, UserMay, OpenTables;
    forall k, a: nat | 0 <= k < |phs| && Covers(phs[k], a / PAGE_SIZE)
      ensures MemoryByte(m, s, a) == Some(ByteAt(file, phs[k], a))
      ensures forall write :: UserMay(m, s, PathOf(a), write) <==> write ==> Writable(phs[k])
    {
      LoadedByte(b, m, s, free, g, file, phs, k, a);
    }
    forall k, a: nat | 0 <= k < |phs| && phs[k].kind == 1 && phs[k].vaddr <= a < phs[k].vaddr + phs[k].memsz
      ensures Covers(phs[k], a / PAGE_SIZE)
    {
      CoversAddress(phs[k], a);
    }
  }
}
