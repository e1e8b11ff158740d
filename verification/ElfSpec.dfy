/** The ELF64 headers kernel/proc/elf.c reads, and the memory image they describe. */
module ElfSpec {
  import opened Common
  import opened PageTables

  const USER_LOAD_BASE: nat := 0x40_0000
  const USER_END: nat := 0x8000_0000_0000

  datatype Header = Header(entry: nat, phoff: nat, phentsize: nat, phnum: nat)

  datatype Segment = Segment(kind: nat, flags: nat, offset: nat, vaddr: nat, filesz: nat, memsz: nat)

  function ReadHeader(file: seq<nat>): Header
    requires |file| >= 64
  {
    Header(Little(file, 24, 8), Little(file, 32, 8), Little(file, 54, 2), Little(file, 56, 2))
  }

  function ReadSegment(file: seq<nat>, at: nat): Segment
    requires at + 56 <= |file|
  {
    Segment(Little(file, at, 4), Little(file, at + 4, 4), Little(file, at + 8, 8),
            Little(file, at + 16, 8), Little(file, at + 32, 8), Little(file, at + 40, 8))
  }

  /** The widths of the fields of the two headers, in order: chapters 4 and 5 of the System V gABI, ELF64. */
  const FILE_HEADER: seq<nat> := [16, 2, 2, 4, 8, 8, 8, 4, 2, 2, 2, 2, 2, 2]
  const PROGRAM_HEADER: seq<nat> := [4, 4, 8, 8, 8, 8, 8, 8]

  /** The k-th field of a header at an offset. */
  function Field(file: seq<nat>, at: nat, widths: seq<nat>, k: nat): nat
    requires k < |widths| && at + OffsetOf(widths, k) + widths[k] <= |file|
  {
    Little(file, at + OffsetOf(widths, k), widths[k])
  }

  lemma Offsets()
    ensures OffsetOf(FILE_HEADER, 1) == 16 && OffsetOf(FILE_HEADER, 2) == 18 && OffsetOf(FILE_HEADER, 4) == 24
    ensures OffsetOf(FILE_HEADER, 5) == 32 && OffsetOf(FILE_HEADER, 9) == 54 && OffsetOf(FILE_HEADER, 10) == 56
    ensures OffsetOf(FILE_HEADER, 14) == 64
    ensures OffsetOf(PROGRAM_HEADER, 0) == 0 && OffsetOf(PROGRAM_HEADER, 1) == 4 && OffsetOf(PROGRAM_HEADER, 2) == 8
    ensures OffsetOf(PROGRAM_HEADER, 3) == 16 && OffsetOf(PROGRAM_HEADER, 5) == 32
    ensures OffsetOf(PROGRAM_HEADER, 6) == 40 && OffsetOf(PROGRAM_HEADER, 8) == 56
  {
    assert OffsetOf(FILE_HEADER, 3) == 20;
    assert OffsetOf(FILE_HEADER, 6) == 40;
    assert OffsetOf(FILE_HEADER, 7) == 48;
    assert OffsetOf(FILE_HEADER, 8) == 52;
    assert OffsetOf(FILE_HEADER, 12) == 60;
    assert OffsetOf(PROGRAM_HEADER, 4) == 24;
  }

  /** The fields the loader reads are the headers' own: entry, phoff, phentsize and phnum; type, flags and so on. */
  lemma HeaderFields(file: seq<nat>, at: nat)
    requires |file| >= 64
    ensures |FILE_HEADER| == 14 && OffsetOf(FILE_HEADER, 14) == 64
    ensures |PROGRAM_HEADER| == 8 && OffsetOf(PROGRAM_HEADER, 8) == 56
    ensures var h := ReadHeader(file);
            && h.entry == Field(file, 0, FILE_HEADER, 4) && h.phoff == Field(file, 0, FILE_HEADER, 5)
            && h.phentsize == Field(file, 0, FILE_HEADER, 9) && h.phnum == Field(file, 0, FILE_HEADER, 10)
    ensures at + 56 <= |file| ==>
              var ph := ReadSegment(file, at);
              && ph.kind == Field(file, at, PROGRAM_HEADER, 0) && ph.flags == Field(file, at, PROGRAM_HEADER, 1)
              && ph.offset == Field(file, at, PROGRAM_HEADER, 2) && ph.vaddr == Field(file, at, PROGRAM_HEADER, 3)
              && ph.filesz == Field(file, at, PROGRAM_HEADER, 5) && ph.memsz == Field(file, at, PROGRAM_HEADER, 6)
  {
    hide OffsetOf, Little;
    Offsets();
  }

  /** `elf_validate`: an executable for this machine. */
  predicate Validate(file: seq<nat>) {
    && |file| >= 64
    && Little(file, 0, 4) == 0x464C457F
    && file[4] == 2 && file[5] == 1
    && Little(file, 16, 2) == 2
    && Little(file, 18, 2) == 62
  }

  /** On bytes: the identification starts 0x7f 'E' 'L' 'F', 64 bits, little endian; then type 2 and machine 62. */
  lemma ValidateIs(file: seq<nat>)
    requires forall i | 0 <= i < |file| :: file[i] < 256
    ensures Validate(file) <==>
              && |file| >= 64 && file[0] == 0x7f && file[1] == 'E' as int && file[2] == 'L' as int
              && file[3] == 'F' as int && file[4] == 2 && file[5] == 1
              && file[16] == 2 && file[17] == 0 && file[18] == 62 && file[19] == 0
  {
    if |file| >= 64 {
      FourBytes(file, 0);
      TwoBytes(file, 16);
      TwoBytes(file, 18);
    }
  }

  lemma TwoBytes(d: seq<nat>, at: nat)
    requires at + 2 <= |d|
    ensures Little(d, at, 2) == d[at] + 256 * d[at + 1]
  {
    assert Little(d, at + 1, 1) == d[at + 1];
  }

  lemma FourBytes(d: seq<nat>, at: nat)
    requires at + 4 <= |d|
    ensures Little(d, at, 4) == d[at] + 256 * (d[at + 1] + 256 * (d[at + 2] + 256 * d[at + 3]))
  {
    TwoBytes(d, at + 2);
    assert Little(d, at + 1, 3) == d[at + 1] + 256 * Little(d, at + 2, 2);
  }

  /** A segment that takes up memory. */
  predicate Loadable(ph: Segment) {
    ph.kind == 1 && ph.memsz != 0
  }

  /**
   * What the loader takes for granted of a valid file: headers and segment contents lie inside it, segments below the
   * kernel half.
   */
  ghost predicate WellFormed(file: seq<nat>)
    requires |file| >= 64
  {
    var h := ReadHeader(file);
    forall i: nat {:trigger SegmentAt(h, i)} | i < h.phnum ::
      && SegmentAt(h, i) + 56 <= |file|
      && (var ph := ReadSegment(file, SegmentAt(h, i));
          Loadable(ph) ==> ph.offset + ph.filesz <= |file| && ph.vaddr + ph.memsz <= USER_END)
  }

  function SegmentAt(h: Header, i: nat): nat {
    h.phoff + i * h.phentsize
  }

  /** The first n program headers. */
  function Segments(file: seq<nat>, n: nat): (phs: seq<Segment>)
    requires |file| >= 64 && WellFormed(file) && n <= ReadHeader(file).phnum
    ensures |phs| == n
  {
    if n == 0 then [] else Segments(file, n - 1) + [ReadSegment(file, SegmentAt(ReadHeader(file), n - 1))]
  }

  /** The i-th program header is the one `phentsize` times i past `phoff`. */
  lemma {:induction false} SegmentsAre(file: seq<nat>, n: nat, i: nat, at: nat)
    requires |file| >= 64 && WellFormed(file) && i < n <= ReadHeader(file).phnum
    requires at == ReadHeader(file).phoff + i * ReadHeader(file).phentsize
    ensures at + 56 <= |file| && Segments(file, n)[i] == ReadSegment(file, at)
  {
    hide ReadHeader, ReadSegment;
    assert at == SegmentAt(ReadHeader(file), i);
    if i < n - 1 {
      SegmentsAre(file, n - 1, i, at);
    }
  }

  // ---- Pages ----

  function FirstPage(ph: Segment): nat {
    ph.vaddr / PAGE_SIZE
  }

  function StopPage(ph: Segment): nat {
    (ph.vaddr + ph.memsz + PAGE_SIZE - 1) / PAGE_SIZE
  }

  /** The byte the file describes at address a: from the segment's file part, or 0. */
  function ByteAt(file: seq<nat>, ph: Segment, a: nat): nat
    requires ph.offset + ph.filesz <= |file|
  {
    if ph.vaddr <= a < ph.vaddr + ph.filesz then file[ph.offset + (a - ph.vaddr)] else 0
  }

  function PageBytes(file: seq<nat>, ph: Segment, v: nat): (b: seq<nat>)
    requires ph.offset + ph.filesz <= |file|
    ensures |b| == PAGE_SIZE
  {
    seq<nat>(PAGE_SIZE, i requires 0 <= i < PAGE_SIZE => ByteAt(file, ph, v * PAGE_SIZE + i))
  }

  /** What a page of the program holds, and whether it may be written. */
  datatype Page = Page(bytes: seq<nat>, writable: bool)

  predicate Writable(ph: Segment) {
    ph.flags / 2 % 2 == 1
  }

  function PageOf(file: seq<nat>, ph: Segment, v: nat): Page
    requires ph.offset + ph.filesz <= |file|
  {
    Page(PageBytes(file, ph, v), Writable(ph))
  }

  /** By virtual page number. */
  type Image = map<nat, Page>

  /** The image once n pages of the segment are in; a page loaded twice has what came last. */
  function WithPages(file: seq<nat>, ph: Segment, img: Image, n: nat): Image
    requires ph.offset + ph.filesz <= |file|
  {
    if n == 0 then img
    else WithPages(file, ph, img, n - 1)[FirstPage(ph) + n - 1 := PageOf(file, ph, FirstPage(ph) + n - 1)]
  }

  function PageCount(ph: Segment): nat {
    if FirstPage(ph) <= StopPage(ph) then StopPage(ph) - FirstPage(ph) else 0
  }

  /** The contents of loadable segments lie inside the file, and they themselves below the kernel half. */
  ghost predicate Inside(file: seq<nat>, phs: seq<Segment>) {
    forall k | 0 <= k < |phs| && Loadable(phs[k]) ::
      phs[k].offset + phs[k].filesz <= |file| && phs[k].vaddr + phs[k].memsz <= USER_END
  }

  ghost function ImageOf(file: seq<nat>, phs: seq<Segment>): Image
    requires Inside(file, phs)
  {
    if phs == [] then map[] else
    var k := |phs| - 1;
    var before := ImageOf(file, phs[..k]);
    if Loadable(phs[k]) then WithPages(file, phs[k], before, PageCount(phs[k])) else before
  }

  /** The n pages from this one on. */
  function PageRun(first: nat, n: nat): seq<nat> {
    seq(n, i requires i >= 0 => first + i)
  }

  /** The pages loaded for these segments, in order; a page in two of them is loaded twice. */
  ghost function Loads(phs: seq<Segment>): seq<nat> {
    if phs == [] then [] else
    var k := |phs| - 1;
    Loads(phs[..k]) + if Loadable(phs[k]) then PageRun(FirstPage(phs[k]), PageCount(phs[k])) else []
  }

  /** Takes up memory below the user base. */
  predicate Low(ph: Segment) {
    Loadable(ph) && ph.vaddr < USER_LOAD_BASE
  }

  /** The segments before the first low one are loaded. */
  ghost function Stop(phs: seq<Segment>): (k: nat)
    ensures k <= |phs| && (forall j | 0 <= j < k :: !Low(phs[j])) && (k < |phs| ==> Low(phs[k]))
  {
    if phs == [] then 0 else
    var k := Stop(phs[..|phs| - 1]);
    assert forall j | 0 <= j < |phs| - 1 :: phs[..|phs| - 1][j] == phs[j];
    if k < |phs| - 1 || Low(phs[k]) then k else |phs|
  }

  /** That is the first that is to be loaded, takes up memory, and starts below 0x400000. */
  lemma StopIs(phs: seq<Segment>, j: nat)
    requires j < |phs|
    ensures Low(phs[j]) <==> phs[j].kind == 1 && phs[j].memsz > 0 && phs[j].vaddr < 0x40_0000
    ensures j < Stop(phs) ==> !Low(phs[j])
    ensures j == Stop(phs) ==> Low(phs[j])
  {}

  /** The end of the highest segment, rounded up. */
  function LoadEnd(phs: seq<Segment>): nat {
    if phs == [] then 0 else
    var k := |phs| - 1;
    var end := LoadEnd(phs[..k]);
    if Loadable(phs[k]) && StopPage(phs[k]) * PAGE_SIZE > end then StopPage(phs[k]) * PAGE_SIZE else end
  }

  lemma {:induction false} LoadEndIsMax(phs: seq<Segment>)
    ensures forall k | 0 <= k < |phs| && Loadable(phs[k]) :: phs[k].vaddr + phs[k].memsz <= LoadEnd(phs)
    ensures LoadEnd(phs) == 0 || exists k | 0 <= k < |phs| ::
              && Loadable(phs[k])
              && LoadEnd(phs) == StopPage(phs[k]) * PAGE_SIZE
  {
    if phs != [] {
      var k := |phs| - 1;
      LoadEndIsMax(phs[..k]);
      if LoadEnd(phs[..k]) != 0 {
        var j :| 0 <= j < |phs[..k]| && Loadable(phs[..k][j]) && LoadEnd(phs[..k]) == StopPage(phs[..k][j]) * PAGE_SIZE;
        assert phs[j] == phs[..k][j];
      }
      forall j | 0 <= j < |phs| && Loadable(phs[j])
        ensures phs[j].vaddr + phs[j].memsz <= LoadEnd(phs)
      {
        if j < k {
          assert phs[..k][j] == phs[j];
        } else {
          RoundUp(phs[k].vaddr + phs[k].memsz);
        }
      }
    }
  }

  lemma RoundUp(x: nat)
    ensures x <= (x + PAGE_SIZE - 1) / PAGE_SIZE * PAGE_SIZE < x + PAGE_SIZE
  {}

  /** The page v holds some byte of the segment. */
  predicate Covers(ph: Segment, v: nat) {
    Loadable(ph) && ph.vaddr < (v + 1) * PAGE_SIZE && v * PAGE_SIZE < ph.vaddr + ph.memsz
  }

  /** The pages the loader goes through are just those. */
  lemma CoversIff(ph: Segment, v: nat)
    ensures Covers(ph, v) <==> Loadable(ph) && FirstPage(ph) <= v < FirstPage(ph) + PageCount(ph)
  {
    assert ph.vaddr < (v + 1) * PAGE_SIZE <==> ph.vaddr / PAGE_SIZE <= v;
    assert v * PAGE_SIZE < ph.vaddr + ph.memsz <==> v < (ph.vaddr + ph.memsz + PAGE_SIZE - 1) / PAGE_SIZE;
  }

  /** Every address of a segment lies on a page it covers. */
  lemma CoversAddress(ph: Segment, a: nat)
    requires Loadable(ph) && ph.vaddr <= a < ph.vaddr + ph.memsz
    ensures Covers(ph, a / PAGE_SIZE)
  {
    assert a / PAGE_SIZE * PAGE_SIZE <= a < (a / PAGE_SIZE + 1) * PAGE_SIZE;
  }

  lemma {:induction false} WithPagesAt(file: seq<nat>, ph: Segment, img: Image, n: nat, v: nat)
    requires ph.offset + ph.filesz <= |file|
    ensures v in WithPages(file, ph, img, n) <==> v in img || FirstPage(ph) <= v < FirstPage(ph) + n
    ensures FirstPage(ph) <= v < FirstPage(ph) + n ==> WithPages(file, ph, img, n)[v] == PageOf(file, ph, v)
    ensures v in img && !(FirstPage(ph) <= v < FirstPage(ph) + n) ==> WithPages(file, ph, img, n)[v] == img[v]
  {
    hide PageOf;
    if n > 0 {
      WithPagesAt(file, ph, img, n - 1, v);
    }
  }

  lemma ImageStep(file: seq<nat>, phs: seq<Segment>)
    requires Inside(file, phs)
    ensures phs == [] ==> ImageOf(file, phs) == map[]
    ensures phs != [] ==>
              var k := |phs| - 1;
              && Inside(file, phs[..k])
              && ImageOf(file, phs) ==
                 if Loadable(phs[k]) then WithPages(file, phs[k], ImageOf(file, phs[..k]), PageCount(phs[k]))
                 else ImageOf(file, phs[..k])
  {}

  /** What the last segment adds. */
  lemma ImageLast(file: seq<nat>, phs: seq<Segment>, v: nat)
    requires Inside(file, phs) && phs != []
    ensures Inside(file, phs[..|phs| - 1])
    ensures var k, img := |phs| - 1, ImageOf(file, phs[..|phs| - 1]);
            if Covers(phs[k], v) then v in ImageOf(file, phs) && ImageOf(file, phs)[v] == PageOf(file, phs[k], v)
            else if v in img then v in ImageOf(file, phs) && ImageOf(file, phs)[v] == img[v]
            else v !in ImageOf(file, phs)
  {
    hide PageOf, PageCount, FirstPage, WithPages, ImageOf, Covers;
    ImageStep(file, phs);
    var k := |phs| - 1;
    CoversIff(phs[k], v);
    if Loadable(phs[k]) {
      WithPagesAt(file, phs[k], ImageOf(file, phs[..k]), PageCount(phs[k]), v);
    }
  }

  /** The last segment that covers page v, or -1. */
  ghost function LastCovering(phs: seq<Segment>, v: nat): (k: int)
    ensures -1 <= k < |phs|
    ensures k >= 0 ==> Covers(phs[k], v)
    ensures forall j | k < j < |phs| :: !Covers(phs[j], v)
  {
    if phs == [] then -1 else if Covers(phs[|phs| - 1], v) then |phs| - 1 else
    var k := LastCovering(phs[..|phs| - 1], v);
    assert forall j | 0 <= j < |phs| - 1 :: phs[..|phs| - 1][j] == phs[j];
    k
  }

  /** A page of the image is what the last segment covering it describes; no other page is in the image. */
  lemma {:induction false} ImageAt(file: seq<nat>, phs: seq<Segment>, v: nat)
    requires Inside(file, phs)
    ensures var k := LastCovering(phs, v);
            if k < 0 then v !in ImageOf(file, phs)
            else v in ImageOf(file, phs) && ImageOf(file, phs)[v] == PageOf(file, phs[k], v)
  {
    hide PageOf, WithPages, ImageOf, Covers;
    ImageStep(file, phs);
    if phs != [] {
      ImageLast(file, phs, v);
      ImageAt(file, phs[..|phs| - 1], v);
    }
  }

  // ---- Pages in two segments ----

  ghost predicate NoOverlap(phs: seq<Segment>) {
    forall j, k, v: nat | 0 <= j < k < |phs| && Covers(phs[j], v) :: !Covers(phs[k], v)
  }

  ghost function Elems(loads: seq<nat>): set<nat> {
    set v | v in loads
  }

  /** How often a page was loaded that had been before. */
  ghost function Repeats(loads: seq<nat>): int {
    |loads| - |Elems(loads)|
  }

  lemma OneLoadMore(loads: seq<nat>, v: nat)
    ensures Elems(loads + [v]) == Elems(loads) + {v}
    ensures Repeats(loads + [v]) == Repeats(loads) + if v in loads then 1 else 0
  {
    assert Elems(loads + [v]) == Elems(loads) + {v};
  }

  lemma {:induction false} RunRepeats(loads: seq<nat>, first: nat, n: nat)
    ensures Repeats(loads) <= Repeats(loads + PageRun(first, n))
    ensures Repeats(loads) == Repeats(loads + PageRun(first, n)) <==>
              forall v | first <= v < first + n :: v !in loads
  {
    if n == 0 {
      assert loads + PageRun(first, n) == loads;
    } else {
      RunRepeats(loads, first, n - 1);
      OneLoadMore(loads + PageRun(first, n - 1), first + n - 1);
      assert loads + PageRun(first, n - 1) + [first + n - 1] == loads + PageRun(first, n);
    }
  }

  /** A shorter beginning has no more repeats. */
  lemma {:induction false} FewerRepeats(loads: seq<nat>, j: nat)
    requires j <= |loads|
    ensures 0 <= Repeats(loads[..j]) <= Repeats(loads)
    decreases |loads|
  {
    if loads != [] {
      var k := |loads| - 1;
      OneLoadMore(loads[..k], loads[k]);
      assert loads[..k] + [loads[k]] == loads;
      if j <= k {
        FewerRepeats(loads[..k], j);
        assert loads[..k][..j] == loads[..j];
      } else {
        FewerRepeats(loads[..k], k);
        assert loads[..k][..k] == loads[..k] && loads[..j] == loads;
      }
    }
  }

  lemma {:induction false} LoadsAt(phs: seq<Segment>, v: nat)
    ensures v in Loads(phs) <==> exists j | 0 <= j < |phs| :: Covers(phs[j], v)
  {
    hide FirstPage, PageCount, Covers;
    if phs != [] {
      var k := |phs| - 1;
      LoadsAt(phs[..k], v);
      CoversIff(phs[k], v);
      if Covers(phs[k], v) {
        assert PageRun(FirstPage(phs[k]), PageCount(phs[k]))[v - FirstPage(phs[k])] == v;
      }
      if j :| 0 <= j < k && Covers(phs[j], v) {
        assert phs[..k][j] == phs[j];
      }
    }
  }

  /** They are the pages of the image. */
  lemma LoadsImage(file: seq<nat>, phs: seq<Segment>)
    requires Inside(file, phs)
    ensures Elems(Loads(phs)) == ImageOf(file, phs).Keys
  {
    hide ImageOf, Loads, Covers;
    forall v
      ensures v in Elems(Loads(phs)) <==> v in ImageOf(file, phs).Keys
    {
      if v >= 0 {
        LoadsAt(phs, v);
        ImageAt(file, phs, v);
      }
    }
  }

  /** The last segment overlaps none before it exactly when its pages are new. */
  lemma OverlapStep(phs: seq<Segment>)
    requires phs != []
    ensures var k := |phs| - 1;
            NoOverlap(phs) <==> NoOverlap(phs[..k]) && forall v | v in Loads(phs[..k]) :: !Covers(phs[k], v)
  {
    hide Loads, Covers;
    var k := |phs| - 1;
    var init := phs[..k];
    assert forall j | 0 <= j < k :: init[j] == phs[j];
    forall v: nat
      ensures v in Loads(init) <==> exists j | 0 <= j < k :: Covers(phs[j], v)
    {
      LoadsAt(init, v);
      if j :| 0 <= j < k && Covers(phs[j], v) {
        assert Covers(init[j], v);
      }
    }
  }

  /** No page is loaded twice exactly when no two segments share a page. */
  lemma {:induction false} OverlapIff(phs: seq<Segment>)
    ensures 0 <= Repeats(Loads(phs))
    ensures Repeats(Loads(phs)) == 0 <==> NoOverlap(phs)
  {
    hide FirstPage, PageCount, Covers, NoOverlap, Repeats, PageRun;
    FewerRepeats(Loads(phs), 0);
    if phs == [] {
      NothingOverlaps();
    } else {
      var k := |phs| - 1;
      OverlapIff(phs[..k]);
      OverlapStep(phs);
      if Loadable(phs[k]) {
        RunRepeats(Loads(phs[..k]), FirstPage(phs[k]), PageCount(phs[k]));
        forall v: nat
          ensures Covers(phs[k], v) <==> FirstPage(phs[k]) <= v < FirstPage(phs[k]) + PageCount(phs[k])
        {
          CoversIff(phs[k], v);
        }
      } else {
        forall v: nat
          ensures !Covers(phs[k], v)
        {
          CoversIff(phs[k], v);
        }
        assert Loads(phs) == Loads(phs[..k]);
      }
    }
  }

  lemma NothingOverlaps()
    ensures NoOverlap([]) && Repeats([]) == 0
  {}

  /** Fewer segments load fewer pages, the same ones first. */
  lemma {:induction false} LoadsPrefix(phs: seq<Segment>, i: nat)
    requires i <= |phs|
    ensures Loads(phs[..i]) <= Loads(phs)
  {
    if i < |phs| {
      LoadsPrefix(phs[..|phs| - 1], i);
      assert phs[..|phs| - 1][..i] == phs[..i];
    } else {
      assert phs[..i] == phs;
    }
  }
}
