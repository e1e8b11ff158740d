/** kernel/fs/ramfs.c: the contents of a regular file in a buffer that grows. */
module Ramfs {
  import opened Common

  /** Contents as far as they are known: a byte in a gap that a write past the end left is not. */
  type Bytes = seq<Option<nat>>

  function Known(b: seq<nat>): (s: Bytes)
    ensures |s| == |b|
  {
    seq(|b|, i requires 0 <= i < |b| => Some(b[i]))
  }

  function Gap(n: nat): Bytes {
    seq(n, _ => None)
  }

  /** Overwriting from pos on, and extending at the end, with a gap before if pos is past it. */
  function Overwrite(s: Bytes, pos: nat, b: seq<nat>): Bytes {
    (if pos <= |s| then s[..pos] else s + Gap(pos - |s|)) + Known(b)
    + if pos + |b| < |s| then s[pos + |b|..] else []
  }

  /** What was written is there, the rest is as it was, and the length is the larger of the two ends. */
  lemma OverwriteAt(s: Bytes, pos: nat, b: seq<nat>, i: nat)
    ensures |Overwrite(s, pos, b)| == if pos + |b| > |s| then pos + |b| else |s|
    ensures i < |Overwrite(s, pos, b)| ==>
              Overwrite(s, pos, b)[i] ==
              if pos <= i < pos + |b| then Some(b[i - pos]) else if i < |s| then s[i] else None
  {}

  /** What a write leaves behind wherever it starts: the bytes written, the old ones elsewhere, anything in a gap. */
  ghost predicate Written(s: seq<nat>, pos: nat, b: seq<nat>, s': seq<nat>) {
    && |s'| == (if pos + |b| > |s| then pos + |b| else |s|)
    && (forall i | pos <= i < pos + |b| :: s'[i] == b[i - pos])
    && forall i | 0 <= i < |s| && !(pos <= i < pos + |b|) :: s'[i] == s[i]
  }

  /** Of the same length, and equal where known. */
  ghost predicate Agrees(b: seq<nat>, s: Bytes) {
    |b| == |s| && forall i | 0 <= i < |s| && s[i].Some? :: b[i] == s[i].value
  }

  lemma WrittenAgrees(s: seq<nat>, pos: nat, b: seq<nat>, s': seq<nat>, known: Bytes)
    requires Written(s, pos, b, s') && Agrees(s, known)
    ensures Agrees(s', Overwrite(known, pos, b))
  {
    hide Overwrite;
    OverwriteAt(known, pos, b, 0);
    forall i | 0 <= i < |s'| && Overwrite(known, pos, b)[i].Some?
      ensures s'[i] == Overwrite(known, pos, b)[i].value
    {
      OverwriteAt(known, pos, b, i);
    }
  }

  /** What a read returns: what there is from pos on, at most n bytes. */
  function Clipped<T>(s: seq<T>, pos: nat, n: nat): seq<T> {
    if pos >= |s| then [] else if pos + n > |s| then s[pos..] else s[pos..pos + n]
  }

  /** As many bytes as there are from pos on, at most n, and each the file's. */
  lemma ClippedAt<T>(s: seq<T>, pos: nat, n: nat, i: nat)
    ensures |Clipped(s, pos, n)| <= n && pos + |Clipped(s, pos, n)| <= (if pos < |s| then |s| else pos)
    ensures |Clipped(s, pos, n)| < n ==> pos + |Clipped(s, pos, n)| >= |s|
    ensures i < |Clipped(s, pos, n)| ==> Clipped(s, pos, n)[i] == s[pos + i]
  {}

  lemma ClippedAgrees(b: seq<nat>, s: Bytes, pos: nat, n: nat)
    requires Agrees(b, s)
    ensures Agrees(Clipped(b, pos, n), Clipped(s, pos, n))
  {}

  // ---- Runs on values ----

  datatype FileState = FileState(contents: Bytes, capacity: nat)

  /** A write, and whether there is memory should the buffer have to grow. */
  datatype WriteOp = WriteOp(pos: nat, bytes: seq<nat>, memory: bool) {
    predicate Fails(capacity: nat) {
      pos + |bytes| > capacity && !memory
    }
  }

  function Next(f: FileState, w: WriteOp): FileState {
    if w.Fails(f.capacity) then f else
    var end := w.pos + |w.bytes|;
    FileState(Overwrite(f.contents, w.pos, w.bytes), if end > f.capacity then end + 4096 else f.capacity)
  }

  function After(f: FileState, writes: seq<WriteOp>): FileState {
    if writes == [] then f else Next(After(f, writes[..|writes| - 1]), writes[|writes| - 1])
  }

  lemma AfterMore(f: FileState, writes: seq<WriteOp>, w: WriteOp)
    ensures After(f, []) == f && After(f, writes + [w]) == Next(After(f, writes), w)
  {
    assert (writes + [w])[..|writes|] == writes;
  }

  /** Every write that succeeds starts at or before the end of the file at that time. */
  ghost predicate InFile(f: FileState, writes: seq<WriteOp>) {
    forall i | 0 <= i < |writes| ::
      var g := After(f, writes[..i]);
      writes[i].Fails(g.capacity) || writes[i].pos <= |g.contents|
  }

  ghost predicate AllKnown(s: Bytes) {
    forall i | 0 <= i < |s| :: s[i].Some?
  }

  /** Then there is no gap, and the contents are known. */
  lemma {:induction false} NoGaps(f: FileState, writes: seq<WriteOp>)
    requires AllKnown(f.contents) && InFile(f, writes)
    ensures AllKnown(After(f, writes).contents)
  {
    hide Overwrite;
    if writes != [] {
      var n := |writes| - 1;
      var init, w := writes[..n], writes[n];
      assert forall i | 0 <= i < n :: init[i] == writes[i] && init[..i] == writes[..i];
      NoGaps(f, init);
      var g := After(f, init);
      forall i | 0 <= i < |Next(g, w).contents|
        ensures Next(g, w).contents[i].Some?
      {
        OverwriteAt(g.contents, w.pos, w.bytes, i);
      }
    }
  }

  class RamFile {
    /** The buffer; an empty one stands for NULL. Its length is the capacity. */
    var data: array<nat>
    var size: nat

    ghost predicate Valid()
      reads this
    {
      size <= data.Length
    }

    ghost function Contents(): (s: seq<nat>)
      requires Valid()
      reads this, data
      ensures |s| == size
    {
      data[..size]
    }

    /** Is in this state, as far as known. */
    ghost predicate Is(f: FileState)
      reads this, data
    {
      Valid() && Agrees(Contents(), f.contents) && data.Length == f.capacity
    }

    /** The state with all bytes known. */
    ghost function View(): FileState
      requires Valid()
      reads this, data
    {
      FileState(Known(Contents()), data.Length)
    }

    constructor ()
      ensures Valid() && View() == FileState([], 0) && fresh(data)
    {
      data := new nat[0];
      size := 0;
    }

    /** `ramfs_read`; the position moves by as much as was read. */
    method Read(pos: nat, n: nat) returns (b: seq<nat>, pos': nat)
      requires Valid()
      ensures b == Clipped(Contents(), pos, n) && pos' == pos + |b|
    {
      if data.Length == 0 || pos >= size {
        return [], pos;
      }
      var avail := size - pos;
      var k := if n > avail then avail else n;
      b := data[pos..pos + k];
      pos' := pos + k;
      assert Contents()[pos..pos + k] == b;
    }

    /** A larger buffer with the same contents. */
    method Grow(capacity: nat)
      requires Valid() && capacity > data.Length
      modifies this`data
      ensures Valid() && fresh(data) && data.Length == capacity && Contents() == old(Contents())
    {
      var larger := new nat[capacity];
      for i := 0 to size
        invariant data == old(data) && larger[..i] == data[..i]
      {
        larger[i] := data[i];
      }
      data := larger;
    }

    /**
     * `ramfs_write`. It fails, changing nothing, exactly when the buffer would have to grow and there is no memory.
     * Otherwise the bytes are written. Whatever was known is known as the value model says.
     */
    method Write(pos: nat, b: seq<nat>, memory: bool, ghost f: FileState) returns (written: int, pos': nat)
      requires Is(f)
      modifies this, data
      ensures Is(Next(f, WriteOp(pos, b, memory))) && (data == old(data) || fresh(data))
      ensures written == if pos + |b| > old(data.Length) && !memory then -1 else |b|
      ensures data.Length == if pos + |b| > old(data.Length) && memory then pos + |b| + 4096 else old(data.Length)
      ensures written < 0 ==> pos' == pos && View() == old(View())
      ensures written >= 0 ==> pos' == pos + |b| && Written(old(Contents()), pos, b, Contents())
    {
      hide Overwrite, Agrees;
      ghost var s := Contents();
      if pos + |b| > data.Length {
        if !memory {
          return -1, pos;
        }
        Grow(pos + |b| + 4096);
      }
      assert Contents() == s;
      Fill(pos, b);
      pos' := pos + |b|;
      if pos' > size {
        size := pos';
      }
      written := |b|;
      WrittenAgrees(s, pos, b, Contents(), f.contents);
    }

    /** `kmemcpy` into the buffer. */
    method Fill(pos: nat, b: seq<nat>)
      requires pos + |b| <= data.Length
      modifies data
      ensures forall i | pos <= i < pos + |b| :: data[i] == b[i - pos]
      ensures forall i | 0 <= i < data.Length && !(pos <= i < pos + |b|) :: data[i] == old(data[i])
    {
      for i := 0 to |b|
        invariant forall j | pos <= j < pos + i :: data[j] == b[j - pos]
        invariant forall j | 0 <= j < data.Length && !(pos <= j < pos + i) :: data[j] == old(data[j])
      {
        data[pos + i] := b[i];
      }
    }

    /** Any run of writes, inside the file or past its end, whether memory is short or not; then a read. */
    method RunThenRead(writes: seq<WriteOp>, pos: nat, n: nat) returns (b: seq<nat>)
      requires Valid()
      modifies this, data
      ensures Is(After(old(View()), writes)) && Agrees(b, Clipped(After(old(View()), writes).contents, pos, n))
    {
      hide Next, After, Agrees;
      ghost var f := View();
      IsView();
      for k := 0 to |writes|
        invariant Is(After(f, writes[..k])) && (data == old(data) || fresh(data))
      {
        AfterMore(f, writes[..k], writes[k]);
        assert writes[..k + 1] == writes[..k] + [writes[k]];
        var _, _ := Write(writes[k].pos, writes[k].bytes, writes[k].memory, After(f, writes[..k]));
      }
      assert writes[..|writes|] == writes;
      var end;
      b, end := Read(pos, n);
      ClippedAgrees(Contents(), After(f, writes).contents, pos, n);
    }

    lemma IsView()
      requires Valid()
      ensures Is(View()) && After(View(), []) == View()
    {}
  }
}
