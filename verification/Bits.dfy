/** Bitmaps kept in machine words: the byte bitmap of the page allocator, the 64-bit words of a slab header. */
module Bits {

  /** `(w >> i) & 1`. */
  predicate Bit(w: nat, i: nat) {
    if i == 0 then w % 2 == 1 else Bit(w / 2, i - 1)
  }

  /** `w | (1 << i)` when `v`, `w & ~(1 << i)` otherwise. */
  function Put(w: nat, i: nat, v: bool): (r: nat)
    ensures Bit(r, i) == v
    ensures forall j: nat | j != i :: Bit(r, j) == Bit(w, j)
  {
    if i == 0 then
      w - w % 2 + (if v then 1 else 0)
    else
      var r := 2 * Put(w / 2, i - 1, v) + w % 2;
      assert r / 2 == Put(w / 2, i - 1, v) && r % 2 == w % 2;
      r
  }

  /** Bit `idx` of a bitmap stored in words of `width` bits. */
  predicate TestBit(bm: seq<nat>, width: nat, idx: nat)
    requires 0 < width && idx / width < |bm|
  {
    Bit(bm[idx / width], idx % width)
  }

  /** Writing one bit of a bitmap changes that bit and no other. */
  lemma WriteBit(bm: seq<nat>, width: nat, idx: nat, v: bool)
    requires 0 < width && idx / width < |bm|
    ensures var bm' := bm[idx / width := Put(bm[idx / width], idx % width, v)];
            forall j: nat | j / width < |bm| :: TestBit(bm', width, j) == if j == idx then v else TestBit(bm, width, j)
  {
    var bm' := bm[idx / width := Put(bm[idx / width], idx % width, v)];
    forall j: nat | j / width < |bm|
      ensures TestBit(bm', width, j) == if j == idx then v else TestBit(bm, width, j)
    {
      if j / width == idx / width && j % width == idx % width {
        DivModUnique(j, idx, width);
      }
    }
  }

  lemma DivModUnique(a: nat, b: nat, n: nat)
    requires 0 < n && a / n == b / n && a % n == b % n
    ensures a == b
  {
    assert a == n * (a / n) + a % n;
    assert b == n * (b / n) + b % n;
  }

  /** A zero word has no bit set. */
  lemma ZeroWord(i: nat)
    ensures !Bit(0, i)
  {}

  /** The word of `n` ones. */
  function Ones(n: nat): nat {
    if n == 0 then 0 else 2 * Ones(n - 1) + 1
  }

  lemma OnesBit(n: nat, i: nat)
    requires i < n
    ensures Bit(Ones(n), i)
  {
    assert Ones(n) / 2 == Ones(n - 1);
  }
}
