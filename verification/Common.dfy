/** What several parts of the model use. */
module Common {
  const PAGE_SIZE: nat := 4096
  const TWO64: nat := 0x1_0000_0000_0000_0000

  datatype Option<T> = None | Some(value: T)

  /** A sequence with its k-th element taken out. */
  function Without<T>(s: seq<T>, k: nat): seq<T>
    requires k < |s|
  {
    s[..k] + s[k + 1..]
  }

  // ---- Sets ----

  lemma Pick<T>(s: set<T>) returns (x: T)
    requires s != {}
    ensures x in s
  {
    x :| x in s;
  }

  lemma SubsetCount<T>(a: set<T>, b: set<T>)
    requires a <= b
    ensures |a| <= |b|
  {
    assert b == a + (b - a);
  }

  lemma UnionCount<T>(a: set<T>, b: set<T>)
    ensures |a + b| <= |a| + |b|
    ensures |a + b| == |a| + |b| <==> a * b == {}
    ensures a * b == {} <==> a !! b
  {
    assert |a + b| == |a| + |b| - |a * b|;
    if !(a !! b) {
      var x :| x in a && x in b;
      assert x in a * b;
    }
  }

  // ---- Bytes ----

  ghost function Power256(n: nat): nat {
    if n == 0 then 1 else 256 * Power256(n - 1)
  }

  /** The n-byte number at an offset, least significant byte first. */
  function Little(d: seq<nat>, at: nat, n: nat): nat
    requires at + n <= |d|
    decreases n
  {
    if n == 0 then 0 else d[at] + 256 * Little(d, at + 1, n - 1)
  }

  /** Where the k-th field of a record starts, given the widths of its fields. */
  function OffsetOf(widths: seq<nat>, k: nat): nat
    requires k <= |widths|
  {
    if k == 0 then 0 else OffsetOf(widths, k - 1) + widths[k - 1]
  }

  // ---- Division ----

  lemma Product(a: nat, k: nat)
    requires a >= 1
    ensures a * k >= k
  {}

  lemma MulDiv(q: nat, r: nat, k: nat)
    requires r < k
    ensures (q * k + r) / k == q && (q * k + r) % k == r
  {
    var x := q * k + r;
    var q', r' := x / k, x % k;
    assert x == q' * k + r';
    assert (q - q') * k == r' - r && (q' - q) * k == r - r';
    if q - q' >= 1 {
      Product(q - q', k);
    } else if q' - q >= 1 {
      Product(q' - q, k);
    }
  }
}
