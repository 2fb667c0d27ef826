/** What several modules share: optional values, bytes and words, lists without repetition, and bounds on products and
    quotients. */
module Common {
  datatype Option<T> = None | Some(value: T)

  type byte = x: int | 0 <= x < 256

  const WORD := 0x1_0000_0000
  const INT_MAX := 0x7FFF_FFFF
  const PGSIZE := 4096
  const PHYS_BASE := 0xC000_0000

  function Min(x: int, y: int): int { if x < y then x else y }

  function Max(x: int, y: int): int { if x < y then y else x }

  function Abs(x: int): nat { if x < 0 then -x else x }

  /** A 32-bit word in memory, lowest byte first, and back. */
  function LittleEndian(v: nat): (r: seq<byte>)
    requires v < WORD
    ensures |r| == 4
  {
    [v % 0x100, v / 0x100 % 0x100, v / 0x1_0000 % 0x100, v / 0x100_0000]
  }

  function Value(b: seq<byte>): (v: nat)
    requires |b| == 4
    ensures v < WORD
  {
    b[0] as int + b[1] as int * 0x100 + b[2] as int * 0x1_0000 + b[3] as int * 0x100_0000
  }

  lemma ValueReadsBack(v: nat)
    requires v < WORD
    ensures Value(LittleEndian(v)) == v
  {
    assert v / 0x1_0000 == v / 0x100 / 0x100 && v / 0x100_0000 == v / 0x100 / 0x100 / 0x100;
  }

  lemma LowestByteFirst()
    ensures LittleEndian(0x0102_0304) == [4, 3, 2, 1] && Value([4, 3, 2, 1]) == 0x0102_0304
  {
  }

  predicate NoDup<T(==)>(list: seq<T>) {
    forall i, j :: 0 <= i < j < |list| ==> list[i] != list[j]
  }

  /** The list without its element at `k`. */
  function Without<T>(list: seq<T>, k: nat): seq<T>
    requires k < |list|
  {
    list[..k] + list[k + 1..]
  }

  lemma WithoutIs<T>(list: seq<T>, k: nat)
    requires k < |list| && NoDup(list)
    ensures NoDup(Without(list, k)) && forall t :: t in Without(list, k) <==> t in list && t != list[k]
  {
    forall t | t in list && t != list[k] ensures t in Without(list, k) {
      var i :| 0 <= i < |list| && list[i] == t;
      assert Without(list, k)[if i < k then i else i - 1] == t;
    }
  }

  lemma MulLe(x: int, y: int, d: int)
    requires x <= y && d >= 0
    ensures x * d <= y * d
  {
  }

  lemma QuotientAtMost(n: nat, d: int)
    requires d > 0
    ensures 0 <= n / d <= n
  {
    var q := n / d;
    assert q * d <= n < q * d + d;
    if q < 0 {
      MulLe(q + 1, 0, d);
      assert false;
    }
    MulLe(1, d, q);
  }

  lemma Cancel(x: int, y: int, d: int)
    requires d > 0
    ensures x * d < y * d ==> x < y
    ensures x * d <= y * d ==> x <= y
  {
    if x >= y {
      MulLe(y, x, d);
    }
    if x > y {
      MulLe(y + 1, x, d);
    }
  }

  /** A quotient is between two bounds exactly when the dividend is between their multiples of the divisor. */
  lemma DivBetween(n: nat, d: int, lo: int, hi: int)
    requires d > 0
    ensures lo * d <= n ==> lo <= n / d
    ensures n < hi * d ==> n / d < hi
  {
    var q := n / d;
    assert q * d <= n < q * d + d == (q + 1) * d;
    Cancel(lo, q + 1, d);
    Cancel(q, hi, d);
  }

  lemma DivUnique(n: nat, d: int, q: int)
    requires d > 0 && q * d <= n < q * d + d
    ensures n / d == q
  {
    DivBetween(n, d, q, q + 1);
  }
}
