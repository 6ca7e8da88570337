/** Bytes, 32-bit words and little-endian fields over byte sequences. */
module Bytes {
  type Byte = x: int | 0 <= x < 256
  type Word32 = x: int | 0 <= x < 0x1_0000_0000

  const TWO32: nat := 0x1_0000_0000
  const TWO64: nat := 0x1_0000_0000_0000_0000

  function U16At(m: seq<Byte>, at: nat): (v: nat)
    requires at + 2 <= |m|
    ensures v < 0x1_0000
  {
    (m[at] as int) + 0x100 * (m[at + 1] as int)
  }

  function U32At(m: seq<Byte>, at: nat): (v: nat)
    requires at + 4 <= |m|
    ensures v < TWO32
  {
    U16At(m, at) + 0x1_0000 * U16At(m, at + 2)
  }

  function U64At(m: seq<Byte>, at: nat): (v: nat)
    requires at + 8 <= |m|
    ensures v < TWO64
  {
    U32At(m, at) + TWO32 * U32At(m, at + 4)
  }

  /** `m` and `m'` have the same length and agree everywhere outside [lo, hi). */
  predicate SameOutside<T(==)>(m: seq<T>, m': seq<T>, lo: int, hi: int) {
    |m| == |m'| && forall i | 0 <= i < |m| && !(lo <= i < hi) :: m'[i] == m[i]
  }

  /** `data` written over `m` at `at`. */
  function Put(m: seq<Byte>, at: nat, data: seq<Byte>): (r: seq<Byte>)
    requires at + |data| <= |m|
    ensures |r| == |m| && r[at..at + |data|] == data
    ensures forall i | 0 <= i < |m| :: r[i] == if at <= i < at + |data| then data[i - at] else m[i]
  {
    m[..at] + data + m[at + |data|..]
  }

  function U16Bytes(v: nat): (b: seq<Byte>)
    requires v < 0x1_0000
    ensures |b| == 2 && U16At(b, 0) == v
  {
    [v % 256, v / 256]
  }

  function U32Bytes(v: nat): (b: seq<Byte>)
    requires v < TWO32
    ensures |b| == 4 && U32At(b, 0) == v
  {
    U16Bytes(v % 0x1_0000) + U16Bytes(v / 0x1_0000)
  }

  /** A field read back from where it was put. */
  lemma FieldFrame(m: seq<Byte>, at: nat, b: seq<Byte>)
    requires at + |b| <= |m| && m[at..at + |b|] == b
    ensures |b| == 2 ==> U16At(m, at) == U16At(b, 0)
    ensures |b| == 4 ==> U32At(m, at) == U32At(b, 0)
  {
    assert forall i {:trigger b[i]} | 0 <= i < |b| :: m[at + i] == b[i];
  }

  /** A part of a slice, seen from the whole. */
  lemma PartOfSlice<T>(m: seq<T>, at: nat, slice: seq<T>, lo: nat, hi: nat)
    requires at + |slice| <= |m| && m[at..at + |slice|] == slice && lo <= hi <= |slice|
    ensures m[at + lo..at + hi] == slice[lo..hi]
    ensures hi < |slice| ==> m[at + hi] == slice[hi]
  {
    forall i | 0 <= i < hi - lo ensures m[at + lo..at + hi][i] == slice[lo..hi][i] {
      assert m[at..at + |slice|][lo + i] == m[at + lo + i];
    }
    if hi < |slice| {
      assert m[at..at + |slice|][hi] == m[at + hi];
    }
  }

  lemma SameSlice<T>(a: seq<T>, b: seq<T>, lo: nat, hi: nat)
    requires lo <= hi <= |a| && hi <= |b| && forall k | lo <= k < hi :: a[k] == b[k]
    ensures a[lo..hi] == b[lo..hi]
  {
  }

  /** A field of a number in which it stands at weight `unit`, below `above` and above `below`. */
  lemma FieldRead(v: int, above: int, width: nat, field: int, unit: nat, below: int)
    requires v == above * (width * unit) + field * unit + below
    requires 0 <= below < unit && 0 <= field < width
    ensures v / unit == above * width + field && v / unit % width == field
  {
    assert v == (above * width + field) * unit + below by {
      assert above * (width * unit) == above * width * unit;
    }
    QuotientIs(above * width + field, unit, below);
    QuotientIs(above, width, field);
  }

  lemma QuotientIs(q: int, d: nat, r: int)
    requires 0 <= r < d
    ensures (q * d + r) / d == q && (q * d + r) % d == r
  {
    var v := q * d + r;
    OneQuotient(v / d, v % d, q, r, d);
  }

  lemma OneQuotient(x: int, y: int, q: int, r: int, d: nat)
    requires x * d + y == q * d + r && 0 <= y < d && 0 <= r < d
    ensures x == q && y == r
  {
    assert (x - q) * d == x * d - q * d;
    assert (q - x) * d == q * d - x * d;
    if x > q {
      AtLeast(x - q, d);
    } else if x < q {
      AtLeast(q - x, d);
    }
  }

  lemma AtLeast(k: int, d: nat)
    requires k >= 1
    ensures k * d >= d
  {
    assert k * d == (k - 1) * d + d;
  }
}
