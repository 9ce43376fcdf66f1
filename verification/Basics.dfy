/** Bytes, options and the little arithmetic every other module needs. */
module Basics {

  newtype byte = x: int | 0 <= x < 256

  type Bytes = seq<byte>

  datatype Option<+T> = None | Some(value: T)

  function Min(a: int, b: int): int {
    if a < b then a else b
  }

  function Max(a: int, b: int): int {
    if a < b then b else a
  }

  /** `data` is what a file holds from position `off` on, as far as `data` goes. */
  ghost predicate PrefixAt(file: Bytes, off: nat, data: Bytes) {
    && (data == [] || off + |data| <= |file|)
    && forall i :: 0 <= i < |data| ==> data[i] == file[off + i]
  }

  /** Bytes `first` to `last`, both included, as far as the file has them (RFC 7233, section 2.1). */
  function Range(file: Bytes, first: nat, last: int): Bytes
    requires first <= last + 1
  {
    file[Min(first, |file|)..Min(last + 1, |file|)]
  }

  /** Byte by byte, `data` is in the file from `off` on. */
  ghost predicate BytesAt(file: Bytes, off: nat, data: Bytes) {
    forall i :: 0 <= i < |data| ==> off + i < |file| && data[i] == file[off + i]
  }

  lemma PrefixBytes(file: Bytes, off: nat, data: Bytes)
    ensures PrefixAt(file, off, data) <==> BytesAt(file, off, data)
  {
    if data != [] {
      var last := data[|data| - 1];
    }
  }

  lemma PrefixSlice(file: Bytes, off: nat, data: Bytes)
    requires PrefixAt(file, off, data) && off <= |file|
    ensures off + |data| <= |file| && data == file[off..off + |data|]
  {
  }

  lemma PrefixInside(file: Bytes, off: nat, data: Bytes, skip: nat, part: Bytes)
    requires PrefixAt(file, off, data) && skip + |part| <= |data|
    requires forall i :: 0 <= i < |part| ==> part[i] == data[skip + i]
    ensures PrefixAt(file, off + skip, part)
  {
  }

  lemma PrefixAppend(file: Bytes, off: nat, a: Bytes, b: Bytes)
    requires PrefixAt(file, off, a) && PrefixAt(file, off + |a|, b)
    ensures PrefixAt(file, off, a + b)
  {
  }

  /** A run of file bytes of the right length starting at `first` is the requested range. */
  lemma PrefixIsRange(file: Bytes, first: nat, last: int, data: Bytes)
    requires PrefixAt(file, first, data)
    requires first + |data| <= last + 1
    ensures data <= Range(file, first, last)
    ensures first + |data| == Min(last + 1, |file|) ==> data == Range(file, first, last)
  {
    var r := Range(file, first, last);
    forall i | 0 <= i < |data|
      ensures i < |r| && data[i] == r[i]
    {
    }
  }

  lemma {:induction false} DivModUnique(x: int, q: int, r: int, m: int)
    requires 0 <= r < m && x == q * m + r
    ensures x / m == q && x % m == r
  {
    var d := x / m - q;
    assert m * d == r - x % m;
    assert d >= 1 ==> m * d >= m;
    assert d <= -1 ==> m * d <= -m;
  }

  lemma TimesMonotone(a: nat, b: nat, m: nat)
    requires a <= b
    ensures a * m <= b * m
  {
  }

  lemma PositiveProduct(x: int, m: int)
    requires m > 0 && x * m > 0
    ensures x >= 1 && x * m >= m
  {
    assert x >= 1;
    assert (x - 1) * m >= 0;
  }
}
