/** Block arithmetic of a range request: the offset loop of Fetch and how it deals blocks to workers
    (internal/fetcher/fetcher.go), and the block key of the reader (internal/fetcher/seekable.go). */
module Blocks {
  import opened Basics

  predicate Aligned(off: int, bs: int)
    requires bs > 0
  {
    off % bs == 0
  }

  lemma QuotientMonotone(a: nat, b: nat, m: nat)
    requires m > 0
    ensures a <= b ==> a / m <= b / m
  {
    var d := b / m - a / m;
    assert (d + 1) * m == b - a + m - b % m + a % m;
    if a <= b {
      PositiveProduct(d + 1, m);
    }
  }

  /** Start of the block that holds position `off`. */
  function KeyOf(off: nat, bs: nat): (key: nat)
    requires bs > 0
    ensures key <= off < key + bs && Aligned(key, bs)
  {
    KeyIsAligned(off, bs);
    off - off % bs
  }

  lemma KeyIsAligned(off: nat, bs: nat)
    requires bs > 0
    ensures 0 <= off - off % bs && Aligned(off - off % bs, bs)
    ensures off - off % bs == off / bs * bs
  {
    DivModUnique(off - off % bs, off / bs, 0, bs);
  }

  /** The handler's way of writing it: whole blocks below `off`, times the block size. */
  function BlockStart(off: nat, bs: nat): (key: nat)
    requires bs > 0
    ensures key == KeyOf(off, bs)
  {
    KeyIsAligned(off, bs);
    off / bs * bs
  }

  function BlockIndex(off: nat, bs: nat): nat
    requires bs > 0
  {
    off / bs
  }

  /** Different aligned offsets are at least a block apart. */
  lemma AlignedGap(a: int, b: int, bs: int)
    requires bs > 0 && Aligned(a, bs) && Aligned(b, bs)
    ensures a < b ==> a + bs <= b
  {
    var q := b / bs - a / bs;
    assert q * bs == b - a;
    if a < b {
      PositiveProduct(q, bs);
    }
  }

  lemma AlignedNext(off: int, bs: int)
    requires bs > 0
    ensures (off + bs) % bs == off % bs && (off + bs) / bs == off / bs + 1
  {
    DivModUnique(off + bs, off / bs + 1, off % bs, bs);
  }

  /** The only aligned offset within a block's length at or below `pos` is that block's key. */
  lemma KeyUnique(pos: nat, key: nat, bs: nat)
    requires bs > 0 && Aligned(key, bs) && key <= pos < key + bs
    ensures KeyOf(pos, bs) == key
  {
    var k := KeyOf(pos, bs);
    AlignedGap(k, key, bs);
    AlignedGap(key, k, bs);
  }

  /** Block starts `off`, `off + bs`, ... not above `end`. */
  function Offsets(off: nat, end: int, bs: nat): seq<nat>
    requires bs > 0
    decreases end - off
  {
    if off > end then [] else [off] + Offsets(off + bs, end, bs)
  }

  /** The blocks a request for bytes `start` to `end` touches. */
  function RangeBlocks(start: nat, end: int, bs: nat): seq<nat>
    requires bs > 0
  {
    Offsets(KeyOf(start, bs), end, bs)
  }

  ghost function AsSet(s: seq<nat>): set<nat> {
    set o | o in s
  }

  ghost predicate Increasing(s: seq<nat>) {
    forall i, j :: 0 <= i < j < |s| ==> s[i] < s[j]
  }

  lemma {:induction false} OffsetsMembers(off: nat, end: int, bs: nat)
    requires bs > 0 && Aligned(off, bs)
    ensures forall o: nat :: o in Offsets(off, end, bs) <==> off <= o <= end && Aligned(o, bs)
    ensures Increasing(Offsets(off, end, bs))
    decreases end - off
  {
    if off > end {
    } else {
      var tail := Offsets(off + bs, end, bs);
      AlignedNext(off, bs);
      OffsetsMembers(off + bs, end, bs);
      forall o: nat | off < o <= end && Aligned(o, bs)
        ensures o in tail
      {
        AlignedGap(off, o, bs);
      }
      forall i | 0 <= i < |tail|
        ensures off < tail[i]
      {
        assert tail[i] in tail;
      }
    }
  }

  lemma {:induction false} OffsetsCount(off: nat, end: int, bs: nat)
    requires bs > 0 && Aligned(off, bs) && off <= end + bs
    ensures end >= 0 ==> |Offsets(off, end, bs)| == end / bs - off / bs + 1
    decreases end - off
  {
    if off > end {
      if end >= 0 {
        var k := KeyOf(end, bs);
        KeyIsAligned(end, bs);
        assert k < off;
        AlignedGap(k, off, bs);
        AlignedNext(k, bs);
        AlignedGap(k + bs, off, bs);
        DivModUnique(k, end / bs, 0, bs);
      }
    } else {
      AlignedNext(off, bs);
      OffsetsCount(off + bs, end, bs);
    }
  }

  /** The offset list is exactly the aligned blocks that meet the range, in increasing order,
      `end/bs - start/bs + 1` of them; the first holds `start`, and a block holds `end`. */
  lemma RangeBlocksExact(start: nat, end: nat, bs: nat)
    requires bs > 0 && start <= end
    ensures var offs := RangeBlocks(start, end, bs);
            && |offs| == end / bs - start / bs + 1
            && Increasing(offs)
            && offs[0] == KeyOf(start, bs)
            && KeyOf(end, bs) in offs
            && forall o: nat :: o in offs <==> Aligned(o, bs) && o <= end && start < o + bs
  {
    var k := KeyOf(start, bs);
    OffsetsMembers(k, end, bs);
    OffsetsCount(k, end, bs);
    KeyIsAligned(start, bs);
    DivModUnique(k, start / bs, 0, bs);
    forall o: nat | Aligned(o, bs) && o <= end
      ensures start < o + bs <==> k <= o
    {
      AlignedGap(o, k, bs);
    }
    AlignedGap(KeyOf(end, bs), k, bs);
  }

  /** Every position of the range lies in one of its blocks. */
  lemma RangeBlockOf(start: nat, end: nat, bs: nat, pos: nat)
    requires bs > 0 && start <= pos <= end
    ensures KeyOf(pos, bs) in RangeBlocks(start, end, bs)
  {
    OffsetsMembers(KeyOf(start, bs), end, bs);
    AlignedGap(KeyOf(pos, bs), KeyOf(start, bs), bs);
  }

  /** The block split of Fetch (internal/fetcher/fetcher.go:45-52), including the test that never fires. */
  method SplitRange(start: nat, end: int, bs: nat) returns (offs: seq<nat>)
    requires bs > 0
    ensures offs == RangeBlocks(start, end, bs)
  {
    offs := [];
    var off := KeyOf(start, bs);
    while off <= end
      invariant off >= KeyOf(start, bs)
      invariant offs + Offsets(off, end, bs) == RangeBlocks(start, end, bs)
      decreases end - off
    {
      var blockEnd := off + bs - 1;
      if !(blockEnd < start || off > end) {
        offs := offs + [off];
      }
      off := off + bs;
    }
  }

  // ---- dealing the blocks to workers --------------------------------------------------------

  /** What worker `w` of `n` gets when a list is dealt out in turn. */
  ghost function Hand(offs: seq<nat>, n: nat, w: nat): seq<nat>
    requires n > 0
  {
    if offs == [] then []
    else
      var last := |offs| - 1;
      Hand(offs[..last], n, w) + if last % n == w then [offs[last]] else []
  }

  lemma {:induction false} HandMembers(offs: seq<nat>, n: nat, w: nat)
    requires n > 0 && Increasing(offs)
    ensures Increasing(Hand(offs, n, w))
    ensures forall o :: o in Hand(offs, n, w) <==> exists i :: 0 <= i < |offs| && i % n == w && offs[i] == o
  {
    if offs == [] {
    } else {
      var last := |offs| - 1;
      var rest := offs[..last];
      HandMembers(rest, n, w);
      var h := Hand(rest, n, w);
      forall k | 0 <= k < |h|
        ensures h[k] < offs[last]
      {
        assert h[k] in h;
      }
      forall o
        ensures o in Hand(offs, n, w) <==> exists i :: 0 <= i < |offs| && i % n == w && offs[i] == o
      {
        if o in h {
          var i :| 0 <= i < |rest| && i % n == w && rest[i] == o;
          assert offs[i] == o;
        }
        if i :| 0 <= i < |offs| && i % n == w && offs[i] == o {
          if i < last {
            assert rest[i] == o;
          }
        }
      }
    }
  }

  lemma DivModSucc(x: nat, n: nat)
    requires n > 0
    ensures x % n + 1 < n ==> (x + 1) / n == x / n && (x + 1) % n == x % n + 1
    ensures x % n + 1 == n ==> (x + 1) / n == x / n + 1 && (x + 1) % n == 0
  {
    if x % n + 1 < n {
      DivModUnique(x + 1, x / n, x % n + 1, n);
    } else {
      DivModUnique(x + 1, x / n + 1, 0, n);
    }
  }

  lemma {:induction false} HandSize(offs: seq<nat>, n: nat, w: nat)
    requires w < n
    ensures |Hand(offs, n, w)| == |offs| / n + if w < |offs| % n then 1 else 0
  {
    if offs == [] {
      DivModUnique(0, 0, 0, n);
    } else {
      var last := |offs| - 1;
      HandSize(offs[..last], n, w);
      DivModSucc(last, n);
    }
  }

  /** The round-robin loop of Fetch (internal/fetcher/fetcher.go:93-96). */
  method Deal(offs: seq<nat>, n: nat) returns (workers: seq<seq<nat>>)
    requires n > 0
    ensures |workers| == n
    ensures forall w :: 0 <= w < n ==> workers[w] == Hand(offs, n, w)
  {
    workers := seq(n, w => []);
    for i := 0 to |offs|
      invariant |workers| == n
      invariant forall w :: 0 <= w < n ==> workers[w] == Hand(offs[..i], n, w)
    {
      var w := i % n;
      workers := workers[w := workers[w] + [offs[i]]];
      assert offs[..i + 1][..i] == offs[..i];
    }
    assert offs[..|offs|] == offs;
  }

  /** A dealt list: worker lists increase, no two share a block, and together they are the whole list. */
  ghost predicate Partition(offs: seq<nat>, workers: seq<seq<nat>>) {
    && (forall w :: 0 <= w < |workers| ==> Increasing(workers[w]))
    && (forall v, w, o :: 0 <= v < w < |workers| && o in workers[v] ==> o !in workers[w])
    && (forall w, o :: 0 <= w < |workers| && o in workers[w] ==> o in offs)
    && (forall o :: o in offs ==> exists w :: 0 <= w < |workers| && o in workers[w])
  }

  /** The probe block and the dealt lists partition the blocks of the range, and no worker gets
      more than one block above any other. */
  lemma DealPartition(offs: seq<nat>, n: nat, workers: seq<seq<nat>>)
    requires n > 0 && Increasing(offs) && |workers| == n
    requires forall w :: 0 <= w < n ==> workers[w] == Hand(offs, n, w)
    ensures Partition(offs, workers)
    ensures forall v, w :: 0 <= v < n && 0 <= w < n ==> |workers[v]| <= |workers[w]| + 1
  {
    forall w | 0 <= w < n
      ensures Increasing(workers[w])
      ensures forall o :: o in workers[w] <==> exists i :: 0 <= i < |offs| && i % n == w && offs[i] == o
      ensures |offs| / n <= |workers[w]| <= |offs| / n + 1
    {
      HandMembers(offs, n, w);
      HandSize(offs, n, w);
    }
    forall o | o in offs
      ensures exists w :: 0 <= w < |workers| && o in workers[w]
    {
      var i :| 0 <= i < |offs| && offs[i] == o;
      assert o in workers[i % n];
    }
    forall v, w, o | 0 <= v < w < n && o in workers[v]
      ensures o !in workers[w]
    {
      var i :| 0 <= i < |offs| && i % n == v && offs[i] == o;
      forall k | 0 <= k < |offs| && k % n == w
        ensures offs[k] != o
      {
        assert i != k;
      }
    }
  }
}
