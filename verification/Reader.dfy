/** The reader that turns blocks arriving in any order into one byte stream
    (internal/fetcher/seekable.go). */
module Reader {
  import opened Basics
  import opened Blocks

  datatype Error = UnexpectedEOF | Upstream(code: int) | Transport | RangeNotSupported | Cancelled

  /** The reader's fields, as a value. */
  datatype View = View(nextOff: nat, endOff: nat, blkSize: nat, blocks: map<nat, Bytes>,
                       closed: bool, err: Option<Error>)

  /** What one pass of Read's loop does while it holds the lock. `Blocked` is a wait on the condition
      variable; `Panicked` is a slice bound out of range. */
  datatype Outcome = Delivered(bytes: Bytes) | EndOfStream | Failed(error: Error) | Blocked | Panicked

  function Fresh(start: nat, end: nat, bs: nat): View {
    View(start, end, bs, map[], false, None)
  }

  function PutBlock(r: View, off: nat, data: Bytes): View {
    r.(blocks := r.blocks[off := data])
  }

  function FailWith(r: View, e: Error): View {
    r.(err := Some(e), closed := true)
  }

  function Closed(r: View): View {
    r.(closed := true)
  }

  function Recorded(r: View): Error {
    match r.err
    case Some(e) => e
    case None => UnexpectedEOF
  }

  /** One pass of Read with room for `room` bytes: the new fields and the outcome. */
  function Pass(r: View, room: nat): (View, Outcome)
    requires r.blkSize > 0
  {
    if r.nextOff > r.endOff then (r, EndOfStream)
    else
      var key := KeyOf(r.nextOff, r.blkSize);
      if key !in r.blocks then
        (r, if r.closed then Failed(Recorded(r)) else Blocked)
      else
        var data := r.blocks[key];
        var inBlock := r.nextOff - key;
        if inBlock > |data| then (r, Panicked)
        else
          var avail := data[inBlock..Min(|data|, r.endOff + 1 - key)];
          var n := Min(room, |avail|);
          (r.(nextOff := r.nextOff + n,
              blocks := if inBlock + n >= |data| then r.blocks - {key} else r.blocks),
           Delivered(avail[..n]))
  }

  /** A waiting Read whose timer ran out. */
  function TimedOut(r: View): View {
    r.(err := Some(Recorded(r)))
  }

  class OrderedReader {
    var nextOff: nat
    const endOff: nat
    var blocks: map<nat, Bytes>
    const blkSize: nat
    var closed: bool
    var err: Option<Error>

    ghost predicate Valid()
      reads this
    {
      blkSize > 0
    }

    ghost function Fields(): View
      reads this
    {
      View(nextOff, endOff, blkSize, blocks, closed, err)
    }

    constructor (start: nat, end: nat, blockSize: nat)
      requires blockSize > 0
      ensures Valid() && Fields() == Fresh(start, end, blockSize)
    {
      nextOff, endOff, blkSize := start, end, blockSize;
      blocks, closed, err := map[], false, None;
    }

    method Put(off: nat, data: Bytes)
      requires Valid()
      modifies this
      ensures Valid() && Fields() == PutBlock(old(Fields()), off, data)
    {
      blocks := blocks[off := data];
    }

    method Fail(e: Error)
      requires Valid()
      modifies this
      ensures Valid() && Fields() == FailWith(old(Fields()), e)
    {
      err := Some(e);
      closed := true;
    }

    method Close()
      requires Valid()
      modifies this
      ensures Valid() && Fields() == Closed(old(Fields()))
    {
      closed := true;
    }

    /** One pass of the loop in Read, from taking the lock to returning or waiting. On
        `Delivered` the bytes stand at the front of `p`, whose rest is untouched. */
    method Read(p: array<byte>) returns (out: Outcome)
      requires Valid()
      modifies this, p
      ensures Valid() && (Fields(), out) == Pass(old(Fields()), p.Length)
      ensures p[..] == if out.Delivered? then out.bytes + old(p[..])[|out.bytes|..] else old(p[..])
    {
      if nextOff > endOff {
        return EndOfStream;
      }
      var key := KeyOf(nextOff, blkSize);
      if key !in blocks {
        if closed {
          match err {
            case Some(e) => return Failed(e);
            case None => return Failed(UnexpectedEOF);
          }
        }
        return Blocked;
      }
      var data := blocks[key];
      var inBlockOff := nextOff - key;
      if inBlockOff > |data| {
        return Panicked;
      }
      var avail := data[inBlockOff..];
      if nextOff + |avail| - 1 > endOff {
        avail := avail[..endOff - nextOff + 1];
      }
      assert avail == data[inBlockOff..Min(|data|, endOff + 1 - key)];
      var n := CopyInto(p, avail);
      nextOff := nextOff + n;
      if inBlockOff + n >= |data| {
        blocks := blocks - {key};
      }
      out := Delivered(avail[..n]);
    }

    /** A wait that ends because the timer fired. */
    method WaitExpired() returns (out: Outcome)
      requires Valid()
      modifies this
      ensures Valid() && Fields() == TimedOut(old(Fields())) && out == Failed(Recorded(old(Fields())))
    {
      if err.None? {
        err := Some(UnexpectedEOF);
      }
      out := Failed(err.value);
    }
  }

  /** Go's copy: as many bytes as fit. */
  method CopyInto(p: array<byte>, src: Bytes) returns (n: nat)
    modifies p
    ensures n == Min(p.Length, |src|)
    ensures p[..] == src[..n] + old(p[..])[n..]
  {
    n := Min(p.Length, |src|);
    for i := 0 to n
      invariant p[..i] == src[..i]
      invariant p[i..] == old(p[..])[i..]
    {
      assert old(p[..])[i..][1..] == old(p[..])[i + 1..] && p[i..][1..] == p[i + 1..];
      p[i] := src[i];
      assert src[..i + 1] == src[..i] + [src[i]] && p[..i + 1] == p[..i] + [p[i]];
    }
    assert p[..] == p[..n] + p[n..];
  }

  /** Read's slice bound is out of range exactly when the block at hand is too short to reach the
      read position. */
  lemma PanicsExactlyWhenShort(r: View, room: nat)
    requires r.blkSize > 0
    ensures Pass(r, room).1.Panicked? <==>
            && r.nextOff <= r.endOff
            && var key := KeyOf(r.nextOff, r.blkSize);
               key in r.blocks && key + |r.blocks[key]| < r.nextOff
  {
  }

  /** When a pass of Read ends the stream, waits, fails and delivers. */
  lemma OutcomeExactlyWhen(r: View, room: nat)
    requires r.blkSize > 0
    ensures var out := Pass(r, room).1;
            var buffered := r.nextOff - r.nextOff % r.blkSize in r.blocks;
            && (out.EndOfStream? <==> r.nextOff > r.endOff)
            && (out.Blocked? <==> r.nextOff <= r.endOff && !buffered && !r.closed)
            && (out.Failed? <==> r.nextOff <= r.endOff && !buffered && r.closed)
            && (out.Failed? ==> if r.err.Some? then out.error == r.err.value else out.error == UnexpectedEOF)
            && (out.Delivered? || out.Panicked? <==> r.nextOff <= r.endOff && buffered)
  {
  }

  /** A Read that returns takes all that fits into the buffer and is there, and drops the block, and no other, once
      its last byte is read. */
  lemma TakesAllThereIs(r: View, room: nat)
    requires r.blkSize > 0 && Pass(r, room).1.Delivered?
    ensures var (r', out) := Pass(r, room);
            var key := r.nextOff - r.nextOff % r.blkSize;
            && key in r.blocks
            && |out.bytes| == Min(room, Min(r.endOff + 1, key + |r.blocks[key]|) - r.nextOff)
            && r' == r.(nextOff := r.nextOff + |out.bytes|, blocks := r'.blocks)
            && r'.blocks == (if r'.nextOff < key + |r.blocks[key]| then r.blocks else r.blocks - {key})
  {
    var key: nat := KeyOf(r.nextOff, r.blkSize);
    var data, inBlock := r.blocks[key], r.nextOff - key;
    assert inBlock <= |data|;
    var avail := data[inBlock..Min(|data|, r.endOff + 1 - key)];
    assert |avail| == Min(|data|, r.endOff + 1 - key) - inBlock;
  }

  /** A Read that returns has taken bytes of the block at hand, from the read position on, none behind the
      block's data or the range. */
  lemma DeliveredBytes(r: View, room: nat)
    requires r.blkSize > 0 && Pass(r, room).1.Delivered?
    ensures var (r', out) := Pass(r, room);
            var key := KeyOf(r.nextOff, r.blkSize);
            && r.nextOff <= r.endOff && key in r.blocks && r.nextOff <= key + |r.blocks[key]|
            && r'.nextOff == r.nextOff + |out.bytes| <= Min(r.endOff + 1, key + |r.blocks[key]|)
            && forall i :: 0 <= i < |out.bytes| ==> out.bytes[i] == r.blocks[key][r.nextOff - key + i]
  {
  }
}
