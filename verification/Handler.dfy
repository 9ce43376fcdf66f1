/** The cache-hit path of a GET: range clamp, all-hit check and flush (internal/server/handler_get.go). */
module Handler {
  import opened Basics
  import opened Blocks
  import opened Stream
  import opened Fallback

  // ---- the requested range ------------------------------------------------------------------

  /** A `first-last` or `first-` byte range (RFC 7233, section 2.1). */
  datatype ByteRange = ByteRange(first: nat, last: Option<nat>)

  /** First and last byte to serve (internal/server/handler_get.go:38-52). */
  function Resolve(header: Option<ByteRange>, size: nat): (int, int) {
    var start: int := if header.Some? then header.value.first else 0;
    var end: int := if header.Some? && header.value.last.Some? then header.value.last.value else size - 1;
    (start, if size > 0 && end >= size then size - 1 else end)
  }

  /** For a satisfiable request the result is a range inside the file, and RFC 7233's: the bytes asked for,
      the last position cut to the last byte there is. */
  lemma ResolvedRange(header: Option<ByteRange>, size: nat, pos: nat)
    requires size > 0
    requires header.Some? ==> header.value.first < size
                              && (header.value.last.Some? ==> header.value.first <= header.value.last.value)
    ensures var (start, end) := Resolve(header, size);
            && 0 <= start <= end < size
            && (start <= pos <= end <==>
                  && pos < size
                  && (header.Some? ==> header.value.first <= pos)
                  && (header.Some? && header.value.last.Some? ==> pos <= header.value.last.value))
  {
  }

  // ---- the all-hit check --------------------------------------------------------------------

  /** What the check has collected when it was answered for the blocks at `asked`: their data as answered, and
      their indices, whose last use is renewed in this order. */
  ghost predicate Gathered(answers: map<nat, Bytes>, asked: seq<nat>, blocks: map<nat, Bytes>, used: seq<nat>, bs: nat)
    requires bs > 0
  {
    && |used| == |asked|
    && (forall i :: 0 <= i < |used| ==> used[i] == BlockIndex(asked[i], bs))
    && (forall o :: o in asked ==>
          o in blocks && BlockIndex(o, bs) in answers && blocks[o] == answers[BlockIndex(o, bs)])
    && (forall o :: o in blocks ==> o in asked)
  }

  lemma GatherOne(answers: map<nat, Bytes>, asked: seq<nat>, blocks: map<nat, Bytes>, used: seq<nat>, off: nat, bs: nat)
    requires bs > 0 && Gathered(answers, asked, blocks, used, bs) && BlockIndex(off, bs) in answers
    ensures var idx := BlockIndex(off, bs);
            Gathered(answers, asked + [off], blocks[off := answers[idx]], used + [idx], bs)
  {
  }

  lemma OffsetsMove(asked: seq<nat>, off: nat, last: nat, bs: nat)
    requires bs > 0 && off <= last
    ensures (asked + [off]) + Offsets(off + bs, last, bs) == asked + Offsets(off, last, bs)
  {
  }

  /** Where the loop stops, all blocks `offs` of the range are hits or the next one is a miss. */
  lemma CheckStopped(answers: map<nat, Bytes>, offs: seq<nat>, asked: seq<nat>, off: nat, last: nat, bs: nat)
    requires bs > 0 && offs == asked + Offsets(off, last, bs)
    requires forall o :: o in asked ==> BlockIndex(o, bs) in answers
    requires off <= last ==> BlockIndex(off, bs) !in answers
    ensures (forall o :: o in offs ==> BlockIndex(o, bs) in answers) <==> |asked| == |offs|
    ensures offs[..|asked|] == asked
    ensures off <= last ==> |asked| < |offs| && offs[|asked|] == off
    ensures off > last ==> |asked| == |offs|
  {
    if off <= last {
      assert offs[|asked|] == off && off in offs;
    } else {
      assert offs == asked;
    }
  }

  /** The check loop (internal/server/handler_get.go:57-73). It asks for the blocks of the range, none behind
      the last byte of the file, in order up to the first that is missing. `answers` holds what the Get for a
      block index finds at the moment it is made; no index is asked for twice, so blocks may come and go between
      two Gets. `used` lists the indices of the hits, in order. */
  method CheckCached(answers: map<nat, Bytes>, start: nat, end: nat, size: nat, bs: nat)
    returns (allHit: bool, blocks: map<nat, Bytes>, used: seq<nat>)
    requires bs > 0
    ensures var offs := RangeBlocks(start, if size > 0 then Min(end, size - 1) else end, bs);
            && (allHit <==> forall o :: o in offs ==> BlockIndex(o, bs) in answers)
            && (allHit <==> |used| == |offs|)
            && |used| <= |offs| && Gathered(answers, offs[..|used|], blocks, used, bs)
            && (!allHit ==> BlockIndex(offs[|used|], bs) !in answers)
  {
    ghost var last: nat := if size > 0 then Min(end, size - 1) else end;
    ghost var offs := RangeBlocks(start, last, bs);
    var blkStart: nat := BlockStart(start, bs);
    var blkEnd: nat := BlockStart(end, bs);
    if size > 0 && blkEnd >= size {
      blkEnd := BlockStart(size - 1, bs);
    }
    blocks, allHit, used := map[], true, [];
    ghost var asked: seq<nat> := [];
    var off: nat := blkStart;
    while off <= blkEnd && allHit
      invariant Aligned(off, bs) && asked + Offsets(off, last, bs) == offs
      invariant Gathered(answers, asked, blocks, used, bs)
      invariant !allHit ==> off <= last && BlockIndex(off, bs) !in answers
      decreases blkEnd - off, allHit
    {
      var idx := BlockIndex(off, bs);
      if idx !in answers {
        allHit := false;
        break;
      }
      GatherOne(answers, asked, blocks, used, off, bs);
      AlignedNext(off, bs);
      OffsetsMove(asked, off, last, bs);
      blocks, used := blocks[off := answers[idx]], used + [idx];
      asked := asked + [off];
      off := off + bs;
    }
    AlignedGap(blkEnd, off, bs);
    CheckStopped(answers, offs, asked, off, last, bs);
  }

  // ---- the flush ----------------------------------------------------------------------------

  /** The part of block `off` that is handed to Write; None when slicing it panics. */
  function Segment(data: Bytes, off: nat, start: nat, end: nat): Option<Bytes>
    requires off <= end
  {
    var segStart := if off < start then start - off else 0;
    if segStart > |data| then None
    else
      var seg := data[segStart..];
      Some(if off + |seg| - 1 > end then seg[..end - off + 1] else seg)
  }

  /** What the flush hands to Write from block `off` on; None when it panics. */
  function Flushed(blocks: map<nat, Bytes>, off: nat, start: nat, end: nat, bs: nat): Option<Bytes>
    requires bs > 0
    decreases end - off
  {
    if off > end then Some([])
    else if off !in blocks then Flushed(blocks, off + bs, start, end, bs)
    else
      match (Segment(blocks[off], off, start, end), Flushed(blocks, off + bs, start, end, bs))
      case (Some(seg), Some(rest)) => Some(seg + rest)
      case _ => None
  }

  /** All there is when `rest` is still to come. */
  function Behind(front: Bytes, rest: Option<Bytes>): Option<Bytes> {
    match rest
    case Some(more) => Some(front + more)
    case None => None
  }

  /** What of it reaches the client while `left` more bytes are declared. The response writer refuses a Write
      that goes beyond the declared length as a whole, and counts it all the same. */
  function Sent(blocks: map<nat, Bytes>, off: nat, start: nat, end: nat, bs: nat, left: int): Option<Bytes>
    requires bs > 0
    decreases end - off
  {
    if off > end then Some([])
    else if off !in blocks then Sent(blocks, off + bs, start, end, bs, left)
    else
      match Segment(blocks[off], off, start, end)
      case Some(seg) => Behind(if |seg| <= left then seg else [], Sent(blocks, off + bs, start, end, bs, left - |seg|))
      case None => None
  }

  lemma BehindNothing(front: Bytes)
    ensures Behind(front, Some([])) == Some(front)
  {
    assert front + [] == front;
  }

  lemma BehindBoth(a: Bytes, b: Bytes, rest: Option<Bytes>)
    ensures Behind(a, Behind(b, rest)) == Behind(a + b, rest)
  {
    if rest.Some? {
      assert a + (b + rest.value) == (a + b) + rest.value;
    }
  }

  /** The part of Go's net/http response writer that counts here: a Write beyond the declared Content-Length is
      refused with ErrContentLength. `body` is what the client gets, `handed` all that Write was called with. */
  class Response {
    const declared: int
    var written: int
    var body: Bytes
    ghost var handed: Bytes

    constructor (declared: int)
      ensures this.declared == declared && written == 0 && body == [] && handed == []
    {
      this.declared := declared;
      written, body, handed := 0, [], [];
    }

    method Write(data: Bytes)
      modifies this
      ensures handed == old(handed) + data && written == old(written) + |data|
      ensures body == old(body) + if |data| <= declared - old(written) then data else []
    {
      handed := handed + data;
      written := written + |data|;
      if written <= declared {
        body := body + data;
      }
    }
  }

  /** What is left of the flush before block `off`, once it has been handed `handed` and `body` has arrived. */
  ghost predicate Flushing(blocks: map<nat, Bytes>, off: nat, start: nat, end: nat, bs: nat, left: int,
                           handed: Bytes, body: Bytes, all: Option<Bytes>, sent: Option<Bytes>)
    requires bs > 0
  {
    && all == Behind(handed, Flushed(blocks, off, start, end, bs))
    && sent == Behind(body, Sent(blocks, off, start, end, bs, left))
  }

  lemma FlushTurn(blocks: map<nat, Bytes>, off: nat, start: nat, end: nat, bs: nat, left: int,
                  handed: Bytes, body: Bytes, all: Option<Bytes>, sent: Option<Bytes>)
    requires bs > 0 && off <= end && off in blocks
    requires Flushing(blocks, off, start, end, bs, left, handed, body, all, sent)
    ensures match Segment(blocks[off], off, start, end)
            case Some(seg) => Flushing(blocks, off + bs, start, end, bs, left - |seg|, handed + seg,
                                       body + (if |seg| <= left then seg else []), all, sent)
            case None => all == None && sent == None
  {
    var seg := Segment(blocks[off], off, start, end);
    if seg.Some? {
      BehindBoth(handed, seg.value, Flushed(blocks, off + bs, start, end, bs));
      BehindBoth(body, if |seg.value| <= left then seg.value else [],
                 Sent(blocks, off + bs, start, end, bs, left - |seg.value|));
    }
  }

  /** The flush loop (internal/server/handler_get.go:124-143). A panic is a slice out of bounds, and it comes
      before anything is written. */
  method FlushCachedBlocks(w: Response, blocks: map<nat, Bytes>, start: nat, end: nat, bs: nat)
    returns (panicked: bool)
    requires bs > 0
    modifies w
    ensures var all := Flushed(blocks, KeyOf(start, bs), start, end, bs);
            var sent := Sent(blocks, KeyOf(start, bs), start, end, bs, w.declared - old(w.written));
            && panicked == all.None? == sent.None?
            && w.handed == old(w.handed) + (if panicked then [] else all.value)
            && w.body == old(w.body) + (if panicked then [] else sent.value)
  {
    var off: nat := BlockStart(start, bs);
    ghost var key, before, body := off, w.handed, w.body;
    ghost var all := Behind(before, Flushed(blocks, off, start, end, bs));
    ghost var sent := Behind(body, Sent(blocks, off, start, end, bs, w.declared - w.written));
    assert Flushing(blocks, off, start, end, bs, w.declared - w.written, before, body, all, sent);
    while off <= end
      invariant (off == key && w.handed == before && w.body == body) || off > start
      invariant Flushing(blocks, off, start, end, bs, w.declared - w.written, w.handed, w.body, all, sent)
      decreases end - off
    {
      if off in blocks {
        FlushTurn(blocks, off, start, end, bs, w.declared - w.written, w.handed, w.body, all, sent);
        var data := blocks[off];
        var segStart := 0;
        if off < start {
          segStart := start - off;
        }
        if segStart > |data| {
          return true;
        }
        var seg := data[segStart..];
        if off + |seg| - 1 > end {
          seg := seg[..end - off + 1];
        }
        w.Write(seg);
      }
      off := off + bs;
    }
    BehindNothing(w.handed);
    BehindNothing(w.body);
    panicked := false;
  }

  /** The cache holds prefixes of the file's blocks, one for every block of the range. */
  ghost predicate Cached(file: Bytes, blocks: map<nat, Bytes>, start: nat, end: nat, bs: nat)
    requires bs > 0
  {
    && (forall o :: o in RangeBlocks(start, end, bs) ==> o in blocks)
    && (forall o :: o in blocks ==> PrefixAt(file, o, blocks[o]) && |blocks[o]| <= bs)
  }

  predicate Reaches(blocks: map<nat, Bytes>, off: nat, end: nat, bs: nat) {
    off in blocks && off + |blocks[off]| >= Min(off + bs, end + 1)
  }

  ghost predicate AllReach(blocks: map<nat, Bytes>, offs: seq<nat>, end: nat, bs: nat) {
    forall o :: o in offs ==> Reaches(blocks, o, end, bs)
  }

  lemma AllReachCons(blocks: map<nat, Bytes>, off: nat, tail: seq<nat>, end: nat, bs: nat)
    ensures AllReach(blocks, [off] + tail, end, bs)
            <==> Reaches(blocks, off, end, bs) && AllReach(blocks, tail, end, bs)
  {
    assert off in [off] + tail;
    assert forall o :: o in tail ==> o in [off] + tail;
  }

  /** What a caller can check before flushing: every block reaches its end or the range's, and a range
      inside one block that does not start on the block's first byte ends exactly where the data ends. */
  ghost predicate Servable(blocks: map<nat, Bytes>, start: nat, end: nat, bs: nat)
    requires bs > 0
  {
    var off: nat := KeyOf(start, bs);
    if off == start || off != KeyOf(end, bs) then AllReach(blocks, RangeBlocks(start, end, bs), end, bs)
    else off in blocks && off + |blocks[off]| == end + 1
  }

  lemma SegmentWhole(file: Bytes, data: Bytes, off: nat, start: nat, end: nat, bs: nat)
    requires start <= off <= end < |file| && PrefixAt(file, off, data) && |data| <= bs
    ensures Segment(data, off, start, end) == Some(file[off..off + Min(|data|, end + 1 - off)])
  {
    PrefixSlice(file, off, data);
    assert data[0..] == data;
    assert forall k: nat :: k <= |data| ==> data[..k] == file[off..off + k];
  }

  lemma TwoPieces(file: Bytes, off: nat, cut: nat, last: nat, seg: Bytes, rest: Bytes)
    requires off <= cut <= last <= |file| && |seg| <= cut - off && |rest| <= last - cut
    requires seg == file[off..off + |seg|]
    ensures |seg + rest| == last - off <==> |seg| == cut - off && |rest| == last - cut
    ensures |seg| == cut - off && rest == file[cut..last] ==> seg + rest == file[off..last]
  {
  }

  /** One block and what is flushed behind it. */
  lemma FlushStep(file: Bytes, blocks: map<nat, Bytes>, off: nat, start: nat, end: nat, bs: nat, rest: Bytes)
    requires bs > 0 && start <= off <= end < |file|
    requires off in blocks && PrefixAt(file, off, blocks[off]) && |blocks[off]| <= bs
    requires Flushed(blocks, off + bs, start, end, bs) == Some(rest) && |rest| <= Max(0, end + 1 - (off + bs))
    ensures var out := Flushed(blocks, off, start, end, bs);
            && out.Some?
            && |out.value| <= end + 1 - off
            && (|out.value| == end + 1 - off
                <==> Reaches(blocks, off, end, bs) && |rest| == Max(0, end + 1 - (off + bs)))
            && (Reaches(blocks, off, end, bs) && rest == file[Min(off + bs, end + 1)..end + 1] ==>
                  out.value == file[off..end + 1])
  {
    SegmentWhole(file, blocks[off], off, start, end, bs);
    var seg := Segment(blocks[off], off, start, end).value;
    assert Flushed(blocks, off, start, end, bs) == Some(seg + rest);
    TwoPieces(file, off, Min(off + bs, end + 1), end + 1, seg, rest);
  }

  /** From an aligned block at or behind `start` on, the flush never panics, never writes too much, and
      writes the rest of the range exactly when every block reaches. */
  lemma {:induction false} FlushTail(file: Bytes, blocks: map<nat, Bytes>, off: nat, start: nat, end: nat, bs: nat)
    requires bs > 0 && start <= off && end < |file|
    requires forall o :: o in Offsets(off, end, bs) ==> o in blocks
    requires forall o :: o in blocks ==> PrefixAt(file, o, blocks[o]) && |blocks[o]| <= bs
    ensures var rest := Flushed(blocks, off, start, end, bs);
            && rest.Some?
            && |rest.value| <= Max(0, end + 1 - off)
            && (AllReach(blocks, Offsets(off, end, bs), end, bs) <==> |rest.value| == Max(0, end + 1 - off))
            && (AllReach(blocks, Offsets(off, end, bs), end, bs) ==> rest.value == file[Min(off, end + 1)..end + 1])
    decreases end - off
  {
    if off > end {
    } else {
      var tail := Offsets(off + bs, end, bs);
      assert off in Offsets(off, end, bs);
      AllReachCons(blocks, off, tail, end, bs);
      FlushTail(file, blocks, off + bs, start, end, bs);
      FlushStep(file, blocks, off, start, end, bs, Flushed(blocks, off + bs, start, end, bs).value);
    }
  }

  /** The cache-hit path hands exactly the requested bytes to Write if and only if the blocks are `Servable`. It fails
      because the cache stores clamped blocks and the cut of the last segment forgets that the segment was
      already shifted. */
  lemma FlushExactlyWhen(file: Bytes, blocks: map<nat, Bytes>, start: nat, end: nat, bs: nat)
    requires bs > 0 && start <= end < |file| && Cached(file, blocks, start, end, bs)
    ensures Flushed(blocks, KeyOf(start, bs), start, end, bs) == Some(Range(file, start, end))
            <==> Servable(blocks, start, end, bs)
  {
    var off: nat := KeyOf(start, bs);
    if off == start {
      FlushTail(file, blocks, start, start, end, bs);
    } else if off == KeyOf(end, bs) {
      FlushInside(file, blocks, start, end, bs);
    } else {
      FlushHead(file, blocks, start, end, bs);
    }
  }

  /** A block that is shifted is cut too late: the cut does not know of the shift. */
  lemma SegmentShifted(file: Bytes, data: Bytes, off: nat, start: nat, end: nat)
    requires off < start <= end && off + |data| <= |file| && data == file[off..off + |data|]
    ensures Segment(data, off, start, end)
            == if off + |data| < start then None
               else Some(file[start..Min(off + |data|, end + 1 + (start - off))])
  {
    if start <= off + |data| {
      var seg := data[start - off..];
      assert seg == file[start..off + |data|];
      if off + |seg| - 1 > end {
        assert seg[..end - off + 1] == file[start..start + (end - off + 1)];
      }
    }
  }

  /** A range inside one block, behind its first byte: what the flush hands to Write. The cut compares the
      wrong end, so that can be up to `start - off` bytes too many. */
  lemma FlushInside(file: Bytes, blocks: map<nat, Bytes>, start: nat, end: nat, bs: nat)
    requires bs > 0 && start <= end < |file| && Cached(file, blocks, start, end, bs)
    requires KeyOf(start, bs) < start && KeyOf(start, bs) == KeyOf(end, bs)
    ensures var off: nat := KeyOf(start, bs);
            var reach := off + |blocks[off]|;
            Flushed(blocks, off, start, end, bs) ==
            if reach < start then None else Some(Range(file, start, Min(reach, end + 1 + (start - off)) - 1))
  {
    var off: nat := KeyOf(start, bs);
    assert off in RangeBlocks(start, end, bs);
    var data := blocks[off];
    assert Flushed(blocks, off + bs, start, end, bs) == Some([]);
    PrefixSlice(file, off, data);
    SegmentShifted(file, data, off, start, end);
    BehindNothing(if off + |data| < start then [] else Segment(data, off, start, end).value);
  }

  /** The first block of a range that goes on behind it is written from `start` on, never cut. */
  lemma FlushFirst(file: Bytes, data: Bytes, off: nat, start: nat, end: nat, bs: nat)
    requires off < start < off + bs <= end < |file| && PrefixAt(file, off, data) && |data| <= bs
    ensures Segment(data, off, start, end) == if off + |data| < start then None else Some(file[start..off + |data|])
  {
    PrefixSlice(file, off, data);
    if start <= off + |data| {
      assert data[start - off..] == file[start..off + |data|];
    }
  }

  /** A range that starts inside one block and ends in a later one: the rest of the first block and what is
      flushed behind it, which reach together exactly when all blocks do. */
  lemma FlushHeadPieces(file: Bytes, blocks: map<nat, Bytes>, start: nat, end: nat, bs: nat)
    requires bs > 0 && start <= end < |file| && Cached(file, blocks, start, end, bs)
    requires KeyOf(start, bs) < start && KeyOf(start, bs) != KeyOf(end, bs)
    ensures var off: nat := KeyOf(start, bs);
            var rest := Flushed(blocks, off + bs, start, end, bs);
            && off in blocks && start <= off + bs <= end && |blocks[off]| <= bs && off + |blocks[off]| <= |file|
            && rest.Some? && |rest.value| <= end + 1 - (off + bs)
            && Flushed(blocks, off, start, end, bs)
               == (if off + |blocks[off]| < start then None else Some(file[start..off + |blocks[off]|] + rest.value))
            && (AllReach(blocks, RangeBlocks(start, end, bs), end, bs)
                <==> |blocks[off]| == bs && |rest.value| == end + 1 - (off + bs))
            && (|rest.value| == end + 1 - (off + bs) ==> rest.value == file[off + bs..end + 1])
  {
    var off: nat := KeyOf(start, bs);
    var tail := Offsets(off + bs, end, bs);
    AllReachCons(blocks, off, tail, end, bs);
    assert off in RangeBlocks(start, end, bs);
    AlignedGap(KeyOf(end, bs), off, bs);
    AlignedGap(off, KeyOf(end, bs), bs);
    FlushTail(file, blocks, off + bs, start, end, bs);
    FlushFirst(file, blocks[off], off, start, end, bs);
  }

  lemma FlushHead(file: Bytes, blocks: map<nat, Bytes>, start: nat, end: nat, bs: nat)
    requires bs > 0 && start <= end < |file| && Cached(file, blocks, start, end, bs)
    requires KeyOf(start, bs) < start && KeyOf(start, bs) != KeyOf(end, bs)
    ensures Flushed(blocks, KeyOf(start, bs), start, end, bs) == Some(Range(file, start, end))
            <==> AllReach(blocks, RangeBlocks(start, end, bs), end, bs)
  {
    var off: nat := KeyOf(start, bs);
    FlushHeadPieces(file, blocks, start, end, bs);
    var reach, rest := off + |blocks[off]|, Flushed(blocks, off + bs, start, end, bs).value;
    if start <= reach {
      TwoPieces(file, start, off + bs, end + 1, file[start..reach], rest);
    }
  }

  // ---- what reaches the client --------------------------------------------------------------

  /** A flush that hands over no more than is declared arrives as it is. */
  lemma {:induction false} SentWhole(blocks: map<nat, Bytes>, off: nat, start: nat, end: nat, bs: nat, left: int)
    requires bs > 0
    ensures var all := Flushed(blocks, off, start, end, bs);
            var sent := Sent(blocks, off, start, end, bs, left);
            && (sent.None? <==> all.None?)
            && (all.Some? && |all.value| <= left ==> sent == all)
    decreases end - off
  {
    if off > end {
    } else if off !in blocks {
      SentWhole(blocks, off + bs, start, end, bs, left);
    } else {
      match Segment(blocks[off], off, start, end)
      case Some(seg) => SentWhole(blocks, off + bs, start, end, bs, left - |seg|);
      case None =>
    }
  }

  /** What reaches the client of a range inside one block, behind its first byte: nothing at all as soon as the
      block's data goes on behind the range. */
  lemma SentInside(file: Bytes, blocks: map<nat, Bytes>, start: nat, end: nat, bs: nat)
    requires bs > 0 && start <= end < |file| && Cached(file, blocks, start, end, bs)
    requires KeyOf(start, bs) < start && KeyOf(start, bs) == KeyOf(end, bs)
    ensures var off: nat := KeyOf(start, bs);
            var reach := off + |blocks[off]|;
            Sent(blocks, off, start, end, bs, end + 1 - start) ==
            if reach < start then None else if reach > end + 1 then Some([]) else Some(Range(file, start, reach - 1))
  {
    var off: nat := KeyOf(start, bs);
    assert off in RangeBlocks(start, end, bs);
    FlushInside(file, blocks, start, end, bs);
    SentWhole(blocks, off, start, end, bs, end + 1 - start);
    PrefixSlice(file, off, blocks[off]);
    var seg := Segment(blocks[off], off, start, end);
    if seg.Some? {
      assert Flushed(blocks, off + bs, start, end, bs) == Some([]) && seg.value + [] == seg.value;
      assert Sent(blocks, off + bs, start, end, bs, end + 1 - start - |seg.value|) == Some([]);
      BehindNothing(if |seg.value| <= end + 1 - start then seg.value else []);
    }
  }

  /** Whether the client gets at least as many bytes as Content-Length declares. */
  ghost predicate LongEnough(out: Option<Bytes>, start: nat, end: nat) {
    out.Some? && |out.value| >= end + 1 - start
  }

  /** No block but a single one is handed over too long, so the rest of a range is sent as it is flushed. */
  lemma SentOverBlocks(file: Bytes, blocks: map<nat, Bytes>, start: nat, end: nat, bs: nat)
    requires bs > 0 && start <= end < |file| && Cached(file, blocks, start, end, bs)
    requires KeyOf(start, bs) == start || KeyOf(start, bs) != KeyOf(end, bs)
    ensures var all := Flushed(blocks, KeyOf(start, bs), start, end, bs);
            && Sent(blocks, KeyOf(start, bs), start, end, bs, end + 1 - start) == all
            && (all.Some? ==> |all.value| <= end + 1 - start)
            && (LongEnough(all, start, end) <==> AllReach(blocks, RangeBlocks(start, end, bs), end, bs))
  {
    SentWhole(blocks, KeyOf(start, bs), start, end, bs, end + 1 - start);
    if KeyOf(start, bs) == start {
      FlushTail(file, blocks, start, start, end, bs);
    } else {
      FlushHeadPieces(file, blocks, start, end, bs);
    }
  }

  /** The client of a cache hit gets at least the bytes that Content-Length declares if and only if the blocks
      are servable, that is, if and only if it gets exactly the requested bytes; and never more than declared.
      The documentation promises it for every hit. */
  lemma NeverShortExactlyWhen(file: Bytes, blocks: map<nat, Bytes>, start: nat, end: nat, bs: nat)
    requires bs > 0 && start <= end < |file| && Cached(file, blocks, start, end, bs)
    ensures var sent := Sent(blocks, KeyOf(start, bs), start, end, bs, end + 1 - start);
            && (LongEnough(sent, start, end) <==> Servable(blocks, start, end, bs))
            && (sent == Some(Range(file, start, end)) <==> Servable(blocks, start, end, bs))
            && (sent.Some? ==> |sent.value| <= end + 1 - start)
  {
    FlushExactlyWhen(file, blocks, start, end, bs);
    if KeyOf(start, bs) == start || KeyOf(start, bs) != KeyOf(end, bs) {
      SentOverBlocks(file, blocks, start, end, bs);
    } else {
      assert KeyOf(start, bs) in RangeBlocks(start, end, bs);
      SentInside(file, blocks, start, end, bs);
    }
  }

  /** The family the guard shuts out although every block reaches: whenever a range lies inside one block, behind
      its first byte, and the block's data goes on behind the range, more bytes than requested are handed to
      Write, which refuses them all: the response is empty. */
  lemma FlushOverruns(file: Bytes, blocks: map<nat, Bytes>, start: nat, end: nat, bs: nat)
    requires bs > 0 && start <= end < |file| && Cached(file, blocks, start, end, bs)
    requires KeyOf(start, bs) < start && KeyOf(start, bs) == KeyOf(end, bs)
    requires KeyOf(start, bs) + |blocks[KeyOf(start, bs)]| > end + 1
    ensures var out := Flushed(blocks, KeyOf(start, bs), start, end, bs);
            out.Some? && Range(file, start, end) < out.value
    ensures Sent(blocks, KeyOf(start, bs), start, end, bs, end + 1 - start) == Some([])
  {
    FlushInside(file, blocks, start, end, bs);
    SentInside(file, blocks, start, end, bs);
  }

  /** Bytes 1 and 2 of an eight-byte file, from a full block of four: three bytes are handed to Write, and none
      of the two declared ones arrive. */
  lemma OverrunExample()
    ensures var file: Bytes := [0, 1, 2, 3, 4, 5, 6, 7];
            && Flushed(map[0 := file[0..4]], KeyOf(1, 4), 1, 2, 4) == Some([1, 2, 3]) && Range(file, 1, 2) == [1, 2]
            && Sent(map[0 := file[0..4]], KeyOf(1, 4), 1, 2, 4, 2) == Some([])
  {
    var file: Bytes := [0, 1, 2, 3, 4, 5, 6, 7];
    var data := file[0..4];
    assert data[1..] == [1, 2, 3] == [1, 2, 3] + [];
    assert Segment(data, 0, 1, 2) == Some([1, 2, 3]);
    assert Flushed(map[0 := data], 4, 1, 2, 4) == Some([]);
    KeyUnique(1, 0, 4);
    KeyUnique(2, 0, 4);
    assert RangeBlocks(1, 2, 4) == [0] + Offsets(4, 2, 4) == [0];
    FlushOverruns(file, map[0 := data], 1, 2, 4);
  }

  /** Three implementations, one meaning: a settled run of the range fetch with full blocks, a settled run
      of the whole-file fallback and a flush of servable cached blocks all give the client the requested bytes. */
  lemma ThreePathsAgree(j: Job, blocks: map<nat, Bytes>, first: Bytes, n: nat, fetch: seq<Event>, whole: seq<Event>)
    requires j.Valid() && j.end < |j.file|
    requires Cached(j.file, blocks, j.start, j.end, j.bs) && Servable(blocks, j.start, j.end, j.bs)
    requires n > 0 && Delivers(j, j.FirstKey(), first)
    requires CanRun(j, Started(j, first, n), fetch) && AllClean(fetch)
    requires Settled(Run(j, Started(j, first, n), fetch)) && Full(j, Run(j, Started(j, first, n), fetch).supplied)
    requires CanRun(j, Whole(j), whole) && AllClean(whole)
    requires Settled(Run(j, Whole(j), whole)) && FromBody(j, Run(j, Whole(j), whole).supplied)
    ensures Some(Run(j, Started(j, first, n), fetch).emitted)
            == Flushed(blocks, KeyOf(j.start, j.bs), j.start, j.end, j.bs)
            == Sent(blocks, KeyOf(j.start, j.bs), j.start, j.end, j.bs, j.end + 1 - j.start)
    ensures Run(j, Whole(j), whole).emitted == Run(j, Started(j, first, n), fetch).emitted
    ensures |Run(j, Whole(j), whole).emitted| == j.end - j.start + 1
  {
    FetchIsComplete(j, first, n, fetch, 1);
    WholeFileRefinesRange(j, whole);
    FlushExactlyWhen(j.file, blocks, j.start, j.end, j.bs);
    NeverShortExactlyWhen(j.file, blocks, j.start, j.end, j.bs);
  }
}
