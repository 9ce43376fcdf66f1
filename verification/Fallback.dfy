/** The single-connection fallback for an upstream that ignores Range
    (internal/fetcher/fetcher.go:203-244). */
module Fallback {
  import opened Basics
  import opened Blocks
  import opened Reader
  import opened Stream

  /** Block `off` of a body that arrived whole. */
  function Slice(body: Bytes, off: nat, bs: nat): Bytes {
    body[Min(off, |body|)..Min(off + bs, |body|)]
  }

  /** The first `upto` bytes of a body, cut into blocks. */
  function Slices(body: Bytes, bs: nat, upto: nat): map<nat, Bytes>
    requires bs > 0
  {
    map off | off in Offsets(0, upto - 1, bs) :: Slice(body, off, bs)
  }

  /** What a plain GET brings: no answer, a status, or a body that ends properly (also when it is merely
      shorter than announced) or breaks with a transport error. */
  datatype Reply = Unreachable | Status(code: int) | Body(bytes: Bytes, broken: bool)

  /** The first `count` blocks of a body, each with its block index. */
  function Chunks(body: Bytes, bs: nat, count: nat): seq<(nat, Bytes)> {
    seq(count, i requires 0 <= i => (i, Slice(body, i * bs, bs)))
  }

  /** The data of the chunks, one behind the other. */
  ghost function Joined(chunks: seq<(nat, Bytes)>): Bytes {
    if chunks == [] then [] else Joined(chunks[..|chunks| - 1]) + chunks[|chunks| - 1].1
  }

  ghost predicate ChunkOk(body: Bytes, bs: nat, taken: int, blocks: map<nat, Bytes>, chunk: (nat, Bytes), i: nat) {
    var off := i * bs;
    && off < taken <= |body| && chunk == (i, body[off..Min(off + bs, |body|)])
    && off in blocks && blocks[off] == chunk.1
  }

  /** The first `taken` bytes of a body, in blocks: chunk `i` has index `i` and the bytes from `i * bs` on up to the
      next block or the body's end, the reader has the same at each block's start, and nothing is lost. */
  ghost predicate CutUp(body: Bytes, bs: nat, taken: int, blocks: map<nat, Bytes>, chunks: seq<(nat, Bytes)>)
    requires bs > 0
  {
    && 0 <= taken <= |body| && Joined(chunks) == body[..taken]
    && (forall i :: 0 <= i < |chunks| ==> ChunkOk(body, bs, taken, blocks, chunks[i], i))
    && (forall k: nat :: k in blocks <==> k < taken && k % bs == 0)
  }

  /** The turn of the loop that finds the body's end. */
  function LastTurn(body: Bytes, bs: nat): nat
    requires bs > 0
  {
    |body| / bs
  }

  /** Whether the context is found cancelled before the body's end is. */
  predicate Cut(body: Bytes, bs: nat, cancelledAt: Option<nat>)
    requires bs > 0
  {
    cancelledAt.Some? && cancelledAt.value <= LastTurn(body, bs)
  }

  /** How much of the body is cut into blocks. */
  function Taken(body: Bytes, bs: nat, cancelledAt: Option<nat>): nat
    requires bs > 0
  {
    if Cut(body, bs, cancelledAt) then cancelledAt.value * bs else |body|
  }

  function EndError(body: Bytes, bs: nat, broken: bool, cancelledAt: Option<nat>): Option<Error>
    requires bs > 0
  {
    if Cut(body, bs, cancelledAt) then Some(Cancelled) else if broken then Some(Transport) else None
  }

  /** The goroutine of fetchWholeFile, from the request to closing the reader. `cancelledAt` is the turn of
      the loop, if any, that finds the context cancelled; `cached` lists what went to the cache, in order. */
  method FetchWholeFile(start: nat, end: nat, bs: nat, reply: Reply, cancelledAt: Option<nat>)
    returns (reader: OrderedReader, cached: seq<(nat, Bytes)>)
    requires bs > 0
    ensures fresh(reader) && reader.Valid() && reader.closed
    ensures !reply.Body? ==> reader.err.Some? && reader.blocks == map[] && cached == []
    ensures reply.Body? ==>
              var taken := Taken(reply.bytes, bs, cancelledAt);
              && taken <= |reply.bytes|
              && reader.Fields() == Closed(Fresh(start, end, bs).(
                                      blocks := Slices(reply.bytes, bs, taken),
                                      err := EndError(reply.bytes, bs, reply.broken, cancelledAt)))
              && cached == Chunks(reply.bytes, bs, (taken + bs - 1) / bs)
    ensures reply.Body? ==>
              var body := reply.bytes;
              var cut := cancelledAt.Some? && cancelledAt.value * bs <= |body|;
              && CutUp(body, bs, if cut then cancelledAt.value * bs else |body|, reader.blocks, cached)
              && reader.err == (if cut then Some(Cancelled) else if reply.broken then Some(Transport) else None)
              && reader.nextOff == start && reader.endOff == end && reader.blkSize == bs
  {
    reader := new OrderedReader(start, end, bs);
    cached := [];
    match reply {
      case Unreachable => reader.Fail(Transport);
      case Status(code) => reader.Fail(Upstream(code));
      case Body(bytes, broken) =>
        cached := CutBody(reader, bytes, broken, cancelledAt);
        CutUpWhere(bytes, bs, cancelledAt);
    }
  }

  method CutBody(reader: OrderedReader, body: Bytes, broken: bool, cancelledAt: Option<nat>)
    returns (cached: seq<(nat, Bytes)>)
    requires reader.Valid() && reader.blocks == map[] && !reader.closed && reader.err.None?
    modifies reader
    ensures reader.Valid()
    ensures var taken := Taken(body, reader.blkSize, cancelledAt);
            && taken <= |body|
            && reader.Fields() == Closed(old(reader.Fields()).(
                                    blocks := Slices(body, reader.blkSize, taken),
                                    err := EndError(body, reader.blkSize, broken, cancelledAt)))
            && cached == Chunks(body, reader.blkSize, (taken + reader.blkSize - 1) / reader.blkSize)
  {
    var bs := reader.blkSize;
    var off: nat, turn: nat := 0, 0;
    cached := [];
    while true
      invariant off == turn * bs <= |body|
      invariant cancelledAt.Some? ==> turn <= cancelledAt.value
      invariant cached == Chunks(body, bs, turn)
      invariant reader.Fields() == old(reader.Fields()).(blocks := Slices(body, bs, off))
      decreases |body| - off
    {
      TurnFacts(body, bs, turn);
      if cancelledAt == Some(turn) {
        reader.Fail(Cancelled);
        return;
      }
      var n := Min(bs, |body| - off);
      if n > 0 {
        var chunk := body[off..off + n];
        assert chunk == Slice(body, off, bs);
        cached := cached + [(off / bs, chunk)];
        SlicesGrow(body, bs, off);
        reader.Put(off, chunk);
        off := off + n;
      }
      if n < bs {
        if broken {
          reader.Fail(Transport);
          return;
        }
        break;
      }
      turn := turn + 1;
    }
    reader.Close();
  }

  /** At the head of turn `turn` that many whole blocks are done; it is the last turn when less than a block
      is left. */
  lemma TurnFacts(body: Bytes, bs: nat, turn: nat)
    requires bs > 0 && turn * bs <= |body|
    ensures Aligned(turn * bs, bs) && turn * bs / bs == turn <= LastTurn(body, bs)
    ensures (turn * bs + bs - 1) / bs == turn && (turn + 1) * bs == turn * bs + bs
    ensures var left := |body| - turn * bs;
            left < bs ==> LastTurn(body, bs) == turn && (|body| + bs - 1) / bs == if left > 0 then turn + 1 else turn
  {
    var left := |body| - turn * bs;
    DivModUnique(turn * bs, turn, 0, bs);
    DivModUnique(turn * bs + bs - 1, turn, bs - 1, bs);
    if left < bs {
      DivModUnique(|body|, turn, left, bs);
      if left > 0 {
        DivModUnique(|body| + bs - 1, turn + 1, left - 1, bs);
      }
    } else {
      QuotientMonotone(turn * bs, |body|, bs);
    }
  }

  lemma SlicesKeys(body: Bytes, bs: nat, upto: nat)
    requires bs > 0 && upto <= |body|
    ensures forall k: nat :: k in Slices(body, bs, upto) <==> k < upto && Aligned(k, bs)
  {
    OffsetsMembers(0, upto - 1, bs);
  }

  lemma SlicesGrow(body: Bytes, bs: nat, off: nat)
    requires bs > 0 && off < |body| && Aligned(off, bs)
    ensures Slices(body, bs, Min(off + bs, |body|)) == Slices(body, bs, off)[off := Slice(body, off, bs)]
  {
    var upto := Min(off + bs, |body|);
    SlicesKeys(body, bs, off);
    SlicesKeys(body, bs, upto);
    forall k: nat | Aligned(k, bs) && k < upto
      ensures k <= off
    {
      AlignedGap(off, k, bs);
    }
  }

  lemma TimesNext(i: nat, count: nat, bs: nat)
    requires i < count
    ensures i * bs + bs <= count * bs && (count - 1) * bs + bs == count * bs
  {
    assert (count - 1) * bs == count * bs - bs;
    TimesMonotone(i, count - 1, bs);
  }

  lemma PieceBehind(body: Bytes, at: nat, bs: nat)
    requires at <= |body|
    ensures body[..at] + Slice(body, at, bs) == body[..Min(at + bs, |body|)]
  {
  }

  lemma JoinedStep(body: Bytes, bs: nat, last: nat, at: nat)
    requires at == last * bs && at <= |body| && Joined(Chunks(body, bs, last)) == body[..at]
    ensures Joined(Chunks(body, bs, last + 1)) == body[..Min(at + bs, |body|)]
  {
    var chunks := Chunks(body, bs, last + 1);
    assert chunks[..last] == Chunks(body, bs, last) && chunks[last].1 == Slice(body, at, bs);
    PieceBehind(body, at, bs);
  }

  lemma {:induction false} ChunksJoined(body: Bytes, bs: nat, count: nat, at: nat)
    requires at == count * bs && (count > 0 ==> at <= |body| + bs)
    ensures Joined(Chunks(body, bs, count)) == body[..Min(at, |body|)]
  {
    if count == 0 {
    } else {
      TimesNext(count - 1, count, bs);
      ChunksJoined(body, bs, count - 1, at - bs);
      JoinedStep(body, bs, count - 1, at - bs);
    }
  }

  lemma ChunkAt(body: Bytes, bs: nat, taken: nat, count: nat, i: nat)
    requires bs > 0 && taken <= |body| && i < count && (count - 1) * bs < taken
    ensures i * bs < taken && i * bs in Slices(body, bs, taken)
    ensures Slices(body, bs, taken)[i * bs] == Slice(body, i * bs, bs) == body[i * bs..Min(i * bs + bs, |body|)]
  {
    TimesMonotone(i, count - 1, bs);
    DivModUnique(i * bs, i, 0, bs);
    SlicesKeys(body, bs, taken);
  }

  /** `count` blocks make up `taken` bytes. */
  lemma ChunksCutUp(body: Bytes, bs: nat, taken: nat, count: nat)
    requires bs > 0 && taken <= |body| && taken == Min(count * bs, |body|)
    requires count > 0 ==> (count - 1) * bs < taken
    ensures CutUp(body, bs, taken, Slices(body, bs, taken), Chunks(body, bs, count))
  {
    var blocks, chunks := Slices(body, bs, taken), Chunks(body, bs, count);
    if count > 0 {
      TimesNext(count - 1, count, bs);
    }
    ChunksJoined(body, bs, count, count * bs);
    SlicesKeys(body, bs, taken);
    forall i | 0 <= i < |chunks|
      ensures ChunkOk(body, bs, taken, blocks, chunks[i], i)
    {
      ChunkAt(body, bs, taken, count, i);
    }
  }

  lemma CutExactlyWhen(body: Bytes, bs: nat, cancelledAt: Option<nat>)
    requires bs > 0
    ensures Cut(body, bs, cancelledAt) <==> cancelledAt.Some? && cancelledAt.value * bs <= |body|
  {
    if cancelledAt.Some? {
      var t := cancelledAt.value;
      DivModUnique(t * bs, t, 0, bs);
      QuotientMonotone(t * bs, |body|, bs);
      if t <= |body| / bs {
        TimesMonotone(t, |body| / bs, bs);
      }
    }
  }

  /** When the context is found cancelled in time, and what that leaves of the body. */
  lemma CutUpWhere(body: Bytes, bs: nat, cancelledAt: Option<nat>)
    requires bs > 0
    ensures Cut(body, bs, cancelledAt) <==> cancelledAt.Some? && cancelledAt.value * bs <= |body|
    ensures var taken := Taken(body, bs, cancelledAt);
            CutUp(body, bs, taken, Slices(body, bs, taken), Chunks(body, bs, (taken + bs - 1) / bs))
  {
    CutExactlyWhen(body, bs, cancelledAt);
    if Cut(body, bs, cancelledAt) {
      WholeChunks(body, bs, cancelledAt.value);
    } else {
      AllChunks(body, bs);
    }
  }

  lemma WholeChunks(body: Bytes, bs: nat, count: nat)
    requires bs > 0 && count * bs <= |body|
    ensures CutUp(body, bs, count * bs, Slices(body, bs, count * bs), Chunks(body, bs, (count * bs + bs - 1) / bs))
  {
    TurnFacts(body, bs, count);
    if count > 0 {
      TimesNext(count - 1, count, bs);
    }
    ChunksCutUp(body, bs, count * bs, count);
  }

  lemma AllChunks(body: Bytes, bs: nat)
    requires bs > 0
    ensures CutUp(body, bs, |body|, Slices(body, bs, |body|), Chunks(body, bs, (|body| + bs - 1) / bs))
  {
    var whole := |body| / bs;
    assert whole * bs == |body| - |body| % bs;
    if |body| % bs == 0 {
      WholeChunks(body, bs, whole);
    } else {
      TurnFacts(body, bs, whole);
      ChunksCutUp(body, bs, |body|, whole + 1);
    }
  }

  // ---- the fallback as a run of the stream machine ------------------------------------------

  /** One worker holding every block of the body, before its first put. The job's file is the body. */
  ghost function Whole(j: Job): State
    requires j.Valid()
  {
    State(Fresh(j.start, j.end, j.bs), [Offsets(0, |j.file| - 1, j.bs)], map[], [], false)
  }

  /** The range does not start behind the body's end in the block the body ends in; a range that does is the
      one WholeFilePanicsExactlyWhen is about. */
  ghost predicate StartsSafely(j: Job)
    requires j.Valid()
  {
    j.start <= |j.file| || |j.file| <= j.FirstKey()
  }

  ghost predicate FromBody(j: Job, supplied: map<nat, Bytes>) {
    forall k :: k in supplied ==> supplied[k] == Slice(j.file, k, j.bs)
  }

  ghost function BodyPlan(j: Job): set<nat>
    requires j.Valid()
  {
    AsSet(Offsets(0, |j.file| - 1, j.bs))
  }

  lemma WholeInv(j: Job)
    requires j.Valid()
    ensures Inv(j, Whole(j))
  {
    var offs := Offsets(0, |j.file| - 1, j.bs);
    OffsetsMembers(0, |j.file| - 1, j.bs);
    forall i | 0 <= i < |offs|
      ensures Aligned(offs[i], j.bs) && (j.FirstKey() < offs[i] ==> j.start <= offs[i])
    {
      assert offs[i] in offs;
      AlignedGap(j.FirstKey(), offs[i], j.bs);
    }
  }

  lemma WholeClean(j: Job)
    requires j.Valid()
    ensures CleanInv(j, Whole(j), BodyPlan(j))
  {
    WholeInv(j);
    var s := Whole(j);
    assert forall o :: Outstanding(s, o) <==> o in s.workers[0];
  }

  /** The safety of the range path holds of the fallback too, over every interleaving of its puts with failures,
      timeouts, closes and reads of any buffer size. */
  lemma WholeFileSafety(j: Job, events: seq<Event>, room: nat)
    requires j.Valid() && StartsSafely(j) && CanRun(j, Whole(j), events)
    ensures var s := Run(j, Whole(j), events);
            && s.emitted <= Range(j.file, j.start, j.end)
            && s.reader.nextOff == j.start + |s.emitted|
            && s.reader.blkSize == j.bs && !Pass(s.reader, room).1.Panicked?
            && forall k :: k in s.supplied ==>
                 || (k in s.reader.blocks && s.reader.blocks[k] == s.supplied[k])
                 || k + |s.supplied[k]| <= s.reader.nextOff
  {
    WholeInv(j);
    RunKeeps(j, Whole(j), events);
    var s := Run(j, Whole(j), events);
    ReadKeeps(j, s, room);
    PrefixIsRange(j.file, j.start, j.end, s.emitted);
  }

  ghost function PutsFrom(j: Job, off: nat): seq<Event>
    requires j.Valid()
    decreases |j.file| - off
  {
    if off >= |j.file| then [AllDone] else [Put(0, Slice(j.file, off, j.bs))] + PutsFrom(j, off + j.bs)
  }

  /** One turn of the loop as a step of the machine. */
  lemma PutTurn(j: Job, s: State, off: nat)
    requires j.Valid() && StartsSafely(j) && Aligned(off, j.bs) && off < |j.file|
    requires s.workers == [Offsets(off, |j.file| - 1, j.bs)]
    requires s.reader == Fresh(j.start, j.end, j.bs).(blocks := Slices(j.file, j.bs, off))
    ensures var e := Put(0, Slice(j.file, off, j.bs));
            && Enabled(j, s, e)
            && Apply(j, s, e).workers == [Offsets(off + j.bs, |j.file| - 1, j.bs)]
            && Apply(j, s, e).reader
               == Fresh(j.start, j.end, j.bs).(blocks := Slices(j.file, j.bs, Min(off + j.bs, |j.file|)))
  {
    var data := Slice(j.file, off, j.bs);
    assert s.workers[0][0] == off && Delivers(j, off, data);
    SlicesGrow(j.file, j.bs, off);
  }

  lemma PutsCons(j: Job, s: State, off: nat)
    requires j.Valid() && off < |j.file| && Enabled(j, s, Put(0, Slice(j.file, off, j.bs)))
    requires CanRun(j, Apply(j, s, Put(0, Slice(j.file, off, j.bs))), PutsFrom(j, off + j.bs))
    requires AllClean(PutsFrom(j, off + j.bs))
    ensures CanRun(j, s, PutsFrom(j, off)) && AllClean(PutsFrom(j, off))
    ensures Run(j, s, PutsFrom(j, off))
            == Run(j, Apply(j, s, Put(0, Slice(j.file, off, j.bs))), PutsFrom(j, off + j.bs))
  {
    var e := Put(0, Slice(j.file, off, j.bs));
    assert PutsFrom(j, off) == [e] + PutsFrom(j, off + j.bs);
    RunCons(j, s, PutsFrom(j, off));
  }

  /** The loop's puts, one after the other, are a clean run; it leaves the reader as FetchWholeFile does. */
  lemma {:induction false} PutsRun(j: Job, s: State, off: nat)
    requires j.Valid() && StartsSafely(j) && Aligned(off, j.bs) && off < |j.file| + j.bs
    requires s.workers == [Offsets(off, |j.file| - 1, j.bs)] && !s.reader.closed
    requires s.reader == Fresh(j.start, j.end, j.bs).(blocks := Slices(j.file, j.bs, Min(off, |j.file|)))
    ensures CanRun(j, s, PutsFrom(j, off)) && AllClean(PutsFrom(j, off))
    ensures Run(j, s, PutsFrom(j, off)).reader
            == Closed(Fresh(j.start, j.end, j.bs).(blocks := Slices(j.file, j.bs, |j.file|)))
    decreases |j.file| - off
  {
    if off >= |j.file| {
      RunCons(j, Apply(j, s, AllDone), []);
      RunCons(j, s, [AllDone]);
    } else {
      PutTurn(j, s, off);
      AlignedNext(off, j.bs);
      PutsRun(j, Apply(j, s, Put(0, Slice(j.file, off, j.bs))), off + j.bs);
      PutsCons(j, s, off);
    }
  }

  lemma ByteCovered(j: Job, s: State, p: nat)
    requires j.Valid() && CleanInv(j, s, BodyPlan(j)) && Idle(s) && FromBody(j, s.supplied)
    ensures Covered(j, s.supplied, p) <==> p < |j.file|
  {
    var k := KeyOf(p, j.bs);
    OffsetsMembers(0, |j.file| - 1, j.bs);
    assert !Outstanding(s, k);
    assert k in s.supplied <==> k in BodyPlan(j);
  }

  /** When all blocks of the body are in, they cover just the body. */
  lemma BodyCovered(j: Job, s: State)
    requires j.Valid() && CleanInv(j, s, BodyPlan(j)) && Idle(s) && FromBody(j, s.supplied)
    ensures forall p: nat :: Covered(j, s.supplied, p) <==> p < |j.file|
  {
    forall p: nat
      ensures Covered(j, s.supplied, p) <==> p < |j.file|
    {
      ByteCovered(j, s, p);
    }
  }

  /** The fallback refines the range path: whatever reads interleave with its puts, a settled stream has
      delivered the requested range as far as the body has it, nothing if the body ends before it, ending
      with end-of-stream if and only if the body holds byte `end`, and with an unexpected end of file
      otherwise. */
  lemma WholeFileRefinesRange(j: Job, events: seq<Event>)
    requires j.Valid() && StartsSafely(j)
    requires CanRun(j, Whole(j), events) && AllClean(events)
    requires FromBody(j, Run(j, Whole(j), events).supplied)
    requires Settled(Run(j, Whole(j), events))
    ensures var s := Run(j, Whole(j), events);
            && s.emitted == Range(j.file, j.start, j.end)
            && Pass(s.reader, 1).1 == if j.end < |j.file| then EndOfStream else Failed(UnexpectedEOF)
  {
    WholeClean(j);
    CleanRun(j, Whole(j), BodyPlan(j), events);
    var s := Run(j, Whole(j), events);
    BodyCovered(j, s);
    SettledOutcome(j, s, BodyPlan(j));
    var pos := s.reader.nextOff;
    if pos <= j.end {
      assert !Covered(j, s.supplied, pos);
      if j.start < pos {
        assert Covered(j, s.supplied, pos - 1);
      }
    } else {
      assert Covered(j, s.supplied, pos - 1);
    }
    PrefixIsRange(j.file, j.start, j.end, s.emitted);
  }

  /** A request that starts behind the end of the body: the reader panics exactly when the body ends inside
      the block the request starts in. */
  lemma WholeFilePanicsExactlyWhen(body: Bytes, start: nat, end: nat, bs: nat, room: nat)
    requires bs > 0 && start <= end
    ensures var r := Closed(Fresh(start, end, bs).(blocks := Slices(body, bs, |body|)));
            Pass(r, room).1.Panicked? <==> KeyOf(start, bs) < |body| < start
  {
    SlicesKeys(body, bs, |body|);
  }

  ghost predicate BodySettles(j: Job, s: State, events: seq<Event>)
    requires j.Valid()
  {
    && CanRun(j, s, events) && AllClean(events)
    && Settled(Run(j, s, events)) && FromBody(j, Run(j, s, events).supplied)
  }

  lemma BodyDelivers(j: Job, o: nat)
    requires j.Valid() && StartsSafely(j) && o in BodyPlan(j)
    ensures var supply := Slices(j.file, j.bs, |j.file|);
            o in supply && supply[o] == Slice(j.file, o, j.bs) && Delivers(j, o, supply[o])
  {
    OffsetsMembers(0, |j.file| - 1, j.bs);
    assert o in Offsets(0, |j.file| - 1, j.bs);
  }

  /** However far a run of the fallback has come, it can go on until it settles. */
  lemma WholeCanSettle(j: Job, s: State)
    requires j.Valid() && StartsSafely(j) && CleanInv(j, s, BodyPlan(j)) && FromBody(j, s.supplied)
    ensures exists events :: BodySettles(j, s, events)
  {
    var supply := Slices(j.file, j.bs, |j.file|);
    forall o | o in BodyPlan(j)
      ensures o in supply && Delivers(j, o, supply[o])
    {
      BodyDelivers(j, o);
    }
    var events := SettlingRun(j, s, BodyPlan(j), supply);
    assert BodySettles(j, s, events);
  }
}
