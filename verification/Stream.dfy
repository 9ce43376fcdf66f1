/** Fetch as a step machine: workers put blocks in any order, any of them may fail, and the caller reads,
    waits too long or closes at any moment (internal/fetcher/fetcher.go:80-129,
    internal/fetcher/seekable.go). */
module Stream {
  import opened Basics
  import opened Blocks
  import opened Reader

  /** The file and the request; ghost knowledge the code does not have. */
  datatype Job = Job(file: Bytes, start: nat, end: nat, bs: nat) {
    ghost predicate Valid() {
      bs > 0 && start <= end
    }
    function FirstKey(): nat
      requires bs > 0
    {
      KeyOf(start, bs)
    }
  }

  /** `supplied` records every block ever put and `emitted` every byte ever read; `waiting` says that a Read
      has given up the lock to wait and not had it again since. */
  datatype State = State(reader: View, workers: seq<seq<nat>>, supplied: map<nat, Bytes>, emitted: Bytes,
                         waiting: bool)

  datatype Event =
    | Put(worker: nat, data: Bytes)
    | Fail(worker: nat, error: Error)
    | AllDone
    | UserClose
    | Read(room: nat)
    | TimeOut

  /** What a worker may put: file bytes from the block's start, at most a block of them, and the block
      that holds the first requested byte must reach it. */
  ghost predicate Delivers(j: Job, off: nat, data: Bytes)
    requires j.Valid()
  {
    && PrefixAt(j.file, off, data)
    && |data| <= j.bs
    && (off == j.FirstKey() ==> j.start <= off + |data|)
  }

  /** The timer of a waiting Read may fire at any moment, and whatever is put before that Read has the lock
      again: it then returns an error without looking at the buffer. */
  ghost predicate Enabled(j: Job, s: State, e: Event)
    requires j.Valid()
  {
    match e
    case Put(w, data) => w < |s.workers| && s.workers[w] != [] && Delivers(j, s.workers[w][0], data)
    case Fail(w, _) => w < |s.workers| && s.workers[w] != []
    case AllDone => Idle(s)
    case UserClose => true
    case Read(_) => s.reader.blkSize > 0
    case TimeOut => s.waiting
  }

  ghost predicate Idle(s: State) {
    forall w :: 0 <= w < |s.workers| ==> s.workers[w] == []
  }

  ghost function Apply(j: Job, s: State, e: Event): State
    requires j.Valid() && Enabled(j, s, e)
  {
    match e
    case Put(w, data) =>
      var off := s.workers[w][0];
      s.(reader := PutBlock(s.reader, off, data),
         workers := s.workers[w := s.workers[w][1..]],
         supplied := s.supplied[off := data])
    case Fail(w, error) =>
      s.(reader := FailWith(s.reader, error), workers := s.workers[w := []])
    case AllDone => s.(reader := Closed(s.reader))
    case UserClose => s.(reader := Closed(s.reader))
    case Read(room) =>
      var (r, out) := Pass(s.reader, room);
      s.(reader := r, emitted := if out.Delivered? then s.emitted + out.bytes else s.emitted, waiting := out.Blocked?)
    case TimeOut => s.(reader := TimedOut(s.reader), waiting := false)
  }

  ghost predicate CanRun(j: Job, s: State, events: seq<Event>)
    requires j.Valid()
    decreases |events|
  {
    events == [] || (Enabled(j, s, events[0]) && CanRun(j, Apply(j, s, events[0]), events[1..]))
  }

  ghost function Run(j: Job, s: State, events: seq<Event>): State
    requires j.Valid() && CanRun(j, s, events)
    decreases |events|
  {
    if events == [] then s else Run(j, Apply(j, s, events[0]), events[1..])
  }

  lemma RunCons(j: Job, s: State, events: seq<Event>)
    requires j.Valid()
    ensures events == [] ==> CanRun(j, s, events) && Run(j, s, events) == s
    ensures events != [] && Enabled(j, s, events[0]) && CanRun(j, Apply(j, s, events[0]), events[1..]) ==>
              CanRun(j, s, events) && Run(j, s, events) == Run(j, Apply(j, s, events[0]), events[1..])
  {
  }

  // ---- the invariant ------------------------------------------------------------------------

  /** A block still buffered has not been passed and reaches the read position. */
  ghost predicate BufferOk(j: Job, s: State)
    requires j.Valid()
  {
    forall k :: k in s.reader.blocks ==>
      && k in s.supplied && s.supplied[k] == s.reader.blocks[k]
      && (j.FirstKey() <= k ==> s.reader.nextOff < k + j.bs && s.reader.nextOff <= k + |s.supplied[k]|)
  }

  /** Everything supplied is file content, and what left the buffer has been read to its last byte. */
  ghost predicate SuppliedOk(j: Job, s: State)
    requires j.Valid()
  {
    forall k :: k in s.supplied ==>
      && Aligned(k, j.bs) && Delivers(j, k, s.supplied[k])
      && (k !in s.reader.blocks ==> j.FirstKey() <= k && k + |s.supplied[k]| <= s.reader.nextOff)
  }

  /** The read position has not entered the outstanding block `o`. */
  ghost predicate Untouched(j: Job, s: State, o: nat)
    requires j.Valid()
  {
    && Aligned(o, j.bs) && o !in s.supplied
    && (j.FirstKey() < o ==> s.reader.nextOff <= o)
    && (j.FirstKey() == o ==> s.reader.nextOff == j.start)
  }

  /** No block is handed out twice, neither to one worker nor to two. */
  ghost predicate Apart(workers: seq<seq<nat>>) {
    && (forall w :: 0 <= w < |workers| ==> Increasing(workers[w]))
    && (forall v, w, o :: 0 <= v < w < |workers| && o in workers[v] ==> o !in workers[w])
  }

  ghost predicate OutstandingOk(j: Job, s: State)
    requires j.Valid()
  {
    && Apart(s.workers)
    && forall w, i :: 0 <= w < |s.workers| && 0 <= i < |s.workers[w]| ==> Untouched(j, s, s.workers[w][i])
  }

  /** Some supplied block holds the byte at `pos`. */
  ghost predicate Covered(j: Job, supplied: map<nat, Bytes>, pos: nat)
    requires j.Valid()
  {
    var k := KeyOf(pos, j.bs);
    k in supplied && pos < k + |supplied[k]|
  }

  ghost predicate Inv(j: Job, s: State)
    requires j.Valid()
  {
    && s.reader.blkSize == j.bs && s.reader.endOff == j.end
    && j.start <= s.reader.nextOff <= j.end + 1
    && (s.waiting ==> s.reader.nextOff <= j.end)
    && s.reader.nextOff == j.start + |s.emitted|
    && PrefixAt(j.file, j.start, s.emitted)
    && BufferOk(j, s)
    && SuppliedOk(j, s)
    && OutstandingOk(j, s)
    && (forall p :: j.start <= p < s.reader.nextOff ==> Covered(j, s.supplied, p))
  }

  /** A worker's first block is in no list once it is taken off its own. */
  lemma HeadLeaves(workers: seq<seq<nat>>, w: nat)
    requires Apart(workers) && w < |workers| && workers[w] != []
    ensures var after := workers[w := workers[w][1..]];
            Apart(after) && forall v :: 0 <= v < |after| ==> workers[w][0] !in after[v]
  {
    var after, off := workers[w := workers[w][1..]], workers[w][0];
    assert off in workers[w];
    assert forall v, o :: 0 <= v < |workers| && o in after[v] ==> o in workers[v];
  }

  /** A put hands out its worker's first block and leaves every other list as it was. */
  lemma PutOutstanding(j: Job, s: State, w: nat, data: Bytes)
    requires j.Valid() && Inv(j, s) && Enabled(j, s, Put(w, data))
    ensures OutstandingOk(j, Apply(j, s, Put(w, data)))
  {
    var s' := Apply(j, s, Put(w, data));
    var off := s.workers[w][0];
    HeadLeaves(s.workers, w);
    forall v, i | 0 <= v < |s'.workers| && 0 <= i < |s'.workers[v]|
      ensures Untouched(j, s', s'.workers[v][i])
    {
      var o := s'.workers[v][i];
      assert o == s.workers[v][if v == w then i + 1 else i] && o in s'.workers[v];
      assert Untouched(j, s, o) && o != off;
    }
  }

  lemma CoveredMonotone(j: Job, supplied: map<nat, Bytes>, off: nat, data: Bytes, pos: nat)
    requires j.Valid() && off !in supplied && Covered(j, supplied, pos)
    ensures Covered(j, supplied[off := data], pos)
  {
  }

  lemma PutBuffers(j: Job, s: State, w: nat, data: Bytes)
    requires j.Valid() && Inv(j, s) && Enabled(j, s, Put(w, data))
    ensures BufferOk(j, Apply(j, s, Put(w, data)))
    ensures SuppliedOk(j, Apply(j, s, Put(w, data)))
  {
    var off := s.workers[w][0];
    assert Aligned(off, j.bs) && off !in s.supplied;
    assert j.FirstKey() < off ==> s.reader.nextOff <= off;
  }

  lemma PutKeeps(j: Job, s: State, w: nat, data: Bytes)
    requires j.Valid() && Inv(j, s) && Enabled(j, s, Put(w, data))
    ensures Inv(j, Apply(j, s, Put(w, data)))
  {
    PutOutstanding(j, s, w, data);
    PutBuffers(j, s, w, data);
    var off := s.workers[w][0];
    assert off !in s.supplied;
    var supplied' := s.supplied[off := data];
    forall p | j.start <= p < s.reader.nextOff
      ensures Covered(j, supplied', p)
    {
      CoveredMonotone(j, s.supplied, off, data, p);
    }
  }

  /** The block Read takes from lies in the request, reaches the read position and is not outstanding. */
  lemma HeadOfLine(j: Job, s: State)
    requires j.Valid() && Inv(j, s) && s.reader.nextOff <= j.end
    requires KeyOf(s.reader.nextOff, j.bs) in s.reader.blocks
    ensures var key := KeyOf(s.reader.nextOff, j.bs);
            && j.FirstKey() <= key && s.reader.nextOff <= key + |s.reader.blocks[key]|
            && key in s.supplied && s.supplied[key] == s.reader.blocks[key]
            && PrefixAt(j.file, key, s.reader.blocks[key]) && |s.reader.blocks[key]| <= j.bs
  {
    var key := KeyOf(s.reader.nextOff, j.bs);
    AlignedGap(key, j.FirstKey(), j.bs);
  }

  lemma ReadBuffers(j: Job, s: State, room: nat)
    requires j.Valid() && Inv(j, s) && Pass(s.reader, room).1.Delivered?
    ensures BufferOk(j, Apply(j, s, Read(room))) && SuppliedOk(j, Apply(j, s, Read(room)))
  {
    HeadOfLine(j, s);
    var key := KeyOf(s.reader.nextOff, j.bs);
    forall k | k in s.reader.blocks && k != key && j.FirstKey() <= k
      ensures key + j.bs <= k
    {
      assert s.reader.nextOff < k + j.bs && Aligned(k, j.bs);
      AlignedGap(k, key, j.bs);
      AlignedGap(key, k, j.bs);
    }
  }

  lemma ReadOutstanding(j: Job, s: State, room: nat)
    requires j.Valid() && Inv(j, s) && Pass(s.reader, room).1.Delivered?
    ensures OutstandingOk(j, Apply(j, s, Read(room)))
  {
    HeadOfLine(j, s);
    var key := KeyOf(s.reader.nextOff, j.bs);
    forall w, i | 0 <= w < |s.workers| && 0 <= i < |s.workers[w]|
      ensures j.FirstKey() < s.workers[w][i] ==> key + j.bs <= s.workers[w][i]
      ensures j.FirstKey() != s.workers[w][i]
    {
      var o := s.workers[w][i];
      assert o !in s.supplied && Aligned(o, j.bs);
      AlignedGap(key, o, j.bs);
    }
  }

  lemma ReadEmits(j: Job, s: State, room: nat)
    requires j.Valid() && Inv(j, s) && Pass(s.reader, room).1.Delivered?
    ensures var (r', out) := Pass(s.reader, room);
            && s.reader.nextOff <= r'.nextOff == j.start + |s.emitted + out.bytes| <= j.end + 1
            && PrefixAt(j.file, j.start, s.emitted + out.bytes)
            && r'.nextOff <= KeyOf(s.reader.nextOff, j.bs) + |s.reader.blocks[KeyOf(s.reader.nextOff, j.bs)]|
  {
    HeadOfLine(j, s);
    DeliveredBytes(s.reader, room);
    var bytes := Pass(s.reader, room).1.bytes;
    var at, key := s.reader.nextOff, KeyOf(s.reader.nextOff, j.bs);
    PrefixInside(j.file, key, s.reader.blocks[key], at - key, bytes);
    PrefixAppend(j.file, j.start, s.emitted, bytes);
  }

  lemma ReadCovers(j: Job, s: State, upto: nat)
    requires j.Valid() && Inv(j, s) && KeyOf(s.reader.nextOff, j.bs) in s.supplied
    requires var key := KeyOf(s.reader.nextOff, j.bs); upto <= key + |s.supplied[key]| <= key + j.bs
    ensures forall p :: s.reader.nextOff <= p < upto ==> Covered(j, s.supplied, p)
  {
    var key := KeyOf(s.reader.nextOff, j.bs);
    forall p | s.reader.nextOff <= p < upto
      ensures Covered(j, s.supplied, p)
    {
      KeyUnique(p, key, j.bs);
    }
  }

  lemma ReadKeeps(j: Job, s: State, room: nat)
    requires j.Valid() && Inv(j, s)
    ensures !Pass(s.reader, room).1.Panicked?
    ensures Inv(j, Apply(j, s, Read(room)))
  {
    var out := Pass(s.reader, room).1;
    if out.Panicked? {
      HeadOfLine(j, s);
    } else if out.Delivered? {
      ReadBuffers(j, s, room);
      ReadOutstanding(j, s, room);
      ReadEmits(j, s, room);
      HeadOfLine(j, s);
      ReadCovers(j, s, Pass(s.reader, room).0.nextOff);
    }
  }

  lemma StepKeeps(j: Job, s: State, e: Event)
    requires j.Valid() && Inv(j, s) && Enabled(j, s, e)
    ensures Inv(j, Apply(j, s, e))
  {
    match e
    case Put(w, data) => PutKeeps(j, s, w, data);
    case Read(room) => ReadKeeps(j, s, room);
    case Fail(w, _) =>
    case _ =>
  }

  lemma {:induction false} RunKeeps(j: Job, s: State, events: seq<Event>)
    requires j.Valid() && Inv(j, s) && CanRun(j, s, events)
    ensures Inv(j, Run(j, s, events))
    decreases |events|
  {
    if events == [] {
    } else {
      StepKeeps(j, s, events[0]);
      RunKeeps(j, Apply(j, s, events[0]), events[1..]);
    }
  }

  // ---- safety over whole runs ---------------------------------------------------------------

  /** Fetch once the probe block is in: the remaining blocks dealt to `n` workers. */
  ghost function Started(j: Job, first: Bytes, n: nat): State
    requires j.Valid() && n > 0
  {
    var offs := RangeBlocks(j.start, j.end, j.bs);
    RangeBlocksExact(j.start, j.end, j.bs);
    State(PutBlock(Fresh(j.start, j.end, j.bs), offs[0], first),
          seq(n, w requires 0 <= w => Hand(offs[1..], n, w)),
          map[offs[0] := first],
          [],
          false)
  }

  lemma StartedLists(j: Job, first: Bytes, n: nat)
    requires j.Valid() && n > 0
    ensures var workers := Started(j, first, n).workers;
            && Partition(RangeBlocks(j.start, j.end, j.bs)[1..], workers) && Apart(workers)
            && forall w, i :: 0 <= w < n && 0 <= i < |workers[w]| ==>
                 Aligned(workers[w][i], j.bs) && j.FirstKey() + j.bs <= workers[w][i]
  {
    var workers := Started(j, first, n).workers;
    var offs := RangeBlocks(j.start, j.end, j.bs);
    RangeBlocksExact(j.start, j.end, j.bs);
    DealPartition(offs[1..], n, workers);
    forall w, i | 0 <= w < n && 0 <= i < |workers[w]|
      ensures Aligned(workers[w][i], j.bs) && j.FirstKey() + j.bs <= workers[w][i]
    {
      var o := workers[w][i];
      assert o in workers[w] && o in offs[1..];
      var k :| 1 <= k < |offs| && offs[k] == o;
      assert offs[0] < offs[k] && o in offs;
      AlignedGap(offs[0], o, j.bs);
    }
  }

  lemma StartedInv(j: Job, first: Bytes, n: nat)
    requires j.Valid() && n > 0 && Delivers(j, j.FirstKey(), first)
    ensures Inv(j, Started(j, first, n))
    ensures Partition(RangeBlocks(j.start, j.end, j.bs)[1..], Started(j, first, n).workers)
  {
    var s := Started(j, first, n);
    RangeBlocksExact(j.start, j.end, j.bs);
    StartedLists(j, first, n);
    forall w, i | 0 <= w < |s.workers| && 0 <= i < |s.workers[w]|
      ensures Untouched(j, s, s.workers[w][i])
    {
      assert j.FirstKey() + j.bs <= s.workers[w][i];
    }
  }

  // ---- what each worker puts ----------------------------------------------------------------

  /** The data of worker `w`'s puts, in order. */
  ghost function PutsBy(events: seq<Event>, w: nat): seq<Bytes> {
    if events == [] then []
    else
      (if events[0].Put? && events[0].worker == w then [events[0].data] else []) + PutsBy(events[1..], w)
  }

  ghost predicate HasFailed(events: seq<Event>, w: nat) {
    exists i :: 0 <= i < |events| && events[i].Fail? && events[i].worker == w
  }

  lemma HasFailedCons(events: seq<Event>, w: nat)
    requires events != []
    ensures HasFailed(events, w) <==> (events[0].Fail? && events[0].worker == w) || HasFailed(events[1..], w)
  {
    assert forall i :: 1 <= i < |events| ==> events[i] == events[1..][i - 1];
    assert forall i :: 0 <= i < |events| - 1 ==> events[1..][i] == events[i + 1];
  }

  /** A supplied block stays as it was supplied. */
  lemma {:induction false} SuppliedStays(j: Job, s: State, events: seq<Event>, off: nat)
    requires j.Valid() && Inv(j, s) && CanRun(j, s, events) && off in s.supplied
    ensures off in Run(j, s, events).supplied && Run(j, s, events).supplied[off] == s.supplied[off]
    decreases |events|
  {
    if events == [] {
    } else {
      StepKeeps(j, s, events[0]);
      SuppliedStays(j, Apply(j, s, events[0]), events[1..], off);
    }
  }

  /** What becomes of worker `w`'s list in one step. */
  lemma ListStep(j: Job, s: State, e: Event, w: nat)
    requires j.Valid() && Enabled(j, s, e) && w < |s.workers|
    ensures var s' := Apply(j, s, e);
            && |s'.workers| == |s.workers|
            && s'.workers[w] == (if e.Put? && e.worker == w then s.workers[w][1..]
                                 else if e.Fail? && e.worker == w then [] else s.workers[w])
            && forall o :: o !in s.supplied && o in s'.supplied ==>
                 e.Put? && s.workers[e.worker] != [] && o == s.workers[e.worker][0]
  {
  }

  /** The block of a list that is not put next is not supplied by the step. */
  lemma OthersWait(j: Job, s: State, e: Event, w: nat, k: nat)
    requires j.Valid() && Inv(j, s) && Enabled(j, s, e) && w < |s.workers| && k < |s.workers[w]|
    requires e.Put? && e.worker == w ==> k > 0
    ensures s.workers[w][k] !in Apply(j, s, e).supplied
  {
    var o := s.workers[w][k];
    assert Untouched(j, s, o) && o in s.workers[w];
    if e.Put? {
      assert s.workers[e.worker][0] in s.workers[e.worker];
      assert e.worker == w ==> s.workers[w][0] < s.workers[w][k];
    }
  }

  /** Once a block is on no list and not supplied, it never will be. */
  lemma {:induction false} LostForGood(j: Job, s: State, events: seq<Event>, off: nat)
    requires j.Valid() && CanRun(j, s, events) && off !in s.supplied
    requires forall w :: 0 <= w < |s.workers| ==> off !in s.workers[w]
    ensures off !in Run(j, s, events).supplied
    decreases |events|
  {
    if events == [] {
    } else {
      var s' := Apply(j, s, events[0]);
      forall w | 0 <= w < |s'.workers|
        ensures off !in s'.workers[w]
      {
        ListStep(j, s, events[0], w);
      }
      assert events[0].Put? ==> s.workers[events[0].worker][0] in s.workers[events[0].worker];
      LostForGood(j, s', events[1..], off);
    }
  }

  /** A list whose worker has made these puts: the blocks at its front are supplied as put, no other one is, and the
      rest is left unless the worker has failed. */
  ghost predicate PutInOrder(list: seq<nat>, puts: seq<Bytes>, failed: bool, left: seq<nat>, supplied: map<nat, Bytes>)
  {
    && |puts| <= |list| && left == (if failed then [] else list[|puts|..])
    && (forall k :: 0 <= k < |puts| ==> list[k] in supplied && supplied[list[k]] == puts[k])
    && (forall k :: |puts| <= k < |list| ==> list[k] !in supplied)
  }

  lemma PutInOrderCons(list: seq<nat>, data: Bytes, puts: seq<Bytes>, failed: bool, left: seq<nat>,
                       supplied: map<nat, Bytes>)
    requires list != [] && list[0] in supplied && supplied[list[0]] == data
    requires PutInOrder(list[1..], puts, failed, left, supplied)
    ensures PutInOrder(list, [data] + puts, failed, left, supplied)
  {
    assert forall k :: 1 <= k < |list| ==> list[k] == list[1..][k - 1];
  }

  /** The record of worker `w` over a run. */
  ghost predicate RecordOk(j: Job, s: State, events: seq<Event>, w: nat)
    requires j.Valid() && CanRun(j, s, events) && w < |s.workers|
  {
    var s' := Run(j, s, events);
    && w < |s'.workers|
    && PutInOrder(s.workers[w], PutsBy(events, w), HasFailed(events, w), s'.workers[w], s'.supplied)
  }

  lemma RecordPut(j: Job, s: State, events: seq<Event>, w: nat)
    requires j.Valid() && Inv(j, s) && CanRun(j, s, events) && w < |s.workers|
    requires events != [] && events[0].Put? && events[0].worker == w
    requires RecordOk(j, Apply(j, s, events[0]), events[1..], w)
    ensures RecordOk(j, s, events, w)
  {
    var e, rest := events[0], events[1..];
    var s' := Run(j, Apply(j, s, e), rest);
    StepKeeps(j, s, e);
    SuppliedStays(j, Apply(j, s, e), rest, s.workers[w][0]);
    HasFailedCons(events, w);
    PutInOrderCons(s.workers[w], e.data, PutsBy(rest, w), HasFailed(rest, w), s'.workers[w], s'.supplied);
  }

  lemma RecordFail(j: Job, s: State, events: seq<Event>, w: nat)
    requires j.Valid() && Inv(j, s) && CanRun(j, s, events) && w < |s.workers|
    requires events != [] && events[0].Fail? && events[0].worker == w
    requires RecordOk(j, Apply(j, s, events[0]), events[1..], w)
    ensures RecordOk(j, s, events, w)
  {
    var e, rest := events[0], events[1..];
    HasFailedCons(events, w);
    assert PutsBy(events, w) == PutsBy(rest, w) == [];
    forall k | 0 <= k < |s.workers[w]|
      ensures s.workers[w][k] !in Run(j, Apply(j, s, e), rest).supplied
    {
      OthersWait(j, s, e, w, k);
      assert s.workers[w][k] in s.workers[w];
      LostForGood(j, Apply(j, s, e), rest, s.workers[w][k]);
    }
  }

  lemma RecordOther(j: Job, s: State, events: seq<Event>, w: nat)
    requires j.Valid() && CanRun(j, s, events) && w < |s.workers|
    requires events != [] && !((events[0].Put? || events[0].Fail?) && events[0].worker == w)
    requires w < |Apply(j, s, events[0]).workers| && RecordOk(j, Apply(j, s, events[0]), events[1..], w)
    ensures RecordOk(j, s, events, w)
  {
    ListStep(j, s, events[0], w);
    HasFailedCons(events, w);
  }

  /** A worker works through its list in order until it fails: its `k`-th block is supplied if and only if it has
      made more than `k` puts, and with the data of that put. */
  lemma {:induction false} RunRecord(j: Job, s: State, events: seq<Event>, w: nat)
    requires j.Valid() && Inv(j, s) && CanRun(j, s, events) && w < |s.workers|
    ensures RecordOk(j, s, events, w)
    decreases |events|
  {
    if events == [] {
      assert forall k :: 0 <= k < |s.workers[w]| ==> Untouched(j, s, s.workers[w][k]);
    } else {
      StepKeeps(j, s, events[0]);
      ListStep(j, s, events[0], w);
      RunRecord(j, Apply(j, s, events[0]), events[1..], w);
      if events[0].Put? && events[0].worker == w {
        RecordPut(j, s, events, w);
      } else if events[0].Fail? && events[0].worker == w {
        RecordFail(j, s, events, w);
      } else {
        RecordOther(j, s, events, w);
      }
    }
  }

  lemma {:induction false} SilentStays(j: Job, s: State, events: seq<Event>, w: nat, b: nat)
    requires j.Valid() && CanRun(j, s, events) && w < |s.workers| && s.workers[w] == [] && b < |events|
    ensures !((events[b].Put? || events[b].Fail?) && events[b].worker == w)
    decreases |events|
  {
    if b == 0 {
    } else {
      ListStep(j, s, events[0], w);
      SilentStays(j, Apply(j, s, events[0]), events[1..], w, b - 1);
    }
  }

  /** After its failure a worker puts nothing more and does not fail again. */
  lemma {:induction false} FailedWorkerStops(j: Job, s: State, events: seq<Event>, a: nat, b: nat)
    requires j.Valid() && CanRun(j, s, events) && a < b < |events| && events[a].Fail?
    ensures !((events[b].Put? || events[b].Fail?) && events[b].worker == events[a].worker)
    decreases |events|
  {
    if a == 0 {
      ListStep(j, s, events[0], events[0].worker);
      SilentStays(j, Apply(j, s, events[0]), events[1..], events[0].worker, b - 1);
    } else {
      FailedWorkerStops(j, Apply(j, s, events[0]), events[1..], a - 1, b - 1);
    }
  }

  /** The blocks dealt to worker `w`, by what the round-robin gives it. */
  ghost function Dealt(j: Job, n: nat, w: nat): seq<nat>
    requires j.Valid() && n > 0
  {
    RangeBlocksExact(j.start, j.end, j.bs);
    Hand(RangeBlocks(j.start, j.end, j.bs)[1..], n, w)
  }

  /** Over every interleaving: worker `w` has put the first blocks dealt to it, as many as it has made puts, each
      with the data of its put, and no other one of them is ever supplied. */
  lemma SuppliedAsPut(j: Job, first: Bytes, n: nat, events: seq<Event>, w: nat)
    requires j.Valid() && n > 0 && Delivers(j, j.FirstKey(), first) && w < n
    requires CanRun(j, Started(j, first, n), events)
    ensures var supplied := Run(j, Started(j, first, n), events).supplied;
            var list, puts := Dealt(j, n, w), PutsBy(events, w);
            && |puts| <= |list|
            && (forall k :: 0 <= k < |puts| ==> list[k] in supplied && supplied[list[k]] == puts[k])
            && (forall k :: |puts| <= k < |list| ==> list[k] !in supplied)
  {
    StartedInv(j, first, n);
    RunRecord(j, Started(j, first, n), events, w);
  }

  lemma {:induction false} PutsByStop(events: seq<Event>, w: nat, a: nat)
    requires a <= |events|
    requires forall b :: a <= b < |events| ==> !(events[b].Put? && events[b].worker == w)
    ensures PutsBy(events, w) == PutsBy(events[..a], w)
    decreases |events|
  {
    if events == [] {
      assert events[..a] == [];
    } else if a == 0 {
      assert events[..0] == [];
      PutsByStop(events[1..], w, 0);
      assert events[1..][..0] == [];
    } else {
      PutsByStop(events[1..], w, a - 1);
      assert events[..a][1..] == events[1..][..a - 1];
    }
  }

  lemma {:induction false} RunPrefix(j: Job, s: State, events: seq<Event>, a: nat)
    requires j.Valid() && CanRun(j, s, events) && a <= |events|
    ensures CanRun(j, s, events[..a])
    decreases |events|
  {
    if a == 0 {
    } else {
      RunPrefix(j, Apply(j, s, events[0]), events[1..], a - 1);
      assert events[..a][1..] == events[1..][..a - 1];
    }
  }

  /** A block that its worker has not put when it fails is never supplied. */
  lemma FailedBlockNeverComes(j: Job, first: Bytes, n: nat, events: seq<Event>, a: nat, off: nat)
    requires j.Valid() && n > 0 && Delivers(j, j.FirstKey(), first)
    requires CanRun(j, Started(j, first, n), events) && a < |events| && events[a].Fail? && events[a].worker < n
    requires off in Dealt(j, n, events[a].worker)
    ensures CanRun(j, Started(j, first, n), events[..a])
    ensures off !in Run(j, Started(j, first, n), events[..a]).supplied ==>
              off !in Run(j, Started(j, first, n), events).supplied
  {
    var s, w := Started(j, first, n), events[a].worker;
    RunPrefix(j, s, events, a);
    forall b | a <= b < |events|
      ensures !(events[b].Put? && events[b].worker == w)
    {
      if a < b {
        FailedWorkerStops(j, s, events, a, b);
      }
    }
    PutsByStop(events, w, a);
    SuppliedAsPut(j, first, n, events[..a], w);
    SuppliedAsPut(j, first, n, events, w);
  }

  lemma {:induction false} RunSnoc(j: Job, s: State, events: seq<Event>, e: Event)
    requires j.Valid() && CanRun(j, s, events)
    ensures CanRun(j, s, events + [e]) <==> Enabled(j, Run(j, s, events), e)
    ensures Enabled(j, Run(j, s, events), e) ==> Run(j, s, events + [e]) == Apply(j, Run(j, s, events), e)
    decreases |events|
  {
    if events == [] {
      assert [] + [e] == [e] && [e][1..] == [];
      if Enabled(j, s, e) {
        RunCons(j, Apply(j, s, e), []);
      }
    } else {
      RunSnoc(j, Apply(j, s, events[0]), events[1..], e);
      assert (events + [e])[1..] == events[1..] + [e];
    }
  }

  lemma {:induction false} WorkersStay(j: Job, s: State, events: seq<Event>)
    requires j.Valid() && CanRun(j, s, events)
    ensures |Run(j, s, events).workers| == |s.workers|
    decreases |events|
  {
    if events == [] {
    } else {
      WorkersStay(j, Apply(j, s, events[0]), events[1..]);
    }
  }

  /** Whether worker `w` is through: it has failed or put every block dealt to it. */
  ghost predicate Through(j: Job, n: nat, events: seq<Event>, w: nat)
    requires j.Valid() && n > 0
  {
    HasFailed(events, w) || |PutsBy(events, w)| == |Dealt(j, n, w)|
  }

  /** A worker that is not through has its next block, behind the probe block, at the front of its list. */
  lemma NextBlock(j: Job, first: Bytes, n: nat, events: seq<Event>, w: nat)
    requires j.Valid() && n > 0 && Delivers(j, j.FirstKey(), first) && w < n
    requires CanRun(j, Started(j, first, n), events)
    ensures var list, next := Run(j, Started(j, first, n), events).workers, |PutsBy(events, w)|;
            && |list| == n && (list[w] == [] <==> Through(j, n, events, w))
            && (list[w] != [] ==> next < |Dealt(j, n, w)| && list[w][0] == Dealt(j, n, w)[next] > j.FirstKey())
  {
    StartedInv(j, first, n);
    StartedLists(j, first, n);
    WorkersStay(j, Started(j, first, n), events);
    RunRecord(j, Started(j, first, n), events, w);
    assert Dealt(j, n, w) == Started(j, first, n).workers[w];
  }

  /** The background goroutine closes the reader as soon as every worker has failed or put all its blocks, and not
      before; the caller can close at any moment; and a worker can fail as long as it is not through. */
  lemma EndsExactlyWhen(j: Job, first: Bytes, n: nat, events: seq<Event>, w: nat, error: Error)
    requires j.Valid() && n > 0 && Delivers(j, j.FirstKey(), first)
    requires CanRun(j, Started(j, first, n), events)
    ensures var s := Started(j, first, n);
            && (CanRun(j, s, events + [AllDone]) <==> forall v :: 0 <= v < n ==> Through(j, n, events, v))
            && (CanRun(j, s, events + [AllDone]) ==> Run(j, s, events + [AllDone]).reader.closed)
            && CanRun(j, s, events + [UserClose]) && Run(j, s, events + [UserClose]).reader.closed
            && (CanRun(j, s, events + [Fail(w, error)]) <==> w < n && !Through(j, n, events, w))
  {
    var s := Started(j, first, n);
    StartedInv(j, first, n);
    RunSnoc(j, s, events, AllDone);
    RunSnoc(j, s, events, UserClose);
    RunSnoc(j, s, events, Fail(w, error));
    WorkersStay(j, s, events);
    forall v | 0 <= v < n
      ensures Run(j, s, events).workers[v] == [] <==> Through(j, n, events, v)
    {
      NextBlock(j, first, n, events, v);
    }
  }

  /** Whatever a worker may have fetched, it can put: after any run, as long as it is not through, any bytes of the
      file from the start of its next block on, at most a block of them. */
  lemma PutsExactlyWhen(j: Job, first: Bytes, n: nat, events: seq<Event>, w: nat, data: Bytes)
    requires j.Valid() && n > 0 && Delivers(j, j.FirstKey(), first) && w < n
    requires CanRun(j, Started(j, first, n), events)
    ensures !Through(j, n, events, w) ==> |PutsBy(events, w)| < |Dealt(j, n, w)|
    ensures CanRun(j, Started(j, first, n), events + [Put(w, data)]) <==>
              && !Through(j, n, events, w)
              && |data| <= j.bs && BytesAt(j.file, Dealt(j, n, w)[|PutsBy(events, w)|], data)
  {
    var s := Started(j, first, n);
    RunSnoc(j, s, events, Put(w, data));
    NextBlock(j, first, n, events, w);
    if !Through(j, n, events, w) {
      PrefixBytes(j.file, Dealt(j, n, w)[|PutsBy(events, w)|], data);
    }
  }

  /** Over every interleaving of worker puts and failures, timeouts, closes and reads of any buffer
      size: the bytes read so far are a prefix of the requested range and `nextOff` counts them, Read
      never slices out of bounds, and a block leaves the buffer only once its last byte is read. */
  lemma OrderedStreamSafety(j: Job, first: Bytes, n: nat, events: seq<Event>, room: nat)
    requires j.Valid() && n > 0 && Delivers(j, j.FirstKey(), first)
    requires CanRun(j, Started(j, first, n), events)
    ensures var s := Run(j, Started(j, first, n), events);
            && s.emitted <= Range(j.file, j.start, j.end)
            && BytesAt(j.file, j.start, s.emitted) && |s.emitted| <= j.end + 1 - j.start
            && s.reader.nextOff == j.start + |s.emitted|
            && s.reader.blkSize == j.bs && !Pass(s.reader, room).1.Panicked?
            && forall k :: k in s.supplied ==>
                 || (k in s.reader.blocks && s.reader.blocks[k] == s.supplied[k])
                 || k + |s.supplied[k]| <= s.reader.nextOff
  {
    StartedInv(j, first, n);
    RunKeeps(j, Started(j, first, n), events);
    var s := Run(j, Started(j, first, n), events);
    ReadKeeps(j, s, room);
    PrefixIsRange(j.file, j.start, j.end, s.emitted);
    PrefixBytes(j.file, j.start, s.emitted);
  }

  /** The hypothesis on the probe block is needed: if the block stops short of the first requested byte,
      as a cached prefix can, the very first Read panics, and only then. */
  lemma FirstReadPanicsExactlyWhen(j: Job, first: Bytes, n: nat, room: nat)
    requires j.Valid() && n > 0
    ensures Pass(Started(j, first, n).reader, room).1.Panicked? <==> j.FirstKey() + |first| < j.start
  {
    RangeBlocksExact(j.start, j.end, j.bs);
  }

  /** Some worker failed with this error. */
  ghost predicate FromWorker(e: Error, events: seq<Event>) {
    exists i :: 0 <= i < |events| && events[i].Fail? && events[i].error == e
  }

  ghost predicate AnyFailed(events: seq<Event>) {
    exists i :: 0 <= i < |events| && events[i].Fail?
  }

  ghost predicate AnyClosed(events: seq<Event>) {
    exists i :: 0 <= i < |events| && (events[i].Fail? || events[i].AllDone? || events[i].UserClose?)
  }

  lemma EventsCons(e: Event, tail: seq<Event>, error: Error)
    ensures AnyFailed([e] + tail) <==> e.Fail? || AnyFailed(tail)
    ensures AnyClosed([e] + tail) <==> e.Fail? || e.AllDone? || e.UserClose? || AnyClosed(tail)
    ensures FromWorker(error, [e] + tail) <==> (e.Fail? && e.error == error) || FromWorker(error, tail)
  {
    var events := [e] + tail;
    assert events[0] == e && forall i :: 0 <= i < |tail| ==> events[i + 1] == tail[i];
    assert forall i :: 1 <= i < |events| ==> events[i] == tail[i - 1];
  }

  /** The recorded error is that of a worker as soon as one has failed, and else what it was or a timeout's. */
  lemma {:induction false} RunErrors(j: Job, s: State, events: seq<Event>)
    requires j.Valid() && Inv(j, s) && CanRun(j, s, events)
    ensures var r := Run(j, s, events).reader;
            && (s.reader.closed || AnyClosed(events) ==> r.closed)
            && (AnyFailed(events) ==> r.err.Some? && FromWorker(r.err.value, events))
            && (!AnyFailed(events) ==> r.err == s.reader.err || (s.reader.err.None? && r.err == Some(UnexpectedEOF)))
    decreases |events|
  {
    if events == [] {
    } else {
      StepKeeps(j, s, events[0]);
      RunErrors(j, Apply(j, s, events[0]), events[1..]);
      var r := Run(j, s, events).reader;
      assert events == [events[0]] + events[1..];
      EventsCons(events[0], events[1..], Recorded(r));
    }
  }

  /** Over every interleaving: a Read that looks at the buffer fails or waits only at a byte that no block has
      supplied; any error, also that of a Read that timed out, is one that a worker reported once a worker
      has failed, and else an unexpected end of file; and once a worker has failed, all are done or the
      caller has closed, no Read starts to wait. */
  lemma ErrorsOnlyAtGaps(j: Job, first: Bytes, n: nat, events: seq<Event>, room: nat)
    requires j.Valid() && n > 0 && Delivers(j, j.FirstKey(), first)
    requires CanRun(j, Started(j, first, n), events)
    ensures var s := Run(j, Started(j, first, n), events);
            s.reader.blkSize > 0 &&
            var out := Pass(s.reader, room).1;
            && (out.Failed? || out.Blocked? ==> s.reader.nextOff <= j.end && !Covered(j, s.supplied, s.reader.nextOff))
            && (out.Failed? ==> out.error == Recorded(s.reader))
            && (if AnyFailed(events) then FromWorker(Recorded(s.reader), events)
                else Recorded(s.reader) == UnexpectedEOF)
            && (out.Blocked? ==> !AnyClosed(events))
  {
    StartedInv(j, first, n);
    RunKeeps(j, Started(j, first, n), events);
    RunErrors(j, Started(j, first, n), events);
  }

  /** The buffer holds the byte at the read position. */
  predicate HeadReady(r: View)
    requires r.blkSize > 0
  {
    var key := KeyOf(r.nextOff, r.blkSize);
    key in r.blocks && r.nextOff < key + |r.blocks[key]|
  }

  /** A Read that times out stands at a byte of the range that was supplied if and only if the buffer holds
      that byte when the Read has the lock again, that is, if and only if looking once more would have
      delivered it. Otherwise the error comes at a gap. */
  lemma TimeOutAtGapExactlyWhen(j: Job, first: Bytes, n: nat, events: seq<Event>)
    requires j.Valid() && n > 0 && Delivers(j, j.FirstKey(), first)
    requires CanRun(j, Started(j, first, n), events)
    requires Enabled(j, Run(j, Started(j, first, n), events), TimeOut)
    ensures var s := Run(j, Started(j, first, n), events);
            && s.reader.nextOff <= j.end && s.reader.blkSize > 0
            && (Covered(j, s.supplied, s.reader.nextOff) <==> HeadReady(s.reader))
            && (HeadReady(s.reader) <==> Pass(s.reader, 1).1.Delivered? && Pass(s.reader, 1).1.bytes != [])
  {
    StartedInv(j, first, n);
    RunKeeps(j, Started(j, first, n), events);
  }

  /** Such an error at a supplied byte can happen whenever a Read waits for a block that a worker is about to put:
      the Read waits, the block comes in, and the timer has fired all the same. */
  lemma TimeOutHidesData(j: Job, s: State, room: nat, w: nat, data: Bytes)
    requires j.Valid() && Inv(j, s) && Pass(s.reader, room).1.Blocked?
    requires w < |s.workers| && s.workers[w] != [] && s.workers[w][0] == KeyOf(s.reader.nextOff, j.bs)
    requires Delivers(j, s.workers[w][0], data) && s.reader.nextOff < s.workers[w][0] + |data|
    ensures var events := [Read(room), Put(w, data), TimeOut];
            && CanRun(j, s, events)
            && var after := Run(j, s, events);
               after.reader.err.Some? && after.reader.blkSize > 0 && HeadReady(after.reader)
  {
    var s1 := Apply(j, s, Read(room));
    var s2 := Apply(j, s1, Put(w, data));
    var s3 := Apply(j, s2, TimeOut);
    RunCons(j, s3, []);
    RunCons(j, s2, [TimeOut]);
    RunCons(j, s1, [Put(w, data), TimeOut]);
    RunCons(j, s, [Read(room), Put(w, data), TimeOut]);
  }

  /** And such a moment is reached by every fetch of two whole blocks: the first Read takes all of the probe
      block, and the next one waits for the second block, which a worker holds. */
  lemma SecondReadWaits(j: Job, first: Bytes, room: nat)
    requires j.Valid() && Aligned(j.start, j.bs) && j.end == j.start + 2 * j.bs - 1
    requires Delivers(j, j.start, first) && |first| == j.bs
    ensures KeyOf(j.start, j.bs) == j.start && Enabled(j, Started(j, first, 1), Read(j.bs))
    ensures var s := Apply(j, Started(j, first, 1), Read(j.bs));
            && Inv(j, s) && Pass(s.reader, room).1.Blocked?
            && s.workers == [[KeyOf(s.reader.nextOff, j.bs)]]
  {
    var second := j.start + j.bs;
    KeyUnique(j.start, j.start, j.bs);
    AlignedNext(j.start, j.bs);
    KeyUnique(second, second, j.bs);
    StartedInv(j, first, 1);
    var s0 := Started(j, first, 1);
    ReadKeeps(j, s0, j.bs);
    assert Offsets(second + j.bs, j.end, j.bs) == [];
    assert Offsets(second, j.end, j.bs) == [second];
    assert Offsets(j.start, j.end, j.bs)[1..] == [second];
    assert Hand([second], 1, 0) == [second] by {
      assert [second][..0] == [];
    }
    assert s0.workers == [[second]];
    assert Pass(s0.reader, j.bs).0.nextOff == second;
  }

  // ---- what a run without failures delivers -------------------------------------------------

  ghost predicate Clean(e: Event) {
    e.Put? || e.AllDone? || e.Read?
  }

  ghost predicate AllClean(events: seq<Event>) {
    forall i :: 0 <= i < |events| ==> Clean(events[i])
  }

  ghost predicate Outstanding(s: State, o: nat) {
    exists w :: 0 <= w < |s.workers| && o in s.workers[w]
  }

  /** Nothing failed, the reader is closed only after the last put, and every planned block is either
      supplied or still to come. */
  ghost predicate CleanInv(j: Job, s: State, plan: set<nat>)
    requires j.Valid()
  {
    && Inv(j, s)
    && s.reader.err.None?
    && (s.reader.closed ==> Idle(s))
    && (forall o :: o in plan ==> o in s.supplied || Outstanding(s, o))
    && s.supplied.Keys <= plan
    && (forall o :: Outstanding(s, o) ==> o in plan)
  }

  lemma CleanStep(j: Job, s: State, plan: set<nat>, e: Event)
    requires j.Valid() && CleanInv(j, s, plan) && Clean(e) && Enabled(j, s, e)
    ensures CleanInv(j, Apply(j, s, e), plan)
  {
    StepKeeps(j, s, e);
    var s' := Apply(j, s, e);
    if e.Put? {
      var off := s.workers[e.worker][0];
      assert off in s.workers[e.worker] && Outstanding(s, off);
      forall o | Outstanding(s, o)
        ensures o == off || Outstanding(s', o)
      {
        var w :| 0 <= w < |s.workers| && o in s.workers[w];
        assert o == off || o in s'.workers[w];
      }
      forall o | Outstanding(s', o)
        ensures Outstanding(s, o)
      {
        var w :| 0 <= w < |s'.workers| && o in s'.workers[w];
        assert o in s.workers[w];
      }
    } else {
      assert forall o :: Outstanding(s', o) <==> Outstanding(s, o);
    }
  }

  lemma {:induction false} CleanRun(j: Job, s: State, plan: set<nat>, events: seq<Event>)
    requires j.Valid() && CleanInv(j, s, plan) && AllClean(events) && CanRun(j, s, events)
    ensures CleanInv(j, Run(j, s, events), plan)
    decreases |events|
  {
    if events == [] {
    } else {
      CleanStep(j, s, plan, events[0]);
      CleanRun(j, Apply(j, s, events[0]), plan, events[1..]);
    }
  }

  /** The workers are through, the background goroutine has closed the reader, and Read gives no more. */
  ghost predicate Settled(s: State) {
    Idle(s) && s.reader.closed && s.reader.blkSize > 0 && !Pass(s.reader, 1).1.Delivered?
  }

  /** A run that settles has read exactly up to the first byte no block supplied: it ends with
      end-of-stream if and only if every byte of the range was supplied, and with an unexpected end of
      file otherwise. */
  lemma SettledOutcome(j: Job, s: State, plan: set<nat>)
    requires j.Valid() && CleanInv(j, s, plan) && Settled(s)
    ensures var out := Pass(s.reader, 1).1;
            var pos := s.reader.nextOff;
            && (out.EndOfStream? <==> forall p :: j.start <= p <= j.end ==> Covered(j, s.supplied, p))
            && (forall p :: j.start <= p < pos ==> Covered(j, s.supplied, p))
            && (!out.EndOfStream? ==> out == Failed(UnexpectedEOF) && pos <= j.end && !Covered(j, s.supplied, pos))
  {
    ReadKeeps(j, s, 1);
    var pos := s.reader.nextOff;
    if pos <= j.end {
      var key := KeyOf(pos, j.bs);
      assert key !in s.reader.blocks;
      assert !Covered(j, s.supplied, pos);
    }
  }

  /** Every supplied block reaches the end of its block or of the range. */
  ghost predicate Full(j: Job, supplied: map<nat, Bytes>)
    requires j.Valid()
  {
    forall k :: k in supplied ==> k + |supplied[k]| >= Min(k + j.bs, j.end + 1)
  }

  lemma FullCovers(j: Job, supplied: map<nat, Bytes>, pos: nat)
    requires j.Valid() && Full(j, supplied) && j.start <= pos <= j.end
    ensures Covered(j, supplied, pos) <==> KeyOf(pos, j.bs) in supplied
  {
  }

  /** Blocks still missing, doubled, plus bytes still to read, plus blocks still buffered. */
  ghost function Work(j: Job, s: State): int {
    2 * Missing(s.workers) + (j.end + 1 - s.reader.nextOff) + |s.reader.blocks|
  }

  ghost function Missing(workers: seq<seq<nat>>): nat {
    if workers == [] then 0 else |workers[0]| + Missing(workers[1..])
  }

  lemma {:induction false} MissingUpdate(workers: seq<seq<nat>>, w: nat)
    requires w < |workers| && workers[w] != []
    ensures Missing(workers[w := workers[w][1..]]) == Missing(workers) - 1
  {
    if w == 0 {
    } else {
      MissingUpdate(workers[1..], w - 1);
      assert workers[w := workers[w][1..]][1..] == workers[1..][w - 1 := workers[1..][w - 1][1..]];
    }
  }

  ghost predicate Productive(s: State, e: Event) {
    e.Put? || (e.Read? && e.room > 0 && s.reader.blkSize > 0 && Pass(s.reader, e.room).1.Delivered?)
  }

  lemma PutWork(j: Job, s: State, w: nat, data: Bytes)
    requires j.Valid() && Enabled(j, s, Put(w, data))
    ensures Work(j, Apply(j, s, Put(w, data))) < Work(j, s)
  {
    MissingUpdate(s.workers, w);
    var b := s.reader.blocks;
    var off := s.workers[w][0];
    var b' := b[off := data];
    assert b'.Keys == b.Keys + {off};
    assert |b'.Keys| <= |b.Keys| + 1;
  }

  lemma PassWork(r: View, room: nat)
    requires r.blkSize > 0
    ensures var (r', out) := Pass(r, room);
            |r'.blocks| - r'.nextOff <= |r.blocks| - r.nextOff
            && (room > 0 && out.Delivered? ==> |r'.blocks| - r'.nextOff < |r.blocks| - r.nextOff)
  {
    var (r', out) := Pass(r, room);
    if out.Delivered? {
      var b, key := r.blocks, KeyOf(r.nextOff, r.blkSize);
      var b' := b - {key};
      assert b'.Keys == b.Keys - {key};
      assert |b'.Keys| == |b.Keys| - 1;
    }
  }

  /** Every put and every read that returns uses up work; no clean step adds any. */
  lemma WorkFalls(j: Job, s: State, e: Event)
    requires j.Valid() && Inv(j, s) && Clean(e) && Enabled(j, s, e)
    ensures 0 <= Work(j, Apply(j, s, e)) <= Work(j, s)
    ensures Productive(s, e) ==> Work(j, Apply(j, s, e)) < Work(j, s)
  {
    StepKeeps(j, s, e);
    match e
    case Put(w, data) => PutWork(j, s, w, data);
    case Read(room) => PassWork(s.reader, room);
    case _ =>
  }

  ghost function ProductiveSteps(j: Job, s: State, events: seq<Event>): nat
    requires j.Valid() && CanRun(j, s, events)
    decreases |events|
  {
    if events == [] then 0
    else (if Productive(s, events[0]) then 1 else 0) + ProductiveSteps(j, Apply(j, s, events[0]), events[1..])
  }

  /** A clean run has at most `Work` productive steps, so it cannot go on for ever. */
  lemma {:induction false} CleanRunsAreShort(j: Job, s: State, plan: set<nat>, events: seq<Event>)
    requires j.Valid() && CleanInv(j, s, plan) && AllClean(events) && CanRun(j, s, events)
    ensures ProductiveSteps(j, s, events) <= Work(j, s)
    decreases |events|
  {
    if events == [] {
      assert 0 <= j.end + 1 - s.reader.nextOff;
    } else {
      CleanStep(j, s, plan, events[0]);
      WorkFalls(j, s, events[0]);
      CleanRunsAreShort(j, Apply(j, s, events[0]), plan, events[1..]);
    }
  }

  /** Every block of `after` was there before or is the one `supply` holds. */
  ghost predicate SuppliedFrom(before: map<nat, Bytes>, after: map<nat, Bytes>, supply: map<nat, Bytes>) {
    forall k :: k in after ==>
      (k in before && after[k] == before[k]) || (k in supply && after[k] == supply[k])
  }

  ghost predicate Settles(j: Job, s: State, events: seq<Event>, supply: map<nat, Bytes>)
    requires j.Valid()
  {
    && CanRun(j, s, events) && AllClean(events)
    && Settled(Run(j, s, events))
    && SuppliedFrom(s.supplied, Run(j, s, events).supplied, supply)
  }

  /** A clean state that has not settled can move on: a worker can put its next block, or the background
      goroutine can close, or Read returns something. */
  lemma NextClean(j: Job, s: State, plan: set<nat>, supply: map<nat, Bytes>) returns (e: Event)
    requires j.Valid() && CleanInv(j, s, plan) && !Settled(s)
    requires forall o :: o in plan ==> o in supply && Delivers(j, o, supply[o])
    ensures Clean(e) && Enabled(j, s, e)
    ensures SuppliedFrom(s.supplied, Apply(j, s, e).supplied, supply)
    ensures Productive(s, e) || (e.AllDone? && !s.reader.closed)
  {
    if w :| 0 <= w < |s.workers| && s.workers[w] != [] {
      var off := s.workers[w][0];
      assert off in s.workers[w] && Outstanding(s, off);
      e := Put(w, supply[off]);
    } else if !s.reader.closed {
      e := AllDone;
    } else {
      e := Read(1);
    }
  }

  lemma SettlesCons(j: Job, s: State, e: Event, rest: seq<Event>, supply: map<nat, Bytes>)
    requires j.Valid() && Clean(e) && Enabled(j, s, e) && SuppliedFrom(s.supplied, Apply(j, s, e).supplied, supply)
    requires Settles(j, Apply(j, s, e), rest, supply)
    ensures Settles(j, s, [e] + rest, supply)
  {
    assert ([e] + rest)[1..] == rest;
    RunCons(j, s, [e] + rest);
  }

  lemma {:induction false} SettlingRun(j: Job, s: State, plan: set<nat>, supply: map<nat, Bytes>)
    returns (events: seq<Event>)
    requires j.Valid() && CleanInv(j, s, plan)
    requires forall o :: o in plan ==> o in supply && Delivers(j, o, supply[o])
    ensures Settles(j, s, events, supply)
    decreases Work(j, s), !s.reader.closed
  {
    if Settled(s) {
      events := [];
    } else {
      var e := NextClean(j, s, plan, supply);
      CleanStep(j, s, plan, e);
      WorkFalls(j, s, e);
      var rest := SettlingRun(j, Apply(j, s, e), plan, supply);
      SettlesCons(j, s, e, rest, supply);
      events := [e] + rest;
    }
  }

  ghost function PlanOf(j: Job): set<nat>
    requires j.Valid()
  {
    AsSet(RangeBlocks(j.start, j.end, j.bs))
  }

  lemma StartedClean(j: Job, first: Bytes, n: nat)
    requires j.Valid() && n > 0 && Delivers(j, j.FirstKey(), first)
    ensures CleanInv(j, Started(j, first, n), PlanOf(j))
  {
    StartedInv(j, first, n);
    var s := Started(j, first, n);
    var offs := RangeBlocks(j.start, j.end, j.bs);
    RangeBlocksExact(j.start, j.end, j.bs);
    forall o | o in offs
      ensures o in s.supplied || Outstanding(s, o)
    {
      assert o == offs[0] || o in offs[1..];
    }
    forall o | Outstanding(s, o)
      ensures o in PlanOf(j)
    {
      assert o in offs[1..];
    }
  }

  /** With full blocks Read cannot fail on the way, and a settled stream is the requested range. */
  lemma FullIsComplete(j: Job, s: State, room: nat)
    requires j.Valid() && j.end < |j.file| && CleanInv(j, s, PlanOf(j)) && Full(j, s.supplied)
    ensures !Pass(s.reader, room).1.Failed? && !Pass(s.reader, room).1.Panicked?
    ensures Settled(s) ==> s.emitted == Range(j.file, j.start, j.end) && |s.emitted| == j.end - j.start + 1
                           && Pass(s.reader, room).1.EndOfStream?
  {
    ReadKeeps(j, s, room);
    var pos := s.reader.nextOff;
    if pos <= j.end {
      RangeBlockOf(j.start, j.end, j.bs, pos);
      var key := KeyOf(pos, j.bs);
      assert key in PlanOf(j);
      FullCovers(j, s.supplied, pos);
      if Idle(s) {
        assert !Outstanding(s, key);
        assert key in s.supplied;
        assert key in s.reader.blocks;
      }
    } else {
      PrefixIsRange(j.file, j.start, j.end, s.emitted);
    }
  }

  /** Completeness of Fetch: with no failure and every block full, Read never fails on the way, and a
      settled stream has delivered exactly the requested bytes, as many as Content-Length declares,
      followed by end-of-stream. */
  lemma FetchIsComplete(j: Job, first: Bytes, n: nat, events: seq<Event>, room: nat)
    requires j.Valid() && n > 0 && j.end < |j.file| && Delivers(j, j.FirstKey(), first)
    requires CanRun(j, Started(j, first, n), events) && AllClean(events)
    requires Full(j, Run(j, Started(j, first, n), events).supplied)
    ensures var s := Run(j, Started(j, first, n), events);
            && s.reader.blkSize > 0
            && !Pass(s.reader, room).1.Failed? && !Pass(s.reader, room).1.Panicked?
            && (Settled(s) ==> s.emitted == Range(j.file, j.start, j.end)
                               && |s.emitted| == j.end - j.start + 1
                               && Pass(s.reader, room).1.EndOfStream?)
  {
    StartedClean(j, first, n);
    CleanRun(j, Started(j, first, n), PlanOf(j), events);
    FullIsComplete(j, Run(j, Started(j, first, n), events), room);
  }

  /** A run that goes on from `s` without failures until all of the range is delivered. */
  ghost predicate Completes(j: Job, s: State, events: seq<Event>)
    requires j.Valid()
  {
    && CanRun(j, s, events) && AllClean(events)
    && Settled(Run(j, s, events)) && Full(j, Run(j, s, events).supplied)
    && Run(j, s, events).emitted == Range(j.file, j.start, j.end)
  }

  /** The block at `off` up to its own end or the range's, as an upstream answers when nothing goes wrong. */
  ghost function WholeBlocks(j: Job): map<nat, Bytes>
    requires j.Valid() && j.end < |j.file|
  {
    map o | o in PlanOf(j) && o <= j.end :: j.file[o..Min(o + j.bs, j.end + 1)]
  }

  lemma WholeBlocksDeliver(j: Job, o: nat)
    requires j.Valid() && j.end < |j.file| && o in PlanOf(j)
    ensures o in WholeBlocks(j) && Delivers(j, o, WholeBlocks(j)[o])
    ensures o + |WholeBlocks(j)[o]| == Min(o + j.bs, j.end + 1)
  {
    RangeBlocksExact(j.start, j.end, j.bs);
    assert o in RangeBlocks(j.start, j.end, j.bs);
  }

  lemma SuppliedFromFull(j: Job, before: map<nat, Bytes>, after: map<nat, Bytes>)
    requires j.Valid() && j.end < |j.file| && after.Keys <= PlanOf(j)
    requires Full(j, before) && SuppliedFrom(before, after, WholeBlocks(j))
    ensures Full(j, after)
  {
    forall k | k in after
      ensures k + |after[k]| >= Min(k + j.bs, j.end + 1)
    {
      WholeBlocksDeliver(j, k);
    }
  }

  /** No deadlock and no dead end: however far a run without failures has come with full blocks, it can go on
      until the whole range is delivered. */
  lemma CleanRunsCanComplete(j: Job, s: State)
    requires j.Valid() && j.end < |j.file| && CleanInv(j, s, PlanOf(j)) && Full(j, s.supplied)
    ensures exists events :: Completes(j, s, events)
  {
    var supply := WholeBlocks(j);
    forall o | o in PlanOf(j)
      ensures o in supply && Delivers(j, o, supply[o])
    {
      WholeBlocksDeliver(j, o);
    }
    var events := SettlingRun(j, s, PlanOf(j), supply);
    CleanRun(j, s, PlanOf(j), events);
    SuppliedFromFull(j, s.supplied, Run(j, s, events).supplied);
    FullIsComplete(j, Run(j, s, events), 1);
    assert Completes(j, s, events);
  }

  /** In particular a fetch whose probe block is full can be completed from its start. */
  lemma FetchCanComplete(j: Job, first: Bytes, n: nat)
    requires j.Valid() && n > 0 && j.end < |j.file| && Delivers(j, j.FirstKey(), first)
    requires j.FirstKey() + |first| >= Min(j.FirstKey() + j.bs, j.end + 1)
    ensures exists events :: Completes(j, Started(j, first, n), events)
  {
    RangeBlocksExact(j.start, j.end, j.bs);
    StartedClean(j, first, n);
    CleanRunsCanComplete(j, Started(j, first, n));
  }

  /** And the other way round: a settled stream is complete only if every block it used was full. */
  lemma CompleteOnlyIfFull(j: Job, first: Bytes, n: nat, events: seq<Event>)
    requires j.Valid() && n > 0 && Delivers(j, j.FirstKey(), first)
    requires CanRun(j, Started(j, first, n), events) && AllClean(events)
    requires Settled(Run(j, Started(j, first, n), events))
    requires |Run(j, Started(j, first, n), events).emitted| == j.end - j.start + 1
    ensures Full(j, Run(j, Started(j, first, n), events).supplied)
  {
    StartedClean(j, first, n);
    CleanRun(j, Started(j, first, n), PlanOf(j), events);
    CoveredIsFull(j, Run(j, Started(j, first, n), events).supplied);
  }

  lemma CoveredIsFull(j: Job, supplied: map<nat, Bytes>)
    requires j.Valid() && supplied.Keys <= PlanOf(j)
    requires forall p :: j.start <= p <= j.end ==> Covered(j, supplied, p)
    ensures Full(j, supplied)
  {
    RangeBlocksExact(j.start, j.end, j.bs);
    forall k | k in supplied
      ensures k + |supplied[k]| >= Min(k + j.bs, j.end + 1)
    {
      var p := Min(k + j.bs, j.end + 1) - 1;
      assert k in PlanOf(j) && k in RangeBlocks(j.start, j.end, j.bs);
      KeyUnique(p, k, j.bs);
      assert Covered(j, supplied, p);
    }
  }
}
