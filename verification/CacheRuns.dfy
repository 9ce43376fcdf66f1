/** Everything that touches the cache, interleaved statement by statement: fetches that later put their
    block, cache hits, pins, releases and the evictor. */
module CacheRuns {
  import opened Basics
  import opened Blocks
  import opened Store
  import opened Cache
  import opened Fallback
  import FetchBlock
  import Handler
  import Preloader
  import Reader
  import Stream

  /** What every file holds, by sub-source, path and version. */
  type Content = (string, string, string) -> Bytes

  datatype Config = Config(maxSize: int, bs: nat)

  /** A fetched block on its way into the cache; `admitted` once Put has seen a total below the limit. */
  datatype Writer = Writer(key: BlockKey, data: Bytes, admitted: bool)

  datatype Hold = Hold(key: BlockKey, released: bool)

  datatype World = World(blocks: Table, refs: Refs, holds: map<nat, Hold>, writers: map<nat, Writer>)

  datatype Event =
    | FromUpstream(id: nat, key: BlockKey, end: nat, count: nat)
    | FromBody(id: nat, key: BlockKey)
    | FromCache(id: nat, key: BlockKey)
    | Check(id: nat)
    | Write(id: nat, now: int)
    | Used(key: BlockKey, now: int)
    | Acquire(id: nat, key: BlockKey)
    | Release(id: nat)
    | Evict(key: BlockKey)

  function FileOf(content: Content, k: BlockKey): Bytes {
    content(k.subKey, k.filePath, k.version)
  }

  /** The first byte of a block. */
  function Offset(cfg: Config, k: BlockKey): nat {
    k.blockIdx * cfg.bs
  }

  /** The first `count` bytes of a block. */
  function Head(content: Content, cfg: Config, k: BlockKey, count: nat): Bytes {
    var file := FileOf(content, k);
    var off := Offset(cfg, k);
    file[Min(off, |file|)..Min(off + count, |file|)]
  }

  predicate Enabled(cfg: Config, w: World, e: Event) {
    match e
    case FromUpstream(id, key, end, count) =>
      // a 206 body of a request clamped to `end`, possibly cut short
      id !in w.writers && Offset(cfg, key) <= end && count <= Min(cfg.bs, end + 1 - Offset(cfg, key))
    case FromBody(id, _) => id !in w.writers
    case FromCache(id, key) => id !in w.writers && key in w.blocks
    case Check(id) => id in w.writers && !w.writers[id].admitted
    case Write(id, _) => id in w.writers && w.writers[id].admitted
    case Used(_, _) => true
    case Acquire(id, _) => id !in w.holds
    case Release(id) => id in w.holds
    case Evict(_) => true
  }

  ghost function Apply(content: Content, cfg: Config, w: World, e: Event): World
    requires Enabled(cfg, w, e)
  {
    match e
    case FromUpstream(id, key, _, count) =>
      w.(writers := w.writers[id := Writer(key, Head(content, cfg, key, count), false)])
    case FromBody(id, key) =>
      w.(writers := w.writers[id := Writer(key, Slice(FileOf(content, key), Offset(cfg, key), cfg.bs), false)])
    case FromCache(id, key) =>
      w.(writers := w.writers[id := Writer(key, w.blocks[key].data, false)])
    case Check(id) =>
      if Total(w.blocks) >= HardLimit(cfg.maxSize) then w.(writers := w.writers - {id})
      else w.(writers := w.writers[id := w.writers[id].(admitted := true)])
    case Write(id, now) =>
      var x := w.writers[id];
      w.(blocks := Upsert(w.blocks, x.key, Truncated(x.data, cfg.bs), now), writers := w.writers - {id})
    case Used(key, now) => w.(blocks := Touch(w.blocks, key, now))
    case Acquire(id, key) =>
      w.(refs := Pin(w.refs, RefKeyFromStore(key)), holds := w.holds[id := Hold(key, false)])
    case Release(id) =>
      var h := w.holds[id];
      if h.released then w
      else w.(refs := Unpin(w.refs, RefKeyFromStore(h.key)), holds := w.holds[id := h.(released := true)])
    case Evict(key) => w.(blocks := TryEvicted(w.blocks, w.refs, key))
  }

  ghost predicate CanRun(content: Content, cfg: Config, w: World, events: seq<Event>)
    decreases |events|
  {
    events == [] ||
    (Enabled(cfg, w, events[0]) && CanRun(content, cfg, Apply(content, cfg, w, events[0]), events[1..]))
  }

  ghost function Run(content: Content, cfg: Config, w: World, events: seq<Event>): World
    requires CanRun(content, cfg, w, events)
    decreases |events|
  {
    if events == [] then w else Run(content, cfg, Apply(content, cfg, w, events[0]), events[1..])
  }

  lemma RunCons(content: Content, cfg: Config, w: World, e: Event, rest: seq<Event>)
    requires Enabled(cfg, w, e) && CanRun(content, cfg, Apply(content, cfg, w, e), rest)
    ensures CanRun(content, cfg, w, [e] + rest)
    ensures Run(content, cfg, w, [e] + rest) == Run(content, cfg, Apply(content, cfg, w, e), rest)
  {
    assert ([e] + rest)[1..] == rest;
  }

  lemma {:induction false} RunConcat(content: Content, cfg: Config, w: World, a: seq<Event>, b: seq<Event>)
    ensures CanRun(content, cfg, w, a + b) <==>
              CanRun(content, cfg, w, a) && CanRun(content, cfg, Run(content, cfg, w, a), b)
    ensures CanRun(content, cfg, w, a + b) ==>
              Run(content, cfg, w, a + b) == Run(content, cfg, Run(content, cfg, w, a), b)
    decreases |a|
  {
    if a == [] {
      assert a + b == b;
    } else {
      assert (a + b)[1..] == a[1..] + b;
      if Enabled(cfg, w, a[0]) {
        RunConcat(content, cfg, Apply(content, cfg, w, a[0]), a[1..], b);
      }
    }
  }

  /** A Get renews the time of its block and nothing else. */
  lemma UsedLikeGet(content: Content, cfg: Config, w: World, key: BlockKey, now: int)
    ensures Apply(content, cfg, w, Used(key, now))
            == w.(blocks := if key in w.blocks then w.blocks[key := Block(w.blocks[key].data, now)] else w.blocks)
  {
  }

  /** A fetch that checks and writes without interference does what Cache.Put does. */
  lemma AloneLikePut(content: Content, cfg: Config, w: World, id: nat, now: int)
    requires Enabled(cfg, w, Check(id))
    ensures var x := w.writers[id];
            var checked := Apply(content, cfg, w, Check(id));
            var skip := Total(w.blocks) >= HardLimit(cfg.maxSize);
            && Enabled(cfg, checked, Write(id, now)) == !skip
            && (if skip then checked else Apply(content, cfg, checked, Write(id, now))).blocks
               == if skip then w.blocks else Upsert(w.blocks, x.key, Truncated(x.data, cfg.bs), now)
  {
  }

  const EMPTY := World(map[], map[], map[], map[])

  // ---- pin safety ---------------------------------------------------------------------------

  /** The handles not yet released whose block has this reference key. */
  ghost function Holders(holds: map<nat, Hold>, key: string): set<nat> {
    set id | id in holds && !holds[id].released && RefKeyFromStore(holds[id].key) == key
  }

  /** Each count is the number of unreleased handles under its key, and entries at zero are gone. */
  ghost predicate PinsCounted(w: World) {
    forall key :: Count(w.refs, key) == |Holders(w.holds, key)| && (key in w.refs <==> Count(w.refs, key) > 0)
  }

  lemma HoldersAdd(holds: map<nat, Hold>, id: nat, b: BlockKey, key: string)
    requires id !in holds
    ensures |Holders(holds[id := Hold(b, false)], key)|
            == |Holders(holds, key)| + if RefKeyFromStore(b) == key then 1 else 0
  {
    var after := Holders(holds[id := Hold(b, false)], key);
    assert after == Holders(holds, key) + if RefKeyFromStore(b) == key then {id} else {};
  }

  lemma HoldersDrop(holds: map<nat, Hold>, id: nat, key: string)
    requires id in holds && !holds[id].released
    ensures |Holders(holds[id := holds[id].(released := true)], key)|
            == |Holders(holds, key)| - if RefKeyFromStore(holds[id].key) == key then 1 else 0
  {
    var after := Holders(holds[id := holds[id].(released := true)], key);
    assert after == Holders(holds, key) - if RefKeyFromStore(holds[id].key) == key then {id} else {};
  }

  lemma AcquireKeeps(content: Content, cfg: Config, w: World, id: nat, b: BlockKey)
    requires PinsCounted(w) && Enabled(cfg, w, Acquire(id, b))
    ensures PinsCounted(Apply(content, cfg, w, Acquire(id, b)))
  {
    var w' := Apply(content, cfg, w, Acquire(id, b));
    forall key
      ensures Count(w'.refs, key) == |Holders(w'.holds, key)| && (key in w'.refs <==> Count(w'.refs, key) > 0)
    {
      assert Count(w.refs, key) == |Holders(w.holds, key)|;
      HoldersAdd(w.holds, id, b, key);
    }
  }

  lemma ReleaseKeeps(content: Content, cfg: Config, w: World, id: nat)
    requires PinsCounted(w) && Enabled(cfg, w, Release(id)) && !w.holds[id].released
    ensures PinsCounted(Apply(content, cfg, w, Release(id)))
  {
    var w' := Apply(content, cfg, w, Release(id));
    forall key
      ensures Count(w'.refs, key) == |Holders(w'.holds, key)| && (key in w'.refs <==> Count(w'.refs, key) > 0)
    {
      assert Count(w.refs, key) == |Holders(w.holds, key)|;
      HoldersDrop(w.holds, id, key);
    }
  }

  lemma PinStep(content: Content, cfg: Config, w: World, e: Event)
    requires PinsCounted(w) && Enabled(cfg, w, e)
    ensures PinsCounted(Apply(content, cfg, w, e))
  {
    match e
    case Acquire(id, b) => AcquireKeeps(content, cfg, w, id, b);
    case Release(id) =>
      if !w.holds[id].released {
        ReleaseKeeps(content, cfg, w, id);
      }
    case _ =>
  }

  /** A block with an unreleased handle survives whatever happens next, also when reference keys collide. */
  lemma HeldBlockStays(content: Content, cfg: Config, w: World, e: Event, id: nat)
    requires PinsCounted(w) && Enabled(cfg, w, e)
    requires id in w.holds && !w.holds[id].released && w.holds[id].key in w.blocks
    ensures w.holds[id].key in Apply(content, cfg, w, e).blocks
  {
    var key := RefKeyFromStore(w.holds[id].key);
    assert id in Holders(w.holds, key);
    assert Count(w.refs, key) > 0;
  }

  lemma {:induction false} PinRun(content: Content, cfg: Config, w: World, events: seq<Event>)
    requires PinsCounted(w) && CanRun(content, cfg, w, events)
    ensures PinsCounted(Run(content, cfg, w, events))
    decreases |events|
  {
    if events == [] {
    } else {
      PinStep(content, cfg, w, events[0]);
      PinRun(content, cfg, Apply(content, cfg, w, events[0]), events[1..]);
    }
  }

  /** From an empty cache, after any interleaving: the counts are exact, and the next step, whatever it is,
      keeps every block that is held. */
  lemma PinSafety(content: Content, cfg: Config, events: seq<Event>, e: Event, id: nat)
    requires CanRun(content, cfg, EMPTY, events) && Enabled(cfg, Run(content, cfg, EMPTY, events), e)
    ensures var w := Run(content, cfg, EMPTY, events);
            && PinsCounted(w)
            && (id in w.holds && !w.holds[id].released && w.holds[id].key in w.blocks ==>
                  w.holds[id].key in Apply(content, cfg, w, e).blocks)
  {
    assert forall key :: Holders(EMPTY.holds, key) == {};
    PinRun(content, cfg, EMPTY, events);
    var w := Run(content, cfg, EMPTY, events);
    if id in w.holds && !w.holds[id].released && w.holds[id].key in w.blocks {
      HeldBlockStays(content, cfg, w, e, id);
    }
  }

  lemma {:induction false} HeldStays(content: Content, cfg: Config, w: World, events: seq<Event>, id: nat)
    requires PinsCounted(w) && CanRun(content, cfg, w, events)
    requires id in w.holds && !w.holds[id].released && w.holds[id].key in w.blocks
    requires forall i :: 0 <= i < |events| ==> events[i] != Release(id)
    ensures w.holds[id].key in Run(content, cfg, w, events).blocks
    decreases |events|
  {
    if events == [] {
    } else {
      PinStep(content, cfg, w, events[0]);
      HeldBlockStays(content, cfg, w, events[0], id);
      HeldStays(content, cfg, Apply(content, cfg, w, events[0]), events[1..], id);
    }
  }

  /** From an empty cache: a block that is stored when it is acquired stays stored, whatever comes, as long as that
      handle is not released. */
  lemma StoredUntilReleased(content: Content, cfg: Config, before: seq<Event>, id: nat, key: BlockKey,
                            after: seq<Event>)
    requires CanRun(content, cfg, EMPTY, before) && key in Run(content, cfg, EMPTY, before).blocks
    requires CanRun(content, cfg, EMPTY, before + ([Acquire(id, key)] + after))
    requires forall i :: 0 <= i < |after| ==> after[i] != Release(id)
    ensures key in Run(content, cfg, EMPTY, before + ([Acquire(id, key)] + after)).blocks
  {
    assert forall key :: Holders(EMPTY.holds, key) == {};
    PinRun(content, cfg, EMPTY, before);
    var w := Run(content, cfg, EMPTY, before);
    var rest := [Acquire(id, key)] + after;
    RunConcat(content, cfg, EMPTY, before, rest);
    assert rest[0] == Acquire(id, key) && rest[1..] == after;
    PinStep(content, cfg, w, rest[0]);
    HeldStays(content, cfg, Apply(content, cfg, w, rest[0]), after, id);
  }

  /** A handle not released comes from an acquisition that no release followed. */
  lemma {:induction false} HandleFrom(content: Content, cfg: Config, w: World, events: seq<Event>, id: nat)
    requires CanRun(content, cfg, w, events)
    requires id in Run(content, cfg, w, events).holds && !Run(content, cfg, w, events).holds[id].released
    ensures var key := Run(content, cfg, w, events).holds[id].key;
            || (w.holds.Keys >= {id} && w.holds[id] == Hold(key, false) && Release(id) !in events)
            || exists i :: 0 <= i < |events| && events[i] == Acquire(id, key) && Release(id) !in events[i + 1..]
    decreases |events|
  {
    if events == [] {
    } else {
      var w1, rest := Apply(content, cfg, w, events[0]), events[1..];
      var key := Run(content, cfg, w, events).holds[id].key;
      HandleFrom(content, cfg, w1, rest, id);
      if i :| 0 <= i < |rest| && rest[i] == Acquire(id, key) && Release(id) !in rest[i + 1..] {
        assert events[i + 1] == rest[i] && events[i + 1 + 1..] == rest[i + 1..];
      } else if id in w.holds {
        assert events[0] != Release(id);
        assert forall e :: e in events ==> e == events[0] || e in rest;
      } else {
        assert events[0] == Acquire(id, key) && events[0 + 1..] == rest;
      }
    }
  }

  lemma PinnedExactlyWhenHeld(w: World, b: BlockKey)
    requires PinsCounted(w)
    ensures Pinned(w.refs, b) <==> Holders(w.holds, RefKeyFromStore(b)) != {}
  {
    assert Count(w.refs, RefKeyFromStore(b)) == |Holders(w.holds, RefKeyFromStore(b))|;
  }

  /** And the other way round: once every handle under its reference key has been released, an eviction removes
      the block. */
  lemma EvictedOnceReleased(content: Content, cfg: Config, events: seq<Event>, key: BlockKey)
    requires CanRun(content, cfg, EMPTY, events)
    requires forall i ::
               (0 <= i < |events| && events[i].Acquire? && RefKeyFromStore(events[i].key) == RefKeyFromStore(key)) ==>
                 Release(events[i].id) in events[i + 1..]
    ensures CanRun(content, cfg, EMPTY, events + [Evict(key)])
    ensures var before, after := Run(content, cfg, EMPTY, events), Run(content, cfg, EMPTY, events + [Evict(key)]);
            after == before.(blocks := before.blocks - {key})
  {
    assert forall key :: Holders(EMPTY.holds, key) == {};
    PinRun(content, cfg, EMPTY, events);
    var w := Run(content, cfg, EMPTY, events);
    forall id
      ensures id !in Holders(w.holds, RefKeyFromStore(key))
    {
      if id in Holders(w.holds, RefKeyFromStore(key)) {
        HandleFrom(content, cfg, EMPTY, events, id);
      }
    }
    PinnedExactlyWhenHeld(w, key);
    var w' := Apply(content, cfg, w, Evict(key));
    assert CanRun(content, cfg, w', []) && Run(content, cfg, w', []) == w';
    RunCons(content, cfg, w, Evict(key), []);
    assert [Evict(key)] + [] == [Evict(key)];
    RunConcat(content, cfg, EMPTY, events, [Evict(key)]);
  }

  // ---- the size bound -----------------------------------------------------------------------

  ghost function InFlight(w: World): set<nat> {
    set id | id in w.writers && w.writers[id].admitted
  }

  /** No more than `k` writers are past the check at any point of the run. */
  ghost predicate AtMost(content: Content, cfg: Config, w: World, events: seq<Event>, k: nat)
    requires CanRun(content, cfg, w, events)
    decreases |events|
  {
    |InFlight(w)| <= k &&
    (events != [] ==> AtMost(content, cfg, Apply(content, cfg, w, events[0]), events[1..], k))
  }

  /** Room is left for every writer that could still be in flight. */
  ghost predicate Bounded(cfg: Config, w: World, k: nat) {
    Total(w.blocks) + |InFlight(w)| * cfg.bs <= HardLimit(cfg.maxSize) - 1 + k * cfg.bs
  }

  lemma CheckKeepsBound(content: Content, cfg: Config, w: World, id: nat, k: nat)
    requires Enabled(cfg, w, Check(id)) && Bounded(cfg, w, k)
    requires |InFlight(Apply(content, cfg, w, Check(id)))| <= k
    ensures Bounded(cfg, Apply(content, cfg, w, Check(id)), k)
  {
    var w' := Apply(content, cfg, w, Check(id));
    if Total(w.blocks) >= HardLimit(cfg.maxSize) {
      assert InFlight(w') == InFlight(w);
    } else {
      TimesMonotone(|InFlight(w')|, k, cfg.bs);
    }
  }

  lemma WriteKeepsBound(content: Content, cfg: Config, w: World, id: nat, now: int, k: nat)
    requires Enabled(cfg, w, Write(id, now)) && Bounded(cfg, w, k)
    ensures Bounded(cfg, Apply(content, cfg, w, Write(id, now)), k)
  {
    var w' := Apply(content, cfg, w, Write(id, now));
    var x := w.writers[id];
    var data := Truncated(x.data, cfg.bs);
    TotalUpsert(w.blocks, x.key, Block(data, now));
    assert Total(w'.blocks) <= Total(w.blocks) + cfg.bs;
    assert InFlight(w') == InFlight(w) - {id};
    var n := |InFlight(w)|;
    assert |InFlight(w')| == n - 1;
    assert (n - 1) * cfg.bs == n * cfg.bs - cfg.bs;
  }

  lemma SizeStep(content: Content, cfg: Config, w: World, e: Event, k: nat)
    requires Enabled(cfg, w, e) && Bounded(cfg, w, k)
    requires |InFlight(Apply(content, cfg, w, e))| <= k
    ensures Bounded(cfg, Apply(content, cfg, w, e), k)
  {
    var w' := Apply(content, cfg, w, e);
    match e
    case Check(id) => CheckKeepsBound(content, cfg, w, id, k);
    case Write(id, now) => WriteKeepsBound(content, cfg, w, id, now, k);
    case _ =>
      assert InFlight(w') == InFlight(w);
      OthersShrink(content, cfg, w, e);
  }

  /** Nothing but a write makes the total grow. */
  lemma OthersShrink(content: Content, cfg: Config, w: World, e: Event)
    requires Enabled(cfg, w, e) && !e.Write?
    ensures Total(Apply(content, cfg, w, e).blocks) <= Total(w.blocks)
  {
    match e
    case Used(key, now) =>
      if key in w.blocks {
        TotalUpsert(w.blocks, key, w.blocks[key].(lastUsed := now));
      }
    case Evict(key) =>
      if key in w.blocks {
        TotalRemove(w.blocks, key);
      } else {
        assert w.blocks - {key} == w.blocks;
      }
    case _ =>
  }

  lemma {:induction false} SizeRun(content: Content, cfg: Config, w: World, events: seq<Event>, k: nat)
    requires CanRun(content, cfg, w, events) && Bounded(cfg, w, k) && AtMost(content, cfg, w, events, k)
    ensures Bounded(cfg, Run(content, cfg, w, events), k)
    decreases |events|
  {
    if events == [] {
    } else {
      SizeStep(content, cfg, w, events[0], k);
      SizeRun(content, cfg, Apply(content, cfg, w, events[0]), events[1..], k);
    }
  }

  /** From an empty cache, with at most `k` Puts between check and write at any time, the total never exceeds
      the hard limit less one by more than `k` blocks, however upserts, evictions and reads interleave. */
  lemma SizeBound(content: Content, cfg: Config, events: seq<Event>, k: nat)
    requires cfg.maxSize >= 1
    requires CanRun(content, cfg, EMPTY, events) && AtMost(content, cfg, EMPTY, events, k)
    ensures Total(Run(content, cfg, EMPTY, events).blocks) <= cfg.maxSize * 3 / 2 - 1 + k * cfg.bs
  {
    assert InFlight(EMPTY) == {};
    TimesMonotone(0, k, cfg.bs);
    SizeRun(content, cfg, EMPTY, events, k);
    TimesMonotone(0, |InFlight(Run(content, cfg, EMPTY, events))|, cfg.bs);
  }

  // ---- agreement with the files -------------------------------------------------------------

  ghost predicate Agrees(content: Content, cfg: Config, k: BlockKey, data: Bytes) {
    PrefixAt(FileOf(content, k), Offset(cfg, k), data) && |data| <= cfg.bs
  }

  ghost predicate CacheAgrees(content: Content, cfg: Config, w: World) {
    && (forall k :: k in w.blocks ==> Agrees(content, cfg, k, w.blocks[k].data))
    && (forall id :: id in w.writers ==> Agrees(content, cfg, w.writers[id].key, w.writers[id].data))
  }

  lemma AgreementStep(content: Content, cfg: Config, w: World, e: Event)
    requires CacheAgrees(content, cfg, w) && Enabled(cfg, w, e)
    ensures CacheAgrees(content, cfg, Apply(content, cfg, w, e))
  {
    var w' := Apply(content, cfg, w, e);
    match e
    case FromUpstream(id, key, _, _) => assert Agrees(content, cfg, key, w'.writers[id].data);
    case FromBody(id, key) => assert Agrees(content, cfg, key, w'.writers[id].data);
    case FromCache(id, key) => assert Agrees(content, cfg, key, w.blocks[key].data);
    case Write(id, _) => assert Agrees(content, cfg, w.writers[id].key, w.writers[id].data);
    case _ =>
  }

  /** Whatever was fetched, re-put or evicted, every stored block is a prefix of the file's block of that
      index, under the file's own version. */
  lemma {:induction false} Agreement(content: Content, cfg: Config, w: World, events: seq<Event>)
    requires CacheAgrees(content, cfg, w) && CanRun(content, cfg, w, events)
    ensures CacheAgrees(content, cfg, Run(content, cfg, w, events))
    decreases |events|
  {
    if events == [] {
    } else {
      AgreementStep(content, cfg, w, events[0]);
      Agreement(content, cfg, Apply(content, cfg, w, events[0]), events[1..]);
    }
  }

  // ---- what Fetch puts into the cache -------------------------------------------------------

  /** The key a range request uses for the block at offset `o` of the file of `k`. */
  function At(cfg: Config, k: BlockKey, o: nat): BlockKey
    requires cfg.bs > 0
  {
    k.(blockIdx := BlockIndex(o, cfg.bs))
  }

  lemma AtOffset(cfg: Config, k: BlockKey, o: nat)
    requires cfg.bs > 0 && Aligned(o, cfg.bs)
    ensures Offset(cfg, At(cfg, k, o)) == o
  {
    KeyIsAligned(o, cfg.bs);
  }

  function StoredAt(w: World, key: BlockKey): Option<Bytes> {
    if key in w.blocks then Some(w.blocks[key].data) else None
  }

  /** A step of the machine that brings `data` on its way into the cache under `key`. */
  ghost predicate Brings(content: Content, cfg: Config, w: World, e: Event, id: nat, key: BlockKey, data: Bytes) {
    Enabled(cfg, w, e) && Apply(content, cfg, w, e) == w.(writers := w.writers[id := Writer(key, data, false)])
  }

  /** Whatever FetchBlock gives for a block of a range, Fetch's put of it under `off / bs` is a step of the
      machine. */
  lemma FetchedIsStep(content: Content, cfg: Config, w: World, id: nat, k: BlockKey, start: nat, end: nat, off: nat,
                      data: Bytes)
    requires cfg.bs > 0 && start <= end && off in RangeBlocks(start, end, cfg.bs) && id !in w.writers
    requires FetchBlock.Answers(StoredAt(w, At(cfg, k, off)), FileOf(content, k), off, cfg.bs, end, data)
    ensures exists e :: Brings(content, cfg, w, e, id, At(cfg, k, off), data)
  {
    RangeBlocksExact(start, end, cfg.bs);
    AtOffset(cfg, k, off);
    var key := At(cfg, k, off);
    if key in w.blocks {
      assert Brings(content, cfg, w, FromCache(id, key), id, key, data);
    } else {
      assert Head(content, cfg, key, |data|) == data;
      assert Brings(content, cfg, w, FromUpstream(id, key, end, |data|), id, key, data);
    }
  }

  /** And so is every put of the whole-file fallback, of whole blocks of the body. */
  lemma ChunkIsStep(content: Content, cfg: Config, w: World, id: nat, k: BlockKey, taken: int, blocks: map<nat, Bytes>,
                    chunks: seq<(nat, Bytes)>, i: nat)
    requires cfg.bs > 0 && CutUp(FileOf(content, k), cfg.bs, taken, blocks, chunks)
    requires i < |chunks| && id !in w.writers
    ensures var (idx, data) := chunks[i];
            Brings(content, cfg, w, FromBody(id, k.(blockIdx := idx)), id, k.(blockIdx := idx), data)
  {
    var file, off := FileOf(content, k), i * cfg.bs;
    assert Offset(cfg, k.(blockIdx := i)) == off;
    assert chunks[i].0 == i && chunks[i].1 == file[off..Min(off + cfg.bs, |file|)];
  }

  // ---- cache hits after any run -------------------------------------------------------------

  /** At some moment of the run the cache held `data` under `key`. */
  ghost predicate Held(content: Content, cfg: Config, events: seq<Event>, key: BlockKey, data: Bytes) {
    exists n :: HeldAfter(content, cfg, events, n, key, data)
  }

  ghost predicate HeldAfter(content: Content, cfg: Config, events: seq<Event>, n: int, key: BlockKey, data: Bytes) {
    && 0 <= n <= |events|
    && CanRun(content, cfg, EMPTY, events[..n])
    && StoredAt(Run(content, cfg, EMPTY, events[..n]), key) == Some(data)
  }

  /** What the all-hit check of a range may gather during a run: a block of each index, each as the cache held
      it at some moment, not all at the same one. */
  ghost predicate Gathers(content: Content, cfg: Config, events: seq<Event>, k: BlockKey, start: nat, end: nat,
                          hits: map<nat, Bytes>)
    requires cfg.bs > 0
  {
    && hits.Keys == AsSet(RangeBlocks(start, end, cfg.bs))
    && forall o :: o in hits ==> Held(content, cfg, events, At(cfg, k, o), hits[o])
  }

  lemma GathersPrefixes(content: Content, cfg: Config, events: seq<Event>, k: BlockKey, start: nat, end: nat,
                        hits: map<nat, Bytes>)
    requires cfg.bs > 0 && start <= end && Gathers(content, cfg, events, k, start, end, hits)
    ensures Handler.Cached(FileOf(content, k), hits, start, end, cfg.bs)
  {
    RangeBlocksExact(start, end, cfg.bs);
    forall o | o in hits
      ensures PrefixAt(FileOf(content, k), o, hits[o]) && |hits[o]| <= cfg.bs
    {
      var key := At(cfg, k, o);
      var n :| HeldAfter(content, cfg, events, n, key, hits[o]);
      Agreement(content, cfg, EMPTY, events[..n]);
      AtOffset(cfg, k, o);
      assert Agrees(content, cfg, key, hits[o]);
    }
  }

  /** In any run from the empty cache, with writes, evictions and renewals between the Gets as they come: what
      the check gathers for a range reaches the client as exactly the requested bytes if and only if it is
      servable, and otherwise as fewer bytes than Content-Length declares. */
  lemma HitServedExactlyWhen(content: Content, cfg: Config, events: seq<Event>, k: BlockKey, start: nat, end: nat,
                             hits: map<nat, Bytes>)
    requires cfg.bs > 0 && Gathers(content, cfg, events, k, start, end, hits)
    requires start <= end < |FileOf(content, k)|
    ensures var file, off := FileOf(content, k), KeyOf(start, cfg.bs);
            var sent := Handler.Sent(hits, off, start, end, cfg.bs, end + 1 - start);
            && (sent == Some(Range(file, start, end)) <==> Handler.Servable(hits, start, end, cfg.bs))
            && (Handler.LongEnough(sent, start, end) <==> Handler.Servable(hits, start, end, cfg.bs))
            && (Handler.Flushed(hits, off, start, end, cfg.bs) == Some(Range(file, start, end))
                <==> Handler.Servable(hits, start, end, cfg.bs))
  {
    GathersPrefixes(content, cfg, events, k, start, end, hits);
    Handler.FlushExactlyWhen(FileOf(content, k), hits, start, end, cfg.bs);
    Handler.NeverShortExactlyWhen(FileOf(content, k), hits, start, end, cfg.bs);
  }

  function FirstByteOnly(k: BlockKey): seq<Event> {
    [FromUpstream(0, k, 0, 1), Check(0), Write(0, 0)]
  }

  /** A request for byte 0 alone leaves a one-byte block 0 behind. */
  lemma OneByteStored(content: Content, cfg: Config, k: BlockKey)
    requires cfg.maxSize >= 1 && cfg.bs >= 1 && k.blockIdx == 0 && |FileOf(content, k)| >= 1
    ensures CanRun(content, cfg, EMPTY, FirstByteOnly(k))
    ensures Run(content, cfg, EMPTY, FirstByteOnly(k)).blocks == map[k := Block(FileOf(content, k)[..1], 0)]
  {
    var events := FirstByteOnly(k);
    var fetched := Apply(content, cfg, EMPTY, events[0]);
    assert Total(fetched.blocks) == 0 && HardLimit(cfg.maxSize) >= 1;
    var admitted := Apply(content, cfg, fetched, events[1]);
    var w := Apply(content, cfg, admitted, events[2]);
    assert events[1..][1..] == [events[2]] && events[1..][1..][1..] == [];
    assert CanRun(content, cfg, w, []);
    assert CanRun(content, cfg, admitted, events[1..][1..]);
    assert CanRun(content, cfg, fetched, events[1..]);
    assert Run(content, cfg, admitted, events[1..][1..]) == Run(content, cfg, w, []) == w;
    assert Run(content, cfg, EMPTY, events) == Run(content, cfg, fetched, events[1..]) == w;
    assert fetched.writers[0].data == FileOf(content, k)[..1] by {
      assert Offset(cfg, k) == 0;
    }
  }

  /** The promise that a hit never gives fewer bytes than Content-Length fails on reachable caches: once
      byte 0 alone was requested, every request for `first` to `last` within block 0 is a hit that gives
      one byte (`first` is 0), none (`first` is 1), or a panic. */
  lemma OneByteHits(content: Content, cfg: Config, k: BlockKey, first: nat, last: nat)
    requires cfg.maxSize >= 1 && k.blockIdx == 0
    requires first <= last && 1 <= last < cfg.bs && |FileOf(content, k)| >= 1
    ensures CanRun(content, cfg, EMPTY, FirstByteOnly(k))
    ensures RangeBlocks(first, last, cfg.bs) == [0]
    ensures var data := FileOf(content, k)[..1];
            && StoredAt(Run(content, cfg, EMPTY, FirstByteOnly(k)), At(cfg, k, 0)) == Some(data)
            && Handler.Flushed(map[0 := data], 0, first, last, cfg.bs)
               == Handler.Sent(map[0 := data], 0, first, last, cfg.bs, last + 1 - first)
               == if first > 1 then None else Some(FileOf(content, k)[first..1])
  {
    OneByteStored(content, cfg, k);
    KeyUnique(first, 0, cfg.bs);
    assert Offsets(cfg.bs, last, cfg.bs) == [];
    DivModUnique(0, 0, 0, cfg.bs);
    var data := FileOf(content, k)[..1];
    var hits := map[0 := data];
    assert Handler.Flushed(hits, cfg.bs, first, last, cfg.bs) == Some([]);
    Handler.SentWhole(hits, 0, first, last, cfg.bs, last + 1 - first);
    if first <= 1 {
      var seg := data[first..];
      assert Handler.Segment(data, 0, first, last) == Some(seg) && seg + [] == seg == FileOf(content, k)[first..1];
    }
  }

  /** And the same block makes the ordered reader panic: a request that starts behind byte 1 of block 0 and goes
      on into block 1 is not a full hit, its fetch takes the stored byte for its probe block, and the first Read
      slices out of bounds. */
  lemma OneByteProbePanics(content: Content, cfg: Config, k: BlockKey, start: nat, end: nat, n: nat, room: nat)
    requires cfg.maxSize >= 1 && k.blockIdx == 0 && |FileOf(content, k)| >= 1
    requires 1 < start < cfg.bs <= end && n > 0
    ensures CanRun(content, cfg, EMPTY, FirstByteOnly(k))
    ensures var w := Run(content, cfg, EMPTY, FirstByteOnly(k));
            var j := Stream.Job(FileOf(content, k), start, end, cfg.bs);
            && cfg.bs in RangeBlocks(start, end, cfg.bs) && StoredAt(w, At(cfg, k, cfg.bs)) == None
            && KeyOf(start, cfg.bs) == 0
            && forall first :: FetchBlock.Answers(StoredAt(w, At(cfg, k, 0)), j.file, 0, cfg.bs, end, first) ==>
                 Reader.Pass(Stream.Started(j, first, n).reader, room).1.Panicked?
  {
    OneByteStored(content, cfg, k);
    KeyUnique(start, 0, cfg.bs);
    DivModUnique(0, 0, 0, cfg.bs);
    DivModUnique(cfg.bs, 1, 0, cfg.bs);
    RangeBlocksExact(start, end, cfg.bs);
    var j := Stream.Job(FileOf(content, k), start, end, cfg.bs);
    Stream.FirstReadPanicsExactlyWhen(j, j.file[..1], n, room);
  }

  // ---- one fetch after the other ------------------------------------------------------------

  /** What a fetch up to `end` puts of the block at `off` when the upstream answers in full. */
  function Clamped(file: Bytes, off: nat, bs: nat, end: nat): Bytes
    requires off <= end < |file|
  {
    file[off..Min(off + bs, end + 1)]
  }

  function PutOf(cfg: Config, k: BlockKey, off: nat, end: nat): seq<Event>
    requires cfg.bs > 0
  {
    [FromUpstream(0, At(cfg, k, off), end, Max(0, Min(cfg.bs, end + 1 - off))), Check(0), Write(0, 0)]
  }

  /** The blocks at `offs`, fetched from the upstream and put one after the other. */
  function PutsOf(cfg: Config, k: BlockKey, offs: seq<nat>, end: nat): seq<Event>
    requires cfg.bs > 0
  {
    if offs == [] then [] else PutOf(cfg, k, offs[0], end) + PutsOf(cfg, k, offs[1..], end)
  }

  /** With room below the hard limit, one put stores one block. */
  lemma PutStores(content: Content, cfg: Config, w: World, k: BlockKey, off: nat, end: nat, rest: seq<Event>)
    requires cfg.bs > 0 && w.writers == map[] && Total(w.blocks) < HardLimit(cfg.maxSize)
    requires Aligned(off, cfg.bs) && off <= end < |FileOf(content, k)|
    requires var block := Block(Clamped(FileOf(content, k), off, cfg.bs, end), 0);
             CanRun(content, cfg, w.(blocks := w.blocks[At(cfg, k, off) := block]), rest)
    ensures var block := Block(Clamped(FileOf(content, k), off, cfg.bs, end), 0);
            && CanRun(content, cfg, w, PutOf(cfg, k, off, end) + rest)
            && Run(content, cfg, w, PutOf(cfg, k, off, end) + rest)
               == Run(content, cfg, w.(blocks := w.blocks[At(cfg, k, off) := block]), rest)
  {
    var key := At(cfg, k, off);
    AtOffset(cfg, k, off);
    var e0, e1, e2 := FromUpstream(0, key, end, Min(cfg.bs, end + 1 - off)), Check(0), Write(0, 0);
    var w1 := Apply(content, cfg, w, e0);
    var w2 := Apply(content, cfg, w1, e1);
    var w3 := Apply(content, cfg, w2, e2);
    assert w1.writers[0].data == Clamped(FileOf(content, k), off, cfg.bs, end);
    assert w3.writers == map[];
    RunCons(content, cfg, w2, e2, rest);
    RunCons(content, cfg, w1, e1, [e2] + rest);
    RunCons(content, cfg, w, e0, [e1] + ([e2] + rest));
    assert PutOf(cfg, k, off, end) + rest == [e0] + ([e1] + ([e2] + rest));
  }

  lemma AtDiffers(cfg: Config, k: BlockKey, a: nat, b: nat)
    requires cfg.bs > 0 && Aligned(a, cfg.bs) && Aligned(b, cfg.bs) && a != b
    ensures At(cfg, k, a) != At(cfg, k, b)
  {
    AtOffset(cfg, k, a);
    AtOffset(cfg, k, b);
  }

  /** `after` has each block at `offs`, clamped to `end`, and the file's other blocks as `before`. */
  ghost predicate Stored(content: Content, cfg: Config, k: BlockKey, before: World, after: World, offs: seq<nat>,
                         end: nat)
    requires cfg.bs > 0 && end < |FileOf(content, k)| && forall o :: o in offs ==> o <= end
  {
    forall o: nat :: Aligned(o, cfg.bs) ==>
      StoredAt(after, At(cfg, k, o)) == if o in offs then Some(Clamped(FileOf(content, k), o, cfg.bs, end))
                                        else StoredAt(before, At(cfg, k, o))
  }

  lemma StoredCons(content: Content, cfg: Config, k: BlockKey, w: World, w1: World, after: World, off: nat,
                   rest: seq<nat>, end: nat)
    requires cfg.bs > 0 && off <= end < |FileOf(content, k)| && Aligned(off, cfg.bs) && off !in rest
    requires forall o :: o in rest ==> o <= end
    requires w1.blocks == w.blocks[At(cfg, k, off) := Block(Clamped(FileOf(content, k), off, cfg.bs, end), 0)]
    requires Stored(content, cfg, k, w1, after, rest, end)
    ensures Stored(content, cfg, k, w, after, [off] + rest, end)
  {
    forall o: nat | Aligned(o, cfg.bs) && o != off
      ensures StoredAt(w1, At(cfg, k, o)) == StoredAt(w, At(cfg, k, o))
    {
      AtDiffers(cfg, k, o, off);
    }
  }

  lemma RoomLeft(t: Table, key: BlockKey, b: Block, n: nat, bs: nat, limit: int)
    requires bs > 0 && n > 0 && |b.data| <= bs && Total(t) + n * bs <= limit
    ensures Total(t) < limit && Total(t[key := b]) + (n - 1) * bs <= limit
  {
    TotalUpsert(t, key, b);
    assert (n - 1) * bs == n * bs - bs;
    TimesMonotone(1, n, bs);
  }

  lemma RestIn(offs: seq<nat>)
    requires offs != []
    ensures |offs[1..]| == |offs| - 1 && forall o :: o in offs[1..] ==> o in offs
  {
  }

  /** With room for all of them, a fetch leaves each of its blocks in the cache, clamped to its own end, and
      changes no other block of the file. */
  lemma {:induction false} PutsStore(content: Content, cfg: Config, w: World, k: BlockKey, offs: seq<nat>, end: nat)
    requires cfg.bs > 0 && w.writers == map[] && end < |FileOf(content, k)| && Increasing(offs)
    requires forall o :: o in offs ==> Aligned(o, cfg.bs) && o <= end
    requires Total(w.blocks) + |offs| * cfg.bs <= HardLimit(cfg.maxSize)
    ensures CanRun(content, cfg, w, PutsOf(cfg, k, offs, end))
    ensures Stored(content, cfg, k, w, Run(content, cfg, w, PutsOf(cfg, k, offs, end)), offs, end)
    decreases |offs|
  {
    if offs == [] {
    } else {
      var off, rest := offs[0], offs[1..];
      assert off in offs && offs == [off] + rest;
      var key, block := At(cfg, k, off), Block(Clamped(FileOf(content, k), off, cfg.bs, end), 0);
      var w1 := w.(blocks := w.blocks[key := block]);
      RoomLeft(w.blocks, key, block, |offs|, cfg.bs, HardLimit(cfg.maxSize));
      RestIn(offs);
      PutsStore(content, cfg, w1, k, rest, end);
      PutStores(content, cfg, w, k, off, end, PutsOf(cfg, k, rest, end));
      StoredCons(content, cfg, k, w, w1, Run(content, cfg, w, PutsOf(cfg, k, offs, end)), off, rest, end);
    }
  }

  datatype Request = Request(start: nat, end: nat)

  /** From the empty cache, the blocks of the request `before` are fetched and put in full; then the first Read of
      a fetch of `after` panics, whatever FetchBlock may give for its probe block. */
  ghost predicate NextReadPanics(content: Content, cfg: Config, k: BlockKey, before: Request, after: Request,
                                 n: nat, room: nat)
    requires cfg.bs > 0 && after.start <= after.end && n > 0
  {
    var puts := PutsOf(cfg, k, RangeBlocks(before.start, before.end, cfg.bs), before.end);
    var key := KeyOf(after.start, cfg.bs);
    && CanRun(content, cfg, EMPTY, puts)
    && var stored := StoredAt(Run(content, cfg, EMPTY, puts), At(cfg, k, key));
       var j := Stream.Job(FileOf(content, k), after.start, after.end, cfg.bs);
       forall first :: FetchBlock.Answers(stored, j.file, key, cfg.bs, after.end, first) ==>
         Reader.Pass(Stream.Started(j, first, n).reader, room).1.Panicked?
  }

  /** A fetch that starts in the block where an earlier one ended, with room for the earlier one's blocks: it takes
      the clamped block for its probe block, and its first Read panics if and only if it starts more than one byte
      behind the end of the earlier one. */
  lemma NextFetchPanicsExactlyWhen(content: Content, cfg: Config, k: BlockKey, before: Request, after: Request,
                                   n: nat, room: nat)
    requires cfg.bs > 0 && before.start <= before.end < |FileOf(content, k)| && after.start <= after.end && n > 0
    requires |RangeBlocks(before.start, before.end, cfg.bs)| * cfg.bs <= HardLimit(cfg.maxSize)
    requires KeyOf(after.start, cfg.bs) == KeyOf(before.end, cfg.bs)
    ensures NextReadPanics(content, cfg, k, before, after, n, room) <==> before.end + 1 < after.start
  {
    var offs, key := RangeBlocks(before.start, before.end, cfg.bs), KeyOf(after.start, cfg.bs);
    RangeBlocksExact(before.start, before.end, cfg.bs);
    PutsStore(content, cfg, EMPTY, k, offs, before.end);
    var j := Stream.Job(FileOf(content, k), after.start, after.end, cfg.bs);
    var first := Clamped(j.file, key, cfg.bs, before.end);
    var w := Run(content, cfg, EMPTY, PutsOf(cfg, k, offs, before.end));
    assert key in offs && StoredAt(w, At(cfg, k, key)) == Some(first);
    assert FetchBlock.Answers(StoredAt(w, At(cfg, k, key)), j.file, key, cfg.bs, after.end, first);
    Stream.FirstReadPanicsExactlyWhen(j, first, n, room);
  }

  function AsRequest(range: (nat, nat)): Request {
    Request(range.0, range.1)
  }

  /** Readahead alone gets there: of two readaheads, one after the other, the second starting in the block where
      the first one ended. */
  lemma ReadAheadPanicsExactlyWhen(content: Content, cfg: Config, k: BlockKey, pos0: nat, pos: nat, room: nat)
    requires cfg.bs > 0 && 3 * cfg.bs <= HardLimit(cfg.maxSize)
    requires Preloader.ReadAhead(pos0, cfg.bs, |FileOf(content, k)|).Some?
    requires Preloader.ReadAhead(pos, cfg.bs, |FileOf(content, k)|).Some?
    requires KeyOf(Preloader.ReadAhead(pos, cfg.bs, |FileOf(content, k)|).value.0, cfg.bs)
             == KeyOf(Preloader.ReadAhead(pos0, cfg.bs, |FileOf(content, k)|).value.1, cfg.bs)
    ensures var before := AsRequest(Preloader.ReadAhead(pos0, cfg.bs, |FileOf(content, k)|).value);
            var after := AsRequest(Preloader.ReadAhead(pos, cfg.bs, |FileOf(content, k)|).value);
            && after.start <= after.end
            && (NextReadPanics(content, cfg, k, before, after, 1, room) <==> before.end + 1 < after.start)
  {
    var before := AsRequest(Preloader.ReadAhead(pos0, cfg.bs, |FileOf(content, k)|).value);
    var after := AsRequest(Preloader.ReadAhead(pos, cfg.bs, |FileOf(content, k)|).value);
    Preloader.ReadAheadTouchesTwoExactlyWhen(pos0, cfg.bs, |FileOf(content, k)|);
    Preloader.ReadAheadTouchesTwoExactlyWhen(pos, cfg.bs, |FileOf(content, k)|);
    TimesMonotone(|RangeBlocks(before.start, before.end, cfg.bs)|, 3, cfg.bs);
    NextFetchPanicsExactlyWhen(content, cfg, k, before, after, 1, room);
  }

  /** A file of a hundred bytes in blocks of eight: the readahead behind byte 2 ends at byte 26, the one behind byte
      20 starts at byte 28 of the same block, and its first Read panics. */
  lemma ReadAheadPanicExample(content: Content, cfg: Config, k: BlockKey, room: nat)
    requires cfg.bs == 8 && cfg.maxSize >= 16 && |FileOf(content, k)| == 100
    ensures Preloader.ReadAhead(2, 8, 100) == Some((10, 26)) && Preloader.ReadAhead(20, 8, 100) == Some((28, 44))
    ensures NextReadPanics(content, cfg, k, Request(10, 26), Request(28, 44), 1, room)
  {
    KeyUnique(28, 24, 8);
    KeyUnique(26, 24, 8);
    ReadAheadPanicsExactlyWhen(content, cfg, k, 2, 20, room);
  }
}
