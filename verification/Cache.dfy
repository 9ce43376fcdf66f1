/** The block cache: pins, writes under a hard limit and the two evictors (internal/cache/cache.go,
    internal/cache/evict.go). */
module Cache {
  import opened Basics
  import opened Oldest
  import opened Store

  // ---- keys ---------------------------------------------------------------------------------

  datatype SubSource = SubSource(endpoint: string, topSegment: string) {
    function Key(): string {
      endpoint + "|" + topSegment
    }
  }

  datatype CacheKey = CacheKey(ss: SubSource, filePath: string, version: string)

  function BlockKeyOf(k: CacheKey, idx: nat): BlockKey {
    BlockKey(k.ss.Key(), k.filePath, k.version, idx)
  }

  function Decimal(n: nat): (s: string)
    ensures |s| > 0
  {
    if n < 10 then [('0' as int + n) as char] else Decimal(n / 10) + [('0' as int + n % 10) as char]
  }

  function RefKeyOf(k: CacheKey, idx: nat): string {
    k.ss.Key() + "|" + k.filePath + "|" + k.version + "|" + Decimal(idx)
  }

  function RefKeyFromStore(b: BlockKey): string {
    b.subKey + "|" + b.filePath + "|" + b.version + "|" + Decimal(b.blockIdx)
  }

  /** Two blocks share a row if and only if they are the same block of the same version of the same file. */
  lemma RowsApart(a: CacheKey, i: nat, b: CacheKey, j: nat)
    ensures BlockKeyOf(a, i) == BlockKeyOf(b, j) <==>
              a.ss.Key() == b.ss.Key() && a.filePath == b.filePath && a.version == b.version && i == j
  {
  }

  lemma {:induction false} DecimalInjective(m: nat, n: nat)
    ensures Decimal(m) == Decimal(n) ==> m == n
  {
    if m < 10 || n < 10 {
    } else {
      DecimalInjective(m / 10, n / 10);
      var a, b := Decimal(m / 10), Decimal(n / 10);
      if Decimal(m) == Decimal(n) {
        assert Decimal(m)[..|a|] == a && Decimal(n)[..|b|] == b;
        assert Decimal(m)[|a|] == Decimal(n)[|b|];
      }
    }
  }

  /** Blocks of one version of one file never share a reference count. */
  lemma RefKeysApart(a: BlockKey, b: BlockKey)
    requires a.subKey == b.subKey && a.filePath == b.filePath && a.version == b.version
    ensures RefKeyFromStore(a) == RefKeyFromStore(b) <==> a == b
  {
    var front := a.subKey + "|" + a.filePath + "|" + a.version + "|";
    var x, y := RefKeyFromStore(a), RefKeyFromStore(b);
    assert x == front + Decimal(a.blockIdx) && y == front + Decimal(b.blockIdx);
    if x == y {
      assert Decimal(a.blockIdx) == x[|front|..] == y[|front|..] == Decimal(b.blockIdx);
      DecimalInjective(a.blockIdx, b.blockIdx);
    }
  }

  /** Pinning and evicting look under the same key; different blocks may share one all the same. */
  lemma RefKeysMatch(k: CacheKey, idx: nat)
    ensures RefKeyOf(k, idx) == RefKeyFromStore(BlockKeyOf(k, idx))
    ensures exists a, b :: a != b && RefKeyFromStore(a) == RefKeyFromStore(b)
  {
    var a, b := BlockKey("s", "/a|b", "v", 0), BlockKey("s", "/a", "b|v", 0);
    assert |a.filePath| != |b.filePath|;
    assert RefKeyFromStore(a) == "s|/a|b|v|" + Decimal(0) == RefKeyFromStore(b);
  }

  // ---- the reference counts -----------------------------------------------------------------

  type Refs = map<string, int>

  function Count(refs: Refs, key: string): int {
    if key in refs then refs[key] else 0
  }

  function Pin(refs: Refs, key: string): Refs {
    refs[key := Count(refs, key) + 1]
  }

  function Unpin(refs: Refs, key: string): Refs {
    if Count(refs, key) - 1 <= 0 then refs - {key} else refs[key := Count(refs, key) - 1]
  }

  predicate Pinned(refs: Refs, b: BlockKey) {
    Count(refs, RefKeyFromStore(b)) > 0
  }

  /** Delete unless pinned, in one critical section. */
  function TryEvicted(t: Table, refs: Refs, b: BlockKey): Table {
    if Pinned(refs, b) then t else t - {b}
  }

  // ---- the hard limit -----------------------------------------------------------------------

  /** `CacheMaxSize*3/2` in integer arithmetic that truncates toward zero. */
  function HardLimit(maxSize: int): int {
    if maxSize >= 0 then maxSize * 3 / 2 else -(-maxSize * 3 / 2)
  }

  function Truncated(data: Bytes, bs: nat): Bytes {
    if |data| > bs then data[..bs] else data
  }

  // ---- what an eviction run must satisfy ----------------------------------------------------

  /** Only unpinned rows went, and no survivor that could have gone was used less recently. */
  ghost predicate EvictedOldest(before: Table, after: Table, refs: Refs) {
    && (forall k :: k in after ==> k in before && after[k] == before[k])
    && (forall k :: k in before && k !in after ==> !Pinned(refs, k))
    && (forall d, s :: d in before && d !in after && s in after && !Pinned(refs, s) ==>
          before[d].lastUsed <= before[s].lastUsed)
  }

  /** One deletion that is still needed: while the total is not below the low watermark, the least recently
      used unpinned row goes. */
  ghost predicate NeededDeletion(t: Table, t': Table, refs: Refs, low: int) {
    && Total(t) >= low
    && exists d :: d in t && !Pinned(refs, d) && t' == t - {d}
                   && forall s :: s in t && !Pinned(refs, s) ==> t[d].lastUsed <= t[s].lastUsed
  }

  ghost predicate Deletions(history: seq<Table>, refs: Refs, low: int) {
    forall i :: 0 <= i < |history| - 1 ==> NeededDeletion(history[i], history[i + 1], refs, low)
  }

  /** Needed deletions, one after the other, lead from `before` to `after`. */
  ghost predicate NoneInVain(before: Table, after: Table, refs: Refs, low: int) {
    exists history :: |history| > 0 && history[0] == before && history[|history| - 1] == after
                      && Deletions(history, refs, low)
  }

  lemma NothingGone(t: Table, refs: Refs, low: int)
    ensures NoneInVain(t, t, refs, low)
  {
    var history := [t];
    assert Deletions(history, refs, low);
  }

  lemma OneMoreGone(before: Table, t: Table, t': Table, refs: Refs, low: int)
    requires NoneInVain(before, t, refs, low) && NeededDeletion(t, t', refs, low)
    ensures NoneInVain(before, t', refs, low)
  {
    var history :| |history| > 0 && history[0] == before && history[|history| - 1] == t
                   && Deletions(history, refs, low);
    var longer := history + [t'];
    forall i | 0 <= i < |longer| - 1
      ensures NeededDeletion(longer[i], longer[i + 1], refs, low)
    {
      assert longer[i] == history[i];
      assert i + 1 < |history| ==> longer[i + 1] == history[i + 1];
    }
    assert Deletions(longer, refs, low);
  }

  /** Only unpinned rows last used before `cutoff` went. */
  ghost predicate Swept(before: Table, after: Table, refs: Refs, cutoff: int) {
    && (forall k :: k in after ==> k in before && after[k] == before[k])
    && (forall k :: k in before && k !in after ==> before[k].lastUsed < cutoff && !Pinned(refs, k))
  }

  /** The oldest `limit` rows, or all rows if there are fewer, are pinned. */
  ghost predicate OldestPinned(time: map<BlockKey, int>, refs: Refs, limit: nat) {
    exists rows :: OldestFirst(time, rows, limit) && forall i :: 0 <= i < |rows| ==> Pinned(refs, rows[i])
  }

  /** Without references a listing of pinned rows is empty, and there was nothing to list. */
  lemma NothingToPin(time: map<BlockKey, int>, refs: Refs, limit: nat)
    requires OldestPinned(time, refs, limit) && limit > 0
    ensures refs == map[] ==> time == map[]
  {
    if refs == map[] {
      var rows :| OldestFirst(time, rows, limit) && forall i :: 0 <= i < |rows| ==> Pinned(refs, rows[i]);
      ListingExhausts(time, rows, limit, {});
      assert time.Keys == {};
    }
  }

  lemma NoneListed(t: Table, refs: Refs)
    requires OldestPinned(Stamps(t), refs, 16)
    ensures refs == map[] ==> Total(t) == 0
  {
    NothingToPin(Stamps(t), refs, 16);
    assert Stamps(t).Keys == t.Keys;
  }

  lemma NoneExpired(t: Table, refs: Refs, cutoff: int)
    requires OldestPinned(ExpiredStamps(t, cutoff), refs, 32)
    ensures refs == map[] ==> forall k :: k in t ==> t[k].lastUsed >= cutoff
  {
    NothingToPin(ExpiredStamps(t, cutoff), refs, 32);
    assert forall k :: k in t && t[k].lastUsed < cutoff ==> k in ExpiredStamps(t, cutoff);
  }

  const LRU_BATCH := 16
  const TTL_BATCH := 32

  /** One acquired reference; sync.Once becomes the flag. */
  class Handle {
    const key: string
    var released: bool

    constructor (key: string)
      ensures this.key == key && !released
    {
      this.key := key;
      released := false;
    }
  }

  class Cache {
    const st: Store
    const maxSize: int
    const blockSize: nat
    var refs: Refs
    var evictPending: bool

    constructor (st: Store, maxSize: int, blockSize: nat)
      ensures this.st == st && this.maxSize == maxSize && this.blockSize == blockSize
      ensures refs == map[] && !evictPending
    {
      this.st, this.maxSize, this.blockSize := st, maxSize, blockSize;
      refs, evictPending := map[], false;
    }

    /** What Get finds for a block. */
    ghost function Holds(key: CacheKey, idx: nat): Option<Bytes>
      reads st
    {
      var row := BlockKeyOf(key, idx);
      if row in st.blocks then Some(st.blocks[row].data) else None
    }

    method Get(key: CacheKey, idx: nat, now: int) returns (data: Option<Bytes>)
      modifies st
      ensures data == old(Holds(key, idx)) && forall k, i :: Holds(k, i) == old(Holds(k, i))
      ensures data == if BlockKeyOf(key, idx) in old(st.blocks) then Some(old(st.blocks)[BlockKeyOf(key, idx)].data)
                      else None
      ensures st.blocks == Touch(old(st.blocks), BlockKeyOf(key, idx), now)
    {
      data := st.GetBlock(BlockKeyOf(key, idx), now);
    }

    /** At or above one and a half times the limit the block is skipped; otherwise it is stored, cut to a block,
        no other block changes, and the evictor is woken. */
    method Put(key: CacheKey, idx: nat, data: Bytes, now: int)
      modifies this`evictPending, st
      ensures var skip := maxSize < 0 || Total(old(st.blocks)) >= maxSize * 3 / 2;
              forall k: CacheKey, i: nat ::
                Holds(k, i) == if !skip && k.ss.Key() == key.ss.Key() && k.filePath == key.filePath
                                  && k.version == key.version && i == idx
                               then Some(data[..Min(|data|, blockSize)])
                               else old(Holds(k, i))
      ensures var skip := Total(old(st.blocks)) >= HardLimit(maxSize);
              && st.blocks == (if skip then old(st.blocks)
                               else Upsert(old(st.blocks), BlockKeyOf(key, idx), Truncated(data, blockSize), now))
              && evictPending == (old(evictPending) || !skip)
    {
      var total := st.CacheTotalSize();
      if total >= HardLimit(maxSize) {
        return;
      }
      assert Truncated(data, blockSize) == data[..Min(|data|, blockSize)];
      st.PutBlock(BlockKeyOf(key, idx), Truncated(data, blockSize), now);
      evictPending := true;
    }

    method Acquire(key: CacheKey, idx: nat) returns (h: Handle)
      modifies this`refs
      ensures fresh(h) && h.key == RefKeyOf(key, idx) && !h.released
      ensures refs == Pin(old(refs), h.key)
    {
      var k := RefKeyOf(key, idx);
      refs := refs[k := Count(refs, k) + 1];
      h := new Handle(k);
    }

    /** The release function; calls after the first do nothing. */
    method Release(h: Handle)
      modifies this`refs, h
      ensures h.released
      ensures refs == if old(h.released) then old(refs) else Unpin(old(refs), h.key)
    {
      if !h.released {
        var n := Count(refs, h.key) - 1;
        refs := refs[h.key := n];
        if n <= 0 {
          refs := refs - {h.key};
        }
        h.released := true;
      }
    }

    method TryEvict(b: BlockKey) returns (ok: bool)
      modifies st
      ensures ok == !Pinned(refs, b)
      ensures st.blocks == TryEvicted(old(st.blocks), refs, b)
      ensures ok <==> RefKeyFromStore(b) in refs ==> refs[RefKeyFromStore(b)] <= 0
      ensures st.blocks == if ok then old(st.blocks) - {b} else old(st.blocks)
    {
      if Count(refs, RefKeyFromStore(b)) > 0 {
        return false;
      }
      st.DeleteBlock(b);
      ok := true;
    }

    /** The watermark evictor, run without interruption. Below `high` it changes nothing. Otherwise it
        deletes the least recently used unpinned blocks one after the other, each only while the total is not
        below `low`, and stops below `low` or when the oldest batch is pinned. */
    method EvictOnce(high: int, low: int)
      modifies st
      ensures Total(old(st.blocks)) < high ==> st.blocks == old(st.blocks)
      ensures EvictedOldest(old(st.blocks), st.blocks, refs)
      ensures NoneInVain(old(st.blocks), st.blocks, refs, low)
      ensures Total(old(st.blocks)) >= high ==>
                Total(st.blocks) < low || OldestPinned(Stamps(st.blocks), refs, 16)
      ensures Total(old(st.blocks)) >= high && refs == map[] && low > 0 ==> Total(st.blocks) < low
    {
      var total := st.CacheTotalSize();
      if total < high {
        NothingGone(st.blocks, refs, low);
        return;
      }
      NothingGone(st.blocks, refs, low);
      while total >= low
        invariant total == Total(st.blocks)
        invariant EvictedOldest(old(st.blocks), st.blocks, refs)
        invariant NoneInVain(old(st.blocks), st.blocks, refs, low)
        decreases |st.blocks|
      {
        var rows := st.ListLRUBlocks(LRU_BATCH);
        var deleted := EvictBatch(rows, low, old(st.blocks));
        if deleted == 0 {
          NoneListed(st.blocks, refs);
          return;
        }
        total := st.CacheTotalSize();
      }
    }

    /** One batch of the watermark evictor. `start` is the table the whole run began with. */
    method EvictBatch(rows: seq<BlockKey>, low: int, ghost start: Table) returns (deleted: nat)
      requires OldestFirst(Stamps(st.blocks), rows, LRU_BATCH)
      requires Total(st.blocks) >= low
      requires EvictedOldest(start, st.blocks, refs) && NoneInVain(start, st.blocks, refs, low)
      modifies st
      ensures EvictedOldest(start, st.blocks, refs) && NoneInVain(start, st.blocks, refs, low)
      ensures deleted > 0 ==> |st.blocks| < |old(st.blocks)|
      ensures deleted == 0 ==> OldestPinned(Stamps(st.blocks), refs, LRU_BATCH)
    {
      deleted := 0;
      ghost var base := st.blocks;
      for i := 0 to |rows|
        invariant Batch(base, st.blocks, rows, i, refs)
        invariant EvictedOldest(start, st.blocks, refs) && NoneInVain(start, st.blocks, refs, low)
        invariant Total(st.blocks) >= low
        invariant deleted > 0 ==> |st.blocks| < |base|
        invariant deleted == 0 ==> st.blocks == base
      {
        ghost var cur := st.blocks;
        BatchStep(base, cur, rows, i, refs);
        var ok := TryEvict(rows[i]);
        if ok {
          EvictStep(start, base, cur, rows, i, refs, low);
          deleted := deleted + 1;
          var total := st.CacheTotalSize();
          if total < low {
            return;
          }
        }
      }
      if deleted == 0 {
        BatchPinned(Stamps(base), rows, base, refs, LRU_BATCH);
      }
    }

    /** The TTL sweep. It deletes only unpinned expired blocks and leaves an expired one only behind a
        batch of pinned ones. */
    method EvictExpired(ttl: int, now: int)
      modifies st
      ensures ttl <= 0 ==> st.blocks == old(st.blocks)
      ensures Swept(old(st.blocks), st.blocks, refs, now - ttl)
      ensures ttl > 0 ==> OldestPinned(ExpiredStamps(st.blocks, now - ttl), refs, 32)
      ensures ttl > 0 && refs == map[] ==> forall k :: k in st.blocks ==> st.blocks[k].lastUsed >= now - ttl
    {
      if ttl <= 0 {
        return;
      }
      var cutoff := now - ttl;
      ghost var before := st.blocks;
      while true
        invariant Swept(before, st.blocks, refs, cutoff)
        decreases |st.blocks|
      {
        var rows := st.ListExpiredBlocks(cutoff, TTL_BATCH);
        ghost var middle := st.blocks;
        var deleted := SweepBatch(rows, cutoff);
        SweptOn(before, middle, st.blocks, refs, cutoff);
        if deleted == 0 {
          NoneExpired(st.blocks, refs, cutoff);
          return;
        }
      }
    }

    method SweepBatch(rows: seq<BlockKey>, cutoff: int) returns (deleted: nat)
      requires OldestFirst(ExpiredStamps(st.blocks, cutoff), rows, TTL_BATCH)
      modifies st
      ensures Swept(old(st.blocks), st.blocks, refs, cutoff)
      ensures deleted > 0 ==> |st.blocks| < |old(st.blocks)|
      ensures deleted == 0 ==> OldestPinned(ExpiredStamps(st.blocks, cutoff), refs, TTL_BATCH)
    {
      deleted := 0;
      ghost var base := st.blocks;
      for i := 0 to |rows|
        invariant Batch(base, st.blocks, rows, i, refs) && Swept(base, st.blocks, refs, cutoff)
        invariant deleted > 0 ==> |st.blocks| < |base|
        invariant deleted == 0 ==> st.blocks == base
      {
        ghost var prev := st.blocks;
        BatchStep(base, prev, rows, i, refs);
        SweepStep(base, prev, rows, i, refs, cutoff);
        var ok := TryEvict(rows[i]);
        if ok {
          Smaller(prev, rows[i]);
          deleted := deleted + 1;
        }
      }
      if deleted == 0 {
        BatchPinned(ExpiredStamps(base, cutoff), rows, base, refs, TTL_BATCH);
      }
    }
  }

  /** Inside a batch of table `base`: of the first `i` rows only pinned ones are left, the others are all
      still there. */
  ghost predicate Batch(base: Table, cur: Table, rows: seq<BlockKey>, i: nat, refs: Refs)
    requires i <= |rows|
  {
    && (forall k :: k in cur ==> k in base && cur[k] == base[k])
    && (forall n :: i <= n < |rows| ==> rows[n] in cur)
    && (forall n :: 0 <= n < i && rows[n] in cur ==> Pinned(refs, rows[n]))
  }

  lemma BatchPinned(time: map<BlockKey, int>, rows: seq<BlockKey>, t: Table, refs: Refs, limit: nat)
    requires OldestFirst(time, rows, limit) && time.Keys <= t.Keys && Batch(t, t, rows, |rows|, refs)
    ensures OldestPinned(time, refs, limit)
  {
    forall i | 0 <= i < |rows|
      ensures Pinned(refs, rows[i])
    {
      assert rows[i] in time.Keys;
    }
  }

  lemma SweptOn(a: Table, b: Table, c: Table, refs: Refs, cutoff: int)
    requires Swept(a, b, refs, cutoff) && Swept(b, c, refs, cutoff)
    ensures Swept(a, c, refs, cutoff)
  {
  }

  lemma Smaller(t: Table, k: BlockKey)
    requires k in t
    ensures |t - {k}| < |t|
  {
    assert (t - {k}).Keys == t.Keys - {k};
  }

  lemma BatchStep(base: Table, cur: Table, rows: seq<BlockKey>, i: nat, refs: Refs)
    requires Distinct(rows) && i < |rows| && Batch(base, cur, rows, i, refs)
    ensures Batch(base, TryEvicted(cur, refs, rows[i]), rows, i + 1, refs)
  {
    forall n | 0 <= n < i + 1 && rows[n] in TryEvicted(cur, refs, rows[i])
      ensures Pinned(refs, rows[n])
    {
      assert n == i || n < i;
    }
  }

  lemma SweepStep(base: Table, cur: Table, rows: seq<BlockKey>, i: nat, refs: Refs, cutoff: int)
    requires OldestFirst(ExpiredStamps(base, cutoff), rows, TTL_BATCH) && i < |rows|
    requires Batch(base, cur, rows, i, refs) && Swept(base, cur, refs, cutoff)
    ensures rows[i] in cur && Swept(base, TryEvicted(cur, refs, rows[i]), refs, cutoff)
  {
    assert rows[i] in ExpiredStamps(base, cutoff);
  }

  /** The next unpinned row of a batch is no more recently used than any unpinned row left. */
  lemma BatchOldest(base: Table, cur: Table, rows: seq<BlockKey>, i: nat, refs: Refs, s: BlockKey)
    requires OldestFirst(Stamps(base), rows, LRU_BATCH) && i < |rows| && Batch(base, cur, rows, i, refs)
    requires s in cur && !Pinned(refs, s)
    ensures rows[i] in base && s in base && base[rows[i]].lastUsed <= base[s].lastUsed
  {
    var time := Stamps(base);
    assert rows[i] in time && s in time;
    if s in rows {
      var n :| 0 <= n < |rows| && rows[n] == s;
      assert i <= n;
      assert i < n ==> time[rows[i]] <= time[rows[n]];
    } else {
      assert time[rows[i]] <= time[s];
    }
  }

  /** Deleting the next unpinned row of a batch keeps the order and is not in vain. */
  lemma EvictStep(start: Table, base: Table, cur: Table, rows: seq<BlockKey>, i: nat, refs: Refs, low: int)
    requires OldestFirst(Stamps(base), rows, LRU_BATCH) && i < |rows| && !Pinned(refs, rows[i])
    requires Batch(base, cur, rows, i, refs)
    requires EvictedOldest(start, cur, refs) && NoneInVain(start, cur, refs, low) && Total(cur) >= low
    ensures EvictedOldest(start, cur - {rows[i]}, refs) && NoneInVain(start, cur - {rows[i]}, refs, low)
    ensures |cur - {rows[i]}| < |cur| <= |base|
  {
    var d := rows[i];
    var after := cur - {d};
    SubsetSize(cur.Keys, base.Keys);
    Smaller(cur, d);
    forall s | s in cur && !Pinned(refs, s)
      ensures cur[d].lastUsed <= cur[s].lastUsed && start[d].lastUsed <= start[s].lastUsed
    {
      BatchOldest(base, cur, rows, i, refs, s);
      assert cur[d] == base[d] == start[d] && cur[s] == base[s] == start[s];
    }
    assert NeededDeletion(cur, after, refs, low);
    OneMoreGone(start, cur, after, refs, low);
  }

  // ---- consequences -------------------------------------------------------------------------

  ghost function PinnedRows(t: Table, refs: Refs): set<BlockKey> {
    set k | k in t && Pinned(refs, k)
  }

  /** What "used" means: a block read or written later than every other goes last; if an eviction run takes
      it, only pinned blocks are left. */
  lemma JustUsedGoesLast(t: Table, k: BlockKey, data: Option<Bytes>, now: int, after: Table, refs: Refs)
    requires forall o :: o in t && o != k ==> t[o].lastUsed < now
    requires data.None? ==> k in t
    requires EvictedOldest(if data.Some? then Upsert(t, k, data.value, now) else Touch(t, k, now), after, refs)
    requires k !in after
    ensures forall s :: s in after ==> Pinned(refs, s)
  {
    var before := if data.Some? then Upsert(t, k, data.value, now) else Touch(t, k, now);
    forall s | s in after
      ensures Pinned(refs, s)
    {
      assert k in before && before[k].lastUsed == now;
      assert s in before && s != k && before[s].lastUsed < now;
    }
  }

  lemma DeletionSize(t: Table, t': Table, refs: Refs, low: int, blockSize: nat)
    requires NeededDeletion(t, t', refs, low) && forall k :: k in t ==> |t[k].data| <= blockSize
    ensures Total(t') >= low - blockSize
  {
    var d :| d in t && t' == t - {d};
    TotalRemove(t, d);
  }

  lemma {:induction false} HistoryShrinks(history: seq<Table>, refs: Refs, low: int, i: nat)
    requires i < |history| && Deletions(history, refs, low)
    ensures forall k :: k in history[i] ==> k in history[0] && history[i][k] == history[0][k]
  {
    if i == 0 {
    } else {
      HistoryShrinks(history, refs, low, i - 1);
      assert NeededDeletion(history[i - 1], history[i - 1 + 1], refs, low);
    }
  }

  /** Hysteresis: a run that deletes anything leaves at least `low` minus a block. */
  lemma EvictionStopsEarly(before: Table, after: Table, refs: Refs, low: int, blockSize: nat)
    requires NoneInVain(before, after, refs, low) && before != after
    requires forall k :: k in before ==> |before[k].data| <= blockSize
    ensures Total(after) >= low - blockSize
  {
    var history :| |history| > 0 && history[0] == before && history[|history| - 1] == after
                   && Deletions(history, refs, low);
    var last := |history| - 1;
    HistoryShrinks(history, refs, low, last - 1);
    DeletionSize(history[last - 1], after, refs, low, blockSize);
  }

  /** With fewer than a batch of pinned rows, only pinned rows can keep the total at `low` or above. */
  lemma FewPinsReachLow(after: Table, refs: Refs, low: int)
    requires Total(after) < low || OldestPinned(Stamps(after), refs, 16)
    requires |PinnedRows(after, refs)| < 16
    ensures Total(after) < low || forall k :: k in after ==> Pinned(refs, k)
  {
    if Total(after) >= low {
      var rows :| OldestFirst(Stamps(after), rows, LRU_BATCH) && forall i :: 0 <= i < |rows| ==> Pinned(refs, rows[i]);
      ListingExhausts(Stamps(after), rows, LRU_BATCH, PinnedRows(after, refs));
      assert forall k :: k in after ==> k in Stamps(after).Keys;
    }
  }

  /** With fewer than a sweep's batch of pinned rows, no unpinned expired row survives the sweep. */
  lemma FewPinsNoneExpired(after: Table, refs: Refs, cutoff: int)
    requires OldestPinned(ExpiredStamps(after, cutoff), refs, 32)
    requires |PinnedRows(after, refs)| < 32
    ensures forall k :: k in after && after[k].lastUsed < cutoff ==> Pinned(refs, k)
  {
    var time := ExpiredStamps(after, cutoff);
    var rows :| OldestFirst(time, rows, TTL_BATCH) && forall i :: 0 <= i < |rows| ==> Pinned(refs, rows[i]);
    ListingExhausts(time, rows, TTL_BATCH, PinnedRows(after, refs));
    assert forall k :: k in after && after[k].lastUsed < cutoff ==> k in time.Keys;
  }
}
