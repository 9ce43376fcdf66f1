/** The blocks table (internal/store/store.go:154-251). Each statement is atomic, because the database has a
    single connection. */
module Store {
  import opened Basics
  import opened Oldest

  datatype BlockKey = BlockKey(subKey: string, filePath: string, version: string, blockIdx: nat)

  /** A row; its size column always is the length of the data. */
  datatype Block = Block(data: Bytes, lastUsed: int)

  type Table = map<BlockKey, Block>

  function Upsert(t: Table, k: BlockKey, data: Bytes, now: int): Table {
    t[k := Block(data, now)]
  }

  function Touch(t: Table, k: BlockKey, now: int): Table {
    if k in t then t[k := t[k].(lastUsed := now)] else t
  }

  function Stamps(t: Table): map<BlockKey, int> {
    map k | k in t :: t[k].lastUsed
  }

  function ExpiredStamps(t: Table, cutoff: int): map<BlockKey, int> {
    map k | k in t && t[k].lastUsed < cutoff :: t[k].lastUsed
  }

  /** The sum of the size column. */
  ghost function Total(t: Table): nat {
    if t == map[] then 0
    else
      var k :| k in t;
      |t[k].data| + Total(t - {k})
  }

  lemma {:induction false} TotalRemove(t: Table, k: BlockKey)
    requires k in t
    ensures Total(t) == |t[k].data| + Total(t - {k}) && Total(map[]) == 0
  {
    var k0 :| k0 in t && Total(t) == |t[k0].data| + Total(t - {k0});
    if k0 != k {
      TotalRemove(t - {k0}, k);
      TotalRemove(t - {k}, k0);
      assert t - {k0} - {k} == t - {k} - {k0};
    }
  }

  lemma TotalUpsert(t: Table, k: BlockKey, b: Block)
    ensures Total(t[k := b]) == Total(t - {k}) + |b.data|
    ensures Total(t) == Total(t - {k}) + if k in t then |t[k].data| else 0
  {
    var t' := t[k := b];
    TotalRemove(t', k);
    assert t' - {k} == t - {k};
    if k in t {
      TotalRemove(t, k);
    } else {
      assert t - {k} == t;
    }
  }

  class Store {
    var blocks: Table

    constructor ()
      ensures blocks == map[]
    {
      blocks := map[];
    }

    method PutBlock(k: BlockKey, data: Bytes, now: int)
      modifies this
      ensures blocks == Upsert(old(blocks), k, data, now) == old(blocks)[k := Block(data, now)]
    {
      blocks := blocks[k := Block(data, now)];
    }

    method GetBlock(k: BlockKey, now: int) returns (data: Option<Bytes>)
      modifies this
      ensures data == if k in old(blocks) then Some(old(blocks)[k].data) else None
      ensures blocks == Touch(old(blocks), k, now) && blocks.Keys == old(blocks).Keys
      ensures forall o :: o in blocks ==>
                blocks[o] == Block(old(blocks)[o].data, if o == k then now else old(blocks)[o].lastUsed)
    {
      if k !in blocks {
        return None;
      }
      data := Some(blocks[k].data);
      blocks := blocks[k := blocks[k].(lastUsed := now)];
    }

    method DeleteBlock(k: BlockKey)
      modifies this
      ensures blocks == old(blocks) - {k}
    {
      blocks := blocks - {k};
    }

    method ListLRUBlocks(limit: nat) returns (rows: seq<BlockKey>)
      ensures OldestFirst(Stamps(blocks), rows, limit)
    {
      rows := ListOldest(Stamps(blocks), limit);
    }

    method ListExpiredBlocks(cutoff: int, limit: nat) returns (rows: seq<BlockKey>)
      ensures OldestFirst(ExpiredStamps(blocks, cutoff), rows, limit)
    {
      rows := ListOldest(ExpiredStamps(blocks, cutoff), limit);
    }

    method CacheTotalSize() returns (n: nat)
      ensures n == Total(blocks)
    {
      n := 0;
      var rest := blocks;
      while rest != map[]
        invariant n + Total(rest) == Total(blocks)
        decreases |rest|
      {
        var k :| k in rest;
        TotalRemove(rest, k);
        n := n + |rest[k].data|;
        ghost var keys := rest.Keys;
        rest := rest - {k};
        assert rest.Keys == keys - {k};
      }
    }
  }
}
