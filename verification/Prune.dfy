/** The bounded map of file versions and sizes (internal/server/server.go:139-142, 202-225). */
module Prune {
  import opened Oldest

  datatype FileMeta = FileMeta(version: string, size: int, checkedAt: int)

  type MetaMap = map<string, FileMeta>

  function CheckTimes(m: MetaMap): map<string, int> {
    map k | k in m :: m[k].checkedAt
  }

  /** `after` is `before` without its oldest entries. */
  ghost predicate NewestKept(before: MetaMap, after: MetaMap) {
    && (forall k :: k in after ==> k in before && after[k] == before[k])
    && (forall d, k :: d in before && d !in after && k in after ==> before[d].checkedAt <= before[k].checkedAt)
  }

  ghost function Listed(rows: seq<string>): set<string> {
    set k | k in rows
  }

  lemma TimesSize(m: MetaMap)
    ensures |CheckTimes(m)| == |m|
  {
    assert CheckTimes(m).Keys == m.Keys;
  }

  /** Dropping the first rows of a full listing drops that many entries, and the oldest. */
  lemma WithoutOldest(m: MetaMap, ents: seq<string>, drop: nat)
    requires OldestFirst(CheckTimes(m), ents, |m|) && drop <= |ents|
    ensures NewestKept(m, m - Listed(ents[..drop]))
    ensures |m - Listed(ents[..drop])| == |m| - drop
  {
    var times, gone := CheckTimes(m), Listed(ents[..drop]);
    assert times.Keys == m.Keys;
    DistinctSize(ents[..drop]);
    assert gone <= m.Keys;
    assert (m - gone).Keys == m.Keys - gone;
    forall n | 0 <= n < drop
      ensures ents[n] in gone
    {
      assert ents[..drop][n] == ents[n];
    }
    forall d, k | d in m && d in gone && k in m && k !in gone
      ensures times[d] <= times[k]
    {
      var a :| 0 <= a < drop && ents[a] == d;
      if k in ents {
        var b :| 0 <= b < |ents| && ents[b] == k;
        assert a < b;
      }
    }
  }

  class MetaCache {
    const limit: int
    var metaMap: MetaMap

    constructor (limit: int)
      ensures this.limit == limit && metaMap == map[]
    {
      this.limit := limit;
      metaMap := map[];
    }

    /** Over the limit, the oldest entries go until three quarters of the limit are left. */
    method PruneMeta()
      modifies this
      ensures NewestKept(old(metaMap), metaMap)
      ensures limit <= 0 || |old(metaMap)| <= limit ==> metaMap == old(metaMap)
      ensures 0 < limit < |old(metaMap)| ==> |metaMap| == limit - limit / 4
    {
      if limit <= 0 || |metaMap| <= limit {
        return;
      }
      var ents := ListOldest(CheckTimes(metaMap), |metaMap|);
      TimesSize(metaMap);
      var drop := |ents| - limit + limit / 4;
      if drop < 1 {
        drop := 1;
      }
      WithoutOldest(metaMap, ents, drop);
      Drop(ents, drop);
    }

    method Drop(ents: seq<string>, drop: nat)
      requires drop <= |ents|
      modifies this
      ensures metaMap == old(metaMap) - Listed(ents[..drop])
    {
      var i := 0;
      while i < drop && i < |ents|
        invariant 0 <= i <= drop
        invariant metaMap == old(metaMap) - Listed(ents[..i])
      {
        assert ents[..i + 1] == ents[..i] + [ents[i]];
        metaMap := metaMap - {ents[i]};
        i := i + 1;
      }
    }

    /** An insertion never leaves more entries than the limit. */
    method Remember(key: string, meta: FileMeta)
      requires limit > 0 ==> |metaMap| <= limit
      modifies this
      ensures limit > 0 ==> |metaMap| <= limit
      ensures NewestKept(old(metaMap)[key := meta], metaMap)
      ensures limit <= 0 || |old(metaMap)[key := meta]| <= limit ==> metaMap == old(metaMap)[key := meta]
    {
      metaMap := metaMap[key := meta];
      PruneMeta();
    }
  }
}
