/** Listings "ORDER BY time ASC LIMIT n": the query behind both evictors (internal/store/store.go:205-242)
    and the order in which the server's in-memory maps are pruned (internal/server/server.go:212-216). */
module Oldest {
  import opened Basics

  ghost predicate Distinct<K>(rows: seq<K>) {
    forall i, j :: 0 <= i < j < |rows| ==> rows[i] != rows[j]
  }

  /** `rows` are the `limit` oldest keys, oldest first; ties may come in any order. */
  ghost predicate OldestFirst<K>(time: map<K, int>, rows: seq<K>, limit: nat) {
    && |rows| == Min(limit, |time|)
    && Distinct(rows)
    && (forall i :: 0 <= i < |rows| ==> rows[i] in time)
    && (forall i, j :: 0 <= i < j < |rows| ==> time[rows[i]] <= time[rows[j]])
    && (forall i, k :: 0 <= i < |rows| && k in time && k !in rows ==> time[rows[i]] <= time[k])
  }

  method FindOldest<K(==)>(time: map<K, int>, among: set<K>) returns (best: K)
    requires among <= time.Keys && among != {}
    ensures best in among && forall k :: k in among ==> time[best] <= time[k]
  {
    best :| best in among;
    var rest := among - {best};
    while rest != {}
      invariant rest <= among && best in among - rest
      invariant forall k :: k in among - rest ==> time[best] <= time[k]
      decreases rest
    {
      var k :| k in rest;
      if time[k] < time[best] {
        best := k;
      }
      rest := rest - {k};
    }
  }

  /** `rows` come first, `rest` are the keys still to list. */
  ghost predicate Listing<K>(time: map<K, int>, rows: seq<K>, rest: set<K>) {
    && rest <= time.Keys
    && |rows| + |rest| == |time|
    && Distinct(rows)
    && (forall i :: 0 <= i < |rows| ==> rows[i] in time && rows[i] !in rest)
    && (forall k :: k in time && k !in rest ==> k in rows)
    && (forall i, j :: 0 <= i < j < |rows| ==> time[rows[i]] <= time[rows[j]])
    && (forall i, k :: 0 <= i < |rows| && k in rest ==> time[rows[i]] <= time[k])
  }

  lemma ListingGrows<K>(time: map<K, int>, rows: seq<K>, rest: set<K>, best: K)
    requires Listing(time, rows, rest)
    requires best in rest && forall k :: k in rest ==> time[best] <= time[k]
    ensures Listing(time, rows + [best], rest - {best})
  {
    var rows' := rows + [best];
    forall k | k in time && k !in rest - {best}
      ensures k in rows'
    {
      if k == best {
        assert rows'[|rows|] == best;
      } else {
        assert k in rows;
      }
    }
  }

  method ListOldest<K(==)>(time: map<K, int>, limit: nat) returns (rows: seq<K>)
    ensures OldestFirst(time, rows, limit)
  {
    rows := [];
    var rest := time.Keys;
    while |rows| < limit && rest != {}
      invariant Listing(time, rows, rest) && |rows| <= limit
      decreases rest
    {
      var best := FindOldest(time, rest);
      ListingGrows(time, rows, rest, best);
      rows := rows + [best];
      rest := rest - {best};
    }
  }

  lemma {:induction false} DistinctSize<K>(rows: seq<K>)
    requires Distinct(rows)
    ensures |set k | k in rows| == |rows|
  {
    if rows == [] {
    } else {
      var last := rows[|rows| - 1];
      var rest := rows[..|rows| - 1];
      DistinctSize(rest);
      assert (set k | k in rows) == (set k | k in rest) + {last};
      assert last !in rest;
    }
  }

  /** A listing whose rows all come from fewer keys than the limit is everything there is. */
  lemma ListingExhausts<K>(time: map<K, int>, rows: seq<K>, limit: nat, marked: set<K>)
    requires OldestFirst(time, rows, limit)
    requires (forall i :: 0 <= i < |rows| ==> rows[i] in marked) && |marked| < limit
    ensures time.Keys <= marked
  {
    DistinctSize(rows);
    var listed := set k | k in rows;
    SubsetSize(listed, marked);
    assert |listed| == |time.Keys|;
    SubsetEqual(listed, time.Keys);
  }

  lemma {:induction false} SubsetSize<K>(a: set<K>, b: set<K>)
    requires a <= b
    ensures |a| <= |b|
  {
    if a == {} {
    } else {
      var k :| k in a;
      SubsetSize(a - {k}, b - {k});
    }
  }

  lemma SubsetEqual<K>(a: set<K>, b: set<K>)
    requires a <= b && |a| == |b|
    ensures a == b
  {
    if b - a != {} {
      var k :| k in b - a;
      SubsetSize(a, b - {k});
    }
    assert b <= a <==> b - a == {};
  }
}
