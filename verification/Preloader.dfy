/** The preloader's task set, its readahead range and the next-episode choice
    (internal/preloader/preloader.go). */
module Preloader {
  import opened Basics
  import opened Blocks
  import opened NatOrder
  import opened Oldest

  class Preloader {
    var pendingTasks: set<string>

    constructor ()
      ensures pendingTasks == {}
    {
      pendingTasks := {};
    }

    method BeginTask(key: string) returns (ok: bool)
      modifies this
      ensures ok == (key !in old(pendingTasks)) && pendingTasks == old(pendingTasks) + {key}
    {
      if key in pendingTasks {
        return false;
      }
      pendingTasks := pendingTasks + {key};
      ok := true;
    }

    method EndTask(key: string)
      modifies this
      ensures pendingTasks == old(pendingTasks) - {key}
    {
      pendingTasks := pendingTasks - {key};
    }
  }

  /** The readahead range behind byte `readPos`. */
  function ReadAhead(readPos: nat, bs: nat, fileSize: nat): Option<(nat, nat)> {
    var start := readPos + bs;
    if start >= fileSize then None
    else Some((start, if start + bs * 2 >= fileSize then fileSize - 1 else start + bs * 2))
  }

  /** There is something to read ahead if and only if the next block starts inside the file. */
  lemma ReadAheadExactly(readPos: nat, bs: nat, fileSize: nat)
    ensures ReadAhead(readPos, bs, fileSize) == None <==> readPos + bs >= fileSize
    ensures readPos + bs < fileSize ==>
              ReadAhead(readPos, bs, fileSize) == Some((readPos + bs, Min(readPos + 3 * bs, fileSize - 1)))
  {
  }

  /** Readahead, described as two blocks, stays inside the file and touches at most three. It touches no more
      than two exactly when the file ends in the block it starts in or in the next one. */
  lemma ReadAheadTouchesTwoExactlyWhen(readPos: nat, bs: nat, fileSize: nat)
    requires bs > 0 && ReadAhead(readPos, bs, fileSize).Some?
    ensures var (start, end) := ReadAhead(readPos, bs, fileSize).value;
            && readPos < start <= end < fileSize
            && |RangeBlocks(start, end, bs)| <= 3
            && (|RangeBlocks(start, end, bs)| <= 2 <==> (fileSize - 1) / bs <= start / bs + 1)
  {
    var (start, end) := ReadAhead(readPos, bs, fileSize).value;
    RangeBlocksExact(start, end, bs);
    AlignedNext(start, bs);
    AlignedNext(start + bs, bs);
    QuotientMonotone(end, start + 2 * bs, bs);
    QuotientMonotone(start + 2 * bs, fileSize - 1, bs);
  }

  /** Behind byte 2 of a fourteen-byte file in blocks of four: bytes 6 to 13, in three blocks. */
  lemma ReadAheadExample()
    ensures ReadAhead(2, 4, 14) == Some((6, 13)) && RangeBlocks(6, 13, 4) == [4, 8, 12]
  {
    KeyUnique(6, 4, 4);
    assert Offsets(16, 13, 4) == [];
    assert Offsets(12, 13, 4) == [12];
    assert Offsets(8, 13, 4) == [8] + [12];
  }

  // ---- sorting names ------------------------------------------------------------------------

  /** `x` goes behind every name that is not greater. */
  function Insert(s: seq<string>, x: string): seq<string> {
    if s == [] then [x]
    else
      var last := |s| - 1;
      if NameLess(x, s[last]) then Insert(s[..last], x) + [s[last]] else s + [x]
  }

  function StableSorted(files: seq<string>): seq<string> {
    if files == [] then [] else Insert(StableSorted(files[..|files| - 1]), files[|files| - 1])
  }

  /** No name stands before a smaller one. */
  ghost predicate Ordered(s: seq<string>) {
    forall i, j :: 0 <= i < j < |s| ==> !NameLess(s[j], s[i])
  }

  /** The names with these tokens, in the order they stand. */
  ghost function Alike(s: seq<string>, t: seq<Token>): seq<string> {
    if s == [] then []
    else Alike(s[..|s| - 1], t) + if Tokens(s[|s| - 1]) == t then [s[|s| - 1]] else []
  }

  lemma AlikeSnoc(s: seq<string>, x: string, t: seq<Token>)
    ensures Alike(s + [x], t) == Alike(s, t) + if Tokens(x) == t then [x] else []
  {
    assert (s + [x])[..|s|] == s;
  }

  /** Two lists with the same names in the same order within every class of equals. */
  ghost predicate SameAlike(a: seq<string>, b: seq<string>) {
    forall t :: Alike(a, t) == Alike(b, t)
  }

  lemma {:induction false} InsertMembers(s: seq<string>, x: string)
    ensures multiset(Insert(s, x)) == multiset(s) + multiset{x}
    ensures forall y :: y in Insert(s, x) <==> y in s || y == x
    ensures Distinct(s) && x !in s ==> Distinct(Insert(s, x))
  {
    if s == [] {
    } else {
      var init, m := s[..|s| - 1], s[|s| - 1];
      assert s == init + [m];
      InsertMembers(init, x);
      DistinctSnoc(init, m);
      DistinctSnoc(Insert(init, x), m);
      DistinctSnoc(s, x);
    }
  }

  lemma {:induction false} InsertOrdered(s: seq<string>, x: string)
    requires Ordered(s)
    ensures Ordered(Insert(s, x))
  {
    if s == [] {
    } else {
      var last := |s| - 1;
      var init, m := s[..last], s[last];
      assert s == init + [m];
      if NameLess(x, m) {
        InsertOrdered(init, x);
        InsertMembers(init, x);
        OrderedBefore(init, Insert(init, x), m, x);
      } else {
        forall i | 0 <= i < |s|
          ensures !NameLess(x, s[i])
        {
          StrictWeakOrder(s[i], m, x);
          StrictWeakOrder(x, s[i], m);
          StrictWeakOrder(m, x, s[i]);
        }
      }
    }
  }

  /** Names with different tokens may change places. */
  lemma AlikeSwap(init: seq<string>, front: seq<string>, x: string, m: string, t: seq<Token>)
    requires Alike(front, t) == Alike(init + [x], t) && Tokens(x) != Tokens(m)
    ensures Alike(front + [m], t) == Alike(init + [m] + [x], t)
  {
    AlikeSnoc(front, m, t);
    AlikeSnoc(init, x, t);
    AlikeSnoc(init, m, t);
    AlikeSnoc(init + [m], x, t);
  }

  lemma {:induction false} InsertStable(s: seq<string>, x: string)
    ensures SameAlike(Insert(s, x), s + [x])
  {
    if s == [] {
    } else {
      var init, m := s[..|s| - 1], s[|s| - 1];
      assert s == init + [m];
      if NameLess(x, m) {
        InsertStable(init, x);
        StrictWeakOrder(x, m, x);
        forall t
          ensures Alike(Insert(init, x) + [m], t) == Alike(init + [m] + [x], t)
        {
          AlikeSwap(init, Insert(init, x), x, m, t);
        }
      }
    }
  }

  lemma OrderedBefore(init: seq<string>, front: seq<string>, m: string, x: string)
    requires Ordered(init + [m]) && NameLess(x, m) && Ordered(front)
    requires forall y :: y in front <==> y in init || y == x
    ensures Ordered(front + [m])
  {
    forall i | 0 <= i < |front|
      ensures !NameLess(m, front[i])
    {
      var y := front[i];
      assert y in front;
      if y in init {
        var k :| 0 <= k < |init| && init[k] == y;
        assert (init + [m])[k] == y && (init + [m])[|init|] == m;
      } else {
        StrictWeakOrder(m, x, m);
        StrictWeakOrder(x, m, x);
      }
    }
  }

  lemma DistinctSnoc(s: seq<string>, x: string)
    ensures Distinct(s + [x]) <==> Distinct(s) && x !in s
    ensures forall y :: y in s + [x] <==> y in s || y == x
  {
    var t := s + [x];
    assert t[|s|] == x && forall i :: 0 <= i < |s| ==> t[i] == s[i];
  }

  /** Sorting keeps the names, puts them in natural order and keeps equals in their given order. */
  lemma {:induction false} SortedOk(files: seq<string>)
    ensures Ordered(StableSorted(files))
    ensures multiset(StableSorted(files)) == multiset(files)
    ensures Distinct(files) ==> Distinct(StableSorted(files))
    ensures SameAlike(StableSorted(files), files)
  {
    if files == [] {
    } else {
      var init, x := files[..|files| - 1], files[|files| - 1];
      assert files == init + [x];
      SortedOk(init);
      var s := StableSorted(init);
      DistinctSnoc(init, x);
      assert x in s <==> x in multiset(s);
      InsertMembers(s, x);
      InsertOrdered(s, x);
      InsertStable(s, x);
      forall t
        ensures Alike(StableSorted(files), t) == Alike(files, t)
      {
        AlikeSnoc(s, x, t);
        AlikeSnoc(init, x, t);
      }
    }
  }

  method SortStable(files: seq<string>) returns (sorted: seq<string>)
    ensures sorted == StableSorted(files)
  {
    sorted := [];
    for i := 0 to |files|
      invariant sorted == StableSorted(files[..i])
    {
      assert files[..i + 1][..i] == files[..i];
      sorted := PutInPlace(sorted, files[i]);
    }
    assert files[..|files|] == files;
  }

  lemma InsertTurn(s: seq<string>, x: string, j: nat)
    requires 0 < j <= |s|
    ensures !NameLess(x, s[j - 1]) ==> Insert(s[..j], x) == s[..j] + [x]
    ensures NameLess(x, s[j - 1]) ==> Insert(s[..j], x) + s[j..] == Insert(s[..j - 1], x) + s[j - 1..]
  {
    var front := s[..j];
    assert front[..j - 1] == s[..j - 1] && front[j - 1] == s[j - 1];
    assert s[j - 1..] == [s[j - 1]] + s[j..];
  }

  method PutInPlace(s: seq<string>, x: string) returns (r: seq<string>)
    ensures r == Insert(s, x)
  {
    var j := |s|;
    assert s[..j] == s && s[j..] == [];
    while j > 0
      invariant 0 <= j <= |s| && Insert(s, x) == Insert(s[..j], x) + s[j..]
    {
      var less := NatLess(x, s[j - 1]);
      InsertTurn(s, x, j);
      if !less {
        return s[..j] + [x] + s[j..];
      }
      j := j - 1;
    }
    r := [x] + s;
  }

  // ---- the next episode ---------------------------------------------------------------------

  /** The name behind the first occurrence of `current` that has one behind it. */
  function NextName(sorted: seq<string>, current: string): string {
    if |sorted| < 2 then ""
    else if sorted[0] == current then sorted[1]
    else NextName(sorted[1..], current)
  }

  method NextEpisode(files: seq<string>, current: string) returns (next: string)
    ensures next == NextName(StableSorted(files), current)
  {
    var sorted := SortStable(files);
    for i := 0 to |sorted|
      invariant NextName(sorted, current) == NextName(sorted[i..], current)
    {
      assert sorted[i..][1..] == sorted[i + 1..];
      if sorted[i] == current && i + 1 < |sorted| {
        return sorted[i + 1];
      }
    }
    next := "";
  }

  lemma {:induction false} NextInDistinct(sorted: seq<string>, k: nat)
    requires Distinct(sorted) && k < |sorted|
    ensures NextName(sorted, sorted[k]) == if k + 1 < |sorted| then sorted[k + 1] else ""
  {
    if k == 0 {
    } else {
      NextInDistinct(sorted[1..], k - 1);
    }
  }

  /** A name that is not listed has no next episode. */
  lemma {:induction false} NextOfStranger(sorted: seq<string>, current: string)
    requires current !in sorted
    ensures NextName(sorted, current) == ""
  {
    if |sorted| < 2 {
    } else {
      NextOfStranger(sorted[1..], current);
    }
  }

  /** `k` times NextEpisode from the first name in natural order. */
  function Walk(files: seq<string>, k: nat): string
    requires files != []
  {
    if k == 0 then (if StableSorted(files) == [] then "" else StableSorted(files)[0])
    else NextName(StableSorted(files), Walk(files, k - 1))
  }

  /** The walk comes to `f` within as many steps as there are files. */
  ghost predicate Visits(files: seq<string>, f: string)
    requires files != []
  {
    exists k :: 0 <= k < |files| && Walk(files, k) == f
  }

  lemma SortedDistinct(files: seq<string>)
    requires Distinct(files)
    ensures |StableSorted(files)| == |files| && Distinct(StableSorted(files))
  {
    SortedOk(files);
    assert |multiset(StableSorted(files))| == |multiset(files)|;
  }

  lemma {:induction false} WalkIsSorted(files: seq<string>, k: nat)
    requires files != [] && Distinct(files) && k < |files|
    ensures |StableSorted(files)| == |files| && Walk(files, k) == StableSorted(files)[k]
  {
    SortedDistinct(files);
    if k == 0 {
    } else {
      WalkIsSorted(files, k - 1);
      NextInDistinct(StableSorted(files), k - 1);
    }
  }

  lemma WalkReaches(files: seq<string>, f: string)
    requires files != [] && Distinct(files) && f in files
    ensures Visits(files, f)
  {
    var sorted := StableSorted(files);
    SortedOk(files);
    WalkIsSorted(files, 0);
    assert f in multiset(files) && f in multiset(sorted);
    var k :| 0 <= k < |sorted| && sorted[k] == f;
    WalkIsSorted(files, k);
  }

  lemma WalkAdvances(files: seq<string>, k: nat, l: nat)
    requires files != [] && Distinct(files) && k < l < |files|
    ensures Walk(files, k) != Walk(files, l) && !NameLess(Walk(files, l), Walk(files, k))
  {
    SortedOk(files);
    WalkIsSorted(files, k);
    WalkIsSorted(files, l);
  }

  lemma WalkEnds(files: seq<string>)
    requires files != [] && Distinct(files)
    ensures Walk(files, |files|) == ""
  {
    var sorted, last := StableSorted(files), |files| - 1;
    WalkIsSorted(files, last);
    SortedDistinct(files);
    NextInDistinct(sorted, last);
  }

  /** Walking from the first episode visits every file exactly once, in natural order, then ends. */
  lemma EpisodeWalk(files: seq<string>)
    requires files != [] && Distinct(files)
    ensures forall f :: f in files ==> Visits(files, f)
    ensures forall k, l :: 0 <= k < l < |files| ==> Walk(files, k) != Walk(files, l)
                                                    && !NameLess(Walk(files, l), Walk(files, k))
    ensures Walk(files, |files|) == ""
  {
    forall f | f in files
      ensures Visits(files, f)
    {
      WalkReaches(files, f);
    }
    forall k, l | 0 <= k < l < |files|
      ensures Walk(files, k) != Walk(files, l) && !NameLess(Walk(files, l), Walk(files, k))
    {
      WalkAdvances(files, k, l);
    }
    WalkEnds(files);
  }

  /** "E2" is followed by "E10" and that by nothing. */
  lemma NextEpisodeExample()
    ensures NextName(StableSorted(["E10", "E2"]), "E2") == "E10" && NextName(StableSorted(["E10", "E2"]), "E10") == ""
  {
    EpisodeNumbers();
    var files := ["E10", "E2"];
    assert files[..1] == ["E10"] && ["E10"][..0] == [] && StableSorted(["E10"]) == ["E10"];
    assert StableSorted(files) == Insert(["E10"], "E2") == ["E2", "E10"];
  }

  // ---- any stable sort will do --------------------------------------------------------------

  lemma {:induction false} AlikeConcat(a: seq<string>, b: seq<string>, t: seq<Token>)
    ensures Alike(a + b, t) == Alike(a, t) + Alike(b, t)
    decreases |b|
  {
    if b == [] {
      assert a + b == a;
    } else {
      var init, m := b[..|b| - 1], b[|b| - 1];
      AlikeConcat(a, init, t);
      assert b == init + [m] && a + b == (a + init) + [m];
      AlikeSnoc(a + init, m, t);
      AlikeSnoc(init, m, t);
    }
  }

  lemma AlikeCons(s: seq<string>, t: seq<Token>)
    requires s != []
    ensures Alike(s, t) == (if Tokens(s[0]) == t then [s[0]] else []) + Alike(s[1..], t)
  {
    assert s == [s[0]] + s[1..] && [] + [s[0]] == [s[0]];
    AlikeConcat([s[0]], s[1..], t);
    AlikeSnoc([], s[0], t);
  }

  lemma {:induction false} AlikeFirst(s: seq<string>, x: string)
    requires Alike(s, Tokens(x)) != [] && Alike(s, Tokens(x))[0] == x
    ensures x in s
  {
    AlikeCons(s, Tokens(x));
    if Tokens(s[0]) == Tokens(x) {
    } else {
      AlikeFirst(s[1..], x);
    }
  }

  /** Order and stability leave one result: whatever algorithm the library uses, it is this list. */
  lemma {:induction false} StableSortUnique(a: seq<string>, b: seq<string>)
    requires Ordered(a) && Ordered(b) && SameAlike(a, b)
    ensures a == b
  {
    if a == [] && b == [] {
    } else if a == [] {
      AlikeCons(b, Tokens(b[0]));
    } else if b == [] {
      AlikeCons(a, Tokens(a[0]));
    } else {
      var x, y := a[0], b[0];
      AlikeCons(a, Tokens(x));
      AlikeCons(b, Tokens(y));
      AlikeFirst(b, x);
      AlikeFirst(a, y);
      StrictWeakOrder(x, y, x);
      assert !NameLess(x, y) by {
        StrictWeakOrder(x, x, x);
      }
      assert !NameLess(y, x) by {
        StrictWeakOrder(y, y, y);
      }
      assert x == y by {
        AlikeCons(b, Tokens(x));
      }
      forall t
        ensures Alike(a[1..], t) == Alike(b[1..], t)
      {
        AlikeCons(a, t);
        AlikeCons(b, t);
        var skip := if Tokens(x) == t then 1 else 0;
        assert Alike(a[1..], t) == Alike(a, t)[skip..];
        assert Alike(b[1..], t) == Alike(b, t)[skip..];
      }
      StableSortUnique(a[1..], b[1..]);
      assert a == [x] + a[1..] && b == [y] + b[1..];
    }
  }
}
