/** The slow-source mark in folder names (internal/marker/marker.go:60-81). */
module Marker {

  const DOT: char := '\U{00B7}'
  const SLOW: string := [DOT, 's', 'l', 'o', 'w']
  const MARK: string := [DOT, 's', 'l', 'o', 'w', DOT]

  predicate MatchAt(s: string, m: string, i: nat) {
    i + |m| <= |s| && s[i..i + |m|] == m
  }

  /** strings.Index from position `i` on: the first match, or -1. */
  function Find(s: string, m: string, i: nat): (r: int)
    ensures r == -1 || i <= r
    ensures r >= 0 ==> MatchAt(s, m, r)
    ensures forall j: nat :: i <= j && (r >= 0 ==> j < r) ==> !MatchAt(s, m, j)
    decreases |s| - i
  {
    if i + |m| > |s| then -1 else if MatchAt(s, m, i) then i else Find(s, m, i + 1)
  }

  /** Where StripMarker would cut a segment; a mark at its very front does not count. */
  predicate Cuttable(seg: string) {
    Find(seg, MARK, 0) > 0
  }

  /** A segment is cut if and only if it does not begin with the mark and has it somewhere; and then before the
      first one. */
  lemma CutAtFirstMark(seg: string)
    ensures Cuttable(seg) <==> !(MARK <= seg) && exists i: nat :: MatchAt(seg, MARK, i)
    ensures Cuttable(seg) ==> var i := Find(seg, MARK, 0);
                              MatchAt(seg, MARK, i) && forall k: nat :: k < i ==> !MatchAt(seg, MARK, k)
  {
    assert |MARK| == 6;
    assert MARK <= seg <==> MatchAt(seg, MARK, 0);
  }

  function MarkedName(name: string, isSlow: bool, bandwidth: string): string {
    if !isSlow then name else name + MARK + bandwidth + "MBps"
  }

  /** The folder of a source that is not slow keeps its name; a slow one's is followed by the mark and the bandwidth. */
  lemma MarkedNameIs(name: string, bandwidth: string)
    ensures MarkedName(name, false, bandwidth) == name
    ensures MarkedName(name, true, bandwidth) == name + "\U{00B7}slow\U{00B7}" + bandwidth + "MBps"
  {
    assert MARK == "\U{00B7}slow\U{00B7}";
  }

  // ---- paths --------------------------------------------------------------------------------

  predicate IsSegment(s: string) {
    '/' !in s
  }

  ghost predicate AreSegments(parts: seq<string>) {
    forall i :: 0 <= i < |parts| ==> IsSegment(parts[i])
  }

  function Split(s: string): (parts: seq<string>)
    ensures parts != []
  {
    if s == [] then [""]
    else
      var rest := Split(s[1..]);
      if s[0] == '/' then [""] + rest else [[s[0]] + rest[0]] + rest[1..]
  }

  function Join(parts: seq<string>): string
    requires parts != []
  {
    if |parts| == 1 then parts[0] else parts[0] + "/" + Join(parts[1..])
  }

  lemma {:induction false} JoinSplit(s: string)
    ensures Join(Split(s)) == s && AreSegments(Split(s))
  {
    if s == [] {
    } else {
      JoinSplit(s[1..]);
      var rest := Split(s[1..]);
      if s[0] == '/' {
        assert ([""] + rest)[1..] == rest;
        assert Join([""] + rest) == "" + "/" + Join(rest) == s;
      } else {
        assert ([[s[0]] + rest[0]] + rest[1..])[1..] == rest[1..];
        assert Join([[s[0]] + rest[0]] + rest[1..]) == [s[0]] + Join(rest) == s;
      }
    }
  }

  lemma {:induction false} SplitPrefixed(seg: string, s: string)
    requires IsSegment(seg)
    ensures Split(seg + s) == [seg + Split(s)[0]] + Split(s)[1..]
  {
    if seg == [] {
      assert seg + s == s;
      assert seg + Split(s)[0] == Split(s)[0];
    } else {
      assert '/' !in seg[1..] && seg[0] in seg;
      SplitPrefixed(seg[1..], s);
      assert (seg + s)[1..] == seg[1..] + s;
      assert [seg[0]] + (seg[1..] + Split(s)[0]) == seg + Split(s)[0];
    }
  }

  lemma {:induction false} SplitJoin(parts: seq<string>)
    requires parts != [] && AreSegments(parts)
    ensures Split(Join(parts)) == parts
  {
    if |parts| == 1 {
      SplitPrefixed(parts[0], "");
      assert parts[0] + "" == parts[0];
    } else {
      var s := Join(parts[1..]);
      SplitJoin(parts[1..]);
      SplitPrefixed(parts[0], "/" + s);
      assert ("/" + s)[1..] == s;
      assert parts[0] + "/" + s == parts[0] + ("/" + s);
      assert parts[0] + "" == parts[0];
    }
  }

  // ---- stripping ----------------------------------------------------------------------------

  /** The first segment that can be cut is. */
  function Stripped(parts: seq<string>): seq<string> {
    if parts == [] then []
    else if Cuttable(parts[0]) then [parts[0][..Find(parts[0], MARK, 0)]] + parts[1..]
    else [parts[0]] + Stripped(parts[1..])
  }

  method MarkFolderName(name: string, isSlow: bool, bandwidth: string) returns (marked: string)
    ensures marked == MarkedName(name, isSlow, bandwidth)
  {
    if !isSlow {
      return name;
    }
    marked := name + MARK + bandwidth + "MBps";
  }

  method StripMarker(displayPath: string) returns (path: string, ok: bool)
    ensures ok
    ensures |Stripped(Split(displayPath))| > 0 && path == Join(Stripped(Split(displayPath)))
  {
    var parts := Split(displayPath);
    for i := 0 to |parts|
      invariant forall k :: 0 <= k < i ==> !Cuttable(parts[k])
    {
      var idx := Find(parts[i], MARK, 0);
      if idx > 0 {
        StrippedAt(parts, i);
        return Join(parts[i := parts[i][..idx]]), true;
      }
    }
    StrippedShape(parts);
    JoinSplit(displayPath);
    path, ok := displayPath, true;
  }

  ghost predicate NoneCuttable(parts: seq<string>) {
    forall i :: 0 <= i < |parts| ==> !Cuttable(parts[i])
  }

  lemma NoneCuttableCons(head: string, tail: seq<string>)
    ensures NoneCuttable([head] + tail) <==> !Cuttable(head) && NoneCuttable(tail)
  {
    var parts := [head] + tail;
    assert parts[0] == head;
    assert forall i :: 0 <= i < |tail| ==> parts[i + 1] == tail[i];
    assert forall i :: 1 <= i < |parts| ==> parts[i] == tail[i - 1];
  }

  lemma StrippedCons(head: string, tail: seq<string>, goal: seq<string>)
    ensures Stripped([head] + tail) == [head] + goal <==> !Cuttable(head) && Stripped(tail) == goal
  {
    var parts := [head] + tail;
    assert parts[1..] == tail && ([head] + goal)[1..] == goal;
    if Cuttable(head) {
      assert |Stripped(parts)[0]| < |head|;
    } else {
      assert Stripped(parts) == [head] + Stripped(tail);
      assert Stripped(parts)[1..] == Stripped(tail);
    }
  }

  /** The cut falls on the first segment that can be cut. */
  lemma {:induction false} StrippedAt(parts: seq<string>, i: nat)
    requires i < |parts| && Cuttable(parts[i]) && forall k :: 0 <= k < i ==> !Cuttable(parts[k])
    ensures Stripped(parts) == parts[i := parts[i][..Find(parts[i], MARK, 0)]]
  {
    if i == 0 {
    } else {
      StrippedAt(parts[1..], i - 1);
      assert parts == [parts[0]] + parts[1..];
    }
  }

  lemma {:induction false} StrippedShape(parts: seq<string>)
    ensures |Stripped(parts)| == |parts|
    ensures AreSegments(parts) ==> AreSegments(Stripped(parts))
    ensures Stripped(parts) == parts <==> NoneCuttable(parts)
  {
    if parts == [] {
    } else {
      StrippedShape(parts[1..]);
      assert parts == [parts[0]] + parts[1..];
      StrippedCons(parts[0], parts[1..], parts[1..]);
      NoneCuttableCons(parts[0], parts[1..]);
    }
  }

  /** A path is left alone exactly when no segment carries a mark behind its first character. */
  lemma UnmarkedExactlyWhen(path: string)
    ensures Stripped(Split(path)) != []
    ensures Join(Stripped(Split(path))) == path <==> NoneCuttable(Split(path))
  {
    var parts := Split(path);
    JoinSplit(path);
    StrippedShape(parts);
    SplitJoin(Stripped(parts));
  }

  // ---- the round trip -----------------------------------------------------------------------

  predicate EndsWith(s: string, t: string) {
    |t| <= |s| && s[|s| - |t|..] == t
  }

  /** A match that starts inside the name lies in it or overlaps the mark by its last character. */
  lemma MatchInside(name: string, rest: string, j: nat)
    requires j < |name|
    ensures MatchAt(name + MARK + rest, MARK, j)
            <==> MatchAt(name, MARK, j) || (j + 5 == |name| && EndsWith(name, SLOW))
  {
    var s := name + MARK + rest;
    assert |MARK| == 6 && |SLOW| == 5;
    if j + 6 <= |name| {
      assert s[j..j + 6] == name[j..j + 6];
    } else {
      assert s[|name|] == DOT;
      if j + 5 == |name| {
        assert s[j..j + 6] == name[j..] + [DOT];
        assert MARK == SLOW + [DOT];
        if s[j..j + 6] == MARK {
          assert name[j..] == s[j..j + 6][..5] == MARK[..5] == SLOW;
        }
      } else {
        assert s[j..j + 6][|name| - j] == DOT != MARK[|name| - j];
      }
    }
  }

  /** The names that survive being marked and stripped, apart from the empty one. */
  predicate Restorable(name: string) {
    Find(name, MARK, 0) == -1 && !EndsWith(name, SLOW)
  }

  /** The mark is found right behind the name if and only if the name neither contains a mark nor ends in
      one that lacks its last dot. */
  lemma FoundBehindName(name: string, rest: string)
    ensures Find(name + MARK + rest, MARK, 0) == |name| <==> Restorable(name)
  {
    var s := name + MARK + rest;
    var r := Find(s, MARK, 0);
    assert s[|name|..|name| + 6] == MARK;
    assert MatchAt(s, MARK, |name|);
    if Find(name, MARK, 0) >= 0 {
      MatchInside(name, rest, Find(name, MARK, 0));
    } else if EndsWith(name, SLOW) {
      MatchInside(name, rest, |name| - 5);
    } else if r < |name| {
      MatchInside(name, rest, r);
    }
  }

  /** Marking keeps folders apart: two restorable folders shown under one name are the same folder at the same
      bandwidth, and no marked folder is shown under the name of an unmarked restorable one. */
  lemma MarkedNamesApart(a: string, bandwidthA: string, b: string, slowB: bool, bandwidthB: string)
    requires Restorable(a) && Restorable(b)
    requires MarkedName(a, true, bandwidthA) == MarkedName(b, slowB, bandwidthB)
    ensures slowB && a == b && bandwidthA == bandwidthB
  {
    var shown := MarkedName(a, true, bandwidthA);
    var restA, restB := bandwidthA + "MBps", bandwidthB + "MBps";
    assert shown == a + MARK + restA;
    FoundBehindName(a, restA);
    if slowB {
      assert shown == b + MARK + restB;
      FoundBehindName(b, restB);
      assert a == shown[..|a|] == b;
      assert restA == shown[|a| + 6..] == restB;
      assert bandwidthA == restA[..|bandwidthA|] && bandwidthB == restB[..|bandwidthB|];
    }
  }

  lemma StrippedFirst(name: string, rest: string, after: seq<string>)
    ensures Stripped([name + MARK + rest] + after) == [name] + after <==> name != "" && Restorable(name)
  {
    var marked := name + MARK + rest;
    var parts := [marked] + after;
    FoundBehindName(name, rest);
    assert parts[1..] == after && ([name] + after)[1..] == after;
    if Cuttable(marked) {
      var cut := marked[..Find(marked, MARK, 0)];
      assert Stripped(parts) == [cut] + after;
      assert marked[..|name|] == name;
      assert ([cut] + after)[0] == cut && ([name] + after)[0] == name;
    } else {
      assert Stripped(parts)[0] == marked && |marked| > |name|;
    }
  }

  /** What becomes of a marked folder: cut back to the name exactly when the name is not empty, neither
      contains a mark nor ends in a mark without its last dot, and no segment before it can be cut. */
  lemma {:induction false} StrippedMarked(before: seq<string>, name: string, rest: string, after: seq<string>)
    ensures Stripped(before + [name + MARK + rest] + after) == before + [name] + after
            <==> NoneCuttable(before) && name != "" && Restorable(name)
  {
    var marked := name + MARK + rest;
    if before == [] {
      StrippedFirst(name, rest, after);
      assert [] + [marked] + after == [marked] + after && [] + [name] + after == [name] + after;
    } else {
      var head, tail := before[0], before[1..];
      assert before == [head] + tail;
      StrippedMarked(tail, name, rest, after);
      assert before + [marked] + after == [head] + (tail + [marked] + after);
      assert before + [name] + after == [head] + (tail + [name] + after);
      StrippedCons(head, tail + [marked] + after, tail + [name] + after);
      NoneCuttableCons(head, tail);
    }
  }

  lemma MarkedSegment(name: string, bandwidth: string)
    requires IsSegment(name) && IsSegment(bandwidth)
    ensures MarkedName(name, true, bandwidth) == name + MARK + (bandwidth + "MBps")
    ensures IsSegment(MarkedName(name, true, bandwidth))
  {
    assert '/' !in MARK;
  }

  lemma SegmentsAround(before: seq<string>, seg: string, after: seq<string>)
    requires AreSegments(before) && IsSegment(seg) && AreSegments(after)
    ensures AreSegments(before + [seg] + after)
  {
  }

  lemma JoinInjective(a: seq<string>, b: seq<string>)
    requires a != [] && AreSegments(a) && b != [] && AreSegments(b)
    ensures Join(a) == Join(b) <==> a == b
  {
    SplitJoin(a);
    SplitJoin(b);
  }

  /** Marking a folder of a path and stripping the path gives back the original path if and only if the
      folder's name is not empty, neither contains the mark nor ends in "slow" behind a dot, and no segment
      before it carries a mark that can be cut. */
  lemma MarkRoundTripExactlyWhen(before: seq<string>, name: string, bandwidth: string, after: seq<string>)
    requires AreSegments(before) && IsSegment(name) && IsSegment(bandwidth) && AreSegments(after)
    ensures var shown := Join(before + [MarkedName(name, true, bandwidth)] + after);
            && Stripped(Split(shown)) != []
            && (Join(Stripped(Split(shown))) == Join(before + [name] + after)
                <==> NoneCuttable(before) && name != "" && Restorable(name))
  {
    var marked := MarkedName(name, true, bandwidth);
    MarkedSegment(name, bandwidth);
    SegmentsAround(before, marked, after);
    SegmentsAround(before, name, after);
    var parts := before + [marked] + after;
    SplitJoin(parts);
    StrippedShape(parts);
    StrippedMarked(before, name, bandwidth + "MBps", after);
    JoinInjective(Stripped(parts), before + [name] + after);
  }
}
