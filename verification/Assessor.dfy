/** The throttle loop: sub-source profiles (internal/assessor/assessor.go, internal/assessor/probe.go), the
    plan made from them (internal/fetcher/plan.go) and the number of workers a fetch then uses
    (internal/fetcher/fetcher.go:57-78). */
module Assessor {
  import opened Basics

  /** The friendliness column; `Blank` is the empty string of a row made by a probe mark. */
  datatype Friendliness = Blank | Friendly | Unfriendly | Throttled | Unknown

  datatype Row = Row(bandwidth: real, friendly: Friendliness, suggestedN: int, isSlow: bool, updatedAt: int)

  type Profiles = map<string, Row>

  datatype Config = Config(maxConcurrency: int, maxAge: int, maxSamples: int, probeInterval: int, slowBelow: real)

  const UNKNOWN := Row(0.0, Unknown, 1, false, 0)
  const NO_ROW := Row(0.0, Blank, 0, false, 0)

  predicate Expired(cfg: Config, row: Row, now: int) {
    cfg.maxAge > 0 && now - row.updatedAt > cfg.maxAge
  }

  function Profile(cfg: Config, p: Profiles, key: string, now: int): Row {
    if key !in p || Expired(cfg, p[key], now) then UNKNOWN else p[key]
  }

  function RowOf(p: Profiles, key: string): Row {
    if key in p then p[key] else NO_ROW
  }

  function SuggestedN(cfg: Config, f: Friendliness): int {
    if f == Friendly then cfg.maxConcurrency else 1
  }

  /** The row RecordSample writes, given the row it has read and the median of the samples. */
  function SampleRow(cfg: Config, prev: Row, bandwidth: real, now: int): Row {
    var f := if prev.friendly == Blank then Unknown else prev.friendly;
    Row(bandwidth, f, SuggestedN(cfg, f), bandwidth < cfg.slowBelow, now)
  }

  function ThrottledRow(prev: Row, now: int): Row {
    prev.(friendly := Throttled, suggestedN := 1, updatedAt := now)
  }

  /** Whether EnsureProfile marks the row as probed. */
  predicate Probes(cfg: Config, p: Profiles, key: string, now: int) {
    key !in p || (Expired(cfg, p[key], now) && now - p[key].updatedAt >= cfg.probeInterval)
  }

  // ---- the median of the samples ------------------------------------------------------------

  type Samples = map<string, seq<real>>

  function SamplesOf(samples: Samples, key: string): seq<real> {
    if key in samples then samples[key] else []
  }

  /** The last `limit` samples, in the order they came; a negative limit is none, as in SQL
      (internal/store/store.go:136-152). */
  function Latest(xs: seq<real>, limit: int): seq<real> {
    if 0 <= limit < |xs| then xs[|xs| - limit..] else xs
  }

  function Inserted(s: seq<real>, x: real): (r: seq<real>)
    ensures |r| == |s| + 1
    ensures forall y :: y in r ==> y in s || y == x
  {
    if s == [] || s[|s| - 1] <= x then s + [x]
    else Inserted(s[..|s| - 1], x) + [s[|s| - 1]]
  }

  function Ascending(xs: seq<real>): (r: seq<real>)
    ensures |r| == |xs|
  {
    if xs == [] then [] else Inserted(Ascending(xs[..|xs| - 1]), xs[|xs| - 1])
  }

  function Median(xs: seq<real>): real {
    if xs == [] then 0.0 else Ascending(xs)[|xs| / 2]
  }

  /** How many of the samples are below `x`. */
  function Below(xs: seq<real>, x: real): (n: nat)
    ensures n <= |xs|
  {
    if xs == [] then 0 else Below(xs[..|xs| - 1], x) + if xs[|xs| - 1] < x then 1 else 0
  }

  ghost predicate MostBelow(xs: seq<real>, x: real) {
    2 * Below(xs, x) > |xs|
  }

  lemma BelowSnoc(xs: seq<real>, y: real, x: real)
    ensures Below(xs + [y], x) == Below(xs, x) + if y < x then 1 else 0
  {
    assert (xs + [y])[..|xs|] == xs;
  }

  ghost predicate IsAscending(xs: seq<real>) {
    forall i, j :: 0 <= i < j < |xs| ==> xs[i] <= xs[j]
  }

  lemma {:induction false} InsertedAscends(s: seq<real>, y: real)
    requires IsAscending(s)
    ensures IsAscending(Inserted(s, y))
  {
    if s == [] || s[|s| - 1] <= y {
    } else {
      var front, last := Inserted(s[..|s| - 1], y), s[|s| - 1];
      InsertedAscends(s[..|s| - 1], y);
      forall i | 0 <= i < |front|
        ensures front[i] <= last
      {
        assert front[i] in front;
      }
    }
  }

  lemma {:induction false} InsertedBelow(s: seq<real>, y: real, x: real)
    ensures Below(Inserted(s, y), x) == Below(s, x) + if y < x then 1 else 0
  {
    if s == [] || s[|s| - 1] <= y {
      BelowSnoc(s, y, x);
    } else {
      InsertedBelow(s[..|s| - 1], y, x);
      BelowSnoc(Inserted(s[..|s| - 1], y), s[|s| - 1], x);
    }
  }

  lemma {:induction false} AscendingOk(xs: seq<real>, x: real)
    ensures IsAscending(Ascending(xs)) && Below(Ascending(xs), x) == Below(xs, x)
  {
    if xs == [] {
    } else {
      AscendingOk(xs[..|xs| - 1], x);
      InsertedAscends(Ascending(xs[..|xs| - 1]), xs[|xs| - 1]);
      InsertedBelow(Ascending(xs[..|xs| - 1]), xs[|xs| - 1], x);
    }
  }

  lemma {:induction false} BelowAt(s: seq<real>, x: real, k: nat)
    requires IsAscending(s) && k < |s|
    ensures s[k] < x <==> Below(s, x) > k
  {
    var last := |s| - 1;
    if last == 0 {
    } else {
      BelowAt(s[..last], x, if k < last then k else k - 1);
    }
  }

  lemma LatestAreNewest(xs: seq<real>, limit: int)
    ensures limit < 0 || |xs| <= limit ==> Latest(xs, limit) == xs
    ensures 0 <= limit <= |xs| ==> |Latest(xs, limit)| == limit
    ensures |Latest(xs, limit)| <= |xs| && Latest(xs, limit) == xs[|xs| - |Latest(xs, limit)|..]
  {
  }

  /** `Below` counts positions. */
  lemma {:induction false} BelowCounts(xs: seq<real>, x: real)
    ensures Below(xs, x) == |set i | 0 <= i < |xs| && xs[i] < x|
  {
    var all := set i | 0 <= i < |xs| && xs[i] < x;
    if xs == [] {
      assert all == {};
    } else {
      var last := |xs| - 1;
      var init := xs[..last];
      BelowCounts(init, x);
      var before := set i | 0 <= i < last && init[i] < x;
      assert all == before + if xs[last] < x then {last} else {};
    }
  }

  /** The median is below a threshold if and only if more than half of the samples are. */
  lemma MedianBelowExactlyWhen(xs: seq<real>, x: real)
    ensures Median([]) == 0.0
    ensures xs != [] ==> (Median(xs) < x <==> 2 * |set i | 0 <= i < |xs| && xs[i] < x| > |xs|)
    ensures xs != [] ==> (Median(xs) < x <==> MostBelow(xs, x))
  {
    if xs == [] {
      return;
    }
    BelowCounts(xs, x);
    AscendingOk(xs, x);
    BelowAt(Ascending(xs), x, |xs| / 2);
  }

  /** What RecordSample writes, given all samples of the sub-source, oldest first: the median of the newest ones; slow
      if and only if more than half of them are; friendly as before, unknown if it was blank or missing. */
  lemma SampleWrites(cfg: Config, p: Profiles, key: string, all: seq<real>, now: int)
    ensures var newest := if 0 <= cfg.maxSamples < |all| then all[|all| - cfg.maxSamples..] else all;
            var f := if key in p && p[key].friendly != Blank then p[key].friendly else Unknown;
            var row := SampleRow(cfg, RowOf(p, key), Median(Latest(all, cfg.maxSamples)), now);
            && row.friendly == f && row.suggestedN == (if f == Friendly then cfg.maxConcurrency else 1)
            && row.bandwidth == Median(newest) && row.updatedAt == now
            && (newest != [] ==>
                  (row.isSlow <==> 2 * |set i | 0 <= i < |newest| && newest[i] < cfg.slowBelow| > |newest|))
  {
    MedianBelowExactlyWhen(Latest(all, cfg.maxSamples), cfg.slowBelow);
  }

  // ---- the assessor -------------------------------------------------------------------------

  class Assessor {
    var profiles: Profiles
    var samples: Samples
    const cfg: Config

    constructor (cfg: Config)
      ensures profiles == map[] && samples == map[] && this.cfg == cfg
    {
      profiles, samples := map[], map[];
      this.cfg := cfg;
    }

    method GetProfile(key: string, now: int) returns (row: Row)
      ensures row == Profile(cfg, profiles, key, now)
    {
      if key !in profiles {
        return UNKNOWN;
      }
      if cfg.maxAge > 0 && now - profiles[key].updatedAt > cfg.maxAge {
        return UNKNOWN;
      }
      row := profiles[key];
    }

    /** The statements on the samples table: append one and list the latest. */
    method AppendSample(key: string, throughput: real) returns (latest: seq<real>)
      modifies this`samples
      ensures samples == old(samples)[key := SamplesOf(old(samples), key) + [throughput]]
      ensures latest == Latest(samples[key], cfg.maxSamples)
    {
      samples := samples[key := SamplesOf(samples, key) + [throughput]];
      latest := Latest(samples[key], cfg.maxSamples);
    }

    /** The sample is appended, and the row gets the median of the latest ones: it is slow if and only if more
        than half of those are. */
    method RecordSample(key: string, throughput: real, now: int)
      modifies this
      ensures samples == old(samples)[key := SamplesOf(old(samples), key) + [throughput]]
      ensures var latest := Latest(samples[key], cfg.maxSamples);
              && profiles == old(profiles)[key := SampleRow(cfg, RowOf(old(profiles), key), Median(latest), now)]
              && (latest != [] ==> (profiles[key].isSlow <==> MostBelow(latest, cfg.slowBelow)))
    {
      var latest := AppendSample(key, throughput);
      var bandwidth := Median(latest);
      var friendly := if key in profiles then profiles[key].friendly else Blank;
      if friendly == Blank {
        friendly := Unknown;
      }
      var isSlow := bandwidth < cfg.slowBelow;
      profiles := profiles[key := Row(bandwidth, friendly, SuggestedN(cfg, friendly), isSlow, now)];
      MedianBelowExactlyWhen(latest, cfg.slowBelow);
    }

    method MarkThrottled(key: string, now: int)
      modifies this`profiles
      ensures profiles == old(profiles)[key := ThrottledRow(RowOf(old(profiles), key), now)]
      ensures profiles[key].friendly == Throttled && profiles[key].suggestedN == 1 && profiles[key].updatedAt == now
      ensures key in old(profiles) ==> profiles[key].bandwidth == old(profiles)[key].bandwidth
                                       && profiles[key].isSlow == old(profiles)[key].isSlow
    {
      var row := if key in profiles then profiles[key] else NO_ROW;
      profiles := profiles[key := row.(friendly := Throttled, suggestedN := 1, updatedAt := now)];
    }

    method CanProbe(key: string, now: int) returns (ok: bool)
      ensures ok == (key !in profiles || now - profiles[key].updatedAt >= cfg.probeInterval)
    {
      ok := key !in profiles || now - profiles[key].updatedAt >= cfg.probeInterval;
    }

    method EnsureProfile(key: string, now: int)
      modifies this`profiles
      ensures profiles == if Probes(cfg, old(profiles), key, now)
                          then old(profiles)[key := RowOf(old(profiles), key).(updatedAt := now)]
                          else old(profiles)
      ensures key !in old(profiles) ==> profiles[key] == Row(0.0, Blank, 0, false, now)
      ensures key in old(profiles) ==>
                var age := now - old(profiles)[key].updatedAt;
                profiles[key] == if 0 < cfg.maxAge < age && cfg.probeInterval <= age
                                 then old(profiles)[key].(updatedAt := now) else old(profiles)[key]
    {
      if key in profiles && !Expired(cfg, profiles[key], now) {
        return;
      }
      var ok := CanProbe(key, now);
      if !ok {
        return;
      }
      var row := if key in profiles then profiles[key] else NO_ROW;
      profiles := profiles[key := row.(updatedAt := now)];
    }
  }

  // ---- the plan and the workers -------------------------------------------------------------

  /** Plan's N (internal/fetcher/plan.go:31-41). */
  function PlanN(cfg: Config, prof: Row): int {
    var n := if prof.friendly == Friendly && prof.suggestedN > 1 then Min(prof.suggestedN, cfg.maxConcurrency) else 1;
    if n <= 0 then 1 else n
  }

  /** How many workers Fetch starts for `blocks` blocks; `prof` is the profile as read after the probe. */
  function Workers(planN: int, prof: Row, blocks: nat): int {
    var n := if planN < 1 then 1 else planN;
    var decided := if n > 1 && prof.friendly != Friendly && prof.friendly != Unknown then 1 else n;
    Min(decided, blocks)
  }

  /** For any profile and any configuration a plan asks for at least one connection and at most the
      configured number, for more than one only from a friendly sub-source; and Fetch uses at least one and
      at most one a block. */
  lemma PlanBounds(cfg: Config, prof: Row, later: Row, blocks: nat)
    requires blocks > 0
    ensures 1 <= PlanN(cfg, prof) <= Max(1, cfg.maxConcurrency)
    ensures PlanN(cfg, prof) > 1 <==> prof.friendly == Friendly && prof.suggestedN > 1 && cfg.maxConcurrency > 1
    ensures 1 <= Workers(PlanN(cfg, prof), later, blocks) <= Min(PlanN(cfg, prof), blocks)
  {
  }

  /** A plan asks a friendly sub-source for as many connections as suggested, up to the configured number, and any
      other for one; a fetch keeps that number for a sub-source that still is friendly or unknown, and uses one
      otherwise, never more than it has blocks. */
  lemma ConnectionsExactly(cfg: Config, prof: Row, planN: int, later: Row, blocks: nat)
    ensures PlanN(cfg, prof) == if prof.friendly == Friendly && prof.suggestedN > 1 && cfg.maxConcurrency > 1
                                then Min(prof.suggestedN, cfg.maxConcurrency) else 1
    ensures later.friendly == Friendly || later.friendly == Unknown ==>
              Workers(planN, later, blocks) == Min(Max(planN, 1), blocks)
    ensures later.friendly != Friendly && later.friendly != Unknown ==> Workers(planN, later, blocks) == Min(1, blocks)
  {
  }

  // ---- runs ---------------------------------------------------------------------------------

  /** One atomic operation at clock value `now`; the clock may stand or jump between operations. A sample comes
      with the median it leads to, which may be anything. */
  datatype Event =
    | Sample(key: string, bandwidth: real, now: int)
    | Throttle(key: string, now: int)
    | Ensure(key: string, now: int)

  function Apply(cfg: Config, p: Profiles, e: Event): Profiles {
    match e
    case Sample(key, bandwidth, now) => p[key := SampleRow(cfg, RowOf(p, key), bandwidth, now)]
    case Throttle(key, now) => p[key := ThrottledRow(RowOf(p, key), now)]
    case Ensure(key, now) =>
      if Probes(cfg, p, key, now) then p[key := RowOf(p, key).(updatedAt := now)] else p
  }

  function Run(cfg: Config, p: Profiles, events: seq<Event>): Profiles
    decreases |events|
  {
    if events == [] then p else Run(cfg, Apply(cfg, p, events[0]), events[1..])
  }

  lemma {:induction false} RunConcat(cfg: Config, p: Profiles, a: seq<Event>, b: seq<Event>)
    ensures Run(cfg, p, a + b) == Run(cfg, Run(cfg, p, a), b)
    decreases |a|
  {
    if a == [] {
      assert a + b == b;
    } else {
      RunConcat(cfg, Apply(cfg, p, a[0]), a[1..], b);
      assert (a + b)[1..] == a[1..] + b;
    }
  }

  lemma {:induction false} OthersLeaveRow(cfg: Config, p: Profiles, events: seq<Event>, key: string)
    requires key in p && forall i :: 0 <= i < |events| ==> events[i].key != key
    ensures key in Run(cfg, p, events) && Run(cfg, p, events)[key] == p[key]
    decreases |events|
  {
    if events == [] {
    } else {
      OthersLeaveRow(cfg, Apply(cfg, p, events[0]), events[1..], key);
    }
  }

  /** What a reader of a profile sees, whatever happened before and whatever happens to other sub-sources: the
      outcome of the last sample or mark on its own sub-source as long as that is at most `maxAge` old, and an
      unknown sub-source with one connection from then on, for good. */
  lemma LastWordExactlyWhile(cfg: Config, p: Profiles, before: seq<Event>, e: Event, after: seq<Event>, now: int)
    requires !e.Ensure? && forall i :: 0 <= i < |after| ==> after[i].key != e.key
    ensures var q := Run(cfg, p, before + [e] + after);
            var prof := Profile(cfg, q, e.key, now);
            && (if cfg.maxAge <= 0 || now - e.now <= cfg.maxAge then
                  && prof.updatedAt == e.now
                  && (e.Throttle? ==> prof.friendly == Throttled && prof.suggestedN == 1)
                  && (e.Sample? ==> prof.bandwidth == e.bandwidth && (prof.isSlow <==> e.bandwidth < cfg.slowBelow))
                else
                  forall t :: t >= now ==> Profile(cfg, q, e.key, t) == Row(0.0, Unknown, 1, false, 0))
  {
    var mid := Run(cfg, p, before);
    RunConcat(cfg, p, before, [e] + after);
    assert before + [e] + after == before + ([e] + after);
    assert ([e] + after)[1..] == after;
    OthersLeaveRow(cfg, Apply(cfg, mid, e), after, e.key);
  }

  lemma {:induction false} ThrottledStays(cfg: Config, p: Profiles, events: seq<Event>, key: string)
    requires key in p && p[key].friendly == Throttled
    ensures key in Run(cfg, p, events) && Run(cfg, p, events)[key].friendly == Throttled
    decreases |events|
  {
    if events == [] {
    } else {
      ThrottledStays(cfg, Apply(cfg, p, events[0]), events[1..], key);
    }
  }

  /** Throttling is sticky: after a sub-source was marked, no run of samples, marks and probe marks on any
      sub-source, at whatever times, lets a later plan for it ask for more than one connection or a fetch
      with such a plan use more than one worker. */
  lemma ThrottleIsSticky(cfg: Config, p: Profiles, at: int, events: seq<Event>, key: string,
                         planned: int, fetched: int, blocks: nat)
    requires blocks > 0
    ensures var later := Run(cfg, Apply(cfg, p, Throttle(key, at)), events);
            && key in later && later[key].friendly == Throttled
            && PlanN(cfg, Profile(cfg, later, key, planned)) == 1
            && Workers(PlanN(cfg, Profile(cfg, later, key, planned)), Profile(cfg, later, key, fetched), blocks) == 1
  {
    ThrottledStays(cfg, Apply(cfg, p, Throttle(key, at)), events, key);
  }

  /** A plan made before the mark is cut to one worker only while the mark has not expired: an expired row
      reads as unknown, and an unknown sub-source keeps the planned number. */
  lemma OldPlansAreCutExactlyWhen(cfg: Config, p: Profiles, key: string, now: int, planN: int, blocks: nat)
    requires key in p && p[key].friendly == Throttled && planN > 1 && blocks > 1
    ensures Workers(planN, Profile(cfg, p, key, now), blocks) == 1 <==> !Expired(cfg, p[key], now)
  {
  }

  ghost predicate NoneFriendly(p: Profiles) {
    forall key :: key in p ==> p[key].friendly != Friendly
  }

  /** No operation ever makes a sub-source friendly, since the outcome of the probe is not stored: from a
      store without friendly rows, an empty one above all, every plan of every run asks for one connection. */
  lemma {:induction false} ParallelNeverPlanned(cfg: Config, p: Profiles, events: seq<Event>, key: string, now: int)
    requires NoneFriendly(p)
    ensures NoneFriendly(Run(cfg, p, events))
    ensures PlanN(cfg, Profile(cfg, Run(cfg, p, events), key, now)) == 1
    decreases |events|
  {
    if events == [] {
    } else {
      ParallelNeverPlanned(cfg, Apply(cfg, p, events[0]), events[1..], key, now);
    }
  }

  /** RecordSample reads and writes in two statements. A mark that comes between them is lost exactly when
      the row it read was not throttled yet. */
  lemma MarkLostInRace(cfg: Config, p: Profiles, key: string, bandwidth: real, at: int, now: int)
    ensures var read := RowOf(p, key);
            var marked := Apply(cfg, p, Throttle(key, at));
            var written := marked[key := SampleRow(cfg, read, bandwidth, now)];
            && (written[key].friendly == Throttled <==> read.friendly == Throttled)
            && (read.friendly == Friendly && cfg.maxConcurrency > 1 ==>
                  PlanN(cfg, Profile(cfg, written, key, now)) == cfg.maxConcurrency)
  {
  }
}
