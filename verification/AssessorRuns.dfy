/** The assessor's operations interleaved statement by statement: each reads a row of the profile table and
    later writes it back whole (internal/assessor/assessor.go:73-114, internal/assessor/probe.go:36-44). */
module AssessorRuns {
  import opened Assessor

  /** What a read row is for: RecordSample, MarkThrottled or the probe mark of EnsureProfile. */
  datatype Kind = Sampling | Marking | Probing

  /** An operation between its read and its write. */
  datatype Pending = Pending(key: string, kind: Kind, read: Row)

  datatype Shared = Shared(profiles: Profiles, pending: map<nat, Pending>)

  /** The clock and the median a write comes with may be anything; a probe mark may be begun at any time, which
      only allows more. */
  datatype Step = Fetch(id: nat, key: string, kind: Kind) | Save(id: nat, bandwidth: real, now: int)

  predicate Possible(w: Shared, e: Step) {
    match e
    case Fetch(id, _, _) => id !in w.pending
    case Save(id, _, _) => id in w.pending
  }

  /** The row a pending operation writes. */
  function Written(cfg: Config, x: Pending, bandwidth: real, now: int): Row {
    match x.kind
    case Sampling => SampleRow(cfg, x.read, bandwidth, now)
    case Marking => ThrottledRow(x.read, now)
    case Probing => x.read.(updatedAt := now)
  }

  function Next(cfg: Config, w: Shared, e: Step): Shared
    requires Possible(w, e)
  {
    match e
    case Fetch(id, key, kind) => w.(pending := w.pending[id := Pending(key, kind, RowOf(w.profiles, key))])
    case Save(id, bandwidth, now) =>
      var x := w.pending[id];
      Shared(w.profiles[x.key := Written(cfg, x, bandwidth, now)], w.pending - {id})
  }

  predicate CanTake(cfg: Config, w: Shared, steps: seq<Step>)
    decreases |steps|
  {
    steps == [] || (Possible(w, steps[0]) && CanTake(cfg, Next(cfg, w, steps[0]), steps[1..]))
  }

  function After(cfg: Config, w: Shared, steps: seq<Step>): Shared
    requires CanTake(cfg, w, steps)
    decreases |steps|
  {
    if steps == [] then w else After(cfg, Next(cfg, w, steps[0]), steps[1..])
  }

  /** An operation whose write follows its read at once is one operation of the assessor's class. */
  lemma AloneLikeTheMethods(cfg: Config, w: Shared, id: nat, key: string, kind: Kind, bandwidth: real, now: int)
    requires id !in w.pending && (kind.Probing? ==> Probes(cfg, w.profiles, key, now))
    ensures var steps := [Fetch(id, key, kind), Save(id, bandwidth, now)];
            var e := match kind
                     case Sampling => Sample(key, bandwidth, now)
                     case Marking => Throttle(key, now)
                     case Probing => Ensure(key, now);
            && CanTake(cfg, w, steps)
            && After(cfg, w, steps) == Shared(Apply(cfg, w.profiles, e), w.pending)
  {
    var steps := [Fetch(id, key, kind), Save(id, bandwidth, now)];
    var w1 := Next(cfg, w, steps[0]);
    var w2 := Next(cfg, w1, steps[1]);
    assert steps[1..] == [steps[1]] && steps[1..][1..] == [];
    assert CanTake(cfg, w2, []) && After(cfg, w2, []) == w2;
    assert CanTake(cfg, w1, steps[1..]) && After(cfg, w1, steps[1..]) == w2;
    assert w2.pending == w.pending;
  }

  // ---- which marks last ---------------------------------------------------------------------

  predicate Marked(w: Shared, key: string) {
    key in w.profiles && w.profiles[key].friendly == Throttled
  }

  /** No sample or probe mark of this sub-source is under way with a row read before it was throttled. */
  ghost predicate NoStaleRead(w: Shared, key: string) {
    forall id :: id in w.pending && w.pending[id].key == key && !w.pending[id].kind.Marking? ==>
      w.pending[id].read.friendly == Throttled
  }

  lemma {:induction false} MarkStays(cfg: Config, w: Shared, steps: seq<Step>, key: string)
    requires Marked(w, key) && NoStaleRead(w, key) && CanTake(cfg, w, steps)
    ensures Marked(After(cfg, w, steps), key) && NoStaleRead(After(cfg, w, steps), key)
    decreases |steps|
  {
    if steps == [] {
    } else {
      MarkStays(cfg, Next(cfg, w, steps[0]), steps[1..], key);
    }
  }

  ghost predicate Lasts(cfg: Config, w: Shared, steps: seq<Step>, key: string) {
    CanTake(cfg, w, steps) ==> Marked(After(cfg, w, steps), key)
  }

  /** Over all interleavings of reads and writes: a mark lasts, whatever comes, if and only if no sample and no
      probe mark of the sub-source is under way with a row read before the mark. */
  lemma MarkStaysExactlyWhen(cfg: Config, w: Shared, key: string)
    requires Marked(w, key)
    ensures NoStaleRead(w, key) <==> forall steps :: Lasts(cfg, w, steps, key)
  {
    if NoStaleRead(w, key) {
      forall steps | CanTake(cfg, w, steps)
        ensures Lasts(cfg, w, steps, key)
      {
        MarkStays(cfg, w, steps, key);
      }
    } else {
      var id :| id in w.pending && w.pending[id].key == key && !w.pending[id].kind.Marking?
                && w.pending[id].read.friendly != Throttled;
      var steps := [Save(id, 0.0, 0)];
      var lost := Next(cfg, w, steps[0]);
      assert steps[1..] == [] && CanTake(cfg, lost, []) && After(cfg, lost, []) == lost;
      assert !Lasts(cfg, w, steps, key);
    }
  }

  // ---- no parallel plans --------------------------------------------------------------------

  ghost predicate NoFriendlyRow(w: Shared) {
    && NoneFriendly(w.profiles)
    && forall id :: id in w.pending ==> w.pending[id].read.friendly != Friendly
  }

  /** However reads and writes interleave, a store that began without friendly rows never gets one, and every
      plan asks for one connection. */
  lemma {:induction false} ParallelNeverPlannedInRaces(cfg: Config, w: Shared, steps: seq<Step>, key: string, now: int)
    requires NoFriendlyRow(w) && CanTake(cfg, w, steps)
    ensures NoFriendlyRow(After(cfg, w, steps))
    ensures PlanN(cfg, Profile(cfg, After(cfg, w, steps).profiles, key, now)) == 1
    decreases |steps|
  {
    if steps == [] {
    } else {
      ParallelNeverPlannedInRaces(cfg, Next(cfg, w, steps[0]), steps[1..], key, now);
    }
  }
}
