/** Preload tasks, interleaved channel operation by channel operation: de-duplication by key, the two slots,
    back-off, release and the end of a task (internal/preloader/preloader.go:42-147,
    internal/preloader/scheduler.go). */
module PreloadRuns {
  import opened Scheduler

  /** Where a task's goroutine stands: not yet a slot; the global slot taken; the sub-source full, so the
      global slot goes back; fetching; the sub-source's slot returned; both returned or never had. */
  datatype Phase = Begun | TookGlobal | BackingOff | Running | SubReturned | Ending

  datatype Task = Task(key: string, sub: string, phase: Phase)

  datatype World = World(slots: Slots, tasks: map<nat, Task>, pending: set<string>)

  datatype Event =
    | Begin(id: nat, key: string, sub: string)
    | TakeGlobal(id: nat)
    | TakeSub(id: nat)
    | GiveBack(id: nat)
    | ReturnSub(id: nat)
    | ReturnGlobal(id: nat)
    | End(id: nat)

  predicate InPhase(w: World, id: nat, phase: Phase) {
    id in w.tasks && w.tasks[id].phase == phase
  }

  /** A receive from an empty channel would block: its step is not enabled. */
  predicate Enabled(w: World, e: Event) {
    match e
    case Begin(id, _, _) => id !in w.tasks
    case TakeGlobal(id) => InPhase(w, id, Begun)
    case TakeSub(id) => InPhase(w, id, TookGlobal)
    case GiveBack(id) => InPhase(w, id, BackingOff) && w.slots.global > 0
    case ReturnSub(id) => InPhase(w, id, Running) && InUse(w.slots.perSub, w.tasks[id].sub) > 0
    case ReturnGlobal(id) => InPhase(w, id, SubReturned) && w.slots.global > 0
    case End(id) => InPhase(w, id, Ending)
  }

  function Moved(w: World, id: nat, phase: Phase, slots: Slots): World
    requires id in w.tasks
  {
    w.(tasks := w.tasks[id := w.tasks[id].(phase := phase)], slots := slots)
  }

  function Apply(w: World, e: Event): World
    requires Enabled(w, e)
  {
    var s := w.slots;
    match e
    case Begin(id, key, sub) =>
      if key in w.pending then w
      else w.(tasks := w.tasks[id := Task(key, sub, Begun)], pending := w.pending + {key})
    case TakeGlobal(id) =>
      if s.global < s.cap then Moved(w, id, TookGlobal, s.(global := s.global + 1)) else Moved(w, id, Ending, s)
    case TakeSub(id) =>
      var sub := w.tasks[id].sub;
      if InUse(s.perSub, sub) < PER_SUB then
        Moved(w, id, Running, s.(perSub := s.perSub[sub := InUse(s.perSub, sub) + 1]))
      else Moved(w, id, BackingOff, s.(perSub := WithSub(s.perSub, sub)))
    case GiveBack(id) => Moved(w, id, Ending, s.(global := s.global - 1))
    case ReturnSub(id) =>
      var sub := w.tasks[id].sub;
      Moved(w, id, SubReturned, s.(perSub := s.perSub[sub := InUse(s.perSub, sub) - 1]))
    case ReturnGlobal(id) => Moved(w, id, Ending, s.(global := s.global - 1))
    case End(id) => w.(tasks := w.tasks - {id}, pending := w.pending - {w.tasks[id].key})
  }

  ghost predicate CanRun(w: World, events: seq<Event>)
    decreases |events|
  {
    events == [] || (Enabled(w, events[0]) && CanRun(Apply(w, events[0]), events[1..]))
  }

  ghost function Run(w: World, events: seq<Event>): World
    requires CanRun(w, events)
    decreases |events|
  {
    if events == [] then w else Run(Apply(w, events[0]), events[1..])
  }

  function Initial(cap: nat): World {
    World(Slots(cap, 0, map[]), map[], {})
  }

  // ---- the invariant ------------------------------------------------------------------------

  predicate HoldsGlobal(t: Task) {
    t.phase.TookGlobal? || t.phase.BackingOff? || t.phase.Running? || t.phase.SubReturned?
  }

  ghost function GlobalHolders(tasks: map<nat, Task>): set<nat> {
    set id | id in tasks && HoldsGlobal(tasks[id])
  }

  ghost function SubHolders(tasks: map<nat, Task>, sub: string): set<nat> {
    set id | id in tasks && tasks[id].phase.Running? && tasks[id].sub == sub
  }

  ghost predicate SlotsOk(w: World) {
    && w.slots.global == |GlobalHolders(w.tasks)| <= w.slots.cap
    && forall sub :: InUse(w.slots.perSub, sub) == |SubHolders(w.tasks, sub)| <= PER_SUB
  }

  ghost predicate KeysOk(w: World) {
    && (forall id :: id in w.tasks ==> w.tasks[id].key in w.pending)
    && (forall key :: key in w.pending ==> exists id :: id in w.tasks && w.tasks[id].key == key)
    && (forall a, b :: a in w.tasks && b in w.tasks && w.tasks[a].key == w.tasks[b].key ==> a == b)
  }

  ghost predicate Inv(w: World) {
    SlotsOk(w) && KeysOk(w)
  }

  function One(b: bool): nat {
    if b then 1 else 0
  }

  lemma SameButOne(a: set<nat>, b: set<nat>, id: nat)
    requires forall i :: i != id ==> (i in a <==> i in b)
    ensures |b| == |a| - One(id in a) + One(id in b)
  {
    assert a - {id} == b - {id};
    assert |a - {id}| == |a| - One(id in a);
    assert |b - {id}| == |b| - One(id in b);
  }

  /** Changing one task moves the counts by what that task held before and holds now. */
  lemma GlobalUpdate(tasks: map<nat, Task>, id: nat, t: Task)
    ensures |GlobalHolders(tasks[id := t])|
            == |GlobalHolders(tasks)| - One(id in GlobalHolders(tasks)) + One(HoldsGlobal(t))
  {
    SameButOne(GlobalHolders(tasks), GlobalHolders(tasks[id := t]), id);
  }

  lemma SubUpdate(tasks: map<nat, Task>, id: nat, t: Task, sub: string)
    ensures |SubHolders(tasks[id := t], sub)|
            == |SubHolders(tasks, sub)| - One(id in SubHolders(tasks, sub)) + One(t.phase.Running? && t.sub == sub)
  {
    SameButOne(SubHolders(tasks, sub), SubHolders(tasks[id := t], sub), id);
  }

  lemma SlotsStep(w: World, e: Event)
    requires SlotsOk(w) && Enabled(w, e)
    ensures SlotsOk(Apply(w, e))
  {
    var w' := Apply(w, e);
    if e.End? {
      assert GlobalHolders(w'.tasks) == GlobalHolders(w.tasks);
      assert forall sub :: SubHolders(w'.tasks, sub) == SubHolders(w.tasks, sub);
    } else if w' != w {
      GlobalUpdate(w.tasks, e.id, w'.tasks[e.id]);
      forall sub
        ensures InUse(w'.slots.perSub, sub) == |SubHolders(w'.tasks, sub)| <= PER_SUB
      {
        assert InUse(w.slots.perSub, sub) == |SubHolders(w.tasks, sub)| <= PER_SUB;
        SubUpdate(w.tasks, e.id, w'.tasks[e.id], sub);
      }
    }
  }

  lemma KeysBegin(w: World, id: nat, key: string, sub: string)
    requires KeysOk(w) && id !in w.tasks && key !in w.pending
    ensures KeysOk(Apply(w, Begin(id, key, sub)))
  {
    var w' := Apply(w, Begin(id, key, sub));
    forall k | k in w'.pending
      ensures exists i :: i in w'.tasks && w'.tasks[i].key == k
    {
      if k == key {
        assert w'.tasks[id].key == k;
      } else {
        var i :| i in w.tasks && w.tasks[i].key == k;
        assert w'.tasks[i].key == k;
      }
    }
  }

  lemma KeysEnd(w: World, id: nat)
    requires KeysOk(w) && InPhase(w, id, Ending)
    ensures KeysOk(Apply(w, End(id)))
  {
    var w' := Apply(w, End(id));
    forall k | k in w'.pending
      ensures exists i :: i in w'.tasks && w'.tasks[i].key == k
    {
      var i :| i in w.tasks && w.tasks[i].key == k;
      assert w'.tasks[i].key == k;
    }
  }

  lemma KeysMove(w: World, id: nat, phase: Phase, slots: Slots)
    requires KeysOk(w) && id in w.tasks
    ensures KeysOk(Moved(w, id, phase, slots))
  {
    var w' := Moved(w, id, phase, slots);
    assert w'.tasks.Keys == w.tasks.Keys && forall i :: i in w.tasks ==> w'.tasks[i].key == w.tasks[i].key;
    forall k | k in w'.pending
      ensures exists i :: i in w'.tasks && w'.tasks[i].key == k
    {
      var i :| i in w.tasks && w.tasks[i].key == k;
      assert w'.tasks[i].key == k;
    }
  }

  lemma KeysStep(w: World, e: Event)
    requires KeysOk(w) && Enabled(w, e)
    ensures KeysOk(Apply(w, e))
  {
    var w' := Apply(w, e);
    match e
    case Begin(id, key, sub) =>
      if key !in w.pending {
        KeysBegin(w, id, key, sub);
      }
    case End(id) => KeysEnd(w, id);
    case _ => KeysMove(w, e.id, w'.tasks[e.id].phase, w'.slots);
  }

  lemma {:induction false} RunKeeps(w: World, events: seq<Event>)
    requires Inv(w) && CanRun(w, events)
    ensures Inv(Run(w, events))
    decreases |events|
  {
    if events == [] {
    } else {
      SlotsStep(w, events[0]);
      KeysStep(w, events[0]);
      RunKeeps(Apply(w, events[0]), events[1..]);
    }
  }

  /** Over all interleavings: the global count is the number of tasks between taking and returning a global
      slot, each sub-source's count is that of its fetching tasks and at most two, live tasks have
      distinct keys, and without live tasks every slot is free. */
  lemma SlotsConserved(cap: nat, events: seq<Event>)
    requires CanRun(Initial(cap), events)
    ensures var w := Run(Initial(cap), events);
            && w.slots.global == |GlobalHolders(w.tasks)| <= w.slots.cap
            && (forall sub :: InUse(w.slots.perSub, sub) == |SubHolders(w.tasks, sub)| <= 2)
            && (forall a, b :: a in w.tasks && b in w.tasks && a != b ==> w.tasks[a].key != w.tasks[b].key)
            && (w.tasks == map[] ==>
                  w.slots.global == 0 && w.pending == {} && forall sub :: InUse(w.slots.perSub, sub) == 0)
  {
    var w0 := Initial(cap);
    assert GlobalHolders(w0.tasks) == {};
    assert forall sub :: SubHolders(w0.tasks, sub) == {};
    RunKeeps(w0, events);
    var w := Run(w0, events);
    if w.tasks == map[] {
      assert GlobalHolders(w.tasks) == {};
      assert forall sub :: SubHolders(w.tasks, sub) == {};
      assert forall key :: key !in w.pending;
    }
  }

  // ---- no task ever blocks ------------------------------------------------------------------

  function NextOf(w: World, id: nat): Event
    requires id in w.tasks
  {
    match w.tasks[id].phase
    case Begun => TakeGlobal(id)
    case TookGlobal => TakeSub(id)
    case BackingOff => GiveBack(id)
    case Running => ReturnSub(id)
    case SubReturned => ReturnGlobal(id)
    case Ending => End(id)
  }

  function Rank(p: Phase): nat {
    match p
    case Begun => 5
    case TookGlobal => 4
    case Running => 3
    case SubReturned => 2
    case BackingOff => 2
    case Ending => 1
  }

  lemma NextEnabled(w: World, id: nat)
    requires id in w.tasks
    requires w.slots.global == |GlobalHolders(w.tasks)|
    requires InUse(w.slots.perSub, w.tasks[id].sub) == |SubHolders(w.tasks, w.tasks[id].sub)|
    ensures Enabled(w, NextOf(w, id))
  {
    var t := w.tasks[id];
    if HoldsGlobal(t) {
      assert id in GlobalHolders(w.tasks);
    }
    if t.phase.Running? {
      assert id in SubHolders(w.tasks, t.sub);
    }
  }

  lemma NextFalls(w: World, id: nat)
    requires id in w.tasks && Enabled(w, NextOf(w, id))
    ensures var w' := Apply(w, NextOf(w, id));
            if id in w'.tasks then Rank(w'.tasks[id].phase) < Rank(w.tasks[id].phase)
            else w.tasks[id].key !in w'.pending
  {
  }

  /** In any reachable state, every live task can take its next step at once, in particular both receives of
      release and the one of the back-off; the step ends the task or brings it nearer to its end, so at
      most five of its own steps end it. */
  lemma NeverBlocks(cap: nat, events: seq<Event>, id: nat)
    requires CanRun(Initial(cap), events)
    requires id in Run(Initial(cap), events).tasks
    ensures var w := Run(Initial(cap), events);
            && Enabled(w, NextOf(w, id))
            && var w' := Apply(w, NextOf(w, id));
               if id in w'.tasks then Rank(w'.tasks[id].phase) < Rank(w.tasks[id].phase)
               else w.tasks[id].key !in w'.pending
  {
    SlotsConserved(cap, events);
    var w := Run(Initial(cap), events);
    NextEnabled(w, id);
    NextFalls(w, id);
  }

  /** In any reachable state a task begins if and only if no live task has its key. */
  lemma BeginsExactlyWhen(cap: nat, events: seq<Event>, id: nat, key: string, sub: string)
    requires CanRun(Initial(cap), events) && id !in Run(Initial(cap), events).tasks
    ensures var w := Run(Initial(cap), events);
            && Enabled(w, Begin(id, key, sub))
            && var w' := Apply(w, Begin(id, key, sub));
               && (id in w'.tasks <==> forall a :: a in w.tasks ==> w.tasks[a].key != key)
               && (id in w'.tasks ==> w'.tasks == w.tasks[id := Task(key, sub, Begun)])
  {
    RunKeeps(Initial(cap), events);
  }

  /** A task whose steps no one interrupts acquires and releases exactly as the scheduler's methods do. */
  lemma AloneLikeTheMethods(w: World, id: nat)
    requires InPhase(w, id, Begun)
    ensures var sub := w.tasks[id].sub;
            var (slots, ok) := TryAcquired(w.slots, sub);
            var w1 := Apply(w, TakeGlobal(id));
            var w2 := if InPhase(w1, id, TookGlobal) then Apply(w1, TakeSub(id)) else w1;
            var w3 := if InPhase(w2, id, BackingOff) then Apply(w2, GiveBack(id)) else w2;
            && w3.slots == slots
            && (w3.tasks[id].phase == Running <==> w.slots.global < w.slots.cap && InUse(w.slots.perSub, sub) < 2)
            && w3.tasks[id].phase == (if ok then Running else Ending)
            && (ok ==> Enabled(w3, ReturnSub(id)) && Enabled(Apply(w3, ReturnSub(id)), ReturnGlobal(id))
                       && Apply(Apply(w3, ReturnSub(id)), ReturnGlobal(id)).slots == Released(slots, sub))
  {
  }
}
