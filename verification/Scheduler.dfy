/** The preload slots: one global semaphore and one per sub-source (internal/preloader/scheduler.go). */
module Scheduler {

  const PER_SUB := 2

  /** How full each channel is. */
  datatype Slots = Slots(cap: nat, global: nat, perSub: map<string, nat>)

  function InUse(perSub: map<string, nat>, subKey: string): nat {
    if subKey in perSub then perSub[subKey] else 0
  }

  /** The per-source channel is made on first use. */
  function WithSub(perSub: map<string, nat>, subKey: string): map<string, nat> {
    perSub[subKey := InUse(perSub, subKey)]
  }

  /** tryAcquire without interference: the slots afterwards and the answer. */
  function TryAcquired(s: Slots, subKey: string): (Slots, bool) {
    if s.global >= s.cap then (s, false)
    else if InUse(s.perSub, subKey) >= PER_SUB then (s.(perSub := WithSub(s.perSub, subKey)), false)
    else (Slots(s.cap, s.global + 1, s.perSub[subKey := InUse(s.perSub, subKey) + 1]), true)
  }

  function Released(s: Slots, subKey: string): Slots
    requires InUse(s.perSub, subKey) > 0 && s.global > 0
  {
    Slots(s.cap, s.global - 1, s.perSub[subKey := InUse(s.perSub, subKey) - 1])
  }

  class Scheduler {
    const cap: nat
    var globalSem: nat
    var perSub: map<string, nat>

    ghost function State(): Slots
      reads this
    {
      Slots(cap, globalSem, perSub)
    }

    constructor (maxConcurrency: int)
      ensures State() == Slots(if maxConcurrency < 2 then 4 else maxConcurrency, 0, map[])
    {
      cap := if maxConcurrency < 2 then 4 else maxConcurrency;
      globalSem, perSub := 0, map[];
    }

    method SubSem(subKey: string)
      modifies this`perSub
      ensures perSub == WithSub(old(perSub), subKey)
    {
      if subKey !in perSub {
        perSub := perSub[subKey := 0];
      }
    }

    method TryAcquire(subKey: string) returns (ok: bool)
      modifies this
      ensures (State(), ok) == TryAcquired(old(State()), subKey)
      ensures ok <==> old(globalSem) < cap && InUse(old(perSub), subKey) < 2
      ensures globalSem == old(globalSem) + if ok then 1 else 0
      ensures forall sub :: InUse(perSub, sub) == InUse(old(perSub), sub) + if ok && sub == subKey then 1 else 0
    {
      if globalSem >= cap {
        return false;
      }
      globalSem := globalSem + 1;
      SubSem(subKey);
      if perSub[subKey] < PER_SUB {
        perSub := perSub[subKey := perSub[subKey] + 1];
        assert perSub == old(perSub)[subKey := InUse(old(perSub), subKey) + 1];
        return true;
      }
      globalSem := globalSem - 1;
      ok := false;
    }

    /** Both receives would block on an empty channel; PreloadRuns shows they never do. */
    method Release(subKey: string)
      requires InUse(perSub, subKey) > 0 && globalSem > 0
      modifies this
      ensures State() == Released(old(State()), subKey)
      ensures globalSem == old(globalSem) - 1
      ensures forall sub :: InUse(perSub, sub) == InUse(old(perSub), sub) - if sub == subKey then 1 else 0
    {
      SubSem(subKey);
      perSub := perSub[subKey := perSub[subKey] - 1];
      globalSem := globalSem - 1;
    }
  }
}
