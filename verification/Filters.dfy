/**
  The filter registry of `anvil`: filters with deadlines under one lock, and an
  eviction that reads the clock before it waits for that lock. A run is the list
  of critical sections in lock order, each with the clock value inside it.
 */
module Filters {
  import opened Prelude

  datatype Event<F> =
    | Add(id: string, filter: F)
    | Changes(id: string, polled: F)
    | Uninstall(id: string)
    | Evict(reading: nat)

  datatype Step<F> = Step(time: nat, event: Event<F>)

  datatype Entry<F> = Entry(filter: F, deadline: nat)

  function Apply<F>(active: map<string, Entry<F>>, s: Step<F>, keepalive: nat): map<string, Entry<F>> {
    match s.event
    case Add(id, filter) => active[id := Entry(filter, s.time + keepalive)]
    case Changes(id, polled) =>
      if id in active then active[id := Entry(polled, s.time + keepalive)] else active
    case Uninstall(id) => active - {id}
    case Evict(reading) => map id | id in active && reading <= active[id].deadline :: active[id]
  }

  function Run<F>(steps: seq<Step<F>>, keepalive: nat): map<string, Entry<F>> {
    if steps == [] then map[]
    else Apply(Run(steps[..|steps| - 1], keepalive), steps[|steps| - 1], keepalive)
  }

  ghost predicate Monotone<F>(steps: seq<Step<F>>) {
    forall i, j :: 0 <= i <= j < |steps| ==> steps[i].time <= steps[j].time
  }

  // ---- What a run promises, stated on the run alone ----

  predicate Touches<F>(s: Step<F>, id: string) {
    (s.event.Add? && s.event.id == id) || (s.event.Changes? && s.event.id == id)
  }

  /** A touch since the filter was added whose keep-alive covers the eviction's reading. */
  ghost predicate Covered<F>(steps: seq<Step<F>>, id: string, i: nat, j: nat, reading: nat, keepalive: nat)
    requires j <= |steps|
  {
    exists k :: i <= k < j && Touches(steps[k], id) && reading <= steps[k].time + keepalive
  }

  ghost predicate Survives<F>(steps: seq<Step<F>>, id: string, i: nat, j: nat, keepalive: nat)
    requires j < |steps|
  {
    match steps[j].event
    case Uninstall(x) => x != id
    case Evict(reading) => Covered(steps, id, i, j, reading, keepalive)
    case _ => true
  }

  /** Added at step i and removed by no later step. */
  ghost predicate AliveFrom<F>(steps: seq<Step<F>>, id: string, i: nat, keepalive: nat) {
    && i < |steps| && steps[i].event.Add? && steps[i].event.id == id
    && forall j :: i < j < |steps| ==> Survives(steps, id, i, j, keepalive)
  }

  // ---- The registry holds exactly the filters that are alive ----

  lemma SurvivesPrefix<F>(steps: seq<Step<F>>, n: nat, id: string, i: nat, j: nat, keepalive: nat)
    requires j < n <= |steps|
    ensures Survives(steps, id, i, j, keepalive) <==> Survives(steps[..n], id, i, j, keepalive)
  {
    if steps[j].event.Evict? {
      var r := steps[j].event.reading;
      if Covered(steps, id, i, j, r, keepalive) {
        var k :| i <= k < j && Touches(steps[k], id) && r <= steps[k].time + keepalive;
        assert steps[..n][k] == steps[k];
      }
      if Covered(steps[..n], id, i, j, r, keepalive) {
        var k :| i <= k < j && Touches(steps[..n][k], id) && r <= steps[..n][k].time + keepalive;
        assert steps[..n][k] == steps[k];
      }
    }
  }

  lemma {:induction false} ActiveIsAlive<F>(steps: seq<Step<F>>, id: string, keepalive: nat)
    returns (i: nat, k: nat)
    requires id in Run(steps, keepalive)
    ensures AliveFrom(steps, id, i, keepalive)
    ensures i <= k < |steps| && Touches(steps[k], id)
    ensures Run(steps, keepalive)[id].deadline == steps[k].time + keepalive
  {
    var n := |steps| - 1;
    var last := steps[n];
    if last.event.Add? && last.event.id == id {
      i, k := n, n;
    } else {
      i, k := ActiveIsAlive(steps[..n], id, keepalive);
      forall j | i < j < n
        ensures Survives(steps, id, i, j, keepalive)
      {
        SurvivesPrefix(steps, n, id, i, j, keepalive);
      }
      if last.event.Changes? && last.event.id == id {
        k := n;
      }
    }
  }

  lemma {:induction false} AliveIsActive<F>(steps: seq<Step<F>>, id: string, i: nat, keepalive: nat)
    requires Monotone(steps) && AliveFrom(steps, id, i, keepalive)
    ensures id in Run(steps, keepalive)
    ensures forall k :: i <= k < |steps| && Touches(steps[k], id) ==>
              steps[k].time + keepalive <= Run(steps, keepalive)[id].deadline
  {
    var n := |steps| - 1;
    if i < n {
      forall j | i < j < n
        ensures Survives(steps[..n], id, i, j, keepalive)
      {
        SurvivesPrefix(steps, n, id, i, j, keepalive);
      }
      AliveIsActive(steps[..n], id, i, keepalive);
      var before := Run(steps[..n], keepalive);
      assert forall k :: i <= k < n ==> steps[..n][k] == steps[k];
      assert Survives(steps, id, i, n, keepalive);
    }
  }

  /** Presence in the registry, characterised by the run alone. */
  lemma ActiveExactly<F>(steps: seq<Step<F>>, id: string, keepalive: nat)
    requires Monotone(steps)
    ensures id in Run(steps, keepalive) <==> exists i :: AliveFrom(steps, id, i, keepalive)
  {
    if id in Run(steps, keepalive) {
      var i, k := ActiveIsAlive(steps, id, keepalive);
    }
    if i :| AliveFrom(steps, id, i, keepalive) {
      AliveIsActive(steps, id, i, keepalive);
    }
  }

  /**
    Keep-alive: a filter present after a touch at step k stays, whatever else runs
    in between, while nobody uninstalls it and no eviction reads a clock beyond
    that touch plus the keep-alive time.
   */
  lemma KeepAlive<F>(steps: seq<Step<F>>, id: string, k: nat, keepalive: nat)
    requires Monotone(steps) && k < |steps| && Touches(steps[k], id)
    requires id in Run(steps[..k + 1], keepalive)
    requires forall j :: k < j < |steps| ==>
               match steps[j].event
               case Uninstall(x) => x != id
               case Evict(reading) => reading <= steps[k].time + keepalive
               case _ => true
    ensures id in Run(steps, keepalive)
  {
    var i, k' := ActiveIsAlive(steps[..k + 1], id, keepalive);
    forall j | i < j < |steps|
      ensures Survives(steps, id, i, j, keepalive)
    {
      if j <= k {
        SurvivesPrefix(steps, k + 1, id, i, j, keepalive);
      } else if steps[j].event.Evict? {
        assert Covered(steps, id, i, j, steps[j].event.reading, keepalive);
      }
    }
    AliveIsActive(steps, id, i, keepalive);
  }

  // ---- The registry object ----

  class Registry<F> {
    var active: map<string, Entry<F>>
    const keepalive: nat
    ghost var history: seq<Step<F>>

    ghost predicate Valid()
      reads this
    {
      active == Run(history, keepalive) && Monotone(history)
    }

    /** The clock is monotone: no critical section reads an earlier time than the last one. */
    ghost predicate NotBefore(now: nat)
      reads this
    {
      history == [] || history[|history| - 1].time <= now
    }

    constructor (keepalive: nat)
      ensures Valid() && active == map[] && history == [] && this.keepalive == keepalive
    {
      active, history, this.keepalive := map[], [], keepalive;
    }

    /** The id is drawn at random by the caller; the clock is read under the lock. */
    method AddFilter(id: string, filter: F, now: nat)
      requires Valid() && NotBefore(now)
      modifies this
      ensures Valid() && history == old(history) + [Step(now, Add(id, filter))]
      ensures active == old(active)[id := Entry(filter, now + keepalive)]
    {
      active := active[id := Entry(filter, now + keepalive)];
      history := history + [Step(now, Add(id, filter))];
    }

    /** The answer waits inside the lock; the deadline is set after it arrived. */
    method GetFilterChanges<R>(id: string, next: F -> (F, R), now: nat) returns (response: Option<R>)
      requires Valid() && NotBefore(now)
      modifies this
      ensures Valid()
      ensures id !in old(active) ==> response == None && active == old(active) && history == old(history)
      ensures id in old(active) ==>
                var (polled, r) := next(old(active)[id].filter);
                && response == Some(r) && history == old(history) + [Step(now, Changes(id, polled))]
                && active == old(active)[id := Entry(polled, now + keepalive)]
    {
      if id in active {
        var (polled, r) := next(active[id].filter);
        history := history + [Step(now, Changes(id, polled))];
        active := active[id := Entry(polled, now + keepalive)];
        return Some(r);
      }
      return None;
    }

    method UninstallFilter(id: string, now: nat) returns (removed: Option<F>)
      requires Valid() && NotBefore(now)
      modifies this
      ensures Valid() && history == old(history) + [Step(now, Uninstall(id))]
      ensures active == old(active) - {id}
      ensures removed == if id in old(active) then Some(old(active)[id].filter) else None
    {
      removed := if id in active then Some(active[id].filter) else None;
      active := active - {id};
      history := history + [Step(now, Uninstall(id))];
    }

    /** `reading` was taken before the lock; exactly the filters past it go. */
    method EvictStale(reading: nat, now: nat)
      requires Valid() && NotBefore(now)
      modifies this
      ensures Valid() && history == old(history) + [Step(now, Evict(reading))]
      ensures forall id :: id in active <==> id in old(active) && !(reading > old(active)[id].deadline)
      ensures forall id :: id in active ==> active[id] == old(active)[id]
    {
      active := map id | id in active && !(reading > active[id].deadline) :: active[id];
      history := history + [Step(now, Evict(reading))];
    }
  }

  /** Whatever calls made it, the registry holds exactly the filters its history keeps alive. */
  lemma RegistryExactly<F>(r: Registry<F>, id: string)
    requires r.Valid()
    ensures id in r.active <==> exists i :: AliveFrom(r.history, id, i, r.keepalive)
  {
    ActiveExactly(r.history, id, r.keepalive);
  }
}
