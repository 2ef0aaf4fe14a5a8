/** The upload lease registry: generation-tagged leases with timer expiry, under every interleaving of
    acquisitions, releases (also repeated ones) and expiries that run late. */
module Uploads {
  import opened ByteStrings

  datatype UploadKey = UploadKey(actionID: Bytes, outputID: Bytes)

  /** Registered leases, the generation counter, the armed timers, the expiries that fired and still wait
      for the mutex, the in-flight gauge with the changes not yet reported to it, and every lease issued. */
  datatype Registry = Registry(
    entries: map<UploadKey, nat>, nextGeneration: nat, armed: set<nat>, fired: set<nat>,
    inflight: int, up: nat, down: nat, issued: map<nat, UploadKey>)

  const EMPTY: Registry := Registry(map[], 0, {}, {}, 0, 0, 0, map[])

  function Acquired(r: Registry, k: UploadKey): Registry {
    if k in r.entries then r
    else
      var g := r.nextGeneration + 1;
      r.(entries := r.entries[k := g], nextGeneration := g, armed := r.armed + {g}, up := r.up + 1,
         issued := r.issued[g := k])
  }

  /** Only the entry of the same generation is removed. */
  function Removed(r: Registry, k: UploadKey, g: nat, stopTimer: bool): Registry {
    if k in r.entries && r.entries[k] == g then
      r.(entries := r.entries - {k}, armed := if stopTimer then r.armed - {g} else r.armed, down := r.down + 1)
    else r
  }

  datatype Event = Acquire(k: UploadKey) | Release(g: nat) | Fire(g: nat) | Expire(g: nat) | ReportUp | ReportDown

  /** Any issued lease may be released at any time, any number of times; a stopped timer does not fire, but
      one that fired runs its expiry whenever it gets the mutex. */
  predicate Possible(r: Registry, e: Event) {
    match e
    case Acquire(_) => true
    case Release(g) => g in r.issued
    case Fire(g) => g in r.armed
    case Expire(g) => g in r.fired && g in r.issued
    case ReportUp => r.up > 0
    case ReportDown => r.down > 0
  }

  function Next(r: Registry, e: Event): Registry
    requires Possible(r, e)
  {
    match e
    case Acquire(k) => Acquired(r, k)
    case Release(g) => Removed(r, r.issued[g], g, true)
    case Fire(g) => r.(armed := r.armed - {g}, fired := r.fired + {g})
    case Expire(g) => Removed(r.(fired := r.fired - {g}), r.issued[g], g, false)
    case ReportUp => r.(inflight := r.inflight + 1, up := r.up - 1)
    case ReportDown => r.(inflight := r.inflight - 1, down := r.down - 1)
  }

  ghost predicate Inv(r: Registry) {
    && (forall g :: g in r.issued <==> 1 <= g <= r.nextGeneration)
    && (forall k :: k in r.entries ==> r.entries[k] in r.issued && r.issued[r.entries[k]] == k)
    && (forall g :: g in r.armed ==> g in r.issued)
    && (forall k :: k in r.entries ==> r.entries[k] in r.armed || r.entries[k] in r.fired)
    && r.inflight + r.up - r.down == |r.entries|
  }

  lemma AcquiredInv(r: Registry, k: UploadKey)
    requires Inv(r)
    ensures Inv(Acquired(r, k))
  {
    if k !in r.entries {
      var g := r.nextGeneration + 1;
      var a := Acquired(r, k);
      assert a.entries == r.entries[k := g];
      assert |a.entries| == |r.entries| + 1;
    }
  }

  /** Removing a lease, or failing to, needs its own timer no longer. */
  lemma ReleasedInv(r: Registry, g: nat, stopTimer: bool)
    requires Inv(r.(fired := r.fired + {g})) && g in r.issued
    requires stopTimer ==> Inv(r)
    ensures Inv(Removed(r, r.issued[g], g, stopTimer))
  {
    RemovedCount(r.entries, r.issued[g]);
  }

  lemma StepKeepsInv(r: Registry, e: Event)
    requires Inv(r) && Possible(r, e)
    ensures Inv(Next(r, e))
  {
    hide Acquired, Removed;
    match e
    case Acquire(k) => AcquiredInv(r, k);
    case Release(g) => ReleasedInv(r, g, true);
    case Fire(g) =>
    case Expire(g) =>
      assert r.fired - {g} + {g} == r.fired;
      ReleasedInv(r.(fired := r.fired - {g}), g, false);
    case ReportUp =>
    case ReportDown =>
  }

  lemma RemovedCount(m: map<UploadKey, nat>, k: UploadKey)
    ensures |m - {k}| == |m| - if k in m then 1 else 0
  {
    if k in m {
      assert m == (m - {k})[k := m[k]];
    } else {
      assert m - {k} == m;
    }
  }

  predicate AllPossible(r: Registry, es: seq<Event>)
    decreases |es|
  {
    es == [] || (Possible(r, es[0]) && AllPossible(Next(r, es[0]), es[1..]))
  }

  function AllNext(r: Registry, es: seq<Event>): Registry
    requires AllPossible(r, es)
    decreases |es|
  {
    if es == [] then r else AllNext(Next(r, es[0]), es[1..])
  }

  lemma {:induction false} RunKeepsInv(r: Registry, es: seq<Event>)
    requires Inv(r) && AllPossible(r, es)
    ensures Inv(AllNext(r, es))
    decreases |es|
  {
    hide Inv, Next, Possible;
    if es != [] {
      StepKeepsInv(r, es[0]);
      RunKeepsInv(Next(r, es[0]), es[1..]);
    }
  }

  /** A lease that is no longer registered never comes back: no later acquisition reuses its generation. */
  ghost predicate Gone(r: Registry, g: nat) {
    g in r.issued && (r.issued[g] in r.entries ==> r.entries[r.issued[g]] != g)
  }

  lemma StepKeepsGone(r: Registry, e: Event, g: nat)
    requires Inv(r) && Possible(r, e) && Gone(r, g)
    ensures Gone(Next(r, e), g)
  {
  }

  lemma {:induction false} GoneForever(r: Registry, es: seq<Event>, g: nat)
    requires Inv(r) && AllPossible(r, es) && Gone(r, g)
    ensures Gone(AllNext(r, es), g)
    decreases |es|
  {
    hide Inv, Next, Possible, Gone;
    if es != [] {
      StepKeepsInv(r, es[0]);
      StepKeepsGone(r, es[0], g);
      GoneForever(Next(r, es[0]), es[1..], g);
    }
  }

  /** Once a lease is released, expired or replaced, releasing it again or running its expiry late never
      changes what is registered, whatever happens in between. */
  lemma StaleLeasesDoNothing(r: Registry, es: seq<Event>, g: nat)
    requires Inv(r) && AllPossible(r, es) && Gone(r, g)
    ensures var d := AllNext(r, es);
            && Possible(d, Release(g)) && Next(d, Release(g)) == d
            && (Possible(d, Expire(g)) ==> Next(d, Expire(g)) == d.(fired := d.fired - {g}))
  {
    hide Inv, AllPossible, AllNext;
    GoneForever(r, es, g);
  }

  /** A release or an expiry removes its own lease and nothing else, and the lease is then gone. */
  lemma EndingALease(r: Registry, e: Event)
    requires Inv(r) && Possible(r, e) && (e.Release? || e.Expire?)
    ensures Gone(Next(r, e), e.g)
    ensures forall k :: k in r.entries && r.entries[k] != e.g ==>
              k in Next(r, e).entries && Next(r, e).entries[k] == r.entries[k]
    ensures Next(r, e).entries.Keys <= r.entries.Keys
    ensures e.Release? && !Gone(r, e.g) ==> e.g !in Next(r, e).armed
    ensures forall g :: g != e.g ==>
              (g in Next(r, e).armed <==> g in r.armed) && (g in Next(r, e).fired <==> g in r.fired)
  {
  }

  /** An acquisition of a free pair gets a generation never issued before; no two pairs share one; every
      registered lease was issued for its pair and has its expiry ahead of it; and once all changes are
      reported the gauge shows the number of registered leases. */
  ghost predicate Safe(r: Registry) {
    && (forall k :: k !in r.entries ==> Acquired(r, k).nextGeneration !in r.issued)
    && (forall a, b :: a in r.entries && b in r.entries && r.entries[a] == r.entries[b] ==> a == b)
    && (forall a :: a in r.entries ==> r.entries[a] in r.issued && r.issued[r.entries[a]] == a)
    && (forall a :: a in r.entries ==> r.entries[a] in r.armed + r.fired)
    && (r.up == 0 && r.down == 0 ==> r.inflight == |r.entries|)
  }

  lemma InvIsSafe(r: Registry)
    requires Inv(r)
    ensures Safe(r)
  {
  }

  /** After every run the registry is safe, and no lease that had ended at any point of it is registered. */
  lemma LeasesAreSafe(es: seq<Event>, later: seq<Event>)
    requires AllPossible(EMPTY, es) && AllPossible(AllNext(EMPTY, es), later)
    ensures var d := AllNext(AllNext(EMPTY, es), later);
            Safe(d) && forall g :: Gone(AllNext(EMPTY, es), g) ==> Gone(d, g)
  {
    hide AllPossible, AllNext, Safe, Inv, Gone;
    EmptyInv();
    var r := AllNext(EMPTY, es);
    RunKeepsInv(EMPTY, es);
    RunKeepsInv(r, later);
    InvIsSafe(AllNext(r, later));
    forall g | Gone(r, g) ensures Gone(AllNext(r, later), g) {
      GoneForever(r, later, g);
    }
  }

  lemma EmptyInv()
    ensures Inv(EMPTY)
  {
  }

  // ---- The registry as it runs ----

  datatype Lease = Refused | Lease(key: UploadKey, generation: nat)

  /** One mutex guards the map and the counter; the gauge follows outside it. */
  class UploadRegistry {
    var entries: map<UploadKey, nat>
    var nextGeneration: nat
    var armed: set<nat>
    var fired: set<nat>
    var inflight: int
    ghost var issued: map<nat, UploadKey>

    /** The state between calls, with nothing left to report. */
    ghost function State(): Registry
      reads this
    {
      Registry(entries, nextGeneration, armed, fired, inflight, 0, 0, issued)
    }

    constructor ()
      ensures State() == EMPTY
    {
      entries, nextGeneration, armed, fired, inflight, issued := map[], 0, {}, {}, 0, map[];
    }

    method AcquireLease(actionID: Bytes, outputID: Bytes) returns (lease: Lease)
      modifies this
      ensures var k := UploadKey(actionID, outputID);
              if k in old(entries) then State() == old(State()) && lease == Refused
              else State() == Next(Acquired(old(State()), k), ReportUp) && lease == Lease(k, nextGeneration)
    {
      var key := UploadKey(actionID, outputID);
      if key in entries {
        return Refused;
      }
      nextGeneration := nextGeneration + 1;
      var generation := nextGeneration;
      entries := entries[key := generation];
      armed := armed + {generation};
      issued := issued[generation := key];
      inflight := inflight + 1;
      return Lease(key, generation);
    }

    method ReleaseLease(lease: Lease)
      modifies this
      ensures lease.Refused? ==> State() == old(State())
      ensures lease.Lease? ==>
                var r := Removed(old(State()), lease.key, lease.generation, true);
                State() == if r.down > 0 then Next(r, ReportDown) else old(State())
    {
      if lease.Lease? {
        Remove(lease.key, lease.generation, true);
      }
    }

    /** The timer goes off; its callback now waits for the mutex and can no longer be stopped. */
    method TimerFires(generation: nat)
      requires generation in armed
      modifies this
      ensures State() == Next(old(State()), Fire(generation))
    {
      armed, fired := armed - {generation}, fired + {generation};
    }

    /** The callback of a timer that fired, for the lease it was armed for. */
    method RunExpiry(key: UploadKey, generation: nat)
      requires generation in fired && generation in issued && issued[generation] == key
      modifies this
      ensures var r := Next(old(State()), Expire(generation));
              State() == if r.down > 0 then Next(r, ReportDown) else r
    {
      fired := fired - {generation};
      Remove(key, generation, false);
    }

    method Remove(key: UploadKey, generation: nat, stopExpiry: bool)
      modifies this
      ensures var r := Removed(old(State()), key, generation, stopExpiry);
              State() == if r.down > 0 then Next(r, ReportDown) else old(State())
    {
      if key !in entries || entries[key] != generation {
        return;
      }
      entries := entries - {key};
      if stopExpiry {
        armed := armed - {generation};
      }
      inflight := inflight - 1;
    }
  }
}
