/** Admission to a server-owned cache, and the maintenance that runs once all fills drain. */
module Coordination {
  import opened Basics
  import opened Catalog
  import opened Stores

  datatype Policy = Policy(
    maxBytes: nat,
    maxConcurrentFills: nat,
    maxArtifactBytes: nat,
    maxInflightBytes: nat,
    minFreeBytes: nat)

  /** The limits the server accepts; sums are checked 64-bit additions. */
  predicate ValidPolicy(p: Policy) {
    && p.maxConcurrentFills != 0 && p.maxArtifactBytes != 0
    && p.maxArtifactBytes <= p.maxInflightBytes
    && p.maxInflightBytes + p.minFreeBytes <= U64_MAX
    && p.maxInflightBytes + p.maxBytes <= U64_MAX
  }

  /** The state under the mutex. */
  datatype Gate = Gate(active: nat, reserved: nat, maintenance: bool, failed: bool)

  datatype Refusal =
    | TooLarge
    | Busy
    | MaintenanceFailed
    | Draining
    | ReservationsExhausted
    | HeadroomOverflow
    | NoSpace

  const IDLE := Gate(0, 0, false, false)

  function LimitOf(p: Policy, expected: Option<nat>): nat {
    match expected case Some(n) => n case None => p.maxArtifactBytes
  }

  /** Decide one admission, given whether the mutex is busy and the free space found. */
  function Admission(p: Policy, g: Gate, expected: Option<nat>, busy: bool, space: nat): Result<Gate, Refusal> {
    var limit := LimitOf(p, expected);
    var reserved := g.reserved + limit;
    if limit > p.maxArtifactBytes then Err(TooLarge)
    else if busy then Err(Busy)
    else if g.failed then Err(MaintenanceFailed)
    else if g.maintenance || g.active >= p.maxConcurrentFills then Err(Draining)
    else if reserved > U64_MAX || reserved > p.maxInflightBytes then Err(ReservationsExhausted)
    else if p.minFreeBytes + reserved > U64_MAX then Err(HeadroomOverflow)
    else if space < p.minFreeBytes + reserved then Err(NoSpace)
    else Ok(g.(active := g.active + 1, reserved := reserved))
  }

  /** A fill that ends closes the gate behind it. The count is decremented as a 64-bit machine
      does it, wrapping below zero. */
  function Closed(g: Gate): Gate {
    g.(maintenance := true, active := if g.active == 0 then U64_MAX else g.active - 1)
  }

  function AfterMaintenance(g: Gate, ok: bool): Gate {
    if ok then g.(reserved := 0, maintenance := false) else g.(failed := true)
  }

  /** What holds between any two operations. */
  predicate GateOk(p: Policy, g: Gate) {
    && g.active <= p.maxConcurrentFills && g.reserved <= p.maxInflightBytes
    && (g.failed ==> g.active == 0 && g.maintenance)
    && (g.maintenance && !g.failed ==> g.active > 0)
    && (g.active == 0 && !g.failed ==> g.reserved == 0)
  }

  lemma AdmissionKeepsGate(p: Policy, g: Gate, expected: Option<nat>, busy: bool, space: nat)
    requires GateOk(p, g) && Admission(p, g, expected, busy, space).Ok?
    ensures var g' := Admission(p, g, expected, busy, space).value;
            && GateOk(p, g') && g'.active == g.active + 1
            && g'.reserved == g.reserved + LimitOf(p, expected)
  {
  }

  /** Under a valid policy the headroom computation cannot overflow. */
  lemma HeadroomNeverOverflows(p: Policy, g: Gate, expected: Option<nat>, busy: bool, space: nat)
    requires ValidPolicy(p) && GateOk(p, g)
    ensures Admission(p, g, expected, busy, space) != Err(HeadroomOverflow)
  {
  }

  /** When any gate admits: the artifact fits, nobody else is deciding, neither failed nor
      draining, a place is free, and the reservations of the whole batch with this one fit the
      in-flight budget and the disk beyond its reserve. */
  lemma AdmitsExactly(p: Policy, g: Gate, expected: Option<nat>, busy: bool, space: nat)
    requires ValidPolicy(p)
    ensures Admission(p, g, expected, busy, space).Ok? <==>
            var limit := LimitOf(p, expected);
            && limit <= p.maxArtifactBytes && !busy && !g.failed && !g.maintenance
            && g.active < p.maxConcurrentFills
            && g.reserved + limit <= p.maxInflightBytes
            && space >= p.minFreeBytes + g.reserved + limit
    ensures Admission(p, g, expected, busy, space).Ok? ==>
            Admission(p, g, expected, busy, space).value ==
            Gate(g.active + 1, g.reserved + LimitOf(p, expected), false, false)
  {
  }

  /** With enough disk space, and the mutex free, the gate would admit. */
  ghost predicate Admissible(p: Policy, g: Gate, expected: Option<nat>) {
    exists space :: Admission(p, g, expected, false, space).Ok?
  }

  lemma EnoughSpaceExists(p: Policy, g: Gate, expected: Option<nat>)
    requires ValidPolicy(p)
    ensures Admissible(p, g, expected) <==> Admission(p, g, expected, false, p.minFreeBytes + p.maxInflightBytes).Ok?
  {
    forall space | Admission(p, g, expected, false, space).Ok?
      ensures Admission(p, g, expected, false, p.minFreeBytes + p.maxInflightBytes).Ok?
    {
      AdmitsExactly(p, g, expected, false, space);
    }
  }

  /** A policy is valid exactly when it lets an idle cache take an artifact of the largest size,
      which is not zero, and neither the free-space sum nor the payload can exceed 64 bits. */
  lemma ValidPoliciesAdmit(p: Policy)
    requires p.maxInflightBytes <= U64_MAX
    ensures ValidPolicy(p) <==>
            && p.maxArtifactBytes != 0 && Admissible(p, IDLE, None)
            && p.maxInflightBytes + p.minFreeBytes <= U64_MAX && p.maxInflightBytes + p.maxBytes <= U64_MAX
  {
    if ValidPolicy(p) { EnoughSpaceExists(p, IDLE, None); }
  }

  /** Each refusal names the obstacle: what would have to be different for a request to be
      admitted. An artifact is too large if not even an idle gate would take it; the
      reservations are exhausted if the gate would take it with nothing reserved. */
  lemma RefusalsNameTheObstacle(p: Policy, g: Gate, expected: Option<nat>, busy: bool, space: nat)
    requires ValidPolicy(p)
    ensures var r, idle := Admission(p, g, expected, busy, space), Admissible(p, IDLE, expected);
            && (r == Err(TooLarge) <==> !idle)
            && (r == Err(Busy) <==> idle && busy)
            && (r == Err(MaintenanceFailed) <==> idle && !busy && g.failed)
            && (r == Err(Draining) <==> idle && !busy && !g.failed && !Admissible(p, g.(reserved := 0), expected))
            && (r == Err(ReservationsExhausted) <==>
                  !busy && Admissible(p, g.(reserved := 0), expected) && !Admissible(p, g, expected))
            && (r == Err(NoSpace) <==> !busy && Admissible(p, g, expected) && !r.Ok?)
            && r != Err(HeadroomOverflow)
  {
    EnoughSpaceExists(p, IDLE, expected);
    EnoughSpaceExists(p, g.(reserved := 0), expected);
    EnoughSpaceExists(p, g, expected);
  }

  /** From idle, an artifact is admitted exactly when it fits the artifact limit, the mutex
      is free and the disk has room for it beyond the headroom: policies that could never
      admit a maximum-size artifact are not valid. */
  lemma IdleAdmitsAnythingThatFits(p: Policy, g: Gate, expected: Option<nat>, busy: bool, space: nat)
    requires ValidPolicy(p) && GateOk(p, g) && g.active == 0 && !g.failed
    ensures Admission(p, g, expected, busy, space).Ok? <==>
            LimitOf(p, expected) <= p.maxArtifactBytes && !busy
            && space >= p.minFreeBytes + LimitOf(p, expected)
  {
  }

  /** A failed gate refuses whatever is asked. */
  lemma FailureIsSticky(p: Policy, g: Gate, expected: Option<nat>, busy: bool, space: nat)
    requires GateOk(p, g) && g.failed
    ensures Admission(p, g, expected, busy, space).Err? && g.active == 0
  {
  }

  class Coordinator {
    const store: Store
    const policy: Policy
    var active: nat
    var reserved: nat
    var maintenance: bool
    var failed: bool

    function State(): Gate
      reads this
    {
      Gate(active, reserved, maintenance, failed)
    }

    ghost predicate Valid()
      reads this
    {
      ValidPolicy(policy) && GateOk(policy, State())
    }

    constructor (store: Store, policy: Policy)
      requires ValidPolicy(policy)
      ensures Valid() && State() == IDLE && this.store == store && this.policy == policy
    {
      this.store, this.policy := store, policy;
      active, reserved, maintenance, failed := 0, 0, false, false;
    }

    method Admit(expected: Option<nat>, busy: bool, space: nat) returns (r: Result<nat, Refusal>)
      requires Valid()
      modifies this
      ensures Valid()
      ensures var decided := Admission(policy, old(State()), expected, busy, space);
              if decided.Ok? then r == Ok(LimitOf(policy, expected)) && State() == decided.value
              else r == Err(decided.error) && State() == old(State())
      ensures r != Err(HeadroomOverflow)
      // The whole batch with this fill fits the in-flight budget and leaves the disk its reserve.
      ensures r.Ok? <==>
                var limit := LimitOf(policy, expected);
                && limit <= policy.maxArtifactBytes && !busy && !old(failed) && !old(maintenance)
                && old(active) < policy.maxConcurrentFills
                && old(reserved) + limit <= policy.maxInflightBytes
                && space >= policy.minFreeBytes + old(reserved) + limit
      // A request without a declared size reserves the largest there is.
      ensures r.Ok? ==> r.value == if expected.Some? then expected.value else policy.maxArtifactBytes
    {
      var limit := LimitOf(policy, expected);
      if limit > policy.maxArtifactBytes { return Err(TooLarge); }
      if busy { return Err(Busy); }
      if failed { return Err(MaintenanceFailed); }
      if maintenance || active >= policy.maxConcurrentFills { return Err(Draining); }
      var wanted := reserved + limit;
      if wanted > U64_MAX || wanted > policy.maxInflightBytes { return Err(ReservationsExhausted); }
      var required := policy.minFreeBytes + wanted;
      if required > U64_MAX { return Err(HeadroomOverflow); }
      if space < required { return Err(NoSpace); }
      active := active + 1;
      reserved := wanted;
      r := Ok(limit);
    }

    /** Measure, collect, and measure again. The final comparison never fails: only a damaged
        sidecar or a byte count beyond 64 bits stops maintenance. */
    method Maintain() returns (ok: bool)
      modifies store`index, store`blobs
      ensures ok <==> AllReadable(old(store.index)) && Total(old(store.blobs)) <= U64_MAX
      ensures ok ==> Total(store.blobs) <= policy.maxBytes
      ensures ok ==> exists removed ::
                Evicts(old(store.index), old(store.blobs), removed, store.index, store.blobs)
                && Shortest(old(store.index), old(store.blobs), policy.maxBytes, removed)
      ensures !ok ==> store.index == old(store.index) && store.blobs == old(store.blobs)
    {
      var before := store.BlobBytes();
      if before.Err? { return false; }
      TotalMonotone(Live(store.index, store.blobs), store.blobs);
      var removed := store.Gc(policy.maxBytes);
      if removed.Err? { return false; }
      TotalMonotone(store.blobs, old(store.blobs));
      var after := store.BlobBytes();
      if after.Err? { return false; }
      if after.value > policy.maxBytes { return false; }
      ok := true;
    }

    /** Dropping a fill's guard. */
    method Finish()
      requires Valid() && active > 0
      modifies this, store`index, store`blobs
      ensures Valid()
      ensures old(active) > 1 ==>
                State() == Closed(old(State()))
                && store.index == old(store.index) && store.blobs == old(store.blobs)
      ensures old(active) == 1 ==>
                var ok := AllReadable(old(store.index)) && Total(old(store.blobs)) <= U64_MAX;
                && State() == AfterMaintenance(Closed(old(State())), ok)
                && (ok ==> Total(store.blobs) <= policy.maxBytes
                           && exists removed ::
                                Evicts(old(store.index), old(store.blobs), removed, store.index, store.blobs))
                && (!ok ==> store.index == old(store.index) && store.blobs == old(store.blobs))
    {
      maintenance := true;
      active := active - 1;
      if active != 0 { return; }
      var ok := Maintain();
      if ok {
        reserved := 0;
        maintenance := false;
      } else {
        failed := true;
      }
    }
  }

  function SumOf(sizes: seq<nat>): nat {
    if sizes == [] then 0 else SumOf(sizes[..|sizes| - 1]) + sizes[|sizes| - 1]
  }

  lemma {:induction false} SumOfPrefix(sizes: seq<nat>, n: nat)
    requires n <= |sizes|
    ensures SumOf(sizes[..n]) <= SumOf(sizes)
    decreases |sizes|
  {
    if n < |sizes| {
      var front := sizes[..|sizes| - 1];
      SumOfPrefix(front, n);
      assert front[..n] == sizes[..n];
    } else {
      assert sizes[..n] == sizes;
    }
  }

  /** Add up what earlier crashes left behind, with checked 64-bit addition. */
  method TemporaryBytes(sizes: seq<nat>) returns (total: Option<nat>)
    ensures total == if SumOf(sizes) <= U64_MAX then Some(SumOf(sizes)) else None
  {
    var sum: nat := 0;
    for i := 0 to |sizes|
      invariant sum == SumOf(sizes[..i]) <= U64_MAX
    {
      assert sizes[..i + 1][..i] == sizes[..i];
      SumOfPrefix(sizes, i + 1);
      sum := sum + sizes[i];
      if sum > U64_MAX { return None; }
    }
    assert sizes[..|sizes|] == sizes;
    total := Some(sum);
  }

  /** Start-up: validate the limits, take exclusive ownership, count leftover temp files, and
      bring the cache within its budget before anything is admitted. `temps` lists the sizes of
      those files, if they can be read. */
  method Open(store: Store, policy: Policy, exclusive: bool, temps: Option<seq<nat>>) returns (c: Coordinator?)
    modifies store`index, store`blobs
    ensures c != null <==> ValidPolicy(policy) && exclusive
                           && temps.Some? && SumOf(temps.value) <= U64_MAX
                           && AllReadable(old(store.index)) && Total(old(store.blobs)) <= U64_MAX
    ensures c != null ==> fresh(c) && c.Valid() && c.State() == IDLE && c.store == store && c.policy == policy
                          && Total(store.blobs) <= policy.maxBytes
  {
    if !ValidPolicy(policy) || !exclusive || temps == None { return null; }
    var leftover := TemporaryBytes(temps.value);
    if leftover == None { return null; }
    var owner := new Coordinator(store, policy);
    var ok := owner.Maintain();
    c := if ok then owner else null;
  }
}
