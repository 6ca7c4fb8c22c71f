/** A managed server as a transition system: any number of concurrent fills write through
    their budgets, publish and upload, while guards drop in any order and the last one runs
    maintenance. The steps are the operations of the receiver, the store and the gate. */
module ManagedServer {
  import opened Basics
  import opened Sums
  import opened ContentChecks
  import opened Pins
  import opened Receiving
  import opened TransferLaws
  import opened Catalog
  import opened Resolution
  import opened Coordination

  /** A cold fill holding a guard: its reservation, the writer of its current attempt (whose
      `left` is the budget still available), and the path the store returned to it with the
      bytes that path held. */
  datatype Fill = Fill(limit: nat, a: Artifact, recv: Recv, path: Option<(Digest, Bytes)>)

  /** `batch` lists the reservations made since the last successful maintenance; `maintaining`
      says that the thread that dropped the last guard is deleting. */
  datatype Server = Server(
    gate: Gate,
    fills: map<nat, Fill>,
    index: Index,
    blobs: Blobs,
    batch: seq<nat>,
    maintaining: bool)

  datatype Label =
    | Admit(id: nat, a: Artifact, busy: bool, space: nat)
    | WriteTo(id: nat, wr: Write)
    | Retry(id: nat)
    | Place(id: nat)
    | WriteEntry(id: nat, key: Key, e: Entry)
    | Hold(id: nat, d: Digest)
    | Drop(id: nat)
    | Reclaim(keys: set<Key>, digests: set<Digest>)
    | Reopen(ok: bool)

  function Left(f: Fill): nat { if f.recv.left.Some? then f.recv.left.value else 0 }

  /** What a fill may still turn into blob bytes: its temp file and its unspent budget. */
  function Claim(f: Fill): nat { |f.recv.file| + Left(f) }

  function TempBytes(f: Fill): nat { |f.recv.file| }

  /** A new attempt drops the temp file but keeps what is left of the budget. */
  function NextAttempt(f: Fill): Fill { f.(recv := Receiving.Fresh(f.recv.left)) }

  predicate FillOk(f: Fill) { Sound(f.recv) && f.recv.left.Some? && Claim(f) <= f.limit }

  /** A request that misses: refused, or admitted as a fill with its reservation. */
  function Admitted(p: Policy, s: Server, id: nat, a: Artifact, busy: bool, space: nat): Server {
    var decided := Admission(p, s.gate, a.expectedBytes, busy, space);
    if decided.Err? then s else WithFill(s, id, a, LimitOf(p, a.expectedBytes), decided.value)
  }

  function WithFill(s: Server, id: nat, a: Artifact, limit: nat, gate: Gate): Server {
    s.(gate := gate, batch := s.batch + [limit],
       fills := s.fills[id := Fill(limit, a, Receiving.Fresh(Some(limit)), None)])
  }

  ghost predicate Next(w: Oracles, p: Policy, s: Server, l: Label, s': Server) {
    match l
    case Admit(id, a, busy, space) => id !in s.fills && s' == Admitted(p, s, id, a, busy, space)
    case WriteTo(id, wr) =>
      id in s.fills && Sound(s.fills[id].recv) &&
      var f := s.fills[id];
      s' == s.(fills := s.fills[id := f.(recv := Receiving.Step(w, f.a.check, f.recv, wr).0)])
    case Retry(id) => id in s.fills && s' == s.(fills := s.fills[id := NextAttempt(s.fills[id])])
    case Place(id) =>
      // The attempt served a body that passed its prefix check and validation.
      id in s.fills &&
      var f := s.fills[id];
      var got := Conclude(w, f.a.check, f.recv, Served);
      && got.Ok? && got.value.Some?
      && Validate(w, f.a, got.value.value.content, got.value.value.bytes, got.value.value.digest).Pass?
      && var placed := PublishBlob(w, s.blobs, got.value.value.digest, got.value.value.content);
         if placed.Some?
         then s' == s.(blobs := placed.value, fills := s.fills[id := NextAttempt(f)])
         else s' == s.(fills := s.fills[id := NextAttempt(f)])
    case WriteEntry(id, key, e) =>
      id in s.fills && e.digest in s.blobs && s' == s.(index := s.index[key := Readable(e)])
    case Hold(id, d) =>
      id in s.fills && s.fills[id].path == None && d in s.blobs
      && s' == s.(fills := s.fills[id := s.fills[id].(path := Some((d, s.blobs[d])))])
    case Drop(id) =>
      // A dropped guard closes admission; the last one starts maintenance.
      id in s.fills
      && s' == s.(gate := Closed(s.gate), fills := s.fills - {id}, maintaining := s.gate.active == 1)
    case Reclaim(keys, digests) =>
      // Maintenance, file by file, whatever it chooses to delete.
      s.maintaining && s' == s.(index := s.index - keys, blobs := s.blobs - digests)
    case Reopen(ok) =>
      // It succeeds only if the bytes measured afterwards are within the budget.
      s.maintaining && (ok ==> Total(s.blobs) <= p.maxBytes)
      && s' == s.(gate := AfterMaintenance(s.gate, ok), batch := if ok then [] else s.batch, maintaining := false)
  }

  /** After start-up maintenance. */
  ghost predicate Started(p: Policy, s: Server) {
    && ValidPolicy(p) && s.gate == IDLE && s.fills == map[] && s.batch == [] && !s.maintaining
    && Total(s.blobs) <= p.maxBytes
  }

  /** While maintenance runs, admission is closed and no guard is live. */
  predicate GateNow(p: Policy, s: Server) {
    if s.maintaining
    then s.gate.active == 0 && s.gate.maintenance && !s.gate.failed && s.gate.reserved <= p.maxInflightBytes
    else GateOk(p, s.gate)
  }

  ghost predicate Inv(p: Policy, s: Server) {
    && ValidPolicy(p) && GateNow(p, s)
    // accounting
    && s.gate.active == |s.fills| && s.gate.reserved == SumOf(s.batch)
    && |s.batch| <= p.maxConcurrentFills
    && (!s.gate.maintenance ==> |s.batch| == s.gate.active)
    && (forall id | id in s.fills :: FillOk(s.fills[id]) && s.fills[id].limit <= p.maxArtifactBytes)
    // payload: what exists and what may still be published is within what was reserved
    && Total(s.blobs) + Sum(s.fills, Claim) <= p.maxBytes + s.gate.reserved
    // protection
    && (forall id | id in s.fills && s.fills[id].path.Some? :: PathIntact(s, id))
  }

  ghost predicate PathIntact(s: Server, id: nat)
    requires id in s.fills && s.fills[id].path.Some?
  {
    var (d, held) := s.fills[id].path.value;
    d in s.blobs && s.blobs[d] == held
  }

  // ----- each step keeps the invariant -----

  /** Replacing one fill by one that claims no more, with blobs that only grew by what the
      claim gave up, keeps everything. */
  lemma ReplaceFill(p: Policy, s: Server, id: nat, f: Fill, blobs: Blobs)
    requires Inv(p, s) && id in s.fills && FillOk(f) && f.limit == s.fills[id].limit
    requires f.path == s.fills[id].path
             || (f.path.Some? && f.path.value.0 in blobs && blobs[f.path.value.0] == f.path.value.1)
    requires Preserves(s.blobs, blobs)
    requires Total(blobs) + Claim(f) <= Total(s.blobs) + Claim(s.fills[id])
    ensures Inv(p, s.(fills := s.fills[id := f], blobs := blobs))
  {
    SumUpdate(s.fills, Claim, id, f);
    assert s.fills[id := f].Keys == s.fills.Keys;
    assert |s.fills[id := f]| == |s.fills[id := f].Keys| == |s.fills.Keys| == |s.fills|;
    var s' := s.(fills := s.fills[id := f], blobs := blobs);
    forall i | i in s'.fills && s'.fills[i].path.Some? ensures PathIntact(s', i) {
      if i != id || f.path == s.fills[id].path { assert PathIntact(s, i); }
    }
  }

  lemma PathsSurvive(s: Server, s': Server)
    requires s'.blobs == s.blobs
    requires forall id | id in s.fills && s.fills[id].path.Some? :: PathIntact(s, id)
    requires forall id | id in s'.fills && s'.fills[id].path.Some? :: id in s.fills && s.fills[id] == s'.fills[id]
    ensures forall id | id in s'.fills && s'.fills[id].path.Some? :: PathIntact(s', id)
  {
    forall id | id in s'.fills && s'.fills[id].path.Some? ensures PathIntact(s', id) {
      assert PathIntact(s, id);
    }
  }

  lemma WithFillKeepsInv(p: Policy, s: Server, id: nat, a: Artifact, limit: nat, gate: Gate)
    requires Inv(p, s) && !s.maintaining && !s.gate.maintenance && id !in s.fills && limit <= p.maxArtifactBytes
    requires GateOk(p, gate) && !gate.maintenance
    requires gate.active == s.gate.active + 1 && gate.reserved == s.gate.reserved + limit
    ensures Inv(p, WithFill(s, id, a, limit, gate))
  {
    AddFill(s.fills, id, Fill(limit, a, Receiving.Fresh(Some(limit)), None));
    SumOfAppend(s.batch, limit);
    PathsSurvive(s, WithFill(s, id, a, limit, gate));
  }

  lemma AdmitKeepsInv(p: Policy, s: Server, id: nat, a: Artifact, busy: bool, space: nat)
    requires Inv(p, s) && id !in s.fills
    ensures Inv(p, Admitted(p, s, id, a, busy, space))
  {
    var decided := Admission(p, s.gate, a.expectedBytes, busy, space);
    if decided.Ok? {
      AdmissionKeepsGate(p, s.gate, a.expectedBytes, busy, space);
      WithFillKeepsInv(p, s, id, a, LimitOf(p, a.expectedBytes), decided.value);
    }
  }

  lemma SumOfAppend(limits: seq<nat>, limit: nat)
    ensures SumOf(limits + [limit]) == SumOf(limits) + limit
  {
    assert (limits + [limit])[..|limits|] == limits;
  }

  lemma AddFill(fills: map<nat, Fill>, id: nat, f: Fill)
    requires id !in fills
    ensures |fills[id := f]| == |fills| + 1
    ensures Sum(fills[id := f], Claim) == Sum(fills, Claim) + Claim(f)
  {
    SumAdd(fills, Claim, id, f);
    assert fills[id := f].Keys == fills.Keys + {id};
    assert |fills[id := f]| == |fills[id := f].Keys| && |fills| == |fills.Keys|;
  }

  lemma WriteKeepsClaim(w: Oracles, f: Fill, wr: Write)
    requires FillOk(f)
    ensures var f' := f.(recv := Receiving.Step(w, f.a.check, f.recv, wr).0);
            FillOk(f') && Claim(f') <= Claim(f)
  {
    StepIsSound(w, f.a.check, f.recv, wr);
  }

  lemma FillStepKeepsInv(w: Oracles, p: Policy, s: Server, l: Label, s': Server)
    requires Inv(p, s) && Next(w, p, s, l, s') && (l.WriteTo? || l.Retry? || l.Hold?)
    ensures Inv(p, s')
  {
    if l.WriteTo? { WriteKeepsClaim(w, s.fills[l.id], l.wr); }
    ReplaceFill(p, s, l.id, s'.fills[l.id], s.blobs);
  }

  lemma PlaceKeepsInv(w: Oracles, p: Policy, s: Server, l: Label, s': Server)
    requires Inv(p, s) && Next(w, p, s, l, s') && l.Place?
    ensures Inv(p, s')
  {
    var f := s.fills[l.id];
    var got := Conclude(w, f.a.check, f.recv, Served).value.value;
    var placed := PublishBlob(w, s.blobs, got.digest, got.content);
    if placed.Some? { PublishGrowth(w, s.blobs, got.digest, got.content); }
    ReplaceFill(p, s, l.id, s'.fills[l.id], s'.blobs);
  }

  lemma DropKeepsInv(w: Oracles, p: Policy, s: Server, l: Label, s': Server)
    requires Inv(p, s) && l.Drop? && Next(w, p, s, l, s')
    ensures Inv(p, s')
  {
    SomeLive(s.fills, l.id);
    SumRemove(s.fills, Claim, l.id);
    assert s'.fills.Keys == s.fills.Keys - {l.id};
    assert |s'.fills| == |s'.fills.Keys| && |s.fills| == |s.fills.Keys|;
    PathsSurvive(s, s');
  }

  /** Deleting is safe because nobody holds a path: no guard is live. */
  lemma MaintenanceKeepsInv(w: Oracles, p: Policy, s: Server, l: Label, s': Server)
    requires Inv(p, s) && (l.Reclaim? || l.Reopen?) && Next(w, p, s, l, s')
    ensures Inv(p, s')
  {
    assert |s.fills| == 0 && s.fills == map[] by { NoneLive(s.fills); }
    if l.Reclaim? { TotalMonotone(s'.blobs, s.blobs); }
  }

  lemma SomeLive(fills: map<nat, Fill>, id: nat)
    requires id in fills
    ensures |fills| > 0
  {
    assert id in fills.Keys && |fills.Keys| == |fills|;
  }

  lemma NoneLive(fills: map<nat, Fill>)
    ensures |fills| == 0 ==> fills == map[]
  {
    if fills != map[] {
      var id :| id in fills;
      assert id in fills.Keys && |fills.Keys| == |fills|;
    }
  }

  lemma StepKeepsInv(w: Oracles, p: Policy, s: Server, l: Label, s': Server)
    requires Inv(p, s) && Next(w, p, s, l, s')
    ensures Inv(p, s')
  {
    match l
    case Admit(id, a, busy, space) => AdmitKeepsInv(p, s, id, a, busy, space);
    case WriteEntry(_, _, _) => PathsSurvive(s, s');
    case Place(_) => PlaceKeepsInv(w, p, s, l, s');
    case Drop(_) => DropKeepsInv(w, p, s, l, s');
    case Reclaim(_, _) => MaintenanceKeepsInv(w, p, s, l, s');
    case Reopen(_) => MaintenanceKeepsInv(w, p, s, l, s');
    case _ => FillStepKeepsInv(w, p, s, l, s');
  }

  // ----- whole runs -----

  ghost predicate IsRun(w: Oracles, p: Policy, states: seq<Server>, labels: seq<Label>) {
    && |states| == |labels| + 1 && Started(p, states[0])
    && forall i | 0 <= i < |labels| :: Next(w, p, states[i], labels[i], states[i + 1])
  }

  lemma {:induction false} RunKeepsInv(w: Oracles, p: Policy, states: seq<Server>, labels: seq<Label>, i: nat)
    requires IsRun(w, p, states, labels) && i < |states|
    ensures Inv(p, states[i])
  {
    if i > 0 {
      RunKeepsInv(w, p, states, labels, i - 1);
      StepKeepsInv(w, p, states[i - 1], labels[i - 1], states[i]);
    }
  }

  lemma {:induction false} ClaimsCoverTemps(fills: map<nat, Fill>)
    ensures Sum(fills, TempBytes) <= Sum(fills, Claim)
    decreases |fills|
  {
    if fills != map[] {
      var id :| id in fills;
      SumRemove(fills, TempBytes, id);
      SumRemove(fills, Claim, id);
      ClaimsCoverTemps(fills - {id});
    }
  }

  /** The payload envelope: at every moment of every run the blobs and the temp files of all
      fills together stay within the retained budget plus the in-flight budget. */
  lemma PayloadEnvelope(w: Oracles, p: Policy, states: seq<Server>, labels: seq<Label>, i: nat)
    requires IsRun(w, p, states, labels) && i < |states|
    ensures Total(states[i].blobs) + Sum(states[i].fills, TempBytes) <= p.maxBytes + p.maxInflightBytes
    ensures p.maxBytes + p.maxInflightBytes <= U64_MAX
  {
    RunKeepsInv(w, p, states, labels, i);
    ClaimsCoverTemps(states[i].fills);
  }

  /** Fill protection: the path a fill was given keeps its bytes until that fill's guard
      drops, whatever other fills do and even when they share the blob. */
  lemma HeldPathsAreProtected(w: Oracles, p: Policy, states: seq<Server>, labels: seq<Label>, i: nat, j: nat, id: nat)
    requires IsRun(w, p, states, labels) && i <= j < |states|
    requires id in states[i].fills && states[i].fills[id].path.Some?
    requires forall n | i <= n < j :: labels[n] != Drop(id)
    ensures var (d, held) := states[i].fills[id].path.value;
            && id in states[j].fills && states[j].fills[id].path == states[i].fills[id].path
            && d in states[j].blobs && states[j].blobs[d] == held
  {
    PathStays(w, p, states, labels, i, j, id);
    RunKeepsInv(w, p, states, labels, j);
    assert PathIntact(states[j], id);
  }

  lemma PathStaysOneStep(w: Oracles, p: Policy, s: Server, l: Label, s': Server, id: nat)
    requires Next(w, p, s, l, s') && id in s.fills && s.fills[id].path.Some? && l != Drop(id)
    ensures id in s'.fills && s'.fills[id].path == s.fills[id].path
  {
  }

  lemma {:induction false} PathStays(w: Oracles, p: Policy, states: seq<Server>, labels: seq<Label>, i: nat, j: nat,
                                     id: nat)
    requires IsRun(w, p, states, labels) && i <= j < |states|
    requires id in states[i].fills && states[i].fills[id].path.Some?
    requires forall n | i <= n < j :: labels[n] != Drop(id)
    ensures id in states[j].fills && states[j].fills[id].path == states[i].fills[id].path
    decreases j - i
  {
    if i < j {
      PathStays(w, p, states, labels, i, j - 1, id);
      PathStaysOneStep(w, p, states[j - 1], labels[j - 1], states[j], id);
    }
  }

  /** Accounting: the active count is the number of live guards, the reservation is the sum
      of everything admitted since the last successful maintenance, a batch never admits
      more than the concurrency limit, and no live fill was promised more than it reserved. */
  lemma AccountingIsExact(w: Oracles, p: Policy, states: seq<Server>, labels: seq<Label>, i: nat)
    requires IsRun(w, p, states, labels) && i < |states|
    ensures var s := states[i];
            && s.gate.active == |s.fills| && s.gate.reserved == SumOf(s.batch) <= p.maxInflightBytes
            && |s.batch| <= p.maxConcurrentFills
            && (s.gate.failed ==> s.fills == map[])
            && (forall id | id in s.fills :: Claim(s.fills[id]) <= s.fills[id].limit <= p.maxArtifactBytes)
            // A guard that is still to drop finds the count above zero, so it never underflows.
            && (forall id | id in s.fills :: s.gate.active > 0 && Closed(s.gate).active == s.gate.active - 1)
  {
    RunKeepsInv(w, p, states, labels, i);
    forall id | id in states[i].fills ensures |states[i].fills| > 0 { SomeLive(states[i].fills, id); }
  }

  /** In every run a request is admitted exactly when its limit is one the policy allows, the
      mutex is free, the server neither drains nor failed, fewer fills are live than the policy
      allows, and the limits of the whole batch and its own fit the in-flight budget and leave
      the disk its reserve. An admitted fill starts with its whole limit to spend. */
  lemma AdmissionIsExact(w: Oracles, p: Policy, states: seq<Server>, labels: seq<Label>, i: nat)
    requires IsRun(w, p, states, labels) && i < |labels| && labels[i].Admit?
    ensures var s, s', l := states[i], states[i + 1], labels[i];
            var limit := LimitOf(p, l.a.expectedBytes);
            if && limit <= p.maxArtifactBytes && !l.busy && !s.gate.failed && !s.gate.maintenance
               && |s.fills| < p.maxConcurrentFills
               && SumOf(s.batch) + limit <= p.maxInflightBytes
               && l.space >= p.minFreeBytes + SumOf(s.batch) + limit
            then && s'.fills == s.fills[l.id := Fill(limit, l.a, Receiving.Fresh(Some(limit)), None)]
                 && s'.batch == s.batch + [limit] && SumOf(s'.batch) + p.minFreeBytes <= l.space
                 && s'.gate.active == s.gate.active + 1
            else s' == s
  {
    RunKeepsInv(w, p, states, labels, i);
    var s, l := states[i], labels[i];
    assert Next(w, p, s, l, states[i + 1]);
    AdmitsExactly(p, s.gate, l.a.expectedBytes, l.busy, l.space);
    SumOfAppend(s.batch, LimitOf(p, l.a.expectedBytes));
  }

  /** Progress: a live fill that has not spent more than the length of some genuine body can
      start over, write that body and publish it, unless its address holds corrupt bytes. */
  lemma FillCanPublish(w: Oracles, p: Policy, s: Server, id: nat, body: Bytes)
    returns (s1: Server, s2: Server, s3: Server)
    requires id in s.fills && FillOk(s.fills[id]) && |body| <= Left(s.fills[id])
    requires Genuine(w, s.fills[id].a, body) && !CorruptAt(w, s.blobs, w.sha(body))
    ensures Next(w, p, s, Retry(id), s1) && Next(w, p, s1, WriteTo(id, Write(body, Full)), s2)
    ensures Next(w, p, s2, Place(id), s3)
    ensures var d := w.sha(body);
            && d in s3.blobs && w.sha(s3.blobs[d]) == d && (d !in s.blobs ==> s3.blobs[d] == body)
            && s3.gate == s.gate && s3.index == s.index
  {
    var f := s.fills[id];
    s1 := s.(fills := s.fills[id := NextAttempt(f)]);
    var written := Receiving.Step(w, f.a.check, NextAttempt(f).recv, Write(body, Full)).0;
    s2 := s1.(fills := s1.fills[id := NextAttempt(f).(recv := written)]);
    GenuineBodyConcludes(w, f.a, f.recv.left, body);
    ValidationIsGenuine(w, f.a, body);
    var placed := PublishBlob(w, s.blobs, w.sha(body), body).value;
    s3 := s2.(blobs := placed, fills := s2.fills[id := NextAttempt(s2.fills[id])]);
  }

  lemma GenuineBodyConcludes(w: Oracles, a: Artifact, left: Option<nat>, body: Bytes)
    requires left.Some? && |body| <= left.value && Genuine(w, a, body)
    ensures Sound(Receiving.Fresh(left))
    ensures var s := Receiving.Step(w, a.check, Receiving.Fresh(left), Write(body, Full)).0;
            Conclude(w, a.check, s, Served) == Ok(Some(Received(body, w.sha(body), |body|)))
  {
    EarlyRejectionIsSound(w, a.check, body);
    assert Head([]) == [];
    TrackingStep(w, a.check, Receiving.Fresh(left), [], true, Write(body, Full));
    assert [] + body == body;
  }

  /** Between the drop of the last guard and the reopening nobody is admitted, no guard is live
      and no path is held, whatever requests arrive and however many files are deleted. */
  lemma MaintenanceIsExclusive(w: Oracles, p: Policy, states: seq<Server>, labels: seq<Label>, i: nat)
    requires IsRun(w, p, states, labels) && i < |labels| && states[i].maintaining
    ensures states[i].fills == map[] && states[i + 1].fills == map[]
    ensures labels[i].Admit? ==> states[i + 1] == states[i]
  {
    RunKeepsInv(w, p, states, labels, i);
    NoneLive(states[i].fills);
    assert Next(w, p, states[i], labels[i], states[i + 1]);
  }

  lemma FailureStep(w: Oracles, p: Policy, s: Server, l: Label, s': Server)
    requires Inv(p, s) && Next(w, p, s, l, s') && s.gate.failed
    ensures s' == s && s.fills == map[]
  {
    NoneLive(s.fills);
    if l.Admit? { FailureIsSticky(p, s.gate, l.a.expectedBytes, l.busy, l.space); }
  }

  lemma FailureStepInRun(w: Oracles, p: Policy, states: seq<Server>, labels: seq<Label>, n: nat)
    requires IsRun(w, p, states, labels) && n < |labels| && states[n].gate.failed
    ensures states[n + 1] == states[n]
  {
    RunKeepsInv(w, p, states, labels, n);
    FailureStep(w, p, states[n], labels[n], states[n + 1]);
  }

  /** A state followed only by itself stays. */
  lemma {:induction false} Stuck(states: seq<Server>, i: nat, j: nat)
    requires i <= j < |states| && states[i].gate.failed
    requires forall n | i <= n < j && states[n].gate.failed :: states[n + 1] == states[n]
    ensures states[j] == states[i]
    decreases j
  {
    if i < j { Stuck(states, i, j - 1); }
  }

  /** Once maintenance has failed nothing is admitted again, no guard is live, and the cache
      stays as it is. */
  lemma FailureLasts(w: Oracles, p: Policy, states: seq<Server>, labels: seq<Label>, i: nat, j: nat)
    requires IsRun(w, p, states, labels) && i <= j < |states| && states[i].gate.failed
    ensures states[j] == states[i] && states[j].fills == map[]
  {
    forall n | i <= n < j && states[n].gate.failed ensures states[n + 1] == states[n] {
      FailureStepInRun(w, p, states, labels, n);
    }
    Stuck(states, i, j);
    RunKeepsInv(w, p, states, labels, j);
    NoneLive(states[j].fills);
  }
}
