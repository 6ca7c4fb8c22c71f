/** What the interleaved store hands out: what each answer rests on, when a cached blob is
    genuine, and who is contacted after a fill. */
module StoreServing {
  import opened Basics
  import opened ContentChecks
  import opened Pins
  import opened TransferLaws
  import opened Catalog
  import opened Resolution
  import opened StoreProtocol

  // ----- what an answer rests on -----

  /** The bytes at the address were found to hash to it, and either a body of that digest was
      validated as a whole, or every part of the check accepted what it read there. */
  predicate Backed(w: Oracles, answer: Answer) {
    && w.sha(answer.hashed) == answer.d
    && match answer.evidence
       case Body(body) => w.sha(body) == answer.d && Genuine(w, answer.a, body)
       case Reads(size, views) =>
         && PinsMatch(answer.a.check, answer.d)
         && (answer.a.expectedBytes.Some? ==> answer.a.expectedBytes.value == size)
         && |views| == |Remaining(answer.a)|
         && Approves(w, answer.a, views)
  }

  predicate Approves(w: Oracles, a: Artifact, views: seq<Bytes>) {
    |views| <= |Remaining(a)| && forall i | 0 <= i < |views| :: Accepts(w, Remaining(a)[i], views[i])
  }

  /** What a process has established by its program point. */
  predicate PcBacked(w: Oracles, pc: Pc) {
    match pc
    case GetSized(a, e) => PinsMatch(a.check, e.digest)
    case GetChecking(a, e, hashed, views) =>
      PinsMatch(a.check, e.digest) && SizeFits(a, e) && w.sha(hashed) == e.digest && Approves(w, a, views)
    case GetWantStore(a, _, body, e) => Validated(w, a, body, e)
    case GetHasStore(a, _, body, e) => Validated(w, a, body, e)
    case GetPlaced(a, _, body, e, held) => Validated(w, a, body, e) && w.sha(held) == e.digest
    case GetWritten(a, _, body, e, held) => Validated(w, a, body, e) && w.sha(held) == e.digest
    case GetReturn(answer) => Backed(w, answer)
    case _ => true
  }

  ghost predicate AllBacked(w: Oracles, s: State) {
    && (forall p | p in s.pcs :: PcBacked(w, s.pcs[p]))
    && forall i | 0 <= i < |s.sh.served| :: Backed(w, s.sh.served[i])
  }

  /** A step serves nothing but what a returning process had established. */
  ghost predicate ServesBacked(w: Oracles, sh: Shared, sh': Shared) {
    || sh'.served == sh.served
    || (|sh'.served| == |sh.served| + 1 && sh'.served[..|sh.served|] == sh.served
        && Backed(w, sh'.served[|sh.served|]))
  }

  lemma ReadBacks(w: Oracles, pid: Pid, sh: Shared, pc: Pc, sh': Shared, pc': Pc)
    requires Reading(pc) && ReadStep(w, pid, sh, pc, sh', pc') && PcBacked(w, pc)
    ensures PcBacked(w, pc') && sh'.served == sh.served
  {
  }

  lemma FillBacks(w: Oracles, pid: Pid, sh: Shared, pc: Pc, sh': Shared, pc': Pc)
    requires Filling(pc) && FillStep(w, pid, sh, pc, sh', pc') && PcBacked(w, pc)
    ensures PcBacked(w, pc') && ServesBacked(w, sh, sh')
  {
    if pc.GetWritten? { ValidationIsGenuine(w, pc.a, pc.body); }
  }

  lemma OthersServeNothing(w: Oracles, pid: Pid, sh: Shared, pc: Pc, sh': Shared, pc': Pc)
    requires !Reading(pc) && !Filling(pc) && Step(w, pid, sh, pc, sh', pc')
    ensures PcBacked(w, pc') && sh'.served == sh.served
  {
  }

  lemma StepBacks(w: Oracles, s: State, l: Label, s': State)
    requires AllBacked(w, s) && Next(w, s, l, s')
    ensures AllBacked(w, s')
  {
    if l.Do? {
      var pid := l.pid;
      if Reading(s.pcs[pid]) { ReadBacks(w, pid, s.sh, s.pcs[pid], s'.sh, s'.pcs[pid]); }
      else if Filling(s.pcs[pid]) { FillBacks(w, pid, s.sh, s.pcs[pid], s'.sh, s'.pcs[pid]); }
      else { OthersServeNothing(w, pid, s.sh, s.pcs[pid], s'.sh, s'.pcs[pid]); }
      forall i | 0 <= i < |s'.sh.served| ensures Backed(w, s'.sh.served[i]) {
        assert i < |s.sh.served| ==> s'.sh.served[i] == s.sh.served[i];
      }
    }
  }

  /** Whatever interleaves, crashes or is corrupted, every path ever handed out rests on bytes
      found to hash to its digest, and on a validated body of that digest or on an approving
      read for every part of the check, under matching pins and sizes. */
  lemma {:induction false} NothingUnbackedIsEverServed(w: Oracles, states: seq<State>, labels: seq<Label>, i: nat)
    requires IsRun(w, states, labels) && i < |states|
    ensures AllBacked(w, states[i])
  {
    if i > 0 {
      NothingUnbackedIsEverServed(w, states, labels, i - 1);
      StepBacks(w, states[i - 1], labels[i - 1], states[i]);
    }
  }

  // ----- when an answer is genuine -----

  /** All reads of a hit saw the same bytes. */
  predicate Steady(answer: Answer) {
    answer.evidence.Reads? && answer.evidence.size == |answer.hashed|
    && forall v | v in answer.evidence.views :: v == answer.hashed
  }

  /** Reads that agree add up to the whole check. */
  lemma SteadyAnswersAreGenuine(w: Oracles, answer: Answer)
    requires Backed(w, answer) && Steady(answer)
    ensures Genuine(w, answer.a, answer.hashed)
  {
    var a, body := answer.a, answer.hashed;
    forall leaf | leaf in Remaining(a) ensures Accepts(w, leaf, body) {
      var i :| 0 <= i < |Remaining(a)| && Remaining(a)[i] == leaf;
      assert answer.evidence.views[i] in answer.evidence.views;
    }
    AcceptsByLeaves(w, WithoutSha256(a.check), body);
    PinSplittingPreservesMeaning(w, a.check, body);
  }

  /** A fill hands out genuine bytes, also where it kept a blob that was there: this is where
      two bodies of one digest must be equal. */
  lemma FilledAnswersAreGenuine(w: Oracles, answer: Answer)
    requires Backed(w, answer) && answer.evidence.Body? && Injective(w)
    ensures answer.hashed == answer.evidence.body && Genuine(w, answer.a, answer.hashed)
  {
  }

  /** A get of `a` between finding the entry and deciding. */
  predicate Hitting(pc: Pc, a: Artifact, e: Entry) {
    (pc.GetRead? || pc.GetSized? || pc.GetChecking?) && pc.a == a && pc.e == e
  }

  /** The entry is read here, and its blob exists. */
  lemma HitHasItsBlob(s: State, p: Pid, a: Artifact, e: Entry)
    requires Inv(s) && p in s.pcs && Hitting(s.pcs[p], a, e)
    ensures e.digest in s.sh.blobs
  {
    assert PcOk(s.sh, s.pcs[p]);
  }

  /** Everything read so far was `blob`. */
  ghost predicate SawOnly(pc: Pc, e: Entry, blob: Bytes) {
    && (pc.GetSized? || pc.GetChecking? ==> |blob| == e.bytes)
    && (pc.GetChecking? ==> pc.hashed == blob && forall v | v in pc.views :: v == blob)
    && (pc.GetReturn? ==> pc.answer.d == e.digest && pc.answer.hashed == blob && Steady(pc.answer))
  }

  /** Each read looks at the blob as it is at that moment. */
  lemma EveryReadLooksAtTheBlob(w: Oracles, pid: Pid, sh: Shared, pc: Pc, sh': Shared, pc': Pc)
    requires Reading(pc) && ReadStep(w, pid, sh, pc, sh', pc')
    ensures pc.GetRead? && pc'.GetSized? ==>
              pc.e.digest in sh.blobs && |sh.blobs[pc.e.digest]| == pc.e.bytes
    ensures pc.GetSized? && pc'.GetChecking? ==>
              pc.e.digest in sh.blobs && pc'.hashed == sh.blobs[pc.e.digest] && pc'.views == []
    ensures pc.GetChecking? && pc'.GetChecking? ==>
              pc.e.digest in sh.blobs && pc'.hashed == pc.hashed && pc'.views == pc.views + [sh.blobs[pc.e.digest]]
  {
  }

  lemma OwnReadSawOnly(w: Oracles, pid: Pid, sh: Shared, pc: Pc, sh': Shared, pc': Pc, a: Artifact, e: Entry)
    requires Hitting(pc, a, e) && ReadStep(w, pid, sh, pc, sh', pc')
    requires e.digest in sh.blobs && SawOnly(pc, e, sh.blobs[e.digest])
    requires Hitting(pc', a, e) || pc'.GetReturn?
    ensures SawOnly(pc', e, sh.blobs[e.digest]) && (pc'.GetReturn? ==> pc'.answer.a == a)
  {
    EveryReadLooksAtTheBlob(w, pid, sh, pc, sh', pc');
  }

  /** Without corruption the blob of a hit is the same at the next step. */
  lemma HitBlobStays(w: Oracles, s: State, l: Label, s': State, p: Pid, a: Artifact, e: Entry)
    requires Inv(s) && Next(w, s, l, s') && p in s.pcs && Hitting(s.pcs[p], a, e)
    requires p in s'.pcs && Hitting(s'.pcs[p], a, e) && !(l.Corrupt? && l.d == e.digest)
    ensures e.digest in s.sh.blobs && e.digest in s'.sh.blobs && s'.sh.blobs[e.digest] == s.sh.blobs[e.digest]
  {
    StepKeepsInv(w, s, l, s');
    HitHasItsBlob(s, p, a, e);
    HitHasItsBlob(s', p, a, e);
    if !l.Corrupt? { BlobsAreNeverRewritten(w, s, l, s', e.digest); }
  }

  /** The blob is not corrupted between two moments. */
  ghost predicate Uncorrupted(labels: seq<Label>, i: nat, j: nat, d: Digest)
    requires j <= |labels|
  {
    forall n | i <= n < j :: !(labels[n].Corrupt? && labels[n].d == d)
  }

  lemma {:induction false} HitSawOnlyTheBlob(w: Oracles, states: seq<State>, labels: seq<Label>,
                                            i: nat, j: nat, p: Pid, a: Artifact, e: Entry)
    requires IsRun(w, states, labels) && i <= j < |states| && Uncorrupted(labels, i, j, e.digest)
    requires forall n | i <= n <= j :: p in states[n].pcs && Hitting(states[n].pcs[p], a, e)
    requires states[i].pcs[p].GetRead?
    ensures e.digest in states[i].sh.blobs && e.digest in states[j].sh.blobs
    ensures states[j].sh.blobs[e.digest] == states[i].sh.blobs[e.digest]
    ensures SawOnly(states[j].pcs[p], e, states[j].sh.blobs[e.digest])
    decreases j
  {
    RunKeepsInv(w, states, labels, j);
    HitHasItsBlob(states[j], p, a, e);
    if i < j {
      HitSawOnlyTheBlob(w, states, labels, i, j - 1, p, a, e);
      RunKeepsInv(w, states, labels, j - 1);
      var s, l, s' := states[j - 1], labels[j - 1], states[j];
      HitBlobStays(w, s, l, s', p, a, e);
      if l == Do(p) { OwnReadSawOnly(w, p, s.sh, s.pcs[p], s'.sh, s'.pcs[p], a, e); }
    }
  }

  /** A hit during which its blob is not corrupted hands out the very bytes that were there all
      along, and they hash to the digest and satisfy the size pin and the whole check. */
  lemma UndisturbedHitIsGenuine(w: Oracles, states: seq<State>, labels: seq<Label>,
                                i: nat, j: nat, p: Pid, a: Artifact, e: Entry)
    requires IsRun(w, states, labels) && i < j < |states| && Uncorrupted(labels, i, j, e.digest)
    requires forall n | i <= n < j :: p in states[n].pcs && Hitting(states[n].pcs[p], a, e)
    requires states[i].pcs[p].GetRead? && p in states[j].pcs && states[j].pcs[p].GetReturn?
    ensures var answer := states[j].pcs[p].answer;
            && answer.a == a && answer.d == e.digest && e.digest in states[i].sh.blobs
            && answer.hashed == states[i].sh.blobs[e.digest]
            && w.sha(answer.hashed) == answer.d && Genuine(w, a, answer.hashed)
  {
    HitSawOnlyTheBlob(w, states, labels, i, j - 1, p, a, e);
    var s, s' := states[j - 1], states[j];
    assert Next(w, s, labels[j - 1], s');
    OwnReadSawOnly(w, p, s.sh, s.pcs[p], s'.sh, s'.pcs[p], a, e);
    NothingUnbackedIsEverServed(w, states, labels, j);
    assert PcBacked(w, s'.pcs[p]);
    SteadyAnswersAreGenuine(w, s'.pcs[p].answer);
  }

  // ----- the reads behind an answer -----

  /** Process `p` found the entry at moment `from`, read until moment `to`, and then had its
      answer ready. */
  ghost predicate ReadBy(states: seq<State>, from: nat, to: nat, p: Pid, answer: Answer) {
    && from < to < |states| && p in states[from].pcs && states[from].pcs[p].GetRead?
    && p in states[to].pcs && states[to].pcs[p] == GetReturn(answer)
    && states[from].pcs[p].e.digest == answer.d
    && forall n | from <= n < to :: p in states[n].pcs && Hitting(states[n].pcs[p], answer.a, states[from].pcs[p].e)
  }

  lemma StepOfHit(w: Oracles, s: State, l: Label, s': State, p: Pid)
    requires Next(w, s, l, s') && p in s'.pcs && (s'.pcs[p].GetSized? || s'.pcs[p].GetChecking?)
    ensures p in s.pcs && Hitting(s.pcs[p], s'.pcs[p].a, s'.pcs[p].e)
  {
  }

  /** A process amid its reads began them at some moment and has been at it since. */
  lemma {:induction false} HitBegan(w: Oracles, states: seq<State>, labels: seq<Label>, k: nat, p: Pid, a: Artifact,
                                    e: Entry)
    returns (from: nat)
    requires IsRun(w, states, labels) && k < |states| && p in states[k].pcs && Hitting(states[k].pcs[p], a, e)
    ensures from <= k && p in states[from].pcs && states[from].pcs[p] == GetRead(a, e)
    ensures forall n | from <= n <= k :: p in states[n].pcs && Hitting(states[n].pcs[p], a, e)
    decreases k
  {
    if states[k].pcs[p].GetRead? {
      from := k;
    } else {
      assert Next(w, states[k - 1], labels[k - 1], states[k]);
      StepOfHit(w, states[k - 1], labels[k - 1], states[k], p);
      from := HitBegan(w, states, labels, k - 1, p, a, e);
    }
  }

  lemma StepOfReturn(w: Oracles, s: State, l: Label, s': State, p: Pid)
    requires Next(w, s, l, s') && p in s'.pcs && s'.pcs[p].GetReturn? && s'.pcs[p].answer.evidence.Reads?
    ensures p in s.pcs
    ensures s.pcs[p] == s'.pcs[p]
            || (s.pcs[p].GetChecking? && s.pcs[p].a == s'.pcs[p].answer.a && s.pcs[p].e.digest == s'.pcs[p].answer.d)
  {
  }

  lemma {:induction false} ReturnBegan(w: Oracles, states: seq<State>, labels: seq<Label>, k: nat, p: Pid,
                                       answer: Answer)
    returns (from: nat, to: nat)
    requires IsRun(w, states, labels) && k < |states| && answer.evidence.Reads?
    requires p in states[k].pcs && states[k].pcs[p] == GetReturn(answer)
    ensures to <= k && ReadBy(states, from, to, p, answer)
    decreases k
  {
    assert k > 0;
    var s, l, s' := states[k - 1], labels[k - 1], states[k];
    assert Next(w, s, l, s');
    StepOfReturn(w, s, l, s', p);
    if s.pcs[p] == s'.pcs[p] {
      from, to := ReturnBegan(w, states, labels, k - 1, p, answer);
    } else {
      from := HitBegan(w, states, labels, k - 1, p, answer.a, s.pcs[p].e);
      to := k;
    }
  }

  /** A step serves at most the answer of the process that takes it. */
  lemma StepServes(w: Oracles, s: State, l: Label, s': State, answer: Answer)
    requires Next(w, s, l, s') && answer in s'.sh.served && answer !in s.sh.served
    ensures l.Do? && s.pcs[l.pid] == GetReturn(answer)
  {
    if l.Do? { OnlyReturnServes(w, l.pid, s.sh, s.pcs[l.pid], s'.sh, s'.pcs[l.pid]); }
  }

  lemma OnlyReturnServes(w: Oracles, pid: Pid, sh: Shared, pc: Pc, sh': Shared, pc': Pc)
    requires Step(w, pid, sh, pc, sh', pc')
    ensures if pc.GetReturn? then sh'.served == sh.served + [pc.answer] else sh'.served == sh.served
  {
    if Reading(pc) { ReadServesNothing(w, pid, sh, pc, sh', pc'); }
    else if !Filling(pc) { OthersServeNothing(w, pid, sh, pc, sh', pc'); }
  }

  lemma ReadServesNothing(w: Oracles, pid: Pid, sh: Shared, pc: Pc, sh': Shared, pc': Pc)
    requires Reading(pc) && ReadStep(w, pid, sh, pc, sh', pc')
    ensures sh'.served == sh.served
  {
  }

  lemma {:induction false} ServedBegan(w: Oracles, states: seq<State>, labels: seq<Label>, i: nat, answer: Answer)
    returns (k: nat, p: Pid)
    requires IsRun(w, states, labels) && i < |states| && answer in states[i].sh.served
    ensures k < i && p in states[k].pcs && states[k].pcs[p] == GetReturn(answer)
  {
    assert i > 0;
    assert Next(w, states[i - 1], labels[i - 1], states[i]);
    if answer in states[i - 1].sh.served {
      k, p := ServedBegan(w, states, labels, i - 1, answer);
    } else {
      StepServes(w, states[i - 1], labels[i - 1], states[i], answer);
      k, p := i - 1, labels[i - 1].pid;
    }
  }

  /** Nothing wrong is ever served: in every run a path handed out by a fill held bytes that
      hash to its digest and satisfy the artifact's size pin and whole check; one handed out by
      a hit did so unless its blob was corrupted between the first and the last read of that
      very hit, whatever happened before or elsewhere. */
  lemma NothingWrongIsEverServed(w: Oracles, states: seq<State>, labels: seq<Label>, i: nat, answer: Answer)
    returns (from: nat, to: nat, p: Pid)
    requires IsRun(w, states, labels) && i < |states| && answer in states[i].sh.served
    ensures answer.evidence.Body? && Injective(w) ==>
              w.sha(answer.hashed) == answer.d && Genuine(w, answer.a, answer.hashed)
    ensures answer.evidence.Reads? ==>
              && to < i && ReadBy(states, from, to, p, answer)
              && (Uncorrupted(labels, from, to, answer.d) ==>
                    w.sha(answer.hashed) == answer.d && Genuine(w, answer.a, answer.hashed))
  {
    NothingUnbackedIsEverServed(w, states, labels, i);
    if answer.evidence.Body? {
      from, to, p := 0, 0, 0;
      if Injective(w) { FilledAnswersAreGenuine(w, answer); }
    } else {
      var k;
      k, p := ServedBegan(w, states, labels, i, answer);
      from, to := ReturnBegan(w, states, labels, k, p, answer);
      if Uncorrupted(labels, from, to, answer.d) {
        UndisturbedHitIsGenuine(w, states, labels, from, to, p, answer.a, states[from].pcs[p].e);
      }
    }
  }

  // ----- one fetch per fill -----

  ghost predicate ReadyIn(w: Oracles, s: State, a: Artifact, d: Digest) {
    Ready(w, s.sh.index, s.sh.blobs, a, d)
  }

  /** Writing the sidecar of a blob that was not corrupted meanwhile makes the key ready. */
  lemma FillMakesReady(w: Oracles, s: State, p: Pid, s': State)
    requires Inv(s) && AllBacked(w, s) && Injective(w)
    requires Next(w, s, Do(p), s') && s.pcs[p].GetPlaced? && s'.pcs[p].GetWritten?
    requires s.sh.blobs[s.pcs[p].e.digest] == s.pcs[p].held
    ensures ReadyIn(w, s', s.pcs[p].a, s.pcs[p].e.digest)
  {
    var pc := s.pcs[p];
    assert PcOk(s.sh, pc) && PcBacked(w, pc);
    ValidationIsGenuine(w, pc.a, pc.body);
    HitIsGenuine(w, s.sh.blobs, pc.a, pc.e);
  }

  /** The entry stays and its blob is not corrupted in this step. */
  ghost predicate Undisturbed(s: State, l: Label, s': State, a: Artifact, d: Digest) {
    && a.key in s'.sh.index && a.key in s.sh.index && s'.sh.index[a.key] == s.sh.index[a.key]
    && !(l.Corrupt? && l.d == d)
  }

  lemma ReadySurvives(w: Oracles, s: State, l: Label, s': State, a: Artifact, d: Digest)
    requires Inv(s) && Next(w, s, l, s')
    requires ReadyIn(w, s, a, d) && Undisturbed(s, l, s', a, d)
    ensures ReadyIn(w, s', a, d)
  {
    StepKeepsInv(w, s, l, s');
    assert s'.sh.index[a.key].entry.digest in s'.sh.blobs;
    if !l.Corrupt? { BlobsAreNeverRewritten(w, s, l, s', d); }
  }

  lemma {:induction false} ReadyThroughout(w: Oracles, states: seq<State>, labels: seq<Label>, a: Artifact,
                                           d: Digest, i: nat, j: nat)
    requires IsRun(w, states, labels) && i <= j < |states|
    requires ReadyIn(w, states[i], a, d)
    requires forall n | i <= n < j :: Undisturbed(states[n], labels[n], states[n + 1], a, d)
    ensures ReadyIn(w, states[j], a, d)
    decreases j - i
  {
    if i < j {
      ReadyThroughout(w, states, labels, a, d, i, j - 1);
      RunKeepsInv(w, states, labels, j - 1);
      ReadySurvives(w, states[j - 1], labels[j - 1], states[j], a, d);
    }
  }

  /** On its way to being served the blob `d`: no transfer, no error. */
  predicate OnItsWay(pc: Pc, a: Artifact, d: Digest) {
    || pc == GetHasKey(a)
    || ((pc.GetRead? || pc.GetSized? || pc.GetChecking?) && pc.a == a && pc.e.digest == d)
    || (pc.GetReturn? && pc.answer.a == a && pc.answer.d == d)
  }

  /** What a ready key offers to every read. */
  lemma ReadyPassesEveryRead(w: Oracles, index: Index, blobs: Blobs, a: Artifact, d: Digest)
    requires Ready(w, index, blobs, a, d)
    ensures var e := index[a.key].entry;
            && d in blobs && w.sha(blobs[d]) == d && |blobs[d]| == e.bytes
            && PinsMatch(a.check, d) && SizeFits(a, e)
            && forall i | 0 <= i < |Remaining(a)| :: Accepts(w, Remaining(a)[i], blobs[d])
  {
    HitIsGenuine(w, blobs, a, index[a.key].entry);
    assert Genuine(w, a, blobs[d]);
    PinSplittingPreservesMeaning(w, a.check, blobs[d]);
    var erased := WithoutSha256(a.check);
    assert Accepts(w, erased, blobs[d]);
    AcceptsByLeaves(w, erased, blobs[d]);
    forall i | 0 <= i < |Remaining(a)| ensures Accepts(w, Remaining(a)[i], blobs[d]) {
      var leaf := Remaining(a)[i];
      assert leaf in Leaves(erased);
    }
  }

  /** A ready key lets every read of a get through. */
  lemma ReadyLetsThrough(w: Oracles, s: State, p: Pid, s': State, a: Artifact, d: Digest)
    requires Inv(s) && Next(w, s, Do(p), s') && ReadyIn(w, s, a, d)
    requires OnItsWay(s.pcs[p], a, d) && s'.pcs[p] != Idle
    ensures OnItsWay(s'.pcs[p], a, d)
  {
    assert PcOk(s.sh, s.pcs[p]);
    ReadyPassesEveryRead(w, s.sh.index, s.sh.blobs, a, d);
    if !s.pcs[p].GetReturn? { assert ReadStep(w, p, s.sh, s.pcs[p], s'.sh, s'.pcs[p]); }
  }

  /** Process `filler` writes the sidecar of a blob that was not corrupted meanwhile. */
  ghost predicate Fills(states: seq<State>, labels: seq<Label>, i: nat, filler: Pid, a: Artifact, d: Digest)
    requires i < |labels| && |states| == |labels| + 1
  {
    && labels[i] == Do(filler) && filler in states[i].pcs && filler in states[i + 1].pcs
    && states[i].pcs[filler].GetPlaced? && states[i + 1].pcs[filler].GetWritten?
    && states[i].pcs[filler].a == a && states[i].pcs[filler].e.digest == d
    && d in states[i].sh.blobs && states[i].sh.blobs[d] == states[i].pcs[filler].held
  }

  lemma FilledStaysReady(w: Oracles, states: seq<State>, labels: seq<Label>, a: Artifact, d: Digest, filler: Pid,
                         i: nat, j: nat)
    requires IsRun(w, states, labels) && Injective(w) && i < j < |states| && Fills(states, labels, i, filler, a, d)
    requires forall n | i < n < j :: Undisturbed(states[n], labels[n], states[n + 1], a, d)
    ensures Inv(states[j]) && ReadyIn(w, states[j], a, d)
  {
    RunKeepsInv(w, states, labels, i);
    NothingUnbackedIsEverServed(w, states, labels, i);
    assert Next(w, states[i], labels[i], states[i + 1]);
    FillMakesReady(w, states[i], filler, states[i + 1]);
    ReadyThroughout(w, states, labels, a, d, i + 1, j);
    RunKeepsInv(w, states, labels, j);
  }

  /** No moment between `m` and `j` takes process `p` off its way. */
  ghost predicate NeverDiverted(states: seq<State>, m: nat, j: nat, p: Pid, a: Artifact, d: Digest)
    requires m <= j < |states| && forall n | m <= n <= j :: p in states[n].pcs
  {
    forall n | m <= n < j :: OnItsWay(states[n].pcs[p], a, d) ==> OnItsWay(states[n + 1].pcs[p], a, d)
  }

  lemma {:induction false} StaysOnItsWay(states: seq<State>, m: nat, j: nat, p: Pid, a: Artifact, d: Digest)
    requires m <= j < |states| && forall n | m <= n <= j :: p in states[n].pcs
    requires NeverDiverted(states, m, j, p, a, d) && states[m].pcs[p] == GetHasKey(a)
    ensures OnItsWay(states[j].pcs[p], a, d)
    decreases j
  {
    if m < j { StaysOnItsWay(states, m, j - 1, p, a, d); }
  }

  lemma StaysOneMoment(w: Oracles, states: seq<State>, labels: seq<Label>, n: nat, a: Artifact, d: Digest, p: Pid)
    requires IsRun(w, states, labels) && n < |labels| && ReadyIn(w, states[n], a, d)
    requires p in states[n].pcs && OnItsWay(states[n].pcs[p], a, d)
    requires p in states[n + 1].pcs && states[n + 1].pcs[p] != Idle
    ensures OnItsWay(states[n + 1].pcs[p], a, d)
  {
    RunKeepsInv(w, states, labels, n);
    StaysOneStep(w, states[n], labels[n], states[n + 1], a, d, p);
  }

  lemma StaysOneStep(w: Oracles, s: State, l: Label, s': State, a: Artifact, d: Digest, p: Pid)
    requires Inv(s) && Next(w, s, l, s') && ReadyIn(w, s, a, d)
    requires p in s.pcs && OnItsWay(s.pcs[p], a, d) && p in s'.pcs && s'.pcs[p] != Idle
    ensures OnItsWay(s'.pcs[p], a, d)
  {
    if l == Do(p) { ReadyLetsThrough(w, s, p, s', a, d); }
  }

  /** After one fill, and until its entry is removed or replaced or its blob corrupted, a get of
      the same artifact that takes the key lock is on its way to being served the stored blob
      for as long as it lasts: it never starts a transfer. */
  lemma LaterGetsContactNobody(w: Oracles, states: seq<State>, labels: seq<Label>, a: Artifact, d: Digest,
                               filler: Pid, i: nat, m: nat, j: nat, p: Pid)
    requires IsRun(w, states, labels) && Injective(w) && i < m <= j < |states|
    requires Fills(states, labels, i, filler, a, d)
    requires forall n | i < n < j :: Undisturbed(states[n], labels[n], states[n + 1], a, d)
    // Process `p` has taken the key lock for the same artifact at moment m, and is still at it.
    requires p in states[m].pcs && states[m].pcs[p] == GetHasKey(a)
    requires forall n | m <= n <= j :: p in states[n].pcs && states[n].pcs[p] != Idle
    ensures OnItsWay(states[j].pcs[p], a, d)
  {
    forall n | m <= n < j && OnItsWay(states[n].pcs[p], a, d) ensures OnItsWay(states[n + 1].pcs[p], a, d) {
      FilledStaysReady(w, states, labels, a, d, filler, i, n);
      StaysOneMoment(w, states, labels, n, a, d, p);
    }
    StaysOnItsWay(states, m, j, p, a, d);
  }

  // ----- corruption between the reads -----

  /** The sidecar of a blob that an answer hands out after a hit. */
  function HitEntry(answer: Answer): Entry
    requires answer.evidence.Reads?
  {
    Entry(answer.d, answer.evidence.size, 0, None, None, None, LocalDisk)
  }

  /** A store with that one entry, its blob, and one process at `pc`. */
  function HitState(answer: Answer, blob: Bytes, locked: bool, pc: Pc): State
    requires answer.evidence.Reads?
  {
    State(Shared(map[answer.a.key := Readable(HitEntry(answer))], map[answer.d := blob],
                 if locked then map[answer.a.key := 0] else map[], None, []),
          map[0 := pc])
  }

  lemma DoneBy(w: Oracles, s: State, s': State)
    requires 0 in s.pcs && 0 in s'.pcs && s'.pcs == s.pcs[0 := s'.pcs[0]]
    requires Step(w, 0, s.sh, s.pcs[0], s'.sh, s'.pcs[0])
    ensures Next(w, s, Do(0), s')
  {
  }

  /** A run that ends in `s`. */
  ghost predicate Reaches(w: Oracles, states: seq<State>, labels: seq<Label>, s: State) {
    IsRun(w, states, labels) && states[|labels|] == s
  }

  lemma OneMore(w: Oracles, states: seq<State>, labels: seq<Label>, s: State, l: Label, s': State)
    requires Reaches(w, states, labels, s) && Next(w, s, l, s')
    ensures Reaches(w, states + [s'], labels + [l], s')
  {
    var more, acts := states + [s'], labels + [l];
    forall i | 0 <= i < |acts| ensures Next(w, more[i], acts[i], more[i + 1]) {
      if i < |labels| { assert Next(w, states[i], labels[i], states[i + 1]); }
    }
  }

  lemma OneAct(w: Oracles, states: seq<State>, labels: seq<Label>, s: State, s': State)
    returns (more: seq<State>, acts: seq<Label>)
    requires Reaches(w, states, labels, s) && 0 in s.pcs && 0 in s'.pcs && s'.pcs == s.pcs[0 := s'.pcs[0]]
    requires Step(w, 0, s.sh, s.pcs[0], s'.sh, s'.pcs[0])
    ensures Reaches(w, more, acts, s')
  {
    DoneBy(w, s, s');
    OneMore(w, states, labels, s, Do(0), s');
    more, acts := states + [s'], labels + [Do(0)];
  }

  /** The environment puts other bytes at the address. */
  lemma OneCorruption(w: Oracles, states: seq<State>, labels: seq<Label>, answer: Answer, blob: Bytes, next: Bytes,
                      pc: Pc)
    returns (more: seq<State>, acts: seq<Label>)
    requires answer.evidence.Reads? && Reaches(w, states, labels, HitState(answer, blob, true, pc))
    ensures Reaches(w, more, acts, HitState(answer, next, true, pc))
  {
    var s, s' := HitState(answer, blob, true, pc), HitState(answer, next, true, pc);
    assert s'.sh == s.sh.(blobs := s.sh.blobs[answer.d := next]);
    OneMore(w, states, labels, s, Corrupt(answer.d, next), s');
    more, acts := states + [s'], labels + [Corrupt(answer.d, next)];
  }

  /** Take the key lock and find the entry. */
  lemma FindEntry(w: Oracles, answer: Answer, blob: Bytes) returns (states: seq<State>, labels: seq<Label>)
    requires answer.evidence.Reads?
    ensures Reaches(w, states, labels, HitState(answer, blob, true, GetRead(answer.a, HitEntry(answer))))
  {
    var a := answer.a;
    var idle := HitState(answer, blob, false, Idle).(pcs := map[]);
    var begun := HitState(answer, blob, false, GetWantKey(a));
    var locked := HitState(answer, blob, true, GetHasKey(a));
    states, labels := [idle], [];
    assert Reaches(w, states, labels, idle);
    OneMore(w, states, labels, idle, Start(0, Get(a)), begun);
    states, labels := states + [begun], labels + [Start(0, Get(a))];
    states, labels := OneAct(w, states, labels, begun, locked);
    states, labels := OneAct(w, states, labels, locked, HitState(answer, blob, true, GetRead(a, HitEntry(answer))));
  }

  function Zeros(n: nat): Bytes { seq(n, _ => 0 as Byte) }

  /** Read the length off one blob and the digest off another. */
  lemma ReadDigest(w: Oracles, answer: Answer) returns (states: seq<State>, labels: seq<Label>)
    requires answer.evidence.Reads? && Backed(w, answer)
    ensures Reaches(w, states, labels, Checked(answer, 0))
  {
    var a, e, blank := answer.a, HitEntry(answer), Zeros(answer.evidence.size);
    states, labels := FindEntry(w, answer, blank);
    states, labels := OneAct(w, states, labels, HitState(answer, blank, true, GetRead(a, e)),
                             HitState(answer, blank, true, GetSized(a, e)));
    states, labels := OneCorruption(w, states, labels, answer, blank, answer.hashed, GetSized(a, e));
    states, labels := OneAct(w, states, labels, HitState(answer, answer.hashed, true, GetSized(a, e)),
                             Checked(answer, 0));
  }

  /** After `k` parts of the check have been read. */
  function Checked(answer: Answer, k: nat): State
    requires answer.evidence.Reads? && k <= |answer.evidence.views|
  {
    var views := answer.evidence.views;
    HitState(answer, if k == 0 then answer.hashed else views[k - 1], true,
             GetChecking(answer.a, HitEntry(answer), answer.hashed, views[..k]))
  }

  lemma ReadOneView(w: Oracles, answer: Answer, k: nat)
    requires answer.evidence.Reads? && Backed(w, answer) && k < |answer.evidence.views|
    ensures var pc := GetChecking(answer.a, HitEntry(answer), answer.hashed, answer.evidence.views[..k]);
            var s, s' := HitState(answer, answer.evidence.views[k], true, pc), Checked(answer, k + 1);
            Step(w, 0, s.sh, s.pcs[0], s'.sh, s'.pcs[0])
  {
    var views := answer.evidence.views;
    assert views[..k + 1] == views[..k] + [views[k]];
  }

  /** Corrupt the blob into what the next check will approve, and let it read. */
  lemma OneMoreView(w: Oracles, answer: Answer, k: nat, states: seq<State>, labels: seq<Label>)
    returns (more: seq<State>, acts: seq<Label>)
    requires answer.evidence.Reads? && Backed(w, answer) && k < |answer.evidence.views|
    requires Reaches(w, states, labels, Checked(answer, k))
    ensures Reaches(w, more, acts, Checked(answer, k + 1))
  {
    var views := answer.evidence.views;
    var blob := if k == 0 then answer.hashed else views[k - 1];
    var pc := GetChecking(answer.a, HitEntry(answer), answer.hashed, views[..k]);
    more, acts := OneCorruption(w, states, labels, answer, blob, views[k], pc);
    ReadOneView(w, answer, k);
    more, acts := OneAct(w, more, acts, HitState(answer, views[k], true, pc), Checked(answer, k + 1));
  }

  lemma {:induction false} ReadViews(w: Oracles, answer: Answer, k: nat)
    returns (states: seq<State>, labels: seq<Label>)
    requires answer.evidence.Reads? && Backed(w, answer) && k <= |answer.evidence.views|
    ensures Reaches(w, states, labels, Checked(answer, k))
  {
    if k == 0 {
      states, labels := ReadDigest(w, answer);
    } else {
      states, labels := ReadViews(w, answer, k - 1);
      states, labels := OneMoreView(w, answer, k - 1, states, labels);
    }
  }

  lemma ServeIt(w: Oracles, answer: Answer) returns (states: seq<State>, labels: seq<Label>)
    requires answer.evidence.Reads? && Backed(w, answer)
    ensures IsRun(w, states, labels) && answer in states[|labels|].sh.served
  {
    var n := |answer.evidence.views|;
    var read := Checked(answer, n);
    assert answer.evidence.views[..n] == answer.evidence.views;
    var ready := read.(pcs := map[0 := GetReturn(answer)]);
    var done := State(ReleaseKey(read.sh, answer.a.key).(served := [answer]), map[0 := Idle]);
    states, labels := ReadViews(w, answer, n);
    states, labels := OneAct(w, states, labels, read, ready);
    assert [] + [answer] == [answer];
    states, labels := OneAct(w, states, labels, ready, done);
  }

  ghost predicate Serves(w: Oracles, states: seq<State>, labels: seq<Label>, answer: Answer) {
    IsRun(w, states, labels) && answer in states[|labels|].sh.served
  }

  /** Exactly which hits can be handed out, over all runs: those whose length, digest and check
      reads each approved what they saw, be it the same bytes or not. */
  lemma ServableHitsExactly(w: Oracles, answer: Answer)
    requires answer.evidence.Reads?
    ensures Backed(w, answer) <==> exists states, labels :: Serves(w, states, labels, answer)
  {
    if Backed(w, answer) {
      var states, labels := ServeIt(w, answer);
      assert Serves(w, states, labels, answer);
    }
    if states, labels :| Serves(w, states, labels, answer) {
      NothingUnbackedIsEverServed(w, states, labels, |labels|);
    }
  }

  /** How far the harm goes: whatever the artifact, if its pins name bytes that fail its check
      while every part of the check is satisfied by some bytes, a run hands out the path although
      at no moment the blob both hashed to the digest and satisfied the check. */
  lemma CorruptionBetweenReadsIsServed(w: Oracles, a: Artifact, bytes: Bytes, views: seq<Bytes>)
    returns (states: seq<State>, labels: seq<Label>)
    requires Injective(w) && PinsMatch(a.check, w.sha(bytes)) && !Genuine(w, a, bytes)
    requires a.expectedBytes.Some? ==> a.expectedBytes.value == |bytes|
    requires |views| == |Remaining(a)| && Approves(w, a, views)
    ensures IsRun(w, states, labels)
    ensures Answer(a, w.sha(bytes), bytes, Reads(|bytes|, views)) in states[|labels|].sh.served
    ensures forall s | s in states && w.sha(bytes) in s.sh.blobs ::
              var blob := s.sh.blobs[w.sha(bytes)]; !(w.sha(blob) == w.sha(bytes) && Genuine(w, a, blob))
  {
    states, labels := ServeIt(w, Answer(a, w.sha(bytes), bytes, Reads(|bytes|, views)));
  }
}
