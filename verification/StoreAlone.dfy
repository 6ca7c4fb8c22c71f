/** One process of the store left alone: what a turn of removal, a sweep, a get or an import
    does when nobody interferes, and that everything that may be handed out can be. */
module StoreAlone {
  import opened Basics
  import opened ContentChecks
  import opened Pins
  import opened TransferLaws
  import opened Catalog
  import opened Resolution
  import opened Outcomes
  import opened StoreProtocol
  import opened StoreServing

  // ----- an undisturbed eviction turn computes what the sequential store computes -----

  /** Where an eviction turn that started from `sh0` stands. */
  ghost predicate Underway(sh0: Shared, todo: seq<Victim>, sh: Shared, pc: Pc)
    requires todo != []
  {
    var k := todo[0].key;
    var fits := k in sh0.index && sh0.index[k].Readable?
                && (todo[0].expected.Some? ==> sh0.index[k].entry.digest == todo[0].expected.value);
    match pc
    case EvictWantKey(t) => t == todo && sh.index == sh0.index && sh.blobs == sh0.blobs
    case EvictWantStore(t) => t == todo && sh.index == sh0.index && sh.blobs == sh0.blobs
    case EvictHasStore(t) => t == todo && sh.index == sh0.index && sh.blobs == sh0.blobs
    case EvictScan(t, d) =>
      t == todo && fits && d == sh0.index[k].entry.digest && sh.index == sh0.index - {k} && sh.blobs == sh0.blobs
    case EvictDrop(t, d) =>
      t == todo && fits && d == sh0.index[k].entry.digest && sh.index == sh0.index - {k} && sh.blobs == sh0.blobs
      && !Referenced(sh.index, d)
    case EvictDone(t) => t == todo && TurnDone(sh0, todo, sh)
    case EvictRelease(t) => t == todo && TurnDone(sh0, todo, sh)
    case _ => TurnDone(sh0, todo, sh)
  }

  /** The entry is dropped, unless gc finds that it is no longer the one it had in mind. */
  ghost predicate TurnDone(sh0: Shared, todo: seq<Victim>, sh: Shared)
    requires todo != []
  {
    var k, expected := todo[0].key, todo[0].expected;
    (sh.index, sh.blobs) ==
      if k in sh0.index && sh0.index[k].Readable? && expected.Some? && sh0.index[k].entry.digest != expected.value
      then (sh0.index, sh0.blobs) else DropEntry(sh0.index, sh0.blobs, k)
  }

  lemma TurnStep(pid: Pid, sh0: Shared, todo: seq<Victim>, sh: Shared, pc: Pc, sh': Shared, pc': Pc)
    requires todo != [] && Evicting(pc) && Underway(sh0, todo, sh, pc) && EvictStep(pid, sh, pc, sh', pc')
    ensures !pc.EvictRelease? ==> Underway(sh0, todo, sh', pc')
    ensures pc.EvictRelease? ==> TurnDone(sh0, todo, sh')
  {
  }

  /** One process, alone, from the start of an eviction turn to its end. */
  ghost predicate IsTurn(pid: Pid, todo: seq<Victim>, shs: seq<Shared>, pcs: seq<Pc>) {
    && |shs| == |pcs| && |pcs| >= 2 && pcs[0] == EvictWantKey(todo)
    && (forall i | 0 <= i < |pcs| - 1 :: Evicting(pcs[i]) && EvictStep(pid, shs[i], pcs[i], shs[i + 1], pcs[i + 1]))
    && forall i | 0 <= i < |pcs| - 1 :: pcs[i].EvictRelease? <==> i == |pcs| - 2
  }

  lemma {:induction false} TurnProgress(pid: Pid, todo: seq<Victim>, shs: seq<Shared>, pcs: seq<Pc>, i: nat)
    requires todo != [] && IsTurn(pid, todo, shs, pcs) && i < |pcs| - 1
    ensures Underway(shs[0], todo, shs[i], pcs[i])
  {
    if i > 0 {
      TurnProgress(pid, todo, shs, pcs, i - 1);
      TurnStep(pid, shs[0], todo, shs[i - 1], pcs[i - 1], shs[i], pcs[i]);
    }
  }

  /** Undisturbed, the seven steps of `remove` and of one eviction of gc do to the index and
      the blobs exactly what the sequential store does. */
  lemma UndisturbedTurnDropsTheEntry(pid: Pid, todo: seq<Victim>, shs: seq<Shared>, pcs: seq<Pc>)
    requires todo != [] && IsTurn(pid, todo, shs, pcs)
    ensures TurnDone(shs[0], todo, shs[|shs| - 1])
  {
    var last := |pcs| - 2;
    TurnProgress(pid, todo, shs, pcs, last);
    TurnStep(pid, shs[0], todo, shs[last], pcs[last], shs[last + 1], pcs[last + 1]);
  }

  /** A `remove` drops the key's entry, and its blob with its last reference, unconditionally. */
  lemma UndisturbedRemoveDropsTheKey(pid: Pid, k: Key, shs: seq<Shared>, pcs: seq<Pc>)
    requires pcs != [] && pcs[0] == Begin(Remove(k)) && IsTurn(pid, pcs[0].todo, shs, pcs)
    ensures var last := shs[|shs| - 1]; (last.index, last.blobs) == DropEntry(shs[0].index, shs[0].blobs, k)
  {
    UndisturbedTurnDropsTheEntry(pid, pcs[0].todo, shs, pcs);
  }

  // ----- an undisturbed sweep -----

  /** Where a sweep that started from `sh0` stands: what is left to drop is all that nothing
      refers to. */
  ghost predicate Sweeping(sh0: Shared, sh: Shared, pc: Pc) {
    && sh.index == sh0.index
    && match pc
       case SweepWantStore => sh.blobs == sh0.blobs
       case SweepScan => sh.blobs == sh0.blobs
       case SweepDrop(orphans, _) =>
         && orphans <= sh.blobs.Keys && (forall d | d in orphans :: !Referenced(sh0.index, d))
         && sh.blobs - orphans == Live(sh0.index, sh0.blobs)
       case _ => sh.blobs == Live(sh0.index, sh0.blobs)
  }

  lemma SweepOn(pid: Pid, sh0: Shared, sh: Shared, pc: Pc, sh': Shared, pc': Pc)
    requires Sweeping(sh0, sh, pc) && SweepStep(pid, sh, pc, sh', pc')
    ensures Sweeping(sh0, sh', pc')
  {
    if pc.SweepScan? {
      assert sh.blobs - pc'.orphans == Live(sh0.index, sh0.blobs);
    } else if pc.SweepDrop? {
      if pc.orphans == {} {
        assert sh.blobs - {} == sh.blobs;
      } else {
        var d :| d in pc.orphans && sh' == sh.(blobs := sh.blobs - {d}) && pc' == SweepDrop(pc.orphans - {d}, pc.todo);
        assert sh'.blobs - pc'.orphans == sh.blobs - pc.orphans;
      }
    }
  }

  /** One process, alone, from the start of gc to the end of its first section. */
  ghost predicate IsSweep(pid: Pid, shs: seq<Shared>, pcs: seq<Pc>) {
    && |shs| == |pcs| && |pcs| >= 2 && pcs[0] == SweepWantStore
    && (pcs[|pcs| - 1] == Idle || pcs[|pcs| - 1].EvictWantKey?)
    && forall i | 0 <= i < |pcs| - 1 :: SweepStep(pid, shs[i], pcs[i], shs[i + 1], pcs[i + 1])
  }

  lemma {:induction false} SweepProgress(pid: Pid, shs: seq<Shared>, pcs: seq<Pc>, i: nat)
    requires IsSweep(pid, shs, pcs) && i < |pcs|
    ensures Sweeping(shs[0], shs[i], pcs[i])
  {
    if i > 0 {
      SweepProgress(pid, shs, pcs, i - 1);
      SweepOn(pid, shs[0], shs[i - 1], pcs[i - 1], shs[i], pcs[i]);
    }
  }

  /** Undisturbed, the first section of gc leaves exactly the blobs some entry refers to. */
  lemma UndisturbedSweepDropsTheOrphans(pid: Pid, shs: seq<Shared>, pcs: seq<Pc>)
    requires IsSweep(pid, shs, pcs)
    ensures var last := shs[|shs| - 1]; last.index == shs[0].index && last.blobs == Live(shs[0].index, shs[0].blobs)
  {
    SweepProgress(pid, shs, pcs, |pcs| - 1);
  }

  // ----- a process on its own -----

  /** Consecutive steps of one process, from one point to another. */
  ghost predicate Goes(w: Oracles, p: Pid, from: Shared, begin: Pc, shs: seq<Shared>, pcs: seq<Pc>, to: Shared, end: Pc)
  {
    && |shs| == |pcs| && pcs != [] && shs[0] == from && pcs[0] == begin
    && shs[|shs| - 1] == to && pcs[|pcs| - 1] == end
    && forall i | 0 <= i < |pcs| - 1 :: Step(w, p, shs[i], pcs[i], shs[i + 1], pcs[i + 1])
  }

  lemma GoOn(w: Oracles, p: Pid, from: Shared, begin: Pc, shs: seq<Shared>, pcs: seq<Pc>, mid: Shared, pc: Pc,
             to: Shared, end: Pc)
    returns (more: seq<Shared>, acts: seq<Pc>)
    requires Goes(w, p, from, begin, shs, pcs, mid, pc) && Step(w, p, mid, pc, to, end)
    ensures Goes(w, p, from, begin, more, acts, to, end) && pcs <= acts
  {
    more, acts := shs + [to], pcs + [end];
    forall i | 0 <= i < |acts| - 1 ensures Step(w, p, more[i], acts[i], more[i + 1], acts[i + 1]) {
      if i < |pcs| - 1 { assert Step(w, p, shs[i], pcs[i], shs[i + 1], pcs[i + 1]); }
    }
  }

  predicate Asks(op: Op) { op.Get? || op.Import? }

  /** How often a get or an import may try. */
  function Attempts(op: Op): nat { if op.Get? then 1 + |op.a.sources| else 1 }

  /** Nothing local stands in the way of a transfer. An import does not look. */
  predicate Fetches(sh: Shared, op: Op)
    requires Asks(op)
  {
    op.Get? ==> Misses(sh.index, sh.blobs, op.a)
  }

  function Locked(sh: Shared, k: Key, p: Pid): Shared { sh.(keyLocks := sh.keyLocks[k := p]) }

  predicate Unlocked(sh: Shared, k: Key) { k !in sh.keyLocks && sh.storeLock == None }

  /** Take the key lock, find nothing that stands in the way. */
  lemma StartFetching(w: Oracles, p: Pid, sh: Shared, op: Op) returns (shs: seq<Shared>, pcs: seq<Pc>)
    requires Asks(op) && Unlocked(sh, op.a.key) && Fetches(sh, op)
    ensures Goes(w, p, sh, Begin(op), shs, pcs, Locked(sh, op.a.key, p), GetFetching(op.a, Attempts(op)))
  {
    var a, locked, fetching := op.a, Locked(sh, op.a.key, p), GetFetching(op.a, Attempts(op));
    shs, pcs := [sh], [Begin(op)];
    if op.Import? {
      shs, pcs := GoOn(w, p, sh, Begin(op), shs, pcs, sh, Begin(op), locked, fetching);
    } else {
      shs, pcs := GoOn(w, p, sh, Begin(op), shs, pcs, sh, Begin(op), locked, GetHasKey(a));
      if a.key in sh.index {
        var e := sh.index[a.key].entry;
        shs, pcs := GoOn(w, p, sh, Begin(op), shs, pcs, locked, GetHasKey(a), locked, GetRead(a, e));
        shs, pcs := GoOn(w, p, sh, Begin(op), shs, pcs, locked, GetRead(a, e), locked, fetching);
      } else {
        shs, pcs := GoOn(w, p, sh, Begin(op), shs, pcs, locked, GetHasKey(a), locked, fetching);
      }
    }
  }

  /** Contacts that come to nothing. */
  lemma {:induction false} FailSome(w: Oracles, p: Pid, sh: Shared, op: Op, failures: nat)
    returns (shs: seq<Shared>, pcs: seq<Pc>)
    requires Asks(op) && Unlocked(sh, op.a.key) && Fetches(sh, op) && failures <= Attempts(op)
    ensures Goes(w, p, sh, Begin(op), shs, pcs, Locked(sh, op.a.key, p), GetFetching(op.a, Attempts(op) - failures))
  {
    if failures == 0 {
      shs, pcs := StartFetching(w, p, sh, op);
    } else {
      shs, pcs := FailSome(w, p, sh, op, failures - 1);
      var locked, n := Locked(sh, op.a.key, p), Attempts(op) - failures;
      shs, pcs := GoOn(w, p, sh, Begin(op), shs, pcs, locked, GetFetching(op.a, n + 1), locked, GetFetching(op.a, n));
    }
  }

  /** The bytes a publication finds or puts at the address. */
  function HeldAt(blobs: Blobs, d: Digest, body: Bytes): Bytes { if d in blobs then blobs[d] else body }

  /** What a served fill leaves behind, and hands out. */
  function Filled(sh: Shared, a: Artifact, body: Bytes, e: Entry): Shared {
    var held := HeldAt(sh.blobs, e.digest, body);
    sh.(index := sh.index[a.key := Readable(e)], blobs := sh.blobs[e.digest := held],
        served := sh.served + [Answer(a, e.digest, held, Body(body))])
  }

  /** Under both locks, with the blob in place. */
  function Placed(sh: Shared, a: Artifact, p: Pid, body: Bytes, e: Entry): Shared {
    Locked(sh, a.key, p).(storeLock := Some(p), blobs := sh.blobs[e.digest := HeldAt(sh.blobs, e.digest, body)])
  }

  lemma PlaceIt(w: Oracles, p: Pid, from: Shared, begin: Pc, before: seq<Shared>, at: seq<Pc>,
                sh: Shared, a: Artifact, n: nat, body: Bytes, e: Entry)
    returns (shs: seq<Shared>, pcs: seq<Pc>)
    requires Unlocked(sh, a.key) && Goes(w, p, from, begin, before, at, Locked(sh, a.key, p), GetFetching(a, n + 1))
    requires Validated(w, a, body, e) && !CorruptAt(w, sh.blobs, e.digest)
    ensures Goes(w, p, from, begin, shs, pcs, Placed(sh, a, p, body, e),
                 GetPlaced(a, n, body, e, HeldAt(sh.blobs, e.digest, body)))
    ensures GetWantStore(a, n, body, e) in pcs
  {
    var s0, s2 := Locked(sh, a.key, p), Placed(sh, a, p, body, e);
    var s1 := s0.(storeLock := Some(p));
    shs, pcs := GoOn(w, p, from, begin, before, at, s0, GetFetching(a, n + 1), s0, GetWantStore(a, n, body, e));
    assert pcs[|pcs| - 1] in pcs;
    shs, pcs := GoOn(w, p, from, begin, shs, pcs, s0, GetWantStore(a, n, body, e), s1, GetHasStore(a, n, body, e));
    assert PublishBlob(w, s1.blobs, e.digest, body) == Some(s2.blobs) by {
      if e.digest in sh.blobs { assert s2.blobs == sh.blobs; }
    }
    shs, pcs := GoOn(w, p, from, begin, shs, pcs, s1, GetHasStore(a, n, body, e),
                     s2, GetPlaced(a, n, body, e, HeldAt(sh.blobs, e.digest, body)));
  }

  /** The last two steps of a publication: the sidecar, and the store lock. */
  lemma WriteIt(w: Oracles, p: Pid, from: Shared, begin: Pc, before: seq<Shared>, at: seq<Pc>,
                sh: Shared, a: Artifact, n: nat, body: Bytes, e: Entry, held: Bytes)
    returns (shs: seq<Shared>, pcs: seq<Pc>)
    requires Goes(w, p, from, begin, before, at, sh, GetPlaced(a, n, body, e, held))
    ensures Goes(w, p, from, begin, shs, pcs, ReleaseStore(sh.(index := sh.index[a.key := Readable(e)])),
                 GetReturn(Answer(a, e.digest, held, Body(body))))
    ensures at <= pcs
  {
    var written := sh.(index := sh.index[a.key := Readable(e)]);
    shs, pcs := GoOn(w, p, from, begin, before, at, sh, GetPlaced(a, n, body, e, held),
                     written, GetWritten(a, n, body, e, held));
    shs, pcs := GoOn(w, p, from, begin, shs, pcs, written, GetWritten(a, n, body, e, held),
                     ReleaseStore(written), GetReturn(Answer(a, e.digest, held, Body(body))));
  }

  /** Publish a validated body and hand out its path. */
  lemma PublishAndServe(w: Oracles, p: Pid, from: Shared, begin: Pc, before: seq<Shared>, at: seq<Pc>,
                        sh: Shared, a: Artifact, n: nat, body: Bytes, e: Entry)
    returns (shs: seq<Shared>, pcs: seq<Pc>)
    requires Unlocked(sh, a.key) && Goes(w, p, from, begin, before, at, Locked(sh, a.key, p), GetFetching(a, n + 1))
    requires Validated(w, a, body, e) && !CorruptAt(w, sh.blobs, e.digest)
    ensures Goes(w, p, from, begin, shs, pcs, Filled(sh, a, body, e), Idle)
    ensures GetWantStore(a, n, body, e) in pcs
  {
    var held, placed := HeldAt(sh.blobs, e.digest, body), Placed(sh, a, p, body, e);
    var written := ReleaseStore(placed.(index := sh.index[a.key := Readable(e)]));
    shs, pcs := PlaceIt(w, p, from, begin, before, at, sh, a, n, body, e);
    shs, pcs := WriteIt(w, p, from, begin, shs, pcs, placed, a, n, body, e, held);
    assert Locked(sh, a.key, p).keyLocks - {a.key} == sh.keyLocks;
    shs, pcs := GoOn(w, p, from, begin, shs, pcs, written, GetReturn(Answer(a, e.digest, held, Body(body))),
                     Filled(sh, a, body, e), Idle);
  }

  /** A get that meets a miss, and every import, can be answered with any body that is genuine,
      unless its address holds corrupt bytes: at any of its contacts, after failures of all
      those before. */
  lemma UndisturbedFillServes(w: Oracles, p: Pid, sh: Shared, op: Op, body: Bytes, e: Entry, failures: nat)
    returns (shs: seq<Shared>, pcs: seq<Pc>)
    requires Asks(op) && Unlocked(sh, op.a.key) && Fetches(sh, op) && failures < Attempts(op)
    requires Genuine(w, op.a, body) && !CorruptAt(w, sh.blobs, w.sha(body))
    requires e.digest == w.sha(body) && e.bytes == |body|
    ensures Goes(w, p, sh, Begin(op), shs, pcs, Filled(sh, op.a, body, e), Idle)
    ensures GetWantStore(op.a, Attempts(op) - failures - 1, body, e) in pcs
  {
    ValidationIsGenuine(w, op.a, body);
    shs, pcs := FailSome(w, p, sh, op, failures);
    shs, pcs := PublishAndServe(w, p, sh, Begin(op), shs, pcs, sh, op.a, Attempts(op) - failures - 1, body, e);
  }


  // ----- an undisturbed hit -----

  /** `n` reads of the same bytes. */
  function Copies(blob: Bytes, n: nat): seq<Bytes> { seq(n, _ => blob) }

  function HitOf(sh: Shared, a: Artifact, d: Digest): Answer
    requires d in sh.blobs
  {
    Answer(a, d, sh.blobs[d], Reads(|sh.blobs[d]|, Copies(sh.blobs[d], |Remaining(a)|)))
  }

  /** Take the key lock and find the entry, its length and its digest in order. */
  lemma FindIt(w: Oracles, p: Pid, sh: Shared, a: Artifact, d: Digest) returns (shs: seq<Shared>, pcs: seq<Pc>)
    requires Unlocked(sh, a.key) && Ready(w, sh.index, sh.blobs, a, d)
    ensures d in sh.blobs
    ensures Goes(w, p, sh, GetWantKey(a), shs, pcs, Locked(sh, a.key, p),
                 GetChecking(a, sh.index[a.key].entry, sh.blobs[d], []))
  {
    ReadyPassesEveryRead(w, sh.index, sh.blobs, a, d);
    var e, s0 := sh.index[a.key].entry, Locked(sh, a.key, p);
    shs, pcs := [sh], [GetWantKey(a)];
    shs, pcs := GoOn(w, p, sh, GetWantKey(a), shs, pcs, sh, GetWantKey(a), s0, GetHasKey(a));
    shs, pcs := GoOn(w, p, sh, GetWantKey(a), shs, pcs, s0, GetHasKey(a), s0, GetRead(a, e));
    shs, pcs := GoOn(w, p, sh, GetWantKey(a), shs, pcs, s0, GetRead(a, e), s0, GetSized(a, e));
    shs, pcs := GoOn(w, p, sh, GetWantKey(a), shs, pcs, s0, GetSized(a, e), s0, GetChecking(a, e, sh.blobs[d], []));
  }

  lemma OneCheck(w: Oracles, p: Pid, sh: Shared, a: Artifact, d: Digest, n: nat)
    requires Ready(w, sh.index, sh.blobs, a, d) && n < |Remaining(a)|
    ensures d in sh.blobs
    ensures var e, s0, blob := sh.index[a.key].entry, Locked(sh, a.key, p), sh.blobs[d];
            Step(w, p, s0, GetChecking(a, e, blob, Copies(blob, n)), s0, GetChecking(a, e, blob, Copies(blob, n + 1)))
  {
    ReadyPassesEveryRead(w, sh.index, sh.blobs, a, d);
    var blob := sh.blobs[d];
    assert Copies(blob, n + 1) == Copies(blob, n) + [blob];
  }

  lemma {:induction false} CheckIt(w: Oracles, p: Pid, sh: Shared, a: Artifact, d: Digest, n: nat)
    returns (shs: seq<Shared>, pcs: seq<Pc>)
    requires Unlocked(sh, a.key) && Ready(w, sh.index, sh.blobs, a, d) && n <= |Remaining(a)|
    ensures d in sh.blobs
    ensures Goes(w, p, sh, GetWantKey(a), shs, pcs, Locked(sh, a.key, p),
                 GetChecking(a, sh.index[a.key].entry, sh.blobs[d], Copies(sh.blobs[d], n)))
  {
    if n == 0 {
      shs, pcs := FindIt(w, p, sh, a, d);
      assert Copies(sh.blobs[d], 0) == [];
    } else {
      shs, pcs := CheckIt(w, p, sh, a, d, n - 1);
      OneCheck(w, p, sh, a, d, n - 1);
      var e, s0, blob := sh.index[a.key].entry, Locked(sh, a.key, p), sh.blobs[d];
      shs, pcs := GoOn(w, p, sh, GetWantKey(a), shs, pcs, s0, GetChecking(a, e, blob, Copies(blob, n - 1)),
                       s0, GetChecking(a, e, blob, Copies(blob, n)));
    }
  }

  /** A get of a ready key is answered with its blob, and changes nothing. */
  lemma UndisturbedHitServes(w: Oracles, p: Pid, sh: Shared, a: Artifact, d: Digest)
    returns (shs: seq<Shared>, pcs: seq<Pc>)
    requires Unlocked(sh, a.key) && Ready(w, sh.index, sh.blobs, a, d)
    ensures d in sh.blobs
    ensures Goes(w, p, sh, GetWantKey(a), shs, pcs, sh.(served := sh.served + [HitOf(sh, a, d)]), Idle)
  {
    ReadyPassesEveryRead(w, sh.index, sh.blobs, a, d);
    var e, s0, blob := sh.index[a.key].entry, Locked(sh, a.key, p), sh.blobs[d];
    var answer := HitOf(sh, a, d);
    shs, pcs := CheckIt(w, p, sh, a, d, |Remaining(a)|);
    shs, pcs := GoOn(w, p, sh, GetWantKey(a), shs, pcs, s0, GetChecking(a, e, blob, Copies(blob, |Remaining(a)|)),
                     s0, GetReturn(answer));
    assert s0.keyLocks - {a.key} == sh.keyLocks;
    shs, pcs := GoOn(w, p, sh, GetWantKey(a), shs, pcs, s0, GetReturn(answer),
                     sh.(served := sh.served + [answer]), Idle);
  }

  // ----- and nothing else is answered -----

  /** The answers an operation can give from here, undisturbed: a get of a ready key its blob, a
      get that meets a miss and an import any genuine body whose address is not corrupt. */
  ghost predicate Answerable(w: Oracles, sh: Shared, op: Op, answer: Answer)
    requires Asks(op)
  {
    && answer.a == op.a
    && match answer.evidence
       case Body(body) =>
         && Fetches(sh, op) && Genuine(w, op.a, body) && !CorruptAt(w, sh.blobs, answer.d)
         && answer.d == w.sha(body) && answer.hashed == body
       case Reads(_, _) =>
         op.Get? && answer.d in sh.blobs && Ready(w, sh.index, sh.blobs, op.a, answer.d)
         && answer == HitOf(sh, op.a, answer.d)
  }

  /** Blobs were added, none of them corrupt. */
  ghost predicate Grew(w: Oracles, before: Blobs, after: Blobs) {
    Preserves(before, after) && SameCorruption(w, before, after)
  }

  /** Where an undisturbed get or import that started from `sh0` may stand. */
  ghost predicate Alone(w: Oracles, sh0: Shared, op: Op, sh: Shared, pc: Pc)
    requires Asks(op)
  {
    if pc.GetWantKey? || pc.ImportWantKey? then pc == Begin(op) && sh == sh0
    else if Reading(pc) then
      && op.Get? && pc.a == op.a && sh == sh0.(keyLocks := sh.keyLocks) && PcOk(sh, pc) && PcBacked(w, pc)
      && (!pc.GetHasKey? ==> pc.e.digest in sh.blobs ==> SawOnly(pc, pc.e, sh.blobs[pc.e.digest]))
      && (pc.GetSized? || pc.GetChecking? ==> pc.e.digest in sh.blobs)
    else if pc.GetReturn? then sh.served == sh0.served && Answerable(w, sh0, op, pc.answer)
    else if pc.GetRelease? then sh.served == sh0.served
    else if Filling(pc) then
      && sh.served == sh0.served && Fetches(sh0, op) && pc.a == op.a && Grew(w, sh0.blobs, sh.blobs)
      && PcBacked(w, pc) && (pc.GetPlaced? || pc.GetWritten? ==> !CorruptAt(w, sh0.blobs, pc.e.digest))
    else
      && pc == Idle
      && (sh.served == sh0.served
          || exists answer :: Answerable(w, sh0, op, answer) && sh.served == sh0.served + [answer])
  }

  lemma HitIsAnswerable(w: Oracles, sh0: Shared, op: Op, sh: Shared, pc: Pc)
    requires op.Get? && pc.GetChecking? && Alone(w, sh0, op, sh, pc) && |pc.views| >= |Remaining(pc.a)|
    ensures Answerable(w, sh0, op, Answer(pc.a, pc.e.digest, pc.hashed, Reads(pc.e.bytes, pc.views)))
  {
    var answer := Answer(pc.a, pc.e.digest, pc.hashed, Reads(pc.e.bytes, pc.views));
    var blob := sh.blobs[pc.e.digest];
    assert Backed(w, answer) && Steady(answer);
    SteadyAnswersAreGenuine(w, answer);
    HitIsGenuine(w, sh.blobs, pc.a, pc.e);
    forall i | 0 <= i < |pc.views| ensures pc.views[i] == blob { assert pc.views[i] in pc.views; }
    assert pc.views == Copies(blob, |Remaining(pc.a)|);
  }

  lemma LockAlone(w: Oracles, p: Pid, sh0: Shared, op: Op, sh: Shared, pc: Pc, sh': Shared, pc': Pc)
    requires Asks(op) && Alone(w, sh0, op, sh, pc)
    requires pc.GetWantKey? || pc.ImportWantKey? || pc.GetHasKey?
    requires ReadStep(w, p, sh, pc, sh', pc')
    ensures Alone(w, sh0, op, sh', pc')
  {
  }

  lemma EntryAlone(w: Oracles, p: Pid, sh0: Shared, op: Op, sh: Shared, pc: Pc, sh': Shared, pc': Pc)
    requires Asks(op) && Alone(w, sh0, op, sh, pc)
    requires pc.GetRead? || pc.GetSized? || pc.GetChecking?
    requires ReadStep(w, p, sh, pc, sh', pc')
    ensures Alone(w, sh0, op, sh', pc')
  {
    ReadBacks(w, p, sh, pc, sh', pc');
    ReadPcOk(w, p, sh, pc, sh', pc');
    EveryReadLooksAtTheBlob(w, p, sh, pc, sh', pc');
    if pc'.GetReturn? { HitIsAnswerable(w, sh0, op, sh, pc); }
  }

  lemma ReadAlone(w: Oracles, p: Pid, sh0: Shared, op: Op, sh: Shared, pc: Pc, sh': Shared, pc': Pc)
    requires Asks(op) && Reading(pc) && Alone(w, sh0, op, sh, pc)
    requires ReadStep(w, p, sh, pc, sh', pc')
    ensures Alone(w, sh0, op, sh', pc')
  {
    if pc.GetWantKey? || pc.ImportWantKey? || pc.GetHasKey? { LockAlone(w, p, sh0, op, sh, pc, sh', pc'); }
    else { EntryAlone(w, p, sh0, op, sh, pc, sh', pc'); }
  }

  lemma PlacingAlone(w: Oracles, p: Pid, sh0: Shared, op: Op, sh: Shared, pc: Pc, sh': Shared, pc': Pc)
    requires Asks(op) && pc.GetHasStore? && Alone(w, sh0, op, sh, pc)
    requires FillStep(w, p, sh, pc, sh', pc')
    ensures Alone(w, sh0, op, sh', pc')
  {
    FillBacks(w, p, sh, pc, sh', pc');
    if pc'.GetPlaced? {
      assert !CorruptAt(w, sh.blobs, pc.e.digest);
      assert SameCorruption(w, sh.blobs, sh'.blobs) && Preserves(sh.blobs, sh'.blobs);
    }
  }

  lemma ReturningAlone(w: Oracles, p: Pid, sh0: Shared, op: Op, sh: Shared, pc: Pc, sh': Shared, pc': Pc)
    requires Asks(op) && Alone(w, sh0, op, sh, pc) && Injective(w)
    requires pc.GetWritten? || pc.GetReturn? || pc.GetRelease?
    requires FillStep(w, p, sh, pc, sh', pc')
    ensures Alone(w, sh0, op, sh', pc')
  {
    if pc.GetWritten? {
      FillBacks(w, p, sh, pc, sh', pc');
      ValidationIsGenuine(w, pc.a, pc.body);
    }
  }

  lemma FetchingAlone(w: Oracles, p: Pid, sh0: Shared, op: Op, sh: Shared, pc: Pc, sh': Shared, pc': Pc)
    requires Asks(op) && (pc.GetFetching? || pc.GetWantStore?) && Alone(w, sh0, op, sh, pc)
    requires FillStep(w, p, sh, pc, sh', pc')
    ensures Alone(w, sh0, op, sh', pc')
  {
    FillBacks(w, p, sh, pc, sh', pc');
  }

  lemma PublishingAlone(w: Oracles, p: Pid, sh0: Shared, op: Op, sh: Shared, pc: Pc, sh': Shared, pc': Pc)
    requires Asks(op) && (pc.GetPlaced? || pc.GetBail?) && Alone(w, sh0, op, sh, pc)
    requires FillStep(w, p, sh, pc, sh', pc')
    ensures Alone(w, sh0, op, sh', pc')
  {
    FillBacks(w, p, sh, pc, sh', pc');
  }

  lemma FillAlone(w: Oracles, p: Pid, sh0: Shared, op: Op, sh: Shared, pc: Pc, sh': Shared, pc': Pc)
    requires Asks(op) && Filling(pc) && Alone(w, sh0, op, sh, pc) && Injective(w)
    requires FillStep(w, p, sh, pc, sh', pc')
    ensures Alone(w, sh0, op, sh', pc')
  {
    if pc.GetHasStore? { PlacingAlone(w, p, sh0, op, sh, pc, sh', pc'); }
    else if pc.GetWritten? || pc.GetReturn? || pc.GetRelease? { ReturningAlone(w, p, sh0, op, sh, pc, sh', pc'); }
    else if pc.GetFetching? || pc.GetWantStore? { FetchingAlone(w, p, sh0, op, sh, pc, sh', pc'); }
    else { PublishingAlone(w, p, sh0, op, sh, pc, sh', pc'); }
  }

  lemma {:induction false} GoesAlone(w: Oracles, p: Pid, sh0: Shared, op: Op, shs: seq<Shared>, pcs: seq<Pc>, i: nat)
    requires Asks(op) && Injective(w) && i < |pcs| && |shs| == |pcs|
    requires Goes(w, p, sh0, Begin(op), shs, pcs, shs[|shs| - 1], pcs[|pcs| - 1])
    ensures Alone(w, sh0, op, shs[i], pcs[i])
  {
    if i > 0 {
      GoesAlone(w, p, sh0, op, shs, pcs, i - 1);
      var sh, pc, sh', pc' := shs[i - 1], pcs[i - 1], shs[i], pcs[i];
      assert Step(w, p, sh, pc, sh', pc');
      if Reading(pc) { ReadAlone(w, p, sh0, op, sh, pc, sh', pc'); }
      else if Filling(pc) { FillAlone(w, p, sh0, op, sh, pc, sh', pc'); }
    }
  }

  /** An undisturbed get or import that ends with this answer handed out. */
  ghost predicate AnswersAlone(w: Oracles, p: Pid, sh: Shared, op: Op, answer: Answer, shs: seq<Shared>, pcs: seq<Pc>) {
    shs != [] && shs[|shs| - 1].served == sh.served + [answer]
    && Goes(w, p, sh, Begin(op), shs, pcs, shs[|shs| - 1], Idle)
  }

  /** Exactly what a get or an import that nobody disturbs can answer: the blob of a ready key,
      and then nothing else; on a miss, or for an import, any genuine body whose address is free
      or holds it; and otherwise, when the sidecar is damaged or the blob fails it, nothing. */
  lemma UndisturbedAnswersExactly(w: Oracles, p: Pid, sh: Shared, op: Op, answer: Answer)
    requires Asks(op) && Unlocked(sh, op.a.key) && Injective(w)
    ensures (exists shs, pcs :: AnswersAlone(w, p, sh, op, answer, shs, pcs)) <==> Answerable(w, sh, op, answer)
  {
    if Answerable(w, sh, op, answer) {
      var shs, pcs;
      if answer.evidence.Reads? {
        shs, pcs := UndisturbedHitServes(w, p, sh, op.a, answer.d);
      } else {
        var e := Entry(answer.d, |answer.hashed|, 0, None, None, None, Upstream);
        shs, pcs := UndisturbedFillServes(w, p, sh, op, answer.hashed, e, 0);
      }
      assert AnswersAlone(w, p, sh, op, answer, shs, pcs);
    }
    if shs: seq<Shared>, pcs: seq<Pc> :| AnswersAlone(w, p, sh, op, answer, shs, pcs) {
      GoesAlone(w, p, sh, op, shs, pcs, |pcs| - 1);
      var given :| Answerable(w, sh, op, given) && shs[|shs| - 1].served == sh.served + [given];
      assert (sh.served + [given])[|sh.served|] == given && (sh.served + [answer])[|sh.served|] == answer;
    }
  }

  // ----- everything that may be served can be -----

  /** A process that goes its way alone in a fresh store is a run. */
  lemma SoloIsARun(w: Oracles, sh: Shared, op: Op, shs: seq<Shared>, pcs: seq<Pc>, to: Shared)
    returns (states: seq<State>, labels: seq<Label>)
    requires Goes(w, 0, sh, Begin(op), shs, pcs, to, Idle)
    requires Init(State(sh, map[]))
    ensures Reaches(w, states, labels, State(to, map[0 := Idle]))
    ensures labels != [] && states[0] == State(sh, map[]) && labels[0] == Start(0, op)
    ensures forall n | 0 < n < |labels| :: labels[n] == Do(0)
  {
    states := [State(sh, map[])] + seq(|pcs|, i requires 0 <= i < |pcs| => State(shs[i], map[0 := pcs[i]]));
    labels := [Start(0, op)] + seq(|pcs| - 1, _ => Do(0));
    forall n | 0 <= n < |labels| ensures Next(w, states[n], labels[n], states[n + 1]) {
      if n == 0 {
        assert states[1] == State(sh, map[0 := Begin(op)]);
      } else {
        assert Step(w, 0, shs[n - 1], pcs[n - 1], shs[n], pcs[n]);
        DoneBy(w, states[n], states[n + 1]);
      }
    }
  }

  function EmptyStore(blobs: Blobs): Shared { Shared(map[], blobs, map[], None, []) }

  /** Every body that is genuine for an artifact is what some run, from an empty store, with one
      get or one import of that artifact and nothing else, hands out: no artifact and no body
      is refused for good. */
  lemma EveryGenuineBodyIsServed(w: Oracles, op: Op, body: Bytes) returns (states: seq<State>, labels: seq<Label>)
    requires Asks(op) && Genuine(w, op.a, body)
    ensures IsRun(w, states, labels) && states[0] == State(EmptyStore(map[]), map[])
    ensures labels != [] && labels[0] == Start(0, op) && forall n | 0 < n < |labels| :: labels[n] == Do(0)
    ensures states[|labels|].sh.served == [Answer(op.a, w.sha(body), body, Body(body))]
  {
    var sh := EmptyStore(map[]);
    var e := Entry(w.sha(body), |body|, 0, None, None, None, Upstream);
    var shs, pcs := UndisturbedFillServes(w, 0, sh, op, body, e, 0);
    assert sh.served + [Answer(op.a, w.sha(body), body, Body(body))] == [Answer(op.a, w.sha(body), body, Body(body))];
    states, labels := SoloIsARun(w, sh, op, shs, pcs, Filled(sh, op.a, body, e));
  }

  lemma FilledAnswerIsServed(w: Oracles, answer: Answer) returns (states: seq<State>, labels: seq<Label>)
    requires answer.evidence.Body? && Backed(w, answer)
    ensures Serves(w, states, labels, answer)
  {
    var op, body := Get(answer.a), answer.evidence.body;
    var sh := EmptyStore(if answer.hashed == body then map[] else map[answer.d := answer.hashed]);
    var e := Entry(answer.d, |body|, 0, None, None, None, Upstream);
    var shs, pcs := UndisturbedFillServes(w, 0, sh, op, body, e, 0);
    states, labels := SoloIsARun(w, sh, op, shs, pcs, Filled(sh, op.a, body, e));
  }

  /** Exactly which answers can be handed out, over all runs: after a fill, those whose body was
      genuine and of the digest the blob hashes to; after a hit, those whose length, digest and
      check reads each approved what they saw. Nothing more, and nothing less. */
  lemma ServableExactly(w: Oracles, answer: Answer)
    ensures Backed(w, answer) <==> exists states, labels :: Serves(w, states, labels, answer)
  {
    if answer.evidence.Reads? {
      ServableHitsExactly(w, answer);
    } else {
      if Backed(w, answer) {
        var states, labels := FilledAnswerIsServed(w, answer);
        assert Serves(w, states, labels, answer);
      }
      if states, labels :| Serves(w, states, labels, answer) {
        NothingUnbackedIsEverServed(w, states, labels, |labels|);
      }
    }
  }
}
