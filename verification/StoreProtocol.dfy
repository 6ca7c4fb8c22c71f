/** The store as a transition system: any number of processes run get, import, remove and gc
    as sequences of atomic file and lock steps; a process may crash or fail between any two
    of them, and the environment may corrupt a blob at any time. */
module StoreProtocol {
  import opened Basics
  import opened Sums
  import opened ContentChecks
  import opened Pins
  import opened Catalog
  import opened Resolution

  type Pid = nat

  /** A key to evict: unconditionally (`remove`), or only while it still has the digest the
      gc snapshot saw. */
  datatype Victim = Victim(key: Key, expected: Option<Digest>)

  datatype Op = Get(a: Artifact) | Import(a: Artifact) | Remove(key: Key) | Collect

  /** Why a path is handed out: a body was validated and published, or a cached blob was read
      for its length and once for every leaf of the check. */
  datatype Evidence = Body(body: Bytes) | Reads(size: nat, views: seq<Bytes>)

  /** A path handed to a caller: the digest, the bytes found to hash to it, and the evidence. */
  datatype Answer = Answer(a: Artifact, d: Digest, hashed: Bytes, evidence: Evidence)

  datatype Pc =
    | Idle
    // get and import, before anything is transferred; a cached blob is read for its length,
    // for its digest, and once per check
    | GetWantKey(a: Artifact)
    | ImportWantKey(a: Artifact)
    | GetHasKey(a: Artifact)
    | GetRead(a: Artifact, e: Entry)
    | GetSized(a: Artifact, e: Entry)
    | GetChecking(a: Artifact, e: Entry, hashed: Bytes, views: seq<Bytes>)
    // transfers and publication
    | GetFetching(a: Artifact, attempts: nat)
    | GetWantStore(a: Artifact, attempts: nat, body: Bytes, e: Entry)
    | GetHasStore(a: Artifact, attempts: nat, body: Bytes, e: Entry)
    | GetPlaced(a: Artifact, attempts: nat, body: Bytes, e: Entry, held: Bytes)
    | GetWritten(a: Artifact, attempts: nat, body: Bytes, e: Entry, held: Bytes)
    | GetBail(a: Artifact, attempts: nat)
    | GetReturn(answer: Answer)
    | GetRelease(a: Artifact)
    // remove, and the eviction turns of gc
    | EvictWantKey(todo: seq<Victim>)
    | EvictWantStore(todo: seq<Victim>)
    | EvictHasStore(todo: seq<Victim>)
    | EvictScan(todo: seq<Victim>, d: Digest)
    | EvictDrop(todo: seq<Victim>, d: Digest)
    | EvictDone(todo: seq<Victim>)
    | EvictRelease(todo: seq<Victim>)
    // the first critical section of gc
    | SweepWantStore
    | SweepScan
    | SweepDrop(orphans: set<Digest>, todo: seq<Victim>)

  datatype Shared = Shared(
    index: Index,
    blobs: Blobs,
    keyLocks: map<Key, Pid>,
    storeLock: Option<Pid>,
    served: seq<Answer>)

  datatype State = State(sh: Shared, pcs: map<Pid, Pc>)

  datatype Label = Do(pid: Pid) | Start(pid: Pid, op: Op) | Abort(pid: Pid) | Corrupt(d: Digest, bytes: Bytes)

  predicate Reading(pc: Pc) {
    pc.GetWantKey? || pc.ImportWantKey? || pc.GetHasKey? || pc.GetRead? || pc.GetSized? || pc.GetChecking?
  }

  predicate Filling(pc: Pc) {
    pc.GetFetching? || pc.GetWantStore? || pc.GetHasStore? || pc.GetPlaced? || pc.GetWritten? || pc.GetBail?
    || pc.GetReturn? || pc.GetRelease?
  }

  predicate Evicting(pc: Pc) {
    pc.EvictWantKey? || pc.EvictWantStore? || pc.EvictHasStore? || pc.EvictScan? || pc.EvictDrop?
    || pc.EvictDone? || pc.EvictRelease?
  }

  function HeldKey(pc: Pc): Option<Key> {
    if pc.Idle? || pc.GetWantKey? || pc.ImportWantKey? then None
    else if pc.GetReturn? then Some(pc.answer.a.key)
    else if Reading(pc) || Filling(pc) then Some(pc.a.key)
    else if Evicting(pc) && !pc.EvictWantKey? && pc.todo != [] then Some(pc.todo[0].key)
    else None
  }

  predicate HoldsStore(pc: Pc) {
    pc.GetHasStore? || pc.GetPlaced? || pc.GetWritten? || pc.GetBail?
    || pc.EvictHasStore? || pc.EvictScan? || pc.EvictDrop? || pc.EvictDone?
    || pc.SweepScan? || pc.SweepDrop?
  }

  predicate TakesKey(pid: Pid, sh: Shared, k: Key, sh': Shared) {
    k !in sh.keyLocks && sh' == sh.(keyLocks := sh.keyLocks[k := pid])
  }

  predicate TakesStore(pid: Pid, sh: Shared, sh': Shared) {
    sh.storeLock == None && sh' == sh.(storeLock := Some(pid))
  }

  function ReleaseKey(sh: Shared, k: Key): Shared { sh.(keyLocks := sh.keyLocks - {k}) }

  function ReleaseStore(sh: Shared): Shared { sh.(storeLock := None) }

  /** A body that was hashed while streaming and passed validation. */
  predicate Validated(w: Oracles, a: Artifact, body: Bytes, e: Entry) {
    e.digest == w.sha(body) && e.bytes == |body| && Validate(w, a, body, e.bytes, e.digest).Pass?
  }

  /** The manifest's size pin, against the length the entry records. */
  predicate SizeFits(a: Artifact, e: Entry) { a.expectedBytes.Some? ==> a.expectedBytes.value == e.bytes }

  /** The checks a cached blob is read for. */
  function Remaining(a: Artifact): seq<ContentCheck> { Leaves(WithoutSha256(a.check)) }

  // ----- the steps -----

  /** Taking the key lock, and judging a cached blob read by read. */
  predicate ReadStep(w: Oracles, pid: Pid, sh: Shared, pc: Pc, sh': Shared, pc': Pc)
    requires Reading(pc)
  {
    match pc
    case GetWantKey(a) => TakesKey(pid, sh, a.key, sh') && pc' == GetHasKey(a)
    case ImportWantKey(a) => TakesKey(pid, sh, a.key, sh') && pc' == GetFetching(a, 1)
    case GetHasKey(a) =>
      sh' == sh && pc' == (if a.key !in sh.index then GetFetching(a, 1 + |a.sources|)
                           else if sh.index[a.key].Malformed? then GetRelease(a)
                           else GetRead(a, sh.index[a.key].entry))
    case GetRead(a, e) =>
      sh' == sh && pc' == (if e.digest !in sh.blobs || !PinsMatch(a.check, e.digest)
                           then GetFetching(a, 1 + |a.sources|)
                           else if |sh.blobs[e.digest]| != e.bytes then GetRelease(a)
                           else GetSized(a, e))
    case GetSized(a, e) =>
      sh' == sh && pc' == (if e.digest !in sh.blobs || w.sha(sh.blobs[e.digest]) != e.digest || !SizeFits(a, e)
                           then GetRelease(a) else GetChecking(a, e, sh.blobs[e.digest], []))
    case GetChecking(a, e, hashed, views) =>
      var leaves := Remaining(a);
      sh' == sh && pc' == (if |views| >= |leaves| then GetReturn(Answer(a, e.digest, hashed, Reads(e.bytes, views)))
                           else if e.digest !in sh.blobs || !Accepts(w, leaves[|views|], sh.blobs[e.digest])
                           then GetRelease(a)
                           else GetChecking(a, e, hashed, views + [sh.blobs[e.digest]]))
  }

  /** Transferring, publishing under the store lock, returning. */
  predicate FillStep(w: Oracles, pid: Pid, sh: Shared, pc: Pc, sh': Shared, pc': Pc)
    requires Filling(pc)
  {
    match pc
    case GetFetching(a, n) =>
      sh' == sh && (pc' == GetRelease(a)
                    || (n > 0 && pc' == GetFetching(a, n - 1))
                    || (n > 0 && pc'.GetWantStore? && pc'.a == a && pc'.attempts == n - 1
                        && Validated(w, a, pc'.body, pc'.e)))
    case GetWantStore(a, n, body, e) => TakesStore(pid, sh, sh') && pc' == GetHasStore(a, n, body, e)
    case GetHasStore(a, n, body, e) =>
      var placed := PublishBlob(w, sh.blobs, e.digest, body);
      || (placed.Some? && e.digest in placed.value
          && sh' == sh.(blobs := placed.value) && pc' == GetPlaced(a, n, body, e, placed.value[e.digest]))
      // The address holds a corrupt blob, or the rename fails.
      || (sh' == sh && pc' == GetBail(a, n))
    case GetPlaced(a, n, body, e, held) =>
      || (sh' == sh.(index := sh.index[a.key := Readable(e)]) && pc' == GetWritten(a, n, body, e, held))
      || (sh' == sh && pc' == GetBail(a, n))
    case GetWritten(a, n, body, e, held) =>
      || (sh' == ReleaseStore(sh) && pc' == GetReturn(Answer(a, e.digest, held, Body(body))))
      || (sh' == sh && pc' == GetBail(a, n))
    case GetBail(a, n) =>
      sh' == ReleaseStore(sh) && (pc' == GetFetching(a, n) || pc' == GetRelease(a))
    case GetReturn(answer) =>
      sh' == ReleaseKey(sh, answer.a.key).(served := sh.served + [answer]) && pc' == Idle
    case GetRelease(a) => sh' == ReleaseKey(sh, a.key) && pc' == Idle
  }

  /** One eviction turn: key lock, store lock, entry, reference scan, blob. */
  predicate EvictStep(pid: Pid, sh: Shared, pc: Pc, sh': Shared, pc': Pc)
    requires Evicting(pc)
  {
    match pc
    case EvictWantKey(todo) =>
      todo != [] && TakesKey(pid, sh, todo[0].key, sh') && pc' == EvictWantStore(todo)
    case EvictWantStore(todo) => TakesStore(pid, sh, sh') && pc' == EvictHasStore(todo)
    case EvictHasStore(todo) =>
      todo != [] &&
      var k, expected := todo[0].key, todo[0].expected;
      if k !in sh.index || sh.index[k].Malformed?
         || (expected.Some? && sh.index[k].entry.digest != expected.value)
      then sh' == sh && pc' == EvictDone(todo)
      else sh' == sh.(index := sh.index - {k}) && pc' == EvictScan(todo, sh.index[k].entry.digest)
    case EvictScan(todo, d) =>
      sh' == sh && pc' == (if Referenced(sh.index, d) then EvictDone(todo) else EvictDrop(todo, d))
    case EvictDrop(todo, d) => sh' == sh.(blobs := sh.blobs - {d}) && pc' == EvictDone(todo)
    case EvictDone(todo) => sh' == ReleaseStore(sh) && pc' == EvictRelease(todo)
    case EvictRelease(todo) =>
      todo != [] && sh' == ReleaseKey(sh, todo[0].key)
      && (pc' == Idle || (|todo| > 1 && pc' == EvictWantKey(todo[1..])))
  }

  /** The orphan sweep, under the store lock alone. */
  predicate SweepStep(pid: Pid, sh: Shared, pc: Pc, sh': Shared, pc': Pc) {
    match pc
    case SweepWantStore => TakesStore(pid, sh, sh') && pc' == SweepScan
    case SweepScan =>
      sh' == sh && pc'.SweepDrop? && pc'.orphans == set d | d in sh.blobs && !Referenced(sh.index, d)
    case SweepDrop(orphans, todo) =>
      if orphans == {} then
        sh' == ReleaseStore(sh) && (pc' == Idle || (todo != [] && pc' == EvictWantKey(todo)))
      else
        exists d | d in orphans ::
          sh' == sh.(blobs := sh.blobs - {d}) && pc' == SweepDrop(orphans - {d}, todo)
    case _ => false
  }

  /** One atomic step of one process. */
  predicate Step(w: Oracles, pid: Pid, sh: Shared, pc: Pc, sh': Shared, pc': Pc) {
    if Reading(pc) then ReadStep(w, pid, sh, pc, sh', pc')
    else if Filling(pc) then FillStep(w, pid, sh, pc, sh', pc')
    else if Evicting(pc) then EvictStep(pid, sh, pc, sh', pc')
    else SweepStep(pid, sh, pc, sh', pc')
  }

  function Begin(op: Op): Pc {
    match op
    case Get(a) => GetWantKey(a)
    case Import(a) => ImportWantKey(a)
    case Remove(k) => EvictWantKey([Victim(k, None)])
    case Collect => SweepWantStore
  }

  /** The operating system drops the advisory locks of a process that dies. */
  function Unlock(pid: Pid, sh: Shared): Shared {
    sh.(keyLocks := map k | k in sh.keyLocks && sh.keyLocks[k] != pid :: sh.keyLocks[k],
        storeLock := if sh.storeLock == Some(pid) then None else sh.storeLock)
  }

  predicate Next(w: Oracles, s: State, l: Label, s': State) {
    match l
    case Do(pid) =>
      pid in s.pcs && pid in s'.pcs && s'.pcs == s.pcs[pid := s'.pcs[pid]]
      && Step(w, pid, s.sh, s.pcs[pid], s'.sh, s'.pcs[pid])
    case Start(pid, op) =>
      (pid in s.pcs ==> s.pcs[pid] == Idle) && s' == State(s.sh, s.pcs[pid := Begin(op)])
    case Abort(pid) => pid in s.pcs && s' == State(Unlock(pid, s.sh), s.pcs[pid := Idle])
    case Corrupt(d, bytes) =>
      d in s.sh.blobs && s' == State(s.sh.(blobs := s.sh.blobs[d := bytes]), s.pcs)
  }

  predicate Init(s: State) {
    && NoDangling(s.sh.index, s.sh.blobs)
    && s.sh.keyLocks == map[] && s.sh.storeLock == None && s.sh.served == [] && s.pcs == map[]
  }

  // ----- the invariant -----

  /** What a process may rely on at its program point. */
  predicate PcOk(sh: Shared, pc: Pc) {
    match pc
    case GetRead(a, e) => a.key in sh.index && sh.index[a.key] == Readable(e)
    case GetSized(a, e) => a.key in sh.index && sh.index[a.key] == Readable(e)
    case GetChecking(a, e, _, views) =>
      a.key in sh.index && sh.index[a.key] == Readable(e) && |views| <= |Remaining(a)|
    case GetPlaced(a, _, _, e, _) => e.digest in sh.blobs
    case EvictDrop(todo, d) => todo != [] && !Referenced(sh.index, d)
    case SweepDrop(orphans, _) => forall d | d in orphans :: !Referenced(sh.index, d)
    case _ => Evicting(pc) ==> pc.todo != []
  }

  /** Locks are held by exactly the processes whose program point says so. */
  ghost predicate LocksOk(s: State) {
    && (forall k | k in s.sh.keyLocks ::
          s.sh.keyLocks[k] in s.pcs && HeldKey(s.pcs[s.sh.keyLocks[k]]) == Some(k))
    && (forall p | p in s.pcs && HeldKey(s.pcs[p]).Some? ::
          HeldKey(s.pcs[p]).value in s.sh.keyLocks && s.sh.keyLocks[HeldKey(s.pcs[p]).value] == p)
    && (s.sh.storeLock.Some? ==> s.sh.storeLock.value in s.pcs && HoldsStore(s.pcs[s.sh.storeLock.value]))
    && (forall p | p in s.pcs && HoldsStore(s.pcs[p]) :: s.sh.storeLock == Some(p))
  }

  /** Nothing here depends on the hash. */
  ghost predicate Inv(s: State) {
    && LocksOk(s)
    && NoDangling(s.sh.index, s.sh.blobs)
    && forall p | p in s.pcs :: PcOk(s.sh, s.pcs[p])
  }

  // ----- what one step can do -----

  /** The index changes only at the stepping process's own locked key and only under the
      store lock; a blob disappears only when nothing refers to it; no blob is rewritten. */
  ghost predicate Confined(sh: Shared, pc: Pc, sh': Shared) {
    && (sh'.index != sh.index ==>
          HoldsStore(pc) && HeldKey(pc).Some? && SameElsewhere(sh.index, sh'.index, HeldKey(pc).value))
    && (sh'.blobs != sh.blobs ==> HoldsStore(pc))
    && (forall d | d in sh.blobs && d in sh'.blobs :: sh'.blobs[d] == sh.blobs[d])
    && (forall d | d in sh.blobs && d !in sh'.blobs :: !Referenced(sh'.index, d))
  }

  /** How one step moves the locks: either is kept, taken while free, or given back. */
  ghost predicate KeyMoves(pid: Pid, sh: Shared, pc: Pc, sh': Shared, pc': Pc) {
    var k, k' := HeldKey(pc), HeldKey(pc');
    || (k' == k && sh'.keyLocks == sh.keyLocks)
    || (k == None && k'.Some? && k'.value !in sh.keyLocks && sh'.keyLocks == sh.keyLocks[k'.value := pid])
    || (k.Some? && k' == None && sh'.keyLocks == sh.keyLocks - {k.value})
  }

  ghost predicate StoreMoves(pid: Pid, sh: Shared, pc: Pc, sh': Shared, pc': Pc) {
    || (HoldsStore(pc') == HoldsStore(pc) && sh'.storeLock == sh.storeLock)
    || (!HoldsStore(pc) && HoldsStore(pc') && sh.storeLock == None && sh'.storeLock == Some(pid))
    || (HoldsStore(pc) && !HoldsStore(pc') && sh'.storeLock == None)
  }

  /** What a step does to the disk, and to the locks. */
  ghost predicate Keeps(sh: Shared, pc: Pc, sh': Shared, pc': Pc) {
    Confined(sh, pc, sh') && NoDangling(sh'.index, sh'.blobs) && PcOk(sh', pc')
  }

  ghost predicate Moves(pid: Pid, sh: Shared, pc: Pc, sh': Shared, pc': Pc) {
    KeyMoves(pid, sh, pc, sh', pc') && StoreMoves(pid, sh, pc, sh', pc')
  }

  /** A step that leaves the disk alone. */
  ghost predicate Idles(sh: Shared, sh': Shared, pc': Pc) {
    sh'.index == sh.index && sh'.blobs == sh.blobs && PcOk(sh, pc')
  }

  lemma IdlingKeeps(sh: Shared, pc: Pc, sh': Shared, pc': Pc)
    requires Idles(sh, sh', pc') && NoDangling(sh.index, sh.blobs)
    ensures Keeps(sh, pc, sh', pc')
  {
  }

  lemma ReadLeavesTheDisk(w: Oracles, pid: Pid, sh: Shared, pc: Pc, sh': Shared, pc': Pc)
    requires Reading(pc) && ReadStep(w, pid, sh, pc, sh', pc')
    ensures sh'.index == sh.index && sh'.blobs == sh.blobs
  {
  }

  lemma EntryReadPcOk(w: Oracles, pid: Pid, sh: Shared, pc: Pc, sh': Shared, pc': Pc)
    requires pc.GetRead? || pc.GetSized? || pc.GetChecking?
    requires ReadStep(w, pid, sh, pc, sh', pc') && PcOk(sh, pc)
    ensures PcOk(sh, pc')
  {
  }

  lemma LockingPcOk(w: Oracles, pid: Pid, sh: Shared, pc: Pc, sh': Shared, pc': Pc)
    requires pc.GetWantKey? || pc.ImportWantKey? || pc.GetHasKey?
    requires ReadStep(w, pid, sh, pc, sh', pc')
    ensures PcOk(sh, pc')
  {
  }

  lemma ReadPcOk(w: Oracles, pid: Pid, sh: Shared, pc: Pc, sh': Shared, pc': Pc)
    requires Reading(pc) && ReadStep(w, pid, sh, pc, sh', pc') && PcOk(sh, pc)
    ensures PcOk(sh, pc')
  {
    if pc.GetRead? || pc.GetSized? || pc.GetChecking? {
      EntryReadPcOk(w, pid, sh, pc, sh', pc');
    } else {
      LockingPcOk(w, pid, sh, pc, sh', pc');
    }
  }

  lemma ReadIdles(w: Oracles, pid: Pid, sh: Shared, pc: Pc, sh': Shared, pc': Pc)
    requires Reading(pc) && ReadStep(w, pid, sh, pc, sh', pc') && PcOk(sh, pc)
    ensures Idles(sh, sh', pc')
  {
    ReadLeavesTheDisk(w, pid, sh, pc, sh', pc');
    ReadPcOk(w, pid, sh, pc, sh', pc');
  }

  lemma ReadKeeps(w: Oracles, pid: Pid, sh: Shared, pc: Pc, sh': Shared, pc': Pc)
    requires Reading(pc) && ReadStep(w, pid, sh, pc, sh', pc') && PcOk(sh, pc) && NoDangling(sh.index, sh.blobs)
    ensures Keeps(sh, pc, sh', pc')
  {
    ReadIdles(w, pid, sh, pc, sh', pc');
    IdlingKeeps(sh, pc, sh', pc');
  }

  lemma ReadMoves(w: Oracles, pid: Pid, sh: Shared, pc: Pc, sh': Shared, pc': Pc)
    requires Reading(pc) && ReadStep(w, pid, sh, pc, sh', pc') && PcOk(sh, pc)
    ensures Moves(pid, sh, pc, sh', pc')
  {
  }

  /** Of a fill only the rename of the blob and that of the sidecar touch the disk. */
  lemma FillIdles(w: Oracles, pid: Pid, sh: Shared, pc: Pc, sh': Shared, pc': Pc)
    requires Filling(pc) && FillStep(w, pid, sh, pc, sh', pc') && !pc.GetHasStore? && !pc.GetPlaced?
    ensures Idles(sh, sh', pc')
  {
  }

  lemma PublicationKeeps(w: Oracles, pid: Pid, sh: Shared, pc: Pc, sh': Shared, pc': Pc)
    requires pc.GetHasStore? || pc.GetPlaced?
    requires FillStep(w, pid, sh, pc, sh', pc') && PcOk(sh, pc) && NoDangling(sh.index, sh.blobs)
    ensures Keeps(sh, pc, sh', pc')
  {
  }

  lemma FillKeeps(w: Oracles, pid: Pid, sh: Shared, pc: Pc, sh': Shared, pc': Pc)
    requires Filling(pc) && FillStep(w, pid, sh, pc, sh', pc') && PcOk(sh, pc) && NoDangling(sh.index, sh.blobs)
    ensures Keeps(sh, pc, sh', pc')
  {
    if pc.GetHasStore? || pc.GetPlaced? {
      PublicationKeeps(w, pid, sh, pc, sh', pc');
    } else {
      FillIdles(w, pid, sh, pc, sh', pc');
      IdlingKeeps(sh, pc, sh', pc');
    }
  }

  lemma FillMoves(w: Oracles, pid: Pid, sh: Shared, pc: Pc, sh': Shared, pc': Pc)
    requires Filling(pc) && FillStep(w, pid, sh, pc, sh', pc') && PcOk(sh, pc)
    ensures Moves(pid, sh, pc, sh', pc')
  {
  }

  lemma EvictKeeps(pid: Pid, sh: Shared, pc: Pc, sh': Shared, pc': Pc)
    requires Evicting(pc) && EvictStep(pid, sh, pc, sh', pc') && PcOk(sh, pc) && NoDangling(sh.index, sh.blobs)
    ensures Keeps(sh, pc, sh', pc')
  {
    if pc.EvictDrop? { OrphanIsSafe(sh.index, sh.blobs, pc.d); }
  }

  lemma EvictTakesLocks(pid: Pid, sh: Shared, pc: Pc, sh': Shared, pc': Pc)
    requires pc.EvictWantKey? || pc.EvictWantStore?
    requires EvictStep(pid, sh, pc, sh', pc') && PcOk(sh, pc)
    ensures Moves(pid, sh, pc, sh', pc')
  {
  }

  lemma EvictMoves(pid: Pid, sh: Shared, pc: Pc, sh': Shared, pc': Pc)
    requires Evicting(pc) && EvictStep(pid, sh, pc, sh', pc') && PcOk(sh, pc)
    ensures Moves(pid, sh, pc, sh', pc')
  {
    if pc.EvictWantKey? || pc.EvictWantStore? {
      EvictTakesLocks(pid, sh, pc, sh', pc');
    } else {
      EvictWorksUnderLocks(pid, sh, pc, sh', pc');
    }
  }

  lemma EvictWorksUnderLocks(pid: Pid, sh: Shared, pc: Pc, sh': Shared, pc': Pc)
    requires Evicting(pc) && !pc.EvictWantKey? && !pc.EvictWantStore?
    requires EvictStep(pid, sh, pc, sh', pc') && PcOk(sh, pc)
    ensures Moves(pid, sh, pc, sh', pc')
  {
  }

  lemma SweepKeeps(pid: Pid, sh: Shared, pc: Pc, sh': Shared, pc': Pc)
    requires SweepStep(pid, sh, pc, sh', pc') && PcOk(sh, pc) && NoDangling(sh.index, sh.blobs)
    ensures Keeps(sh, pc, sh', pc')
  {
    if pc.SweepDrop? && pc.orphans != {} {
      var d :| d in pc.orphans && sh' == sh.(blobs := sh.blobs - {d}) && pc' == SweepDrop(pc.orphans - {d}, pc.todo);
      OrphanIsSafe(sh.index, sh.blobs, d);
    }
  }

  lemma SweepMoves(pid: Pid, sh: Shared, pc: Pc, sh': Shared, pc': Pc)
    requires SweepStep(pid, sh, pc, sh', pc') && PcOk(sh, pc)
    ensures Moves(pid, sh, pc, sh', pc')
  {
  }

  lemma StepBehaves(w: Oracles, pid: Pid, sh: Shared, pc: Pc, sh': Shared, pc': Pc)
    requires Step(w, pid, sh, pc, sh', pc') && PcOk(sh, pc) && NoDangling(sh.index, sh.blobs)
    ensures Keeps(sh, pc, sh', pc') && Moves(pid, sh, pc, sh', pc')
  {
    if Reading(pc) {
      ReadKeeps(w, pid, sh, pc, sh', pc');
      ReadMoves(w, pid, sh, pc, sh', pc');
    } else if Filling(pc) {
      FillKeeps(w, pid, sh, pc, sh', pc');
      FillMoves(w, pid, sh, pc, sh', pc');
    } else if Evicting(pc) {
      EvictKeeps(pid, sh, pc, sh', pc');
      EvictMoves(pid, sh, pc, sh', pc');
    } else {
      SweepKeeps(pid, sh, pc, sh', pc');
      SweepMoves(pid, sh, pc, sh', pc');
    }
  }

  lemma OrphanIsSafe(index: Index, blobs: Blobs, d: Digest)
    requires NoDangling(index, blobs) && !Referenced(index, d)
    ensures NoDangling(index, blobs - {d})
  {
    forall k | k in index && index[k].Readable? ensures index[k].entry.digest != d {}
  }

  /** Facts of a process survive the confined steps of others. */
  lemma FactsSurvive(s: State, p: Pid, q: Pid, sh': Shared)
    requires LocksOk(s) && p in s.pcs && q in s.pcs && p != q
    requires PcOk(s.sh, s.pcs[q]) && Confined(s.sh, s.pcs[p], sh')
    ensures PcOk(sh', s.pcs[q])
  {
  }

  lemma KeyLocksAfterMove(s: State, pid: Pid, s': State)
    requires LocksOk(s) && pid in s.pcs && pid in s'.pcs && s'.pcs == s.pcs[pid := s'.pcs[pid]]
    requires KeyMoves(pid, s.sh, s.pcs[pid], s'.sh, s'.pcs[pid])
    ensures forall k | k in s'.sh.keyLocks ::
              s'.sh.keyLocks[k] in s'.pcs && HeldKey(s'.pcs[s'.sh.keyLocks[k]]) == Some(k)
    ensures forall p | p in s'.pcs && HeldKey(s'.pcs[p]).Some? ::
              HeldKey(s'.pcs[p]).value in s'.sh.keyLocks && s'.sh.keyLocks[HeldKey(s'.pcs[p]).value] == p
  {
    forall p | p in s'.pcs && p != pid && HeldKey(s'.pcs[p]).Some?
      ensures HeldKey(s'.pcs[p]).value in s'.sh.keyLocks && s'.sh.keyLocks[HeldKey(s'.pcs[p]).value] == p
    {
      assert HeldKey(s.pcs[p]) != HeldKey(s.pcs[pid]);
    }
  }

  lemma DoKeepsInv(w: Oracles, s: State, pid: Pid, s': State)
    requires Inv(s) && Next(w, s, Do(pid), s')
    ensures Inv(s')
  {
    StepBehaves(w, pid, s.sh, s.pcs[pid], s'.sh, s'.pcs[pid]);
    KeyLocksAfterMove(s, pid, s');
    forall q | q in s'.pcs ensures PcOk(s'.sh, s'.pcs[q]) {
      if q != pid { FactsSurvive(s, pid, q, s'.sh); }
    }
  }

  lemma AbortKeepsInv(w: Oracles, s: State, pid: Pid, s': State)
    requires Inv(s) && Next(w, s, Abort(pid), s')
    ensures Inv(s')
  {
    forall q | q in s'.pcs ensures PcOk(s'.sh, s'.pcs[q]) {
      if q != pid { assert PcOk(s.sh, s.pcs[q]); }
    }
    AbortKeepsLocks(w, s, pid, s');
  }

  lemma AbortKeepsLocks(w: Oracles, s: State, pid: Pid, s': State)
    requires LocksOk(s) && Next(w, s, Abort(pid), s')
    ensures LocksOk(s')
  {
    forall p | p in s'.pcs && HeldKey(s'.pcs[p]).Some?
      ensures HeldKey(s'.pcs[p]).value in s'.sh.keyLocks && s'.sh.keyLocks[HeldKey(s'.pcs[p]).value] == p
    {
      assert p != pid && HeldKey(s.pcs[p]).Some?;
    }
  }

  lemma StartKeepsLocks(w: Oracles, s: State, pid: Pid, op: Op, s': State)
    requires LocksOk(s) && Next(w, s, Start(pid, op), s')
    ensures LocksOk(s') && PcOk(s'.sh, s'.pcs[pid])
  {
    assert HeldKey(Begin(op)) == None && !HoldsStore(Begin(op));
  }

  lemma StartKeepsInv(w: Oracles, s: State, pid: Pid, op: Op, s': State)
    requires Inv(s) && Next(w, s, Start(pid, op), s')
    ensures Inv(s')
  {
    StartKeepsLocks(w, s, pid, op, s');
    forall q | q in s'.pcs ensures PcOk(s'.sh, s'.pcs[q]) {
      if q != pid { assert PcOk(s.sh, s.pcs[q]); }
    }
  }

  lemma CorruptKeepsInv(w: Oracles, s: State, d: Digest, bytes: Bytes, s': State)
    requires Inv(s) && Next(w, s, Corrupt(d, bytes), s')
    ensures Inv(s')
  {
    forall q | q in s'.pcs ensures PcOk(s'.sh, s'.pcs[q]) {
      assert PcOk(s.sh, s.pcs[q]);
    }
  }

  lemma StepKeepsInv(w: Oracles, s: State, l: Label, s': State)
    requires Inv(s) && Next(w, s, l, s')
    ensures Inv(s')
  {
    match l
    case Do(pid) => DoKeepsInv(w, s, pid, s');
    case Start(pid, op) => StartKeepsInv(w, s, pid, op, s');
    case Abort(pid) => AbortKeepsInv(w, s, pid, s');
    case Corrupt(d, bytes) => CorruptKeepsInv(w, s, d, bytes, s');
  }

  // ----- whole runs -----

  /** A run: states joined by labelled steps, from an initial state. */
  ghost predicate IsRun(w: Oracles, states: seq<State>, labels: seq<Label>) {
    && |states| == |labels| + 1 && Init(states[0])
    && forall i | 0 <= i < |labels| :: Next(w, states[i], labels[i], states[i + 1])
  }

  lemma {:induction false} RunKeepsInv(w: Oracles, states: seq<State>, labels: seq<Label>, i: nat)
    requires IsRun(w, states, labels) && i < |states|
    ensures Inv(states[i])
  {
    if i > 0 {
      RunKeepsInv(w, states, labels, i - 1);
      StepKeepsInv(w, states[i - 1], labels[i - 1], states[i]);
    }
  }

  /** In every reachable state every index entry's blob exists: whatever interleaves, and
      wherever processes crash, only orphans are left behind. */
  lemma NoKeyEverDangles(w: Oracles, states: seq<State>, labels: seq<Label>, i: nat)
    requires IsRun(w, states, labels) && i < |states|
    ensures NoDangling(states[i].sh.index, states[i].sh.blobs)
  {
    RunKeepsInv(w, states, labels, i);
  }

  /** No step of the store rewrites a blob in place, so a corrupt one stays until its last
      reference is removed. */
  lemma BlobsAreNeverRewritten(w: Oracles, s: State, l: Label, s': State, d: Digest)
    requires Inv(s) && Next(w, s, l, s') && !l.Corrupt?
    requires d in s.sh.blobs && d in s'.sh.blobs
    ensures s'.sh.blobs[d] == s.sh.blobs[d]
  {
    if l.Do? { StepBehaves(w, l.pid, s.sh, s.pcs[l.pid], s'.sh, s'.pcs[l.pid]); }
  }

  // ----- key locks -----

  /** While a process holds a key's lock, nobody else changes that entry or deletes or
      rewrites its blob. */
  lemma KeyLockIsStable(w: Oracles, s: State, l: Label, s': State, p: Pid, k: Key)
    requires Inv(s) && Next(w, s, l, s')
    requires p in s.pcs && HeldKey(s.pcs[p]) == Some(k)
    requires !l.Corrupt? && l.pid != p
    ensures (k in s.sh.index <==> k in s'.sh.index) && (k in s.sh.index ==> s'.sh.index[k] == s.sh.index[k])
    ensures k in s.sh.index && s.sh.index[k].Readable? ==>
              var d := s.sh.index[k].entry.digest;
              d in s.sh.blobs && d in s'.sh.blobs && s'.sh.blobs[d] == s.sh.blobs[d]
  {
    StepKeepsInv(w, s, l, s');
    if l.Do? {
      StepBehaves(w, l.pid, s.sh, s.pcs[l.pid], s'.sh, s'.pcs[l.pid]);
      assert HeldKey(s.pcs[l.pid]) != Some(k);
    }
    if k in s.sh.index && s.sh.index[k].Readable? {
      assert k in s'.sh.index && s'.sh.index[k].entry.digest in s'.sh.blobs;
      BlobsAreNeverRewritten(w, s, l, s', s.sh.index[k].entry.digest);
    }
  }

  // ----- no deadlock -----

  /** A process can move unless it waits for a lock that is taken. */
  ghost predicate Unblocked(sh: Shared, pc: Pc) {
    && (pc.GetWantKey? || pc.ImportWantKey? ==> pc.a.key !in sh.keyLocks)
    && (pc.EvictWantKey? && pc.todo != [] ==> pc.todo[0].key !in sh.keyLocks)
    && (pc.GetWantStore? || pc.EvictWantStore? || pc.SweepWantStore? ==> sh.storeLock == None)
  }

  lemma ReadCanMove(w: Oracles, pid: Pid, sh: Shared, pc: Pc) returns (sh': Shared, pc': Pc)
    requires Reading(pc) && PcOk(sh, pc) && Unblocked(sh, pc)
    ensures ReadStep(w, pid, sh, pc, sh', pc')
  {
    sh', pc' := sh, GetRelease(pc.a);
    match pc
    case GetWantKey(a) => sh', pc' := sh.(keyLocks := sh.keyLocks[a.key := pid]), GetHasKey(a);
    case ImportWantKey(a) => sh', pc' := sh.(keyLocks := sh.keyLocks[a.key := pid]), GetFetching(a, 1);
    case GetHasKey(a) =>
      if a.key !in sh.index { pc' := GetFetching(a, 1 + |a.sources|); }
      else if sh.index[a.key].Readable? { pc' := GetRead(a, sh.index[a.key].entry); }
    case GetRead(a, e) =>
      if e.digest !in sh.blobs || !PinsMatch(a.check, e.digest) { pc' := GetFetching(a, 1 + |a.sources|); }
      else if |sh.blobs[e.digest]| == e.bytes { pc' := GetSized(a, e); }
    case GetSized(a, e) =>
      if e.digest in sh.blobs && w.sha(sh.blobs[e.digest]) == e.digest && SizeFits(a, e) {
        pc' := GetChecking(a, e, sh.blobs[e.digest], []);
      }
    case GetChecking(a, e, hashed, views) =>
      if |views| >= |Remaining(a)| { pc' := GetReturn(Answer(a, e.digest, hashed, Reads(e.bytes, views))); }
      else if e.digest in sh.blobs && Accepts(w, Remaining(a)[|views|], sh.blobs[e.digest]) {
        pc' := GetChecking(a, e, hashed, views + [sh.blobs[e.digest]]);
      }
  }

  lemma FillCanMove(w: Oracles, pid: Pid, sh: Shared, pc: Pc) returns (sh': Shared, pc': Pc)
    requires Filling(pc) && PcOk(sh, pc) && Unblocked(sh, pc)
    ensures FillStep(w, pid, sh, pc, sh', pc')
  {
    sh', pc' := sh, Idle;
    match pc
    case GetFetching(a, n) => pc' := GetRelease(a);
    case GetWantStore(a, n, body, e) => sh', pc' := sh.(storeLock := Some(pid)), GetHasStore(a, n, body, e);
    case GetHasStore(a, n, body, e) => pc' := GetBail(a, n);
    case GetPlaced(a, n, body, e, held) => pc' := GetBail(a, n);
    case GetWritten(a, n, body, e, held) => pc' := GetBail(a, n);
    case GetBail(a, n) => sh', pc' := ReleaseStore(sh), GetRelease(a);
    case GetReturn(answer) => sh' := ReleaseKey(sh, answer.a.key).(served := sh.served + [answer]);
    case GetRelease(a) => sh' := ReleaseKey(sh, a.key);
  }

  lemma EvictCanMove(pid: Pid, sh: Shared, pc: Pc) returns (sh': Shared, pc': Pc)
    requires Evicting(pc) && PcOk(sh, pc) && Unblocked(sh, pc)
    ensures EvictStep(pid, sh, pc, sh', pc')
  {
    sh', pc' := sh, Idle;
    match pc
    case EvictWantKey(todo) => sh', pc' := sh.(keyLocks := sh.keyLocks[todo[0].key := pid]), EvictWantStore(todo);
    case EvictWantStore(todo) => sh', pc' := sh.(storeLock := Some(pid)), EvictHasStore(todo);
    case EvictHasStore(todo) =>
      var k, expected := todo[0].key, todo[0].expected;
      if k !in sh.index || sh.index[k].Malformed?
         || (expected.Some? && sh.index[k].entry.digest != expected.value)
      { pc' := EvictDone(todo); }
      else { sh', pc' := sh.(index := sh.index - {k}), EvictScan(todo, sh.index[k].entry.digest); }
    case EvictScan(todo, d) => pc' := if Referenced(sh.index, d) then EvictDone(todo) else EvictDrop(todo, d);
    case EvictDrop(todo, d) => sh', pc' := sh.(blobs := sh.blobs - {d}), EvictDone(todo);
    case EvictDone(todo) => sh', pc' := ReleaseStore(sh), EvictRelease(todo);
    case EvictRelease(todo) => sh' := ReleaseKey(sh, todo[0].key);
  }

  lemma SweepCanMove(pid: Pid, sh: Shared, pc: Pc) returns (sh': Shared, pc': Pc)
    requires pc.SweepWantStore? || pc.SweepScan? || pc.SweepDrop?
    requires Unblocked(sh, pc)
    ensures SweepStep(pid, sh, pc, sh', pc')
  {
    sh', pc' := sh, Idle;
    match pc
    case SweepWantStore => sh', pc' := sh.(storeLock := Some(pid)), SweepScan;
    case SweepScan => pc' := SweepDrop(set d | d in sh.blobs && !Referenced(sh.index, d), []);
    case SweepDrop(orphans, todo) =>
      if orphans == {} { sh' := ReleaseStore(sh); }
      else {
        var d :| d in orphans;
        sh', pc' := sh.(blobs := sh.blobs - {d}), SweepDrop(orphans - {d}, todo);
      }
  }

  lemma CanMove(w: Oracles, pid: Pid, sh: Shared, pc: Pc) returns (sh': Shared, pc': Pc)
    requires PcOk(sh, pc) && pc != Idle && Unblocked(sh, pc)
    ensures Step(w, pid, sh, pc, sh', pc')
  {
    if Reading(pc) { sh', pc' := ReadCanMove(w, pid, sh, pc); }
    else if Filling(pc) { sh', pc' := FillCanMove(w, pid, sh, pc); }
    else if Evicting(pc) { sh', pc' := EvictCanMove(pid, sh, pc); }
    else { sh', pc' := SweepCanMove(pid, sh, pc); }
  }

  predicate WantsKey(pc: Pc) { pc.GetWantKey? || pc.ImportWantKey? || pc.EvictWantKey? }

  /** Whenever an operation is in progress, some process can take a step: the holder of the
      store lock, else a holder of a key lock, else a process whose key nobody holds. */
  lemma NeverDeadlocked(w: Oracles, s: State) returns (p: Pid, s': State)
    requires Inv(s) && exists q | q in s.pcs :: s.pcs[q] != Idle
    ensures Next(w, s, Do(p), s') && p in s.pcs
  {
    p := SomeoneUnblocked(s);
    assert PcOk(s.sh, s.pcs[p]);
    var sh', pc' := CanMove(w, p, s.sh, s.pcs[p]);
    s' := State(sh', s.pcs[p := pc']);
  }

  lemma SomeoneUnblocked(s: State) returns (p: Pid)
    requires LocksOk(s) && exists q | q in s.pcs :: s.pcs[q] != Idle
    ensures p in s.pcs && s.pcs[p] != Idle && Unblocked(s.sh, s.pcs[p])
  {
    forall k | k in s.sh.keyLocks
      ensures s.sh.keyLocks[k] in s.pcs
      ensures s.pcs[s.sh.keyLocks[k]] != Idle && !WantsKey(s.pcs[s.sh.keyLocks[k]])
    {
      assert HeldKey(s.pcs[s.sh.keyLocks[k]]) == Some(k);
    }
    if s.sh.storeLock.Some? {
      p := s.sh.storeLock.value;
    } else if q :| q in s.pcs && s.pcs[q] != Idle && !WantsKey(s.pcs[q]) {
      p := q;
    } else {
      p :| p in s.pcs && s.pcs[p] != Idle;
    }
  }

  // ----- every operation can complete -----

  /** Work left at a program point: a gc that has not scanned yet does not know how much,
      so it counts in a first component. */
  function Unscanned(pc: Pc): nat { if pc.SweepWantStore? || pc.SweepScan? then 1 else 0 }

  function Rank(pc: Pc): nat {
    match pc
    case Idle => 0
    case ImportWantKey(_) => 11
    case GetWantKey(a) => 8 * |a.sources| + |Remaining(a)| + 16
    case GetHasKey(a) => 8 * |a.sources| + |Remaining(a)| + 15
    case GetRead(a, _) => 8 * |a.sources| + |Remaining(a)| + 14
    case GetSized(a, _) => |Remaining(a)| + 3
    case GetChecking(a, _, _, views) => |Remaining(a)| - Min(|views|, |Remaining(a)|) + 2
    case GetFetching(_, n) => 8 * n + 2
    case GetWantStore(_, n, _, _) => 8 * n + 8
    case GetHasStore(_, n, _, _) => 8 * n + 7
    case GetPlaced(_, n, _, _, _) => 8 * n + 6
    case GetWritten(_, n, _, _, _) => 8 * n + 5
    case GetBail(_, n) => 8 * n + 4
    case GetReturn(_) => 1
    case GetRelease(_) => 1
    case EvictWantKey(todo) => 8 * |todo|
    case EvictWantStore(todo) => 8 * |todo| - Min(1, |todo|)
    case EvictHasStore(todo) => 8 * |todo| - 2 * Min(1, |todo|)
    case EvictScan(todo, _) => 8 * |todo| - 3 * Min(1, |todo|)
    case EvictDrop(todo, _) => 8 * |todo| - 4 * Min(1, |todo|)
    case EvictDone(todo) => 8 * |todo| - 5 * Min(1, |todo|)
    case EvictRelease(todo) => 8 * |todo| - 6 * Min(1, |todo|)
    case SweepWantStore => 2
    case SweepScan => 1
    case SweepDrop(orphans, todo) => |orphans| + 8 * |todo| + 1
  }

  ghost predicate Shrinks(pc: Pc, pc': Pc) {
    Unscanned(pc') < Unscanned(pc) || (Unscanned(pc') == Unscanned(pc) && Rank(pc') < Rank(pc))
  }

  lemma ReadShrinks(w: Oracles, pid: Pid, sh: Shared, pc: Pc, sh': Shared, pc': Pc)
    requires Reading(pc) && ReadStep(w, pid, sh, pc, sh', pc') && PcOk(sh, pc)
    ensures Shrinks(pc, pc')
  {
  }

  lemma FillShrinks(w: Oracles, pid: Pid, sh: Shared, pc: Pc, sh': Shared, pc': Pc)
    requires Filling(pc) && FillStep(w, pid, sh, pc, sh', pc')
    ensures Shrinks(pc, pc')
  {
  }

  lemma EvictShrinks(pid: Pid, sh: Shared, pc: Pc, sh': Shared, pc': Pc)
    requires Evicting(pc) && EvictStep(pid, sh, pc, sh', pc') && PcOk(sh, pc)
    ensures Shrinks(pc, pc')
  {
  }

  lemma SweepShrinks(pid: Pid, sh: Shared, pc: Pc, sh': Shared, pc': Pc)
    requires SweepStep(pid, sh, pc, sh', pc')
    ensures Shrinks(pc, pc')
  {
  }

  lemma StepShrinks(w: Oracles, pid: Pid, sh: Shared, pc: Pc, sh': Shared, pc': Pc)
    requires Step(w, pid, sh, pc, sh', pc') && PcOk(sh, pc)
    ensures Shrinks(pc, pc')
  {
    if Reading(pc) { ReadShrinks(w, pid, sh, pc, sh', pc'); }
    else if Filling(pc) { FillShrinks(w, pid, sh, pc, sh', pc'); }
    else if Evicting(pc) { EvictShrinks(pid, sh, pc, sh', pc'); }
    else { SweepShrinks(pid, sh, pc, sh', pc'); }
  }

  /** Every step of every process, whichever is chosen, uses up work. */
  lemma EveryStepUsesUpWork(w: Oracles, s: State, p: Pid, s': State)
    requires Inv(s) && Next(w, s, Do(p), s')
    ensures Sum(s'.pcs, Unscanned) < Sum(s.pcs, Unscanned)
            || (Sum(s'.pcs, Unscanned) == Sum(s.pcs, Unscanned) && Sum(s'.pcs, Rank) < Sum(s.pcs, Rank))
  {
    StepShrinks(w, p, s.sh, s.pcs[p], s'.sh, s'.pcs[p]);
    SumUpdate(s.pcs, Unscanned, p, s'.pcs[p]);
    SumUpdate(s.pcs, Rank, p, s'.pcs[p]);
  }

  ghost predicate AllIdle(s: State) { forall p | p in s.pcs :: s.pcs[p] == Idle }

  /** Some process takes a step. */
  ghost predicate Advances(w: Oracles, s: State, s': State) { exists p :: Next(w, s, Do(p), s') }

  /** From every state the invariant allows, process steps alone bring every operation in
      progress to its end. */
  lemma EveryOperationCanComplete(w: Oracles, s: State) returns (tail: seq<State>)
    requires Inv(s)
    ensures tail != [] && tail[0] == s && AllIdle(tail[|tail| - 1])
    ensures IsWalk(w, tail)
    decreases Sum(s.pcs, Unscanned), Sum(s.pcs, Rank)
  {
    if AllIdle(s) { return [s]; }
    var p, s' := NeverDeadlocked(w, s);
    DoKeepsInv(w, s, p, s');
    EveryStepUsesUpWork(w, s, p, s');
    var rest := EveryOperationCanComplete(w, s');
    assert Advances(w, s, s');
    OneMoveBefore(w, s, rest);
    tail := [s] + rest;
  }

  ghost predicate IsWalk(w: Oracles, tail: seq<State>) {
    forall i | 0 <= i < |tail| - 1 :: Advances(w, tail[i], tail[i + 1])
  }

  lemma OneMoveBefore(w: Oracles, s: State, rest: seq<State>)
    requires rest != [] && Advances(w, s, rest[0]) && IsWalk(w, rest)
    ensures IsWalk(w, [s] + rest) && ([s] + rest)[|rest|] == rest[|rest| - 1]
  {
    var tail := [s] + rest;
    forall i | 0 <= i < |tail| - 1 ensures Advances(w, tail[i], tail[i + 1]) {
      if i > 0 { assert tail[i] == rest[i - 1] && tail[i + 1] == rest[i]; }
    }
  }
}
