/** Resolving an artifact, on values: when a cached blob may be served, what one transfer does
    to the disk and to the byte budget, and the chain of mirror and sources. */
module Resolution {
  import opened Basics
  import opened ContentChecks
  import opened Pins
  import opened Receiving
  import opened TransferLaws
  import opened Catalog

  /** The index and the blobs together. */
  datatype Disk = Disk(index: Index, blobs: Blobs)

  /** Where publication fails, if it does: around the blob's rename or around the sidecar's. */
  datatype Fault = NoFault | BeforeBlob | AfterBlob | BeforeSidecar | AfterSidecar

  /** What `verify` reports about a key. */
  datatype Damage = Missing | WrongDigest | WrongSize

  function DamageOf(w: Oracles, blobs: Blobs, e: Entry): Option<Damage> {
    if e.digest !in blobs then Some(Missing)
    else if w.sha(blobs[e.digest]) != e.digest then Some(WrongDigest)
    else if |blobs[e.digest]| != e.bytes then Some(WrongSize)
    else None
  }

  /** Serve a cached blob only after rehashing it against its entry and validating it
      against the artifact. A missing blob or a moved pin is a miss, corruption an error. */
  function LocalHit(w: Oracles, blobs: Blobs, a: Artifact, e: Entry): Result<Option<Digest>, Error> {
    if e.digest !in blobs then Ok(None)
    else if exists pin | pin in PinnedDigests(a.check) :: pin != e.digest then Ok(None)
    else if |blobs[e.digest]| != e.bytes then Err(ContentRejected("cached blob size"))
    else if w.sha(blobs[e.digest]) != e.digest then Err(ContentRejected("cached blob digest"))
    else
      var v := Validate(w, a, blobs[e.digest], e.bytes, e.digest);
      if v.Fail? then Err(ContentRejected(v.check)) else Ok(Some(e.digest))
  }

  /** What a hit means: the held bytes hash to the entry's digest, have its length, and
      satisfy the artifact's size pin and whole check. */
  lemma HitIsGenuine(w: Oracles, blobs: Blobs, a: Artifact, e: Entry)
    ensures LocalHit(w, blobs, a, e).Ok? && LocalHit(w, blobs, a, e).value.Some? <==>
            DamageOf(w, blobs, e) == None && Genuine(w, a, blobs[e.digest])
    ensures LocalHit(w, blobs, a, e).Ok? && LocalHit(w, blobs, a, e).value.Some? ==>
            LocalHit(w, blobs, a, e).value.value == e.digest
  {
    if DamageOf(w, blobs, e) == None {
      ValidationIsGenuine(w, a, blobs[e.digest]);
    }
  }

  /** One contact with the mirror or with a source: what it does to the sink, what it
      reports about itself, and how publication of its body fares on disk. */
  datatype Attempt = Attempt(
    run: Run,
    now: nat,
    source: Option<string>,
    etag: Option<string>,
    identity: Option<string>,
    fault: Fault)

  function Contacts(mirror: Option<Attempt>, upstream: seq<Attempt>): seq<Attempt> {
    (if mirror.Some? then [mirror.value] else []) + upstream
  }

  /** Bytes the first `n` contacts tried to write. */
  function Spent(attempts: seq<Attempt>, n: nat): nat
    requires n <= |attempts|
  {
    if n == 0 then 0 else Spent(attempts, n - 1) + Attempted(attempts[n - 1].run.writes)
  }

  /** The producer reports a failed file write. */
  ghost predicate Reports(run: Run) {
    (exists i | 0 <= i < |run.writes| :: run.writes[i].fate.Short?) ==> run.end.Failed?
  }

  ghost predicate AllReport(attempts: seq<Attempt>) {
    forall t | t in attempts :: Reports(t.run)
  }

  /** The premise under which what is stored is what was hashed. */
  ghost predicate Honest(w: Oracles, attempts: seq<Attempt>) { Injective(w) && AllReport(attempts) }

  lemma {:induction false} NothingShortNothingTorn(w: Oracles, c: ContentCheck, s: Recv, ws: seq<Write>)
    requires Sound(s) && forall i | 0 <= i < |ws| :: ws[i].fate.Full?
    ensures Torn(w, c, s, ws) == 0
    decreases |ws|
  {
    if ws != [] {
      StepIsSound(w, c, s, ws[0]);
      NothingShortNothingTorn(w, c, Step(w, c, s, ws[0]).0, ws[1..]);
    }
  }

  lemma ReportingIsHonest(w: Oracles, c: ContentCheck, left: Option<nat>, run: Run)
    requires Reports(run)
    requires Outcome(w, c, left, run).Ok? && Outcome(w, c, left, run).value.Some?
    ensures var got := Outcome(w, c, left, run).value.value;
            got.digest == w.sha(got.content) && got.bytes == |got.content|
  {
    if !run.end.Failed? { NothingShortNothingTorn(w, c, Fresh(left), run.writes); }
    ArrivalIsHonest(w, c, left, run);
  }

  /** Every blob of `before` is still there, byte for byte. */
  ghost predicate Preserves(before: Blobs, after: Blobs) {
    forall d | d in before :: d in after && after[d] == before[d]
  }

  ghost predicate SameElsewhere(before: Index, after: Index, key: Key) {
    forall k | k != key :: (k in before <==> k in after) && (k in before ==> after[k] == before[k])
  }

  /** If the key's entry is not what it was, it is readable and its blob is intact. */
  ghost predicate NewEntryIsSound(w: Oracles, before: Index, index: Index, blobs: Blobs, key: Key) {
    key in index && (key !in before || index[key] != before[key]) ==>
      index[key].Readable? && DamageOf(w, blobs, index[key].entry) == None
  }

  /** The key's entry names `d`, and a later request for the artifact would be served it. */
  ghost predicate Ready(w: Oracles, index: Index, blobs: Blobs, a: Artifact, d: Digest) {
    && a.key in index && index[a.key].Readable? && index[a.key].entry.digest == d
    && LocalHit(w, blobs, a, index[a.key].entry) == Ok(Some(d))
  }

  /** A validated body at its address makes the key ready, also when an equal blob was
      already there. */
  lemma PublishedIsReady(w: Oracles, blobs: Blobs, a: Artifact, e: Entry, content: Bytes)
    requires e.digest == w.sha(content) && e.bytes == |content|
    requires Validate(w, a, content, e.bytes, e.digest).Pass?
    requires e.digest in blobs && w.sha(blobs[e.digest]) == e.digest && Injective(w)
    ensures LocalHit(w, blobs, a, e) == Ok(Some(e.digest))
  {
    assert blobs[e.digest] == content;
  }

  // ----- one transfer -----

  /** Validate, move the body to its address, write the sidecar. */
  function Publication(w: Oracles, disk: Disk, a: Artifact, got: Received, e: Entry, fault: Fault)
    : (Result<Digest, Error>, Disk)
  {
    var v := Validate(w, a, got.content, e.bytes, e.digest);
    var placed := PublishBlob(w, disk.blobs, e.digest, got.content);
    if v.Fail? then (Err(ContentRejected(v.check)), disk)
    else if fault == BeforeBlob then (Err(IoError), disk)
    else if placed == None then (Err(ContentRejected("cached blob digest")), disk)
    else
      var stored := disk.(blobs := placed.value);
      var indexed := stored.(index := disk.index[a.key := Readable(e)]);
      if fault == AfterBlob || fault == BeforeSidecar then (Err(IoError), stored)
      else (if fault == AfterSidecar then Err(IoError) else Ok(e.digest), indexed)
  }

  /** What the sidecar records about a body: digest and length as hashed, and who served it. */
  function EntryFor(got: Received, t: Attempt, layer: Layer): Entry {
    match layer
    case LocalDisk => Entry(got.digest, got.bytes, t.now, Some("local:import"), None, None, layer)
    case Mirror => Entry(got.digest, got.bytes, t.now, t.source, None, None, layer)
    case Upstream => Entry(got.digest, got.bytes, t.now, t.source, t.etag, t.identity, layer)
  }

  datatype Transferred = Transferred(r: Result<Option<Digest>, Error>, disk: Disk, left: Option<nat>)

  function Transfer(w: Oracles, disk: Disk, left: Option<nat>, a: Artifact, t: Attempt, layer: Layer): Transferred {
    var rest := Writes(w, a.check, Fresh(left), t.run.writes).left;
    var received := Outcome(w, a.check, left, t.run);
    if received.Err? then Transferred(Err(received.error), disk, rest)
    else if received.value == None then Transferred(Ok(None), disk, rest)
    else
      var got := received.value.value;
      var (r, after) := Publication(w, disk, a, got, EntryFor(got, t, layer), t.fault);
      Transferred(if r.Ok? then Ok(Some(r.value)) else Err(r.error), after, rest)
  }

  /** The disk only grew, only the key's entry may differ, and nothing was left dangling. */
  ghost predicate Grown(before: Disk, after: Disk, key: Key) {
    && Preserves(before.blobs, after.blobs) && SameElsewhere(before.index, after.index, key)
    && (NoDangling(before.index, before.blobs) ==> NoDangling(after.index, after.blobs))
  }

  lemma PublicationGrows(w: Oracles, disk: Disk, a: Artifact, got: Received, e: Entry, fault: Fault)
    ensures var (r, after) := Publication(w, disk, a, got, e, fault);
            && Grown(disk, after, a.key)
            && Total(disk.blobs) <= Total(after.blobs) <= Total(disk.blobs) + |got.content|
            && (r.Ok? ==> r.value == e.digest && a.key in after.index && after.index[a.key] == Readable(e)
                          && Validate(w, a, got.content, e.bytes, e.digest).Pass?)
  {
    if PublishBlob(w, disk.blobs, e.digest, got.content).Some? {
      PublishGrowth(w, disk.blobs, e.digest, got.content);
    }
  }

  /** A corrupt blob at the address refuses the publication and stays as it is. */
  lemma CorruptBlobIsNeverOverwritten(w: Oracles, disk: Disk, a: Artifact, got: Received, e: Entry, fault: Fault)
    requires e.digest in disk.blobs && w.sha(disk.blobs[e.digest]) != e.digest
    ensures Publication(w, disk, a, got, e, fault).0.Err? && Publication(w, disk, a, got, e, fault).1 == disk
  {
  }

  /** Whatever fails around it, a publication of an honest body never leaves an unsound entry,
      and one that succeeds makes the key ready. */
  lemma PublicationIsSound(w: Oracles, disk: Disk, a: Artifact, got: Received, e: Entry, fault: Fault)
    requires Injective(w) && e.digest == got.digest == w.sha(got.content) && e.bytes == got.bytes == |got.content|
    ensures var (r, after) := Publication(w, disk, a, got, e, fault);
            && NewEntryIsSound(w, disk.index, after.index, after.blobs, a.key)
            && (r.Ok? ==> Ready(w, after.index, after.blobs, a, r.value))
  {
    var placed := PublishBlob(w, disk.blobs, e.digest, got.content);
    if placed.Some? {
      PublishGrowth(w, disk.blobs, e.digest, got.content);
      assert placed.value[e.digest] == got.content;
      if Validate(w, a, got.content, e.bytes, e.digest).Pass? {
        PublishedIsReady(w, placed.value, a, e, got.content);
      }
    }
  }

  lemma TransferGrows(w: Oracles, disk: Disk, left: Option<nat>, a: Artifact, t: Attempt, layer: Layer)
    ensures Grown(disk, Transfer(w, disk, left, a, t, layer).disk, a.key)
  {
    var received := Outcome(w, a.check, left, t.run);
    if received.Ok? && received.value.Some? {
      var got := received.value.value;
      PublicationGrows(w, disk, a, got, EntryFor(got, t, layer), t.fault);
    }
  }

  lemma TransferIsSound(w: Oracles, disk: Disk, left: Option<nat>, a: Artifact, t: Attempt, layer: Layer)
    requires Injective(w) && Reports(t.run)
    ensures var after := Transfer(w, disk, left, a, t, layer);
            && NewEntryIsSound(w, disk.index, after.disk.index, after.disk.blobs, a.key)
            && (after.r.Ok? && after.r.value.Some? ==>
                  Ready(w, after.disk.index, after.disk.blobs, a, after.r.value.value))
  {
    var received := Outcome(w, a.check, left, t.run);
    if received.Ok? && received.value.Some? {
      var got := received.value.value;
      ReportingIsHonest(w, a.check, left, t.run);
      PublicationIsSound(w, disk, a, got, EntryFor(got, t, layer), t.fault);
    }
  }

  /** On success the sidecar says who served the body. */
  lemma TransferIsRecorded(w: Oracles, disk: Disk, left: Option<nat>, a: Artifact, t: Attempt, layer: Layer)
    ensures var after := Transfer(w, disk, left, a, t, layer);
            after.r.Ok? && after.r.value.Some? ==> RecordedBy(after.disk.index, a.key, after.r.value.value, t, layer)
  {
    var received := Outcome(w, a.check, left, t.run);
    if received.Ok? && received.value.Some? {
      var got := received.value.value;
      PublicationGrows(w, disk, a, got, EntryFor(got, t, layer), t.fault);
    }
  }

  ghost predicate RecordedBy(index: Index, key: Key, d: Digest, t: Attempt, layer: Layer) {
    && key in index && index[key].Readable?
    && var e := index[key].entry;
       && e.digest == d && e.layer == layer && e.fetchedAt == t.now
       && (layer == LocalDisk ==> e.source == Some("local:import") && e.etag == None && e.providerIdentity == None)
       && (layer == Mirror ==> e.source == t.source && e.etag == None && e.providerIdentity == None)
       && (layer == Upstream ==> e.source == t.source && e.etag == t.etag && e.providerIdentity == t.identity)
  }

  /** What was stored is covered by what was charged. */
  ghost predicate Covered(before: Disk, left: Option<nat>, after: Disk, rest: Option<nat>) {
    && (left == None ==> rest == None)
    && (left.Some? ==> rest.Some? && rest.value <= left.value
                       && Total(after.blobs) + rest.value <= Total(before.blobs) + left.value)
  }

  lemma {:induction false} NoBudgetStays(w: Oracles, c: ContentCheck, s: Recv, ws: seq<Write>)
    requires Sound(s) && s.left == None
    ensures Writes(w, c, s, ws).left == None
    decreases |ws|
  {
    if ws != [] {
      StepIsSound(w, c, s, ws[0]);
      NoBudgetStays(w, c, Receiving.Step(w, c, s, ws[0]).0, ws[1..]);
    }
  }

  /** One transfer stores no more than it charges. */
  lemma TransferIsCovered(w: Oracles, disk: Disk, left: Option<nat>, a: Artifact, t: Attempt, layer: Layer)
    ensures var after := Transfer(w, disk, left, a, t, layer);
            Covered(disk, left, after.disk, after.left)
  {
    if left.Some? {
      BudgetLedger(w, a.check, Fresh(left), t.run.writes);
    } else {
      NoBudgetStays(w, a.check, Fresh(left), t.run.writes);
    }
    var received := Outcome(w, a.check, left, t.run);
    if received.Ok? && received.value.Some? {
      var got := received.value.value;
      PublicationGrows(w, disk, a, got, EntryFor(got, t, layer), t.fault);
    }
  }

  /** A publication has errors of its own. */
  lemma PublicationNeverReportsTheLimit(w: Oracles, disk: Disk, a: Artifact, got: Received, e: Entry, fault: Fault)
    ensures Publication(w, disk, a, got, e, fault).0 != Err(TransferLimit)
  {
  }

  /** The receiver reports the limit exactly when it was crossed or the producer reports it. */
  lemma OutcomeReportsTheLimit(w: Oracles, c: ContentCheck, left: Option<nat>, run: Run)
    ensures Outcome(w, c, left, run) == Err(TransferLimit) <==>
            (left.Some? && Attempted(run.writes) > left.value) || run.end == Failed(TransferLimit)
  {
    if left.Some? {
      LimitIsExact(w, c, left.value, run);
    } else {
      UnlimitedNeverExceeds(w, c, Fresh(left), run.writes);
    }
  }

  /** Below the limit a transfer is charged what it wrote, and it ends in TransferLimit exactly
      when it tried to write more than was left, whatever the producer made of that, or the
      producer reports that very error itself. */
  lemma TransferReportsTheLimit(w: Oracles, disk: Disk, left: Option<nat>, a: Artifact, t: Attempt, layer: Layer)
    ensures var after := Transfer(w, disk, left, a, t, layer);
            && (left.Some? && Attempted(t.run.writes) <= left.value ==>
                  after.left == Some(left.value - Attempted(t.run.writes)))
            && (after.r == Err(TransferLimit) <==>
                  (left.Some? && Attempted(t.run.writes) > left.value) || t.run.end == Failed(TransferLimit))
  {
    if left.Some? {
      BudgetLedger(w, a.check, Fresh(left), t.run.writes);
    }
    OutcomeReportsTheLimit(w, a.check, left, t.run);
    var received := Outcome(w, a.check, left, t.run);
    if received.Ok? && received.value.Some? {
      var got := received.value.value;
      PublicationNeverReportsTheLimit(w, disk, a, got, EntryFor(got, t, layer), t.fault);
    }
  }

  // ----- the chain of contacts -----

  /** How a resolution ends, and how many contacts were made by then. */
  datatype Resolved = Resolved(r: Result<Digest, Error>, disk: Disk, left: Option<nat>, tried: nat)

  /** The failures of a source that are not followed by the next source. */
  predicate Final(e: Error, sources: nat) {
    e == TransferLimit || ((e.ContentRejected? || e.NoCredential? || e.CredentialRejected?) && sources == 1)
  }

  /** The sources from contact `n` on. */
  function Sources(w: Oracles, disk: Disk, left: Option<nat>, a: Artifact, contacts: seq<Attempt>, n: nat): Resolved
    requires n <= |contacts|
    decreases |contacts| - n
  {
    if n == |contacts| then Resolved(Err(AllSourcesFailed), disk, left, n)
    else
      var t := Transfer(w, disk, left, a, contacts[n], Upstream);
      if t.r.Ok? && t.r.value.Some? then Resolved(Ok(t.r.value.value), t.disk, t.left, n + 1)
      else if t.r.Err? && Final(t.r.error, |a.sources|) then Resolved(Err(t.r.error), t.disk, t.left, n + 1)
      else Sources(w, t.disk, t.left, a, contacts, n + 1)
  }

  /** After the mirror. */
  function FromSources(w: Oracles, allowUpstream: bool, disk: Disk, left: Option<nat>, a: Artifact,
                       contacts: seq<Attempt>, n: nat): Resolved
    requires n <= |contacts|
  {
    if a.sources == [] then Resolved(Err(ManualRequired), disk, left, n)
    else if !allowUpstream then Resolved(Err(MirrorUnreachable), disk, left, n)
    else Sources(w, disk, left, a, contacts, n)
  }

  /** Only a body, a rejected body or the byte limit of the mirror settles the matter. */
  function Remote(w: Oracles, allowUpstream: bool, disk: Disk, left: Option<nat>, a: Artifact,
                  mirror: Option<Attempt>, upstream: seq<Attempt>): Resolved
  {
    var contacts := Contacts(mirror, upstream);
    if mirror == None then FromSources(w, allowUpstream, disk, left, a, contacts, 0)
    else
      var t := Transfer(w, disk, left, a, mirror.value, Mirror);
      if t.r.Ok? && t.r.value.Some? then Resolved(Ok(t.r.value.value), t.disk, t.left, 1)
      else if t.r.Err? && (t.r.error.ContentRejected? || t.r.error == TransferLimit) then
        Resolved(Err(t.r.error), t.disk, t.left, 1)
      else FromSources(w, allowUpstream, t.disk, t.left, a, contacts, 1)
  }

  /** The local layer: `None` is a miss. */
  function Local(w: Oracles, disk: Disk, left: Option<nat>, a: Artifact): Option<Result<Digest, Error>> {
    if a.key !in disk.index then None
    else if disk.index[a.key].Malformed? then Some(Err(IoError))
    else
      var e := disk.index[a.key].entry;
      var hit := LocalHit(w, disk.blobs, a, e);
      if hit.Err? then Some(Err(hit.error))
      else if hit.value == None then None
      else if left.Some? && e.bytes > left.value then Some(Err(TransferLimit))
      else Some(Ok(hit.value.value))
  }

  function Resolve(w: Oracles, offline: bool, allowUpstream: bool, disk: Disk, left: Option<nat>, a: Artifact,
                   mirror: Option<Attempt>, upstream: seq<Attempt>): Resolved
  {
    var local := Local(w, disk, left, a);
    if local.Some? then Resolved(local.value, disk, left, 0)
    else if offline then Resolved(Err(OfflineMiss), disk, left, 0)
    else Remote(w, allowUpstream, disk, left, a, mirror, upstream)
  }

  // ----- what a resolution keeps -----

  lemma GrownTwice(a: Disk, b: Disk, c: Disk, key: Key)
    requires Grown(a, b, key) && Grown(b, c, key)
    ensures Grown(a, c, key)
  {
  }

  lemma SoundTwice(w: Oracles, a: Disk, b: Disk, c: Disk, key: Key)
    requires Grown(b, c, key) && NewEntryIsSound(w, a.index, b.index, b.blobs, key)
    requires NewEntryIsSound(w, b.index, c.index, c.blobs, key)
    ensures NewEntryIsSound(w, a.index, c.index, c.blobs, key)
  {
  }

  /** The chain stops with this transfer. */
  predicate Stops(t: Transferred, sources: nat) {
    (t.r.Ok? && t.r.value.Some?) || (t.r.Err? && Final(t.r.error, sources))
  }

  lemma SourcesUnfold(w: Oracles, disk: Disk, left: Option<nat>, a: Artifact, contacts: seq<Attempt>, n: nat)
    requires n < |contacts|
    ensures var t, after := Transfer(w, disk, left, a, contacts[n], Upstream), Sources(w, disk, left, a, contacts, n);
            if Stops(t, |a.sources|)
            then && after.tried == n + 1 && after.disk == t.disk
                 && (after.r == Err(TransferLimit) <==> t.r == Err(TransferLimit))
            else t.r != Err(TransferLimit) && after == Sources(w, t.disk, t.left, a, contacts, n + 1)
  {
  }

  lemma {:induction false} SourcesGrow(w: Oracles, disk: Disk, left: Option<nat>, a: Artifact,
                                       contacts: seq<Attempt>, n: nat)
    requires n <= |contacts|
    ensures var after := Sources(w, disk, left, a, contacts, n);
            Grown(disk, after.disk, a.key) && n <= after.tried <= |contacts|
    decreases |contacts| - n
  {
    if n < |contacts| {
      var t, after := Transfer(w, disk, left, a, contacts[n], Upstream), Sources(w, disk, left, a, contacts, n);
      TransferGrows(w, disk, left, a, contacts[n], Upstream);
      SourcesUnfold(w, disk, left, a, contacts, n);
      if !Stops(t, |a.sources|) {
        SourcesGrow(w, t.disk, t.left, a, contacts, n + 1);
        GrownTwice(disk, t.disk, after.disk, a.key);
      }
    }
  }

  /** However a resolution ends, every blob keeps its bytes, no other entry changes, no key is
      left dangling, and no more contacts are made than there are; offline, and with a mirror
      alone where upstream is not allowed, none beyond those. */
  lemma ResolutionGrows(w: Oracles, offline: bool, allow: bool, disk: Disk, left: Option<nat>, a: Artifact,
                        mirror: Option<Attempt>, upstream: seq<Attempt>)
    ensures var after := Resolve(w, offline, allow, disk, left, a, mirror, upstream);
            && Grown(disk, after.disk, a.key) && after.tried <= |Contacts(mirror, upstream)|
            && (offline ==> after.tried == 0 && after.disk == disk)
            && (!allow ==> after.tried <= |Contacts(mirror, [])|)
  {
    var contacts := Contacts(mirror, upstream);
    if mirror == None {
      SourcesGrow(w, disk, left, a, contacts, 0);
    } else {
      var t := Transfer(w, disk, left, a, mirror.value, Mirror);
      TransferGrows(w, disk, left, a, mirror.value, Mirror);
      SourcesGrow(w, t.disk, t.left, a, contacts, 1);
      GrownTwice(disk, t.disk, Sources(w, t.disk, t.left, a, contacts, 1).disk, a.key);
    }
  }

  lemma {:induction false} SourcesAreSound(w: Oracles, disk: Disk, left: Option<nat>, a: Artifact,
                                           contacts: seq<Attempt>, n: nat)
    requires n <= |contacts| && Honest(w, contacts)
    ensures var after := Sources(w, disk, left, a, contacts, n);
            && NewEntryIsSound(w, disk.index, after.disk.index, after.disk.blobs, a.key)
            && (after.r.Ok? ==> Ready(w, after.disk.index, after.disk.blobs, a, after.r.value))
    decreases |contacts| - n
  {
    if n < |contacts| {
      var t := Transfer(w, disk, left, a, contacts[n], Upstream);
      TransferIsSound(w, disk, left, a, contacts[n], Upstream);
      SourcesGrow(w, t.disk, t.left, a, contacts, n + 1);
      SourcesAreSound(w, t.disk, t.left, a, contacts, n + 1);
      SoundTwice(w, disk, t.disk, Sources(w, t.disk, t.left, a, contacts, n + 1).disk, a.key);
    }
  }

  lemma RemoteIsSound(w: Oracles, allow: bool, disk: Disk, left: Option<nat>, a: Artifact,
                      mirror: Option<Attempt>, upstream: seq<Attempt>)
    requires Honest(w, Contacts(mirror, upstream))
    ensures var after := Remote(w, allow, disk, left, a, mirror, upstream);
            && NewEntryIsSound(w, disk.index, after.disk.index, after.disk.blobs, a.key)
            && (after.r.Ok? ==> Ready(w, after.disk.index, after.disk.blobs, a, after.r.value))
  {
    var contacts := Contacts(mirror, upstream);
    if mirror == None {
      SourcesAreSound(w, disk, left, a, contacts, 0);
    } else {
      var t := Transfer(w, disk, left, a, mirror.value, Mirror);
      assert contacts[0] == mirror.value;
      TransferIsSound(w, disk, left, a, mirror.value, Mirror);
      SourcesGrow(w, t.disk, t.left, a, contacts, 1);
      SourcesAreSound(w, t.disk, t.left, a, contacts, 1);
      SoundTwice(w, disk, t.disk, Sources(w, t.disk, t.left, a, contacts, 1).disk, a.key);
    }
  }

  /** A ready key is served without contacting anyone, and nothing else is; a limit below its
      length refuses it. */
  lemma ReadyKeyContactsNobody(w: Oracles, offline: bool, allow: bool, disk: Disk, left: Option<nat>, a: Artifact,
                               mirror: Option<Attempt>, upstream: seq<Attempt>)
    ensures forall d | Ready(w, disk.index, disk.blobs, a, d) ::
              Resolve(w, offline, allow, disk, left, a, mirror, upstream) ==
              Resolved(if left.Some? && disk.index[a.key].entry.bytes > left.value then Err(TransferLimit) else Ok(d),
                       disk, left, 0)
    ensures Local(w, disk, left, a).Some? && Local(w, disk, left, a).value.Ok? ==>
              Ready(w, disk.index, disk.blobs, a, Local(w, disk, left, a).value.value)
  {
    if a.key in disk.index && disk.index[a.key].Readable? {
      HitIsGenuine(w, disk.blobs, a, disk.index[a.key].entry);
    }
  }

  /** Whatever is returned is ready to be served again, and no resolution, also a failing one,
      leaves an entry of its own that is damaged. */
  lemma ResolvedIsReady(w: Oracles, offline: bool, allow: bool, disk: Disk, left: Option<nat>, a: Artifact,
                        mirror: Option<Attempt>, upstream: seq<Attempt>)
    requires Honest(w, Contacts(mirror, upstream))
    ensures var after := Resolve(w, offline, allow, disk, left, a, mirror, upstream);
            && NewEntryIsSound(w, disk.index, after.disk.index, after.disk.blobs, a.key)
            && (after.r.Ok? ==> Ready(w, after.disk.index, after.disk.blobs, a, after.r.value))
  {
    ReadyKeyContactsNobody(w, offline, allow, disk, left, a, mirror, upstream);
    RemoteIsSound(w, allow, disk, left, a, mirror, upstream);
  }

  // ----- one budget over all contacts -----

  lemma CoveredTwice(a: Disk, left: Option<nat>, b: Disk, mid: Option<nat>, c: Disk, rest: Option<nat>)
    requires Covered(a, left, b, mid) && Covered(b, mid, c, rest)
    ensures Covered(a, left, c, rest)
  {
  }

  lemma {:induction false} SourcesAreCovered(w: Oracles, disk: Disk, left: Option<nat>, a: Artifact,
                                             contacts: seq<Attempt>, n: nat)
    requires n <= |contacts|
    ensures var after := Sources(w, disk, left, a, contacts, n); Covered(disk, left, after.disk, after.left)
    decreases |contacts| - n
  {
    if n < |contacts| {
      var t := Transfer(w, disk, left, a, contacts[n], Upstream);
      TransferIsCovered(w, disk, left, a, contacts[n], Upstream);
      SourcesAreCovered(w, t.disk, t.left, a, contacts, n + 1);
    }
  }

  /** Over a whole resolution the store grows by at most what the budget lost, and the budget
      is never refunded. */
  lemma ResolutionIsCovered(w: Oracles, offline: bool, allow: bool, disk: Disk, left: Option<nat>, a: Artifact,
                            mirror: Option<Attempt>, upstream: seq<Attempt>)
    ensures var after := Resolve(w, offline, allow, disk, left, a, mirror, upstream);
            Covered(disk, left, after.disk, after.left)
  {
    var contacts := Contacts(mirror, upstream);
    if mirror == None {
      SourcesAreCovered(w, disk, left, a, contacts, 0);
    } else {
      var t := Transfer(w, disk, left, a, mirror.value, Mirror);
      TransferIsCovered(w, disk, left, a, mirror.value, Mirror);
      SourcesAreCovered(w, t.disk, t.left, a, contacts, 1);
      CoveredTwice(disk, left, t.disk, t.left, Sources(w, t.disk, t.left, a, contacts, 1).disk,
                   Sources(w, t.disk, t.left, a, contacts, 1).left);
    }
  }

  /** The writer after the first `n` contacts, each starting a new temp file on what is left. */
  function AfterContacts(w: Oracles, c: ContentCheck, left: Option<nat>, contacts: seq<Attempt>, n: nat): (r: Recv)
    requires n <= |contacts|
    ensures Sound(r)
  {
    if n == 0 then Fresh(left)
    else Writes(w, c, Fresh(AfterContacts(w, c, left, contacts, n - 1).left), contacts[n - 1].run.writes)
  }

  /** Bytes those contacts put into temp files, rejected bodies and torn writes included. */
  function TempWritten(w: Oracles, c: ContentCheck, left: Option<nat>, contacts: seq<Attempt>, n: nat): nat
    requires n <= |contacts|
  {
    if n == 0 then 0
    else TempWritten(w, c, left, contacts, n - 1) + |AfterContacts(w, c, left, contacts, n).file|
  }

  /** Whatever the contacts do, all their temp files together and what is left of the budget
      never exceed the limit. */
  lemma {:induction false} TempFilesStayWithinLimit(w: Oracles, c: ContentCheck, limit: nat, contacts: seq<Attempt>,
                                                    n: nat)
    requires n <= |contacts|
    ensures var after := AfterContacts(w, c, Some(limit), contacts, n);
            after.left.Some? && TempWritten(w, c, Some(limit), contacts, n) + after.left.value <= limit
  {
    if n > 0 {
      TempFilesStayWithinLimit(w, c, limit, contacts, n - 1);
      BudgetLedger(w, c, Fresh(AfterContacts(w, c, Some(limit), contacts, n - 1).left), contacts[n - 1].run.writes);
    }
  }

  lemma TransferWrites(w: Oracles, disk: Disk, left: Option<nat>, start: Option<nat>, a: Artifact,
                       contacts: seq<Attempt>, n: nat, layer: Layer)
    requires n < |contacts| && left == AfterContacts(w, a.check, start, contacts, n).left
    ensures Transfer(w, disk, left, a, contacts[n], layer).left
         == AfterContacts(w, a.check, start, contacts, n + 1).left
  {
  }

  lemma {:induction false} SourcesWrite(w: Oracles, disk: Disk, left: Option<nat>, start: Option<nat>, a: Artifact,
                                       contacts: seq<Attempt>, n: nat)
    requires n <= |contacts| && left == AfterContacts(w, a.check, start, contacts, n).left
    ensures var after := Sources(w, disk, left, a, contacts, n);
            after.tried <= |contacts| && after.left == AfterContacts(w, a.check, start, contacts, after.tried).left
    decreases |contacts| - n
  {
    if n < |contacts| {
      var t, after := Transfer(w, disk, left, a, contacts[n], Upstream), Sources(w, disk, left, a, contacts, n);
      TransferWrites(w, disk, left, start, a, contacts, n, Upstream);
      if (t.r.Ok? && t.r.value.Some?) || (t.r.Err? && Final(t.r.error, |a.sources|)) {
        assert after.tried == n + 1 && after.left == t.left;
      } else {
        SourcesWrite(w, t.disk, t.left, start, a, contacts, n + 1);
        assert after == Sources(w, t.disk, t.left, a, contacts, n + 1);
      }
    }
  }

  /** The budget a resolution ends with is what its contacts, in order, left of it. */
  lemma ResolutionWrites(w: Oracles, offline: bool, allow: bool, disk: Disk, left: Option<nat>, a: Artifact,
                         mirror: Option<Attempt>, upstream: seq<Attempt>)
    ensures var contacts := Contacts(mirror, upstream);
            var after := Resolve(w, offline, allow, disk, left, a, mirror, upstream);
            after.tried <= |contacts| && after.left == AfterContacts(w, a.check, left, contacts, after.tried).left
  {
    var contacts := Contacts(mirror, upstream);
    assert AfterContacts(w, a.check, left, contacts, 0).left == left;
    if mirror == None {
      SourcesWrite(w, disk, left, left, a, contacts, 0);
    } else {
      var t := Transfer(w, disk, left, a, mirror.value, Mirror);
      assert contacts[0] == mirror.value;
      TransferWrites(w, disk, left, left, a, contacts, 0, Mirror);
      SourcesWrite(w, t.disk, t.left, left, a, contacts, 1);
    }
  }

  /** The cumulative limit: in one limited resolution the bytes written to temp files over the
      mirror attempt and every source attempt, successful or not, sum to at most the limit. */
  lemma WritesStayWithinLimit(w: Oracles, offline: bool, allow: bool, disk: Disk, limit: nat, a: Artifact,
                              mirror: Option<Attempt>, upstream: seq<Attempt>)
    ensures var contacts := Contacts(mirror, upstream);
            var after := Resolve(w, offline, allow, disk, Some(limit), a, mirror, upstream);
            && after.tried <= |contacts| && after.left.Some?
            && TempWritten(w, a.check, Some(limit), contacts, after.tried) + after.left.value <= limit
  {
    ResolutionWrites(w, offline, allow, disk, Some(limit), a, mirror, upstream);
    var after := Resolve(w, offline, allow, disk, Some(limit), a, mirror, upstream);
    TempFilesStayWithinLimit(w, a.check, limit, Contacts(mirror, upstream), after.tried);
  }

  /** The contacts crossed the limit, or the last of them reports TransferLimit itself. */
  ghost predicate Crossed(contacts: seq<Attempt>, n: nat, limit: nat)
    requires n <= |contacts|
  {
    Spent(contacts, n) > limit || (n > 0 && contacts[n - 1].run.end == Failed(TransferLimit))
  }

  /** A transfer on what `n` contacts left of a limit. */
  lemma TransferSpends(w: Oracles, disk: Disk, limit: nat, a: Artifact, contacts: seq<Attempt>, n: nat, layer: Layer)
    requires n < |contacts| && Spent(contacts, n) <= limit
    ensures var t := Transfer(w, disk, Some(limit - Spent(contacts, n)), a, contacts[n], layer);
            && (t.r == Err(TransferLimit) <==> Crossed(contacts, n + 1, limit))
            && (!Crossed(contacts, n + 1, limit) ==> t.left == Some(limit - Spent(contacts, n + 1)))
  {
    TransferReportsTheLimit(w, disk, Some(limit - Spent(contacts, n)), a, contacts[n], layer);
  }

  /** The outcome reports TransferLimit exactly when its contacts crossed the limit. */
  ghost predicate Reckons(after: Resolved, contacts: seq<Attempt>, limit: nat) {
    after.tried <= |contacts| && (after.r == Err(TransferLimit) <==> Crossed(contacts, after.tried, limit))
  }

  lemma {:induction false} SourcesSpend(w: Oracles, disk: Disk, left: Option<nat>, limit: nat, a: Artifact,
                                       contacts: seq<Attempt>, n: nat)
    requires n <= |contacts| && !Crossed(contacts, n, limit) && left == Some(limit - Spent(contacts, n))
    ensures Reckons(Sources(w, disk, left, a, contacts, n), contacts, limit)
    decreases |contacts| - n
  {
    if n < |contacts| {
      var t := Transfer(w, disk, left, a, contacts[n], Upstream);
      TransferSpends(w, disk, limit, a, contacts, n, Upstream);
      SourcesUnfold(w, disk, left, a, contacts, n);
      if !Stops(t, |a.sources|) { SourcesSpend(w, t.disk, t.left, limit, a, contacts, n + 1); }
    }
  }

  lemma FromSourcesSpend(w: Oracles, allow: bool, disk: Disk, left: Option<nat>, limit: nat, a: Artifact,
                         contacts: seq<Attempt>, n: nat)
    requires n <= |contacts| && !Crossed(contacts, n, limit) && left == Some(limit - Spent(contacts, n))
    ensures Reckons(FromSources(w, allow, disk, left, a, contacts, n), contacts, limit)
  {
    SourcesSpend(w, disk, left, limit, a, contacts, n);
  }

  lemma MirrorSpends(w: Oracles, allow: bool, disk: Disk, limit: nat, a: Artifact,
                     mirror: Attempt, upstream: seq<Attempt>)
    ensures Reckons(Remote(w, allow, disk, Some(limit), a, Some(mirror), upstream),
                    Contacts(Some(mirror), upstream), limit)
  {
    var contacts := Contacts(Some(mirror), upstream);
    var t := Transfer(w, disk, Some(limit), a, mirror, Mirror);
    assert contacts[0] == mirror && Spent(contacts, 0) == 0;
    TransferSpends(w, disk, limit, a, contacts, 0, Mirror);
    if !Crossed(contacts, 1, limit) { FromSourcesSpend(w, allow, t.disk, t.left, limit, a, contacts, 1); }
  }

  lemma RemoteSpends(w: Oracles, allow: bool, disk: Disk, limit: nat, a: Artifact,
                     mirror: Option<Attempt>, upstream: seq<Attempt>)
    ensures Reckons(Remote(w, allow, disk, Some(limit), a, mirror, upstream), Contacts(mirror, upstream), limit)
  {
    if mirror == None {
      FromSourcesSpend(w, allow, disk, Some(limit), limit, a, Contacts(None, upstream), 0);
    } else {
      MirrorSpends(w, allow, disk, limit, a, mirror.value, upstream);
    }
  }

  /** The limit is cumulative: a resolution that contacted anyone ends in TransferLimit exactly
      when the mirror and the sources it tried wrote more than the limit together, or the last
      of them reports that error itself. Nothing is asked of the producers. */
  lemma LimitIsCumulative(w: Oracles, offline: bool, allow: bool, disk: Disk, limit: nat, a: Artifact,
                          mirror: Option<Attempt>, upstream: seq<Attempt>)
    ensures var contacts := Contacts(mirror, upstream);
            var after := Resolve(w, offline, allow, disk, Some(limit), a, mirror, upstream);
            && after.tried <= |contacts|
            && (after.tried > 0 ==> (after.r == Err(TransferLimit) <==> Crossed(contacts, after.tried, limit)))
  {
    RemoteSpends(w, allow, disk, limit, a, mirror, upstream);
  }

  // ----- what an outcome says -----

  /** How an attempt at the sources may end after contact `n`. */
  predicate EndsAsSources(after: Resolved, sources: nat, contacts: nat) {
    && after.tried <= contacts
    && (after.r.Err? ==> after.r.error == AllSourcesFailed || Final(after.r.error, sources))
    && (after.r == Err(AllSourcesFailed) ==> after.tried == contacts)
  }

  lemma {:induction false} SourcesReport(w: Oracles, disk: Disk, left: Option<nat>, a: Artifact,
                                         contacts: seq<Attempt>, n: nat)
    requires n <= |contacts|
    ensures EndsAsSources(Sources(w, disk, left, a, contacts, n), |a.sources|, |contacts|)
    decreases |contacts| - n
  {
    if n < |contacts| {
      var t, after := Transfer(w, disk, left, a, contacts[n], Upstream), Sources(w, disk, left, a, contacts, n);
      if (t.r.Ok? && t.r.value.Some?) || (t.r.Err? && Final(t.r.error, |a.sources|)) {
        assert after.tried == n + 1;
      } else {
        SourcesReport(w, t.disk, t.left, a, contacts, n + 1);
        assert after == Sources(w, t.disk, t.left, a, contacts, n + 1);
      }
    }
  }

  lemma {:induction false} SourcesRecord(w: Oracles, disk: Disk, left: Option<nat>, a: Artifact,
                                         contacts: seq<Attempt>, n: nat)
    requires n <= |contacts| && Sources(w, disk, left, a, contacts, n).r.Ok?
    ensures var after := Sources(w, disk, left, a, contacts, n);
            && n < after.tried <= |contacts|
            && RecordedBy(after.disk.index, a.key, after.r.value, contacts[after.tried - 1], Upstream)
    decreases |contacts| - n
  {
    var t := Transfer(w, disk, left, a, contacts[n], Upstream);
    if t.r.Ok? && t.r.value.Some? {
      TransferIsRecorded(w, disk, left, a, contacts[n], Upstream);
    } else {
      SourcesRecord(w, t.disk, t.left, a, contacts, n + 1);
    }
  }

  /** A body that was fetched is recorded under the last contact made. */
  ghost predicate Records(after: Resolved, a: Artifact, mirror: Option<Attempt>, upstream: seq<Attempt>) {
    var contacts := Contacts(mirror, upstream);
    after.r.Ok? ==>
      && 0 < after.tried <= |contacts|
      && var layer := if mirror.Some? && after.tried == 1 then Mirror else Upstream;
         RecordedBy(after.disk.index, a.key, after.r.value, contacts[after.tried - 1], layer)
  }

  /** Giving up on all sources means that all were tried; an instruction to obtain the file by
      hand means there are no sources; credential errors mean there is a single one. */
  ghost predicate Tells(after: Resolved, allow: bool, a: Artifact, mirror: Option<Attempt>, upstream: seq<Attempt>) {
    var contacts, asked := |Contacts(mirror, upstream)|, |Contacts(mirror, [])|;
    && after.tried <= contacts && after.r != Err(OfflineMiss)
    && (after.r == Err(AllSourcesFailed) ==> after.tried == contacts && a.sources != [] && allow)
    && (after.r == Err(ManualRequired) ==> after.tried == asked && a.sources == [])
    && (after.r == Err(MirrorUnreachable) ==> after.tried == asked && a.sources != [] && !allow)
    && (after.r == Err(NoCredential) || after.r == Err(CredentialRejected) ==> |a.sources| == 1)
  }

  lemma RemoteRecords(w: Oracles, allow: bool, disk: Disk, left: Option<nat>, a: Artifact,
                      mirror: Option<Attempt>, upstream: seq<Attempt>)
    ensures Records(Remote(w, allow, disk, left, a, mirror, upstream), a, mirror, upstream)
  {
    var contacts := Contacts(mirror, upstream);
    if mirror == None {
      if Sources(w, disk, left, a, contacts, 0).r.Ok? { SourcesRecord(w, disk, left, a, contacts, 0); }
    } else {
      var t := Transfer(w, disk, left, a, mirror.value, Mirror);
      assert contacts[0] == mirror.value;
      TransferIsRecorded(w, disk, left, a, mirror.value, Mirror);
      if Sources(w, t.disk, t.left, a, contacts, 1).r.Ok? { SourcesRecord(w, t.disk, t.left, a, contacts, 1); }
    }
  }

  lemma RemoteTells(w: Oracles, allow: bool, disk: Disk, left: Option<nat>, a: Artifact,
                    mirror: Option<Attempt>, upstream: seq<Attempt>)
    ensures Tells(Remote(w, allow, disk, left, a, mirror, upstream), allow, a, mirror, upstream)
  {
    var contacts := Contacts(mirror, upstream);
    if mirror == None {
      SourcesReport(w, disk, left, a, contacts, 0);
    } else {
      var t := Transfer(w, disk, left, a, mirror.value, Mirror);
      SourcesReport(w, t.disk, t.left, a, contacts, 1);
    }
  }

  /** A miss ends telling in one of these ways, or offline in `OfflineMiss` and only then. */
  lemma OutcomesAreTelling(w: Oracles, offline: bool, allow: bool, disk: Disk, left: Option<nat>, a: Artifact,
                           mirror: Option<Attempt>, upstream: seq<Attempt>)
    requires Local(w, disk, left, a) == None
    ensures var after := Resolve(w, offline, allow, disk, left, a, mirror, upstream);
            if offline then after == Resolved(Err(OfflineMiss), disk, left, 0)
            else Records(after, a, mirror, upstream) && Tells(after, allow, a, mirror, upstream)
  {
    RemoteRecords(w, allow, disk, left, a, mirror, upstream);
    RemoteTells(w, allow, disk, left, a, mirror, upstream);
  }

  // ----- metadata of what was resolved -----

  /** The key's entry is that of `d`, and is metadata the server accepts for the artifact. */
  ghost predicate Presentable(index: Index, a: Artifact, d: Digest) {
    && a.key in index && index[a.key].Readable? && index[a.key].entry.digest == d
    && MetadataAgrees(a, d, index[a.key].entry.bytes)
  }

  lemma TransferIsPresentable(w: Oracles, disk: Disk, left: Option<nat>, a: Artifact, t: Attempt, layer: Layer)
    requires Reports(t.run)
    ensures var after := Transfer(w, disk, left, a, t, layer);
            after.r.Ok? && after.r.value.Some? ==> Presentable(after.disk.index, a, after.r.value.value)
  {
    var received := Outcome(w, a.check, left, t.run);
    if received.Ok? && received.value.Some? {
      var got := received.value.value;
      ReportingIsHonest(w, a.check, left, t.run);
      PublicationGrows(w, disk, a, got, EntryFor(got, t, layer), t.fault);
      if Genuine(w, a, got.content) { GenuineMetadataAgrees(w, a, got.content); }
      ValidationIsGenuine(w, a, got.content);
    }
  }

  lemma {:induction false} SourcesArePresentable(w: Oracles, disk: Disk, left: Option<nat>, a: Artifact,
                                                contacts: seq<Attempt>, n: nat)
    requires n <= |contacts| && AllReport(contacts)
    ensures var after := Sources(w, disk, left, a, contacts, n);
            after.r.Ok? ==> Presentable(after.disk.index, a, after.r.value)
    decreases |contacts| - n
  {
    if n < |contacts| {
      var t := Transfer(w, disk, left, a, contacts[n], Upstream);
      TransferIsPresentable(w, disk, left, a, contacts[n], Upstream);
      SourcesArePresentable(w, t.disk, t.left, a, contacts, n + 1);
    }
  }

  /** Whatever a resolution returns has a sidecar the server's metadata test accepts; this asks
      nothing of the hash. */
  lemma ResolvedIsPresentable(w: Oracles, offline: bool, allow: bool, disk: Disk, left: Option<nat>, a: Artifact,
                              mirror: Option<Attempt>, upstream: seq<Attempt>)
    requires AllReport(Contacts(mirror, upstream))
    ensures var after := Resolve(w, offline, allow, disk, left, a, mirror, upstream);
            after.r.Ok? ==> Presentable(after.disk.index, a, after.r.value)
  {
    var contacts := Contacts(mirror, upstream);
    if Local(w, disk, left, a).Some? {
      LocalIsPresentable(w, disk, left, a);
    } else if mirror == None {
      SourcesArePresentable(w, disk, left, a, contacts, 0);
    } else {
      var t := Transfer(w, disk, left, a, mirror.value, Mirror);
      assert contacts[0] == mirror.value;
      TransferIsPresentable(w, disk, left, a, mirror.value, Mirror);
      SourcesArePresentable(w, t.disk, t.left, a, contacts, 1);
    }
  }

  lemma LocalIsPresentable(w: Oracles, disk: Disk, left: Option<nat>, a: Artifact)
    ensures var local := Local(w, disk, left, a);
            local.Some? && local.value.Ok? ==> Presentable(disk.index, a, local.value.value)
  {
    if a.key in disk.index && disk.index[a.key].Readable? {
      var e := disk.index[a.key].entry;
      HitIsGenuine(w, disk.blobs, a, e);
      if DamageOf(w, disk.blobs, e) == None && Genuine(w, a, disk.blobs[e.digest]) {
        GenuineMetadataAgrees(w, a, disk.blobs[e.digest]);
      }
    }
  }

  // ----- why repair is explicit -----

  /** The address `d` holds bytes that do not hash to it. */
  predicate CorruptAt(w: Oracles, blobs: Blobs, d: Digest) { d in blobs && w.sha(blobs[d]) != d }

  lemma TransferCannotPassCorruption(w: Oracles, disk: Disk, left: Option<nat>, a: Artifact, t: Attempt,
                                     layer: Layer, d: Digest)
    requires d in PinnedDigests(a.check) && CorruptAt(w, disk.blobs, d)
    ensures var after := Transfer(w, disk, left, a, t, layer);
            (after.r.Ok? ==> after.r.value == None) && CorruptAt(w, after.disk.blobs, d)
  {
    TransferGrows(w, disk, left, a, t, layer);
    var received := Outcome(w, a.check, left, t.run);
    if received.Ok? && received.value.Some? {
      var got := received.value.value;
      var e := EntryFor(got, t, layer);
      if e.digest == d { CorruptBlobIsNeverOverwritten(w, disk, a, got, e, t.fault); }
    }
  }

  lemma {:induction false} SourcesCannotPassCorruption(w: Oracles, disk: Disk, left: Option<nat>, a: Artifact,
                                                      contacts: seq<Attempt>, n: nat, d: Digest)
    requires n <= |contacts| && d in PinnedDigests(a.check) && CorruptAt(w, disk.blobs, d)
    ensures Sources(w, disk, left, a, contacts, n).r.Err?
    decreases |contacts| - n
  {
    if n < |contacts| {
      var t := Transfer(w, disk, left, a, contacts[n], Upstream);
      TransferCannotPassCorruption(w, disk, left, a, contacts[n], Upstream, d);
      SourcesCannotPassCorruption(w, t.disk, t.left, a, contacts, n + 1, d);
    }
  }

  /** A pinned artifact whose address holds a corrupt blob cannot be resolved by any mirror or
      source, whatever they serve, and the blob stays as it is: only explicit removal helps. */
  lemma CorruptionBlocksResolution(w: Oracles, offline: bool, allow: bool, disk: Disk, left: Option<nat>, a: Artifact,
                                   mirror: Option<Attempt>, upstream: seq<Attempt>, d: Digest)
    requires d in PinnedDigests(a.check) && CorruptAt(w, disk.blobs, d)
    ensures var after := Resolve(w, offline, allow, disk, left, a, mirror, upstream);
            after.r.Err? && CorruptAt(w, after.disk.blobs, d)
  {
    var contacts := Contacts(mirror, upstream);
    ResolutionGrows(w, offline, allow, disk, left, a, mirror, upstream);
    if a.key in disk.index && disk.index[a.key].Readable? {
      HitIsGenuine(w, disk.blobs, a, disk.index[a.key].entry);
    }
    if mirror == None {
      SourcesCannotPassCorruption(w, disk, left, a, contacts, 0, d);
    } else {
      var t := Transfer(w, disk, left, a, mirror.value, Mirror);
      TransferCannotPassCorruption(w, disk, left, a, mirror.value, Mirror, d);
      SourcesCannotPassCorruption(w, t.disk, t.left, a, contacts, 1, d);
    }
  }
}
