/** Answering a request the mirror has no object for: fill the local store, upload, redirect. */
module Serving {
  import opened Basics
  import opened ContentChecks
  import opened Pins
  import opened Receiving
  import opened Catalog
  import opened Resolution
  import opened Stores
  import S3Protocol
  import S3Writes

  type Meta = S3Writes.Meta

  /** A cached artifact's sidecar is metadata the server accepts for it. */
  lemma ReadyMetadataAgrees(w: Oracles, index: Index, blobs: Blobs, a: Artifact, d: Digest)
    requires Ready(w, index, blobs, a, d)
    ensures DamageOf(w, blobs, index[a.key].entry) == None
    ensures MetadataAgrees(a, d, index[a.key].entry.bytes)
  {
    HitIsGenuine(w, blobs, a, index[a.key].entry);
    GenuineMetadataAgrees(w, a, blobs[d]);
  }

  /** The sidecar of a key whose blob exists. */
  function EntryOf(index: Index, blobs: Blobs, key: Key): Option<Entry> {
    if key in index && index[key].Readable? && index[key].entry.digest in blobs
    then Some(index[key].entry) else None
  }

  /** Get the artifact into the store, within the fill's limit if it has one. */
  method FillLocally(store: Store, a: Artifact, limit: Option<nat>, mirror: Option<Attempt>, upstream: seq<Attempt>)
    returns (r: Result<Digest, Error>)
    requires |upstream| == |a.sources|
    modifies store`index, store`blobs
    ensures var after := Resolve(store.w, store.offline, store.allowUpstream, old(store.Disk()), limit, a,
                                 mirror, upstream);
            r == after.r && store.Disk() == after.disk
    ensures r.Ok? && AllReport(Contacts(mirror, upstream)) ==> Presentable(store.index, a, r.value)
    ensures r.Ok? && Honest(store.w, Contacts(mirror, upstream)) ==>
              Ready(store.w, store.index, store.blobs, a, r.value)
    ensures forall d | Ready(store.w, old(store.index), old(store.blobs), a, d)
                       && (limit.Some? ==> old(store.index)[a.key].entry.bytes <= limit.value) ::
              r == Ok(d) && store.index == old(store.index) && store.blobs == old(store.blobs)
    ensures limit.Some? ==> Total(store.blobs) <= Total(old(store.blobs)) + limit.value
  {
    var budget: Cell? := null;
    if limit.Some? { budget := new Cell(limit.value); }
    ghost var disk := store.Disk();
    var tried;
    r, tried := store.GetWithBudget(a, budget, mirror, upstream);
    ReadyKeyContactsNobody(store.w, store.offline, store.allowUpstream, disk, limit, a, mirror, upstream);
    ResolutionIsCovered(store.w, store.offline, store.allowUpstream, disk, limit, a, mirror, upstream);
    if AllReport(Contacts(mirror, upstream)) {
      ResolvedIsPresentable(store.w, store.offline, store.allowUpstream, disk, limit, a, mirror, upstream);
    }
    if Honest(store.w, Contacts(mirror, upstream)) {
      ResolvedIsReady(store.w, store.offline, store.allowUpstream, disk, limit, a, mirror, upstream);
    }
  }

  /** How a conditional upload of given metadata ends. */
  type Put = Meta -> Result<S3Writes.PutOutcome, S3Writes.Failure>

  /** The answers of `put` are those of calls in a run of the S3 protocol, up to moment `i`. */
  ghost predicate PutsInRun(put: Put, states: seq<S3Protocol.World>, i: nat)
    requires i < |states|
  {
    forall meta: Meta :: put(meta).Ok? ==>
      exists id | id in states[i].calls ::
        states[i].calls[id].meta == meta && states[i].calls[id].pc == S3Writes.Done(put(meta))
  }

  /** What an upload answered with success is in the mirror: without repairs the one object
      there is has exactly the uploaded digest and length. */
  lemma AcceptedUploadIsInTheMirror(w: Oracles, put: Put, states: seq<S3Protocol.World>,
                                    labels: seq<S3Protocol.Label>, i: nat, meta: Meta)
    requires S3Protocol.IsRun(w, states, labels) && i < |states| && S3Protocol.NoRepairs(states[i])
    requires PutsInRun(put, states, i) && put(meta).Ok?
    ensures |states[i].log| == 1 && states[i].log[0].meta == meta
  {
    var id :| id in states[i].calls
              && states[i].calls[id].meta == meta && states[i].calls[id].pc == S3Writes.Done(put(meta));
    S3Protocol.SuccessfulCallsAgree(w, states, labels, i, id);
  }

  /** `head` is what the mirror answers when the fill starts; `put` is asked once the fill has
      a body that agrees with its sidecar. */
  method ResolveMiss(store: Store, a: Artifact, limit: Option<nat>, head: S3Writes.Head,
                     mirror: Option<Attempt>, upstream: seq<Attempt>, put: Put)
    returns (r: Result<Meta, Error>)
    requires |upstream| == |a.sources|
    modifies store`index, store`blobs
    // An object that appeared meanwhile is reported as it is, without touching the store.
    ensures !head.NotFound? ==> store.index == old(store.index) && store.blobs == old(store.blobs)
    ensures head.Found? ==> r == Ok(head.existing)
    ensures head.HeadFailed? ==> r == Err(MirrorError)
    // A fill reports only metadata whose own upload was accepted, and it passes the later test.
    ensures head.NotFound? && r.Ok? ==> put(r.value).Ok?
    ensures head.NotFound? && r.Ok? && AllReport(Contacts(mirror, upstream)) ==>
              MetadataAgrees(a, r.value.sha256, r.value.bytes)
    // It is the digest and length of a genuine local blob.
    ensures head.NotFound? && r.Ok? && Honest(store.w, Contacts(mirror, upstream)) ==>
              && Ready(store.w, store.index, store.blobs, a, r.value.sha256)
              && r.value.bytes == |store.blobs[r.value.sha256]|
    // A cached artifact within the limit is served when its upload is accepted.
    ensures forall d | head.NotFound? && Ready(store.w, old(store.index), old(store.blobs), a, d)
                       && (limit.Some? ==> old(store.index)[a.key].entry.bytes <= limit.value) ::
              var meta := S3Writes.Meta(d, old(store.index)[a.key].entry.bytes);
              put(meta).Ok? ==> r == Ok(meta)
    // What the store resolves is reported exactly when its upload is accepted, and what it
    // cannot resolve fails for the same reason.
    ensures var got := Resolve(store.w, store.offline, store.allowUpstream, old(store.Disk()), limit, a,
                               mirror, upstream).r;
            head.NotFound? ==>
              && (got.Err? ==> r == Err(got.error))
              && (got.Ok? && Honest(store.w, Contacts(mirror, upstream)) ==>
                    && got.value in store.blobs
                    && var meta := S3Writes.Meta(got.value, |store.blobs[got.value]|);
                       r == if put(meta).Ok? then Ok(meta) else Err(MirrorError))
    // A limited fill adds at most its limit to the store.
    ensures limit.Some? ==> Total(store.blobs) <= Total(old(store.blobs)) + limit.value
  {
    match head {
      case HeadFailed => return Err(MirrorError);
      case Found(existing) => return Ok(existing);
      case NotFound =>
    }
    var got := FillLocally(store, a, limit, mirror, upstream);
    if got.Err? { return Err(got.error); }
    var entry := EntryOf(store.index, store.blobs, a.key);
    if entry == None { return Err(MirrorError); }
    var meta := S3Writes.Meta(entry.value.digest, entry.value.bytes);
    forall d | Ready(store.w, store.index, store.blobs, a, d)
      ensures meta.sha256 == d && DamageOf(store.w, store.blobs, entry.value) == None
    {
      ReadyMetadataAgrees(store.w, store.index, store.blobs, a, d);
    }
    if got.value !in store.blobs { return Err(IoError); }
    var body := store.blobs[got.value];
    if |body| != meta.bytes || store.w.sha(body) != meta.sha256 { return Err(MirrorError); }
    if put(meta).Err? { return Err(MirrorError); }
    r := Ok(meta);
  }

  /** Metadata is let through exactly when the manifest allows it. */
  method Redirect(a: Artifact, meta: Meta) returns (r: Result<Meta, Error>)
    ensures r == if ManifestAllows(a, meta.sha256, meta.bytes) then Ok(meta)
                 else Err(ContentRejected("mirror metadata pin"))
  {
    MetadataAgreesExactly(a, meta.sha256, meta.bytes);
    if (a.expectedBytes.Some? && a.expectedBytes.value != meta.bytes) || !PinsAgree(a.check, meta.sha256, meta.bytes) {
      return Err(ContentRejected("mirror metadata pin"));
    }
    r := Ok(meta);
  }

  /** The whole answer to a miss: resolve it, then redirect. `filled` is what resolving gave. */
  method AnswerMiss(store: Store, a: Artifact, limit: Option<nat>, head: S3Writes.Head,
                    mirror: Option<Attempt>, upstream: seq<Attempt>, put: Put)
    returns (filled: Result<Meta, Error>, r: Result<Meta, Error>)
    requires |upstream| == |a.sources|
    modifies store`index, store`blobs
    // A redirect goes to no digest but the pinned ones, and to no length the manifest excludes;
    // whatever else is found is refused, and nothing else is.
    ensures r.Ok? ==> forall pin | pin in PinnedDigests(a.check) :: r.value.sha256 == pin
    ensures r.Ok? && a.expectedBytes.Some? ==> r.value.bytes == a.expectedBytes.value
    ensures r == if filled.Ok? && !ManifestAllows(a, filled.value.sha256, filled.value.bytes)
                 then Err(ContentRejected("mirror metadata pin")) else filled
    // An object somebody else put there is what is looked at, without touching the store.
    ensures head.Found? ==> filled == Ok(head.existing)
    ensures !head.NotFound? ==> store.index == old(store.index) && store.blobs == old(store.blobs)
    // A fill of our own is never refused afterwards.
    ensures head.NotFound? && AllReport(Contacts(mirror, upstream)) ==> r == filled
    // Our own redirects go to what was uploaded, and whatever the store resolves is redirected
    // to when its upload is accepted.
    ensures head.NotFound? && r.Ok? ==> put(r.value).Ok?
    ensures var got := Resolve(store.w, store.offline, store.allowUpstream, old(store.Disk()), limit, a,
                               mirror, upstream).r;
            head.NotFound? && got.Ok? && Honest(store.w, Contacts(mirror, upstream)) ==>
              && got.value in store.blobs
              && var meta := S3Writes.Meta(got.value, |store.blobs[got.value]|);
                 r == if put(meta).Ok? then Ok(meta) else Err(MirrorError)
    // A cached artifact within the limit is redirected to when its upload is accepted.
    ensures forall d | head.NotFound? && Ready(store.w, old(store.index), old(store.blobs), a, d)
                       && (limit.Some? ==> old(store.index)[a.key].entry.bytes <= limit.value) ::
              var meta := S3Writes.Meta(d, old(store.index)[a.key].entry.bytes);
              put(meta).Ok? ==> r == Ok(meta)
  {
    ghost var index0, blobs0 := store.index, store.blobs;
    filled := ResolveMiss(store, a, limit, head, mirror, upstream, put);
    if filled.Err? { return filled, filled; }
    MetadataAgreesExactly(a, filled.value.sha256, filled.value.bytes);
    forall d | Ready(store.w, index0, blobs0, a, d) ensures ManifestAllows(a, d, index0[a.key].entry.bytes) {
      ReadyMetadataAgrees(store.w, index0, blobs0, a, d);
      MetadataAgreesExactly(a, d, index0[a.key].entry.bytes);
    }
    r := Redirect(a, filled.value);
  }
}
