/** How a publication, a transfer and a whole resolution end: which body is returned or which
    error, told by what the contacts did and by the disk before anything was done. */
module Outcomes {
  import opened Basics
  import opened ContentChecks
  import opened Pins
  import opened Receiving
  import opened TransferLaws
  import opened Catalog
  import opened Resolution

  // ----- one publication -----

  /** A body hashed while it streamed is published exactly when it is genuine, its address is
      free or holds bytes that hash to it, and the disk does not fail; it is rejected exactly
      when it is not genuine, or when it gets as far as a corrupt address. */
  lemma PublicationEndsExactly(w: Oracles, disk: Disk, a: Artifact, got: Received, e: Entry, fault: Fault)
    requires e.digest == w.sha(got.content) && e.bytes == |got.content|
    ensures var r, corrupt := Publication(w, disk, a, got, e, fault).0, CorruptAt(w, disk.blobs, e.digest);
            && (r == Ok(e.digest) <==> Genuine(w, a, got.content) && !corrupt && fault == NoFault)
            && (r.Ok? ==> r.value == e.digest)
            && (r.Err? && r.error.ContentRejected? <==>
                  !Genuine(w, a, got.content) || (corrupt && fault != BeforeBlob))
            && (r.Err? && !r.error.ContentRejected? ==> r.error == IoError)
  {
    ValidationIsGenuine(w, a, got.content);
  }

  /** What is on disk afterwards: the blob if the body was genuine, its address not corrupt, and
      the disk did not fail before the rename; the entry if it did not fail before that one's. */
  ghost predicate StoredTo(w: Oracles, before: Disk, a: Artifact, body: Bytes, e: Entry, fault: Fault, after: Disk) {
    if !Genuine(w, a, body) || CorruptAt(w, before.blobs, e.digest) || fault == BeforeBlob then after == before
    else
      && after.blobs == before.blobs[e.digest := if e.digest in before.blobs then before.blobs[e.digest] else body]
      && after.index == if fault == NoFault || fault == AfterSidecar then before.index[a.key := Readable(e)]
                        else before.index
  }

  lemma PublicationStoresExactly(w: Oracles, disk: Disk, a: Artifact, got: Received, e: Entry, fault: Fault)
    requires e.digest == w.sha(got.content) && e.bytes == |got.content|
    ensures StoredTo(w, disk, a, got.content, e, fault, Publication(w, disk, a, got, e, fault).1)
  {
    ValidationIsGenuine(w, a, got.content);
    if e.digest in disk.blobs { assert disk.blobs[e.digest := disk.blobs[e.digest]] == disk.blobs; }
  }

  // ----- one contact -----

  /** Everything a contact tried to write. */
  function BodyOf(t: Attempt): Bytes { Sent(t.run.writes) }

  function AddressOf(w: Oracles, t: Attempt): Digest { w.sha(BodyOf(t)) }

  /** The contact served a genuine body, and nothing on disk stood in the way. */
  predicate Delivers(w: Oracles, a: Artifact, t: Attempt, corrupt: bool) {
    t.run.end == Served && Genuine(w, a, BodyOf(t)) && !corrupt && t.fault == NoFault
  }

  /** What it sent was refused: at the end, at the address, or while it was still sending. */
  predicate Refused(w: Oracles, a: Artifact, t: Attempt, corrupt: bool) {
    match t.run.end
    case Served => !Genuine(w, a, BodyOf(t)) || (corrupt && t.fault != BeforeBlob)
    case Absent => RejectedEarly(w, a.check, BodyOf(t))
    case Failed(e) => e.ContentRejected? || (e == IoError && RejectedEarly(w, a.check, BodyOf(t)))
  }

  /** A genuine body was served, and the disk failed. */
  predicate DiskFailed(w: Oracles, a: Artifact, t: Attempt, corrupt: bool) {
    && t.run.end == Served && Genuine(w, a, BodyOf(t))
    && (t.fault == BeforeBlob || (!corrupt && t.fault != NoFault))
  }

  /** The error is the contact's own. */
  predicate Fails(w: Oracles, a: Artifact, t: Attempt, e: Error) {
    t.run.end == Failed(e) && !(e == IoError && RejectedEarly(w, a.check, BodyOf(t)))
  }

  /** How a transfer within its limit ends. */
  ghost predicate Ends(w: Oracles, a: Artifact, t: Attempt, corrupt: bool, r: Result<Option<Digest>, Error>) {
    && (r.Ok? && r.value.Some? <==> Delivers(w, a, t, corrupt))
    && (r.Ok? && r.value.Some? ==> r.value.value == AddressOf(w, t))
    && (r == Ok(None) <==> t.run.end == Absent && !RejectedEarly(w, a.check, BodyOf(t)))
    && (r.Err? && r.error.ContentRejected? <==> Refused(w, a, t, corrupt))
    && forall e: Error | !e.ContentRejected? ::
         r == Err(e) <==> Fails(w, a, t, e) || (e == IoError && DiskFailed(w, a, t, corrupt))
  }

  lemma GenuineHeadPasses(w: Oracles, a: Artifact, body: Bytes)
    requires CheckPrefix(w, a.check, Head(body)).Fail?
    ensures !Genuine(w, a, body)
  {
    if Genuine(w, a, body) { EarlyRejectionIsSound(w, a.check, body); }
  }

  lemma ServedEndsExactly(w: Oracles, disk: Disk, left: Option<nat>, a: Artifact, t: Attempt, layer: Layer)
    requires Reports(t.run) && (left.Some? ==> Attempted(t.run.writes) <= left.value) && t.run.end == Served
    ensures Ends(w, a, t, CorruptAt(w, disk.blobs, AddressOf(w, t)), Transfer(w, disk, left, a, t, layer).r)
  {
    OutcomeIsOfTheBody(w, a.check, left, t.run);
    var body := BodyOf(t);
    if CheckPrefix(w, a.check, Head(body)).Fail? {
      GenuineHeadPasses(w, a, body);
    } else {
      var got := Received(body, w.sha(body), |body|);
      PublicationEndsExactly(w, disk, a, got, EntryFor(got, t, layer), t.fault);
    }
  }

  /** A reporting mirror, source or local file within its limit is answered exactly so. Beyond
      the limit it is TransferLimit, by `Resolution.TransferReportsTheLimit`. */
  lemma TransferEndsExactly(w: Oracles, disk: Disk, left: Option<nat>, a: Artifact, t: Attempt, layer: Layer)
    requires Reports(t.run) && (left.Some? ==> Attempted(t.run.writes) <= left.value)
    ensures Ends(w, a, t, CorruptAt(w, disk.blobs, AddressOf(w, t)), Transfer(w, disk, left, a, t, layer).r)
  {
    if t.run.end == Served {
      ServedEndsExactly(w, disk, left, a, t, layer);
    } else {
      OutcomeIsOfTheBody(w, a.check, left, t.run);
    }
  }

  /** What a reporting contact leaves on disk: nothing, unless it served a genuine body within
      the limit; then the blob under its digest and the entry, as far as the disk let it. */
  lemma TransferStoresExactly(w: Oracles, disk: Disk, left: Option<nat>, a: Artifact, t: Attempt, layer: Layer)
    requires Reports(t.run)
    ensures var after, body := Transfer(w, disk, left, a, t, layer).disk, BodyOf(t);
            if t.run.end == Served && (left.Some? ==> Attempted(t.run.writes) <= left.value)
            then StoredTo(w, disk, a, body, EntryFor(Received(body, w.sha(body), |body|), t, layer), t.fault, after)
            else after == disk
  {
    var body := BodyOf(t);
    if t.run.end != Served || (left.Some? && Attempted(t.run.writes) > left.value) {
      NothingArrives(w, a.check, left, t.run);
    } else {
      OutcomeIsOfTheBody(w, a.check, left, t.run);
      if CheckPrefix(w, a.check, Head(body)).Fail? {
        GenuineHeadPasses(w, a, body);
      } else {
        var got := Received(body, w.sha(body), |body|);
        PublicationStoresExactly(w, disk, a, got, EntryFor(got, t, layer), t.fault);
      }
    }
  }

  lemma NothingArrives(w: Oracles, c: ContentCheck, left: Option<nat>, run: Run)
    requires run.end != Served || (left.Some? && Attempted(run.writes) > left.value)
    ensures Outcome(w, c, left, run).Err? || Outcome(w, c, left, run).value == None
  {
    OutcomeReportsTheLimit(w, c, left, run);
  }

  /** The same addresses hold corrupt bytes. */
  ghost predicate SameCorruption(w: Oracles, before: Blobs, after: Blobs) {
    forall d :: CorruptAt(w, before, d) <==> CorruptAt(w, after, d)
  }

  lemma PublicationKeepsCorruption(w: Oracles, disk: Disk, a: Artifact, got: Received, e: Entry, fault: Fault)
    requires e.digest == w.sha(got.content)
    ensures SameCorruption(w, disk.blobs, Publication(w, disk, a, got, e, fault).1.blobs)
  {
  }

  /** What a reporting contact adds is never corrupt, and it repairs nothing. */
  lemma TransferKeepsCorruption(w: Oracles, disk: Disk, left: Option<nat>, a: Artifact, t: Attempt, layer: Layer)
    requires Reports(t.run)
    ensures SameCorruption(w, disk.blobs, Transfer(w, disk, left, a, t, layer).disk.blobs)
  {
    var received := Outcome(w, a.check, left, t.run);
    if received.Ok? && received.value.Some? {
      var got := received.value.value;
      ReportingIsHonest(w, a.check, left, t.run);
      PublicationKeepsCorruption(w, disk, a, got, EntryFor(got, t, layer), t.fault);
    }
  }

  // ----- the local layer -----

  /** Nothing local stands in the way of a fetch: no entry, no blob, or a pin that moved. */
  predicate Misses(index: Index, blobs: Blobs, a: Artifact) {
    a.key !in index || (index[a.key].Readable? && var e := index[a.key].entry;
                        e.digest !in blobs || !PinsMatch(a.check, e.digest))
  }

  predicate Fits(index: Index, a: Artifact, left: Option<nat>) {
    left.Some? && a.key in index && index[a.key].Readable? ==> index[a.key].entry.bytes <= left.value
  }

  /** The local layer lets a fetch go on exactly on a miss; it answers exactly a ready key that
      fits the limit. A damaged sidecar and a blob that fails its entry or the artifact are
      errors, not misses. */
  lemma LocalEndsExactly(w: Oracles, disk: Disk, left: Option<nat>, a: Artifact)
    ensures var local := Local(w, disk, left, a);
            && (local == None <==> Misses(disk.index, disk.blobs, a))
            && (forall d :: local == Some(Ok(d)) <==>
                  Ready(w, disk.index, disk.blobs, a, d) && Fits(disk.index, a, left))
            && (local == Some(Err(TransferLimit)) <==>
                  (exists d :: Ready(w, disk.index, disk.blobs, a, d)) && !Fits(disk.index, a, left))
            && (local == Some(Err(IoError)) <==> a.key in disk.index && disk.index[a.key].Malformed?)
            && (local.Some? && local.value.Err? ==>
                  local.value.error in {TransferLimit, IoError} || local.value.error.ContentRejected?)
  {
    if a.key in disk.index && disk.index[a.key].Readable? {
      var e := disk.index[a.key].entry;
      HitIsGenuine(w, disk.blobs, a, e);
      if !Misses(disk.index, disk.blobs, a) && LocalHit(w, disk.blobs, a, e).Ok? {
        assert Ready(w, disk.index, disk.blobs, a, e.digest);
      }
    }
  }

  // ----- the chain of contacts -----

  /** The contacts that may be made at all. */
  function Allowed(allow: bool, a: Artifact, mirror: Option<Attempt>, upstream: seq<Attempt>): nat {
    |Contacts(mirror, [])| + if allow && a.sources != [] then |upstream| else 0
  }

  predicate WithinLimit(limit: Option<nat>, contacts: seq<Attempt>, n: nat)
    requires n <= |contacts|
  {
    limit.Some? ==> Spent(contacts, n) <= limit.value
  }

  function LeftAfter(limit: Option<nat>, contacts: seq<Attempt>, n: nat): Option<nat>
    requires n <= |contacts| && WithinLimit(limit, contacts, n)
  {
    if limit == None then None else Some(limit.value - Spent(contacts, n))
  }

  /** After this contact the next one is asked: it found nothing or failed in a way that does
      not settle the matter. A mirror settles it by a refused body, a source only if it is the
      only one, and then also by the lack of a credential. */
  predicate PassesOn(w: Oracles, blobs: Blobs, a: Artifact, t: Attempt, mirrored: bool) {
    var corrupt := CorruptAt(w, blobs, AddressOf(w, t));
    && t.run.end != Failed(TransferLimit) && !Delivers(w, a, t, corrupt)
    && (Refused(w, a, t, corrupt) ==> !mirrored && |a.sources| != 1)
    && (t.run.end == Failed(NoCredential) || t.run.end == Failed(CredentialRejected) ==>
          mirrored || |a.sources| != 1)
  }

  /** The first `n` contacts all pass the matter on, within the limit. */
  predicate PassedOver(w: Oracles, blobs: Blobs, limit: Option<nat>, a: Artifact, contacts: seq<Attempt>,
                       mirrored: bool, n: nat)
    requires n <= |contacts|
  {
    n == 0 || (&& PassedOver(w, blobs, limit, a, contacts, mirrored, n - 1)
               && WithinLimit(limit, contacts, n)
               && PassesOn(w, blobs, a, contacts[n - 1], mirrored && n == 1))
  }

  /** How the contact that settles the matter settles it. */
  ghost predicate Settled(w: Oracles, blobs: Blobs, a: Artifact, t: Attempt, exceeded: bool,
                          r: Result<Digest, Error>)
  {
    var corrupt := CorruptAt(w, blobs, AddressOf(w, t));
    if exceeded || t.run.end == Failed(TransferLimit) then r == Err(TransferLimit)
    else if Delivers(w, a, t, corrupt) then r == Ok(AddressOf(w, t))
    else if Refused(w, a, t, corrupt) then r.Err? && r.error.ContentRejected?
    else t.run.end.Failed? && r == Err(t.run.end.error)
  }

  /** The verdict on contact `n`, as the chain sees it. */
  lemma ContactEnds(w: Oracles, blobs: Blobs, disk: Disk, limit: Option<nat>, a: Artifact, contacts: seq<Attempt>,
                    n: nat, layer: Layer)
    requires n < |contacts| && Reports(contacts[n].run) && WithinLimit(limit, contacts, n)
    requires SameCorruption(w, blobs, disk.blobs)
    ensures var t := Transfer(w, disk, LeftAfter(limit, contacts, n), a, contacts[n], layer);
            && SameCorruption(w, blobs, t.disk.blobs)
            && (if WithinLimit(limit, contacts, n + 1)
                then t.left == LeftAfter(limit, contacts, n + 1)
                     && Ends(w, a, contacts[n], CorruptAt(w, blobs, AddressOf(w, contacts[n])), t.r)
                else t.r == Err(TransferLimit))
  {
    var left := LeftAfter(limit, contacts, n);
    TransferKeepsCorruption(w, disk, left, a, contacts[n], layer);
    TransferReportsTheLimit(w, disk, left, a, contacts[n], layer);
    if left == None { NoBudgetStays(w, a.check, Fresh(None), contacts[n].run.writes); }
    if WithinLimit(limit, contacts, n + 1) { TransferEndsExactly(w, disk, left, a, contacts[n], layer); }
  }

  /** One source: the next is asked, or the matter is settled. */
  lemma SourceDecides(w: Oracles, blobs: Blobs, disk: Disk, limit: Option<nat>, a: Artifact, contacts: seq<Attempt>,
                      n: nat)
    requires n < |contacts| && Reports(contacts[n].run) && WithinLimit(limit, contacts, n)
    requires SameCorruption(w, blobs, disk.blobs)
    ensures var left := LeftAfter(limit, contacts, n);
            var t, after := Transfer(w, disk, left, a, contacts[n], Upstream), Sources(w, disk, left, a, contacts, n);
            if WithinLimit(limit, contacts, n + 1) && PassesOn(w, blobs, a, contacts[n], false)
            then after == Sources(w, t.disk, t.left, a, contacts, n + 1)
            else after.tried == n + 1
                 && Settled(w, blobs, a, contacts[n], !WithinLimit(limit, contacts, n + 1), after.r)
  {
    ContactEnds(w, blobs, disk, limit, a, contacts, n, Upstream);
  }

  lemma {:induction false} PassedEarlier(w: Oracles, blobs: Blobs, limit: Option<nat>, a: Artifact,
                                         contacts: seq<Attempt>, mirrored: bool, m: nat, n: nat)
    requires m <= n <= |contacts| && PassedOver(w, blobs, limit, a, contacts, mirrored, n)
    ensures PassedOver(w, blobs, limit, a, contacts, mirrored, m)
    decreases n
  {
    if m < n { PassedEarlier(w, blobs, limit, a, contacts, mirrored, m, n - 1); }
  }

  /** How the chain of sources ends from contact `n` on: the first contact that does not pass the
      matter on settles it. */
  ghost predicate ChainEnds(w: Oracles, blobs: Blobs, limit: Option<nat>, a: Artifact, contacts: seq<Attempt>, n: nat,
                            after: Resolved)
    requires n <= |contacts|
    decreases |contacts| - n
  {
    if n == |contacts| then after.tried == n && after.r == Err(AllSourcesFailed)
    else if WithinLimit(limit, contacts, n + 1) && PassesOn(w, blobs, a, contacts[n], false) then
      ChainEnds(w, blobs, limit, a, contacts, n + 1, after)
    else
      && after.tried == n + 1
      && Settled(w, blobs, a, contacts[n], !WithinLimit(limit, contacts, n + 1), after.r)
  }

  lemma {:induction false} SourcesEnd(w: Oracles, blobs: Blobs, disk: Disk, limit: Option<nat>, a: Artifact,
                                      contacts: seq<Attempt>, n: nat)
    requires n <= |contacts| && AllReport(contacts) && SameCorruption(w, blobs, disk.blobs)
    requires WithinLimit(limit, contacts, n)
    ensures ChainEnds(w, blobs, limit, a, contacts, n,
                      Sources(w, disk, LeftAfter(limit, contacts, n), a, contacts, n))
    decreases |contacts| - n
  {
    if n < |contacts| {
      SourceDecides(w, blobs, disk, limit, a, contacts, n);
      if WithinLimit(limit, contacts, n + 1) && PassesOn(w, blobs, a, contacts[n], false) {
        ContactEnds(w, blobs, disk, limit, a, contacts, n, Upstream);
        var t := Transfer(w, disk, LeftAfter(limit, contacts, n), a, contacts[n], Upstream);
        SourcesEnd(w, blobs, t.disk, limit, a, contacts, n + 1);
      }
    }
  }

  lemma {:induction false} ChainPasses(w: Oracles, blobs: Blobs, limit: Option<nat>, a: Artifact,
                                       contacts: seq<Attempt>, mirrored: bool, n: nat, last: nat, after: Resolved)
    requires n <= last <= |contacts| && (mirrored ==> n > 0)
    requires PassedOver(w, blobs, limit, a, contacts, mirrored, last)
    requires ChainEnds(w, blobs, limit, a, contacts, n, after)
    ensures ChainEnds(w, blobs, limit, a, contacts, last, after)
    decreases last
  {
    if n < last { ChainPasses(w, blobs, limit, a, contacts, mirrored, n, last - 1, after); }
  }

  /** The resolution after the first `last` contacts passed the matter on: if that is all that
      may be made the error says why, otherwise the next one settles it or passes it on. */
  ghost predicate Decided(w: Oracles, blobs: Blobs, limit: Option<nat>, allow: bool, a: Artifact,
                          mirror: Option<Attempt>, upstream: seq<Attempt>, last: nat, after: Resolved)
    requires last <= Allowed(allow, a, mirror, upstream)
  {
    var contacts := Contacts(mirror, upstream);
    if last == Allowed(allow, a, mirror, upstream) then
      && after.tried == last
      && after.r == Err(if a.sources == [] then ManualRequired else if allow then AllSourcesFailed
                        else MirrorUnreachable)
    else if PassedOver(w, blobs, limit, a, contacts, mirror.Some?, last + 1) then true
    else
      && after.tried == last + 1
      && Settled(w, blobs, a, contacts[last], !WithinLimit(limit, contacts, last + 1), after.r)
  }

  lemma MirrorDecides(w: Oracles, allow: bool, disk: Disk, limit: Option<nat>, a: Artifact,
                      mirror: Attempt, upstream: seq<Attempt>)
    requires Reports(mirror.run)
    ensures var contacts := Contacts(Some(mirror), upstream);
            var t, after := Transfer(w, disk, limit, a, mirror, Mirror),
                            Remote(w, allow, disk, limit, a, Some(mirror), upstream);
            if WithinLimit(limit, contacts, 1) && PassesOn(w, disk.blobs, a, mirror, true)
            then after == FromSources(w, allow, t.disk, t.left, a, contacts, 1)
                 && t.left == LeftAfter(limit, contacts, 1) && SameCorruption(w, disk.blobs, t.disk.blobs)
            else after.tried == 1
                 && Settled(w, disk.blobs, a, mirror, !WithinLimit(limit, contacts, 1), after.r)
  {
    var contacts := Contacts(Some(mirror), upstream);
    assert contacts[0] == mirror && LeftAfter(limit, contacts, 0) == limit;
    ContactEnds(w, disk.blobs, disk, limit, a, contacts, 0, Mirror);
  }

  lemma ChainIsDecided(w: Oracles, blobs: Blobs, limit: Option<nat>, a: Artifact, mirror: Option<Attempt>,
                       upstream: seq<Attempt>, last: nat, after: Resolved)
    requires a.sources != [] && |Contacts(mirror, [])| <= last <= |Contacts(mirror, upstream)|
    requires PassedOver(w, blobs, limit, a, Contacts(mirror, upstream), mirror.Some?, last)
    requires ChainEnds(w, blobs, limit, a, Contacts(mirror, upstream), last, after)
    ensures Decided(w, blobs, limit, true, a, mirror, upstream, last, after)
  {
  }

  lemma FromSourcesDecides(w: Oracles, blobs: Blobs, allow: bool, disk: Disk, limit: Option<nat>, a: Artifact,
                           mirror: Option<Attempt>, upstream: seq<Attempt>, last: nat)
    requires AllReport(Contacts(mirror, upstream)) && SameCorruption(w, blobs, disk.blobs)
    requires |Contacts(mirror, [])| <= last <= Allowed(allow, a, mirror, upstream)
    requires PassedOver(w, blobs, limit, a, Contacts(mirror, upstream), mirror.Some?, last)
    requires WithinLimit(limit, Contacts(mirror, upstream), |Contacts(mirror, [])|)
    ensures var contacts, n := Contacts(mirror, upstream), |Contacts(mirror, [])|;
            Decided(w, blobs, limit, allow, a, mirror, upstream, last,
                    FromSources(w, allow, disk, LeftAfter(limit, contacts, n), a, contacts, n))
  {
    var contacts, n := Contacts(mirror, upstream), |Contacts(mirror, [])|;
    if allow && a.sources != [] {
      var after := Sources(w, disk, LeftAfter(limit, contacts, n), a, contacts, n);
      SourcesEnd(w, blobs, disk, limit, a, contacts, n);
      ChainPasses(w, blobs, limit, a, contacts, mirror.Some?, n, last, after);
      ChainIsDecided(w, blobs, limit, a, mirror, upstream, last, after);
    }
  }

  lemma MirroredFetchDecides(w: Oracles, allow: bool, disk: Disk, limit: Option<nat>, a: Artifact,
                             mirror: Attempt, upstream: seq<Attempt>, last: nat)
    requires AllReport(Contacts(Some(mirror), upstream)) && last <= Allowed(allow, a, Some(mirror), upstream)
    requires PassedOver(w, disk.blobs, limit, a, Contacts(Some(mirror), upstream), true, last)
    ensures Decided(w, disk.blobs, limit, allow, a, Some(mirror), upstream, last,
                    Remote(w, allow, disk, limit, a, Some(mirror), upstream))
  {
    var contacts := Contacts(Some(mirror), upstream);
    assert contacts[0] == mirror;
    MirrorDecides(w, allow, disk, limit, a, mirror, upstream);
    if last > 0 {
      PassedEarlier(w, disk.blobs, limit, a, contacts, true, 1, last);
      var t := Transfer(w, disk, limit, a, mirror, Mirror);
      FromSourcesDecides(w, disk.blobs, allow, t.disk, limit, a, Some(mirror), upstream, last);
    }
  }

  /** A fetch is decided by the first contact that does not pass the matter on, and by the
      configuration if there is none. Corruption is judged on the disk the fetch started with. */
  lemma FirstUnpassedContactDecides(w: Oracles, allow: bool, disk: Disk, limit: Option<nat>, a: Artifact,
                                    mirror: Option<Attempt>, upstream: seq<Attempt>, last: nat)
    requires AllReport(Contacts(mirror, upstream)) && last <= Allowed(allow, a, mirror, upstream)
    requires PassedOver(w, disk.blobs, limit, a, Contacts(mirror, upstream), mirror.Some?, last)
    ensures Decided(w, disk.blobs, limit, allow, a, mirror, upstream, last,
                    Remote(w, allow, disk, limit, a, mirror, upstream))
  {
    if mirror == None {
      FromSourcesDecides(w, disk.blobs, allow, disk, limit, a, mirror, upstream, last);
    } else {
      MirroredFetchDecides(w, allow, disk, limit, a, mirror.value, upstream, last);
    }
  }

  /** How many contacts pass the matter on before one settles it or none is left. */
  lemma {:induction false} FirstUnpassed(w: Oracles, blobs: Blobs, limit: Option<nat>, a: Artifact,
                                         contacts: seq<Attempt>, mirrored: bool, bound: nat, n: nat)
    returns (last: nat)
    requires n <= bound <= |contacts| && PassedOver(w, blobs, limit, a, contacts, mirrored, n)
    ensures n <= last <= bound && PassedOver(w, blobs, limit, a, contacts, mirrored, last)
    ensures last < bound ==> !PassedOver(w, blobs, limit, a, contacts, mirrored, last + 1)
    decreases bound - n
  {
    if n == bound || !PassedOver(w, blobs, limit, a, contacts, mirrored, n + 1) { return n; }
    last := FirstUnpassed(w, blobs, limit, a, contacts, mirrored, bound, n + 1);
  }

  /** Every miss online is decided: by the first contact that does not pass the matter on, by
      what it sent or how it failed, or, if all pass it on, by the configuration. */
  lemma MissIsDecided(w: Oracles, allow: bool, disk: Disk, limit: Option<nat>, a: Artifact,
                      mirror: Option<Attempt>, upstream: seq<Attempt>)
    returns (last: nat)
    requires AllReport(Contacts(mirror, upstream)) && Misses(disk.index, disk.blobs, a)
    ensures last <= Allowed(allow, a, mirror, upstream)
    ensures PassedOver(w, disk.blobs, limit, a, Contacts(mirror, upstream), mirror.Some?, last)
    ensures last < Allowed(allow, a, mirror, upstream) ==>
              !PassedOver(w, disk.blobs, limit, a, Contacts(mirror, upstream), mirror.Some?, last + 1)
    ensures Decided(w, disk.blobs, limit, allow, a, mirror, upstream, last,
                    Resolve(w, false, allow, disk, limit, a, mirror, upstream))
  {
    LocalEndsExactly(w, disk, limit, a);
    last := FirstUnpassed(w, disk.blobs, limit, a, Contacts(mirror, upstream), mirror.Some?,
                          Allowed(allow, a, mirror, upstream), 0);
    FirstUnpassedContactDecides(w, allow, disk, limit, a, mirror, upstream, last);
  }

  /** Contact `n` delivers after only contacts that passed the matter on, within the limit. */
  ghost predicate DeliveredBy(w: Oracles, blobs: Blobs, limit: Option<nat>, allow: bool, a: Artifact,
                              mirror: Option<Attempt>, upstream: seq<Attempt>, n: nat, d: Digest)
  {
    var contacts := Contacts(mirror, upstream);
    && n < Allowed(allow, a, mirror, upstream)
    && PassedOver(w, blobs, limit, a, contacts, mirror.Some?, n) && WithinLimit(limit, contacts, n + 1)
    && d == AddressOf(w, contacts[n]) && Delivers(w, a, contacts[n], CorruptAt(w, blobs, d))
  }

  lemma DeliveryDecides(w: Oracles, allow: bool, disk: Disk, limit: Option<nat>, a: Artifact,
                        mirror: Option<Attempt>, upstream: seq<Attempt>, n: nat, d: Digest)
    requires AllReport(Contacts(mirror, upstream))
    requires DeliveredBy(w, disk.blobs, limit, allow, a, mirror, upstream, n, d)
    ensures var after := Remote(w, allow, disk, limit, a, mirror, upstream); after.r == Ok(d) && after.tried == n + 1
  {
    var contacts := Contacts(mirror, upstream);
    FirstUnpassedContactDecides(w, allow, disk, limit, a, mirror, upstream, n);
  }

  /** Where the decision is a digest, the contact that decided delivered it. */
  lemma DecisionDelivers(w: Oracles, blobs: Blobs, limit: Option<nat>, allow: bool, a: Artifact,
                         mirror: Option<Attempt>, upstream: seq<Attempt>, last: nat, after: Resolved)
    requires last <= Allowed(allow, a, mirror, upstream)
    requires PassedOver(w, blobs, limit, a, Contacts(mirror, upstream), mirror.Some?, last)
    requires last < Allowed(allow, a, mirror, upstream) ==>
               !PassedOver(w, blobs, limit, a, Contacts(mirror, upstream), mirror.Some?, last + 1)
    requires Decided(w, blobs, limit, allow, a, mirror, upstream, last, after)
    ensures after.tried <= Allowed(allow, a, mirror, upstream)
    ensures after.r.Ok? ==> after.tried == last + 1
                            && DeliveredBy(w, blobs, limit, allow, a, mirror, upstream, last, after.r.value)
  {
  }

  lemma RemoteDeliversExactly(w: Oracles, allow: bool, disk: Disk, limit: Option<nat>, a: Artifact,
                              mirror: Option<Attempt>, upstream: seq<Attempt>, n: nat, d: Digest)
    requires AllReport(Contacts(mirror, upstream))
    ensures var after := Remote(w, allow, disk, limit, a, mirror, upstream);
            after.tried <= Allowed(allow, a, mirror, upstream)
            && (after.r == Ok(d) && after.tried == n + 1 <==>
                DeliveredBy(w, disk.blobs, limit, allow, a, mirror, upstream, n, d))
            && (after.r.Ok? ==> after.tried > 0)
  {
    var contacts, bound := Contacts(mirror, upstream), Allowed(allow, a, mirror, upstream);
    var last := FirstUnpassed(w, disk.blobs, limit, a, contacts, mirror.Some?, bound, 0);
    FirstUnpassedContactDecides(w, allow, disk, limit, a, mirror, upstream, last);
    DecisionDelivers(w, disk.blobs, limit, allow, a, mirror, upstream, last,
                     Remote(w, allow, disk, limit, a, mirror, upstream));
    if DeliveredBy(w, disk.blobs, limit, allow, a, mirror, upstream, n, d) {
      DeliveryDecides(w, allow, disk, limit, a, mirror, upstream, n, d);
    }
  }

  /** When a resolution from reporting contacts returns a digest, and after how many contacts:
      after none exactly if the key is ready and fits the limit; after `n + 1` exactly if
      the key is a miss, the store is not offline, and contact `n` delivers a body of that
      digest within the limit after only contacts that passed the matter on. */
  lemma ResolvesExactly(w: Oracles, offline: bool, allow: bool, disk: Disk, limit: Option<nat>, a: Artifact,
                        mirror: Option<Attempt>, upstream: seq<Attempt>, tried: nat, d: Digest)
    requires AllReport(Contacts(mirror, upstream))
    ensures var after := Resolve(w, offline, allow, disk, limit, a, mirror, upstream);
            after.r == Ok(d) && after.tried == tried <==>
              if tried == 0
              then Ready(w, disk.index, disk.blobs, a, d) && Fits(disk.index, a, limit)
              else !offline && Misses(disk.index, disk.blobs, a)
                   && DeliveredBy(w, disk.blobs, limit, allow, a, mirror, upstream, tried - 1, d)
  {
    LocalEndsExactly(w, disk, limit, a);
    if tried == 0 { RemoteDeliversExactly(w, allow, disk, limit, a, mirror, upstream, 0, d); }
    else { RemoteDeliversExactly(w, allow, disk, limit, a, mirror, upstream, tried - 1, d); }
  }

  // ----- what a resolution leaves for the next -----

  lemma {:induction false} SourcesKeepCorruption(w: Oracles, disk: Disk, left: Option<nat>, a: Artifact,
                                                 contacts: seq<Attempt>, n: nat)
    requires n <= |contacts| && AllReport(contacts)
    ensures SameCorruption(w, disk.blobs, Sources(w, disk, left, a, contacts, n).disk.blobs)
    decreases |contacts| - n
  {
    if n < |contacts| {
      var t := Transfer(w, disk, left, a, contacts[n], Upstream);
      TransferKeepsCorruption(w, disk, left, a, contacts[n], Upstream);
      SourcesUnfold(w, disk, left, a, contacts, n);
      if !Stops(t, |a.sources|) { SourcesKeepCorruption(w, t.disk, t.left, a, contacts, n + 1); }
    }
  }

  /** Resolving adds nothing corrupt, and repairs nothing. */
  lemma ResolutionKeepsCorruption(w: Oracles, offline: bool, allow: bool, disk: Disk, left: Option<nat>, a: Artifact,
                                  mirror: Option<Attempt>, upstream: seq<Attempt>)
    requires AllReport(Contacts(mirror, upstream))
    ensures SameCorruption(w, disk.blobs, Resolve(w, offline, allow, disk, left, a, mirror, upstream).disk.blobs)
  {
    var contacts := Contacts(mirror, upstream);
    if mirror == None {
      SourcesKeepCorruption(w, disk, left, a, contacts, 0);
    } else {
      var t := Transfer(w, disk, left, a, mirror.value, Mirror);
      assert contacts[0] == mirror.value;
      TransferKeepsCorruption(w, disk, left, a, mirror.value, Mirror);
      SourcesKeepCorruption(w, t.disk, t.left, a, contacts, 1);
    }
  }

  /** Without a limit, some contact delivers. */
  ghost predicate Deliverable(w: Oracles, blobs: Blobs, allow: bool, a: Artifact, mirror: Option<Attempt>,
                              upstream: seq<Attempt>)
  {
    exists n: nat, d: Digest :: DeliveredBy(w, blobs, None, allow, a, mirror, upstream, n, d)
  }

  /** Only the corrupt addresses matter. */
  lemma DeliverableByCorruption(w: Oracles, before: Blobs, after: Blobs, allow: bool, a: Artifact,
                                mirror: Option<Attempt>, upstream: seq<Attempt>)
    requires SameCorruption(w, before, after)
    ensures Deliverable(w, before, allow, a, mirror, upstream) <==> Deliverable(w, after, allow, a, mirror, upstream)
  {
    forall n: nat, d: Digest
      ensures DeliveredBy(w, before, None, allow, a, mirror, upstream, n, d)
         <==> DeliveredBy(w, after, None, allow, a, mirror, upstream, n, d)
    {
      if n < Allowed(allow, a, mirror, upstream) {
        PassedOverByCorruption(w, before, after, a, Contacts(mirror, upstream), mirror.Some?, n);
      }
    }
  }

  lemma {:induction false} PassedOverByCorruption(w: Oracles, before: Blobs, after: Blobs, a: Artifact,
                                                  contacts: seq<Attempt>, mirrored: bool, n: nat)
    requires SameCorruption(w, before, after) && n <= |contacts|
    ensures PassedOver(w, before, None, a, contacts, mirrored, n) <==>
            PassedOver(w, after, None, a, contacts, mirrored, n)
  {
    if n > 0 {
      PassedOverByCorruption(w, before, after, a, contacts, mirrored, n - 1);
      var d := AddressOf(w, contacts[n - 1]);
      assert CorruptAt(w, before, d) <==> CorruptAt(w, after, d);
    }
  }

  lemma ResolvedWasDeliverable(w: Oracles, allow: bool, disk: Disk, a: Artifact, mirror: Option<Attempt>,
                               upstream: seq<Attempt>)
    requires AllReport(Contacts(mirror, upstream)) && a.key !in disk.index
    requires Resolve(w, false, allow, disk, None, a, mirror, upstream).r.Ok?
    ensures Deliverable(w, disk.blobs, allow, a, mirror, upstream)
  {
    var after := Resolve(w, false, allow, disk, None, a, mirror, upstream);
    ResolvesExactly(w, false, allow, disk, None, a, mirror, upstream, after.tried, after.r.value);
    assert DeliveredBy(w, disk.blobs, None, allow, a, mirror, upstream, after.tried - 1, after.r.value);
  }

  /** An unlimited resolution of an absent key succeeds exactly when some contact delivers. */
  lemma AbsentKeyResolvesExactly(w: Oracles, allow: bool, disk: Disk, a: Artifact, mirror: Option<Attempt>,
                                 upstream: seq<Attempt>)
    requires AllReport(Contacts(mirror, upstream)) && a.key !in disk.index
    ensures Resolve(w, false, allow, disk, None, a, mirror, upstream).r.Ok? <==>
            Deliverable(w, disk.blobs, allow, a, mirror, upstream)
  {
    if Resolve(w, false, allow, disk, None, a, mirror, upstream).r.Ok? {
      ResolvedWasDeliverable(w, allow, disk, a, mirror, upstream);
    }
    if n: nat, d: Digest :| DeliveredBy(w, disk.blobs, None, allow, a, mirror, upstream, n, d) {
      ResolvesExactly(w, false, allow, disk, None, a, mirror, upstream, n + 1, d);
    }
  }
}
