/** Conditional writes of one object: the PUT retry loop and multipart slicing. */
module S3Writes {
  import opened Basics
  import opened ContentChecks

  /** The metadata an object carries: the digest and length of its body. */
  datatype Meta = Meta(sha256: Digest, bytes: nat)

  datatype PutOutcome = Stored | AlreadyPresent

  datatype Failure = LocalMismatch | DifferentContent | RacedWithDeletion | Service | TooManyParts | PartFailed

  /** The status a conditional write gets back. */
  datatype Reply = Accepted | Conflict | PreconditionFailed | OtherError

  /** What a HEAD request finds. */
  datatype Head = Found(existing: Meta) | NotFound | HeadFailed

  const PART_BYTES: nat := 64 * 1024 * 1024
  const MAX_PARTS: nat := 10000
  const I32_MAX: nat := 0x7FFF_FFFF

  function MatchingExisting(existing: Meta, proposed: Meta): Result<PutOutcome, Failure> {
    if existing == proposed then Ok(AlreadyPresent) else Err(DifferentContent)
  }

  function ExistingAfterRace(head: Head, meta: Meta): Result<PutOutcome, Failure> {
    match head
    case HeadFailed => Err(Service)
    case NotFound => Err(RacedWithDeletion)
    case Found(existing) => MatchingExisting(existing, meta)
  }

  /** Where a call stands. */
  datatype Phase =
    | Observing                 // repair: read the ETag to replace
    | Heading                   // publication: look before writing
    | Putting(attempt: nat)
    | Racing                    // look again after a failed precondition
    | Done(result: Result<PutOutcome, Failure>)

  /** Where a call goes after a reply: conflicts are retried at most twice, and only for
      single-request writes. */
  function AfterReply(repair: bool, multipart: bool, attempt: nat, reply: Reply): Phase {
    match reply
    case Accepted => Done(Ok(Stored))
    case PreconditionFailed => if repair then Done(Err(Service)) else Racing
    case Conflict => if !multipart && attempt < 2 then Putting(attempt + 1) else Done(Err(Service))
    case OtherError => Done(Err(Service))
  }

  /** Where a look leads. */
  function AfterLook(phase: Phase, head: Head, meta: Meta): Phase {
    if phase.Heading? && head == NotFound then Putting(0) else Done(ExistingAfterRace(head, meta))
  }

  /** A call that has begun to write, after these replies to its requests. */
  function AfterReplies(repair: bool, multipart: bool, replies: seq<Reply>): Phase {
    if replies == [] then Putting(0)
    else
      var before := AfterReplies(repair, multipart, replies[..|replies| - 1]);
      if before.Putting? then AfterReply(repair, multipart, before.attempt, replies[|replies| - 1]) else before
  }

  /** The same call once it has looked, if it has to. */
  function Concluded(phase: Phase, race: Head, meta: Meta): Phase {
    if phase.Racing? then AfterLook(phase, race, meta) else phase
  }

  /** What a caller may conclude from the result about the last reply and the look after it. */
  ghost predicate Answers(r: Result<PutOutcome, Failure>, last: Reply, repair: bool, race: Head, meta: Meta) {
    var looked := last == PreconditionFailed && !repair;
    && (r == Ok(Stored) <==> last == Accepted)
    && (r == Ok(AlreadyPresent) <==> looked && race == Found(meta))
    && (r == Err(DifferentContent) <==> looked && race.Found? && race.existing != meta)
    && (r == Err(RacedWithDeletion) <==> looked && race == NotFound)
    && (r.Err? ==> r.error in {DifferentContent, RacedWithDeletion, Service})
  }

  /** The single-request write: at most three requests, retrying conflicts. `replies` is what
      the server would answer to each request in turn. */
  method PutWithRetry(meta: Meta, repair: bool, replies: seq<Reply>, race: Head)
    returns (r: Result<PutOutcome, Failure>, sent: nat)
    requires |replies| == 3
    ensures 1 <= sent <= 3 && forall i | 0 <= i < sent - 1 :: replies[i] == Conflict
    ensures replies[sent - 1] == Conflict ==> sent == 3
    // Stored exactly if the last request was accepted, present exactly if it lost to an equal object.
    ensures Answers(r, replies[sent - 1], repair, race, meta)
    // It is the call of the concurrent protocol: still writing before each request, done after the last.
    ensures forall n | 0 <= n < sent :: AfterReplies(repair, false, replies[..n]) == Putting(n)
    ensures Concluded(AfterReplies(repair, false, replies[..sent]), race, meta) == Done(r)
  {
    for attempt := 0 to 3
      invariant forall i | 0 <= i < attempt :: replies[i] == Conflict
      invariant attempt < 3
      invariant forall n | 0 <= n <= attempt :: AfterReplies(repair, false, replies[..n]) == Putting(n)
    {
      assert replies[..attempt + 1][..attempt] == replies[..attempt];
      assert AfterReplies(repair, false, replies[..attempt + 1]) ==
             AfterReply(repair, false, attempt, replies[attempt]);
      match replies[attempt] {
        case Accepted => return Ok(Stored), attempt + 1;
        case PreconditionFailed =>
          if !repair { return ExistingAfterRace(race, meta), attempt + 1; }
        case _ =>
      }
      if replies[attempt] == Conflict && attempt < 2 { continue; }
      return Err(Service), attempt + 1;
    }
    // The loop never falls through.
    assert false;
  }

  // ----- multipart -----

  datatype Part = Part(number: nat, offset: nat, length: nat)

  function DivCeil(a: nat, b: nat): nat
    requires b > 0
  {
    (a + b - 1) / b
  }

  function PartSize(bytes: nat): nat { Max(PART_BYTES, DivCeil(bytes, MAX_PARTS)) }

  function Slice(body: Bytes, p: Part): Bytes
    requires p.offset + p.length <= |body|
  {
    body[p.offset..p.offset + p.length]
  }

  /** The parts start at the front, follow one another without gap or overlap, are numbered
      from one, and all but the last have the full part size. */
  ghost predicate Tiles(parts: seq<Part>, size: nat, bytes: nat) {
    forall i | 0 <= i < |parts| ::
      && parts[i].number == i + 1
      && parts[i].offset == i * size
      && parts[i].offset + parts[i].length <= bytes
      && parts[i].length > 0
      && (parts[i].length == size || (parts[i].length < size && parts[i].offset + parts[i].length == bytes))
  }

  function Reach(parts: seq<Part>): nat {
    if parts == [] then 0 else parts[|parts| - 1].offset + parts[|parts| - 1].length
  }

  lemma PartSizeSuffices(bytes: nat)
    ensures PartSize(bytes) >= PART_BYTES && bytes <= MAX_PARTS * PartSize(bytes)
  {
    var q := DivCeil(bytes, MAX_PARTS);
    assert MAX_PARTS * q >= bytes;
  }

  /** A part that still starts inside the body is among the first ten thousand. */
  lemma PartCountIsBounded(n: nat, size: nat, bytes: nat)
    requires bytes <= MAX_PARTS * size && n * size < bytes
    ensures n < MAX_PARTS
  {
    assert (MAX_PARTS - n) * size == MAX_PARTS * size - n * size;
    PositiveFactor(MAX_PARTS - n, size);
  }

  lemma PositiveFactor(a: int, b: nat)
    requires a * b > 0
    ensures a > 0
  {
  }

  function Joined(body: Bytes, parts: seq<Part>): Bytes
    requires forall i | 0 <= i < |parts| :: parts[i].offset + parts[i].length <= |body|
  {
    if parts == [] then []
    else Joined(body, parts[..|parts| - 1]) + Slice(body, parts[|parts| - 1])
  }

  /** The uploaded parts, in order, are exactly the file up to where they reach. */
  lemma {:induction false} TilesJoin(body: Bytes, parts: seq<Part>, size: nat)
    requires Tiles(parts, size, |body|)
    ensures Reach(parts) <= |body| && Joined(body, parts) == body[..Reach(parts)]
    decreases |parts|
  {
    if parts != [] {
      var front, last := parts[..|parts| - 1], parts[|parts| - 1];
      TilesJoin(body, front, size);
      assert Reach(front) == last.offset by {
        if front != [] {
          var prev := front[|front| - 1];
          assert prev == parts[|parts| - 2];
          if prev.length < size { FullBefore(parts, size, |body|, |parts| - 2); }
          assert prev.offset + size == last.offset by { NextOffset(|parts| - 2, size); }
        }
      }
      assert body[..last.offset] + Slice(body, last) == body[..last.offset + last.length];
    }
  }

  lemma NextOffset(i: nat, size: nat)
    ensures i * size + size == (i + 1) * size
  {
  }

  /** A part followed by another is full. */
  lemma FullBefore(parts: seq<Part>, size: nat, bytes: nat, i: nat)
    requires Tiles(parts, size, bytes) && i + 1 < |parts|
    ensures parts[i].length == size
  {
    NextOffset(i, size);
    assert parts[i + 1].offset == parts[i].offset + size;
    assert parts[i + 1].offset < bytes;
  }

  lemma NextPart(parts: seq<Part>, size: nat, bytes: nat)
    requires Tiles(parts, size, bytes) && Reach(parts) == |parts| * size < bytes && size > 0
    ensures var length := Min(size, bytes - Reach(parts));
            var longer := parts + [Part(|parts| + 1, Reach(parts), length)];
            && Tiles(longer, size, bytes) && Reach(longer) == Reach(parts) + length
            && (Reach(longer) < bytes ==> Reach(longer) == |longer| * size)
  {
    NextOffset(|parts|, size);
  }

  /** Upload the parts one after another; the first that is not stored, or whose number does
      not fit the protocol, ends it. */
  method UploadParts(bytes: nat, size: nat, partOk: nat -> bool)
    returns (parts: seq<Part>, failure: Option<Failure>)
    requires size > 0 && bytes <= MAX_PARTS * size
    ensures Tiles(parts, size, bytes) && |parts| <= MAX_PARTS && Reach(parts) <= bytes
    ensures forall i | 0 <= i < |parts| :: partOk(parts[i].number)
    ensures failure == if Reach(parts) == bytes then None else Some(PartFailed)
    ensures failure.Some? ==> !partOk(|parts| + 1)
  {
    parts := [];
    var offset: nat := 0;
    while offset < bytes
      invariant Tiles(parts, size, bytes) && |parts| <= MAX_PARTS && offset == Reach(parts) <= bytes
      invariant offset < bytes ==> offset == |parts| * size
      invariant forall i | 0 <= i < |parts| :: partOk(parts[i].number)
      decreases bytes - offset
    {
      PartCountIsBounded(|parts|, size, bytes);
      var length := Min(size, bytes - offset);
      var number := |parts| + 1;
      if number > I32_MAX { return parts, Some(TooManyParts); }
      if !partOk(number) { return parts, Some(PartFailed); }
      NextPart(parts, size, bytes);
      parts := parts + [Part(number, offset, length)];
      offset := offset + length;
    }
    failure := None;
  }

  /** Ask for the upload to be put together, and look if somebody else was first. */
  method Complete(meta: Meta, repair: bool, reply: Reply, race: Head) returns (r: Result<PutOutcome, Failure>)
    ensures Answers(r, reply, repair, race, meta)
    ensures Concluded(AfterReplies(repair, true, [reply]), race, meta) == Done(r)
  {
    assert [reply][..0] == [];
    assert AfterReplies(repair, true, [reply]) == AfterReply(repair, true, 0, reply);
    match reply {
      case Accepted => return Ok(Stored);
      case PreconditionFailed =>
        if !repair { return ExistingAfterRace(race, meta); }
      case _ =>
    }
    r := Err(Service);
  }

  /** Upload a body in parts. `partOk(n)` says whether part `n` is stored with its ETag and
      checksum; `reply` and `race` are what the completion and a racing HEAD see. */
  method Multipart(body: Bytes, meta: Meta, repair: bool, partOk: nat -> bool, reply: Reply, race: Head)
    returns (r: Result<PutOutcome, Failure>, parts: seq<Part>, completed: bool, aborted: bool)
    requires |body| == meta.bytes
    ensures Tiles(parts, PartSize(meta.bytes), meta.bytes) && |parts| <= MAX_PARTS
    ensures r != Err(TooManyParts)
    ensures forall i | 0 <= i < |parts| :: partOk(parts[i].number)
    ensures Joined(body, parts) <= body
    // Completion is requested only for the whole file, and an upload that did not store the
    // object is always aborted.
    ensures completed <==> Joined(body, parts) == body
    ensures completed ==> Answers(r, reply, repair, race, meta)
                          && Concluded(AfterReplies(repair, true, [reply]), race, meta) == Done(r)
    ensures !completed ==> r == Err(PartFailed) && !partOk(|parts| + 1)
    ensures aborted <==> !(completed && reply == Accepted)
  {
    PartSizeSuffices(meta.bytes);
    var failure;
    parts, failure := UploadParts(meta.bytes, PartSize(meta.bytes), partOk);
    TilesJoin(body, parts, PartSize(meta.bytes));
    completed := failure == None;
    if completed { r := Complete(meta, repair, reply, race); } else { r := Err(failure.value); }
    aborted := r != Ok(Stored);
  }

  /** A conditional write: refuse a body that is not what the metadata says, look before a
      publication, then send it whole or in parts. `head`, `replies`, `partOk` and `race` are what
      the requests would be answered; `answered` lists the replies that decided. */
  method WriteObject(w: Oracles, body: Bytes, meta: Meta, repair: bool, head: Head, replies: seq<Reply>,
                     partOk: nat -> bool, race: Head)
    returns (r: Result<PutOutcome, Failure>, answered: seq<Reply>)
    requires |replies| == 3
    ensures w.sha(body) != meta.sha256 || |body| != meta.bytes ==> r == Err(LocalMismatch) && answered == []
    ensures w.sha(body) == meta.sha256 && |body| == meta.bytes ==>
              if !repair && head != NotFound then Done(r) == AfterLook(Heading, head, meta) && answered == []
              else if answered == [] then r == Err(PartFailed) && meta.bytes > PART_BYTES
              else Concluded(AfterReplies(repair, meta.bytes > PART_BYTES, answered), race, meta) == Done(r)
    // It reports Stored exactly if the last thing it asked for was accepted.
    ensures r == Ok(Stored) <==> answered != [] && answered[|answered| - 1] == Accepted
  {
    if w.sha(body) != meta.sha256 || |body| != meta.bytes { return Err(LocalMismatch), []; }
    if !repair && head != NotFound { return ExistingAfterRace(head, meta), []; }
    if meta.bytes > PART_BYTES {
      var parts, completed, aborted;
      r, parts, completed, aborted := Multipart(body, meta, repair, partOk, replies[0], race);
      answered := if completed then [replies[0]] else [];
    } else {
      var sent;
      r, sent := PutWithRetry(meta, repair, replies, race);
      answered := replies[..sent];
    }
  }
}
