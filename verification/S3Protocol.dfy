/** Many clients writing one immutable S3 key at once. Publications carry If-None-Match and
    repairs carry If-Match on an observed ETag (sections 13.1.2 and 13.1.1 of RFC 9110).
    Replies may be lost or replaced by errors after the server has applied a write. */
module S3Protocol {
  import opened Basics
  import opened ContentChecks
  import opened S3Writes

  type ETag = string

  /** One version of the object; `author` is the call that wrote it, if it was one of ours. */
  datatype Version = Version(meta: Meta, body: Bytes, etag: ETag, author: Option<nat>)

  /** A call: `repair` replaces the version it observed, otherwise it publishes. */
  datatype Call = Call(
    meta: Meta,
    body: Bytes,
    repair: bool,
    multipart: bool,
    observed: Option<nat>,
    pc: Phase)

  /** `log` lists every version the key has had; the last one is the object. */
  datatype World = World(log: seq<Version>, calls: map<nat, Call>)

  datatype Label =
    | Begin(id: nat, meta: Meta, body: Bytes, repair: bool)
    | Observe(id: nat)
    | Look(id: nat)
    | Send(id: nat, applied: bool, etag: ETag, reply: Reply)
    | Fail(id: nat)

  /** Does the precondition of a call hold now? */
  predicate Precondition(log: seq<Version>, c: Call) {
    if c.repair then
      c.observed.Some? && c.observed.value < |log| && log[|log| - 1].etag == log[c.observed.value].etag
    else log == []
  }

  predicate Next(w: Oracles, s: World, l: Label, s': World) {
    match l
    case Begin(id, meta, body, repair) =>
      // A local blob that does not match its digest and size is refused before any request.
      && id !in s.calls && w.sha(body) == meta.sha256 && |body| == meta.bytes
      && s' == s.(calls := s.calls[id := Call(meta, body, repair, meta.bytes > PART_BYTES, None,
                                              if repair then Observing else Heading)])
    case Observe(id) =>
      && id in s.calls && s.calls[id].pc == Observing && s.log != []
      && s' == s.(calls := s.calls[id := s.calls[id].(observed := Some(|s.log| - 1), pc := Putting(0))])
    case Look(id) =>
      id in s.calls &&
      var c := s.calls[id];
      && (c.pc == Heading || c.pc == Racing)
      && var head := if s.log == [] then NotFound else Found(s.log[|s.log| - 1].meta);
         s' == s.(calls := s.calls[id := c.(pc := AfterLook(c.pc, head, c.meta))])
    case Send(id, applied, etag, reply) =>
      id in s.calls && s.calls[id].pc.Putting? &&
      var c := s.calls[id];
      // The server applies a write only under its precondition, accepts only what it applied,
      // and reports a failed precondition only when it failed or the write was applied before.
      && (applied ==> Precondition(s.log, c))
      && (reply == Accepted ==> applied)
      && (reply == PreconditionFailed ==> applied || !Precondition(s.log, c))
      && s' == World(if applied then s.log + [Version(c.meta, c.body, etag, Some(id))] else s.log,
                     s.calls[id := c.(pc := AfterReply(c.repair, c.multipart, c.pc.attempt, reply))])
    case Fail(id) =>
      id in s.calls && !s.calls[id].pc.Done?
      && s' == s.(calls := s.calls[id := s.calls[id].(pc := Done(Err(Service)))])
  }

  /** At most one version exists before our calls begin. */
  predicate Init(s: World) {
    s.calls == map[] && |s.log| <= 1 && forall i | 0 <= i < |s.log| :: s.log[i].author == None
  }

  // ----- the invariant -----

  /** Version `n` was written by call `id`. */
  predicate Wrote(s: World, id: nat, n: nat) { n < |s.log| && s.log[n].author == Some(id) }

  /** A written version is its author's true content; a publication wrote the first version,
      a repair replaced the version with the ETag it had observed. */
  predicate VersionOk(w: Oracles, s: World, n: nat)
    requires n < |s.log| && s.log[n].author.Some?
  {
    s.log[n].author.value in s.calls &&
    var c := s.calls[s.log[n].author.value];
    && s.log[n].meta == c.meta
    && w.sha(s.log[n].body) == c.meta.sha256 && |s.log[n].body| == c.meta.bytes
    && (if c.repair
        then n > 0 && c.observed.Some? && c.observed.value < n && s.log[n - 1].etag == s.log[c.observed.value].etag
        else n == 0)
  }

  ghost predicate CallOk(w: Oracles, s: World, id: nat)
    requires id in s.calls
  {
    var c := s.calls[id];
    && w.sha(c.body) == c.meta.sha256 && |c.body| == c.meta.bytes
    && (c.observed.Some? ==> c.observed.value < |s.log|)
    && (c.pc == Observing ==> c.repair && c.observed == None)
    && (c.pc == Heading || c.pc == Racing ==> !c.repair)
    && (c.pc.Putting? ==> c.pc.attempt <= 2 && (c.repair ==> c.observed.Some?))
    && (c.pc == Done(Ok(Stored)) ==> exists n :: Wrote(s, id, n))
    && (c.pc == Done(Ok(AlreadyPresent)) ==> exists n :: 0 <= n < |s.log| && s.log[n].meta == c.meta)
  }

  ghost predicate Inv(w: Oracles, s: World) {
    && (forall n | 0 <= n < |s.log| && s.log[n].author.Some? :: VersionOk(w, s, n))
    && (forall id | id in s.calls :: CallOk(w, s, id))
  }

  lemma SendKeepsInv(w: Oracles, s: World, l: Label, s': World)
    requires Inv(w, s) && l.Send? && Next(w, s, l, s')
    ensures Inv(w, s')
  {
    var c := s.calls[l.id];
    assert CallOk(w, s, l.id);
    if l.applied { assert Wrote(s', l.id, |s.log|); }
    forall n | 0 <= n < |s'.log| && s'.log[n].author.Some? ensures VersionOk(w, s', n) {
      if n < |s.log| { assert VersionOk(w, s, n); }
    }
    forall id | id in s'.calls ensures CallOk(w, s', id) {
      if id != l.id { CallSurvives(w, s, s', id); }
    }
  }

  /** Growing the log disturbs no other call. */
  lemma CallSurvives(w: Oracles, s: World, s': World, id: nat)
    requires id in s.calls && id in s'.calls && s'.calls[id] == s.calls[id] && CallOk(w, s, id)
    requires s.log <= s'.log
    ensures CallOk(w, s', id)
  {
    var c := s.calls[id];
    if c.pc == Done(Ok(Stored)) {
      var n :| Wrote(s, id, n);
      assert Wrote(s', id, n);
    }
    if c.pc == Done(Ok(AlreadyPresent)) {
      var n :| 0 <= n < |s.log| && s.log[n].meta == c.meta;
      assert s'.log[n].meta == c.meta;
    }
  }

  lemma StepKeepsInv(w: Oracles, s: World, l: Label, s': World)
    requires Inv(w, s) && Next(w, s, l, s')
    ensures Inv(w, s')
  {
    if l.Send? {
      SendKeepsInv(w, s, l, s');
    } else {
      forall n | 0 <= n < |s'.log| && s'.log[n].author.Some? ensures VersionOk(w, s', n) {
        assert VersionOk(w, s, n);
        if l.Observe? { assert CallOk(w, s, l.id); }
      }
      forall id | id in s'.calls ensures CallOk(w, s', id) {
        if id != l.id { CallSurvives(w, s, s', id); }
        else if id in s.calls { assert CallOk(w, s, id); }
      }
    }
  }

  // ----- whole runs -----

  ghost predicate IsRun(w: Oracles, states: seq<World>, labels: seq<Label>) {
    && |states| == |labels| + 1 && Init(states[0])
    && forall i | 0 <= i < |labels| :: Next(w, states[i], labels[i], states[i + 1])
  }

  lemma {:induction false} RunKeepsInv(w: Oracles, states: seq<World>, labels: seq<Label>, i: nat)
    requires IsRun(w, states, labels) && i < |states|
    ensures Inv(w, states[i])
  {
    if i > 0 {
      RunKeepsInv(w, states, labels, i - 1);
      StepKeepsInv(w, states[i - 1], labels[i - 1], states[i]);
    }
  }

  /** Versions are only ever added. */
  lemma {:induction false} HistoryGrows(w: Oracles, states: seq<World>, labels: seq<Label>, i: nat, j: nat)
    requires IsRun(w, states, labels) && i <= j < |states|
    ensures states[i].log <= states[j].log
    decreases j - i
  {
    if i < j {
      HistoryGrows(w, states, labels, i, j - 1);
      assert Next(w, states[j - 1], labels[j - 1], states[j]);
    }
  }

  ghost predicate NoRepairs(s: World) { forall id | id in s.calls :: !s.calls[id].repair }

  /** Without repairs there is at most one version. */
  lemma OneVersion(w: Oracles, states: seq<World>, labels: seq<Label>, i: nat)
    requires IsRun(w, states, labels) && i < |states| && NoRepairs(states[i])
    ensures |states[i].log| <= 1
    decreases i
  {
    RunKeepsInv(w, states, labels, i);
    if |states[i].log| > 0 && i > 0 {
      var last := |states[i].log| - 1;
      if states[i].log[last].author.Some? {
        assert VersionOk(w, states[i], last);
      } else {
        OldVersions(w, states, labels, i, last);
      }
    }
  }

  /** A version nobody here wrote was there from the start. */
  lemma {:induction false} OldVersions(w: Oracles, states: seq<World>, labels: seq<Label>, i: nat, n: nat)
    requires IsRun(w, states, labels) && i < |states| && n < |states[i].log| && states[i].log[n].author == None
    ensures n == 0 && states[0].log != [] && states[0].log[0] == states[i].log[0]
  {
    if i > 0 {
      assert Next(w, states[i - 1], labels[i - 1], states[i]);
      OldVersions(w, states, labels, i - 1, n);
    }
  }

  /** Immutability: without repairs, once the object is present it never changes. */
  lemma PublishedObjectNeverChanges(w: Oracles, states: seq<World>, labels: seq<Label>, i: nat, j: nat)
    requires IsRun(w, states, labels) && i <= j < |states| && NoRepairs(states[j]) && states[i].log != []
    ensures states[j].log == states[i].log
  {
    HistoryGrows(w, states, labels, i, j);
    OneVersion(w, states, labels, j);
  }

  /** At most one publication ever reports that it stored the object, with or without
      repairs, and the first version is then its own true content. */
  lemma AtMostOneStored(w: Oracles, states: seq<World>, labels: seq<Label>, i: nat, a: nat, b: nat)
    requires IsRun(w, states, labels) && i < |states|
    requires a in states[i].calls && b in states[i].calls
    requires !states[i].calls[a].repair && !states[i].calls[b].repair
    requires states[i].calls[a].pc == Done(Ok(Stored)) && states[i].calls[b].pc == Done(Ok(Stored))
    ensures a == b
    ensures states[i].log != [] && states[i].log[0].meta == states[i].calls[a].meta
            && w.sha(states[i].log[0].body) == states[i].calls[a].meta.sha256
  {
    RunKeepsInv(w, states, labels, i);
    assert CallOk(w, states[i], a) && CallOk(w, states[i], b);
    var n :| Wrote(states[i], a, n);
    var m :| Wrote(states[i], b, m);
    assert VersionOk(w, states[i], n) && VersionOk(w, states[i], m);
  }

  /** Without repairs every call that succeeded, storing or finding the object, had the
      digest and length of the one object there is. */
  lemma SuccessfulCallsAgree(w: Oracles, states: seq<World>, labels: seq<Label>, i: nat, a: nat)
    requires IsRun(w, states, labels) && i < |states| && NoRepairs(states[i])
    requires a in states[i].calls && states[i].calls[a].pc.Done? && states[i].calls[a].pc.result.Ok?
    ensures |states[i].log| == 1 && states[i].log[0].meta == states[i].calls[a].meta
  {
    RunKeepsInv(w, states, labels, i);
    OneVersion(w, states, labels, i);
    var s := states[i];
    assert CallOk(w, s, a);
    if s.calls[a].pc.result.value == Stored {
      var n :| Wrote(s, a, n);
      assert VersionOk(w, s, n);
    } else {
      var n :| 0 <= n < |s.log| && s.log[n].meta == s.calls[a].meta;
    }
  }

  /** What a repair call's version `n` replaced, where ETags may recur: some version from the
      observed one on that carries the observed ETag. */
  ghost predicate Replaced(s: World, a: nat, n: nat)
    requires a in s.calls && n < |s.log|
  {
    var c := s.calls[a];
    && c.observed.Some? && c.observed.value < n
    && s.log[n].meta == c.meta && s.log[n - 1].etag == s.log[c.observed.value].etag
  }

  /** The ETag of version `from` does not come back before version `to`. */
  ghost predicate ETagIsFresh(log: seq<Version>, from: nat, to: nat)
    requires from < |log| && to <= |log|
  {
    forall m | from < m < to :: log[m].etag != log[from].etag
  }

  /** Every version a repair wrote replaced one with the very ETag it had observed, and a repair
      that reports success wrote one. It is the observed version itself that was replaced
      exactly when the ETag had not come back in between. */
  lemma RepairReplacesItsETag(w: Oracles, states: seq<World>, labels: seq<Label>, i: nat, a: nat)
    requires IsRun(w, states, labels) && i < |states| && a in states[i].calls && states[i].calls[a].repair
    ensures states[i].calls[a].pc == Done(Ok(Stored)) ==> exists n :: Wrote(states[i], a, n)
    ensures forall n | Wrote(states[i], a, n) ::
              && Replaced(states[i], a, n)
              && (n == states[i].calls[a].observed.value + 1 <==>
                  ETagIsFresh(states[i].log, states[i].calls[a].observed.value, n))
  {
    RunKeepsInv(w, states, labels, i);
    var s := states[i];
    assert CallOk(w, s, a);
    forall n | Wrote(s, a, n)
      ensures Replaced(s, a, n)
      ensures n == s.calls[a].observed.value + 1 <==> ETagIsFresh(s.log, s.calls[a].observed.value, n)
    {
      assert VersionOk(w, s, n);
      var from := s.calls[a].observed.value;
      if from + 1 < n { assert s.log[n - 1].etag == s.log[from].etag && from < n - 1; }
    }
  }

  ghost predicate DistinctETags(log: seq<Version>) {
    forall i, j | 0 <= i < j < |log| :: log[i].etag != log[j].etag
  }

  /** So no update is lost where ETags identify versions. */
  lemma RepairReplacesWhatItObserved(w: Oracles, states: seq<World>, labels: seq<Label>, i: nat, a: nat)
    requires IsRun(w, states, labels) && i < |states| && DistinctETags(states[i].log)
    requires a in states[i].calls && states[i].calls[a].repair && states[i].calls[a].pc == Done(Ok(Stored))
    ensures var s, c := states[i], states[i].calls[a];
            && c.observed.Some? && Wrote(s, a, c.observed.value + 1)
            && s.log[c.observed.value + 1].meta == c.meta
  {
    RepairReplacesItsETag(w, states, labels, i, a);
    var n :| Wrote(states[i], a, n);
    assert Replaced(states[i], a, n);
    assert n == states[i].calls[a].observed.value + 1;
  }

  // ----- two repairs of damaged metadata -----

  /** A repair that writes the same bytes again, at a point of its course. */
  function Mending(w: Oracles, observed: Option<nat>, pc: Phase): Call {
    Call(Meta(w.sha([]), 0), [], true, false, observed, pc)
  }

  /** The object with its bytes intact and its metadata damaged, and `n` mended versions of it;
      the server answers with the ETag of the bytes. */
  function MendedLog(w: Oracles, n: nat): seq<Version>
    requires n <= 2
  {
    var damaged := Version(Meta("", 0), [], "t", None);
    var good := Meta(w.sha([]), 0);
    [damaged, Version(good, [], "t", Some(0)), Version(good, [], "t", Some(1))][..n + 1]
  }

  function TwoRepairs(w: Oracles): seq<World> {
    var begun, sending := Mending(w, None, Observing), Mending(w, Some(0), Putting(0));
    var done := Mending(w, Some(0), Done(Ok(Stored)));
    [ World(MendedLog(w, 0), map[]),
      World(MendedLog(w, 0), map[0 := begun]),
      World(MendedLog(w, 0), map[0 := begun, 1 := begun]),
      World(MendedLog(w, 0), map[0 := sending, 1 := begun]),
      World(MendedLog(w, 0), map[0 := sending, 1 := sending]),
      World(MendedLog(w, 1), map[0 := done, 1 := sending]),
      World(MendedLog(w, 2), map[0 := done, 1 := done]) ]
  }

  function TwoRepairLabels(w: Oracles): seq<Label> {
    var meta := Meta(w.sha([]), 0);
    [ Begin(0, meta, [], true), Begin(1, meta, [], true), Observe(0), Observe(1),
      Send(0, true, "t", Accepted), Send(1, true, "t", Accepted) ]
  }

  lemma MendingGrows(w: Oracles)
    ensures MendedLog(w, 1) == MendedLog(w, 0) + [Version(Meta(w.sha([]), 0), [], "t", Some(0))]
    ensures MendedLog(w, 2) == MendedLog(w, 1) + [Version(Meta(w.sha([]), 0), [], "t", Some(1))]
  {
  }

  lemma TwoRepairsBegin(w: Oracles)
    ensures forall i | 0 <= i < 4 :: Next(w, TwoRepairs(w)[i], TwoRepairLabels(w)[i], TwoRepairs(w)[i + 1])
  {
  }

  lemma TwoRepairsSend(w: Oracles)
    ensures forall i | 4 <= i < 6 :: Next(w, TwoRepairs(w)[i], TwoRepairLabels(w)[i], TwoRepairs(w)[i + 1])
  {
    MendingGrows(w);
  }

  /** The premise of distinct ETags matters: two repairs of damaged metadata observe the same
      version and write the same bytes, whose ETag does not change; both report success, and
      the second replaced what the first had written. */
  lemma SecondRepairReplacesTheFirst(w: Oracles)
    ensures IsRun(w, TwoRepairs(w), TwoRepairLabels(w))
    ensures var s := TwoRepairs(w)[6];
            && s.calls[1].repair && s.calls[1].pc == Done(Ok(Stored)) && s.calls[1].observed == Some(0)
            && s.calls[0].pc == Done(Ok(Stored)) && Wrote(s, 0, 1) && Wrote(s, 1, 2) && !Wrote(s, 1, 1)
  {
    TwoRepairsBegin(w);
    TwoRepairsSend(w);
    MendingGrows(w);
  }

  /** The retry counter never passes its bound, so the retry loop always ends in a result. */
  lemma RetriesAreBounded(w: Oracles, states: seq<World>, labels: seq<Label>, i: nat, a: nat)
    requires IsRun(w, states, labels) && i < |states| && a in states[i].calls && states[i].calls[a].pc.Putting?
    ensures states[i].calls[a].pc.attempt <= 2
    ensures var c := states[i].calls[a];
            forall reply :: AfterReply(c.repair, c.multipart, c.pc.attempt, reply).Putting? ==> c.pc.attempt < 2
  {
    RunKeepsInv(w, states, labels, i);
    assert CallOk(w, states[i], a);
  }

  // ----- the loops are the calls -----

  /** The replies a run gave to the requests of one call. */
  function RepliesTo(labels: seq<Label>, id: nat): seq<Reply> {
    if labels == [] then []
    else
      var last := labels[|labels| - 1];
      RepliesTo(labels[..|labels| - 1], id) + if last.Send? && last.id == id then [last.reply] else []
  }

  lemma RepliesGrow(labels: seq<Label>, i: nat, id: nat)
    requires i < |labels|
    ensures RepliesTo(labels[..i + 1], id) ==
            RepliesTo(labels[..i], id) + if labels[i].Send? && labels[i].id == id then [labels[i].reply] else []
  {
    assert labels[..i + 1][..i] == labels[..i];
  }

  lemma OneMoreReply(repair: bool, multipart: bool, replies: seq<Reply>, reply: Reply)
    ensures var before, after := AfterReplies(repair, multipart, replies),
                                 AfterReplies(repair, multipart, replies + [reply]);
            after == if before.Putting? then AfterReply(repair, multipart, before.attempt, reply) else before
  {
    assert (replies + [reply])[..|replies|] == replies;
  }

  /** What a call has become, given the replies it got: while it writes it stands where the loop
      stands after those replies, and it ends as the loop does, for some look, unless it failed
      on its own before the replies decided anything. */
  ghost predicate Follows(c: Call, replies: seq<Reply>) {
    match c.pc
    case Observing => replies == []
    case Heading => replies == []
    case Done(r) =>
      if r == Err(Service) && !AfterReplies(c.repair, c.multipart, replies).Done? then true
      else if replies == [] then !c.repair && exists head :: AfterLook(Heading, head, c.meta) == c.pc
      else exists race :: Concluded(AfterReplies(c.repair, c.multipart, replies), race, c.meta) == c.pc
    case _ => AfterReplies(c.repair, c.multipart, replies) == c.pc
  }

  lemma StepFollows(w: Oracles, s: World, l: Label, s': World, id: nat, replies: seq<Reply>)
    requires Inv(w, s) && Next(w, s, l, s') && id in s'.calls
    requires if id in s.calls then Follows(s.calls[id], replies) else replies == []
    ensures Follows(s'.calls[id], replies + if l.Send? && l.id == id then [l.reply] else [])
  {
    if l.Send? && l.id == id {
      assert CallOk(w, s, id);
      OneMoreReply(s.calls[id].repair, s.calls[id].multipart, replies, l.reply);
      var after := AfterReplies(s.calls[id].repair, s.calls[id].multipart, replies + [l.reply]);
      assert Concluded(after, HeadFailed, s.calls[id].meta) == after || after.Racing?;
    } else {
      assert replies + [] == replies;
      if l.Look? && l.id == id { LookFollows(w, s, l, s', replies); }
    }
  }

  lemma LookFollows(w: Oracles, s: World, l: Label, s': World, replies: seq<Reply>)
    requires Inv(w, s) && l.Look? && Next(w, s, l, s') && Follows(s.calls[l.id], replies)
    ensures Follows(s'.calls[l.id], replies)
  {
    var c := s.calls[l.id];
    assert CallOk(w, s, l.id);
    var head := if s.log == [] then NotFound else Found(s.log[|s.log| - 1].meta);
    if c.pc == Racing {
      RacingHasReplies(c.repair, c.multipart, replies);
      assert Concluded(AfterReplies(c.repair, c.multipart, replies), head, c.meta) == s'.calls[l.id].pc;
    } else {
      assert AfterLook(Heading, head, c.meta) == s'.calls[l.id].pc;
    }
  }

  lemma RacingHasReplies(repair: bool, multipart: bool, replies: seq<Reply>)
    requires AfterReplies(repair, multipart, replies).Racing?
    ensures replies != []
  {
  }

  lemma {:induction false} CallsFollowTheLoop(w: Oracles, states: seq<World>, labels: seq<Label>, i: nat, id: nat)
    requires IsRun(w, states, labels) && i < |states| && id in states[i].calls
    ensures Follows(states[i].calls[id], RepliesTo(labels[..i], id))
  {
    var s, l, s' := states[i - 1], labels[i - 1], states[i];
    assert Next(w, s, l, s');
    RunKeepsInv(w, states, labels, i - 1);
    RepliesGrow(labels, i - 1, id);
    if id in s.calls {
      CallsFollowTheLoop(w, states, labels, i - 1, id);
    } else {
      UnbegunHasNoReplies(w, states, labels, i - 1, id);
    }
    StepFollows(w, s, l, s', id, RepliesTo(labels[..i - 1], id));
  }

  lemma {:induction false} UnbegunHasNoReplies(w: Oracles, states: seq<World>, labels: seq<Label>, i: nat, id: nat)
    requires IsRun(w, states, labels) && i < |states| && id !in states[i].calls
    ensures RepliesTo(labels[..i], id) == []
  {
    if i > 0 {
      assert Next(w, states[i - 1], labels[i - 1], states[i]);
      RepliesGrow(labels, i - 1, id);
      UnbegunHasNoReplies(w, states, labels, i - 1, id);
    }
  }

  /** A retry loop or a completion that was answered as call `id` of the run, and reports Stored. */
  ghost predicate LoopStored(labels: seq<Label>, i: nat, id: nat, c: Call, race: Head)
    requires i <= |labels|
  {
    Concluded(AfterReplies(c.repair, c.multipart, RepliesTo(labels[..i], id)), race, c.meta) == Done(Ok(Stored))
  }

  /** Of all the retry loops and completions whose requests were answered in one run, at most one
      publication reports Stored, and the first version is then its content. */
  lemma AtMostOneLoopStores(w: Oracles, states: seq<World>, labels: seq<Label>, i: nat, a: nat, b: nat,
                            raceA: Head, raceB: Head)
    requires IsRun(w, states, labels) && i < |states| && a in states[i].calls && b in states[i].calls
    requires !states[i].calls[a].repair && !states[i].calls[b].repair
    requires LoopStored(labels, i, a, states[i].calls[a], raceA) && LoopStored(labels, i, b, states[i].calls[b], raceB)
    ensures a == b
    ensures states[i].log != [] && states[i].log[0].meta == states[i].calls[a].meta
  {
    CallsFollowTheLoop(w, states, labels, i, a);
    CallsFollowTheLoop(w, states, labels, i, b);
    AtMostOneStored(w, states, labels, i, a, b);
  }

  // ----- calls that are left alone -----

  function Alone(log: seq<Version>, c: Call): World { World(log, map[0 := c]) }

  function Fresh(w: Oracles, body: Bytes, repair: bool, pc: Phase): Call {
    Call(Meta(w.sha(body), |body|), body, repair, |body| > PART_BYTES, None, pc)
  }

  /** A publication that meets nobody else stores its body where there was nothing, finds its own
      content there, or reports that the content differs. */
  lemma LonePublicationEnds(w: Oracles, log: seq<Version>, body: Bytes, etag: ETag)
    returns (states: seq<World>, labels: seq<Label>)
    requires Init(World(log, map[]))
    ensures IsRun(w, states, labels) && states[0] == World(log, map[])
    ensures var last, meta := states[|labels|], Meta(w.sha(body), |body|);
            && 0 in last.calls && last.calls[0].body == body && last.calls[0].meta == meta && !last.calls[0].repair
            && (if log == []
                then last.calls[0].pc == Done(Ok(Stored)) && last.log == [Version(meta, body, etag, Some(0))]
                else last.log == log
                     && last.calls[0].pc == Done(if log[0].meta == meta then Ok(AlreadyPresent)
                                                 else Err(DifferentContent)))
  {
    var meta := Meta(w.sha(body), |body|);
    var begun := Alone(log, Fresh(w, body, false, Heading));
    assert Next(w, World(log, map[]), Begin(0, meta, body, false), begun);
    if log == [] {
      var putting := Alone(log, Fresh(w, body, false, Putting(0)));
      var done := Alone([Version(meta, body, etag, Some(0))], Fresh(w, body, false, Done(Ok(Stored))));
      assert Next(w, begun, Look(0), putting);
      assert log + [Version(meta, body, etag, Some(0))] == done.log;
      assert Next(w, putting, Send(0, true, etag, Accepted), done);
      states, labels := [World(log, map[]), begun, putting, done],
                        [Begin(0, meta, body, false), Look(0), Send(0, true, etag, Accepted)];
    } else {
      var done := Alone(log, Fresh(w, body, false, Done(ExistingAfterRace(Found(log[0].meta), meta))));
      assert Next(w, begun, Look(0), done);
      states, labels := [World(log, map[]), begun, done], [Begin(0, meta, body, false), Look(0)];
    }
  }

  /** A repair that meets nobody else replaces whatever object there is. */
  lemma LoneRepairStores(w: Oracles, found: Version, body: Bytes, etag: ETag)
    returns (states: seq<World>, labels: seq<Label>)
    requires found.author == None
    ensures IsRun(w, states, labels) && states[0] == World([found], map[])
    ensures var last := states[|labels|];
            && 0 in last.calls && last.calls[0].pc == Done(Ok(Stored))
            && last.log == [found, Version(Meta(w.sha(body), |body|), body, etag, Some(0))]
  {
    var log, meta := [found], Meta(w.sha(body), |body|);
    var begun := Alone(log, Fresh(w, body, true, Observing));
    var putting := Alone(log, Fresh(w, body, true, Putting(0)).(observed := Some(0)));
    var done := Alone(log + [Version(meta, body, etag, Some(0))],
                      Fresh(w, body, true, Done(Ok(Stored))).(observed := Some(0)));
    assert Next(w, World(log, map[]), Begin(0, meta, body, true), begun);
    assert Next(w, begun, Observe(0), putting);
    assert Next(w, putting, Send(0, true, etag, Accepted), done);
    states, labels := [World(log, map[]), begun, putting, done],
                      [Begin(0, meta, body, true), Observe(0), Send(0, true, etag, Accepted)];
  }
}
