/** What the receiving writer guarantees for every producer and every chunking. */
module TransferLaws {
  import opened Basics
  import opened ContentChecks
  import opened Receiving

  function FullWrites(chunks: seq<Bytes>): seq<Write> {
    seq(|chunks|, i requires 0 <= i < |chunks| => Write(chunks[i], Full))
  }

  ghost predicate AllFull(ws: seq<Write>) { forall i | 0 <= i < |ws| :: ws[i].fate.Full? }

  /** Everything a producer tried to write. */
  function Sent(ws: seq<Write>): Bytes {
    if ws == [] then [] else ws[0].chunk + Sent(ws[1..])
  }

  function Attempted(ws: seq<Write>): nat {
    if ws == [] then 0 else |ws[0].chunk| + Attempted(ws[1..])
  }

  // ----- chunk independence -----

  /** Validate the whole body at once. */
  function Whole(w: Oracles, c: ContentCheck, body: Bytes): Result<Option<Received>, Error> {
    var v := CheckPrefix(w, c, Head(body));
    if v.Fail? then Err(ContentRejected(v.check))
    else Ok(Some(Received(body, w.sha(body), |body|)))
  }

  /** A writer within its budget after the bytes `sent`, however they were cut up and whatever
      became of them on disk. Only a rejected or torn writer's file depends on the cuts. */
  ghost predicate Tracks(w: Oracles, c: ContentCheck, s: Recv, sent: Bytes, full: bool) {
    var v := CheckPrefix(w, c, Head(sent));
    && !s.limitExceeded
    && s.head == Head(sent) && (s.prefixChecked <==> |sent| >= PREFIX_BYTES)
    && s.rejected == (if s.prefixChecked && v.Fail? then Some(v.check) else None)
    && (s.rejected == None && full ==> s.file == sent && s.hashed == sent)
  }

  ghost predicate HasRoom(s: Recv, n: nat) { s.left.Some? ==> n <= s.left.value }

  lemma TrackingStep(w: Oracles, c: ContentCheck, s: Recv, sent: Bytes, full: bool, wr: Write)
    requires Sound(s) && Tracks(w, c, s, sent, full) && HasRoom(s, |wr.chunk|)
    ensures var (s', r) := Step(w, c, s, wr);
            && Tracks(w, c, s', sent + wr.chunk, full && wr.fate.Full?)
            && s'.left == (if s.left.Some? then Some(s.left.value - |wr.chunk|) else None)
            && (wr.fate.Full? ==> r in {Written, PrefixRejected} && (r == Written <==> s'.rejected == None))
  {
    assert Head(sent + wr.chunk) == s.head + wr.chunk[..Min(PREFIX_BYTES - |s.head|, |wr.chunk|)];
    assert s.prefixChecked ==> Head(sent + wr.chunk) == Head(sent);
  }

  lemma {:induction false} TrackingRun(w: Oracles, c: ContentCheck, s: Recv, sent: Bytes, full: bool, ws: seq<Write>)
    requires Sound(s) && Tracks(w, c, s, sent, full) && HasRoom(s, Attempted(ws))
    ensures Tracks(w, c, Writes(w, c, s, ws), sent + Sent(ws), full && AllFull(ws))
    decreases |ws|
  {
    if ws == [] {
      assert sent + [] == sent;
    } else {
      StepIsSound(w, c, s, ws[0]);
      TrackingStep(w, c, s, sent, full, ws[0]);
      TrackingRun(w, c, Step(w, c, s, ws[0]).0, sent + ws[0].chunk, full && ws[0].fate.Full?, ws[1..]);
      assert sent + ws[0].chunk + Sent(ws[1..]) == sent + Sent(ws);
    }
  }

  /** The head was complete, and rejected, before the producer ended. */
  predicate RejectedEarly(w: Oracles, c: ContentCheck, body: Bytes) {
    |body| >= PREFIX_BYTES && CheckPrefix(w, c, Head(body)).Fail?
  }

  /** What a producer within its limit gets, told by everything it tried to write and by how it
      ended: the cuts do not matter, nor does what became of the writes, save for the content
      of a body that was not written in full. */
  lemma OutcomeIsOfTheBody(w: Oracles, c: ContentCheck, left: Option<nat>, run: Run)
    requires left.Some? ==> Attempted(run.writes) <= left.value
    ensures var r, body := Outcome(w, c, left, run), Sent(run.writes);
            var v := CheckPrefix(w, c, Head(body));
            match run.end
            case Served => if v.Fail? || AllFull(run.writes) then r == Whole(w, c, body) else r.Ok? && r.value.Some?
            case Absent => r == if RejectedEarly(w, c, body) then Err(ContentRejected(v.check)) else Ok(None)
            case Failed(e) =>
              r == Err(if e == IoError && RejectedEarly(w, c, body) then ContentRejected(v.check) else e)
  {
    assert Head([]) == [];
    TrackingRun(w, c, Fresh(left), [], true, run.writes);
    assert [] + Sent(run.writes) == Sent(run.writes);
  }

  lemma {:induction false} FullWritesSend(chunks: seq<Bytes>)
    ensures Sent(FullWrites(chunks)) == Concat(chunks) && AllFull(FullWrites(chunks))
  {
    if chunks != [] {
      assert FullWrites(chunks)[1..] == FullWrites(chunks[1..]);
      FullWritesSend(chunks[1..]);
    }
  }

  /** Every way of cutting a body into writes gives the outcome of validating the whole
      body: the same rejection, or the same content, digest and length. A rejection
      happens exactly when the first 8192 bytes (or a shorter whole body) are rejected. */
  lemma ChunkingIsIrrelevant(w: Oracles, c: ContentCheck, chunks: seq<Bytes>)
    ensures Outcome(w, c, None, Run(FullWrites(chunks), Served)) == Whole(w, c, Concat(chunks))
  {
    OutcomeIsOfTheBody(w, c, None, Run(FullWrites(chunks), Served));
    FullWritesSend(chunks);
  }

  /** A producer that stops at its first failed write and reports the I/O error. */
  function Stream(w: Oracles, c: ContentCheck, s: Recv, chunks: seq<Bytes>): (Recv, End)
    requires Sound(s)
    decreases |chunks|
  {
    if chunks == [] then (s, Served)
    else
      StepIsSound(w, c, s, Write(chunks[0], Full));
      var (s', r) := Step(w, c, s, Write(chunks[0], Full));
      if r == Written then Stream(w, c, s', chunks[1..]) else (s', Failed(IoError))
  }

  /** Such a producer gets the same outcome, although it stops early. */
  lemma {:induction false} StoppingEarlyIsIrrelevant(w: Oracles, c: ContentCheck, s: Recv, sent: Bytes,
                                                     chunks: seq<Bytes>)
    requires Sound(s) && s.left == None && Tracks(w, c, s, sent, true) && s.rejected == None
    ensures var (s', end) := Stream(w, c, s, chunks);
            Conclude(w, c, s', end) == Whole(w, c, sent + Concat(chunks))
    decreases |chunks|
  {
    if chunks == [] {
      assert sent + [] == sent;
    } else {
      var (s', r) := Step(w, c, s, Write(chunks[0], Full));
      TrackingStep(w, c, s, sent, true, Write(chunks[0], Full));
      assert sent + chunks[0] + Concat(chunks[1..]) == sent + Concat(chunks);
      if r == Written {
        StoppingEarlyIsIrrelevant(w, c, s', sent + chunks[0], chunks[1..]);
      } else {
        assert Head(sent + Concat(chunks)) == Head(sent + chunks[0]);
      }
    }
  }

  // ----- the byte budget -----

  lemma {:induction false} BudgetLedger(w: Oracles, c: ContentCheck, s: Recv, ws: seq<Write>)
    requires Sound(s) && s.left.Some?
    ensures var s' := Writes(w, c, s, ws);
            && s'.left.Some? && s'.left.value <= s.left.value
            && |s'.file| - |s.file| <= s.left.value - s'.left.value
            && (s'.limitExceeded <==> s.limitExceeded || Attempted(ws) > s.left.value)
            && (!s'.limitExceeded ==> s.left.value - s'.left.value == Attempted(ws))
    decreases |ws|
  {
    if ws != [] {
      StepIsSound(w, c, s, ws[0]);
      BudgetLedger(w, c, Step(w, c, s, ws[0]).0, ws[1..]);
    }
  }

  /** A limited transfer ends in TransferLimit exactly when the producer tried to write more
      than the limit in total, whatever it made of the refused writes, or reports that very
      error itself. The file never holds more than was charged. */
  lemma LimitIsExact(w: Oracles, c: ContentCheck, limit: nat, run: Run)
    ensures Outcome(w, c, Some(limit), run) == Err(TransferLimit) <==>
            Attempted(run.writes) > limit || run.end == Failed(TransferLimit)
    ensures var s := Writes(w, c, Fresh(Some(limit)), run.writes);
            s.left.Some? && |s.file| + s.left.value <= limit
  {
    BudgetLedger(w, c, Fresh(Some(limit)), run.writes);
  }

  lemma {:induction false} UnlimitedNeverExceeds(w: Oracles, c: ContentCheck, s: Recv, ws: seq<Write>)
    requires Sound(s) && s.left == None && !s.limitExceeded
    ensures !Writes(w, c, s, ws).limitExceeded
    decreases |ws|
  {
    if ws != [] {
      StepIsSound(w, c, s, ws[0]);
      UnlimitedNeverExceeds(w, c, Step(w, c, s, ws[0]).0, ws[1..]);
    }
  }

  // ----- file and digest agree -----

  /** Bytes that reached the file in writes that then failed. */
  function Torn(w: Oracles, c: ContentCheck, s: Recv, ws: seq<Write>): nat
    requires Sound(s)
    decreases |ws|
  {
    if ws == [] then 0
    else
      StepIsSound(w, c, s, ws[0]);
      var (s', r) := Step(w, c, s, ws[0]);
      (if r == FileFailed then |Kept(ws[0])| else 0) + Torn(w, c, s', ws[1..])
  }

  /** One write moves file and hash alike, but for what a failed write left in the file. */
  lemma StepTears(w: Oracles, c: ContentCheck, s: Recv, write: Write)
    requires Sound(s)
    ensures var (s', r) := Step(w, c, s, write);
            var torn := if r == FileFailed then |Kept(write)| else 0;
            && |s'.file| - |s'.hashed| == |s.file| - |s.hashed| + torn
            && (s.file == s.hashed && torn == 0 ==> s'.file == s'.hashed)
  {
    if Kept(write) == [] { assert s.file + [] == s.file; }
  }

  lemma {:induction false} TornLedger(w: Oracles, c: ContentCheck, s: Recv, ws: seq<Write>)
    requires Sound(s)
    ensures var s' := Writes(w, c, s, ws);
            && |s'.file| - |s'.hashed| == |s.file| - |s.hashed| + Torn(w, c, s, ws)
            && (s.file == s.hashed && Torn(w, c, s, ws) == 0 ==> s'.file == s'.hashed)
    decreases |ws|
  {
    if ws != [] {
      StepIsSound(w, c, s, ws[0]);
      var (s', r) := Step(w, c, s, ws[0]);
      StepTears(w, c, s, ws[0]);
      TornLedger(w, c, s', ws[1..]);
    }
  }

  ghost predicate Injective(w: Oracles) {
    forall a: Bytes, b: Bytes :: w.sha(a) == w.sha(b) ==> a == b
  }

  /** A body that arrived carries its own digest and length exactly when no write failure
      that left bytes behind was swallowed by the producer. */
  lemma ArrivalIsHonestExactly(w: Oracles, c: ContentCheck, left: Option<nat>, run: Run)
    requires Outcome(w, c, left, run).Ok? && Outcome(w, c, left, run).value.Some?
    ensures var got := Outcome(w, c, left, run).value.value;
            var torn := Torn(w, c, Fresh(left), run.writes);
            && (got.bytes == |got.content| <==> torn == 0)
            && (torn == 0 ==> got.digest == w.sha(got.content))
            && (Injective(w) && got.digest == w.sha(got.content) ==> torn == 0)
  {
    TornLedger(w, c, Fresh(left), run.writes);
  }

  /** The failing family is real: a producer that swallows a torn write and then serves
      publishes bytes that are not the hashed ones. */
  lemma SwallowedFailureCorrupts(w: Oracles)
    ensures var run := Run([Write([7], Short(1))], Served);
            Outcome(w, NoCheck, None, run) == Ok(Some(Received([7], w.sha([]), 0)))
  {
    var ws := [Write([7], Short(1))];
    assert Step(w, NoCheck, Fresh(None), ws[0]).0.file == [7];
    assert ws[1..] == [];
  }

  /** A producer that reports the failure of an underlying file write. */
  ghost predicate Propagates(w: Oracles, c: ContentCheck, left: Option<nat>, run: Run) {
    Torn(w, c, Fresh(left), run.writes) > 0 ==> run.end.Failed?
  }

  lemma ArrivalIsHonest(w: Oracles, c: ContentCheck, left: Option<nat>, run: Run)
    requires Propagates(w, c, left, run)
    requires Outcome(w, c, left, run).Ok? && Outcome(w, c, left, run).value.Some?
    ensures var got := Outcome(w, c, left, run).value.value;
            got.digest == w.sha(got.content) && got.bytes == |got.content|
  {
    ArrivalIsHonestExactly(w, c, left, run);
  }
}
