/** The hashing temp-file writer that every transfer goes through: it charges a byte budget
    before writing and has the first 8192 bytes judged before anything after them gets in. */
module Receiving {
  import opened Basics
  import opened ContentChecks

  /** What becomes of one write to the temp file: all of it, or a failure after `n` bytes. */
  datatype Fate = Full | Short(n: nat)

  /** One call a producer makes on the sink. */
  datatype Write = Write(chunk: Bytes, fate: Fate)

  datatype WriteResult = Written | OverLimit | PrefixRejected | FileFailed

  /** How a producer ends: it served an object, found none, or failed. */
  datatype End = Served | Absent | Failed(error: Error)

  /** Everything one producer does to its sink. Producers choose freely, whatever the
      earlier writes returned, so every interaction is such a run. */
  datatype Run = Run(writes: seq<Write>, end: End)

  /** A body that arrived: the temp file, and the digest and count of what was hashed. */
  datatype Received = Received(content: Bytes, digest: Digest, bytes: nat)

  /** The writer's state as a value. `hashed` is what the hasher has consumed. */
  datatype Recv = Recv(
    file: Bytes,
    hashed: Bytes,
    head: Bytes,
    prefixChecked: bool,
    rejected: Option<string>,
    left: Option<nat>,
    limitExceeded: bool)

  function Fresh(left: Option<nat>): Recv {
    Recv([], [], [], false, None, left, false)
  }

  predicate Sound(s: Recv) {
    |s.head| <= PREFIX_BYTES && (s.prefixChecked <==> |s.head| == PREFIX_BYTES)
  }

  function Kept(wr: Write): Bytes {
    match wr.fate
    case Full => wr.chunk
    case Short(n) => wr.chunk[..Min(n, |wr.chunk|)]
  }

  function Step(w: Oracles, c: ContentCheck, s: Recv, wr: Write): (Recv, WriteResult)
    requires Sound(s)
  {
    if s.left.Some? && (s.limitExceeded || s.left.value < |wr.chunk|) then
      (s.(limitExceeded := true), OverLimit)
    else
      Admitted(w, c, s.(left := if s.left.Some? then Some(s.left.value - |wr.chunk|) else None), wr)
  }

  /** A write after its bytes were charged. */
  function Admitted(w: Oracles, c: ContentCheck, s: Recv, wr: Write): (Recv, WriteResult)
    requires Sound(s)
  {
    var head := s.head + wr.chunk[..Min(PREFIX_BYTES - |s.head|, |wr.chunk|)];
    var full := |head| == PREFIX_BYTES;
    if s.rejected.Some? then (s, PrefixRejected)
    else if !s.prefixChecked && full && CheckPrefix(w, c, head).Fail? then
      (s.(head := head, prefixChecked := true, rejected := Some(CheckPrefix(w, c, head).check)),
       PrefixRejected)
    else
      var s' := s.(head := head, prefixChecked := full, file := s.file + Kept(wr));
      if wr.fate.Full? then (s'.(hashed := s.hashed + wr.chunk), Written) else (s', FileFailed)
  }

  lemma StepIsSound(w: Oracles, c: ContentCheck, s: Recv, wr: Write)
    requires Sound(s)
    ensures Sound(Step(w, c, s, wr).0)
  {
  }

  function Writes(w: Oracles, c: ContentCheck, s: Recv, ws: seq<Write>): (r: Recv)
    requires Sound(s)
    ensures Sound(r)
    decreases |ws|
  {
    if ws == [] then s
    else StepIsSound(w, c, s, ws[0]); Writes(w, c, Step(w, c, s, ws[0]).0, ws[1..])
  }

  /** What a transfer amounts to once its producer has ended. The byte limit wins over
      whatever the producer made of it, then a rejected head, then the producer's word. */
  function Conclude(w: Oracles, c: ContentCheck, s: Recv, end: End): Result<Option<Received>, Error> {
    if s.limitExceeded then Err(TransferLimit)
    else if end.Failed? && !(end.error == IoError && s.rejected.Some?) then Err(end.error)
    else if s.rejected.Some? then Err(ContentRejected(s.rejected.value))
    else if !end.Served? then Ok(None)
    else
      var late := if s.prefixChecked then Pass else CheckPrefix(w, c, s.head);
      if late.Fail? then Err(ContentRejected(late.check))
      else Ok(Some(Received(s.file, w.sha(s.hashed), |s.hashed|)))
  }

  function Outcome(w: Oracles, c: ContentCheck, left: Option<nat>, run: Run): Result<Option<Received>, Error> {
    Conclude(w, c, Writes(w, c, Fresh(left), run.writes), run.end)
  }

  // ----- the writer itself -----

  class Cell {
    var value: nat
    constructor (value: nat)
      ensures this.value == value
    { this.value := value; }
  }

  class TempFile {
    var content: Bytes
    constructor ()
      ensures content == []
    { content := []; }
  }

  class Receiver {
    const w: Oracles
    const check: ContentCheck
    const inner: TempFile
    const budget: Cell?
    var hasher: Bytes
    var bytes: nat
    var head: Bytes
    var prefixChecked: bool
    var rejected: Option<string>
    var limitExceeded: bool

    ghost predicate Valid()
      reads this
    {
      && bytes == |hasher|
      && |head| <= PREFIX_BYTES && (prefixChecked <==> |head| == PREFIX_BYTES)
    }

    ghost function State(): Recv
      reads this, inner, budget
    {
      Recv(inner.content, hasher, head, prefixChecked, rejected,
           if budget == null then None else Some(budget.value), limitExceeded)
    }

    constructor (w: Oracles, inner: TempFile, check: ContentCheck, budget: Cell?)
      ensures Valid() && this.w == w && this.check == check
      ensures this.inner == inner && this.budget == budget
      ensures inner.content == [] ==>
              State() == Fresh(if budget == null then None else Some(budget.value))
    {
      this.w, this.check, this.inner, this.budget := w, check, inner, budget;
      hasher, bytes, head := [], 0, [];
      prefixChecked, rejected, limitExceeded := false, None, false;
    }

    method CheckHead() returns (ok: bool)
      requires |head| == PREFIX_BYTES
      modifies this`prefixChecked, this`rejected
      ensures prefixChecked
      ensures ok == CheckPrefix(w, check, head).Pass?
      ensures rejected == if ok then old(rejected) else Some(CheckPrefix(w, check, head).check)
    {
      prefixChecked := true;
      var v := CheckPrefix(w, check, head);
      if v.Fail? { rejected := Some(v.check); }
      ok := v.Pass?;
    }

    method WriteChunk(buf: Bytes, fate: Fate) returns (r: WriteResult)
      requires Valid()
      modifies this, inner, budget
      ensures Valid()
      ensures (State(), r) == Step(w, check, old(State()), Write(buf, fate))
    {
      if budget != null {
        if limitExceeded || budget.value < |buf| {
          limitExceeded := true;
          return OverLimit;
        }
        // Charge before writing; nothing is refunded on retry.
        budget.value := budget.value - |buf|;
      }
      if rejected.Some? { return PrefixRejected; }
      if !prefixChecked {
        var take := Min(PREFIX_BYTES - |head|, |buf|);
        head := head + buf[..take];
        if |head| == PREFIX_BYTES {
          var ok := CheckHead();
          if !ok { return PrefixRejected; }
        }
      }
      assert head == old(head) + buf[..Min(PREFIX_BYTES - |old(head)|, |buf|)];
      match fate {
        case Short(n) =>
          inner.content := inner.content + buf[..Min(n, |buf|)];
          return FileFailed;
        case Full =>
          inner.content := inner.content + buf;
      }
      hasher := hasher + buf;
      bytes := bytes + |buf|;
      r := Written;
    }
  }

  /** Run a producer against a fresh hashing temp file. */
  method Receive(w: Oracles, c: ContentCheck, budget: Cell?, run: Run)
    returns (r: Result<Option<Received>, Error>)
    modifies budget
    ensures r == Outcome(w, c, if budget == null then None else Some(old(budget.value)), run)
    ensures budget != null ==>
            Some(budget.value) == Writes(w, c, Fresh(Some(old(budget.value))), run.writes).left
  {
    var tmp := new TempFile();
    var writer := new Receiver(w, tmp, c, budget);
    ghost var start := writer.State();
    for i := 0 to |run.writes|
      invariant writer.Valid() && writer.inner == tmp && writer.budget == budget
      invariant writer.w == w && writer.check == c && fresh(writer) && fresh(tmp)
      invariant Writes(w, c, start, run.writes) == Writes(w, c, writer.State(), run.writes[i..])
    {
      var _ := writer.WriteChunk(run.writes[i].chunk, run.writes[i].fate);
      assert run.writes[i..][1..] == run.writes[i + 1..];
    }
    if writer.limitExceeded { return Err(TransferLimit); }
    var served := false;
    match run.end {
      case Served => served := true;
      case Absent =>
      case Failed(e) =>
        if !(e == IoError && writer.rejected.Some?) { return Err(e); }
    }
    if writer.rejected.Some? { return Err(ContentRejected(writer.rejected.value)); }
    if !served { return Ok(None); }
    if !writer.prefixChecked {
      var v := CheckPrefix(w, c, writer.head);
      if v.Fail? { return Err(ContentRejected(v.check)); }
    }
    r := Ok(Some(Received(tmp.content, w.sha(writer.hasher), writer.bytes)));
  }
}
