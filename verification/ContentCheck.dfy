/** Content checks: the declarative tree, its meaning on a whole body, the streaming
    reader that evaluates it, and the early verdict on the first bytes of a transfer. */
module ContentChecks {
  import opened Basics

  datatype ContentCheck =
    | Sha256(pin: Digest)
    | Magic(prefixes: seq<Bytes>, trim: bool)
    | MinBytes(min: nat)
    | NotHtml
    | Custom(id: nat)
    | All(checks: seq<ContentCheck>)
    | NoCheck

  /** The parts of the world the model leaves open: the hash, the HTML text test (a
      predicate of the first 8192 bytes) and the caller's custom predicates. */
  datatype Oracles = Oracles(
    sha: Bytes -> Digest,
    html: Bytes -> bool,
    custom: (nat, Bytes) -> bool)

  datatype Verdict = Pass | Fail(check: string)

  const PREFIX_BYTES: nat := 8192

  function Head(body: Bytes): Bytes { body[..Min(PREFIX_BYTES, |body|)] }

  predicate IsAsciiWhitespace(b: Byte) {
    b == 9 || b == 10 || b == 12 || b == 13 || b == 32
  }

  function TrimStart(body: Bytes): Bytes {
    if body != [] && IsAsciiWhitespace(body[0]) then TrimStart(body[1..]) else body
  }

  function Subject(body: Bytes, trim: bool): Bytes {
    if trim then TrimStart(body) else body
  }

  predicate Usable(prefixes: seq<Bytes>) { prefixes != [] && [] !in prefixes }

  /** What a check demands of a whole body. */
  predicate Accepts(w: Oracles, c: ContentCheck, body: Bytes) {
    match c
    case Sha256(pin) => w.sha(body) == pin
    case Magic(prefixes, trim) =>
      Usable(prefixes) && exists p | p in prefixes :: p <= Subject(body, trim)
    case MinBytes(min) => min <= |body|
    case NotHtml => !w.html(Head(body))
    case Custom(id) => w.custom(id, body)
    case All(checks) => forall i | 0 <= i < |checks| :: Accepts(w, checks[i], body)
    case NoCheck => true
  }

  /** The checks that look at the bytes themselves, in order. */
  function Leaves(c: ContentCheck): seq<ContentCheck>
    decreases c, 1
  {
    if c.All? then LeavesIn(c.checks) else [c]
  }

  function LeavesIn(checks: seq<ContentCheck>): seq<ContentCheck>
    decreases checks, 0
  {
    if checks == [] then [] else Leaves(checks[0]) + LeavesIn(checks[1..])
  }

  /** A tree accepts what each of its leaves accepts. */
  lemma {:induction false} AcceptsByLeaves(w: Oracles, c: ContentCheck, body: Bytes)
    ensures Accepts(w, c, body) <==> forall leaf | leaf in Leaves(c) :: Accepts(w, leaf, body)
    decreases c, 1
  {
    if c.All? { AcceptsByLeavesIn(w, c.checks, body); }
  }

  lemma {:induction false} AcceptsByLeavesIn(w: Oracles, checks: seq<ContentCheck>, body: Bytes)
    ensures (forall i | 0 <= i < |checks| :: Accepts(w, checks[i], body)) <==>
            forall leaf | leaf in LeavesIn(checks) :: Accepts(w, leaf, body)
    decreases checks, 0
  {
    if checks != [] {
      var rest := checks[1..];
      AcceptsByLeaves(w, checks[0], body);
      AcceptsByLeavesIn(w, rest, body);
      assert forall i | 0 < i < |checks| :: checks[i] == rest[i - 1];
      assert (forall i | 0 <= i < |checks| :: Accepts(w, checks[i], body)) <==>
             Accepts(w, checks[0], body) && forall i | 0 <= i < |rest| :: Accepts(w, rest[i], body);
    }
  }

  /** The verdict shown to a transfer after its first bytes: inconclusive heads pass. */
  function CheckPrefix(w: Oracles, c: ContentCheck, head: Bytes): Verdict
    decreases c, 1
  {
    match c
    case NotHtml => if w.html(Head(head)) then Fail("NotHtml") else Pass
    case Magic(prefixes, trim) =>
      var h := Subject(head, trim);
      if exists p | p in prefixes :: p <= h || h <= p then Pass else Fail("Magic")
    case All(checks) => CheckPrefixes(w, checks, head)
    case _ => Pass
  }

  /** A conjunction stops at its first failing child. */
  function CheckPrefixes(w: Oracles, checks: seq<ContentCheck>, head: Bytes): Verdict
    decreases checks, 0
  {
    if checks == [] then Pass
    else
      var v := CheckPrefix(w, checks[0], head);
      if v.Fail? then v else CheckPrefixes(w, checks[1..], head)
  }

  // ----- early rejection -----

  /** Rejecting on the first 8192 bytes never rejects a body the full check accepts,
      also where the head ends inside the skipped whitespace or inside a signature. */
  lemma {:induction false} EarlyRejectionIsSound(w: Oracles, c: ContentCheck, body: Bytes)
    requires Accepts(w, c, body)
    ensures CheckPrefix(w, c, Head(body)).Pass?
    decreases c, 1
  {
    match c
    case NotHtml => assert Head(Head(body)) == Head(body);
    case Magic(prefixes, trim) =>
      var p :| p in prefixes && p <= Subject(body, trim);
      HeadOfSubject(body, trim);
      PrefixesOfOne(p, Subject(Head(body), trim), Subject(body, trim));
    case All(checks) => EarlyRejectionOfAll(w, checks, body);
    case _ =>
  }

  lemma {:induction false} EarlyRejectionOfAll(w: Oracles, checks: seq<ContentCheck>, body: Bytes)
    requires forall i | 0 <= i < |checks| :: Accepts(w, checks[i], body)
    ensures CheckPrefixes(w, checks, Head(body)).Pass?
    decreases checks, 0
  {
    if checks != [] {
      EarlyRejectionIsSound(w, checks[0], body);
      EarlyRejectionOfAll(w, checks[1..], body);
    }
  }

  lemma HeadOfSubject(body: Bytes, trim: bool)
    ensures Subject(Head(body), trim) <= Subject(body, trim)
  {
    if trim {
      assert body == Head(body) + body[|Head(body)|..];
      TrimOfConcat(Head(body), body[|Head(body)|..]);
    }
  }

  lemma {:induction false} TrimOfConcat(a: Bytes, b: Bytes)
    ensures TrimStart(a + b) == if TrimStart(a) == [] then TrimStart(b) else TrimStart(a) + b
  {
    if a == [] {
      assert a + b == b;
    } else if IsAsciiWhitespace(a[0]) {
      assert (a + b)[1..] == a[1..] + b;
      TrimOfConcat(a[1..], b);
    }
  }

  lemma PrefixesOfOne(p: Bytes, q: Bytes, s: Bytes)
    requires p <= s && q <= s
    ensures p <= q || q <= p
  {
    assert p == s[..|p|] && q == s[..|q|];
  }

  /** A signature a body can match at all: with trimming, one that does not itself start
      with the whitespace that trimming removes. */
  predicate Matchable(p: Bytes, trim: bool) {
    p != [] && (trim ==> !IsAsciiWhitespace(p[0]))
  }

  /** A signature that is not matchable starts no body: a trimmed subject never starts with
      the whitespace that trimming removes. */
  lemma {:induction false} UnmatchableStartsNothing(p: Bytes, body: Bytes)
    requires p != [] && !Matchable(p, true)
    ensures !(p <= TrimStart(body))
    decreases |body|
  {
    if body != [] && IsAsciiWhitespace(body[0]) { UnmatchableStartsNothing(p, body[1..]); }
  }

  /** The head is still the start of something acceptable. */
  ghost predicate Hopeful(w: Oracles, c: ContentCheck, head: Bytes) {
    exists tail :: Accepts(w, c, head + tail)
  }

  /** With a matchable signature in a usable list, whatever passes is hopeful. */
  lemma PassingIsHopeful(w: Oracles, prefixes: seq<Bytes>, trim: bool, head: Bytes, q: Bytes)
    requires Usable(prefixes) && q in prefixes && Matchable(q, trim)
    requires CheckPrefix(w, Magic(prefixes, trim), head).Pass?
    ensures Hopeful(w, Magic(prefixes, trim), head)
  {
    var h := Subject(head, trim);
    var p :| p in prefixes && (p <= h || h <= p);
    // A signature that is not matchable lets only blank heads through, and any other starts those.
    var s := if Matchable(p, trim) then p else q;
    if !Matchable(p, trim) {
      UnmatchableStartsNothing(p, head);
      assert h == [] by { BlankOrStart(head, p); }
    }
    var tail := if s <= h then [] else s[|h|..];
    if trim { TrimOfConcat(head, tail); }
    assert s <= Subject(head + tail, trim) by {
      if s <= h { assert head + tail == head; } else { assert h + s[|h|..] == s; }
    }
    assert Accepts(w, Magic(prefixes, trim), head + tail);
  }

  /** A trimmed head below something that starts with whitespace is blank. */
  lemma {:induction false} BlankOrStart(head: Bytes, p: Bytes)
    requires p != [] && IsAsciiWhitespace(p[0]) && TrimStart(head) <= p
    ensures TrimStart(head) == []
    decreases |head|
  {
    if head != [] && IsAsciiWhitespace(head[0]) { BlankOrStart(head[1..], p); }
  }

  lemma HopefulPasses(w: Oracles, prefixes: seq<Bytes>, trim: bool, head: Bytes)
    requires Hopeful(w, Magic(prefixes, trim), head)
    ensures CheckPrefix(w, Magic(prefixes, trim), head).Pass?
  {
    var tail :| Accepts(w, Magic(prefixes, trim), head + tail);
    var p :| p in prefixes && p <= Subject(head + tail, trim);
    if trim { TrimOfConcat(head, tail); }
    if trim && TrimStart(head) == [] {
      assert Subject(head, trim) <= p;
    } else {
      PrefixesOfOne(p, Subject(head, trim), Subject(head + tail, trim));
    }
  }

  predicate GoodSignatures(prefixes: seq<Bytes>, trim: bool) {
    prefixes == [] || ([] !in prefixes && exists p | p in prefixes :: Matchable(p, trim))
  }

  /** Early rejection is complete for a list of signatures, letting through exactly the heads
      of acceptable bodies, if and only if no signature is empty and one is matchable (or there
      is none at all, and nothing passes). */
  lemma EarlyRejectionIsComplete(w: Oracles, prefixes: seq<Bytes>, trim: bool)
    ensures (forall head ::
               CheckPrefix(w, Magic(prefixes, trim), head).Pass? <==> Hopeful(w, Magic(prefixes, trim), head))
            <==> GoodSignatures(prefixes, trim)
  {
    var c := Magic(prefixes, trim);
    forall head | Hopeful(w, c, head) ensures CheckPrefix(w, c, head).Pass? { HopefulPasses(w, prefixes, trim, head); }
    if prefixes != [] {
      if [] !in prefixes && exists p | p in prefixes :: Matchable(p, trim) {
        var q :| q in prefixes && Matchable(q, trim);
        forall head | CheckPrefix(w, c, head).Pass? ensures Hopeful(w, c, head) {
          PassingIsHopeful(w, prefixes, trim, head, q);
        }
      } else {
        EmptyHeadIsHopeless(w, prefixes, trim);
      }
    }
  }

  /** The empty head passes every nonempty list, and is hopeless for the others. */
  lemma EmptyHeadIsHopeless(w: Oracles, prefixes: seq<Bytes>, trim: bool)
    requires prefixes != [] && ([] in prefixes || forall p | p in prefixes :: !Matchable(p, trim))
    ensures CheckPrefix(w, Magic(prefixes, trim), []).Pass? && !Hopeful(w, Magic(prefixes, trim), [])
  {
    assert Subject([], trim) <= prefixes[0] && prefixes[0] in prefixes;
    forall tail ensures !Accepts(w, Magic(prefixes, trim), [] + tail) {
      forall p | p in prefixes && [] !in prefixes ensures !(p <= Subject([] + tail, trim)) {
        UnmatchableStartsNothing(p, [] + tail);
      }
    }
  }

  /** A tree lets a head through exactly when each of its leaves does. */
  lemma {:induction false} PrefixByLeaves(w: Oracles, c: ContentCheck, head: Bytes)
    ensures CheckPrefix(w, c, head).Pass? <==> forall leaf | leaf in Leaves(c) :: CheckPrefix(w, leaf, head).Pass?
    decreases c, 1
  {
    if c.All? { PrefixByLeavesIn(w, c.checks, head); }
  }

  lemma {:induction false} PrefixByLeavesIn(w: Oracles, checks: seq<ContentCheck>, head: Bytes)
    ensures CheckPrefixes(w, checks, head).Pass? <==>
            forall leaf | leaf in LeavesIn(checks) :: CheckPrefix(w, leaf, head).Pass?
    decreases checks, 0
  {
    if checks != [] {
      PrefixByLeaves(w, checks[0], head);
      PrefixByLeavesIn(w, checks[1..], head);
      var first, others := Leaves(checks[0]), LeavesIn(checks[1..]);
      assert LeavesIn(checks) == first + others;
      assert forall leaf :: leaf in first + others <==> leaf in first || leaf in others;
    }
  }

  /** A full head decides the HTML test for good. */
  lemma FullHeadDecidesHtml(w: Oracles, head: Bytes)
    requires |head| == PREFIX_BYTES
    ensures CheckPrefix(w, NotHtml, head).Pass? <==> Hopeful(w, NotHtml, head)
  {
    forall tail ensures Head(head + tail) == head && Head(head) == head {
    }
    assert head + [] == head;
    if CheckPrefix(w, NotHtml, head).Pass? { assert Accepts(w, NotHtml, head + []); }
  }

  /** What a full head is let through on, for a whole tree: every test in it that looks at the
      start of the body, however deep, can still be met by some continuation. */
  lemma FullHeadsAreJudged(w: Oracles, c: ContentCheck, head: Bytes)
    requires |head| == PREFIX_BYTES
    requires forall leaf | leaf in Leaves(c) && leaf.Magic? :: GoodSignatures(leaf.prefixes, leaf.trim)
    ensures CheckPrefix(w, c, head).Pass? <==>
            forall leaf | leaf in Leaves(c) && (leaf.NotHtml? || leaf.Magic?) :: Hopeful(w, leaf, head)
  {
    PrefixByLeaves(w, c, head);
    FullHeadDecidesHtml(w, head);
    forall leaf | leaf in Leaves(c) && leaf.Magic?
      ensures CheckPrefix(w, leaf, head).Pass? <==> Hopeful(w, leaf, head)
    {
      EarlyRejectionIsComplete(w, leaf.prefixes, leaf.trim);
    }
    LeavesAreNoTrees(c);
  }

  lemma {:induction false} LeavesAreNoTrees(c: ContentCheck)
    ensures forall leaf | leaf in Leaves(c) :: !leaf.All?
    decreases c, 1
  {
    if c.All? { LeavesInAreNoTrees(c.checks); }
  }

  lemma {:induction false} LeavesInAreNoTrees(checks: seq<ContentCheck>)
    ensures forall leaf | leaf in LeavesIn(checks) :: !leaf.All?
    decreases checks, 0
  {
    if checks != [] {
      LeavesAreNoTrees(checks[0]);
      LeavesInAreNoTrees(checks[1..]);
    }
  }

  // ----- the streaming reader -----

  /** Evaluate a check against a body the way the reader does: skip whitespace byte by
      byte, buffer no more than the longest signature, stop at the first failing child. */
  method CheckReader(w: Oracles, c: ContentCheck, body: Bytes) returns (v: Verdict)
    ensures v.Pass? <==> Accepts(w, c, body)
    decreases c
  {
    match c {
      case NoCheck => v := Pass;
      case All(checks) =>
        for i := 0 to |checks|
          invariant forall j | 0 <= j < i :: Accepts(w, checks[j], body)
        {
          v := CheckReader(w, checks[i], body);
          if v.Fail? { return; }
        }
        v := Pass;
      case MinBytes(min) => v := if |body| < min then Fail("MinBytes") else Pass;
      case Sha256(pin) => v := if w.sha(body) == pin then Pass else Fail("Sha256");
      case Magic(prefixes, trim) => v := CheckMagic(prefixes, trim, body);
      case NotHtml => v := if w.html(Head(body)) then Fail("NotHtml") else Pass;
      case Custom(id) => v := if w.custom(id, body) then Pass else Fail("Custom");
    }
  }

  method CheckMagic(prefixes: seq<Bytes>, trim: bool, body: Bytes) returns (v: Verdict)
    ensures v.Pass? <==>
            Usable(prefixes) && exists p | p in prefixes :: p <= Subject(body, trim)
  {
    var max: nat := 0;
    for i := 0 to |prefixes|
      invariant forall j | 0 <= j < i :: |prefixes[j]| <= max
    {
      max := Max(max, |prefixes[i]|);
    }
    if !Usable(prefixes) { return Fail("Magic"); }
    assert |prefixes[0]| > 0 by { assert prefixes[0] in prefixes; }
    var head := ReadSubject(body, trim, max);
    v := if exists p | p in prefixes :: p <= head then Pass else Fail("Magic");
  }

  /** The first `max` bytes of the body, after the whitespace if that is skipped. */
  method ReadSubject(body: Bytes, trim: bool, max: nat) returns (head: Bytes)
    requires max > 0
    ensures head == Subject(body, trim)[..Min(max, |Subject(body, trim)|)]
  {
    var at: nat := 0;
    head := [];
    while at < |body| && head == []
      invariant at <= |body|
      invariant head == [] ==> Subject(body[at..], trim) == Subject(body, trim)
      invariant head != [] ==> at > 0 && head == [body[at - 1]] && body[at - 1..] == Subject(body, trim)
      decreases |body| - at, |body| - |head|
    {
      SubjectFrom(body, at, trim);
      if !trim || !IsAsciiWhitespace(body[at]) {
        head := [body[at]];
      }
      at := at + 1;
    }
    head := TakeMore(body, trim, at, head, max);
  }

  /** One byte is either skipped or starts the subject. */
  lemma SubjectFrom(body: Bytes, at: nat, trim: bool)
    requires at < |body|
    ensures Subject(body[at..], trim) ==
            if !trim || !IsAsciiWhitespace(body[at]) then body[at..] else Subject(body[at + 1..], trim)
  {
    assert body[at..][0] == body[at] && body[at..][1..] == body[at + 1..];
  }

  /** Extend the first byte of the subject, if there is one, to `max` bytes. */
  method TakeMore(body: Bytes, trim: bool, at: nat, first: Bytes, max: nat) returns (head: Bytes)
    requires max > 0 && at <= |body|
    requires first == [] ==> at == |body| && Subject(body, trim) == Subject([], trim)
    requires first != [] ==> at > 0 && first == [body[at - 1]] && body[at - 1..] == Subject(body, trim)
    ensures head == Subject(body, trim)[..Min(max, |Subject(body, trim)|)]
  {
    if first != [] { assert Subject(body, trim)[1..] == body[at..]; }
    head := first + body[at..at + Min(max - |first|, |body| - at)];
  }
}
