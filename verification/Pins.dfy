/** Artifacts, digest pins inside a check tree, and the validation every body goes through on
    its way into the store. */
module Pins {
  import opened Basics
  import opened ContentChecks

  datatype Source = Source(url: string, trustRedirects: bool)

  datatype Provenance = Provenance(description: string, license: string, citation: Option<string>)

  datatype Artifact = Artifact(
    key: Key,
    sources: seq<Source>,
    check: ContentCheck,
    provenance: Provenance,
    expectedBytes: Option<nat>)

  /** The digests a tree demands, from left to right. */
  function PinnedDigests(c: ContentCheck): seq<Digest>
    decreases c, 1
  {
    match c
    case Sha256(pin) => [pin]
    case All(checks) => PinnedIn(checks)
    case _ => []
  }

  function PinnedIn(checks: seq<ContentCheck>): seq<Digest>
    decreases checks, 0
  {
    if checks == [] then [] else PinnedDigests(checks[0]) + PinnedIn(checks[1..])
  }

  /** The tree with its digest nodes erased. */
  function WithoutSha256(c: ContentCheck): ContentCheck
    decreases c, 1
  {
    match c
    case Sha256(_) => NoCheck
    case All(checks) => All(WithoutIn(checks))
    case _ => c
  }

  function WithoutIn(checks: seq<ContentCheck>): (r: seq<ContentCheck>)
    ensures |r| == |checks|
    decreases checks, 0
  {
    if checks == [] then [] else [WithoutSha256(checks[0])] + WithoutIn(checks[1..])
  }

  /** The size pin, then every digest pin against the streamed digest, then the erased tree
      against the bytes. */
  function Validate(w: Oracles, a: Artifact, body: Bytes, bytes: nat, digest: Digest): Verdict {
    if a.expectedBytes.Some? && a.expectedBytes.value != bytes then Fail("expected_bytes")
    else if exists pin | pin in PinnedDigests(a.check) :: pin != digest then Fail("Sha256")
    else if Accepts(w, WithoutSha256(a.check), body) then Pass
    else Fail("check")
  }

  /** The server's test of object metadata against the manifest, without a body. */
  predicate MetadataAgrees(a: Artifact, digest: Digest, bytes: nat) {
    (a.expectedBytes.Some? ==> a.expectedBytes.value == bytes) && PinsAgree(a.check, digest, bytes)
  }

  predicate PinsAgree(c: ContentCheck, digest: Digest, bytes: nat) {
    match c
    case Sha256(pin) => pin == digest
    case All(checks) => forall i | 0 <= i < |checks| :: PinsAgree(checks[i], digest, bytes)
    case MinBytes(min) => min <= bytes
    case _ => true
  }

  // ----- splitting preserves meaning -----

  predicate PinsMatch(c: ContentCheck, digest: Digest) {
    forall pin | pin in PinnedDigests(c) :: pin == digest
  }

  /** Comparing the collected pins with the streamed digest and running the erased tree
      accepts exactly the bodies the original tree accepts. */
  lemma {:induction false} PinSplittingPreservesMeaning(w: Oracles, c: ContentCheck, body: Bytes)
    ensures PinsMatch(c, w.sha(body)) && Accepts(w, WithoutSha256(c), body) <==> Accepts(w, c, body)
    decreases c, 1
  {
    match c
    case All(checks) => PinSplittingOfAll(w, checks, body);
    case Sha256(pin) => assert pin in PinnedDigests(c);
    case _ =>
  }

  lemma {:induction false} PinSplittingOfAll(w: Oracles, checks: seq<ContentCheck>, body: Bytes)
    ensures PinsMatch(All(checks), w.sha(body)) && Accepts(w, All(WithoutIn(checks)), body) <==>
            Accepts(w, All(checks), body)
    decreases checks, 0
  {
    if checks == [] {
      assert PinnedDigests(All(checks)) == [];
      assert WithoutIn(checks) == [];
    } else {
      PinSplittingPreservesMeaning(w, checks[0], body);
      PinSplittingOfAll(w, checks[1..], body);
      AcceptsAllSplits(w, checks, body);
      AcceptsAllSplits(w, WithoutIn(checks), body);
      assert WithoutIn(checks)[1..] == WithoutIn(checks[1..]);
      PinsMatchSplits(checks, w.sha(body));
      assert WithoutIn(checks)[0] == WithoutSha256(checks[0]);
    }
  }

  lemma PinsMatchSplits(checks: seq<ContentCheck>, digest: Digest)
    requires checks != []
    ensures PinsMatch(All(checks), digest) <==>
            PinsMatch(checks[0], digest) && PinsMatch(All(checks[1..]), digest)
  {
    var first, rest := PinnedDigests(checks[0]), PinnedIn(checks[1..]);
    assert PinnedDigests(All(checks)) == first + rest;
    assert forall pin :: pin in first + rest <==> pin in first || pin in rest;
    assert PinnedDigests(All(checks[1..])) == rest;
  }

  lemma AcceptsAllSplits(w: Oracles, checks: seq<ContentCheck>, body: Bytes)
    requires checks != []
    ensures Accepts(w, All(checks), body) <==>
            Accepts(w, checks[0], body) && Accepts(w, All(checks[1..]), body)
  {
    var rest := checks[1..];
    if Accepts(w, checks[0], body) && Accepts(w, All(rest), body) {
      forall i | 0 <= i < |checks| ensures Accepts(w, checks[i], body) {
        assert i > 0 ==> checks[i] == rest[i - 1];
      }
    }
    if Accepts(w, All(checks), body) {
      forall i | 0 <= i < |rest| ensures Accepts(w, rest[i], body) {
        assert rest[i] == checks[i + 1];
      }
    }
  }

  /** What validation promises about bytes that were hashed while they streamed: the size
      pin and the whole, unerased check. */
  predicate Genuine(w: Oracles, a: Artifact, body: Bytes) {
    (a.expectedBytes.Some? ==> a.expectedBytes.value == |body|) && Accepts(w, a.check, body)
  }

  lemma ValidationIsGenuine(w: Oracles, a: Artifact, body: Bytes)
    ensures Validate(w, a, body, |body|, w.sha(body)).Pass? <==> Genuine(w, a, body)
  {
    PinSplittingPreservesMeaning(w, a.check, body);
  }

  /** A genuine body's metadata always passes the server's metadata test. */
  lemma GenuineMetadataAgrees(w: Oracles, a: Artifact, body: Bytes)
    requires Genuine(w, a, body)
    ensures MetadataAgrees(a, w.sha(body), |body|)
  {
    AcceptedPinsAgree(w, a.check, body);
  }

  lemma {:induction false} AcceptedPinsAgree(w: Oracles, c: ContentCheck, body: Bytes)
    requires Accepts(w, c, body)
    ensures PinsAgree(c, w.sha(body), |body|)
  {
    if c.All? {
      forall i | 0 <= i < |c.checks| ensures PinsAgree(c.checks[i], w.sha(body), |body|) {
        AcceptedPinsAgree(w, c.checks[i], body);
      }
    }
  }

  /** What a manifest says about digest and length alone: its size pin, every digest it pins
      anywhere in the tree, and every minimum length. */
  ghost predicate ManifestAllows(a: Artifact, digest: Digest, bytes: nat) {
    && (a.expectedBytes.Some? ==> a.expectedBytes.value == bytes)
    && PinsMatch(a.check, digest)
    && MinimaMet(a.check, bytes)
  }

  ghost predicate MinimaMet(c: ContentCheck, bytes: nat) {
    forall leaf | leaf in Leaves(c) && leaf.MinBytes? :: leaf.min <= bytes
  }

  /** The server's test lets exactly the metadata through that the manifest allows: no other
      digest than a pinned one, no other length than the expected one, none below a minimum. */
  lemma MetadataAgreesExactly(a: Artifact, digest: Digest, bytes: nat)
    ensures MetadataAgrees(a, digest, bytes) <==> ManifestAllows(a, digest, bytes)
  {
    PinsAgreeExactly(a.check, digest, bytes);
  }

  lemma {:induction false} PinsAgreeExactly(c: ContentCheck, digest: Digest, bytes: nat)
    ensures PinsAgree(c, digest, bytes) <==> PinsMatch(c, digest) && MinimaMet(c, bytes)
    decreases c, 1
  {
    match c
    case All(checks) => PinsAgreeInAll(checks, digest, bytes);
    case Sha256(pin) => assert pin in PinnedDigests(c);
    case _ => assert c in Leaves(c);
  }

  lemma {:induction false} PinsAgreeInAll(checks: seq<ContentCheck>, digest: Digest, bytes: nat)
    ensures PinsAgree(All(checks), digest, bytes) <==> PinsMatch(All(checks), digest) && MinimaMet(All(checks), bytes)
    decreases checks, 0
  {
    if checks == [] {
      assert PinnedIn(checks) == [] && LeavesIn(checks) == [];
    } else {
      var rest := checks[1..];
      PinsAgreeExactly(checks[0], digest, bytes);
      PinsAgreeInAll(rest, digest, bytes);
      PinsMatchSplits(checks, digest);
      assert forall i | 0 < i < |checks| :: checks[i] == rest[i - 1];
      assert PinsAgree(All(checks), digest, bytes) <==>
             PinsAgree(checks[0], digest, bytes) && PinsAgree(All(rest), digest, bytes);
      var first, others := Leaves(checks[0]), Leaves(All(rest));
      assert Leaves(All(checks)) == first + others;
      assert forall leaf :: leaf in first + others <==> leaf in first || leaf in others;
    }
  }
}
