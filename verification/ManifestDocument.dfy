/** Whole manifests: decoding and encoding documents entry by entry, merging, pinning. */
module ManifestDocuments {
  import opened Basics
  import opened ContentChecks
  import opened Pins
  import opened Manifests

  datatype SourceEntry = UrlOnly(url: string) | Detailed(url: string, trustRedirects: bool)

  datatype DocEntry = DocEntry(
    key: string,
    sources: seq<SourceEntry>,
    sha256: Option<string>,
    bytes: Option<nat>,
    freshness: string,
    check: Option<Value>,
    description: string,
    license: string,
    citation: Option<string>)

  type Document = seq<DocEntry>

  /** The text rules left open: UTF-8, the key shape, and acceptable source URLs. */
  datatype Rules = Rules(utf8: Utf8, keyOk: string -> bool, urlOk: string -> bool)

  const IMMUTABLE := "immutable"

  function DefaultBinary(): ContentCheck { All([NotHtml, MinBytes(1024)]) }

  function DecodeSource(s: SourceEntry): Source {
    match s
    case UrlOnly(url) => Source(url, false)
    case Detailed(url, trust) => Source(url, trust)
  }

  function EncodeSource(s: Source): SourceEntry {
    if s.trustRedirects then Detailed(s.url, true) else UrlOnly(s.url)
  }

  function DecodeEntry(rules: Rules, e: DocEntry): Result<Artifact, Error> {
    var sources := seq(|e.sources|, i requires 0 <= i < |e.sources| => DecodeSource(e.sources[i]));
    var check := if e.check == None then Ok(DefaultBinary()) else ParseCheck(rules.utf8, e.check.value, 0);
    if !rules.keyOk(e.key) || e.freshness != IMMUTABLE then Err(ManifestError)
    else if exists s | s in sources :: !rules.urlOk(s.url) then Err(ManifestError)
    else if check.Err? then Err(check.error)
    else if e.sha256.Some? && !IsDigest(e.sha256.value) then Err(ManifestError)
    else Ok(Artifact(e.key, sources, Pinned(e.sha256, check.value),
                     Provenance(e.description, e.license, e.citation), e.bytes))
  }

  function EncodeArtifact(rules: Rules, a: Artifact): Result<DocEntry, Error> {
    var (pin, rest) := SplitPin(a.check);
    var check := EncodeCheck(rules.utf8, rest);
    if pin.Some? && !IsDigest(pin.value) then Err(ManifestError)
    else if exists s | s in a.sources :: !rules.urlOk(s.url) then Err(ManifestError)
    else if check.Err? then Err(check.error)
    else Ok(DocEntry(a.key, seq(|a.sources|, i requires 0 <= i < |a.sources| => EncodeSource(a.sources[i])),
                     pin, a.expectedBytes, IMMUTABLE, Some(check.value),
                     a.provenance.description, a.provenance.license, a.provenance.citation))
  }

  ghost predicate DistinctKeys(keys: seq<Key>) {
    forall i, j | 0 <= i < j < |keys| :: keys[i] != keys[j]
  }

  function KeysOf(artifacts: seq<Artifact>): seq<Key> {
    seq(|artifacts|, i requires 0 <= i < |artifacts| => artifacts[i].key)
  }

  function EntryKeys(doc: Document): seq<Key> {
    seq(|doc|, i requires 0 <= i < |doc| => doc[i].key)
  }

  /** `artifacts` is the decoding of `doc`, entry by entry and in order. */
  ghost predicate Decodes(rules: Rules, doc: Document, artifacts: seq<Artifact>) {
    && DistinctKeys(EntryKeys(doc)) && |artifacts| == |doc|
    && forall i | 0 <= i < |doc| :: DecodeEntry(rules, doc[i]) == Ok(artifacts[i])
  }

  ghost predicate Encodes(rules: Rules, artifacts: seq<Artifact>, doc: Document) {
    && DistinctKeys(KeysOf(artifacts)) && |doc| == |artifacts|
    && forall i | 0 <= i < |artifacts| :: EncodeArtifact(rules, artifacts[i]) == Ok(doc[i])
  }

  method FromDocument(rules: Rules, doc: Document) returns (r: Result<seq<Artifact>, Error>)
    ensures r.Ok? ==> Decodes(rules, doc, r.value)
    ensures r.Err? ==> forall artifacts :: !Decodes(rules, doc, artifacts)
  {
    var seen: set<Key>, artifacts := {}, [];
    for i := 0 to |doc|
      invariant seen == set j | 0 <= j < i :: doc[j].key
      invariant |artifacts| == i && forall j | 0 <= j < i :: DecodeEntry(rules, doc[j]) == Ok(artifacts[j])
      invariant forall j, k | 0 <= j < k < i :: doc[j].key != doc[k].key
    {
      if doc[i].key in seen {
        ghost var j :| 0 <= j < i && doc[j].key == doc[i].key;
        assert EntryKeys(doc)[j] == EntryKeys(doc)[i];
        return Err(ManifestError);
      }
      seen := seen + {doc[i].key};
      var a := DecodeEntry(rules, doc[i]);
      if a.Err? { return Err(a.error); }
      artifacts := artifacts + [a.value];
    }
    r := Ok(artifacts);
  }

  method ToDocument(rules: Rules, artifacts: seq<Artifact>) returns (r: Result<Document, Error>)
    ensures r.Ok? ==> Encodes(rules, artifacts, r.value)
    ensures r.Err? ==> forall doc :: !Encodes(rules, artifacts, doc)
  {
    var seen: set<Key>, doc := {}, [];
    for i := 0 to |artifacts|
      invariant seen == set j | 0 <= j < i :: artifacts[j].key
      invariant |doc| == i && forall j | 0 <= j < i :: EncodeArtifact(rules, artifacts[j]) == Ok(doc[j])
      invariant forall j, k | 0 <= j < k < i :: artifacts[j].key != artifacts[k].key
    {
      if artifacts[i].key in seen {
        ghost var j :| 0 <= j < i && artifacts[j].key == artifacts[i].key;
        assert KeysOf(artifacts)[j] == KeysOf(artifacts)[i];
        return Err(ManifestError);
      }
      seen := seen + {artifacts[i].key};
      var e := EncodeArtifact(rules, artifacts[i]);
      if e.Err? { return Err(e.error); }
      doc := doc + [e.value];
    }
    r := Ok(doc);
  }

  // ----- what a decoded entry means -----

  /** An entry decodes exactly when its key, freshness, URLs and digest are well formed and its
      check, if it gives one, decodes. It then asks for immutable content and accepts the bodies that have the
      digest it names, if it names one, and pass the check it gives; one that gives none accepts
      binary content: no HTML, and at least 1024 bytes. A source is trusted with the origin's
      credentials on redirects only if the entry says so, and nothing else is made up. */
  lemma DecodedEntryMeans(rules: Rules, e: DocEntry, w: Oracles, body: Bytes)
    ensures DecodeEntry(rules, e).Ok? <==>
            && rules.keyOk(e.key) && e.freshness == "immutable"
            && (forall i | 0 <= i < |e.sources| :: rules.urlOk(e.sources[i].url))
            && (e.sha256.Some? ==> IsDigest(e.sha256.value))
            && (e.check.Some? ==> ParseCheck(rules.utf8, e.check.value, 0).Ok?)
    ensures DecodeEntry(rules, e).Ok? ==>
            var a := DecodeEntry(rules, e).value;
            && a.key == e.key && a.expectedBytes == e.bytes
            && (Accepts(w, a.check, body) <==>
                  && (e.sha256.Some? ==> w.sha(body) == e.sha256.value)
                  && if e.check.Some? then Accepts(w, ParseCheck(rules.utf8, e.check.value, 0).value, body)
                     else !w.html(Head(body)) && |body| >= 1024)
            && |a.sources| == |e.sources|
            && forall i | 0 <= i < |e.sources| ::
                 && a.sources[i].url == e.sources[i].url
                 && (a.sources[i].trustRedirects <==> e.sources[i].Detailed? && e.sources[i].trustRedirects)
  {
    DefaultBinaryMeans(w, body);
    var sources := seq(|e.sources|, i requires 0 <= i < |e.sources| => DecodeSource(e.sources[i]));
    assert forall i | 0 <= i < |e.sources| :: sources[i] in sources && sources[i].url == e.sources[i].url;
    if DecodeEntry(rules, e).Ok? { PinMeans(rules, e, w, body); }
  }

  lemma PinMeans(rules: Rules, e: DocEntry, w: Oracles, body: Bytes)
    requires DecodeEntry(rules, e).Ok?
    ensures var check := if e.check == None then DefaultBinary()
                         else ParseCheck(rules.utf8, e.check.value, 0).value;
            Accepts(w, DecodeEntry(rules, e).value.check, body) <==>
            (e.sha256.Some? ==> w.sha(body) == e.sha256.value) && Accepts(w, check, body)
  {
    var check := if e.check == None then DefaultBinary() else ParseCheck(rules.utf8, e.check.value, 0).value;
    if e.sha256.Some? { PinnedMeans(w, e.sha256.value, check, body); }
  }

  lemma DefaultBinaryMeans(w: Oracles, body: Bytes)
    ensures Accepts(w, DefaultBinary(), body) <==> !w.html(Head(body)) && |body| >= 1024
  {
    var checks := [NotHtml, MinBytes(1024)];
    assert checks[0] == NotHtml && checks[1] == MinBytes(1024);
  }

  // ----- round trips -----

  /** An artifact can be written to a manifest exactly when all its source URLs and every leaf of
      its check can. */
  lemma ArtifactsEncodeExactly(rules: Rules, a: Artifact)
    ensures EncodeArtifact(rules, a).Ok? <==>
            (forall s | s in a.sources :: rules.urlOk(s.url)) && AllWritable(a.check)
  {
    SplittingKeepsTheLeaves(a.check);
    ChecksEncodeExactly(rules.utf8, SplitPin(a.check).1);
  }

  /** Only the shape of a pinned check may differ. */
  predicate SameButCheck(a: Artifact, b: Artifact) { b == a.(check := b.check) }

  /** The levels a check has once its pin is split off: what the decoder will count. */
  function Depth(a: Artifact): nat { Nesting(SplitPin(a.check).1) }

  /** An encoded artifact decodes exactly when its check fits the parser's depth bound. Then
      everything but the shape of the check is preserved, the check accepts the same bodies,
      and encoding again gives the same entry. */
  lemma EntryRoundTrip(rules: Rules, a: Artifact)
    requires Lawful(rules.utf8) && rules.keyOk(a.key) && EncodeArtifact(rules, a).Ok?
    ensures var back := DecodeEntry(rules, EncodeArtifact(rules, a).value);
            && (back.Ok? <==> Depth(a) <= MAX_DEPTH)
            && (back.Ok? ==> SameButCheck(a, back.value)
                             && back.value.check == Pinned(SplitPin(a.check).0, SplitPin(a.check).1)
                             && EncodeArtifact(rules, back.value) == EncodeArtifact(rules, a))
  {
    var e := EncodeArtifact(rules, a).value;
    var (pin, rest) := SplitPin(a.check);
    ChecksRoundTrip(rules.utf8, rest, 0);
    var sources := seq(|e.sources|, i requires 0 <= i < |e.sources| => DecodeSource(e.sources[i]));
    assert sources == a.sources;
    SplittingKeepsTheLanguage(Oracles(_ => "", _ => false, (_, _) => false), a.check, []);
  }

  lemma EntryKeepsTheLanguage(w: Oracles, rules: Rules, a: Artifact, body: Bytes)
    requires Lawful(rules.utf8) && rules.keyOk(a.key) && EncodeArtifact(rules, a).Ok? && Depth(a) <= MAX_DEPTH
    ensures var back := DecodeEntry(rules, EncodeArtifact(rules, a).value);
            back.Ok? && (Accepts(w, back.value.check, body) <==> Accepts(w, a.check, body))
  {
    EntryRoundTrip(rules, a);
    SplittingKeepsTheLanguage(w, a.check, body);
  }

  /** The whole manifest: what was encoded decodes exactly when every check fits the depth
      bound. */
  lemma EncodedManifestDecodesExactly(rules: Rules, m: seq<Artifact>, doc: Document)
    requires Lawful(rules.utf8) && Encodes(rules, m, doc)
    requires forall i | 0 <= i < |m| :: rules.keyOk(m[i].key)
    ensures (exists back :: Decodes(rules, doc, back)) <==> forall i | 0 <= i < |m| :: Depth(m[i]) <= MAX_DEPTH
  {
    forall i | 0 <= i < |m|
      ensures DecodeEntry(rules, doc[i]).Ok? <==> Depth(m[i]) <= MAX_DEPTH
      ensures EntryKeys(doc)[i] == KeysOf(m)[i]
    {
      assert EncodeArtifact(rules, m[i]) == Ok(doc[i]);
      EntryRoundTrip(rules, m[i]);
    }
    if forall i | 0 <= i < |m| :: Depth(m[i]) <= MAX_DEPTH {
      var back := seq(|doc|, i requires 0 <= i < |doc| => DecodeEntry(rules, doc[i]).value);
      assert Decodes(rules, doc, back);
    }
    if back :| Decodes(rules, doc, back) {
      forall i | 0 <= i < |m| ensures Depth(m[i]) <= MAX_DEPTH {
        assert DecodeEntry(rules, doc[i]) == Ok(back[i]);
      }
    }
  }

  /** Decoding an encoded manifest preserves keys, order, sources, sizes and provenance, each
      check accepts the same bodies, and encoding the result gives the same document. */
  lemma ManifestRoundTrip(w: Oracles, rules: Rules, m: seq<Artifact>, doc: Document, back: seq<Artifact>)
    requires Lawful(rules.utf8) && Encodes(rules, m, doc) && Decodes(rules, doc, back)
    requires forall i | 0 <= i < |m| :: rules.keyOk(m[i].key)
    ensures |back| == |m| && forall i | 0 <= i < |m| :: SameButCheck(m[i], back[i])
    ensures forall i, body | 0 <= i < |m| :: Accepts(w, back[i].check, body) <==> Accepts(w, m[i].check, body)
    ensures Encodes(rules, back, doc)
  {
    forall i | 0 <= i < |m|
      ensures SameButCheck(m[i], back[i]) && EncodeArtifact(rules, back[i]) == Ok(doc[i]) && Depth(m[i]) <= MAX_DEPTH
    {
      assert EncodeArtifact(rules, m[i]) == Ok(doc[i]) && DecodeEntry(rules, doc[i]) == Ok(back[i]);
      EntryRoundTrip(rules, m[i]);
    }
    forall i, body | 0 <= i < |m| ensures Accepts(w, back[i].check, body) <==> Accepts(w, m[i].check, body) {
      assert EncodeArtifact(rules, m[i]) == Ok(doc[i]) && DecodeEntry(rules, doc[i]) == Ok(back[i]);
      EntryKeepsTheLanguage(w, rules, m[i], body);
    }
    assert KeysOf(back) == KeysOf(m);
  }

  /** The failing family is real: conjunctions nested 33 deep encode but do not decode. */
  function Tower(n: nat): ContentCheck { if n == 0 then NoCheck else All([Tower(n - 1)]) }

  lemma {:induction false} TowerNesting(u: Utf8, n: nat)
    ensures Nesting(Tower(n)) == n && EncodeCheck(u, Tower(n)).Ok?
  {
    if n > 0 {
      TowerNesting(u, n - 1);
      assert Tower(n).checks[1..] == [];
      assert NestingIn(Tower(n).checks) == Max(1 + Nesting(Tower(n - 1)), NestingIn(Tower(n).checks[1..]));
    }
  }

  lemma DeepChecksDoNotDecode(rules: Rules, a: Artifact)
    requires Lawful(rules.utf8) && rules.keyOk(a.key) && a.sources == [] && a.check == Tower(33)
    ensures EncodeArtifact(rules, a).Ok? && DecodeEntry(rules, EncodeArtifact(rules, a).value).Err?
  {
    TowerNesting(rules.utf8, 33);
    assert a.check.All? && a.check.checks == [Tower(32)];
    assert SplitPin(a.check) == (None, a.check);
    EntryRoundTrip(rules, a);
  }

  // ----- merging and pinning in place -----

  /** The first artifact with a key. */
  function Find(artifacts: seq<Artifact>, key: Key): (r: Option<nat>)
    ensures r.Some? ==> r.value < |artifacts| && artifacts[r.value].key == key
                        && forall i | 0 <= i < r.value :: artifacts[i].key != key
    ensures r == None ==> forall i | 0 <= i < |artifacts| :: artifacts[i].key != key
  {
    if artifacts == [] then None
    else if artifacts[0].key == key then Some(0)
    else
      var rest := Find(artifacts[1..], key);
      if rest.Some? then Some(rest.value + 1) else None
  }

  function Get(artifacts: seq<Artifact>, key: Key): Option<Artifact> {
    var at := Find(artifacts, key);
    if at.Some? then Some(artifacts[at.value]) else None
  }

  /** The last artifact with a key: the one that wins a merge. */
  function Last(artifacts: seq<Artifact>, key: Key): Option<Artifact> {
    if artifacts == [] then None
    else if artifacts[|artifacts| - 1].key == key then Some(artifacts[|artifacts| - 1])
    else Last(artifacts[..|artifacts| - 1], key)
  }

  /** What a merge leaves at a key: the other manifest wins. */
  function MergedAt(mine: seq<Artifact>, other: seq<Artifact>, key: Key): Option<Artifact> {
    if Last(other, key).Some? then Last(other, key) else Get(mine, key)
  }

  class Manifest {
    var artifacts: seq<Artifact>

    /** Take over another manifest's artifacts: a known key keeps its position, others go last. */
    method Merge(other: seq<Artifact>)
      modifies this
      ensures forall k :: Get(artifacts, k) == MergedAt(old(artifacts), other, k)
      ensures KeysOf(old(artifacts)) <= KeysOf(artifacts)
      ensures DistinctKeys(KeysOf(old(artifacts))) ==> DistinctKeys(KeysOf(artifacts))
    {
      for i := 0 to |other|
        invariant forall k :: Get(artifacts, k) == MergedAt(old(artifacts), other[..i], k)
        invariant KeysOf(old(artifacts)) <= KeysOf(artifacts)
        invariant DistinctKeys(KeysOf(old(artifacts))) ==> DistinctKeys(KeysOf(artifacts))
      {
        ghost var before := artifacts;
        var at := Find(artifacts, other[i].key);
        if at.Some? {
          ReplaceAt(artifacts, at.value, other[i]);
          artifacts := artifacts[at.value := other[i]];
        } else {
          Append(artifacts, other[i]);
          artifacts := artifacts + [other[i]];
        }
        MergeStep(old(artifacts), other, i, before, artifacts);
      }
      assert other[..|other|] == other;
    }

    /** Add a digest pin to one artifact, unless the key or the digest is unfit or a pin in its
        check says otherwise. */
    method PinSha256(key: Key, digest: Digest) returns (r: Result<(), Error>)
      modifies this
      ensures r.Ok? <==> IsDigest(digest) && Get(old(artifacts), key).Some?
                         && CompatiblePin(Get(old(artifacts), key).value.check, digest)
      ensures r.Err? ==> artifacts == old(artifacts)
      ensures r.Ok? ==> forall k :: k != key ==> Get(artifacts, k) == Get(old(artifacts), k)
      ensures r.Ok? ==> var was := Get(old(artifacts), key).value;
                        Get(artifacts, key) == Some(was.(check := AddPin(was.check, digest)))
      ensures r.Ok? ==> KeysOf(artifacts) == KeysOf(old(artifacts))
    {
      if !IsDigest(digest) { return Err(ManifestError); }
      var at := Find(artifacts, key);
      if at == None { return Err(ManifestError); }
      var a := artifacts[at.value];
      if !CompatiblePin(a.check, digest) { return Err(ManifestError); }
      var pinned := a.(check := AddPin(a.check, digest));
      ReplaceAt(artifacts, at.value, pinned);
      artifacts := artifacts[at.value := pinned];
      r := Ok(());
    }
  }

  lemma {:induction false} ReplaceAt(artifacts: seq<Artifact>, at: nat, a: Artifact)
    requires at < |artifacts| && Find(artifacts, a.key) == Some(at)
    ensures KeysOf(artifacts[at := a]) == KeysOf(artifacts)
    ensures Puts(artifacts, a, artifacts[at := a])
  {
    var after := artifacts[at := a];
    forall k ensures Get(after, k) == if k == a.key then Some(a) else Get(artifacts, k) {
      SameKeysSameFind(artifacts, after, k);
      var found := Find(after, k);
      if k == a.key {
        assert found == Some(at);
      } else if found.Some? {
        assert artifacts[found.value].key == k && artifacts[at].key == a.key;
        assert after[found.value] == artifacts[found.value];
      }
    }
  }

  /** `after` is `before` with `a` at its own key. */
  ghost predicate Puts(before: seq<Artifact>, a: Artifact, after: seq<Artifact>) {
    forall k :: Get(after, k) == if k == a.key then Some(a) else Get(before, k)
  }

  lemma MergeStep(mine: seq<Artifact>, other: seq<Artifact>, i: nat, before: seq<Artifact>, after: seq<Artifact>)
    requires i < |other| && Puts(before, other[i], after)
    requires forall k :: Get(before, k) == MergedAt(mine, other[..i], k)
    ensures forall k :: Get(after, k) == MergedAt(mine, other[..i + 1], k)
  {
    assert other[..i + 1][..i] == other[..i] && other[..i + 1][i] == other[i];
    forall k ensures Get(after, k) == MergedAt(mine, other[..i + 1], k) {
      assert Get(before, k) == MergedAt(mine, other[..i], k);
    }
  }

  lemma SameKeysSameFind(xs: seq<Artifact>, ys: seq<Artifact>, k: Key)
    requires |xs| == |ys| && forall i | 0 <= i < |xs| :: xs[i].key == ys[i].key
    ensures Find(xs, k) == Find(ys, k)
  {
    var x, y := Find(xs, k), Find(ys, k);
    if x.Some? { assert ys[x.value].key == k; }
    if y.Some? { assert xs[y.value].key == k; }
  }

  lemma Append(artifacts: seq<Artifact>, a: Artifact)
    requires Find(artifacts, a.key) == None
    ensures KeysOf(artifacts + [a]) == KeysOf(artifacts) + [a.key]
    ensures Puts(artifacts, a, artifacts + [a])
  {
    var after := artifacts + [a];
    forall k ensures Get(after, k) == if k == a.key then Some(a) else Get(artifacts, k) {
      var x, y := Find(artifacts, k), Find(after, k);
      assert after[|artifacts|] == a;
      if x.Some? { assert after[x.value].key == k; }
      if y.Some? && y.value < |artifacts| { assert artifacts[y.value].key == k; }
    }
  }
}
