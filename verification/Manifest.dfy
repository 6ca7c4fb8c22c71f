/** Manifests as document trees: the declarative check encoding, its decoder, digest pins at
    the top of an entry, and whole documents. */
module Manifests {
  import opened Basics
  import opened ContentChecks
  import opened Pins

  /** Field names of a check table. */
  datatype Name =
    | MagicName | TrimName | NoneName | NotHtmlName | Sha256Name | MinBytesName | AllName
    | OtherName(text: string)

  /** The parts of a TOML value that checks use. */
  datatype Value =
    | Str(text: string)
    | Int(n: int)
    | Bool(b: bool)
    | Arr(items: seq<Value>)
    | Table(fields: map<Name, Value>)

  /** UTF-8 text of a byte string, where it is text, and the bytes of a text. */
  datatype Utf8 = Utf8(decode: Bytes -> Option<string>, encode: string -> Bytes)

  ghost predicate Lawful(u: Utf8) {
    forall b: Bytes :: u.decode(b).Some? ==> u.encode(u.decode(b).value) == b
  }

  const MAX_DEPTH: nat := 32

  // ----- decoding -----

  /** Depth 32 is the last level a check may sit at. */
  function ParseCheck(u: Utf8, v: Value, depth: nat): Result<ContentCheck, Error>
    decreases v, 1
  {
    if depth > MAX_DEPTH then Err(ManifestError)
    else match v
      case Str(s) =>
        if s == "none" then Ok(NoCheck) else if s == "not-html" then Ok(NotHtml) else Err(ManifestError)
      case Table(fields) =>
        if MagicName in fields then ParseMagic(u, fields)
        else if |fields| != 1 then Err(ManifestError)
        else if NoneName in fields then
          if fields[NoneName] == Bool(true) then Ok(NoCheck) else Err(ManifestError)
        else if NotHtmlName in fields then
          if fields[NotHtmlName] == Bool(true) then Ok(NotHtml) else Err(ManifestError)
        else if Sha256Name in fields then
          var d := fields[Sha256Name];
          if d.Str? && IsDigest(d.text) then Ok(Sha256(d.text)) else Err(ManifestError)
        else if MinBytesName in fields then
          var n := fields[MinBytesName];
          if n.Int? && 0 <= n.n then Ok(MinBytes(n.n)) else Err(ManifestError)
        else if AllName in fields then
          var a := fields[AllName];
          if a.Arr? then
            var checks := ParseChecks(u, a.items, depth + 1);
            if checks.Ok? then Ok(All(checks.value)) else Err(checks.error)
          else Err(ManifestError)
        else Err(ManifestError)
      case _ => Err(ManifestError)
  }

  function ParseChecks(u: Utf8, items: seq<Value>, depth: nat): (r: Result<seq<ContentCheck>, Error>)
    ensures r.Ok? ==> |r.value| == |items|
    decreases items, 0
  {
    if items == [] then Ok([])
    else
      var first := ParseCheck(u, items[0], depth);
      if first.Err? then Err(first.error)
      else
        var rest := ParseChecks(u, items[1..], depth);
        if rest.Err? then rest else Ok([first.value] + rest.value)
  }

  function ParseMagic(u: Utf8, fields: map<Name, Value>): Result<ContentCheck, Error>
    requires MagicName in fields
  {
    if exists k | k in fields :: k != MagicName && k != TrimName then Err(ManifestError)
    else if !fields[MagicName].Arr? then Err(ManifestError)
    else
      var prefixes := ParsePrefixes(u, fields[MagicName].items);
      if prefixes.Err? then Err(prefixes.error)
      else if !Usable(prefixes.value) then Err(ManifestError)
      else if TrimName !in fields then Ok(Magic(prefixes.value, false))
      else if fields[TrimName].Bool? then
        Ok(Magic(prefixes.value, fields[TrimName].b))
      else Err(ManifestError)
  }

  function ParsePrefixes(u: Utf8, items: seq<Value>): Result<seq<Bytes>, Error> {
    if items == [] then Ok([])
    else
      var first := ParsePrefix(u, items[0]);
      var rest := ParsePrefixes(u, items[1..]);
      if first.Err? then Err(first.error) else if rest.Err? then rest else Ok([first.value] + rest.value)
  }

  function ParsePrefix(u: Utf8, v: Value): Result<Bytes, Error> {
    match v
    case Str(s) => Ok(u.encode(s))
    case Arr(items) => ParseBytes(items)
    case _ => Err(ManifestError)
  }

  function ParseBytes(items: seq<Value>): Result<Bytes, Error> {
    if items == [] then Ok([])
    else if items[0].Int? && 0 <= items[0].n < 256 then
      var rest := ParseBytes(items[1..]);
      if rest.Err? then rest else Ok([items[0].n as Byte] + rest.value)
    else Err(ManifestError)
  }

  // ----- encoding -----

  function EncodeCheck(u: Utf8, c: ContentCheck): Result<Value, Error>
    decreases c, 1
  {
    match c
    case NoCheck => Ok(Table(map[NoneName := Bool(true)]))
    case NotHtml => Ok(Table(map[NotHtmlName := Bool(true)]))
    case MinBytes(n) => if n <= I64_MAX then Ok(Table(map[MinBytesName := Int(n)])) else Err(ManifestError)
    case Sha256(d) => if IsDigest(d) then Ok(Table(map[Sha256Name := Str(d)])) else Err(ManifestError)
    case All(checks) =>
      var items := EncodeChecks(u, checks);
      if items.Ok? then Ok(Table(map[AllName := Arr(items.value)])) else Err(items.error)
    case Magic(prefixes, trim) =>
      if !Usable(prefixes) then Err(ManifestError)
      else Ok(Table(map[TrimName := Bool(trim),
                        MagicName := Arr(EncodePrefixes(u, prefixes))]))
    case Custom(_) => Err(ManifestError)
  }

  function EncodeChecks(u: Utf8, checks: seq<ContentCheck>): (r: Result<seq<Value>, Error>)
    ensures r.Ok? ==> |r.value| == |checks|
    decreases checks, 0
  {
    if checks == [] then Ok([])
    else
      var first := EncodeCheck(u, checks[0]);
      if first.Err? then Err(first.error)
      else
        var rest := EncodeChecks(u, checks[1..]);
        if rest.Err? then rest else Ok([first.value] + rest.value)
  }

  function EncodePrefixes(u: Utf8, prefixes: seq<Bytes>): seq<Value> {
    if prefixes == [] then [] else [EncodePrefix(u, prefixes[0])] + EncodePrefixes(u, prefixes[1..])
  }

  function EncodePrefix(u: Utf8, p: Bytes): Value {
    match u.decode(p)
    case Some(s) => Str(s)
    case None => Arr(EncodeBytes(p))
  }

  function EncodeBytes(p: Bytes): seq<Value> {
    if p == [] then [] else [Int(p[0] as int)] + EncodeBytes(p[1..])
  }

  // ----- checks round trip -----

  /** How many levels of conjunction lie above the deepest check. */
  function Nesting(c: ContentCheck): nat
    decreases c, 1
  {
    if c.All? then NestingIn(c.checks) else 0
  }

  function NestingIn(checks: seq<ContentCheck>): nat
    decreases checks, 0
  {
    if checks == [] then 0 else Max(1 + Nesting(checks[0]), NestingIn(checks[1..]))
  }

  /** Encoded checks decode to themselves exactly when the nesting fits the parser's depth
      bound, which the encoder does not enforce; otherwise decoding fails. */
  lemma {:induction false} ChecksRoundTrip(u: Utf8, c: ContentCheck, depth: nat)
    requires Lawful(u) && EncodeCheck(u, c).Ok?
    ensures ParseCheck(u, EncodeCheck(u, c).value, depth) ==
            if depth + Nesting(c) <= MAX_DEPTH then Ok(c) else Err(ManifestError)
    decreases c, 1
  {
    match c
    case All(checks) =>
      SingleField(AllName, Arr(EncodeChecks(u, checks).value));
      if depth <= MAX_DEPTH { CheckListsRoundTrip(u, checks, depth + 1); }
    case _ => LeavesRoundTrip(u, c, depth);
  }

  lemma LeavesRoundTrip(u: Utf8, c: ContentCheck, depth: nat)
    requires Lawful(u) && EncodeCheck(u, c).Ok? && !c.All?
    ensures ParseCheck(u, EncodeCheck(u, c).value, depth) == if depth <= MAX_DEPTH then Ok(c) else Err(ManifestError)
  {
    match c
    case Magic(prefixes, trim) => MagicRoundTrips(u, prefixes, trim);
    case NoCheck => SingleField(NoneName, Bool(true));
    case NotHtml => SingleField(NotHtmlName, Bool(true));
    case MinBytes(n) => SingleField(MinBytesName, Int(n));
    case Sha256(d) => SingleField(Sha256Name, Str(d));
  }

  lemma SingleField(name: Name, v: Value)
    ensures var fields := map[name := v];
            |fields| == 1 && fields.Keys == {name} && fields[name] == v
  {
    assert |map[name := v].Keys| == |{name}|;
  }

  lemma MagicRoundTrips(u: Utf8, prefixes: seq<Bytes>, trim: bool)
    requires Lawful(u) && Usable(prefixes)
    ensures var fields := map[TrimName := Bool(trim), MagicName := Arr(EncodePrefixes(u, prefixes))];
            MagicName in fields && ParseMagic(u, fields) == Ok(Magic(prefixes, trim))
  {
    PrefixesRoundTrip(u, prefixes);
  }

  lemma {:induction false} CheckListsRoundTrip(u: Utf8, checks: seq<ContentCheck>, depth: nat)
    requires Lawful(u) && EncodeChecks(u, checks).Ok? && 0 < depth <= MAX_DEPTH + 1
    ensures ParseChecks(u, EncodeChecks(u, checks).value, depth) ==
            if depth - 1 + NestingIn(checks) <= MAX_DEPTH then Ok(checks) else Err(ManifestError)
    decreases checks, 0
  {
    if checks == [] {
      assert EncodeChecks(u, checks).value == [];
    } else {
      ChecksRoundTrip(u, checks[0], depth);
      CheckListsRoundTrip(u, checks[1..], depth);
      assert EncodeChecks(u, checks).value[1..] == EncodeChecks(u, checks[1..]).value;
      assert [checks[0]] + checks[1..] == checks;
    }
  }

  lemma {:induction false} PrefixesRoundTrip(u: Utf8, prefixes: seq<Bytes>)
    requires Lawful(u)
    ensures ParsePrefixes(u, EncodePrefixes(u, prefixes)) == Ok(prefixes)
  {
    if prefixes == [] {
      assert EncodePrefixes(u, prefixes) == [];
    } else {
      BytesRoundTrip(prefixes[0]);
      PrefixesRoundTrip(u, prefixes[1..]);
      assert EncodePrefixes(u, prefixes)[1..] == EncodePrefixes(u, prefixes[1..]);
      assert [prefixes[0]] + prefixes[1..] == prefixes;
    }
  }

  lemma {:induction false} BytesRoundTrip(p: Bytes)
    ensures ParseBytes(EncodeBytes(p)) == Ok(p)
  {
    if p == [] {
      assert EncodeBytes(p) == [];
    } else {
      BytesRoundTrip(p[1..]);
      assert EncodeBytes(p)[1..] == EncodeBytes(p[1..]);
      assert [p[0]] + p[1..] == p;
    }
  }

  /** What the decoder accepts the encoder can write again, byte minima within range: the
      decoded check is the canonical one. */
  lemma {:induction false} DecodedChecksEncode(u: Utf8, v: Value, depth: nat)
    requires ParseCheck(u, v, depth).Ok? && InRange(v)
    ensures EncodeCheck(u, ParseCheck(u, v, depth).value).Ok?
    ensures depth + Nesting(ParseCheck(u, v, depth).value) <= MAX_DEPTH
    decreases v, 1
  {
    if v.Table? && MagicName !in v.fields && AllName in v.fields {
      assert v.fields.Keys == {AllName} by { SingleKey(v.fields, AllName); }
      DecodedListsEncode(u, v.fields[AllName].items, depth + 1);
    }
  }

  lemma {:induction false} DecodedListsEncode(u: Utf8, items: seq<Value>, depth: nat)
    requires ParseChecks(u, items, depth).Ok? && (forall i | 0 <= i < |items| :: InRange(items[i]))
    requires 0 < depth <= MAX_DEPTH + 1
    ensures EncodeChecks(u, ParseChecks(u, items, depth).value).Ok?
    ensures depth - 1 + NestingIn(ParseChecks(u, items, depth).value) <= MAX_DEPTH
    decreases items, 0
  {
    if items != [] {
      DecodedChecksEncode(u, items[0], depth);
      DecodedListsEncode(u, items[1..], depth);
      var checks := ParseChecks(u, items, depth).value;
      assert checks[1..] == ParseChecks(u, items[1..], depth).value;
    }
  }

  lemma SingleKey(fields: map<Name, Value>, k: Name)
    requires k in fields && |fields| == 1
    ensures fields.Keys == {k}
  {
    var rest := fields.Keys - {k};
    assert |fields.Keys| == |fields| && fields.Keys == rest + {k};
    assert |rest| == 0;
  }

  /** TOML integers are 64-bit. */
  predicate InRange(v: Value) {
    match v
    case Int(n) => -(I64_MAX as int) - 1 <= n <= I64_MAX
    case Arr(items) => forall i | 0 <= i < |items| :: InRange(items[i])
    case Table(fields) => forall k | k in fields :: InRange(fields[k])
    case _ => true
  }

  /** What a manifest can say about one leaf: no custom predicate, no unusable signature list, a
      well-formed digest, a minimum within the range of a TOML integer. */
  predicate Writable(leaf: ContentCheck) {
    match leaf
    case Custom(_) => false
    case Magic(prefixes, _) => Usable(prefixes)
    case Sha256(d) => IsDigest(d)
    case MinBytes(n) => n <= I64_MAX
    case _ => true
  }

  ghost predicate AllWritable(c: ContentCheck) { forall leaf | leaf in Leaves(c) :: Writable(leaf) }

  /** A tree can be encoded exactly when each of its leaves can. */
  lemma {:induction false} ChecksEncodeExactly(u: Utf8, c: ContentCheck)
    ensures EncodeCheck(u, c).Ok? <==> AllWritable(c)
    decreases c, 1
  {
    if c.All? { CheckListsEncodeExactly(u, c.checks); } else { assert c in Leaves(c); }
  }

  lemma {:induction false} CheckListsEncodeExactly(u: Utf8, checks: seq<ContentCheck>)
    ensures EncodeChecks(u, checks).Ok? <==> forall leaf | leaf in LeavesIn(checks) :: Writable(leaf)
    decreases checks, 0
  {
    if checks != [] {
      ChecksEncodeExactly(u, checks[0]);
      CheckListsEncodeExactly(u, checks[1..]);
      var first, others := Leaves(checks[0]), LeavesIn(checks[1..]);
      assert LeavesIn(checks) == first + others;
      assert forall leaf :: leaf in first + others <==> leaf in first || leaf in others;
    }
  }

  // ----- all the other spellings -----

  /** Text that is encoded and decoded again comes back. */
  ghost predicate Textual(u: Utf8) { forall s: string :: u.decode(u.encode(s)) == Some(s) }

  predicate AreBytes(items: seq<Value>) {
    forall i | 0 <= i < |items| :: items[i].Int? && 0 <= items[i].n < 256
  }

  function AsBytes(items: seq<Value>): Bytes
    requires AreBytes(items)
  {
    seq(|items|, i requires 0 <= i < |items| => items[i].n as Byte)
  }

  /** The encoder's spelling of a value a check may be written as: named checks as tables, a
      missing trim flag as false, byte lists as text where they are text. */
  function Canonical(u: Utf8, v: Value): Value
    decreases v, 1
  {
    match v
    case Str(s) =>
      if s == "none" then Table(map[NoneName := Bool(true)])
      else if s == "not-html" then Table(map[NotHtmlName := Bool(true)])
      else v
    case Table(fields) =>
      if MagicName in fields then
        if fields[MagicName].Arr? then
          var trimmed := if TrimName in fields then fields else fields[TrimName := Bool(false)];
          Table(trimmed[MagicName := Arr(CanonicalPrefixes(u, fields[MagicName].items))])
        else v
      else if |fields| == 1 && AllName in fields && fields[AllName].Arr? then
        Table(map[AllName := Arr(CanonicalChecks(u, fields[AllName].items))])
      else v
    case _ => v
  }

  function CanonicalChecks(u: Utf8, items: seq<Value>): (r: seq<Value>)
    ensures |r| == |items|
    decreases items, 0
  {
    if items == [] then [] else [Canonical(u, items[0])] + CanonicalChecks(u, items[1..])
  }

  function CanonicalPrefixes(u: Utf8, items: seq<Value>): seq<Value> {
    if items == [] then [] else [CanonicalPrefix(u, items[0])] + CanonicalPrefixes(u, items[1..])
  }

  function CanonicalPrefix(u: Utf8, v: Value): Value {
    if v.Arr? && AreBytes(v.items) then EncodePrefix(u, AsBytes(v.items)) else v
  }

  lemma {:induction false} ParsedBytes(items: seq<Value>)
    ensures ParseBytes(items) == if AreBytes(items) then Ok(AsBytes(items)) else Err(ManifestError)
  {
    if items == [] {
      assert AreBytes(items) && AsBytes(items) == [];
    } else {
      ParsedBytes(items[1..]);
      assert AreBytes(items) <==> items[0].Int? && 0 <= items[0].n < 256 && AreBytes(items[1..]);
      if AreBytes(items) { assert AsBytes(items) == [items[0].n as Byte] + AsBytes(items[1..]); }
    }
  }

  lemma PrefixSpellings(u: Utf8, v: Value)
    requires Lawful(u) && Textual(u)
    ensures ParsePrefix(u, CanonicalPrefix(u, v)) == ParsePrefix(u, v)
    ensures ParsePrefix(u, v).Ok? ==> CanonicalPrefix(u, v) == EncodePrefix(u, ParsePrefix(u, v).value)
    ensures ParsePrefix(u, v).Err? ==> ParsePrefix(u, v).error == ManifestError
  {
    if v.Arr? {
      ParsedBytes(v.items);
      if AreBytes(v.items) { BytesRoundTrip(AsBytes(v.items)); }
    }
  }

  lemma {:induction false} PrefixListSpellings(u: Utf8, items: seq<Value>)
    requires Lawful(u) && Textual(u)
    ensures ParsePrefixes(u, CanonicalPrefixes(u, items)) == ParsePrefixes(u, items)
    ensures ParsePrefixes(u, items).Ok? ==>
            CanonicalPrefixes(u, items) == EncodePrefixes(u, ParsePrefixes(u, items).value)
  {
    if items != [] {
      PrefixSpellings(u, items[0]);
      PrefixListSpellings(u, items[1..]);
      assert CanonicalPrefixes(u, items)[1..] == CanonicalPrefixes(u, items[1..]);
    }
  }

  lemma MagicParsesAlike(u: Utf8, fields: map<Name, Value>)
    requires Lawful(u) && Textual(u) && MagicName in fields && fields[MagicName].Arr?
    ensures var canonical := Canonical(u, Table(fields)).fields;
            MagicName in canonical && ParseMagic(u, canonical) == ParseMagic(u, fields)
  {
    PrefixListSpellings(u, fields[MagicName].items);
    var canonical := Canonical(u, Table(fields)).fields;
    assert forall k :: k != MagicName && k != TrimName ==> (k in canonical <==> k in fields);
    assert (exists k | k in canonical :: k != MagicName && k != TrimName) <==>
           (exists k | k in fields :: k != MagicName && k != TrimName);
  }

  lemma MagicIsCanonical(u: Utf8, fields: map<Name, Value>)
    requires Lawful(u) && Textual(u) && MagicName in fields && ParseMagic(u, fields).Ok?
    ensures EncodeCheck(u, ParseMagic(u, fields).value) == Ok(Canonical(u, Table(fields)))
  {
    PrefixListSpellings(u, fields[MagicName].items);
    var c, canonical := ParseMagic(u, fields).value, Canonical(u, Table(fields)).fields;
    assert canonical == map[TrimName := Bool(c.trim), MagicName := Arr(EncodePrefixes(u, c.prefixes))];
  }

  /** A value and its canonical spelling decode alike, errors included. */
  lemma {:induction false} SpellingsDecodeAlike(u: Utf8, v: Value, depth: nat)
    requires Lawful(u) && Textual(u)
    ensures ParseCheck(u, Canonical(u, v), depth) == ParseCheck(u, v, depth)
    decreases v, 1
  {
    match v
    case Str(s) =>
      SingleField(NoneName, Bool(true));
      SingleField(NotHtmlName, Bool(true));
    case Table(fields) =>
      if MagicName in fields {
        if fields[MagicName].Arr? { MagicParsesAlike(u, fields); }
      } else if |fields| == 1 && AllName in fields && fields[AllName].Arr? {
        SingleKey(fields, AllName);
        SingleField(AllName, Arr(CanonicalChecks(u, fields[AllName].items)));
        SpellingListsDecodeAlike(u, fields[AllName].items, depth + 1);
      }
    case _ =>
  }

  lemma {:induction false} SpellingListsDecodeAlike(u: Utf8, items: seq<Value>, depth: nat)
    requires Lawful(u) && Textual(u)
    ensures ParseChecks(u, CanonicalChecks(u, items), depth) == ParseChecks(u, items, depth)
    decreases items, 0
  {
    if items != [] {
      SpellingsDecodeAlike(u, items[0], depth);
      SpellingListsDecodeAlike(u, items[1..], depth);
      assert CanonicalChecks(u, items)[1..] == CanonicalChecks(u, items[1..]);
    }
  }

  /** What a value decodes to is encoded as its canonical spelling. */
  lemma {:induction false} DecodedIsCanonical(u: Utf8, v: Value, depth: nat)
    requires Lawful(u) && Textual(u) && InRange(v) && ParseCheck(u, v, depth).Ok?
    ensures EncodeCheck(u, ParseCheck(u, v, depth).value) == Ok(Canonical(u, v))
    decreases v, 1
  {
    match v
    case Table(fields) =>
      if MagicName in fields {
        MagicIsCanonical(u, fields);
      } else {
        OnlyKey(u, fields, depth);
        if AllName in fields {
          DecodedListIsCanonical(u, fields[AllName].items, depth + 1);
        }
      }
    case _ =>
  }

  lemma OnlyKey(u: Utf8, fields: map<Name, Value>, depth: nat)
    requires MagicName !in fields && ParseCheck(u, Table(fields), depth).Ok?
    ensures exists k :: k in {NoneName, NotHtmlName, Sha256Name, MinBytesName, AllName}
                        && k in fields && fields == map[k := fields[k]]
  {
    var k := if NoneName in fields then NoneName else if NotHtmlName in fields then NotHtmlName
             else if Sha256Name in fields then Sha256Name else if MinBytesName in fields then MinBytesName
             else AllName;
    SingleKey(fields, k);
    assert fields == map[k := fields[k]];
  }

  lemma {:induction false} DecodedListIsCanonical(u: Utf8, items: seq<Value>, depth: nat)
    requires Lawful(u) && Textual(u) && (forall i | 0 <= i < |items| :: InRange(items[i]))
    requires ParseChecks(u, items, depth).Ok?
    ensures EncodeChecks(u, ParseChecks(u, items, depth).value) == Ok(CanonicalChecks(u, items))
    decreases items, 0
  {
    if items != [] {
      DecodedIsCanonical(u, items[0], depth);
      DecodedListIsCanonical(u, items[1..], depth);
      var checks := ParseChecks(u, items, depth).value;
      assert checks[1..] == ParseChecks(u, items[1..], depth).value;
    }
  }

  /** Exactly what decodes to what: a value decodes to a check if its canonical spelling is the
      encoding of that check, and the check fits the depth bound, and only then. */
  lemma ValuesDecodeExactly(u: Utf8, v: Value, c: ContentCheck, depth: nat)
    requires Lawful(u) && Textual(u) && InRange(v)
    ensures ParseCheck(u, v, depth) == Ok(c) <==>
            EncodeCheck(u, c) == Ok(Canonical(u, v)) && depth + Nesting(c) <= MAX_DEPTH
  {
    SpellingsDecodeAlike(u, v, depth);
    if ParseCheck(u, v, depth) == Ok(c) {
      DecodedIsCanonical(u, v, depth);
      DecodedChecksEncode(u, v, depth);
    }
    if EncodeCheck(u, c) == Ok(Canonical(u, v)) { ChecksRoundTrip(u, c, depth); }
  }

  // ----- digest pins -----

  /** The pin an entry carries at its top level, and the check without it. */
  function SplitPin(c: ContentCheck): (Option<Digest>, ContentCheck) {
    match c
    case Sha256(d) => (Some(d), NoCheck)
    case All(checks) =>
      if checks != [] && checks[0].Sha256? then
        (Some(checks[0].pin), if |checks| == 2 then checks[1] else All(checks[1..]))
      else (None, c)
    case _ => (None, c)
  }

  /** How a decoded entry puts its pin back. */
  function Pinned(pin: Option<Digest>, c: ContentCheck): ContentCheck {
    match pin case Some(d) => All([Sha256(d), c]) case None => c
  }

  lemma PinnedMeans(w: Oracles, d: Digest, c: ContentCheck, body: Bytes)
    ensures Accepts(w, All([Sha256(d), c]), body) <==> w.sha(body) == d && Accepts(w, c, body)
  {
    var checks := [Sha256(d), c];
    assert checks[0] == Sha256(d) && checks[1] == c;
  }

  /** Splitting off the pin and putting it back restructures the tree but accepts exactly
      the same bodies, and doing it again changes nothing. */
  lemma SplittingKeepsTheLanguage(w: Oracles, c: ContentCheck, body: Bytes)
    ensures var (pin, rest) := SplitPin(c);
            && (Accepts(w, Pinned(pin, rest), body) <==> Accepts(w, c, body))
            && SplitPin(Pinned(pin, rest)) == (pin, rest)
  {
    var (pin, rest) := SplitPin(c);
    if pin.Some? {
      PinnedMeans(w, pin.value, rest, body);
      assert [Sha256(pin.value), rest][1] == rest;
    }
    if c.All? && pin.Some? {
      AcceptsAllSplits(w, c.checks, body);
      if |c.checks| == 2 {
        AcceptsAllSplits(w, c.checks[1..], body);
        assert c.checks[1..][1..] == [];
      }
    }
  }

  /** Splitting off the pin loses no leaf. */
  lemma SplittingKeepsTheLeaves(c: ContentCheck)
    ensures var (pin, rest) := SplitPin(c);
            AllWritable(c) <==> (pin.Some? ==> IsDigest(pin.value)) && AllWritable(rest)
  {
    if c.Sha256? {
      assert Leaves(c) == [c] && Leaves(NoCheck) == [NoCheck];
      assert c in Leaves(c);
    } else if c.All? && c.checks != [] && c.checks[0].Sha256? {
      var first, others, rest := c.checks[0], c.checks[1..], SplitPin(c).1;
      assert Leaves(rest) == LeavesIn(others) by {
        if |c.checks| == 2 {
          assert others[1..] == [] && LeavesIn(others[1..]) == [];
          assert LeavesIn(others) == Leaves(others[0]) + LeavesIn(others[1..]);
        }
      }
      assert Leaves(first) == [first];
      assert Leaves(c) == [first] + Leaves(rest);
      assert forall leaf :: leaf in Leaves(c) <==> leaf == first || leaf in Leaves(rest);
      assert Writable(first) <==> IsDigest(first.pin);
    }
  }

  /** No digest pin in the tree contradicts `digest`. */
  predicate CompatiblePin(c: ContentCheck, digest: Digest) {
    match c
    case Sha256(existing) => existing == digest
    case All(checks) => forall i | 0 <= i < |checks| :: CompatiblePin(checks[i], digest)
    case _ => true
  }

  /** Every pin in the tree counts, however deep. */
  lemma {:induction false} CompatibleExactly(c: ContentCheck, digest: Digest)
    ensures CompatiblePin(c, digest) <==> PinsMatch(c, digest)
    decreases c, 1
  {
    match c
    case All(checks) => CompatibleInAll(checks, digest);
    case Sha256(pin) => assert pin in PinnedDigests(c);
    case _ =>
  }

  lemma {:induction false} CompatibleInAll(checks: seq<ContentCheck>, digest: Digest)
    ensures CompatiblePin(All(checks), digest) <==> PinsMatch(All(checks), digest)
    decreases checks, 0
  {
    if checks == [] {
      assert PinnedIn(checks) == [];
    } else {
      var rest := checks[1..];
      CompatibleExactly(checks[0], digest);
      CompatibleInAll(rest, digest);
      PinsMatchSplits(checks, digest);
      assert forall i | 0 < i < |checks| :: checks[i] == rest[i - 1];
      assert CompatiblePin(All(checks), digest) <==>
             CompatiblePin(checks[0], digest) && CompatiblePin(All(rest), digest);
    }
  }

  /** Pin a check to a digest, leaving one that already has this pin at its top untouched. */
  function AddPin(c: ContentCheck, digest: Digest): ContentCheck {
    var (pin, rest) := SplitPin(c);
    if pin == Some(digest) then c else All([Sha256(digest), rest])
  }

  /** Pinning accepts exactly the old bodies that have the digest, stays compatible, and is
      idempotent. */
  lemma PinningIntersects(w: Oracles, c: ContentCheck, digest: Digest, body: Bytes)
    requires CompatiblePin(c, digest)
    ensures Accepts(w, AddPin(c, digest), body) <==> Accepts(w, c, body) && w.sha(body) == digest
    ensures CompatiblePin(AddPin(c, digest), digest)
    ensures AddPin(AddPin(c, digest), digest) == AddPin(c, digest)
  {
    var (pin, rest) := SplitPin(c);
    SplittingKeepsTheLanguage(w, c, body);
    PinnedMeans(w, digest, rest, body);
    if c.All? && c.checks != [] { assert CompatiblePin(c.checks[0], digest); }
    if pin == None { assert rest == c && CompatiblePin(rest, digest); }
  }
}
