/** The index and the blobs as values: sidecars, reference counting by scan, unique payload
    bytes, the eviction order, and what evicting to a budget means. */
module Catalog {
  import opened Basics
  import opened Sums
  import opened ContentChecks

  datatype Layer = LocalDisk | Mirror | Upstream

  datatype Entry = Entry(
    digest: Digest,
    bytes: nat,
    fetchedAt: nat,
    source: Option<string>,
    etag: Option<string>,
    providerIdentity: Option<string>,
    layer: Layer)

  /** An index sidecar on disk: readable, or damaged so that every scan reports an error. */
  datatype Sidecar = Readable(entry: Entry) | Malformed

  type Index = map<Key, Sidecar>
  type Blobs = map<Digest, Bytes>

  predicate AllReadable(index: Index) {
    forall k | k in index :: index[k].Readable?
  }

  predicate Referenced(index: Index, d: Digest) {
    exists k | k in index :: index[k].Readable? && index[k].entry.digest == d
  }

  predicate NoDangling(index: Index, blobs: Blobs) {
    forall k | k in index && index[k].Readable? :: index[k].entry.digest in blobs
  }

  function Live(index: Index, blobs: Blobs): Blobs {
    map d | d in blobs && Referenced(index, d) :: blobs[d]
  }

  /** Put a validated body at its address. A blob that is there stays: as a success when its
      hash is right, as a refusal otherwise. */
  function PublishBlob(w: Oracles, blobs: Blobs, digest: Digest, content: Bytes): Option<Blobs> {
    if digest !in blobs then Some(blobs[digest := content])
    else if w.sha(blobs[digest]) == digest then Some(blobs)
    else None
  }

  /** Remove an entry, and its blob when no other entry refers to it. */
  function DropEntry(index: Index, blobs: Blobs, key: Key): (Index, Blobs) {
    if key !in index || index[key].Malformed? then (index, blobs)
    else
      var rest, d := index - {key}, index[key].entry.digest;
      (rest, if Referenced(rest, d) then blobs else blobs - {d})
  }

  // ----- unique payload bytes -----

  function Length(content: Bytes): nat { |content| }

  ghost function Total(blobs: Blobs): nat { Sum(blobs, Length) }

  lemma {:induction false} TotalMonotone(small: Blobs, large: Blobs)
    requires forall d | d in small :: d in large && large[d] == small[d]
    ensures Total(small) <= Total(large)
    decreases |small|
  {
    if small != map[] {
      var d :| d in small;
      SumRemove(small, Length, d);
      SumRemove(large, Length, d);
      TotalMonotone(small - {d}, large - {d});
    }
  }

  /** Publishing adds at most the published bytes. */
  lemma PublishGrowth(w: Oracles, blobs: Blobs, digest: Digest, content: Bytes)
    requires PublishBlob(w, blobs, digest, content).Some?
    ensures var after := PublishBlob(w, blobs, digest, content).value;
            && digest in after && (forall d | d in blobs :: d in after && after[d] == blobs[d])
            && Total(blobs) <= Total(after) <= Total(blobs) + |content|
  {
    if digest !in blobs { SumAdd(blobs, Length, digest, content); }
  }

  // ----- eviction order -----

  predicate KeyLess(a: Key, b: Key) {
    b != [] && (a == [] || a[0] < b[0] || (a[0] == b[0] && KeyLess(a[1..], b[1..])))
  }

  lemma {:induction false} KeyLessTotal(a: Key, b: Key)
    ensures !KeyLess(a, a)
    ensures KeyLess(a, b) ==> !KeyLess(b, a)
    ensures a != b ==> KeyLess(a, b) || KeyLess(b, a)
  {
    if a != [] { KeyLessTotal(a[1..], a[1..]); }
    if a != [] && b != [] && a[0] == b[0] {
      KeyLessTotal(a[1..], b[1..]);
      assert a == [a[0]] + a[1..] && b == [b[0]] + b[1..];
    }
  }

  lemma {:induction false} KeyLessTransitive(a: Key, b: Key, c: Key)
    requires KeyLess(a, b) && KeyLess(b, c)
    ensures KeyLess(a, c)
  {
    if a != [] && a[0] == b[0] == c[0] { KeyLessTransitive(a[1..], b[1..], c[1..]); }
  }

  function FetchedAt(index: Index, k: Key): nat {
    if k in index && index[k].Readable? then index[k].entry.fetchedAt else 0
  }

  /** Least recently fetched first, ties broken by key. */
  predicate Before(index: Index, a: Key, b: Key) {
    FetchedAt(index, a) < FetchedAt(index, b) ||
    (FetchedAt(index, a) == FetchedAt(index, b) && KeyLess(a, b))
  }

  lemma BeforeIsStrictOrder(index: Index, a: Key, b: Key, c: Key)
    ensures !Before(index, a, a)
    ensures Before(index, a, b) ==> !Before(index, b, a)
    ensures a != b ==> Before(index, a, b) || Before(index, b, a)
    ensures Before(index, a, b) && Before(index, b, c) ==> Before(index, a, c)
  {
    KeyLessTotal(a, a);
    KeyLessTotal(a, b);
    if KeyLess(a, b) && KeyLess(b, c) { KeyLessTransitive(a, b, c); }
  }

  ghost predicate Ordered(index: Index, keys: seq<Key>) {
    forall i, j | 0 <= i < j < |keys| :: Before(index, keys[i], keys[j])
  }

  // ----- evicting to a budget -----

  function KeySet(keys: seq<Key>): set<Key> { set k | k in keys }

  function Without(index: Index, keys: seq<Key>): Index { index - KeySet(keys) }

  /** `removed` is a prefix of the eviction order and the outcome drops exactly those keys
      and every blob nothing refers to any more. */
  ghost predicate Evicts(index: Index, blobs: Blobs, removed: seq<Key>, index': Index, blobs': Blobs) {
    && Ordered(index, removed)
    && (forall r | r in removed :: r in index)
    && (forall r, k | r in removed && k in index' :: Before(index, r, k))
    && index' == Without(index, removed)
    && blobs' == Live(index', blobs)
  }

  /** The prefix is the shortest one that brings the payload within the budget. */
  ghost predicate Shortest(index: Index, blobs: Blobs, max: nat, removed: seq<Key>) {
    && Total(Live(Without(index, removed), blobs)) <= max
    && forall m | 0 <= m < |removed| :: Total(Live(Without(index, removed[..m]), blobs)) > max
  }

  lemma {:induction false} PrefixesAgree(index: Index, blobs: Blobs, r1: seq<Key>, r2: seq<Key>, i: nat)
    requires Evicts(index, blobs, r1, Without(index, r1), Live(Without(index, r1), blobs))
    requires Evicts(index, blobs, r2, Without(index, r2), Live(Without(index, r2), blobs))
    requires i <= |r1| && i <= |r2|
    ensures r1[..i] == r2[..i]
    decreases i
  {
    if i > 0 {
      PrefixesAgree(index, blobs, r1, r2, i - 1);
      NotBehind(index, r1, r2, i - 1);
      NotBehind(index, r2, r1, i - 1);
      BeforeIsStrictOrder(index, r1[i - 1], r2[i - 1], r1[i - 1]);
      assert r1[..i] == r1[..i - 1] + [r1[i - 1]] && r2[..i] == r2[..i - 1] + [r2[i - 1]];
    }
  }

  lemma OrderedIsDistinct(index: Index, keys: seq<Key>, i: nat)
    requires Ordered(index, keys) && i < |keys|
    ensures keys[i] !in keys[..i]
  {
    forall j | 0 <= j < i ensures keys[j] != keys[i] {
      BeforeIsStrictOrder(index, keys[j], keys[i], keys[j]);
    }
  }

  /** The next key of one eviction prefix cannot come before the next key of another. */
  lemma NotBehind(index: Index, r1: seq<Key>, r2: seq<Key>, i: nat)
    requires i < |r1| && i < |r2| && r1[..i] == r2[..i] && r1[i] in index
    requires Ordered(index, r1) && Ordered(index, r2)
    requires forall r, k | r in r2 && k in Without(index, r2) :: Before(index, r, k)
    ensures r1[i] == r2[i] || Before(index, r2[i], r1[i])
  {
    OrderedIsDistinct(index, r1, i);
    if r1[i] in r2 {
      var j :| 0 <= j < |r2| && r2[j] == r1[i];
      assert forall n | 0 <= n < i :: r2[n] == r2[..i][n];
      assert i <= j;
    } else {
      assert r1[i] in Without(index, r2) && r2[i] in r2;
    }
  }

  lemma ShortestIsNoLonger(index: Index, blobs: Blobs, max: nat, r1: seq<Key>, r2: seq<Key>)
    requires Evicts(index, blobs, r1, Without(index, r1), Live(Without(index, r1), blobs))
    requires Evicts(index, blobs, r2, Without(index, r2), Live(Without(index, r2), blobs))
    requires Shortest(index, blobs, max, r1) && Shortest(index, blobs, max, r2)
    ensures |r2| <= |r1| && r2 == r1[..|r2|]
  {
    var m := Min(|r1|, |r2|);
    PrefixesAgree(index, blobs, r1, r2, m);
    if m == |r1| {
      assert r1[..m] == r1 && Total(Live(Without(index, r2[..m]), blobs)) <= max;
    }
    assert r2 == r2[..|r2|];
  }

  /** The shortest eviction prefix is unique: the specification pins the outcome down. */
  lemma EvictionIsDetermined(index: Index, blobs: Blobs, max: nat, r1: seq<Key>, r2: seq<Key>)
    requires Evicts(index, blobs, r1, Without(index, r1), Live(Without(index, r1), blobs))
    requires Evicts(index, blobs, r2, Without(index, r2), Live(Without(index, r2), blobs))
    requires Shortest(index, blobs, max, r1) && Shortest(index, blobs, max, r2)
    ensures r1 == r2
  {
    ShortestIsNoLonger(index, blobs, max, r1, r2);
    ShortestIsNoLonger(index, blobs, max, r2, r1);
    assert r1 == r1[..|r1|];
  }
}
