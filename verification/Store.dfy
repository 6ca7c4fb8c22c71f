/** The local content-addressed store, one process at a time: index scans, reference-counted
    removal, garbage collection to a budget, publication, resolution, verification. */
module Stores {
  import opened Basics
  import opened Sums
  import opened ContentChecks
  import opened Pins
  import opened Receiving
  import opened Catalog
  import opened Resolution

  /** What is left of a byte budget, if there is one. */
  function LeftOf(budget: Cell?): Option<nat>
    reads budget
  {
    if budget == null then None else Some(budget.value)
  }

  lemma InsertedIsOrdered(ix: Index, keys: seq<Key>, k: Key, at: nat)
    requires Ordered(ix, keys) && at <= |keys|
    requires forall j | 0 <= j < at :: Before(ix, keys[j], k)
    requires forall j | at <= j < |keys| :: Before(ix, k, keys[j])
    ensures Ordered(ix, keys[..at] + [k] + keys[at..])
    ensures KeySet(keys[..at] + [k] + keys[at..]) == KeySet(keys) + {k}
  {
    assert keys == keys[..at] + keys[at..];
  }

  lemma OrderExtends(ix: Index, keys: seq<Key>, k: Key, at: nat)
    requires Ordered(ix, keys) && at <= |keys|
    requires at > 0 ==> Before(ix, keys[at - 1], k)
    ensures forall j | 0 <= j < at :: Before(ix, keys[j], k)
  {
    forall j | 0 <= j < at ensures Before(ix, keys[j], k) {
      BeforeIsStrictOrder(ix, keys[j], keys[at - 1], k);
    }
  }

  class Store {
    const w: Oracles
    const offline: bool
    const allowUpstream: bool
    var index: Index
    var blobs: Blobs

    constructor (w: Oracles, offline: bool, allowUpstream: bool, index: Index, blobs: Blobs)
      ensures this.w == w && this.offline == offline && this.allowUpstream == allowUpstream
      ensures this.index == index && this.blobs == blobs
    {
      this.w, this.offline, this.allowUpstream := w, offline, allowUpstream;
      this.index, this.blobs := index, blobs;
    }

    /** Every key with a sidecar, in sorted order. */
    method Keys() returns (keys: seq<Key>)
      ensures Ordered(map[], keys) && KeySet(keys) == index.Keys
    {
      keys := [];
      var rest := index.Keys;
      while rest != {}
        invariant Ordered(map[], keys) && KeySet(keys) + rest == index.Keys && KeySet(keys) !! rest
        decreases rest
      {
        var k :| k in rest;
        var at: nat := |keys|;
        while at > 0 && !KeyLess(keys[at - 1], k)
          invariant at <= |keys|
          invariant forall j | at <= j < |keys| :: Before(map[], k, keys[j])
        {
          assert keys[at - 1] in KeySet(keys);
          KeyLessTotal(keys[at - 1], k);
          at := at - 1;
        }
        OrderExtends(map[], keys, k, at);
        InsertedIsOrdered(map[], keys, k, at);
        keys := keys[..at] + [k] + keys[at..];
        rest := rest - {k};
      }
    }

    /** Stable sort of the scan by fetch time. */
    method EvictionOrder() returns (order: seq<Key>)
      ensures Ordered(index, order) && KeySet(order) == index.Keys
    {
      var keys := Keys();
      order := [];
      for i := 0 to |keys|
        invariant Ordered(index, order) && KeySet(order) == KeySet(keys[..i])
      {
        var k := keys[i];
        var at: nat := |order|;
        forall j | 0 <= j < |order| ensures KeyLess(order[j], k) {
          assert order[j] in KeySet(keys[..i]);
          var n :| 0 <= n < i && keys[n] == order[j];
          assert Before(map[], keys[n], keys[i]);
        }
        while at > 0 && FetchedAt(index, order[at - 1]) > FetchedAt(index, k)
          invariant at <= |order|
          invariant forall j | at <= j < |order| :: Before(index, k, order[j])
        {
          at := at - 1;
        }
        OrderExtends(index, order, k, at);
        InsertedIsOrdered(index, order, k, at);
        order := order[..at] + [k] + order[at..];
        assert keys[..i + 1] == keys[..i] + [k];
      }
      assert keys[..|keys|] == keys;
    }

    method Remove(key: Key) returns (r: Result<(), Error>)
      modifies this`index, this`blobs
      ensures index == if key in old(index) && old(index)[key].Readable? then old(index) - {key} else old(index)
      ensures r.Ok? <==> key !in old(index) || (old(index)[key].Readable? && AllReadable(index))
      ensures r.Ok? ==> (index, blobs) == DropEntry(old(index), old(blobs), key)
      ensures r.Err? ==> blobs == old(blobs)
      ensures NoDangling(old(index), old(blobs)) ==> NoDangling(index, blobs)
    {
      if key !in index { return Ok(()); }
      if index[key].Malformed? { return Err(IoError); }
      var entry := index[key].entry;
      index := index - {key};
      // The reference scan reads every sidecar.
      if !AllReadable(index) { return Err(IoError); }
      if !Referenced(index, entry.digest) {
        blobs := blobs - {entry.digest};
      }
      r := Ok(());
    }

    /** Unique payload bytes, orphans included, with checked addition. */
    method BlobBytes() returns (r: Result<nat, Error>)
      ensures r == if Total(blobs) <= U64_MAX then Ok(Total(blobs)) else Err(ConfigError)
    {
      var total, todo := 0, blobs;
      while todo != map[]
        invariant total + Total(todo) == Total(blobs) && total <= U64_MAX
        decreases |todo|
      {
        var d :| d in todo;
        SumRemove(todo, Length, d);
        total := total + |todo[d]|;
        if total > U64_MAX { return Err(ConfigError); }
        todo := todo - {d};
      }
      r := Ok(total);
    }

    /** Garbage collection: sweep the orphans away, then evict in order while the unique bytes
        exceed `max`. A damaged sidecar stops it before anything is touched. */
    method Gc(max: nat) returns (r: Result<seq<Key>, Error>)
      modifies this`index, this`blobs
      ensures r.Ok? <==> AllReadable(old(index))
      ensures r.Err? ==> index == old(index) && blobs == old(blobs)
      ensures r.Ok? ==> Evicts(old(index), old(blobs), r.value, index, blobs)
      ensures r.Ok? && Total(Live(old(index), old(blobs))) <= U64_MAX ==>
              Shortest(old(index), old(blobs), max, r.value)
    {
      if !AllReadable(index) { return Err(IoError); }
      ghost var index0, blobs0 := index, blobs;
      var sizes := Sweep();
      var order := EvictionOrder();
      var total := WrappingSum(sizes);
      ghost var exact := Total(Live(index0, blobs0)) <= U64_MAX;
      if exact { SmallSumIsExact(Total(Live(index0, blobs0))); }
      assert exact ==> total == Total(Live(index0, blobs0));
      var n := EvictWhileOver(max, order, sizes, total, index0, blobs0);
      var removed := order[..n];
      assert exact ==> Shortest(index0, blobs0, max, removed);
      r := Ok(removed);
    }

    /** Evict in order until the running total is within the budget. */
    method EvictWhileOver(max: nat, order: seq<Key>, sizes: map<Digest, nat>, start: nat,
                          ghost index0: Index, ghost blobs0: Blobs)
      returns (n: nat)
      requires index == index0 && AllReadable(index0) && IsOrder(index0, order)
      requires blobs == Live(index0, blobs0) && Sized(sizes, blobs0)
      modifies this`index, this`blobs
      ensures n <= |order| && Evicts(index0, blobs0, order[..n], index, blobs)
      ensures start == Total(Live(index0, blobs0)) ==> Shortest(index0, blobs0, max, order[..n])
    {
      var total: nat := start;
      ghost var exact := start == Total(Live(index0, blobs0));
      n := 0;
      NothingEvictedYet(index0, blobs0, max, order, exact, total);
      while n < |order| && total > max
        invariant n <= |order| && Underway(index0, blobs0, max, order, exact, n, index, blobs, total)
        invariant Sized(sizes, blobs0)
      {
        ghost var index1, blobs1, total1 := index, blobs, total;
        NextIsIndexed(index0, blobs0, max, order, exact, n, index1, blobs1, total1);
        total := EvictOne(order[n], sizes, total, blobs0);
        OneMoreEvicted(index0, blobs0, max, order, exact, n, index1, blobs1, total1, index, blobs, total);
        n := n + 1;
      }
      EvictionEnds(index0, blobs0, max, order, exact, n, index, blobs, total);
    }

    ghost predicate Sized(sizes: map<Digest, nat>, blobs0: Blobs)
      reads this
    {
      sizes.Keys <= blobs0.Keys && forall d | d in blobs :: d in sizes && sizes[d] == |blobs[d]|
    }

    /** One turn of the eviction loop, under the key lock and the store lock. */
    method EvictOne(key: Key, sizes: map<Digest, nat>, total: nat, ghost blobs0: Blobs) returns (left: nat)
      requires key in index && index[key].Readable? && blobs == Live(index, blobs0) && Sized(sizes, blobs0)
      modifies this`index, this`blobs
      ensures index == old(index) - {key} && blobs == Live(index, blobs0) && Sized(sizes, blobs0)
      ensures total == Total(old(blobs)) ==> left == Total(blobs)
    {
      var entry := index[key].entry;
      index := index - {key};
      left := total;
      LiveWithoutKey(old(index), key, blobs0);
      assert Referenced(old(index), entry.digest);
      if !Referenced(index, entry.digest) {
        if entry.digest in blobs {
          SumRemove(blobs, Length, entry.digest);
        } else {
          assert blobs - {entry.digest} == blobs;
        }
        var size := if entry.digest in sizes then sizes[entry.digest] else 0;
        blobs := blobs - {entry.digest};
        left := if size <= total then total - size else 0;
      }
    }

    /** The first critical section of garbage collection. */
    method Sweep() returns (sizes: map<Digest, nat>)
      modifies this`blobs
      ensures blobs == Live(index, old(blobs))
      ensures sizes.Keys == blobs.Keys && forall d | d in sizes :: sizes[d] == |blobs[d]|
    {
      sizes := map[];
      var todo := blobs.Keys;
      ghost var blobs0 := blobs;
      while todo != {}
        invariant todo <= blobs.Keys <= blobs0.Keys
        invariant forall d | d in blobs :: blobs[d] == blobs0[d] && (d in todo || Referenced(index, d))
        invariant forall d | d in blobs0 && d !in blobs :: !Referenced(index, d)
        invariant sizes.Keys == blobs.Keys - todo && forall d | d in sizes :: sizes[d] == |blobs[d]|
        decreases todo
      {
        var d :| d in todo;
        if Referenced(index, d) {
          sizes := sizes[d := |blobs[d]|];
        } else {
          blobs := blobs - {d};
        }
        todo := todo - {d};
      }
    }

    /** The sum of the sizes as a 64-bit machine adds them. */
    method WrappingSum(sizes: map<Digest, nat>) returns (total: nat)
      requires sizes.Keys == blobs.Keys && forall d | d in sizes :: sizes[d] == |blobs[d]|
      ensures total == Total(blobs) % (U64_MAX + 1)
    {
      var todo := sizes;
      total := 0;
      ghost var exact: nat := 0;
      ghost var rest := blobs;
      while todo != map[]
        invariant todo.Keys == rest.Keys && forall d | d in todo :: d in rest && todo[d] == |rest[d]|
        invariant exact + Total(rest) == Total(blobs) && total == exact % (U64_MAX + 1)
        decreases |todo|
      {
        var d :| d in todo;
        SumRemove(rest, Length, d);
        WrapOnce(exact, todo[d]);
        total := (total + todo[d]) % (U64_MAX + 1);
        exact := exact + todo[d];
        rest, todo := rest - {d}, todo - {d};
      }
    }

    // ----- publication and resolution -----

    function Disk(): Disk
      reads this
    {
      Resolution.Disk(index, blobs)
    }

    /** Turn a received body into a blob with an entry, or fail at `fault` on the way. */
    method Publish(a: Artifact, got: Received, e: Entry, fault: Fault) returns (r: Result<Digest, Error>)
      modifies this`index, this`blobs
      ensures (r, Disk()) == Publication(w, old(Disk()), a, got, e, fault)
    {
      var v := Validate(w, a, got.content, e.bytes, e.digest);
      if v.Fail? { return Err(ContentRejected(v.check)); }
      if fault == BeforeBlob { return Err(IoError); }
      // A blob already at the address is kept or refused, never overwritten.
      if e.digest in blobs {
        if w.sha(blobs[e.digest]) != e.digest { return Err(ContentRejected("cached blob digest")); }
      } else {
        blobs := blobs[e.digest := got.content];
      }
      if fault == AfterBlob || fault == BeforeSidecar { return Err(IoError); }
      index := index[a.key := Readable(e)];
      if fault == AfterSidecar { return Err(IoError); }
      r := Ok(e.digest);
    }

    /** One transfer from a contact into the store. */
    method Fetch(a: Artifact, budget: Cell?, t: Attempt, layer: Layer)
      returns (r: Result<Option<Digest>, Error>)
      modifies this`index, this`blobs, budget
      ensures Transferred(r, Disk(), LeftOf(budget)) == Transfer(w, old(Disk()), old(LeftOf(budget)), a, t, layer)
    {
      if budget == null { NoBudgetStays(w, a.check, Fresh(None), t.run.writes); }
      var received := Receive(w, a.check, budget, t.run);
      if received.Err? { return Err(received.error); }
      if received.value == None { return Ok(None); }
      var published := Publish(a, received.value.value, EntryFor(received.value.value, t, layer), t.fault);
      if published.Err? { return Err(published.error); }
      r := Ok(Some(published.value));
    }

    /** Try each source in turn on one budget: the contacts from `first` on. */
    method FetchUpstream(a: Artifact, budget: Cell?, contacts: seq<Attempt>, first: nat)
      returns (r: Result<Digest, Error>, tried: nat)
      requires |contacts| == first + |a.sources|
      modifies this`index, this`blobs, budget
      ensures Resolved(r, Disk(), LeftOf(budget), tried) ==
              Sources(w, old(Disk()), old(LeftOf(budget)), a, contacts, first)
    {
      tried := first;
      while tried < |contacts|
        invariant tried <= |contacts|
        invariant Sources(w, Disk(), LeftOf(budget), a, contacts, tried) ==
                  Sources(w, old(Disk()), old(LeftOf(budget)), a, contacts, first)
      {
        var u := Fetch(a, budget, contacts[tried], Upstream);
        tried := tried + 1;
        match u {
          case Ok(Some(d)) => return Ok(d), tried;
          case Ok(None) =>
          case Err(e) =>
            if e == TransferLimit { return Err(e), tried; }
            if (e.ContentRejected? || e.NoCredential? || e.CredentialRejected?) && |a.sources| == 1 {
              return Err(e), tried;
            }
        }
      }
      r := Err(AllSourcesFailed);
    }

    /** Resolve an artifact: the local layer, then the mirror, then each source in turn, all
        transfers drawing on one budget. `tried` counts the contacts made. */
    method GetWithBudget(a: Artifact, budget: Cell?, mirror: Option<Attempt>, upstream: seq<Attempt>)
      returns (r: Result<Digest, Error>, tried: nat)
      requires |upstream| == |a.sources|
      modifies this`index, this`blobs, budget
      ensures Resolved(r, Disk(), LeftOf(budget), tried) ==
              Resolve(w, offline, allowUpstream, old(Disk()), old(LeftOf(budget)), a, mirror, upstream)
    {
      var local := Lookup(a, budget);
      if local.Some? { return local.value, 0; }
      if offline { return Err(OfflineMiss), 0; }
      tried := 0;
      if mirror.Some? {
        tried := 1;
        var m := Fetch(a, budget, mirror.value, Mirror);
        match m {
          case Ok(Some(d)) => return Ok(d), tried;
          case Ok(None) =>
          case Err(e) =>
            if e.ContentRejected? || e == TransferLimit { return Err(e), tried; }
        }
      }
      if a.sources == [] { return Err(ManualRequired), tried; }
      if !allowUpstream { return Err(MirrorUnreachable), tried; }
      r, tried := FetchUpstream(a, budget, Contacts(mirror, upstream), tried);
    }

    /** The local layer. */
    method Lookup(a: Artifact, budget: Cell?) returns (done: Option<Result<Digest, Error>>)
      ensures done == Local(w, Disk(), LeftOf(budget), a)
    {
      if a.key !in index { return None; }
      if index[a.key].Malformed? { return Some(Err(IoError)); }
      var entry := index[a.key].entry;
      var hit := LocalHit(w, blobs, a, entry);
      match hit {
        case Err(e) => return Some(Err(e));
        case Ok(None) => return None;
        case Ok(Some(d)) =>
          if budget != null && entry.bytes > budget.value { return Some(Err(TransferLimit)); }
          return Some(Ok(d));
      }
    }

    /** Take in a file that is already on this machine. */
    method Import(a: Artifact, file: Attempt) returns (r: Result<Digest, Error>)
      requires file.run.end != Absent
      modifies this`index, this`blobs
      ensures Transferred(if r.Ok? then Ok(Some(r.value)) else Err(r.error), Disk(), None) ==
              Transfer(w, old(Disk()), None, a, file, LocalDisk)
    {
      var f := Fetch(a, null, file, LocalDisk);
      match f {
        case Ok(Some(d)) => r := Ok(d);
        case Ok(None) => assert false;
        case Err(e) => r := Err(e);
      }
    }

    /** Rehash every blob and report each key that no longer agrees with its entry. */
    method Verify() returns (r: Result<seq<(Key, Damage)>, Error>)
      ensures r.Ok? <==> AllReadable(index)
      ensures r.Ok? ==> forall k, damage :: (k, damage) in r.value <==>
                k in index && DamageOf(w, blobs, index[k].entry) == Some(damage)
    {
      if !AllReadable(index) { return Err(IoError); }
      var keys := Keys();
      var failures: seq<(Key, Damage)> := [];
      for i := 0 to |keys|
        invariant forall k, damage :: (k, damage) in failures <==>
                    k in keys[..i] && k in index && DamageOf(w, blobs, index[k].entry) == Some(damage)
      {
        assert keys[i] in KeySet(keys) && keys[..i + 1] == keys[..i] + [keys[i]];
        var found := DamageOf(w, blobs, index[keys[i]].entry);
        if found.Some? { failures := failures + [(keys[i], found.value)]; }
      }
      assert forall k | k in index :: k in KeySet(keys);
      assert keys[..|keys|] == keys;
      r := Ok(failures);
    }
  }

  lemma SmallSumIsExact(x: nat)
    requires x <= U64_MAX
    ensures x % (U64_MAX + 1) == x
  {
  }

  lemma WrapOnce(x: nat, y: nat)
    ensures (x % (U64_MAX + 1) + y) % (U64_MAX + 1) == (x + y) % (U64_MAX + 1)
  {
  }

  lemma LiveWithoutKey(index: Index, key: Key, blobs: Blobs)
    requires key in index && index[key].Readable?
    ensures var index', d := index - {key}, index[key].entry.digest;
            Live(index', blobs) == if Referenced(index', d) then Live(index, blobs) else Live(index, blobs) - {d}
  {
    var index', d := index - {key}, index[key].entry.digest;
    forall e ensures Referenced(index, e) <==> Referenced(index', e) || e == d {
      if Referenced(index, e) && e != d {
        var k :| k in index && index[k].Readable? && index[k].entry.digest == e;
        assert k in index';
      }
    }
  }

  // ----- eviction turns, on values -----

  /** The eviction order of an index. */
  ghost predicate IsOrder(index: Index, order: seq<Key>) { Ordered(index, order) && KeySet(order) == index.Keys }

  /** Unique bytes left once the first `m` keys are gone. */
  ghost function PayloadWithout(index: Index, blobs: Blobs, order: seq<Key>, m: nat): nat
    requires m <= |order|
  {
    Total(Live(Without(index, order[..m]), blobs))
  }

  /** After `n` turns; `exact` says that the running total started as the true one. */
  ghost predicate Underway(index0: Index, blobs0: Blobs, max: nat, order: seq<Key>, exact: bool,
                           n: nat, index: Index, blobs: Blobs, total: nat)
    requires n <= |order|
  {
    && index == Without(index0, order[..n]) && blobs == Live(index, blobs0)
    && (exact ==> total == PayloadWithout(index0, blobs0, order, n)
                  && forall m | 0 <= m < n :: PayloadWithout(index0, blobs0, order, m) > max)
  }

  lemma NothingEvictedYet(index0: Index, blobs0: Blobs, max: nat, order: seq<Key>, exact: bool, total: nat)
    requires exact ==> total == Total(Live(index0, blobs0))
    ensures Underway(index0, blobs0, max, order, exact, 0, index0, Live(index0, blobs0), total)
  {
    assert Without(index0, order[..0]) == index0;
  }

  lemma NextKey(index: Index, order: seq<Key>, n: nat)
    requires IsOrder(index, order) && n < |order|
    ensures order[n] in Without(index, order[..n])
    ensures Without(index, order[..n + 1]) == Without(index, order[..n]) - {order[n]}
  {
    OrderedIsDistinct(index, order, n);
    assert order[n] in KeySet(order);
    assert order[..n + 1] == order[..n] + [order[n]];
  }

  lemma NextIsIndexed(index0: Index, blobs0: Blobs, max: nat, order: seq<Key>, exact: bool,
                      n: nat, index: Index, blobs: Blobs, total: nat)
    requires IsOrder(index0, order) && AllReadable(index0) && n < |order|
    requires Underway(index0, blobs0, max, order, exact, n, index, blobs, total)
    ensures order[n] in index && index[order[n]].Readable? && blobs == Live(index, blobs0)
    ensures exact ==> total == Total(blobs)
  {
    NextKey(index0, order, n);
  }

  lemma OneMoreEvicted(index0: Index, blobs0: Blobs, max: nat, order: seq<Key>, exact: bool,
                       n: nat, index: Index, blobs: Blobs, total: nat, index': Index, blobs': Blobs, total': nat)
    requires IsOrder(index0, order) && n < |order|
    requires Underway(index0, blobs0, max, order, exact, n, index, blobs, total) && total > max
    requires index' == index - {order[n]} && blobs' == Live(index', blobs0)
    requires exact ==> total' == Total(blobs')
    ensures Underway(index0, blobs0, max, order, exact, n + 1, index', blobs', total')
  {
    NextKey(index0, order, n);
  }

  lemma PrefixEvicts(index: Index, blobs: Blobs, order: seq<Key>, i: nat)
    requires IsOrder(index, order) && i <= |order|
    ensures Evicts(index, blobs, order[..i], Without(index, order[..i]), Live(Without(index, order[..i]), blobs))
  {
    forall r, k | r in order[..i] && k in Without(index, order[..i]) ensures Before(index, r, k) {
      assert k in KeySet(order);
      var n, m :| 0 <= n < i && order[n] == r && 0 <= m < |order| && order[m] == k;
      assert forall j | 0 <= j < i :: order[j] == order[..i][j];
      assert i <= m;
    }
    forall r | r in order[..i] ensures r in index { assert r in KeySet(order); }
  }

  lemma PrefixIsShortest(index: Index, blobs: Blobs, max: nat, order: seq<Key>, i: nat)
    requires i <= |order| && PayloadWithout(index, blobs, order, i) <= max
    requires forall m | 0 <= m < i :: PayloadWithout(index, blobs, order, m) > max
    ensures Shortest(index, blobs, max, order[..i])
  {
    forall m | 0 <= m < i ensures Total(Live(Without(index, order[..i][..m]), blobs)) > max {
      assert order[..i][..m] == order[..m];
      assert PayloadWithout(index, blobs, order, m) > max;
    }
  }

  lemma EverythingGone(index: Index, order: seq<Key>, blobs: Blobs)
    requires KeySet(order) == index.Keys
    ensures PayloadWithout(index, blobs, order, |order|) == 0
  {
    assert order[..|order|] == order;
    assert Without(index, order) == map[];
    assert Live(map[], blobs) == map[];
  }

  lemma EvictionEnds(index0: Index, blobs0: Blobs, max: nat, order: seq<Key>, exact: bool,
                     n: nat, index: Index, blobs: Blobs, total: nat)
    requires IsOrder(index0, order) && n <= |order| && (n == |order| || total <= max)
    requires Underway(index0, blobs0, max, order, exact, n, index, blobs, total)
    ensures Evicts(index0, blobs0, order[..n], index, blobs)
    ensures exact ==> Shortest(index0, blobs0, max, order[..n])
  {
    PrefixEvicts(index0, blobs0, order, n);
    if n == |order| { EverythingGone(index0, order, blobs0); }
    if exact { PrefixIsShortest(index0, blobs0, max, order, n); }
  }
}
