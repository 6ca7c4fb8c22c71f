/** Explicit local repair: check a manifest offline, and on request remove every failed entry
    before refetching any of them, so that shared corrupt blobs are really replaced. */
module Repair {
  import opened Basics
  import opened ContentChecks
  import opened Pins
  import opened TransferLaws
  import opened Catalog
  import opened Resolution
  import opened Outcomes
  import opened Stores

  /** What the mirror and the sources do when a key is fetched again. */
  type Refetches = map<Key, (Option<Attempt>, seq<Attempt>)>

  /** The local layer would serve the artifact. */
  ghost predicate Held(w: Oracles, index: Index, blobs: Blobs, a: Artifact) {
    a.key in index && index[a.key].Readable? && Ready(w, index, blobs, a, index[a.key].entry.digest)
  }

  /** Every entry's blob exists, has the recorded length and hashes to its digest. */
  ghost predicate Undamaged(w: Oracles, index: Index, blobs: Blobs) {
    AllReadable(index) && forall k | k in index :: DamageOf(w, blobs, index[k].entry) == None
  }

  ghost predicate Distinct(manifest: seq<Artifact>) {
    forall i, j | 0 <= i < j < |manifest| :: manifest[i].key != manifest[j].key
  }

  ghost predicate Covers(plan: Refetches, manifest: seq<Artifact>) {
    forall a | a in manifest :: a.key in plan && |plan[a.key].1| == |a.sources|
  }

  ghost predicate ReportingPlan(plan: Refetches) {
    forall k | k in plan :: AllReport(Contacts(plan[k].0, plan[k].1))
  }

  ghost predicate HonestPlan(w: Oracles, plan: Refetches) { Injective(w) && ReportingPlan(plan) }

  ghost function KeysIn(artifacts: seq<Artifact>): set<Key> { set a | a in artifacts :: a.key }

  lemma HeldIsUndamaged(w: Oracles, index: Index, blobs: Blobs, a: Artifact)
    requires Held(w, index, blobs, a)
    ensures DamageOf(w, blobs, index[a.key].entry) == None
  {
    HitIsGenuine(w, blobs, a, index[a.key].entry);
  }

  /** Every artifact the local layer cannot serve, in manifest order. */
  method Inspect(s: Store, manifest: seq<Artifact>) returns (failed: seq<Artifact>)
    ensures forall a :: a in failed <==> a in manifest && !Held(s.w, s.index, s.blobs, a)
    ensures Distinct(manifest) ==> Distinct(failed)
  {
    failed := [];
    for i := 0 to |manifest|
      invariant forall a :: a in failed <==> a in manifest[..i] && !Held(s.w, s.index, s.blobs, a)
      invariant Distinct(manifest) ==> Distinct(failed)
    {
      var a := manifest[i];
      var local := s.Lookup(a, null);
      assert manifest[..i + 1] == manifest[..i] + [a];
      if local == None || local.value.Err? {
        forall j | 0 <= j < |failed| ensures Distinct(manifest) ==> failed[j].key != a.key {
          assert failed[j] in manifest[..i];
        }
        failed := failed + [a];
      }
    }
    assert manifest[..|manifest|] == manifest;
  }

  /** Exactly blobs that lost their last reference went, and the address of every removed entry is
      either free or still shared. */
  ghost predicate Cleared(index0: Index, blobs0: Blobs, gone: set<Key>, index: Index, blobs: Blobs) {
    && index == index0 - gone
    && Preserves(blobs, blobs0)
    && (forall d | d in blobs0 && d !in blobs :: !Referenced(index, d) && Referenced(index0, d))
    && forall k | k in gone && k in index0 && index0[k].Readable? ::
         index0[k].entry.digest in blobs ==> Referenced(index, index0[k].entry.digest)
  }

  method RemoveAll(s: Store, failed: seq<Artifact>)
    requires AllReadable(s.index)
    modifies s`index, s`blobs
    ensures Cleared(old(s.index), old(s.blobs), KeysIn(failed), s.index, s.blobs)
  {
    ghost var index0, blobs0 := s.index, s.blobs;
    for i := 0 to |failed|
      invariant AllReadable(s.index) && Cleared(index0, blobs0, KeysIn(failed[..i]), s.index, s.blobs)
    {
      var key := failed[i].key;
      ghost var index1, blobs1 := s.index, s.blobs;
      assert failed[..i + 1] == failed[..i] + [failed[i]];
      assert KeysIn(failed[..i + 1]) == KeysIn(failed[..i]) + {key};
      var removed := s.Remove(key);
      assert removed.Ok?;
      FewerReferences(index1, s.index, key);
    }
    assert failed[..|failed|] == failed;
  }

  lemma FewerReferences(before: Index, after: Index, key: Key)
    requires after == before - {key}
    ensures forall d | Referenced(after, d) :: Referenced(before, d)
    ensures forall d | Referenced(before, d) ::
              Referenced(after, d) || (key in before && before[key].Readable? && before[key].entry.digest == d)
  {
    forall d | Referenced(before, d)
      ensures Referenced(after, d) || (key in before && before[key].Readable? && before[key].entry.digest == d)
    {
      var k :| k in before && before[k].Readable? && before[k].entry.digest == d;
      if k != key { assert k in after && after[k] == before[k]; }
    }
  }

  /** What removal achieves: everything still indexed is sound, shared aliases included, and
      nothing corrupt is left at an address that a removed entry named. */
  lemma ClearingLeavesOnlySoundEntries(w: Oracles, manifest: seq<Artifact>, failed: seq<Artifact>,
                                       index0: Index, blobs0: Blobs, index: Index, blobs: Blobs)
    requires AllReadable(index0) && Cleared(index0, blobs0, KeysIn(failed), index, blobs)
    requires forall a | a in manifest && !Held(w, index0, blobs0, a) :: a in failed
    requires forall k | k in index0 && k !in KeysIn(manifest) :: DamageOf(w, blobs0, index0[k].entry) == None
    ensures Undamaged(w, index, blobs)
    ensures forall k | k in index0 && index0[k].entry.digest in blobs ::
              w.sha(blobs[index0[k].entry.digest]) == index0[k].entry.digest
    ensures forall a | a in manifest && a !in failed && a.key !in KeysIn(failed) :: Held(w, index, blobs, a)
  {
    forall k | k in index
      ensures DamageOf(w, blobs, index[k].entry) == None && Referenced(index, index[k].entry.digest)
    {
      if k in KeysIn(manifest) {
        var a :| a in manifest && a.key == k;
        assert a !in failed;
        HeldIsUndamaged(w, index0, blobs0, a);
      }
      assert DamageOf(w, blobs0, index0[k].entry) == None;
    }
    forall k | k in index0 && index0[k].entry.digest in blobs
      ensures w.sha(blobs[index0[k].entry.digest]) == index0[k].entry.digest
    {
      var d := index0[k].entry.digest;
      if k !in KeysIn(failed) { assert k in index; }
      assert Referenced(index, d);
      var k' :| k' in index && index[k'].Readable? && index[k'].entry.digest == d;
      assert DamageOf(w, blobs, index[k'].entry) == None;
    }
    forall a | a in manifest && a !in failed && a.key !in KeysIn(failed) ensures Held(w, index, blobs, a) {
      HeldIsUndamaged(w, index0, blobs0, a);
      assert Referenced(index, index[a.key].entry.digest);
    }
  }

  /** The blobs nothing refers to. */
  function Orphans(index: Index, blobs: Blobs): Blobs {
    map d | d in blobs && !Referenced(index, d) :: blobs[d]
  }

  /** What is corrupt after removal was corrupt before, and an orphan. */
  lemma ClearingLeavesCorruptOrphans(w: Oracles, failed: seq<Artifact>, index0: Index, blobs0: Blobs,
                                     index: Index, blobs: Blobs)
    requires AllReadable(index0) && Cleared(index0, blobs0, KeysIn(failed), index, blobs)
    requires forall k | k in index0 && index0[k].entry.digest in blobs ::
               w.sha(blobs[index0[k].entry.digest]) == index0[k].entry.digest
    ensures SameCorruption(w, Orphans(index0, blobs0), blobs)
  {
    forall d ensures CorruptAt(w, Orphans(index0, blobs0), d) <==> CorruptAt(w, blobs, d) {
      if Referenced(index0, d) && d in blobs {
        var k :| k in index0 && index0[k].Readable? && index0[k].entry.digest == d;
      }
    }
  }

  lemma ObtainableByCorruption(w: Oracles, before: Blobs, after: Blobs, allow: bool, plan: Refetches, a: Artifact)
    requires SameCorruption(w, before, after)
    ensures Obtainable(w, before, allow, plan, a) <==> Obtainable(w, after, allow, plan, a)
  {
    if a.key in plan { DeliverableByCorruption(w, before, after, allow, a, plan[a.key].0, plan[a.key].1); }
  }

  /** Removal leaves what can be obtained as it was with the orphans alone. */
  lemma ObtainableAfterClearing(w: Oracles, allow: bool, plan: Refetches, failed: seq<Artifact>,
                                index0: Index, blobs0: Blobs, index: Index, blobs: Blobs)
    requires AllReadable(index0) && Cleared(index0, blobs0, KeysIn(failed), index, blobs)
    requires forall k | k in index0 && index0[k].entry.digest in blobs ::
               w.sha(blobs[index0[k].entry.digest]) == index0[k].entry.digest
    ensures forall a | a in failed ::
              && a.key !in index
              && (Obtainable(w, Orphans(index0, blobs0), allow, plan, a) <==> Obtainable(w, blobs, allow, plan, a))
  {
    ClearingLeavesCorruptOrphans(w, failed, index0, blobs0, index, blobs);
    forall a | a in failed
      ensures a.key !in index
      ensures Obtainable(w, Orphans(index0, blobs0), allow, plan, a) <==> Obtainable(w, blobs, allow, plan, a)
    {
      assert a.key in KeysIn(failed);
      ObtainableByCorruption(w, Orphans(index0, blobs0), blobs, allow, plan, a);
    }
  }

  lemma StillHeld(w: Oracles, index0: Index, blobs0: Blobs, index: Index, blobs: Blobs, a: Artifact, key: Key)
    requires Held(w, index0, blobs0, a) && a.key != key
    requires SameElsewhere(index0, index, key) && Preserves(blobs0, blobs)
    ensures Held(w, index, blobs, a)
  {
    HeldIsUndamaged(w, index0, blobs0, a);
  }

  lemma StillUndamaged(w: Oracles, index0: Index, blobs0: Blobs, index: Index, blobs: Blobs, key: Key)
    requires Undamaged(w, index0, blobs0)
    requires SameElsewhere(index0, index, key) && Preserves(blobs0, blobs)
    requires NewEntryIsSound(w, index0, index, blobs, key)
    ensures Undamaged(w, index, blobs)
  {
    forall k | k in index ensures index[k].Readable? && DamageOf(w, blobs, index[k].entry) == None {
      if k in index0 && index[k] == index0[k] {
        assert DamageOf(w, blobs0, index0[k].entry) == None;
      }
    }
  }

  /** Fetch one artifact again, without a byte limit. */
  method RefetchOne(s: Store, a: Artifact, mirror: Option<Attempt>, upstream: seq<Attempt>)
    returns (r: Result<Digest, Error>)
    requires |upstream| == |a.sources|
    modifies s`index, s`blobs
    ensures Preserves(old(s.blobs), s.blobs) && SameElsewhere(old(s.index), s.index, a.key)
    ensures Honest(s.w, Contacts(mirror, upstream)) ==>
              && NewEntryIsSound(s.w, old(s.index), s.index, s.blobs, a.key)
              && (r.Ok? ==> Ready(s.w, s.index, s.blobs, a, r.value))
    ensures AllReport(Contacts(mirror, upstream)) ==>
              && SameCorruption(s.w, old(s.blobs), s.blobs)
              && (!s.offline && a.key !in old(s.index) ==>
                    (r.Ok? <==> Deliverable(s.w, old(s.blobs), s.allowUpstream, a, mirror, upstream)))
  {
    ghost var disk := s.Disk();
    var tried;
    r, tried := s.GetWithBudget(a, null, mirror, upstream);
    ResolutionGrows(s.w, s.offline, s.allowUpstream, disk, None, a, mirror, upstream);
    if Honest(s.w, Contacts(mirror, upstream)) {
      ResolvedIsReady(s.w, s.offline, s.allowUpstream, disk, None, a, mirror, upstream);
    }
    if AllReport(Contacts(mirror, upstream)) {
      ResolutionKeepsCorruption(s.w, s.offline, s.allowUpstream, disk, None, a, mirror, upstream);
      if !s.offline && a.key !in disk.index {
        AbsentKeyResolvesExactly(s.w, s.allowUpstream, disk, a, mirror, upstream);
      }
    }
  }

  /** The plan has a contact that delivers the artifact. */
  ghost predicate Obtainable(w: Oracles, blobs: Blobs, allow: bool, plan: Refetches, a: Artifact) {
    a.key in plan && Deliverable(w, blobs, allow, a, plan[a.key].0, plan[a.key].1)
  }

  /** Where refetching stands if all failed keys were gone when it began: those still to come
      are gone, those done were obtainable, and the same addresses are corrupt. */
  ghost predicate Obtained(w: Oracles, allow: bool, plan: Refetches, failed: seq<Artifact>, blobs0: Blobs, n: nat,
                           index: Index, blobs: Blobs)
    requires n <= |failed|
  {
    && SameCorruption(w, blobs0, blobs)
    && (forall j | n <= j < |failed| :: failed[j].key !in index)
    && forall j | 0 <= j < n :: Obtainable(w, blobs0, allow, plan, failed[j])
  }

  lemma ObtainedOneMore(w: Oracles, allow: bool, plan: Refetches, failed: seq<Artifact>, blobs0: Blobs, n: nat,
                        index1: Index, blobs1: Blobs, index: Index, blobs: Blobs, ok: bool)
    requires n < |failed| && Distinct(failed) && failed[n].key in plan
    requires Obtained(w, allow, plan, failed, blobs0, n, index1, blobs1)
    requires SameElsewhere(index1, index, failed[n].key) && SameCorruption(w, blobs1, blobs)
    requires var a := failed[n];
             ok <==> Deliverable(w, blobs1, allow, a, plan[a.key].0, plan[a.key].1)
    ensures ok <==> Obtainable(w, blobs0, allow, plan, failed[n])
    ensures ok ==> Obtained(w, allow, plan, failed, blobs0, n + 1, index, blobs)
  {
    var a := failed[n];
    DeliverableByCorruption(w, blobs0, blobs1, allow, a, plan[a.key].0, plan[a.key].1);
  }

  /** Fetch every failed artifact again; the first failure ends it. */
  method RefetchAll(s: Store, failed: seq<Artifact>, plan: Refetches) returns (r: Result<(), Error>)
    requires Covers(plan, failed)
    modifies s`index, s`blobs
    ensures Preserves(old(s.blobs), s.blobs)
    ensures forall k | k in old(s.index) && k !in KeysIn(failed) :: k in s.index && s.index[k] == old(s.index)[k]
    ensures forall k | k in s.index && k !in KeysIn(failed) :: k in old(s.index)
    ensures r.Ok? && Distinct(failed) && HonestPlan(s.w, plan) ==>
              forall a | a in failed :: Held(s.w, s.index, s.blobs, a)
    ensures HonestPlan(s.w, plan) && Undamaged(s.w, old(s.index), old(s.blobs)) ==>
              Undamaged(s.w, s.index, s.blobs)
    // With every failed key gone it succeeds exactly when each of them can be obtained.
    ensures !s.offline && ReportingPlan(plan) && Distinct(failed)
            && (forall a | a in failed :: a.key !in old(s.index)) ==>
              (r.Ok? <==> forall a | a in failed :: Obtainable(s.w, old(s.blobs), s.allowUpstream, plan, a))
  {
    ghost var index0, blobs0 := s.index, s.blobs;
    ghost var clear := !s.offline && ReportingPlan(plan) && Distinct(failed)
                       && forall a | a in failed :: a.key !in index0;
    for i := 0 to |failed|
      invariant Refetched(s.w, plan, failed, index0, blobs0, i, s.index, s.blobs)
      invariant clear ==> Obtained(s.w, s.allowUpstream, plan, failed, blobs0, i, s.index, s.blobs)
    {
      var a := failed[i];
      var (mirror, upstream) := plan[a.key];
      ghost var index1, blobs1 := s.index, s.blobs;
      var got := RefetchOne(s, a, mirror, upstream);
      RefetchedOneMore(s.w, plan, failed, index0, blobs0, i, index1, blobs1, s.index, s.blobs, got.Ok?);
      if clear {
        ObtainedOneMore(s.w, s.allowUpstream, plan, failed, blobs0, i, index1, blobs1, s.index, s.blobs, got.Ok?);
      }
      if got.Err? { return Err(got.error); }
    }
    r := Ok(());
  }

  /** After the first `n` of the failed artifacts were fetched again. */
  ghost predicate Refetched(w: Oracles, plan: Refetches, failed: seq<Artifact>, index0: Index, blobs0: Blobs,
                            n: nat, index: Index, blobs: Blobs)
    requires n <= |failed|
  {
    && Preserves(blobs0, blobs)
    && (forall k | k in index0 && k !in KeysIn(failed) :: k in index && index[k] == index0[k])
    && (forall k | k in index && k !in KeysIn(failed) :: k in index0)
    && (HonestPlan(w, plan) && Undamaged(w, index0, blobs0) ==> Undamaged(w, index, blobs))
    && (Distinct(failed) && HonestPlan(w, plan) ==> forall j | 0 <= j < n :: Held(w, index, blobs, failed[j]))
  }

  lemma RefetchedOneMore(w: Oracles, plan: Refetches, failed: seq<Artifact>, index0: Index, blobs0: Blobs, n: nat,
                         index1: Index, blobs1: Blobs, index: Index, blobs: Blobs, ok: bool)
    requires n < |failed| && Refetched(w, plan, failed, index0, blobs0, n, index1, blobs1)
    requires Preserves(blobs1, blobs) && SameElsewhere(index1, index, failed[n].key)
    requires HonestPlan(w, plan) ==> NewEntryIsSound(w, index1, index, blobs, failed[n].key)
    requires HonestPlan(w, plan) && ok ==> Held(w, index, blobs, failed[n])
    ensures Refetched(w, plan, failed, index0, blobs0, if ok then n + 1 else n, index, blobs)
  {
    var a := failed[n];
    assert a.key in KeysIn(failed);
    if HonestPlan(w, plan) && Undamaged(w, index1, blobs1) {
      StillUndamaged(w, index1, blobs1, index, blobs, a.key);
    }
    forall j | 0 <= j < n && Distinct(failed) && Held(w, index1, blobs1, failed[j])
      ensures Held(w, index, blobs, failed[j])
    {
      StillHeld(w, index1, blobs1, index, blobs, failed[j], a.key);
    }
  }

  method VerifyLocal(s: Store, manifest: seq<Artifact>, repair: bool, plan: Refetches) returns (r: Result<(), Error>)
    requires Distinct(manifest) && Covers(plan, manifest)
    modifies s`index, s`blobs
    // Checking changes nothing, and succeeds exactly when every artifact can be served.
    ensures !repair ==> s.index == old(s.index) && s.blobs == old(s.blobs)
    ensures !repair ==> (r.Ok? <==> forall a | a in manifest :: Held(s.w, old(s.index), old(s.blobs), a))
    ensures !repair && r.Err? ==> r == Err(if AllReadable(old(s.index)) then ConfigError else IoError)
    // A damaged entry the manifest does not own stops a repair before anything is touched.
    ensures (exists k | k in old(s.index) && k !in KeysIn(manifest) ::
               old(s.index)[k].Malformed? || DamageOf(s.w, old(s.blobs), old(s.index)[k].entry).Some?) ==>
              s.index == old(s.index) && s.blobs == old(s.blobs)
    // A repair that succeeds leaves every artifact servable; one that changed anything, also
    // when it then failed to fetch, leaves no damaged entry anywhere.
    ensures r.Ok? && HonestPlan(s.w, plan) ==>
              forall a | a in manifest :: Held(s.w, s.index, s.blobs, a)
    ensures HonestPlan(s.w, plan) && s.index != old(s.index) ==>
              Undamaged(s.w, s.index, s.blobs)
    // Online, with no damage outside the manifest, it succeeds exactly when every failed artifact
    // can be obtained; of the disk only corrupt orphans, which nothing removes, stand in the way.
    ensures repair && !s.offline && ReportingPlan(plan)
            && NothingOutside(s.w, old(s.index), old(s.blobs), manifest) ==>
              (r.Ok? <==> forall a | a in manifest && !Held(s.w, old(s.index), old(s.blobs), a) ::
                            Obtainable(s.w, Orphans(old(s.index), old(s.blobs)), s.allowUpstream, plan, a))
    // Entries that were sound keep their sidecar and their bytes.
    ensures forall a | a in manifest && Held(s.w, old(s.index), old(s.blobs), a) :: Held(s.w, s.index, s.blobs, a)
  {
    ghost var index0, blobs0 := s.index, s.blobs;
    var failed := Inspect(s, manifest);
    if failed == [] { return Ok(()); }
    assert failed[0] in failed;
    var found := s.Verify();
    if found.Err? { return Err(IoError); }
    var outside := false;
    for i := 0 to |found.value|
      invariant s.index == index0 && s.blobs == blobs0
      invariant outside <==> exists j | 0 <= j < i :: found.value[j].0 !in KeysIn(manifest)
    {
      var owned := Owns(manifest, found.value[i].0);
      outside := outside || !owned;
    }
    if repair && outside { return Err(ConfigError); }
    if !repair { return Err(ConfigError); }
    r := RepairFailed(s, manifest, failed, plan);
  }

  /** No entry the manifest does not own is damaged. */
  ghost predicate NothingOutside(w: Oracles, index: Index, blobs: Blobs, manifest: seq<Artifact>) {
    AllReadable(index) && forall k | k in index && k !in KeysIn(manifest) :: DamageOf(w, blobs, index[k].entry) == None
  }

  /** Remove every failed artifact, then fetch each again. */
  method RepairFailed(s: Store, manifest: seq<Artifact>, failed: seq<Artifact>, plan: Refetches)
    returns (r: Result<(), Error>)
    requires Distinct(manifest) && Distinct(failed) && Covers(plan, manifest)
    requires NothingOutside(s.w, s.index, s.blobs, manifest)
    requires forall a :: a in failed <==> a in manifest && !Held(s.w, s.index, s.blobs, a)
    modifies s`index, s`blobs
    ensures r.Ok? && HonestPlan(s.w, plan) ==> forall a | a in manifest :: Held(s.w, s.index, s.blobs, a)
    ensures HonestPlan(s.w, plan) ==> Undamaged(s.w, s.index, s.blobs)
    ensures !s.offline && ReportingPlan(plan) ==>
              (r.Ok? <==> forall a | a in failed ::
                            Obtainable(s.w, Orphans(old(s.index), old(s.blobs)), s.allowUpstream, plan, a))
    ensures forall a | a in manifest && a !in failed :: Held(s.w, s.index, s.blobs, a)
  {
    ghost var index0, blobs0 := s.index, s.blobs;
    RemoveAll(s, failed);
    ghost var index1, blobs1 := s.index, s.blobs;
    ClearingLeavesOnlySoundEntries(s.w, manifest, failed, index0, blobs0, index1, blobs1);
    ObtainableAfterClearing(s.w, s.allowUpstream, plan, failed, index0, blobs0, index1, blobs1);
    r := RefetchAll(s, failed, plan);
    KeptThroughRefetch(s.w, manifest, failed, index1, blobs1, s.index, s.blobs);
  }

  method Owns(manifest: seq<Artifact>, key: Key) returns (owned: bool)
    ensures owned <==> key in KeysIn(manifest)
  {
    for i := 0 to |manifest|
      invariant forall j | 0 <= j < i :: manifest[j].key != key
    {
      if manifest[i].key == key { return true; }
    }
    owned := false;
  }

  /** Refetching some keys leaves the others as removal left them. */
  lemma KeptThroughRefetch(w: Oracles, manifest: seq<Artifact>, failed: seq<Artifact>,
                           index1: Index, blobs1: Blobs, index: Index, blobs: Blobs)
    requires Distinct(manifest) && Undamaged(w, index1, blobs1) && Preserves(blobs1, blobs)
    requires forall a | a in failed :: a in manifest
    requires forall k | k in index1 && k !in KeysIn(failed) :: k in index && index[k] == index1[k]
    requires forall k | k in index && k !in KeysIn(failed) :: k in index1
    requires forall a | a in manifest && a !in failed && a.key !in KeysIn(failed) :: Held(w, index1, blobs1, a)
    ensures forall a | a in manifest && a !in failed :: Held(w, index, blobs, a)
  {
    forall a | a in manifest && a !in failed ensures Held(w, index, blobs, a) {
      forall b | b in failed ensures b.key != a.key {
        assert b in manifest && b != a;
      }
      HeldIsUndamaged(w, index1, blobs1, a);
    }
  }
}
