/**
 The process-local cache of `src/model/document-snapshot-cache.ts`: verified entries, provisional
 entries that wait for a commit, the links between them, and two counters.

 Schema validation, hashing and the checks on a derivation are parameters.  The weak maps are plain
 maps: nothing is collected unless it is retired.
 */
module SnapshotCache {
  import opened Wrappers
  import opened Utf8

  /** A snapshot object, known by its identity. */
  class DocumentSnapshot {
    constructor () {}
  }

  /** `VerifiedDocumentSnapshotCache`: also known by its identity. */
  class Cache {
    const snapshot: DocumentSnapshot
    const canonicalDocumentPayload: JsString

    constructor (snapshot: DocumentSnapshot, payload: JsString)
      ensures this.snapshot == snapshot && canonicalDocumentPayload == payload
    {
      this.snapshot := snapshot;
      this.canonicalDocumentPayload := payload;
    }
  }

  datatype Provisional = Provisional(sourceSnapshot: DocumentSnapshot, cache: Cache)

  datatype CacheError = SnapshotInvalid | SnapshotMutable | DocumentHashMismatch

  // ---------------------------------------------------------------- the retained code units

  ghost function PayloadSum(m: map<DocumentSnapshot, Cache>): nat
  {
    if m == map[] then 0
    else
      var k :| k in m;
      |m[k].canonicalDocumentPayload| + PayloadSum(m - {k})
  }

  lemma {:induction false} PayloadSumWithout(m: map<DocumentSnapshot, Cache>, k: DocumentSnapshot)
    requires k in m
    ensures PayloadSum(m) == |m[k].canonicalDocumentPayload| + PayloadSum(m - {k})
    decreases |m|
  {
    var first :| first in m && PayloadSum(m) == |m[first].canonicalDocumentPayload| + PayloadSum(m - {first});
    if first != k {
      assert k in m - {first} && first in m - {k};
      PayloadSumWithout(m - {first}, k);
      PayloadSumWithout(m - {k}, first);
      assert m - {first} - {k} == m - {k} - {first};
    }
  }

  lemma PayloadSumWith(m: map<DocumentSnapshot, Cache>, k: DocumentSnapshot, c: Cache)
    requires k !in m
    ensures PayloadSum(m[k := c]) == PayloadSum(m) + |c.canonicalDocumentPayload|
  {
    assert m[k := c] - {k} == m;
    PayloadSumWithout(m[k := c], k);
  }

  // ---------------------------------------------------------------- what each operation does

  datatype State = State(
    verified: map<DocumentSnapshot, Cache>,
    provisional: map<DocumentSnapshot, Provisional>,
    bySource: map<DocumentSnapshot, DocumentSnapshot>,
    identities: set<Cache>,
    activeEntryCount: int,
    retainedCodeUnits: int)

  const EMPTY := State(map[], map[], map[], {}, 0, 0)

  /** `getVerifiedDocumentSnapshotCache` */
  function GetVerified(t: State, s: DocumentSnapshot): Option<Cache>
  {
    if s in t.verified && t.verified[s] in t.identities then Some(t.verified[s]) else None
  }

  /** `retireProvisionalDocumentSnapshotCache` */
  function ProvisionalRetired(t: State, s: DocumentSnapshot): State
  {
    if s !in t.provisional then t
    else
      var entry := t.provisional[s];
      t.(provisional := t.provisional - {s},
         bySource := if entry.sourceSnapshot in t.bySource && t.bySource[entry.sourceSnapshot] == s
                     then t.bySource - {entry.sourceSnapshot} else t.bySource,
         identities := t.identities - {entry.cache})
  }

  function VerifiedDeleted(t: State, s: DocumentSnapshot): State
  {
    match GetVerified(t, s)
    case None => t
    case Some(cache) =>
      t.(verified := t.verified - {s}, identities := t.identities - {cache},
         activeEntryCount := t.activeEntryCount - 1,
         retainedCodeUnits := t.retainedCodeUnits - |cache.canonicalDocumentPayload|)
  }

  function DerivedRetired(t: State, s: DocumentSnapshot): State
  {
    if s in t.bySource then ProvisionalRetired(t, t.bySource[s]) else t
  }

  /** `retireVerifiedDocumentSnapshotCache` */
  function Retired(t: State, s: DocumentSnapshot): State
  {
    DerivedRetired(ProvisionalRetired(VerifiedDeleted(t, s), s), s)
  }

  function Entered(t: State, cache: Cache): State
  {
    t.(verified := t.verified[cache.snapshot := cache], identities := t.identities + {cache},
       activeEntryCount := t.activeEntryCount + 1,
       retainedCodeUnits := t.retainedCodeUnits + |cache.canonicalDocumentPayload|)
  }

  /** `installCache` */
  function Installed(t: State, cache: Cache): State { Entered(Retired(t, cache.snapshot), cache) }

  predicate MayStage(t: State, source: DocumentSnapshot, s: DocumentSnapshot)
  {
    GetVerified(t, source).Some? && GetVerified(t, s).None? && source != s
  }

  function Linked(t: State, source: DocumentSnapshot, cache: Cache): State
  {
    t.(identities := t.identities + {cache}, provisional := t.provisional[cache.snapshot := Provisional(source, cache)],
       bySource := t.bySource[source := cache.snapshot])
  }

  /** `cacheKernelDerivedDocumentSnapshot` after its checks */
  function Staged(t: State, source: DocumentSnapshot, cache: Cache): State
  {
    var freed := if source in t.bySource && t.bySource[source] != cache.snapshot then DerivedRetired(t, source) else t;
    Linked(ProvisionalRetired(freed, cache.snapshot), source, cache)
  }

  predicate MayActivate(t: State, source: DocumentSnapshot, s: DocumentSnapshot)
  {
    GetVerified(t, source).Some? && s in t.provisional && t.provisional[s].sourceSnapshot == source &&
    t.provisional[s].cache in t.identities && source != s
  }

  /** `activateKernelDerivedDocumentSnapshotCache` after its checks */
  function Activated(t: State, source: DocumentSnapshot, s: DocumentSnapshot): State
    requires s in t.provisional
  {
    Retired(Installed(ProvisionalRetired(t, s), t.provisional[s].cache), source)
  }

  // ---------------------------------------------------------------- the invariant

  /** The two maps are disjoint, and each cache stands under its own snapshot. */
  ghost predicate Keyed(t: State)
  {
    t.verified.Keys !! t.provisional.Keys &&
    (forall s :: s in t.verified ==> t.verified[s].snapshot == s) &&
    forall s :: s in t.provisional ==> t.provisional[s].cache.snapshot == s
  }

  /** The trusted identities are exactly the caches in the two maps. */
  ghost predicate Identified(t: State)
  {
    (forall s :: s in t.verified ==> t.verified[s] in t.identities) &&
    (forall s :: s in t.provisional ==> t.provisional[s].cache in t.identities) &&
    forall c :: c in t.identities ==>
      (c.snapshot in t.verified && t.verified[c.snapshot] == c) ||
      (c.snapshot in t.provisional && t.provisional[c.snapshot].cache == c)
  }

  /** Source-to-derived and derived-to-source are inverse. */
  ghost predicate MutuallyLinked(t: State)
  {
    (forall d :: d in t.provisional ==>
      t.provisional[d].sourceSnapshot in t.bySource && t.bySource[t.provisional[d].sourceSnapshot] == d) &&
    forall s :: s in t.bySource ==>
      t.bySource[s] in t.provisional && t.provisional[t.bySource[s]].sourceSnapshot == s
  }

  ghost predicate Counted(t: State)
  {
    t.activeEntryCount == |t.verified| && t.retainedCodeUnits == PayloadSum(t.verified)
  }

  /** Everything but that sources are verified, which fails in the middle of a retirement. */
  ghost predicate Consistent(t: State) { Keyed(t) && Identified(t) && MutuallyLinked(t) && Counted(t) }

  ghost predicate SourcesVerified(t: State)
  {
    forall d :: d in t.provisional ==> t.provisional[d].sourceSnapshot in t.verified
  }

  ghost predicate Valid(t: State) { Consistent(t) && SourcesVerified(t) }

  ghost function DerivedFrom(t: State, s: DocumentSnapshot): set<DocumentSnapshot>
  {
    if s in t.bySource then {t.bySource[s]} else {}
  }

  lemma ProvisionalRetiredIdentified(t: State, s: DocumentSnapshot)
    requires Keyed(t) && Identified(t)
    ensures Identified(ProvisionalRetired(t, s))
  {
  }

  lemma ProvisionalRetiredLinked(t: State, s: DocumentSnapshot)
    requires MutuallyLinked(t)
    ensures MutuallyLinked(ProvisionalRetired(t, s))
    ensures ProvisionalRetired(t, s).bySource
         == t.bySource - (if s in t.provisional then {t.provisional[s].sourceSnapshot} else {})
  {
  }

  lemma ProvisionalRetiredConsistent(t: State, s: DocumentSnapshot)
    requires Consistent(t)
    ensures var u := ProvisionalRetired(t, s);
            Consistent(u) && u.verified == t.verified && u.provisional == t.provisional - {s} &&
            u.bySource == t.bySource - (if s in t.provisional then {t.provisional[s].sourceSnapshot} else {}) &&
            (SourcesVerified(t) ==> SourcesVerified(u))
  {
    hide Keyed, Identified, MutuallyLinked, Counted, ProvisionalRetired;
    ProvisionalRetiredKeyed(t, s);
    ProvisionalRetiredIdentified(t, s);
    ProvisionalRetiredLinked(t, s);
  }

  lemma ProvisionalRetiredKeyed(t: State, s: DocumentSnapshot)
    requires Keyed(t)
    ensures var u := ProvisionalRetired(t, s);
            Keyed(u) && u.verified == t.verified && u.provisional == t.provisional - {s} && (Counted(t) ==> Counted(u))
  {
    hide PayloadSum;
  }

  lemma VerifiedDeletedIdentified(t: State, s: DocumentSnapshot)
    requires Keyed(t) && Identified(t)
    ensures Identified(VerifiedDeleted(t, s))
  {
  }

  lemma VerifiedDeletedConsistent(t: State, s: DocumentSnapshot)
    requires Consistent(t)
    ensures var u := VerifiedDeleted(t, s);
            Consistent(u) && u.verified == t.verified - {s} && u.provisional == t.provisional &&
            u.bySource == t.bySource
  {
    hide PayloadSum;
    VerifiedDeletedIdentified(t, s);
    if s in t.verified { PayloadSumWithout(t.verified, s); }
  }

  /** Retiring a snapshot removes it and what was derived from it, and nothing else. */
  lemma RetiredValid(t: State, s: DocumentSnapshot)
    requires Valid(t)
    ensures var u := Retired(t, s);
            Valid(u) && u.verified == t.verified - {s} && u.provisional == t.provisional - {s} - DerivedFrom(t, s)
  {
    hide Keyed, Identified, Counted, PayloadSum, VerifiedDeleted, ProvisionalRetired;
    var a := VerifiedDeleted(t, s);
    VerifiedDeletedConsistent(t, s);
    var b := ProvisionalRetired(a, s);
    ProvisionalRetiredConsistent(a, s);
    if s in b.bySource { ProvisionalRetiredConsistent(b, b.bySource[s]); }
  }

  lemma EnteredConsistent(t: State, cache: Cache)
    requires Consistent(t) && cache.snapshot !in t.verified && cache.snapshot !in t.provisional
    ensures Consistent(Entered(t, cache))
  {
    hide PayloadSum;
    PayloadSumWith(t.verified, cache.snapshot, cache);
  }

  /** Installing puts the cache under its snapshot and drops what the snapshot had before. */
  lemma InstalledValid(t: State, cache: Cache)
    requires Valid(t)
    ensures var u := Installed(t, cache);
            Valid(u) && u.verified == t.verified[cache.snapshot := cache] &&
            u.provisional == t.provisional - {cache.snapshot} - DerivedFrom(t, cache.snapshot)
  {
    hide Consistent, PayloadSum, Retired;
    RetiredValid(t, cache.snapshot);
    EnteredConsistent(Retired(t, cache.snapshot), cache);
  }

  lemma LinkedConsistent(t: State, source: DocumentSnapshot, cache: Cache)
    requires Consistent(t) && cache.snapshot !in t.verified && cache.snapshot !in t.provisional && source !in t.bySource
    ensures Consistent(Linked(t, source, cache))
  {
    hide Identified, MutuallyLinked, PayloadSum;
    LinkedIdentified(t, source, cache);
    LinkedLinks(t, source, cache);
  }

  lemma LinkedIdentified(t: State, source: DocumentSnapshot, cache: Cache)
    requires Keyed(t) && Identified(t) && cache.snapshot !in t.verified && cache.snapshot !in t.provisional
    ensures Identified(Linked(t, source, cache))
  {
  }

  lemma LinkedLinks(t: State, source: DocumentSnapshot, cache: Cache)
    requires MutuallyLinked(t) && cache.snapshot !in t.provisional && source !in t.bySource
    ensures MutuallyLinked(Linked(t, source, cache))
  {
  }

  /** Staging leaves one provisional entry for the source: the new one. */
  lemma StagedValid(t: State, source: DocumentSnapshot, cache: Cache)
    requires Valid(t) && MayStage(t, source, cache.snapshot)
    ensures var u := Staged(t, source, cache);
            Valid(u) && u.verified == t.verified &&
            u.provisional == (t.provisional - DerivedFrom(t, source))[cache.snapshot := Provisional(source, cache)]
  {
    hide Keyed, Identified, MutuallyLinked, Counted, PayloadSum, ProvisionalRetired;
    var s := cache.snapshot;
    var freed := if source in t.bySource && t.bySource[source] != s then DerivedRetired(t, source) else t;
    FreedOfSource(t, source, s);
    LinkedConsistent(ProvisionalRetired(freed, s), source, cache);
  }

  lemma FreedOfSource(t: State, source: DocumentSnapshot, s: DocumentSnapshot)
    requires Valid(t) && MayStage(t, source, s)
    ensures source in t.verified && s !in t.verified
    ensures var freed := if source in t.bySource && t.bySource[source] != s then DerivedRetired(t, source) else t;
            var u := ProvisionalRetired(freed, s);
            Valid(u) && u.verified == t.verified && u.provisional == t.provisional - {s} - DerivedFrom(t, source) &&
            source !in u.bySource
  {
    hide Keyed, Counted, PayloadSum, ProvisionalRetired;
    var freed := if source in t.bySource && t.bySource[source] != s then DerivedRetired(t, source) else t;
    if source in t.bySource { ProvisionalRetiredConsistent(t, t.bySource[source]); }
    ProvisionalRetiredConsistent(freed, s);
  }

  /** Activating replaces the source's entry by the derived one; the entry count stays. */
  lemma ActivatedValid(t: State, source: DocumentSnapshot, s: DocumentSnapshot)
    requires Valid(t) && MayActivate(t, source, s)
    ensures var u := Activated(t, source, s);
            Valid(u) && u.verified == (t.verified - {source})[s := t.provisional[s].cache] &&
            u.provisional == t.provisional - {s} && u.activeEntryCount == t.activeEntryCount
  {
    hide Keyed, Identified, MutuallyLinked, Counted, SourcesVerified, ProvisionalRetired, Installed, Retired;
    ActivatedMaps(t, source, s);
    DerivedIsNotVerified(t, source, s);
    EntryReplaced(t.verified, source, s, t.provisional[s].cache);
    CountOf(t);
    CountOf(Activated(t, source, s));
  }

  lemma ActivatedMaps(t: State, source: DocumentSnapshot, s: DocumentSnapshot)
    requires Valid(t) && MayActivate(t, source, s)
    ensures var u := Activated(t, source, s);
            Valid(u) && u.verified == (t.verified - {source})[s := t.provisional[s].cache] &&
            u.provisional == t.provisional - {s}
  {
    hide Keyed, Identified, MutuallyLinked, Counted, SourcesVerified, ProvisionalRetired, Installed, Retired;
    var cache := t.provisional[s].cache;
    var a := ProvisionalRetired(t, s);
    ProvisionalRetiredConsistent(t, s);
    var b := Installed(a, cache);
    InstalledValid(a, cache);
    RetiredValid(b, source);
    DerivedIsNotVerified(t, source, s);
    NothingDerived(t, s);
    SoleDerived(t, source, s, b);
  }

  lemma DerivedIsNotVerified(t: State, source: DocumentSnapshot, s: DocumentSnapshot)
    requires Valid(t) && MayActivate(t, source, s)
    ensures source in t.verified && source !in t.provisional && s !in t.verified && t.provisional[s].cache.snapshot == s
  {
  }

  lemma CountOf(t: State)
    requires Valid(t)
    ensures t.activeEntryCount == |t.verified|
  {
  }

  /** Nothing is derived from a snapshot that is not verified. */
  lemma NothingDerived(t: State, s: DocumentSnapshot)
    requires Valid(t) && s !in t.verified
    ensures s !in t.bySource
  {
  }

  /** Once the derived entry has moved, nothing is derived from its source any more. */
  lemma SoleDerived(t: State, source: DocumentSnapshot, s: DocumentSnapshot, b: State)
    requires Valid(t) && Valid(b) && s in t.provisional && t.provisional[s].sourceSnapshot == source
    requires b.provisional.Keys <= t.provisional.Keys - {s} && forall d :: d in b.provisional ==>
      b.provisional[d] == t.provisional[d]
    ensures source !in b.bySource
  {
  }

  lemma EntryReplaced(m: map<DocumentSnapshot, Cache>, source: DocumentSnapshot, s: DocumentSnapshot, c: Cache)
    requires source in m && s !in m
    ensures |(m - {source})[s := c]| == |m|
  {
    var after := (m - {source})[s := c];
    assert after.Keys == m.Keys - {source} + {s};
    assert |after.Keys| == |after| && |m.Keys| == |m|;
  }

  // ---------------------------------------------------------------- the caches

  class SnapshotCaches {
    var verified: map<DocumentSnapshot, Cache>
    var provisional: map<DocumentSnapshot, Provisional>
    var provisionalBySource: map<DocumentSnapshot, DocumentSnapshot>
    var identities: set<Cache>
    var activeEntryCount: int
    var retainedCodeUnits: int

    ghost function Now(): State
      reads this
    {
      State(verified, provisional, provisionalBySource, identities, activeEntryCount, retainedCodeUnits)
    }

    constructor ()
      ensures Now() == EMPTY && Valid(Now())
    {
      verified, provisional, provisionalBySource, identities := map[], map[], map[], {};
      activeEntryCount, retainedCodeUnits := 0, 0;
    }

    /** `getVerifiedDocumentSnapshotCache` */
    method Get(s: DocumentSnapshot) returns (cache: Option<Cache>)
      ensures cache == GetVerified(Now(), s)
    {
      if s !in verified || verified[s] !in identities {
        return None;
      }
      return Some(verified[s]);
    }

    /** `retireProvisionalDocumentSnapshotCache` */
    method RetireProvisional(s: DocumentSnapshot) returns (retired: bool)
      modifies this
      ensures Now() == ProvisionalRetired(old(Now()), s)
      ensures retired <==> s in old(provisional)
    {
      if s !in provisional {
        return false;
      }
      var entry := provisional[s];
      provisional := provisional - {s};
      if entry.sourceSnapshot in provisionalBySource && provisionalBySource[entry.sourceSnapshot] == s {
        provisionalBySource := provisionalBySource - {entry.sourceSnapshot};
      }
      identities := identities - {entry.cache};
      return true;
    }

    /** `retireVerifiedDocumentSnapshotCache` */
    method Retire(s: DocumentSnapshot) returns (retired: bool)
      requires Valid(Now())
      modifies this
      ensures Now() == Retired(old(Now()), s) && Valid(Now())
      ensures verified == old(verified) - {s} && provisional == old(provisional) - {s} - DerivedFrom(old(Now()), s)
      ensures retired <==> s in old(verified) || s in old(provisional)
    {
      hide Valid;
      ghost var before := Now();
      VerifiedIsTrusted(before, s);
      var cache := Get(s);
      retired := false;
      if cache.Some? {
        verified := verified - {s};
        identities := identities - {cache.value};
        activeEntryCount := activeEntryCount - 1;
        retainedCodeUnits := retainedCodeUnits - |cache.value.canonicalDocumentPayload|;
        retired := true;
      }
      assert Now() == VerifiedDeleted(before, s);
      var own := RetireProvisional(s);
      retired := retired || own;
      if s in provisionalBySource {
        var derived := RetireProvisional(provisionalBySource[s]);
        retired := retired || derived;
      }
      RetiredValid(before, s);
    }

    /** `installCache` */
    method InstallCache(cache: Cache)
      requires Valid(Now())
      modifies this
      ensures Now() == Installed(old(Now()), cache) && Valid(Now())
    {
      hide Valid;
      ghost var before := Now();
      var _ := Retire(cache.snapshot);
      identities := identities + {cache};
      verified := verified[cache.snapshot := cache];
      activeEntryCount := activeEntryCount + 1;
      retainedCodeUnits := retainedCodeUnits + |cache.canonicalDocumentPayload|;
      InstalledValid(before, cache);
    }

    /** `cacheVerifiedFrozenDocumentSnapshot`: `inspection` is the canonical payload, if the snapshot is
        frozen, valid and hashes to its declared hash. */
    method Install(s: DocumentSnapshot, inspection: Result<JsString, CacheError>)
      returns (r: Result<DocumentSnapshot, CacheError>)
      requires Valid(Now())
      modifies this
      ensures Valid(Now())
      ensures s in old(verified) ==> r == Ok(s) && Now() == old(Now())
      ensures s !in old(verified) && inspection.Err? ==> r == Err(inspection.error) && Now() == old(Now())
      ensures s !in old(verified) && inspection.Ok? ==>
        r == Ok(s) && provisional == old(provisional) - {s} && s in verified &&
        verified == old(verified)[s := verified[s]] && fresh(verified[s]) &&
        verified[s].canonicalDocumentPayload == inspection.value
    {
      hide Valid, Installed;
      ghost var before := Now();
      VerifiedIsTrusted(before, s);
      if s in verified {
        return Ok(verified[s].snapshot);
      }
      if inspection.Err? {
        return Err(inspection.error);
      }
      var cache := new Cache(s, inspection.value);
      InstallCache(cache);
      InstalledValid(before, cache);
      NothingDerived(before, s);
      return Ok(s);
    }

    /** `cacheKernelDerivedDocumentSnapshot`: `derivable` stands for the checks on the derived data. */
    method Stage(source: DocumentSnapshot, s: DocumentSnapshot, payload: JsString, derivable: bool)
      returns (staged: bool)
      requires Valid(Now())
      modifies this
      ensures Valid(Now()) && verified == old(verified)
      ensures staged <==> MayStage(old(Now()), source, s) && derivable
      ensures !staged ==> Now() == old(Now())
      ensures staged ==>
        s in provisional && fresh(provisional[s].cache) && provisional[s].sourceSnapshot == source &&
        provisional[s].cache.canonicalDocumentPayload == payload &&
        provisional == (old(provisional) - DerivedFrom(old(Now()), source))[s := provisional[s]]
    {
      hide Valid;
      ghost var before := Now();
      var sourceCache := Get(source);
      var own := Get(s);
      if sourceCache.None? || own.Some? || source == s || !derivable {
        return false;
      }
      if source in provisionalBySource && provisionalBySource[source] != s {
        var _ := RetireProvisional(provisionalBySource[source]);
      }
      var _ := RetireProvisional(s);
      var cache := new Cache(s, payload);
      identities := identities + {cache};
      provisional := provisional[s := Provisional(source, cache)];
      provisionalBySource := provisionalBySource[source := s];
      assert Now() == Staged(before, source, cache);
      StagedValid(before, source, cache);
      return true;
    }

    /** `activateKernelDerivedDocumentSnapshotCache` */
    method Activate(source: DocumentSnapshot, s: DocumentSnapshot) returns (activated: bool)
      requires Valid(Now())
      modifies this
      ensures Valid(Now())
      ensures activated <==> MayActivate(old(Now()), source, s)
      ensures !activated ==> Now() == old(Now())
      ensures activated ==>
        verified == (old(verified) - {source})[s := old(provisional)[s].cache] &&
        provisional == old(provisional) - {s} && activeEntryCount == old(activeEntryCount)
    {
      hide Valid, Retired, Installed;
      ghost var before := Now();
      var sourceCache := Get(source);
      if sourceCache.None? || s !in provisional || provisional[s].sourceSnapshot != source ||
         provisional[s].cache !in identities || source == s {
        return false;
      }
      var cache := provisional[s].cache;
      var _ := RetireProvisional(s);
      ProvisionalRetiredValid(before, s);
      InstallCache(cache);
      var _ := Retire(source);
      ActivatedValid(before, source, s);
      return true;
    }
  }

  lemma ProvisionalRetiredValid(t: State, s: DocumentSnapshot)
    requires Valid(t)
    ensures Valid(ProvisionalRetired(t, s))
  {
    ProvisionalRetiredConsistent(t, s);
  }

  /** In a valid state every entry of the verified map is trusted. */
  lemma VerifiedIsTrusted(t: State, s: DocumentSnapshot)
    requires Valid(t)
    ensures GetVerified(t, s).Some? <==> s in t.verified
    ensures s in t.verified ==> t.verified[s].snapshot == s
    ensures s in t.bySource && s in t.provisional ==> t.bySource[s] != s
    ensures s in t.bySource ==> s in t.verified
  {
  }
}
