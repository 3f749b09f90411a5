/**
 What the checks of `src/storage/recovery.ts` on a log and a base amount to: recovery accepts them exactly if they
 are parts of one history.
 */
module OneHistory {
  import opened Wrappers
  import opened Utf8
  import opened CanonicalJson
  import opened WalRecord
  import opened Recovery

  /** A record that describes the revision of a base. */
  function RecordOf(v: Revision): CommitRecord
  {
    CommitRecord(v.uri, v.id, v.parentRevisionId, v.transactionId, v.sequence, [], v.documentHash, Null)
  }

  /** Each record is the child of the one before it, and no id occurs twice. */
  predicate IsHistory(uri: JsString, rs: seq<CommitRecord>)
  {
    (forall i :: 0 <= i < |rs| ==> rs[i].uri == uri) &&
    (forall i :: 0 < i < |rs| ==>
      rs[i].sequence == rs[i - 1].sequence + 1 && rs[i].parentRevisionId == Some(rs[i - 1].revisionId)) &&
    forall i, j :: 0 <= i < j < |rs| ==>
      rs[i].revisionId != rs[j].revisionId && rs[i].transactionId != rs[j].transactionId
  }

  /** The record at this place is that of the revision. */
  predicate HoldsAt(v: Revision, rs: seq<CommitRecord>, i: nat)
  {
    i < |rs| && rs[i].uri == v.uri && rs[i].revisionId == v.id && rs[i].parentRevisionId == v.parentRevisionId &&
    rs[i].transactionId == v.transactionId && rs[i].sequence == v.sequence && rs[i].documentHash == v.documentHash
  }

  ghost predicate Holds(v: Revision, rs: seq<CommitRecord>) { exists i :: HoldsAt(v, rs, i) }

  /** The revision is in the log, or is the next one after it or before it, and together they are one history. */
  ghost predicate IsOneHistory(uri: JsString, v: Revision, rs: seq<CommitRecord>)
  {
    (IsHistory(uri, rs) && Holds(v, rs)) || IsHistory(uri, rs + [RecordOf(v)]) || IsHistory(uri, [RecordOf(v)] + rs)
  }

  /** All of the log is older than the parent of the revision, and shares no id with it. */
  predicate IsOlderHistory(uri: JsString, v: Revision, rs: seq<CommitRecord>)
  {
    IsHistory(uri, rs) &&
    forall i :: 0 <= i < |rs| ==>
      rs[i].sequence + 1 < v.sequence && rs[i].revisionId != v.id && rs[i].transactionId != v.transactionId
  }

  lemma HistorySequences(uri: JsString, rs: seq<CommitRecord>)
    requires Chained(uri, rs) || IsHistory(uri, rs)
    ensures forall i :: 0 <= i < |rs| ==> rs[i].sequence == rs[0].sequence + i
  {
    ConsecutiveSequences(rs);
  }

  lemma HeldIsLinear(uri: JsString, base: Base, rs: seq<CommitRecord>, i: nat)
    requires IsHistory(uri, rs) && HoldsAt(base.revision, rs, i)
    ensures LinearHistory(uri, base, rs) && NoGap(base, rs)
  {
    HistorySequences(uri, rs);
  }

  lemma FollowedIsLinear(uri: JsString, base: Base, rs: seq<CommitRecord>)
    requires IsHistory(uri, rs + [RecordOf(base.revision)])
    ensures LinearHistory(uri, base, rs) && NoGap(base, rs)
  {
    var full := rs + [RecordOf(base.revision)];
    HistorySequences(uri, full);
    assert forall i :: 0 <= i < |rs| ==> full[i] == rs[i];
    assert full[|rs|] == RecordOf(base.revision);
  }

  lemma PrecededIsLinear(uri: JsString, base: Base, rs: seq<CommitRecord>)
    requires IsHistory(uri, [RecordOf(base.revision)] + rs)
    ensures LinearHistory(uri, base, rs) && NoGap(base, rs)
  {
    var full := [RecordOf(base.revision)] + rs;
    HistorySequences(uri, full);
    assert forall i :: 0 <= i < |rs| ==> full[i + 1] == rs[i];
    assert full[0] == RecordOf(base.revision);
  }

  lemma OlderIsLinear(uri: JsString, base: Base, rs: seq<CommitRecord>)
    requires IsOlderHistory(uri, base.revision, rs)
    ensures LinearHistory(uri, base, rs) && NoGap(base, rs)
  {
  }

  lemma LinearIsHistory(uri: JsString, base: Base, rs: seq<CommitRecord>)
    requires LinearHistory(uri, base, rs)
    ensures IsHistory(uri, rs)
  {
  }

  lemma NextIsHistory(uri: JsString, base: Base, rs: seq<CommitRecord>)
    requires base.revision.uri == uri && LinearHistory(uri, base, rs) && NoGap(base, rs)
    requires rs != [] && rs[0].sequence > base.revision.sequence
    ensures IsHistory(uri, [RecordOf(base.revision)] + rs)
  {
    hide AgreesAtBase;
    var full := [RecordOf(base.revision)] + rs;
    HistorySequences(uri, rs);
    assert full[0] == RecordOf(base.revision) && forall i :: 0 < i < |full| ==> full[i] == rs[i - 1];
    assert forall i :: 0 <= i < |rs| ==> !IsBaseRecord(base, rs[i]);
  }

  lemma ChildIsHistory(uri: JsString, base: Base, rs: seq<CommitRecord>)
    requires base.revision.uri == uri && LinearHistory(uri, base, rs)
    requires rs == [] || base.revision.sequence == rs[0].sequence + |rs|
    ensures IsHistory(uri, rs + [RecordOf(base.revision)])
  {
    var full, n := rs + [RecordOf(base.revision)], |rs|;
    HistorySequences(uri, rs);
    assert full[n] == RecordOf(base.revision) && forall i :: 0 <= i < n ==> full[i] == rs[i];
    assert forall i :: 0 <= i < n ==> !IsBaseRecord(base, rs[i]);
    if n > 0 { assert rs[n - 1].sequence + 1 == base.revision.sequence; }
  }

  lemma WithinIsHeld(uri: JsString, base: Base, rs: seq<CommitRecord>)
    requires LinearHistory(uri, base, rs)
    requires rs != [] && rs[0].sequence <= base.revision.sequence < rs[0].sequence + |rs|
    ensures Holds(base.revision, rs)
  {
    hide IdsDistinct;
    HistorySequences(uri, rs);
    assert HoldsAt(base.revision, rs, base.revision.sequence - rs[0].sequence);
  }

  lemma BeyondIsOlder(uri: JsString, base: Base, rs: seq<CommitRecord>)
    requires LinearHistory(uri, base, rs)
    requires rs != [] && base.revision.sequence > rs[0].sequence + |rs|
    ensures IsOlderHistory(uri, base.revision, rs)
  {
    hide AgreesAtBase, IsHistory;
    LinearIsHistory(uri, base, rs);
    HistorySequences(uri, rs);
    assert forall i :: 0 <= i < |rs| ==> !IsBaseRecord(base, rs[i]);
  }

  lemma LinearIsOneHistory(uri: JsString, base: Base, rs: seq<CommitRecord>)
    requires base.revision.uri == uri && LinearHistory(uri, base, rs) && NoGap(base, rs)
    ensures IsOneHistory(uri, base.revision, rs) || IsOlderHistory(uri, base.revision, rs)
  {
    hide LinearHistory, IsHistory, Holds, IsOlderHistory, NoGap;
    var n := base.revision.sequence;
    if rs == [] || n == rs[0].sequence + |rs| {
      ChildIsHistory(uri, base, rs);
    } else if n < rs[0].sequence {
      NextIsHistory(uri, base, rs);
    } else if n < rs[0].sequence + |rs| {
      LinearIsHistory(uri, base, rs);
      WithinIsHeld(uri, base, rs);
    } else {
      BeyondIsOlder(uri, base, rs);
    }
  }

  /** With accepting callbacks recovery succeeds exactly if base and log are parts of one history, or the log is
      older. */
  lemma RecoversIffOneHistory(cb: Callbacks, uri: JsString, base: Base, rs: seq<CommitRecord>)
    requires Accepting(cb) && base.revision.uri == uri
    ensures ReplayAll(cb, uri, base, rs).Ok?
       <==> IsOneHistory(uri, base.revision, rs) || IsOlderHistory(uri, base.revision, rs)
  {
    hide LinearHistory, NoGap, IsHistory, ReplayAll;
    RecoverySucceedsIff(cb, uri, base, rs);
    var v := base.revision;
    if LinearHistory(uri, base, rs) && NoGap(base, rs) {
      LinearIsOneHistory(uri, base, rs);
    } else if IsHistory(uri, rs) && Holds(v, rs) {
      var i :| HoldsAt(v, rs, i);
      HeldIsLinear(uri, base, rs, i);
      assert false;
    } else if IsHistory(uri, rs + [RecordOf(v)]) {
      FollowedIsLinear(uri, base, rs);
      assert false;
    } else if IsHistory(uri, [RecordOf(v)] + rs) {
      PrecededIsLinear(uri, base, rs);
      assert false;
    } else if IsOlderHistory(uri, v, rs) {
      OlderIsLinear(uri, base, rs);
      assert false;
    }
  }
}
