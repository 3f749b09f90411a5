/**
 The run of `Durability.StaleTruncationLosesRecord` on one document: a codec with the default payload
 limit and two commit records that differ in the length of their replay inputs meet its conditions.
 */
module StaleTruncation {
  import opened Wrappers
  import opened Utf8
  import opened CodePointOrder
  import opened CanonicalJson
  import opened WalRecord
  import opened WalFrames
  import opened WalCodec
  import opened Recovery
  import opened DurableStorage
  import opened DocumentRecovery
  import opened Durability

  // ---------------------------------------------------------------- lengths of texts

  /** Printable ASCII that JSON writes as it stands. */
  predicate Unescaped(s: JsString)
  {
    forall i :: 0 <= i < |s| ==> 0x20 <= s[i] < 0x80 && s[i] != QUOTE && s[i] != BACKSLASH
  }

  lemma {:induction false} UnescapedStays(s: JsString)
    requires Unescaped(s)
    ensures Escape(s) == s && WellFormed(s)
  {
    if s == [] {
    } else {
      UnescapedStays(s[1..]);
      WellFormedStep(s);
      assert s == [s[0]] + s[1..];
    }
  }

  lemma {:induction false} EscapeLength(s: JsString)
    ensures |Escape(s)| <= 6 * |s|
  {
    if s == [] {
    } else {
      EscapeLength(s[1..]);
    }
  }

  /** A text has at least one byte for each code unit and at most three. */
  lemma {:induction false} EncodingLength(s: JsString)
    ensures |s| <= |Encoding(s)| <= 3 * |s|
  {
    if s == [] {
    } else {
      var n := if StartsWithPair(s) then 2 else 1;
      EncodingLength(s[n..]);
      assert CodePoints(s)[1..] == CodePoints(s[n..]);
    }
  }

  lemma {:induction false} JoinLength(parts: seq<JsString>, most: nat)
    requires forall i :: 0 <= i < |parts| ==> |parts[i]| <= most
    ensures |Join(parts)| <= |parts| * (most + 1)
    ensures forall i :: 0 <= i < |parts| ==> |parts[i]| <= |Join(parts)|
  {
    if |parts| > 1 {
      JoinLength(parts[1..], most);
      assert |parts| * (most + 1) == |parts[1..]| * (most + 1) + (most + 1);
      forall i | 0 < i < |parts| ensures |parts[i]| <= |Join(parts)| { assert parts[i] == parts[1..][i - 1]; }
    }
  }

  // ---------------------------------------------------------------- the document

  const NO_CHECK: JsString -> bool := _ => true

  const SYNTAX := Syntax(token => Some(token), NO_CHECK, NO_CHECK, NO_CHECK, NO_CHECK)

  /** 16 MiB, the default limit. */
  const CODEC := Codec(SYNTAX, 0x100_0000)

  const FENCE := Fence([], [], 0)

  const BASE := Base(Revision([], [], None, [], 0, [], [], [], SnapshotLevel), Snapshot([], [], []))

  const SETUP := Setup(FENCE, CODEC, BASE)

  function Next(s: Snapshot, v: Revision, r: CommitRecord): Option<Base>
  {
    var revision := Revision(r.revisionId, r.uri, r.parentRevisionId, r.transactionId, r.sequence, r.documentHash,
                             v.actor, v.createdAt, WalLevel);
    Some(Base(revision, Snapshot(r.revisionId, r.documentHash, s.content)))
  }

  const OPTIONS := Options([], FENCE, CODEC, Callbacks(_ => true, _ => true, Next), Ok(Some(BASE)), BASE, Ready, Ready)

  /** The first record of the document, with a replay input of `n` letters. */
  function First(n: nat): CommitRecord
  {
    CommitRecord([], [97], Some([]), [97], 1, [], [], String(seq(n, _ => 97)))
  }

  // ---------------------------------------------------------------- its records

  lemma KeyText(text: string)
    requires |text| <= 16 && forall c :: c in text ==> c < 128 as char
    ensures WellFormed(Lit(text)) && |Quoted(Lit(text))| <= 98
  {
    var key := Lit(text);
    forall i | 0 <= i < |key| ensures key[i] < 0x80 { assert text[i] in text; }
    EscapeLength(key);
    AsciiWellFormed(key);
  }

  predicate ShortKey(key: JsString) { WellFormed(key) && |Quoted(key)| <= 98 }

  lemma FrontKeys()
    ensures |KEYS| == 10 && forall i :: 0 <= i < 5 ==> ShortKey(KEYS[i])
  {
    hide Quoted, WellFormed;
    KeyText("recordVersion");
    KeyText("recordType");
    KeyText("uri");
    KeyText("revisionId");
    KeyText("parentRevisionId");
  }

  lemma BackKeys()
    ensures |KEYS| == 10 && forall i :: 5 <= i < 10 ==> ShortKey(KEYS[i])
  {
    hide Quoted, WellFormed;
    KeyText("transactionId");
    KeyText("transactionHash");
    KeyText("documentHash");
    KeyText("sequence");
    KeyText("replayInput");
  }

  lemma CommitIsUnescaped()
    ensures Unescaped(Lit("commit")) && |Lit("commit")| == 6
  {
  }

  lemma StringLength(s: JsString)
    requires Unescaped(s)
    ensures Serialize(String(s), 1) == Ok(Quoted(s)) && |Quoted(s)| == |s| + 2
  {
    UnescapedStays(s);
  }

  lemma ShortStrings(n: nat)
    ensures Serialize(String([]), 1) == Ok(Quoted([])) && |Quoted([])| == 2
    ensures Serialize(String([97]), 1) == Ok(Quoted([97])) && |Quoted([97])| == 3
    ensures var letters := seq(n, _ => 97);
            Serialize(String(letters), 1) == Ok(Quoted(letters)) && |Quoted(letters)| == n + 2
  {
    StringLength([]);
    StringLength([97]);
    StringLength(seq(n, _ => 97));
  }

  lemma NumberLength(n: nat)
    requires n < 10
    ensures Serialize(Number(Decimal(n)), 1) == Ok(Decimal(n)) && |Decimal(n)| == 1
  {
  }

  lemma ValueLengths(n: nat, i: nat)
    requires i < 10
    ensures var v := Serialize(RecordValues(First(n))[i], 1); v.Ok? && |v.value| <= n + 8 && (i == 9 ==> n <= |v.value|)
  {
    hide Serialize, Lit, Quoted, Unescaped;
    NumberLength(1);
    assert Lit("1") == [49];
    assert Decimal(1) == [49];
    CommitIsUnescaped();
    StringLength(Lit("commit"));
    ShortStrings(n);
  }

  /** The text of each field of the record, and that of the replay input. */
  lemma FieldLengths(n: nat, i: nat)
    requires i < 10
    ensures var e, text := RecordFields(First(n))[i], Serialize(RecordValues(First(n))[i], 1);
            e.value == RecordValues(First(n))[i] && WellFormed(e.key) && text.Ok? &&
            |Property(e.key, text.value)| <= n + 107 && (i == 9 ==> n <= |Property(e.key, text.value)|)
  {
    hide Serialize, Quoted, RecordValues, First, WellFormed;
    FrontKeys();
    BackKeys();
    ValueLengths(n, i);
    assert ShortKey(KEYS[i]);
  }

  lemma PartsLength(n: nat, owner: Json, f: seq<Entry<Json>>, sorted: seq<Entry<Json>>)
    requires f == RecordFields(First(n)) && multiset(sorted) == multiset(f)
    requires forall i :: 0 <= i < |sorted| ==> sorted[i].value < owner
    requires SerializeFields(owner, sorted, 1).Ok?
    ensures n <= |Join(SerializeFields(owner, sorted, 1).value)| <= 10 * (n + 108)
  {
    hide Serialize, SerializeFields, Join, Property, RecordFields, RecordValues, First, WellFormed;
    var parts := SerializeFields(owner, sorted, 1).value;
    FieldParts(owner, sorted, 1);
    forall i | 0 <= i < |sorted| ensures |parts[i]| <= n + 107 {
      assert sorted[i] in multiset(f);
      var j :| 0 <= j < 10 && f[j] == sorted[i];
      FieldLengths(n, j);
    }
    assert |multiset(sorted)| == |multiset(f)|;
    JoinLength(parts, n + 107);
    assert f[9] in multiset(sorted);
    var k :| 0 <= k < |sorted| && sorted[k] == f[9];
    FieldLengths(n, 9);
  }

  lemma FirstPrintable(n: nat)
    ensures Serialize(RecordJson(First(n)), 0).Ok?
  {
    hide Serialize, First, WellFormed, Property;
    var r := First(n);
    forall i | 0 <= i < 10 ensures Printable(RecordValues(r)[i], 1) && WellFormed(RecordFields(r)[i].key) {
      FieldLengths(n, i);
      SerializesExactly(RecordValues(r)[i], 1);
    }
    RecordPrintable(r);
    SerializesExactly(RecordJson(r), 0);
  }

  lemma TextLength(n: nat)
    ensures var text := Serialize(RecordJson(First(n)), 0); text.Ok? && n < |text.value| <= 10 * (n + 108) + 2
  {
    hide Serialize, SerializeFields, Join, RecordFields, First, Sort;
    var v, f := RecordJson(First(n)), RecordFields(First(n));
    FirstPrintable(n);
    SerializedObject(v, f, 0);
    PartsLength(n, v, f, Sort(f));
  }

  /** The frame is longer than the replay input, but not by much. */
  lemma FrameLength(n: nat)
    requires n <= 4000
    ensures Encoded(CODEC, First(n)).Ok? && n + 8 < |Encoded(CODEC, First(n)).value| <= 30 * (n + 108) + 14
  {
    hide Serialize, RecordJson, Encoding;
    TextLength(n);
    EncodingLength(Serialize(RecordJson(First(n)), 0).value);
  }

  // ---------------------------------------------------------------- the run

  function FrameOf(n: nat): (b: Bytes)
    requires n <= 4000
    ensures n + 8 < |b| <= 30 * (n + 108) + 14
  {
    FrameLength(n);
    Encoded(CODEC, First(n)).value
  }

  /** What a crash left of a record with a replay input of 4000 letters: as many bytes as the frame of
      the record with an empty one has. */
  function Torn(): Bytes
  {
    hide FrameOf;
    FrameOf(4000)[..|FrameOf(0)|]
  }

  const TORN_STORE := WithWal(EMPTY_STORE, [], Wal(Torn(), Torn()))

  lemma DocumentIsUndisturbed()
    ensures Undisturbed(SETUP, OPTIONS) && RecoveryBase(OPTIONS) == Ok(BASE)
    ensures forall n: nat :: ContinuesLog(SETUP, [], First(n)) && ValidRecord(SYNTAX, First(n))
  {
  }

  lemma TornStore()
    ensures Torn() < FrameOf(4000) && |Torn()| == |FrameOf(0)|
    ensures WalOf(TORN_STORE, []).durableBytes == Torn() && Frames(CODEC, []) == Ok([])
    ensures Canonicals([]) == [] && Canonicals([First(0)]) == [First(0)]
  {
    hide FrameOf;
  }

  /** Both recoveries succeed, the frame of the first record is synced, and the truncation left over
      from the first recovery is accepted and removes it. */
  lemma SyncedRecordIsLost()
    ensures Undisturbed(SETUP, OPTIONS) && RecoveryBase(OPTIONS) == Ok(BASE) && ContinuesLog(SETUP, [], First(0))
    ensures var synced := GoneOn(OPTIONS, TORN_STORE, FrameOf(0));
            var late := TailTruncated(OPTIONS, synced, |FrameOf(0)|, 0, true);
            DocumentRecovery.Decoded(OPTIONS, TORN_STORE) == Complete([], 0, true) &&
            DocumentRecovery.Decoded(OPTIONS, synced) == Complete([First(0)], |FrameOf(0)|, false) &&
            late.reply == Ok(()) && DocumentRecovery.Decoded(OPTIONS, late.store) == Complete([], 0, false)
  {
    hide Recovering, Encoded, DecodedWal, Frames, TailTruncated, ValidRecord, ContinuesLog, Torn, Canonicals;
    DocumentIsUndisturbed();
    TornStore();
    FrameLength(0);
    FrameLength(4000);
    assert [] + Torn() == Torn() && [] + [First(0)] == [First(0)];
    StaleTruncationLosesRecord(SETUP, OPTIONS, TORN_STORE, [], First(0), First(4000), Torn());
  }
}
