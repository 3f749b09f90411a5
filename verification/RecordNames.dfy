/**
 The fields of a WAL record by their names (`src/storage/wal-record-codec.ts`): which JSON values are records, and
 which record each of them is.
 */
module RecordNames {
  import opened Wrappers
  import opened Utf8
  import opened CodePointOrder
  import opened CanonicalJson
  import opened WalRecord

  /** A field of this name, in ASCII, has this value. */
  predicate Has(fields: seq<Entry<Json>>, name: string, value: Json)
  {
    (forall c :: c in name ==> c < 128 as char) && Get(fields, Lit(name)) == Some(value)
  }

  function ParentJson(parent: Option<JsString>): Json { if parent.None? then Null else String(parent.value) }

  /** A sequence number is written in digits alone, whatever zeros stand in front. */
  predicate HasSequence(fields: seq<Entry<Json>>, sequence: nat)
  {
    match Get(fields, Lit("sequence"))
    case Some(Number(token)) =>
      token != [] && (forall i :: 0 <= i < |token| ==> 48 <= token[i] <= 57) && DecimalRead(token) == sequence
    case _ => false
  }

  /** The object holds ten fields: the two of every record and those of this one, each in its format. */
  ghost predicate Describes(syn: Syntax, v: Json, r: CommitRecord)
  {
    v.Object? && HasExactKeys(v.fields) &&
    Has(v.fields, "recordVersion", Number(Lit("1"))) && Has(v.fields, "recordType", String(Lit("commit"))) &&
    Has(v.fields, "uri", String(r.uri)) && Has(v.fields, "revisionId", String(r.revisionId)) &&
    Has(v.fields, "parentRevisionId", ParentJson(r.parentRevisionId)) &&
    Has(v.fields, "transactionId", String(r.transactionId)) &&
    Has(v.fields, "transactionHash", String(r.transactionHash)) &&
    Has(v.fields, "documentHash", String(r.documentHash)) &&
    HasSequence(v.fields, r.sequence) && Has(v.fields, "replayInput", r.replayInput) &&
    syn.isUri(r.uri) && syn.isRevisionId(r.revisionId) && syn.isTransactionId(r.transactionId) &&
    (r.parentRevisionId.Some? ==> syn.isRevisionId(r.parentRevisionId.value)) &&
    syn.isHash(r.transactionHash) && syn.isHash(r.documentHash) &&
    r.sequence <= MAX_SAFE_INTEGER && IsJsonValue(r.replayInput, 0)
  }

  lemma HasIs(fields: seq<Entry<Json>>, name: string)
    requires forall c :: c in name ==> c < 128 as char
    ensures forall value :: Has(fields, name, value) <==> Get(fields, Lit(name)) == Some(value)
  {
    hide Get, Lit;
  }

  lemma NamesAreKeys(f: seq<Entry<Json>>)
    ensures forall value :: Has(f, "recordVersion", value) <==> Get(f, RECORD_VERSION) == Some(value)
    ensures forall value :: Has(f, "recordType", value) <==> Get(f, RECORD_TYPE) == Some(value)
    ensures forall value :: Has(f, "uri", value) <==> Get(f, URI) == Some(value)
    ensures forall value :: Has(f, "revisionId", value) <==> Get(f, REVISION_ID) == Some(value)
    ensures forall value :: Has(f, "parentRevisionId", value) <==> Get(f, PARENT_REVISION_ID) == Some(value)
    ensures forall value :: Has(f, "transactionId", value) <==> Get(f, TRANSACTION_ID) == Some(value)
    ensures forall value :: Has(f, "transactionHash", value) <==> Get(f, TRANSACTION_HASH) == Some(value)
    ensures forall value :: Has(f, "documentHash", value) <==> Get(f, DOCUMENT_HASH) == Some(value)
    ensures forall value :: Has(f, "replayInput", value) <==> Get(f, REPLAY_INPUT) == Some(value)
  {
    hide Get, Has;
    HasIs(f, "recordVersion");
    HasIs(f, "recordType");
    HasIs(f, "uri");
    HasIs(f, "revisionId");
    HasIs(f, "parentRevisionId");
    HasIs(f, "transactionId");
    HasIs(f, "transactionHash");
    HasIs(f, "documentHash");
    HasIs(f, "replayInput");
  }

  /** Parsing gives exactly the record the object describes. */
  lemma ParseRecordIff(syn: Syntax, v: Json, r: CommitRecord)
    ensures ParseRecord(syn, v) == Some(r) <==> Describes(syn, v, r)
  {
    hide Get, Lit, Has, IsJsonValue, HasExactKeys, SequenceField, HasSequence;
    if v.Object? {
      NamesAreKeys(v.fields);
      SequenceIff(v.fields, r.sequence);
    }
  }

  lemma SequenceIff(fields: seq<Entry<Json>>, n: nat)
    ensures SequenceField(fields) == Some(n) <==> HasSequence(fields, n) && n <= MAX_SAFE_INTEGER
  {
    hide Get, Lit;
  }

  lemma FieldAt(r: CommitRecord, i: nat)
    requires i < 10
    ensures Get(RecordFields(r), KEYS[i]) == Some(RecordValues(r)[i])
  {
    KeysDistinct();
    hide RecordValues, Lit;
    var f := RecordFields(r);
    assert f[i].key == KEYS[i];
    GetExact(f, i);
  }

  /** What is written for a record describes it. */
  lemma WrittenFields(r: CommitRecord)
    ensures var f := RecordFields(r);
            |f| == 10 && Has(f, "recordVersion", Number(Lit("1"))) && Has(f, "recordType", String(Lit("commit"))) &&
            Has(f, "uri", String(r.uri)) && Has(f, "revisionId", String(r.revisionId)) &&
            Has(f, "parentRevisionId", ParentJson(r.parentRevisionId)) &&
            Has(f, "transactionId", String(r.transactionId)) &&
            Has(f, "transactionHash", String(r.transactionHash)) &&
            Has(f, "documentHash", String(r.documentHash)) &&
            Has(f, "sequence", Number(Decimal(r.sequence))) && Has(f, "replayInput", r.replayInput)
  {
    hide Get, Lit, RecordFields;
    FieldAt(r, 0);
    FieldAt(r, 1);
    FieldAt(r, 2);
    FieldAt(r, 3);
    FieldAt(r, 4);
    FieldAt(r, 5);
    FieldAt(r, 6);
    FieldAt(r, 7);
    FieldAt(r, 8);
    FieldAt(r, 9);
  }
}
