/**
 The payload of a WAL frame: a commit record as canonical JSON text
 (`src/storage/wal-record-codec.ts`, `parseWalCommitRecord` and `decodePayload`).
 */
module WalRecord {
  import opened Wrappers
  import opened Utf8
  import opened CodePointOrder
  import opened CanonicalJson
  import opened JsonText
  import opened JsonCanonical

  datatype CommitRecord = CommitRecord(
    uri: JsString,
    revisionId: JsString,
    parentRevisionId: Option<JsString>,
    transactionId: JsString,
    sequence: nat,
    transactionHash: JsString,
    documentHash: JsString,
    replayInput: Json)

  /** What the codec takes from elsewhere: the reading of numbers and the identifier formats. */
  datatype Syntax = Syntax(
    read: NumberReading,
    isUri: JsString -> bool,
    isRevisionId: JsString -> bool,
    isTransactionId: JsString -> bool,
    isHash: JsString -> bool)

  datatype PayloadError = InvalidUtf8 | InvalidJson | InvalidRecord | NonCanonicalPayload

  const MAX_SAFE_INTEGER := 0x1F_FFFF_FFFF_FFFF

  // ---------------------------------------------------------------- safe integers

  function Decimal(n: nat): (s: JsString)
    ensures s != []
  {
    if n < 10 then [48 + n] else Decimal(n / 10) + [48 + n % 10]
  }

  function DigitValue(u: Unit): nat requires IsDigit(u) { u as int - 48 }

  function DigitsValue(s: JsString): nat
    requires forall i :: 0 <= i < |s| ==> IsDigit(s[i])
  {
    if s == [] then 0 else DigitsValue(s[..|s| - 1]) * 10 + DigitValue(s[|s| - 1])
  }

  /** The number a text of digits stands for; zero for other texts. */
  function DecimalRead(s: JsString): nat
  {
    if forall i :: 0 <= i < |s| ==> IsDigit(s[i]) then DigitsValue(s) else 0
  }

  /** `isNonNegativeSafeInteger` on a number given by its text. */
  function SafeInteger(token: JsString): Option<nat>
  {
    if token != [] && (forall i :: 0 <= i < |token| ==> IsDigit(token[i])) && DigitsValue(token) <= MAX_SAFE_INTEGER
    then Some(DigitsValue(token)) else None
  }

  lemma {:induction false} DecimalRoundTrip(n: nat)
    ensures forall i :: 0 <= i < |Decimal(n)| ==> IsDigit(Decimal(n)[i])
    ensures DigitsValue(Decimal(n)) == n
    ensures NumberRun(Start, Decimal(n)) == if n == 0 then Zero else Integer
  {
    var s := Decimal(n);
    if n < 10 {
      assert s[..0] == [] && s[1..] == [];
    } else {
      DecimalRoundTrip(n / 10);
      assert s[..|s| - 1] == Decimal(n / 10);
      NumberRunConcat(Start, Decimal(n / 10), [48 + n % 10]);
      assert [48 + n % 10][1..] == [];
    }
  }

  lemma {:induction false} NumberRunConcat(q: NumberState, a: JsString, b: JsString)
    ensures NumberRun(q, a + b) == NumberRun(NumberRun(q, a), b)
    decreases |a|
  {
    if a == [] {
      assert a + b == b;
    } else {
      assert (a + b)[1..] == a[1..] + b;
      NumberRunConcat(NumberStep(q, a[0]), a[1..], b);
    }
  }

  // ---------------------------------------------------------------- records as JSON values

  const RECORD_VERSION := Lit("recordVersion")
  const RECORD_TYPE := Lit("recordType")
  const URI := Lit("uri")
  const REVISION_ID := Lit("revisionId")
  const PARENT_REVISION_ID := Lit("parentRevisionId")
  const TRANSACTION_ID := Lit("transactionId")
  const TRANSACTION_HASH := Lit("transactionHash")
  const DOCUMENT_HASH := Lit("documentHash")
  const SEQUENCE := Lit("sequence")
  const REPLAY_INPUT := Lit("replayInput")

  const KEYS: seq<JsString> := [
    RECORD_VERSION, RECORD_TYPE, URI, REVISION_ID, PARENT_REVISION_ID,
    TRANSACTION_ID, TRANSACTION_HASH, DOCUMENT_HASH, SEQUENCE, REPLAY_INPUT]

  function RecordValues(r: CommitRecord): (vs: seq<Json>)
    ensures |vs| == 10
  {
    [ Number(Lit("1")), String(Lit("commit")), String(r.uri), String(r.revisionId),
      if r.parentRevisionId.None? then Null else String(r.parentRevisionId.value),
      String(r.transactionId), String(r.transactionHash), String(r.documentHash),
      Number(Decimal(r.sequence)), r.replayInput ]
  }

  function RecordFields(r: CommitRecord): (fs: seq<Entry<Json>>)
    ensures |fs| == 10
  {
    seq(10, i requires 0 <= i < 10 => Entry(KEYS[i], RecordValues(r)[i]))
  }

  function RecordJson(r: CommitRecord): Json { Object(RecordFields(r)) }

  lemma KeysDistinct()
    ensures |KEYS| == 10 && forall i, j :: 0 <= i < j < 10 ==> KEYS[i] != KEYS[j]
  {
    assert |KEYS[0]| == 13 && |KEYS[1]| == 10 && |KEYS[2]| == 3 && |KEYS[3]| == 10 && |KEYS[4]| == 16;
    assert |KEYS[5]| == 13 && |KEYS[6]| == 15 && |KEYS[7]| == 12 && |KEYS[8]| == 8 && |KEYS[9]| == 11;
    assert KEYS[0][0] == 'r' as int && KEYS[5][0] == 't' as int;
    assert KEYS[1][2] == 'c' as int && KEYS[3][2] == 'v' as int;
  }

  function Get(fields: seq<Entry<Json>>, key: JsString): Option<Json>
  {
    if fields == [] then None
    else if fields[0].key == key then Some(fields[0].value)
    else Get(fields[1..], key)
  }

  function StringField(fields: seq<Entry<Json>>, key: JsString, accepts: JsString -> bool): Option<JsString>
  {
    match Get(fields, key)
    case Some(String(s)) => if accepts(s) then Some(s) else None
    case _ => None
  }

  /** `parseOptionalRevisionId`: the outer None is the invalid case. */
  function ParentField(fields: seq<Entry<Json>>, syn: Syntax): Option<Option<JsString>>
  {
    match Get(fields, PARENT_REVISION_ID)
    case Some(Null) => Some(None)
    case Some(String(s)) => if syn.isRevisionId(s) then Some(Some(s)) else None
    case _ => None
  }

  function SequenceField(fields: seq<Entry<Json>>): Option<nat>
  {
    match Get(fields, SEQUENCE)
    case Some(Number(token)) => SafeInteger(token)
    case _ => None
  }

  predicate HasExactKeys(fields: seq<Entry<Json>>)
  {
    |fields| == 10 && forall i :: 0 <= i < |fields| ==> fields[i].key in KEYS
  }

  /** `parseWalCommitRecord` */
  function ParseRecord(syn: Syntax, v: Json): Option<CommitRecord>
  {
    if !v.Object? || !HasExactKeys(v.fields) then None
    else if Get(v.fields, RECORD_VERSION) != Some(Number(Lit("1"))) then None
    else if Get(v.fields, RECORD_TYPE) != Some(String(Lit("commit"))) then None
    else match (SequenceField(v.fields), Get(v.fields, REPLAY_INPUT))
      case (Some(sequence), Some(replay)) =>
        if IsJsonValue(replay, 0) then ParseIdentity(syn, v.fields, sequence, replay) else None
      case _ => None
  }

  function ParseIdentity(syn: Syntax, f: seq<Entry<Json>>, sequence: nat, replay: Json): Option<CommitRecord>
  {
    var uri := StringField(f, URI, syn.isUri);
    var revisionId := StringField(f, REVISION_ID, syn.isRevisionId);
    var parent := ParentField(f, syn);
    var transactionId := StringField(f, TRANSACTION_ID, syn.isTransactionId);
    var transactionHash := StringField(f, TRANSACTION_HASH, syn.isHash);
    var documentHash := StringField(f, DOCUMENT_HASH, syn.isHash);
    if uri.None? || revisionId.None? || parent.None? || transactionId.None? || transactionHash.None? ||
       documentHash.None?
    then None
    else Some(CommitRecord(uri.value, revisionId.value, parent.value, transactionId.value, sequence,
                           transactionHash.value, documentHash.value, replay))
  }

  // ---------------------------------------------------------------- `isJsonValue`

  predicate IsJsonValue(v: Json, depth: nat)
  {
    match v
    case NonFinite => false
    case Array(items) => depth <= MAX_DEPTH && forall i :: 0 <= i < |items| ==> IsJsonValue(items[i], depth + 1)
    case Object(fields) =>
      depth <= MAX_DEPTH && forall i :: 0 <= i < |fields| ==> IsJsonValue(fields[i].value, depth + 1)
    case _ => true
  }

  datatype Pending = Pending(value: Json, depth: nat)

  predicate AllJsonValues(pending: seq<Pending>)
  {
    forall i :: 0 <= i < |pending| ==> IsJsonValue(pending[i].value, pending[i].depth)
  }

  ghost function Size(v: Json): nat
    decreases v, 1, 0
  {
    match v
    case Array(items) => 1 + SizeItems(v, items)
    case Object(fields) => 1 + SizeFields(v, fields)
    case _ => 1
  }

  ghost function SizeItems(owner: Json, items: seq<Json>): nat
    requires forall i :: 0 <= i < |items| ==> items[i] < owner
    decreases owner, 0, |items|
  {
    if items == [] then 0 else Size(items[0]) + SizeItems(owner, items[1..])
  }

  ghost function SizeFields(owner: Json, fields: seq<Entry<Json>>): nat
    requires forall i :: 0 <= i < |fields| ==> fields[i].value < owner
    decreases owner, 0, |fields|
  {
    if fields == [] then 0 else Size(fields[0].value) + SizeFields(owner, fields[1..])
  }

  ghost function SizeAll(pending: seq<Pending>): nat
  {
    if pending == [] then 0 else Size(pending[|pending| - 1].value) + SizeAll(pending[..|pending| - 1])
  }

  /** `readJsonChildren` */
  function Children(v: Json): (cs: seq<Json>)
    requires v.Array? || v.Object?
  {
    if v.Array? then v.items else seq(|v.fields|, i requires 0 <= i < |v.fields| => v.fields[i].value)
  }

  /** The worklist of `isJsonValue`. */
  method CheckJsonValue(value: Json) returns (ok: bool)
    ensures ok == IsJsonValue(value, 0)
  {
    var pending := [Pending(value, 0)];
    while pending != []
      invariant AllJsonValues(pending) <==> IsJsonValue(value, 0)
      decreases SizeAll(pending)
    {
      var n := |pending| - 1;
      var candidate := pending[n];
      var rest := pending[..n];
      assert AllJsonValues(pending) <==> AllJsonValues(rest) && IsJsonValue(candidate.value, candidate.depth);
      if candidate.value.NonFinite? {
        return false;
      }
      if candidate.value.Array? || candidate.value.Object? {
        if candidate.depth > MAX_DEPTH {
          return false;
        }
        ChildrenOf(candidate.value, candidate.depth);
        pending := PushChildren(rest, candidate.value, Children(candidate.value), candidate.depth + 1);
      } else {
        pending := rest;
      }
    }
    return true;
  }

  method PushChildren(rest: seq<Pending>, owner: Json, children: seq<Json>, depth: nat) returns (pending: seq<Pending>)
    requires forall i :: 0 <= i < |children| ==> children[i] < owner
    ensures AllJsonValues(pending) <==>
            AllJsonValues(rest) && forall i :: 0 <= i < |children| ==> IsJsonValue(children[i], depth)
    ensures SizeAll(pending) == SizeAll(rest) + SizeItems(owner, children)
  {
    pending := rest;
    assert children[0..] == children;
    for i := 0 to |children|
      invariant AllJsonValues(pending)
           <==> AllJsonValues(rest) && forall j :: 0 <= j < i ==> IsJsonValue(children[j], depth)
      invariant SizeAll(pending) + SizeItems(owner, children[i..]) == SizeAll(rest) + SizeItems(owner, children)
    {
      PushOne(pending, Pending(children[i], depth));
      assert children[i..][1..] == children[i + 1..];
      pending := pending + [Pending(children[i], depth)];
    }
  }

  lemma PushOne(pending: seq<Pending>, p: Pending)
    ensures AllJsonValues(pending + [p]) <==> AllJsonValues(pending) && IsJsonValue(p.value, p.depth)
    ensures SizeAll(pending + [p]) == SizeAll(pending) + Size(p.value)
  {
    var next := pending + [p];
    assert next[..|next| - 1] == pending;
    assert forall i :: 0 <= i < |pending| ==> next[i] == pending[i];
    assert next[|pending|] == p;
  }

  lemma ChildrenOf(v: Json, depth: nat)
    requires (v.Array? || v.Object?) && depth <= MAX_DEPTH
    ensures forall i :: 0 <= i < |Children(v)| ==> Children(v)[i] < v
    ensures IsJsonValue(v, depth) <==> forall i :: 0 <= i < |Children(v)| ==> IsJsonValue(Children(v)[i], depth + 1)
    ensures SizeItems(v, Children(v)) < Size(v)
  {
    var cs := Children(v);
    if v.Object? {
      forall i | 0 <= i < |cs| ensures cs[i] == v.fields[i].value && cs[i] < v {
        assert v.fields[i] in v.fields;
      }
      SizeByValues(v, v.fields, cs);
    }
  }

  lemma {:induction false} SizeByValues(owner: Json, fields: seq<Entry<Json>>, values: seq<Json>)
    requires |fields| == |values| && forall i :: 0 <= i < |fields| ==> values[i] == fields[i].value && values[i] < owner
    ensures SizeItems(owner, values) == SizeFields(owner, fields)
  {
    if fields != [] { SizeByValues(owner, fields[1..], values[1..]); }
  }

  // ---------------------------------------------------------------- payload text

  /** The part of `decodePayload` after UTF-8: parse, check the fields, compare with the canonical text. */
  function DecodeText(syn: Syntax, text: JsString): Result<CommitRecord, PayloadError>
  {
    match ParseText(syn.read, text)
    case None => Err(InvalidJson)
    case Some(v) =>
      match ParseRecord(syn, v)
      case None => Err(InvalidRecord)
      case Some(r) => if Serialize(RecordJson(r), 0) == Ok(text) then Ok(r) else Err(NonCanonicalPayload)
  }

  /** The identifiers have their formats, the sequence is a safe integer, the replay input is plain JSON. */
  ghost predicate ValidRecord(syn: Syntax, r: CommitRecord)
  {
    syn.isUri(r.uri) && syn.isRevisionId(r.revisionId) && syn.isTransactionId(r.transactionId) &&
    (r.parentRevisionId.Some? ==> syn.isRevisionId(r.parentRevisionId.value)) &&
    syn.isHash(r.transactionHash) && syn.isHash(r.documentHash) &&
    r.sequence <= MAX_SAFE_INTEGER && Valid(syn.read, r.replayInput)
  }

  /** A safe integer reads back as itself. */
  ghost predicate ReadsIntegers(syn: Syntax)
  {
    forall n: nat :: n <= MAX_SAFE_INTEGER ==> syn.read(Decimal(n)) == Some(Decimal(n))
  }

  /** The record as decoding returns it: equal, with the keys of the replay input in canonical order. */
  ghost function Canonical(r: CommitRecord): CommitRecord { r.(replayInput := Normal(r.replayInput)) }

  lemma {:induction false} GetExact(fields: seq<Entry<Json>>, i: nat)
    requires DistinctKeys(fields) && i < |fields|
    ensures Get(fields, fields[i].key) == Some(fields[i].value)
  {
    if i > 0 {
      assert fields[1..][i - 1] == fields[i];
      GetExact(fields[1..], i - 1);
    }
  }

  lemma RecordJsonValid(syn: Syntax, r: CommitRecord)
    requires ValidRecord(syn, r) && ReadsIntegers(syn)
    ensures Valid(syn.read, RecordJson(r))
    ensures forall i :: 0 <= i < 10 ==> Valid(syn.read, RecordValues(r)[i])
  {
    DecimalRoundTrip(r.sequence);
    DecimalRoundTrip(1);
    assert Lit("1") == Decimal(1);
    KeysDistinct();
    var vs := RecordValues(r);
    assert Valid(syn.read, vs[0]) && Valid(syn.read, vs[8]);
    forall i | 0 <= i < 10 ensures Valid(syn.read, vs[i]) {}
    forall e | e in RecordFields(r) ensures Valid(syn.read, e.value) {
      var i :| 0 <= i < 10 && RecordFields(r)[i] == e;
    }
  }

  /** Looking a key up in the parsed object finds the normalized field of the record. */
  lemma NormalGet(v: Json, f: seq<Entry<Json>>, i: nat)
    requires v == Object(f) && DistinctKeys(f) && i < |f|
    ensures Normal(v).Object? && |Normal(v).fields| == |f|
    ensures Get(Normal(v).fields, f[i].key) == Some(Normal(f[i].value))
  {
    NormalObject(v, f);
    SortIsSortedForm(f);
    NormalFieldsGet(v, f, Sort(f), i);
  }

  lemma NormalObject(v: Json, f: seq<Entry<Json>>)
    requires v == Object(f)
    ensures forall i :: 0 <= i < |Sort(f)| ==> Sort(f)[i].value < v
    ensures Normal(v) == Object(NormalFields(v, Sort(f)))
  {
    SortedFieldsSmaller(v, f);
  }

  lemma NormalFieldsGet(v: Json, f: seq<Entry<Json>>, sorted: seq<Entry<Json>>, i: nat)
    requires v == Object(f) && SortedForm(sorted, f) && i < |f|
    requires forall i :: 0 <= i < |sorted| ==> sorted[i].value < v
    ensures |NormalFields(v, sorted)| == |f|
    ensures Get(NormalFields(v, sorted), f[i].key) == Some(Normal(f[i].value))
  {
    SortedFormKeeps(sorted, f);
    var n := NormalFields(v, sorted);
    var j := PositionOf(f, sorted, i);
    assert n[j] == Entry(f[i].key, Normal(f[i].value));
    assert DistinctKeys(n);
    assert |multiset(f)| == |multiset(sorted)|;
    GetExact(n, j);
  }

  lemma NormalKeys(v: Json, f: seq<Entry<Json>>, i: nat) returns (j: nat)
    requires v == Object(f) && i < |f|
    ensures Normal(v).Object? && |Normal(v).fields| == |f|
    ensures j < |f| && Normal(v).fields[i].key == f[j].key
  {
    SortedFieldsSmaller(v, f);
    j := PositionOf(Sort(f), f, i);
  }

  lemma ParsedRecord(syn: Syntax, r: CommitRecord)
    requires ValidRecord(syn, r) && ReadsIntegers(syn) && IsJsonValue(Normal(r.replayInput), 0)
    ensures ParseRecord(syn, Normal(RecordJson(r))) == Some(Canonical(r))
  {
    var v, f := RecordJson(r), RecordFields(r);
    KeysDistinct();
    DecimalRoundTrip(r.sequence);
    forall i | 0 <= i < 10
      ensures Normal(v).Object? && |Normal(v).fields| == 10
      ensures Get(Normal(v).fields, KEYS[i]) == Some(Normal(RecordValues(r)[i]))
    {
      NormalGet(v, f, i);
    }
    forall i | 0 <= i < 10 ensures Normal(v).Object? && |Normal(v).fields| == 10 && Normal(v).fields[i].key in KEYS {
      var j := NormalKeys(v, f, i);
    }
    FieldsParse(syn, r, Normal(v).fields);
  }

  ghost predicate HasFields(r: CommitRecord, n: seq<Entry<Json>>)
  {
    forall i :: 0 <= i < 10 ==> Get(n, KEYS[i]) == Some(Normal(RecordValues(r)[i]))
  }

  lemma IdentityParses(syn: Syntax, r: CommitRecord, n: seq<Entry<Json>>)
    requires ValidRecord(syn, r) && HasFields(r, n)
    ensures ParseIdentity(syn, n, r.sequence, Normal(r.replayInput)) == Some(Canonical(r))
  {
    FieldOf(r, n, 2, r.uri, syn.isUri);
    FieldOf(r, n, 3, r.revisionId, syn.isRevisionId);
    FieldOf(r, n, 5, r.transactionId, syn.isTransactionId);
    FieldOf(r, n, 6, r.transactionHash, syn.isHash);
    FieldOf(r, n, 7, r.documentHash, syn.isHash);
    ParentOf(syn, r, n);
  }

  lemma FieldOf(r: CommitRecord, n: seq<Entry<Json>>, i: nat, s: JsString, accepts: JsString -> bool)
    requires HasFields(r, n) && i < 10 && RecordValues(r)[i] == String(s) && accepts(s)
    ensures StringField(n, KEYS[i], accepts) == Some(s)
  {
    assert Get(n, KEYS[i]) == Some(Normal(RecordValues(r)[i]));
  }

  lemma ParentOf(syn: Syntax, r: CommitRecord, n: seq<Entry<Json>>)
    requires HasFields(r, n) && ValidRecord(syn, r)
    ensures ParentField(n, syn) == Some(r.parentRevisionId)
  {
    assert Get(n, KEYS[4]) == Some(Normal(RecordValues(r)[4]));
  }

  lemma FieldsParse(syn: Syntax, r: CommitRecord, n: seq<Entry<Json>>)
    requires ValidRecord(syn, r) && HasExactKeys(n) && IsJsonValue(Normal(r.replayInput), 0)
    requires SafeInteger(Decimal(r.sequence)) == Some(r.sequence)
    requires HasFields(r, n)
    ensures ParseRecord(syn, Object(n)) == Some(Canonical(r))
  {
    var vs := RecordValues(r);
    assert Get(n, KEYS[0]) == Some(vs[0]) && Get(n, KEYS[1]) == Some(vs[1]);
    assert Get(n, KEYS[8]) == Some(vs[8]) && Get(n, KEYS[9]) == Some(Normal(vs[9]));
    IdentityParses(syn, r, n);
  }

  lemma {:induction false} PrintableIsJsonValue(v: Json, depth: nat)
    requires Printable(v, depth + 1)
    ensures IsJsonValue(v, depth)
    decreases v
  {
    match v
    case Array(items) =>
      forall i | 0 <= i < |items| ensures IsJsonValue(items[i], depth + 1) {
        assert items[i] in items;
        PrintableIsJsonValue(items[i], depth + 1);
      }
    case Object(fields) =>
      forall i | 0 <= i < |fields| ensures IsJsonValue(fields[i].value, depth + 1) {
        assert fields[i] in fields;
        PrintableIsJsonValue(fields[i].value, depth + 1);
      }
    case _ =>
  }

  lemma RecordPrintable(r: CommitRecord)
    ensures Printable(RecordJson(r), 0) <==>
      KeysWellFormed(RecordFields(r)) && forall i :: 0 <= i < 10 ==> Printable(RecordValues(r)[i], 1)
  {
    var f := RecordFields(r);
    if Printable(RecordJson(r), 0) {
      forall i | 0 <= i < 10 ensures Printable(RecordValues(r)[i], 1) { assert f[i] in f; }
    }
    if forall i :: 0 <= i < 10 ==> Printable(RecordValues(r)[i], 1) {
      forall e | e in f ensures Printable(e.value, 1) {
        var i :| 0 <= i < 10 && f[i] == e;
      }
    }
  }

  lemma CanonicalPrintable(r: CommitRecord)
    requires Printable(RecordJson(r), 0)
    ensures Printable(Normal(r.replayInput), 1) && Printable(RecordJson(Canonical(r)), 0)
  {
    RecordPrintable(r);
    RecordPrintable(Canonical(r));
    var vs, ws := RecordValues(r), RecordValues(Canonical(r));
    assert vs[9] == r.replayInput;
    NormalPrintable(r.replayInput, 1);
    forall i | 0 <= i < 10 ensures Printable(ws[i], 1) {
      if i < 9 { assert ws[i] == vs[i]; }
    }
    forall i | 0 <= i < 10 ensures RecordFields(r)[i].key == RecordFields(Canonical(r))[i].key {}
  }

  lemma RecordsSame(f: seq<Entry<Json>>, g: seq<Entry<Json>>)
    requires |f| == |g| && DistinctKeys(f)
    requires forall i :: 0 <= i < |f| ==> f[i].key == g[i].key && Same(f[i].value, g[i].value)
    ensures Same(Object(f), Object(g))
  {
    forall k ensures k in Keys(f) <==> k in Keys(g) {
      if k in Keys(f) { var i :| 0 <= i < |f| && f[i].key == k; assert g[i] in g; }
      if k in Keys(g) { var i :| 0 <= i < |g| && g[i].key == k; assert f[i] in f; }
    }
    forall i, j | 0 <= i < |f| && 0 <= j < |g| && f[i].key == g[j].key ensures Same(f[i].value, g[j].value) {
      assert f[i].key == f[j].key;
      assert i == j;
    }
  }

  lemma CanonicalSame(syn: Syntax, r: CommitRecord)
    requires Valid(syn.read, r.replayInput)
    ensures Same(RecordJson(r), RecordJson(Canonical(r)))
  {
    NormalIsSame(syn.read, r.replayInput);
    KeysDistinct();
    var vs, ws := RecordValues(r), RecordValues(Canonical(r));
    forall i | 0 <= i < 10 ensures Same(vs[i], ws[i]) {
      if i < 9 { assert ws[i] == vs[i] && !vs[i].Array? && !vs[i].Object?; }
    }
    RecordsSame(RecordFields(r), RecordFields(Canonical(r)));
  }

  lemma CanonicalText(syn: Syntax, r: CommitRecord)
    requires ValidRecord(syn, r) && ReadsIntegers(syn) && Serialize(RecordJson(r), 0).Ok?
    ensures ValidRecord(syn, Canonical(r)) && Canonical(Canonical(r)) == Canonical(r)
    ensures Serialize(RecordJson(Canonical(r)), 0) == Serialize(RecordJson(r), 0)
  {
    NormalOnce(syn.read, r.replayInput);
    RecordJsonValid(syn, r);
    RecordJsonValid(syn, Canonical(r));
    SerializesExactly(RecordJson(r), 0);
    CanonicalPrintable(r);
    SerializesExactly(RecordJson(Canonical(r)), 0);
    CanonicalSame(syn, r);
    CanonicalForm(syn.read, RecordJson(r), RecordJson(Canonical(r)));
  }

  lemma DecodeTextIf(syn: Syntax, text: JsString, v: Json, r: CommitRecord)
    requires ParseText(syn.read, text) == Some(v) && ParseRecord(syn, v) == Some(r)
    requires Serialize(RecordJson(r), 0) == Ok(text)
    ensures DecodeText(syn, text) == Ok(r)
  {
  }

  lemma SerializedPrintable(r: CommitRecord)
    requires Serialize(RecordJson(r), 0).Ok?
    ensures Printable(Normal(r.replayInput), 1) && Printable(RecordJson(Canonical(r)), 0)
  {
    SerializesExactly(RecordJson(r), 0);
    CanonicalPrintable(r);
  }

  lemma SerializedReplay(r: CommitRecord)
    requires Serialize(RecordJson(r), 0).Ok?
    ensures IsJsonValue(Normal(r.replayInput), 0)
  {
    SerializedPrintable(r);
    ShiftedDepth(Normal(r.replayInput), 0, 1);
  }

  lemma ShiftedDepth(v: Json, depth: nat, deeper: nat)
    requires deeper == depth + 1 && Printable(v, deeper)
    ensures IsJsonValue(v, depth)
  {
    PrintableIsJsonValue(v, depth);
  }

  /** A valid record survives the text round trip. */
  lemma TextRoundTrip(syn: Syntax, r: CommitRecord)
    requires ValidRecord(syn, r) && ReadsIntegers(syn) && Serialize(RecordJson(r), 0).Ok?
    ensures DecodeText(syn, Serialize(RecordJson(r), 0).value) == Ok(Canonical(r))
  {
    var v := RecordJson(r);
    RecordJsonValid(syn, r);
    ParseSerialized(syn.read, v);
    SerializedReplay(r);
    ParsedRecord(syn, r);
    CanonicalText(syn, r);
    DecodeTextIf(syn, Serialize(v, 0).value, Normal(v), Canonical(r));
  }
}
