/**
 `serializeCanonicalJson` of `src/base/serialization/canonical-json.ts` on plain values.

 A value is a finite tree.  An object is its list of own properties in insertion order, with
 distinct keys.  A finite number is the text `JSON.stringify` gives it, so `-0` and `0` are one
 number; NaN and the infinities are `NonFinite`.
 */
module CanonicalJson {
  import opened Wrappers
  import opened Utf8
  import opened CodePointOrder

  datatype Json =
    | Null
    | Bool(b: bool)
    | Number(token: JsString)
    | NonFinite
    | String(s: JsString)
    | Array(items: seq<Json>)
    | Object(fields: seq<Entry<Json>>)

  datatype Reason = InvalidUnicodeString | NonFiniteNumber | MaximumDepthExceeded

  const MAX_DEPTH := 1024

  const QUOTE: Unit := 34
  const COMMA: Unit := 44
  const COLON: Unit := 58
  const OPEN_BRACKET: Unit := 91
  const BACKSLASH: Unit := 92
  const CLOSE_BRACKET: Unit := 93
  const OPEN_BRACE: Unit := 123
  const CLOSE_BRACE: Unit := 125

  function CharCode(c: char): Unit
    requires c < 128 as char
  {
    c as int
  }

  /** The code units of an ASCII literal. */
  function Lit(text: string): (s: JsString)
    requires forall c :: c in text ==> c < 128 as char
    ensures |s| == |text| && forall i :: 0 <= i < |s| ==> s[i] == text[i] as int
  {
    seq(|text|, i requires 0 <= i < |text| => assert text[i] in text; CharCode(text[i]))
  }

  // ---------------------------------------------------------------- strings

  function HexDigit(d: int): Unit
    requires 0 <= d < 16
  {
    if d < 10 then 48 + d else 87 + d
  }

  /** How `JSON.stringify` writes one code unit of a well-formed string. */
  function EscapeUnit(u: Unit): JsString
  {
    if u == QUOTE || u == BACKSLASH then [BACKSLASH, u]
    else if u == 8 then [BACKSLASH, 98]
    else if u == 9 then [BACKSLASH, 116]
    else if u == 10 then [BACKSLASH, 110]
    else if u == 12 then [BACKSLASH, 102]
    else if u == 13 then [BACKSLASH, 114]
    else if u < 0x20 then [BACKSLASH, 117, 48, 48, HexDigit(u / 16), HexDigit(u % 16)]
    else [u]
  }

  function Escape(s: JsString): JsString
  {
    if s == [] then [] else EscapeUnit(s[0]) + Escape(s[1..])
  }

  function Quoted(s: JsString): JsString { [QUOTE] + Escape(s) + [QUOTE] }

  // ---------------------------------------------------------------- values

  function Join(parts: seq<JsString>): JsString
  {
    if parts == [] then []
    else if |parts| == 1 then parts[0]
    else parts[0] + [COMMA] + Join(parts[1..])
  }

  /** The text of one property. */
  function Property(key: JsString, value: JsString): JsString { Quoted(key) + [COLON] + value }

  predicate KeysWellFormed(fields: seq<Entry<Json>>)
  {
    forall i :: 0 <= i < |fields| ==> WellFormed(fields[i].key)
  }

  lemma SortedFieldsSmaller(v: Json, fields: seq<Entry<Json>>)
    requires v == Object(fields)
    ensures forall i :: 0 <= i < |Sort(fields)| ==> Sort(fields)[i].value < v
  {
    var s := Sort(fields);
    forall i | 0 <= i < |s| ensures s[i].value < v {
      assert s[i] in s;
      var j :| 0 <= j < |fields| && fields[j] == s[i];
    }
  }

  function Serialize(v: Json, depth: nat): Result<JsString, Reason>
    decreases v, 1, 0
  {
    match v
    case Null => Ok(Lit("null"))
    case Bool(b) => Ok(if b then Lit("true") else Lit("false"))
    case Number(token) => Ok(token)
    case NonFinite => Err(NonFiniteNumber)
    case String(s) => if WellFormed(s) then Ok(Quoted(s)) else Err(InvalidUnicodeString)
    case Array(items) =>
      if depth > MAX_DEPTH then Err(MaximumDepthExceeded)
      else (match SerializeItems(v, items, depth + 1)
        case Err(e) => Err(e)
        case Ok(parts) => Ok([OPEN_BRACKET] + Join(parts) + [CLOSE_BRACKET]))
    case Object(fields) =>
      if depth > MAX_DEPTH then Err(MaximumDepthExceeded)
      else if !KeysWellFormed(fields) then Err(InvalidUnicodeString)
      else (
        SortedFieldsSmaller(v, fields);
        match SerializeFields(v, Sort(fields), depth + 1)
        case Err(e) => Err(e)
        case Ok(parts) => Ok([OPEN_BRACE] + Join(parts) + [CLOSE_BRACE]))
  }

  function SerializeItems(owner: Json, items: seq<Json>, depth: nat): (r: Result<seq<JsString>, Reason>)
    requires forall i :: 0 <= i < |items| ==> items[i] < owner
    ensures r.Ok? ==> |r.value| == |items|
    decreases owner, 0, |items|
  {
    if items == [] then Ok([])
    else match Serialize(items[0], depth)
      case Err(e) => Err(e)
      case Ok(text) =>
        match SerializeItems(owner, items[1..], depth)
        case Err(e) => Err(e)
        case Ok(parts) => Ok([text] + parts)
  }

  function SerializeFields(owner: Json, fields: seq<Entry<Json>>, depth: nat): (r: Result<seq<JsString>, Reason>)
    requires forall i :: 0 <= i < |fields| ==> fields[i].value < owner
    ensures r.Ok? ==> |r.value| == |fields|
    decreases owner, 0, |fields|
  {
    if fields == [] then Ok([])
    else match Serialize(fields[0].value, depth)
      case Err(e) => Err(e)
      case Ok(text) =>
        match SerializeFields(owner, fields[1..], depth)
        case Err(e) => Err(e)
        case Ok(parts) => Ok([Property(fields[0].key, text)] + parts)
  }

  /** `serializeValue`, with the loops of `serializeArray` and `serializeObject`. */
  method SerializeValue(v: Json, depth: nat) returns (r: Result<JsString, Reason>)
    ensures r == Serialize(v, depth)
    decreases v, 1
  {
    match v
    case Null => return Ok(Lit("null"));
    case Bool(b) => return Ok(if b then Lit("true") else Lit("false"));
    case Number(token) => return Ok(token);
    case NonFinite => return Err(NonFiniteNumber);
    case String(s) =>
      var ok := IsWellFormedUnicodeString(s);
      return if ok then Ok(Quoted(s)) else Err(InvalidUnicodeString);
    case Array(items) =>
      if depth > MAX_DEPTH {
        return Err(MaximumDepthExceeded);
      }
      r := SerializeArray(v, items, depth);
    case Object(fields) =>
      if depth > MAX_DEPTH {
        return Err(MaximumDepthExceeded);
      }
      r := SerializeObject(v, fields, depth);
  }

  method SerializeArray(v: Json, items: seq<Json>, depth: nat) returns (r: Result<JsString, Reason>)
    requires v == Array(items) && depth <= MAX_DEPTH
    ensures r == Serialize(v, depth)
    decreases v, 0
  {
    var parts: seq<JsString> := [];
    assert items[0..] == items;
    AfterStep([], [], SerializeItems(v, items, depth + 1));
    for i := 0 to |items|
      invariant SerializeItems(v, items, depth + 1) == After(parts, SerializeItems(v, items[i..], depth + 1))
    {
      assert items[i] in items;
      var item := SerializeValue(items[i], depth + 1);
      if item.Err? {
        return Err(item.error);
      }
      assert items[i..][1..] == items[i + 1..];
      AfterStep(parts, item.value, SerializeItems(v, items[i + 1..], depth + 1));
      parts := parts + [item.value];
    }
    assert parts + [] == parts;
    return Ok([OPEN_BRACKET] + Join(parts) + [CLOSE_BRACKET]);
  }

  method SerializeObject(v: Json, fields: seq<Entry<Json>>, depth: nat) returns (r: Result<JsString, Reason>)
    requires v == Object(fields) && depth <= MAX_DEPTH
    ensures r == Serialize(v, depth)
    decreases v, 0, |fields| + 1
  {
    for i := 0 to |fields|
      invariant forall j :: 0 <= j < i ==> WellFormed(fields[j].key)
    {
      var ok := IsWellFormedUnicodeString(fields[i].key);
      if !ok {
        return Err(InvalidUnicodeString);
      }
    }
    SortedFieldsSmaller(v, fields);
    var entries := SerializeEntries(v, Sort(fields), depth + 1);
    match entries
    case Err(e) => return Err(e);
    case Ok(parts) => return Ok([OPEN_BRACE] + Join(parts) + [CLOSE_BRACE]);
  }

  method SerializeEntries(v: Json, sorted: seq<Entry<Json>>, depth: nat) returns (r: Result<seq<JsString>, Reason>)
    requires forall i :: 0 <= i < |sorted| ==> sorted[i].value < v
    ensures r == SerializeFields(v, sorted, depth)
    decreases v, 0, |sorted|
  {
    var parts: seq<JsString> := [];
    assert sorted[0..] == sorted;
    AfterStep([], [], SerializeFields(v, sorted, depth));
    for i := 0 to |sorted|
      invariant SerializeFields(v, sorted, depth) == After(parts, SerializeFields(v, sorted[i..], depth))
    {
      var property := SerializeValue(sorted[i].value, depth);
      if property.Err? {
        return Err(property.error);
      }
      assert sorted[i..][1..] == sorted[i + 1..];
      var part := Property(sorted[i].key, property.value);
      AfterStep(parts, part, SerializeFields(v, sorted[i + 1..], depth));
      parts := parts + [part];
    }
    assert parts + [] == parts;
    return Ok(parts);
  }

  function After(front: seq<JsString>, r: Result<seq<JsString>, Reason>): Result<seq<JsString>, Reason>
  {
    match r
    case Err(e) => Err(e)
    case Ok(parts) => Ok(front + parts)
  }

  lemma AfterStep(front: seq<JsString>, part: JsString, r: Result<seq<JsString>, Reason>)
    ensures After([], r) == r
    ensures After(front, After([part], r)) == After(front + [part], r)
  {
    if r.Ok? {
      assert [] + r.value == r.value;
      assert front + ([part] + r.value) == (front + [part]) + r.value;
    }
  }

  lemma SerializedArray(v: Json, items: seq<Json>, depth: nat)
    requires v == Array(items)
    ensures Serialize(v, depth).Ok? <==> depth <= MAX_DEPTH && SerializeItems(v, items, depth + 1).Ok?
    ensures Serialize(v, depth).Ok? ==>
      Serialize(v, depth).value == [OPEN_BRACKET] + Join(SerializeItems(v, items, depth + 1).value) + [CLOSE_BRACKET]
  {
  }

  lemma SerializedObject(v: Json, fields: seq<Entry<Json>>, depth: nat)
    requires v == Object(fields)
    ensures forall i :: 0 <= i < |Sort(fields)| ==> Sort(fields)[i].value < v
    ensures Serialize(v, depth).Ok? <==>
      depth <= MAX_DEPTH && KeysWellFormed(fields) && SerializeFields(v, Sort(fields), depth + 1).Ok?
    ensures Serialize(v, depth).Ok? ==>
      Serialize(v, depth).value
        == [OPEN_BRACE] + Join(SerializeFields(v, Sort(fields), depth + 1).value) + [CLOSE_BRACE]
  {
    SortedFieldsSmaller(v, fields);
  }

  lemma {:induction false} ItemParts(owner: Json, items: seq<Json>, depth: nat)
    requires forall i :: 0 <= i < |items| ==> items[i] < owner
    requires SerializeItems(owner, items, depth).Ok?
    ensures forall i :: 0 <= i < |items| ==>
      Serialize(items[i], depth) == Ok(SerializeItems(owner, items, depth).value[i])
  {
    if items != [] {
      ItemParts(owner, items[1..], depth);
      var parts := SerializeItems(owner, items, depth).value;
      assert parts[1..] == SerializeItems(owner, items[1..], depth).value;
      forall i | 0 < i < |items| ensures Serialize(items[i], depth) == Ok(parts[i]) {
        assert items[i] == items[1..][i - 1] && parts[i] == parts[1..][i - 1];
      }
    }
  }

  lemma {:induction false} FieldParts(owner: Json, fields: seq<Entry<Json>>, depth: nat)
    requires forall i :: 0 <= i < |fields| ==> fields[i].value < owner
    requires SerializeFields(owner, fields, depth).Ok?
    ensures forall i :: 0 <= i < |fields| ==> Serialize(fields[i].value, depth).Ok?
    ensures forall i :: 0 <= i < |fields| ==>
              SerializeFields(owner, fields, depth).value[i]
                == Property(fields[i].key, Serialize(fields[i].value, depth).value)
  {
    if fields != [] {
      FieldParts(owner, fields[1..], depth);
      var parts := SerializeFields(owner, fields, depth).value;
      assert parts[1..] == SerializeFields(owner, fields[1..], depth).value;
      forall i | 0 < i < |fields|
        ensures Serialize(fields[i].value, depth).Ok? &&
                parts[i] == Property(fields[i].key, Serialize(fields[i].value, depth).value)
      {
        assert fields[i] == fields[1..][i - 1] && parts[i] == parts[1..][i - 1];
      }
    }
  }

  lemma {:induction false} ItemsFromParts(owner: Json, items: seq<Json>, depth: nat, parts: seq<JsString>)
    requires forall i :: 0 <= i < |items| ==> items[i] < owner
    requires |parts| == |items| && forall i :: 0 <= i < |items| ==> Serialize(items[i], depth) == Ok(parts[i])
    ensures SerializeItems(owner, items, depth) == Ok(parts)
  {
    if items != [] {
      ItemsFromParts(owner, items[1..], depth, parts[1..]);
      assert parts == [parts[0]] + parts[1..];
    }
  }

  lemma {:induction false} FieldsFromParts(owner: Json, fields: seq<Entry<Json>>, depth: nat, parts: seq<JsString>)
    requires forall i :: 0 <= i < |fields| ==> fields[i].value < owner
    requires |parts| == |fields| && forall i :: 0 <= i < |fields| ==>
      Serialize(fields[i].value, depth).Ok? &&
      parts[i] == Property(fields[i].key, Serialize(fields[i].value, depth).value)
    ensures SerializeFields(owner, fields, depth) == Ok(parts)
  {
    if fields != [] {
      FieldsFromParts(owner, fields[1..], depth, parts[1..]);
      assert parts == [parts[0]] + parts[1..];
    }
  }

  // ---------------------------------------------------------------- when it succeeds

  /** Finite numbers, well-formed strings and keys, and containers no deeper than the limit. */
  ghost predicate Printable(v: Json, depth: nat)
    decreases v
  {
    match v
    case NonFinite => false
    case String(s) => WellFormed(s)
    case Array(items) => depth <= MAX_DEPTH && forall x :: x in items ==> Printable(x, depth + 1)
    case Object(fields) =>
      depth <= MAX_DEPTH && KeysWellFormed(fields) && forall e :: e in fields ==> Printable(e.value, depth + 1)
    case _ => true
  }

  lemma {:induction false} SerializesExactly(v: Json, depth: nat)
    ensures Serialize(v, depth).Ok? <==> Printable(v, depth)
    decreases v, 1, 0
  {
    if v.Array? {
      ArraySerializesExactly(v, v.items, depth);
    } else if v.Object? {
      SerializedObject(v, v.fields, depth);
      SortedSerializeExactly(v, v.fields, Sort(v.fields), depth + 1);
    }
  }

  lemma {:induction false} ArraySerializesExactly(v: Json, items: seq<Json>, depth: nat)
    requires v == Array(items)
    ensures Serialize(v, depth).Ok? <==> Printable(v, depth)
    decreases v, 0, |items| + 1
  {
    SerializedArray(v, items, depth);
    ItemsSerializeExactly(v, items, depth + 1);
  }

  lemma {:induction false} SortedSerializeExactly(v: Json, fields: seq<Entry<Json>>, sorted: seq<Entry<Json>>,
                                                  depth: nat)
    requires v == Object(fields) && multiset(sorted) == multiset(fields)
    requires forall i :: 0 <= i < |sorted| ==> sorted[i].value < v
    ensures SerializeFields(v, sorted, depth).Ok? <==> forall e :: e in fields ==> Printable(e.value, depth)
    decreases v, 0, |sorted| + 1
  {
    FieldsSerializeExactly(v, sorted, depth);
    SortedMembersPrintable(fields, sorted, depth);
  }

  lemma SortedMembersPrintable(a: seq<Entry<Json>>, b: seq<Entry<Json>>, depth: nat)
    requires multiset(a) == multiset(b)
    ensures (forall e :: e in a ==> Printable(e.value, depth)) <==> (forall e :: e in b ==> Printable(e.value, depth))
  {
    assert forall e :: e in a <==> e in multiset(a);
    assert forall e :: e in b <==> e in multiset(b);
  }

  lemma {:induction false} ItemsSerializeExactly(owner: Json, items: seq<Json>, depth: nat)
    requires forall i :: 0 <= i < |items| ==> items[i] < owner
    ensures SerializeItems(owner, items, depth).Ok? <==> forall x :: x in items ==> Printable(x, depth)
    decreases owner, 0, |items|
  {
    if items != [] {
      SerializesExactly(items[0], depth);
      ItemsSerializeExactly(owner, items[1..], depth);
      assert forall x :: x in items <==> x == items[0] || x in items[1..];
    }
  }

  lemma {:induction false} FieldsSerializeExactly(owner: Json, fields: seq<Entry<Json>>, depth: nat)
    requires forall i :: 0 <= i < |fields| ==> fields[i].value < owner
    ensures SerializeFields(owner, fields, depth).Ok? <==> forall e :: e in fields ==> Printable(e.value, depth)
    decreases owner, 0, |fields|
  {
    if fields != [] {
      SerializesExactly(fields[0].value, depth);
      FieldsSerializeExactly(owner, fields[1..], depth);
      assert forall e :: e in fields <==> e == fields[0] || e in fields[1..];
    }
  }
}
