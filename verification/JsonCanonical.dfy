/**
 The canonical-form theorems of `src/base/serialization/canonical-json.ts`: `JSON.parse`
 recovers the value from its text, two values share a text exactly when they are the same
 JSON value, and the text is plain enough for UTF-8 to carry it exactly.
 */
module JsonCanonical {
  import opened Wrappers
  import opened Utf8
  import opened CodePointOrder
  import opened CanonicalJson
  import opened JsonText

  // ---------------------------------------------------------------- recovering a printed value

  /** Object keys are distinct and every number is spelled the way `JSON.stringify` spells it. */
  ghost predicate Valid(read: NumberReading, v: Json)
    decreases v
  {
    match v
    case Number(token) => IsNumberText(token) && read(token) == Some(token)
    case Array(items) => forall x :: x in items ==> Valid(read, x)
    case Object(fields) => DistinctKeys(fields) && forall e :: e in fields ==> Valid(read, e.value)
    case _ => true
  }

  /** The same value with the fields of every object in key order. */
  ghost function Normal(v: Json): Json
    decreases v, 1, 0
  {
    match v
    case Array(items) => Array(NormalItems(v, items))
    case Object(fields) => SortedFieldsSmaller(v, fields); Object(NormalFields(v, Sort(fields)))
    case _ => v
  }

  ghost function NormalItems(owner: Json, items: seq<Json>): (r: seq<Json>)
    requires forall i :: 0 <= i < |items| ==> items[i] < owner
    ensures |r| == |items| && forall i :: 0 <= i < |r| ==> r[i] == Normal(items[i])
    decreases owner, 0, |items|
  {
    if items == [] then [] else [Normal(items[0])] + NormalItems(owner, items[1..])
  }

  ghost function NormalFields(owner: Json, fields: seq<Entry<Json>>): (r: seq<Entry<Json>>)
    requires forall i :: 0 <= i < |fields| ==> fields[i].value < owner
    ensures |r| == |fields|
    ensures forall i :: 0 <= i < |r| ==> r[i] == Entry(fields[i].key, Normal(fields[i].value))
    decreases owner, 0, |fields|
  {
    if fields == [] then [] else [Entry(fields[0].key, Normal(fields[0].value))] + NormalFields(owner, fields[1..])
  }

  lemma {:induction false} CharsRoundTrip(s: JsString, rest: JsString)
    ensures ParseChars(Escape(s) + [QUOTE] + rest) == Some(Parsed(s, rest))
  {
    if s == [] {
      assert ([QUOTE] + rest)[1..] == rest;
      assert Escape(s) + [QUOTE] + rest == [QUOTE] + rest;
    } else {
      var tail := Escape(s[1..]) + [QUOTE] + rest;
      assert Escape(s) + [QUOTE] + rest == EscapeUnit(s[0]) + tail;
      CharsRoundTrip(s[1..], rest);
      UnitRoundTrip(s[0], tail);
      assert s == [s[0]] + s[1..];
    }
  }

  lemma UnitRoundTrip(u: Unit, tail: JsString)
    ensures ParseChars(EscapeUnit(u) + tail) == PrependUnit(u, ParseChars(tail))
  {
    var t := EscapeUnit(u) + tail;
    if |EscapeUnit(u)| == 1 {
      assert t[1..] == tail;
    } else {
      EscapeRoundTrip(u, tail);
      assert t[1..] == EscapeUnit(u)[1..] + tail;
    }
  }

  lemma EscapeRoundTrip(u: Unit, tail: JsString)
    requires |EscapeUnit(u)| > 1
    ensures EscapeUnit(u)[0] == BACKSLASH
    ensures ParseEscape(EscapeUnit(u)[1..] + tail) == Some(Parsed(u, tail))
  {
    var e := EscapeUnit(u)[1..] + tail;
    if |EscapeUnit(u)| == 2 {
      assert e[1..] == tail;
    } else {
      var high, low := HexDigit(u / 16), HexDigit(u % 16);
      assert e == [117, 48, 48, high, low] + tail;
      HexRoundTrip(e, u / 16, u % 16, tail);
    }
  }

  lemma HexRoundTrip(e: JsString, a: int, b: int, tail: JsString)
    requires 0 <= a < 16 && 0 <= b < 16 && e == [117, 48, 48, HexDigit(a), HexDigit(b)] + tail
    ensures ParseEscape(e) == Some(Parsed(a * 16 + b, tail))
  {
    var f := e[1..];
    assert f[0] == 48 && f[1] == 48 && f[2] == HexDigit(a) && f[3] == HexDigit(b);
    assert FourHex(f) == Some(a * 16 + b);
    assert e[5..] == tail;
  }

  lemma StringRoundTrip(s: JsString, rest: JsString)
    ensures (Quoted(s) + rest)[0] == QUOTE
    ensures ParseChars((Quoted(s) + rest)[1..]) == Some(Parsed(s, rest))
  {
    CharsRoundTrip(s, rest);
    assert (Quoted(s) + rest)[1..] == Escape(s) + [QUOTE] + rest;
  }

  lemma {:induction false} NumberRunUnits(q: NumberState, s: JsString)
    requires !NumberRun(q, s).Bad?
    ensures forall i :: 0 <= i < |s| ==> IsNumberUnit(s[i])
    decreases |s|
  {
    if s != [] {
      if NumberStep(q, s[0]).Bad? { BadStaysBad(s[1..]); }
      NumberRunUnits(NumberStep(q, s[0]), s[1..]);
      assert s == [s[0]] + s[1..];
    }
  }

  lemma {:induction false} BadStaysBad(s: JsString)
    ensures NumberRun(Bad, s) == Bad
  {
    if s != [] { BadStaysBad(s[1..]); }
  }

  /** What follows a value in a text does not continue a number. */
  predicate Boundary(rest: JsString) { rest == [] || !IsNumberUnit(rest[0]) }

  lemma {:induction false} NumberLengthExact(t: JsString, rest: JsString)
    requires Boundary(rest) && forall i :: 0 <= i < |t| ==> IsNumberUnit(t[i])
    ensures NumberLength(t + rest) == |t|
  {
    if t == [] {
      assert t + rest == rest;
    } else {
      assert (t + rest)[1..] == t[1..] + rest;
      NumberLengthExact(t[1..], rest);
    }
  }

  lemma NumberRoundTrip(read: NumberReading, token: JsString, rest: JsString)
    requires IsNumberText(token) && read(token) == Some(token) && Boundary(rest)
    ensures token != [] && IsNumberUnit(token[0])
    ensures ParseWord(read, token + rest) == Some(Parsed(Number(token), rest))
  {
    NumberRunUnits(Start, token);
    NumberLengthExact(token, rest);
    assert (token + rest)[..|token|] == token && (token + rest)[|token|..] == rest;
    assert (token + rest)[0] == token[0];
  }

  lemma SkipNothing(s: JsString)
    requires s == [] || !IsSpace(s[0])
    ensures SkipSpace(s) == s
  {
  }

  /** The text of a value starts with a visible character that closes nothing. */
  predicate Opens(t: JsString) { t != [] && t[0] > 32 && t[0] != CLOSE_BRACKET && t[0] != CLOSE_BRACE }

  lemma SerializedOpens(read: NumberReading, v: Json, depth: nat)
    requires Valid(read, v) && Serialize(v, depth).Ok?
    ensures Opens(Serialize(v, depth).value)
  {
    if v.Number? { NumberRoundTrip(read, v.token, []); }
  }

  /** The text is read as the value, whatever follows it. */
  ghost predicate Reads(read: NumberReading, text: JsString, v: Json)
  {
    Opens(text) && forall tail :: Boundary(tail) ==> ParseValue(read, text + tail) == Some(Parsed(v, tail))
  }

  ghost predicate ReadsMember(read: NumberReading, text: JsString, e: Entry<Json>)
  {
    Opens(text) && forall tail :: Boundary(tail) ==> ParseMember(read, text + tail) == Some(Parsed(e, tail))
  }

  lemma ScalarReads(read: NumberReading, v: Json, depth: nat)
    requires !v.Array? && !v.Object? && Valid(read, v) && Serialize(v, depth).Ok?
    ensures Reads(read, Serialize(v, depth).value, v)
  {
    SerializedOpens(read, v, depth);
    forall rest | Boundary(rest) ensures ParseValue(read, Serialize(v, depth).value + rest) == Some(Parsed(v, rest)) {
      ScalarRoundTrip(read, v, depth, rest);
    }
  }

  lemma ScalarRoundTrip(read: NumberReading, v: Json, depth: nat, rest: JsString)
    requires !v.Array? && !v.Object? && Valid(read, v) && Serialize(v, depth).Ok? && Boundary(rest)
    ensures ParseValue(read, Serialize(v, depth).value + rest) == Some(Parsed(v, rest))
  {
    var text := Serialize(v, depth).value;
    SerializedOpens(read, v, depth);
    SkipNothing(text + rest);
    assert (text + rest)[0] == text[0];
    match v
    case String(s) => StringRoundTrip(s, rest);
    case Number(token) => NumberRoundTrip(read, token, rest);
    case _ => WordRoundTrip(read, v, depth, rest);
  }

  lemma WordRoundTrip(read: NumberReading, v: Json, depth: nat, rest: JsString)
    requires v.Null? || v.Bool?
    ensures ParseWord(read, Serialize(v, depth).value + rest) == Some(Parsed(v, rest))
  {
    var text := Serialize(v, depth).value;
    var t := text + rest;
    assert t[..|text|] == text && t[|text|..] == rest && t[0] == text[0];
  }

  lemma MemberReads(read: NumberReading, key: JsString, value: JsString, v: Json)
    requires Reads(read, value, v)
    ensures ReadsMember(read, Property(key, value), Entry(key, v))
  {
    forall tail | Boundary(tail)
      ensures ParseMember(read, Property(key, value) + tail) == Some(Parsed(Entry(key, v), tail))
    {
      MemberReadsBefore(read, key, value, v, tail);
    }
  }

  lemma MemberReadsBefore(read: NumberReading, key: JsString, value: JsString, v: Json, tail: JsString)
    requires Reads(read, value, v) && Boundary(tail)
    ensures ParseMember(read, Property(key, value) + tail) == Some(Parsed(Entry(key, v), tail))
  {
    assert Property(key, value) + tail == Quoted(key) + ([COLON] + (value + tail));
    OneMember(read, Property(key, value) + tail, key, value + tail, v, tail);
  }

  lemma OneMember(read: NumberReading, text: JsString, key: JsString, value: JsString, v: Json, rest: JsString)
    requires text == Quoted(key) + ([COLON] + value) && ParseValue(read, value) == Some(Parsed(v, rest))
    ensures ParseMember(read, text) == Some(Parsed(Entry(key, v), rest))
  {
    StringRoundTrip(key, [COLON] + value);
    SkipNothing(text);
    SkipNothing([COLON] + value);
    assert ([COLON] + value)[1..] == value;
  }

  // One step of each list parser, on texts whose parts are already understood.

  lemma LastItem(read: NumberReading, text: JsString, v: Json, rest: JsString)
    requires ParseValue(read, text) == Some(Parsed(v, [CLOSE_BRACKET] + rest))
    ensures ParseItems(read, text) == Some(Parsed([v], rest))
  {
    assert ([CLOSE_BRACKET] + rest)[1..] == rest;
  }

  lemma NextItem(read: NumberReading, text: JsString, v: Json, more: JsString, q: Parsed<seq<Json>>)
    requires ParseValue(read, text) == Some(Parsed(v, [COMMA] + more)) && ParseItems(read, more) == Some(q)
    ensures ParseItems(read, text) == Some(Parsed([v] + q.value, q.rest))
  {
    assert ([COMMA] + more)[1..] == more;
  }

  lemma LastMember(read: NumberReading, text: JsString, e: Entry<Json>, rest: JsString)
    requires ParseMember(read, text) == Some(Parsed(e, [CLOSE_BRACE] + rest))
    ensures ParseMembers(read, text) == Some(Parsed([e], rest))
  {
    assert ([CLOSE_BRACE] + rest)[1..] == rest;
  }

  lemma NextMember(read: NumberReading, text: JsString, e: Entry<Json>, more: JsString, q: Parsed<seq<Entry<Json>>>)
    requires ParseMember(read, text) == Some(Parsed(e, [COMMA] + more)) && ParseMembers(read, more) == Some(q)
    requires forall i :: 0 <= i < |q.value| ==> q.value[i].key != e.key
    ensures ParseMembers(read, text) == Some(Parsed([e] + q.value, q.rest))
  {
    assert ([COMMA] + more)[1..] == more;
  }

  lemma WholeArray(read: NumberReading, text: JsString, body: JsString, items: seq<Json>, rest: JsString)
    requires text == [OPEN_BRACKET] + body
    requires items == [] ==> body == [CLOSE_BRACKET] + rest
    requires items != [] ==> Opens(body) && ParseItems(read, body) == Some(Parsed(items, rest))
    ensures ParseValue(read, text) == Some(Parsed(Array(items), rest))
  {
    SkipNothing(text);
    SkipNothing(body);
    assert text[1..] == body && body[1..] == if items == [] then rest else body[1..];
  }

  lemma WholeObject(read: NumberReading, text: JsString, body: JsString, fields: seq<Entry<Json>>, rest: JsString)
    requires text == [OPEN_BRACE] + body
    requires fields == [] ==> body == [CLOSE_BRACE] + rest
    requires fields != [] ==> Opens(body) && ParseMembers(read, body) == Some(Parsed(fields, rest))
    ensures ParseValue(read, text) == Some(Parsed(Object(fields), rest))
  {
    SkipNothing(text);
    SkipNothing(body);
    assert text[1..] == body && body[1..] == if fields == [] then rest else body[1..];
  }

  lemma JoinTail(parts: seq<JsString>, tail: JsString)
    requires parts != []
    ensures |parts| == 1 ==> Join(parts) + tail == parts[0] + tail
    ensures |parts| > 1 ==> Join(parts) + tail == parts[0] + ([COMMA] + (Join(parts[1..]) + tail))
    ensures Opens(parts[0]) ==> Opens(Join(parts) + tail)
  {
  }

  lemma {:induction false} ItemsRead(read: NumberReading, parts: seq<JsString>, items: seq<Json>, rest: JsString)
    requires |parts| == |items| > 0 && forall i :: 0 <= i < |items| ==> Reads(read, parts[i], items[i])
    ensures Opens(Join(parts) + ([CLOSE_BRACKET] + rest))
    ensures ParseItems(read, Join(parts) + ([CLOSE_BRACKET] + rest)) == Some(Parsed(items, rest))
  {
    var tail := [CLOSE_BRACKET] + rest;
    var v := items[0];
    JoinTail(parts, tail);
    assert Reads(read, parts[0], v);
    if |parts| == 1 {
      assert items == [v];
      LastItem(read, parts[0] + tail, v, rest);
    } else {
      var more := Join(parts[1..]) + tail;
      ItemsRead(read, parts[1..], items[1..], rest);
      NextItem(read, parts[0] + ([COMMA] + more), v, more, Parsed(items[1..], rest));
      assert items == [v] + items[1..];
    }
  }

  lemma DistinctTail(fields: seq<Entry<Json>>)
    requires fields != [] && DistinctKeys(fields)
    ensures DistinctKeys(fields[1..])
    ensures forall i :: 0 <= i < |fields[1..]| ==> fields[1..][i].key != fields[0].key
    ensures fields == [fields[0]] + fields[1..]
  {
  }

  lemma {:induction false} MembersRead(read: NumberReading, parts: seq<JsString>, fields: seq<Entry<Json>>,
                                       rest: JsString)
    requires |parts| == |fields| > 0 && forall i :: 0 <= i < |fields| ==> ReadsMember(read, parts[i], fields[i])
    requires DistinctKeys(fields)
    ensures Opens(Join(parts) + ([CLOSE_BRACE] + rest))
    ensures ParseMembers(read, Join(parts) + ([CLOSE_BRACE] + rest)) == Some(Parsed(fields, rest))
  {
    var tail := [CLOSE_BRACE] + rest;
    var e, others := fields[0], fields[1..];
    JoinTail(parts, tail);
    DistinctTail(fields);
    assert ReadsMember(read, parts[0], e);
    if |parts| == 1 {
      assert fields == [e];
      LastMember(read, parts[0] + tail, e, rest);
    } else {
      var more := Join(parts[1..]) + tail;
      MembersRead(read, parts[1..], others, rest);
      NextMember(read, parts[0] + ([COMMA] + more), e, more, Parsed(others, rest));
    }
  }

  lemma ArrayReadsBefore(read: NumberReading, parts: seq<JsString>, items: seq<Json>, rest: JsString)
    requires |parts| == |items| && forall i :: 0 <= i < |items| ==> Reads(read, parts[i], items[i])
    ensures ParseValue(read, [OPEN_BRACKET] + Join(parts) + [CLOSE_BRACKET] + rest) == Some(Parsed(Array(items), rest))
  {
    var text := [OPEN_BRACKET] + Join(parts) + [CLOSE_BRACKET] + rest;
    var body := Join(parts) + ([CLOSE_BRACKET] + rest);
    assert text == [OPEN_BRACKET] + body;
    if items == [] {
      assert Join(parts) == [];
    } else {
      ItemsRead(read, parts, items, rest);
    }
    WholeArray(read, text, body, items, rest);
  }

  lemma ObjectReadsBefore(read: NumberReading, parts: seq<JsString>, fields: seq<Entry<Json>>, rest: JsString)
    requires |parts| == |fields| && forall i :: 0 <= i < |fields| ==> ReadsMember(read, parts[i], fields[i])
    requires DistinctKeys(fields)
    ensures ParseValue(read, [OPEN_BRACE] + Join(parts) + [CLOSE_BRACE] + rest) == Some(Parsed(Object(fields), rest))
  {
    var text := [OPEN_BRACE] + Join(parts) + [CLOSE_BRACE] + rest;
    var body := Join(parts) + ([CLOSE_BRACE] + rest);
    assert text == [OPEN_BRACE] + body;
    if fields == [] {
      assert Join(parts) == [];
    } else {
      MembersRead(read, parts, fields, rest);
    }
    WholeObject(read, text, body, fields, rest);
  }

  lemma ReadsIf(read: NumberReading, text: JsString, v: Json)
    requires Opens(text)
    requires forall tail :: Boundary(tail) ==> ParseValue(read, text + tail) == Some(Parsed(v, tail))
    ensures Reads(read, text, v)
  {
  }

  lemma ArrayReads(read: NumberReading, parts: seq<JsString>, items: seq<Json>)
    requires |parts| == |items| && forall i :: 0 <= i < |items| ==> Reads(read, parts[i], items[i])
    ensures Reads(read, [OPEN_BRACKET] + Join(parts) + [CLOSE_BRACKET], Array(items))
  {
    var text := [OPEN_BRACKET] + Join(parts) + [CLOSE_BRACKET];
    forall rest | Boundary(rest) ensures ParseValue(read, text + rest) == Some(Parsed(Array(items), rest)) {
      ArrayReadsBefore(read, parts, items, rest);
    }
    ReadsIf(read, text, Array(items));
  }

  lemma ObjectReads(read: NumberReading, parts: seq<JsString>, fields: seq<Entry<Json>>)
    requires |parts| == |fields| && forall i :: 0 <= i < |fields| ==> ReadsMember(read, parts[i], fields[i])
    requires DistinctKeys(fields)
    ensures Reads(read, [OPEN_BRACE] + Join(parts) + [CLOSE_BRACE], Object(fields))
  {
    var text := [OPEN_BRACE] + Join(parts) + [CLOSE_BRACE];
    forall rest | Boundary(rest) ensures ParseValue(read, text + rest) == Some(Parsed(Object(fields), rest)) {
      ObjectReadsBefore(read, parts, fields, rest);
    }
    ReadsIf(read, text, Object(fields));
  }

  /** The text of a value reads as the value, its objects in key order. */
  lemma {:induction false} ValueReads(read: NumberReading, v: Json, depth: nat)
    requires Valid(read, v) && Serialize(v, depth).Ok?
    ensures Reads(read, Serialize(v, depth).value, Normal(v))
    decreases v, 2
  {
    if v.Array? {
      ItemsReadBack(read, v, v.items, depth);
    } else if v.Object? {
      FieldsReadBack(read, v, v.fields, depth);
    } else {
      ScalarReads(read, v, depth);
    }
  }

  lemma {:induction false} ItemsReadBack(read: NumberReading, v: Json, items: seq<Json>, depth: nat)
    requires v == Array(items) && Valid(read, v) && Serialize(v, depth).Ok?
    ensures Reads(read, Serialize(v, depth).value, Normal(v))
    decreases v, 1
  {
    SerializedArray(v, items, depth);
    var parts := SerializeItems(v, items, depth + 1).value;
    ItemParts(v, items, depth + 1);
    forall i | 0 <= i < |items| ensures Reads(read, parts[i], NormalItems(v, items)[i]) {
      ValueReads(read, items[i], depth + 1);
    }
    ArrayReads(read, parts, NormalItems(v, items));
  }

  lemma {:induction false} FieldsReadBack(read: NumberReading, v: Json, fields: seq<Entry<Json>>, depth: nat)
    requires v == Object(fields) && Valid(read, v) && Serialize(v, depth).Ok?
    ensures Reads(read, Serialize(v, depth).value, Normal(v))
    decreases v, 1
  {
    SerializedObject(v, fields, depth);
    SortIsSortedForm(fields);
    FieldsRead(read, v, fields, Sort(fields), depth + 1);
  }

  lemma {:induction false} FieldsRead(read: NumberReading, v: Json, fields: seq<Entry<Json>>, sorted: seq<Entry<Json>>,
                                      depth: nat)
    requires v == Object(fields) && Valid(read, v) && SortedForm(sorted, fields)
    requires forall i :: 0 <= i < |sorted| ==> sorted[i].value < v
    requires SerializeFields(v, sorted, depth).Ok?
    ensures Reads(read, [OPEN_BRACE] + Join(SerializeFields(v, sorted, depth).value) + [CLOSE_BRACE],
                  Object(NormalFields(v, sorted)))
    decreases v, 0
  {
    var parts := SerializeFields(v, sorted, depth).value;
    var normal := NormalFields(v, sorted);
    FieldParts(v, sorted, depth);
    SortedFormKeeps(sorted, fields);
    forall i | 0 <= i < |sorted| ensures ReadsMember(read, parts[i], normal[i]) {
      ValueReads(read, sorted[i].value, depth);
      MemberReads(read, sorted[i].key, Serialize(sorted[i].value, depth).value, Normal(sorted[i].value));
    }
    ObjectReads(read, parts, normal);
  }

  /** `JSON.parse` undoes the serializer. */
  lemma ParseSerialized(read: NumberReading, v: Json)
    requires Valid(read, v) && Serialize(v, 0).Ok?
    ensures ParseText(read, Serialize(v, 0).value) == Some(Normal(v))
  {
    ValueReads(read, v, 0);
    assert Serialize(v, 0).value + [] == Serialize(v, 0).value;
    assert Boundary([]);
  }

  // ---------------------------------------------------------------- one text per value

  /** Equality of JSON values, objects compared as finite maps. */
  ghost predicate Same(v: Json, w: Json)
    decreases v, 1
  {
    match v
    case Array(items) => w.Array? && SameItems(v, items, w.items)
    case Object(fields) => w.Object? && SameFields(v, fields, w.fields)
    case _ => v == w
  }

  ghost predicate SameItems(owner: Json, a: seq<Json>, b: seq<Json>)
    requires owner == Array(a)
    decreases owner, 0
  {
    |a| == |b| && forall i :: 0 <= i < |a| ==> Same(a[i], b[i])
  }

  ghost predicate SameFields(owner: Json, f: seq<Entry<Json>>, g: seq<Entry<Json>>)
    requires owner == Object(f)
    decreases owner, 0
  {
    Keys(f) == Keys(g) &&
    forall i, j :: 0 <= i < |f| && 0 <= j < |g| && f[i].key == g[j].key ==> Same(f[i].value, g[j].value)
  }

  lemma {:induction false} SameIffNormalEqual(read: NumberReading, v: Json, w: Json)
    requires Valid(read, v) && Valid(read, w)
    ensures Same(v, w) <==> Normal(v) == Normal(w)
    decreases v, 1
  {
    match v
    case Array(items) =>
      if w.Array? { ItemsSameIffNormalEqual(read, v, items, w, w.items); }
    case Object(fields) =>
      if w.Object? { FieldsSameIffNormalEqual(read, v, fields, w, w.fields); }
    case _ =>
  }

  lemma {:induction false} ItemsSameIffNormalEqual(read: NumberReading, v: Json, a: seq<Json>, w: Json, b: seq<Json>)
    requires v == Array(a) && w == Array(b) && Valid(read, v) && Valid(read, w)
    ensures SameItems(v, a, b) <==> NormalItems(v, a) == NormalItems(w, b)
    decreases v, 0
  {
    if |a| == |b| {
      forall i | 0 <= i < |a| ensures Same(a[i], b[i]) <==> NormalItems(v, a)[i] == NormalItems(w, b)[i] {
        SameIffNormalEqual(read, a[i], b[i]);
      }
    } else {
      assert |NormalItems(v, a)| != |NormalItems(w, b)|;
    }
  }

  lemma {:induction false} FieldsSameIffNormalEqual(read: NumberReading, v: Json, f: seq<Entry<Json>>, w: Json,
                                                    g: seq<Entry<Json>>)
    requires v == Object(f) && w == Object(g) && Valid(read, v) && Valid(read, w)
    ensures SameFields(v, f, g) <==> Normal(v) == Normal(w)
    decreases v, 0, 1
  {
    SortedFieldsSmaller(v, f);
    SortedFieldsSmaller(w, g);
    SortIsSortedForm(f);
    SortIsSortedForm(g);
    SortedFieldsSame(read, v, f, Sort(f), w, g, Sort(g));
  }

  lemma {:induction false} SortedFieldsSame(read: NumberReading, v: Json, f: seq<Entry<Json>>, a: seq<Entry<Json>>,
                                            w: Json, g: seq<Entry<Json>>, b: seq<Entry<Json>>)
    requires v == Object(f) && w == Object(g) && Valid(read, v) && Valid(read, w)
    requires SortedForm(a, f) && SortedForm(b, g)
    requires forall i :: 0 <= i < |a| ==> a[i].value < v
    requires forall i :: 0 <= i < |b| ==> b[i].value < w
    ensures SameFields(v, f, g) <==> NormalFields(v, a) == NormalFields(w, b)
    decreases v, 0, 0
  {
    var x, y := NormalFields(v, a), NormalFields(w, b);
    SortedFormKeeps(a, f);
    SortedFormKeeps(b, g);
    if Keys(f) == Keys(g) {
      SortedFormsAgree(a, f, b, g);
      forall i | 0 <= i < |a| ensures Same(a[i].value, b[i].value) <==> x[i] == y[i] {
        SameIffNormalEqual(read, a[i].value, b[i].value);
      }
      SameAlongSorted(v, f, a, g, b);
    } else if x == y {
      SameKeys(v, a);
      SameKeys(w, b);
    }
  }

  lemma SameKeys(owner: Json, fields: seq<Entry<Json>>)
    requires forall i :: 0 <= i < |fields| ==> fields[i].value < owner
    ensures Keys(NormalFields(owner, fields)) == Keys(fields)
  {
    var n := NormalFields(owner, fields);
    forall k ensures k in Keys(n) <==> k in Keys(fields) {
      if k in Keys(n) {
        var i :| 0 <= i < |n| && n[i].key == k;
        assert fields[i] in fields && fields[i].key == k;
      }
      if k in Keys(fields) {
        var i :| 0 <= i < |fields| && fields[i].key == k;
        assert n[i] in n && n[i].key == k;
      }
    }
  }

  lemma SameAlongSorted(owner: Json, f: seq<Entry<Json>>, a: seq<Entry<Json>>, g: seq<Entry<Json>>, b: seq<Entry<Json>>)
    requires owner == Object(f) && DistinctKeys(a) && Keys(f) == Keys(g)
    requires multiset(a) == multiset(f) && multiset(b) == multiset(g)
    requires |a| == |b| && forall i :: 0 <= i < |a| ==> a[i].key == b[i].key
    ensures SameFields(owner, f, g) <==> forall i :: 0 <= i < |a| ==> Same(a[i].value, b[i].value)
  {
    if SameFields(owner, f, g) {
      forall m | 0 <= m < |a| ensures Same(a[m].value, b[m].value) {
        var i := PositionOf(a, f, m);
        var j := PositionOf(b, g, m);
      }
    }
    if forall i :: 0 <= i < |a| ==> Same(a[i].value, b[i].value) {
      forall i, j | 0 <= i < |f| && 0 <= j < |g| && f[i].key == g[j].key ensures Same(f[i].value, g[j].value) {
        var m := PositionOf(f, a, i);
        var n := PositionOf(g, b, j);
        assert a[m].key == a[n].key;
      }
    }
  }

  lemma PositionOf(a: seq<Entry<Json>>, b: seq<Entry<Json>>, i: nat) returns (j: nat)
    requires i < |a| && multiset(a) == multiset(b)
    ensures j < |b| && b[j] == a[i]
  {
    assert a[i] in multiset(b);
    j :| j < |b| && b[j] == a[i];
  }

  lemma {:induction false} NormalDeterminesText(v: Json, w: Json, depth: nat)
    requires Normal(v) == Normal(w) && Serialize(v, depth).Ok? && Serialize(w, depth).Ok?
    ensures Serialize(v, depth) == Serialize(w, depth)
    decreases v, 1
  {
    if v.Array? && w.Array? {
      SerializedArray(v, v.items, depth);
      SerializedArray(w, w.items, depth);
      ItemsDetermineText(v, v.items, w, w.items, depth + 1);
    } else if v.Object? && w.Object? {
      SerializedObject(v, v.fields, depth);
      SerializedObject(w, w.fields, depth);
      FieldsDetermineText(v, Sort(v.fields), w, Sort(w.fields), depth + 1);
    }
  }

  lemma {:induction false} ItemsDetermineText(v: Json, f: seq<Json>, w: Json, g: seq<Json>, depth: nat)
    requires forall i :: 0 <= i < |f| ==> f[i] < v
    requires forall i :: 0 <= i < |g| ==> g[i] < w
    requires NormalItems(v, f) == NormalItems(w, g)
    requires SerializeItems(v, f, depth).Ok? && SerializeItems(w, g, depth).Ok?
    ensures SerializeItems(v, f, depth) == SerializeItems(w, g, depth)
    decreases v, 0
  {
    var a, b := SerializeItems(v, f, depth).value, SerializeItems(w, g, depth).value;
    ItemParts(v, f, depth);
    ItemParts(w, g, depth);
    assert |f| == |NormalItems(v, f)| == |NormalItems(w, g)| == |g|;
    forall i | 0 <= i < |a| ensures a[i] == b[i] {
      assert NormalItems(v, f)[i] == NormalItems(w, g)[i];
      NormalDeterminesText(f[i], g[i], depth);
    }
    assert a == b;
  }

  lemma {:induction false} FieldsDetermineText(v: Json, f: seq<Entry<Json>>, w: Json, g: seq<Entry<Json>>, depth: nat)
    requires forall i :: 0 <= i < |f| ==> f[i].value < v
    requires forall i :: 0 <= i < |g| ==> g[i].value < w
    requires NormalFields(v, f) == NormalFields(w, g)
    requires SerializeFields(v, f, depth).Ok? && SerializeFields(w, g, depth).Ok?
    ensures SerializeFields(v, f, depth) == SerializeFields(w, g, depth)
    decreases v, 0
  {
    var a, b := SerializeFields(v, f, depth).value, SerializeFields(w, g, depth).value;
    FieldParts(v, f, depth);
    FieldParts(w, g, depth);
    assert |f| == |NormalFields(v, f)| == |NormalFields(w, g)| == |g|;
    forall i | 0 <= i < |a| ensures a[i] == b[i] {
      assert NormalFields(v, f)[i] == NormalFields(w, g)[i];
      NormalDeterminesText(f[i].value, g[i].value, depth);
    }
    assert a == b;
  }

  /** Two serializable values have one text exactly when they are the same JSON value. */
  lemma CanonicalForm(read: NumberReading, v: Json, w: Json)
    requires Valid(read, v) && Valid(read, w) && Serialize(v, 0).Ok? && Serialize(w, 0).Ok?
    ensures Serialize(v, 0) == Serialize(w, 0) <==> Same(v, w)
  {
    SameIffNormalEqual(read, v, w);
    ParseSerialized(read, v);
    ParseSerialized(read, w);
    if Same(v, w) { NormalDeterminesText(v, w, 0); }
  }

  // ---------------------------------------------------------------- the parsed value is the value

  /** Key order is all that `Normal` changes, and it does so once. */
  lemma {:induction false} NormalOnce(read: NumberReading, v: Json)
    requires Valid(read, v)
    ensures Valid(read, Normal(v)) && Normal(Normal(v)) == Normal(v)
    decreases v, 1
  {
    if v.Array? {
      var n := NormalItems(v, v.items);
      forall i | 0 <= i < |n| ensures Valid(read, n[i]) && Normal(n[i]) == n[i] {
        NormalOnce(read, v.items[i]);
      }
      assert NormalItems(Array(n), n) == n;
    } else if v.Object? {
      SortedFieldsSmaller(v, v.fields);
      SortIsSortedForm(v.fields);
      NormalFieldsOnce(read, v, v.fields, Sort(v.fields));
    }
  }

  lemma {:induction false} NormalFieldsOnce(read: NumberReading, v: Json, f: seq<Entry<Json>>, sorted: seq<Entry<Json>>)
    requires v == Object(f) && Valid(read, v) && SortedForm(sorted, f)
    requires forall i :: 0 <= i < |sorted| ==> sorted[i].value < v
    ensures var n := Object(NormalFields(v, sorted)); Valid(read, n) && Normal(n) == n
    decreases v, 0
  {
    var n := NormalFields(v, sorted);
    SortedFormKeeps(sorted, f);
    forall i | 0 <= i < |n| ensures Valid(read, n[i].value) && Normal(n[i].value) == n[i].value {
      NormalOnce(read, sorted[i].value);
    }
    assert Ascending(n);
    AscendingDistinct(n);
    SortOfAscending(n);
    SortedFieldsSmaller(Object(n), n);
    assert NormalFields(Object(n), n) == n;
  }

  lemma NormalIsSame(read: NumberReading, v: Json)
    requires Valid(read, v)
    ensures Same(v, Normal(v))
  {
    NormalOnce(read, v);
    SameIffNormalEqual(read, v, Normal(v));
  }

  lemma {:induction false} NormalPrintable(v: Json, depth: nat)
    requires Printable(v, depth)
    ensures Printable(Normal(v), depth)
    decreases v, 1
  {
    if v.Array? {
      NormalItemsPrintable(v, v.items, depth);
    } else if v.Object? {
      SortedFieldsSmaller(v, v.fields);
      NormalFieldsPrintable(v, v.fields, Sort(v.fields), depth);
    }
  }

  lemma {:induction false} NormalItemsPrintable(v: Json, items: seq<Json>, depth: nat)
    requires v == Array(items) && Printable(v, depth)
    ensures Printable(Array(NormalItems(v, items)), depth)
    decreases v, 0
  {
    var n := NormalItems(v, items);
    forall i | 0 <= i < |n| ensures Printable(n[i], depth + 1) {
      assert items[i] in items;
      NormalPrintable(items[i], depth + 1);
    }
  }

  lemma {:induction false} NormalFieldsPrintable(v: Json, f: seq<Entry<Json>>, sorted: seq<Entry<Json>>, depth: nat)
    requires v == Object(f) && Printable(v, depth) && multiset(sorted) == multiset(f)
    requires forall i :: 0 <= i < |sorted| ==> sorted[i].value < v
    ensures Printable(Object(NormalFields(v, sorted)), depth)
    decreases v, 0
  {
    var n := NormalFields(v, sorted);
    forall i | 0 <= i < |n| ensures WellFormed(n[i].key) && Printable(n[i].value, depth + 1) {
      var j := PositionOf(sorted, f, i);
      assert f[j] in f;
      NormalPrintable(sorted[i].value, depth + 1);
    }
  }

  // ---------------------------------------------------------------- the text as bytes

  /** Well-formed text without control characters: UTF-8 carries it exactly. */
  predicate Plain(s: JsString) { WellFormed(s) && forall i :: 0 <= i < |s| ==> s[i] >= 0x20 }

  lemma PlainConcat(a: JsString, b: JsString)
    requires Plain(a) && Plain(b)
    ensures Plain(a + b)
  {
    if a != [] { WellFormedEnds(a); }
    WellFormedConcat(a, b);
  }

  lemma {:induction false} PlainUnits(s: JsString)
    requires forall i :: 0 <= i < |s| ==> 0x20 <= s[i] && !IsHigh(s[i]) && !IsLow(s[i])
    ensures Plain(s)
  {
    if s != [] {
      PlainUnits(s[1..]);
      WellFormedStep(s);
    }
  }

  lemma EscapePair(s: JsString)
    requires StartsWithPair(s)
    ensures Escape(s) == [s[0], s[1]] + Escape(s[2..])
  {
    assert s[1..][0] == s[1] && s[1..][1..] == s[2..];
    assert Escape(s[1..]) == [s[1]] + Escape(s[2..]);
  }

  lemma {:induction false} EscapePlain(s: JsString)
    requires WellFormed(s)
    ensures Plain(Escape(s))
    decreases |s|
  {
    if s != [] {
      WellFormedStep(s);
      if StartsWithPair(s) {
        EscapePair(s);
        EscapePlain(s[2..]);
        PairPlain(s[0], s[1]);
        PlainConcat([s[0], s[1]], Escape(s[2..]));
      } else {
        EscapePlain(s[1..]);
        PlainUnits(EscapeUnit(s[0]));
        PlainConcat(EscapeUnit(s[0]), Escape(s[1..]));
      }
    }
  }

  lemma PairPlain(high: Unit, low: Unit)
    requires IsHigh(high) && IsLow(low)
    ensures Plain([high, low])
  {
    assert [high, low][2..] == [];
    WellFormedStep([high, low]);
  }

  lemma QuotedPlain(s: JsString)
    requires WellFormed(s)
    ensures Plain(Quoted(s))
  {
    EscapePlain(s);
    PlainUnits([QUOTE]);
    PlainConcat([QUOTE], Escape(s));
    PlainConcat([QUOTE] + Escape(s), [QUOTE]);
  }

  lemma {:induction false} JoinPlain(parts: seq<JsString>)
    requires forall i :: 0 <= i < |parts| ==> Plain(parts[i])
    ensures Plain(Join(parts))
  {
    if |parts| > 1 {
      JoinPlain(parts[1..]);
      PlainUnits([COMMA]);
      PlainConcat(parts[0], [COMMA]);
      PlainConcat(parts[0] + [COMMA], Join(parts[1..]));
    }
  }

  lemma ContainerPlain(open: Unit, parts: seq<JsString>, close: Unit)
    requires open in {OPEN_BRACE, OPEN_BRACKET} && close in {CLOSE_BRACE, CLOSE_BRACKET}
    requires forall i :: 0 <= i < |parts| ==> Plain(parts[i])
    ensures Plain([open] + Join(parts) + [close])
  {
    JoinPlain(parts);
    PlainUnits([open]);
    PlainUnits([close]);
    PlainConcat([open], Join(parts));
    PlainConcat([open] + Join(parts), [close]);
  }

  lemma PropertyPlain(key: JsString, value: JsString)
    requires WellFormed(key) && Plain(value)
    ensures Plain(Property(key, value))
  {
    QuotedPlain(key);
    PlainUnits([COLON]);
    PlainConcat(Quoted(key), [COLON]);
    PlainConcat(Quoted(key) + [COLON], value);
  }

  lemma {:induction false} TextPlain(read: NumberReading, v: Json, depth: nat)
    requires Valid(read, v) && Serialize(v, depth).Ok?
    ensures Plain(Serialize(v, depth).value)
    decreases v, 1
  {
    if v.Array? {
      ItemsPlain(read, v, v.items, depth);
    } else if v.Object? {
      SerializedObject(v, v.fields, depth);
      FieldsPlain(read, v, v.fields, Sort(v.fields), depth + 1);
      ContainerPlain(OPEN_BRACE, SerializeFields(v, Sort(v.fields), depth + 1).value, CLOSE_BRACE);
    } else if v.Number? {
      NumberRunUnits(Start, v.token);
      PlainUnits(v.token);
    } else if v.String? {
      QuotedPlain(v.s);
    } else {
      PlainUnits(Serialize(v, depth).value);
    }
  }

  lemma {:induction false} ItemsPlain(read: NumberReading, v: Json, items: seq<Json>, depth: nat)
    requires v == Array(items) && Valid(read, v) && Serialize(v, depth).Ok?
    ensures Plain(Serialize(v, depth).value)
    decreases v, 0
  {
    SerializedArray(v, items, depth);
    var parts := SerializeItems(v, items, depth + 1).value;
    ItemParts(v, items, depth + 1);
    forall i | 0 <= i < |parts| ensures Plain(parts[i]) {
      TextPlain(read, items[i], depth + 1);
    }
    ContainerPlain(OPEN_BRACKET, parts, CLOSE_BRACKET);
  }

  lemma {:induction false} FieldsPlain(read: NumberReading, v: Json, f: seq<Entry<Json>>, sorted: seq<Entry<Json>>,
                                       depth: nat)
    requires v == Object(f) && Valid(read, v) && KeysWellFormed(f) && multiset(sorted) == multiset(f)
    requires forall i :: 0 <= i < |sorted| ==> sorted[i].value < v
    requires SerializeFields(v, sorted, depth).Ok?
    ensures var parts := SerializeFields(v, sorted, depth).value; forall i :: 0 <= i < |parts| ==> Plain(parts[i])
    decreases v, 0
  {
    var parts := SerializeFields(v, sorted, depth).value;
    FieldParts(v, sorted, depth);
    forall i | 0 <= i < |parts| ensures Plain(parts[i]) {
      var j := PositionOf(sorted, f, i);
      assert f[j] in f;
      TextPlain(read, sorted[i].value, depth);
      PropertyPlain(sorted[i].key, Serialize(sorted[i].value, depth).value);
    }
  }
}
