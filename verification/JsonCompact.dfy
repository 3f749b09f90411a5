/**
 The text that `serializeCanonicalJson` of `src/base/serialization/canonical-json.ts` writes is as short as its parts
 allow: strings have the shortest escapes, and arrays and objects hold nothing but their parts and separators.
 */
module JsonCompact {
  import opened Wrappers
  import opened Utf8
  import opened CodePointOrder
  import opened CanonicalJson
  import opened JsonText

  // ---------------------------------------------------------------- escapes

  /** Between quotes this text is read as the one code unit. */
  predicate Writes(e: JsString, u: Unit) { ParseChars(e + [QUOTE]) == Some(Parsed([u], [])) }

  predicate HasUpperCase(e: JsString) { exists i :: 0 <= i < |e| && 65 <= e[i] <= 90 }

  lemma NothingRead(s: JsString)
    requires ParseChars(s) == Some(Parsed([], []))
    ensures s == [QUOTE]
  {
    assert s == [s[0]] + s[1..];
  }

  lemma PrependedOnce(x: Unit, r: Option<Parsed<JsString>>, u: Unit)
    ensures PrependUnit(x, r) == Some(Parsed([u], [])) <==> x == u && r == Some(Parsed([], []))
  {
    if r.Some? {
      assert ([x] + r.value.value)[0] == x;
      if r.value.value == [] { assert [x] + r.value.value == [x]; }
    }
  }

  lemma OneUnit(u: Unit)
    requires u >= 0x20 && u != QUOTE && u != BACKSLASH
    ensures Writes([u], u)
  {
    assert ([u] + [QUOTE])[1..] == [QUOTE] && [QUOTE][1..] == [];
    PrependedOnce(u, ParseChars([QUOTE]), u);
    assert ParseChars([QUOTE]) == Some(Parsed([], []));
  }

  lemma AfterEscape(e: JsString, u: Unit)
    requires |e| >= 2 && e[0] == BACKSLASH && ParseEscape(e[1..] + [QUOTE]) == Some(Parsed(u, [QUOTE]))
    ensures Writes(e, u)
  {
    assert (e + [QUOTE])[1..] == e[1..] + [QUOTE];
    assert ParseChars([QUOTE]) == Some(Parsed([], [])) by { assert [QUOTE][1..] == []; }
    PrependedOnce(u, ParseChars([QUOTE]), u);
  }

  lemma ShortEscapes(u: Unit)
    requires u in {QUOTE, BACKSLASH, 8, 9, 10, 12, 13}
    ensures |EscapeUnit(u)| == 2 && Writes(EscapeUnit(u), u)
  {
    var e := EscapeUnit(u);
    assert (e[1..] + [QUOTE])[1..] == [QUOTE];
    AfterEscape(e, u);
  }

  lemma LongEscapes(u: Unit)
    requires u < 0x20 && u !in {8, 9, 10, 12, 13}
    ensures |EscapeUnit(u)| == 6 && Writes(EscapeUnit(u), u)
  {
    var e := EscapeUnit(u);
    var s := e[1..] + [QUOTE];
    assert s[1..] == e[2..] + [QUOTE] && s[5..] == [QUOTE];
    assert FourHex(s[1..]) == Some(u as int);
    AfterEscape(e, u);
  }

  /** What the serializer writes for a code unit is read as it. */
  lemma EscapeWrites(u: Unit)
    ensures Writes(EscapeUnit(u), u) && !(|EscapeUnit(u)| > 1 && HasUpperCase(EscapeUnit(u)))
  {
    if u in {QUOTE, BACKSLASH, 8, 9, 10, 12, 13} {
      ShortEscapes(u);
    } else if u < 0x20 {
      LongEscapes(u);
    } else {
      OneUnit(u);
    }
  }

  /** The texts that are read as one code unit: itself, a short escape or four hex digits. */
  lemma WritesOne(e: JsString, u: Unit)
    requires Writes(e, u)
    ensures e == [u] || (|e| == 2 && e[0] == BACKSLASH) || (|e| == 6 && e[0] == BACKSLASH && e[1] == 117)
    ensures e == [u] ==> u >= 0x20 && u != QUOTE && u != BACKSLASH
    ensures |e| == 2 ==> ParseEscape([e[1], QUOTE]) == Some(Parsed(u, [QUOTE]))
    ensures |e| == 6 ==> FourHex(e[2..] + [QUOTE]) == Some(u as int)
  {
    var s := e + [QUOTE];
    if s[0] != BACKSLASH {
      PrependedOnce(s[0], ParseChars(s[1..]), u);
      NothingRead(s[1..]);
      assert s == [s[0]] + s[1..] && e == s[..|s| - 1];
    } else {
      var read := ParseEscape(s[1..]).value;
      PrependedOnce(read.value, ParseChars(read.rest), u);
      NothingRead(read.rest);
      EscapeEnds(s[1..]);
      if |e| == 2 { assert s[1..] == [e[1], QUOTE]; }
      if |e| == 6 { assert s[1..][1..] == e[2..] + [QUOTE]; }
    }
  }

  lemma EscapeEnds(s: JsString)
    requires ParseEscape(s).Some? && ParseEscape(s).value.rest == [QUOTE]
    ensures |s| == 2 || (|s| == 6 && s[0] == 117)
    ensures s[|s| - 1] == QUOTE
  {
    if s[0] == 117 && ParseEscape(s).value.rest == s[5..] {
      assert s[5..][0] == s[5];
    } else {
      assert s[1..][0] == s[1];
    }
  }

  /** The serializer's text for a code unit is the only shortest one without an upper-case digit. */
  lemma EscapeIsShortest(e: JsString, u: Unit)
    requires Writes(e, u)
    ensures |EscapeUnit(u)| <= |e|
    ensures |EscapeUnit(u)| == |e| && !(|e| > 1 && HasUpperCase(e)) ==> e == EscapeUnit(u)
  {
    WritesOne(e, u);
    if |e| == 2 { ShortIsUnique(e, u); }
    if |e| == 6 && |EscapeUnit(u)| == 6 && !HasUpperCase(e) { LongIsUnique(e, u); }
  }

  lemma ShortIsUnique(e: JsString, u: Unit)
    requires |e| == 2 && e[0] == BACKSLASH && ParseEscape([e[1], QUOTE]) == Some(Parsed(u, [QUOTE]))
    ensures |EscapeUnit(u)| <= 2 && (|EscapeUnit(u)| == 2 ==> e == EscapeUnit(u))
  {
    assert [e[1], QUOTE][1..] == [QUOTE];
  }

  lemma LongIsUnique(e: JsString, u: Unit)
    requires |e| == 6 && e[0] == BACKSLASH && e[1] == 117 && FourHex(e[2..] + [QUOTE]) == Some(u as int)
    requires |EscapeUnit(u)| == 6 && !HasUpperCase(e)
    ensures e == EscapeUnit(u)
  {
    var s := e[2..] + [QUOTE];
    assert s[0] == e[2] && s[1] == e[3] && s[2] == e[4] && s[3] == e[5];
    assert !(65 <= e[2] <= 90) && !(65 <= e[3] <= 90) && !(65 <= e[4] <= 90) && !(65 <= e[5] <= 90);
    var a, b := TwoHex(e[2], e[3]).value, TwoHex(e[4], e[5]).value;
    assert a * 0x100 + b == u;
    LowerPair(e[2], e[3]);
    LowerPair(e[4], e[5]);
  }

  lemma LowerPair(high: Unit, low: Unit)
    requires TwoHex(high, low).Some? && !(65 <= high <= 90) && !(65 <= low <= 90)
    ensures var n := TwoHex(high, low).value; high == HexDigit(n / 16) && low == HexDigit(n % 16)
  {
  }

  // ---------------------------------------------------------------- containers

  function TotalLength(parts: seq<JsString>): nat
  {
    if parts == [] then 0 else |parts[0]| + TotalLength(parts[1..])
  }

  lemma {:induction false} JoinedLength(parts: seq<JsString>)
    ensures |Join(parts)| == TotalLength(parts) + if parts == [] then 0 else |parts| - 1
  {
    if |parts| > 1 {
      JoinedLength(parts[1..]);
    } else if |parts| == 1 {
      assert parts[1..] == [];
    }
  }

  /** An array holds the texts of its items, one character between two of them, and its brackets. */
  lemma ArrayLength(v: Json, items: seq<Json>, depth: nat)
    requires v == Array(items) && Serialize(v, depth).Ok?
    ensures forall i :: 0 <= i < |items| ==> items[i] < v
    ensures SerializeItems(v, items, depth + 1).Ok?
    ensures |Serialize(v, depth).value| ==
      TotalLength(SerializeItems(v, items, depth + 1).value) + if items == [] then 2 else |items| + 1
  {
    SerializedArray(v, items, depth);
    JoinedLength(SerializeItems(v, items, depth + 1).value);
  }

  /** So does an object, and a field is its key in quotes, one character and its value. */
  lemma ObjectLength(v: Json, fields: seq<Entry<Json>>, depth: nat)
    requires v == Object(fields) && Serialize(v, depth).Ok?
    ensures forall i :: 0 <= i < |Sort(fields)| ==> Sort(fields)[i].value < v
    ensures SerializeFields(v, Sort(fields), depth + 1).Ok?
    ensures var parts := SerializeFields(v, Sort(fields), depth + 1).value;
            |Serialize(v, depth).value| == TotalLength(parts) + (if fields == [] then 2 else |fields| + 1) &&
            forall i :: 0 <= i < |parts| ==>
              Serialize(Sort(fields)[i].value, depth + 1).Ok? &&
              |parts[i]| == |Escape(Sort(fields)[i].key)| + 3 + |Serialize(Sort(fields)[i].value, depth + 1).value|
  {
    hide Serialize, Sort, Escape, SerializeFields, TotalLength, Join;
    SerializedObject(v, fields, depth);
    JoinedLength(SerializeFields(v, Sort(fields), depth + 1).value);
    FieldParts(v, Sort(fields), depth + 1);
  }
}
