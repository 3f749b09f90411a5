/**
 The fields of a hash preimage (`src/base/hashing/hash-preimage.ts`): NUL separates them, and none of them holds one.
 */
module PreimageFields {
  import opened Utf8
  import opened CanonicalJson
  import opened JsonText
  import opened JsonCanonical
  import opened HashPreimage

  /** What stands between the NULs of a text. */
  function Fields(s: JsString): (fields: seq<JsString>)
    ensures fields != []
  {
    if s == [] then [[]]
    else
      var rest := Fields(s[1..]);
      if s[0] == 0 then [[]] + rest else [[s[0]] + rest[0]] + rest[1..]
  }

  lemma {:induction false} FieldThenRest(a: JsString, rest: JsString)
    requires 0 !in a
    ensures Fields(a + [0] + rest) == [a] + Fields(rest)
  {
    if a == [] {
      assert ([0] + rest)[1..] == rest && a + [0] + rest == [0] + rest;
    } else {
      assert a[0] in a && a == [a[0]] + a[1..];
      FieldThenRest(a[1..], rest);
      assert (a + [0] + rest)[1..] == a[1..] + [0] + rest && (a + [0] + rest)[0] == a[0];
    }
  }

  lemma {:induction false} OneField(a: JsString)
    requires 0 !in a
    ensures Fields(a) == [a]
  {
    if a != [] {
      assert a[0] in a && a == [a[0]] + a[1..];
      OneField(a[1..]);
    }
  }

  lemma HeaderIs()
    ensures HEADER == Lit("NIRECO") + [0] + Lit("HASH") + [0] + Lit("V1") + [0]
    ensures 0 !in Lit("NIRECO") && 0 !in Lit("HASH") && 0 !in Lit("V1")
  {
  }

  lemma FieldsOfFive(a: JsString, b: JsString, c: JsString, d: JsString, e: JsString)
    requires 0 !in a && 0 !in b && 0 !in c && 0 !in d && 0 !in e
    ensures Fields(a + [0] + b + [0] + c + [0] + (d + [0] + e)) == [a, b, c, d, e]
  {
    hide Fields;
    OneField(e);
    FieldThenRest(d, e);
    FieldThenRest(c, d + [0] + e);
    FieldThenRest(b, c + [0] + (d + [0] + e));
    FieldThenRest(a, b + [0] + (c + [0] + (d + [0] + e)));
    assert a + [0] + b + [0] + c + [0] + (d + [0] + e) == a + [0] + (b + [0] + (c + [0] + (d + [0] + e)));
  }

  lemma CanonicalHasNoNul(read: NumberReading, payload: Json)
    requires Valid(read, payload) && Serialize(payload, 0).Ok?
    ensures 0 !in Serialize(payload, 0).value
  {
    hide Serialize, Valid;
    TextPlain(read, payload, 0);
  }

  /** The canonical preimage of a payload has these five fields. */
  lemma FiveFields(read: NumberReading, domain: HashDomain, payload: Json)
    requires Valid(read, payload) && CanonicalPreimage(domain, payload).Ok?
    ensures Serialize(payload, 0).Ok?
    ensures Fields(CanonicalPreimage(domain, payload).value)
         == [Lit("NIRECO"), Lit("HASH"), Lit("V1"), Lit(DomainName(domain)), Serialize(payload, 0).value]
  {
    hide Serialize, Lit, DomainName, Fields, Valid;
    var text, name := Serialize(payload, 0).value, Lit(DomainName(domain));
    CanonicalHasNoNul(read, payload);
    NoNul(domain);
    HeaderIs();
    FieldsOfFive(Lit("NIRECO"), Lit("HASH"), Lit("V1"), name, text);
    assert Preimage(domain, text) == HEADER + (name + [0] + text);
  }
}
