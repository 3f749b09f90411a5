/**
 Escapes in the host of a resource URI: `parseBracketedHostAndPort` of `src/base/uri/resource-uri.ts`
 changes only the case of what stands in brackets, so its escapes come out in lower case.
 */
module BracketedHosts {
  import opened Wrappers
  import opened Utf8
  import opened CanonicalJson
  import opened PercentEncoding
  import opened PathSegments
  import opened ResourceUri

  // ---------------------------------------------------------------- when all escapes are normal

  lemma {:induction false} PlainIsNormal(s: JsString)
    requires Without(s, PERCENT)
    ensures IsNormal(s)
  {
    if s != [] { PlainIsNormal(s[1..]); }
  }

  /** Before a character that is no hex digit, text is normal exactly if both parts are. */
  lemma NormalParts(a: JsString, b: JsString)
    requires b == [] || !IsHex(b[0])
    ensures IsNormal(a + b) <==> IsNormal(a) && IsNormal(b)
  {
    if IsNormal(a + b) { NormalSplit(a, b); }
    if IsNormal(a) && IsNormal(b) { NormalConcat(a, b); }
  }

  /** Without escapes in front, only the rest decides. */
  lemma {:induction false} NormalRest(a: JsString, b: JsString)
    requires Without(a, PERCENT)
    ensures IsNormal(a + b) <==> IsNormal(b)
  {
    if a == [] {
      assert a + b == b;
    } else {
      NormalRest(a[1..], b);
      assert (a + b)[1..] == a[1..] + b;
    }
  }

  lemma SuffixTextIsNormal(s: Suffix)
    requires IsCanonicalSuffix(s)
    ensures IsNormal(SuffixText(s)) && (SuffixText(s) == [] || IsDelimiter(SuffixText(s)[0]))
  {
    hide DotSegmentsRemoved;
    if s.query.Some? { NormalRest([QUESTION], s.query.value); }
    if s.fragment.Some? { NormalRest([HASH], s.fragment.value); }
    NormalConcat(Prefixed(QUESTION, s.query), Prefixed(HASH, s.fragment));
    NormalConcat(s.path, Prefixed(QUESTION, s.query) + Prefixed(HASH, s.fragment));
  }

  lemma PortTextIsNormal(port: Option<JsString>)
    requires IsCanonicalPort(port)
    ensures IsNormal(PortText(port)) && (PortText(port) == [] || PortText(port)[0] == COLON)
  {
    PlainIsNormal(PortText(port));
  }

  /** Behind the host stands nothing, or a character that is no hex digit. */
  lemma TailIsNormal(port: Option<JsString>, s: Suffix)
    requires IsCanonicalPort(port) && IsCanonicalSuffix(s)
    ensures var tail := PortText(port) + SuffixText(s); IsNormal(tail) && (tail == [] || !IsHex(tail[0]))
  {
    hide IsCanonicalSuffix, SuffixText, IsCanonicalPort;
    SuffixTextIsNormal(s);
    PortTextIsNormal(port);
    NormalConcat(PortText(port), SuffixText(s));
  }

  lemma HostTextIsNormal(h: JsString)
    requires IsHostText(h)
    ensures IsNormal(h)
  {
    PlainIsNormal(h);
  }

  /** A bracket is no hex digit, so the user info before it is read on its own. */
  lemma AfterUserInfo(userInfo: Option<JsString>, rest: JsString)
    requires userInfo.Some? ==> IsNormal(userInfo.value)
    ensures IsNormal((if userInfo.None? then [] else userInfo.value + [AT]) + rest) <==> IsNormal(rest)
  {
    if userInfo.None? {
      assert [] + rest == rest;
    } else {
      assert userInfo.value + [AT] + rest == userInfo.value + ([AT] + rest);
      NormalParts(userInfo.value, [AT] + rest);
      NormalRest([AT], rest);
    }
  }

  lemma SchemeIsPlain(scheme: JsString)
    requires IsScheme(scheme)
    ensures Without(scheme + [COLON] + [SLASH, SLASH], PERCENT)
  {
  }

  /** Every escape of a hierarchical URI is normal exactly if those of its host are. */
  lemma HierarchicalIsNormalIff(scheme: JsString, a: Authority, s: Suffix)
    requires IsScheme(scheme) && IsCanonicalAuthority(a) && IsCanonicalSuffix(s)
    ensures IsNormal(HierarchicalText(scheme, a, s)) <==> IsNormal(a.host)
  {
    hide IsNormal, IsCanonicalHost, IsCanonicalPort, IsCanonicalSuffix, SuffixText, PortText, IsScheme;
    var tail := PortText(a.port) + SuffixText(s);
    var front := if a.userInfo.None? then [] else a.userInfo.value + [AT];
    var head := scheme + [COLON] + [SLASH, SLASH];
    assert AuthorityText(a) + SuffixText(s) == front + (a.host + tail);
    assert HierarchicalText(scheme, a, s) == head + (front + (a.host + tail));
    SchemeIsPlain(scheme);
    NormalRest(head, front + (a.host + tail));
    AfterUserInfo(a.userInfo, a.host + tail);
    TailIsNormal(a.port, s);
    NormalParts(a.host, tail);
  }

  lemma OpaqueIsNormal(out: JsString, scheme: JsString, text: JsString)
    requires IsOpaqueForm(out, scheme, text)
    ensures IsNormal(out)
  {
    SchemeIsPlain(scheme);
    assert Without(scheme + [COLON], PERCENT) by {
      assert forall i :: 0 <= i < |scheme + [COLON]| ==>
        (scheme + [COLON])[i] == (scheme + [COLON] + [SLASH, SLASH])[i];
    }
    NormalRest(scheme + [COLON], text);
  }

  /** A hierarchical URI with an escape in its bracketed host that is not normal. */
  ghost predicate HasOddHost(out: JsString)
  {
    exists scheme, a, s :: IsHierarchicalForm(out, scheme, a, s) && IsBracketed(a.host) && !IsNormal(a.host)
  }

  /** Every escape of an output is normal, except if a bracketed host, of which only the case is
      changed, holds one that is not. */
  lemma EscapesAreNormalIff(input: JsString)
    requires Canonicalized(input).Ok?
    ensures IsNormal(Canonicalized(input).value) <==> !HasOddHost(Canonicalized(input).value)
  {
    hide Canonicalized, IsCanonicalSuffix, IsNormal, HierarchicalText, IsScheme, Segments;
    var out := Canonicalized(input).value;
    CanonicalForm(input);
    forall scheme, text | IsOpaqueForm(out, scheme, text) ensures IsNormal(out) {
      OpaqueIsNormal(out, scheme, text);
    }
    forall scheme, a, s | IsHierarchicalForm(out, scheme, a, s)
      ensures IsNormal(out) <==> !IsBracketed(a.host) || IsNormal(a.host)
    {
      HierarchicalIsNormalIff(scheme, a, s);
      if !IsBracketed(a.host) { HostTextIsNormal(a.host); }
    }
  }

  // ---------------------------------------------------------------- an example

  const X: JsString := [0x78]
  const RAW: JsString := [OPEN_BRACKET, PERCENT, 0x32, 0x46, CLOSE_BRACKET]
  const HOST: JsString := [OPEN_BRACKET, PERCENT, 0x32, 0x66, CLOSE_BRACKET]
  const LOWERED := Authority(None, HOST, None)
  const NOTHING := Suffix([], None, None)

  /** For instance "x://[%2F]" becomes "x://[%2f]". */
  lemma LowerCaseEscapeStays()
    ensures Canonicalized(Lit("x://[%2F]")) == Ok(Lit("x://[%2f]")) && !IsNormal(Lit("x://[%2f]"))
  {
    hide Canonicalized, IsNormal;
    ExampleTexts();
    ExampleOutput();
    ExampleIsNotNormal();
  }

  lemma ExampleTexts()
    ensures Lit("x://[%2F]") == X + [COLON] + ([SLASH, SLASH] + RAW)
    ensures Lit("x://[%2f]") == X + [COLON] + ([SLASH, SLASH] + HOST)
  {
  }

  lemma ExampleOutput()
    ensures Canonicalized(X + [COLON] + ([SLASH, SLASH] + RAW)) == Ok(X + [COLON] + ([SLASH, SLASH] + HOST))
  {
    hide Hierarchical, CommonError, IsScheme;
    var rest := [SLASH, SLASH] + RAW;
    var input := X + [COLON] + rest;
    IndexAfter(X, COLON, rest);
    ExampleIsCommon();
    assert input[..1] == X && input[2..] == rest && rest[2..] == RAW && Lowered(X) == X;
    HierarchicalExample();
  }

  lemma ExampleIsCommon()
    ensures CommonError(X + [COLON] + ([SLASH, SLASH] + RAW)) == None && IsScheme(X)
  {
  }

  lemma ExampleIsNotNormal()
    ensures !IsNormal(X + [COLON] + ([SLASH, SLASH] + HOST))
  {
    var head, tail := X + [COLON] + [SLASH, SLASH, OPEN_BRACKET], HOST[1..];
    assert X + [COLON] + ([SLASH, SLASH] + HOST) == head + tail;
    NormalRest(head, tail);
  }

  lemma HierarchicalExample()
    ensures Hierarchical(X, RAW) == Ok(X + [COLON] + ([SLASH, SLASH] + HOST))
  {
    hide ParsedAuthority, ParsedSuffix, HierarchicalError, HierarchicalText, WithoutTrailingSlash, WithoutDefaultPort;
    FirstAfter(RAW, [], IsDelimiter);
    assert RAW + [] == RAW && RAW[..5] == RAW && RAW[5..] == [];
    AuthorityExample();
    NothingParsed();
    AcceptedExample();
  }

  lemma AuthorityExample()
    ensures ParsedAuthority(RAW) == Ok(LOWERED)
  {
    LastIndexNone(RAW, AT);
    BracketAtEnd();
    assert RAW[..5] == RAW && RAW[5..] == [] && Lowered(RAW) == HOST;
  }

  lemma BracketAtEnd()
    ensures IndexOf(RAW, CLOSE_BRACKET) == Some(4)
  {
    assert RAW == RAW[..4] + [CLOSE_BRACKET] + [];
    IndexAfter(RAW[..4], CLOSE_BRACKET, []);
  }

  lemma AcceptedExample()
    ensures HierarchicalError(X, LOWERED, NOTHING) == None
    ensures WithoutDefaultPort(X, LOWERED) == LOWERED && WithoutTrailingSlash(X, NOTHING) == NOTHING
    ensures HierarchicalText(X, LOWERED, NOTHING) == X + [COLON] + ([SLASH, SLASH] + HOST)
  {
    hide LogicalError;
    assert |Lit("nireco")| == 6 && |Lit("comet")| == 5;
    assert AuthorityText(LOWERED) == HOST && SuffixText(NOTHING) == [] && HOST + [] == HOST;
  }

  lemma NothingParsed()
    ensures ParsedSuffix([]) == Ok(NOTHING)
  {
    hide DotSegmentsRemoved;
    RemovalIsIdempotent([]);
  }
}
