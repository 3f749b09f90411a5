/**
 What a resource URI names, and that `canonicalizeResourceUri` of `src/base/uri/resource-uri.ts` keeps it: two
 accepted URIs have one canonical form exactly if they name the same resource.

 The name is read off the raw parts of the URI.  Escapes of unreserved characters stand for the characters,
 scheme and host are taken in lower case, and a port is a number, which the default of the scheme leaves out.
 */
module ResourceNames {
  import opened Wrappers
  import opened Utf8
  import opened CanonicalJson
  import opened WalRecord
  import opened PercentEncoding
  import opened PathSegments
  import opened ResourceUri

  // ---------------------------------------------------------------- raw parts

  datatype RawUri =
    | RawOpaque(scheme: JsString, text: JsString)
    | RawHierarchical(scheme: JsString, authority: Authority, suffix: Suffix)

  /** The text of the parts as they stand. */
  function RawText(u: RawUri): JsString
  {
    match u
    case RawOpaque(scheme, text) => scheme + [COLON] + text
    case RawHierarchical(scheme, a, s) => HierarchicalText(scheme, a, s)
  }

  /** Every percent sign begins an escape. */
  predicate WellEscaped(s: JsString)
  {
    s == [] || (if s[0] == PERCENT then StartsWithEscape(s) && WellEscaped(s[3..]) else WellEscaped(s[1..]))
  }

  predicate OptionallyEscaped(s: Option<JsString>) { s.Some? ==> WellEscaped(s.value) }

  /** User info, host and port, with nothing in them that would end them early. */
  predicate IsRawAuthority(a: Authority)
  {
    AllAuthority(AuthorityText(a)) && OptionallyEscaped(a.userInfo) && Without(a.host, AT) &&
    (IsBracketed(a.host) || IsHostText(a.host)) && (a.port.Some? ==> IsValidPort(a.port.value))
  }

  predicate IsRawSuffix(s: Suffix)
  {
    (s.path == [] || HasLeadingSlash(s.path)) && WellEscaped(s.path) && Without(s.path, QUESTION) &&
    Without(s.path, HASH) && OptionallyEscaped(s.query) && (s.query.Some? ==> Without(s.query.value, HASH)) &&
    OptionallyEscaped(s.fragment)
  }

  predicate IsRaw(u: RawUri)
  {
    IsScheme(u.scheme) &&
    match u
    case RawOpaque(_, text) => !StartsWithSlashes(text) && WellEscaped(text)
    case RawHierarchical(_, a, s) => IsRawAuthority(a) && IsRawSuffix(s)
  }

  // ---------------------------------------------------------------- names

  /** A character, or the octet of an escape that must stay one. */
  datatype Symbol = Character(unit: Unit) | Octet(value: nat)

  /** The octet with these two digits. */
  function OctetOf(high: Unit, low: Unit): (n: nat)
    ensures n < 256
  {
    match JsonText.TwoHex(high, low) case Some(value) => value case None => 0
  }

  function SymbolOf(value: nat): Symbol
    requires value < 256
  {
    if IsUnreserved(value) then Character(value) else Octet(value)
  }

  function Symbols(s: JsString): seq<Symbol>
  {
    if s == [] then []
    else if StartsWithEscape(s) then [SymbolOf(OctetOf(s[1], s[2]))] + Symbols(s[3..])
    else [Character(s[0])] + Symbols(s[1..])
  }

  function OptionalSymbols(s: Option<JsString>): Option<seq<Symbol>>
  {
    match s case None => None case Some(text) => Some(Symbols(text))
  }

  /** A path with its unreserved characters decoded, without its dot segments; a logical URI does not tell
      apart a path and that path with a slash behind it. */
  function PathName(scheme: JsString, path: JsString): seq<Symbol>
  {
    var removed := DotSegmentsRemoved(Written(Symbols(path)));
    Symbols(if IsLogicalScheme(scheme) && |removed| > 1 && EndsWith(removed, [SLASH])
            then removed[..|removed| - 1] else removed)
  }

  predicate IsDefaultPort(scheme: JsString, port: nat)
  {
    (scheme == Lit("http") && port == 80) || (scheme == Lit("https") && port == 443)
  }

  function PortName(scheme: JsString, port: Option<JsString>): Option<nat>
  {
    if port.None? || IsDefaultPort(scheme, DecimalRead(port.value)) then None else Some(DecimalRead(port.value))
  }

  datatype Name =
    | OpaqueName(scheme: JsString, text: seq<Symbol>)
    | HierarchicalName(
        scheme: JsString,
        userInfo: Option<seq<Symbol>>,
        host: JsString,
        port: Option<nat>,
        path: seq<Symbol>,
        query: Option<seq<Symbol>>,
        fragment: Option<seq<Symbol>>)

  function NameOf(u: RawUri): Name
  {
    var scheme := Lowered(u.scheme);
    match u
    case RawOpaque(_, text) => OpaqueName(scheme, Symbols(text))
    case RawHierarchical(_, a, s) =>
      HierarchicalName(scheme, OptionalSymbols(a.userInfo), Lowered(a.host), PortName(scheme, a.port),
                       PathName(scheme, s.path), OptionalSymbols(s.query), OptionalSymbols(s.fragment))
  }

  // ---------------------------------------------------------------- symbols

  function UpperHexDigit(n: nat): Unit
    requires n < 16
  {
    if n < 10 then 0x30 + n else 0x41 + n - 10
  }

  predicate IsSymbol(x: Symbol)
  {
    match x case Character(u) => u != PERCENT case Octet(n) => n < 256 && !IsUnreserved(n)
  }

  /** The one way to write a symbol: an octet with two upper-case digits. */
  function WrittenOne(x: Symbol): JsString
  {
    match x
    case Character(u) => [u]
    case Octet(n) => if n < 256 then [PERCENT, UpperHexDigit(n / 16), UpperHexDigit(n % 16)] else []
  }

  function Written(xs: seq<Symbol>): JsString { if xs == [] then [] else WrittenOne(xs[0]) + Written(xs[1..]) }

  lemma {:induction false} SymbolsAre(s: JsString)
    requires WellEscaped(s)
    ensures forall i :: 0 <= i < |Symbols(s)| ==> IsSymbol(Symbols(s)[i])
  {
    if s != [] { SymbolsAre(if s[0] == PERCENT then s[3..] else s[1..]); }
  }

  lemma EscapeIsWritten(high: Unit, low: Unit)
    requires IsHex(high) && IsHex(low)
    ensures PercentEncoding.Escape(high, low) == WrittenOne(SymbolOf(OctetOf(high, low)))
  {
    DigitIsWritten(high);
    DigitIsWritten(low);
    TwoDigits(PercentEncoding.HexValue(high), PercentEncoding.HexValue(low));
    hide PercentEncoding.HexValue, JsonText.HexValue, IsUnreserved, UpperHexDigit, UpperCase, IsHex;
  }

  lemma DigitIsWritten(u: Unit)
    requires IsHex(u)
    ensures JsonText.HexValue(u) == Some(PercentEncoding.HexValue(u))
    ensures UpperCase(u) == UpperHexDigit(PercentEncoding.HexValue(u))
  {
  }

  lemma TwoDigits(high: nat, low: nat)
    requires high < 16 && low < 16
    ensures (high * 16 + low) / 16 == high && (high * 16 + low) % 16 == low
  {
  }

  /** Normalizing writes down the symbols, and refuses exactly what is not well escaped. */
  lemma {:induction false} NormalizedWrites(s: JsString)
    ensures Normalized(s).Some? <==> WellEscaped(s)
    ensures WellEscaped(s) ==> Normalized(s).value == Written(Symbols(s))
  {
    if s != [] {
      if s[0] != PERCENT {
        NormalizedWrites(s[1..]);
      } else if StartsWithEscape(s) {
        NormalizedWrites(s[3..]);
        EscapeIsWritten(s[1], s[2]);
      }
    }
  }

  lemma WrittenReads(x: Symbol, rest: JsString)
    requires IsSymbol(x)
    ensures Symbols(WrittenOne(x) + rest) == [x] + Symbols(rest)
    ensures WellEscaped(WrittenOne(x) + rest) <==> WellEscaped(rest)
  {
    var s := WrittenOne(x) + rest;
    match x
    case Character(u) =>
      assert s[0] == u && s[1..] == rest;
    case Octet(n) =>
      assert s[..3] == WrittenOne(x) && s[3..] == rest;
      assert OctetOf(s[1], s[2]) == n;
  }

  lemma {:induction false} WrittenSymbols(xs: seq<Symbol>)
    requires forall i :: 0 <= i < |xs| ==> IsSymbol(xs[i])
    ensures Symbols(Written(xs)) == xs && WellEscaped(Written(xs))
  {
    if xs != [] {
      WrittenSymbols(xs[1..]);
      WrittenReads(xs[0], Written(xs[1..]));
    }
  }

  /** Normalizing keeps what a text stands for. */
  lemma NormalizedKeepsSymbols(s: JsString)
    requires Normalized(s).Some?
    ensures Symbols(Normalized(s).value) == Symbols(s) && WellEscaped(Normalized(s).value)
  {
    NormalizedWrites(s);
    SymbolsAre(s);
    WrittenSymbols(Symbols(s));
  }

  lemma NormalIsWritten(s: JsString)
    requires IsNormal(s)
    ensures Written(Symbols(s)) == s && WellEscaped(s)
  {
    NormalStays(s);
    NormalizedWrites(s);
  }

  // ---------------------------------------------------------------- reading raw parts

  function OptionalNormalized(s: Option<JsString>): Option<JsString>
    requires OptionallyEscaped(s)
  {
    match s
    case None => None
    case Some(text) => NormalizedWrites(text); Some(Normalized(text).value)
  }

  function NormalizedAuthority(a: Authority): Authority
    requires IsRawAuthority(a)
  {
    Authority(OptionalNormalized(a.userInfo), Lowered(a.host),
              if a.port.None? then None else Some(NormalizedPort(a.port.value)))
  }

  lemma HostAndPortParse(host: JsString, port: Option<JsString>, userInfo: Option<JsString>)
    requires IsBracketed(host) || IsHostText(host)
    requires port.Some? ==> IsValidPort(port.value)
    ensures HostAndPort(host + PortText(port), userInfo)
         == Ok(Authority(userInfo, Lowered(host), if port.None? then None else Some(NormalizedPort(port.value))))
  {
    if IsBracketed(host) { BracketedParses(host, port, userInfo); } else { NamedParses(host, port, userInfo); }
  }

  lemma BracketedParses(host: JsString, port: Option<JsString>, userInfo: Option<JsString>)
    requires IsBracketed(host) && (port.Some? ==> IsValidPort(port.value))
    ensures HostAndPort(host + PortText(port), userInfo)
         == Ok(Authority(userInfo, Lowered(host), if port.None? then None else Some(NormalizedPort(port.value))))
  {
    hide IsValidPort, NormalizedPort, NamedHost, PortOf, IndexOf, PortText;
    var n, text := |host| - 1, host + PortText(port);
    BracketFound(host, PortText(port));
    PortParses(port);
    assert text[..n + 1] == host && text[n + 1..] == PortText(port);
  }

  lemma BracketFound(host: JsString, rest: JsString)
    requires IsBracketed(host)
    ensures IndexOf(host + rest, CLOSE_BRACKET) == Some(|host| - 1)
  {
    var n := |host| - 1;
    FirstAfter(host[..n], [CLOSE_BRACKET] + rest, u => u == CLOSE_BRACKET);
    assert host + rest == host[..n] + ([CLOSE_BRACKET] + rest);
  }

  lemma PortParses(port: Option<JsString>)
    requires port.Some? ==> IsValidPort(port.value)
    ensures PortOf(PortText(port)) == Ok(if port.None? then None else Some(NormalizedPort(port.value)))
  {
    hide IsValidPort, NormalizedPort;
    if port.Some? { assert PortText(port)[1..] == port.value; }
  }

  lemma NamedParses(host: JsString, port: Option<JsString>, userInfo: Option<JsString>)
    requires IsHostText(host) && (port.Some? ==> IsValidPort(port.value))
    ensures HostAndPort(host + PortText(port), userInfo)
         == Ok(Authority(userInfo, Lowered(host), if port.None? then None else Some(NormalizedPort(port.value))))
  {
    hide LastIndexOf, IndexOf, IsValidPort, NormalizedPort;
    if port.None? {
      assert host + PortText(port) == host;
      LastIndexNone(host, COLON);
    } else {
      assert host + PortText(port) == host + [COLON] + port.value;
      ColonSplits(host, port.value);
    }
  }

  lemma PortHasNoAt(port: Option<JsString>)
    requires port.Some? ==> IsValidPort(port.value)
    ensures Without(PortText(port), AT)
  {
  }

  lemma AuthorityParses(a: Authority)
    requires IsRawAuthority(a)
    ensures ParsedAuthority(AuthorityText(a)) == Ok(NormalizedAuthority(a))
  {
    hide HostAndPort, IsValidPort, WellEscaped, IsBracketed, IsHostText;
    HostAndPortParse(a.host, a.port, OptionalNormalized(a.userInfo));
    PortHasNoAt(a.port);
    var host := a.host + PortText(a.port);
    assert Without(host, AT);
    if a.userInfo.None? {
      assert AuthorityText(a) == host;
      LastIndexNone(host, AT);
    } else {
      var info := a.userInfo.value;
      NormalizedWrites(info);
      assert AuthorityText(a) == info + [AT] + host;
      LastIndexBefore(info, AT, host);
      assert AuthorityText(a)[..|info|] == info && AuthorityText(a)[|info| + 1..] == host;
    }
  }

  function NormalizedRawSuffix(s: Suffix): Suffix
    requires IsRawSuffix(s)
  {
    NormalizedWrites(s.path);
    Suffix(DotSegmentsRemoved(Normalized(s.path).value), OptionalNormalized(s.query), OptionalNormalized(s.fragment))
  }

  lemma OptionParses(s: Option<JsString>)
    requires OptionallyEscaped(s)
    ensures OptionallyNormalized(s) == Ok(OptionalNormalized(s))
  {
    if s.Some? { NormalizedWrites(s.value); }
  }

  lemma SuffixParses(s: Suffix)
    requires IsRawSuffix(s)
    ensures ParsedSuffix(SuffixText(s)) == Ok(NormalizedRawSuffix(s))
    ensures SuffixText(s) == [] || IsDelimiter(SuffixText(s)[0])
  {
    hide WellEscaped, DotSegmentsRemoved, Normalized, SplitSuffix;
    SuffixSplits(s);
    NormalizedWrites(s.path);
    OptionParses(s.query);
    OptionParses(s.fragment);
  }

  lemma HierarchicalParses(scheme: JsString, a: Authority, s: Suffix)
    requires IsRawAuthority(a) && IsRawSuffix(s)
    ensures Hierarchical(scheme, AuthorityText(a) + SuffixText(s))
         == var b, t := NormalizedAuthority(a), NormalizedRawSuffix(s);
            match HierarchicalError(scheme, b, t)
            case Some(e) => Err(e)
            case None => Ok(HierarchicalText(scheme, WithoutDefaultPort(scheme, b), WithoutTrailingSlash(scheme, t)))
  {
    hide AuthorityText, SuffixText, ParsedAuthority, ParsedSuffix, HierarchicalError, HierarchicalText,
         WithoutDefaultPort, WithoutTrailingSlash, IsRawSuffix, NormalizedAuthority, NormalizedRawSuffix;
    AuthorityParses(a);
    SuffixParses(s);
    var front, back := AuthorityText(a), SuffixText(s);
    FirstAfter(front, back, IsDelimiter);
    assert (front + back)[..|front|] == front && (front + back)[|front|..] == back;
  }

  /** What canonicalization answers on the text of raw parts. */
  lemma CanonicalizedRaw(u: RawUri)
    requires IsRaw(u) && CommonError(RawText(u)).None?
    ensures var scheme := Lowered(u.scheme);
            Canonicalized(RawText(u)) ==
            match u
            case RawOpaque(_, text) => AfterScheme(scheme, text)
            case RawHierarchical(_, a, s) => Hierarchical(scheme, AuthorityText(a) + SuffixText(s))
  {
    hide AuthorityText, SuffixText, Hierarchical, IsRawAuthority, IsRawSuffix, CommonError, WellEscaped;
    var rest :=
      if u.RawOpaque? then u.text else [SLASH, SLASH] + (AuthorityText(u.authority) + SuffixText(u.suffix));
    assert RawText(u) == u.scheme + [COLON] + rest;
    assert Without(u.scheme, COLON);
    IndexAfter(u.scheme, COLON, rest);
    assert RawText(u)[..|u.scheme|] == u.scheme && RawText(u)[|u.scheme| + 1..] == rest;
    if u.RawHierarchical? { assert rest[2..] == AuthorityText(u.authority) + SuffixText(u.suffix); }
  }

  // ---------------------------------------------------------------- one reading

  lemma SchemeIsUnique(scheme: JsString, rest: JsString, scheme': JsString, rest': JsString)
    requires Without(scheme, COLON) && Without(scheme', COLON) && scheme + [COLON] + rest == scheme' + [COLON] + rest'
    ensures scheme == scheme' && rest == rest'
  {
    SeparatorIsUnique(scheme, rest, scheme', rest', COLON);
  }

  lemma SuffixIsUnique(s: Suffix, t: Suffix)
    requires IsRawSuffix(s) && IsRawSuffix(t) && SuffixText(s) == SuffixText(t)
    ensures s == t
  {
    hide SplitSuffix, SuffixText;
    SuffixSplits(s);
    SuffixSplits(t);
  }

  lemma HostIsUnique(host: JsString, port: Option<JsString>, host': JsString, port': Option<JsString>)
    requires IsBracketed(host) || IsHostText(host)
    requires port.Some? ==> IsValidPort(port.value)
    requires IsBracketed(host') || IsHostText(host')
    requires port'.Some? ==> IsValidPort(port'.value)
    requires host + PortText(port) == host' + PortText(port')
    ensures host == host' && port == port'
  {
    hide IsBracketed, IsHostText, IsValidPort, HostAndPort;
    HostAndPortParse(host, port, None);
    HostAndPortParse(host', port', None);
    assert |host| == |host'|;
    var text := host + PortText(port);
    assert text[..|host|] == host && text[..|host'|] == host';
    assert text[|host|..] == PortText(port) && text[|host'|..] == PortText(port');
    if port.Some? { assert PortText(port)[1..] == port.value; }
    if port'.Some? { assert PortText(port')[1..] == port'.value; }
  }

  lemma AuthoritySplits(a: Authority)
    requires IsRawAuthority(a)
    ensures var text, host := AuthorityText(a), a.host + PortText(a.port);
            LastIndexOf(text, AT) == (if a.userInfo.None? then None else Some(|a.userInfo.value|)) &&
            (if a.userInfo.None? then text == host
             else text[..|a.userInfo.value|] == a.userInfo.value && text[|a.userInfo.value| + 1..] == host)
  {
    hide IsValidPort, WellEscaped, IsBracketed, IsHostText, AllAuthority;
    PortHasNoAt(a.port);
    var host := a.host + PortText(a.port);
    assert Without(host, AT);
    if a.userInfo.None? {
      assert AuthorityText(a) == host;
      LastIndexNone(host, AT);
    } else {
      var info := a.userInfo.value;
      assert AuthorityText(a) == info + [AT] + host;
      LastIndexBefore(info, AT, host);
    }
  }

  lemma AuthorityIsUnique(a: Authority, b: Authority)
    requires IsRawAuthority(a) && IsRawAuthority(b) && AuthorityText(a) == AuthorityText(b)
    ensures a == b
  {
    hide AuthorityText, IsValidPort, WellEscaped, IsBracketed, IsHostText, AllAuthority;
    AuthoritySplits(a);
    AuthoritySplits(b);
    HostIsUnique(a.host, a.port, b.host, b.port);
  }

  lemma ContentIsUnique(a: Authority, s: Suffix, b: Authority, t: Suffix)
    requires IsRawAuthority(a) && IsRawSuffix(s) && IsRawAuthority(b) && IsRawSuffix(t)
    requires AuthorityText(a) + SuffixText(s) == AuthorityText(b) + SuffixText(t)
    ensures a == b && s == t
  {
    hide AuthorityText, SuffixText, IsRawSuffix;
    SuffixParses(s);
    SuffixParses(t);
    var text := AuthorityText(a) + SuffixText(s);
    FirstAfter(AuthorityText(a), SuffixText(s), IsDelimiter);
    FirstAfter(AuthorityText(b), SuffixText(t), IsDelimiter);
    assert text[..|AuthorityText(a)|] == AuthorityText(a) && text[..|AuthorityText(b)|] == AuthorityText(b);
    assert text[|AuthorityText(a)|..] == SuffixText(s) && text[|AuthorityText(b)|..] == SuffixText(t);
    AuthorityIsUnique(a, b);
    SuffixIsUnique(s, t);
  }

  function AfterColon(u: RawUri): JsString
  {
    match u
    case RawOpaque(_, text) => text
    case RawHierarchical(_, a, s) => [SLASH, SLASH] + (AuthorityText(a) + SuffixText(s))
  }

  /** A text has at most one reading as raw parts. */
  lemma RawIsUnique(u: RawUri, v: RawUri)
    requires IsRaw(u) && IsRaw(v) && RawText(u) == RawText(v)
    ensures u == v
  {
    hide AuthorityText, SuffixText, IsRawSuffix, IsRawAuthority, WellEscaped;
    assert RawText(u) == u.scheme + [COLON] + AfterColon(u) && RawText(v) == v.scheme + [COLON] + AfterColon(v);
    assert Without(u.scheme, COLON) && Without(v.scheme, COLON);
    SchemeIsUnique(u.scheme, AfterColon(u), v.scheme, AfterColon(v));
    assert StartsWithSlashes(AfterColon(u)) <==> u.RawHierarchical?;
    assert StartsWithSlashes(AfterColon(v)) <==> v.RawHierarchical?;
    if u.RawHierarchical? {
      assert AfterColon(u)[2..] == AuthorityText(u.authority) + SuffixText(u.suffix);
      assert AfterColon(v)[2..] == AuthorityText(v.authority) + SuffixText(v.suffix);
      ContentIsUnique(u.authority, u.suffix, v.authority, v.suffix);
    }
  }

  // ---------------------------------------------------------------- every accepted URI has raw parts

  ghost predicate AreParts(raw: JsString, host: JsString, port: Option<JsString>)
  {
    raw == host + PortText(port) && (IsBracketed(host) || IsHostText(host)) && (port.Some? ==> IsValidPort(port.value))
  }

  lemma HostHasParts(raw: JsString, userInfo: Option<JsString>) returns (host: JsString, port: Option<JsString>)
    requires HostAndPort(raw, userInfo).Ok?
    ensures AreParts(raw, host, port)
  {
    hide IsValidPort, NormalizedPort, BracketedHost, NamedHost, AreParts;
    if raw != [] && raw[0] == OPEN_BRACKET {
      host, port := BracketedHasParts(raw, userInfo);
    } else {
      host, port := NamedHasParts(raw, userInfo);
    }
  }

  lemma BracketedHasParts(raw: JsString, userInfo: Option<JsString>) returns (host: JsString, port: Option<JsString>)
    requires raw != [] && raw[0] == OPEN_BRACKET && BracketedHost(raw, userInfo).Ok?
    ensures AreParts(raw, host, port)
  {
    hide IsValidPort, NormalizedPort, IsHostText, IndexOf, IsBracketed;
    var close := IndexOf(raw, CLOSE_BRACKET).value;
    host := raw[..close + 1];
    var suffix := raw[close + 1..];
    port := if suffix == [] then None else Some(suffix[1..]);
    assert raw == host + suffix && suffix == PortText(port);
    BracketCut(raw, close);
  }

  lemma BracketCut(raw: JsString, close: nat)
    requires raw != [] && raw[0] == OPEN_BRACKET && IndexOf(raw, CLOSE_BRACKET) == Some(close)
    ensures IsBracketed(raw[..close + 1])
  {
    FirstAfter(raw[..close], [CLOSE_BRACKET] + [], u => u == CLOSE_BRACKET);
    assert raw[..close + 1] == raw[..close] + ([CLOSE_BRACKET] + []);
  }

  lemma NamedHasParts(raw: JsString, userInfo: Option<JsString>) returns (host: JsString, port: Option<JsString>)
    requires NamedHost(raw, userInfo).Ok?
    ensures AreParts(raw, host, port)
  {
    hide IsValidPort, NormalizedPort, IsBracketed, IsHostText, IndexOf;
    var lastColon := LastIndexOf(raw, COLON);
    if lastColon.None? || IndexOf(raw, COLON) != lastColon {
      host, port := raw, None;
    } else {
      host, port := raw[..lastColon.value], Some(raw[lastColon.value + 1..]);
    }
  }

  lemma PartWithout(raw: JsString, host: JsString, port: Option<JsString>, c: Unit)
    requires AreParts(raw, host, port) && Without(raw, c)
    ensures Without(host, c)
  {
    hide IsBracketed, IsHostText, IsValidPort, PortText;
    forall i | 0 <= i < |host| ensures host[i] != c { assert raw[i] == host[i]; }
  }

  lemma AuthorityHasParts(raw: JsString) returns (a: Authority)
    requires AllAuthority(raw) && ParsedAuthority(raw).Ok?
    ensures AuthorityText(a) == raw && IsRawAuthority(a)
  {
    hide HostAndPort, IsValidPort, IsBracketed, IsHostText, AllAuthority, WellEscaped, Normalized, LastIndexOf,
         PortText;
    var at := LastIndexOf(raw, AT);
    if at.None? {
      var host, port := HostHasParts(raw, None);
      PartWithout(raw, host, port, AT);
      a := Authority(None, host, port);
      assert [] + raw == raw;
    } else {
      var info, rest := raw[..at.value], raw[at.value + 1..];
      var host, port := HostHasParts(rest, Normalized(info));
      PartWithout(rest, host, port, AT);
      NormalizedWrites(info);
      a := Authority(Some(info), host, port);
      assert raw == info + [AT] + rest;
    }
  }

  lemma CutJoins(text: JsString, c: Unit)
    ensures var at := FirstOf(text, u => u == c);
            text == text[..at] + Prefixed(c, if at < |text| then Some(text[at + 1..]) else None)
  {
    hide FirstOf, Prefixed;
    CutAt(text, FirstOf(text, u => u == c), c);
  }

  lemma CutAt(text: JsString, at: nat, c: Unit)
    requires at <= |text| && (at < |text| ==> text[at] == c)
    ensures text == text[..at] + Prefixed(c, if at < |text| then Some(text[at + 1..]) else None)
  {
    if at < |text| { assert text == text[..at] + ([c] + text[at + 1..]); }
  }

  lemma SplitJoins(raw: JsString)
    ensures SuffixText(SplitSuffix(raw)) == raw
  {
    hide FirstOf, Prefixed;
    var s, before := SplitSuffix(raw), raw[..FirstOf(raw, u => u == HASH)];
    CutJoins(raw, HASH);
    CutJoins(before, QUESTION);
    assert s.path + Prefixed(QUESTION, s.query) + Prefixed(HASH, s.fragment) == SuffixText(s);
  }

  lemma SuffixHasParts(raw: JsString)
    requires (raw == [] || IsDelimiter(raw[0])) && ParsedSuffix(raw).Ok?
    ensures SuffixText(SplitSuffix(raw)) == raw && IsRawSuffix(SplitSuffix(raw))
  {
    hide DotSegmentsRemoved, Normalized, WellEscaped, SuffixText;
    SplitJoins(raw);
    var s := SplitSuffix(raw);
    NormalizedWrites(s.path);
    if s.query.Some? { NormalizedWrites(s.query.value); }
    if s.fragment.Some? { NormalizedWrites(s.fragment.value); }
    PathStarts(raw);
  }

  lemma PathStarts(raw: JsString)
    requires raw == [] || IsDelimiter(raw[0])
    ensures var s := SplitSuffix(raw);
            (s.path == [] || HasLeadingSlash(s.path)) && Without(s.path, QUESTION) && Without(s.path, HASH) &&
            (s.query.Some? ==> Without(s.query.value, HASH))
  {
  }

  lemma ContentHasParts(scheme: JsString, content: JsString) returns (a: Authority, s: Suffix)
    requires Hierarchical(scheme, content).Ok? && AllGraphic(content)
    ensures IsRawAuthority(a) && IsRawSuffix(s) && AuthorityText(a) + SuffixText(s) == content
  {
    hide AuthorityText, SuffixText, ParsedAuthority, ParsedSuffix, IsRawAuthority, IsRawSuffix, HierarchicalError,
         HierarchicalText, SplitSuffix, WithoutDefaultPort, WithoutTrailingSlash;
    var end := FirstOf(content, IsDelimiter);
    a := AuthorityHasParts(content[..end]);
    SuffixHasParts(content[end..]);
    s := SplitSuffix(content[end..]);
    assert content == content[..end] + content[end..];
  }

  /** Every accepted text has raw parts. */
  lemma AcceptedHasRaw(input: JsString) returns (u: RawUri)
    requires Canonicalized(input).Ok?
    ensures IsRaw(u) && RawText(u) == input
  {
    hide AuthorityText, SuffixText, Hierarchical, IsRawAuthority, IsRawSuffix, CommonError, IsScheme, Normalized,
         WellEscaped;
    CommonIsGraphic(input);
    var colon := IndexOf(input, COLON).value;
    var scheme, rest := input[..colon], input[colon + 1..];
    assert input == scheme + [COLON] + rest;
    if StartsWithSlashes(rest) {
      var a, s := ContentHasParts(Lowered(scheme), rest[2..]);
      u := RawHierarchical(scheme, a, s);
      assert rest == [SLASH, SLASH] + rest[2..];
    } else {
      NormalizedWrites(rest);
      u := RawOpaque(scheme, rest);
    }
  }

  // ---------------------------------------------------------------- the canonical form keeps the name

  /** The parts of the canonical form. */
  function CanonicalParts(u: RawUri): RawUri
    requires IsRaw(u)
  {
    var scheme := Lowered(u.scheme);
    match u
    case RawOpaque(_, text) => NormalizedWrites(text); RawOpaque(scheme, Normalized(text).value)
    case RawHierarchical(_, a, s) =>
      RawHierarchical(scheme, WithoutDefaultPort(scheme, NormalizedAuthority(a)),
                      WithoutTrailingSlash(scheme, NormalizedRawSuffix(s)))
  }

  /** What is asked beyond the grammar: a host, except in file URIs, and the rules for logical URIs. */
  predicate IsAllowed(u: RawUri)
    requires IsRaw(u)
  {
    u.RawHierarchical? ==>
      (u.authority.host == [] ==> Lowered(u.scheme) == Lit("file")) &&
      (IsLogicalScheme(Lowered(u.scheme)) ==>
        u.authority.userInfo.None? && u.authority.port.None? && u.suffix.query.None? && u.suffix.fragment.None? &&
        IsLogicalHost(Lowered(u.authority.host)) && IsLogicalPath(DotSegmentsRemoved(Written(Symbols(u.suffix.path)))))
  }

  lemma ErrorIff(u: RawUri)
    requires IsRaw(u) && u.RawHierarchical?
    ensures HierarchicalError(Lowered(u.scheme), NormalizedAuthority(u.authority), NormalizedRawSuffix(u.suffix)).None?
       <==> IsAllowed(u)
  {
    hide DotSegmentsRemoved, IsLogicalHost, IsLogicalPath, Normalized, Lowered;
    NormalizedWrites(u.suffix.path);
    LoweredLength(u.authority.host);
  }

  /** Something that may be wrong with raw parts, and the reason to give for it. */
  datatype Complaint = Complaint(holds: bool, reason: ResourceUri.Reason)

  /** The complaints about a hierarchical URI, the first thing first. */
  function Complaints(u: RawUri): seq<Complaint>
    requires u.RawHierarchical?
  {
    [Complaint(u.authority.host == [] && Lowered(u.scheme) != Lit("file"), InvalidAuthority)] +
    if IsLogicalScheme(Lowered(u.scheme)) then LogicalComplaints(u.authority, u.suffix) else []
  }

  function LogicalComplaints(a: Authority, s: Suffix): seq<Complaint>
  {
    [Complaint(a.userInfo.Some?, LogicalUserInfo), Complaint(a.port.Some?, LogicalPort),
     Complaint(s.query.Some?, LogicalQuery), Complaint(s.fragment.Some?, LogicalFragment),
     Complaint(!IsLogicalHost(Lowered(a.host)), InvalidHost),
     Complaint(!IsLogicalPath(DotSegmentsRemoved(Written(Symbols(s.path)))), LogicalPathInvalid)]
  }

  /** This complaint is the first that holds. */
  predicate IsFirst(complaints: seq<Complaint>, k: nat, e: ResourceUri.Reason)
  {
    k < |complaints| && complaints[k] == Complaint(true, e) && forall j :: 0 <= j < k ==> !complaints[j].holds
  }

  function FirstReason(complaints: seq<Complaint>): Option<ResourceUri.Reason>
  {
    if complaints == [] then None
    else if complaints[0].holds then Some(complaints[0].reason)
    else FirstReason(complaints[1..])
  }

  lemma {:induction false} FirstReasonIff(complaints: seq<Complaint>, e: ResourceUri.Reason)
    ensures FirstReason(complaints) == Some(e) <==> exists k :: IsFirst(complaints, k, e)
  {
    if complaints == [] {
    } else if complaints[0].holds {
      assert IsFirst(complaints, 0, complaints[0].reason);
    } else {
      var rest := complaints[1..];
      FirstReasonIff(rest, e);
      forall k: nat | IsFirst(rest, k, e) ensures IsFirst(complaints, k + 1, e) {
        assert forall j :: 0 < j <= k ==> complaints[j] == rest[j - 1];
      }
      forall k: nat | IsFirst(complaints, k, e) ensures k > 0 && IsFirst(rest, k - 1, e) {}
    }
  }

  lemma FirstOfMore(complaint: Complaint, rest: seq<Complaint>)
    ensures FirstReason([complaint] + rest) == if complaint.holds then Some(complaint.reason) else FirstReason(rest)
  {
    assert ([complaint] + rest)[1..] == rest;
  }

  lemma LogicalErrorIsFirst(a: Authority, s: Suffix)
    requires IsRawAuthority(a) && IsRawSuffix(s)
    ensures LogicalError(NormalizedAuthority(a), NormalizedRawSuffix(s)) == FirstReason(LogicalComplaints(a, s))
  {
    hide DotSegmentsRemoved, IsLogicalHost, IsLogicalPath, Normalized, Lowered, IsRawAuthority, FirstReason;
    NormalizedWrites(s.path);
    var cs := LogicalComplaints(a, s);
    FirstOfMore(cs[5], []);
    FirstOfMore(cs[4], cs[5..]);
    FirstOfMore(cs[3], cs[4..]);
    FirstOfMore(cs[2], cs[3..]);
    FirstOfMore(cs[1], cs[2..]);
    FirstOfMore(cs[0], cs[1..]);
    assert [cs[5]] + [] == cs[5..] && [cs[4]] + cs[5..] == cs[4..] && [cs[3]] + cs[4..] == cs[3..];
    assert [cs[2]] + cs[3..] == cs[2..] && [cs[1]] + cs[2..] == cs[1..] && [cs[0]] + cs[1..] == cs;
    NoReason();
  }

  lemma NoReason()
    ensures FirstReason([]) == None
  {
  }

  lemma ErrorIsFirst(u: RawUri)
    requires IsRaw(u) && u.RawHierarchical?
    ensures HierarchicalError(Lowered(u.scheme), NormalizedAuthority(u.authority), NormalizedRawSuffix(u.suffix))
         == FirstReason(Complaints(u))
  {
    hide LogicalError, LogicalComplaints, Normalized, Lowered, IsRawAuthority, IsRawSuffix, FirstReason;
    LoweredLength(u.authority.host);
    LogicalErrorIsFirst(u.authority, u.suffix);
    var first := Complaint(u.authority.host == [] && Lowered(u.scheme) != Lit("file"), InvalidAuthority);
    FirstOfMore(first, LogicalComplaints(u.authority, u.suffix));
    FirstOfMore(first, []);
    NoReason();
  }

  lemma LoweredLength(s: JsString)
    ensures Lowered(s) == [] <==> s == []
  {
  }

  /** The canonical form is the text of the canonical parts, and refused exactly where something is not allowed. */
  lemma CanonicalText(u: RawUri)
    requires IsRaw(u) && CommonError(RawText(u)).None?
    ensures Canonicalized(RawText(u)).Ok? <==> IsAllowed(u)
    ensures IsAllowed(u) ==> Canonicalized(RawText(u)).value == RawText(CanonicalParts(u))
  {
    hide HierarchicalText, WithoutDefaultPort, WithoutTrailingSlash, NormalizedAuthority, NormalizedRawSuffix,
         HierarchicalError, Hierarchical, IsAllowed, IsRawAuthority, IsRawSuffix, Canonicalized, CommonError;
    CanonicalizedRaw(u);
    match u
    case RawOpaque(_, text) =>
      NormalizedWrites(text);
      OpaqueIsAllowed(u);
    case RawHierarchical(_, a, s) =>
      HierarchicalParses(Lowered(u.scheme), a, s);
      ErrorIff(u);
  }

  /** Raw parts are refused for the first reason there is. */
  lemma RefusedForFirst(u: RawUri, e: ResourceUri.Reason)
    requires IsRaw(u) && u.RawHierarchical? && CommonError(RawText(u)).None?
    ensures Canonicalized(RawText(u)) == Err(e) <==> exists k :: IsFirst(Complaints(u), k, e)
  {
    hide HierarchicalText, WithoutDefaultPort, WithoutTrailingSlash, NormalizedAuthority, NormalizedRawSuffix,
         HierarchicalError, Hierarchical, Complaints, IsRawAuthority, IsRawSuffix, Canonicalized, CommonError,
         FirstReason, IsFirst;
    CanonicalizedRaw(u);
    HierarchicalParses(Lowered(u.scheme), u.authority, u.suffix);
    ErrorIsFirst(u);
    FirstReasonIff(Complaints(u), e);
  }

  lemma OpaqueIsAllowed(u: RawUri)
    requires IsRaw(u) && u.RawOpaque?
    ensures IsAllowed(u)
  {
  }

  lemma DecimalIs(n: nat)
    ensures DecimalRead(Decimal(n)) == n
    ensures (Decimal(n) == Lit("80") <==> n == 80) && (Decimal(n) == Lit("443") <==> n == 443)
  {
    DecimalRoundTrip(n);
    DecimalRoundTrip(80);
    DecimalRoundTrip(443);
    assert Decimal(80) == Lit("80") && Decimal(443) == Lit("443");
  }

  /** A port is kept as a number, unless it is the default of the scheme. */
  lemma PortIsKept(scheme: JsString, a: Authority)
    requires IsRawAuthority(a) && Lowered(scheme) == scheme
    ensures PortName(scheme, a.port).Some? ==> PortName(scheme, a.port).value < 0x1_0000
    ensures var port := WithoutDefaultPort(scheme, NormalizedAuthority(a)).port;
            PortName(scheme, port) == PortName(scheme, a.port) && (port.Some? <==> PortName(scheme, a.port).Some?) &&
            (port.Some? ==> port.value == Decimal(PortName(scheme, a.port).value))
  {
    hide Decimal, AllAuthority, IsBracketed, IsHostText, WellEscaped;
    if a.port.Some? { DecimalIs(DigitsValue(a.port.value)); }
  }

  lemma OptionIsKept(s: Option<JsString>)
    requires OptionallyEscaped(s)
    ensures OptionalSymbols(OptionalNormalized(s)) == OptionalSymbols(s)
  {
    if s.Some? {
      NormalizedWrites(s.value);
      NormalizedKeepsSymbols(s.value);
    }
  }

  lemma PathIsKept(scheme: JsString, s: Suffix)
    requires IsRawSuffix(s) && IsCanonicalSuffix(NormalizedRawSuffix(s))
    requires IsCanonicalSuffix(WithoutTrailingSlash(scheme, NormalizedRawSuffix(s)))
    requires var t := WithoutTrailingSlash(scheme, NormalizedRawSuffix(s)); WithoutTrailingSlash(scheme, t) == t
    ensures PathName(scheme, WithoutTrailingSlash(scheme, NormalizedRawSuffix(s)).path) == PathName(scheme, s.path)
  {
    hide DotSegmentsRemoved, IsLogicalScheme, EndsWith, Normalized, WellEscaped, IsNormal;
    NormalizedWrites(s.path);
    var t := WithoutTrailingSlash(scheme, NormalizedRawSuffix(s));
    NormalIsWritten(t.path);
  }

  /** The parts of the canonical form are canonical. */
  lemma PartsAreCanonical(u: RawUri)
    requires IsRaw(u) && u.RawHierarchical? && CommonError(RawText(u)).None? && IsAllowed(u)
    ensures var v, scheme := CanonicalParts(u), Lowered(u.scheme);
            IsCanonicalAuthority(v.authority) && IsCanonicalSuffix(v.suffix) &&
            IsCanonicalSuffix(NormalizedRawSuffix(u.suffix)) && WithoutTrailingSlash(scheme, v.suffix) == v.suffix &&
            WithoutDefaultPort(scheme, v.authority) == v.authority
  {
    hide AuthorityText, SuffixText, HierarchicalError, IsCanonicalAuthority, IsCanonicalSuffix, WithoutDefaultPort,
         WithoutTrailingSlash, NormalizedAuthority, NormalizedRawSuffix, ParsedAuthority, ParsedSuffix, IsAllowed,
         IsRawSuffix;
    var scheme := Lowered(u.scheme);
    var a, s := NormalizedAuthority(u.authority), NormalizedRawSuffix(u.suffix);
    CommonIsGraphic(RawText(u));
    SuffixIsGraphic(u);
    AuthorityParses(u.authority);
    SuffixParses(u.suffix);
    AuthorityIsCanonical(AuthorityText(u.authority));
    SuffixIsCanonical(SuffixText(u.suffix));
    ErrorIff(u);
    WithoutDefaultPortIsCanonical(scheme, a);
    WithoutTrailingSlashIsCanonical(scheme, a, s);
  }

  lemma SuffixIsGraphic(u: RawUri)
    requires u.RawHierarchical? && AllGraphic(RawText(u))
    ensures AllGraphic(SuffixText(u.suffix))
  {
    hide AuthorityText, SuffixText;
    var front := u.scheme + [COLON] + [SLASH, SLASH] + AuthorityText(u.authority);
    assert RawText(u) == front + SuffixText(u.suffix);
    forall i | 0 <= i < |SuffixText(u.suffix)| ensures IsGraphic(SuffixText(u.suffix)[i]) {
      assert RawText(u)[|front| + i] == SuffixText(u.suffix)[i];
    }
  }

  lemma CanonicalIsRaw(a: Authority, s: Suffix)
    requires IsCanonicalAuthority(a) && IsCanonicalSuffix(s)
    ensures IsRawAuthority(a) && IsRawSuffix(s)
  {
    hide AuthorityText, AllAuthority, IsBracketed, IsHostText, DotSegmentsRemoved, IsNormal, WellEscaped, IsValidPort,
         NormalizedPort;
    AuthorityReads(a);
    if a.userInfo.Some? { NormalIsWritten(a.userInfo.value); }
    NormalIsWritten(s.path);
    if s.query.Some? { NormalIsWritten(s.query.value); }
    if s.fragment.Some? { NormalIsWritten(s.fragment.value); }
  }

  /** The canonical parts are raw parts that name the same. */
  lemma CanonicalPartsName(u: RawUri)
    requires IsRaw(u) && CommonError(RawText(u)).None? && IsAllowed(u)
    ensures IsRaw(CanonicalParts(u)) && NameOf(CanonicalParts(u)) == NameOf(u)
  {
    hide HierarchicalText, WithoutDefaultPort, WithoutTrailingSlash, NormalizedRawSuffix, IsAllowed, CommonError,
         IsRawAuthority, IsRawSuffix, IsCanonicalAuthority, IsCanonicalSuffix, PathName, PortName, IsScheme, Normalized;
    SchemeLowered(u.scheme);
    match u
    case RawOpaque(_, text) =>
      NormalizedWrites(text);
      NormalizedKeepsSymbols(text);
      NoNewSlashes(text);
    case RawHierarchical(_, a, s) =>
      var v, scheme := CanonicalParts(u), Lowered(u.scheme);
      PartsAreCanonical(u);
      CanonicalIsRaw(v.authority, v.suffix);
      AuthorityIsKept(scheme, a);
      PathIsKept(scheme, s);
      SuffixIsKept(scheme, s);
  }

  lemma AuthorityIsKept(scheme: JsString, a: Authority)
    requires IsRawAuthority(a) && Lowered(scheme) == scheme
    ensures var b := WithoutDefaultPort(scheme, NormalizedAuthority(a));
            OptionalSymbols(b.userInfo) == OptionalSymbols(a.userInfo) && Lowered(b.host) == Lowered(a.host) &&
            PortName(scheme, b.port) == PortName(scheme, a.port)
  {
    hide Lowered, PortName;
    PortIsKept(scheme, a);
    OptionIsKept(a.userInfo);
    LoweredTwice(a.host);
  }

  lemma SuffixIsKept(scheme: JsString, s: Suffix)
    requires IsRawSuffix(s)
    ensures var t := WithoutTrailingSlash(scheme, NormalizedRawSuffix(s));
            OptionalSymbols(t.query) == OptionalSymbols(s.query) &&
            OptionalSymbols(t.fragment) == OptionalSymbols(s.fragment)
  {
    hide DotSegmentsRemoved;
    OptionIsKept(s.query);
    OptionIsKept(s.fragment);
  }

  // ---------------------------------------------------------------- the name determines the canonical form

  function OptionalWritten(xs: Option<seq<Symbol>>): Option<JsString>
  {
    match xs case None => None case Some(symbols) => Some(Written(symbols))
  }

  /** The one text for a name. */
  function Rendered(n: Name): RawUri
  {
    match n
    case OpaqueName(scheme, text) => RawOpaque(scheme, Written(text))
    case HierarchicalName(scheme, userInfo, host, port, path, query, fragment) =>
      RawHierarchical(scheme,
                      Authority(OptionalWritten(userInfo), host,
                                if port.None? then None else Some(Decimal(port.value))),
                      Suffix(Written(path), OptionalWritten(query), OptionalWritten(fragment)))
  }

  lemma OptionIsWritten(s: Option<JsString>)
    requires OptionallyEscaped(s)
    ensures OptionalNormalized(s) == OptionalWritten(OptionalSymbols(s))
  {
    if s.Some? { NormalizedWrites(s.value); }
  }

  lemma AuthorityIsWritten(scheme: JsString, a: Authority)
    requires IsRawAuthority(a) && Lowered(scheme) == scheme
    ensures var port := PortName(scheme, a.port);
            WithoutDefaultPort(scheme, NormalizedAuthority(a)) ==
              Authority(OptionalWritten(OptionalSymbols(a.userInfo)), Lowered(a.host),
                        if port.None? then None else Some(Decimal(port.value)))
  {
    hide Lowered, PortName, Decimal;
    PortIsKept(scheme, a);
    OptionIsWritten(a.userInfo);
  }

  lemma SuffixIsWritten(scheme: JsString, s: Suffix)
    requires IsRawSuffix(s) && IsCanonicalSuffix(WithoutTrailingSlash(scheme, NormalizedRawSuffix(s)))
    ensures WithoutTrailingSlash(scheme, NormalizedRawSuffix(s))
         == Suffix(Written(PathName(scheme, s.path)), OptionalWritten(OptionalSymbols(s.query)),
                   OptionalWritten(OptionalSymbols(s.fragment)))
  {
    hide DotSegmentsRemoved, IsLogicalScheme, EndsWith, Normalized, WellEscaped, IsNormal;
    NormalizedWrites(s.path);
    OptionIsWritten(s.query);
    OptionIsWritten(s.fragment);
    NormalIsWritten(WithoutTrailingSlash(scheme, NormalizedRawSuffix(s)).path);
  }

  lemma CanonicalIsRendered(u: RawUri)
    requires IsRaw(u) && CommonError(RawText(u)).None? && IsAllowed(u)
    ensures CanonicalParts(u) == Rendered(NameOf(u))
  {
    hide WithoutDefaultPort, WithoutTrailingSlash, NormalizedRawSuffix, NormalizedAuthority, IsAllowed, CommonError,
         IsRawAuthority, IsRawSuffix, IsCanonicalAuthority, IsCanonicalSuffix, PathName, PortName, IsScheme, Normalized;
    SchemeLowered(u.scheme);
    match u
    case RawOpaque(_, text) => NormalizedWrites(text);
    case RawHierarchical(_, a, s) =>
      PartsAreCanonical(u);
      AuthorityIsWritten(Lowered(u.scheme), a);
      SuffixIsWritten(Lowered(u.scheme), s);
  }

  // ---------------------------------------------------------------- the theorems

  /** Accepted is exactly what has common characters and length and is the text of raw parts that are allowed. */
  lemma AcceptedIff(input: JsString)
    ensures Canonicalized(input).Ok?
       <==> CommonError(input).None? && exists u :: IsRaw(u) && RawText(u) == input && IsAllowed(u)
  {
    hide IsRaw, RawText, IsAllowed;
    if Canonicalized(input).Ok? {
      AcceptedIsCommon(input);
      var u := AcceptedHasRaw(input);
      CanonicalText(u);
    }
    if CommonError(input).None? && exists u :: IsRaw(u) && RawText(u) == input && IsAllowed(u) {
      var u :| IsRaw(u) && RawText(u) == input && IsAllowed(u);
      CanonicalText(u);
    }
  }

  lemma AcceptedIsCommon(input: JsString)
    requires Canonicalized(input).Ok?
    ensures CommonError(input).None?
  {
  }

  /** The canonical form of an accepted URI names what the URI names. */
  lemma NameIsKept(u: RawUri, v: RawUri)
    requires IsRaw(u) && IsRaw(v) && Canonicalized(RawText(u)) == Ok(RawText(v))
    ensures NameOf(v) == NameOf(u)
  {
    hide RawText, NameOf, Canonicalized;
    AcceptedIsCommon(RawText(u));
    CanonicalText(u);
    CanonicalPartsName(u);
    RawIsUnique(CanonicalParts(u), v);
  }

  /** Part by part: the scheme and the host in lower case, a port with the same value unless it is the default,
      and the same symbols in user info, query, fragment and opaque text. */
  lemma PartsAreKept(u: RawUri, v: RawUri)
    requires IsRaw(u) && IsRaw(v) && Canonicalized(RawText(u)) == Ok(RawText(v))
    ensures v.scheme == Lowered(u.scheme) && (v.RawOpaque? <==> u.RawOpaque?)
    ensures u.RawOpaque? ==> Symbols(v.text) == Symbols(u.text)
    ensures u.RawHierarchical? ==>
      var (a, b) := (u.authority, v.authority);
      b.host == Lowered(a.host) && OptionalSymbols(b.userInfo) == OptionalSymbols(a.userInfo) &&
      (b.port.Some? <==> a.port.Some? && !(v.scheme == Lit("http") && DecimalRead(a.port.value) == 80) &&
                         !(v.scheme == Lit("https") && DecimalRead(a.port.value) == 443)) &&
      (b.port.Some? ==> DecimalRead(b.port.value) == DecimalRead(a.port.value) < 0x1_0000) &&
      OptionalSymbols(v.suffix.query) == OptionalSymbols(u.suffix.query) &&
      OptionalSymbols(v.suffix.fragment) == OptionalSymbols(u.suffix.fragment)
  {
    hide RawText, Canonicalized, Symbols, Lowered, Decimal, DecimalRead, PathName;
    AcceptedIsCommon(RawText(u));
    CanonicalText(u);
    CanonicalPartsName(u);
    RawIsUnique(CanonicalParts(u), v);
    CanonicalIsRendered(u);
    if u.RawHierarchical? {
      LoweredTwice(u.scheme);
      PortIsKept(Lowered(u.scheme), u.authority);
      if v.authority.port.Some? { DecimalIs(PortName(Lowered(u.scheme), u.authority.port).value); }
    }
  }

  function WithoutLastSlash(path: JsString): JsString
  {
    if |path| > 1 && path[|path| - 1] == SLASH then path[..|path| - 1] else path
  }

  /** The path is what is left of it without dot segments, and without a slash at the end if the URI is logical. */
  lemma PathIsNamed(u: RawUri, v: RawUri)
    requires IsRaw(u) && IsRaw(v) && Canonicalized(RawText(u)) == Ok(RawText(v)) && u.RawHierarchical?
    ensures var removed := DotSegmentsRemoved(Written(Symbols(u.suffix.path)));
            var logical := Lowered(u.scheme) == Lit("nireco") || Lowered(u.scheme) == Lit("comet");
            v.RawHierarchical? &&
            v.suffix.path == Written(Symbols(if logical then WithoutLastSlash(removed) else removed))
  {
    hide RawText, Canonicalized, Symbols, Lowered, DotSegmentsRemoved, Written;
    AcceptedIsCommon(RawText(u));
    CanonicalText(u);
    CanonicalPartsName(u);
    RawIsUnique(CanonicalParts(u), v);
    CanonicalIsRendered(u);
  }

  /** A logical URI is a host and a path, with nothing in front, between or behind. */
  lemma LogicalIsPlain(u: RawUri)
    requires IsRaw(u) && u.RawHierarchical? && Canonicalized(RawText(u)).Ok?
    requires Lowered(u.scheme) == Lit("nireco") || Lowered(u.scheme) == Lit("comet")
    ensures u.authority.userInfo.None? && u.authority.port.None? && u.suffix.query.None? && u.suffix.fragment.None?
  {
    hide RawText, Canonicalized, Lowered, DotSegmentsRemoved, IsRawAuthority, IsRawSuffix;
    AcceptedIsCommon(RawText(u));
    CanonicalText(u);
  }

  /** Two accepted URIs have one canonical form exactly if they name the same. */
  lemma SameCanonicalIff(u: RawUri, v: RawUri)
    requires IsRaw(u) && IsRaw(v) && Canonicalized(RawText(u)).Ok? && Canonicalized(RawText(v)).Ok?
    ensures Canonicalized(RawText(u)) == Canonicalized(RawText(v)) <==> NameOf(u) == NameOf(v)
  {
    hide RawText, NameOf, Canonicalized;
    AcceptedIsCommon(RawText(u));
    AcceptedIsCommon(RawText(v));
    CanonicalText(u);
    CanonicalText(v);
    CanonicalPartsName(u);
    CanonicalPartsName(v);
    if Canonicalized(RawText(u)) == Canonicalized(RawText(v)) { RawIsUnique(CanonicalParts(u), CanonicalParts(v)); }
    CanonicalIsRendered(u);
    CanonicalIsRendered(v);
  }
}
