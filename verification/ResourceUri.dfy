/**
 `canonicalizeResourceUri` of `src/base/uri/resource-uri.ts`: scheme, authority, path, query and
 fragment, and the stricter rules for `nireco` and `comet` URIs.
 */
module ResourceUri {
  import opened Wrappers
  import opened Utf8
  import opened CanonicalJson
  import JsonText
  import opened WalRecord
  import opened PercentEncoding
  import opened PathSegments

  const MAX_RESOURCE_URI_LENGTH := 2048

  const QUESTION: Unit := 0x3F
  const HASH: Unit := 0x23
  const AT: Unit := 0x40

  datatype Reason =
    | EmptyInput | TooLong | WhitespaceOrControl | NonAscii | InvalidScheme | InvalidPercentEncoding
    | InvalidAuthority | InvalidHost | InvalidPort
    | LogicalUserInfo | LogicalPort | LogicalQuery | LogicalFragment | LogicalPathInvalid

  datatype Authority = Authority(userInfo: Option<JsString>, host: JsString, port: Option<JsString>)

  datatype Suffix = Suffix(path: JsString, query: Option<JsString>, fragment: Option<JsString>)

  // ---------------------------------------------------------------- searching

  /** The index of the first character of a class, or the length of the text. */
  function FirstOf(s: JsString, p: Unit -> bool): (i: nat)
    ensures i <= |s| && (forall k :: 0 <= k < i ==> !p(s[k])) && (i < |s| ==> p(s[i]))
  {
    if s == [] || p(s[0]) then 0 else 1 + FirstOf(s[1..], p)
  }

  /** `indexOf` */
  function IndexOf(s: JsString, c: Unit): (i: Option<nat>)
    ensures i.Some? ==> i.value < |s|
  {
    var first := FirstOf(s, u => u == c);
    if first < |s| then Some(first) else None
  }

  /** `lastIndexOf` */
  function LastIndexOf(s: JsString, c: Unit): (i: Option<nat>)
    ensures i.Some? ==> i.value < |s| && s[i.value] == c && forall k :: i.value < k < |s| ==> s[k] != c
    ensures i.None? ==> forall k :: 0 <= k < |s| ==> s[k] != c
  {
    if s == [] then None
    else if s[|s| - 1] == c then Some(|s| - 1)
    else LastIndexOf(s[..|s| - 1], c)
  }

  predicate Without(s: JsString, c: Unit) { forall i :: 0 <= i < |s| ==> s[i] != c }

  lemma FirstAfter(a: JsString, b: JsString, p: Unit -> bool)
    requires (forall i :: 0 <= i < |a| ==> !p(a[i])) && (b == [] || p(b[0]))
    ensures FirstOf(a + b, p) == |a|
  {
    var s := a + b;
    if b != [] { assert s[|a|] == b[0]; }
    assert forall i :: 0 <= i < |a| ==> s[i] == a[i];
  }

  lemma IndexAfter(a: JsString, c: Unit, b: JsString)
    requires Without(a, c)
    ensures IndexOf(a + [c] + b, c) == Some(|a|)
    ensures IndexOf(a, c) == None
  {
    FirstAfter(a, [c] + b, u => u == c);
    assert a + ([c] + b) == a + [c] + b;
    FirstAfter(a, [], u => u == c);
    assert a + [] == a;
  }

  lemma {:induction false} LastIndexBefore(a: JsString, c: Unit, b: JsString)
    requires Without(b, c)
    ensures LastIndexOf(a + [c] + b, c) == Some(|a|)
  {
    var s := a + [c] + b;
    if b != [] {
      LastIndexBefore(a, c, b[..|b| - 1]);
      assert s[..|s| - 1] == a + [c] + b[..|b| - 1];
    }
  }

  lemma {:induction false} LastIndexNone(s: JsString, c: Unit)
    requires Without(s, c)
    ensures LastIndexOf(s, c) == None
  {
  }

  // ---------------------------------------------------------------- characters

  predicate IsGraphic(u: Unit) { 0x21 <= u <= 0x7E }

  predicate IsDelimiter(u: Unit) { u == SLASH || u == QUESTION || u == HASH }

  predicate IsAuthorityChar(u: Unit) { IsGraphic(u) && !IsDelimiter(u) }

  predicate IsAlphanumeric(u: Unit) { JsonText.IsDigit(u) || IsUpper(u) || IsLower(u) }

  predicate IsHostChar(u: Unit) { IsAlphanumeric(u) || u == DOT || u == 0x2D }

  function LowerCase(u: Unit): Unit { if IsUpper(u) then u + 0x20 else u }

  /** `toLowerCase` on ASCII */
  function Lowered(s: JsString): (t: JsString)
    ensures |t| == |s| && forall i :: 0 <= i < |s| ==> t[i] == LowerCase(s[i])
  {
    seq(|s|, i requires 0 <= i < |s| => LowerCase(s[i]))
  }

  lemma LoweredTwice(s: JsString)
    ensures Lowered(Lowered(s)) == Lowered(s)
  {
  }

  // ---------------------------------------------------------------- the authority

  predicate AllDigits(s: JsString) { forall i :: 0 <= i < |s| ==> JsonText.IsDigit(s[i]) }

  /** `isValidPort` */
  predicate IsValidPort(s: JsString) { s != [] && AllDigits(s) && DigitsValue(s) <= 65535 }

  /** `normalizePort` */
  function NormalizedPort(s: JsString): JsString
    requires AllDigits(s)
  {
    Decimal(DigitsValue(s))
  }

  /** `parsePortSuffix` */
  function PortOf(suffix: JsString): Result<Option<JsString>, Reason>
  {
    if suffix == [] then Ok(None)
    else if suffix[0] != COLON then Err(InvalidAuthority)
    else if !IsValidPort(suffix[1..]) then Err(InvalidPort)
    else Ok(Some(NormalizedPort(suffix[1..])))
  }

  /** `parseBracketedHostAndPort` */
  function BracketedHost(raw: JsString, userInfo: Option<JsString>): Result<Authority, Reason>
  {
    match IndexOf(raw, CLOSE_BRACKET)
    case None => Err(InvalidHost)
    case Some(close) =>
      match PortOf(raw[close + 1..])
      case Err(e) => Err(e)
      case Ok(port) => Ok(Authority(userInfo, Lowered(raw[..close + 1]), port))
  }

  predicate IsHostText(s: JsString) { forall i :: 0 <= i < |s| ==> IsHostChar(s[i]) }

  /** `parseNamedHostAndPort` */
  function NamedHost(raw: JsString, userInfo: Option<JsString>): Result<Authority, Reason>
  {
    var lastColon := LastIndexOf(raw, COLON);
    if lastColon.None? || IndexOf(raw, COLON) != lastColon then
      if !IsHostText(raw) then Err(InvalidHost) else Ok(Authority(userInfo, Lowered(raw), None))
    else
      var host, port := raw[..lastColon.value], raw[lastColon.value + 1..];
      if !IsHostText(host) then Err(InvalidHost)
      else if !IsValidPort(port) then Err(InvalidPort)
      else Ok(Authority(userInfo, Lowered(host), Some(NormalizedPort(port))))
  }

  /** `parseHostAndPort` */
  function HostAndPort(raw: JsString, userInfo: Option<JsString>): Result<Authority, Reason>
  {
    if raw != [] && raw[0] == OPEN_BRACKET then BracketedHost(raw, userInfo) else NamedHost(raw, userInfo)
  }

  /** `parseAuthority` */
  function ParsedAuthority(raw: JsString): Result<Authority, Reason>
  {
    match LastIndexOf(raw, AT)
    case None => HostAndPort(raw, None)
    case Some(at) =>
      match Normalized(raw[..at])
      case None => Err(InvalidPercentEncoding)
      case Some(userInfo) => HostAndPort(raw[at + 1..], Some(userInfo))
  }

  function PortText(port: Option<JsString>): JsString { if port.None? then [] else [COLON] + port.value }

  /** `formatAuthority` */
  function AuthorityText(a: Authority): JsString
  {
    (if a.userInfo.None? then [] else a.userInfo.value + [AT]) + (a.host + PortText(a.port))
  }

  // ---------------------------------------------------------------- path, query and fragment

  function OptionallyNormalized(s: Option<JsString>): Result<Option<JsString>, Reason>
  {
    match s
    case None => Ok(None)
    case Some(text) => if Normalized(text).None? then Err(InvalidPercentEncoding) else Ok(Some(Normalized(text).value))
  }

  /** `splitPathQueryAndFragment` */
  function SplitSuffix(raw: JsString): Suffix
  {
    var hash := FirstOf(raw, u => u == HASH);
    var before := raw[..hash];
    var question := FirstOf(before, u => u == QUESTION);
    Suffix(before[..question],
           if question < |before| then Some(before[question + 1..]) else None,
           if hash < |raw| then Some(raw[hash + 1..]) else None)
  }

  /** `normalizePathQueryAndFragment`, then `removeDotSegments` */
  function NormalizedSuffix(raw: Suffix): Result<Suffix, Reason>
  {
    if Normalized(raw.path).None? then Err(InvalidPercentEncoding)
    else match OptionallyNormalized(raw.query)
      case Err(e) => Err(e)
      case Ok(query) =>
        match OptionallyNormalized(raw.fragment)
        case Err(e) => Err(e)
        case Ok(fragment) => Ok(Suffix(DotSegmentsRemoved(Normalized(raw.path).value), query, fragment))
  }

  /** `parsePathQueryAndFragment` */
  function ParsedSuffix(raw: JsString): Result<Suffix, Reason> { NormalizedSuffix(SplitSuffix(raw)) }

  function Prefixed(c: Unit, s: Option<JsString>): JsString { if s.None? then [] else [c] + s.value }

  function SuffixText(s: Suffix): JsString { s.path + (Prefixed(QUESTION, s.query) + Prefixed(HASH, s.fragment)) }

  // ---------------------------------------------------------------- logical URIs

  predicate IsLogicalScheme(scheme: JsString) { scheme == Lit("nireco") || scheme == Lit("comet") }

  predicate IsLowerAlphanumeric(u: Unit) { JsonText.IsDigit(u) || IsLower(u) }

  /** The pattern for the host of a logical URI. */
  predicate IsLogicalHost(s: JsString)
  {
    s != [] && IsLowerAlphanumeric(s[0]) && IsLowerAlphanumeric(s[|s| - 1]) &&
    forall i :: 0 <= i < |s| ==> IsLowerAlphanumeric(s[i]) || s[i] == DOT || s[i] == 0x2D
  }

  /** Unreserved characters and the others a path segment may hold unescaped. */
  predicate IsSegmentChar(u: Unit)
  {
    IsUnreserved(u) || u in {0x21, 0x24, 0x26, 0x27, 0x28, 0x29, 0x2A, 0x2B, 0x2C, 0x3B, 0x3D, 0x3A, 0x40}
  }

  predicate IsSegmentText(s: JsString)
  {
    s == [] ||
    (if s[0] == PERCENT then |s| >= 3 && IsUpperHex(s[1]) && IsUpperHex(s[2]) && IsSegmentText(s[3..])
     else IsSegmentChar(s[0]) && IsSegmentText(s[1..]))
  }

  predicate IsLogicalSegment(s: JsString) { s != [] && !IsDot(s) && !IsDotDot(s) && IsSegmentText(s) }

  /** The segments after the leading slash, without an empty last one. */
  function LogicalSegments(path: JsString): seq<JsString>
  {
    var segments := Segments(path)[1..];
    if segments != [] && segments[|segments| - 1] == [] then segments[..|segments| - 1] else segments
  }

  predicate IsLogicalPath(path: JsString)
  {
    HasLeadingSlash(path) && |LogicalSegments(path)| >= 2 &&
    forall i :: 0 <= i < |LogicalSegments(path)| ==> IsLogicalSegment(LogicalSegments(path)[i])
  }

  /** `validateLogicalUri` */
  function LogicalError(a: Authority, s: Suffix): Option<Reason>
  {
    if a.userInfo.Some? then Some(LogicalUserInfo)
    else if a.port.Some? then Some(LogicalPort)
    else if s.query.Some? then Some(LogicalQuery)
    else if s.fragment.Some? then Some(LogicalFragment)
    else if !IsLogicalHost(a.host) then Some(InvalidHost)
    else if !IsLogicalPath(s.path) then Some(LogicalPathInvalid)
    else None
  }

  /** `validateHierarchicalUri` */
  function HierarchicalError(scheme: JsString, a: Authority, s: Suffix): Option<Reason>
  {
    if a.host == [] && scheme != Lit("file") then Some(InvalidAuthority)
    else if IsLogicalScheme(scheme) then LogicalError(a, s)
    else None
  }

  // ---------------------------------------------------------------- the whole URI

  /** `normalizeDefaultPort` */
  function WithoutDefaultPort(scheme: JsString, a: Authority): Authority
  {
    if (scheme == Lit("http") && a.port == Some(Lit("80"))) || (scheme == Lit("https") && a.port == Some(Lit("443")))
    then a.(port := None) else a
  }

  /** `normalizeHierarchicalPath` */
  function WithoutTrailingSlash(scheme: JsString, s: Suffix): Suffix
  {
    if IsLogicalScheme(scheme) && |s.path| > 1 && EndsWith(s.path, [SLASH])
    then s.(path := s.path[..|s.path| - 1]) else s
  }

  function HierarchicalText(scheme: JsString, a: Authority, s: Suffix): JsString
  {
    scheme + [COLON] + ([SLASH, SLASH] + (AuthorityText(a) + SuffixText(s)))
  }

  /** `parseHierarchicalRemainder` and `normalizeHierarchicalUri`, on what follows the two slashes. */
  function Hierarchical(scheme: JsString, content: JsString): Result<JsString, Reason>
  {
    var end := FirstOf(content, IsDelimiter);
    match ParsedAuthority(content[..end])
    case Err(e) => Err(e)
    case Ok(a) =>
      match ParsedSuffix(content[end..])
      case Err(e) => Err(e)
      case Ok(s) =>
        if HierarchicalError(scheme, a, s).Some? then Err(HierarchicalError(scheme, a, s).value)
        else Ok(HierarchicalText(scheme, WithoutDefaultPort(scheme, a), WithoutTrailingSlash(scheme, s)))
  }

  predicate IsScheme(s: JsString)
  {
    s != [] && (IsUpper(s[0]) || IsLower(s[0])) &&
    forall i :: 0 <= i < |s| ==> IsAlphanumeric(s[i]) || s[i] == 0x2B || s[i] == DOT || s[i] == 0x2D
  }

  /** `validateCommonInput` */
  function CommonError(input: JsString): Option<Reason>
  {
    if input == [] then Some(EmptyInput)
    else if |input| > MAX_RESOURCE_URI_LENGTH then Some(TooLong)
    else if exists i :: 0 <= i < |input| && (input[i] <= 0x20 || input[i] == 0x7F) then Some(WhitespaceOrControl)
    else if exists i :: 0 <= i < |input| && input[i] > 0x7F then Some(NonAscii)
    else None
  }

  predicate StartsWithSlashes(s: JsString) { |s| >= 2 && s[0] == SLASH && s[1] == SLASH }

  function AfterScheme(scheme: JsString, remainder: JsString): Result<JsString, Reason>
  {
    if StartsWithSlashes(remainder) then Hierarchical(scheme, remainder[2..])
    else match Normalized(remainder)
      case None => Err(InvalidPercentEncoding)
      case Some(text) => Ok(scheme + [COLON] + text)
  }

  /** `canonicalizeResourceUri` */
  function Canonicalized(input: JsString): Result<JsString, Reason>
  {
    if CommonError(input).Some? then Err(CommonError(input).value)
    else match IndexOf(input, COLON)
      case None => Err(InvalidScheme)
      case Some(colon) =>
        if !IsScheme(input[..colon]) then Err(InvalidScheme)
        else AfterScheme(Lowered(input[..colon]), input[colon + 1..])
  }

  // ---------------------------------------------------------------- canonical authorities

  predicate AllAuthority(s: JsString) { forall i :: 0 <= i < |s| ==> IsAuthorityChar(s[i]) }

  predicate IsBracketed(h: JsString)
  {
    h != [] && h[0] == OPEN_BRACKET && IndexOf(h, CLOSE_BRACKET) == Some(|h| - 1)
  }

  predicate IsCanonicalHost(h: JsString)
  {
    (IsBracketed(h) || IsHostText(h)) && Lowered(h) == h && Without(h, AT) && AllAuthority(h)
  }

  predicate IsCanonicalPort(port: Option<JsString>)
  {
    port.Some? ==> IsValidPort(port.value) && NormalizedPort(port.value) == port.value
  }

  predicate IsCanonicalAuthority(a: Authority)
  {
    (a.userInfo.Some? ==> IsNormal(a.userInfo.value) && AllAuthority(a.userInfo.value)) &&
    IsCanonicalHost(a.host) && IsCanonicalPort(a.port)
  }

  lemma {:induction false} DecimalIsShort(s: JsString)
    requires s != [] && AllDigits(s)
    ensures |Decimal(DigitsValue(s))| <= |s|
  {
    if |s| > 1 {
      DecimalIsShort(s[..|s| - 1]);
    } else {
      assert s[..0] == [];
    }
  }

  lemma PortIsCanonical(s: JsString)
    requires IsValidPort(s)
    ensures IsCanonicalPort(Some(NormalizedPort(s))) && |NormalizedPort(s)| <= |s|
  {
    DecimalRoundTrip(DigitsValue(s));
    DecimalIsShort(s);
  }

  lemma PortTextReads(port: Option<JsString>)
    requires IsCanonicalPort(port)
    ensures PortOf(PortText(port)) == Ok(port) && AllAuthority(PortText(port)) && Without(PortText(port), AT)
  {
    if port.Some? { assert ([COLON] + port.value)[1..] == port.value; }
  }

  lemma BracketedIsCanonical(raw: JsString, userInfo: Option<JsString>)
    requires AllAuthority(raw) && Without(raw, AT) && raw != [] && raw[0] == OPEN_BRACKET &&
             BracketedHost(raw, userInfo).Ok?
    ensures var a := BracketedHost(raw, userInfo).value;
            IsCanonicalHost(a.host) && IsCanonicalPort(a.port) && a.userInfo == userInfo &&
            |a.host + PortText(a.port)| <= |raw|
  {
    var close := IndexOf(raw, CLOSE_BRACKET).value;
    var host := Lowered(raw[..close + 1]);
    LoweredTwice(raw[..close + 1]);
    var suffix := raw[close + 1..];
    if suffix != [] { PortIsCanonical(suffix[1..]); }
    BracketCloses(raw, close, host);
  }

  lemma BracketCloses(raw: JsString, close: nat, host: JsString)
    requires IndexOf(raw, CLOSE_BRACKET) == Some(close) && host == Lowered(raw[..close + 1])
    ensures IndexOf(host, CLOSE_BRACKET) == Some(close)
  {
    assert Without(host[..close], CLOSE_BRACKET);
    assert host == host[..close] + [CLOSE_BRACKET] + [];
    IndexAfter(host[..close], CLOSE_BRACKET, []);
  }

  lemma NamedIsCanonical(raw: JsString, userInfo: Option<JsString>)
    requires AllAuthority(raw) && Without(raw, AT) && NamedHost(raw, userInfo).Ok?
    ensures var a := NamedHost(raw, userInfo).value;
            IsCanonicalHost(a.host) && IsCanonicalPort(a.port) && a.userInfo == userInfo &&
            |a.host + PortText(a.port)| <= |raw|
  {
    hide IsCanonicalHost, IsCanonicalPort, IndexOf, IsHostText;
    var lastColon := LastIndexOf(raw, COLON);
    if lastColon.None? || IndexOf(raw, COLON) != lastColon {
      LoweredHost(raw);
      NoPortIsCanonical();
    } else {
      LoweredHost(raw[..lastColon.value]);
      PortIsCanonical(raw[lastColon.value + 1..]);
    }
  }

  lemma LoweredHost(h: JsString)
    requires IsHostText(h) && AllAuthority(h) && Without(h, AT)
    ensures IsCanonicalHost(Lowered(h))
  {
    LoweredTwice(h);
  }

  lemma NoPortIsCanonical()
    ensures IsCanonicalPort(None) && PortText(None) == []
  {
  }

  lemma AuthorityIsCanonical(raw: JsString)
    requires AllAuthority(raw) && ParsedAuthority(raw).Ok?
    ensures IsCanonicalAuthority(ParsedAuthority(raw).value) && |AuthorityText(ParsedAuthority(raw).value)| <= |raw|
  {
    hide IsCanonicalHost, IsCanonicalPort, BracketedHost, NamedHost;
    var at := LastIndexOf(raw, AT);
    var userInfo := if at.None? then None else Normalized(raw[..at.value]);
    var host := if at.None? then raw else raw[at.value + 1..];
    if at.Some? {
      NormalizedIsNormal(raw[..at.value]);
      NormalizedKeeps(IsAuthorityChar, raw[..at.value]);
    }
    if host != [] && host[0] == OPEN_BRACKET {
      BracketedIsCanonical(host, userInfo);
    } else {
      NamedIsCanonical(host, userInfo);
    }
  }

  /** The host and port of a canonical authority read back as themselves. */
  lemma HostReads(a: Authority)
    requires IsCanonicalHost(a.host) && IsCanonicalPort(a.port)
    ensures HostAndPort(a.host + PortText(a.port), a.userInfo) == Ok(a)
  {
    hide IsCanonicalPort, IsValidPort;
    var text := a.host + PortText(a.port);
    PortTextReads(a.port);
    if IsBracketed(a.host) {
      var n := |a.host| - 1;
      FirstAfter(a.host[..n], [CLOSE_BRACKET] + PortText(a.port), u => u == CLOSE_BRACKET);
      assert text == a.host[..n] + ([CLOSE_BRACKET] + PortText(a.port));
      assert text[..n + 1] == a.host && text[n + 1..] == PortText(a.port);
    } else {
      NamedReads(a);
    }
  }

  lemma NamedReads(a: Authority)
    requires IsHostText(a.host) && Lowered(a.host) == a.host && IsCanonicalPort(a.port)
    ensures HostAndPort(a.host + PortText(a.port), a.userInfo) == Ok(a)
  {
    hide LastIndexOf, IndexOf, IsValidPort, NormalizedPort;
    if a.port.None? {
      assert a.host + PortText(a.port) == a.host;
      LastIndexNone(a.host, COLON);
    } else {
      var text := a.host + [COLON] + a.port.value;
      assert a.host + PortText(a.port) == text;
      ColonSplits(a.host, a.port.value);
    }
  }

  lemma ColonSplits(host: JsString, port: JsString)
    requires IsHostText(host) && IsValidPort(port)
    ensures var text := host + [COLON] + port;
            IndexOf(text, COLON) == Some(|host|) == LastIndexOf(text, COLON) &&
            text[..|host|] == host && text[|host| + 1..] == port && (text[0] != OPEN_BRACKET)
  {
    assert Without(host, COLON) && Without(port, COLON);
    IndexAfter(host, COLON, port);
    LastIndexBefore(host, COLON, port);
  }

  lemma AuthorityReads(a: Authority)
    requires IsCanonicalAuthority(a)
    ensures ParsedAuthority(AuthorityText(a)) == Ok(a) && AllAuthority(AuthorityText(a))
  {
    hide HostAndPort, IsCanonicalPort;
    HostReads(a);
    PortTextReads(a.port);
    var host := a.host + PortText(a.port);
    assert Without(host, AT) && AllAuthority(host);
    if a.userInfo.None? {
      assert AuthorityText(a) == host;
      LastIndexNone(host, AT);
    } else {
      var info := a.userInfo.value;
      var text := info + [AT] + host;
      LastIndexBefore(info, AT, host);
      assert text[..|info|] == info && text[|info| + 1..] == host;
      NormalStays(info);
    }
  }

  // ---------------------------------------------------------------- canonical suffixes

  predicate AllGraphic(s: JsString) { forall i :: 0 <= i < |s| ==> IsGraphic(s[i]) }

  /** A normalized path: absolute or empty, without dot segments and with its escapes normalized. */
  predicate IsCanonicalPath(path: JsString)
  {
    (path == [] || HasLeadingSlash(path)) && DotSegmentsRemoved(path) == path && IsNormal(path) && IsPathText(path)
  }

  predicate IsPathText(s: JsString) { forall i :: 0 <= i < |s| ==> IsGraphic(s[i]) && s[i] != QUESTION && s[i] != HASH }

  predicate IsCanonicalSuffix(s: Suffix)
  {
    IsCanonicalPath(s.path) &&
    (s.query.Some? ==> IsNormal(s.query.value) && AllGraphic(s.query.value) && Without(s.query.value, HASH)) &&
    (s.fragment.Some? ==> IsNormal(s.fragment.value) && AllGraphic(s.fragment.value))
  }

  ghost predicate NormalPathText(s: JsString) { IsNormal(s) && IsPathText(s) }

  lemma NormalPathTextIsClosed()
    ensures SlashClosed(NormalPathText)
  {
    hide NormalPathText;
    NormalPathUnits();
    forall a, b | NormalPathText(a) && NormalPathText(b) ensures NormalPathText(a + b) {
      NormalPathConcat(a, b);
    }
    forall a, b | NormalPathText(a + [SLASH] + b) ensures NormalPathText(a) && NormalPathText(b) {
      NormalPathSplit(a, b);
    }
  }

  lemma NormalPathUnits()
    ensures NormalPathText([]) && NormalPathText([SLASH])
  {
    assert [SLASH][1..] == [];
  }

  lemma NormalPathConcat(a: JsString, b: JsString)
    requires NormalPathText(a) && NormalPathText(b)
    ensures NormalPathText(a + b)
  {
    NormalConcat(a, b);
  }

  lemma NormalPathSplit(a: JsString, b: JsString)
    requires NormalPathText(a + [SLASH] + b)
    ensures NormalPathText(a) && NormalPathText(b)
  {
    hide IsNormal;
    var s := a + [SLASH] + b;
    assert s == a + ([SLASH] + b);
    NormalSplit(a, [SLASH] + b);
    AfterSlash(b);
    assert forall i :: 0 <= i < |a| ==> s[i] == a[i];
    assert forall i :: 0 <= i < |b| ==> s[|a| + 1 + i] == b[i];
  }

  lemma AfterSlash(b: JsString)
    requires IsNormal([SLASH] + b)
    ensures IsNormal(b)
  {
    assert ([SLASH] + b)[1..] == b;
  }

  lemma PathIsCanonical(raw: JsString)
    requires (raw == [] || HasLeadingSlash(raw)) && IsPathText(raw) && Normalized(raw).Some?
    ensures var path := DotSegmentsRemoved(Normalized(raw).value); IsCanonicalPath(path) && |path| <= |raw|
    ensures raw != [] ==> DotSegmentsRemoved(Normalized(raw).value) != []
  {
    hide DotSegmentsRemoved;
    var text := Normalized(raw).value;
    NormalizedIsNormal(raw);
    NormalizedKeeps((u: Unit) => IsGraphic(u) && u != QUESTION && u != HASH, raw);
    assert raw != [] ==> HasLeadingSlash(text);
    RemovalIsIdempotent(text);
    if text != [] {
      NormalPathTextIsClosed();
      RemovalKeeps(NormalPathText, text);
      RemovalIsNoLonger(text);
    }
  }

  lemma OptionIsCanonical(s: Option<JsString>, c: Unit)
    requires s.Some? ==> AllGraphic(s.value) && Without(s.value, c)
    requires !IsUnreserved(c) && c != PERCENT && OptionallyNormalized(s).Ok?
    ensures var t := OptionallyNormalized(s).value;
            (t.Some? <==> s.Some?) &&
            (t.Some? ==> IsNormal(t.value) && AllGraphic(t.value) && Without(t.value, c) && |t.value| <= |s.value|)
  {
    if s.Some? {
      NormalizedIsNormal(s.value);
      NormalizedKeeps((u: Unit) => IsGraphic(u) && u != c, s.value);
    }
  }

  lemma SuffixIsCanonical(raw: JsString)
    requires AllGraphic(raw) && (raw == [] || IsDelimiter(raw[0])) && ParsedSuffix(raw).Ok?
    ensures IsCanonicalSuffix(ParsedSuffix(raw).value) && |SuffixText(ParsedSuffix(raw).value)| <= |raw|
  {
    hide IsCanonicalPath, DotSegmentsRemoved, SplitSuffix;
    var parts := SplitSuffix(raw);
    SplitParts(raw);
    PathIsCanonical(parts.path);
    OptionIsCanonical(parts.query, HASH);
    FragmentIsCanonical(parts.fragment);
  }

  lemma SplitParts(raw: JsString)
    requires AllGraphic(raw) && (raw == [] || IsDelimiter(raw[0]))
    ensures var s := SplitSuffix(raw);
            IsPathText(s.path) && (s.path == [] || HasLeadingSlash(s.path)) &&
            (s.query.Some? ==> AllGraphic(s.query.value) && Without(s.query.value, HASH)) &&
            (s.fragment.Some? ==> AllGraphic(s.fragment.value)) && |SuffixText(s)| == |raw|
  {
  }

  lemma FragmentIsCanonical(s: Option<JsString>)
    requires (s.Some? ==> AllGraphic(s.value)) && OptionallyNormalized(s).Ok?
    ensures var t := OptionallyNormalized(s).value;
            (t.Some? <==> s.Some?) && (t.Some? ==> IsNormal(t.value) && AllGraphic(t.value) && |t.value| <= |s.value|)
  {
    if s.Some? {
      NormalizedIsNormal(s.value);
      NormalizedKeeps(IsGraphic, s.value);
    }
  }

  lemma SuffixSplits(s: Suffix)
    requires Without(s.path, QUESTION) && Without(s.path, HASH) && (s.query.Some? ==> Without(s.query.value, HASH))
    ensures SplitSuffix(SuffixText(s)) == s
  {
    hide FirstOf, Prefixed;
    var before := s.path + Prefixed(QUESTION, s.query);
    assert SuffixText(s) == before + Prefixed(HASH, s.fragment);
    QueryHasNoHash(s);
    CutReads(before, HASH, s.fragment);
    CutReads(s.path, QUESTION, s.query);
  }

  lemma QueryHasNoHash(s: Suffix)
    requires Without(s.path, HASH) && (s.query.Some? ==> Without(s.query.value, HASH))
    ensures Without(s.path + Prefixed(QUESTION, s.query), HASH)
  {
  }

  lemma CutReads(a: JsString, c: Unit, tail: Option<JsString>)
    requires Without(a, c)
    ensures var text := a + Prefixed(c, tail);
            var at := FirstOf(text, u => u == c);
            text[..at] == a && (at < |text| <==> tail.Some?) && (tail.Some? ==> text[at + 1..] == tail.value)
  {
    FirstAfter(a, Prefixed(c, tail), u => u == c);
    var text := a + Prefixed(c, tail);
    assert text[..|a|] == a;
    if tail.Some? { assert text[|a| + 1..] == tail.value; }
  }

  lemma SuffixReads(s: Suffix)
    requires IsCanonicalSuffix(s)
    ensures ParsedSuffix(SuffixText(s)) == Ok(s) && AllGraphic(SuffixText(s))
    ensures SuffixText(s) == [] || IsDelimiter(SuffixText(s)[0])
  {
    hide DotSegmentsRemoved, IsNormal, Normalized, SplitSuffix;
    SuffixSplits(s);
    NormalStays(s.path);
    if s.query.Some? { NormalStays(s.query.value); }
    if s.fragment.Some? { NormalStays(s.fragment.value); }
  }

  // ---------------------------------------------------------------- reading the canonical text

  lemma WithoutDefaultPortIsCanonical(scheme: JsString, a: Authority)
    requires IsCanonicalAuthority(a)
    ensures var b := WithoutDefaultPort(scheme, a);
            IsCanonicalAuthority(b) && |AuthorityText(b)| <= |AuthorityText(a)| && WithoutDefaultPort(scheme, b) == b
  {
    hide IsCanonicalHost;
  }

  lemma WithoutTrailingSlashIsCanonical(scheme: JsString, a: Authority, s: Suffix)
    requires IsCanonicalSuffix(s) && HierarchicalError(scheme, a, s).None?
    ensures var t := WithoutTrailingSlash(scheme, s);
            IsCanonicalSuffix(t) && |SuffixText(t)| <= |SuffixText(s)| &&
            HierarchicalError(scheme, WithoutDefaultPort(scheme, a), t).None? && WithoutTrailingSlash(scheme, t) == t
  {
    hide DotSegmentsRemoved, IsLogicalHost;
    var t := WithoutTrailingSlash(scheme, s);
    if t != s {
      var n := |s.path| - 1;
      TrimmedStays(s.path);
      assert NormalPathText(s.path) && s.path == t.path + [SLASH] + [];
      NormalPathTextIsClosed();
      TrimmedIsLogical(t.path);
    }
  }

  lemma TrimmedIsLogical(path: JsString)
    requires HasLeadingSlash(path) && IsLogicalPath(path + [SLASH])
    ensures IsLogicalPath(path) && !EndsWith(path, [SLASH])
  {
    assert path + [SLASH] == path + [SLASH] + [];
    SegmentsLast(path, []);
    var segments := Segments(path);
    assert (segments + [[]])[1..] == segments[1..] + [[]] by { assert segments != []; }
    var all := segments[1..] + [[]];
    assert all[..|all| - 1] == segments[1..];
    assert LogicalSegments(path + [SLASH]) == segments[1..];
    assert segments[|segments| - 1] == segments[1..][|segments| - 2];
    assert IsLogicalSegment(segments[1..][|segments| - 2]);
    if EndsWith(path, [SLASH]) { LastAfterSlash(path, []); }
  }

  lemma HierarchicalReads(scheme: JsString, a: Authority, s: Suffix)
    requires IsCanonicalAuthority(a) && IsCanonicalSuffix(s) && HierarchicalError(scheme, a, s).None?
    requires WithoutDefaultPort(scheme, a) == a && WithoutTrailingSlash(scheme, s) == s
    ensures Hierarchical(scheme, AuthorityText(a) + SuffixText(s)) == Ok(HierarchicalText(scheme, a, s))
  {
    hide AuthorityText, SuffixText, ParsedAuthority, ParsedSuffix, IsCanonicalAuthority, IsCanonicalSuffix,
         HierarchicalError, WithoutDefaultPort, WithoutTrailingSlash, HierarchicalText;
    AuthorityReads(a);
    SuffixReads(s);
    var front, back := AuthorityText(a), SuffixText(s);
    FirstAfter(front, back, IsDelimiter);
    assert (front + back)[..|front|] == front && (front + back)[|front|..] == back;
  }

  lemma SchemeLowered(raw: JsString)
    requires IsScheme(raw)
    ensures IsScheme(Lowered(raw)) && Lowered(Lowered(raw)) == Lowered(raw)
    ensures Without(Lowered(raw), COLON) && AllGraphic(Lowered(raw))
  {
    LoweredTwice(raw);
  }

  /** A canonical scheme and a colon are taken off again. */
  lemma SchemeReads(scheme: JsString, rest: JsString)
    requires IsScheme(scheme) && Lowered(scheme) == scheme && Without(scheme, COLON) && AllGraphic(scheme) &&
             AllGraphic(rest)
    requires |scheme + [COLON] + rest| <= MAX_RESOURCE_URI_LENGTH
    ensures Canonicalized(scheme + [COLON] + rest) == AfterScheme(scheme, rest)
  {
    hide AfterScheme, IsScheme;
    var text := scheme + [COLON] + rest;
    assert AllGraphic(text);
    GraphicIsCommon(text);
    IndexAfter(scheme, COLON, rest);
    assert text[..|scheme|] == scheme && text[|scheme| + 1..] == rest;
  }

  lemma GraphicIsCommon(text: JsString)
    requires text != [] && |text| <= MAX_RESOURCE_URI_LENGTH && AllGraphic(text)
    ensures CommonError(text).None?
  {
  }

  lemma CommonIsGraphic(text: JsString)
    requires CommonError(text).None?
    ensures AllGraphic(text) && text != [] && |text| <= MAX_RESOURCE_URI_LENGTH
  {
    forall i | 0 <= i < |text| ensures IsGraphic(text[i]) {
      assert !(text[i] <= 0x20 || text[i] == 0x7F);
      assert !(text[i] > 0x7F);
    }
  }

  lemma OpaqueIsIdempotent(scheme: JsString, rest: JsString)
    requires IsScheme(scheme) && Lowered(scheme) == scheme && Without(scheme, COLON) && AllGraphic(scheme) &&
             AllGraphic(rest)
    requires !StartsWithSlashes(rest) && Normalized(rest).Some? && |scheme| + 1 + |rest| <= MAX_RESOURCE_URI_LENGTH
    ensures var out := scheme + [COLON] + Normalized(rest).value;
            Canonicalized(out) == Ok(out) && |out| <= |scheme| + 1 + |rest|
  {
    var text := Normalized(rest).value;
    NormalizedIsNormal(rest);
    NormalizedKeeps(IsGraphic, rest);
    NormalStays(text);
    NoNewSlashes(rest);
    SchemeReads(scheme, text);
  }

  /** A slash is never decoded, so no second slash moves to the front. */
  lemma NoNewSlashes(s: JsString)
    requires !StartsWithSlashes(s) && Normalized(s).Some?
    ensures !StartsWithSlashes(Normalized(s).value)
  {
    if s != [] && s[0] == SLASH && |s| > 1 {
      var tail := s[1..];
      assert Normalized(s).value == [SLASH] + Normalized(tail).value;
      assert tail[0] != SLASH && Normalized(tail).value[0] != SLASH;
    }
  }

  lemma HierarchicalIsIdempotent(scheme: JsString, content: JsString)
    requires IsScheme(scheme) && Lowered(scheme) == scheme && Without(scheme, COLON) && AllGraphic(scheme) &&
             AllGraphic(content)
    requires |scheme| + 3 + |content| <= MAX_RESOURCE_URI_LENGTH && Hierarchical(scheme, content).Ok?
    ensures var out := Hierarchical(scheme, content).value;
            Canonicalized(out) == Ok(out) && |out| <= |scheme| + 3 + |content|
  {
    hide ParsedAuthority, ParsedSuffix, AuthorityText, SuffixText, HierarchicalError, WithoutDefaultPort,
         WithoutTrailingSlash, IsCanonicalAuthority, IsCanonicalSuffix, IsScheme, Canonicalized;
    var end := FirstOf(content, IsDelimiter);
    var a, s := ParsedAuthority(content[..end]).value, ParsedSuffix(content[end..]).value;
    AuthorityIsCanonical(content[..end]);
    SuffixIsCanonical(content[end..]);
    WithoutDefaultPortIsCanonical(scheme, a);
    WithoutTrailingSlashIsCanonical(scheme, a, s);
    HierarchicalTextReads(scheme, WithoutDefaultPort(scheme, a), WithoutTrailingSlash(scheme, s));
  }

  lemma HierarchicalTextReads(scheme: JsString, a: Authority, s: Suffix)
    requires IsScheme(scheme) && Lowered(scheme) == scheme && Without(scheme, COLON) && AllGraphic(scheme)
    requires IsCanonicalAuthority(a) && IsCanonicalSuffix(s) && HierarchicalError(scheme, a, s).None?
    requires WithoutDefaultPort(scheme, a) == a && WithoutTrailingSlash(scheme, s) == s
    requires |scheme| + 3 + |AuthorityText(a)| + |SuffixText(s)| <= MAX_RESOURCE_URI_LENGTH
    ensures Canonicalized(HierarchicalText(scheme, a, s)) == Ok(HierarchicalText(scheme, a, s))
  {
    hide AuthorityText, SuffixText, HierarchicalError, WithoutDefaultPort, WithoutTrailingSlash, IsCanonicalAuthority,
         IsCanonicalSuffix, IsScheme, Canonicalized, Hierarchical;
    HierarchicalReads(scheme, a, s);
    AuthorityReads(a);
    SuffixReads(s);
    var rest := [SLASH, SLASH] + (AuthorityText(a) + SuffixText(s));
    assert rest[2..] == AuthorityText(a) + SuffixText(s);
    SlashesAreGraphic(AuthorityText(a), SuffixText(s));
    SchemeReads(scheme, rest);
  }

  lemma SlashesAreGraphic(authority: JsString, suffix: JsString)
    requires AllAuthority(authority) && AllGraphic(suffix)
    ensures AllGraphic([SLASH, SLASH] + (authority + suffix))
  {
  }

  /** Canonicalization is idempotent on every accepted input, and never makes it longer. */
  lemma CanonicalizationIsIdempotent(input: JsString)
    requires Canonicalized(input).Ok?
    ensures Canonicalized(Canonicalized(input).value) == Canonicalized(input)
    ensures |Canonicalized(input).value| <= |input|
  {
    hide Hierarchical;
    CommonIsGraphic(input);
    var colon := IndexOf(input, COLON).value;
    var scheme, rest := Lowered(input[..colon]), input[colon + 1..];
    SchemeLowered(input[..colon]);
    if StartsWithSlashes(rest) {
      HierarchicalIsIdempotent(scheme, rest[2..]);
    } else {
      OpaqueIsIdempotent(scheme, rest);
    }
  }

  // ---------------------------------------------------------------- what canonical parts look like

  ghost predicate IsOpaqueForm(out: JsString, scheme: JsString, text: JsString)
  {
    IsScheme(scheme) && Lowered(scheme) == scheme && out == scheme + [COLON] + text && IsNormal(text)
  }

  /** A lower-case scheme and host, a decimal port, normal escapes in user info, path, query and fragment,
      and a path without dot segments. */
  ghost predicate IsHierarchicalForm(out: JsString, scheme: JsString, a: Authority, s: Suffix)
  {
    IsScheme(scheme) && Lowered(scheme) == scheme &&
    out == HierarchicalText(scheme, a, s) && IsCanonicalAuthority(a) && IsCanonicalSuffix(s) &&
    forall i :: 0 <= i < |Segments(s.path)| ==> !IsDot(Segments(s.path)[i]) && !IsDotDot(Segments(s.path)[i])
  }

  /** What every canonical URI looks like. */
  lemma CanonicalForm(input: JsString)
    requires Canonicalized(input).Ok?
    ensures AllGraphic(Canonicalized(input).value)
    ensures (exists scheme, text :: IsOpaqueForm(Canonicalized(input).value, scheme, text)) ||
            (exists scheme, a, s :: IsHierarchicalForm(Canonicalized(input).value, scheme, a, s))
  {
    hide Hierarchical, IsScheme, IsHierarchicalForm;
    CanonicalizationIsIdempotent(input);
    CommonIsGraphic(Canonicalized(input).value);
    CommonIsGraphic(input);
    var colon := IndexOf(input, COLON).value;
    var scheme, rest := Lowered(input[..colon]), input[colon + 1..];
    SchemeLowered(input[..colon]);
    if StartsWithSlashes(rest) {
      var a, s := HierarchicalParts(scheme, rest[2..]);
    } else {
      NormalizedIsNormal(rest);
      assert IsOpaqueForm(Canonicalized(input).value, scheme, Normalized(rest).value);
    }
  }

  lemma HierarchicalParts(scheme: JsString, content: JsString) returns (b: Authority, t: Suffix)
    requires IsScheme(scheme) && Lowered(scheme) == scheme && AllGraphic(content) && Hierarchical(scheme, content).Ok?
    ensures IsHierarchicalForm(Hierarchical(scheme, content).value, scheme, b, t)
  {
    hide ParsedAuthority, ParsedSuffix, AuthorityText, SuffixText, HierarchicalError, WithoutDefaultPort,
         WithoutTrailingSlash, IsCanonicalAuthority, DotSegmentsRemoved;
    var end := FirstOf(content, IsDelimiter);
    var a, s := ParsedAuthority(content[..end]).value, ParsedSuffix(content[end..]).value;
    AuthorityIsCanonical(content[..end]);
    SuffixIsCanonical(content[end..]);
    WithoutDefaultPortIsCanonical(scheme, a);
    WithoutTrailingSlashIsCanonical(scheme, a, s);
    b, t := WithoutDefaultPort(scheme, a), WithoutTrailingSlash(scheme, s);
    if t.path != [] { NoDotSegments(t.path); }
  }
}
