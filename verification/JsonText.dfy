/**
 `JSON.parse`.

 The parser covers the whole grammar of JSON text: whitespace, every escape, every number.
 What number a numeric text denotes is left to `read`, which gives the text
 `JSON.stringify` prints for it, or None when the text overflows to an infinity.
 */
module JsonText {
  import opened Wrappers
  import opened Utf8
  import opened CodePointOrder
  import opened CanonicalJson

  datatype Parsed<+T> = Parsed(value: T, rest: JsString)

  type NumberReading = JsString -> Option<JsString>

  // ---------------------------------------------------------------- lexical parts

  predicate IsSpace(u: Unit) { u == 32 || u == 9 || u == 10 || u == 13 }

  function SkipSpace(s: JsString): (r: JsString)
    ensures |r| <= |s|
  {
    if s != [] && IsSpace(s[0]) then SkipSpace(s[1..]) else s
  }

  function HexValue(u: Unit): (r: Option<int>)
    ensures r.Some? ==> 0 <= r.value < 0x10
  {
    if 48 <= u <= 57 then Some(u - 48)
    else if 97 <= u <= 102 then Some(u - 87)
    else if 65 <= u <= 70 then Some(u - 55)
    else None
  }

  function TwoHex(high: Unit, low: Unit): (r: Option<int>)
    ensures r.Some? ==> 0 <= r.value < 0x100
  {
    match (HexValue(high), HexValue(low))
    case (Some(a), Some(b)) => Some(a * 0x10 + b)
    case _ => None
  }

  function FourHex(s: JsString): (r: Option<int>)
    ensures r.Some? ==> |s| >= 4 && 0 <= r.value < 0x10000
  {
    if |s| < 4 then None
    else match (TwoHex(s[0], s[1]), TwoHex(s[2], s[3]))
      case (Some(a), Some(b)) => Some(a * 0x100 + b)
      case _ => None
  }

  /** The unit an escape stands for, read after the backslash. */
  function ParseEscape(s: JsString): (r: Option<Parsed<Unit>>)
    ensures r.Some? ==> |r.value.rest| < |s|
  {
    if s == [] then None
    else if s[0] == QUOTE || s[0] == BACKSLASH || s[0] == 47 then Some(Parsed(s[0], s[1..]))
    else if s[0] == 98 then Some(Parsed(8, s[1..]))
    else if s[0] == 116 then Some(Parsed(9, s[1..]))
    else if s[0] == 110 then Some(Parsed(10, s[1..]))
    else if s[0] == 102 then Some(Parsed(12, s[1..]))
    else if s[0] == 114 then Some(Parsed(13, s[1..]))
    else if s[0] == 117 then
      (match FourHex(s[1..]) case None => None case Some(n) => Some(Parsed(n, s[5..])))
    else None
  }

  /** The characters of a string up to its closing quote. */
  function ParseChars(s: JsString): (r: Option<Parsed<JsString>>)
    ensures r.Some? ==> |r.value.rest| < |s|
    decreases |s|
  {
    if s == [] || s[0] < 0x20 then None
    else if s[0] == QUOTE then Some(Parsed([], s[1..]))
    else if s[0] == BACKSLASH then
      match ParseEscape(s[1..])
      case None => None
      case Some(e) => PrependUnit(e.value, ParseChars(e.rest))
    else PrependUnit(s[0], ParseChars(s[1..]))
  }

  function PrependUnit(u: Unit, r: Option<Parsed<JsString>>): Option<Parsed<JsString>>
  {
    match r
    case None => None
    case Some(p) => Some(Parsed([u] + p.value, p.rest))
  }

  predicate IsDigit(u: Unit) { 48 <= u <= 57 }

  predicate IsExponent(u: Unit) { u == 69 || u == 101 }

  predicate IsNumberUnit(u: Unit) { IsDigit(u) || IsExponent(u) || u == 43 || u == 45 || u == 46 }

  datatype NumberState = Start | Minus | Zero | Integer | Dot | Fraction | Exponent | Sign | Power | Bad

  function NumberStep(q: NumberState, u: Unit): NumberState
  {
    match q
    case Start => if u == 45 then Minus else if u == 48 then Zero else if IsDigit(u) then Integer else Bad
    case Minus => if u == 48 then Zero else if IsDigit(u) then Integer else Bad
    case Zero => if u == 46 then Dot else if IsExponent(u) then Exponent else Bad
    case Integer => if IsDigit(u) then Integer else if u == 46 then Dot else if IsExponent(u) then Exponent else Bad
    case Dot => if IsDigit(u) then Fraction else Bad
    case Fraction => if IsDigit(u) then Fraction else if IsExponent(u) then Exponent else Bad
    case Exponent => if IsDigit(u) then Power else if u == 43 || u == 45 then Sign else Bad
    case Sign => if IsDigit(u) then Power else Bad
    case Power => if IsDigit(u) then Power else Bad
    case Bad => Bad
  }

  function NumberRun(q: NumberState, s: JsString): NumberState
    decreases |s|
  {
    if s == [] then q else NumberRun(NumberStep(q, s[0]), s[1..])
  }

  /** The number grammar of JSON. */
  predicate IsNumberText(s: JsString)
  {
    var q := NumberRun(Start, s); q.Zero? || q.Integer? || q.Fraction? || q.Power?
  }

  function NumberLength(s: JsString): (n: nat)
    ensures n <= |s|
  {
    if s != [] && IsNumberUnit(s[0]) then 1 + NumberLength(s[1..]) else 0
  }

  // ---------------------------------------------------------------- values

  /** `null`, `true`, `false` or a number. */
  function ParseWord(read: NumberReading, s: JsString): (r: Option<Parsed<Json>>)
    ensures r.Some? ==> |r.value.rest| < |s|
  {
    if Lit("null") <= s then Some(Parsed(Null, s[4..]))
    else if Lit("true") <= s then Some(Parsed(Bool(true), s[4..]))
    else if Lit("false") <= s then Some(Parsed(Bool(false), s[5..]))
    else
      var n := NumberLength(s);
      if n == 0 || !IsNumberText(s[..n]) then None
      else match read(s[..n])
        case None => Some(Parsed(NonFinite, s[n..]))
        case Some(token) => Some(Parsed(Number(token), s[n..]))
  }

  function ParseValue(read: NumberReading, s: JsString): (r: Option<Parsed<Json>>)
    ensures r.Some? ==> |r.value.rest| < |s|
    decreases |s|, 1
  {
    var t := SkipSpace(s);
    if t == [] then None
    else if t[0] == QUOTE then
      (match ParseChars(t[1..]) case None => None case Some(p) => Some(Parsed(String(p.value), p.rest)))
    else if t[0] == OPEN_BRACKET then ParseArray(read, t[1..])
    else if t[0] == OPEN_BRACE then ParseObject(read, t[1..])
    else ParseWord(read, t)
  }

  function ParseArray(read: NumberReading, s: JsString): (r: Option<Parsed<Json>>)
    ensures r.Some? ==> |r.value.rest| < |s|
    decreases |s|, 3
  {
    var t := SkipSpace(s);
    if t != [] && t[0] == CLOSE_BRACKET then Some(Parsed(Array([]), t[1..]))
    else match ParseItems(read, s) case None => None case Some(p) => Some(Parsed(Array(p.value), p.rest))
  }

  function ParseItems(read: NumberReading, s: JsString): (r: Option<Parsed<seq<Json>>>)
    ensures r.Some? ==> |r.value.rest| < |s|
    decreases |s|, 2
  {
    match ParseValue(read, s)
    case None => None
    case Some(p) =>
      var t := SkipSpace(p.rest);
      if t == [] then None
      else if t[0] == CLOSE_BRACKET then Some(Parsed([p.value], t[1..]))
      else if t[0] == COMMA then
        (match ParseItems(read, t[1..]) case None => None case Some(q) => Some(Parsed([p.value] + q.value, q.rest)))
      else None
  }

  function ParseObject(read: NumberReading, s: JsString): (r: Option<Parsed<Json>>)
    ensures r.Some? ==> |r.value.rest| < |s|
    decreases |s|, 3
  {
    var t := SkipSpace(s);
    if t != [] && t[0] == CLOSE_BRACE then Some(Parsed(Object([]), t[1..]))
    else match ParseMembers(read, s) case None => None case Some(p) => Some(Parsed(Object(p.value), p.rest))
  }

  function ParseMembers(read: NumberReading, s: JsString): (r: Option<Parsed<seq<Entry<Json>>>>)
    ensures r.Some? ==> |r.value.rest| < |s|
    decreases |s|, 2
  {
    match ParseMember(read, s)
    case None => None
    case Some(p) =>
      var t := SkipSpace(p.rest);
      if t == [] then None
      else if t[0] == CLOSE_BRACE then Some(Parsed([p.value], t[1..]))
      else if t[0] == COMMA then
        (match ParseMembers(read, t[1..])
         case None => None
         case Some(q) => Some(Parsed(AddField(p.value, q.value), q.rest)))
      else None
  }

  function ParseMember(read: NumberReading, s: JsString): (r: Option<Parsed<Entry<Json>>>)
    ensures r.Some? ==> |r.value.rest| < |s|
    decreases |s|, 1
  {
    var t := SkipSpace(s);
    if t == [] || t[0] != QUOTE then None
    else match ParseChars(t[1..])
      case None => None
      case Some(k) =>
        var u := SkipSpace(k.rest);
        if u == [] || u[0] != COLON then None
        else match ParseValue(read, u[1..])
          case None => None
          case Some(p) => Some(Parsed(Entry(k.value, p.value), p.rest))
  }

  /** Of two members with one key the later value wins. */
  function AddField(e: Entry<Json>, later: seq<Entry<Json>>): seq<Entry<Json>>
  {
    if exists i :: 0 <= i < |later| && later[i].key == e.key then later else [e] + later
  }

  /** `JSON.parse`; None stands for its SyntaxError. */
  function ParseText(read: NumberReading, s: JsString): Option<Json>
  {
    match ParseValue(read, s)
    case None => None
    case Some(p) => if SkipSpace(p.rest) == [] then Some(p.value) else None
  }
}
