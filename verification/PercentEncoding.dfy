/**
 `normalizePercentEncoding` of `src/base/uri/resource-uri.ts`: escapes of unreserved characters are
 decoded, the others get upper-case digits (sections 6.2.2.1 and 6.2.2.2 of RFC 3986).
 */
module PercentEncoding {
  import opened Wrappers
  import opened Utf8
  import JsonText

  const PERCENT: Unit := 0x25

  predicate IsUpper(u: Unit) { 0x41 <= u <= 0x5A }

  predicate IsLower(u: Unit) { 0x61 <= u <= 0x7A }

  predicate IsHex(u: Unit) { JsonText.IsDigit(u) || 0x41 <= u <= 0x46 || 0x61 <= u <= 0x66 }

  predicate IsUpperHex(u: Unit) { JsonText.IsDigit(u) || 0x41 <= u <= 0x46 }

  /** Letters, digits, `.`, `_`, `~` and `-`. */
  predicate IsUnreserved(u: Unit)
  {
    JsonText.IsDigit(u) || IsUpper(u) || IsLower(u) || u == 0x2E || u == 0x5F || u == 0x7E || u == 0x2D
  }

  function HexValue(u: Unit): (n: nat)
    requires IsHex(u)
    ensures n < 16
  {
    if u <= 0x39 then u - 0x30 else if u <= 0x46 then u - 0x41 + 10 else u - 0x61 + 10
  }

  function UpperCase(u: Unit): Unit { if IsLower(u) then u - 0x20 else u }

  function Decoded(high: Unit, low: Unit): Unit
    requires IsHex(high) && IsHex(low)
  {
    HexValue(high) * 16 + HexValue(low)
  }

  /** What one escape becomes. */
  function Escape(high: Unit, low: Unit): (s: JsString)
    requires IsHex(high) && IsHex(low)
    ensures 1 <= |s| <= 3
  {
    if IsUnreserved(Decoded(high, low)) then [Decoded(high, low)] else [PERCENT, UpperCase(high), UpperCase(low)]
  }

  predicate StartsWithEscape(s: JsString) { |s| >= 3 && s[0] == PERCENT && IsHex(s[1]) && IsHex(s[2]) }

  function Prepended(front: JsString, r: Option<JsString>): Option<JsString>
  {
    if r.None? then None else Some(front + r.value)
  }

  function Normalized(s: JsString): Option<JsString>
  {
    if s == [] then Some([])
    else if s[0] != PERCENT then Prepended([s[0]], Normalized(s[1..]))
    else if !StartsWithEscape(s) then None
    else Prepended(Escape(s[1], s[2]), Normalized(s[3..]))
  }

  /** `normalizePercentEncoding` */
  method NormalizePercentEncoding(value: JsString) returns (r: Option<JsString>)
    ensures r == Normalized(value)
  {
    var normalized: JsString := [];
    var index := 0;
    assert value[0..] == value;
    PrependedNothing(Normalized(value));
    while index < |value|
      invariant index <= |value| && Normalized(value) == Prepended(normalized, Normalized(value[index..]))
    {
      var rest := value[index..];
      assert rest[1..] == value[index + 1..];
      ghost var before := normalized;
      if value[index] != PERCENT {
        normalized := normalized + [value[index]];
        PrependedTwice(before, [value[index]], Normalized(rest[1..]));
        index := index + 1;
      } else {
        if index + 3 > |value| || !IsHex(value[index + 1]) || !IsHex(value[index + 2]) {
          return None;
        }
        assert rest[3..] == value[index + 3..];
        normalized := normalized + Escape(value[index + 1], value[index + 2]);
        PrependedTwice(before, Escape(value[index + 1], value[index + 2]), Normalized(rest[3..]));
        index := index + 3;
      }
    }
    assert value[index..] == [] && normalized + [] == normalized;
    return Some(normalized);
  }

  lemma PrependedNothing(r: Option<JsString>)
    ensures Prepended([], r) == r
  {
    if r.Some? { assert [] + r.value == r.value; }
  }

  lemma PrependedTwice(a: JsString, b: JsString, r: Option<JsString>)
    ensures Prepended(a, Prepended(b, r)) == Prepended(a + b, r)
  {
    if r.Some? { assert a + (b + r.value) == a + b + r.value; }
  }

  // ---------------------------------------------------------------- normal text

  /** An escape that stays: upper-case digits, and not of an unreserved character. */
  predicate IsNormalEscape(s: JsString)
  {
    |s| >= 3 && s[0] == PERCENT && IsUpperHex(s[1]) && IsUpperHex(s[2]) && !IsUnreserved(Decoded(s[1], s[2]))
  }

  /** No escaped unreserved character, no lower-case escape, no stray percent sign. */
  predicate IsNormal(s: JsString)
  {
    s == [] || (if s[0] != PERCENT then IsNormal(s[1..]) else IsNormalEscape(s) && IsNormal(s[3..]))
  }

  lemma {:induction false} NormalStays(s: JsString)
    requires IsNormal(s)
    ensures Normalized(s) == Some(s)
  {
    if s != [] {
      if s[0] != PERCENT {
        NormalStays(s[1..]);
        assert [s[0]] + s[1..] == s;
      } else {
        NormalStays(s[3..]);
        assert [s[0], s[1], s[2]] + s[3..] == s;
      }
    }
  }

  lemma {:induction false} NormalConcat(a: JsString, b: JsString)
    requires IsNormal(a) && IsNormal(b)
    ensures IsNormal(a + b)
  {
    if a == [] {
      assert a + b == b;
    } else if a[0] != PERCENT {
      assert (a + b)[1..] == a[1..] + b;
      NormalConcat(a[1..], b);
    } else {
      assert (a + b)[3..] == a[3..] + b;
      NormalConcat(a[3..], b);
    }
  }

  /** Cutting normal text before a character that is no hex digit leaves two normal texts. */
  lemma {:induction false} NormalSplit(a: JsString, b: JsString)
    requires IsNormal(a + b) && (b == [] || !IsHex(b[0]))
    ensures IsNormal(a) && IsNormal(b)
  {
    var s := a + b;
    if a == [] {
      assert s == b;
    } else if a[0] != PERCENT {
      assert s[1..] == a[1..] + b;
      NormalSplit(a[1..], b);
    } else {
      assert |a| < |s| ==> s[|a|] == b[0];
      assert s[3..] == a[3..] + b;
      NormalSplit(a[3..], b);
    }
  }

  lemma EscapeIsNormal(high: Unit, low: Unit)
    requires IsHex(high) && IsHex(low)
    ensures IsNormal(Escape(high, low))
  {
    var e := Escape(high, low);
    if IsUnreserved(Decoded(high, low)) {
      assert e[1..] == [];
    } else {
      assert e[3..] == [];
      assert Decoded(UpperCase(high), UpperCase(low)) == Decoded(high, low);
    }
  }

  /** Normalizing gives normal text, no longer than it was; so normalizing twice is normalizing once. */
  lemma {:induction false} NormalizedIsNormal(s: JsString)
    requires Normalized(s).Some?
    ensures IsNormal(Normalized(s).value) && |Normalized(s).value| <= |s|
  {
    if s != [] {
      if s[0] != PERCENT {
        NormalizedIsNormal(s[1..]);
        assert ([s[0]] + Normalized(s[1..]).value)[1..] == Normalized(s[1..]).value;
      } else {
        NormalizedIsNormal(s[3..]);
        EscapeIsNormal(s[1], s[2]);
        NormalConcat(Escape(s[1], s[2]), Normalized(s[3..]).value);
      }
    }
  }

  // ---------------------------------------------------------------- characters

  ghost predicate All(p: Unit -> bool, s: JsString) { forall i :: 0 <= i < |s| ==> p(s[i]) }

  /** A class of characters that normalizing cannot leave. */
  ghost predicate Absorbing(p: Unit -> bool) { p(PERCENT) && forall u :: IsUnreserved(u) ==> p(u) }

  lemma {:induction false} NormalizedKeeps(p: Unit -> bool, s: JsString)
    requires Absorbing(p) && All(p, s) && Normalized(s).Some?
    ensures All(p, Normalized(s).value)
  {
    if s != [] {
      var tail := if s[0] != PERCENT then s[1..] else s[3..];
      NormalizedKeeps(p, tail);
      if s[0] == PERCENT {
        var h, l := s[1], s[2];
        assert IsUnreserved(UpperCase(h)) && IsUnreserved(UpperCase(l));
        assert All(p, Escape(h, l));
      }
    }
  }
}
