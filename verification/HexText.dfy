/**
 Bytes as lower-case hexadecimal text: `bytesToHex` of `src/base/hashing/portable-sha-256.ts`, which
 `formatUuid` of `src/base/ids/uuid-v7-allocator.ts` repeats.
 */
module HexText {
  import opened Utf8
  import opened CanonicalJson

  predicate IsHexDigit(u: Unit) { 0x30 <= u <= 0x39 || 0x61 <= u <= 0x66 }

  function HexPair(x: Byte): (s: JsString)
    ensures |s| == 2 && IsHexDigit(s[0]) && IsHexDigit(s[1])
  {
    [HexDigit(x / 16), HexDigit(x % 16)]
  }

  function Hex(b: Bytes): (s: JsString)
    ensures |s| == 2 * |b|
  {
    if b == [] then [] else Hex(b[..|b| - 1]) + HexPair(b[|b| - 1])
  }

  method BytesToHex(bytes: Bytes) returns (text: JsString)
    ensures text == Hex(bytes)
  {
    text := [];
    for i := 0 to |bytes|
      invariant text == Hex(bytes[..i])
    {
      assert bytes[..i + 1][..i] == bytes[..i];
      text := text + HexPair(bytes[i]);
    }
    assert bytes[..|bytes|] == bytes;
  }

  lemma {:induction false} HexAt(b: Bytes, i: nat)
    requires i < |b|
    ensures Hex(b)[2 * i] == HexDigit(b[i] / 16) && Hex(b)[2 * i + 1] == HexDigit(b[i] % 16)
  {
    if i < |b| - 1 {
      HexAt(b[..|b| - 1], i);
    }
  }

  /** Texts of hex digits are those of their bytes only. */
  lemma HexInjective(a: Bytes, b: Bytes)
    ensures Hex(a) == Hex(b) <==> a == b
  {
    if Hex(a) == Hex(b) {
      forall i | 0 <= i < |a| ensures a[i] == b[i] {
        HexAt(a, i);
        HexAt(b, i);
      }
    }
  }

  lemma HexDigitsOnly(b: Bytes)
    ensures forall k :: 0 <= k < |Hex(b)| ==> IsHexDigit(Hex(b)[k])
  {
    forall k | 0 <= k < |Hex(b)| ensures IsHexDigit(Hex(b)[k]) { HexAt(b, k / 2); }
  }
}
