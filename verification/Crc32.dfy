/**
 The checksum of `src/storage/wal-record-codec.ts` (reflected polynomial 0xEDB88320).

 The register is a 32-bit vector.  One bit step is injective on it, so two equally long
 byte strings that differ in a single byte never share a checksum.
 */
module Crc32 {
  import opened Utf8

  const POLYNOMIAL: bv32 := 0xEDB88320
  const ALL_ONES: bv32 := 0xFFFF_FFFF

  function BitStep(r: bv32): bv32
  {
    (r >> 1) ^ (if r & 1 == 1 then POLYNOMIAL else 0)
  }

  function BitSteps(r: bv32, n: nat): bv32
    decreases n
  {
    if n == 0 then r else BitSteps(BitStep(r), n - 1)
  }

  function Flag(on: bool, mask: bv32): bv32 { if on then mask else 0 }

  /** Eight bits, most significant first, as a word. */
  function Pack(b7: bool, b6: bool, b5: bool, b4: bool, b3: bool, b2: bool, b1: bool, b0: bool): bv32
  {
    Flag(b7, 0x80) | Flag(b6, 0x40) | Flag(b5, 0x20) | Flag(b4, 0x10) |
    Flag(b3, 8) | Flag(b2, 4) | Flag(b1, 2) | Flag(b0, 1)
  }

  /** The low `n` bits of a number, most significant first. */
  function Flags(x: nat, n: nat): (f: seq<bool>)
    ensures |f| == n
  {
    if n == 0 then [] else Flags(x / 2, n - 1) + [x % 2 == 1]
  }

  function Bits(b: Byte): bv32
  {
    var f := Flags(b, 8); Pack(f[0], f[1], f[2], f[3], f[4], f[5], f[6], f[7])
  }

  function XorSteps(r: bv32, x: bv32): bv32 { BitSteps(r ^ x, 8) }

  function ByteStep(r: bv32, b: Byte): bv32 { XorSteps(r, Bits(b)) }

  function Register(r: bv32, bytes: Bytes): bv32
    decreases |bytes|
  {
    if bytes == [] then r else Register(ByteStep(r, bytes[0]), bytes[1..])
  }

  function Checksum(bytes: Bytes): bv32 { Register(ALL_ONES, bytes) ^ ALL_ONES }

  /** `crc32`, with its inner loop over the bits of one byte split off. */
  method ComputeCrc32(bytes: Bytes) returns (checksum: bv32)
    ensures checksum == Checksum(bytes)
  {
    checksum := ALL_ONES;
    for i := 0 to |bytes|
      invariant Register(ALL_ONES, bytes) == Register(checksum, bytes[i..])
    {
      assert bytes[i..][0] == bytes[i] && bytes[i..][1..] == bytes[i + 1..];
      checksum := ShiftEightBits(checksum ^ Bits(bytes[i]));
    }
    checksum := checksum ^ ALL_ONES;
  }

  method ShiftEightBits(start: bv32) returns (r: bv32)
    ensures r == BitSteps(start, 8)
  {
    r := start;
    for bit := 0 to 8
      invariant BitSteps(start, 8) == BitSteps(r, 8 - bit)
    {
      r := (r >> 1) ^ (if r & 1 == 1 then POLYNOMIAL else 0);
    }
  }

  /** The polynomial has its top bit set, so the dropped bit can be read off the result. */
  lemma BitStepInjective(r: bv32, s: bv32)
    requires BitStep(r) == BitStep(s)
    ensures r == s
  {
  }

  lemma {:induction false} BitStepsInjective(r: bv32, s: bv32, n: nat)
    requires BitSteps(r, n) == BitSteps(s, n)
    ensures r == s
    decreases n
  {
    if n > 0 {
      BitStepsInjective(BitStep(r), BitStep(s), n - 1);
      BitStepInjective(r, s);
    }
  }

  lemma XorStepsInjective(r: bv32, s: bv32, x: bv32, y: bv32)
    requires XorSteps(r, x) == XorSteps(s, y)
    ensures r == s ==> x == y
    ensures x == y ==> r == s
  {
    BitStepsInjective(r ^ x, s ^ y, 8);
    XorInjective(r, s, x, y);
  }

  lemma XorInjective(r: bv32, s: bv32, x: bv32, y: bv32)
    requires r ^ x == s ^ y
    ensures r == s ==> x == y
    ensures x == y ==> r == s
  {
  }

  lemma PackInjective(a: seq<bool>, b: seq<bool>)
    requires |a| == |b| == 8
    requires Pack(a[0], a[1], a[2], a[3], a[4], a[5], a[6], a[7])
          == Pack(b[0], b[1], b[2], b[3], b[4], b[5], b[6], b[7])
    ensures forall i :: 0 <= i < 8 ==> a[i] == b[i]
  {
  }

  lemma BitsInjective(a: Byte, b: Byte)
    requires Bits(a) == Bits(b)
    ensures a == b
  {
    PackInjective(Flags(a, 8), Flags(b, 8));
    assert Power(8) == 0x100;
    FlagsInjective(a, b, 8);
  }

  function Power(n: nat): nat { if n == 0 then 1 else 2 * Power(n - 1) }

  lemma {:induction false} FlagsInjective(a: nat, b: nat, n: nat)
    requires Flags(a, n) == Flags(b, n) && a < Power(n) && b < Power(n)
    ensures a == b
  {
    if n > 0 {
      var f, g := Flags(a, n), Flags(b, n);
      assert f[..n - 1] == Flags(a / 2, n - 1) && g[..n - 1] == Flags(b / 2, n - 1);
      assert f[n - 1] == (a % 2 == 1) && g[n - 1] == (b % 2 == 1);
      FlagsInjective(a / 2, b / 2, n - 1);
    }
  }

  lemma {:induction false} RegisterInjective(r: bv32, s: bv32, bytes: Bytes)
    requires Register(r, bytes) == Register(s, bytes)
    ensures r == s
    decreases |bytes|
  {
    if bytes != [] {
      RegisterInjective(ByteStep(r, bytes[0]), ByteStep(s, bytes[0]), bytes[1..]);
      XorStepsInjective(r, s, Bits(bytes[0]), Bits(bytes[0]));
    }
  }

  lemma {:induction false} OtherByteRegister(r: bv32, bytes: Bytes, i: nat, b: Byte)
    requires i < |bytes|
    requires Register(r, bytes) == Register(r, bytes[i := b])
    ensures bytes[i] == b
    decreases |bytes|
  {
    var changed := bytes[i := b];
    if i == 0 {
      assert changed[1..] == bytes[1..];
      RegisterInjective(ByteStep(r, bytes[0]), ByteStep(r, b), bytes[1..]);
      XorStepsInjective(r, r, Bits(bytes[0]), Bits(b));
      BitsInjective(bytes[0], b);
    } else {
      assert changed[1..] == bytes[1..][i - 1 := b];
      OtherByteRegister(ByteStep(r, bytes[0]), bytes[1..], i - 1, b);
    }
  }

  /** No change of a single byte keeps the checksum. */
  lemma SingleByteChangesChecksum(bytes: Bytes, i: nat, b: Byte)
    requires i < |bytes| && bytes[i] != b
    ensures Checksum(bytes) != Checksum(bytes[i := b])
  {
    if Checksum(bytes) == Checksum(bytes[i := b]) {
      XorInjective(Register(ALL_ONES, bytes), Register(ALL_ONES, bytes[i := b]), ALL_ONES, ALL_ONES);
      OtherByteRegister(ALL_ONES, bytes, i, b);
    }
  }

  // ---------------------------------------------------------- 32-bit words as numbers

  function BitValue(w: bv32, mask: bv32, value: nat): nat { if w & mask == 0 then 0 else value }

  function LowByte(w: bv32): (n: Byte)
  {
    BitValue(w, 0x80, 0x80) + BitValue(w, 0x40, 0x40) + BitValue(w, 0x20, 0x20) + BitValue(w, 0x10, 0x10) +
    BitValue(w, 8, 8) + BitValue(w, 4, 4) + BitValue(w, 2, 2) + BitValue(w, 1, 1)
  }

  /** The unsigned value of a word, byte by byte from the most significant one. */
  function WordValue(w: bv32): (n: int)
    ensures 0 <= n < 0x1_0000_0000
  {
    LowByte(w >> 24) * 0x100_0000 + LowByte(w >> 16) * 0x1_0000 + LowByte(w >> 8) * 0x100 + LowByte(w)
  }

  predicate SameOctet(v: bv32, w: bv32) { v & 0xFF == w & 0xFF }

  lemma LowByteInjective(v: bv32, w: bv32)
    requires LowByte(v) == LowByte(w)
    ensures SameOctet(v, w)
  {
  }

  lemma WordValueInjective(v: bv32, w: bv32)
    requires WordValue(v) == WordValue(w)
    ensures v == w
  {
    hide LowByte, SameOctet;
    EqualOctets(LowByte(v >> 24), LowByte(v >> 16), LowByte(v >> 8), LowByte(v),
                LowByte(w >> 24), LowByte(w >> 16), LowByte(w >> 8), LowByte(w));
    LowByteInjective(v >> 24, w >> 24);
    LowByteInjective(v >> 16, w >> 16);
    LowByteInjective(v >> 8, w >> 8);
    LowByteInjective(v, w);
    FourBytes(v, w);
  }

  lemma EqualOctets(a: Byte, b: Byte, c: Byte, d: Byte, a': Byte, b': Byte, c': Byte, d': Byte)
    requires a * 0x100_0000 + b * 0x1_0000 + c * 0x100 + d == a' * 0x100_0000 + b' * 0x1_0000 + c' * 0x100 + d'
    ensures a == a' && b == b' && c == c' && d == d'
  {
  }

  lemma FourBytes(v: bv32, w: bv32)
    requires SameOctet(v >> 24, w >> 24) && SameOctet(v >> 16, w >> 16) && SameOctet(v >> 8, w >> 8) && SameOctet(v, w)
    ensures v == w
  {
  }
}
