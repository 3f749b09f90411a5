/** Check values of the checksum of `src/storage/wal-record-codec.ts`. */
module CrcExample {
  import opened Utf8
  import opened Crc32
  import opened CrcPolynomial

  /** A byte and the word of the same value. */
  predicate Reads(b: Byte, w: bv32) { Bits(b) == w }

  lemma OneFlag(half: nat, n: nat, bit: bool)
    ensures Flags(Twice(half, bit), n + 1) == Flags(half, n) + [bit]
  {
  }

  lemma FlagsAre(b7: bool, b6: bool, b5: bool, b4: bool, b3: bool, b2: bool, b1: bool, b0: bool, b: nat)
    requires b == Twice(Twice(Twice(Twice(Twice(Twice(Twice(Twice(0, b7), b6), b5), b4), b3), b2), b1), b0)
    ensures Flags(b, 8) == [b7, b6, b5, b4, b3, b2, b1, b0]
  {
    hide Flags, Twice;
    NoFlags();
    OneFlag(0, 0, b7);
    OneFlag(Twice(0, b7), 1, b6);
    var x := Twice(Twice(0, b7), b6);
    OneFlag(x, 2, b5);
    OneFlag(Twice(x, b5), 3, b4);
    var y := Twice(Twice(x, b5), b4);
    OneFlag(y, 4, b3);
    OneFlag(Twice(y, b3), 5, b2);
    var z := Twice(Twice(y, b3), b2);
    OneFlag(z, 6, b1);
    OneFlag(Twice(z, b1), 7, b0);
  }

  lemma PackedByte(b7: bool, b6: bool, b5: bool, b4: bool, b3: bool, b2: bool, b1: bool, b0: bool, b: Byte, w: bv32)
    requires b == Twice(Twice(Twice(Twice(Twice(Twice(Twice(Twice(0, b7), b6), b5), b4), b3), b2), b1), b0)
    requires Pack(b7, b6, b5, b4, b3, b2, b1, b0) == w
    ensures Reads(b, w)
  {
    hide Pack, Flags, Twice;
    FlagsAre(b7, b6, b5, b4, b3, b2, b1, b0, b);
  }

  lemma NoFlags()
    ensures Flags(0, 0) == []
  {
  }

  function EightSteps(w: bv32): bv32
  {
    BitStep(BitStep(BitStep(BitStep(BitStep(BitStep(BitStep(BitStep(w))))))))
  }

  lemma ByteStepIs(w: bv32, b: Byte, x: bv32)
    requires Reads(b, x)
    ensures ByteStep(w, b) == EightSteps(w ^ x)
  {
    hide BitStep, Bits;
    var start := w ^ x;
    var second := BitStep(BitStep(start));
    var fourth := BitStep(BitStep(second));
    var sixth := BitStep(BitStep(fourth));
    assert BitSteps(start, 8) == BitSteps(second, 6);
    assert BitSteps(second, 6) == BitSteps(fourth, 4);
    assert BitSteps(fourth, 4) == BitSteps(sixth, 2);
  }

  predicate Moves(w: bv32, x: bv32, r: bv32) { EightSteps(w ^ x) == r }

  lemma OneByte(w: bv32, x: bv32, r: bv32, bytes: Bytes, k: nat)
    requires k < |bytes| && Reads(bytes[k], x) && Moves(w, x, r)
    ensures Register(w, bytes[k..]) == Register(r, bytes[k + 1..])
  {
    hide EightSteps, ByteStep, Reads;
    ByteStepIs(w, bytes[k], x);
    assert bytes[k..][1..] == bytes[k + 1..];
  }

  const DIGITS: Bytes := [0x31, 0x32, 0x33, 0x34, 0x35, 0x36, 0x37, 0x38, 0x39]

  lemma DigitsRead()
    ensures Reads(0x31, 0x31) && Reads(0x32, 0x32) && Reads(0x33, 0x33) && Reads(0x34, 0x34) && Reads(0x35, 0x35)
    ensures Reads(0x36, 0x36) && Reads(0x37, 0x37) && Reads(0x38, 0x38) && Reads(0x39, 0x39)
  {
    hide Reads;
    PackedByte(false, false, true, true, false, false, false, true, 0x31, 0x31);
    PackedByte(false, false, true, true, false, false, true, false, 0x32, 0x32);
    PackedByte(false, false, true, true, false, false, true, true, 0x33, 0x33);
    PackedByte(false, false, true, true, false, true, false, false, 0x34, 0x34);
    PackedByte(false, false, true, true, false, true, false, true, 0x35, 0x35);
    PackedByte(false, false, true, true, false, true, true, false, 0x36, 0x36);
    PackedByte(false, false, true, true, false, true, true, true, 0x37, 0x37);
    PackedByte(false, false, true, true, true, false, false, false, 0x38, 0x38);
    PackedByte(false, false, true, true, true, false, false, true, 0x39, 0x39);
  }

  lemma DigitsMove()
    ensures Moves(0xFFFF_FFFF, 0x31, 0x7C23_1048)
    ensures Moves(0x7C23_1048, 0x32, 0xB0AC_BB32)
    ensures Moves(0xB0AC_BB32, 0x33, 0x77B7_9C2D)
    ensures Moves(0x77B7_9C2D, 0x34, 0x641C_1F5C)
    ensures Moves(0x641C_1F5C, 0x35, 0x340A_C5E3)
    ensures Moves(0x340A_C5E3, 0x36, 0xF68D_2C9E)
    ensures Moves(0xF68D_2C9E, 0x37, 0xAFFC_9660)
    ensures Moves(0xAFFC_9660, 0x38, 0x651F_2550)
    ensures Moves(0x651F_2550, 0x39, 0x340B_C6D9)
  {
  }

  /** The check value of the CRC: that of "123456789". */
  lemma CheckValue()
    ensures Checksum(DIGITS) == 0xCBF4_3926
  {
    hide Reads, Moves, Register;
    DigitsRead();
    DigitsMove();
    OneByte(0xFFFF_FFFF, 0x31, 0x7C23_1048, DIGITS, 0);
    OneByte(0x7C23_1048, 0x32, 0xB0AC_BB32, DIGITS, 1);
    OneByte(0xB0AC_BB32, 0x33, 0x77B7_9C2D, DIGITS, 2);
    OneByte(0x77B7_9C2D, 0x34, 0x641C_1F5C, DIGITS, 3);
    OneByte(0x641C_1F5C, 0x35, 0x340A_C5E3, DIGITS, 4);
    OneByte(0x340A_C5E3, 0x36, 0xF68D_2C9E, DIGITS, 5);
    OneByte(0xF68D_2C9E, 0x37, 0xAFFC_9660, DIGITS, 6);
    OneByte(0xAFFC_9660, 0x38, 0x651F_2550, DIGITS, 7);
    OneByte(0x651F_2550, 0x39, 0x340B_C6D9, DIGITS, 8);
    assert DIGITS[0..] == DIGITS && DIGITS[9..] == [];
    EndsAt(DIGITS, 0x340B_C6D9);
  }

  lemma EndsAt(bytes: Bytes, r: bv32)
    requires Register(ALL_ONES, bytes) == Register(r, [])
    ensures Checksum(bytes) == r ^ ALL_ONES
  {
  }
}
