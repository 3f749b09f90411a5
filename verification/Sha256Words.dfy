/**
 The 32-bit functions of section 4.1.2 of FIPS 180-4, one round of its section 6.2.2, and the
 shorter forms of the choice and majority functions in `src/base/hashing/portable-sha-256.ts`.
 */
module Sha256Words {
  function RotR2(x: bv32): bv32 { (x >> 2) | (x << 30) }
  function RotR6(x: bv32): bv32 { (x >> 6) | (x << 26) }
  function RotR7(x: bv32): bv32 { (x >> 7) | (x << 25) }
  function RotR11(x: bv32): bv32 { (x >> 11) | (x << 21) }
  function RotR13(x: bv32): bv32 { (x >> 13) | (x << 19) }
  function RotR17(x: bv32): bv32 { (x >> 17) | (x << 15) }
  function RotR18(x: bv32): bv32 { (x >> 18) | (x << 14) }
  function RotR19(x: bv32): bv32 { (x >> 19) | (x << 13) }
  function RotR22(x: bv32): bv32 { (x >> 22) | (x << 10) }
  function RotR25(x: bv32): bv32 { (x >> 25) | (x << 7) }

  function Ch(x: bv32, y: bv32, z: bv32): bv32 { (x & y) ^ (!x & z) }

  function Maj(x: bv32, y: bv32, z: bv32): bv32 { (x & y) ^ (x & z) ^ (y & z) }

  function BigSigma0(x: bv32): bv32 { RotR2(x) ^ RotR13(x) ^ RotR22(x) }

  function BigSigma1(x: bv32): bv32 { RotR6(x) ^ RotR11(x) ^ RotR25(x) }

  function SmallSigma0(x: bv32): bv32 { RotR7(x) ^ RotR18(x) ^ (x >> 3) }

  function SmallSigma1(x: bv32): bv32 { RotR17(x) ^ RotR19(x) ^ (x >> 10) }

  // ---------------------------------------------------------------- section 6.2.2

  datatype Vars = Vars(a: bv32, b: bv32, c: bv32, d: bv32, e: bv32, f: bv32, g: bv32, h: bv32)

  /** The new working variables, from the four function values of the round. */
  function Mixed(v: Vars, sigma1: bv32, choice: bv32, sigma0: bv32, majority: bv32, k: bv32, w: bv32): Vars
  {
    var t1 := v.h + sigma1 + choice + k + w;
    var t2 := sigma0 + majority;
    Vars(t1 + t2, v.a, v.b, v.c, v.d + t1, v.e, v.f, v.g)
  }

  function Round(v: Vars, k: bv32, w: bv32): Vars
  {
    Mixed(v, BigSigma1(v.e), Ch(v.e, v.f, v.g), BigSigma0(v.a), Maj(v.a, v.b, v.c), k, w)
  }

  function Sum(x: Vars, y: Vars): Vars
  {
    Vars(x.a + y.a, x.b + y.b, x.c + y.c, x.d + y.d, x.e + y.e, x.f + y.f, x.g + y.g, x.h + y.h)
  }

  // ---------------------------------------------------------------- the rewritten round

  function Choice(e: bv32, f: bv32, g: bv32): bv32 { g ^ (e & (f ^ g)) }

  function Majority(a: bv32, b: bv32, c: bv32): bv32 { (a & b) | (c & (a | b)) }

  lemma ChoiceIsCh(e: bv32, f: bv32, g: bv32)
    ensures Choice(e, f, g) == Ch(e, f, g)
  {
    assert g ^ (e & (f ^ g)) == (e & f) ^ (!e & g);
  }

  lemma MajorityIsMaj(a: bv32, b: bv32, c: bv32)
    ensures Majority(a, b, c) == Maj(a, b, c)
  {
    assert (a & b) | (c & (a | b)) == (a & b) ^ (a & c) ^ (b & c);
  }

  /** The round that both loops of `compressBlocks` spell out. */
  method OneRound(v: Vars, constant: bv32, word: bv32) returns (next: Vars)
    ensures next == Round(v, constant, word)
  {
    var choice, majority := Choice(v.e, v.f, v.g), Majority(v.a, v.b, v.c);
    ChoiceIsCh(v.e, v.f, v.g);
    MajorityIsMaj(v.a, v.b, v.c);
    next := Mixed(v, BigSigma1(v.e), choice, BigSigma0(v.a), majority, constant, word);
  }

  // ---------------------------------------------------------------- one schedule word

  /** Step 1 of section 6.2.2, for t >= 16. */
  function Extended(w2: bv32, w7: bv32, w15: bv32, w16: bv32): bv32
  {
    SmallSigma1(w2) + w7 + SmallSigma0(w15) + w16
  }

  /** The same sum in the order of `compressBlocks`. */
  function NextWord(w16: bv32, w15: bv32, w7: bv32, w2: bv32): bv32
  {
    w16 + SmallSigma0(w15) + w7 + SmallSigma1(w2)
  }

  lemma NextWordIsExtended(w16: bv32, w15: bv32, w7: bv32, w2: bv32)
    ensures NextWord(w16, w15, w7, w2) == Extended(w2, w7, w15, w16)
  {
    SameSum(w16, SmallSigma0(w15), w7, SmallSigma1(w2));
  }

  lemma SameSum(a: bv32, b: bv32, c: bv32, d: bv32)
    ensures a + b + c + d == d + c + b + a
  {
  }
}
