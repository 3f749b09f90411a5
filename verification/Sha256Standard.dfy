/**
 SHA-256 as FIPS 180-4 defines it: the constants of sections 4.2.2 and 5.3.3, the padding of section
 5.1.1 and the computation of section 6.2.2 with the whole 64-word message schedule.
 */
module Sha256Standard {
  import opened Utf8
  import opened Crc32
  import opened WalFrames
  import opened Sha256Words

  // ---------------------------------------------------------------- sections 4.2.2 and 5.3.3

  function K(): (k: seq<bv32>)
    ensures |k| == 64
  {
    [0x428a2f98, 0x71374491, 0xb5c0fbcf, 0xe9b5dba5, 0x3956c25b, 0x59f111f1, 0x923f82a4, 0xab1c5ed5] +
    [0xd807aa98, 0x12835b01, 0x243185be, 0x550c7dc3, 0x72be5d74, 0x80deb1fe, 0x9bdc06a7, 0xc19bf174] +
    [0xe49b69c1, 0xefbe4786, 0x0fc19dc6, 0x240ca1cc, 0x2de92c6f, 0x4a7484aa, 0x5cb0a9dc, 0x76f988da] +
    [0x983e5152, 0xa831c66d, 0xb00327c8, 0xbf597fc7, 0xc6e00bf3, 0xd5a79147, 0x06ca6351, 0x14292967] +
    [0x27b70a85, 0x2e1b2138, 0x4d2c6dfc, 0x53380d13, 0x650a7354, 0x766a0abb, 0x81c2c92e, 0x92722c85] +
    [0xa2bfe8a1, 0xa81a664b, 0xc24b8b70, 0xc76c51a3, 0xd192e819, 0xd6990624, 0xf40e3585, 0x106aa070] +
    [0x19a4c116, 0x1e376c08, 0x2748774c, 0x34b0bcb5, 0x391c0cb3, 0x4ed8aa4a, 0x5b9cca4f, 0x682e6ff3] +
    [0x748f82ee, 0x78a5636f, 0x84c87814, 0x8cc70208, 0x90befffa, 0xa4506ceb, 0xbef9a3f7, 0xc67178f2]
  }

  function Initial(): Vars
  {
    Vars(0x6a09e667, 0xbb67ae85, 0x3c6ef372, 0xa54ff53a, 0x510e527f, 0x9b05688c, 0x1f83d9ab, 0x5be0cd19)
  }

  // ---------------------------------------------------------------- section 5.1.1

  function Zeros(n: nat): (z: Bytes)
    ensures |z| == n
  {
    seq(n, _ => 0)
  }

  /** The zero bytes after the bit 1 (and seven more zero bits): the least number that leaves eight
      bytes of the last block for the length. */
  function ZeroBytes(length: nat): (k: nat)
    ensures k < 64 && (length + 1 + k) % 64 == 56
  {
    (119 - length % 64) % 64
  }

  function BitLength(length: nat): Bytes { Word(length * 8 / 0x1_0000_0000) + Word(length * 8) }

  function Padded(m: Bytes): (p: Bytes)
    ensures |p| % 64 == 0 && m <= p
  {
    WholeBlocks(|m|, ZeroBytes(|m|));
    m + [0x80] + Zeros(ZeroBytes(|m|)) + BitLength(|m|)
  }

  lemma WholeBlocks(length: nat, k: nat)
    requires (length + 1 + k) % 64 == 56
    ensures (length + 1 + k + 8) % 64 == 0
  {
  }

  // ---------------------------------------------------------------- section 6.2.2

  function WordOf(b0: Byte, b1: Byte, b2: Byte, b3: Byte): bv32
  {
    (Bits(b0) << 24) | (Bits(b1) << 16) | (Bits(b2) << 8) | Bits(b3)
  }

  /** The big-endian word at an offset. */
  function WordAt(b: Bytes, at: nat): bv32
    requires at + 4 <= |b|
  {
    WordOf(b[at], b[at + 1], b[at + 2], b[at + 3])
  }

  /** Word `t` of the message schedule. */
  function Schedule(block: Bytes, t: nat): bv32
    requires |block| == 64
  {
    if t < 16 then WordAt(block, 4 * t)
    else Extended(Schedule(block, t - 2), Schedule(block, t - 7), Schedule(block, t - 15), Schedule(block, t - 16))
  }

  function Rounds(v: Vars, block: Bytes, t: nat): Vars
    requires |block| == 64 && t <= 64
  {
    if t == 0 then v else Round(Rounds(v, block, t - 1), K()[t - 1], Schedule(block, t - 1))
  }

  /** The next intermediate hash value. */
  function Compressed(v: Vars, block: Bytes): Vars
  {
    if |block| != 64 then v else Sum(v, Rounds(v, block, 64))
  }

  /** A function applied to the first `n` blocks of 64 bytes, one after the other. */
  function OverBlocks<V>(f: (V, Bytes) -> V, v: V, b: Bytes, n: nat): V
    requires 64 * n <= |b|
  {
    if n == 0 then v else f(OverBlocks(f, v, b, n - 1), b[64 * (n - 1)..64 * n])
  }

  function Hashed(v: Vars, b: Bytes, n: nat): Vars
    requires 64 * n <= |b|
  {
    OverBlocks(Compressed, v, b, n)
  }

  function WordBytes(words: seq<bv32>): (d: Bytes)
    ensures |d| == 4 * |words|
  {
    if words == [] then [] else WordBytes(words[..|words| - 1]) + Word(WordValue(words[|words| - 1]))
  }

  function DigestBytes(v: Vars): (d: Bytes)
    ensures |d| == 32
  {
    WordBytes([v.a, v.b, v.c, v.d, v.e, v.f, v.g, v.h])
  }

  function Sha256(m: Bytes): (d: Bytes)
    ensures |d| == 32
  {
    DigestBytes(Hashed(Initial(), Padded(m), |Padded(m)| / 64))
  }
}
