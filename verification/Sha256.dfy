/**
 `sha256Bytes` and `compressBlocks` of `src/base/hashing/portable-sha-256.ts`: whole blocks read in
 place, a separate padded tail, a rolling schedule of sixteen words, and shorter forms of the choice
 and majority functions.
 */
module Sha256 {
  import opened Utf8
  import opened Crc32
  import opened WalFrames
  import opened Sha256Words
  import opened Sha256Standard

  // ---------------------------------------------------------------- the rolling schedule

  /** Slot `t % 16` holds word `t` of the schedule, for the last sixteen words before `n`. */
  ghost predicate Rolling(words: seq<bv32>, block: Bytes, n: nat)
    requires |block| == 64
  {
    |words| == 16 && forall t :: 0 <= t < n <= t + 16 ==> words[t % 16] == Schedule(block, t)
  }

  lemma RollingNext(words: seq<bv32>, block: Bytes, n: nat)
    requires |block| == 64 && n >= 16 && Rolling(words, block, n)
    ensures NextWord(words[n % 16], words[(n + 1) % 16], words[(n + 9) % 16], words[(n + 14) % 16])
         == Schedule(block, n)
  {
    assert (n - 16) % 16 == n % 16 && (n - 15) % 16 == (n + 1) % 16;
    assert (n - 7) % 16 == (n + 9) % 16 && (n - 2) % 16 == (n + 14) % 16;
    NextWordIsExtended(Schedule(block, n - 16), Schedule(block, n - 15), Schedule(block, n - 7),
                       Schedule(block, n - 2));
  }

  lemma RollingUpdate(words: seq<bv32>, block: Bytes, n: nat)
    requires |block| == 64 && Rolling(words, block, n)
    ensures Rolling(words[n % 16 := Schedule(block, n)], block, n + 1)
  {
    forall t | 0 <= t < n + 1 <= t + 16 ensures words[n % 16 := Schedule(block, n)][t % 16] == Schedule(block, t) {
      if t < n { DifferentSlots(t, n); }
    }
  }

  lemma DifferentSlots(t: nat, n: nat)
    requires t < n < t + 16
    ensures t % 16 != n % 16
  {
  }

  // ---------------------------------------------------------------- the methods

  function InputWord(input: seq<Byte>, start: nat): bv32
    requires start + 4 <= |input|
  {
    WordOf(input[start], input[start + 1], input[start + 2], input[start + 3])
  }

  lemma InputWordIsScheduled(input: seq<Byte>, offset: nat, index: nat)
    requires offset + 64 <= |input| && index < 16
    ensures InputWord(input, offset + index * 4) == Schedule(input[offset..offset + 64], index)
  {
    var block := input[offset..offset + 64];
    assert block[4 * index] == input[offset + index * 4] && block[4 * index + 1] == input[offset + index * 4 + 1];
    assert block[4 * index + 2] == input[offset + index * 4 + 2] &&
           block[4 * index + 3] == input[offset + index * 4 + 3];
  }

  /** The schedule part of the first loop: a word read from the input. */
  method ReadWordInto(input: Bytes, offset: nat, index: nat, words: array<bv32>) returns (word: bv32)
    requires offset + 64 <= |input| && index < 16 && words.Length == 16
    requires Rolling(words[..], input[offset..offset + 64], index)
    modifies words
    ensures word == Schedule(input[offset..offset + 64], index)
    ensures Rolling(words[..], input[offset..offset + 64], index + 1)
  {
    word := InputWord(input, offset + index * 4);
    InputWordIsScheduled(input, offset, index);
    RollingUpdate(words[..], input[offset..offset + 64], index);
    assert index % 16 == index;
    words[index] := word;
  }

  /** The schedule part of the second loop: a word computed from four of the last sixteen. */
  method ComputeWord(ghost block: Bytes, index: nat, words: array<bv32>) returns (word: bv32)
    requires |block| == 64 && 16 <= index && words.Length == 16 && Rolling(words[..], block, index)
    modifies words
    ensures word == Schedule(block, index) && Rolling(words[..], block, index + 1)
  {
    var scheduleIndex := index % 16;
    word := NextWord(words[scheduleIndex], words[(index + 1) % 16], words[(index + 9) % 16], words[(index + 14) % 16]);
    RollingNext(words[..], block, index);
    RollingUpdate(words[..], block, index);
    words[scheduleIndex] := word;
  }

  method NextRound(ghost v: Vars, ghost block: Bytes, index: nat, w: Vars, word: bv32) returns (next: Vars)
    requires |block| == 64 && index < 64 && w == Rounds(v, block, index) && word == Schedule(block, index)
    ensures next == Rounds(v, block, index + 1)
  {
    next := OneRound(w, K()[index], word);
  }

  /** The first loop of a block. */
  method ReadRounds(input: Bytes, offset: nat, v: Vars, words: array<bv32>) returns (w: Vars)
    requires offset + 64 <= |input| && words.Length == 16
    modifies words
    ensures var block := input[offset..offset + 64]; Rolling(words[..], block, 16) && w == Rounds(v, block, 16)
  {
    hide K, Round, InputWord;
    ghost var block := input[offset..offset + 64];
    w := v;
    for index := 0 to 16
      invariant Rolling(words[..], block, index) && w == Rounds(v, block, index)
    {
      var word := ReadWordInto(input, offset, index, words);
      w := NextRound(v, block, index, w, word);
    }
  }

  /** The second loop of a block. */
  method ScheduleRounds(ghost block: Bytes, ghost v: Vars, start: Vars, words: array<bv32>) returns (w: Vars)
    requires words.Length == 16 && |block| == 64 && Rolling(words[..], block, 16) && start == Rounds(v, block, 16)
    modifies words
    ensures w == Rounds(v, block, 64)
  {
    w := start;
    for index := 16 to 64
      invariant Rolling(words[..], block, index) && w == Rounds(v, block, index)
    {
      var word := ComputeWord(block, index, words);
      w := NextRound(v, block, index, w, word);
    }
  }

  method CompressBlock(input: Bytes, offset: nat, state: Vars, words: array<bv32>) returns (hash: Vars)
    requires offset + 64 <= |input| && words.Length == 16
    modifies words
    ensures hash == Compressed(state, input[offset..offset + 64])
  {
    var v := ReadRounds(input, offset, state, words);
    v := ScheduleRounds(input[offset..offset + 64], state, v, words);
    hash := Sum(state, v);
  }

  /** `compressBlocks` */
  method CompressBlocks(input: Bytes, byteLength: nat, state: Vars, words: array<bv32>) returns (hash: Vars)
    requires byteLength <= |input| && byteLength % 64 == 0 && words.Length == 16
    modifies words
    ensures hash == Hashed(state, input, byteLength / 64)
  {
    hide Compressed;
    hash := state;
    var offset := 0;
    ghost var done := 0;
    while offset < byteLength
      invariant offset == 64 * done <= byteLength && hash == Hashed(state, input, done)
    {
      hash := CompressBlock(input, offset, hash, words);
      offset := offset + 64;
      done := done + 1;
    }
  }

  /** `writeUint32BigEndian` */
  method WriteWord(target: array<Byte>, offset: nat, value: nat)
    requires offset + 4 <= target.Length
    modifies target
    ensures target[..] == old(target[..offset]) + Word(value) + old(target[offset + 4..])
  {
    target[offset] := value / 0x100_0000 % 0x100;
    target[offset + 1] := value / 0x1_0000 % 0x100;
    target[offset + 2] := value / 0x100 % 0x100;
    target[offset + 3] := value % 0x100;
  }

  /** The number of bytes in whole blocks. */
  function WholeBlocks(length: nat): (n: nat)
    ensures n % 64 == 0 && n <= length < n + 64
  {
    length - length % 64
  }

  /** The last block or two: what is left of the message, the bit 1, zeros, and the length. */
  function Tail(m: Bytes): Bytes
  {
    m[WholeBlocks(|m|)..] + [0x80] + Zeros(ZeroBytes(|m|)) + BitLength(|m|)
  }

  lemma TailPads(m: Bytes)
    ensures |Tail(m)| % 64 == 0 && Padded(m) == m[..WholeBlocks(|m|)] + Tail(m)
  {
    var n := WholeBlocks(|m|);
    TailLength(|m|, n, |m| - n, ZeroBytes(|m|));
    assert m == m[..n] + m[n..];
  }

  lemma TailLength(length: nat, whole: nat, rest: nat, zeros: nat)
    requires length == whole + rest && whole % 64 == 0 && (length + 1 + zeros) % 64 == 56
    ensures (rest + 1 + zeros + 8) % 64 == 0
  {
    assert rest + 1 + zeros + 8 == (length + 1 + zeros) - whole + 8;
  }

  lemma TailSoFar(tail: Bytes, rest: Bytes, zeros: nat)
    requires |tail| == |rest| + 1 + zeros + 8 && tail[..|rest|] == rest && tail[|rest|] == 0x80
    requires forall k :: |rest| < k < |tail| ==> tail[k] == 0
    ensures tail == rest + [0x80] + Zeros(zeros) + Zeros(8)
  {
  }

  /** The tail with the length still zero. */
  method StartTail(rest: Bytes, zeros: nat) returns (tail: array<Byte>)
    requires |rest| < 64 && |rest| + 1 + zeros + 8 == if |rest| < 56 then 64 else 128
    ensures fresh(tail) && tail[..] == rest + [0x80] + Zeros(zeros) + Zeros(8)
  {
    tail := new Byte[if |rest| < 56 then 64 else 128](_ => 0);
    for i := 0 to |rest|
      invariant tail[..i] == rest[..i]
      invariant forall k :: i <= k < tail.Length ==> tail[k] == 0
    {
      tail[i] := rest[i];
    }
    tail[|rest|] := 0x80;
    TailSoFar(tail[..], rest, zeros);
  }

  lemma TailFits(length: nat)
    ensures var rest := length - WholeBlocks(length);
            rest + 1 + ZeroBytes(length) + 8 == if rest < 56 then 64 else 128
  {
  }

  method BuildTail(message: Bytes, complete: nat) returns (tail: array<Byte>)
    requires complete == WholeBlocks(|message|)
    ensures fresh(tail) && tail[..] == Tail(message)
  {
    TailFits(|message|);
    tail := StartTail(message[complete..], ZeroBytes(|message|));
    var bitLength := |message| * 8;
    WriteWord(tail, tail.Length - 8, bitLength / 0x1_0000_0000);
    WriteWord(tail, tail.Length - 4, bitLength);
  }

  lemma {:induction false} BlocksOfPrefix<V>(f: (V, Bytes) -> V, v: V, a: Bytes, b: Bytes, n: nat)
    requires 64 * n <= |a| && a <= b
    ensures OverBlocks(f, v, a, n) == OverBlocks(f, v, b, n)
  {
    if n > 0 {
      BlocksOfPrefix(f, v, a, b, n - 1);
      assert a[64 * (n - 1)..64 * n] == b[64 * (n - 1)..64 * n];
    }
  }

  /** Going over a front of whole blocks and then over the rest is going over it all. */
  lemma {:induction false} BlocksConcat<V>(f: (V, Bytes) -> V, v: V, front: Bytes, k: nat, rest: Bytes, n: nat)
    requires |front| == 64 * k && 64 * n <= |rest|
    ensures OverBlocks(f, v, front + rest, k + n) == OverBlocks(f, OverBlocks(f, v, front, k), rest, n)
  {
    if n == 0 {
      BlocksOfPrefix(f, v, front, front + rest, k);
    } else {
      BlocksConcat(f, v, front, k, rest, n - 1);
      assert (front + rest)[64 * (k + n - 1)..64 * (k + n)] == rest[64 * (n - 1)..64 * n];
    }
  }

  lemma TailAfterBlocks<V>(f: (V, Bytes) -> V, v: V, m: Bytes, k: nat, tail: Bytes, n: nat)
    requires 64 * k <= |m| && |tail| == 64 * n
    ensures OverBlocks(f, OverBlocks(f, v, m, k), tail, n) == OverBlocks(f, v, m[..64 * k] + tail, k + n)
  {
    BlocksConcat(f, v, m[..64 * k], k, tail, n);
    BlocksOfPrefix(f, v, m[..64 * k], m, k);
  }

  /** `stateToBytes` */
  method StateToBytes(state: Vars) returns (digest: array<Byte>)
    ensures fresh(digest) && digest[..] == DigestBytes(state)
  {
    digest := new Byte[32](_ => 0);
    var words := [state.a, state.b, state.c, state.d, state.e, state.f, state.g, state.h];
    for index := 0 to |words|
      invariant digest[..index * 4] == WordBytes(words[..index])
    {
      WriteWord(digest, index * 4, WordValue(words[index]));
      assert words[..index + 1][..index] == words[..index];
    }
    assert words[..|words|] == words;
  }

  /** `sha256Bytes`: the double-precision bit length is exact below 2^53. */
  method Sha256Bytes(message: Bytes) returns (digest: array<Byte>)
    requires |message| < 0x4_0000_0000_0000
    ensures fresh(digest) && digest[..] == Sha256(message)
  {
    var state := CompressMessage(message, Initial());
    digest := StateToBytes(state);
  }

  method CompressMessage(message: Bytes, v: Vars) returns (state: Vars)
    ensures state == Hashed(v, Padded(message), |Padded(message)| / 64)
  {
    hide Compressed;
    var words := new bv32[16](_ => 0);
    var completeByteLength := WholeBlocks(|message|);
    state := CompressBlocks(message, completeByteLength, v, words);
    var tail := BuildTail(message, completeByteLength);
    ghost var t := tail[..];
    state := CompressBlocks(tail[..], tail.Length, state, words);
    HashedTail(v, message, t);
  }

  lemma HashedTail(v: Vars, m: Bytes, tail: Bytes)
    requires tail == Tail(m)
    ensures |tail| % 64 == 0
    ensures Hashed(Hashed(v, m, WholeBlocks(|m|) / 64), tail, |tail| / 64) == Hashed(v, Padded(m), |Padded(m)| / 64)
  {
    hide Compressed;
    TailPads(m);
    TailAfterBlocks(Compressed, v, m, WholeBlocks(|m|) / 64, tail, |tail| / 64);
  }
}
