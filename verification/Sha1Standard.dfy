/**
  SHA-1 as FIPS PUB 180-1 defines it, for messages of whole bytes: padding
  (section 4), functions and constants (sections 5 and 6), and the computation of
  the digest (section 7).
 */
module Sha1Standard {
  type Octet = bv8
  type Word = bv32

  datatype Hash = Hash(a: Word, b: Word, c: Word, d: Word, e: Word)

  const INITIAL := Hash(0x67452301, 0xEFCDAB89, 0x98BADCFE, 0x10325476, 0xC3D2E1F0)
  const TWO_32: nat := 0x1_0000_0000
  const BLOCK: nat := 64

  // Sections 3, 5 and 6: words, functions, constants.

  /** Addition modulo 2^32. */
  function Sum(x: Word, y: Word): Word { x + y }

  function Rotl1(w: Word): Word { (w << 1) | (w >> 31) }
  function Rotl5(w: Word): Word { (w << 5) | (w >> 27) }
  function Rotl30(w: Word): Word { (w << 30) | (w >> 2) }

  function F(t: nat, b: Word, c: Word, d: Word): Word {
    if t < 20 then (b & c) | ((!b) & d)
    else if t < 40 then b ^ c ^ d
    else if t < 60 then (b & c) | (b & d) | (c & d)
    else b ^ c ^ d
  }

  function K(t: nat): Word {
    if t < 20 then 0x5A827999
    else if t < 40 then 0x6ED9EBA1
    else if t < 60 then 0x8F1BBCDC
    else 0xCA62C1D6
  }

  /** Four bytes as a word, the most significant first. */
  function WordOf(a: Octet, b: Octet, c: Octet, d: Octet): Word {
    ((a as bv32) << 24) | ((b as bv32) << 16) | ((c as bv32) << 8) | (d as bv32)
  }

  function WordAt(block: seq<Octet>, t: nat): Word
    requires 4 * t + 4 <= |block|
  {
    WordOf(block[4 * t], block[4 * t + 1], block[4 * t + 2], block[4 * t + 3])
  }

  function Xor4(a: Word, b: Word, c: Word, d: Word): Word {
    a ^ b ^ c ^ d
  }

  function Low(w: Word): Octet {
    (w & 0xFF) as bv8
  }

  function WordOctets(w: Word): (r: seq<Octet>)
    ensures |r| == 4
  {
    [Low(w >> 24), Low(w >> 16), Low(w >> 8), Low(w)]
  }

  function WordsOctets(words: seq<Word>): (r: seq<Octet>)
    ensures |r| == 4 * |words|
  {
    if words == [] then [] else WordsOctets(words[..|words| - 1]) + WordOctets(words[|words| - 1])
  }

  // Section 4: padding.

  function Octet8(n: nat): Octet {
    (n % 256) as bv8
  }

  /** A number below 2^32 as four bytes, the most significant first. */
  function NumberOctets(n: nat): (r: seq<Octet>)
    ensures |r| == 4
  {
    [Octet8(n / 0x100_0000), Octet8(n / 0x1_0000), Octet8(n / 0x100), Octet8(n)]
  }

  function Zeros(n: nat): (r: seq<Octet>)
    ensures |r| == n && forall i :: 0 <= i < n ==> r[i] == 0
  {
    seq(n, _ => 0)
  }

  /** How many zero bytes follow the byte that starts with the one bit. */
  function ZeroCount(n: nat): nat {
    (55 - n) % 64
  }

  function Pad(m: seq<Octet>): seq<Octet> {
    m + [0x80] + Zeros(ZeroCount(|m|))
    + NumberOctets(8 * |m| / TWO_32) + NumberOctets(8 * |m| % TWO_32)
  }

  // Section 7: the digest.

  function Schedule(block: seq<Octet>, t: nat): Word
    requires |block| == BLOCK && t < 80
  {
    if t < 16 then WordAt(block, t)
    else Rotl1(Xor4(Schedule(block, t - 3), Schedule(block, t - 8), Schedule(block, t - 14), Schedule(block, t - 16)))
  }

  function Temp(h: Hash, t: nat, w: Word): Word {
    Sum(Sum(Sum(Sum(Rotl5(h.a), F(t, h.b, h.c, h.d)), h.e), w), K(t))
  }

  function Round(h: Hash, t: nat, w: Word): Hash {
    Hash(Temp(h, t, w), h.a, Rotl30(h.b), h.c, h.d)
  }

  function Rounds(h: Hash, block: seq<Octet>, t: nat): Hash
    requires |block| == BLOCK && t <= 80
  {
    if t == 0 then h else Round(Rounds(h, block, t - 1), t - 1, Schedule(block, t - 1))
  }

  function AddHash(h: Hash, g: Hash): Hash {
    Hash(Sum(h.a, g.a), Sum(h.b, g.b), Sum(h.c, g.c), Sum(h.d, g.d), Sum(h.e, g.e))
  }

  function Compress(h: Hash, block: seq<Octet>): Hash
    requires |block| == BLOCK
  {
    AddHash(h, Rounds(h, block, 80))
  }

  function Absorb(h: Hash, m: seq<Octet>): Hash
    requires |m| % BLOCK == 0
    decreases |m|
  {
    if |m| == 0 then h
    else Compress(Absorb(h, m[..|m| - BLOCK]), m[|m| - BLOCK..])
  }

  function HashOctets(h: Hash): (r: seq<Octet>)
    ensures |r| == 20
  {
    WordsOctets([h.a, h.b, h.c, h.d, h.e])
  }

  function Sha1(m: seq<Octet>): (r: seq<Octet>)
    ensures |r| == 20
  {
    PaddedSize(m);
    HashOctets(Absorb(INITIAL, Pad(m)))
  }

  // One step of the schedule and of the rounds.

  lemma {:induction false} FirstWord(block: seq<Octet>, t: nat)
    requires |block| == BLOCK && t < 16
    ensures Schedule(block, t) == WordAt(block, t)
  {
    hide WordAt;
  }

  lemma {:induction false} NextWord(block: seq<Octet>, t: nat)
    requires |block| == BLOCK && 16 <= t < 80
    ensures Schedule(block, t) ==
      Rotl1(Xor4(Schedule(block, t - 3), Schedule(block, t - 8), Schedule(block, t - 14), Schedule(block, t - 16)))
  {
    hide Rotl1, Xor4, WordAt;
  }

  lemma {:induction false} NoRounds(h: Hash, block: seq<Octet>)
    requires |block| == BLOCK
    ensures Rounds(h, block, 0) == h
  {
    hide Temp, Schedule;
  }

  lemma {:induction false} NextRound(h: Hash, block: seq<Octet>, t: nat)
    requires |block| == BLOCK && t < 80
    ensures Rounds(h, block, t + 1) == Round(Rounds(h, block, t), t, Schedule(block, t))
  {
    hide Schedule, Temp, Round;
  }

  // Padding and whole blocks.

  /** With z zero bytes, a message of n bytes fills whole blocks. */
  predicate FillsBlocks(n: nat, z: nat) {
    (n + 9 + z) % BLOCK == 0
  }

  lemma {:induction false} ZerosFill(n: nat)
    ensures FillsBlocks(n, ZeroCount(n)) && ZeroCount(n) < BLOCK
  {
    var q, r := n / 64, n % 64;
    assert n == 64 * q + r;
    if r <= 55 {
      assert 55 - n == 64 * -q + (55 - r);
    } else {
      assert 55 - n == 64 * (-q - 1) + (119 - r);
    }
  }

  lemma {:induction false} ZerosLeast(n: nat, z: nat)
    requires FillsBlocks(n, z)
    ensures z >= ZeroCount(n)
  {
    var k := ZeroCount(n);
    ZerosFill(n);
    hide ZeroCount;
    var p, q := (n + 9 + z) / 64, (n + 9 + k) / 64;
    assert k - z == 64 * (q - p);
  }

  /** Padding completes a block, with as few zero bytes as possible. */
  lemma {:induction false} PaddedSize(m: seq<Octet>)
    ensures |Pad(m)| % BLOCK == 0
    ensures forall z: nat :: FillsBlocks(|m|, z) ==> |Pad(m)| <= |m| + 9 + z
  {
    hide NumberOctets, ZeroCount;
    ZerosFill(|m|);
    forall z: nat | FillsBlocks(|m|, z)
      ensures z >= ZeroCount(|m|)
    {
      ZerosLeast(|m|, z);
    }
  }

  lemma {:induction false} AbsorbBlock(h: Hash, m: seq<Octet>, block: seq<Octet>)
    requires |m| % BLOCK == 0 && |block| == BLOCK
    ensures |m + block| % BLOCK == 0
    ensures Absorb(h, m + block) == Compress(Absorb(h, m), block)
  {
    hide Compress;
    var all := m + block;
    assert all[..|all| - BLOCK] == m && all[|all| - BLOCK..] == block;
  }

  /** The digest of a message does not depend on where block boundaries are drawn between whole blocks. */
  lemma {:induction false} AbsorbAppend(h: Hash, m: seq<Octet>, n: seq<Octet>)
    requires |m| % BLOCK == 0 && |n| % BLOCK == 0
    ensures |m + n| % BLOCK == 0
    ensures Absorb(h, m + n) == Absorb(Absorb(h, m), n)
    decreases |n|
  {
    hide Compress;
    if |n| == 0 {
      assert m + n == m;
    } else {
      var rest, last := n[..|n| - BLOCK], n[|n| - BLOCK..];
      AbsorbAppend(h, m, rest);
      AbsorbBlock(h, m + rest, last);
      assert (m + rest) + last == m + n;
    }
  }

  /** With room for the length in the last block, padding adds one block. */
  lemma {:induction false} PadOneBlock(done: seq<Octet>, tail: seq<Octet>)
    requires |done| % BLOCK == 0 && |tail| < 56
    ensures var m := done + tail;
      Pad(m) == done + (tail + [0x80] + Zeros(55 - |tail|)
                        + NumberOctets(8 * |m| / TWO_32) + NumberOctets(8 * |m| % TWO_32))
  {
    var m := done + tail;
    assert ZeroCount(|m|) == 55 - |tail|;
  }

  /** Otherwise it adds two. */
  lemma {:induction false} PadTwoBlocks(done: seq<Octet>, tail: seq<Octet>)
    requires |done| % BLOCK == 0 && 56 <= |tail| < BLOCK
    ensures var m := done + tail;
      Pad(m) == (done + (tail + [0x80] + Zeros(63 - |tail|)))
                + (Zeros(56) + NumberOctets(8 * |m| / TWO_32) + NumberOctets(8 * |m| % TWO_32))
  {
    var m := done + tail;
    assert ZeroCount(|m|) == 119 - |tail|;
    assert Zeros(119 - |tail|) == Zeros(63 - |tail|) + Zeros(56);
  }
}
