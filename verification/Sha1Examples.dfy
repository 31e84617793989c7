/**
  What the constants and functions of SHA-1 mean, and the digests that appendices A
  and B of FIPS PUB 180-1 give for two messages, through all rounds.
 */
module Sha1Examples {
  import opened Sha1Standard

  // Constants, functions and bytes, by what they mean.

  /** k is the integer part of 2^30 times the square root of n. */
  predicate IsRoot(k: nat, n: nat) {
    k * k <= n * 0x1000_0000_0000_0000 < (k + 1) * (k + 1)
  }

  /** The round constants come from the square roots of 2, 3, 5 and 10. */
  lemma {:induction false} ConstantsAreRoots(t: nat)
    ensures t < 20 ==> IsRoot(K(t) as int, 2)
    ensures 20 <= t < 40 ==> IsRoot(K(t) as int, 3)
    ensures 40 <= t < 60 ==> IsRoot(K(t) as int, 5)
    ensures 60 <= t ==> IsRoot(K(t) as int, 10)
  {
    assert (0x5A827999 as bv32) as int == 0x5A827999;
    assert (0x6ED9EBA1 as bv32) as int == 0x6ED9EBA1;
    assert (0x8F1BBCDC as bv32) as int == 0x8F1BBCDC;
    assert (0xCA62C1D6 as bv32) as int == 0xCA62C1D6;
  }

  predicate HasBit(w: Word, bit: Word) {
    w & bit != 0
  }

  predicate AtMostOneBit(bit: Word) {
    bit & (bit - 1) == 0
  }

  lemma {:induction false} Choice(b: Word, c: Word, d: Word, bit: Word)
    requires AtMostOneBit(bit)
    ensures HasBit((b & c) | ((!b) & d), bit) == if HasBit(b, bit) then HasBit(c, bit) else HasBit(d, bit)
  {
  }

  lemma {:induction false} Parity(b: Word, c: Word, d: Word, bit: Word)
    requires AtMostOneBit(bit)
    ensures HasBit(b ^ c ^ d, bit) == ((HasBit(b, bit) != HasBit(c, bit)) != HasBit(d, bit))
  {
  }

  lemma {:induction false} Majority(b: Word, c: Word, d: Word, bit: Word)
    requires AtMostOneBit(bit)
    ensures HasBit((b & c) | (b & d) | (c & d), bit) <==>
      || (HasBit(b, bit) && HasBit(c, bit))
      || (HasBit(c, bit) && HasBit(d, bit))
      || (HasBit(b, bit) && HasBit(d, bit))
  {
  }

  /** Bit by bit, the function of a round is a choice by b, the parity, or the majority. */
  lemma {:induction false} RoundBits(t: nat, b: Word, c: Word, d: Word, bit: Word)
    requires AtMostOneBit(bit)
    ensures var f, x, y, z := HasBit(F(t, b, c, d), bit), HasBit(b, bit), HasBit(c, bit), HasBit(d, bit);
      if t < 20 then f == (if x then y else z)
      else if 40 <= t < 60 then f <==> (x && y) || (y && z) || (x && z)
      else f == ((x != y) != z)
  {
    hide HasBit, AtMostOneBit;
    if t < 20 {
      Choice(b, c, d, bit);
    } else if 40 <= t < 60 {
      Majority(b, c, d, bit);
    } else {
      Parity(b, c, d, bit);
    }
  }

  lemma {:induction false} RotationsAre(w: Word)
    ensures Rotl1(w) == w.RotateLeft(1) && Rotl5(w) == w.RotateLeft(5) && Rotl30(w) == w.RotateLeft(30)
  {
  }

  lemma {:induction false} SameLow(x: nat, y: nat, z: nat)
    requires x == 0x100 * z + y
    ensures x % 0x100 == y % 0x100
  {
  }

  lemma {:induction false} HighDigits(n: nat)
    ensures n / TWO_32 / 0x100 == n / 0x100_0000_0000
    ensures n / TWO_32 / 0x1_0000 == n / 0x1_0000_0000_0000
    ensures n / TWO_32 / 0x100_0000 == n / 0x100_0000_0000_0000
  {
  }

  lemma {:induction false} LowDigits(n: nat)
    ensures n % TWO_32 % 0x100 == n % 0x100
    ensures n % TWO_32 / 0x100 % 0x100 == n / 0x100 % 0x100
    ensures n % TWO_32 / 0x1_0000 % 0x100 == n / 0x1_0000 % 0x100
    ensures n % TWO_32 / 0x100_0000 % 0x100 == n / 0x100_0000 % 0x100
  {
    var q := n / TWO_32;
    SameLow(n, n % TWO_32, 0x100_0000 * q);
    SameLow(n / 0x100, n % TWO_32 / 0x100, 0x1_0000 * q);
    SameLow(n / 0x1_0000, n % TWO_32 / 0x1_0000, 0x100 * q);
    SameLow(n / 0x100_0000, n % TWO_32 / 0x100_0000, q);
  }

  lemma {:induction false} SameOctet(m: nat, n: nat)
    requires m % 0x100 == n % 0x100
    ensures Octet8(m) == Octet8(n)
  {
  }

  /** The two words of the length are one number of eight bytes. */
  lemma {:induction false} LengthOctets(n: nat)
    ensures NumberOctets(n / TWO_32) + NumberOctets(n % TWO_32) == [
      Octet8(n / 0x100_0000_0000_0000), Octet8(n / 0x1_0000_0000_0000),
      Octet8(n / 0x100_0000_0000), Octet8(n / 0x1_0000_0000),
      Octet8(n / 0x100_0000), Octet8(n / 0x1_0000), Octet8(n / 0x100), Octet8(n)]
  {
    hide Octet8;
    HighDigits(n);
    LowDigits(n);
    var q, r := n / TWO_32, n % TWO_32;
    SameOctet(q / 0x100_0000, n / 0x100_0000_0000_0000);
    SameOctet(q / 0x1_0000, n / 0x1_0000_0000_0000);
    SameOctet(q / 0x100, n / 0x100_0000_0000);
    SameOctet(q, n / 0x1_0000_0000);
    SameOctet(r / 0x100_0000, n / 0x100_0000);
    SameOctet(r / 0x1_0000, n / 0x1_0000);
    SameOctet(r / 0x100, n / 0x100);
    SameOctet(r, n);
  }

  /** A padded message: the message, a one bit, zero bits, and the number of its bits in eight bytes. */
  lemma {:induction false} PaddingIs(m: seq<Octet>)
    requires |m| < 0x2000_0000_0000_0000
    ensures var p, bits := Pad(m), 8 * |m|; var end := |p| - 8;
      && |m| < end && p[..|m|] == m && p[|m|] == 0x80
      && (forall i :: |m| < i < end ==> p[i] == 0)
      && p[end..] == [
           Octet8(bits / 0x100_0000_0000_0000), Octet8(bits / 0x1_0000_0000_0000),
           Octet8(bits / 0x100_0000_0000), Octet8(bits / 0x1_0000_0000),
           Octet8(bits / 0x100_0000), Octet8(bits / 0x1_0000), Octet8(bits / 0x100), Octet8(bits)]
  {
    hide NumberOctets, ZeroCount, Octet8;
    var high, low := NumberOctets(8 * |m| / TWO_32), NumberOctets(8 * |m| % TWO_32);
    LengthOctets(8 * |m|);
    assert Pad(m) == (m + [0x80] + Zeros(ZeroCount(|m|))) + (high + low);
  }

  lemma {:induction false} OctetsOfWord(a: Octet, b: Octet, c: Octet, d: Octet)
    ensures WordOctets(WordOf(a, b, c, d)) == [a, b, c, d]
  {
  }

  lemma {:induction false} PadLength(m: seq<Octet>)
    ensures |Pad(m)| == |m| + 9 + ZeroCount(|m|)
  {
  }

  /** Each byte of a padded message. */
  lemma {:induction false} PaddedOctet(m: seq<Octet>, i: nat)
    requires i < |Pad(m)|
    ensures var end := |Pad(m)| - 8;
      Pad(m)[i] ==
        if i < |m| then m[i]
        else if i == |m| then 0x80
        else if i < end then 0
        else (NumberOctets(8 * |m| / TWO_32) + NumberOctets(8 * |m| % TWO_32))[i - end]
  {
    hide NumberOctets, ZeroCount;
  }

  lemma {:induction false} DigestOctets(h: Hash)
    ensures HashOctets(h) == WordOctets(h.a) + WordOctets(h.b) + WordOctets(h.c) + WordOctets(h.d) + WordOctets(h.e)
  {
    hide WordOctets;
    var words := [h.a, h.b, h.c, h.d, h.e];
    var w4, w3, w2, w1 := [h.a, h.b, h.c, h.d], [h.a, h.b, h.c], [h.a, h.b], [h.a];
    assert words[..4] == w4 && w4[..3] == w3 && w3[..2] == w2 && w2[..1] == w1 && w1[..0] == [];
    assert WordsOctets(w1) == WordOctets(h.a);
    assert WordsOctets(w2) == WordOctets(h.a) + WordOctets(h.b);
    assert WordsOctets(w3) == WordOctets(h.a) + WordOctets(h.b) + WordOctets(h.c);
    assert WordsOctets(w4) == WordOctets(h.a) + WordOctets(h.b) + WordOctets(h.c) + WordOctets(h.d);
  }

  lemma {:induction false} SmallOctets()
    ensures Octet8(0) == 0 && Octet8(1) == 1 && Octet8(0x18) == 0x18 && Octet8(0x1C0) == 0xC0
  {
  }

  // Computing a digest.

  /** Eight more words. */
  lemma {:induction false} NextWords(block: seq<Octet>, t: nat)
    requires |block| == BLOCK && 16 <= t <= 72
    ensures Schedule(block, t) ==
      Rotl1(Xor4(Schedule(block, t - 3), Schedule(block, t - 8), Schedule(block, t - 14), Schedule(block, t - 16)))
    ensures Schedule(block, t + 1) ==
      Rotl1(Xor4(Schedule(block, t - 2), Schedule(block, t - 7), Schedule(block, t - 13), Schedule(block, t - 15)))
    ensures Schedule(block, t + 2) ==
      Rotl1(Xor4(Schedule(block, t - 1), Schedule(block, t - 6), Schedule(block, t - 12), Schedule(block, t - 14)))
    ensures Schedule(block, t + 3) ==
      Rotl1(Xor4(Schedule(block, t), Schedule(block, t - 5), Schedule(block, t - 11), Schedule(block, t - 13)))
    ensures Schedule(block, t + 4) ==
      Rotl1(Xor4(Schedule(block, t + 1), Schedule(block, t - 4), Schedule(block, t - 10), Schedule(block, t - 12)))
    ensures Schedule(block, t + 5) ==
      Rotl1(Xor4(Schedule(block, t + 2), Schedule(block, t - 3), Schedule(block, t - 9), Schedule(block, t - 11)))
    ensures Schedule(block, t + 6) ==
      Rotl1(Xor4(Schedule(block, t + 3), Schedule(block, t - 2), Schedule(block, t - 8), Schedule(block, t - 10)))
    ensures Schedule(block, t + 7) ==
      Rotl1(Xor4(Schedule(block, t + 4), Schedule(block, t - 1), Schedule(block, t - 7), Schedule(block, t - 9)))
  {
    hide Schedule, Rotl1, Xor4;
    NextWord(block, t);
    NextWord(block, t + 1);
    NextWord(block, t + 2);
    NextWord(block, t + 3);
    NextWord(block, t + 4);
    NextWord(block, t + 5);
    NextWord(block, t + 6);
    NextWord(block, t + 7);
  }

  /** Ten more rounds. */
  lemma {:induction false} NextRounds(h: Hash, block: seq<Octet>, t: nat)
    requires |block| == BLOCK && t <= 70
    ensures Rounds(h, block, t + 1) == Round(Rounds(h, block, t), t, Schedule(block, t))
    ensures Rounds(h, block, t + 2) == Round(Rounds(h, block, t + 1), t + 1, Schedule(block, t + 1))
    ensures Rounds(h, block, t + 3) == Round(Rounds(h, block, t + 2), t + 2, Schedule(block, t + 2))
    ensures Rounds(h, block, t + 4) == Round(Rounds(h, block, t + 3), t + 3, Schedule(block, t + 3))
    ensures Rounds(h, block, t + 5) == Round(Rounds(h, block, t + 4), t + 4, Schedule(block, t + 4))
    ensures Rounds(h, block, t + 6) == Round(Rounds(h, block, t + 5), t + 5, Schedule(block, t + 5))
    ensures Rounds(h, block, t + 7) == Round(Rounds(h, block, t + 6), t + 6, Schedule(block, t + 6))
    ensures Rounds(h, block, t + 8) == Round(Rounds(h, block, t + 7), t + 7, Schedule(block, t + 7))
    ensures Rounds(h, block, t + 9) == Round(Rounds(h, block, t + 8), t + 8, Schedule(block, t + 8))
    ensures Rounds(h, block, t + 10) == Round(Rounds(h, block, t + 9), t + 9, Schedule(block, t + 9))
  {
    hide Schedule, Rounds, Round;
    NextRound(h, block, t);
    NextRound(h, block, t + 1);
    NextRound(h, block, t + 2);
    NextRound(h, block, t + 3);
    NextRound(h, block, t + 4);
    NextRound(h, block, t + 5);
    NextRound(h, block, t + 6);
    NextRound(h, block, t + 7);
    NextRound(h, block, t + 8);
    NextRound(h, block, t + 9);
  }

  /** Eight words of the schedule, from t on. */
  ghost predicate Eight(block: seq<Octet>, t: nat, w0: Word, w1: Word, w2: Word, w3: Word,
                        w4: Word, w5: Word, w6: Word, w7: Word)
    requires |block| == BLOCK && t <= 72
  {
    && Schedule(block, t) == w0 && Schedule(block, t + 1) == w1
    && Schedule(block, t + 2) == w2 && Schedule(block, t + 3) == w3
    && Schedule(block, t + 4) == w4 && Schedule(block, t + 5) == w5
    && Schedule(block, t + 6) == w6 && Schedule(block, t + 7) == w7
  }

  // "abc", which is padded to one block.

  const ABC: seq<Octet> := [0x61, 0x62, 0x63]

  /** The words of the padded message. */
  ghost predicate IsAbc(block: seq<Octet>)
    requires |block| == BLOCK
  {
    && Eight(block, 0, 0x61626380, 0x00000000, 0x00000000, 0x00000000,
             0x00000000, 0x00000000, 0x00000000, 0x00000000)
    && Eight(block, 8, 0x00000000, 0x00000000, 0x00000000, 0x00000000,
             0x00000000, 0x00000000, 0x00000000, 0x00000018)
  }

  lemma {:induction false} AbcWords48(block: seq<Octet>)
    requires |block| == BLOCK && IsAbc(block)
    ensures Eight(block, 16, 0xC2C4C700, 0x00000000, 0x00000030, 0x85898E01,
                  0x00000000, 0x00000060, 0x0B131C03, 0x00000030)
    ensures Eight(block, 24, 0x85898EC1, 0x16263806, 0x00000000, 0x00000180,
                  0x2C4C700C, 0x000000F0, 0x93AFB507, 0x5898E048)
    ensures Eight(block, 32, 0x8E9A9202, 0x00000600, 0xB131C0F0, 0x16263BC6,
                  0x4EBED41E, 0x626380A1, 0x16263806, 0x000018C0)
    ensures Eight(block, 40, 0xD2E138C4, 0x00000F00, 0x3AFB5079, 0x898E04E5,
                  0xE2BA3C2B, 0x000060C0, 0x053A37CD, 0x74458547)
  {
    hide Schedule;
    NextWords(block, 16);
    NextWords(block, 24);
    NextWords(block, 32);
    NextWords(block, 40);
  }

  lemma {:induction false} AbcWords80(block: seq<Octet>)
    requires |block| == BLOCK && IsAbc(block)
    ensures Eight(block, 48, 0xDA9415ED, 0x26380A16, 0x626383A1, 0x4EBF54DE,
                  0x3835B44B, 0x0000F600, 0x1E84C7A3, 0x98E04D98)
    ensures Eight(block, 56, 0x651D16A0, 0x62658CA1, 0x458544D6, 0x44584CB7,
                  0x7BA06619, 0x6380AEA2, 0x0AE55269, 0x627B49A1)
    ensures Eight(block, 64, 0x7CD45C9D, 0x000F0000, 0xFB50753A, 0xEC6765E8,
                  0xBA3C2BE2, 0x0060C000, 0x3A37CD05, 0x458546F4)
    ensures Eight(block, 72, 0xB8599DD6, 0x380A1A26, 0x01E02203, 0xE7CC3456,
                  0xE6E60B69, 0x00F60A00, 0x5795EF4F, 0x822E0879)
  {
    hide Schedule;
    AbcWords48(block);
    NextWords(block, 48);
    NextWords(block, 56);
    NextWords(block, 64);
    NextWords(block, 72);
  }

  lemma {:induction false} Abc20(block: seq<Octet>)
    requires |block| == BLOCK && IsAbc(block)
    ensures Rounds(INITIAL, block, 20) == Hash(0xFD9E1D7D, 0xDC64901D, 0x20AA99CA, 0xD3A49608, 0xC82F758B)
  {
    hide Schedule, Rounds;
    NoRounds(INITIAL, block);
    AbcWords48(block);
    NextRounds(INITIAL, block, 0);
    NextRounds(INITIAL, block, 10);
  }

  lemma {:induction false} Abc40(block: seq<Octet>)
    requires |block| == BLOCK && IsAbc(block)
    ensures Rounds(INITIAL, block, 40) == Hash(0x32DE1CBA, 0x4C986405, 0xF718E5CF, 0x03D447F6, 0xF72EEC32)
  {
    hide Schedule, Rounds;
    Abc20(block);
    AbcWords48(block);
    NextRounds(INITIAL, block, 20);
    NextRounds(INITIAL, block, 30);
  }

  lemma {:induction false} Abc60(block: seq<Octet>)
    requires |block| == BLOCK && IsAbc(block)
    ensures Rounds(INITIAL, block, 60) == Hash(0x3F52DE5A, 0x09D785FD, 0x3498BFD4, 0xF211824F, 0xD79915AB)
  {
    hide Schedule, Rounds;
    Abc40(block);
    AbcWords48(block);
    AbcWords80(block);
    NextRounds(INITIAL, block, 40);
    NextRounds(INITIAL, block, 50);
  }

  lemma {:induction false} Abc80(block: seq<Octet>)
    requires |block| == BLOCK && IsAbc(block)
    ensures Rounds(INITIAL, block, 80) == Hash(0x42541B35, 0x5738D5E1, 0x21834873, 0x681E6DF6, 0xD8FDF6AD)
  {
    hide Schedule, Rounds;
    Abc60(block);
    AbcWords80(block);
    NextRounds(INITIAL, block, 60);
    NextRounds(INITIAL, block, 70);
  }

  lemma {:induction false} AbcHash(block: seq<Octet>)
    requires |block| == BLOCK && IsAbc(block)
    ensures Compress(INITIAL, block) == Hash(0xA9993E36, 0x4706816A, 0xBA3E2571, 0x7850C26C, 0x9CD0D89D)
  {
    hide Rounds, IsAbc;
    Abc80(block);
  }

  lemma {:induction false} AbcPadded()
    ensures |Pad(ABC)| == BLOCK && IsAbc(Pad(ABC))
  {
    hide Schedule, Pad, Octet8;
    var p := Pad(ABC);
    assert |p| == BLOCK by {
      PadLength(ABC);
    }
    forall t: nat | t < 16
      ensures Schedule(p, t) == if t == 0 then 0x61626380 else if t == 15 then 0x18 else 0
    {
      FirstWord(p, t);
      PaddedOctet(ABC, 4 * t);
      PaddedOctet(ABC, 4 * t + 1);
      PaddedOctet(ABC, 4 * t + 2);
      PaddedOctet(ABC, 4 * t + 3);
      SmallOctets();
    }
  }

  lemma {:induction false} AbcDigest()
    ensures Sha1(ABC) == [
      0xA9, 0x99, 0x3E, 0x36, 0x47, 0x06, 0x81, 0x6A, 0xBA, 0x3E,
      0x25, 0x71, 0x78, 0x50, 0xC2, 0x6C, 0x9C, 0xD0, 0xD8, 0x9D]
  {
    hide Pad, Compress, IsAbc, HashOctets;
    AbcPadded();
    AbcHash(Pad(ABC));
    AbsorbBlock(INITIAL, [], Pad(ABC));
    assert [] + Pad(ABC) == Pad(ABC);
    hide Absorb;
    DigestOctets(Absorb(INITIAL, Pad(ABC)));
  }

  // "abcdbcdecdefdefgefghfghighijhijkijkljklmklmnlmnomnopnopq", which is padded to two blocks.

  const LETTERS: seq<Octet> :=
    [0x61, 0x62, 0x63, 0x64, 0x62, 0x63, 0x64, 0x65] +
    [0x63, 0x64, 0x65, 0x66, 0x64, 0x65, 0x66, 0x67] +
    [0x65, 0x66, 0x67, 0x68, 0x66, 0x67, 0x68, 0x69] +
    [0x67, 0x68, 0x69, 0x6A, 0x68, 0x69, 0x6A, 0x6B] +
    [0x69, 0x6A, 0x6B, 0x6C, 0x6A, 0x6B, 0x6C, 0x6D] +
    [0x6B, 0x6C, 0x6D, 0x6E, 0x6C, 0x6D, 0x6E, 0x6F] +
    [0x6D, 0x6E, 0x6F, 0x70, 0x6E, 0x6F, 0x70, 0x71]

  /** The words of the first block. */
  ghost predicate IsFirst(block: seq<Octet>)
    requires |block| == BLOCK
  {
    && Eight(block, 0, 0x61626364, 0x62636465, 0x63646566, 0x64656667,
             0x65666768, 0x66676869, 0x6768696A, 0x68696A6B)
    && Eight(block, 8, 0x696A6B6C, 0x6A6B6C6D, 0x6B6C6D6E, 0x6C6D6E6F,
             0x6D6E6F70, 0x6E6F7071, 0x80000000, 0x00000000)
  }

  lemma {:induction false} FirstWords48(block: seq<Octet>)
    requires |block| == BLOCK && IsFirst(block)
    ensures Eight(block, 16, 0x0A063A3E, 0xD8DADCDF, 0xDADCDEC0, 0xC8D2B4BE,
                  0x6F757B5B, 0x757B5967, 0x8DA16D70, 0xDAEEFABA)
    ensures Eight(block, 24, 0xFAF6CAB6, 0xA6FB675A, 0x0C604CC8, 0x604CC02C,
                  0x49C0E6E2, 0x2EE8CBBC, 0xCFD72EC4, 0x97E9810E)
    ensures Eight(block, 32, 0x0989CBE8, 0xF24843FE, 0x5C40D0BA, 0xA8D9CC3B,
                  0xB2B9666E, 0xBA7B71B7, 0x20B28A72, 0xB28AF500)
    ensures Eight(block, 40, 0x8AC87842, 0x289ADDF4, 0x56D51F21, 0xD96B7FD2,
                  0x3868E778, 0xAB5E4848, 0x7F0E2118, 0xDE87A111)
  {
    hide Schedule;
    NextWords(block, 16);
    NextWords(block, 24);
    NextWords(block, 32);
    NextWords(block, 40);
  }

  lemma {:induction false} FirstWords80(block: seq<Octet>)
    requires |block| == BLOCK && IsFirst(block)
    ensures Eight(block, 48, 0xE8BE56B0, 0x1A0AE652, 0xCD5611C8, 0x46EF29DC,
                  0x60D3DA6D, 0xDDF3BA6E, 0x2737F5E9, 0x4888A710)
    ensures Eight(block, 56, 0xD2A1177B, 0x9999633B, 0xD6C69D03, 0xCCF6127B,
                  0x7C58FE6D, 0xFDD99C68, 0xF8E32074, 0xE0BA3C7D)
    ensures Eight(block, 64, 0x152198D6, 0x7B3F1982, 0x37F2D5B7, 0x8596323E,
                  0x810790D6, 0xBEA0A942, 0x11C7E1B1, 0x6158D101)
    ensures Eight(block, 72, 0x5FCD77D9, 0x7F2F12E6, 0xF868CFB1, 0xD6E997E9,
                  0xF526B852, 0xB7578DCC, 0x55D99DF4, 0x1FF69958)
  {
    hide Schedule;
    FirstWords48(block);
    NextWords(block, 48);
    NextWords(block, 56);
    NextWords(block, 64);
    NextWords(block, 72);
  }

  lemma {:induction false} First20(block: seq<Octet>)
    requires |block| == BLOCK && IsFirst(block)
    ensures Rounds(INITIAL, block, 20) == Hash(0x6C445652, 0x944B1BD1, 0x509AE70D, 0x1AC1A012, 0x5098DF8E)
  {
    hide Schedule, Rounds;
    NoRounds(INITIAL, block);
    FirstWords48(block);
    NextRounds(INITIAL, block, 0);
    NextRounds(INITIAL, block, 10);
  }

  lemma {:induction false} First40(block: seq<Octet>)
    requires |block| == BLOCK && IsFirst(block)
    ensures Rounds(INITIAL, block, 40) == Hash(0xADEB7478, 0x24957F22, 0x50FE1EBA, 0x564CFF26, 0xAADF0CBB)
  {
    hide Schedule, Rounds;
    First20(block);
    FirstWords48(block);
    NextRounds(INITIAL, block, 20);
    NextRounds(INITIAL, block, 30);
  }

  lemma {:induction false} First60(block: seq<Octet>)
    requires |block| == BLOCK && IsFirst(block)
    ensures Rounds(INITIAL, block, 60) == Hash(0x9EF775C3, 0xF03D3782, 0xEB029E53, 0xE9A06DC8, 0x1DDB0E44)
  {
    hide Schedule, Rounds;
    First40(block);
    FirstWords48(block);
    FirstWords80(block);
    NextRounds(INITIAL, block, 40);
    NextRounds(INITIAL, block, 50);
  }

  lemma {:induction false} First80(block: seq<Octet>)
    requires |block| == BLOCK && IsFirst(block)
    ensures Rounds(INITIAL, block, 80) == Hash(0x8CE34517, 0xD3AD7C25, 0x6B4E1883, 0x74351CD2, 0x86838382)
  {
    hide Schedule, Rounds;
    First60(block);
    FirstWords80(block);
    NextRounds(INITIAL, block, 60);
    NextRounds(INITIAL, block, 70);
  }

  lemma {:induction false} FirstHash(block: seq<Octet>)
    requires |block| == BLOCK && IsFirst(block)
    ensures Compress(INITIAL, block) == Hash(0xF4286818, 0xC37B27AE, 0x0408F581, 0x84677148, 0x4A566572)
  {
    hide Rounds, IsFirst;
    First80(block);
  }

  const SECOND_START := Hash(0xF4286818, 0xC37B27AE, 0x0408F581, 0x84677148, 0x4A566572)

  /** The words of the second block. */
  ghost predicate IsSecond(block: seq<Octet>)
    requires |block| == BLOCK
  {
    && Eight(block, 0, 0x00000000, 0x00000000, 0x00000000, 0x00000000,
             0x00000000, 0x00000000, 0x00000000, 0x00000000)
    && Eight(block, 8, 0x00000000, 0x00000000, 0x00000000, 0x00000000,
             0x00000000, 0x00000000, 0x00000000, 0x000001C0)
  }

  lemma {:induction false} SecondWords48(block: seq<Octet>)
    requires |block| == BLOCK && IsSecond(block)
    ensures Eight(block, 16, 0x00000000, 0x00000000, 0x00000380, 0x00000000,
                  0x00000000, 0x00000700, 0x00000000, 0x00000380)
    ensures Eight(block, 24, 0x00000E00, 0x00000000, 0x00000000, 0x00001C00,
                  0x00000000, 0x00000D80, 0x00003800, 0x00000480)
    ensures Eight(block, 32, 0x00000000, 0x00007000, 0x00000E00, 0x00003600,
                  0x0000E000, 0x00000E00, 0x00000000, 0x0001CE00)
    ensures Eight(block, 40, 0x00000000, 0x0000D800, 0x00038000, 0x00004F00,
                  0x00000000, 0x00070E00, 0x0000EE00, 0x00037500)
  {
    hide Schedule;
    NextWords(block, 16);
    NextWords(block, 24);
    NextWords(block, 32);
    NextWords(block, 40);
  }

  lemma {:induction false} SecondWords80(block: seq<Octet>)
    requires |block| == BLOCK && IsSecond(block)
    ensures Eight(block, 48, 0x000E0000, 0x0000E000, 0x00003600, 0x001CEE00,
                  0x00000000, 0x000DF000, 0x00380000, 0x0004C600)
    ensures Eight(block, 56, 0x0000E000, 0x0070EE00, 0x000EE000, 0x00369E00,
                  0x00E00000, 0x000ED600, 0x0000E000, 0x01CEA600)
    ensures Eight(block, 64, 0x00000000, 0x00D80000, 0x0380E000, 0x004F0000,
                  0x00000000, 0x070E0000, 0x00EE0000, 0x03751C00)
    ensures Eight(block, 72, 0x0E000000, 0x00E0E000, 0x00363800, 0x1CEE9000,
                  0x00000000, 0x0DF09000, 0x3800E000, 0x04C77400)
  {
    hide Schedule;
    SecondWords48(block);
    NextWords(block, 48);
    NextWords(block, 56);
    NextWords(block, 64);
    NextWords(block, 72);
  }

  lemma {:induction false} Second20(block: seq<Octet>)
    requires |block| == BLOCK && IsSecond(block)
    ensures Rounds(SECOND_START, block, 20) == Hash(0xD8992153, 0xC2EB709F, 0x2946D62F, 0x9541F6DB, 0x365DC8D8)
  {
    hide Schedule, Rounds;
    NoRounds(SECOND_START, block);
    SecondWords48(block);
    NextRounds(SECOND_START, block, 0);
    NextRounds(SECOND_START, block, 10);
  }

  lemma {:induction false} Second40(block: seq<Octet>)
    requires |block| == BLOCK && IsSecond(block)
    ensures Rounds(SECOND_START, block, 40) == Hash(0x03BB6310, 0x84E2A5F2, 0x21F56E03, 0xB3BD6B84, 0x1A5B6901)
  {
    hide Schedule, Rounds;
    Second20(block);
    SecondWords48(block);
    NextRounds(SECOND_START, block, 20);
    NextRounds(SECOND_START, block, 30);
  }

  lemma {:induction false} Second60(block: seq<Octet>)
    requires |block| == BLOCK && IsSecond(block)
    ensures Rounds(SECOND_START, block, 60) == Hash(0xA65818F7, 0x5B086C42, 0xB9E15956, 0xEA1256A6, 0xDB69CB9F)
  {
    hide Schedule, Rounds;
    Second40(block);
    SecondWords48(block);
    SecondWords80(block);
    NextRounds(SECOND_START, block, 40);
    NextRounds(SECOND_START, block, 50);
  }

  lemma {:induction false} Second80(block: seq<Octet>)
    requires |block| == BLOCK && IsSecond(block)
    ensures Rounds(SECOND_START, block, 80) == Hash(0x906FD62C, 0x58C0AAC0, 0xB6A55520, 0x74E9B89D, 0x9AF00B7F)
  {
    hide Schedule, Rounds;
    Second60(block);
    SecondWords80(block);
    NextRounds(SECOND_START, block, 60);
    NextRounds(SECOND_START, block, 70);
  }

  lemma {:induction false} SecondHash(block: seq<Octet>)
    requires |block| == BLOCK && IsSecond(block)
    ensures Compress(SECOND_START, block) == Hash(0x84983E44, 0x1C3BD26E, 0xBAAE4AA1, 0xF95129E5, 0xE54670F1)
  {
    hide Rounds, IsSecond;
    Second80(block);
  }

  lemma {:induction false} LettersWords7()
    ensures WordAt(LETTERS, 0) == 0x61626364
    ensures WordAt(LETTERS, 1) == 0x62636465
    ensures WordAt(LETTERS, 2) == 0x63646566
    ensures WordAt(LETTERS, 3) == 0x64656667
    ensures WordAt(LETTERS, 4) == 0x65666768
    ensures WordAt(LETTERS, 5) == 0x66676869
    ensures WordAt(LETTERS, 6) == 0x6768696A
  {
  }

  lemma {:induction false} LettersWords14()
    ensures WordAt(LETTERS, 7) == 0x68696A6B
    ensures WordAt(LETTERS, 8) == 0x696A6B6C
    ensures WordAt(LETTERS, 9) == 0x6A6B6C6D
    ensures WordAt(LETTERS, 10) == 0x6B6C6D6E
    ensures WordAt(LETTERS, 11) == 0x6C6D6E6F
    ensures WordAt(LETTERS, 12) == 0x6D6E6F70
    ensures WordAt(LETTERS, 13) == 0x6E6F7071
  {
  }

  lemma {:induction false} LettersPadded()
    ensures |Pad(LETTERS)| == 2 * BLOCK
    ensures forall t: nat :: t < 14 ==> WordAt(Pad(LETTERS), t) == WordAt(LETTERS, t)
    ensures WordAt(Pad(LETTERS), 14) == 0x80000000 && WordAt(Pad(LETTERS), 31) == 0x1C0
    ensures forall t: nat :: 15 <= t < 31 ==> WordAt(Pad(LETTERS), t) == 0
  {
    hide Pad, Octet8;
    var p := Pad(LETTERS);
    assert |p| == 2 * BLOCK by {
      PadLength(LETTERS);
    }
    forall t: nat | t < 32
      ensures WordAt(p, t) ==
        if t < 14 then WordAt(LETTERS, t) else if t == 14 then 0x80000000 else if t == 31 then 0x1C0 else 0
    {
      PaddedOctet(LETTERS, 4 * t);
      PaddedOctet(LETTERS, 4 * t + 1);
      PaddedOctet(LETTERS, 4 * t + 2);
      PaddedOctet(LETTERS, 4 * t + 3);
      SmallOctets();
    }
  }

  lemma {:induction false} BlockWords(m: seq<Octet>, block: seq<Octet>, from: nat, t: nat)
    requires from + BLOCK <= |m| && from % 4 == 0 && block == m[from..from + BLOCK] && t < 16
    ensures Schedule(block, t) == WordAt(m, from / 4 + t)
  {
    FirstWord(block, t);
    hide Schedule, WordOf;
  }

  lemma {:induction false} LettersBlocks()
    ensures var p := Pad(LETTERS);
      |p| == 2 * BLOCK && IsFirst(p[..BLOCK]) && IsSecond(p[BLOCK..])
  {
    hide Pad, WordAt, Schedule;
    LettersPadded();
    var p := Pad(LETTERS);
    forall t: nat | t < 16
      ensures Schedule(p[..BLOCK], t) == WordAt(p, t)
      ensures Schedule(p[BLOCK..], t) == if t == 15 then 0x1C0 else 0
    {
      BlockWords(p, p[..BLOCK], 0, t);
      BlockWords(p, p[BLOCK..], BLOCK, t);
      assert t < 15 ==> WordAt(p, 16 + t) == 0;
    }
    assert forall t: nat :: t < 14 ==> Schedule(p[..BLOCK], t) == WordAt(LETTERS, t);
    LettersWords7();
    LettersWords14();
  }

  lemma {:induction false} LettersDigest()
    ensures Sha1(LETTERS) == [
      0x84, 0x98, 0x3E, 0x44, 0x1C, 0x3B, 0xD2, 0x6E, 0xBA, 0xAE,
      0x4A, 0xA1, 0xF9, 0x51, 0x29, 0xE5, 0xE5, 0x46, 0x70, 0xF1]
  {
    hide Pad, Compress, IsFirst, IsSecond, HashOctets;
    LettersBlocks();
    var p := Pad(LETTERS);
    var first, second := p[..BLOCK], p[BLOCK..];
    FirstHash(first);
    SecondHash(second);
    AbsorbBlock(INITIAL, [], first);
    AbsorbBlock(INITIAL, first, second);
    assert [] + first == first && first + second == p;
    hide Absorb;
    DigestOctets(Absorb(INITIAL, p));
  }
}
