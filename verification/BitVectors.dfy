/**
  The succinct bit vector: 32-bit words with a count of the ones before each word.
 */
module BitVectors {
  import opened Bitwise

  const UNIT_SIZE: nat := 32
  const ALL_ONES: nat := 0xFFFF_FFFF

  /** The number of ones among the low n digits of u. */
  function Count(u: nat, n: nat): nat {
    if n == 0 then 0 else u % 2 + Count(u / 2, n - 1)
  }

  /** The population count by adding neighbouring digit groups in parallel. */
  function PopCount(u: nat): nat {
    var pairs := And(u, 0xAAAA_AAAA) / 2 + And(u, 0x5555_5555);
    var nibbles := And(pairs, 0xCCCC_CCCC) / 4 + And(pairs, 0x3333_3333);
    var bytes := And(nibbles / 16 + nibbles, 0x0F0F_0F0F);
    var halves := bytes + bytes / 256;
    var whole := halves + halves / 65536;
    whole % 256
  }

  /** A mask that repeats one pattern of `width` digits n times. */
  function Mask(n: nat, base: nat, pattern: nat): nat {
    if n == 0 then 0 else base * Mask(n - 1, base, pattern) + pattern
  }

  lemma {:induction false} AndDigit(a: nat, b: nat)
    ensures And(a, b) / 2 == And(a / 2, b / 2)
    ensures And(a, b) % 2 == (if a % 2 == 1 && b % 2 == 1 then 1 else 0)
  {
  }

  lemma {:induction false} AndFour(a: nat, b: nat)
    ensures And(a, b) == 4 * And(a / 4, b / 4) + And(a % 4, b % 4)
  {
    hide And;
    AndDigit(a, b);
    AndDigit(a / 2, b / 2);
    AndDigit(a % 4, b % 4);
    AndDigit(a % 4 / 2, b % 4 / 2);
    assert And(0, 0) == 0 by { AndZero(0); }
  }

  lemma {:induction false} AndZero(a: nat)
    ensures And(a, 0) == 0 && And(0, a) == 0
  {
  }

  lemma {:induction false} AndSixteen(a: nat, b: nat)
    ensures And(a, b) == 16 * And(a / 16, b / 16) + And(a % 16, b % 16)
  {
    hide And;
    AndFour(a, b);
    AndFour(a / 4, b / 4);
    AndFour(a % 16, b % 16);
    assert a / 4 / 4 == a / 16 && b / 4 / 4 == b / 16;
    assert a % 16 / 4 == a / 4 % 4 && b % 16 / 4 == b / 4 % 4;
    assert a % 16 % 4 == a % 4 && b % 16 % 4 == b % 4;
  }

  lemma {:induction false} AndByte(a: nat, b: nat)
    ensures And(a, b) == 256 * And(a / 256, b / 256) + And(a % 256, b % 256)
  {
    hide And;
    AndSixteen(a, b);
    AndSixteen(a / 16, b / 16);
    AndSixteen(a % 256, b % 256);
    assert a / 16 / 16 == a / 256 && b / 16 / 16 == b / 256;
    assert a % 256 / 16 == a / 16 % 16 && b % 256 / 16 == b / 16 % 16;
    assert a % 256 % 16 == a % 16 && b % 256 % 16 == b % 16;
  }

  lemma {:induction false} PairMask(p: nat)
    requires p < 4
    ensures And(p, 2) == p / 2 * 2 && And(p, 1) == p % 2
  {
    AndDigit(p, 2);
    AndDigit(p / 2, 1);
    AndDigit(p, 1);
  }

  lemma {:induction false} FullPair(p: nat)
    requires p < 4
    ensures And(p, 3) == p
  {
    AndDigit(p, 3);
    AndDigit(p / 2, 1);
  }

  lemma {:induction false} SmallMasks(p: nat)
    requires p < 16
    ensures p < 4 ==> And(p, 2) == p / 2 * 2 && And(p, 1) == p % 2
    ensures And(p, 12) == p / 4 * 4 && And(p, 3) == p % 4
  {
    hide And;
    if p < 4 {
      PairMask(p);
    }
    AndFour(p, 12);
    AndFour(p, 3);
    FullPair(p / 4);
    FullPair(p % 4);
    AndZero(p / 4);
    AndZero(p % 4);
  }

  lemma {:induction false} NibbleMask(b: nat)
    requires b < 256
    ensures And(b, 15) == b % 16
  {
    hide And;
    AndSixteen(b, 15);
    AndZero(b / 16);
    AndFour(b % 16, 15);
    SmallMasks(b % 16 / 4);
    SmallMasks(b % 16 % 4);
  }

  // The three masked additions, for words of n digits in base 4, 16 and 256.

  function PairSums(n: nat, u: nat): nat {
    And(u, Mask(n, 4, 2)) / 2 + And(u, Mask(n, 4, 1))
  }

  function NibbleSums(n: nat, v: nat): nat {
    And(v, Mask(n, 16, 12)) / 4 + And(v, Mask(n, 16, 3))
  }

  function ByteSums(n: nat, w: nat): nat {
    And(w / 16 + w, Mask(n, 256, 15))
  }

  lemma {:induction false} MaskDigits(n: nat)
    requires n > 0
    ensures Mask(n, 4, 2) / 4 == Mask(n - 1, 4, 2) && Mask(n, 4, 2) % 4 == 2
    ensures Mask(n, 4, 1) / 4 == Mask(n - 1, 4, 1) && Mask(n, 4, 1) % 4 == 1
    ensures Mask(n, 16, 12) / 16 == Mask(n - 1, 16, 12) && Mask(n, 16, 12) % 16 == 12
    ensures Mask(n, 16, 3) / 16 == Mask(n - 1, 16, 3) && Mask(n, 16, 3) % 16 == 3
    ensures Mask(n, 256, 15) / 256 == Mask(n - 1, 256, 15) && Mask(n, 256, 15) % 256 == 15
  {
  }

  lemma {:induction false} EvenMask(n: nat)
    ensures Mask(n, 4, 2) % 2 == 0
    ensures Mask(n, 16, 12) % 4 == 0
  {
    if n > 0 {
      EvenNumber(2 * Mask(n - 1, 4, 2) + 1);
      FourthNumber(4 * Mask(n - 1, 16, 12) + 3);
      assert Mask(n, 4, 2) == 2 * (2 * Mask(n - 1, 4, 2) + 1);
      assert Mask(n, 16, 12) == 4 * (4 * Mask(n - 1, 16, 12) + 3);
      hide Mask;
    }
  }

  lemma {:induction false} EvenNumber(q: nat)
    ensures 2 * q % 2 == 0
  {
  }

  lemma {:induction false} FourthNumber(q: nat)
    ensures 4 * q % 4 == 0
  {
  }

  lemma {:induction false} EvenAnd(n: nat, u: nat)
    ensures And(u, Mask(n, 4, 2)) % 2 == 0
  {
    hide Mask, And;
    AndDigit(u, Mask(n, 4, 2));
    EvenMask(n);
  }

  lemma {:induction false} FourthAnd(n: nat, v: nat)
    ensures And(v, Mask(n, 16, 12)) % 4 == 0
  {
    hide Mask, And;
    AndFour(v, Mask(n, 16, 12));
    EvenMask(n);
    AndZero(v % 4);
  }

  lemma {:induction false} PairArithmetic(h: nat, y: nat, a: nat, b: nat)
    ensures (4 * (2 * h) + a * 2) / 2 + (4 * y + b) == 4 * (h + y) + (a + b)
  {
  }

  lemma {:induction false} PairStep(n: nat, u: nat)
    requires n > 0
    ensures PairSums(n, u) == 4 * PairSums(n - 1, u / 4) + (u % 4 / 2 + u % 4 % 2)
  {
    hide And, Mask;
    AndFour(u, Mask(n, 4, 2));
    AndFour(u, Mask(n, 4, 1));
    MaskDigits(n);
    SmallMasks(u % 4);
    EvenAnd(n - 1, u / 4);
    var x := And(u / 4, Mask(n - 1, 4, 2));
    assert x == 2 * (x / 2);
    PairArithmetic(x / 2, And(u / 4, Mask(n - 1, 4, 1)), u % 4 / 2, u % 4 % 2);
  }

  lemma {:induction false} NibbleArithmetic(h: nat, y: nat, a: nat, b: nat)
    ensures (16 * (4 * h) + a * 4) / 4 + (16 * y + b) == 16 * (h + y) + (a + b)
  {
  }

  lemma {:induction false} NibbleStep(n: nat, v: nat)
    requires n > 0
    ensures NibbleSums(n, v) == 16 * NibbleSums(n - 1, v / 16) + (v % 16 / 4 + v % 16 % 4)
  {
    hide And, Mask;
    AndSixteen(v, Mask(n, 16, 12));
    AndSixteen(v, Mask(n, 16, 3));
    MaskDigits(n);
    SmallMasks(v % 16);
    FourthAnd(n - 1, v / 16);
    var x := And(v / 16, Mask(n - 1, 16, 12));
    assert x == 4 * (x / 4);
    NibbleArithmetic(x / 4, And(v / 16, Mask(n - 1, 16, 3)), v % 16 / 4, v % 16 % 4);
  }

  // Each stage holds the counts of its digit groups.

  lemma {:induction false} CountTwo(u: nat, n: nat)
    ensures Count(u, n + 2) == Count(u, 2) + Count(u / 4, n)
    ensures Count(u, 2) == u % 4 / 2 + u % 4 % 2 <= 2
  {
    assert u / 2 / 2 == u / 4;
    assert Count(u / 2, n + 1) == u / 2 % 2 + Count(u / 4, n);
    assert Count(u / 2, 1) == u / 2 % 2;
  }

  lemma {:induction false} CountFour(u: nat, n: nat)
    ensures Count(u, n + 4) == Count(u, 4) + Count(u / 16, n)
    ensures Count(u, 4) == Count(u, 2) + Count(u / 4, 2) <= 4
  {
    hide Count;
    CountTwo(u, 2);
    CountTwo(u, n + 2);
    CountTwo(u / 4, n);
    assert u / 4 / 4 == u / 16;
  }

  lemma {:induction false} CountEight(u: nat, n: nat)
    ensures Count(u, n + 8) == Count(u, 8) + Count(u / 256, n)
    ensures Count(u, 8) == Count(u, 4) + Count(u / 16, 4) <= 8
  {
    hide Count;
    CountFour(u, 4);
    CountFour(u, n + 4);
    CountFour(u / 16, n);
    assert u / 16 / 16 == u / 256;
  }

  lemma {:induction false} PairsOfNibble(n: nat, u: nat)
    requires n > 0
    ensures PairSums(2 * n, u) == 16 * PairSums(2 * n - 2, u / 16) + (4 * Count(u / 4, 2) + Count(u, 2))
  {
    hide PairSums, Count;
    PairStep(2 * n, u);
    PairStep(2 * n - 1, u / 4);
    CountTwo(u, 0);
    CountTwo(u / 4, 0);
    assert u / 4 / 4 == u / 16;
  }

  lemma {:induction false} NibblesHoldCounts(n: nat, u: nat)
    requires n > 0
    ensures NibbleSums(n, PairSums(2 * n, u)) ==
      16 * NibbleSums(n - 1, PairSums(2 * n - 2, u / 16)) + Count(u, 4)
  {
    hide PairSums, NibbleSums, Count;
    PairsOfNibble(n, u);
    CountFour(u, 0);
    CountTwo(u, 0);
    CountTwo(u / 4, 0);
    NibbleStep(n, PairSums(2 * n, u));
    NibbleDigits(PairSums(2 * n - 2, u / 16), Count(u / 4, 2), Count(u, 2));
  }

  lemma {:induction false} NibbleDigits(x: nat, a: nat, b: nat)
    requires a <= 2 && b <= 2
    ensures var v := 16 * x + (4 * a + b); v / 16 == x && v % 16 / 4 == a && v % 16 % 4 == b
  {
  }

  lemma {:induction false} ByteStep(n: nat, w: nat)
    requires n > 0 && w % 16 + w / 16 % 16 < 16 && w / 16 % 16 + w / 256 % 16 < 16
    ensures ByteSums(n, w) == 256 * ByteSums(n - 1, w / 256) + (w % 16 + w / 16 % 16)
  {
    hide And, Mask;
    var x := w / 16 + w;
    AndByte(x, Mask(n, 256, 15));
    MaskDigits(n);
    NibbleMask(x % 256);
    ByteDigits(w);
    ByteArithmetic(w / 256, w / 16 % 16, w % 16);
    ByteStepParts(n, w);
  }

  /** What is left when the digits and the mask are known. */
  lemma {:induction false} ByteStepParts(n: nat, w: nat)
    requires n > 0
    requires var x := w / 16 + w; var m := Mask(n, 256, 15);
      && And(x, m) == 256 * And(x / 256, m / 256) + And(x % 256, m % 256)
      && m / 256 == Mask(n - 1, 256, 15) && x / 256 == w / 256 / 16 + w / 256
      && And(x % 256, m % 256) == w % 16 + w / 16 % 16
    ensures ByteSums(n, w) == 256 * ByteSums(n - 1, w / 256) + (w % 16 + w / 16 % 16)
  {
    hide And, Mask;
  }

  lemma {:induction false} ByteDigits(w: nat)
    ensures w == 256 * (w / 256) + 16 * (w / 16 % 16) + w % 16
  {
    var q := w / 16;
    assert w == 16 * q + w % 16 && q == 16 * (q / 16) + q % 16;
    assert q / 16 == w / 256;
  }

  lemma {:induction false} ByteArithmetic(h: nat, a: nat, b: nat)
    requires a < 16 && b < 16 && a + b < 16 && a + h % 16 < 16
    ensures var w := 256 * h + 16 * a + b; var x := w / 16 + w;
      x / 256 == h / 16 + h && x % 256 % 16 == a + b
  {
    var w := 256 * h + 16 * a + b;
    assert w / 16 == 16 * h + a;
    assert 16 * h == 256 * (h / 16) + 16 * (h % 16);
  }

  function ByteCounts(n: nat, u: nat): nat {
    ByteSums(n, NibbleSums(2 * n, PairSums(4 * n, u)))
  }

  lemma {:induction false} NoSums(u: nat)
    ensures NibbleSums(0, u) == 0 && ByteSums(0, u) == 0
  {
    AndZero(u);
    AndZero(u / 16 + u);
  }

  lemma {:induction false} LowNibble(n: nat, u: nat)
    ensures NibbleSums(n, PairSums(2 * n, u)) % 16 <= 4
  {
    hide NibbleSums, PairSums, Count;
    if n == 0 {
      NoSums(PairSums(0, u));
    } else {
      NibblesHoldCounts(n, u);
      CountFour(u, 0);
    }
  }

  lemma {:induction false} BytesHoldCounts(n: nat, u: nat)
    requires n > 0
    ensures ByteCounts(n, u) == 256 * ByteCounts(n - 1, u / 256) + Count(u, 8)
  {
    hide PairSums, NibbleSums, ByteSums, Count;
    NibblesHoldCounts(2 * n, u);
    NibblesHoldCounts(2 * n - 1, u / 16);
    assert u / 16 / 16 == u / 256;
    LowNibble(2 * n - 2, u / 256);
    CountEight(u, 0);
    CountFour(u, 0);
    CountFour(u / 16, 0);
    TwoNibbles(NibbleSums(2 * n - 2, PairSums(4 * n - 4, u / 256)), Count(u / 16, 4), Count(u, 4));
    ByteStep(n, NibbleSums(2 * n, PairSums(4 * n, u)));
  }

  lemma {:induction false} TwoNibbles(x: nat, a: nat, b: nat)
    requires a < 16 && b < 16
    ensures var w := 16 * (16 * x + a) + b; w / 256 == x && w / 16 % 16 == a && w % 16 == b
  {
  }

  lemma {:induction false} PairMasks()
    ensures Mask(16, 4, 2) == 0xAAAA_AAAA && Mask(16, 4, 1) == 0x5555_5555
  {
    assert Mask(4, 4, 2) == 0xAA && Mask(4, 4, 1) == 0x55;
    assert Mask(8, 4, 2) == 0xAAAA && Mask(8, 4, 1) == 0x5555;
    assert Mask(12, 4, 2) == 0xAA_AAAA && Mask(12, 4, 1) == 0x55_5555;
  }

  lemma {:induction false} NibbleMasks()
    ensures Mask(8, 16, 12) == 0xCCCC_CCCC && Mask(8, 16, 3) == 0x3333_3333
    ensures Mask(4, 256, 15) == 0x0F0F_0F0F
  {
    assert Mask(4, 16, 12) == 0xCCCC && Mask(4, 16, 3) == 0x3333;
  }

  lemma {:induction false} FourBytes(a: nat, b: nat, c: nat, d: nat)
    requires a <= 8 && b <= 8 && c <= 8 && d <= 8
    ensures var bytes := a + 256 * (b + 256 * (c + 256 * d)); var halves := bytes + bytes / 256;
      (halves + halves / 65536) % 256 == a + b + c + d
  {
    var high := (c + d) + 256 * d;
    NextByte(a, b + 256 * (c + 256 * d));
    NextHalf((a + b) + 256 * (b + c), high);
    NextByte(a + b + c + d, (b + c) + 256 * high + d);
  }

  lemma {:induction false} NextByte(low: nat, high: nat)
    requires low < 256
    ensures (low + 256 * high) / 256 == high && (low + 256 * high) % 256 == low
  {
  }

  lemma {:induction false} NextHalf(low: nat, high: nat)
    requires low < 65536
    ensures (low + 65536 * high) / 65536 == high
  {
  }

  lemma {:induction false} FourByteCounts(u: nat)
    ensures var u1 := u / 256; var u2 := u1 / 256; var u3 := u2 / 256;
      ByteCounts(4, u) == Count(u, 8) + 256 * (Count(u1, 8) + 256 * (Count(u2, 8) + 256 * Count(u3, 8)))
  {
    hide ByteCounts, Count;
    var u1 := u / 256;
    var u2 := u1 / 256;
    var u3 := u2 / 256;
    BytesHoldCounts(4, u);
    BytesHoldCounts(3, u1);
    BytesHoldCounts(2, u2);
    BytesHoldCounts(1, u3);
    NoByteCounts(u3 / 256);
  }

  lemma {:induction false} CountByBytes(u: nat)
    ensures var u1 := u / 256; var u2 := u1 / 256; var u3 := u2 / 256;
      && Count(u, 32) == Count(u, 8) + Count(u1, 8) + Count(u2, 8) + Count(u3, 8)
      && Count(u, 8) <= 8 && Count(u1, 8) <= 8 && Count(u2, 8) <= 8 && Count(u3, 8) <= 8
  {
    hide Count;
    var u1 := u / 256;
    var u2 := u1 / 256;
    var u3 := u2 / 256;
    CountEight(u, 24);
    CountEight(u1, 16);
    CountEight(u2, 8);
    CountEight(u3, 0);
  }

  lemma {:induction false} PopCountSteps(u: nat)
    ensures PopCount(u) == (var bytes := ByteCounts(4, u); var halves := bytes + bytes / 256;
      (halves + halves / 65536) % 256)
  {
    hide And, Mask;
    PairMasks();
    NibbleMasks();
  }

  /** The parallel additions count the ones of a 32-bit word. */
  lemma {:induction false} PopCountIsCount(u: nat)
    ensures PopCount(u) == Count(u, 32)
  {
    hide PopCount, ByteCounts, Count;
    PopCountSteps(u);
    FourByteCounts(u);
    CountByBytes(u);
    var u1 := u / 256;
    var u2 := u1 / 256;
    var u3 := u2 / 256;
    FourBytes(Count(u, 8), Count(u1, 8), Count(u2, 8), Count(u3, 8));
  }

  lemma {:induction false} NoByteCounts(u: nat)
    ensures ByteCounts(0, u) == 0
  {
    hide NibbleSums, PairSums, ByteSums;
    NoSums(NibbleSums(0, PairSums(0, u)));
  }

  // Words and the bits they hold.

  function Ones(bits: seq<bool>): nat {
    if bits == [] then 0 else Ones(bits[..|bits| - 1]) + (if bits[|bits| - 1] then 1 else 0)
  }

  ghost predicate Holds(u: nat, bits: seq<bool>) {
    forall i :: 0 <= i < |bits| ==> BitAt(u, i) == bits[i]
  }

  lemma {:induction false} OnesFirst(bits: seq<bool>)
    requires |bits| > 0
    ensures Ones(bits) == (if bits[0] then 1 else 0) + Ones(bits[1..])
    decreases |bits|
  {
    if |bits| == 1 {
      assert bits[..0] == [] && bits[1..] == [];
    } else {
      OnesFirst(bits[..|bits| - 1]);
      assert bits[..|bits| - 1][1..] == bits[1..][..|bits| - 2];
    }
  }

  lemma {:induction false} CountOnes(u: nat, bits: seq<bool>)
    requires Holds(u, bits)
    ensures Count(u, |bits|) == Ones(bits)
    decreases |bits|
  {
    if |bits| > 0 {
      OnesFirst(bits);
      assert BitAt(u, 0) == bits[0];
      forall i | 0 <= i < |bits[1..]|
        ensures BitAt(u / 2, i) == bits[1..][i]
      {
        assert BitAt(u, i + 1) == bits[i + 1];
      }
      CountOnes(u / 2, bits[1..]);
    }
  }

  lemma {:induction false} OnesAppend(a: seq<bool>, b: seq<bool>)
    ensures Ones(a + b) == Ones(a) + Ones(b)
    decreases |b|
  {
    if b == [] {
      assert a + b == a;
    } else {
      OnesAppend(a, b[..|b| - 1]);
      assert (a + b)[..|a + b| - 1] == a + b[..|b| - 1];
    }
  }

  lemma {:induction false} OrBit(a: nat, b: nat, i: nat)
    ensures BitAt(Or(a, b), i) <==> BitAt(a, i) || BitAt(b, i)
    decreases i
  {
    OrDigit(a, b);
    if i > 0 {
      OrBit(a / 2, b / 2, i - 1);
    }
  }

  lemma {:induction false} AndBit(a: nat, b: nat, i: nat)
    ensures BitAt(And(a, b), i) <==> BitAt(a, i) && BitAt(b, i)
    decreases i
  {
    AndDigit(a, b);
    if i > 0 {
      AndBit(a / 2, b / 2, i - 1);
    }
  }

  lemma {:induction false} Pow2Bit(k: nat, i: nat)
    ensures BitAt(Pow2(k), i) <==> i == k
    decreases i
  {
    if k == 0 {
      ZeroBit(i);
    } else if i > 0 {
      assert Pow2(k) / 2 == Pow2(k - 1);
      Pow2Bit(k - 1, i - 1);
    }
  }

  lemma {:induction false} ZeroBit(i: nat)
    ensures !BitAt(0, i)
    ensures i > 0 ==> !BitAt(1, i)
    decreases i
  {
    if i > 0 {
      ZeroBit(i - 1);
    }
  }

  /** Complement of a 32-bit word. */
  function Not(u: nat): nat
    requires u <= ALL_ONES
  {
    ALL_ONES - u
  }

  /** 2^n - 1 has exactly the low n digits set. */
  lemma {:induction false} LowMaskBit(n: nat, i: nat)
    ensures BitAt(Pow2(n) - 1, i) <==> i < n
    decreases n
  {
    if n == 0 {
      ZeroBit(i);
    } else if i > 0 {
      assert (Pow2(n) - 1) / 2 == Pow2(n - 1) - 1;
      LowMaskBit(n - 1, i - 1);
    } else {
      assert Pow2(n) == 2 * Pow2(n - 1);
    }
  }

  lemma {:induction false} ComplementBit(n: nat, u: nat, i: nat)
    requires u < Pow2(n) && i < n
    ensures BitAt(Pow2(n) - 1 - u, i) <==> !BitAt(u, i)
    decreases n
  {
    assert Pow2(n) == 2 * Pow2(n - 1);
    var v := Pow2(n) - 1 - u;
    assert v / 2 == Pow2(n - 1) - 1 - u / 2 && v % 2 == 1 - u % 2;
    if i > 0 {
      ComplementBit(n - 1, u / 2, i - 1);
    }
  }

  /** Shifting all ones down by 31 - r leaves the low r + 1 ones. */
  lemma {:induction false} ShiftedOnes(n: nat, k: nat)
    requires k <= n
    ensures (Pow2(n) - 1) / Pow2(k) == Pow2(n - k) - 1
    decreases k
  {
    if k > 0 {
      assert Pow2(n) == 2 * Pow2(n - 1);
      ShiftedOnes(n - 1, k - 1);
      var m, p := Pow2(n - 1) - 1, Pow2(k - 1);
      DivideTwice(2 * m + 1, p);
    }
  }

  lemma {:induction false} DivideTwice(x: nat, p: nat)
    requires p > 0
    ensures x / (2 * p) == x / 2 / p
  {
    var q, r := x / 2 / p, x / 2 % p;
    assert x / 2 == q * p + r;
    assert x == q * (2 * p) + (2 * r + x % 2);
    QuotientIs(x, 2 * p, q, 2 * r + x % 2);
  }

  lemma {:induction false} MultiplesApart(a: nat, b: nat, d: nat)
    ensures a < b ==> a * d + d <= b * d
  {
    if a < b {
      assert (a + 1) * d <= b * d;
    }
  }

  lemma {:induction false} QuotientIs(x: nat, d: nat, q: nat, r: nat)
    requires d > 0 && x == q * d + r && r < d
    ensures x / d == q
  {
    MultiplesApart(x / d, q, d);
    MultiplesApart(q, x / d, d);
    assert x == (x / d) * d + x % d;
  }

  lemma {:induction false} WordSize()
    ensures Pow2(32) == ALL_ONES + 1
  {
    assert Pow2(8) == 256;
    assert Pow2(16) == 65536;
    assert Pow2(24) == 0x100_0000;
  }

  lemma {:induction false} OrFits(u: nat, i: nat)
    requires u <= ALL_ONES && i < UNIT_SIZE
    ensures Or(u, Pow2(i)) <= ALL_ONES
  {
    hide Or, Pow2;
    WordSize();
    Pow2Grows(i, 32);
    OrJoined(32, 0, u, 0, Pow2(i));
  }

  lemma {:induction false} Pow2Grows(i: nat, j: nat)
    requires i < j
    ensures Pow2(i) < Pow2(j)
    decreases j
  {
    if i < j - 1 {
      Pow2Grows(i, j - 1);
    }
  }

  lemma {:induction false} AndAtMost(a: nat, b: nat)
    ensures And(a, b) <= a
    decreases a + b
  {
    if a > 0 && b > 0 {
      AndAtMost(a / 2, b / 2);
    }
  }

  /** Setting or clearing digit i of a word changes that digit only. */
  lemma {:induction false} SetDigit(u: nat, i: nat, b: nat)
    requires u <= ALL_ONES && i < UNIT_SIZE && b < UNIT_SIZE
    ensures Pow2(i) <= ALL_ONES
    ensures BitAt(Or(u, Pow2(i)), b) <==> BitAt(u, b) || b == i
    ensures BitAt(And(u, Not(Pow2(i))), b) <==> BitAt(u, b) && b != i
    ensures Or(u, Pow2(i)) <= ALL_ONES && And(u, Not(Pow2(i))) <= ALL_ONES
  {
    hide Or, And, BitAt, Pow2;
    WordSize();
    Pow2Grows(i, 32);
    OrBit(u, Pow2(i), b);
    Pow2Bit(i, b);
    AndBit(u, Not(Pow2(i)), b);
    ComplementBit(32, Pow2(i), b);
    OrFits(u, i);
    AndAtMost(u, Not(Pow2(i)));
  }

  function Clear(n: nat): seq<bool> {
    if n == 0 then [] else Clear(n - 1) + [false]
  }

  lemma {:induction false} ClearBits(n: nat)
    ensures |Clear(n)| == n && Ones(Clear(n)) == 0
    ensures forall i :: 0 <= i < n ==> !Clear(n)[i]
  {
    if n > 0 {
      ClearBits(n - 1);
      assert Clear(n)[..n - 1] == Clear(n - 1);
    }
  }

  lemma {:induction false} MaskedBit(u: nat, r: nat, kept: seq<bool>, i: nat)
    requires r < UNIT_SIZE && |kept| == r + 1 && Holds(u, kept) && i < 32
    ensures |Clear(31 - r)| == 31 - r
    ensures BitAt(And(u, Pow2(r + 1) - 1), i) == (kept + Clear(31 - r))[i]
  {
    hide And, BitAt, Pow2, Clear;
    ClearBits(31 - r);
    AndBit(u, Pow2(r + 1) - 1, i);
    LowMaskBit(r + 1, i);
    if i <= r {
      assert BitAt(u, i) == kept[i];
    } else {
      assert (kept + Clear(31 - r))[i] == Clear(31 - r)[i - (r + 1)];
    }
  }

  /** The low r + 1 digits of a word, kept by the mask that rank applies. */
  lemma {:induction false} MaskedCount(u: nat, r: nat, kept: seq<bool>)
    requires r < UNIT_SIZE && |kept| == r + 1 && Holds(u, kept)
    ensures Pow2(UNIT_SIZE - r - 1) > 0
    ensures PopCount(And(u, ALL_ONES / Pow2(UNIT_SIZE - r - 1))) == Ones(kept)
  {
    hide And, PopCount, BitAt, Pow2, Count, Clear, Ones, Holds;
    WordSize();
    ShiftedOnes(32, 31 - r);
    var word, rest := And(u, Pow2(r + 1) - 1), Clear(31 - r);
    ClearBits(31 - r);
    assert Holds(word, kept + rest) by {
      MaskedHolds(u, r, kept);
    }
    CountOnes(word, kept + rest);
    OnesAppend(kept, rest);
    PopCountIsCount(word);
  }

  lemma {:induction false} MaskedHolds(u: nat, r: nat, kept: seq<bool>)
    requires r < UNIT_SIZE && |kept| == r + 1 && Holds(u, kept)
    ensures |Clear(31 - r)| == 31 - r
    ensures Holds(And(u, Pow2(r + 1) - 1), kept + Clear(31 - r))
  {
    hide And, BitAt, Pow2, Clear;
    ClearBits(31 - r);
    var word, bits := And(u, Pow2(r + 1) - 1), kept + Clear(31 - r);
    forall i | 0 <= i < |bits|
      ensures BitAt(word, i) == bits[i]
    {
      MaskedBit(u, r, kept, i);
    }
  }

  /** Different set positions have different ranks, and every rank is taken. */
  lemma {:induction false} RankBijection(bits: seq<bool>, i: nat, j: nat)
    requires i < |bits| && j < |bits| && bits[i] && bits[j]
    ensures 0 < Ones(bits[..i + 1]) <= Ones(bits)
    ensures Ones(bits[..i + 1]) == Ones(bits[..j + 1]) <==> i == j
  {
    hide Ones;
    RankStep(bits, i);
    RankStep(bits, j);
    RankGrows(bits, i + 1, |bits|);
    assert bits[..|bits|] == bits;
    if i < j {
      RankGrows(bits, i + 1, j);
    } else if j < i {
      RankGrows(bits, j + 1, i);
    }
  }

  lemma {:induction false} RankStep(bits: seq<bool>, i: nat)
    requires i < |bits|
    ensures Ones(bits[..i + 1]) == Ones(bits[..i]) + (if bits[i] then 1 else 0)
  {
    assert bits[..i + 1][..i] == bits[..i];
  }

  lemma {:induction false} RankGrows(bits: seq<bool>, i: nat, j: nat)
    requires i <= j <= |bits|
    ensures Ones(bits[..i]) <= Ones(bits[..j])
    decreases j
  {
    if i < j {
      RankStep(bits, j - 1);
      RankGrows(bits, i, j - 1);
    }
  }

  lemma {:induction false} RankReached(bits: seq<bool>, r: nat) returns (i: nat)
    requires 0 < r <= Ones(bits)
    ensures i < |bits| && bits[i] && Ones(bits[..i + 1]) == r
    decreases |bits|
  {
    var last := |bits| - 1;
    if bits[last] && r == Ones(bits) {
      i := last;
      assert bits[..last + 1] == bits;
    } else {
      i := RankReached(bits[..last], r);
      assert bits[..last][..i + 1] == bits[..i + 1];
    }
  }

  class BitVector {
    var units: seq<nat>
    var ranks: seq<nat>
    var numOnes: nat
    var size: nat

    // The bits that have been appended.
    ghost var bits: seq<bool>

    /** Bit b of word w, which is clear beyond the end. */
    ghost predicate BitOk(w: nat, b: nat)
      requires w < |units| && b < UNIT_SIZE
      reads this`units, this`bits
    {
      BitAt(units[w], b) <==> w * UNIT_SIZE + b < |bits| && bits[w * UNIT_SIZE + b]
    }

    ghost predicate Valid()
      reads this`units, this`bits, this`size
    {
      && size == |bits|
      && |units| == (size + UNIT_SIZE - 1) / UNIT_SIZE
      && (forall w :: 0 <= w < |units| ==> units[w] <= ALL_ONES)
      && (forall w, b :: 0 <= w < |units| && 0 <= b < UNIT_SIZE ==> BitOk(w, b))
    }

    /** The ones before each word have been counted. */
    ghost predicate Ranked()
      reads this
    {
      && |ranks| == |units|
      && (forall w :: 0 <= w < |units| && w * UNIT_SIZE <= |bits| ==> ranks[w] == Ones(bits[..w * UNIT_SIZE]))
      && numOnes == Ones(bits)
    }

    constructor ()
      ensures Valid() && bits == []
    {
      units, ranks, numOnes, size := [], [], 0, 0;
      bits := [];
    }

    method Get(id: nat) returns (bit: bool)
      requires Valid() && id < |bits|
      ensures bit == bits[id]
    {
      bit := BitAt(units[id / UNIT_SIZE], id % UNIT_SIZE);
      assert BitOk(id / UNIT_SIZE, id % UNIT_SIZE);
    }

    method Append()
      requires Valid()
      modifies this
      ensures Valid() && bits == old(bits) + [false]
    {
      if size % UNIT_SIZE == 0 {
        units := units + [0];
      }
      size := size + 1;
      bits := bits + [false];
      forall w, b | 0 <= w < |units| && 0 <= b < UNIT_SIZE
        ensures BitOk(w, b)
      {
        if w < |old(units)| {
          assert old(BitOk(w, b));
        } else {
          ZeroBit(b);
        }
      }
    }

    method Set(id: nat, bit: bool)
      requires Valid() && id < |bits|
      modifies this`units, this`bits
      ensures Valid() && bits == old(bits)[id := bit]
    {
      hide Or, And, BitAt, Pow2;
      var word, digit := id / UNIT_SIZE, id % UNIT_SIZE;
      ghost var before := units[word];
      SetDigit(before, digit, 0);
      if bit {
        units := units[word := Or(units[word], Pow2(digit))];
      } else {
        units := units[word := And(units[word], Not(Pow2(digit)))];
      }
      bits := bits[id := bit];
      forall w, b | 0 <= w < |units| && 0 <= b < UNIT_SIZE
        ensures BitOk(w, b)
      {
        assert old(BitOk(w, b));
        if w == word {
          SetDigit(before, digit, b);
        }
        PositionsApart(w, b, id);
      }
    }

    /** Counts the ones before each word. */
    method Build()
      requires Valid()
      modifies this`ranks, this`numOnes
      ensures Valid() && Ranked()
    {
      hide PopCount, BitAt;
      ranks := [];
      numOnes := 0;
      for i := 0 to |units|
        invariant Valid() && |ranks| == i
        invariant forall w :: 0 <= w < i ==> w * UNIT_SIZE <= |bits| && ranks[w] == Ones(bits[..w * UNIT_SIZE])
        invariant numOnes == Ones(bits[..Upto(i)])
      {
        WordOnes(i);
        ranks := ranks + [numOnes];
        numOnes := numOnes + PopCount(units[i]);
      }
      assert bits[..|bits|] == bits;
    }

    ghost function Upto(i: nat): nat
      reads this`bits
    {
      if i * UNIT_SIZE < |bits| then i * UNIT_SIZE else |bits|
    }

    lemma {:induction false} WordOnes(w: nat)
      requires Valid() && w < |units|
      ensures w * UNIT_SIZE <= |bits|
      ensures PopCount(units[w]) + Ones(bits[..Upto(w)]) == Ones(bits[..Upto(w + 1)])
    {
      hide PopCount, BitAt, Ones, Count;
      var from, to := Upto(w), Upto(w + 1);
      var held, rest := bits[from..to], Clear(UNIT_SIZE - (to - from));
      ClearBits(UNIT_SIZE - (to - from));
      forall i: nat | i < UNIT_SIZE
        ensures BitAt(units[w], i) == (held + rest)[i]
      {
        assert BitOk(w, i);
      }
      PopCountIsCount(units[w]);
      CountOnes(units[w], held + rest);
      OnesAppend(held, rest);
      OnesAppend(bits[..from], held);
      assert bits[..from] + held == bits[..to];
    }

    /** The number of ones among the positions up to and including id. */
    method Rank(id: nat) returns (r: nat)
      requires Valid() && Ranked() && id < |bits|
      ensures r == Ones(bits[..id + 1])
    {
      hide PopCount, And, BitAt, Ones, Pow2;
      var w, digit := id / UNIT_SIZE, id % UNIT_SIZE;
      ghost var kept := bits[w * UNIT_SIZE..id + 1];
      forall i: nat | i < |kept|
        ensures BitAt(units[w], i) == kept[i]
      {
        assert BitOk(w, i);
      }
      MaskedCount(units[w], digit, kept);
      OnesAppend(bits[..w * UNIT_SIZE], kept);
      assert bits[..w * UNIT_SIZE] + kept == bits[..id + 1];
      r := ranks[w] + PopCount(And(units[w], ALL_ONES / Pow2(UNIT_SIZE - digit - 1)));
    }
  }

  lemma {:induction false} PositionsApart(w: nat, b: nat, id: nat)
    requires b < UNIT_SIZE
    ensures w * UNIT_SIZE + b == id <==> w == id / UNIT_SIZE && b == id % UNIT_SIZE
  {
  }
}
