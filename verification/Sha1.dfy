/**
  The streaming hash context: a buffered block, a bit count in two 32-bit words,
  and padding over one or two blocks.
 */
module Sha1 {
  import opened Sha1Standard
  import opened Sha1Runs

  ghost function HashOf(words: seq<Word>): Hash
    requires |words| == 5
  {
    Hash(words[0], words[1], words[2], words[3], words[4])
  }

  /** The last, incomplete block of a message. */
  function Tail(m: seq<Octet>): (r: seq<Octet>)
    ensures |r| == |m| % BLOCK
  {
    m[|m| - |m| % BLOCK..]
  }

  function Whole(m: seq<Octet>): (r: seq<Octet>)
    ensures |r| == |m| - |m| % BLOCK && |r| % BLOCK == 0
    ensures r + Tail(m) == m
  {
    m[..|m| - |m| % BLOCK]
  }

  class SHA1Context {
    const intermediateHash: array<Word>
    var lengthLow: nat
    var lengthHigh: nat
    var messageBlockIndex: nat
    const messageBlock: array<Octet>
    var computed: bool
    var corrupted: nat

    // The bytes taken in since the last reset.
    ghost var absorbed: seq<Octet>

    ghost predicate Allocated() {
      intermediateHash.Length == 5 && messageBlock.Length == BLOCK
    }

    ghost function Chaining(): Hash
      requires Allocated()
      reads intermediateHash
    {
      HashOf(intermediateHash[..])
    }

    /** The two length words hold the bit count of the bytes taken in, modulo 2^64. */
    ghost predicate Counted()
      reads this`lengthLow, this`lengthHigh, this`absorbed
    {
      && lengthLow < TWO_32 && lengthHigh < TWO_32
      && |absorbed| <= LIMIT
      && TWO_32 * lengthHigh + lengthLow == if |absorbed| == LIMIT then 0 else 8 * |absorbed|
    }

    /** Whole blocks have been hashed, the rest is buffered. */
    ghost predicate Streaming()
      requires Allocated()
      reads this`messageBlockIndex, this`absorbed, intermediateHash, messageBlock
    {
      && messageBlockIndex < BLOCK
      && messageBlock[..messageBlockIndex] == Tail(absorbed)
      && Chaining() == Absorb(INITIAL, Whole(absorbed))
    }

    /** The digest stands; the buffer and the length have been cleared. */
    ghost predicate Closed()
      requires Allocated()
      reads this`lengthLow, this`lengthHigh, this`messageBlockIndex, this`absorbed, intermediateHash, messageBlock
    {
      && |absorbed| < LIMIT
      && lengthLow == 0 && lengthHigh == 0 && messageBlockIndex == 0
      && (forall i :: 0 <= i < BLOCK ==> messageBlock[i] == 0)
      && HashOctets(Chaining()) == Sha1Standard.Sha1(absorbed)
    }

    ghost predicate Valid()
      reads this, intermediateHash, messageBlock
    {
      && Allocated()
      && (if computed then Closed() && (corrupted == 0 || corrupted == SHA_STATE_ERROR)
          else Streaming() && Counted() && corrupted == if |absorbed| == LIMIT then 1 else 0)
    }

    ghost function State(): Abstract
      reads this
    {
      Abstract(absorbed, computed, corrupted)
    }

    constructor ()
      ensures Allocated() && fresh(intermediateHash) && fresh(messageBlock)
    {
      intermediateHash := new Word[5];
      messageBlock := new Octet[BLOCK];
    }

    /** The first loop of SHA1ProcessMessageBlock: the block as words. */
    method LoadWords(w: array<Word>)
      requires Allocated() && w.Length == 80
      modifies w
      ensures forall t :: 0 <= t < 16 ==> w[t] == WordAt(messageBlock[..], t)
    {
      for t := 0 to 16
        invariant forall i :: 0 <= i < t ==> w[i] == WordAt(messageBlock[..], i)
      {
        LoadWord(w, t);
      }
    }

    method LoadWord(w: array<Word>, t: nat)
      requires Allocated() && w.Length == 80 && t < 16
      modifies w
      ensures w[..] == old(w[..])[t := WordAt(messageBlock[..], t)]
    {
      var word := (messageBlock[t * 4] as bv32) << 24;
      word := word | ((messageBlock[t * 4 + 1] as bv32) << 16);
      word := word | ((messageBlock[t * 4 + 2] as bv32) << 8);
      word := word | (messageBlock[t * 4 + 3] as bv32);
      w[t] := word;
    }

    /** SHA1ProcessMessageBlock: hashes the buffered block and empties the buffer. */
    method ProcessMessageBlock()
      requires Allocated()
      modifies this`messageBlockIndex, intermediateHash
      ensures Chaining() == Compress(old(Chaining()), messageBlock[..])
      ensures messageBlockIndex == 0
    {
      hide Schedule, Rounds, Temp, Sum;
      ghost var block := messageBlock[..];
      var w := new Word[80];
      LoadWords(w);
      ExtendWords(w, block);
      var a, b, c := intermediateHash[0], intermediateHash[1], intermediateHash[2];
      var d, e := intermediateHash[3], intermediateHash[4];
      ghost var h := Hash(a, b, c, d, e);
      a, b, c, d, e := RunRounds(w, a, b, c, d, e, block);
      intermediateHash[0] := Sum(intermediateHash[0], a);
      intermediateHash[1] := Sum(intermediateHash[1], b);
      intermediateHash[2] := Sum(intermediateHash[2], c);
      intermediateHash[3] := Sum(intermediateHash[3], d);
      intermediateHash[4] := Sum(intermediateHash[4], e);
      messageBlockIndex := 0;
    }

    /** Fills the buffer with zero bytes up to a position. */
    method FillZeros(limit: nat)
      requires Allocated() && messageBlockIndex <= limit <= BLOCK
      modifies this`messageBlockIndex, messageBlock
      ensures messageBlockIndex == limit
      ensures messageBlock[..limit] == old(messageBlock[..messageBlockIndex]) + Zeros(limit - old(messageBlockIndex))
    {
      ghost var kept := messageBlock[..messageBlockIndex];
      while messageBlockIndex < limit
        invariant old(messageBlockIndex) <= messageBlockIndex <= limit
        invariant messageBlock[..messageBlockIndex] == kept + Zeros(messageBlockIndex - |kept|)
      {
        messageBlock[messageBlockIndex] := 0;
        messageBlockIndex := messageBlockIndex + 1;
      }
    }

    /** Stores a number as four bytes of the buffer. */
    method StoreNumber(at: nat, n: nat)
      requires Allocated() && at + 4 <= BLOCK
      modifies messageBlock
      ensures messageBlock[..] == old(messageBlock[..at]) + NumberOctets(n) + old(messageBlock[at + 4..])
    {
      hide Octet8;
      messageBlock[at] := Octet8(n / 0x100_0000);
      messageBlock[at + 1] := Octet8(n / 0x1_0000);
      messageBlock[at + 2] := Octet8(n / 0x100);
      messageBlock[at + 3] := Octet8(n);
    }

    /** Stores the bit count in the last eight bytes of the buffer. */
    method StoreLength()
      requires Allocated()
      modifies messageBlock
      ensures messageBlock[..] == old(messageBlock[..56]) + NumberOctets(lengthHigh) + NumberOctets(lengthLow)
    {
      hide NumberOctets;
      StoreNumber(56, lengthHigh);
      StoreNumber(60, lengthLow);
    }

    /** SHA1PadMessage: the padding of the buffered message, over one or two blocks. */
    method PadMessage()
      requires Allocated() && Streaming() && Counted() && |absorbed| < LIMIT
      modifies this`messageBlockIndex, intermediateHash, messageBlock
      ensures messageBlockIndex == 0
      ensures |Pad(absorbed)| % BLOCK == 0 && Chaining() == Absorb(INITIAL, Pad(absorbed))
    {
      hide Absorb, Compress, Pad, NumberOctets, HashOf;
      ghost var done, tail := Whole(absorbed), Tail(absorbed);
      ghost var high, low := NumberOctets(lengthHigh), NumberOctets(lengthLow);
      CountWords(lengthHigh, lengthLow, |absorbed|);
      PaddedSize(absorbed);
      ghost var last;
      if messageBlockIndex > 55 {
        messageBlock[messageBlockIndex] := 0x80;
        messageBlockIndex := messageBlockIndex + 1;
        FillZeros(BLOCK);
        ghost var first := tail + [0x80] + Zeros(63 - |tail|);
        assert messageBlock[..] == messageBlock[..BLOCK] == first;
        ProcessMessageBlock();
        AbsorbBlock(INITIAL, done, first);
        PadTwoBlocks(done, tail);
        done := done + first;
        last := Zeros(56);
        FillZeros(56);
      } else {
        messageBlock[messageBlockIndex] := 0x80;
        messageBlockIndex := messageBlockIndex + 1;
        FillZeros(56);
        PadOneBlock(done, tail);
        last := tail + [0x80] + Zeros(55 - |tail|);
      }
      assert messageBlock[..56] == last;
      StoreLength();
      ProcessMessageBlock();
      AbsorbBlock(INITIAL, done, last + high + low);
    }

    lemma {:induction false} WithinLimit()
      requires Valid()
      ensures |absorbed| <= LIMIT
    {
    }

    /** Adds eight to the bit count; when it overflows, the latch is set. */
    method CountByte()
      requires Counted() && |absorbed| < LIMIT
      modifies this`lengthLow, this`lengthHigh, this`corrupted
      ensures lengthLow < TWO_32 && lengthHigh < TWO_32
      ensures TWO_32 * lengthHigh + lengthLow == if |absorbed| + 1 == LIMIT then 0 else 8 * (|absorbed| + 1)
      ensures corrupted == if |absorbed| + 1 == LIMIT then 1 else old(corrupted)
    {
      CountStep(lengthHigh, lengthLow, |absorbed|);
      lengthLow := (lengthLow + 8) % TWO_32;
      if lengthLow == 0 {
        lengthHigh := (lengthHigh + 1) % TWO_32;
        if lengthHigh == 0 {
          corrupted := 1;
        }
      }
    }

    /** One round of the loop of SHA1Input. */
    method TakeByte(octet: Octet)
      requires Valid() && !computed && corrupted == 0
      modifies this`lengthLow, this`lengthHigh, this`messageBlockIndex, this`corrupted, this`absorbed
      modifies intermediateHash, messageBlock
      ensures Valid() && !computed && absorbed == old(absorbed) + [octet]
    {
      hide Absorb, Compress, HashOf, Tail, Whole;
      messageBlock[messageBlockIndex] := octet;
      messageBlockIndex := messageBlockIndex + 1;
      CountByte();
      TailStep(absorbed, octet);
      ghost var block := messageBlock[..];
      assert block[..messageBlockIndex] == Tail(absorbed) + [octet];
      if messageBlockIndex == BLOCK {
        assert block == block[..BLOCK];
        ProcessMessageBlock();
        AbsorbBlock(INITIAL, Whole(absorbed), block);
        assert messageBlock[..0] == [];
      }
      absorbed := absorbed + [octet];
    }

    /** Writes the digest out, the most significant byte of each word first. */
    method StoreDigest(digest: array<Octet>)
      requires Allocated() && digest.Length >= 20
      modifies digest
      ensures digest[..] == HashOctets(Chaining()) + old(digest[20..])
    {
      hide HashOctets, Part;
      for i := 0 to 20
        invariant forall j :: 0 <= j < i ==> digest[j] == HashOctets(Chaining())[j]
        invariant digest[20..] == old(digest[20..])
      {
        DigestOctet(intermediateHash[..], i);
        digest[i] := Part(intermediateHash[i / 4], 3 - i % 4);
      }
    }

    /** The part of SHA1Result that computes the digest: pads, and clears buffer and length. */
    method Close()
      requires Valid() && !computed && corrupted == 0
      modifies this`lengthLow, this`lengthHigh, this`messageBlockIndex, this`computed
      modifies intermediateHash, messageBlock
      ensures Valid() && State() == old(State()).(computed := true)
    {
      hide Absorb, Compress, Pad, HashOctets, HashOf;
      PadMessage();
      for i := 0 to BLOCK
        invariant forall j :: 0 <= j < i ==> messageBlock[j] == 0
        modifies messageBlock
      {
        messageBlock[i] := 0;
      }
      lengthLow := 0;
      lengthHigh := 0;
      computed := true;
    }
  }

  ghost function Footprint(context: SHA1Context?): set<object> {
    if context == null then {} else {context, context.intermediateHash, context.messageBlock}
  }

  method SHA1Reset(context: SHA1Context?) returns (code: nat)
    requires context != null ==> context.Allocated()
    modifies Footprint(context)
    ensures context == null ==> code == 1
    ensures context != null ==> context.Valid() && code == 0 && context.State() == FRESH
  {
    hide Absorb, Tail, Whole;
    if context == null {
      return SHA_NULL;
    }
    context.lengthLow := 0;
    context.lengthHigh := 0;
    context.messageBlockIndex := 0;
    context.intermediateHash[0] := 0x67452301;
    context.intermediateHash[1] := 0xEFCDAB89;
    context.intermediateHash[2] := 0x98BADCFE;
    context.intermediateHash[3] := 0x10325476;
    context.intermediateHash[4] := 0xC3D2E1F0;
    context.computed := false;
    context.corrupted := 0;
    context.absorbed := [];
    NothingAbsorbed();
    code := SHA_SUCCESS;
  }

  method SHA1Input(context: SHA1Context?, messageArray: array?<Octet>, length: nat) returns (code: nat)
    requires context != null ==> context.Valid()
    requires messageArray != null ==> length <= messageArray.Length
    requires context != null && messageArray != null ==> messageArray != context.messageBlock
    modifies Footprint(context)
    ensures length > 0 && (context == null || messageArray == null) ==> code == 1
    ensures length == 0 ==> code == 0
    ensures context != null ==> context.Valid()
    ensures context != null && messageArray == null ==> context.State() == old(context.State())
    ensures context != null && messageArray != null && length > 0 ==>
      code == if old(context.computed) then 3 else old(context.corrupted)
    ensures context != null && messageArray != null ==>
      && code == InputCode(old(context.State()), messageArray[..length])
      && context.State() == AfterInput(old(context.State()), messageArray[..length])
  {
    hide SHA1Context.Streaming, SHA1Context.Closed, SHA1Context.Counted;
    if length == 0 {
      return SHA_SUCCESS;
    }
    if context == null || messageArray == null {
      return SHA_NULL;
    }
    if context.computed {
      context.corrupted := SHA_STATE_ERROR;
      return SHA_STATE_ERROR;
    }
    if context.corrupted != 0 {
      return context.corrupted;
    }

    ghost var bytes, before := messageArray[..length], context.absorbed;
    var i := 0;
    while i < length && context.corrupted == 0
      invariant i <= length && context.Valid() && !context.computed
      invariant messageArray[..length] == bytes
      invariant context.absorbed == before + bytes[..i]
    {
      context.TakeByte(messageArray[i]);
      i := i + 1;
    }
    context.WithinLimit();
    assert i == Taken(before, bytes);
    code := SHA_SUCCESS;
  }

  method SHA1Result(context: SHA1Context?, messageDigest: array?<Octet>) returns (code: nat)
    requires context != null ==> context.Valid()
    requires messageDigest != null ==> messageDigest.Length >= 20
    requires context != null && messageDigest != null ==> messageDigest != context.messageBlock
    modifies Footprint(context), messageDigest
    ensures context != null ==> context.Valid()
    ensures context == null || messageDigest == null ==>
      && code == 1
      && (context != null ==> context.State() == old(context.State()))
      && (messageDigest != null ==> messageDigest[..] == old(messageDigest[..]))
    ensures context != null && messageDigest != null ==>
      var (after, reply) := Step(old(context.State()), Result);
      && context.State() == after && code == reply.code
      && messageDigest[..] == match reply.digest
         case NoDigest => old(messageDigest[..])
         case Digest(octets) => octets + old(messageDigest[20..])
  {
    hide HashOctets, Sha1Standard.Sha1, HashOf, Absorb;
    if context == null || messageDigest == null {
      return SHA_NULL;
    }
    if context.corrupted != 0 {
      return context.corrupted;
    }
    if !context.computed {
      context.Close();
    }
    context.StoreDigest(messageDigest);
    code := SHA_SUCCESS;
  }

  /** doSHA1: the digest of a message in one call. */
  method DoSHA1(input: array?<Octet>, len: nat, messageDigest: array?<Octet>) returns (code: nat)
    requires len < TWO_32 && (input != null ==> len <= input.Length)
    requires messageDigest != null ==> messageDigest.Length >= 20
    modifies messageDigest
    ensures code == 0
    ensures messageDigest != null ==>
      messageDigest[..] == Sha1Standard.Sha1(if input == null then [] else old(input[..len])) + old(messageDigest[20..])
  {
    hide Sha1Standard.Sha1, SHA1Context.Streaming, SHA1Context.Closed, SHA1Context.Counted, AfterInput, Step;
    ghost var message := if input == null then [] else input[..len];
    OneInput(message);
    var sha := new SHA1Context();
    var status := SHA1Reset(sha);
    status := SHA1Input(sha, input, len);
    status := SHA1Result(sha, messageDigest);
    code := 0;
  }

  /** The second loop of SHA1ProcessMessageBlock: the words after the block. */
  method ExtendWords(w: array<Word>, ghost block: seq<Octet>)
    requires |block| == BLOCK && w.Length == 80
    requires forall t :: 0 <= t < 16 ==> w[t] == WordAt(block, t)
    modifies w
    ensures forall t :: 0 <= t < 80 ==> w[t] == Schedule(block, t)
  {
    hide WordAt, Rotl1, Xor4, Schedule;
    forall t: nat | t < 16
      ensures w[t] == Schedule(block, t)
    {
      FirstWord(block, t);
    }
    for t := 16 to 80
      invariant forall i :: 0 <= i < t ==> w[i] == Schedule(block, i)
    {
      NextWord(block, t);
      w[t] := Rotl1(Xor4(w[t - 3], w[t - 8], w[t - 14], w[t - 16]));
    }
  }

  /** The four loops of twenty rounds. */
  method RunRounds(w: array<Word>, a0: Word, b0: Word, c0: Word, d0: Word, e0: Word, ghost block: seq<Octet>)
    returns (a: Word, b: Word, c: Word, d: Word, e: Word)
    requires |block| == BLOCK && w.Length == 80
    requires forall t :: 0 <= t < 80 ==> w[t] == Schedule(block, t)
    ensures Hash(a, b, c, d, e) == Rounds(Hash(a0, b0, c0, d0, e0), block, 80)
  {
    hide Schedule, Rounds, Temp, Rotl5, Rotl30, Sum;
    a, b, c, d, e := a0, b0, c0, d0, e0;
    ghost var h := Hash(a, b, c, d, e);
    NoRounds(h, block);
    for t := 0 to 20
      invariant Hash(a, b, c, d, e) == Rounds(h, block, t)
    {
      var temp := Sum(Sum(Sum(Sum(Rotl5(a), ((b & c) | ((!b) & d))), e), w[t]), 0x5A827999);
      TempIs(Hash(a, b, c, d, e), t, w[t]);
      NextRound(h, block, t);
      e, d, c, b, a := d, c, Rotl30(b), a, temp;
    }
    for t := 20 to 40
      invariant Hash(a, b, c, d, e) == Rounds(h, block, t)
    {
      var temp := Sum(Sum(Sum(Sum(Rotl5(a), (b ^ c ^ d)), e), w[t]), 0x6ED9EBA1);
      TempIs(Hash(a, b, c, d, e), t, w[t]);
      NextRound(h, block, t);
      e, d, c, b, a := d, c, Rotl30(b), a, temp;
    }
    for t := 40 to 60
      invariant Hash(a, b, c, d, e) == Rounds(h, block, t)
    {
      var temp := Sum(Sum(Sum(Sum(Rotl5(a), ((b & c) | (b & d) | (c & d))), e), w[t]), 0x8F1BBCDC);
      TempIs(Hash(a, b, c, d, e), t, w[t]);
      NextRound(h, block, t);
      e, d, c, b, a := d, c, Rotl30(b), a, temp;
    }
    for t := 60 to 80
      invariant Hash(a, b, c, d, e) == Rounds(h, block, t)
    {
      var temp := Sum(Sum(Sum(Sum(Rotl5(a), (b ^ c ^ d)), e), w[t]), 0xCA62C1D6);
      TempIs(Hash(a, b, c, d, e), t, w[t]);
      NextRound(h, block, t);
      e, d, c, b, a := d, c, Rotl30(b), a, temp;
    }
  }

  lemma {:induction false} TempIs(h: Hash, t: nat, w: Word)
    ensures Temp(h, t, w) == Sum(Sum(Sum(Sum(Rotl5(h.a), F(t, h.b, h.c, h.d)), h.e), w), K(t))
  {
    hide Rotl5, Sum, F, K;
  }

  lemma {:induction false} OneInput(bytes: seq<Octet>)
    requires |bytes| < LIMIT
    ensures var s := Abstract(bytes, false, SHA_SUCCESS);
      && Step(FRESH, Reset).1.code == SHA_SUCCESS
      && AfterInput(FRESH, bytes) == s
      && Step(s, Result) == (s.(computed := true), Reply(SHA_SUCCESS, Digest(Sha1Standard.Sha1(bytes))))
  {
    hide Sha1Standard.Sha1;
    assert bytes[..|bytes|] == bytes;
    assert [] + bytes == bytes;
  }

  lemma {:induction false} NothingAbsorbed()
    ensures Absorb(INITIAL, Whole([])) == INITIAL && Tail([]) == []
  {
  }

  /** A 64-bit number split into two words is its quotient and remainder by 2^32. */
  lemma {:induction false} CountWords(high: nat, low: nat, n: nat)
    requires low < TWO_32 && TWO_32 * high + low == 8 * n
    ensures high == 8 * n / TWO_32 && low == 8 * n % TWO_32
  {
  }

  /** Eight more bits, with the carry between the words and out of them. */
  lemma {:induction false} CountStep(high: nat, low: nat, n: nat)
    requires low < TWO_32 && high < TWO_32 && n < LIMIT && TWO_32 * high + low == 8 * n
    ensures var low' := (low + 8) % TWO_32; var high' := if low' == 0 then (high + 1) % TWO_32 else high;
      && TWO_32 * high' + low' == (if n + 1 == LIMIT then 0 else 8 * (n + 1))
      && (low' == 0 && high' == 0 <==> n + 1 == LIMIT)
  {
    var k := n - 0x2000_0000 * high;
    assert low == 8 * k;
    assert low + 8 <= TWO_32;
    if low + 8 == TWO_32 {
      assert (low + 8) % TWO_32 == 0;
    }
  }

  lemma {:induction false} TailStep(m: seq<Octet>, octet: Octet)
    ensures var m' := m + [octet];
      if |Tail(m)| + 1 == BLOCK then Tail(m') == [] && Whole(m') == Whole(m) + (Tail(m) + [octet])
      else Tail(m') == Tail(m) + [octet] && Whole(m') == Whole(m)
  {
    var m', r := m + [octet], |m| % BLOCK;
    if r + 1 == BLOCK {
      assert (|m| + 1) % BLOCK == 0;
    } else {
      assert (|m| + 1) % BLOCK == r + 1;
    }
  }

  /** Byte k of a word, counted from the least significant one. */
  function Part(w: Word, k: nat): Octet
    requires k < 4
  {
    if k == 3 then Low(w >> 24) else if k == 2 then Low(w >> 16) else if k == 1 then Low(w >> 8) else Low(w)
  }

  lemma {:induction false} WordsPart(words: seq<Word>, q: nat, j: nat)
    requires q < |words| && j < 4
    ensures 4 * q + j < |WordsOctets(words)|
    ensures WordsOctets(words)[4 * q + j] == WordOctets(words[q])[j]
    decreases |words|
  {
    hide WordOctets;
    if q < |words| - 1 {
      WordsPart(words[..|words| - 1], q, j);
    }
  }

  lemma {:induction false} DigestOctet(words: seq<Word>, i: nat)
    requires |words| == 5 && i < 20
    ensures HashOctets(HashOf(words))[i] == Part(words[i / 4], 3 - i % 4)
  {
    hide Part, WordOctets, WordsOctets;
    var h := HashOf(words);
    assert words == [h.a, h.b, h.c, h.d, h.e];
    WordPart(words[i / 4], i % 4);
    WordsPart(words, i / 4, i % 4);
  }

  lemma {:induction false} WordPart(w: Word, j: nat)
    requires j < 4
    ensures WordOctets(w)[j] == Part(w, 3 - j)
  {
    hide Low;
  }
}
