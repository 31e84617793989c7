/**
  Comparing a key with the path of the last one, as the first loop of insert does.

  The loop reads the byte after the key's end as well, whatever it is. That byte
  decides what happens to a key that has followed the path up to its end.
 */
module DawgWalks {
  import opened Dictionary
  import opened Keysets
  import opened KeysetRanges
  import opened DawgLevels

  function Terminated(key: Key): Key {
    key + [0]
  }

  /** The bytes that the second loop of insert writes: the key and a terminator. */
  function KeyByte(key: Key, i: nat): Byte {
    if i < |key| then key[i] else 0
  }

  /** The bytes that the first loop reads: the key and the byte after its end. */
  function Peek(key: Key, following: Byte, i: nat): Byte {
    if i < |key| then key[i] else following
  }

  /** The key follows the first k levels of the path. */
  ghost predicate Agree(levels: seq<Level>, key: Key, k: nat) {
    k <= |levels| && forall i :: 0 <= i < k ==> levels[i].label_ == KeyByte(key, i)
  }

  /** A zero byte that the key meets while it still follows the path. */
  ghost predicate NulOnPath(levels: seq<Level>, key: Key) {
    exists k :: 0 <= k < |key| && key[k] == 0 && k < |levels| && Agree(levels, key, k)
  }

  /** The level, from k on, at which the walk of the first loop leaves the path. */
  ghost function LeavesPath(levels: seq<Level>, key: Key, following: Byte, k: nat): (r: nat)
    requires k <= |key| + 1
    ensures k <= r <= |key| + 1
    decreases |key| + 1 - k
  {
    if k > |key| || k >= |levels| || levels[k].label_ != Peek(key, following, k) then k
    else LeavesPath(levels, key, following, k + 1)
  }

  /** The last key: the path without its terminator. */
  function LastOf(levels: seq<Level>): Key
    requires levels != []
  {
    Path(levels[..|levels| - 1])
  }

  /** Only the end of the path is labelled 0. */
  ghost predicate PathEnds(levels: seq<Level>) {
    && (levels != [] ==> levels[|levels| - 1].label_ == 0)
    && (forall i :: 0 <= i < |levels| - 1 ==> levels[i].label_ != 0)
  }

  /**
    What insert reports for a key that a zero byte follows. A zero byte inside the
    key is noticed only while the key still follows the path of the last one.
   */
  ghost function WalkOutcome(levels: seq<Level>, key: Key): Outcome {
    if NulOnPath(levels, key) then Failed(InvalidNull)
    else if levels != [] && !KeyLeq(LastOf(levels), key) then Failed(WrongOrder)
    else Built
  }

  /** The whole key has been met on the path, without a zero byte. */
  ghost predicate MeetsPath(levels: seq<Level>, key: Key) {
    levels != [] && |key| < |levels| && Agree(levels, key, |key|) && !NulOnPath(levels, key)
  }

  /**
    A key that the last one goes on from, with a byte after its end that is at
    least the next byte of the path: the order of the two keys goes unnoticed.
   */
  ghost predicate SlipsOrder(levels: seq<Level>, key: Key, following: Byte) {
    MeetsPath(levels, key) && 0 < levels[|key|].label_ <= following
  }

  /** Such a key gets a place behind the last one. Otherwise, at equal bytes, it is dropped. */
  ghost predicate Misplaced(levels: seq<Level>, key: Key, following: Byte) {
    SlipsOrder(levels, key, following) && levels[|key|].label_ < following
  }

  /** The last key again, with a byte after its end that is not zero. */
  ghost predicate TakenAgain(levels: seq<Level>, key: Key, following: Byte) {
    MeetsPath(levels, key) && 0 == levels[|key|].label_ < following
  }

  /** What insert reports for a key, whatever its value and the byte after its end. */
  ghost function CodeOutcome(levels: seq<Level>, key: Key, following: Byte): Outcome {
    if SlipsOrder(levels, key, following) then Built else WalkOutcome(levels, key)
  }

  lemma {:induction false} LastOfBytes(levels: seq<Level>)
    requires levels != []
    ensures |LastOf(levels)| == |levels| - 1
    ensures forall i :: 0 <= i < |levels| - 1 ==> LastOf(levels)[i] == levels[i].label_
  {
    PathLength(levels[..|levels| - 1]);
  }

  lemma {:induction false} LastOfTerminated(levels: seq<Level>, key: Key)
    requires levels != [] && Path(levels) == Terminated(key)
    ensures LastOf(levels) == key && levels[|levels| - 1].label_ == 0
  {
    PathLength(levels);
    LastOfBytes(levels);
  }

  lemma {:induction false} KeyLeqSame(key: Key)
    ensures KeyLeq(key, key)
    decreases |key|
  {
    if key != [] {
      KeyLeqSame(key[1..]);
    }
  }

  lemma {:induction false} KeyLeqFrom(s: Key, t: Key, k: nat)
    requires k <= |s| && k <= |t| && s[..k] == t[..k]
    ensures KeyLeq(s, t) <==> KeyLeq(s[k..], t[k..])
    decreases k
  {
    if k > 0 {
      assert s[0] == s[..k][0] == t[..k][0] == t[0];
      assert s[1..][..k - 1] == s[..k][1..] && t[1..][..k - 1] == t[..k][1..];
      KeyLeqFrom(s[1..], t[1..], k - 1);
      assert s[1..][k - 1..] == s[k..] && t[1..][k - 1..] == t[k..];
    }
  }

  // The steps of the walk.

  /** The walk meets the end of the path with the end of a key at the earliest. */
  lemma {:induction false} PathNotOver(levels: seq<Level>, key: Key, k: nat)
    requires Agree(levels, key, k) && k <= |key| && PathEnds(levels)
    requires forall i :: 0 <= i < k && i < |key| ==> key[i] != 0
    ensures levels == [] || k < |levels|
  {
  }

  lemma {:induction false} WalkNothing(key: Key, following: Byte)
    ensures CodeOutcome([], key, following) == Built
  {
  }

  lemma {:induction false} WalkNul(levels: seq<Level>, key: Key, following: Byte, k: nat)
    requires k < |key| && key[k] == 0 && k < |levels| && Agree(levels, key, k)
    ensures CodeOutcome(levels, key, following) == Failed(InvalidNull)
  {
  }

  lemma {:induction false} NoLaterNul(levels: seq<Level>, key: Key, k: nat)
    requires k < |levels| && levels[k].label_ != KeyByte(key, k)
    requires forall i :: 0 <= i <= k && i < |key| ==> key[i] != 0
    ensures !NulOnPath(levels, key)
  {
  }

  /** Where key and path part, the bytes there decide the order. */
  lemma {:induction false} WalkParts(levels: seq<Level>, key: Key, k: nat)
    requires levels != [] && Agree(levels, key, k) && k < |levels| && k <= |key| && PathEnds(levels)
    requires forall i :: 0 <= i <= k && i < |key| ==> key[i] != 0
    requires levels[k].label_ != KeyByte(key, k)
    ensures WalkOutcome(levels, key) == if KeyByte(key, k) < levels[k].label_ then Failed(WrongOrder) else Built
    ensures MeetsPath(levels, key) <==> k == |key|
  {
    NoLaterNul(levels, key, k);
    var last := LastOf(levels);
    LastOfBytes(levels);
    hide NulOnPath, LastOf;
    assert last[..k] == key[..k];
    KeyLeqFrom(last, key, k);
  }

  /** The walk stops at level k, where the byte it reads is not the one on the path. */
  lemma {:induction false} WalkStops(levels: seq<Level>, key: Key, following: Byte, k: nat)
    requires levels != [] && Agree(levels, key, k) && k < |levels| && k <= |key| && PathEnds(levels)
    requires forall i :: 0 <= i <= k && i < |key| ==> key[i] != 0
    requires levels[k].label_ != Peek(key, following, k)
    ensures CodeOutcome(levels, key, following)
      == if Peek(key, following, k) < levels[k].label_ then Failed(WrongOrder) else Built
    ensures k == |key| ==> MeetsPath(levels, key)
  {
    if k == |key| && levels[k].label_ == 0 {
      WalkMeets(levels, key);
    } else {
      hide WalkOutcome, Agree, NulOnPath, PathEnds;
      WalkParts(levels, key, k);
    }
  }

  /** The key and a terminator are the whole path: it is the last key again. */
  lemma {:induction false} WalkMeets(levels: seq<Level>, key: Key)
    requires levels != [] && |key| < |levels| && Agree(levels, key, |key|) && PathEnds(levels)
    requires levels[|key|].label_ == 0 && forall i :: 0 <= i < |key| ==> key[i] != 0
    ensures Path(levels) == Terminated(key) && LastOf(levels) == key
    ensures MeetsPath(levels, key) && WalkOutcome(levels, key) == Built
  {
    PathLength(levels);
    LastOfBytes(levels);
    KeyLeqSame(key);
  }

  /** The walk gets behind the end of the key: the key is there already, or is dropped. */
  lemma {:induction false} WalkEnds(levels: seq<Level>, key: Key, following: Byte)
    requires levels != [] && |key| < |levels| && Agree(levels, key, |key|) && PathEnds(levels)
    requires levels[|key|].label_ == following && forall i :: 0 <= i < |key| ==> key[i] != 0
    ensures CodeOutcome(levels, key, following) == Built && MeetsPath(levels, key)
    ensures following == 0 ==> LastOf(levels) == key
    ensures following != 0 ==> SlipsOrder(levels, key, following)
  {
    if following == 0 {
      WalkMeets(levels, key);
    }
  }

  lemma {:induction false} KeyByteZero(key: Key, k: nat)
    requires NulFreeKey(key) && k <= |key|
    ensures KeyByte(key, k) == 0 <==> k == |key|
  {
  }

  /** The last key is met on the path in front of the terminator. */
  lemma {:induction false} LastKeyMet(levels: seq<Level>, key: Key)
    requires levels != [] && PathEnds(levels)
    ensures LastOf(levels) == key <==> MeetsPath(levels, key) && levels[|key|].label_ == 0
  {
    LastOfBytes(levels);
    if LastOf(levels) == key {
      assert forall i :: 0 <= i < |key| ==> key[i] == levels[i].label_ != 0;
    } else if MeetsPath(levels, key) && levels[|key|].label_ == 0 {
      MetNulFree(levels, key);
      WalkMeets(levels, key);
    }
  }

  /** Where a key that is not misplaced leaves the path. */
  lemma {:induction false} BranchOrder(levels: seq<Level>, key: Key, following: Byte, k: nat)
    requires k < |levels| && k <= |key| && levels[k].label_ < Peek(key, following, k) && PathEnds(levels)
    requires !Misplaced(levels, key, following) && (k == |key| ==> MeetsPath(levels, key))
    ensures LabelBefore(levels[k].label_, KeyByte(key, k)) && !SlipsOrder(levels, key, following)
    ensures LastOf(levels) == key <==> k == |key|
    ensures TakenAgain(levels, key, following) <==> k == |key|
  {
    LastKeyMet(levels, key);
    hide NulOnPath, PathEnds, LastOf;
    if k < |key| {
      LeftPath(levels, key, k);
    }
  }

  lemma {:induction false} LeftPath(levels: seq<Level>, key: Key, k: nat)
    requires k < |levels| && k < |key| && levels[k].label_ != key[k]
    ensures !MeetsPath(levels, key)
  {
  }

  // What the byte after the key changes.

  /**
    The report differs from that for a key followed by a zero byte exactly when
    the last key goes on from this one, and the byte after this one is at least the
    byte with which it goes on.
   */
  lemma {:induction false} FollowingMatters(levels: seq<Level>, key: Key, following: Byte)
    requires PathEnds(levels)
    ensures CodeOutcome(levels, key, following) != WalkOutcome(levels, key) <==> SlipsOrder(levels, key, following)
    ensures SlipsOrder(levels, key, following) || TakenAgain(levels, key, following)
      <==> MeetsPath(levels, key) && following != 0 && levels[|key|].label_ <= following
  {
    if MeetsPath(levels, key) && levels[|key|].label_ != 0 {
      MetNulFree(levels, key);
      assert KeyByte(key, |key|) == 0;
      WalkParts(levels, key, |key|);
    }
  }

  lemma {:induction false} MetNulFree(levels: seq<Level>, key: Key)
    requires MeetsPath(levels, key)
    ensures forall i :: 0 <= i < |key| ==> key[i] != 0
  {
    forall i | 0 <= i < |key|
      ensures key[i] != 0
    {
      assert Agree(levels, key, i);
    }
  }

  /**
    Both ways of the difference: after the key "abd" the key "ab" is out of order,
    but goes unnoticed in front of a "d" or an "e".
   */
  lemma {:induction false} PrefixSlips()
    ensures var levels := Fresh([97, 98, 100, 0]); var key: Key := [97, 98];
      && Path(levels) == Terminated([97, 98, 100])
      && CodeOutcome(levels, key, 0) == Failed(WrongOrder)
      && CodeOutcome(levels, key, 99) == Failed(WrongOrder)
      && CodeOutcome(levels, key, 100) == Built
      && CodeOutcome(levels, key, 101) == Built
  {
    var levels := Fresh([97, 98, 100, 0]);
    var key: Key := [97, 98];
    PathLength(levels);
    assert Path(levels) == Terminated([97, 98, 100]);
    assert Agree(levels, key, 2);
    assert levels[2].label_ == 100;
    hide Fresh;
    WalkParts(levels, key, 2);
  }

  /**
    insert does not reject every zero byte: after the key "\1" it lets "\2\0\3"
    through, because the two keys part before the zero byte.
   */
  lemma {:induction false} NulSlipsThrough(following: Byte)
    ensures var levels := Fresh([1, 0]); var key: Key := [2, 0, 3];
      && Path(levels) == Terminated([1])
      && !NulFreeKey(key) && CodeOutcome(levels, key, following) == Built
  {
    var levels := Fresh([1, 0]);
    var key: Key := [2, 0, 3];
    PathLength(levels);
    assert Path(levels) == Terminated([1]);
    assert key[1] == 0;
    assert levels[0].label_ != KeyByte(key, 0);
    hide Fresh;
    WalkStops(levels, key, following, 0);
  }
}
