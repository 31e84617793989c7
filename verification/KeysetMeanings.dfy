/**
  What the terms used of keysets say about keys, bytes and values as they were given.
 */
module KeysetMeanings {
  import opened Dictionary
  import opened Keysets
  import opened KeysetRanges
  import opened KeyWeights
  import opened DawgLevels
  import opened DawgWalks
  import opened Reports

  // The order of keys.

  /** s is a prefix of t, or has the smaller byte where they first differ. */
  ghost predicate InByteOrder(s: Key, t: Key) {
    s <= t || exists k :: 0 <= k < |s| && k < |t| && s[..k] == t[..k] && s[k] < t[k]
  }

  lemma {:induction false} ByteOrder(s: Key, t: Key)
    ensures KeyLeq(s, t) <==> InByteOrder(s, t)
  {
    if KeyLeq(s, t) {
      OrderFound(s, t);
    }
    if s <= t {
      KeyLeqFrom(s, t, |s|);
    } else if InByteOrder(s, t) {
      var k :| 0 <= k < |s| && k < |t| && s[..k] == t[..k] && s[k] < t[k];
      KeyLeqFrom(s, t, k);
    }
  }

  lemma {:induction false} OrderFound(s: Key, t: Key)
    requires KeyLeq(s, t)
    ensures InByteOrder(s, t)
    decreases |s|
  {
    if s != [] {
      if s[0] < t[0] {
        assert s[..0] == t[..0];
      } else {
        OrderFound(s[1..], t[1..]);
        OrderLonger(s, t);
      }
    }
  }

  lemma {:induction false} OrderLonger(s: Key, t: Key)
    requires s != [] && t != [] && s[0] == t[0] && InByteOrder(s[1..], t[1..])
    ensures InByteOrder(s, t)
  {
    if s[1..] <= t[1..] {
      assert s == [s[0]] + s[1..] && t == [t[0]] + t[1..];
    } else {
      var k :| 0 <= k < |s[1..]| && k < |t[1..]| && s[1..][..k] == t[1..][..k] && s[1..][k] < t[1..][k];
      assert s[..k + 1] == [s[0]] + s[1..][..k] && t[..k + 1] == [t[0]] + t[1..][..k];
    }
  }

  // Values.

  /** Without values, all indexes can be stored exactly if there are at most 2^31 keys. */
  lemma {:induction false} IndexValues(ks: Keyset)
    requires ks.Valid() && ks.values.None?
    ensures (forall i :: 0 <= i < |ks.keys| ==> ks.Value(i) >= 0) <==> |ks.keys| <= 0x8000_0000
    ensures forall i :: 0 <= i < |ks.keys| && i < 0x8000_0000 ==> ks.Value(i) == i
  {
    if |ks.keys| > 0x8000_0000 {
      assert ks.Value(0x8000_0000) < 0;
    }
  }

  // Keysets that are built.

  ghost predicate NoZeroByte(ks: Keyset) {
    forall i, k :: 0 <= i < |ks.keys| && 0 <= k < |ks.keys[i]| ==> ks.keys[i][k] != 0
  }

  ghost predicate Ordered(ks: Keyset) {
    forall i :: 0 < i < |ks.keys| ==> InByteOrder(ks.keys[i - 1], ks.keys[i])
  }

  ghost predicate NonNegative(ks: Keyset)
    requires ks.Valid()
  {
    if ks.values.Some? then forall i :: 0 <= i < |ks.keys| ==> ks.values.value[i] >= 0
    else |ks.keys| <= 0x8000_0000
  }

  lemma {:induction false} EachAccepted(ks: Keyset)
    requires ks.Valid()
    ensures (forall i :: 0 <= i < |ks.keys| ==> KeyAccepted(ks, i)) <==>
      NoZeroByte(ks) && NonNegative(ks) && (ks.values.Some? ==> [] !in ks.keys)
  {
    if ks.values.None? {
      IndexValues(ks);
    }
    if forall i :: 0 <= i < |ks.keys| ==> KeyAccepted(ks, i) {
      forall i | 0 <= i < |ks.keys|
        ensures NulFreeKey(ks.keys[i]) && ks.Value(i) >= 0 && (ks.values.Some? ==> ks.keys[i] != [])
      {
        assert KeyAccepted(ks, i);
      }
      assert ks.values.Some? ==> forall i :: 0 <= i < |ks.keys| ==> ks.Value(i) == ks.values.value[i];
    }
  }

  /** Well-formed keysets in terms of bytes and values. */
  lemma {:induction false} WellFormedIs(ks: Keyset)
    requires ks.Valid()
    ensures WellFormed(ks) <==>
      NoZeroByte(ks) && Ordered(ks) && NonNegative(ks) && (ks.values.Some? ==> [] !in ks.keys)
  {
    EachAccepted(ks);
    hide KeyAccepted, NoZeroByte, NonNegative, InByteOrder, KeyLeq;
    forall i | 0 < i < |ks.keys|
      ensures Follows(ks, i) <==> InByteOrder(ks.keys[i - 1], ks.keys[i])
    {
      ByteOrder(ks.keys[i - 1], ks.keys[i]);
    }
  }

  // Keys that are dropped, and pairs that decide.

  /** Key j is the last one before key i that is not dropped. */
  ghost predicate Precedes(ks: Keyset, j: nat, i: nat)
    requires |ks.keys| == |ks.following|
  {
    j < i <= |ks.keys| && !Dropped(ks, j) && forall k :: j < k < i ==> Dropped(ks, k)
  }

  lemma {:induction false} BeforeIs(ks: Keyset, i: nat)
    requires i <= |ks.keys| == |ks.following|
    ensures i == 0 <==> Before(ks, i).None?
    ensures forall j: nat :: Precedes(ks, j, i) ==> Before(ks, i) == Some(ks.keys[j])
    ensures i > 0 ==> exists j: nat :: Precedes(ks, j, i)
    decreases i
  {
    hide DropsOut;
    if i > 0 {
      BeforeIs(ks, i - 1);
      if Dropped(ks, i - 1) {
        forall j: nat | j < i - 1
          ensures Precedes(ks, j, i - 1) <==> Precedes(ks, j, i)
        {
        }
        var j: nat :| Precedes(ks, j, i - 1);
        assert Precedes(ks, j, i);
      } else {
        assert Precedes(ks, i - 1, i);
        forall j: nat | Precedes(ks, j, i)
          ensures j == i - 1
        {
        }
      }
    }
  }

  /**
    A key is dropped exactly if the last one that is not goes on from it with the byte
    that follows it in memory.
   */
  lemma {:induction false} DroppedIs(ks: Keyset, j: nat, i: nat)
    requires i < |ks.keys| == |ks.following| && Precedes(ks, j, i)
    ensures var last, key := ks.keys[j], ks.keys[i];
      Dropped(ks, i) <==>
        && |key| < |last| && key <= last && (forall k :: 0 <= k < |key| ==> key[k] != 0)
        && ks.following[i] != 0 && ks.following[i] == last[|key|]
  {
    BeforeIs(ks, i);
    hide Before, Precedes;
    var last, key := ks.keys[j], ks.keys[i];
    assert |key| < |last| ==> (key <= last <==> key == last[..|key|]);
  }

  /** The value of a key is taken unless the key is dropped, or is the last one again in front of a zero byte. */
  lemma {:induction false} TakenIs(ks: Keyset, j: nat, i: nat)
    requires i < |ks.keys| == |ks.following| && Precedes(ks, j, i)
    ensures Stores(ks, i) <==> !Dropped(ks, i) && (ks.keys[i] != ks.keys[j] || ks.following[i] != 0)
    ensures Stores(ks, 0) && !Dropped(ks, 0)
  {
    BeforeIs(ks, i);
    BeforeIs(ks, 0);
    hide Before, Precedes;
  }

  /** What is built with values, in terms of bytes and values. */
  lemma {:induction false} AcceptedIs(ks: Keyset)
    requires ks.Valid() && ks.values.Some?
    ensures Accepted(ks) <==>
      && NoZeroByte(ks) && NonNegative(ks) && [] !in ks.keys
      && forall i: nat, j: nat :: i < |ks.keys| && Precedes(ks, j, i) && !Dropped(ks, i) ==>
           InByteOrder(ks.keys[j], ks.keys[i])
  {
    EachAccepted(ks);
    hide KeyAccepted, NoZeroByte, NonNegative, InByteOrder, KeyLeq, Dropped, Precedes, Before;
    forall i: nat | i < |ks.keys|
      ensures InPlace(ks, i) <==>
        forall j: nat :: Precedes(ks, j, i) && !Dropped(ks, i) ==> InByteOrder(ks.keys[j], ks.keys[i])
    {
      PlaceIs(ks, i);
    }
  }

  lemma {:induction false} PlaceIs(ks: Keyset, i: nat)
    requires ks.Valid() && i < |ks.keys|
    ensures InPlace(ks, i) <==>
      forall j: nat :: Precedes(ks, j, i) && !Dropped(ks, i) ==> InByteOrder(ks.keys[j], ks.keys[i])
  {
    hide KeyLeq, InByteOrder, Dropped, Precedes, Before;
    BeforeIs(ks, i);
    forall j: nat | Precedes(ks, j, i)
      ensures j < |ks.keys| && (KeyLeq(ks.keys[j], ks.keys[i]) <==> InByteOrder(ks.keys[j], ks.keys[i]))
    {
      PrecedesBounds(ks, j, i);
      ByteOrder(ks.keys[j], ks.keys[i]);
    }
  }

  lemma {:induction false} PrecedesBounds(ks: Keyset, j: nat, i: nat)
    requires |ks.keys| == |ks.following| && Precedes(ks, j, i)
    ensures j < i <= |ks.keys|
  {
  }

  /** The pair whose value is stored for q. */
  ghost predicate Decides(ks: Keyset, q: Key, i: nat)
    requires ks.Valid()
  {
    && i < |ks.keys| && ks.keys[i] == q
    && (if ks.values.Some? then LastStored(ks, |ks.keys|, q, i) else q !in ks.keys[..i])
  }

  /** The first pair with the key q. */
  ghost predicate FirstPair(ks: Keyset, q: Key, i: nat) {
    i < |ks.keys| && ks.keys[i] == q && q !in ks.keys[..i]
  }

  /**
    In a well-formed keyset with values the pair that decides is the last one with the
    key in front of a byte that is not zero, or else the first one.
   */
  lemma {:induction false} DecidesIs(ks: Keyset, q: Key, i: nat)
    requires ks.Valid() && ks.values.Some? && WellFormed(ks)
    ensures Decides(ks, q, i) <==>
      && i < |ks.keys| && ks.keys[i] == q && (q !in ks.keys[..i] || ks.following[i] != 0)
      && forall j :: i < j < |ks.keys| && ks.keys[j] == q ==> ks.following[j] == 0
  {
    hide WellFormed, Stores;
    if i < |ks.keys| && ks.keys[i] == q {
      StoresIs(ks, i);
      forall j | i < j < |ks.keys| && ks.keys[j] == q
        ensures Stores(ks, j) <==> ks.following[j] != 0
      {
        StoresIs(ks, j);
        InPrefix(ks.keys, i, j);
      }
    }
  }

  lemma {:induction false} StoresIs(ks: Keyset, i: nat)
    requires ks.Valid() && WellFormed(ks) && i < |ks.keys|
    ensures Stores(ks, i) <==> ks.keys[i] !in ks.keys[..i] || ks.following[i] != 0
  {
    WellFormedBefore(ks, i);
    hide WellFormed, Before, Dropped;
    if i > 0 {
      InPrefix(ks.keys, i - 1, i);
    }
    if ks.keys[i] in ks.keys[..i] {
      var f :| 0 <= f < i && ks.keys[..i][f] == ks.keys[i];
      EqualTogether(ks, f, i);
    }
  }

  /** With a zero byte after every key, the first pair decides and no key is left out. */
  lemma {:induction false} ZeroDecides(ks: Keyset, q: Key)
    requires ks.Valid() && Accepted(ks) && ZeroFollows(ks)
    ensures WellFormed(ks) && (IsStored(ks, q) <==> q in ks.keys)
    ensures forall i: nat :: Decides(ks, q, i) <==> FirstPair(ks, q, i)
  {
    forall i: nat | i < |ks.keys|
      ensures !Dropped(ks, i)
    {
      NothingDropped(ks, i);
    }
    AcceptedForms(ks);
    hide Accepted, WellFormed, Dropped, Before;
    if ks.values.Some? {
      forall i: nat
        ensures Decides(ks, q, i) <==> FirstPair(ks, q, i)
      {
        DecidesIs(ks, q, i);
        hide Decides;
        if FirstPair(ks, q, i) {
          assert ks.following[i] == 0;
        }
      }
    }
  }

  // Reports.

  /** What an error says of the keyset. */
  lemma {:induction false} ReportedIs(ks: Keyset, error: BuildError)
    requires ks.Valid() && Reported(ks, error)
    ensures error == InvalidNull ==> !NoZeroByte(ks)
    ensures error == NegativeValue ==> !NonNegative(ks)
    ensures error == ZeroLength ==> ks.values.Some? && [] in ks.keys
    ensures error == WrongOrder ==>
      exists i: nat, j: nat :: j < i < |ks.keys| && !InByteOrder(ks.keys[j], ks.keys[i])
  {
    hide InByteOrder, KeyLeq, NulFreeKey, Justified;
    if error == TooLargeOffset {
    } else if ks.values.Some? {
      FaultIs(ks, |ks.keys|);
    } else {
      JustifiedIs(ks, error);
    }
  }

  lemma {:induction false} FaultIs(ks: Keyset, n: nat)
    requires ks.Valid() && ks.values.Some? && n <= |ks.keys|
    ensures var r := FirstOutcome(ks, n);
      && (r == Failed(InvalidNull) ==> !NoZeroByte(ks))
      && (r == Failed(NegativeValue) ==> !NonNegative(ks))
      && (r == Failed(ZeroLength) ==> [] in ks.keys)
      && (r == Failed(WrongOrder) ==>
            exists i: nat, j: nat :: j < i < |ks.keys| && !InByteOrder(ks.keys[j], ks.keys[i]))
    decreases n
  {
    hide KeyOutcome, NoZeroByte, NonNegative, InByteOrder;
    if n > 0 {
      FaultIs(ks, n - 1);
      OneFault(ks, n - 1);
    }
  }

  lemma {:induction false} OneFault(ks: Keyset, i: nat)
    requires ks.Valid() && ks.values.Some? && i < |ks.keys|
    ensures var r := KeyOutcome(ks, i);
      && (r == Failed(InvalidNull) ==> !NoZeroByte(ks))
      && (r == Failed(NegativeValue) ==> !NonNegative(ks))
      && (r == Failed(ZeroLength) ==> [] in ks.keys)
      && (r == Failed(WrongOrder) ==>
            exists i: nat, j: nat :: j < i < |ks.keys| && !InByteOrder(ks.keys[j], ks.keys[i]))
  {
    hide SlipsPast, KeyLeq, InByteOrder;
    if Before(ks, i).Some? {
      var j := BeforeIndex(ks, i);
      hide Before;
      ByteOrder(ks.keys[j], ks.keys[i]);
    }
  }

  lemma {:induction false} JustifiedIs(ks: Keyset, error: BuildError)
    requires ks.Valid() && ks.values.None?
    ensures InRange(ks, 0, |ks.keys|, 0)
    ensures Justified(ks, 0, |ks.keys|, 0, error) ==>
      && (error == InvalidNull ==> !NoZeroByte(ks))
      && (error == NegativeValue ==> !NonNegative(ks))
      && error != ZeroLength
      && (error == WrongOrder ==>
            exists i: nat, j: nat :: j < i < |ks.keys| && !InByteOrder(ks.keys[j], ks.keys[i]))
  {
    hide KeyLeq, InByteOrder;
    IndexValues(ks);
    assert forall i :: 0 <= i < |ks.keys| ==> ks.keys[i][0..] == ks.keys[i];
    forall i: nat | i + 1 < |ks.keys|
      ensures InOrder(ks, i, 0) <==> InByteOrder(ks.keys[i], ks.keys[i + 1])
    {
      ByteOrder(ks.keys[i], ks.keys[i + 1]);
    }
  }

  // Sizes.

  /** The bytes of two lists of keys together, and of one key with its terminator. */
  lemma {:induction false} BytesOfKeys(a: seq<Key>, b: seq<Key>, k: Key)
    ensures KeysetBytes(a + b) == KeysetBytes(a) + KeysetBytes(b)
    ensures KeysetBytes([k]) == |k| + 1
    decreases |b|
  {
    assert [k][..0] == [];
    if b == [] {
      assert a + b == a;
    } else {
      BytesOfKeys(a, b[..|b| - 1], k);
      assert (a + b)[..|a + b| - 1] == a + b[..|b| - 1];
    }
  }
}
